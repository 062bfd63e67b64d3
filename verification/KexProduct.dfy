/** Client and server of the key exchange joined by two first-in first-out channels. */
module KexProduct {
  import opened Wrappers
  import opened KexProtocol
  import C = KexClient
  import S = KexServer
  import DH = DiffieHellman

  datatype System = System(client: C.Client, server: S.Server, c2s: seq<Message>, s2c: seq<Message>)

  /** The steps of the two programs. What the mechanisms answer is free. */
  datatype Action =
    | ClientInit(r: GssResult)
    | ClientRead
    | ClientVerify
    | ServerRead
    | ServerAccept(r: GssResult)

  ghost predicate ClientWaits(y: System) {
    y.client.phase.AwaitGroup? || y.client.phase.Reading?
  }

  ghost predicate ServerWaits(y: System) {
    y.server.phase.AwaitGroupReq? || y.server.phase.Reading?
  }

  ghost predicate Enabled(y: System, a: Action) {
    match a
    case ClientInit(_) => y.client.phase.CallInit?
    case ClientRead => ClientWaits(y) && y.s2c != []
    case ClientVerify => y.client.phase.Verifying?
    case ServerRead => ServerWaits(y) && y.c2s != []
    case ServerAccept(_) => y.server.phase.CallAccept?
  }

  ghost function Start(cfg: Config): System {
    System(C.Start(cfg), S.Start(cfg), C.Start(cfg).sent, [])
  }

  ghost function ReadByClient(cfg: Config, c: C.Client, m: Message): C.Client
    requires c.phase.AwaitGroup? || c.phase.Reading?
  {
    if c.phase.AwaitGroup? then C.ReadGroup(cfg, c, m) else C.Read(c, m)
  }

  ghost function ReadByServer(cfg: Config, s: S.Server, m: Message): S.Server
    requires s.phase.AwaitGroupReq? || s.phase.Reading?
  {
    if s.phase.AwaitGroupReq? then S.ReadGroupReq(cfg, s, m) else S.Read(cfg, s, m)
  }

  /** What a step has sent goes to the end of the channel. */
  ghost function Fresh(before: seq<Message>, after: seq<Message>): seq<Message>
    requires |before| <= |after|
  {
    after[|before|..]
  }

  ghost function Step(cfg: Config, y: System, a: Action): System
    requires Enabled(y, a)
  {
    match a
    case ClientInit(r) =>
      var c := C.AfterInit(cfg, y.client, r);
      y.(client := c, c2s := y.c2s + Fresh(y.client.sent, c.sent))
    case ClientRead =>
      y.(client := ReadByClient(cfg, y.client, y.s2c[0]), s2c := y.s2c[1..])
    case ClientVerify =>
      y.(client := C.Verify(cfg, y.client))
    case ServerRead =>
      var s := ReadByServer(cfg, y.server, y.c2s[0]);
      y.(server := s, c2s := y.c2s[1..], s2c := y.s2c + Fresh(y.server.sent, s.sent))
    case ServerAccept(r) =>
      var s := S.AfterAccept(cfg, y.server, r);
      y.(server := s, s2c := y.s2c + Fresh(y.server.sent, s.sent))
  }

  ghost predicate Legal(cfg: Config, y: System, acts: seq<Action>)
    decreases |acts|
  {
    acts == [] || (Enabled(y, acts[0]) && Legal(cfg, Step(cfg, y, acts[0]), acts[1..]))
  }

  /** The system after a run of any length. */
  ghost function After(cfg: Config, y: System, acts: seq<Action>): System
    requires Legal(cfg, y, acts)
    decreases |acts|
  {
    if acts == [] then y else After(cfg, Step(cfg, y, acts[0]), acts[1..])
  }

  // ---------------------------------------------------------------------------
  // What every step keeps

  /** Nothing is lost, changed or reordered on the way. */
  ghost predicate Fifo(y: System) {
    && y.server.received + y.c2s == y.client.sent
    && y.client.received + y.s2c == y.server.sent
  }

  ghost predicate ClientEnded(y: System) {
    y.client.phase.Derived? || y.client.phase.Stopped?
  }

  ghost predicate ServerEnded(y: System) {
    y.server.phase.Derived? || y.server.phase.Stopped?
  }

  /** How many parties are running and how many messages are under way. */
  ghost function Activity(y: System): nat {
    (if y.client.phase.CallInit? || y.client.phase.Verifying? then 1 else 0)
    + (if y.server.phase.CallAccept? then 1 else 0)
    + |y.c2s| + |y.s2c|
  }

  /** Until one side ends, exactly one party runs or exactly one message is under way. */
  ghost predicate OneTurn(y: System) {
    !ClientEnded(y) && !ServerEnded(y) ==>
      && Activity(y) == 1
      && !y.client.phase.Verifying?
      && (y.client.phase.AwaitGroup? <==> y.server.phase.AwaitGroupReq? || (y.s2c != [] && y.s2c[0].GroupMsg?))
  }

  ghost predicate Inv(cfg: Config, y: System) {
    C.Inv(cfg, y.client) && S.Inv(cfg, y.server) && S.Safe(cfg, y.server) && Fifo(y) && OneTurn(y)
  }

  lemma StartKeeps(cfg: Config)
    ensures Inv(cfg, Start(cfg))
  {
    C.StartKeeps(cfg);
    S.StartKeeps(cfg);
    S.StartIsSafe(cfg);
  }

  /** What the client has read was sent by the server. */
  lemma ReadWasSent(y: System, m: Message)
    requires Fifo(y)
    ensures m in y.client.received || m in y.s2c ==> m in y.server.sent
    ensures m in y.server.received || m in y.c2s ==> m in y.client.sent
  {
  }

  /** A client that has seen COMPLETE faces a server that has derived its keys. */
  lemma CompleteMeansDerived(cfg: Config, y: System)
    requires Inv(cfg, y) && !y.client.phase.Stopped? && y.client.complete.Some?
    ensures y.server.phase.Derived?
  {
    var (pub, mic) := y.client.complete.value;
    var t :| Complete(pub, mic, t) in y.client.received;
    ReadWasSent(y, Complete(pub, mic, t));
  }

  /** A server that still awaits the size request has sent nothing. */
  lemma NothingSentYet(cfg: Config, y: System)
    requires Inv(cfg, y) && y.server.phase.AwaitGroupReq?
    ensures y.s2c == []
  {
    assert y.server.sent == [];
  }

  ghost predicate Extends(before: seq<Message>, after: seq<Message>) {
    |before| <= |after| && after == before + Fresh(before, after)
  }

  lemma StepsOnlyAppend(cfg: Config, y: System, a: Action)
    requires Enabled(y, a)
    ensures a.ClientInit? ==> Extends(y.client.sent, C.AfterInit(cfg, y.client, a.r).sent)
    ensures a.ServerRead? ==> Extends(y.server.sent, ReadByServer(cfg, y.server, y.c2s[0]).sent)
    ensures a.ServerAccept? ==> Extends(y.server.sent, S.AfterAccept(cfg, y.server, a.r).sent)
  {
  }

  lemma Reassociate(a: seq<Message>, b: seq<Message>, c: seq<Message>)
    ensures a + (b + c) == (a + b) + c
  {
  }

  lemma StepKeepsFifo(cfg: Config, y: System, a: Action)
    requires Enabled(y, a) && Fifo(y)
    ensures Fifo(Step(cfg, y, a))
  {
    StepsOnlyAppend(cfg, y, a);
    var z := Step(cfg, y, a);
    match a
    case ClientInit(r) =>
      Reassociate(y.server.received, y.c2s, Fresh(y.client.sent, z.client.sent));
    case ClientRead =>
      assert y.s2c == [y.s2c[0]] + y.s2c[1..];
      Reassociate(y.client.received, [y.s2c[0]], y.s2c[1..]);
    case ClientVerify =>
    case ServerRead =>
      assert y.c2s == [y.c2s[0]] + y.c2s[1..];
      Reassociate(y.server.received, [y.c2s[0]], y.c2s[1..]);
      Reassociate(y.client.received, y.s2c, Fresh(y.server.sent, z.server.sent));
    case ServerAccept(r) =>
      Reassociate(y.client.received, y.s2c, Fresh(y.server.sent, z.server.sent));
  }

  lemma ClientStepsKeep(cfg: Config, y: System, a: Action)
    requires Enabled(y, a) && Inv(cfg, y)
    ensures C.Inv(cfg, Step(cfg, y, a).client)
  {
    match a
    case ClientInit(r) => C.AfterInitKeeps(cfg, y.client, r);
    case ClientRead =>
      if y.client.phase.AwaitGroup? {
        C.ReadGroupKeeps(cfg, y.client, y.s2c[0]);
      } else {
        C.ReadKeeps(cfg, y.client, y.s2c[0]);
      }
    case ClientVerify => C.VerifyKeeps(cfg, y.client);
    case _ =>
  }

  lemma ServerStepsKeep(cfg: Config, y: System, a: Action)
    requires Enabled(y, a) && Inv(cfg, y)
    ensures S.Inv(cfg, Step(cfg, y, a).server) && S.Safe(cfg, Step(cfg, y, a).server)
  {
    match a
    case ServerRead =>
      if y.server.phase.AwaitGroupReq? {
        S.ReadGroupReqKeeps(cfg, y.server, y.c2s[0]);
        S.ReadGroupReqIsSafe(cfg, y.server, y.c2s[0]);
      } else {
        S.ReadKeeps(cfg, y.server, y.c2s[0]);
        S.ReadIsSafe(cfg, y.server, y.c2s[0]);
      }
    case ServerAccept(r) =>
      S.AfterAcceptKeeps(cfg, y.server, r);
      S.AfterAcceptIsSafe(cfg, y.server, r);
    case _ =>
  }

  lemma ClientInitTurn(cfg: Config, y: System, r: GssResult)
    requires Inv(cfg, y) && y.client.phase.CallInit?
    ensures OneTurn(Step(cfg, y, ClientInit(r)))
  {
    if y.client.complete.Some? {
      CompleteMeansDerived(cfg, y);
    }
  }

  lemma ClientReadTurn(cfg: Config, y: System)
    requires Inv(cfg, y) && ClientWaits(y) && y.s2c != []
    ensures OneTurn(Step(cfg, y, ClientRead))
  {
    var m := y.s2c[0];
    if !ServerEnded(y) {
      ReadWasSent(y, m);
      if y.server.phase.AwaitGroupReq? {
        NothingSentYet(cfg, y);
      }
      S.NoCompleteYet(cfg, y.server);
      assert !m.Complete? && y.s2c == [m];
    }
  }

  lemma ServerReadTurn(cfg: Config, y: System)
    requires Inv(cfg, y) && ServerWaits(y) && y.c2s != []
    ensures OneTurn(Step(cfg, y, ServerRead))
  {
    if y.server.phase.AwaitGroupReq? {
      NothingSentYet(cfg, y);
    }
  }

  lemma ServerAcceptTurn(cfg: Config, y: System, r: GssResult)
    requires Inv(cfg, y) && y.server.phase.CallAccept?
    ensures OneTurn(Step(cfg, y, ServerAccept(r)))
  {
  }

  lemma StepKeeps(cfg: Config, y: System, a: Action)
    requires Enabled(y, a) && Inv(cfg, y)
    ensures Inv(cfg, Step(cfg, y, a))
  {
    StepKeepsFifo(cfg, y, a);
    ClientStepsKeep(cfg, y, a);
    ServerStepsKeep(cfg, y, a);
    match a
    case ClientInit(r) => ClientInitTurn(cfg, y, r);
    case ClientRead => ClientReadTurn(cfg, y);
    case ClientVerify =>
    case ServerRead => ServerReadTurn(cfg, y);
    case ServerAccept(r) => ServerAcceptTurn(cfg, y, r);
  }

  lemma {:induction false} RunKeeps(cfg: Config, y: System, acts: seq<Action>)
    requires Inv(cfg, y) && Legal(cfg, y, acts)
    ensures Inv(cfg, After(cfg, y, acts))
    decreases |acts|
  {
    if acts != [] {
      StepKeeps(cfg, y, acts[0]);
      RunKeeps(cfg, Step(cfg, y, acts[0]), acts[1..]);
    }
  }

  lemma EveryRunKeeps(cfg: Config, acts: seq<Action>)
    requires Legal(cfg, Start(cfg), acts)
    ensures Inv(cfg, After(cfg, Start(cfg), acts))
  {
    StartKeeps(cfg);
    RunKeeps(cfg, Start(cfg), acts);
  }

  // ---------------------------------------------------------------------------
  // The two never wait on each other

  /** In every run: until one side ends, one thing is going on, and some step can be taken. */
  lemma NeverBothWaiting(cfg: Config, acts: seq<Action>)
    requires Legal(cfg, Start(cfg), acts)
    ensures var y := After(cfg, Start(cfg), acts);
            !ClientEnded(y) && !ServerEnded(y) ==>
              && Activity(y) == 1
              && exists a :: Enabled(y, a)
  {
    EveryRunKeeps(cfg, acts);
    var y := After(cfg, Start(cfg), acts);
    if !ClientEnded(y) && !ServerEnded(y) {
      var r := GssResult(Major(true, false, false), [], false, false);
      if y.client.phase.CallInit? {
        assert Enabled(y, ClientInit(r));
      } else if y.server.phase.CallAccept? {
        assert Enabled(y, ServerAccept(r));
      } else if y.c2s != [] {
        assert Enabled(y, ServerRead);
      } else {
        assert Enabled(y, ClientRead);
      }
    }
  }

  // ---------------------------------------------------------------------------
  // Each mechanism gets what the other one gave

  ghost predicate Relays(y: System) {
    C.Relays(y.client) && S.Relays(y.server)
  }

  lemma StepRelays(cfg: Config, y: System, a: Action)
    requires Enabled(y, a) && C.Inv(cfg, y.client) && Relays(y)
    ensures Relays(Step(cfg, y, a))
  {
    match a
    case ClientInit(r) => C.AfterInitRelays(cfg, y.client, r);
    case ClientRead =>
      if y.client.phase.AwaitGroup? {
        C.ReadGroupRelays(cfg, y.client, y.s2c[0]);
      } else {
        C.ReadRelays(cfg, y.client, y.s2c[0]);
      }
    case ClientVerify =>
    case ServerRead =>
      if y.server.phase.AwaitGroupReq? {
        S.ReadGroupReqRelays(cfg, y.server, y.c2s[0]);
      } else {
        S.ReadRelays(cfg, y.server, y.c2s[0]);
      }
    case ServerAccept(r) => S.AfterAcceptRelays(cfg, y.server, r);
  }

  lemma {:induction false} RunRelays(cfg: Config, y: System, acts: seq<Action>)
    requires Inv(cfg, y) && Relays(y) && Legal(cfg, y, acts)
    ensures Relays(After(cfg, y, acts))
    decreases |acts|
  {
    if acts != [] {
      StepKeeps(cfg, y, acts[0]);
      StepRelays(cfg, y, acts[0]);
      RunRelays(cfg, Step(cfg, y, acts[0]), acts[1..]);
    }
  }

  lemma EveryRunRelays(cfg: Config, acts: seq<Action>)
    requires Legal(cfg, Start(cfg), acts)
    ensures Relays(After(cfg, Start(cfg), acts)) && Fifo(After(cfg, Start(cfg), acts))
  {
    StartKeeps(cfg);
    C.StartRelays(cfg);
    S.StartRelays(cfg);
    EveryRunKeeps(cfg, acts);
    RunRelays(cfg, Start(cfg), acts);
  }

  /**
   In every run, as long as neither side has stopped: the tokens fed to each mechanism are those the other
   one produced, unchanged and in order, up to what is still under way.
   */
  lemma TokensAreRelayed(cfg: Config, acts: seq<Action>)
    requires Legal(cfg, Start(cfg), acts)
    ensures var y := After(cfg, Start(cfg), acts);
            !y.client.phase.Stopped? && !y.server.phase.Stopped? ==>
              && y.server.fed <= Produced(y.client.inits)
              && y.client.fed <= Produced(y.server.accepts)
  {
    EveryRunRelays(cfg, acts);
    var y := After(cfg, Start(cfg), acts);
    if !y.client.phase.Stopped? && !y.server.phase.Stopped? {
      FedWasProduced(y);
    }
  }

  lemma FedWasProduced(y: System)
    requires Relays(y) && Fifo(y) && !y.client.phase.Stopped? && !y.server.phase.Stopped?
    ensures y.server.fed <= Produced(y.client.inits)
    ensures y.client.fed <= Produced(y.server.accepts)
  {
    TokensOfPrefix(y.server.received, y.client.sent);
    TokensOfPrefix(y.client.received, y.server.sent);
  }

  // ---------------------------------------------------------------------------
  // Both sides hold the same secret and have hashed the same inputs

  /** Both ends know the same version strings and the same two KEXINIT packets. */
  ghost predicate SameConnection(cfg: Config) {
    && cfg.client.clientVersion == cfg.server.clientVersion
    && cfg.client.serverVersion == cfg.server.serverVersion
    && cfg.client.my == cfg.server.peer
    && cfg.client.peer == cfg.server.my
  }

  /** The server's view of group, keys and sizes is the client's. */
  lemma ViewsAgree(cfg: Config, y: System)
    requires Inv(cfg, y) && !y.client.phase.Stopped? && y.client.complete.Some?
    ensures y.server.phase.Derived? && y.client.group.Some?
    ensures y.server.group == y.client.group
    ensures y.server.clientPub == Some(C.ClientPub(cfg, y.client))
    ensures y.client.complete.value.0 == S.ServerPub(cfg, y.server)
    ensures cfg.sign(cfg.hash(y.server.phase.hashed)) == Some(y.client.complete.value.1)
    ensures y.client.hostKey == None
  {
    CompleteMeansDerived(cfg, y);
    GroupsAgree(cfg, y);
    ClientKeysAgree(cfg, y);
    FinalMessageAgrees(cfg, y);
    if y.client.hostKey.Some? {
      ReadWasSent(y, HostKey(y.client.hostKey.value));
    }
  }

  lemma GroupsAgree(cfg: Config, y: System)
    requires Inv(cfg, y) && !y.client.phase.Stopped? && !y.client.phase.AwaitGroup? && y.server.phase.Derived?
    ensures y.client.group.Some? && y.server.group == y.client.group
  {
    if cfg.kind.GroupExchange? {
      ReadWasSent(y, GroupMsg(y.client.group.value));
    }
  }

  lemma ClientKeysAgree(cfg: Config, y: System)
    requires Inv(cfg, y) && !y.client.phase.Stopped? && y.server.phase.Derived?
    ensures y.server.clientPub == Some(C.ClientPub(cfg, y.client))
  {
    var pub := y.server.clientPub.value;
    var t :| Init(t, pub) in y.server.received;
    ReadWasSent(y, Init(t, pub));
  }

  lemma FinalMessageAgrees(cfg: Config, y: System)
    requires Inv(cfg, y) && !y.client.phase.Stopped? && y.client.complete.Some?
    requires y.server.phase.Derived?
    ensures y.client.complete.value.0 == S.ServerPub(cfg, y.server)
    ensures cfg.sign(cfg.hash(y.server.phase.hashed)) == Some(y.client.complete.value.1)
  {
    var (pub, mic) := y.client.complete.value;
    var t :| Complete(pub, mic, t) in y.client.received;
    ReadWasSent(y, Complete(pub, mic, t));
  }

  /** The size asked for lies in the range both sides allow; the server then does not clamp it. */
  ghost predicate SizeInRange(cfg: Config) {
    cfg.kind.GroupExchange? ==> cfg.groupMin <= cfg.kind.nbits <= cfg.groupMax
  }

  lemma SizesAgreeExactly(cfg: Config, y: System)
    requires Inv(cfg, y) && !y.client.phase.Stopped? && y.client.complete.Some?
    requires y.server.phase.Derived? && y.server.group == y.client.group && y.client.group.Some?
    ensures y.server.gex == C.HashOf(cfg, y.client).gex <==> SizeInRange(cfg)
  {
    if cfg.kind.GroupExchange? {
      assert y.server.received[0] == y.client.sent[0];
    }
  }

  /**
   In every honest run in which the client has the final message: both sides compute the same
   secret, and they hash the same inputs exactly when the size asked for needs no clamping.
   */
  lemma HonestRunsAgree(cfg: Config, acts: seq<Action>)
    requires SameConnection(cfg)
    requires Legal(cfg, Start(cfg), acts)
    ensures var y := After(cfg, Start(cfg), acts);
            !y.client.phase.Stopped? && y.client.complete.Some? ==>
              && y.server.phase.Derived? && y.client.group.Some?
              && C.HashOf(cfg, y.client).secret == y.server.phase.secret
              && cfg.clientKey.Some? && cfg.serverKey.Some?
              && (var group := y.client.group.value; group.p > 0 ==>
                    y.server.phase.secret == DH.Power(group.g, cfg.clientKey.value * cfg.serverKey.value) % group.p)
              && (C.HashOf(cfg, y.client) == y.server.phase.hashed <==> SizeInRange(cfg))
  {
    EveryRunKeeps(cfg, acts);
    var y := After(cfg, Start(cfg), acts);
    if !y.client.phase.Stopped? && y.client.complete.Some? {
      ViewsAgree(cfg, y);
      SizesAgreeExactly(cfg, y);
      var group := y.client.group.value;
      DH.SecretsAgree(group.g, cfg.clientKey.value, cfg.serverKey.value, group.p);
    }
  }

  /** So the client's last step accepts the MIC and ends with the server's secret, if the public key is valid. */
  lemma HonestClientAcceptsTheMic(cfg: Config, acts: seq<Action>)
    requires SameConnection(cfg) && SizeInRange(cfg)
    requires forall h, m :: cfg.sign(h) == Some(m) ==> cfg.checkMic(h, m)
    requires Legal(cfg, Start(cfg), acts)
    ensures var y := After(cfg, Start(cfg), acts);
            y.client.phase.Verifying? ==>
              && y.client.group.Some? && y.client.complete.Some? && y.server.phase.Derived?
              && Enabled(y, ClientVerify)
              && Step(cfg, y, ClientVerify).client.phase ==
                 if cfg.validPub(y.client.group.value, y.client.complete.value.0)
                 then C.Derived(y.server.phase.secret, y.server.phase.hashed) else C.Stopped
  {
    HonestRunsAgree(cfg, acts);
    EveryRunKeeps(cfg, acts);
    var y := After(cfg, Start(cfg), acts);
    if y.client.phase.Verifying? {
      ViewsAgree(cfg, y);
    }
  }
}
