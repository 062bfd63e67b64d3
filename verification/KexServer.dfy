/** The server of the key exchange (kexgsss.c) as a step machine. */
module KexServer {
  import opened Wrappers
  import opened KexProtocol

  datatype Phase =
    | AwaitGroupReq                       // group exchange: the size request is awaited
    | Reading                             // a token message is awaited
    | CallAccept(input: Octets)           // about to call gss_accept_sec_context
    | Derived(secret: nat, hashed: HashInputs)
    | Stopped                             // fatal, disconnect or error return

  datatype Server = Server(
    phase: Phase,
    group: Option<Group>,
    gex: GexInputs,
    clientPub: Option<nat>,
    sent: seq<Message>,
    received: seq<Message>,
    accepts: seq<GssResult>,
    fed: seq<Octets>)                     // the tokens handed to gss_accept_sec_context

  function Stop(s: Server): Server {
    s.(phase := Stopped)
  }

  function Send(s: Server, m: Message): Server {
    s.(sent := s.sent + [m])
  }

  function Start(cfg: Config): Server {
    match cfg.kind
    case FixedGroup(group) => Server(Reading, Some(group), NoGex, None, [], [], [], [])
    case GroupExchange(_) => Server(AwaitGroupReq, None, NoGex, None, [], [], [], [])
  }

  function ServerPub(cfg: Config, s: Server): nat {
    if s.group.None? then 0 else Pub(s.group.value, cfg.serverKey)
  }

  /**
   The size request. The range is narrowed to what the server allows and the wanted size is
   clamped; the clamped size, with the client's own bounds, is what will be hashed.
   */
  function ReadGroupReq(cfg: Config, s: Server, m: Message): Server
    requires s.phase.AwaitGroupReq?
  {
    var s := s.(received := s.received + [m]);
    if !m.GroupReq? then Stop(s)
    else
      var min := if m.min < cfg.groupMin then cfg.groupMin else m.min;
      var max := if m.max > cfg.groupMax then cfg.groupMax else m.max;
      var nbits := Clamp(cfg.groupMin, cfg.groupMax, m.nbits);
      if max < min || nbits < min || max < nbits then Stop(s)
      else
        match cfg.choose(min, nbits, max)
        case None => Stop(s)
        case Some(group) =>
          var s := Send(s, GroupMsg(group)).(group := Some(group), gex := Gex(m.min, nbits, m.max, group));
          if cfg.serverKey.None? then Stop(s) else s.(phase := Reading)
  }

  /** One packet of the token loop. With a fixed group the client's key is used, and checked, at once. */
  function Read(cfg: Config, s: Server, m: Message): Server
    requires s.phase.Reading?
  {
    var s := s.(received := s.received + [m]);
    match m
    case Init(token, pub) =>
      if s.clientPub.Some? then Stop(s)
      else
        var s := s.(clientPub := Some(pub));
        if cfg.kind.FixedGroup? && (cfg.serverKey.None? || s.group.None? || !cfg.validPub(s.group.value, pub))
        then Stop(s)
        else s.(phase := CallAccept(token))
    case Continue(token) => s.(phase := CallAccept(token))
    case _ => Stop(s)
  }

  function HashOf(cfg: Config, s: Server): HashInputs
    requires s.group.Some? && s.clientPub.Some?
  {
    var group, clientPub := s.group.value, s.clientPub.value;
    HashInputs(
      cfg.server.clientVersion, cfg.server.serverVersion, cfg.server.peer, cfg.server.my,
      [],
      s.gex,
      clientPub, ServerPub(cfg, s),
      Secret(group, cfg.serverKey, clientPub))
  }

  function Fed(s: Server): seq<Octets> {
    if s.phase.CallAccept? then s.fed + [s.phase.input] else s.fed
  }

  /** One call of gss_accept_sec_context and what follows it up to the next read or the end. */
  function AfterAccept(cfg: Config, s: Server, r: GssResult): Server
    requires s.phase.CallAccept?
  {
    var s := s.(accepts := s.accepts + [r], fed := Fed(s));
    if !r.maj.Complete() && r.token == [] then Stop(s)
    else if s.clientPub.None? then Stop(s)
    else if r.maj.continueNeeded then Send(s, Continue(r.token)).(phase := Reading)
    else if r.maj.error then Stop(if r.token != [] then Send(s, Continue(r.token)) else s)
    else if !r.mutual then Stop(s)
    else if !r.integ then Stop(s)
    else Conclude(cfg, s, r.token)
  }

  /** The shared secret, the exchange hash, its MIC and the final message. */
  function Conclude(cfg: Config, s: Server, token: Octets): Server {
    if s.group.None? || s.clientPub.None? then Stop(s)
    else if cfg.kind.GroupExchange? && !cfg.validPub(s.group.value, s.clientPub.value) then Stop(s)
    else
      var h := HashOf(cfg, s);
      match cfg.sign(cfg.hash(h))
      case None => Stop(s)
      case Some(mic) =>
        Send(s, Complete(ServerPub(cfg, s), mic, if token != [] then Some(token) else None))
          .(phase := Derived(h.secret, h))
  }

  /** A whole run, fed with what the mechanism and the peer give. */
  function Exchange(cfg: Config, s: Server, accepts: seq<GssResult>, packets: seq<Message>): (r: Server)
    decreases |accepts| + |packets|
  {
    match s.phase
    case AwaitGroupReq =>
      if packets == [] then s else Exchange(cfg, ReadGroupReq(cfg, s, packets[0]), accepts, packets[1..])
    case Reading =>
      if packets == [] then s else Exchange(cfg, Read(cfg, s, packets[0]), accepts, packets[1..])
    case CallAccept(_) =>
      if accepts == [] then s else Exchange(cfg, AfterAccept(cfg, s, accepts[0]), accepts[1..], packets)
    case _ => s
  }

  // ---------------------------------------------------------------------------
  // What every step keeps

  ghost predicate SentShape(cfg: Config, s: Server) {
    var k := if cfg.kind.GroupExchange? && !s.phase.AwaitGroupReq? then 1 else 0;
    && |s.sent| >= k
    && (k == 1 ==> s.group.Some? && s.sent[0] == GroupMsg(s.group.value))
    && (|s.sent| > k ==> s.clientPub.Some?)
    && (forall i :: k <= i < |s.sent| ==>
          s.sent[i].Continue? || (s.phase.Derived? && i == |s.sent| - 1 && s.sent[i].Complete?))
  }

  ghost predicate ReceivedShape(s: Server) {
    && Count(IS_INIT, s.received) == (if s.clientPub.Some? then 1 else 0)
    && (s.clientPub.Some? ==> exists t :: Init(t, s.clientPub.value) in s.received)
  }

  /** The final message belongs to what was hashed, to a valid key and to a context with both flags. */
  ghost predicate Concluded(cfg: Config, s: Server) {
    && s.phase.Derived?
    && s.group.Some? && s.clientPub.Some? && cfg.validPub(s.group.value, s.clientPub.value)
    && s.phase.hashed == HashOf(cfg, s) && s.phase.secret == s.phase.hashed.secret
    && s.sent != []
    && (var m := s.sent[|s.sent| - 1];
        m.Complete? && m.pub == ServerPub(cfg, s) && cfg.sign(cfg.hash(s.phase.hashed)) == Some(m.mic))
    && s.accepts != []
    && (var r := s.accepts[|s.accepts| - 1];
        r.mutual && r.integ && !r.maj.error && !r.maj.continueNeeded)
  }

  /** The group, and the sizes that go with it into the hash. */
  ghost predicate GroupShape(cfg: Config, s: Server) {
    match cfg.kind
    case FixedGroup(group) =>
      s.group == Some(group) && s.gex == NoGex && (s.clientPub.Some? ==> cfg.validPub(group, s.clientPub.value))
    case GroupExchange(_) =>
      || s.phase.AwaitGroupReq?
      || (&& s.group.Some? && s.received != [] && s.received[0].GroupReq?
          && cfg.serverKey.Some?
          && var m := s.received[0];
             && s.gex == Gex(m.min, Clamp(cfg.groupMin, cfg.groupMax, m.nbits), m.max, s.group.value)
             && cfg.groupMin <= s.gex.nbits <= cfg.groupMax)
  }

  /** What holds of a server that has not stopped, whatever the peer and the mechanism do. */
  ghost predicate Inv(cfg: Config, s: Server) {
    s.phase.Stopped? ||
    (&& SentShape(cfg, s)
     && ReceivedShape(s)
     && (s.phase.AwaitGroupReq? ==> s.clientPub.None? && s.received == [] && cfg.kind.GroupExchange?)
     && GroupShape(cfg, s)
     && (s.clientPub.Some? ==> cfg.serverKey.Some?)
     && (s.phase.Derived? ==> Concluded(cfg, s)))
  }

  lemma StartKeeps(cfg: Config)
    ensures Inv(cfg, Start(cfg))
  {
  }

  predicate Within(x: int, lo: int, hi: int) {
    lo <= x <= hi
  }

  function Distance(a: int, b: int): nat {
    if a < b then b - a else a - b
  }

  /** No number between the bounds lies nearer to the one asked for. */
  ghost predicate Nearest(k: int, n: int, lo: int, hi: int) {
    Within(k, lo, hi) && forall x :: Within(x, lo, hi) ==> Distance(k, n) <= Distance(x, n)
  }

  /**
   A size request is served exactly when the server's size nearest to the one asked for also lies within the
   client's bounds and a group and a key can be had. The group is chosen within the bounds of both, and that
   nearest size is hashed, with the client's own bounds.
   */
  lemma RequestIsServedExactly(cfg: Config, s: Server, m: Message) returns (min: int, k: int, max: int)
    requires s.phase.AwaitGroupReq? && m.GroupReq?
    ensures forall x :: Within(x, min, max) <==> Within(x, m.min, m.max) && Within(x, cfg.groupMin, cfg.groupMax)
    ensures cfg.groupMin <= cfg.groupMax ==> Nearest(k, m.nbits, cfg.groupMin, cfg.groupMax)
    ensures var z, group := ReadGroupReq(cfg, s, m), cfg.choose(min, k, max);
            && (z.phase.Reading? <==>
                  && cfg.groupMin <= cfg.groupMax && Within(k, m.min, m.max)
                  && group.Some? && cfg.serverKey.Some?)
            && (z.phase.Reading? ==>
                  && z.group == group && z.gex == Gex(m.min, k, m.max, group.value)
                  && z.sent == s.sent + [GroupMsg(group.value)])
            && (!z.phase.Reading? ==> z.phase.Stopped?)
  {
    min := if m.min < cfg.groupMin then cfg.groupMin else m.min;
    max := if m.max > cfg.groupMax then cfg.groupMax else m.max;
    k := Clamp(cfg.groupMin, cfg.groupMax, m.nbits);
  }

  lemma ReadGroupReqKeeps(cfg: Config, s: Server, m: Message)
    requires Inv(cfg, s) && s.phase.AwaitGroupReq?
    ensures Inv(cfg, ReadGroupReq(cfg, s, m))
  {
    CountAppend(IS_INIT, s.received, m);
  }

  lemma ReadKeeps(cfg: Config, s: Server, m: Message)
    requires Inv(cfg, s) && s.phase.Reading?
    ensures Inv(cfg, Read(cfg, s, m))
  {
    CountAppend(IS_INIT, s.received, m);
    var ms := s.received + [m];
    assert ms[|ms| - 1] == m;
    assert forall x :: x in s.received ==> x in ms;
  }

  lemma AfterAcceptKeeps(cfg: Config, s: Server, r: GssResult)
    requires Inv(cfg, s) && s.phase.CallAccept?
    ensures Inv(cfg, AfterAccept(cfg, s, r))
  {
  }

  lemma {:induction false} ExchangeKeeps(cfg: Config, s: Server, accepts: seq<GssResult>, packets: seq<Message>)
    requires Inv(cfg, s)
    ensures Inv(cfg, Exchange(cfg, s, accepts, packets))
    decreases |accepts| + |packets|
  {
    match s.phase
    case AwaitGroupReq =>
      if packets != [] {
        ReadGroupReqKeeps(cfg, s, packets[0]);
        ExchangeKeeps(cfg, ReadGroupReq(cfg, s, packets[0]), accepts, packets[1..]);
      }
    case Reading =>
      if packets != [] {
        ReadKeeps(cfg, s, packets[0]);
        ExchangeKeeps(cfg, Read(cfg, s, packets[0]), accepts, packets[1..]);
      }
    case CallAccept(_) =>
      if accepts != [] {
        AfterAcceptKeeps(cfg, s, accepts[0]);
        ExchangeKeeps(cfg, AfterAccept(cfg, s, accepts[0]), accepts[1..], packets);
      }
    case _ =>
  }

  // ---------------------------------------------------------------------------
  // Tokens go through unchanged

  /**
   Of a server that has not stopped: what the mechanism produced is what was sent, the last token with
   COMPLETE, and what was received is what the mechanism was fed, or is about to be fed.
   */
  ghost predicate Relays(s: Server) {
    s.phase.Stopped? || (Tokens(s.sent) == Produced(s.accepts) && Fed(s) == Tokens(s.received))
  }

  lemma StartRelays(cfg: Config)
    ensures Relays(Start(cfg))
  {
  }

  lemma GroupIsSent(cfg: Config, s: Server, m: Message)
    requires s.phase.AwaitGroupReq?
    ensures var z := ReadGroupReq(cfg, s, m);
            z.phase.Stopped? ||
            (&& TokenOf(m) == [] && z.received == s.received + [m]
             && z.accepts == s.accepts && Fed(z) == Fed(s)
             && exists g :: z.sent == s.sent + [GroupMsg(g)])
  {
  }

  lemma ReadGroupReqRelays(cfg: Config, s: Server, m: Message)
    requires Relays(s) && s.phase.AwaitGroupReq?
    ensures Relays(ReadGroupReq(cfg, s, m))
  {
    GroupIsSent(cfg, s, m);
    var z := ReadGroupReq(cfg, s, m);
    if !z.phase.Stopped? {
      var g :| z.sent == s.sent + [GroupMsg(g)];
      TokensAppend(s.sent, GroupMsg(g));
      TokensAppend(s.received, m);
    }
  }

  /** The packet's token is what the mechanism gets next. */
  ghost predicate TookIn(s: Server, m: Message, z: Server) {
    && z.sent == s.sent && z.received == s.received + [m] && z.accepts == s.accepts
    && Fed(z) == Fed(s) + TokenOf(m)
  }

  lemma ReadTakesIn(cfg: Config, s: Server, m: Message)
    requires s.phase.Reading?
    ensures Read(cfg, s, m).phase.Stopped? || TookIn(s, m, Read(cfg, s, m))
  {
  }

  lemma TookInRelays(s: Server, m: Message, z: Server)
    requires Relays(s) && !s.phase.Stopped? && TookIn(s, m, z)
    ensures Relays(z)
  {
    TokensAppend(s.received, m);
  }

  lemma ReadRelays(cfg: Config, s: Server, m: Message)
    requires Relays(s) && s.phase.Reading?
    ensures Relays(Read(cfg, s, m))
  {
    ReadTakesIn(cfg, s, m);
    if !Read(cfg, s, m).phase.Stopped? {
      TookInRelays(s, m, Read(cfg, s, m));
    }
  }

  /** The token is sent, by itself or with COMPLETE, and what was fed is recorded. */
  lemma AnswerIsSent(cfg: Config, s: Server, r: GssResult)
    requires s.phase.CallAccept?
    ensures var z := AfterAccept(cfg, s, r);
            z.phase.Stopped? ||
            (&& z.received == s.received && z.accepts == s.accepts + [r] && Fed(z) == Fed(s)
             && exists m :: z.sent == s.sent + [m] && TokenOf(m) == if r.token != [] then [r.token] else [])
  {
    var z := AfterAccept(cfg, s, r);
    if !z.phase.Stopped? {
      var m := z.sent[|s.sent|];
      assert z.sent == s.sent + [m];
    }
  }

  lemma AfterAcceptRelays(cfg: Config, s: Server, r: GssResult)
    requires Relays(s) && s.phase.CallAccept?
    ensures Relays(AfterAccept(cfg, s, r))
  {
    AnswerIsSent(cfg, s, r);
    var z := AfterAccept(cfg, s, r);
    if !z.phase.Stopped? {
      var m :| z.sent == s.sent + [m] && TokenOf(m) == if r.token != [] then [r.token] else [];
      TokensAppend(s.sent, m);
      ProducedAppend(s.accepts, r);
    }
  }

  // ---------------------------------------------------------------------------
  // Safety in every state, stopped ones included

  /** No token leaves before an INIT came, and COMPLETE leaves only from a context with both flags. */
  ghost predicate Safe(cfg: Config, s: Server) {
    && (forall m :: m in s.sent && IS_TOKEN(m) ==> s.clientPub.Some?)
    && (s.clientPub.Some? ==> exists t :: Init(t, s.clientPub.value) in s.received)
    && (forall m :: m in s.sent && m.Complete? ==> Concluded(cfg, s))
    && (Count(IS_INIT, s.received) > 1 ==> s.phase.Stopped?)
  }

  lemma StartIsSafe(cfg: Config)
    ensures Safe(cfg, Start(cfg))
  {
  }

  lemma NoCompleteYet(cfg: Config, s: Server)
    requires Inv(cfg, s) && !s.phase.Stopped? && !s.phase.Derived?
    ensures forall m :: m in s.sent ==> !m.Complete?
    ensures forall m :: m in s.sent && IS_TOKEN(m) ==> s.clientPub.Some?
  {
    forall m | m in s.sent ensures !m.Complete? && (IS_TOKEN(m) ==> s.clientPub.Some?) {
      var i :| 0 <= i < |s.sent| && s.sent[i] == m;
    }
  }

  lemma ReadGroupReqIsSafe(cfg: Config, s: Server, m: Message)
    requires Inv(cfg, s) && s.phase.AwaitGroupReq?
    ensures Safe(cfg, ReadGroupReq(cfg, s, m))
  {
    NoCompleteYet(cfg, s);
    CountAppend(IS_INIT, s.received, m);
  }

  lemma ReadIsSafe(cfg: Config, s: Server, m: Message)
    requires Inv(cfg, s) && s.phase.Reading?
    ensures Safe(cfg, Read(cfg, s, m))
  {
    NoCompleteYet(cfg, s);
    CountAppend(IS_INIT, s.received, m);
    var ms := s.received + [m];
    assert ms[|ms| - 1] == m;
    assert forall x :: x in s.received ==> x in ms;
  }

  lemma AfterAcceptIsSafe(cfg: Config, s: Server, r: GssResult)
    requires Inv(cfg, s) && s.phase.CallAccept?
    ensures Safe(cfg, AfterAccept(cfg, s, r))
  {
    NoCompleteYet(cfg, s);
    AfterAcceptKeeps(cfg, s, r);
    assert Count(IS_INIT, s.received) <= 1;
  }

  lemma {:induction false} ExchangeIsSafe(cfg: Config, s: Server, accepts: seq<GssResult>, packets: seq<Message>)
    requires Inv(cfg, s) && Safe(cfg, s)
    ensures Safe(cfg, Exchange(cfg, s, accepts, packets))
    decreases |accepts| + |packets|
  {
    match s.phase
    case AwaitGroupReq =>
      if packets != [] {
        ReadGroupReqKeeps(cfg, s, packets[0]);
        ReadGroupReqIsSafe(cfg, s, packets[0]);
        ExchangeIsSafe(cfg, ReadGroupReq(cfg, s, packets[0]), accepts, packets[1..]);
      }
    case Reading =>
      if packets != [] {
        ReadKeeps(cfg, s, packets[0]);
        ReadIsSafe(cfg, s, packets[0]);
        ExchangeIsSafe(cfg, Read(cfg, s, packets[0]), accepts, packets[1..]);
      }
    case CallAccept(_) =>
      if accepts != [] {
        AfterAcceptKeeps(cfg, s, accepts[0]);
        AfterAcceptIsSafe(cfg, s, accepts[0]);
        ExchangeIsSafe(cfg, AfterAccept(cfg, s, accepts[0]), accepts[1..], packets);
      }
    case _ =>
  }

  /** With any peer and any mechanism, in every state a run from the start can be in. */
  lemma EveryRunIsSafe(cfg: Config, accepts: seq<GssResult>, packets: seq<Message>)
    ensures Safe(cfg, Exchange(cfg, Start(cfg), accepts, packets))
  {
    StartKeeps(cfg);
    StartIsSafe(cfg);
    ExchangeIsSafe(cfg, Start(cfg), accepts, packets);
  }
}
