/** The client of the key exchange (kexgssc.c) as a step machine. */
module KexClient {
  import opened Wrappers
  import opened KexProtocol
  import opened Words

  datatype Phase =
    | AwaitGroup                          // group exchange: the size request is out
    | CallInit(input: Option<Octets>)     // about to call gss_init_sec_context
    | Reading                             // a token is out, the reply is awaited
    | Verifying                           // the exchange of messages is over
    | Derived(secret: nat, hashed: HashInputs)
    | Stopped                             // fatal, disconnect or error return

  datatype Client = Client(
    phase: Phase,
    group: Option<Group>,
    first: bool,
    maj: Major,
    hostKey: Option<Octets>,
    last: Option<Message>,                // the last packet read that was no host key
    complete: Option<(nat, Octets)>,      // server public key and MIC of KEXGSS_COMPLETE
    sent: seq<Message>,
    received: seq<Message>,
    inits: seq<GssResult>,
    fed: seq<Octets>)                     // the tokens handed to gss_init_sec_context

  function Stop(c: Client): Client {
    c.(phase := Stopped)
  }

  function Send(c: Client, m: Message): Client {
    c.(sent := c.sent + [m])
  }

  function Start(cfg: Config): Client {
    var c := Client(Stopped, None, true, Major(false, false, false), None, None, None, [], [], [], []);
    match cfg.kind
    case FixedGroup(group) =>
      if cfg.clientKey.None? then c
      else c.(phase := CallInit(None), group := Some(group))
    case GroupExchange(nbits) =>
      Send(c, GroupReq(cfg.groupMin, nbits, cfg.groupMax)).(phase := AwaitGroup)
  }

  function ClientPub(cfg: Config, c: Client): nat {
    if c.group.None? then 0 else Pub(c.group.value, cfg.clientKey)
  }

  /** The reply to the size request: the group is taken when its modulus has a size asked for. */
  function ReadGroup(cfg: Config, c: Client, m: Message): Client
    requires c.phase.AwaitGroup?
  {
    var c := c.(received := c.received + [m]);
    if !m.GroupMsg? then Stop(c)
    else if Bits(m.group.p) < cfg.groupMin || Bits(m.group.p) > cfg.groupMax then Stop(c)
    else if cfg.clientKey.None? then Stop(c)
    else c.(phase := CallInit(None), group := Some(m.group))
  }

  /** The end of the token loop: the last packet must have been KEXGSS_COMPLETE. */
  function LeaveLoop(c: Client): Client {
    if c.last.Some? && c.last.value.Complete? then c.(phase := Verifying) else Stop(c)
  }

  function LoopTest(c: Client, input: Option<Octets>): Client {
    if c.maj.continueNeeded then c.(phase := CallInit(input)) else LeaveLoop(c)
  }

  function Fed(c: Client): seq<Octets> {
    if c.phase.CallInit? && c.phase.input.Some? then c.fed + [c.phase.input.value] else c.fed
  }

  /** One call of gss_init_sec_context and what follows it up to the next read. */
  function AfterInit(cfg: Config, c: Client, r: GssResult): Client
    requires c.phase.CallInit?
  {
    var c := c.(maj := r.maj, inits := c.inits + [r], fed := Fed(c));
    if r.maj.error then Stop(c)
    else if r.maj.Complete() && !r.mutual then Stop(c)
    else if r.maj.Complete() && !r.integ then Stop(c)
    else if r.token != [] then
      var m := if c.first then Init(r.token, ClientPub(cfg, c)) else Continue(r.token);
      Send(c, m).(first := false, phase := Reading)
    else if !r.maj.Complete() then Stop(c)
    else LoopTest(c, None)
  }

  /** One packet read while a reply is awaited. */
  function Read(c: Client, m: Message): Client
    requires c.phase.Reading?
  {
    var c := c.(received := c.received + [m]);
    if m.HostKey? then
      if c.hostKey.Some? then Stop(c) else c.(hostKey := Some(m.blob))
    else HandleReply(c.(last := Some(m)), m)
  }

  /** The switch on the type of the reply. */
  function HandleReply(c: Client, m: Message): Client {
    match m
    case Continue(token) =>
      if c.maj.Complete() then Stop(c) else LoopTest(c, Some(token))
    case Complete(pub, mic, finalToken) =>
      if c.complete.Some? then Stop(c)
      else
        var c := c.(complete := Some((pub, mic)));
        if finalToken.Some? == c.maj.Complete() then Stop(c) else LoopTest(c, finalToken)
    case _ => Stop(c)
  }

  function HashOf(cfg: Config, c: Client): HashInputs
    requires c.group.Some? && c.complete.Some?
  {
    var group, serverPub := c.group.value, c.complete.value.0;
    HashInputs(
      cfg.client.clientVersion, cfg.client.serverVersion, cfg.client.my, cfg.client.peer,
      if c.hostKey.Some? then c.hostKey.value else [],
      match cfg.kind
      case FixedGroup(_) => NoGex
      case GroupExchange(nbits) => Gex(cfg.groupMin, nbits, cfg.groupMax, group),
      ClientPub(cfg, c), serverPub,
      Secret(group, cfg.clientKey, serverPub))
  }

  /** The shared secret, the exchange hash and the check of the MIC. */
  function Verify(cfg: Config, c: Client): Client {
    if c.group.None? || c.complete.None? || !cfg.validPub(c.group.value, c.complete.value.0) then Stop(c)
    else
      var h := HashOf(cfg, c);
      if cfg.checkMic(cfg.hash(h), c.complete.value.1) then c.(phase := Derived(h.secret, h)) else Stop(c)
  }

  /** The MIC check, where it is reached. */
  function Finish(cfg: Config, c: Client): Client {
    if c.phase.Verifying? then Verify(cfg, c) else c
  }

  /** The exchange of messages up to the MIC check, fed with what the mechanism and the peer give. */
  function Exchange(cfg: Config, c: Client, inits: seq<GssResult>, packets: seq<Message>): (r: Client)
    decreases |inits| + |packets|
  {
    match c.phase
    case AwaitGroup =>
      if packets == [] then c else Exchange(cfg, ReadGroup(cfg, c, packets[0]), inits, packets[1..])
    case CallInit(_) =>
      if inits == [] then c else Exchange(cfg, AfterInit(cfg, c, inits[0]), inits[1..], packets)
    case Reading =>
      if packets == [] then c else Exchange(cfg, Read(c, packets[0]), inits, packets[1..])
    case _ => c
  }

  // ---------------------------------------------------------------------------
  // What every step keeps

  /** The messages sent: the size request of a group exchange, then INIT, then CONTINUEs. */
  ghost predicate SentShape(cfg: Config, c: Client) {
    var k := if cfg.kind.GroupExchange? then 1 else 0;
    && |c.sent| >= k
    && (k == 1 ==> c.sent[0] == GroupReq(cfg.groupMin, cfg.kind.nbits, cfg.groupMax))
    && (c.first ==> |c.sent| == k)
    && (!c.first ==> |c.sent| > k && c.sent[k].Init? && c.sent[k].pub == ClientPub(cfg, c) && c.group.Some?)
    && (forall i :: k < i < |c.sent| ==> c.sent[i].Continue?)
  }

  ghost predicate CountShape(c: Client) {
    && Count(IS_HOSTKEY, c.received) == (if c.hostKey.Some? then 1 else 0)
    && Count(IS_COMPLETE, c.received) == (if c.complete.Some? then 1 else 0)
  }

  ghost predicate SeenShape(c: Client) {
    && (c.hostKey.Some? ==> HostKey(c.hostKey.value) in c.received)
    && (c.complete.Some? ==> exists t :: Complete(c.complete.value.0, c.complete.value.1, t) in c.received)
  }

  ghost predicate LastShape(c: Client) {
    && (c.last.Some? && !c.phase.Reading? ==> |c.received| > 0 && c.received[|c.received| - 1] == c.last.value)
    && (c.last.Some? && c.last.value.Complete? ==> c.complete == Some((c.last.value.pub, c.last.value.mic)))
  }

  ghost predicate StatusShape(c: Client) {
    && (c.inits != [] ==> c.maj == c.inits[|c.inits| - 1].maj && !c.maj.error)
    && (c.inits != [] && c.maj.Complete() ==> c.inits[|c.inits| - 1].mutual && c.inits[|c.inits| - 1].integ)
  }

  ghost predicate GroupShape(cfg: Config, c: Client) {
    match cfg.kind
    case FixedGroup(group) => c.group == Some(group)
    case GroupExchange(_) =>
      c.phase.AwaitGroup?
      || (&& c.group.Some? && GroupMsg(c.group.value) in c.received
          && cfg.groupMin <= Bits(c.group.value.p) <= cfg.groupMax)
  }

  /** What holds of a client that has not stopped, whatever the peer and the mechanism do. */
  ghost predicate Inv(cfg: Config, c: Client) {
    c.phase.Stopped? ||
    (&& SentShape(cfg, c)
     && CountShape(c) && SeenShape(c) && LastShape(c)
     && StatusShape(c)
     && GroupShape(cfg, c)
     && (c.group.Some? ==> cfg.clientKey.Some?)
     && (c.phase.AwaitGroup? ==> c.first && c.last.None? && cfg.kind.GroupExchange?)
     && (c.phase.Reading? ==> !c.first && c.inits != [])
     && (c.last.Some? ==> !c.first && c.inits != [])
     && (c.phase.Verifying? || c.phase.Derived? ==>
           c.last.Some? && c.last.value.Complete? && !c.maj.continueNeeded))
  }

  lemma StartKeeps(cfg: Config)
    ensures Inv(cfg, Start(cfg))
  {
  }

  /** The group is taken over and nothing else changes. */
  ghost predicate TookGroup(cfg: Config, c: Client, m: Message, z: Client) {
    && m.GroupMsg? && cfg.groupMin <= Bits(m.group.p) <= cfg.groupMax && cfg.clientKey.Some?
    && z == c.(received := c.received + [m], phase := CallInit(None), group := Some(m.group))
  }

  lemma ReadGroupTakes(cfg: Config, c: Client, m: Message)
    requires c.phase.AwaitGroup?
    ensures ReadGroup(cfg, c, m).phase.Stopped? || TookGroup(cfg, c, m, ReadGroup(cfg, c, m))
  {
  }

  /** The client goes on with a group exactly when its modulus has a size asked for and a key can be made. */
  lemma GroupIsTakenExactly(cfg: Config, c: Client, m: Message)
    requires c.phase.AwaitGroup?
    ensures ReadGroup(cfg, c, m).phase == CallInit(None) <==>
            m.GroupMsg? && SizeAllowed(m.group.p, cfg.groupMin, cfg.groupMax) && cfg.clientKey.Some?
    ensures ReadGroup(cfg, c, m).phase.CallInit? ==> ReadGroup(cfg, c, m).group == Some(m.group)
    ensures !ReadGroup(cfg, c, m).phase.CallInit? ==> ReadGroup(cfg, c, m).phase.Stopped?
  {
    if m.GroupMsg? {
      SizeAllowedExactly(m.group.p, cfg.groupMin, cfg.groupMax);
    }
  }

  lemma StillThere(ms: seq<Message>, m: Message, x: Message)
    requires x in ms || x == m
    ensures x in ms + [m]
  {
    assert (ms + [m])[|ms|] == m;
  }

  /** A longer list of packets still holds what was taken in. */
  lemma SeenStays(c: Client, m: Message, z: Client)
    requires SeenShape(c)
    requires z.received == c.received + [m] && z.hostKey == c.hostKey && z.complete == c.complete
    ensures SeenShape(z)
  {
    if c.hostKey.Some? {
      StillThere(c.received, m, HostKey(c.hostKey.value));
    }
    if c.complete.Some? {
      var t :| Complete(c.complete.value.0, c.complete.value.1, t) in c.received;
      StillThere(c.received, m, Complete(c.complete.value.0, c.complete.value.1, t));
    }
  }

  lemma TookGroupKeepsShapes(cfg: Config, c: Client, m: Message, z: Client)
    requires CountShape(c) && SeenShape(c) && cfg.kind.GroupExchange? && TookGroup(cfg, c, m, z)
    ensures CountShape(z) && SeenShape(z) && GroupShape(cfg, z)
  {
    CountAppend(IS_HOSTKEY, c.received, m);
    CountAppend(IS_COMPLETE, c.received, m);
    SeenStays(c, m, z);
    StillThere(c.received, m, m);
  }

  lemma TookGroupKeeps(cfg: Config, c: Client, m: Message, z: Client)
    requires Inv(cfg, c) && c.phase.AwaitGroup? && TookGroup(cfg, c, m, z)
    ensures Inv(cfg, z)
  {
    TookGroupKeepsShapes(cfg, c, m, z);
  }

  lemma ReadGroupKeeps(cfg: Config, c: Client, m: Message)
    requires Inv(cfg, c) && c.phase.AwaitGroup?
    ensures Inv(cfg, ReadGroup(cfg, c, m))
  {
    ReadGroupTakes(cfg, c, m);
    if !ReadGroup(cfg, c, m).phase.Stopped? {
      TookGroupKeeps(cfg, c, m, ReadGroup(cfg, c, m));
    }
  }

  lemma AfterInitKeeps(cfg: Config, c: Client, r: GssResult)
    requires Inv(cfg, c) && c.phase.CallInit?
    ensures Inv(cfg, AfterInit(cfg, c, r))
  {
  }

  /** A host key, and a final message, is taken in at most once. */
  ghost predicate TookInOnce(c: Client, m: Message, z: Client) {
    && z.received == c.received + [m]
    && (if m.HostKey? then c.hostKey.None? && z.hostKey == Some(m.blob) else z.hostKey == c.hostKey)
    && (if m.Complete? then c.complete.None? && z.complete == Some((m.pub, m.mic)) else z.complete == c.complete)
  }

  /** The rest of what a read leaves: the packet as the last one, and the fields it does not touch. */
  ghost predicate WentOn(c: Client, m: Message, z: Client) {
    && z.sent == c.sent && z.first == c.first && z.group == c.group && z.maj == c.maj && z.inits == c.inits
    && (if m.HostKey? then z.last == c.last && z.phase.Reading? else z.last == Some(m) && !z.phase.Reading?)
    && !z.phase.AwaitGroup? && !z.phase.Derived?
    && (z.phase.Verifying? ==> m.Complete? && !c.maj.continueNeeded)
  }

  lemma ReadTakesInOnce(c: Client, m: Message)
    requires c.phase.Reading?
    ensures Read(c, m).phase.Stopped? || (TookInOnce(c, m, Read(c, m)) && WentOn(c, m, Read(c, m)))
  {
  }

  lemma TookInOnceKeepsCounts(c: Client, m: Message, z: Client)
    requires CountShape(c) && TookInOnce(c, m, z)
    ensures CountShape(z)
  {
    CountAppend(IS_HOSTKEY, c.received, m);
    CountAppend(IS_COMPLETE, c.received, m);
  }

  lemma TookInOnceKeepsSeen(c: Client, m: Message, z: Client)
    requires SeenShape(c) && TookInOnce(c, m, z)
    ensures SeenShape(z)
  {
    SeenStays(c, m, c.(received := c.received + [m]));
    StillThere(c.received, m, m);
    assert m.Complete? ==> Complete(m.pub, m.mic, m.finalToken) == m;
  }

  lemma WentOnKeepsGroup(cfg: Config, c: Client, m: Message, z: Client)
    requires GroupShape(cfg, c) && c.phase.Reading? && TookInOnce(c, m, z) && WentOn(c, m, z)
    ensures GroupShape(cfg, z)
  {
    if cfg.kind.GroupExchange? {
      StillThere(c.received, m, GroupMsg(c.group.value));
    }
  }

  lemma WentOnKeepsLast(c: Client, m: Message, z: Client)
    requires LastShape(c) && c.phase.Reading? && TookInOnce(c, m, z) && WentOn(c, m, z)
    ensures LastShape(z)
  {
  }

  lemma WentOnKeeps(cfg: Config, c: Client, m: Message, z: Client)
    requires Inv(cfg, c) && c.phase.Reading? && TookInOnce(c, m, z) && WentOn(c, m, z)
    ensures Inv(cfg, z)
  {
    TookInOnceKeepsCounts(c, m, z);
    TookInOnceKeepsSeen(c, m, z);
    WentOnKeepsGroup(cfg, c, m, z);
    WentOnKeepsLast(c, m, z);
  }

  lemma ReadKeeps(cfg: Config, c: Client, m: Message)
    requires Inv(cfg, c) && c.phase.Reading?
    ensures Inv(cfg, Read(c, m))
  {
    ReadTakesInOnce(c, m);
    if !Read(c, m).phase.Stopped? {
      WentOnKeeps(cfg, c, m, Read(c, m));
    }
  }

  lemma VerifyKeeps(cfg: Config, c: Client)
    requires Inv(cfg, c) && c.phase.Verifying?
    ensures c.complete.Some? && Inv(cfg, Verify(cfg, c))
  {
  }

  lemma {:induction false} ExchangeKeeps(cfg: Config, c: Client, inits: seq<GssResult>, packets: seq<Message>)
    requires Inv(cfg, c)
    ensures Inv(cfg, Exchange(cfg, c, inits, packets))
    decreases |inits| + |packets|
  {
    match c.phase
    case AwaitGroup =>
      if packets != [] {
        ReadGroupKeeps(cfg, c, packets[0]);
        ExchangeKeeps(cfg, ReadGroup(cfg, c, packets[0]), inits, packets[1..]);
      }
    case CallInit(_) =>
      if inits != [] {
        AfterInitKeeps(cfg, c, inits[0]);
        ExchangeKeeps(cfg, AfterInit(cfg, c, inits[0]), inits[1..], packets);
      }
    case Reading =>
      if packets != [] {
        ReadKeeps(cfg, c, packets[0]);
        ExchangeKeeps(cfg, Read(c, packets[0]), inits, packets[1..]);
      }
    case _ =>
  }

  // ---------------------------------------------------------------------------
  // Tokens go through unchanged

  /**
   Of a client that has not stopped: what the mechanism produced is what was sent, and what was received
   is what the mechanism was fed, or is about to be fed. Only a bare supplementary status leaves the last
   token unfed.
   */
  ghost predicate Relays(c: Client) {
    c.phase.Stopped? ||
    (&& Tokens(c.sent) == Produced(c.inits)
     && (if (c.phase.Verifying? || c.phase.Derived?) && c.maj.supplementary then c.fed < Tokens(c.received)
         else Fed(c) == Tokens(c.received)))
  }

  lemma StartRelays(cfg: Config)
    ensures Relays(Start(cfg))
  {
    TokensAppend([], GroupReq(cfg.groupMin, if cfg.kind.GroupExchange? then cfg.kind.nbits else 0, cfg.groupMax));
    assert forall m: Message :: [] + [m] == [m];
  }

  lemma ReadGroupRelays(cfg: Config, c: Client, m: Message)
    requires Relays(c) && c.phase.AwaitGroup?
    ensures Relays(ReadGroup(cfg, c, m))
  {
    TokensAppend(c.received, m);
  }

  /** The token goes out, in INIT or CONTINUE, or there is none and the loop is over. */
  ghost predicate GaveOut(c: Client, r: GssResult, z: Client) {
    && z.received == c.received && z.inits == c.inits + [r] && z.fed == Fed(c) && Fed(z) == z.fed
    && (z.phase.Verifying? || z.phase.Derived? ==> !z.maj.supplementary)
    && (if r.token == [] then z.sent == c.sent
        else exists m :: z.sent == c.sent + [m] && TokenOf(m) == [r.token])
  }

  lemma AfterInitGivesOut(cfg: Config, c: Client, r: GssResult)
    requires c.phase.CallInit?
    ensures var z := AfterInit(cfg, c, r); z.phase.Stopped? || GaveOut(c, r, z)
  {
    var z := AfterInit(cfg, c, r);
    if !z.phase.Stopped? && r.token != [] {
      assert z.sent == c.sent + [if c.first then Init(r.token, ClientPub(cfg, c)) else Continue(r.token)];
    }
  }

  lemma GaveOutRelays(c: Client, r: GssResult, z: Client)
    requires Relays(c) && c.phase.CallInit? && GaveOut(c, r, z)
    ensures Relays(z)
  {
    ProducedAppend(c.inits, r);
    if r.token != [] {
      var m :| z.sent == c.sent + [m] && TokenOf(m) == [r.token];
      TokensAppend(c.sent, m);
    }
  }

  lemma AfterInitRelays(cfg: Config, c: Client, r: GssResult)
    requires Relays(c) && c.phase.CallInit?
    ensures Relays(AfterInit(cfg, c, r))
  {
    AfterInitGivesOut(cfg, c, r);
    if !AfterInit(cfg, c, r).phase.Stopped? {
      GaveOutRelays(c, r, AfterInit(cfg, c, r));
    }
  }

  /** The packet's token is fed next, unless a bare supplementary status ends the loop. */
  ghost predicate TookIn(c: Client, m: Message, z: Client) {
    && z.sent == c.sent && z.received == c.received + [m] && z.inits == c.inits
    && (if z.phase.Verifying? && z.maj.supplementary then z.fed == c.fed && TokenOf(m) != []
        else !z.phase.Derived? && Fed(z) == c.fed + TokenOf(m))
  }

  lemma ReadTakesIn(cfg: Config, c: Client, m: Message)
    requires Inv(cfg, c) && c.phase.Reading?
    ensures Read(c, m).phase.Stopped? || TookIn(c, m, Read(c, m))
  {
  }

  lemma TookInRelays(c: Client, m: Message, z: Client)
    requires Relays(c) && c.phase.Reading? && TookIn(c, m, z)
    ensures Relays(z)
  {
    TokensAppend(c.received, m);
  }

  lemma ReadRelays(cfg: Config, c: Client, m: Message)
    requires Inv(cfg, c) && Relays(c) && c.phase.Reading?
    ensures Relays(Read(c, m))
  {
    ReadTakesIn(cfg, c, m);
    if !Read(c, m).phase.Stopped? {
      TookInRelays(c, m, Read(c, m));
    }
  }

  lemma {:induction false} ExchangeRelays(cfg: Config, c: Client, inits: seq<GssResult>, packets: seq<Message>)
    requires Inv(cfg, c) && Relays(c)
    ensures Relays(Exchange(cfg, c, inits, packets))
    decreases |inits| + |packets|
  {
    match c.phase
    case AwaitGroup =>
      if packets != [] {
        ReadGroupKeeps(cfg, c, packets[0]);
        ReadGroupRelays(cfg, c, packets[0]);
        ExchangeRelays(cfg, ReadGroup(cfg, c, packets[0]), inits, packets[1..]);
      }
    case CallInit(_) =>
      if inits != [] {
        AfterInitKeeps(cfg, c, inits[0]);
        AfterInitRelays(cfg, c, inits[0]);
        ExchangeRelays(cfg, AfterInit(cfg, c, inits[0]), inits[1..], packets);
      }
    case Reading =>
      if packets != [] {
        ReadKeeps(cfg, c, packets[0]);
        ReadRelays(cfg, c, packets[0]);
        ExchangeRelays(cfg, Read(c, packets[0]), inits, packets[1..]);
      }
    case _ =>
  }

  // ---------------------------------------------------------------------------
  // Every run that reaches the MIC check

  lemma {:induction false} NoneCounted(p: Message -> bool, ms: seq<Message>)
    requires forall i :: 0 <= i < |ms| ==> !p(ms[i])
    ensures Count(p, ms) == 0
  {
    if ms != [] {
      NoneCounted(p, ms[..|ms| - 1]);
    }
  }

  lemma {:induction false} OneCounted(p: Message -> bool, ms: seq<Message>, k: nat)
    requires k < |ms| && p(ms[k])
    requires forall i :: 0 <= i < |ms| && i != k ==> !p(ms[i])
    ensures Count(p, ms) == 1
  {
    if k == |ms| - 1 {
      NoneCounted(p, ms[..|ms| - 1]);
    } else {
      OneCounted(p, ms[..|ms| - 1], k);
    }
  }

  /** The first message of a kind. */
  ghost predicate IsFirst(p: Message -> bool, ms: seq<Message>, k: nat) {
    k < |ms| && p(ms[k]) && forall i :: 0 <= i < k ==> !p(ms[i])
  }

  /**
   With any peer, any mechanism and any number of token rounds: one INIT was sent and it was the
   first token message; one COMPLETE was received and it came last; at most one host key came; and
   the context is complete with both flags exactly when the last status had no supplementary bit.
   */
  lemma ReachingTheMicCheck(cfg: Config, inits: seq<GssResult>, packets: seq<Message>)
    requires Exchange(cfg, Start(cfg), inits, packets).phase.Verifying?
    ensures var c := Exchange(cfg, Start(cfg), inits, packets);
            && Count(IS_INIT, c.sent) == 1
            && (exists k: nat :: IsFirst(IS_TOKEN, c.sent, k) && c.sent[k].Init?)
            && Count(IS_COMPLETE, c.received) == 1
            && c.received[|c.received| - 1].Complete?
            && Count(IS_HOSTKEY, c.received) <= 1
            && c.inits != []
            && var r := c.inits[|c.inits| - 1];
               (r.maj.Complete() && r.mutual && r.integ <==> !r.maj.supplementary)
  {
    StartKeeps(cfg);
    ExchangeKeeps(cfg, Start(cfg), inits, packets);
    var c := Exchange(cfg, Start(cfg), inits, packets);
    var k := if cfg.kind.GroupExchange? then 1 else 0;
    OneCounted(IS_INIT, c.sent, k);
    assert IsFirst(IS_TOKEN, c.sent, k);
  }

  /** Then, too: every token produced was sent, and every token received was fed, again save the same case. */
  lemma TokensUpToTheMicCheck(cfg: Config, inits: seq<GssResult>, packets: seq<Message>)
    requires Exchange(cfg, Start(cfg), inits, packets).phase.Verifying?
    ensures var c := Exchange(cfg, Start(cfg), inits, packets);
            && Tokens(c.sent) == Produced(c.inits)
            && (c.fed == Tokens(c.received) <==> !c.maj.supplementary)
  {
    StartKeeps(cfg);
    StartRelays(cfg);
    ExchangeRelays(cfg, Start(cfg), inits, packets);
  }

  /** What the client must hash, read off the messages: its INIT, the final message and a host key if one came. */
  ghost predicate HashedTheMessages(cfg: Config, c: Client, group: Group, h: HashInputs) {
    && c.received != [] && c.received[|c.received| - 1].Complete?
    && h.clientVersion == cfg.client.clientVersion && h.serverVersion == cfg.client.serverVersion
    && h.clientKexInit == cfg.client.my && h.serverKexInit == cfg.client.peer
    && (if Count(IS_HOSTKEY, c.received) == 0 then h.hostKey == [] else HostKey(h.hostKey) in c.received)
    && (match cfg.kind
        case FixedGroup(known) => group == known && h.gex == NoGex
        case GroupExchange(nbits) =>
          && GroupMsg(group) in c.received && SizeAllowed(group.p, cfg.groupMin, cfg.groupMax)
          && h.gex == Gex(cfg.groupMin, nbits, cfg.groupMax, group))
    && (exists token :: Init(token, h.clientPub) in c.sent)
    && h.serverPub == c.received[|c.received| - 1].pub
    && cfg.clientKey.Some?
    && h.clientPub == DH.ModExp(group.g, cfg.clientKey.value, group.p)
    && h.secret == DH.ModExp(h.serverPub, cfg.clientKey.value, group.p)
  }

  /** From the MIC check on: keys come exactly from a valid public key and a MIC that fits the messages. */
  lemma KeysExactlyFromAFittingMic(cfg: Config, inits: seq<GssResult>, packets: seq<Message>)
    returns (group: Group, h: HashInputs)
    requires Exchange(cfg, Start(cfg), inits, packets).phase.Verifying?
    ensures var c := Exchange(cfg, Start(cfg), inits, packets);
            && HashedTheMessages(cfg, c, group, h)
            && var m := c.received[|c.received| - 1];
               Finish(cfg, c).phase == if cfg.validPub(group, m.pub) && cfg.checkMic(cfg.hash(h), m.mic)
                                       then Derived(h.secret, h) else Stopped
  {
    StartKeeps(cfg);
    ExchangeKeeps(cfg, Start(cfg), inits, packets);
    var c := Exchange(cfg, Start(cfg), inits, packets);
    var k := if cfg.kind.GroupExchange? then 1 else 0;
    group, h := c.group.value, HashOf(cfg, c);
    SizeAllowedExactly(group.p, cfg.groupMin, cfg.groupMax);
    assert c.sent[k] == Init(c.sent[k].token, h.clientPub);
  }

  /** The exception is real: a bare supplementary status reaches the MIC check without either flag. */
  lemma SupplementaryStatusPasses(cfg: Config, token: Octets, pub: nat, mic: Octets, reply: Octets)
    requires cfg.kind.FixedGroup? && cfg.clientKey.Some? && token != []
    ensures Exchange(cfg, Start(cfg),
                     [GssResult(Major(false, false, true), token, false, false)],
                     [Complete(pub, mic, Some(reply))]).phase.Verifying?
  {
    var r := GssResult(Major(false, false, true), token, false, false);
    var m := Complete(pub, mic, Some(reply));
    var c := AfterInit(cfg, Start(cfg), r);
    var d := Read(c, m);
    assert c.phase.Reading? && d.phase.Verifying?;
    assert [r][1..] == [] && [m][1..] == [];
    assert Exchange(cfg, d, [], []) == d;
    assert Exchange(cfg, c, [], [m]) == d;
  }
}
