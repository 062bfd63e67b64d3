/** Honest runs of the key exchange for every dialogue of the two mechanisms, however long. */
module KexRuns {
  import opened Wrappers
  import opened KexProtocol
  import opened KexProduct
  import C = KexClient
  import S = KexServer

  /** The run `acts` leads from one state to another. */
  ghost predicate Leads(cfg: Config, y: System, acts: seq<Action>, z: System) {
    Legal(cfg, y, acts) && After(cfg, y, acts) == z
  }

  lemma PrependStep(cfg: Config, y: System, a: Action, acts: seq<Action>, z: System)
    requires Enabled(y, a) && Leads(cfg, Step(cfg, y, a), acts, z)
    ensures Leads(cfg, y, [a] + acts, z)
  {
    assert ([a] + acts)[1..] == acts;
  }

  /** Two steps lead from one state to another. */
  ghost predicate Steps(cfg: Config, y: System, a: Action, b: Action, z: System) {
    Enabled(y, a) && Enabled(Step(cfg, y, a), b) && z == Step(cfg, Step(cfg, y, a), b)
  }

  lemma PrependTwo(cfg: Config, y: System, a: Action, b: Action, x: System, rest: seq<Action>, z: System)
    returns (acts: seq<Action>)
    requires Steps(cfg, y, a, b, x) && Leads(cfg, x, rest, z)
    ensures Leads(cfg, y, acts, z)
  {
    PrependStep(cfg, Step(cfg, y, a), b, rest, z);
    PrependStep(cfg, y, a, [b] + rest, z);
    acts := [a] + ([b] + rest);
  }

  /** What the outside must give for an honest run to get through. */
  ghost predicate Willing(cfg: Config) {
    && cfg.clientKey.Some? && cfg.serverKey.Some? && cfg.groupMin <= cfg.groupMax
    && (forall g, p :: cfg.validPub(g, p))
    && (forall h :: cfg.sign(h).Some?)
    && (forall n | cfg.groupMin <= n <= cfg.groupMax ::
          && cfg.choose(cfg.groupMin, n, cfg.groupMax).Some?
          && cfg.groupMin <= Bits(cfg.choose(cfg.groupMin, n, cfg.groupMax).value.p) <= cfg.groupMax)
  }

  const CONTINUES: Major := Major(false, true, false)
  const COMPLETES: Major := Major(false, false, false)

  function Continuing(token: Octets): GssResult {
    GssResult(CONTINUES, token, true, true)
  }

  function Completing(token: Octets): GssResult {
    GssResult(COMPLETES, token, true, true)
  }

  /** What the two mechanisms have produced so far. */
  ghost predicate Said(y: System, there: seq<Octets>, back: seq<Octets>) {
    Produced(y.client.inits) == there && Produced(y.server.accepts) == back
  }

  /** Between two rounds: the client is about to call its mechanism and the server waits. */
  ghost predicate Between(y: System, there: seq<Octets>, back: seq<Octets>) {
    && y.client.phase.CallInit? && y.client.complete.None?
    && y.server.phase.Reading? && y.server.group.Some?
    && (y.client.first <==> y.server.clientPub.None?)
    && y.c2s == [] && y.s2c == []
    && Said(y, there, back)
  }

  /** Within a round: the server is about to call its mechanism and the client, not yet done, waits. */
  ghost predicate Asked(y: System, there: seq<Octets>, back: seq<Octets>) {
    && y.client.phase.Reading? && y.client.complete.None? && !y.client.first && y.client.maj == CONTINUES
    && y.server.phase.CallAccept? && y.server.group.Some? && y.server.clientPub.Some?
    && y.c2s == [] && y.s2c == []
    && Said(y, there, back)
  }

  /** The final message is under way. */
  ghost predicate Closing(y: System, there: seq<Octets>, back: seq<Octets>) {
    && y.client.phase.Reading? && y.client.complete.None? && y.client.maj == CONTINUES
    && |y.s2c| == 1 && y.s2c[0].Complete? && y.s2c[0].finalToken.Some?
    && Said(y, there, back)
  }

  /** The client's token is under way, in INIT if and only if it is the first. */
  ghost predicate Asking(y: System, there: seq<Octets>, back: seq<Octets>) {
    && y.client.phase.Reading? && y.client.complete.None? && !y.client.first && y.client.maj == CONTINUES
    && y.server.phase.Reading? && y.server.group.Some?
    && |y.c2s| == 1 && (if y.server.clientPub.None? then y.c2s[0].Init? else y.c2s[0].Continue?) && y.s2c == []
    && Said(y, there, back)
  }

  lemma ClientAsks(cfg: Config, y: System, there: seq<Octets>, back: seq<Octets>, token: Octets)
    requires Between(y, there, back) && token != []
    ensures Asking(Step(cfg, y, ClientInit(Continuing(token))), there + [token], back)
  {
    ProducedAppend(y.client.inits, Continuing(token));
  }

  lemma ServerTakes(cfg: Config, y: System, there: seq<Octets>, back: seq<Octets>)
    requires Willing(cfg) && Asking(y, there, back)
    ensures Asked(Step(cfg, y, ServerRead), there, back)
  {
  }

  /** The client sends a token, in INIT the first time, and the server takes it in. */
  lemma Ask(cfg: Config, y: System, there: seq<Octets>, back: seq<Octets>, token: Octets)
    returns (a: Action, z: System)
    requires Willing(cfg) && Between(y, there, back) && token != []
    ensures Steps(cfg, y, a, ServerRead, z) && Asked(z, there + [token], back)
  {
    a := ClientInit(Continuing(token));
    ClientAsks(cfg, y, there, back, token);
    ServerTakes(cfg, Step(cfg, y, a), there + [token], back);
    z := Step(cfg, Step(cfg, y, a), ServerRead);
  }

  /** The server answers with a token and wants another one. */
  lemma Answer(cfg: Config, y: System, there: seq<Octets>, back: seq<Octets>, token: Octets)
    returns (a: Action, z: System)
    requires Asked(y, there, back) && token != []
    ensures Steps(cfg, y, a, ClientRead, z) && Between(z, there, back + [token])
  {
    a := ServerAccept(Continuing(token));
    ProducedAppend(y.server.accepts, a.r);
    assert Step(cfg, y, a).s2c == [Continue(token)];
    z := Step(cfg, Step(cfg, y, a), ClientRead);
  }

  /** The server answers with its last token. */
  lemma Conclude(cfg: Config, y: System, there: seq<Octets>, back: seq<Octets>, token: Octets)
    returns (a: Action, z: System)
    requires Willing(cfg) && Asked(y, there, back) && token != []
    ensures Enabled(y, a) && z == Step(cfg, y, a) && Closing(z, there, back + [token])
  {
    a := ServerAccept(Completing(token));
    z := Step(cfg, y, a);
    ProducedAppend(y.server.accepts, a.r);
  }

  /** The client takes in the final message and its mechanism completes. */
  lemma Finish(cfg: Config, y: System, there: seq<Octets>, back: seq<Octets>) returns (b: Action, z: System)
    requires Closing(y, there, back)
    ensures Steps(cfg, y, ClientRead, b, z) && z.client.phase.Verifying? && Said(z, there, back)
  {
    b := ClientInit(Completing([]));
    var x := Step(cfg, y, ClientRead);
    assert x.client.phase.CallInit? && x.client.last.Some? && x.client.last.value.Complete?;
    ProducedAppend(x.client.inits, b.r);
    z := Step(cfg, x, b);
  }

  lemma LastRound(cfg: Config, y: System, there: seq<Octets>, back: seq<Octets>, token: Octets)
    returns (acts: seq<Action>, z: System)
    requires Willing(cfg) && Asked(y, there, back) && token != []
    ensures Leads(cfg, y, acts, z) && z.client.phase.Verifying? && Said(z, there, back + [token])
  {
    var a, x := Conclude(cfg, y, there, back, token);
    var b;
    b, z := Finish(cfg, x, there, back + [token]);
    acts := PrependTwo(cfg, x, ClientRead, b, z, [], z);
    PrependStep(cfg, y, a, acts, z);
    acts := [a] + acts;
  }

  ghost predicate AllTokens(ts: seq<Octets>) {
    forall i :: 0 <= i < |ts| ==> ts[i] != []
  }

  lemma FirstAside(ts: seq<Octets>, us: seq<Octets>)
    requires us != []
    ensures ts + us == (ts + [us[0]]) + us[1..]
  {
  }

  /** From between two rounds, the mechanisms can say any further tokens to each other, in turns. */
  lemma {:induction false} Dialogue(cfg: Config, y: System, there0: seq<Octets>, back0: seq<Octets>,
                                    there: seq<Octets>, back: seq<Octets>)
    returns (acts: seq<Action>, z: System)
    requires Willing(cfg) && Between(y, there0, back0)
    requires |there| == |back| > 0 && AllTokens(there) && AllTokens(back)
    ensures Leads(cfg, y, acts, z) && z.client.phase.Verifying? && Said(z, there0 + there, back0 + back)
    decreases |there|
  {
    FirstAside(there0, there);
    FirstAside(back0, back);
    var there1, back1 := there0 + [there[0]], back0 + [back[0]];
    var asks, x := Ask(cfg, y, there0, back0, there[0]);
    if |there| == 1 {
      acts, z := LastRound(cfg, x, there1, back0, back[0]);
      assert there1 + there[1..] == there1 && back1 + back[1..] == back1;
    } else {
      var answers, w := Answer(cfg, x, there1, back0, back[0]);
      acts, z := Dialogue(cfg, w, there1, back1, there[1..], back[1..]);
      acts := PrependTwo(cfg, x, answers, ClientRead, w, acts, z);
    }
    acts := PrependTwo(cfg, y, asks, ServerRead, x, acts, z);
  }

  lemma ServerServesAnySize(cfg: Config, s: S.Server, nbits: int) returns (group: Group)
    requires Willing(cfg) && s.phase.AwaitGroupReq?
    ensures cfg.groupMin <= Bits(group.p) <= cfg.groupMax
    ensures var z := S.ReadGroupReq(cfg, s, GroupReq(cfg.groupMin, nbits, cfg.groupMax));
            && z.phase.Reading? && z.group == Some(group) && z.clientPub == s.clientPub && z.accepts == s.accepts
            && z.sent == s.sent + [GroupMsg(group)]
  {
    group := cfg.choose(cfg.groupMin, Clamp(cfg.groupMin, cfg.groupMax, nbits), cfg.groupMax).value;
  }

  /** A group exchange gets a group for every size asked for, however far out of range. */
  lemma SizeRequestIsServed(cfg: Config) returns (z: System)
    requires Willing(cfg) && cfg.kind.GroupExchange?
    ensures Steps(cfg, Start(cfg), ServerRead, ClientRead, z) && Between(z, [], [])
  {
    var y := Start(cfg);
    assert y.c2s == [GroupReq(cfg.groupMin, cfg.kind.nbits, cfg.groupMax)];
    var group := ServerServesAnySize(cfg, y.server, cfg.kind.nbits);
    assert Step(cfg, y, ServerRead).s2c == [GroupMsg(group)];
    z := Step(cfg, Step(cfg, y, ServerRead), ClientRead);
  }

  /**
   For every two lists of tokens of one length, for either kind of exchange and for every size asked for:
   some honest run reaches the MIC check in which the mechanisms produce exactly these tokens.
   */
  lemma HonestRunsExist(cfg: Config, there: seq<Octets>, back: seq<Octets>) returns (acts: seq<Action>)
    requires Willing(cfg) && |there| == |back| > 0 && AllTokens(there) && AllTokens(back)
    ensures Legal(cfg, Start(cfg), acts)
    ensures After(cfg, Start(cfg), acts).client.phase.Verifying?
    ensures Said(After(cfg, Start(cfg), acts), there, back)
  {
    var y, z := Start(cfg), Start(cfg);
    assert [] + there == there && [] + back == back;
    if cfg.kind.FixedGroup? {
      acts, z := Dialogue(cfg, y, [], [], there, back);
    } else {
      var x := SizeRequestIsServed(cfg);
      acts, z := Dialogue(cfg, x, [], [], there, back);
      acts := PrependTwo(cfg, y, ServerRead, ClientRead, x, acts, z);
    }
  }

  /** So the exception is real: with a size out of range the two sides hash different inputs, after any dialogue. */
  lemma ClampedSizesAreHashedDifferently(cfg: Config, there: seq<Octets>, back: seq<Octets>)
    returns (acts: seq<Action>)
    requires Willing(cfg) && SameConnection(cfg) && !SizeInRange(cfg)
    requires |there| == |back| > 0 && AllTokens(there) && AllTokens(back)
    ensures Legal(cfg, Start(cfg), acts)
    ensures var y := After(cfg, Start(cfg), acts);
            && y.client.phase.Verifying? && y.client.group.Some? && y.client.complete.Some? && y.server.phase.Derived?
            && C.HashOf(cfg, y.client) != y.server.phase.hashed
            && C.HashOf(cfg, y.client).secret == y.server.phase.secret
            && Said(y, there, back)
  {
    acts := HonestRunsExist(cfg, there, back);
    HonestRunsAgree(cfg, acts);
    EveryRunKeeps(cfg, acts);
  }
}
