/**
 The client programs (kexgssc.c) over their own variables, against the step machine: the machine runs
 beside them as a ghost.
 */
module KexClientProgram {
  import opened Wrappers
  import opened KexProtocol
  import opened KexClient

  function EndingOf(c: Client): Ending {
    match c.phase
    case Verifying => AtMicCheck
    case Derived(secret, hashed) => Keys(secret, hashed)
    case Stopped => Fatal
    case _ => Waiting
  }

  /** server_blob and msg_tok: set together by the final message. */
  type Final = Option<(nat, Octets)>

  /** The variables of the token loop at its head agree with the machine about to call the mechanism. */
  ghost predicate Mirrors(c: Client, group: Group, tokenPtr: Option<Octets>, first: bool, hostKey: Option<Octets>,
                          final: Final, completed: bool, sent: seq<Message>)
  {
    && c.phase == CallInit(tokenPtr) && c.group == Some(group) && c.first == first && c.hostKey == hostKey
    && c.complete == final && completed == (c.last.Some? && c.last.value.Complete?) && c.sent == sent
  }

  /** The variables behind the token loop agree with the machine. */
  ghost predicate Left(c: Client, group: Group, hostKey: Option<Octets>, final: Final, completed: bool,
                       sent: seq<Message>)
  {
    && c.phase == (if completed then Verifying else Stopped)
    && c.group == Some(group) && c.hostKey == hostKey && c.complete == final && c.sent == sent
  }

  /** Where the reading of a reply stands: `goal` is where the machine ends. */
  ghost predicate Heading(cfg: Config, c: Client, m: Option<Message>, fatal: bool, inits: seq<GssResult>,
                        packets: seq<Message>, goal: Client)
  {
    && c.phase.Reading?
    && (if fatal then goal == Stop(c)
        else if m.Some? then !m.value.HostKey? && Exchange(cfg, Read(c, m.value), inits, packets) == goal
        else Exchange(cfg, c, inits, packets) == goal)
  }

  lemma ReadHostKey(cfg: Config, c: Client, inits: seq<GssResult>, packets: seq<Message>, goal: Client)
    requires packets != [] && Heading(cfg, c, None, false, inits, packets, goal)
    ensures var p, rest := packets[0], packets[1..]; var d := c.(received := c.received + [p]);
            if !p.HostKey? then Heading(cfg, c, Some(p), false, inits, rest, goal)
            else if c.hostKey.Some? then Heading(cfg, d, None, true, inits, rest, goal)
            else Heading(cfg, d.(hostKey := Some(p.blob)), None, false, inits, rest, goal)
  {
    var d := c.(received := c.received + [packets[0]]);
    assert Exchange(cfg, Stop(d), inits, packets[1..]) == Stop(d);
  }

  /** Only packets and a host key have come in. */
  ghost predicate TookKeys(c0: Client, c: Client, hostKey: Option<Octets>) {
    c == c0.(received := c.received, hostKey := hostKey)
  }

  /** One packet: a host key is taken in, once; any other ends the loop. */
  method TakeHostKey(cfg: Config, ghost c0: Client, ghost inits: seq<GssResult>, hostKey0: Option<Octets>,
                     p: Message, ghost packets: seq<Message>, ghost goal: Client)
    returns (fatal: bool, hostKey: Option<Octets>, m: Option<Message>, ghost c: Client)
    requires c0.hostKey == hostKey0 && packets != [] && packets[0] == p
    requires Heading(cfg, c0, None, false, inits, packets, goal)
    ensures TookKeys(c0, c, hostKey)
    ensures Heading(cfg, c, m, fatal, inits, packets[1..], goal)
  {
    ReadHostKey(cfg, c0, inits, packets, goal);
    fatal, hostKey, m, c := false, hostKey0, None, c0;
    if p.HostKey? {
      c := c.(received := c.received + [p]);
      if hostKey.Some? {
        fatal := true;
      } else {
        hostKey := Some(p.blob);
        c := c.(hostKey := hostKey);
      }
    } else {
      m := Some(p);
    }
  }

  /** The inner loop: host keys are taken in until another packet comes. */
  method ReadReply(cfg: Config, ghost c0: Client, ghost inits: seq<GssResult>, hostKey0: Option<Octets>,
                   packets: seq<Message>, j0: nat, ghost goal: Client)
    returns (fatal: bool, hostKey: Option<Octets>, j: nat, m: Option<Message>, ghost c: Client)
    requires c0.hostKey == hostKey0 && j0 <= |packets|
    requires Heading(cfg, c0, None, false, inits, packets[j0..], goal)
    ensures j0 <= j <= |packets| && (!fatal && m.None? ==> j == |packets|)
    ensures TookKeys(c0, c, hostKey)
    ensures Heading(cfg, c, m, fatal, inits, packets[j..], goal)
  {
    fatal, hostKey, j, m, c := false, hostKey0, j0, None, c0;
    while !fatal && m.None? && j < |packets|
      invariant j0 <= j <= |packets|
      invariant TookKeys(c0, c, hostKey)
      invariant Heading(cfg, c, m, fatal, inits, packets[j..], goal)
    {
      assert packets[j..][0] == packets[j] && packets[j..][1..] == packets[j + 1..];
      fatal, hostKey, m, c := TakeHostKey(cfg, c, inits, hostKey, packets[j], packets[j..], goal);
      j := j + 1;
    }
  }

  /** The checks on what gss_init_sec_context gave, and the message sent for it. */
  method SendToken(cfg: Config, ghost c: Client, r: GssResult, group: Group, first0: bool, sent0: seq<Message>)
    returns (fatal: bool, first: bool, sent: seq<Message>)
    requires c.phase.CallInit? && c.group == Some(group) && c.first == first0 && c.sent == sent0
    ensures fatal <==>
            r.maj.error || (r.maj.Complete() && !(r.mutual && r.integ)) || (r.token == [] && !r.maj.Complete())
    ensures fatal ==> AfterInit(cfg, c, r).phase.Stopped? && AfterInit(cfg, c, r).sent == sent
    ensures !fatal ==>
      AfterInit(cfg, c, r) ==
      (var z := c.(maj := r.maj, inits := c.inits + [r], fed := Fed(c), sent := sent, first := first);
       if r.token != [] then z.(phase := Reading) else LoopTest(z, None))
  {
    fatal, first, sent := false, first0, sent0;
    if r.maj.error {
      fatal := true;
      return;
    }
    if r.maj.Complete() {
      if !r.mutual {
        fatal := true;
        return;
      }
      if !r.integ {
        fatal := true;
        return;
      }
    }
    if r.token != [] {
      if first {
        sent := sent + [Init(r.token, Pub(group, cfg.clientKey))];
        first := false;
      } else {
        sent := sent + [Continue(r.token)];
      }
    } else if !r.maj.Complete() {
      fatal := true;
    }
  }

  /** The switch on the reply: the token it carries, and what the final message brings. */
  method TakeReply(ghost c: Client, m: Message, maj: Major, final0: Final)
    returns (fatal: bool, recvTok: Option<Octets>, final: Final)
    requires c.phase.Reading? && c.maj == maj && c.complete == final0 && !m.HostKey?
    ensures fatal ==> Read(c, m).phase.Stopped? && Read(c, m).sent == c.sent
    ensures !fatal ==>
      Read(c, m) == LoopTest(c.(received := c.received + [m], last := Some(m), complete := final), recvTok)
  {
    fatal, recvTok, final := false, None, final0;
    match m {
      case Continue(token) =>
        if maj.Complete() {
          fatal := true;
          return;
        }
        recvTok := Some(token);
      case Complete(pub, mic, finalToken) =>
        if final.Some? {
          fatal := true;
          return;
        }
        final := Some((pub, mic));
        if finalToken.Some? {
          recvTok := finalToken;
          fatal := maj.Complete();
        } else {
          fatal := !maj.Complete();
        }
      case _ =>
        fatal := true;
    }
  }

  /** A token is out: the reply is read and looked into. */
  method AwaitReply(cfg: Config, ghost c0: Client, ghost inits: seq<GssResult>, maj: Major, hostKey0: Option<Octets>,
                    final0: Final, packets: seq<Message>, j0: nat, ghost goal: Client)
    returns (ending: Option<Ending>, hostKey: Option<Octets>, final: Final, recvTok: Option<Octets>, completed: bool,
             j: nat, ghost c: Client)
    requires c0.maj == maj && c0.hostKey == hostKey0 && c0.complete == final0 && j0 <= |packets|
    requires Heading(cfg, c0, None, false, inits, packets[j0..], goal)
    ensures j0 <= j <= |packets|
    ensures ending.Some? ==>
              && ending.value == EndingOf(goal) && !ending.value.AtMicCheck?
              && goal.sent == c0.sent && goal.group == c0.group
    ensures ending.None? ==>
              && Exchange(cfg, c, inits, packets[j..]) == goal
              && c.last.Some? && c.last.value.Complete? == completed
              && (var d := c0.(received := c.received, hostKey := hostKey, complete := final, last := c.last);
                  c == LoopTest(d, recvTok))
  {
    var fatal, m;
    ending, final, recvTok, completed := None, final0, None, false;
    fatal, hostKey, j, m, c := ReadReply(cfg, c0, inits, hostKey0, packets, j0, goal);
    if fatal {
      ending := Some(Fatal);
    } else if m.None? {
      ending := Some(Waiting);
    } else {
      fatal, recvTok, final := TakeReply(c, m.value, maj, final0);
      c := Read(c, m.value);
      completed := m.value.Complete?;
      if fatal {
        ending := Some(Fatal);
      }
    }
  }

  /** The token loop of either client, from the first call of gss_init_sec_context to its end. */
  method TokenLoop(cfg: Config, ghost c0: Client, group: Group, sent0: seq<Message>,
                   inits: seq<GssResult>, packets: seq<Message>)
    returns (ending: Ending, sent: seq<Message>, hostKey: Option<Octets>, final: Final)
    requires Mirrors(c0, group, None, true, None, None, false, sent0)
    ensures var z := Exchange(cfg, c0, inits, packets);
            && ending == EndingOf(z) && sent == z.sent && z.group == Some(group)
            && (ending.AtMicCheck? ==> z.hostKey == hostKey && z.complete == final)
  {
    ghost var c, goal := c0, Exchange(cfg, c0, inits, packets);
    var tokenPtr: Option<Octets>, first, completed, again := None, true, false, true;
    sent, hostKey, final := sent0, None, None;
    var i, j := 0, 0;
    while again && i < |inits|
      invariant 0 <= i <= |inits| && 0 <= j <= |packets|
      invariant if again then Mirrors(c, group, tokenPtr, first, hostKey, final, completed, sent)
                else Left(c, group, hostKey, final, completed, sent)
      invariant Exchange(cfg, c, inits[i..], packets[j..]) == goal
      decreases |inits| - i
    {
      var r, fatal := inits[i], false;
      assert inits[i..][1..] == inits[i + 1..];
      i := i + 1;
      fatal, first, sent := SendToken(cfg, c, r, group, first, sent);
      c := AfterInit(cfg, c, r);
      if fatal {
        return Fatal, sent, hostKey, final;
      }
      if r.token != [] {
        var over;
        over, hostKey, final, tokenPtr, completed, j, c :=
          AwaitReply(cfg, c, inits[i..], r.maj, hostKey, final, packets, j, goal);
        if over.Some? {
          return over.value, sent, hostKey, final;
        }
      }
      again := r.maj.continueNeeded;
    }
    ending := if again then Waiting else if completed then AtMicCheck else Fatal;
  }

  /** Shared secret, exchange hash and the check of the MIC, from the program's variables. */
  method CheckMic(cfg: Config, ghost c: Client, group: Group, hostKey: Option<Octets>, final: Final)
    returns (ending: Ending)
    requires c.group == Some(group) && c.hostKey == hostKey && c.complete == final
    ensures ending == EndingOf(Verify(cfg, c))
  {
    if final.None? {
      return Fatal;
    }
    var (serverPub, mic) := final.value;
    if !cfg.validPub(group, serverPub) {
      return Fatal;
    }
    var secret := Secret(group, cfg.clientKey, serverPub);
    var blob := if hostKey.Some? then hostKey.value else [];
    var gex := if cfg.kind.FixedGroup? then NoGex else Gex(cfg.groupMin, cfg.kind.nbits, cfg.groupMax, group);
    var hashed := HashInputs(
      cfg.client.clientVersion, cfg.client.serverVersion, cfg.client.my, cfg.client.peer, blob, gex,
      Pub(group, cfg.clientKey), serverPub, secret);
    if !cfg.checkMic(cfg.hash(hashed), mic) {
      return Fatal;
    }
    ending := Keys(secret, hashed);
  }

  /** The client of a fixed group. */
  method KexgssClient(cfg: Config, inits: seq<GssResult>, packets: seq<Message>)
    returns (ending: Ending, sent: seq<Message>)
    requires cfg.kind.FixedGroup?
    ensures var z := Finish(cfg, Exchange(cfg, Start(cfg), inits, packets));
            ending == EndingOf(z) && sent == z.sent
  {
    if cfg.clientKey.None? {
      return Fatal, [];
    }
    var group, hostKey, final := cfg.kind.group, None, None;
    ending, sent, hostKey, final := TokenLoop(cfg, Start(cfg), group, [], inits, packets);
    if ending.AtMicCheck? {
      ending := CheckMic(cfg, Exchange(cfg, Start(cfg), inits, packets), group, hostKey, final);
    }
  }

  /** The client of a group exchange: the size request and the group come first. */
  method KexgssgexClient(cfg: Config, inits: seq<GssResult>, packets: seq<Message>)
    returns (ending: Ending, sent: seq<Message>)
    requires cfg.kind.GroupExchange?
    ensures var z := Finish(cfg, Exchange(cfg, Start(cfg), inits, packets));
            ending == EndingOf(z) && sent == z.sent
  {
    sent := [GroupReq(cfg.groupMin, cfg.kind.nbits, cfg.groupMax)];
    if packets == [] {
      return Waiting, sent;
    }
    var m := packets[0];
    ghost var c := ReadGroup(cfg, Start(cfg), m);
    assert c.sent == sent;
    if !m.GroupMsg? || Bits(m.group.p) < cfg.groupMin || Bits(m.group.p) > cfg.groupMax || cfg.clientKey.None? {
      return Fatal, sent;
    }
    var group, hostKey, final := m.group, None, None;
    ending, sent, hostKey, final := TokenLoop(cfg, c, group, sent, inits, packets[1..]);
    if ending.AtMicCheck? {
      ending := CheckMic(cfg, Exchange(cfg, Start(cfg), inits, packets), group, hostKey, final);
    }
  }
}
