/**
 The server programs (kexgsss.c) over their own variables, against the step machine: the machine runs
 beside them as a ghost.
 */
module KexServerProgram {
  import opened Wrappers
  import opened KexProtocol
  import opened KexServer

  function EndingOf(s: Server): Ending {
    match s.phase
    case Derived(secret, hashed) => Keys(secret, hashed)
    case Stopped => Fatal
    case _ => Waiting
  }

  /** The shared secret of a fixed group is computed as soon as the client's key is there. */
  ghost predicate Precomputed(cfg: Config, group: Group, clientPub: Option<nat>, secret: Option<nat>) {
    cfg.kind.FixedGroup? && clientPub.Some? ==>
      cfg.serverKey.Some? && secret == Some(Secret(group, cfg.serverKey, clientPub.value))
  }

  /** The variables of the token loop agree with the machine. */
  ghost predicate Mirrors(cfg: Config, s: Server, group: Group, gex: GexInputs, clientPub: Option<nat>,
                          secret: Option<nat>, sent: seq<Message>)
  {
    && s.group == Some(group) && s.gex == gex && s.clientPub == clientPub && s.sent == sent
    && Precomputed(cfg, group, clientPub, secret)
  }

  /** The switch on the type of a packet. */
  method TakePacket(cfg: Config, ghost s: Server, m: Message, group: Group, clientPub0: Option<nat>,
                    secret0: Option<nat>)
    returns (fatal: bool, recvTok: Octets, clientPub: Option<nat>, secret: Option<nat>)
    requires s.phase.Reading? && s.group == Some(group) && s.clientPub == clientPub0
    requires Precomputed(cfg, group, clientPub0, secret0)
    ensures fatal ==> Read(cfg, s, m).phase.Stopped? && Read(cfg, s, m).sent == s.sent
    ensures !fatal ==>
              && (Read(cfg, s, m)
                  == s.(received := s.received + [m], clientPub := clientPub, phase := CallAccept(recvTok)))
              && Precomputed(cfg, group, clientPub, secret)
  {
    fatal, recvTok, clientPub, secret := false, [], clientPub0, secret0;
    match m {
      case Init(token, pub) =>
        if clientPub.Some? {
          fatal := true;
          return;
        }
        recvTok, clientPub := token, Some(pub);
        if cfg.kind.FixedGroup? {
          if cfg.serverKey.None? || !cfg.validPub(group, pub) {
            fatal := true;
            return;
          }
          secret := Some(Secret(group, cfg.serverKey, pub));
        }
      case Continue(token) =>
        recvTok := token;
      case _ =>
        fatal := true;
    }
  }

  /** The loop of either server up to a status without CONTINUE_NEEDED, which is handed out as `last`. */
  method TokenLoop(cfg: Config, ghost s0: Server, group: Group, gex: GexInputs, sent0: seq<Message>,
                   accepts: seq<GssResult>, packets: seq<Message>)
    returns (ending: Option<Ending>, sent: seq<Message>, clientPub: Option<nat>, secret: Option<nat>,
             last: GssResult, ghost s: Server)
    requires s0.phase.Reading? && Mirrors(cfg, s0, group, gex, None, None, sent0)
    ensures var z := Exchange(cfg, s0, accepts, packets);
            if ending.Some? then ending.value == EndingOf(z) && sent == z.sent
            else
              && Mirrors(cfg, s, group, gex, clientPub, secret, sent)
              && s.phase.CallAccept? && !last.maj.continueNeeded && clientPub.Some?
              && (last.token == [] ==> last.maj.Complete())
              && z == AfterAccept(cfg, s, last)
  {
    ghost var goal := Exchange(cfg, s0, accepts, packets);
    s := s0;
    ending, sent, clientPub, secret := None, sent0, None, None;
    last := GssResult(Major(false, false, false), [], false, false);
    var i, j := 0, 0;
    while j < |packets|
      invariant 0 <= i <= |accepts| && 0 <= j <= |packets| && ending.None?
      invariant s.phase.Reading? && Mirrors(cfg, s, group, gex, clientPub, secret, sent)
      invariant Exchange(cfg, s, accepts[i..], packets[j..]) == goal
    {
      assert packets[j..][1..] == packets[j + 1..];
      var m, fatal, recvTok := packets[j], false, [];
      fatal, recvTok, clientPub, secret := TakePacket(cfg, s, m, group, clientPub, secret);
      s := Read(cfg, s, m);
      j := j + 1;
      if fatal {
        ending := Some(Fatal);
        return;
      }
      if i == |accepts| {
        ending := Some(Waiting);
        return;
      }
      assert accepts[i..][1..] == accepts[i + 1..];
      last := accepts[i];
      i := i + 1;
      EndsAfterAccept(cfg, AfterAccept(cfg, s, last), accepts[i..], packets[j..]);
      if !last.maj.Complete() && last.token == [] {
        ending := Some(Fatal);
        return;
      }
      if clientPub.None? {
        ending := Some(Fatal);
        return;
      }
      if !last.maj.continueNeeded {
        return;
      }
      sent := sent + [Continue(last.token)];
      s := AfterAccept(cfg, s, last);
    }
    ending := Some(Waiting);
  }

  /** Out of the loop the machine takes no further step. */
  lemma EndsAfterAccept(cfg: Config, s: Server, accepts: seq<GssResult>, packets: seq<Message>)
    ensures s.phase.Stopped? || s.phase.Derived? ==> Exchange(cfg, s, accepts, packets) == s
  {
  }

  /** What follows the loop: the error message, the flags, the hash, its MIC and the final message. */
  method Conclusion(cfg: Config, ghost s: Server, group: Group, gex: GexInputs, sent0: seq<Message>,
                    clientPub: nat, secret0: Option<nat>, last: GssResult)
    returns (ending: Ending, sent: seq<Message>)
    requires s.phase.CallAccept? && Mirrors(cfg, s, group, gex, Some(clientPub), secret0, sent0)
    requires !last.maj.continueNeeded && (last.token == [] ==> last.maj.Complete())
    ensures ending == EndingOf(AfterAccept(cfg, s, last)) && sent == AfterAccept(cfg, s, last).sent
  {
    ending, sent := Fatal, sent0;
    if last.maj.error {
      if last.token != [] {
        sent := sent + [Continue(last.token)];
      }
      return;
    }
    if !last.mutual || !last.integ {
      return;
    }
    var secret;
    if cfg.kind.FixedGroup? {
      secret := secret0.value;
    } else {
      if !cfg.validPub(group, clientPub) {
        return;
      }
      secret := Secret(group, cfg.serverKey, clientPub);
    }
    var serverPub := Pub(group, cfg.serverKey);
    var hashed := HashInputs(
      cfg.server.clientVersion, cfg.server.serverVersion, cfg.server.peer, cfg.server.my, [], gex,
      clientPub, serverPub, secret);
    var mic := cfg.sign(cfg.hash(hashed));
    if mic.None? {
      return;
    }
    sent := sent + [Complete(serverPub, mic.value, if last.token != [] then Some(last.token) else None)];
    ending := Keys(secret, hashed);
  }

  /** The loop and what follows it. */
  method Serve(cfg: Config, ghost s0: Server, group: Group, gex: GexInputs, sent0: seq<Message>,
               accepts: seq<GssResult>, packets: seq<Message>)
    returns (ending: Ending, sent: seq<Message>)
    requires s0.phase.Reading? && Mirrors(cfg, s0, group, gex, None, None, sent0)
    ensures var z := Exchange(cfg, s0, accepts, packets); ending == EndingOf(z) && sent == z.sent
  {
    var over, clientPub, secret, last;
    ghost var s;
    over, sent, clientPub, secret, last, s := TokenLoop(cfg, s0, group, gex, sent0, accepts, packets);
    if over.Some? {
      return over.value, sent;
    }
    ending, sent := Conclusion(cfg, s, group, gex, sent, clientPub.value, secret, last);
  }

  /** The server of a fixed group. */
  method KexgssServer(cfg: Config, accepts: seq<GssResult>, packets: seq<Message>)
    returns (ending: Ending, sent: seq<Message>)
    requires cfg.kind.FixedGroup?
    ensures var z := Exchange(cfg, Start(cfg), accepts, packets); ending == EndingOf(z) && sent == z.sent
  {
    ending, sent := Serve(cfg, Start(cfg), cfg.kind.group, NoGex, [], accepts, packets);
  }

  /** The server of a group exchange: the size request is answered first. */
  method KexgssgexServer(cfg: Config, accepts: seq<GssResult>, packets: seq<Message>)
    returns (ending: Ending, sent: seq<Message>)
    requires cfg.kind.GroupExchange?
    ensures var z := Exchange(cfg, Start(cfg), accepts, packets); ending == EndingOf(z) && sent == z.sent
  {
    sent := [];
    if packets == [] {
      return Waiting, sent;
    }
    var request := packets[0];
    ghost var s := ReadGroupReq(cfg, Start(cfg), request);
    if !request.GroupReq? {
      return Fatal, sent;
    }
    var cmin, nbits, cmax := request.min, request.nbits, request.max;
    var min := if cfg.groupMin > cmin then cfg.groupMin else cmin;
    var max := if cfg.groupMax < cmax then cfg.groupMax else cmax;
    nbits := if cfg.groupMin > nbits then cfg.groupMin else nbits;
    nbits := if cfg.groupMax < nbits then cfg.groupMax else nbits;
    if max < min || nbits < min || max < nbits {
      return Fatal, sent;
    }
    var group := cfg.choose(min, nbits, max);
    if group.None? {
      return Fatal, sent;
    }
    sent := [GroupMsg(group.value)];
    assert s.sent == sent;
    if cfg.serverKey.None? {
      return Fatal, sent;
    }
    ending, sent :=
      Serve(cfg, s, group.value, Gex(cmin, nbits, cmax, group.value), sent, accepts, packets[1..]);
  }
}
