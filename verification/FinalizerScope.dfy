/** A finalization of one shared object leaves the destructors of all others alone (cxa_finalize.c). */
module FinalizerScope {
  import opened Wrappers
  import opened FinalizerThreads

  /** The destructors of the object are meant. */
  ghost predicate Covers(scope: Scope, dso: int) {
    scope.Everything? || scope.dso == dso
  }

  /** The call is past the comparison of objects, at an entry of its own. */
  predicate AtEntry(x: Activation) {
    x.pc.Lock? || x.pc.Held? || x.pc.Mark? || x.pc.Unlock? || x.pc.Call? || x.pc.Running?
  }

  ghost predicate OnTarget(slots: seq<Slot>, x: Activation) {
    x.scope.OneDso? && AtEntry(x) && x.pc.i < |slots| ==> slots[x.pc.i].dso == x.scope.dso
  }

  /** Some call that was started covers entry `e`. */
  ghost predicate SomeCovers(acts: seq<Activation>, dso: int) {
    exists a :: 0 <= a < |acts| && Covers(acts[a].scope, dso)
  }

  ghost predicate Aimed(y: System) {
    forall a :: 0 <= a < |y.acts| ==> OnTarget(y.slots, y.acts[a])
  }

  /** Entry `e` is as it was, and has not been called, unless some call covers it. */
  ghost predicate LeftAlone(slots: seq<Slot>, y: System, e: nat)
    requires e < |slots|
  {
    && |y.slots| == |slots| && y.slots[e].dso == slots[e].dso
    && (SomeCovers(y.acts, slots[e].dso) || (y.slots[e] == slots[e] && Calls(y.calls, e) == 0))
  }

  lemma AdvanceAims(y: System, a: nat)
    requires Enabled(y, a) && OnTarget(y.slots, y.acts[a])
    ensures a < |Advance(y, a).acts| && OnTarget(Advance(y, a).slots, Advance(y, a).acts[a])
  {
  }

  lemma AdvanceKeepsAim(y: System, a: nat)
    requires Enabled(y, a) && Aimed(y)
    ensures Aimed(Advance(y, a))
  {
    AdvanceMarks(y, a);
    AdvanceAims(y, a);
    var z := Advance(y, a);
    forall b | 0 <= b < |z.acts| ensures OnTarget(z.slots, z.acts[b]) {
      assert OnTarget(y.slots, y.acts[b]);
    }
  }

  /** A step changes or calls an entry only for a call that covers it. */
  lemma TouchedIsCovered(y: System, a: nat, e: nat)
    requires Enabled(y, a) && OnTarget(y.slots, y.acts[a]) && e < |y.slots| == |Advance(y, a).slots|
    ensures Advance(y, a).slots[e] != y.slots[e] ==> Covers(y.acts[a].scope, y.slots[e].dso)
    ensures CallsNow(y.acts[a]) && Entry(y.acts[a].scope, y.acts[a].pc.i) == e ==>
              Covers(y.acts[a].scope, y.slots[e].dso)
  {
  }

  lemma AdvanceLeavesAlone(slots: seq<Slot>, y: System, a: nat, e: nat)
    requires e < |slots| && Enabled(y, a) && Aimed(y) && LeftAlone(slots, y, e)
    ensures LeftAlone(slots, Advance(y, a), e)
  {
    var x, z := y.acts[a], Advance(y, a);
    AdvanceMarks(y, a);
    StepCalls(y, a);
    assert OnTarget(y.slots, x);
    TouchedIsCovered(y, a, e);
    if b :| 0 <= b < |y.acts| && Covers(y.acts[b].scope, slots[e].dso) {
      assert z.acts[b].scope == y.acts[b].scope;
    } else {
      assert !Covers(x.scope, slots[e].dso);
      if CallsNow(x) {
        CallsAppend(y.calls, Entry(x.scope, x.pc.i), e);
      }
    }
  }

  lemma SpawnLeavesAlone(slots: seq<Slot>, y: System, scope: Scope, parent: Option<nat>, e: nat)
    requires e < |slots| && Aimed(y) && LeftAlone(slots, y, e)
    ensures Aimed(Spawn(y, scope, parent)) && LeftAlone(slots, Spawn(y, scope, parent), e)
  {
    var z := Spawn(y, scope, parent);
    forall b | 0 <= b < |z.acts| ensures OnTarget(z.slots, z.acts[b]) {
      assert b < |y.acts| ==> z.acts[b] == y.acts[b] && OnTarget(y.slots, y.acts[b]);
    }
    if b :| 0 <= b < |y.acts| && Covers(y.acts[b].scope, slots[e].dso) {
      assert z.acts[b] == y.acts[b];
    }
  }

  lemma {:induction false} RunLeavesAlone(slots: seq<Slot>, y: System, vs: seq<Event>, e: nat)
    requires e < |slots| && Aimed(y) && LeftAlone(slots, y, e) && Legal(y, vs)
    ensures LeftAlone(slots, After(y, vs), e)
    decreases |vs|
  {
    if vs != [] {
      match vs[0] {
        case Start(scope, parent) =>
          SpawnLeavesAlone(slots, y, scope, parent, e);
        case Go(a) =>
          AdvanceKeepsAim(y, a);
          AdvanceLeavesAlone(slots, y, a, e);
      }
      RunLeavesAlone(slots, Apply(y, vs[0]), vs[1..], e);
    }
  }

  /**
   In every interleaving: if no call that was started was for everything or for the object of entry `e`, then
   that entry is as it was and its destructor has not been called.
   */
  lemma OthersAreLeftAlone(slots: seq<Slot>, vs: seq<Event>, e: nat)
    requires e < |slots| && Legal(Quiet(slots), vs)
    requires forall a :: 0 <= a < |After(Quiet(slots), vs).acts| ==>
               var scope := After(Quiet(slots), vs).acts[a].scope;
               scope.OneDso? && scope.dso != slots[e].dso
    ensures |After(Quiet(slots), vs).slots| == |slots| && After(Quiet(slots), vs).slots[e] == slots[e]
    ensures Calls(After(Quiet(slots), vs).calls, e) == 0
  {
    RunLeavesAlone(slots, Quiet(slots), vs, e);
  }

  /**
   So once all calls have returned, the destructors called are exactly the pending ones that some call was
   for, each once.
   */
  lemma CalledExactly(slots: seq<Slot>, vs: seq<Event>, e: nat)
    requires e < |slots| && Legal(Quiet(slots), vs) && AllReturned(After(Quiet(slots), vs))
    ensures var y := After(Quiet(slots), vs);
            Calls(y.calls, e) == if slots[e].ty.Callback? && SomeCovers(y.acts, slots[e].dso) then 1 else 0
  {
    var y := After(Quiet(slots), vs);
    if a :| 0 <= a < |y.acts| && Covers(y.acts[a].scope, slots[e].dso) {
      ExactlyOnce(slots, vs, a, e);
    } else {
      OthersAreLeftAlone(slots, vs, e);
    }
  }
}
