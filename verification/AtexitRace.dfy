/**
 The exit callback beside finalizations (cxa_finalize.c): it tests and marks entries without the mutex.
 Any number of `__cxa_finalize` calls may run at the same time, those made inside its own destructors
 included; that it waits for the latter is not demanded. No registration is under way.
 */
module AtexitRace {
  import opened Wrappers
  import opened FinalizerThreads

  /** The callback walks down twice: entries of local scope first, those of global scope last. */
  datatype Pass = First | Second

  /** Where the callback is; `i` counts the entries of this pass still to visit. */
  datatype Exit =
    | Look(pass: Pass, i: nat)        // tests type and scope of entry `i - 1`
    | Set(pass: Pass, i: nat)         // found it pending; writes the type
    | Invoke(pass: Pass, i: nat)      // calls the destructor
    | Inside(pass: Pass, i: nat)      // inside the destructor
    | Over

  /** The finalizations, the callback, and which entries have local scope. */
  datatype World = World(y: System, exit: Exit, locals: set<nat>)

  predicate Mine(w: World, pass: Pass, e: nat) {
    (e in w.locals) == pass.First?
  }

  predicate ExitPlaced(w: World) {
    match w.exit
    case Look(_, i) => i <= |w.y.slots|
    case Over => true
    case _ => 0 < w.exit.i <= |w.y.slots|
  }

  /** The next step of the callback. */
  function ExitStep(w: World): World
    requires ExitPlaced(w) && !w.exit.Over?
  {
    match w.exit
    case Look(pass, i) =>
      if i == 0 then w.(exit := if pass.First? then Look(Second, |w.y.slots|) else Over)
      else if w.y.slots[i - 1].ty.Callback? && Mine(w, pass, i - 1) then w.(exit := Set(pass, i))
      else w.(exit := Look(pass, i - 1))
    case Set(pass, i) =>
      w.(y := w.y.(slots := w.y.slots[i - 1 := w.y.slots[i - 1].(ty := Done)]), exit := Invoke(pass, i))
    case Invoke(pass, i) =>
      w.(y := w.y.(calls := w.y.calls + [i - 1]), exit := Inside(pass, i))
    case Inside(pass, i) =>
      w.(exit := Look(pass, i - 1))
  }

  /** A step of the callback, or of the finalizations. */
  datatype Turn = Callee | Finalizer(v: Event)

  predicate May(w: World, t: Turn) {
    match t
    case Callee => ExitPlaced(w) && !w.exit.Over?
    case Finalizer(v) => Possible(w.y, v)
  }

  function Take(w: World, t: Turn): World
    requires May(w, t)
  {
    match t
    case Callee => ExitStep(w)
    case Finalizer(v) => w.(y := Apply(w.y, v))
  }

  ghost predicate Run(w: World, ts: seq<Turn>)
    decreases |ts|
  {
    ts == [] || (May(w, ts[0]) && Run(Take(w, ts[0]), ts[1..]))
  }

  ghost function End(w: World, ts: seq<Turn>): World
    requires Run(w, ts)
    decreases |ts|
  {
    if ts == [] then w else End(Take(w, ts[0]), ts[1..])
  }

  // ---------------------------------------------------------------------------
  // The race

  /** A finalization has read entry `e` as pending and not yet marked it. */
  predicate Promises(x: Activation, e: int) {
    x.pc.Mark? && x.pc.ty.Callback? && Entry(x.scope, x.pc.i) == e
  }

  /** Both sides have found the same entry pending and neither has marked it. */
  ghost predicate Racing(w: World, e: nat) {
    && w.exit.Set? && w.exit.i == e + 1
    && exists a :: 0 <= a < |w.y.acts| && Promises(w.y.acts[a], e)
  }

  /** Some state of the run races on `e`. */
  ghost predicate Raced(w: World, ts: seq<Turn>, e: nat)
    requires Run(w, ts)
    decreases |ts|
  {
    Racing(w, e) || (ts != [] && Raced(Take(w, ts[0]), ts[1..], e))
  }

  // ---------------------------------------------------------------------------
  // Claims: who has found an entry pending and not yet called it

  predicate Claims(x: Activation, e: int) {
    Promises(x, e) || Owns(x, e)
  }

  function Claimants(acts: seq<Activation>, e: int): nat {
    if acts == [] then 0
    else Claimants(acts[..|acts| - 1], e) + (if Claims(acts[|acts| - 1], e) then 1 else 0)
  }

  predicate ExitClaims(x: Exit, e: int) {
    (x.Set? || x.Invoke?) && x.i == e + 1
  }

  /** How often the destructor of `e` has been called or is sure to be. */
  function Total(w: World, e: nat): nat {
    Claimants(w.y.acts, e) + (if ExitClaims(w.exit, e) then 1 else 0) + Calls(w.y.calls, e)
  }

  lemma {:induction false} ClaimantsUpdate(acts: seq<Activation>, a: nat, x: Activation, e: int)
    requires a < |acts|
    ensures Claimants(acts[a := x], e) + (if Claims(acts[a], e) then 1 else 0)
            == Claimants(acts, e) + (if Claims(x, e) then 1 else 0)
  {
    var k := |acts| - 1;
    if a < k {
      ClaimantsUpdate(acts[..k], a, x, e);
      assert acts[a := x][..k] == acts[..k][a := x];
    } else {
      assert acts[a := x][..k] == acts[..k];
    }
  }

  lemma ClaimantsAppend(acts: seq<Activation>, x: Activation, e: int)
    ensures Claimants(acts + [x], e) == Claimants(acts, e) + (if Claims(x, e) then 1 else 0)
  {
    assert (acts + [x])[..|acts|] == acts;
  }

  lemma {:induction false} NoClaimants(acts: seq<Activation>, e: int)
    requires forall a :: 0 <= a < |acts| ==> !Claims(acts[a], e)
    ensures Claimants(acts, e) == 0
  {
    if acts != [] {
      NoClaimants(acts[..|acts| - 1], e);
    }
  }

  lemma {:induction false} OneClaimant(acts: seq<Activation>, e: int, a: nat)
    requires a < |acts| && Claims(acts[a], e)
    requires forall b :: 0 <= b < |acts| && b != a ==> !Claims(acts[b], e)
    ensures Claimants(acts, e) == 1
  {
    var k := |acts| - 1;
    if a < k {
      OneClaimant(acts[..k], e, a);
    } else {
      NoClaimants(acts[..k], e);
    }
  }

  lemma {:induction false} SomeClaimant(acts: seq<Activation>, e: int, a: nat)
    requires a < |acts| && Claims(acts[a], e)
    ensures Claimants(acts, e) >= 1
  {
    var k := |acts| - 1;
    if a < k {
      SomeClaimant(acts[..k], e, a);
    }
  }

  lemma RacingTotal(w: World, e: nat)
    requires Racing(w, e)
    ensures Total(w, e) >= 2
  {
    var a :| 0 <= a < |w.y.acts| && Promises(w.y.acts[a], e);
    SomeClaimant(w.y.acts, e, a);
  }

  // ---------------------------------------------------------------------------
  // What every step keeps

  /** An entry that is still pending was called by nobody; whoever claims it has yet to mark it. */
  ghost predicate Untouched(w: World, e: nat) {
    && Calls(w.y.calls, e) == 0
    && !(w.exit.Invoke? && w.exit.i == e + 1)
    && forall a :: 0 <= a < |w.y.acts| ==> !Owns(w.y.acts[a], e)
  }

  ghost predicate Counted(w: World, pending: set<nat>, e: nat)
    requires e < |w.y.slots|
  {
    && (w.y.slots[e].ty.Callback? ==> e in pending && Untouched(w, e))
    && (w.y.slots[e].ty.Done? ==> if e in pending then 1 <= Total(w, e) <= 2 else Total(w, e) == 0)
  }

  /** What the callback has passed is marked. */
  ghost predicate ExitCovered(w: World) {
    forall e: nat :: e < |w.y.slots| && Behind(w, e) ==> w.y.slots[e].ty.Done?
  }

  ghost predicate Behind(w: World, e: nat) {
    match w.exit
    case Look(pass, i) => if Mine(w, pass, e) then e >= i else pass.Second?
    case Set(pass, i) => if Mine(w, pass, e) then e >= i else pass.Second?
    case Invoke(pass, i) => if Mine(w, pass, e) then e >= i - 1 else pass.Second?
    case Inside(pass, i) => if Mine(w, pass, e) then e >= i - 1 else pass.Second?
    case Over => true
  }

  /** Whoever is about to mark an entry it has read as done marks one that is done. */
  ghost predicate MarkFits(slots: seq<Slot>, x: Activation) {
    x.pc.Mark? && x.pc.ty.Done? && 0 <= Entry(x.scope, x.pc.i) < |slots| ==> slots[Entry(x.scope, x.pc.i)].ty.Done?
  }

  ghost predicate Sound(w: World, pending: set<nat>) {
    && |w.y.slots| > 0
    && (w.y.holder.Some? ==> w.y.holder.value < |w.y.acts|)
    && Mutex(w.y)
    && (forall a :: 0 <= a < |w.y.acts| ==> MarkFits(w.y.slots, w.y.acts[a]))
    && ExitPlaced(w) && ExitCovered(w)
    && forall e: nat :: e < |w.y.slots| ==> Counted(w, pending, e)
  }

  /** The claims on a pending entry: at most one finalization, by the mutex, and the callback. */
  lemma PendingTotal(w: World, pending: set<nat>, e: nat)
    requires Mutex(w.y) && e < |w.y.slots| && w.y.slots[e].ty.Callback? && Counted(w, pending, e)
    ensures Total(w, e) <= 2 && (Total(w, e) == 2 <==> Racing(w, e))
    ensures forall a :: 0 <= a < |w.y.acts| && Claims(w.y.acts[a], e) ==> Holding(w.y.acts[a])
  {
    if a :| 0 <= a < |w.y.acts| && Promises(w.y.acts[a], e) {
      forall b | 0 <= b < |w.y.acts| && b != a ensures !Claims(w.y.acts[b], e) {
        assert Holding(w.y.acts[a]) <==> w.y.holder == Some(a);
        assert Holding(w.y.acts[b]) <==> w.y.holder == Some(b);
      }
      OneClaimant(w.y.acts, e, a);
    } else {
      NoClaimants(w.y.acts, e);
    }
  }

  /** The step reads entry `e` as pending; in a finalization of everything the second read decides. */
  predicate Reads(y: System, a: nat, e: nat)
    requires a < |y.acts| && e < |y.slots|
  {
    (if y.acts[a].scope.Everything? then y.acts[a].pc.Seen? else y.acts[a].pc.Held?)
    && Entry(y.acts[a].scope, y.acts[a].pc.i) == e && y.slots[e].ty.Callback?
  }

  /** Reading a pending entry makes a claim, calling turns the claim into a call, all else changes neither. */
  lemma StepMovesClaims(y: System, a: nat, e: nat)
    requires FinalizerThreads.Enabled(y, a) && e < |y.slots|
    ensures var x, z := y.acts[a], Advance(y, a);
            (if Claims(z.acts[a], e) then 1 else 0) + (if CallsNow(x) && Owns(x, e) then 1 else 0)
            == (if Claims(x, e) then 1 else 0) + (if Reads(y, a, e) then 1 else 0)
  {
  }

  lemma FinalizerMovesClaims(w: World, a: nat, e: nat)
    requires FinalizerThreads.Enabled(w.y, a) && e < |w.y.slots|
    ensures Total(Take(w, Finalizer(Go(a))), e) == Total(w, e) + (if Reads(w.y, a, e) then 1 else 0)
  {
    var y, x, z := w.y, w.y.acts[a], Advance(w.y, a);
    StepMovesClaims(y, a, e);
    StepCalls(y, a);
    ClaimantsUpdate(y.acts, a, z.acts[a], e);
    AdvanceMarks(y, a);
    assert z.acts == y.acts[a := z.acts[a]];
    if CallsNow(x) {
      CallsAppend(y.calls, Entry(x.scope, x.pc.i), e);
    }
  }

  /** A step that leaves an entry pending has neither marked nor called it. */
  lemma StepLeavesUntouched(y: System, a: nat, e: nat)
    requires FinalizerThreads.Enabled(y, a) && e < |y.slots| && !Owns(y.acts[a], e)
    requires e < |Advance(y, a).slots| && Advance(y, a).slots[e].ty.Callback?
    ensures a < |Advance(y, a).acts| && !Owns(Advance(y, a).acts[a], e)
    ensures var z := Advance(y, a); z.calls == y.calls || exists c :: c != e && z.calls == y.calls + [c]
  {
  }

  lemma FinalizerLeavesUntouched(w: World, a: nat, e: nat)
    requires FinalizerThreads.Enabled(w.y, a) && e < |w.y.slots| && Untouched(w, e)
    requires |Advance(w.y, a).slots| == |w.y.slots| && Advance(w.y, a).slots[e].ty.Callback?
    ensures Untouched(Take(w, Finalizer(Go(a))), e)
  {
    var y, z := w.y, Advance(w.y, a);
    StepLeavesUntouched(y, a, e);
    AdvanceMarks(y, a);
    if z.calls != y.calls {
      var c :| c != e && z.calls == y.calls + [c];
      CallsAppend(y.calls, c, e);
    }
    forall b | 0 <= b < |z.acts| ensures !Owns(z.acts[b], e) {
      assert b != a ==> z.acts[b] == y.acts[b];
    }
  }

  /** A step that marks a pending entry had claimed it. */
  lemma MarkerHasClaim(w: World, a: nat, e: nat)
    requires FinalizerThreads.Enabled(w.y, a) && e < |w.y.slots| && MarkFits(w.y.slots, w.y.acts[a])
    requires w.y.slots[e].ty.Callback? && Advance(w.y, a).slots[e].ty.Done?
    ensures Total(w, e) >= 1
  {
    assert Claims(w.y.acts[a], e);
    SomeClaimant(w.y.acts, e, a);
  }

  lemma FinalizerKeepsCounted(w: World, a: nat, pending: set<nat>, e: nat)
    requires FinalizerThreads.Enabled(w.y, a) && e < |w.y.slots| && Mutex(w.y) && Counted(w, pending, e)
    requires MarkFits(w.y.slots, w.y.acts[a])
    ensures |Advance(w.y, a).slots| == |w.y.slots|
    ensures Counted(Take(w, Finalizer(Go(a))), pending, e)
  {
    var z := Take(w, Finalizer(Go(a)));
    AdvanceMarks(w.y, a);
    FinalizerMovesClaims(w, a, e);
    if w.y.slots[e].ty.Callback? {
      if z.y.slots[e].ty.Callback? {
        FinalizerLeavesUntouched(w, a, e);
      } else {
        PendingTotal(w, pending, e);
        MarkerHasClaim(w, a, e);
      }
    }
  }

  /** Two claims: there were two before, or the step makes a race. */
  lemma FinalizerMakesRace(w: World, a: nat, pending: set<nat>, e: nat)
    requires FinalizerThreads.Enabled(w.y, a) && Sound(w, pending) && e < |w.y.slots|
    ensures var z := Take(w, Finalizer(Go(a))); Total(z, e) == 2 <==> Total(w, e) == 2 || Racing(z, e)
  {
    var z := Take(w, Finalizer(Go(a)));
    AdvanceMarks(w.y, a);
    AdvanceKeepsMutex(w.y, a);
    FinalizerMovesClaims(w, a, e);
    FinalizerKeepsCounted(w, a, pending, e);
    if z.y.slots[e].ty.Callback? {
      PendingTotal(z, pending, e);
      PendingTotal(w, pending, e);
    } else if Racing(z, e) {
      RacingTotal(z, e);
    }
  }

  lemma FinalizerKeepsFit(y: System, a: nat, b: nat)
    requires FinalizerThreads.Enabled(y, a) && b < |y.acts| && MarkFits(y.slots, y.acts[b])
    ensures |Advance(y, a).acts| == |y.acts| && MarkFits(Advance(y, a).slots, Advance(y, a).acts[b])
  {
    AdvanceMarks(y, a);
  }

  lemma FinalizerKeeps(w: World, a: nat, pending: set<nat>)
    requires FinalizerThreads.Enabled(w.y, a) && Sound(w, pending)
    ensures Sound(Take(w, Finalizer(Go(a))), pending)
  {
    var z := Take(w, Finalizer(Go(a)));
    AdvanceMarks(w.y, a);
    AdvanceKeepsMutex(w.y, a);
    forall b | 0 <= b < |z.y.acts| ensures MarkFits(z.y.slots, z.y.acts[b]) {
      FinalizerKeepsFit(w.y, a, b);
    }
    forall e: nat | e < |z.y.slots| && Behind(z, e) ensures z.y.slots[e].ty.Done? {
      assert Behind(w, e);
    }
    forall e: nat | e < |z.y.slots| ensures Counted(z, pending, e) {
      FinalizerKeepsCounted(w, a, pending, e);
    }
  }

  lemma SpawnKeepsTotal(w: World, scope: Scope, parent: Option<nat>, e: nat)
    requires MaySpawn(w.y, parent)
    ensures var z := Take(w, Finalizer(Start(scope, parent)));
            Total(z, e) == Total(w, e) && (Racing(z, e) <==> Racing(w, e))
  {
    var x := Activation(scope, Enter, parent);
    var z := Take(w, Finalizer(Start(scope, parent)));
    ClaimantsAppend(w.y.acts, x, e);
    if Racing(w, e) {
      var a :| 0 <= a < |w.y.acts| && Promises(w.y.acts[a], e);
      assert z.y.acts[a] == w.y.acts[a];
    }
  }

  lemma SpawnKeepsSound(w: World, scope: Scope, parent: Option<nat>, pending: set<nat>)
    requires MaySpawn(w.y, parent) && Sound(w, pending)
    ensures Sound(Take(w, Finalizer(Start(scope, parent))), pending)
  {
    var z := Take(w, Finalizer(Start(scope, parent)));
    SpawnKeepsMutex(w.y, scope, parent);
    forall b | 0 <= b < |z.y.acts| ensures MarkFits(z.y.slots, z.y.acts[b]) {
      assert b < |w.y.acts| ==> z.y.acts[b] == w.y.acts[b];
    }
    forall e: nat | e < |z.y.slots| && Behind(z, e) ensures z.y.slots[e].ty.Done? {
      assert Behind(w, e);
    }
    forall e: nat | e < |z.y.slots| ensures Counted(z, pending, e) {
      assert Counted(w, pending, e);
      SpawnKeepsTotal(w, scope, parent, e);
    }
  }

  // ---------------------------------------------------------------------------
  // Steps of the callback

  /** The callback's test finds entry `e` pending. */
  predicate Tests(w: World, e: nat)
    requires e < |w.y.slots|
  {
    w.exit.Look? && w.exit.i == e + 1 && Mine(w, w.exit.pass, e) && w.y.slots[e].ty.Callback?
  }

  lemma ExitStepMovesClaim(w: World, e: nat)
    requires May(w, Callee) && e < |w.y.slots|
    ensures var z := ExitStep(w);
            && z.y.acts == w.y.acts && z.y.holder == w.y.holder
            && (z.y.calls == w.y.calls || (w.exit.Invoke? && z.y.calls == w.y.calls + [w.exit.i - 1]))
            && (if ExitClaims(z.exit, e) then 1 else 0) + (if z.y.calls != w.y.calls && w.exit.i == e + 1 then 1 else 0)
               == (if ExitClaims(w.exit, e) then 1 else 0) + (if Tests(w, e) then 1 else 0)
  {
  }

  lemma ExitMovesClaims(w: World, e: nat)
    requires May(w, Callee) && e < |w.y.slots|
    ensures Total(ExitStep(w), e) == Total(w, e) + (if Tests(w, e) then 1 else 0)
  {
    ExitStepMovesClaim(w, e);
    if w.exit.Invoke? {
      CallsAppend(w.y.calls, w.exit.i - 1, e);
    }
  }

  lemma ExitKeepsCounted(w: World, pending: set<nat>, e: nat)
    requires May(w, Callee) && Mutex(w.y) && e < |w.y.slots| && Counted(w, pending, e)
    ensures |ExitStep(w).y.slots| == |w.y.slots|
    ensures Counted(ExitStep(w), pending, e)
  {
    var z := ExitStep(w);
    ExitMovesClaims(w, e);
    if w.y.slots[e].ty.Callback? {
      PendingTotal(w, pending, e);
      if w.exit.Invoke? {
        CallsAppend(w.y.calls, w.exit.i - 1, e);
      }
    }
  }

  lemma ExitMakesRace(w: World, pending: set<nat>, e: nat)
    requires May(w, Callee) && Sound(w, pending) && e < |w.y.slots|
    ensures var z := ExitStep(w); Total(z, e) == 2 <==> Total(w, e) == 2 || Racing(z, e)
  {
    var z := ExitStep(w);
    ExitMovesClaims(w, e);
    ExitKeepsCounted(w, pending, e);
    if z.y.slots[e].ty.Callback? {
      PendingTotal(z, pending, e);
      PendingTotal(w, pending, e);
    } else if Racing(z, e) {
      RacingTotal(z, e);
    }
  }

  lemma ExitCovers(w: World, e: nat)
    requires May(w, Callee) && ExitCovered(w) && e < |w.y.slots| && Behind(ExitStep(w), e)
    ensures ExitStep(w).y.slots[e].ty.Done?
  {
    assert Behind(w, e) ==> w.y.slots[e].ty.Done?;
  }

  lemma ExitKeeps(w: World, pending: set<nat>)
    requires May(w, Callee) && Sound(w, pending)
    ensures Sound(ExitStep(w), pending)
  {
    var z := ExitStep(w);
    forall b | 0 <= b < |z.y.acts| ensures MarkFits(z.y.slots, z.y.acts[b]) {
      assert MarkFits(w.y.slots, w.y.acts[b]);
    }
    forall b | 0 <= b < |z.y.acts| ensures Holding(z.y.acts[b]) <==> z.y.holder == Some(b) {
      assert Holding(w.y.acts[b]) <==> w.y.holder == Some(b);
    }
    forall e: nat | e < |z.y.slots| && Behind(z, e) ensures z.y.slots[e].ty.Done? {
      ExitCovers(w, e);
    }
    forall e: nat | e < |z.y.slots| ensures Counted(z, pending, e) {
      ExitKeepsCounted(w, pending, e);
    }
  }

  // ---------------------------------------------------------------------------
  // Whole runs

  lemma TakeKeeps(w: World, t: Turn, pending: set<nat>, e: nat)
    requires May(w, t) && Sound(w, pending) && e < |w.y.slots|
    ensures Sound(Take(w, t), pending) && |Take(w, t).y.slots| == |w.y.slots|
    ensures Total(Take(w, t), e) == 2 <==> Total(w, e) == 2 || Racing(Take(w, t), e)
  {
    match t {
      case Callee =>
        ExitKeeps(w, pending);
        ExitMakesRace(w, pending, e);
      case Finalizer(v) =>
        match v {
          case Start(scope, parent) =>
            SpawnKeepsSound(w, scope, parent, pending);
            SpawnKeepsTotal(w, scope, parent, e);
            assert Counted(w, pending, e);
            if Racing(w, e) {
              RacingTotal(w, e);
              TotalAtMostTwo(w, pending, e);
            }
          case Go(a) =>
            FinalizerKeeps(w, a, pending);
            FinalizerMakesRace(w, a, pending, e);
            AdvanceMarks(w.y, a);
        }
    }
  }

  lemma TotalAtMostTwo(w: World, pending: set<nat>, e: nat)
    requires Sound(w, pending) && e < |w.y.slots|
    ensures Total(w, e) <= 2
  {
    assert Counted(w, pending, e);
    if w.y.slots[e].ty.Callback? {
      PendingTotal(w, pending, e);
    }
  }

  lemma {:induction false} RunCounts(w: World, ts: seq<Turn>, pending: set<nat>, e: nat)
    requires Run(w, ts) && Sound(w, pending) && e < |w.y.slots|
    ensures Sound(End(w, ts), pending) && |End(w, ts).y.slots| == |w.y.slots|
    ensures Total(End(w, ts), e) == 2 <==> Total(w, e) == 2 || Raced(w, ts, e)
    decreases |ts|
  {
    if Racing(w, e) {
      RacingTotal(w, e);
      TotalAtMostTwo(w, pending, e);
    }
    if ts != [] {
      TakeKeeps(w, ts[0], pending, e);
      RunCounts(Take(w, ts[0]), ts[1..], pending, e);
    }
  }

  /** The callback is about to start and no finalization has been called. */
  function Exiting(slots: seq<Slot>, locals: set<nat>): World {
    World(Quiet(slots), Look(First, |slots|), locals)
  }

  lemma ExitingIsSound(slots: seq<Slot>, locals: set<nat>)
    requires slots != []
    ensures Sound(Exiting(slots, locals), Pending(slots))
    ensures forall e: nat :: Total(Exiting(slots, locals), e) == 0
  {
  }

  /** In every interleaving: as long as no state has raced on an entry, its destructor is called at most once. */
  lemma AtMostOnceWithoutRace(slots: seq<Slot>, locals: set<nat>, ts: seq<Turn>, e: nat)
    requires e < |slots| && Run(Exiting(slots, locals), ts) && !Raced(Exiting(slots, locals), ts, e)
    ensures Calls(End(Exiting(slots, locals), ts).y.calls, e) <= (if slots[e].ty.Callback? then 1 else 0)
  {
    var w := Exiting(slots, locals);
    ExitingIsSound(slots, locals);
    RunCounts(w, ts, Pending(slots), e);
    TotalAtMostTwo(End(w, ts), Pending(slots), e);
    assert Counted(End(w, ts), Pending(slots), e);
  }

  /** Once the callback and all finalizations are over: called once, or twice exactly when some state has raced. */
  lemma TwiceExactlyAfterRace(slots: seq<Slot>, locals: set<nat>, ts: seq<Turn>, e: nat)
    requires e < |slots| && Run(Exiting(slots, locals), ts)
    requires var z := End(Exiting(slots, locals), ts); z.exit.Over? && AllReturned(z.y)
    ensures Calls(End(Exiting(slots, locals), ts).y.calls, e)
            == if slots[e].ty.Done? then 0 else if Raced(Exiting(slots, locals), ts, e) then 2 else 1
  {
    var w := Exiting(slots, locals);
    var z := End(w, ts);
    ExitingIsSound(slots, locals);
    RunCounts(w, ts, Pending(slots), e);
    NoClaimants(z.y.acts, e);
    assert Behind(z, e) && Counted(z, Pending(slots), e);
  }

  // ---------------------------------------------------------------------------
  // When no state races

  /** Whenever the callback is between test and mark, no finalization is under way. */
  ghost predicate Undisturbed(w: World, ts: seq<Turn>)
    requires Run(w, ts)
    decreases |ts|
  {
    (w.exit.Set? ==> AllReturned(w.y)) && (ts != [] ==> Undisturbed(Take(w, ts[0]), ts[1..]))
  }

  /** Finalizations before the callback, after it or inside its destructors do no harm. */
  lemma {:induction false} UndisturbedDoesNotRace(w: World, ts: seq<Turn>, e: nat)
    requires Run(w, ts) && Undisturbed(w, ts)
    ensures !Raced(w, ts, e)
    decreases |ts|
  {
    if ts != [] {
      UndisturbedDoesNotRace(Take(w, ts[0]), ts[1..], e);
    }
  }

  // ---------------------------------------------------------------------------
  // Every pending entry can be raced on

  lemma Before(w: World, t: Turn, ts: seq<Turn>)
    requires May(w, t) && Run(Take(w, t), ts)
    ensures Run(w, [t] + ts) && End(w, [t] + ts) == End(Take(w, t), ts)
  {
    assert ([t] + ts)[1..] == ts;
  }

  lemma BeforeThree(w: World, a: Turn, b: Turn, c: Turn, rest: seq<Turn>) returns (ts: seq<Turn>)
    requires May(w, a) && May(Take(w, a), b) && May(Take(Take(w, a), b), c)
    requires Run(Take(Take(Take(w, a), b), c), rest)
    ensures Run(w, ts) && End(w, ts) == End(Take(Take(Take(w, a), b), c), rest)
  {
    Before(Take(Take(w, a), b), c, rest);
    Before(Take(w, a), b, [c] + rest);
    Before(w, a, [b] + ([c] + rest));
    ts := [a] + ([b] + ([c] + rest));
  }

  lemma {:induction false} RunsJoin(w: World, ts: seq<Turn>, us: seq<Turn>)
    requires Run(w, ts) && Run(End(w, ts), us)
    ensures Run(w, ts + us) && End(w, ts + us) == End(End(w, ts), us)
    decreases |ts|
  {
    if ts == [] {
      assert ts + us == us;
    } else {
      RunsJoin(Take(w, ts[0]), ts[1..], us);
      var all := ts + us;
      assert all[0] == ts[0] && all[1..] == ts[1..] + us;
    }
  }

  function PassOf(w: World, e: nat): Pass {
    if e in w.locals then First else Second
  }

  /** The callback has still to come to entry `e`. */
  ghost predicate Ahead(w: World, e: nat) {
    && e < |w.y.slots| && w.y.slots[e].ty.Callback?
    && w.exit.Look? && w.exit.i <= |w.y.slots|
    && (w.exit.pass == PassOf(w, e) ==> e < w.exit.i)
    && (w.exit.pass.Second? ==> PassOf(w, e).Second?)
  }

  /** The callback deals with one entry other than `e`, or goes on to the second pass. */
  lemma ExitGoesOn(w: World, e: nat) returns (ts: seq<Turn>)
    requires Ahead(w, e) && w.exit != Look(PassOf(w, e), e + 1)
    ensures Run(w, ts)
    ensures var z := End(w, ts);
            && Ahead(z, e) && z.y.acts == w.y.acts && z.y.holder == w.y.holder && |z.y.slots| == |w.y.slots|
            && z.locals == w.locals
            && z.exit == if w.exit.i == 0 then Look(Second, |w.y.slots|) else Look(w.exit.pass, w.exit.i - 1)
  {
    var v := Take(w, Callee);
    if v.exit.Set? {
      ts := BeforeThree(v, Callee, Callee, Callee, []);
      Before(w, Callee, ts);
      ts := [Callee] + ts;
    } else {
      Before(w, Callee, []);
      ts := [Callee] + [];
    }
  }

  lemma {:induction false} ExitArrives(w: World, e: nat) returns (ts: seq<Turn>)
    requires Ahead(w, e)
    ensures Run(w, ts)
    ensures var z := End(w, ts);
            && z.exit == Look(PassOf(w, e), e + 1) && z.y.acts == w.y.acts && z.y.holder == w.y.holder
            && |z.y.slots| == |w.y.slots| && z.y.slots[e].ty.Callback? && z.locals == w.locals
    decreases if w.exit.pass.First? then 1 else 0, w.exit.i
  {
    if w.exit == Look(PassOf(w, e), e + 1) {
      ts := [];
    } else {
      ts := ExitGoesOn(w, e);
      var rest := ExitArrives(End(w, ts), e);
      RunsJoin(w, ts, rest);
      ts := ts + rest;
    }
  }

  /** One finalization of everything is under way, at `pc`, and the callback stands before entry `e`, still pending. */
  ghost predicate Lone(w: World, pc: Pc, e: nat) {
    && w.y.acts == [Activation(Everything, pc, None)]
    && w.y.holder == (if Holding(w.y.acts[0]) then Some(0) else None)
    && e < |w.y.slots| && w.y.slots[e].ty.Callback? && w.exit == Look(PassOf(w, e), e + 1)
  }

  const GO: Turn := Finalizer(Go(0))

  /** The finalization takes the mutex and stands at the end of the list. */
  lemma FinalizerStarts(w: World, e: nat) returns (ts: seq<Turn>)
    requires w.y.acts == [] && w.y.holder.None?
    requires e < |w.y.slots| && w.y.slots[e].ty.Callback? && w.exit == Look(PassOf(w, e), e + 1)
    ensures Run(w, ts) && Lone(End(w, ts), Held(|w.y.slots|), e) && |End(w, ts).y.slots| == |w.y.slots|
  {
    var start := Finalizer(Start(Everything, None));
    var v := Take(w, start);
    ts := BeforeThree(v, GO, GO, GO, []);
    Before(w, start, ts);
    ts := [start] + ts;
  }

  /** A pending entry is marked and called, and the mutex taken again. */
  lemma FinalizerCalls(w: World, i: nat, e: nat) returns (ts: seq<Turn>)
    requires Lone(w, Held(i), e) && e + 1 < i <= |w.y.slots| && w.y.slots[i - 1].ty.Callback?
    ensures Run(w, ts) && Lone(End(w, ts), Held(i - 1), e) && |End(w, ts).y.slots| == |w.y.slots|
  {
    var v := Take(Take(Take(w, GO), GO), GO);
    assert Lone(v, Unlock(i, Callback), e);
    var u := Take(v, GO);
    assert Lone(u, Pc.Call(i, Callback), e);
    ts := BeforeThree(u, GO, GO, GO, []);
    Before(v, GO, ts);
    ts := BeforeThree(w, GO, GO, GO, [GO] + ts);
  }

  lemma {:induction false} FinalizerArrives(w: World, i: nat, e: nat) returns (ts: seq<Turn>)
    requires Lone(w, Held(i), e) && e < i <= |w.y.slots|
    ensures Run(w, ts) && Lone(End(w, ts), Held(e + 1), e) && |End(w, ts).y.slots| == |w.y.slots|
    decreases i
  {
    if i == e + 1 {
      ts := [];
    } else {
      if w.y.slots[i - 1].ty.Callback? {
        ts := FinalizerCalls(w, i, e);
      } else {
        Before(w, GO, []);
        ts := [GO] + [];
      }
      var rest := FinalizerArrives(End(w, ts), i - 1, e);
      RunsJoin(w, ts, rest);
      ts := ts + rest;
    }
  }

  /** Both have tested the entry and neither has marked it. */
  ghost predicate Both(w: World, e: nat) {
    && w.y.acts == [Activation(Everything, Mark(e + 1, Callback), None)] && w.y.holder == Some(0)
    && e < |w.y.slots| && w.exit == Set(PassOf(w, e), e + 1)
  }

  lemma BothTest(w: World, e: nat)
    requires Lone(w, Held(e + 1), e)
    ensures May(w, Callee) && May(Take(w, Callee), GO) && May(Take(Take(w, Callee), GO), GO)
    ensures var z := Take(Take(Take(w, Callee), GO), GO); Both(z, e) && z.y.calls == w.y.calls
  {
  }

  /** Each marks the entry and each calls it. */
  lemma BothMarkAndCall(w: World, e: nat) returns (ts: seq<Turn>)
    requires Both(w, e)
    ensures Run(w, ts) && End(w, ts).y.calls == w.y.calls + [e, e]
  {
    var v := Take(Take(w, Callee), Callee);
    ts := BeforeThree(v, GO, GO, GO, []);
    Before(Take(w, Callee), Callee, ts);
    Before(w, Callee, [Callee] + ts);
    ts := [Callee] + ([Callee] + ts);
  }

  lemma BothCall(w: World, e: nat) returns (ts: seq<Turn>)
    requires Lone(w, Held(e + 1), e)
    ensures Run(w, ts) && Calls(End(w, ts).y.calls, e) == Calls(w.y.calls, e) + 2
  {
    BothTest(w, e);
    ts := BothMarkAndCall(Take(Take(Take(w, Callee), GO), GO), e);
    ts := BeforeThree(w, Callee, GO, GO, ts);
    CallsAppend(w.y.calls, e, e);
    CallsAppend(w.y.calls + [e], e, e);
    assert w.y.calls + [e, e] == (w.y.calls + [e]) + [e];
  }

  /** The race is real: in every registry every pending destructor is called twice in some run. */
  lemma EveryPendingEntryCanBeCalledTwice(slots: seq<Slot>, locals: set<nat>, e: nat) returns (ts: seq<Turn>)
    requires e < |slots| && slots[e].ty.Callback?
    ensures Run(Exiting(slots, locals), ts)
    ensures Calls(End(Exiting(slots, locals), ts).y.calls, e) >= 2
    ensures Raced(Exiting(slots, locals), ts, e)
  {
    var w := Exiting(slots, locals);
    ts := ExitArrives(w, e);
    var us := FinalizerStarts(End(w, ts), e);
    RunsJoin(w, ts, us);
    ts := ts + us;
    us := FinalizerArrives(End(w, ts), |slots|, e);
    RunsJoin(w, ts, us);
    ts := ts + us;
    us := BothCall(End(w, ts), e);
    RunsJoin(w, ts, us);
    ts := ts + us;
    if !Raced(w, ts, e) {
      AtMostOnceWithoutRace(slots, locals, ts, e);
    }
  }

  // ---------------------------------------------------------------------------
  // Entries of local scope come first

  /** In the first pass the callback deals with entries of local scope only, in the second with the others. */
  ghost predicate InPass(w: World) {
    w.exit.Set? || w.exit.Invoke? || w.exit.Inside? ==> (w.exit.i - 1 in w.locals <==> w.exit.pass.First?)
  }

  lemma {:induction false} RunStaysInPass(w: World, ts: seq<Turn>)
    requires Run(w, ts) && InPass(w)
    ensures InPass(End(w, ts)) && End(w, ts).locals == w.locals
    decreases |ts|
  {
    if ts != [] {
      RunStaysInPass(Take(w, ts[0]), ts[1..]);
    }
  }

  /** In every run: a destructor of global scope is called by the callback only when all local ones are marked. */
  lemma LocalsGoFirst(slots: seq<Slot>, locals: set<nat>, ts: seq<Turn>, e: nat)
    requires Run(Exiting(slots, locals), ts) && e < |slots| && e in locals
    ensures var z := End(Exiting(slots, locals), ts);
            && (z.exit.Inside? ==> (z.exit.i - 1 in locals <==> z.exit.pass.First?))
            && |z.y.slots| == |slots|
            && (z.exit.Over? || z.exit.pass.Second? ==> z.y.slots[e].ty.Done?)
  {
    var w := Exiting(slots, locals);
    ExitingIsSound(slots, locals);
    RunCounts(w, ts, Pending(slots), e);
    RunStaysInPass(w, ts);
    assert Behind(End(w, ts), e) ==> End(w, ts).y.slots[e].ty.Done?;
  }

  // ---------------------------------------------------------------------------
  // The callback comes to its end

  /** How many steps the callback has left at most, with `n` entries. */
  function ExitRank(n: nat, x: Exit): int {
    match x
    case Over => 0
    case Look(pass, i) => 4 * i + 1 + (if pass.First? then 4 * n + 1 else 0)
    case Set(pass, i) => 4 * i + (if pass.First? then 4 * n + 1 else 0)
    case Invoke(pass, i) => 4 * i - 1 + (if pass.First? then 4 * n + 1 else 0)
    case Inside(pass, i) => 4 * i - 2 + (if pass.First? then 4 * n + 1 else 0)
  }

  function CallbackSteps(ts: seq<Turn>): nat {
    if ts == [] then 0 else (if ts[0].Callee? then 1 else 0) + CallbackSteps(ts[1..])
  }

  lemma TakeLowersRank(w: World, t: Turn)
    requires May(w, t) && ExitPlaced(w)
    ensures var z, n := Take(w, t), |w.y.slots|;
            && |z.y.slots| == n && ExitPlaced(z)
            && ExitRank(n, z.exit) + (if t.Callee? then 1 else 0) <= ExitRank(n, w.exit)
  {
  }

  lemma {:induction false} RunLowersRank(w: World, ts: seq<Turn>)
    requires Run(w, ts) && ExitPlaced(w)
    ensures var z, n := End(w, ts), |w.y.slots|;
            && |z.y.slots| == n && ExitPlaced(z)
            && CallbackSteps(ts) + ExitRank(n, z.exit) <= ExitRank(n, w.exit)
    decreases |ts|
  {
    if ts != [] {
      TakeLowersRank(w, ts[0]);
      RunLowersRank(Take(w, ts[0]), ts[1..]);
    }
  }

  /**
   In every run, whatever the finalizations do: the callback makes at most eight steps for each entry and two
   more, nothing ever keeps it from its next one, and it has come to its end after the last.
   */
  lemma CallbackEnds(slots: seq<Slot>, locals: set<nat>, ts: seq<Turn>)
    requires Run(Exiting(slots, locals), ts)
    ensures var z := End(Exiting(slots, locals), ts);
            && CallbackSteps(ts) <= 8 * |slots| + 2
            && (!z.exit.Over? ==> May(z, Callee) && CallbackSteps(ts) < 8 * |slots| + 2)
  {
    RunLowersRank(Exiting(slots, locals), ts);
  }
}
