/**
 `__cxa_finalize` under concurrency (cxa_finalize.c): any number of calls, for one shared object or
 for all, on any threads and from inside destructors, interleaved at every lock, unlock, read and
 write. No registration is under way.
 */
module FinalizerThreads {
  import opened Wrappers

  datatype FuncType = Callback | Done

  datatype Slot = Slot(dso: int, ty: FuncType)

  datatype Scope = Everything | OneDso(dso: int)

  /**
   Where a call is. For `Everything` the position counts the entries still to visit and walks down;
   for one shared object it is the index of the entry and walks up.
   */
  datatype Pc =
    | Enter                           // wants the mutex for the look at `_initialized`
    | Checking                        // has it; releases it after the look
    | Visit(i: nat)                   // one object: compares the entry's object, no mutex
    | Lock(i: nat)                    // wants the mutex
    | Held(i: nat)                    // has it; reads the type, for `Everything` to skip what is done
    | Seen(i: nat)                    // `Everything`: has it; found the entry not done, reads the type again
    | Mark(i: nat, ty: FuncType)      // has it; writes the type
    | Unlock(i: nat, ty: FuncType)    // has it; releases it
    | Call(i: nat, ty: FuncType)      // calls the destructor if the type read was Callback
    | Running(i: nat)                 // inside the destructor
    | Returned

  /** One call of `__cxa_finalize`; `parent` is the call whose destructor made it. */
  datatype Activation = Activation(scope: Scope, pc: Pc, parent: Option<nat>)

  datatype System = System(slots: seq<Slot>, holder: Option<nat>, acts: seq<Activation>, calls: seq<nat>)

  function Entry(scope: Scope, i: nat): int {
    if scope.Everything? then i - 1 else i
  }

  predicate Placed(n: nat, x: Activation) {
    match x.pc
    case Enter => true
    case Checking => true
    case Returned => true
    case Visit(i) => x.scope.OneDso? && i < n
    case Lock(i) => if x.scope.Everything? then i <= n else i < n
    case Held(i) => if x.scope.Everything? then i <= n else i < n
    case Seen(i) => x.scope.Everything? && 0 < i <= n
    case Mark(i, _) => 0 <= Entry(x.scope, i) < n
    case Unlock(i, _) => 0 <= Entry(x.scope, i) < n
    case Call(i, _) => 0 <= Entry(x.scope, i) < n
    case Running(i) => 0 <= Entry(x.scope, i) < n
  }

  predicate Holding(x: Activation) {
    x.pc.Checking? || x.pc.Held? || x.pc.Seen? || x.pc.Mark? || x.pc.Unlock?
  }

  /** The position after entry `i` is dealt with. */
  function Next(n: nat, scope: Scope, i: nat): Pc
    requires 0 <= Entry(scope, i) < n
  {
    if scope.Everything? then Lock(i - 1)
    else if i + 1 < n then Visit(i + 1)
    else Returned
  }

  // ---------------------------------------------------------------------------
  // Steps

  predicate Enabled(y: System, a: nat) {
    && a < |y.acts|
    && Placed(|y.slots|, y.acts[a])
    && !y.acts[a].pc.Returned?
    && |y.slots| > 0
    && (y.acts[a].pc.Enter? || y.acts[a].pc.Lock? ==> y.holder.None?)
    && (y.acts[a].pc.Running? ==>
          forall b :: 0 <= b < |y.acts| && y.acts[b].parent == Some(a) ==> y.acts[b].pc.Returned?)
  }

  function Move(y: System, a: nat, pc: Pc): System
    requires a < |y.acts|
  {
    y.(acts := y.acts[a := y.acts[a].(pc := pc)])
  }

  /** The next step of call `a`. */
  function Advance(y: System, a: nat): System
    requires Enabled(y, a)
  {
    var x, n := y.acts[a], |y.slots|;
    match x.pc
    case Enter =>
      Move(y, a, Checking).(holder := Some(a))
    case Checking =>
      Move(y, a, if x.scope.Everything? then Lock(n) else Visit(0)).(holder := None)
    case Visit(i) =>
      Move(y, a, if y.slots[i].dso == x.scope.dso then Lock(i) else Next(n, x.scope, i))
    case Lock(i) =>
      Move(y, a, Held(i)).(holder := Some(a))
    case Held(i) =>
      if x.scope.OneDso? then Move(y, a, Mark(i, y.slots[i].ty))
      else if i == 0 then Move(y, a, Returned).(holder := None)
      else if y.slots[i - 1].ty.Done? then Move(y, a, Held(i - 1))
      else Move(y, a, Seen(i))
    case Seen(i) =>
      Move(y, a, Mark(i, y.slots[i - 1].ty))
    case Mark(i, ty) =>
      var e := Entry(x.scope, i);
      Move(y, a, Unlock(i, ty)).(slots := y.slots[e := y.slots[e].(ty := Done)])
    case Unlock(i, ty) =>
      Move(y, a, Call(i, ty)).(holder := None)
    case Call(i, ty) =>
      if ty.Callback? then Move(y, a, Running(i)).(calls := y.calls + [Entry(x.scope, i)])
      else Move(y, a, Next(n, x.scope, i))
    case Running(i) =>
      Move(y, a, Next(n, x.scope, i))
  }

  /** A new call: from a thread of its own, or from inside a running destructor. */
  predicate MaySpawn(y: System, parent: Option<nat>) {
    parent.Some? ==> parent.value < |y.acts| && y.acts[parent.value].pc.Running?
  }

  function Spawn(y: System, scope: Scope, parent: Option<nat>): System {
    y.(acts := y.acts + [Activation(scope, Enter, parent)])
  }

  datatype Event = Start(scope: Scope, parent: Option<nat>) | Go(a: nat)

  predicate Possible(y: System, v: Event) {
    match v
    case Start(_, parent) => MaySpawn(y, parent)
    case Go(a) => Enabled(y, a)
  }

  function Apply(y: System, v: Event): System
    requires Possible(y, v)
  {
    match v
    case Start(scope, parent) => Spawn(y, scope, parent)
    case Go(a) => Advance(y, a)
  }

  ghost predicate Legal(y: System, vs: seq<Event>)
    decreases |vs|
  {
    vs == [] || (Possible(y, vs[0]) && Legal(Apply(y, vs[0]), vs[1..]))
  }

  ghost function After(y: System, vs: seq<Event>): System
    requires Legal(y, vs)
    decreases |vs|
  {
    if vs == [] then y else After(Apply(y, vs[0]), vs[1..])
  }

  // ---------------------------------------------------------------------------
  // Claims and calls

  /** `x` has marked entry `e` and has still to call it. */
  predicate Owns(x: Activation, e: int) {
    && (x.pc.Unlock? || x.pc.Call?)
    && x.pc.ty.Callback?
    && Entry(x.scope, x.pc.i) == e
  }

  function Owners(acts: seq<Activation>, e: int): nat {
    if acts == [] then 0
    else Owners(acts[..|acts| - 1], e) + (if Owns(acts[|acts| - 1], e) then 1 else 0)
  }

  function Calls(calls: seq<nat>, e: int): nat {
    if calls == [] then 0
    else Calls(calls[..|calls| - 1], e) + (if calls[|calls| - 1] == e then 1 else 0)
  }

  lemma OwnersAppend(acts: seq<Activation>, x: Activation, e: int)
    ensures Owners(acts + [x], e) == Owners(acts, e) + (if Owns(x, e) then 1 else 0)
  {
    assert (acts + [x])[..|acts|] == acts;
  }

  lemma CallsAppend(calls: seq<nat>, c: nat, e: int)
    ensures Calls(calls + [c], e) == Calls(calls, e) + (if c == e then 1 else 0)
  {
    assert (calls + [c])[..|calls|] == calls;
  }

  lemma {:induction false} OwnersUpdate(acts: seq<Activation>, a: nat, x: Activation, e: int)
    requires a < |acts|
    ensures Owners(acts[a := x], e) + (if Owns(acts[a], e) then 1 else 0)
            == Owners(acts, e) + (if Owns(x, e) then 1 else 0)
  {
    var k := |acts| - 1;
    if a < k {
      OwnersUpdate(acts[..k], a, x, e);
      assert acts[a := x][..k] == acts[..k][a := x];
    } else {
      assert acts[a := x][..k] == acts[..k];
    }
  }

  /** What a call has walked past is marked. */
  ghost predicate Covered(slots: seq<Slot>, x: Activation) {
    forall e :: 0 <= e < |slots| && Passed(slots, x, e) ==> slots[e].ty.Done?
  }

  /** Entry `e` belongs to the call's scope and lies behind its position. */
  ghost predicate Passed(slots: seq<Slot>, x: Activation, e: nat)
    requires e < |slots|
  {
    match x.scope
    case Everything =>
      (match x.pc
       case Enter => false
       case Checking => false
       case Returned => true
       case Unlock(i, _) => e >= i - 1
       case Call(i, _) => e >= i - 1
       case Running(i) => e >= i - 1
       case _ => e >= x.pc.i)
    case OneDso(d) =>
      slots[e].dso == d &&
      (match x.pc
       case Enter => false
       case Checking => false
       case Returned => true
       case Unlock(i, _) => e <= i
       case Call(i, _) => e <= i
       case Running(i) => e <= i
       case _ => e < x.pc.i)
  }

  /** `pending` are the entries whose destructors were registered and not yet called at the outset. */
  ghost predicate Conserved(y: System, pending: set<nat>) {
    forall e :: 0 <= e < |y.slots| ==>
      && Owners(y.acts, e) + Calls(y.calls, e) == (if e in pending && y.slots[e].ty.Done? then 1 else 0)
      && (e !in pending ==> y.slots[e].ty.Done?)
  }

  ghost predicate Mutex(y: System) {
    forall a :: 0 <= a < |y.acts| ==> (Holding(y.acts[a]) <==> y.holder == Some(a))
  }

  ghost predicate Local(y: System, a: nat)
    requires a < |y.acts|
  {
    var x := y.acts[a];
    && Placed(|y.slots|, x)
    && Covered(y.slots, x)
    && (x.pc.Mark? ==> y.slots[Entry(x.scope, x.pc.i)].ty == x.pc.ty)
    && (x.parent.Some? ==> x.parent.value < a)
  }

  ghost predicate Inv(y: System, pending: set<nat>) {
    && |y.slots| > 0
    && (y.holder.Some? ==> y.holder.value < |y.acts|)
    && Mutex(y)
    && (forall a :: 0 <= a < |y.acts| ==> Local(y, a))
    && Conserved(y, pending)
  }

  // ---------------------------------------------------------------------------
  // What every step keeps

  lemma AdvanceKeepsMutex(y: System, a: nat)
    requires Enabled(y, a) && Mutex(y)
    ensures Mutex(Advance(y, a))
  {
    var z := Advance(y, a);
    forall b | 0 <= b < |z.acts| ensures Holding(z.acts[b]) <==> z.holder == Some(b) {
      assert Holding(y.acts[b]) <==> y.holder == Some(b);
      assert Holding(y.acts[a]) <==> y.holder == Some(a);
    }
  }

  /** Entries only ever go from pending to done, and only the holder of the mutex changes one. */
  lemma AdvanceMarks(y: System, a: nat)
    requires Enabled(y, a)
    ensures var z := Advance(y, a);
            && |z.slots| == |y.slots| && |z.acts| == |y.acts|
            && (forall e :: 0 <= e < |y.slots| ==> z.slots[e].dso == y.slots[e].dso)
            && (forall e :: 0 <= e < |y.slots| && y.slots[e].ty.Done? ==> z.slots[e].ty.Done?)
            && (!y.acts[a].pc.Mark? ==> z.slots == y.slots)
            && (forall b :: 0 <= b < |y.acts| && b != a ==> z.acts[b] == y.acts[b])
            && z.acts[a].scope == y.acts[a].scope && z.acts[a].parent == y.acts[a].parent
  {
  }

  /** What the step leaves behind is marked: it was before, or it was just read or written as done. */
  lemma AdvanceCovers(y: System, a: nat, e: nat)
    requires Enabled(y, a) && Local(y, a) && e < |y.slots|
    requires |Advance(y, a).slots| == |y.slots| && |Advance(y, a).acts| == |y.acts|
    ensures var z := Advance(y, a); Passed(z.slots, z.acts[a], e) ==> z.slots[e].ty.Done?
  {
    assert Passed(y.slots, y.acts[a], e) ==> y.slots[e].ty.Done?;
  }

  lemma AdvancePlaces(y: System, a: nat)
    requires Enabled(y, a)
    ensures a < |Advance(y, a).acts| && Placed(|y.slots|, Advance(y, a).acts[a])
  {
  }

  /** What is about to be marked has the type that was read. */
  lemma AdvanceReads(y: System, a: nat)
    requires Enabled(y, a)
    requires a < |Advance(y, a).acts| && Placed(|y.slots|, Advance(y, a).acts[a])
    requires |Advance(y, a).slots| == |y.slots| && Advance(y, a).acts[a].pc.Mark?
    ensures var z := Advance(y, a); z.slots[Entry(z.acts[a].scope, z.acts[a].pc.i)].ty == z.acts[a].pc.ty
  {
  }

  lemma AdvanceKeepsCovered(y: System, a: nat)
    requires Enabled(y, a) && Local(y, a)
    ensures a < |Advance(y, a).acts| && Covered(Advance(y, a).slots, Advance(y, a).acts[a])
  {
    AdvanceMarks(y, a);
    var z := Advance(y, a);
    forall e | 0 <= e < |z.slots| && Passed(z.slots, z.acts[a], e) ensures z.slots[e].ty.Done? {
      AdvanceCovers(y, a, e);
    }
  }

  lemma AdvanceKeepsOwn(y: System, a: nat)
    requires Enabled(y, a) && Local(y, a)
    ensures Local(Advance(y, a), a)
  {
    AdvanceMarks(y, a);
    AdvancePlaces(y, a);
    if Advance(y, a).acts[a].pc.Mark? {
      AdvanceReads(y, a);
    }
    AdvanceKeepsCovered(y, a);
  }

  lemma AdvanceKeepsOther(y: System, a: nat, b: nat)
    requires Enabled(y, a) && b < |y.acts| && b != a
    requires Mutex(y) && Local(y, b)
    ensures Local(Advance(y, a), b)
  {
    AdvanceMarks(y, a);
    var z := Advance(y, a);
    assert Holding(y.acts[a]) <==> y.holder == Some(a);
    assert Holding(y.acts[b]) <==> y.holder == Some(b);
    forall e | 0 <= e < |z.slots| && Passed(z.slots, z.acts[b], e) ensures z.slots[e].ty.Done? {
      assert Passed(y.slots, y.acts[b], e);
    }
  }

  /** The step calls a destructor exactly when it stands before a call and has read the entry as pending. */
  predicate CallsNow(x: Activation) {
    x.pc.Call? && x.pc.ty.Callback?
  }

  lemma StepCalls(y: System, a: nat)
    requires Enabled(y, a)
    ensures var x := y.acts[a];
            Advance(y, a).calls == if CallsNow(x) then y.calls + [Entry(x.scope, x.pc.i)] else y.calls
  {
  }

  /** For the one call that steps: a claim is kept or becomes a call, and marking a pending entry makes one. */
  lemma StepMovesClaim(y: System, a: nat, e: nat)
    requires Enabled(y, a) && e < |y.slots|
    requires var x := y.acts[a]; x.pc.Mark? ==> y.slots[Entry(x.scope, x.pc.i)].ty == x.pc.ty
    ensures var x, z := y.acts[a], Advance(y, a);
            (if Owns(z.acts[a], e) then 1 else 0) + (if CallsNow(x) && Owns(x, e) then 1 else 0)
            == (if Owns(x, e) then 1 else 0) + (if y.slots[e].ty.Callback? && z.slots[e].ty.Done? then 1 else 0)
  {
  }

  /** Marking a pending entry makes one owner, calling makes the owner's claim a call, all else changes neither. */
  lemma AdvanceMovesClaims(y: System, a: nat, e: nat)
    requires Enabled(y, a) && Local(y, a) && e < |y.slots|
    ensures var z := Advance(y, a);
            Owners(z.acts, e) + Calls(z.calls, e)
            == Owners(y.acts, e) + Calls(y.calls, e)
               + (if y.slots[e].ty.Callback? && z.slots[e].ty.Done? then 1 else 0)
  {
    var x, z := y.acts[a], Advance(y, a);
    StepMovesClaim(y, a, e);
    StepCalls(y, a);
    OwnersUpdate(y.acts, a, z.acts[a], e);
    AdvanceMarks(y, a);
    assert z.acts == y.acts[a := z.acts[a]];
    if CallsNow(x) {
      CallsAppend(y.calls, Entry(x.scope, x.pc.i), e);
    }
  }

  lemma AdvanceKeepsConserved(y: System, a: nat, pending: set<nat>, e: nat)
    requires Enabled(y, a) && Local(y, a) && e < |y.slots|
    requires Conserved(y, pending)
    ensures var z := Advance(y, a);
            && Owners(z.acts, e) + Calls(z.calls, e) == (if e in pending && z.slots[e].ty.Done? then 1 else 0)
            && (e !in pending ==> z.slots[e].ty.Done?)
  {
    AdvanceMarks(y, a);
    AdvanceMovesClaims(y, a, e);
  }

  lemma AdvanceKeeps(y: System, a: nat, pending: set<nat>)
    requires Enabled(y, a) && Inv(y, pending)
    ensures Inv(Advance(y, a), pending)
  {
    var z := Advance(y, a);
    AdvanceMarks(y, a);
    AdvanceKeepsMutex(y, a);
    assert Local(y, a);
    forall b | 0 <= b < |z.acts| ensures Local(z, b) {
      assert Local(y, b);
      if b == a {
        AdvanceKeepsOwn(y, a);
      } else {
        AdvanceKeepsOther(y, a, b);
      }
    }
    forall e | 0 <= e < |z.slots|
      ensures Owners(z.acts, e) + Calls(z.calls, e) == (if e in pending && z.slots[e].ty.Done? then 1 else 0)
      ensures e !in pending ==> z.slots[e].ty.Done?
    {
      AdvanceKeepsConserved(y, a, pending, e);
    }
  }

  lemma SpawnKeepsMutex(y: System, scope: Scope, parent: Option<nat>)
    requires Mutex(y) && (y.holder.Some? ==> y.holder.value < |y.acts|)
    ensures Mutex(Spawn(y, scope, parent))
  {
    var z := Spawn(y, scope, parent);
    forall b | 0 <= b < |z.acts| ensures Holding(z.acts[b]) <==> z.holder == Some(b) {
      if b < |y.acts| {
        assert z.acts[b] == y.acts[b];
      }
    }
  }

  lemma SpawnKeepsLocal(y: System, scope: Scope, parent: Option<nat>, b: nat)
    requires MaySpawn(y, parent) && |y.slots| > 0 && b <= |y.acts|
    requires b < |y.acts| ==> Local(y, b)
    ensures Local(Spawn(y, scope, parent), b)
  {
    var z := Spawn(y, scope, parent);
    if b < |y.acts| {
      assert z.acts[b] == y.acts[b];
    }
  }

  lemma SpawnKeeps(y: System, scope: Scope, parent: Option<nat>, pending: set<nat>)
    requires MaySpawn(y, parent) && Inv(y, pending)
    ensures Inv(Spawn(y, scope, parent), pending)
  {
    var z := Spawn(y, scope, parent);
    SpawnKeepsMutex(y, scope, parent);
    forall b | 0 <= b < |z.acts| ensures Local(z, b) {
      assert b < |y.acts| ==> Local(y, b);
      SpawnKeepsLocal(y, scope, parent, b);
    }
    forall e | 0 <= e < |z.slots| ensures Owners(z.acts, e) == Owners(y.acts, e) {
      OwnersAppend(y.acts, z.acts[|y.acts|], e);
    }
  }

  lemma {:induction false} RunKeeps(y: System, vs: seq<Event>, pending: set<nat>)
    requires Inv(y, pending) && Legal(y, vs)
    ensures Inv(After(y, vs), pending)
    ensures |After(y, vs).slots| == |y.slots|
    ensures forall e :: 0 <= e < |y.slots| ==> After(y, vs).slots[e].dso == y.slots[e].dso
    decreases |vs|
  {
    if vs != [] {
      match vs[0] {
        case Start(scope, parent) => SpawnKeeps(y, scope, parent, pending);
        case Go(a) =>
          AdvanceKeeps(y, a, pending);
          AdvanceMarks(y, a);
      }
      RunKeeps(Apply(y, vs[0]), vs[1..], pending);
    }
  }

  // ---------------------------------------------------------------------------
  // Every destructor at most once, and in the end exactly once

  /** Before any call: nobody runs, nothing has been called. */
  function Quiet(slots: seq<Slot>): System {
    System(slots, None, [], [])
  }

  function Pending(slots: seq<Slot>): set<nat> {
    set e: nat | e < |slots| && slots[e].ty.Callback?
  }

  lemma QuietKeeps(slots: seq<Slot>)
    requires slots != []
    ensures Inv(Quiet(slots), Pending(slots))
  {
  }

  /** In every interleaving no destructor runs twice, and none runs that was already done. */
  lemma AtMostOnce(slots: seq<Slot>, vs: seq<Event>, e: nat)
    requires slots != [] && e < |slots| && Legal(Quiet(slots), vs)
    ensures Calls(After(Quiet(slots), vs).calls, e) <= (if slots[e].ty.Callback? then 1 else 0)
  {
    QuietKeeps(slots);
    RunKeeps(Quiet(slots), vs, Pending(slots));
  }

  ghost predicate AllReturned(y: System) {
    forall a :: 0 <= a < |y.acts| ==> y.acts[a].pc.Returned?
  }

  lemma {:induction false} NobodyOwns(acts: seq<Activation>, e: int)
    requires forall a :: 0 <= a < |acts| ==> acts[a].pc.Returned?
    ensures Owners(acts, e) == 0
  {
    if acts != [] {
      NobodyOwns(acts[..|acts| - 1], e);
    }
  }

  /**
   Once all calls have returned, every pending destructor in the scope of any of them has run
   exactly once: all of them if one call was for everything.
   */
  lemma ExactlyOnce(slots: seq<Slot>, vs: seq<Event>, a: nat, e: nat)
    requires slots != [] && e < |slots| && Legal(Quiet(slots), vs)
    requires var y := After(Quiet(slots), vs);
             AllReturned(y) && a < |y.acts| && (y.acts[a].scope.OneDso? ==> slots[e].dso == y.acts[a].scope.dso)
    ensures Calls(After(Quiet(slots), vs).calls, e) == (if slots[e].ty.Callback? then 1 else 0)
  {
    var y := After(Quiet(slots), vs);
    QuietKeeps(slots);
    RunKeeps(Quiet(slots), vs, Pending(slots));
    NobodyOwns(y.acts, e);
    assert Local(y, a) && Passed(y.slots, y.acts[a], e);
  }

  // ---------------------------------------------------------------------------
  // No deadlock, and an end

  /** The unreturned call that was started last. */
  lemma {:induction false} LastUnreturned(acts: seq<Activation>) returns (a: nat)
    requires exists b :: 0 <= b < |acts| && !acts[b].pc.Returned?
    ensures a < |acts| && !acts[a].pc.Returned?
    ensures forall b :: a < b < |acts| ==> acts[b].pc.Returned?
  {
    a := |acts| - 1;
    while acts[a].pc.Returned?
      invariant a < |acts|
      invariant forall b :: a < b < |acts| ==> acts[b].pc.Returned?
      invariant exists b :: 0 <= b <= a && !acts[b].pc.Returned?
      decreases a
    {
      a := a - 1;
    }
  }

  lemma SomeCallCanGoOn(y: System, pending: set<nat>)
    requires Inv(y, pending) && !AllReturned(y)
    ensures exists a :: Enabled(y, a)
  {
    if y.holder.Some? {
      var a := y.holder.value;
      assert Holding(y.acts[a]) && Local(y, a);
      assert Enabled(y, a);
    } else {
      var a := LastUnreturned(y.acts);
      assert Local(y, a);
      forall b | 0 <= b < |y.acts| && y.acts[b].parent == Some(a) ensures y.acts[b].pc.Returned? {
        assert Local(y, b);
      }
      assert Enabled(y, a);
    }
  }

  /** After every run: as long as some call has not returned, some call can go on. */
  lemma NoDeadlock(slots: seq<Slot>, vs: seq<Event>)
    requires slots != [] && Legal(Quiet(slots), vs) && !AllReturned(After(Quiet(slots), vs))
    ensures exists a :: Enabled(After(Quiet(slots), vs), a)
  {
    QuietKeeps(slots);
    RunKeeps(Quiet(slots), vs, Pending(slots));
    SomeCallCanGoOn(After(Quiet(slots), vs), Pending(slots));
  }

  /** How many steps a call has left at most. */
  function Rank(n: nat, x: Activation): nat {
    var left :=
      if x.pc.Returned? || x.pc.Enter? || x.pc.Checking? then n
      else if x.scope.Everything? then x.pc.i
      else if x.pc.i < n then n - x.pc.i else 0;
    match x.pc
    case Returned => 0
    case Enter => 9 * left + 10
    case Checking => 9 * left + 9
    case Visit(_) => 9 * left + 8
    case Lock(_) => 9 * left + 7
    case Held(_) => 9 * left + 6
    case Seen(_) => 9 * left + 5
    case Mark(_, _) => 9 * left + 4
    case Unlock(_, _) => 9 * left + 3
    case Call(_, _) => 9 * left + 2
    case Running(_) => 9 * left + 1
  }

  function Work(n: nat, acts: seq<Activation>): nat {
    if acts == [] then 0 else Work(n, acts[..|acts| - 1]) + Rank(n, acts[|acts| - 1])
  }

  lemma {:induction false} WorkUpdate(n: nat, acts: seq<Activation>, a: nat, x: Activation)
    requires a < |acts|
    ensures Work(n, acts[a := x]) + Rank(n, acts[a]) == Work(n, acts) + Rank(n, x)
  {
    var k := |acts| - 1;
    if a < k {
      WorkUpdate(n, acts[..k], a, x);
      assert acts[a := x][..k] == acts[..k][a := x];
    } else {
      assert acts[a := x][..k] == acts[..k];
    }
  }

  lemma WalkDownLowersRank(y: System, a: nat)
    requires Enabled(y, a) && y.acts[a].scope.Everything?
    ensures Rank(|y.slots|, Advance(y, a).acts[a]) < Rank(|y.slots|, y.acts[a])
  {
  }

  lemma WalkUpLowersRank(y: System, a: nat)
    requires Enabled(y, a) && y.acts[a].scope.OneDso?
    ensures Rank(|y.slots|, Advance(y, a).acts[a]) < Rank(|y.slots|, y.acts[a])
  {
  }

  lemma AdvanceLowersRank(y: System, a: nat)
    requires Enabled(y, a)
    ensures Rank(|y.slots|, Advance(y, a).acts[a]) < Rank(|y.slots|, y.acts[a])
  {
    if y.acts[a].scope.Everything? {
      WalkDownLowersRank(y, a);
    } else {
      WalkUpLowersRank(y, a);
    }
  }

  /** Every step uses up work. */
  lemma AdvanceUsesWork(y: System, a: nat)
    requires Enabled(y, a)
    ensures Work(|y.slots|, Advance(y, a).acts) < Work(|y.slots|, y.acts)
  {
    var x := Advance(y, a).acts[a];
    AdvanceLowersRank(y, a);
    WorkUpdate(|y.slots|, y.acts, a, x);
    assert Advance(y, a).acts == y.acts[a := x];
  }

  /** Only new calls can keep a finalization going: without them a run is at most `Work` steps long. */
  lemma {:induction false} RunsAreBounded(y: System, vs: seq<Event>)
    requires Legal(y, vs) && forall k :: 0 <= k < |vs| ==> vs[k].Go?
    ensures |vs| <= Work(|y.slots|, y.acts)
    decreases |vs|
  {
    if vs != [] {
      AdvanceUsesWork(y, vs[0].a);
      AdvanceMarks(y, vs[0].a);
      RunsAreBounded(Advance(y, vs[0].a), vs[1..]);
    }
  }

  lemma {:induction false} CallsCanEnd(y: System, pending: set<nat>) returns (vs: seq<Event>)
    requires Inv(y, pending)
    ensures Legal(y, vs) && AllReturned(After(y, vs))
    decreases Work(|y.slots|, y.acts)
  {
    if AllReturned(y) {
      vs := [];
    } else {
      SomeCallCanGoOn(y, pending);
      var a :| Enabled(y, a);
      AdvanceUsesWork(y, a);
      AdvanceMarks(y, a);
      AdvanceKeeps(y, a, pending);
      var rest := CallsCanEnd(Advance(y, a), pending);
      vs := [Go(a)] + rest;
      assert vs[1..] == rest;
    }
  }

  /** After every run the calls under way can all be brought to an end. */
  lemma CanFinish(slots: seq<Slot>, vs: seq<Event>) returns (us: seq<Event>)
    requires slots != [] && Legal(Quiet(slots), vs)
    ensures Legal(After(Quiet(slots), vs), us) && AllReturned(After(After(Quiet(slots), vs), us))
  {
    QuietKeeps(slots);
    RunKeeps(Quiet(slots), vs, Pending(slots));
    us := CallsCanEnd(After(Quiet(slots), vs), Pending(slots));
  }
}
