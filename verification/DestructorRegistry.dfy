/**
 The destructor registry of `__cxa_atexit` (cxa_finalize.c): a growing array, and the order in which
 an undisturbed finalization calls what it holds. Allocation and `atexit` succeed.
 */
module DestructorRegistry {
  import opened FinalizerThreads
  import opened Words

  const CHUNK: nat := 64

  datatype Visibility = LocalScope | GlobalScope

  datatype Registration = Registration(func: int, arg: int, dso: int, scope: Visibility, ty: FuncType)

  /** The sizes the array can have: 64 doubled any number of times. */
  ghost predicate IsCapacity(size: nat) {
    exists k: nat :: size == 64 * TwoTo(k)
  }

  lemma CapacityDoubles(size: nat)
    requires IsCapacity(size)
    ensures IsCapacity(2 * size)
  {
    var k: nat :| size == 64 * TwoTo(k);
    assert 2 * size == 64 * TwoTo(k + 1);
  }

  /** Doubling in 32 bits makes room exactly below 2^31; at 2^31 it gives an array of no entries. */
  lemma DoublingMakesRoomExactly(size: nat)
    requires 0 < size < TWO32
    ensures size * 2 % TWO32 > size <==> size < TWO32 / 2
    ensures size == TWO32 / 2 ==> size * 2 % TWO32 == 0
  {
  }

  function Marked(r: Registration): Registration {
    r.(ty := Done)
  }

  /** Which entries a walk calls. */
  type Chosen = Registration -> bool

  /** The entries chosen among the first `n` that are pending, last registered first. */
  function Descending(es: seq<Registration>, f: Chosen, n: nat): (r: seq<nat>)
    requires n <= |es|
  {
    if n == 0 then []
    else (if es[n - 1].ty.Callback? && f(es[n - 1]) then [n - 1] else []) + Descending(es, f, n - 1)
  }

  /** The entries chosen from `i` on that are pending, first registered first. */
  function Ascending(es: seq<Registration>, f: Chosen, i: nat): (r: seq<nat>)
    requires i <= |es|
    decreases |es| - i
  {
    if i == |es| then []
    else (if es[i].ty.Callback? && f(es[i]) then [i] else []) + Ascending(es, f, i + 1)
  }

  /** The entries after a walk: the chosen ones are done, the others untouched. */
  ghost predicate Walked(before: seq<Registration>, after: seq<Registration>, f: Chosen) {
    && |after| == |before|
    && forall i :: 0 <= i < |before| ==> after[i] == if f(before[i]) then Marked(before[i]) else before[i]
  }

  ghost predicate Pending(es: seq<Registration>, f: Chosen, e: int) {
    0 <= e < |es| && es[e].ty.Callback? && f(es[e])
  }

  ghost predicate Higher(r: seq<nat>, i: int, j: int) {
    0 <= i < j < |r| ==> r[i] > r[j]
  }

  ghost predicate Falling(r: seq<nat>) {
    forall i, j :: Higher(r, i, j)
  }

  ghost predicate Lower(r: seq<nat>, i: int, j: int) {
    0 <= i < j < |r| ==> r[i] < r[j]
  }

  ghost predicate Rising(r: seq<nat>) {
    forall i, j :: Lower(r, i, j)
  }

  /** An element in front of a falling sequence, larger than its first one. */
  lemma FallingGrows(x: nat, r: seq<nat>)
    requires Falling(r) && (r != [] ==> r[0] < x)
    ensures Falling([x] + r)
  {
    forall i, j ensures Higher([x] + r, i, j) {
      assert Higher(r, i - 1, j - 1) && Higher(r, 0, j - 1);
    }
  }

  lemma RisingGrows(x: nat, r: seq<nat>)
    requires Rising(r) && (r != [] ==> x < r[0])
    ensures Rising([x] + r)
  {
    forall i, j ensures Lower([x] + r, i, j) {
      assert Lower(r, i - 1, j - 1) && Lower(r, 0, j - 1);
    }
  }

  lemma {:induction false} DescendingFalls(es: seq<Registration>, f: Chosen, n: nat)
    requires n <= |es|
    ensures var r := Descending(es, f, n); Falling(r) && (r != [] ==> r[0] < n)
  {
    if n > 0 {
      DescendingFalls(es, f, n - 1);
      var rest := Descending(es, f, n - 1);
      if Pending(es, f, n - 1) {
        FallingGrows(n - 1, rest);
      } else {
        assert [] + rest == rest;
      }
    }
  }

  lemma {:induction false} AscendingRises(es: seq<Registration>, f: Chosen, n: nat)
    requires n <= |es|
    ensures var r := Ascending(es, f, n); Rising(r) && (r != [] ==> r[0] >= n)
    decreases |es| - n
  {
    if n < |es| {
      AscendingRises(es, f, n + 1);
      var rest := Ascending(es, f, n + 1);
      if Pending(es, f, n) {
        RisingGrows(n, rest);
      } else {
        assert [] + rest == rest;
      }
    }
  }

  lemma {:induction false} DescendingHolds(es: seq<Registration>, f: Chosen, n: nat, e: nat)
    requires n <= |es|
    ensures e in Descending(es, f, n) <==> e < n && Pending(es, f, e)
  {
    if n > 0 {
      DescendingHolds(es, f, n - 1, e);
    }
  }

  lemma {:induction false} AscendingHolds(es: seq<Registration>, f: Chosen, n: nat, e: nat)
    requires n <= |es|
    ensures e in Ascending(es, f, n) <==> e >= n && Pending(es, f, e)
    decreases |es| - n
  {
    if n < |es| {
      AscendingHolds(es, f, n + 1, e);
    }
  }

  /** A descending walk calls exactly the pending chosen entries below `n`, in exact reverse order of registration. */
  lemma DescendingIsReverseOrder(es: seq<Registration>, f: Chosen, n: nat)
    requires n <= |es|
    ensures forall e: nat :: e in Descending(es, f, n) <==> e < n && Pending(es, f, e)
    ensures Falling(Descending(es, f, n))
  {
    DescendingFalls(es, f, n);
    forall e: nat ensures e in Descending(es, f, n) <==> e < n && Pending(es, f, e) {
      DescendingHolds(es, f, n, e);
    }
  }

  /** An ascending walk calls exactly the pending chosen entries from `n` on, in order of registration. */
  lemma AscendingIsOrder(es: seq<Registration>, f: Chosen, n: nat)
    requires n <= |es|
    ensures forall e: nat :: e in Ascending(es, f, n) <==> e >= n && Pending(es, f, e)
    ensures Rising(Ascending(es, f, n))
  {
    AscendingRises(es, f, n);
    forall e: nat ensures e in Ascending(es, f, n) <==> e >= n && Pending(es, f, e) {
      AscendingHolds(es, f, n, e);
    }
  }

  /** The entries after a walk has dealt with those from `lo` on and below `hi`. */
  function Dealt(es: seq<Registration>, f: Chosen, lo: nat, hi: nat): (r: seq<Registration>)
    ensures |r| == |es|
  {
    seq(|es|, (i: nat) requires i < |es| => if lo <= i < hi && f(es[i]) then Marked(es[i]) else es[i])
  }

  lemma DealtUp(es: seq<Registration>, f: Chosen, i: nat)
    requires i < |es|
    ensures var d := Dealt(es, f, 0, i);
            d[i] == es[i] && Dealt(es, f, 0, i + 1) == d[i := if f(es[i]) then Marked(es[i]) else es[i]]
  {
  }

  lemma DealtDown(es: seq<Registration>, f: Chosen, i: nat)
    requires i < |es|
    ensures var d := Dealt(es, f, i + 1, |es|);
            d[i] == es[i] && Dealt(es, f, i, |es|) == d[i := if f(es[i]) then Marked(es[i]) else es[i]]
  {
  }

  lemma DealtWithAll(es: seq<Registration>, f: Chosen)
    ensures Walked(es, Dealt(es, f, 0, |es|), f)
    ensures Dealt(es, f, 0, 0) == es && Dealt(es, f, |es|, |es|) == es
  {
  }

  function CalledAt(es: seq<Registration>, f: Chosen, i: nat): seq<nat>
    requires i < |es|
  {
    if es[i].ty.Callback? && f(es[i]) then [i] else []
  }

  lemma NextDown(calls: seq<nat>, es: seq<Registration>, f: Chosen, i: nat)
    requires i < |es|
    ensures calls + Descending(es, f, i + 1) == (calls + CalledAt(es, f, i)) + Descending(es, f, i)
  {
  }

  lemma NextUp(calls: seq<nat>, es: seq<Registration>, f: Chosen, i: nat)
    requires i < |es|
    ensures calls + Ascending(es, f, i) == (calls + CalledAt(es, f, i)) + Ascending(es, f, i + 1)
  {
  }

  const ALL: Chosen := (r: Registration) => true
  const LOCALS: Chosen := (r: Registration) => r.scope.LocalScope?
  const GLOBALS: Chosen := (r: Registration) => r.scope.GlobalScope?

  function OfDso(dso: int): Chosen {
    (r: Registration) => r.dso == dso
  }

  /**
   What a finalization of `dso`, or of everything, does, told entry by entry: exactly the entries it is for are
   done afterwards and nothing else has changed; exactly the pending ones among them are called, in rising order
   for one object and in falling order for everything.
   */
  ghost predicate Finalized(before: seq<Registration>, after: seq<Registration>, dso: int, r: seq<nat>) {
    && |after| == |before|
    && (forall i :: 0 <= i < |before| ==>
          after[i] == if dso == 0 || before[i].dso == dso then before[i].(ty := Done) else before[i])
    && (forall e: nat :: e in r <==>
          e < |before| && before[e].ty == Callback && (dso == 0 || before[e].dso == dso))
    && (if dso == 0 then Falling(r) else Rising(r))
  }

  lemma WalkedIsFinalized(before: seq<Registration>, after: seq<Registration>, dso: int)
    ensures Walked(before, after, ALL) ==> Finalized(before, after, 0, Descending(before, ALL, |before|))
    ensures dso != 0 && Walked(before, after, OfDso(dso)) ==>
              Finalized(before, after, dso, Ascending(before, OfDso(dso), 0))
  {
    DescendingIsReverseOrder(before, ALL, |before|);
    AscendingIsOrder(before, OfDso(dso), 0);
  }

  /** The pending entries of one scope, last registered first. */
  ghost predicate PendingOf(before: seq<Registration>, scope: Visibility, r: seq<nat>) {
    && Falling(r)
    && forall e: nat :: e in r <==> e < |before| && before[e].ty == Callback && before[e].scope == scope
  }

  lemma ScopesAreFalling(before: seq<Registration>)
    ensures PendingOf(before, LocalScope, Descending(before, LOCALS, |before|))
    ensures PendingOf(before, GlobalScope, Descending(before, GLOBALS, |before|))
  {
    DescendingIsReverseOrder(before, LOCALS, |before|);
    DescendingIsReverseOrder(before, GLOBALS, |before|);
  }

  class Registry {
    var list: array?<Registration>
    var size: nat
    var nelem: nat
    var initialized: bool
    /** The destructors called so far, by position in the array. */
    ghost var calls: seq<nat>

    ghost predicate Valid()
      reads this, list
    {
      if initialized then Valid0() && (size == CHUNK || size < 2 * nelem) else nelem == 0
    }

    /** The array in use, apart from how far it is filled. */
    ghost predicate Valid0()
      reads this, list
    {
      && initialized
      && list != null
      && list.Length == size
      && nelem <= size
      && IsCapacity(size)
      && size < TWO32
      && (size == CHUNK || size <= 2 * nelem)
    }

    ghost function Entries(): seq<Registration>
      requires Valid()
      reads this, list
    {
      if initialized then list[..nelem] else []
    }

    constructor ()
      ensures Valid() && Entries() == [] && calls == []
    {
      list := null;
      size := 0;
      nelem := 0;
      initialized := false;
      calls := [];
    }

    /** A bigger array with the same entries in front. */
    method Resize(newsize: nat) returns (p: array<Registration>)
      requires list != null && nelem <= list.Length && nelem <= newsize
      ensures fresh(p) && p.Length == newsize && p[..nelem] == list[..nelem]
    {
      p := new Registration[newsize];
      for i := 0 to nelem
        invariant p[..i] == list[..i]
      {
        p[i] := list[i];
      }
    }

    /** A full array must be able to double within an unsigned 32-bit number. */
    ghost predicate CanGrow()
      reads this
    {
      initialized && nelem == size ==> size < TWO32 / 2
    }

    /** Room for one more entry: the first array, or one of twice the size. */
    method MakeRoom()
      requires Valid() && CanGrow()
      modifies this
      ensures Valid0() && nelem < size && calls == old(calls)
      ensures list[..nelem] == old(Entries())
      ensures size == if !old(initialized) then CHUNK else if old(nelem) == old(size) then 2 * old(size) else old(size)
      ensures list != old(list) ==> fresh(list)
    {
      if !initialized {
        nelem := 0;
        list := new Registration[CHUNK];
        size := CHUNK;
        initialized := true;
        assert CHUNK == 64 * TwoTo(0);
      }
      if nelem == size {
        CapacityDoubles(size);
        var newsize := size * 2 % TWO32;
        list := Resize(newsize);
        size := newsize;
      }
    }

    /** Append one entry. */
    method Register(r: Registration)
      requires Valid() && CanGrow()
      modifies this, list
      ensures Valid() && initialized
      ensures Entries() == old(Entries()) + [r]
      ensures size == if !old(initialized) then CHUNK else if old(nelem) == old(size) then 2 * old(size) else old(size)
      ensures calls == old(calls)
      ensures list != old(list) ==> fresh(list)
    {
      MakeRoom();
      list[nelem] := r;
      nelem := nelem + 1;
    }

    /** `__cxa_atexit`: what is registered is pending and of global scope. */
    method CxaAtexit(func: int, arg: int, dso: int)
      requires Valid() && CanGrow()
      modifies this, list
      ensures Valid() && initialized
      ensures Entries() == old(Entries()) + [Registration(func, arg, dso, GlobalScope, Callback)]
      ensures calls == old(calls)
    {
      Register(Registration(func, arg, dso, GlobalScope, Callback));
    }

    /** One entry is marked and, if it was pending, its destructor called. */
    method FinalizeAt(i: nat)
      requires list != null && i < nelem <= list.Length
      modifies this`calls, list
      ensures list[..nelem] == old(list[..nelem])[i := Marked(old(list[i]))]
      ensures calls == old(calls) + if old(list[i]).ty.Callback? then [i] else []
    {
      var ty := list[i].ty;
      list[i] := list[i].(ty := Done);
      if ty.Callback? {
        calls := calls + [i];
      }
    }

    /** A walk that has dealt with the entries from `lo` on and below `hi`, with `rest` still to be called. */
    ghost predicate Walking(es: seq<Registration>, f: Chosen, lo: nat, hi: nat, rest: seq<nat>, all: seq<nat>)
      reads this, list
    {
      && list != null && |es| == nelem <= list.Length
      && list[..nelem] == Dealt(es, f, lo, hi)
      && calls + rest == all
    }

    /** The body of the walk down. */
    method VisitDown(i: nat, f: Chosen, ghost es: seq<Registration>, ghost all: seq<nat>)
      requires i < |es| && Walking(es, f, i + 1, nelem, Descending(es, f, i + 1), all)
      modifies this`calls, list
      ensures Walking(es, f, i, nelem, Descending(es, f, i), all)
    {
      DealtDown(es, f, i);
      NextDown(calls, es, f, i);
      assert list[i] == list[..nelem][i];
      if list[i].ty.Callback? && f(list[i]) {
        FinalizeAt(i);
      }
    }

    /** The walk of `__cxa_finalize(NULL)`, and each of the two walks of the exit callback. */
    method WalkDown(f: Chosen)
      requires Valid() && initialized
      modifies this`calls, list
      ensures Valid()
      ensures Walked(old(Entries()), Entries(), f)
      ensures calls == old(calls) + Descending(old(Entries()), f, |old(Entries())|)
    {
      ghost var es, all := Entries(), calls + Descending(Entries(), f, nelem);
      DealtWithAll(es, f);
      var i := nelem;
      while i > 0
        invariant 0 <= i <= nelem
        invariant Walking(es, f, i, nelem, Descending(es, f, i), all)
      {
        i := i - 1;
        VisitDown(i, f, es, all);
      }
      assert calls + [] == calls;
    }

    /** `__cxa_finalize`: everything in reverse order for no object, in order of registration for one. */
    method CxaFinalize(dso: int) returns (ret: int)
      requires Valid()
      modifies this`calls, list
      ensures Valid()
      ensures !initialized ==> ret == -1 && calls == old(calls)
      ensures initialized ==> ret == 0
      ensures initialized ==> old(calls) <= calls
      ensures initialized ==> Finalized(old(Entries()), Entries(), dso, calls[|old(calls)|..])
    {
      if !initialized {
        return -1;
      }
      ghost var es, before := Entries(), calls;
      if dso == 0 {
        WalkDown(ALL);
      } else {
        WalkUp(dso);
      }
      WalkedIsFinalized(es, Entries(), dso);
      ghost var r := if dso == 0 then Descending(es, ALL, |es|) else Ascending(es, OfDso(dso), 0);
      assert calls == before + r && calls[|before|..] == r;
      ret := 0;
    }

    /** The body of the walk up. */
    method VisitUp(i: nat, dso: int, ghost es: seq<Registration>, ghost all: seq<nat>)
      requires i < |es| && Walking(es, OfDso(dso), 0, i, Ascending(es, OfDso(dso), i), all)
      modifies this`calls, list
      ensures Walking(es, OfDso(dso), 0, i + 1, Ascending(es, OfDso(dso), i + 1), all)
    {
      DealtUp(es, OfDso(dso), i);
      NextUp(calls, es, OfDso(dso), i);
      assert list[i] == list[..nelem][i];
      if list[i].dso == dso {
        FinalizeAt(i);
      }
    }

    method WalkUp(dso: int)
      requires Valid() && initialized
      modifies this`calls, list
      ensures Valid()
      ensures Walked(old(Entries()), Entries(), OfDso(dso))
      ensures calls == old(calls) + Ascending(old(Entries()), OfDso(dso), 0)
    {
      ghost var es, f := Entries(), OfDso(dso);
      ghost var all := calls + Ascending(es, f, 0);
      DealtWithAll(es, f);
      var i := 0;
      while i < nelem
        invariant 0 <= i <= nelem
        invariant Walking(es, f, 0, i, Ascending(es, f, i), all)
      {
        VisitUp(i, dso, es, all);
        i := i + 1;
      }
      assert calls + [] == calls;
    }

    /** The exit callback: local objects first, then global ones, each in reverse order. */
    method AtexitCallback()
      requires Valid() && initialized
      modifies this`calls, list
      ensures Valid()
      ensures |Entries()| == |old(Entries())|
      ensures forall i :: 0 <= i < |Entries()| ==> Entries()[i] == old(Entries())[i].(ty := Done)
      ensures calls == old(calls) + Descending(old(Entries()), LOCALS, |old(Entries())|)
                                  + Descending(old(Entries()), GLOBALS, |old(Entries())|)
      ensures exists a: seq<nat>, b: seq<nat> ::
                && PendingOf(old(Entries()), LocalScope, a) && PendingOf(old(Entries()), GlobalScope, b)
                && calls == old(calls) + a + b
    {
      ghost var es := Entries();
      ScopesAreFalling(es);
      WalkDown(LOCALS);
      ghost var mid := Entries();
      WalkDown(GLOBALS);
      MarkedOthersDoNotMatter(es, mid, LOCALS, GLOBALS, |es|);
    }
  }

  /** Entries another walk has marked do not change a walk over different entries. */
  lemma {:induction false} MarkedOthersDoNotMatter(es: seq<Registration>, mid: seq<Registration>,
                                                   f: Chosen, g: Chosen, n: nat)
    requires Walked(es, mid, f) && n <= |es|
    requires forall r :: !(f(r) && g(r)) && (g(Marked(r)) <==> g(r))
    ensures Descending(mid, g, n) == Descending(es, g, n)
  {
    if n > 0 {
      MarkedOthersDoNotMatter(es, mid, f, g, n - 1);
    }
  }

  /** What was registered through `__cxa_atexit` leaves the exit callback in exact reverse order. */
  lemma {:induction false} GlobalsOnlyIsPlainReverse(es: seq<Registration>, n: nat)
    requires n <= |es| && forall i :: 0 <= i < |es| ==> es[i].scope.GlobalScope?
    ensures Descending(es, LOCALS, n) == [] && Descending(es, GLOBALS, n) == Descending(es, ALL, n)
  {
    if n > 0 {
      GlobalsOnlyIsPlainReverse(es, n - 1);
    }
  }
}
