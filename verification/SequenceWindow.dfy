/**
 The replay and sequencing window of the GSS mechanism glue (util_ordering.c).

 Four descriptions of the same service, each proved to refine the next, the residues save for the one
 number that `PlainWindow.Misjudged` names:
   - class `Queue`: the 20-slot circular array, updated in place;
   - `WrappedCheck`: a sequence of residues ordered by the wrapping comparison `After`;
   - `PlainCheck`: a strictly increasing window of unbounded integers;
   - `HistoryVerdict`: everything ever accepted, with no window at all.
 */
module SequenceWindow {
  import opened Words

  const QUEUE_LENGTH: nat := 20
  const WIDE_MASK: nat := 0xffff_ffff_ffff_ffff
  const NARROW_MASK: nat := 0xffff_ffff

  datatype Verdict = Complete | GapToken | OldToken | UnseqToken | DuplicateToken | Failure

  /** The two service options; `ReplayOnly` selects the answers of the replay service. */
  datatype Service = Service(doReplay: bool, doSequence: bool) {
    predicate Active() {
      doReplay || doSequence
    }

    predicate ReplayOnly() {
      doReplay && !doSequence
    }
  }

  datatype Outcome<T> = Outcome(verdict: Verdict, window: seq<T>)

  predicate IsMask(mask: nat) {
    mask == WIDE_MASK || mask == NARROW_MASK
  }

  // ---------------------------------------------------------------------------
  // The wrapping comparison

  /** `n1` comes after `n2` in the number space of `mask`; `n1 & half` is the test of one bit. */
  predicate After(n1: nat, n2: nat, mask: nat)
  {
    if n1 == n2 then false
    else
      var half := 1 + mask / 2;
      var diff := if n1 > n2 then n1 - n2 else n2 - n1;
      if diff < half then n1 > n2
      else n1 / half % 2 == 0
  }

  /** For masked numbers the bit test only asks which half of the space `n1` lies in. */
  lemma AfterMasked(n1: nat, n2: nat, mask: nat)
    requires IsMask(mask) && n1 <= mask && n2 <= mask
    ensures var half := 1 + mask / 2;
            After(n1, n2, mask) <==>
            || 0 < n1 - n2 < half
            || n2 - n1 >= half
  {
    var half := 1 + mask / 2;
    assert mask + 1 == 2 * half;
    if n1 < half {
      assert n1 / half == 0;
    } else {
      assert n1 / half == 1;
    }
  }

  /** Of two distinct masked numbers exactly one comes after the other, also at distance one half. */
  lemma AfterIsTotalAndAntisymmetric(n1: nat, n2: nat, mask: nat)
    requires IsMask(mask) && n1 <= mask && n2 <= mask
    ensures n1 != n2 ==> After(n1, n2, mask) == !After(n2, n1, mask)
    ensures n1 == n2 ==> !After(n1, n2, mask) && !After(n2, n1, mask)
  {
    AfterMasked(n1, n2, mask);
    AfterMasked(n2, n1, mask);
  }

  /** Whatever follows `last` either is its successor or also follows its successor. */
  lemma AfterSuccessor(n: nat, last: nat, mask: nat)
    requires IsMask(mask) && n <= mask && last <= mask
    requires After(n, last, mask)
    ensures n == (last + 1) % (mask + 1) || After(n, (last + 1) % (mask + 1), mask)
  {
    var next := (last + 1) % (mask + 1);
    assert next == if last == mask then 0 else last + 1;
    AfterMasked(n, last, mask);
    AfterMasked(n, next, mask);
  }

  /**
   When the residues of two unbounded numbers less than one turn of the space apart are
   compared, the answer is that of the numbers themselves exactly when they lie less than
   half a turn apart, or exactly half a turn apart with the larger one wrapped.
   */
  lemma AfterAgreesExactly(a: int, b: int, mask: nat)
    requires IsMask(mask)
    requires -(mask as int) <= a - b <= mask
    ensures var half := 1 + mask / 2; var m := mask + 1;
            After(a % m, b % m, mask) == (a > b) <==>
            || -half < a - b < half
            || (a - b == half && a % m < b % m)
            || (b - a == half && b % m < a % m)
  {
    var m := mask + 1;
    AfterMasked(a % m, b % m, mask);
    ResidueGap(a, b, mask);
  }

  /** Numbers less than one turn apart have residues whose distance is the same or one turn off. */
  lemma ResidueGap(a: int, b: int, mask: nat)
    requires IsMask(mask)
    requires -(mask as int) <= a - b <= mask
    ensures var m := mask + 1;
            || a % m - b % m == a - b
            || a % m - b % m == a - b + m
            || a % m - b % m == a - b - m
  {
    if mask == WIDE_MASK {
      assert mask + 1 == TWO64;
    } else {
      assert mask + 1 == TWO32;
    }
  }

  /** The half-range assumption for one pair of numbers. */
  ghost predicate Near(a: int, b: int, mask: nat) {
    var half := 1 + mask / 2;
    -half < a - b < half
  }

  lemma AfterOfNear(a: int, b: int, mask: nat)
    requires IsMask(mask) && Near(a, b, mask)
    ensures After(a % (mask + 1), b % (mask + 1), mask) == (a > b)
    ensures a % (mask + 1) == b % (mask + 1) <==> a == b
  {
    AfterAgreesExactly(a, b, mask);
    ResidueGap(a, b, mask);
  }

  // ---------------------------------------------------------------------------
  // The window as a sequence

  /** `x` put in at position `k`. */
  function Grown<T>(w: seq<T>, k: nat, x: T): (r: seq<T>)
    requires k <= |w|
    ensures |r| == |w| + 1
    ensures forall i :: 0 <= i <= |w| ==> r[i] == if i < k then w[i] else if i == k then x else w[i - 1]
  {
    w[..k] + [x] + w[k..]
  }

  /** `x` put in at position `k`; a full window loses its oldest element. */
  function Insert<T>(w: seq<T>, k: nat, x: T): (r: seq<T>)
    requires k <= |w|
  {
    if |w| == QUEUE_LENGTH then Grown(w, k, x)[1..] else Grown(w, k, x)
  }

  datatype Found = Equal | Between(k: nat) | Nowhere

  /** What the search loop meets first, starting at position `i`. */
  function Search(c: seq<nat>, n: nat, mask: nat, i: nat): (r: Found)
    requires i < |c|
    ensures r.Between? ==> i < r.k < |c|
    decreases |c| - i
  {
    if i == |c| - 1 then Nowhere
    else if n == c[i] then Equal
    else if After(n, c[i], mask) && After(c[i + 1], n, mask) then Between(i + 1)
    else Search(c, n, mask, i + 1)
  }

  /** Where a number falls with respect to a window. */
  datatype Place =
    | Next              // the successor of the newest element
    | Ahead             // past that successor
    | Behind            // before the oldest element
    | Held              // in the window
    | Late(k: nat)      // missing from the window, would stand at position `k`
    | Lost

  /** The verdict and the new window that a place calls for. */
  function Answer<T>(s: Service, w: seq<T>, p: Place, x: T): (r: Outcome<T>)
    requires p.Late? ==> p.k <= |w|
    ensures |w| <= |r.window|
  {
    match p
    case Next => Outcome(Complete, Insert(w, |w|, x))
    case Ahead => Outcome(if s.ReplayOnly() then Complete else GapToken, Insert(w, |w|, x))
    case Behind => Outcome(if s.ReplayOnly() then OldToken else UnseqToken, w)
    case Held => Outcome(DuplicateToken, w)
    case Late(k) => Outcome(if s.ReplayOnly() then Complete else UnseqToken, Insert(w, k, x))
    case Lost => Outcome(Failure, w)
  }

  /** The place of the masked number `n` among the residues `c`, oldest first. */
  function WrappedPlace(c: seq<nat>, n: nat, mask: nat): (p: Place)
    requires |c| > 0
    ensures p.Late? ==> 0 < p.k < |c|
  {
    var last := c[|c| - 1];
    var expected := (last + 1) % (mask + 1);
    if n == expected then Next
    else if After(n, expected, mask) then Ahead
    else if After(c[0], n, mask) then Behind
    else if n == last then Held
    else
      match Search(c, n, mask, 0)
      case Equal => Held
      case Between(k) => Late(k)
      case Nowhere => Lost
  }

  function WrappedCheck(s: Service, c: seq<nat>, n: nat, mask: nat): (r: Outcome<nat>)
    requires |c| > 0
  {
    if s.Active() then Answer(s, c, WrappedPlace(c, n, mask), n) else Outcome(Complete, c)
  }

  ghost predicate Masked(c: seq<nat>, mask: nat) {
    0 < |c| <= QUEUE_LENGTH && forall i :: 0 <= i < |c| ==> c[i] <= mask
  }

  /** A search that ends without a find has `n` after every element, the last one included. */
  lemma {:induction false} SearchThatFails(c: seq<nat>, n: nat, mask: nat, i: nat)
    requires IsMask(mask) && Masked(c, mask) && n <= mask
    requires i < |c|
    requires After(n, c[i], mask) || n == c[i]
    requires Search(c, n, mask, i) == Nowhere
    ensures n == c[|c| - 1] || After(n, c[|c| - 1], mask)
    decreases |c| - i
  {
    if i < |c| - 1 {
      AfterIsTotalAndAntisymmetric(n, c[i + 1], mask);
      SearchThatFails(c, n, mask, i + 1);
    }
  }

  /**
   The final `GSS_S_FAILURE` is unreachable for every window and every number: no ordering of
   the window and no half-range assumption is needed.
   */
  lemma NeverLost(c: seq<nat>, n: nat, mask: nat)
    requires IsMask(mask) && Masked(c, mask) && n <= mask
    ensures WrappedPlace(c, n, mask) != Lost
  {
    if WrappedPlace(c, n, mask) == Lost {
      AfterIsTotalAndAntisymmetric(n, c[0], mask);
      SearchThatFails(c, n, mask, 0);
      AfterSuccessor(n, c[|c| - 1], mask);
      assert false;
    }
  }

  lemma InsertKeepsMasked(c: seq<nat>, k: nat, n: nat, mask: nat)
    requires Masked(c, mask) && n <= mask && k <= |c|
    ensures Masked(Insert(c, k, n), mask)
  {
  }

  // ---------------------------------------------------------------------------
  // The circular queue

  /** The array is a ring: index `i` and index `i + 20` name the same slot. */
  function QElem(e: seq<nat>, i: nat): nat
    requires |e| == QUEUE_LENGTH
  {
    e[i % QUEUE_LENGTH]
  }

  function SetQElem(e: seq<nat>, i: nat, x: nat): seq<nat>
    requires |e| == QUEUE_LENGTH
  {
    e[i % QUEUE_LENGTH := x]
  }

  lemma SetQElemFrame(e: seq<nat>, i: nat, x: nat, j: nat)
    requires |e| == QUEUE_LENGTH
    requires i < j + QUEUE_LENGTH && j < i + QUEUE_LENGTH
    ensures QElem(SetQElem(e, i, x), j) == if i == j then x else QElem(e, j)
  {
  }

  /** The elements of the ring in order of age, oldest first. */
  function Ring(e: seq<nat>, start: nat, length: nat): (r: seq<nat>)
    requires |e| == QUEUE_LENGTH
    ensures |r| == length
  {
    seq<nat>(length, (i: nat) => QElem(e, start + i))
  }

  /** The elements at indices `(after, i]` copied up one slot, highest first. */
  function MovedUp(e: seq<nat>, i: nat, after: nat): (f: seq<nat>)
    requires |e| == QUEUE_LENGTH
    ensures |f| == QUEUE_LENGTH
    decreases i
  {
    if i <= after then e else MovedUp(SetQElem(e, i + 1, QElem(e, i)), i - 1, after)
  }

  /** What moving up leaves at index `j`, for `j` within one turn of the moved range. */
  lemma {:induction false} MovedUpAt(e: seq<nat>, i: nat, after: nat, j: nat)
    requires |e| == QUEUE_LENGTH
    requires after <= i < after + QUEUE_LENGTH
    requires i + 1 < j + QUEUE_LENGTH && j <= i + 1
    ensures QElem(MovedUp(e, i, after), j) == if after + 1 < j then QElem(e, j - 1) else QElem(e, j)
    decreases i
  {
    if after < i {
      var x := QElem(e, i);
      var f := SetQElem(e, i + 1, x);
      SetQElemFrame(e, i + 1, x, j);
      if j <= i {
        MovedUpAt(f, i - 1, after, j);
        if after + 1 < j {
          SetQElemFrame(e, i + 1, x, j - 1);
        }
      } else {
        MovedUpAbove(f, i - 1, after, j);
      }
    }
  }

  /** Moving up leaves the index two above the moved range alone. */
  lemma {:induction false} MovedUpAbove(e: seq<nat>, i: nat, after: nat, j: nat)
    requires |e| == QUEUE_LENGTH
    requires i + 2 <= j <= after + QUEUE_LENGTH
    ensures QElem(MovedUp(e, i, after), j) == QElem(e, j)
    decreases i
  {
    if after < i {
      var x := QElem(e, i);
      SetQElemFrame(e, i + 1, x, j);
      MovedUpAbove(SetQElem(e, i + 1, x), i - 1, after, j);
    }
  }

  /** The ring with the elements from position `k` on moved up and `x` at position `k`. */
  function Opened(e: seq<nat>, start: nat, length: nat, k: nat, x: nat): (f: seq<nat>)
    requires |e| == QUEUE_LENGTH && 0 < k <= length
    ensures |f| == QUEUE_LENGTH
  {
    SetQElem(MovedUp(e, start + length - 1, start + k - 1), start + k, x)
  }

  lemma OpenedAt(e: seq<nat>, start: nat, length: nat, k: nat, x: nat, i: nat)
    requires |e| == QUEUE_LENGTH && 0 < k <= length <= QUEUE_LENGTH
    requires i <= length && (length < QUEUE_LENGTH || i > 0)
    ensures QElem(Opened(e, start, length, k, x), start + i)
            == if i < k then QElem(e, start + i) else if i == k then x else QElem(e, start + i - 1)
  {
    MovedUpAt(e, start + length - 1, start + k - 1, start + i);
    SetQElemFrame(MovedUp(e, start + length - 1, start + k - 1), start + k, x, start + i);
  }

  lemma RingIs(e: seq<nat>, start: nat, t: seq<nat>)
    requires |e| == QUEUE_LENGTH
    requires forall i :: 0 <= i < |t| ==> t[i] == QElem(e, start + i)
    ensures Ring(e, start, |t|) == t
  {
  }

  /** Room left: the ring after the move, read from the same start, is the old one with `x` inserted. */
  lemma OpenedRing(e: seq<nat>, start: nat, length: nat, k: nat, x: nat)
    requires |e| == QUEUE_LENGTH && 0 < k <= length < QUEUE_LENGTH
    ensures Ring(Opened(e, start, length, k, x), start, length + 1) == Insert(Ring(e, start, length), k, x)
  {
    var f := Opened(e, start, length, k, x);
    var t := Grown(Ring(e, start, length), k, x);
    forall i | 0 <= i < |t| ensures t[i] == QElem(f, start + i) {
      OpenedAt(e, start, length, k, x, i);
    }
    RingIs(f, start, t);
  }

  lemma QElemWraps(e: seq<nat>, start: nat, i: nat)
    requires |e| == QUEUE_LENGTH && start < QUEUE_LENGTH
    ensures QElem(e, (start + 1) % QUEUE_LENGTH + i) == QElem(e, start + 1 + i)
  {
    if start + 1 == QUEUE_LENGTH {
      assert (QUEUE_LENGTH + i) % QUEUE_LENGTH == i % QUEUE_LENGTH;
    }
  }

  /** Full: the same, read from the slot after the old start. */
  lemma OpenedFullRing(e: seq<nat>, start: nat, k: nat, x: nat)
    requires |e| == QUEUE_LENGTH && start < QUEUE_LENGTH && 0 < k <= QUEUE_LENGTH
    ensures Ring(Opened(e, start, QUEUE_LENGTH, k, x), (start + 1) % QUEUE_LENGTH, QUEUE_LENGTH)
            == Insert(Ring(e, start, QUEUE_LENGTH), k, x)
  {
    var f := Opened(e, start, QUEUE_LENGTH, k, x);
    var c := Ring(e, start, QUEUE_LENGTH);
    var t := Insert(c, k, x);
    var next := (start + 1) % QUEUE_LENGTH;
    forall i | 0 <= i < |t| ensures t[i] == QElem(f, next + i) {
      QElemWraps(f, start, i);
      OpenedAt(e, start, QUEUE_LENGTH, k, x, i + 1);
      assert t[i] == Grown(c, k, x)[i + 1];
    }
    RingIs(f, next, t);
  }

  /** In both cases the ring is right for the new start and length. */
  lemma OpenedContents(e: seq<nat>, start: nat, length: nat, k: nat, x: nat)
    requires |e| == QUEUE_LENGTH && start < QUEUE_LENGTH && 0 < k <= length <= QUEUE_LENGTH
    ensures var f := Opened(e, start, length, k, x);
            Insert(Ring(e, start, length), k, x)
            == if length < QUEUE_LENGTH then Ring(f, start, length + 1)
               else Ring(f, (start + 1) % QUEUE_LENGTH, length)
  {
    if length < QUEUE_LENGTH {
      OpenedRing(e, start, length, k, x);
    } else {
      OpenedFullRing(e, start, k, x);
    }
  }

  /** A sequence number as the queue stores it: relative to the first one, then masked. */
  function Relative(seqnum: nat, firstnum: nat, mask: nat): (n: nat)
    ensures n <= mask
  {
    (seqnum - firstnum) % TWO64 % (mask + 1)
  }

  class Queue {
    var service: Service
    var start: nat
    var length: nat
    var firstnum: nat
    var mask: nat
    const elem: array<nat>

    ghost predicate Valid()
      reads this, elem
    {
      && elem.Length == QUEUE_LENGTH
      && start < QUEUE_LENGTH
      && 1 <= length <= QUEUE_LENGTH
      && IsMask(mask)
      && firstnum < TWO64
      && Masked(Contents(), mask)
    }

    ghost function Contents(): seq<nat>
      requires elem.Length == QUEUE_LENGTH
      reads this, elem
    {
      Ring(elem[..], start, length)
    }

    constructor (seqnum: nat, doReplay: bool, doSequence: bool, wideNums: bool)
      requires seqnum < TWO64
      ensures Valid() && fresh(elem)
      ensures service == Service(doReplay, doSequence)
      ensures firstnum == seqnum
      ensures mask == if wideNums then WIDE_MASK else NARROW_MASK
      ensures Contents() == [-1 % (mask + 1)]
    {
      service := Service(doReplay, doSequence);
      mask := if wideNums then WIDE_MASK else NARROW_MASK;
      start := 0;
      length := 1;
      firstnum := seqnum;
      elem := new nat[QUEUE_LENGTH](_ => 0);
      new;
      elem[start] := -1 % (mask + 1);
    }

    /** Put `seqnum` in behind index `after`, moving later elements up one slot. */
    method QueueInsert(after: nat, seqnum: nat)
      requires Valid()
      requires start <= after < start + length
      requires seqnum <= mask
      modifies this`start, this`length, elem
      ensures Valid()
      ensures Contents() == Insert(old(Contents()), after - old(start) + 1, seqnum)
    {
      ghost var e, k := elem[..], after - start + 1;
      InsertKeepsMasked(Contents(), k, seqnum, mask);
      OpenedContents(e, start, length, k, seqnum);
      Open(after, seqnum);
      Extend();
    }

    /** One element more, or the next slot as the start of a full ring. */
    method Extend()
      requires start < QUEUE_LENGTH && length <= QUEUE_LENGTH
      modifies this`start, this`length
      ensures old(length) < QUEUE_LENGTH ==> start == old(start) && length == old(length) + 1
      ensures old(length) == QUEUE_LENGTH ==> start == (old(start) + 1) % QUEUE_LENGTH && length == old(length)
    {
      if length == QUEUE_LENGTH {
        start := start + 1;
        if start == QUEUE_LENGTH {
          start := 0;
        }
      } else {
        length := length + 1;
      }
    }

    /** Move the elements behind `after` up and fill the slot. */
    method Open(after: nat, seqnum: nat)
      requires elem.Length == QUEUE_LENGTH && start <= after < start + length
      modifies elem
      ensures elem[..] == Opened(old(elem[..]), start, length, after - start + 1, seqnum)
    {
      MoveUp(after);
      PutSlot(after + 1, seqnum);
    }

    /** The copying loop of the insertion. */
    method MoveUp(after: nat)
      requires elem.Length == QUEUE_LENGTH
      requires start <= after < start + length
      modifies elem
      ensures elem[..] == MovedUp(old(elem[..]), start + length - 1, after)
    {
      ghost var e := elem[..];
      var i := start + length - 1;
      while i > after
        invariant after <= i < start + length
        invariant MovedUp(elem[..], i, after) == MovedUp(e, start + length - 1, after)
      {
        ghost var f := elem[..];
        PutSlot(i + 1, elem[i % QUEUE_LENGTH]);
        assert elem[..] == SetQElem(f, i + 1, QElem(f, i));
        i := i - 1;
      }
    }

    /** An assignment through the `QELEM` macro. */
    method PutSlot(i: nat, x: nat)
      requires elem.Length == QUEUE_LENGTH
      modifies elem
      ensures elem[..] == SetQElem(old(elem[..]), i, x)
    {
      elem[i % QUEUE_LENGTH] := x;
    }

    /** A read through the `QELEM` macro, `k` places above the oldest element. */
    method GetSlot(k: nat) returns (x: nat)
      requires elem.Length == QUEUE_LENGTH && k < length
      ensures x == Contents()[k]
    {
      x := elem[(start + k) % QUEUE_LENGTH];
      assert x == QElem(elem[..], start + k);
    }

    /** The search loop over `[start, start + length - 1)`. */
    method Locate(n: nat) returns (found: Found)
      requires Valid()
      ensures found == Search(Contents(), n, mask, 0)
    {
      var i := 0;
      while i < length - 1
        invariant 0 <= i <= length - 1
        invariant Search(Contents(), n, mask, i) == Search(Contents(), n, mask, 0)
      {
        var x := GetSlot(i);
        if n == x {
          return Equal;
        }
        var y := GetSlot(i + 1);
        if After(n, x, mask) && After(y, n, mask) {
          return Between(i + 1);
        }
        i := i + 1;
      }
      return Nowhere;
    }

    /** The comparisons of the check, in their order. */
    method FindPlace(n: nat) returns (p: Place)
      requires Valid() && n <= mask
      ensures p == WrappedPlace(Contents(), n, mask)
      ensures p != Lost
    {
      NeverLost(Contents(), n, mask);
      var last := GetSlot(length - 1);
      var expected := (last + 1) % (mask + 1);
      if n == expected {
        return Next;
      }
      if After(n, expected, mask) {
        return Ahead;
      }
      var first := GetSlot(0);
      if After(first, n, mask) {
        return Behind;
      }
      if n == last {
        return Held;
      }
      var found := Locate(n);
      match found {
        case Equal => return Held;
        case Between(k) => return Late(k);
        case Nowhere => return Lost;
      }
    }

    /** Insert so that `n` stands at position `k`. */
    method Remember(k: nat, n: nat)
      requires Valid() && 0 < k <= length && n <= mask
      modifies this`start, this`length, elem
      ensures Valid() && Contents() == Insert(old(Contents()), k, n)
    {
      QueueInsert(start + k - 1, n);
    }

    /** Classify `seqnum` and remember it where the service calls for it. */
    method Check(seqnum: nat) returns (verdict: Verdict)
      requires Valid() && seqnum < TWO64
      modifies this`start, this`length, elem
      ensures Valid()
      ensures Outcome(verdict, Contents())
              == WrappedCheck(service, old(Contents()), Relative(seqnum, firstnum, mask), mask)
      ensures verdict != Failure
    {
      if !service.Active() {
        return Complete;
      }
      var n := Relative(seqnum, firstnum, mask);
      var p := FindPlace(n);
      match p {
        case Next =>
          Remember(length, n);
          return Complete;
        case Ahead =>
          Remember(length, n);
          return if service.ReplayOnly() then Complete else GapToken;
        case Behind =>
          return if service.ReplayOnly() then OldToken else UnseqToken;
        case Held =>
          return DuplicateToken;
        case Late(k) =>
          Remember(k, n);
          return if service.ReplayOnly() then Complete else UnseqToken;
      }
    }
  }
}
