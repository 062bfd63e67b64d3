/** The sequencing window on unbounded integers, and the proof that the wrapping one refines it. */
module PlainWindow {
  import opened SequenceWindow
  import opened Words

  ghost predicate Increasing(w: seq<int>) {
    forall i, j :: 0 <= i < j < |w| ==> w[i] < w[j]
  }

  /** A window the service can hold: 1 to 20 numbers in increasing order. */
  ghost predicate IsWindow(w: seq<int>) {
    0 < |w| <= QUEUE_LENGTH && Increasing(w)
  }

  /** How many elements of the window are smaller than `n`. */
  function Rank(w: seq<int>, n: int): (k: nat)
    ensures k <= |w|
  {
    if w == [] || w[0] >= n then 0 else 1 + Rank(w[1..], n)
  }

  function PlainPlace(w: seq<int>, n: int): (p: Place)
    requires |w| > 0
    ensures p.Late? ==> p.k <= |w|
  {
    var last := w[|w| - 1];
    if n == last + 1 then Next
    else if n > last then Ahead
    else if n < w[0] then Behind
    else if n in w then Held
    else Late(Rank(w, n))
  }

  function PlainCheck(s: Service, w: seq<int>, n: int): (r: Outcome<int>)
    requires |w| > 0
  {
    if s.Active() then Answer(s, w, PlainPlace(w, n), n) else Outcome(Complete, w)
  }

  lemma {:induction false} RankSplits(w: seq<int>, n: int)
    requires Increasing(w)
    ensures var k := Rank(w, n);
            && (forall i :: 0 <= i < k ==> w[i] < n)
            && (forall i :: k <= i < |w| ==> n <= w[i])
  {
    if w != [] && w[0] < n {
      RankSplits(w[1..], n);
      var k := Rank(w, n);
      forall i | 0 < i < |w| ensures if i < k then w[i] < n else n <= w[i] {
        assert w[i] == w[1..][i - 1];
      }
    }
  }

  lemma GrownIsIncreasing(w: seq<int>, k: nat, n: int)
    requires Increasing(w) && k <= |w|
    requires k > 0 ==> w[k - 1] < n
    requires k < |w| ==> n < w[k]
    ensures Increasing(Grown(w, k, n))
  {
    var grown := Grown(w, k, n);
    forall i, j | 0 <= i < j < |grown| ensures grown[i] < grown[j] {
      assert i < k ==> w[i] <= w[k - 1];
      assert j > k ==> w[k] <= w[j - 1];
    }
  }

  lemma InsertKeepsWindow(w: seq<int>, k: nat, n: int)
    requires IsWindow(w) && k <= |w|
    requires k > 0 ==> w[k - 1] < n
    requires k < |w| ==> n < w[k]
    ensures IsWindow(Insert(w, k, n))
  {
    GrownIsIncreasing(w, k, n);
  }

  lemma PlainCheckKeepsWindow(s: Service, w: seq<int>, n: int)
    requires IsWindow(w)
    ensures IsWindow(PlainCheck(s, w, n).window)
  {
    if n > w[|w| - 1] {
      InsertKeepsWindow(w, |w|, n);
    } else if n >= w[0] && n !in w {
      RankSplits(w, n);
      InsertKeepsWindow(w, Rank(w, n), n);
    }
  }

  // ---------------------------------------------------------------------------
  // The wrapped window refines the plain one

  function Residues(w: seq<int>, mask: nat): (c: seq<nat>)
    ensures |c| == |w|
    ensures forall i :: 0 <= i < |w| ==> c[i] == w[i] % (mask + 1)
  {
    seq<nat>(|w|, (i: nat) requires i < |w| => w[i] % (mask + 1))
  }

  lemma ResiduesOfInsert(w: seq<int>, k: nat, n: int, mask: nat)
    requires k <= |w|
    ensures Residues(Insert(w, k, n), mask) == Insert(Residues(w, mask), k, n % (mask + 1))
  {
  }

  /** The half-range assumption for one arrival: less than half the space from every held number. */
  ghost predicate NearHeld(w: seq<int>, n: int, mask: nat) {
    forall i :: 0 <= i < |w| ==> Near(n, w[i], mask)
  }

  /**
   The one number that is near all held ones and yet judged wrongly: exactly half the space behind the
   expected number, with a residue in the lower half.
   */
  ghost predicate Misjudged(w: seq<int>, n: int, mask: nat)
    requires |w| > 0
  {
    var half := 1 + mask / 2;
    n == w[|w| - 1] + 1 - half && n % (mask + 1) < half
  }

  /** In an increasing sequence a number between two neighbours is not held, and the second one is its place. */
  lemma BetweenNeighbours(w: seq<int>, n: int, i: nat)
    requires Increasing(w) && i + 1 < |w| && w[i] < n < w[i + 1]
    ensures n !in w && Rank(w, n) == i + 1
  {
    RankSplits(w, n);
  }

  /** Searching the residues stops where the plain number is or belongs. */
  lemma {:induction false} SearchRefines(w: seq<int>, n: int, mask: nat, i: nat)
    requires IsMask(mask) && IsWindow(w) && NearHeld(w, n, mask)
    requires i < |w| && w[i] <= n < w[|w| - 1]
    ensures Search(Residues(w, mask), n % (mask + 1), mask, i)
            == if n in w then Equal else Between(Rank(w, n))
    decreases |w| - i
  {
    AfterOfNear(n, w[i], mask);
    AfterOfNear(w[i + 1], n, mask);
    if w[i] < n {
      if n < w[i + 1] {
        BetweenNeighbours(w, n, i);
      } else {
        SearchRefines(w, n, mask, i + 1);
      }
    }
  }

  /** The comparison with the expected number is right save for the misjudged one. */
  lemma ExpectedRefines(w: seq<int>, n: int, mask: nat)
    requires IsMask(mask) && |w| > 0 && Near(n, w[|w| - 1], mask)
    ensures var m := mask + 1; var last := w[|w| - 1];
            && (n % m == (last + 1) % m <==> n == last + 1)
            && (After(n % m, (last + 1) % m, mask) <==> n > last + 1 || Misjudged(w, n, mask))
  {
    var expected := w[|w| - 1] + 1;
    ResidueGap(n, expected, mask);
    AfterAgreesExactly(n, expected, mask);
  }

  /** The comparisons with both ends of the window. */
  lemma EndsRefine(w: seq<int>, n: int, mask: nat)
    requires IsMask(mask) && IsWindow(w) && NearHeld(w, n, mask)
    ensures var c := Residues(w, mask); var m := mask + 1; var last := w[|w| - 1];
            && (n % m == (c[|c| - 1] + 1) % m <==> n == last + 1)
            && (After(n % m, (c[|c| - 1] + 1) % m, mask) <==> n > last + 1 || Misjudged(w, n, mask))
            && (After(c[0], n % m, mask) <==> n < w[0])
            && (n % m == c[|c| - 1] <==> n == last)
  {
    var last := w[|w| - 1];
    SuccessorResidue(last, mask);
    ExpectedRefines(w, n, mask);
    AfterOfNear(n, last, mask);
    AfterOfNear(w[0], n, mask);
  }

  /** Near all held numbers, a number is placed where it really is exactly when it is not the misjudged one. */
  lemma PlaceAgreesExactly(w: seq<int>, n: int, mask: nat)
    requires IsMask(mask) && IsWindow(w) && NearHeld(w, n, mask)
    ensures WrappedPlace(Residues(w, mask), n % (mask + 1), mask)
            == if Misjudged(w, n, mask) then Ahead else PlainPlace(w, n)
    ensures Misjudged(w, n, mask) ==> !PlainPlace(w, n).Next? && !PlainPlace(w, n).Ahead?
  {
    EndsRefine(w, n, mask);
    if w[0] <= n < w[|w| - 1] {
      SearchRefines(w, n, mask, 0);
    }
  }

  function ResidueOutcome(o: Outcome<int>, mask: nat): Outcome<nat> {
    Outcome(o.verdict, Residues(o.window, mask))
  }

  ghost predicate StepNear(s: Service, w: seq<int>, n: int, mask: nat) {
    s.Active() ==> NearHeld(w, n, mask)
  }

  ghost predicate StepMisjudged(s: Service, w: seq<int>, n: int, mask: nat)
    requires |w| > 0
  {
    s.Active() && Misjudged(w, n, mask)
  }

  /** One check: same verdict, and the new window is still the residues of the plain one. */
  lemma CheckRefines(s: Service, w: seq<int>, n: int, mask: nat)
    requires IsMask(mask) && IsWindow(w) && StepNear(s, w, n, mask)
    requires !StepMisjudged(s, w, n, mask)
    ensures WrappedCheck(s, Residues(w, mask), n % (mask + 1), mask) == ResidueOutcome(PlainCheck(s, w, n), mask)
  {
    if s.Active() {
      PlaceAgreesExactly(w, n, mask);
      ResiduesOfInsert(w, |w|, n, mask);
      var p := PlainPlace(w, n);
      if p.Late? {
        ResiduesOfInsert(w, p.k, n, mask);
      }
    }
  }

  /** A number that is not new leaves the newest element where it is. */
  lemma NewestStays(s: Service, w: seq<int>, n: int)
    requires IsWindow(w) && n <= w[|w| - 1]
    ensures var v := PlainCheck(s, w, n).window; |v| > 0 && v[|v| - 1] == w[|w| - 1]
  {
    RankSplits(w, n);
  }

  /** A number taken for a new one becomes the newest element. */
  lemma AheadIsLast(s: Service, c: seq<nat>, n: nat, mask: nat)
    requires s.Active() && |c| > 0 && WrappedPlace(c, n, mask) == Ahead
    ensures var r := WrappedCheck(s, c, n, mask);
            && r.verdict == (if s.doSequence then GapToken else Complete)
            && |r.window| > 0 && r.window[|r.window| - 1] == n
  {
  }

  /** A near number below the newest one does not end the window, in residues either. */
  lemma LastIsOther(s: Service, w: seq<int>, n: int, mask: nat)
    requires IsMask(mask) && IsWindow(w) && n < w[|w| - 1] && Near(n, w[|w| - 1], mask)
    ensures var v := Residues(PlainCheck(s, w, n).window, mask); |v| > 0 && v[|v| - 1] != n % (mask + 1)
  {
    NewestStays(s, w, n);
    AfterOfNear(n, w[|w| - 1], mask);
  }

  /** The misjudged number becomes the newest element; its true place is not there. */
  lemma MisjudgedDiffers(s: Service, w: seq<int>, n: int, mask: nat)
    requires IsMask(mask) && IsWindow(w) && s.Active() && NearHeld(w, n, mask) && Misjudged(w, n, mask)
    ensures var r := WrappedCheck(s, Residues(w, mask), n % (mask + 1), mask);
            && r.verdict == (if s.doSequence then GapToken else Complete)
            && r.window != Residues(PlainCheck(s, w, n).window, mask)
  {
    PlaceAgreesExactly(w, n, mask);
    AheadIsLast(s, Residues(w, mask), n % (mask + 1), mask);
    LastIsOther(s, w, n, mask);
  }

  /** Verdict and window of one check are those of the plain integers exactly when its number is not misjudged. */
  lemma CheckAgreesExactly(s: Service, w: seq<int>, n: int, mask: nat)
    requires IsMask(mask) && IsWindow(w) && StepNear(s, w, n, mask)
    ensures WrappedCheck(s, Residues(w, mask), n % (mask + 1), mask) == ResidueOutcome(PlainCheck(s, w, n), mask)
            <==> !StepMisjudged(s, w, n, mask)
  {
    if StepMisjudged(s, w, n, mask) {
      MisjudgedDiffers(s, w, n, mask);
    } else {
      CheckRefines(s, w, n, mask);
    }
  }

  /**
   The limit of the half-range assumption: a new queue places a number where it really is exactly
   when it is less than half the number space ahead.
   */
  lemma NewQueueAgreesExactly(n: nat, mask: nat)
    requires IsMask(mask) && n <= mask
    ensures WrappedPlace([mask], n, mask) == PlainPlace([-1], n) <==> n < 1 + mask / 2
  {
    var half := 1 + mask / 2;
    assert (mask + 1) % (mask + 1) == 0;
    AfterMasked(n, 0, mask);
    AfterMasked(mask, n, mask);
  }

  lemma SuccessorResidue(a: int, mask: nat)
    requires IsMask(mask)
    ensures (a % (mask + 1) + 1) % (mask + 1) == (a + 1) % (mask + 1)
  {
    if mask == WIDE_MASK {
      assert mask + 1 == TWO64;
    } else {
      assert mask + 1 == TWO32;
    }
  }

  /** Raw sequence numbers: only the residue of the number relative to the first one matters. */
  lemma RelativeIsResidue(seqnum: nat, firstnum: nat, n: int, mask: nat)
    requires IsMask(mask)
    requires (seqnum - firstnum - n) % (mask + 1) == 0
    ensures Relative(seqnum, firstnum, mask) == n % (mask + 1)
  {
    var x := seqnum - firstnum;
    var q := (x - n) / (mask + 1);
    assert x == n + q * (mask + 1);
    if mask == WIDE_MASK {
      SameResidueWide(n, q);
    } else {
      SameResidueNarrow(n, q);
      var d := x / TWO64;
      SameResidueNarrow(x % TWO64, d * TWO32);
    }
  }

  lemma SameResidueWide(n: int, q: int)
    ensures (n + q * TWO64) % TWO64 == n % TWO64
  {
  }

  lemma SameResidueNarrow(n: int, q: int)
    ensures (n + q * TWO32) % TWO32 == n % TWO32
  {
  }

  // ---------------------------------------------------------------------------
  // Whole runs

  /** The window after the numbers `ks` have been checked in turn. */
  function WrappedAfter(s: Service, c: seq<nat>, ks: seq<nat>, mask: nat): (r: seq<nat>)
    requires |c| > 0
    ensures |r| > 0
  {
    if ks == [] then c
    else WrappedCheck(s, WrappedAfter(s, c, ks[..|ks| - 1], mask), ks[|ks| - 1], mask).window
  }

  /** Verdict and window of every check of a run. */
  function WrappedRun(s: Service, c: seq<nat>, ks: seq<nat>, mask: nat): (r: seq<Outcome<nat>>)
    requires |c| > 0
    ensures |r| == |ks|
  {
    if ks == [] then []
    else
      var earlier := ks[..|ks| - 1];
      WrappedRun(s, c, earlier, mask) + [WrappedCheck(s, WrappedAfter(s, c, earlier, mask), ks[|ks| - 1], mask)]
  }

  function PlainAfter(s: Service, w: seq<int>, ns: seq<int>): (r: seq<int>)
    requires |w| > 0
    ensures |r| > 0
  {
    if ns == [] then w else PlainCheck(s, PlainAfter(s, w, ns[..|ns| - 1]), ns[|ns| - 1]).window
  }

  function PlainRun(s: Service, w: seq<int>, ns: seq<int>): (r: seq<Outcome<int>>)
    requires |w| > 0
    ensures |r| == |ns|
  {
    if ns == [] then []
    else
      var earlier := ns[..|ns| - 1];
      PlainRun(s, w, earlier) + [PlainCheck(s, PlainAfter(s, w, earlier), ns[|ns| - 1])]
  }

  /** Every arriving number is less than half the space from every number held at that time. */
  ghost predicate RunNear(s: Service, w: seq<int>, ns: seq<int>, mask: nat)
    requires |w| > 0
  {
    ns == [] ||
    (var earlier := ns[..|ns| - 1];
     RunNear(s, w, earlier, mask) && StepNear(s, PlainAfter(s, w, earlier), ns[|ns| - 1], mask))
  }

  /** No arriving number is the misjudged one. */
  ghost predicate RunClear(s: Service, w: seq<int>, ns: seq<int>, mask: nat)
    requires |w| > 0
  {
    ns == [] ||
    (var earlier := ns[..|ns| - 1];
     RunClear(s, w, earlier, mask) && !StepMisjudged(s, PlainAfter(s, w, earlier), ns[|ns| - 1], mask))
  }

  function ResidueRun(os: seq<Outcome<int>>, mask: nat): (r: seq<Outcome<nat>>)
    ensures |r| == |os|
  {
    if os == [] then [] else ResidueRun(os[..|os| - 1], mask) + [ResidueOutcome(os[|os| - 1], mask)]
  }

  lemma {:induction false} PlainAfterIsWindow(s: Service, w: seq<int>, ns: seq<int>)
    requires IsWindow(w)
    ensures IsWindow(PlainAfter(s, w, ns))
  {
    if ns != [] {
      var earlier := ns[..|ns| - 1];
      PlainAfterIsWindow(s, w, earlier);
      PlainCheckKeepsWindow(s, PlainAfter(s, w, earlier), ns[|ns| - 1]);
    }
  }

  /** Across any number of wraps and evictions the window is that of the unbounded integers. */
  lemma {:induction false} AfterRefines(s: Service, w: seq<int>, ns: seq<int>, mask: nat)
    requires IsMask(mask) && IsWindow(w) && RunNear(s, w, ns, mask) && RunClear(s, w, ns, mask)
    ensures WrappedAfter(s, Residues(w, mask), Residues(ns, mask), mask) == Residues(PlainAfter(s, w, ns), mask)
  {
    if ns != [] {
      var earlier := ns[..|ns| - 1];
      assert Residues(ns, mask)[..|ns| - 1] == Residues(earlier, mask);
      AfterRefines(s, w, earlier, mask);
      PlainAfterIsWindow(s, w, earlier);
      CheckRefines(s, PlainAfter(s, w, earlier), ns[|ns| - 1], mask);
    }
  }

  lemma SameEnd<T>(a: seq<T>, b: seq<T>, x: T, y: T)
    requires |a| == |b|
    ensures a + [x] == b + [y] <==> a == b && x == y
  {
    assert (a + [x])[..|a|] == a && (b + [y])[..|b|] == b;
    assert (a + [x])[|a|] == x && (b + [y])[|b|] == y;
  }

  lemma OneMoreWrapped(s: Service, c: seq<nat>, ks: seq<nat>, k: nat, mask: nat)
    requires |c| > 0
    ensures WrappedRun(s, c, ks + [k], mask)
            == WrappedRun(s, c, ks, mask) + [WrappedCheck(s, WrappedAfter(s, c, ks, mask), k, mask)]
  {
    assert (ks + [k])[..|ks|] == ks;
  }

  lemma OneMorePlain(s: Service, w: seq<int>, earlier: seq<int>, n: int, mask: nat)
    requires |w| > 0
    ensures ResidueRun(PlainRun(s, w, earlier + [n]), mask)
            == ResidueRun(PlainRun(s, w, earlier), mask)
               + [ResidueOutcome(PlainCheck(s, PlainAfter(s, w, earlier), n), mask)]
  {
    var os := PlainRun(s, w, earlier + [n]);
    assert (earlier + [n])[..|earlier|] == earlier;
    assert os[..|earlier|] == PlainRun(s, w, earlier);
  }

  /** After a clear run, the next outcome agrees exactly when its number is not misjudged. */
  lemma NextAgreesExactly(s: Service, w: seq<int>, earlier: seq<int>, n: int, mask: nat)
    requires IsMask(mask) && IsWindow(w) && RunNear(s, w, earlier, mask) && RunClear(s, w, earlier, mask)
    requires StepNear(s, PlainAfter(s, w, earlier), n, mask)
    ensures WrappedCheck(s, WrappedAfter(s, Residues(w, mask), Residues(earlier, mask), mask), n % (mask + 1), mask)
            == ResidueOutcome(PlainCheck(s, PlainAfter(s, w, earlier), n), mask)
            <==> !StepMisjudged(s, PlainAfter(s, w, earlier), n, mask)
  {
    AfterRefines(s, w, earlier, mask);
    PlainAfterIsWindow(s, w, earlier);
    CheckAgreesExactly(s, PlainAfter(s, w, earlier), n, mask);
  }

  ghost predicate Agree(s: Service, w: seq<int>, ns: seq<int>, mask: nat)
    requires |w| > 0
  {
    WrappedRun(s, Residues(w, mask), Residues(ns, mask), mask) == ResidueRun(PlainRun(s, w, ns), mask)
  }

  lemma OneMoreAgrees(s: Service, w: seq<int>, earlier: seq<int>, n: int, mask: nat)
    requires |w| > 0
    ensures Agree(s, w, earlier + [n], mask) <==>
            && Agree(s, w, earlier, mask)
            && WrappedCheck(s, WrappedAfter(s, Residues(w, mask), Residues(earlier, mask), mask), n % (mask + 1), mask)
               == ResidueOutcome(PlainCheck(s, PlainAfter(s, w, earlier), n), mask)
  {
    var c, ks, k := Residues(w, mask), Residues(earlier, mask), n % (mask + 1);
    assert Residues(earlier + [n], mask) == ks + [k];
    OneMoreWrapped(s, c, ks, k, mask);
    OneMorePlain(s, w, earlier, n, mask);
    SameEnd(WrappedRun(s, c, ks, mask), ResidueRun(PlainRun(s, w, earlier), mask),
            WrappedCheck(s, WrappedAfter(s, c, ks, mask), k, mask),
            ResidueOutcome(PlainCheck(s, PlainAfter(s, w, earlier), n), mask));
  }

  /**
   In every run whose numbers are near the held ones, across any number of wraps and evictions: all
   verdicts and all windows are those of the unbounded integers exactly when no number is misjudged.
   */
  lemma {:induction false} RunAgreesExactly(s: Service, w: seq<int>, ns: seq<int>, mask: nat)
    requires IsMask(mask) && IsWindow(w) && RunNear(s, w, ns, mask)
    ensures Agree(s, w, ns, mask) <==> RunClear(s, w, ns, mask)
  {
    if ns != [] {
      var earlier, n := ns[..|ns| - 1], ns[|ns| - 1];
      assert ns == earlier + [n];
      RunAgreesExactly(s, w, earlier, mask);
      OneMoreAgrees(s, w, earlier, n, mask);
      if RunClear(s, w, earlier, mask) {
        NextAgreesExactly(s, w, earlier, n, mask);
      }
    }
  }

  // ---------------------------------------------------------------------------
  // No number is accepted twice

  /** The window knows `n`: it holds it, or has moved past it. */
  ghost predicate Known(w: seq<int>, n: int) {
    |w| > 0 && (n in w || n < w[0])
  }

  lemma GrownHas(w: seq<int>, k: nat, n: int, m: int)
    requires k <= |w|
    ensures m in Grown(w, k, n) <==> m in w || m == n
  {
    assert w == w[..k] + w[k..];
    assert Grown(w, k, n) == w[..k] + [n] + w[k..];
  }

  lemma InsertedIsKnown(w: seq<int>, k: nat, n: int, m: int)
    requires IsWindow(w) && k <= |w|
    requires k > 0 && w[k - 1] < n && (k < |w| ==> n < w[k])
    requires Known(w, m) || m == n
    ensures Known(Insert(w, k, n), m)
  {
    var grown := Grown(w, k, n);
    GrownHas(w, k, n, m);
    GrownIsIncreasing(w, k, n);
    assert grown[0] == w[0] < grown[1];
    if |w| == QUEUE_LENGTH && m in grown && m != w[0] {
      assert grown == [w[0]] + grown[1..];
    }
  }

  /** A check makes its number known and forgets none. */
  lemma CheckKnows(s: Service, w: seq<int>, n: int, m: int)
    requires s.Active() && IsWindow(w)
    requires Known(w, m) || m == n
    ensures Known(PlainCheck(s, w, n).window, m)
  {
    RankSplits(w, n);
    var p := PlainPlace(w, n);
    if p.Next? || p.Ahead? {
      InsertedIsKnown(w, |w|, n, m);
    } else if p.Late? {
      assert p.k > 0;
      assert p.k < |w| ==> w[p.k] in w;
      InsertedIsKnown(w, p.k, n, m);
    }
  }

  /** What a known number is answered. */
  ghost predicate Refused(s: Service, v: Verdict) {
    v == DuplicateToken || v == if s.doSequence then UnseqToken else OldToken
  }

  /** Whatever arrived is known afterwards. */
  lemma {:induction false} ArrivedIsKnown(s: Service, w: seq<int>, earlier: seq<int>, n: int)
    requires s.Active() && IsWindow(w) && n in earlier
    ensures Known(PlainAfter(s, w, earlier), n)
  {
    var before, last := earlier[..|earlier| - 1], earlier[|earlier| - 1];
    PlainAfterIsWindow(s, w, before);
    assert earlier == before + [last];
    if n != last {
      ArrivedIsKnown(s, w, before, n);
    }
    CheckKnows(s, PlainAfter(s, w, before), last, n);
  }

  /** A number that comes again is refused, whatever came in between: none is answered COMPLETE twice. */
  lemma SecondArrivalIsRefused(s: Service, w: seq<int>, earlier: seq<int>, n: int)
    requires s.Active() && IsWindow(w) && n in earlier
    ensures Refused(s, PlainCheck(s, PlainAfter(s, w, earlier), n).verdict)
  {
    ArrivedIsKnown(s, w, earlier, n);
    PlainAfterIsWindow(s, w, earlier);
    var v := PlainAfter(s, w, earlier);
    assert n <= v[|v| - 1];
  }

  /**
   For sequence numbers held modulo the number space: after a clear run, a number that comes again and
   is near the held ones is refused exactly when it is not the misjudged one.
   */
  lemma SecondArrivalIsRefusedExactly(s: Service, w: seq<int>, earlier: seq<int>, n: int, mask: nat)
    requires s.Active() && IsMask(mask) && IsWindow(w)
    requires RunNear(s, w, earlier, mask) && RunClear(s, w, earlier, mask)
    requires n in earlier && NearHeld(PlainAfter(s, w, earlier), n, mask)
    ensures var c := WrappedAfter(s, Residues(w, mask), Residues(earlier, mask), mask);
            Refused(s, WrappedCheck(s, c, n % (mask + 1), mask).verdict)
            <==> !Misjudged(PlainAfter(s, w, earlier), n, mask)
  {
    var v := PlainAfter(s, w, earlier);
    AfterRefines(s, w, earlier, mask);
    PlainAfterIsWindow(s, w, earlier);
    if Misjudged(v, n, mask) {
      MisjudgedDiffers(s, v, n, mask);
    } else {
      CheckRefines(s, v, n, mask);
      SecondArrivalIsRefused(s, w, earlier, n);
    }
  }

  // ---------------------------------------------------------------------------
  // The misjudged number does occur

  /** 0, 1, ... up to `k`, without `k`. */
  function UpTo(k: nat): (ns: seq<int>)
    ensures |ns| == k
  {
    seq<int>(k, (i: nat) => i)
  }

  /** The newest twenty numbers below `k`, the one before the first included. */
  function NewestBelow(k: nat): (w: seq<int>)
    ensures |w| == if k < QUEUE_LENGTH then k + 1 else QUEUE_LENGTH
    ensures forall i :: 0 <= i < |w| ==> w[i] == k - |w| + i
  {
    var n := if k < QUEUE_LENGTH then k + 1 else QUEUE_LENGTH;
    seq<int>(n, (i: nat) => k - n + i)
  }

  lemma NextInOrder(s: Service, k: nat)
    requires s.Active()
    ensures PlainCheck(s, NewestBelow(k), k).window == NewestBelow(k + 1)
  {
    var w := NewestBelow(k);
    assert w[|w| - 1] == k - 1 && PlainPlace(w, k) == Next;
    var grown := Grown(w, |w|, k);
    assert forall i :: 0 <= i < |grown| ==> grown[i] == k - |w| + i;
  }

  lemma NextIsNear(k: nat, mask: nat)
    requires IsMask(mask) && k < 1 + mask / 2
    ensures NearHeld(NewestBelow(k), k, mask) && !Misjudged(NewestBelow(k), k, mask)
  {
  }

  lemma UpToNext(k: nat)
    ensures UpTo(k + 1)[..k] == UpTo(k)
  {
  }

  lemma {:induction false} InOrder(s: Service, k: nat)
    requires s.Active()
    ensures PlainAfter(s, [-1], UpTo(k)) == NewestBelow(k)
  {
    if k > 0 {
      InOrder(s, k - 1);
      UpToNext(k - 1);
      NextInOrder(s, k - 1);
    }
  }

  lemma {:induction false} InOrderIsNear(s: Service, k: nat, mask: nat)
    requires s.Active() && IsMask(mask) && k <= 1 + mask / 2
    ensures RunNear(s, [-1], UpTo(k), mask) && RunClear(s, [-1], UpTo(k), mask)
  {
    if k > 0 {
      InOrderIsNear(s, k - 1, mask);
      UpToNext(k - 1);
      InOrder(s, k - 1);
      NextIsNear(k - 1, mask);
    }
  }

  /**
   A new queue gets half the space of numbers in order and then the first one again. It is near every
   number held, and the replay service answers COMPLETE a second time.
   */
  lemma FirstNumberIsCompleteTwice(mask: nat)
    requires IsMask(mask)
    ensures var s, half := Service(true, false), 1 + mask / 2;
            var w := PlainAfter(s, [-1], UpTo(half));
            && RunNear(s, [-1], UpTo(half), mask) && NearHeld(w, 0, mask)
            && WrappedCheck(s, [mask], 0, mask).verdict == Complete
            && WrappedCheck(s, WrappedAfter(s, [mask], Residues(UpTo(half), mask), mask), 0, mask).verdict == Complete
            && PlainCheck(s, w, 0).verdict == OldToken
  {
    var s, half := Service(true, false), 1 + mask / 2;
    var w := PlainAfter(s, [-1], UpTo(half));
    InOrder(s, half);
    InOrderIsNear(s, half, mask);
    MinusOneResidue(mask);
    AfterRefines(s, [-1], UpTo(half), mask);
    PlainAfterIsWindow(s, [-1], UpTo(half));
    MisjudgedDiffers(s, w, 0, mask);
  }

  lemma MinusOneResidue(mask: nat)
    requires IsMask(mask)
    ensures Residues([-1], mask) == [mask] && 0 % (mask + 1) == 0 && (mask + 1) % (mask + 1) == 0
  {
    SuccessorResidue(-1, mask);
  }
}
