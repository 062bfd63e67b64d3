/** The sequencing window against a memory of everything ever accepted. */
module AcceptedHistory {
  import opened SequenceWindow
  import opened PlainWindow
  import opened Words

  /** How many accepted numbers are larger than `n`. */
  ghost function Newer(accepted: set<int>, n: int): nat {
    |set a | a in accepted && a > n|
  }

  /** Too old to be judged: twenty larger ones accepted, or all accepted ones larger. */
  ghost predicate TooOld(accepted: set<int>, n: int) {
    Newer(accepted, n) >= 20 || forall a :: a in accepted ==> a > n
  }

  /** Larger than everything accepted. */
  ghost predicate IsNew(accepted: set<int>, n: int) {
    forall a :: a in accepted ==> a < n
  }

  /** The verdict read off the set of everything accepted so far, and off the two options themselves. */
  ghost function HistoryVerdict(s: Service, accepted: set<int>, n: int): Verdict {
    if !s.doReplay && !s.doSequence then Complete
    else if IsNew(accepted, n) then
      if s.doSequence && n - 1 !in accepted then GapToken else Complete
    else if TooOld(accepted, n) then
      if s.doSequence then UnseqToken else OldToken
    else if n in accepted then DuplicateToken
    else if s.doSequence then UnseqToken else Complete
  }

  ghost function HistoryNext(s: Service, accepted: set<int>, n: int): set<int> {
    if (s.doReplay || s.doSequence) && !TooOld(accepted, n) then accepted + {n} else accepted
  }

  /** Everything accepted after the numbers `ns` have come in turn. */
  ghost function HistoryAfter(s: Service, accepted: set<int>, ns: seq<int>): set<int> {
    if ns == [] then accepted
    else HistoryNext(s, HistoryAfter(s, accepted, ns[..|ns| - 1]), ns[|ns| - 1])
  }

  ghost function HistoryRun(s: Service, accepted: set<int>, ns: seq<int>): (vs: seq<Verdict>)
    ensures |vs| == |ns|
  {
    if ns == [] then []
    else
      var earlier := ns[..|ns| - 1];
      HistoryRun(s, accepted, earlier) + [HistoryVerdict(s, HistoryAfter(s, accepted, earlier), ns[|ns| - 1])]
  }

  lemma {:induction false} HistoryRunAt(s: Service, accepted: set<int>, ns: seq<int>, i: nat)
    requires i < |ns|
    ensures HistoryRun(s, accepted, ns)[i] == HistoryVerdict(s, HistoryAfter(s, accepted, ns[..i]), ns[i])
  {
    if i < |ns| - 1 {
      HistoryRunAt(s, accepted, ns[..|ns| - 1], i);
      assert ns[..|ns| - 1][..i] == ns[..i];
    }
  }

  ghost function Elements(w: seq<int>): set<int> {
    set a | a in w
  }

  lemma {:induction false} ElementsCount(w: seq<int>)
    requires Increasing(w)
    ensures |Elements(w)| == |w|
  {
    if w != [] {
      ElementsCount(w[1..]);
      assert w == [w[0]] + w[1..];
      assert Elements(w) == {w[0]} + Elements(w[1..]);
      assert w[0] !in w[1..];
    }
  }

  /** The window is the twenty largest accepted numbers, or all of them. */
  ghost predicate Newest(accepted: set<int>, w: seq<int>) {
    && IsWindow(w)
    && Elements(w) <= accepted
    && (forall a :: a in accepted ==> a in w || a < w[0])
    && |w| == if |accepted| < QUEUE_LENGTH then |accepted| else QUEUE_LENGTH
  }

  lemma SubsetCount<T>(a: set<T>, b: set<T>)
    requires a <= b
    ensures |a| <= |b|
    ensures |a| == |b| ==> a == b
  {
    assert b == a + (b - a);
  }

  lemma TooOldIsBehind(accepted: set<int>, w: seq<int>, n: int)
    requires Newest(accepted, w)
    ensures TooOld(accepted, n) <==> n < w[0]
  {
    var larger := set a | a in accepted && a > n;
    ElementsCount(w);
    if n < w[0] {
      if |w| == QUEUE_LENGTH {
        SubsetCount(Elements(w), larger);
      } else {
        SubsetCount(Elements(w), accepted);
      }
    } else {
      assert w[0] in Elements(w);
      ElementsCount(w[1..]);
      assert w == [w[0]] + w[1..];
      SubsetCount(larger, Elements(w[1..]));
    }
  }

  lemma NewestInsert(accepted: set<int>, w: seq<int>, k: nat, n: int)
    requires Newest(accepted, w) && n !in accepted
    requires 0 < k <= |w| && w[k - 1] < n && (k < |w| ==> n < w[k])
    ensures Newest(accepted + {n}, Insert(w, k, n))
  {
    var w' := Insert(w, k, n);
    InsertKeepsWindow(w, k, n);
    forall a | a in accepted + {n} ensures a in w' || a < w'[0] {
      InsertedIsKnown(w, k, n, a);
    }
    forall a | a in w' ensures a in accepted + {n} {
      GrownHas(w, k, n, a);
      assert a in w ==> a in Elements(w);
    }
  }

  /** Where the window places a number, told from the set of accepted numbers. */
  lemma PlaceFromHistory(accepted: set<int>, w: seq<int>, n: int)
    requires Newest(accepted, w)
    ensures var p := PlainPlace(w, n);
            && (p.Next? || p.Ahead? <==> IsNew(accepted, n))
            && (p.Next? || p.Ahead? ==> (p.Next? <==> n - 1 in accepted))
            && (p.Behind? <==> TooOld(accepted, n))
            && (p.Held? ==> n in accepted)
            && (p.Late? ==> n !in accepted)
  {
    TooOldIsBehind(accepted, w, n);
    assert w[0] in Elements(w) && w[|w| - 1] in Elements(w);
    assert n in w <==> n in Elements(w);
  }

  lemma LateKeepsNewest(accepted: set<int>, w: seq<int>, n: int)
    requires Newest(accepted, w) && PlainPlace(w, n).Late? && n !in accepted
    ensures Newest(accepted + {n}, Insert(w, Rank(w, n), n))
  {
    var k := Rank(w, n);
    RankSplits(w, n);
    assert k < |w| ==> w[k] in w;
    NewestInsert(accepted, w, k, n);
  }

  /** One check keeps the newest twenty of what has been accepted. */
  lemma CheckKeepsNewest(s: Service, accepted: set<int>, w: seq<int>, n: int)
    requires Newest(accepted, w) && s.Active()
    ensures Newest(HistoryNext(s, accepted, n), PlainCheck(s, w, n).window)
  {
    PlaceFromHistory(accepted, w, n);
    var p := PlainPlace(w, n);
    if p.Next? || p.Ahead? {
      NewestInsert(accepted, w, |w|, n);
    } else if p.Held? {
      assert accepted + {n} == accepted;
    } else if p.Late? {
      LateKeepsNewest(accepted, w, n);
    }
  }

  /** One check answers from the whole history. */
  lemma CheckAnswersFromHistory(s: Service, accepted: set<int>, w: seq<int>, n: int)
    requires Newest(accepted, w)
    ensures PlainCheck(s, w, n).verdict == HistoryVerdict(s, accepted, n)
    ensures Newest(HistoryNext(s, accepted, n), PlainCheck(s, w, n).window)
  {
    if s.Active() {
      PlaceFromHistory(accepted, w, n);
      CheckKeepsNewest(s, accepted, w, n);
    }
  }

  function Verdicts<T>(os: seq<Outcome<T>>): (vs: seq<Verdict>)
    ensures |vs| == |os|
  {
    if os == [] then [] else Verdicts(os[..|os| - 1]) + [os[|os| - 1].verdict]
  }

  lemma VerdictsAppend<T>(os: seq<Outcome<T>>, o: Outcome<T>)
    ensures Verdicts(os + [o]) == Verdicts(os) + [o.verdict]
  {
    assert (os + [o])[..|os|] == os;
  }

  lemma {:induction false} VerdictsOfResidues(os: seq<Outcome<int>>, mask: nat)
    ensures Verdicts(ResidueRun(os, mask)) == Verdicts(os)
  {
    if os != [] {
      var k := |os| - 1;
      VerdictsOfResidues(os[..k], mask);
      VerdictsAppend(ResidueRun(os[..k], mask), ResidueOutcome(os[k], mask));
    }
  }

  lemma {:induction false} RunAnswersFromHistory(s: Service, accepted: set<int>, w: seq<int>, ns: seq<int>)
    requires Newest(accepted, w)
    ensures Verdicts(PlainRun(s, w, ns)) == HistoryRun(s, accepted, ns)
    ensures Newest(HistoryAfter(s, accepted, ns), PlainAfter(s, w, ns))
  {
    if ns != [] {
      var earlier, n := ns[..|ns| - 1], ns[|ns| - 1];
      var before, v := HistoryAfter(s, accepted, earlier), PlainAfter(s, w, earlier);
      RunAnswersFromHistory(s, accepted, w, earlier);
      CheckAnswersFromHistory(s, before, v, n);
      VerdictsAppend(PlainRun(s, w, earlier), PlainCheck(s, v, n));
    }
  }

  /**
   From a new queue, in every clear run of numbers near the held ones: every verdict is the one a memory
   of all accepted numbers would give, and the queue holds the residues of the newest twenty. The memory
   starts with the number before the first one, which the source puts into the new queue.
   */
  lemma NewQueueAnswersFromHistory(s: Service, ns: seq<int>, mask: nat)
    requires IsMask(mask)
    requires RunNear(s, [-1], ns, mask) && RunClear(s, [-1], ns, mask)
    ensures Verdicts(WrappedRun(s, [mask], Residues(ns, mask), mask)) == HistoryRun(s, {-1}, ns)
    ensures WrappedAfter(s, [mask], Residues(ns, mask), mask) == Residues(PlainAfter(s, [-1], ns), mask)
    ensures Newest(HistoryAfter(s, {-1}, ns), PlainAfter(s, [-1], ns))
  {
    MinusOneResidue(mask);
    RunAgreesExactly(s, [-1], ns, mask);
    AfterRefines(s, [-1], ns, mask);
    VerdictsOfResidues(PlainRun(s, [-1], ns), mask);
    assert Newest({-1}, [-1]);
    RunAnswersFromHistory(s, {-1}, [-1], ns);
  }

  lemma {:induction false} AcceptedArrived(s: Service, accepted: set<int>, ns: seq<int>, n: int)
    requires n in HistoryAfter(s, accepted, ns)
    ensures n in accepted || n in ns
  {
    if ns != [] {
      var earlier := ns[..|ns| - 1];
      assert ns == earlier + [ns[|ns| - 1]];
      if n in HistoryAfter(s, accepted, earlier) {
        AcceptedArrived(s, accepted, earlier, n);
      }
    }
  }

  /** DUPLICATE is said only of numbers that came before or stood in the history at the start. */
  lemma DuplicateArrivedBefore(s: Service, accepted: set<int>, earlier: seq<int>, n: int)
    requires HistoryVerdict(s, HistoryAfter(s, accepted, earlier), n) == DuplicateToken
    ensures n in accepted || n in earlier
  {
    AcceptedArrived(s, accepted, earlier, n);
  }

  // ---------------------------------------------------------------------------
  // The queue itself, from raw sequence numbers

  function Relatives(seqnums: seq<nat>, firstnum: nat, mask: nat): (ks: seq<nat>)
    ensures |ks| == |seqnums|
  {
    seq<nat>(|seqnums|, (i: nat) requires i < |seqnums| => Relative(seqnums[i], firstnum, mask))
  }

  ghost predicate AllWords(seqnums: seq<nat>) {
    forall i :: 0 <= i < |seqnums| ==> seqnums[i] < TWO64
  }

  lemma OneMoreCheck(s: Service, c: seq<nat>, ks: seq<nat>, k: nat, mask: nat)
    requires |c| > 0
    ensures var r := WrappedCheck(s, WrappedAfter(s, c, ks, mask), k, mask);
            && WrappedAfter(s, c, ks + [k], mask) == r.window
            && Verdicts(WrappedRun(s, c, ks + [k], mask)) == Verdicts(WrappedRun(s, c, ks, mask)) + [r.verdict]
  {
    assert (ks + [k])[..|ks|] == ks;
    VerdictsAppend(WrappedRun(s, c, ks, mask), WrappedCheck(s, WrappedAfter(s, c, ks, mask), k, mask));
  }

  /** The queue, and the verdicts given so far, after the checks `ks` from the contents `c`. */
  ghost predicate Checked(q: Queue, c: seq<nat>, ks: seq<nat>, vs: seq<Verdict>)
    reads q, q.elem
  {
    && q.Valid() && |c| > 0
    && vs == Verdicts(WrappedRun(q.service, c, ks, q.mask))
    && q.Contents() == WrappedAfter(q.service, c, ks, q.mask)
    && Failure !in vs
  }

  method CheckOne(q: Queue, ghost c: seq<nat>, ghost ks: seq<nat>, vs0: seq<Verdict>, seqnum: nat)
    returns (vs: seq<Verdict>)
    requires Checked(q, c, ks, vs0) && seqnum < TWO64
    modifies q`start, q`length, q.elem
    ensures Checked(q, c, ks + [Relative(seqnum, q.firstnum, q.mask)], vs)
  {
    OneMoreCheck(q.service, c, ks, Relative(seqnum, q.firstnum, q.mask), q.mask);
    var v := q.Check(seqnum);
    vs := vs0 + [v];
  }

  lemma RelativesStep(seqnums: seq<nat>, i: nat, firstnum: nat, mask: nat)
    requires i < |seqnums|
    ensures Relatives(seqnums[..i + 1], firstnum, mask)
            == Relatives(seqnums[..i], firstnum, mask) + [Relative(seqnums[i], firstnum, mask)]
  {
  }

  /** Any run of checks on a queue, whatever the numbers are. */
  method CheckAll(q: Queue, seqnums: seq<nat>) returns (vs: seq<Verdict>)
    requires q.Valid() && AllWords(seqnums)
    modifies q`start, q`length, q.elem
    ensures q.Valid()
    ensures var c, ks := old(q.Contents()), Relatives(seqnums, q.firstnum, q.mask);
            && vs == Verdicts(WrappedRun(q.service, c, ks, q.mask))
            && q.Contents() == WrappedAfter(q.service, c, ks, q.mask)
    ensures Failure !in vs
  {
    vs := [];
    ghost var c := q.Contents();
    for i := 0 to |seqnums|
      invariant Checked(q, c, Relatives(seqnums[..i], q.firstnum, q.mask), vs)
    {
      RelativesStep(seqnums, i, q.firstnum, q.mask);
      vs := CheckOne(q, c, Relatives(seqnums[..i], q.firstnum, q.mask), vs, seqnums[i]);
    }
    assert seqnums[..|seqnums|] == seqnums;
  }

  /** The raw numbers stand for `firstnum + ns[i]`, modulo the number space. */
  ghost predicate StandFor(seqnums: seq<nat>, firstnum: nat, ns: seq<int>, space: int)
    requires space > 0
  {
    |seqnums| == |ns| && forall i :: 0 <= i < |ns| ==> (seqnums[i] - firstnum - ns[i]) % space == 0
  }

  /** The i-th answer is the one that everything accepted before calls for. */
  ghost predicate Answered(s: Service, ns: seq<int>, vs: seq<Verdict>, i: nat)
    requires i < |ns| == |vs|
  {
    vs[i] == HistoryVerdict(s, HistoryAfter(s, {-1}, ns[..i]), ns[i])
  }

  lemma RelativesAreResidues(seqnums: seq<nat>, firstnum: nat, ns: seq<int>, mask: nat)
    requires IsMask(mask) && StandFor(seqnums, firstnum, ns, mask + 1)
    ensures Relatives(seqnums, firstnum, mask) == Residues(ns, mask)
  {
    forall i | 0 <= i < |ns| ensures Relative(seqnums[i], firstnum, mask) == ns[i] % (mask + 1) {
      RelativeIsResidue(seqnums[i], firstnum, ns[i], mask);
    }
  }

  /**
   The answers by the two options. With sequencing, whether or not replays are looked for too, a gap, an old
   number and a late one are each told; with replay detection alone only an old number and a duplicate are.
   */
  lemma VerdictsByOption(replay: bool, accepted: set<int>, n: int)
    ensures var v := HistoryVerdict(Service(replay, true), accepted, n);
            && (IsNew(accepted, n) && n - 1 !in accepted ==> v == GapToken)
            && (IsNew(accepted, n) && n - 1 in accepted ==> v == Complete)
            && (!IsNew(accepted, n) && (TooOld(accepted, n) || n !in accepted) ==> v == UnseqToken)
            && (!IsNew(accepted, n) && !TooOld(accepted, n) && n in accepted ==> v == DuplicateToken)
    ensures var v := HistoryVerdict(Service(true, false), accepted, n);
            && (IsNew(accepted, n) ==> v == Complete)
            && (!IsNew(accepted, n) && TooOld(accepted, n) ==> v == OldToken)
            && (!IsNew(accepted, n) && !TooOld(accepted, n) && n !in accepted ==> v == Complete)
            && (!IsNew(accepted, n) && !TooOld(accepted, n) && n in accepted ==> v == DuplicateToken)
    ensures HistoryVerdict(Service(false, false), accepted, n) == Complete
  {
  }

  /**
   The whole service: a queue made for `firstnum` and fed raw numbers of either width answers from the
   full history and holds the residues of the newest twenty accepted numbers, in every clear run.
   */
  method RunNewQueue(firstnum: nat, service: Service, wide: bool, seqnums: seq<nat>, ghost ns: seq<int>)
    returns (q: Queue, vs: seq<Verdict>)
    requires firstnum < TWO64 && AllWords(seqnums)
    requires StandFor(seqnums, firstnum, ns, if wide then TWO64 else TWO32)
    ensures q.Valid() && q.mask + 1 == (if wide then TWO64 else TWO32) && Failure !in vs
    ensures RunNear(service, [-1], ns, q.mask) && RunClear(service, [-1], ns, q.mask) ==>
              && |vs| == |ns|
              && (forall i :: 0 <= i < |ns| ==> Answered(service, ns, vs, i))
              && q.Contents() == Residues(PlainAfter(service, [-1], ns), q.mask)
              && Newest(HistoryAfter(service, {-1}, ns), PlainAfter(service, [-1], ns))
  {
    q := new Queue(firstnum, service.doReplay, service.doSequence, wide);
    MinusOneResidue(q.mask);
    assert q.Contents() == [q.mask];
    RelativesAreResidues(seqnums, firstnum, ns, q.mask);
    vs := CheckAll(q, seqnums);
    if RunNear(service, [-1], ns, q.mask) && RunClear(service, [-1], ns, q.mask) {
      NewQueueAnswersFromHistory(service, ns, q.mask);
      forall i | 0 <= i < |ns| ensures Answered(service, ns, vs, i) {
        HistoryRunAt(service, {-1}, ns, i);
      }
    }
  }
}
