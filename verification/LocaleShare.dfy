/**
 Sharing of equal locale categories through common files (prepare_localedef.py), from category
 bodies that are already read: the table of hashed bodies, the decision what to share, and the two
 versions written for every locale.
 */
module LocaleShare {
  import opened Wrappers

  datatype Category = Ctype | Collate | Numeric | Monetary | Time | Messages

  const LCC: seq<Category> := [Ctype, Collate, Numeric, Monetary, Time, Messages]

  /** What is read from outside; `hash` is any function at all. */
  datatype Source = Source(cset: string -> string, body: (string, Category) -> string, hash: string -> string)

  /** One category of one locale. */
  datatype Part = Part(locale: string, lc: Category)

  function Body(s: Source, p: Part): string {
    s.body(p.locale, p.lc)
  }

  function Hash(s: Source, p: Part): string {
    s.hash(s.cset(p.locale) + Body(s, p))
  }

  datatype Info = Info(val: string, n: nat, cset: string)

  type Table = map<string, Info>

  /** One entry of the table, with both assertions of the source; `None` is an assertion that fires. */
  function Record(s: Source, data: Table, p: Part): (r: Option<Table>) {
    var h, cset, val := Hash(s, p), s.cset(p.locale), Body(s, p);
    if h !in data then Some(data[h := Info(val, 0, cset)])
    else if data[h].val != val then None
    else if data[h].cset != cset then None
    else Some(data[h := data[h].(n := data[h].n + 1)])
  }

  function RecordAll(s: Source, data: Table, ps: seq<Part>): (r: Option<Table>)
    decreases |ps|
  {
    if ps == [] then Some(data)
    else
      match Record(s, data, ps[0])
      case None => None
      case Some(d) => RecordAll(s, d, ps[1..])
  }

  function PartsOf(locale: string, lcs: seq<Category>): (r: seq<Part>) {
    if lcs == [] then [] else [Part(locale, lcs[0])] + PartsOf(locale, lcs[1..])
  }

  /** The categories of the locales in the order in which the loops meet them. */
  function Parts(locales: seq<string>): (r: seq<Part>) {
    if locales == [] then [] else PartsOf(locales[0], LCC) + Parts(locales[1..])
  }

  lemma PartsOfStep(locale: string, lcs: seq<Category>, j: nat, rest: seq<Part>)
    requires j < |lcs|
    ensures PartsOf(locale, lcs[j..]) + rest == [Part(locale, lcs[j])] + (PartsOf(locale, lcs[j + 1..]) + rest)
  {
    assert lcs[j..][1..] == lcs[j + 1..];
  }

  lemma PartsStep(locales: seq<string>, i: nat)
    requires i < |locales|
    ensures Parts(locales[i..]) == PartsOf(locales[i], LCC) + Parts(locales[i + 1..])
  {
    assert locales[i..][1..] == locales[i + 1..];
  }

  /** The inner loop of the first pass, over the categories of one locale. */
  method RecordLocale(s: Source, data: Table, locale: string, lcs: seq<Category>, ghost rest: seq<Part>)
    returns (r: Option<Table>)
    ensures RecordAll(s, data, PartsOf(locale, lcs) + rest) == if r.None? then None else RecordAll(s, r.value, rest)
  {
    var d := data;
    var j := 0;
    assert lcs[0..] == lcs;
    while j < |lcs|
      invariant 0 <= j <= |lcs|
      invariant RecordAll(s, d, PartsOf(locale, lcs[j..]) + rest) == RecordAll(s, data, PartsOf(locale, lcs) + rest)
    {
      PartsOfStep(locale, lcs, j, rest);
      RecordStep(s, d, Part(locale, lcs[j]), PartsOf(locale, lcs[j + 1..]) + rest);
      var next := Record(s, d, Part(locale, lcs[j]));
      if next.None? {
        return None;
      }
      d := next.value;
      j := j + 1;
    }
    assert [] + rest == rest;
    r := Some(d);
  }

  /** The first pass over all locales given. */
  method BuildTable(s: Source, locales: seq<string>) returns (data: Option<Table>)
    ensures data == RecordAll(s, map[], Parts(locales))
  {
    var d: Table := map[];
    var i := 0;
    assert locales[0..] == locales;
    while i < |locales|
      invariant 0 <= i <= |locales|
      invariant RecordAll(s, d, Parts(locales[i..])) == RecordAll(s, map[], Parts(locales))
    {
      PartsStep(locales, i);
      var r := RecordLocale(s, d, locales[i], LCC, Parts(locales[i + 1..]));
      if r.None? {
        return None;
      }
      d := r.value;
      i := i + 1;
    }
    data := Some(d);
  }

  lemma RecordStep(s: Source, data: Table, p: Part, ps: seq<Part>)
    ensures RecordAll(s, data, [p] + ps)
            == (match Record(s, data, p) case None => None case Some(d) => RecordAll(s, d, ps))
  {
    assert ([p] + ps)[1..] == ps;
  }

  // ---------------------------------------------------------------------------
  // What the table holds

  /** How many of the parts have hash `h`. */
  function Occurrences(s: Source, ps: seq<Part>, h: string): nat {
    if ps == [] then 0 else (if Hash(s, ps[0]) == h then 1 else 0) + Occurrences(s, ps[1..], h)
  }

  /** Entries never change their text or charset, and count every later part with their hash. */
  lemma {:induction false} RecordAllExtends(s: Source, data: Table, ps: seq<Part>, h: string)
    requires RecordAll(s, data, ps).Some? && h in data
    ensures var d := RecordAll(s, data, ps).value;
            h in d && d[h] == data[h].(n := data[h].n + Occurrences(s, ps, h))
    decreases |ps|
  {
    if ps != [] {
      RecordAllExtends(s, Record(s, data, ps[0]).value, ps[1..], h);
    }
  }

  /** If no assertion fires, every part finds its own text and charset under its hash, for any hash function. */
  lemma {:induction false} TableIsFaithful(s: Source, data: Table, ps: seq<Part>, i: nat)
    requires RecordAll(s, data, ps).Some? && i < |ps|
    ensures var d := RecordAll(s, data, ps).value; var h := Hash(s, ps[i]);
            h in d && d[h].val == Body(s, ps[i]) && d[h].cset == s.cset(ps[i].locale)
    decreases |ps|
  {
    var d := Record(s, data, ps[0]).value;
    if i > 0 {
      TableIsFaithful(s, d, ps[1..], i - 1);
    } else {
      RecordAllExtends(s, d, ps[1..], Hash(s, ps[0]));
    }
  }

  /** One hash stands for one text in one charset. */
  ghost predicate Agree(s: Source, p: Part, q: Part) {
    Hash(s, p) == Hash(s, q) ==> Body(s, p) == Body(s, q) && s.cset(p.locale) == s.cset(q.locale)
  }

  ghost predicate Consistent(s: Source, ps: seq<Part>) {
    forall i, j :: 0 <= i < |ps| && 0 <= j < |ps| ==> Agree(s, ps[i], ps[j])
  }

  /** What the table holds under the hash of a part is what the part has. */
  ghost predicate Fits(s: Source, data: Table, p: Part) {
    var h := Hash(s, p);
    h in data ==> data[h].val == Body(s, p) && data[h].cset == s.cset(p.locale)
  }

  lemma RecordFits(s: Source, data: Table, p: Part, q: Part)
    requires Fits(s, data, p) && Fits(s, data, q) && Agree(s, p, q)
    ensures Record(s, data, p).Some? && Fits(s, Record(s, data, p).value, q)
  {
  }

  lemma {:induction false} ConsistentPasses(s: Source, data: Table, ps: seq<Part>)
    requires Consistent(s, ps) && forall i :: 0 <= i < |ps| ==> Fits(s, data, ps[i])
    ensures RecordAll(s, data, ps).Some?
    decreases |ps|
  {
    if ps != [] {
      assert Agree(s, ps[0], ps[0]);
      RecordFits(s, data, ps[0], ps[0]);
      var rest, d := ps[1..], Record(s, data, ps[0]).value;
      forall i | 0 <= i < |rest| ensures Fits(s, d, rest[i]) {
        assert rest[i] == ps[i + 1] && Agree(s, ps[0], ps[i + 1]);
        RecordFits(s, data, ps[0], rest[i]);
      }
      forall i, j | 0 <= i < |rest| && 0 <= j < |rest| ensures Agree(s, rest[i], rest[j]) {
        assert Agree(s, ps[i + 1], ps[j + 1]);
      }
      ConsistentPasses(s, d, rest);
    }
  }

  /** No assertion fires exactly when parts with one hash have one text and one charset. */
  lemma NoAssertionFiresExactly(s: Source, ps: seq<Part>)
    ensures RecordAll(s, map[], ps).Some? <==> Consistent(s, ps)
  {
    if RecordAll(s, map[], ps).Some? {
      forall i, j | 0 <= i < |ps| && 0 <= j < |ps| ensures Agree(s, ps[i], ps[j]) {
        TableIsFaithful(s, map[], ps, i);
        TableIsFaithful(s, map[], ps, j);
      }
    } else if Consistent(s, ps) {
      ConsistentPasses(s, map[], ps);
    }
  }

  /** The count is the number of parts with that hash, less one. */
  lemma {:induction false} TableCounts(s: Source, data: Table, ps: seq<Part>, h: string)
    requires RecordAll(s, data, ps).Some? && h !in data && Occurrences(s, ps, h) > 0
    ensures var d := RecordAll(s, data, ps).value; h in d && d[h].n == Occurrences(s, ps, h) - 1
    decreases |ps|
  {
    var d := Record(s, data, ps[0]).value;
    if Hash(s, ps[0]) == h {
      RecordAllExtends(s, d, ps[1..], h);
    } else {
      TableCounts(s, d, ps[1..], h);
    }
  }

  // ---------------------------------------------------------------------------
  // What is written

  predicate Standalone(locale: string) {
    locale == "en_US.UTF-8" || locale == "C.UTF-8"
  }

  /** Shared: met more than once, in UTF-8, one of the two big categories, and not a standalone locale. */
  predicate IsPoint(s: Source, data: Table, p: Part) {
    var h := Hash(s, p);
    && h in data
    && data[h].n > 0
    && data[h].cset == "UTF-8"
    && (p.lc.Ctype? || p.lc.Collate?)
    && !Standalone(p.locale)
  }

  /** A common file, named by category and hash. */
  datatype File = File(lc: Category, h: string)

  datatype Common = Common(file: File, text: string)

  datatype Output = Inline(text: string) | Point(file: File)

  function Written(s: Source, data: Table, p: Part): (r: Output) {
    var h := Hash(s, p);
    if h !in data || IsPoint(s, data, p) then Point(File(p.lc, h)) else Inline(data[h].val)
  }

  /** The hash of a part that makes a common file be written: pointed to, and not before. */
  predicate Opens(s: Source, data: Table, p: Part, done: seq<string>) {
    IsPoint(s, data, p) && Hash(s, p) !in done
  }

  /** The common files in the order they are written: each hash only the first time it is pointed to. */
  function Files(s: Source, data: Table, ps: seq<Part>, done: seq<string>): (r: seq<Common>)
    decreases |ps|
  {
    if ps == [] then []
    else
      var p, h := ps[0], Hash(s, ps[0]);
      if Opens(s, data, p, done) then
        [Common(File(p.lc, h), data[h].val)] + Files(s, data, ps[1..], done + [h])
      else Files(s, data, ps[1..], done)
  }

  function Outputs(s: Source, data: Table, ps: seq<Part>): (r: seq<Output>)
    ensures |r| == |ps|
  {
    if ps == [] then [] else [Written(s, data, ps[0])] + Outputs(s, data, ps[1..])
  }

  lemma {:induction false} OutputsAt(s: Source, data: Table, ps: seq<Part>, i: nat)
    requires i < |ps|
    ensures Outputs(s, data, ps)[i] == Written(s, data, ps[i])
  {
    if i > 0 {
      OutputsAt(s, data, ps[1..], i - 1);
    }
  }

  /** What the last pass has written so far, and which hashes it has been through. */
  datatype Progress = Progress(outs: seq<Output>, files: seq<Common>, done: seq<string>)

  ghost predicate OnTrack(s: Source, data: Table, g: Progress, rest: seq<Part>, ps: seq<Part>) {
    && g.outs + Outputs(s, data, rest) == Outputs(s, data, ps)
    && g.files + Files(s, data, rest, g.done) == Files(s, data, ps, [])
  }

  method WritePart(s: Source, data: Table, g: Progress, p: Part, ghost rest: seq<Part>, ghost ps: seq<Part>)
    returns (r: Progress)
    requires OnTrack(s, data, g, [p] + rest, ps)
    ensures OnTrack(s, data, r, rest, ps)
  {
    var h := Hash(s, p);
    var isPoint := IsPoint(s, data, p);
    assert ([p] + rest)[1..] == rest;
    r := g.(outs := g.outs + [if h !in data || isPoint then Point(File(p.lc, h)) else Inline(data[h].val)]);
    assert g.outs + ([Written(s, data, p)] + Outputs(s, data, rest)) == r.outs + Outputs(s, data, rest);
    if isPoint && h !in g.done {
      var common := Common(File(p.lc, h), data[h].val);
      r := r.(files := g.files + [common], done := g.done + [h]);
      assert g.files + ([common] + Files(s, data, rest, r.done)) == r.files + Files(s, data, rest, r.done);
    }
  }

  /** The inner loop of the last pass, over the categories of one locale. */
  method WriteLocale(s: Source, data: Table, g0: Progress, locale: string, lcs: seq<Category>,
                     ghost rest: seq<Part>, ghost ps: seq<Part>)
    returns (g: Progress)
    requires OnTrack(s, data, g0, PartsOf(locale, lcs) + rest, ps)
    ensures OnTrack(s, data, g, rest, ps)
  {
    g := g0;
    var j := 0;
    assert lcs[0..] == lcs;
    while j < |lcs|
      invariant 0 <= j <= |lcs|
      invariant OnTrack(s, data, g, PartsOf(locale, lcs[j..]) + rest, ps)
    {
      PartsOfStep(locale, lcs, j, rest);
      g := WritePart(s, data, g, Part(locale, lcs[j]), PartsOf(locale, lcs[j + 1..]) + rest, ps);
      j := j + 1;
    }
    assert [] + rest == rest;
  }

  /** The last pass over all locales. */
  method Emit(s: Source, data: Table, locales: seq<string>) returns (outs: seq<Output>, files: seq<Common>)
    ensures outs == Outputs(s, data, Parts(locales))
    ensures files == Files(s, data, Parts(locales), [])
  {
    ghost var ps := Parts(locales);
    var g := Progress([], [], []);
    var i := 0;
    assert locales[0..] == locales;
    while i < |locales|
      invariant 0 <= i <= |locales|
      invariant OnTrack(s, data, g, Parts(locales[i..]), ps)
    {
      PartsStep(locales, i);
      g := WriteLocale(s, data, g, locales[i], LCC, Parts(locales[i + 1..]), ps);
      i := i + 1;
    }
    outs, files := g.outs, g.files;
    assert outs + [] == outs && files + [] == files;
  }

  // ---------------------------------------------------------------------------
  // Every point resolves, exactly when no text is shared across the two categories

  lemma {:induction false} FilesArePointedTo(s: Source, data: Table, ps: seq<Part>, done: seq<string>, c: Common)
    returns (i: nat)
    requires c in Files(s, data, ps, done)
    ensures c.file.h !in done
    ensures i < |ps| && IsPoint(s, data, ps[i])
    ensures c == Common(File(ps[i].lc, Hash(s, ps[i])), data[Hash(s, ps[i])].val)
    decreases |ps|
  {
    var p, h := ps[0], Hash(s, ps[0]);
    if Opens(s, data, p, done) {
      if c == Common(File(p.lc, h), data[h].val) {
        i := 0;
      } else {
        i := FilesArePointedTo(s, data, ps[1..], done + [h], c);
        i := i + 1;
      }
    } else {
      i := FilesArePointedTo(s, data, ps[1..], done, c);
      i := i + 1;
    }
  }

  /** No file is written twice, and no two files share a hash. */
  lemma {:induction false} FilesAreDistinct(s: Source, data: Table, ps: seq<Part>, done: seq<string>, i: nat, j: nat)
    requires i < j < |Files(s, data, ps, done)|
    ensures Files(s, data, ps, done)[i].file.h != Files(s, data, ps, done)[j].file.h
    decreases |ps|
  {
    var p, h := ps[0], Hash(s, ps[0]);
    if Opens(s, data, p, done) {
      var rest := Files(s, data, ps[1..], done + [h]);
      if i > 0 {
        FilesAreDistinct(s, data, ps[1..], done + [h], i - 1, j - 1);
      } else {
        var k := FilesArePointedTo(s, data, ps[1..], done + [h], rest[j - 1]);
      }
    } else {
      FilesAreDistinct(s, data, ps[1..], done, i, j);
    }
  }

  /** For every hash that is pointed to, a file of some category is written. */
  lemma {:induction false} SomeFileIsWritten(s: Source, data: Table, ps: seq<Part>, done: seq<string>, i: nat)
    requires i < |ps| && IsPoint(s, data, ps[i]) && Hash(s, ps[i]) !in done
    ensures exists c :: c in Files(s, data, ps, done) && c.file.h == Hash(s, ps[i])
    decreases |ps|
  {
    var p, h := ps[0], Hash(s, ps[0]);
    if Opens(s, data, p, done) {
      if h == Hash(s, ps[i]) {
        assert Common(File(p.lc, h), data[h].val) in Files(s, data, ps, done);
      } else {
        SomeFileIsWritten(s, data, ps[1..], done + [h], i - 1);
      }
    } else {
      SomeFileIsWritten(s, data, ps[1..], done, i - 1);
    }
  }

  /** The category text a reader gets: inline, or out of the common file of that name. */
  ghost predicate ReadsAs(files: seq<Common>, o: Output, text: string) {
    match o
    case Inline(t) => t == text
    case Point(f) => Common(f, text) in files
  }

  /** The same hash is pointed to under one category only. */
  ghost predicate OneCategoryPerHash(s: Source, data: Table, ps: seq<Part>) {
    forall i, j :: 0 <= i < |ps| && 0 <= j < |ps| ==> SameCategory(s, data, ps[i], ps[j])
  }

  ghost predicate SameCategory(s: Source, data: Table, p: Part, q: Part) {
    IsPoint(s, data, p) && IsPoint(s, data, q) && Hash(s, p) == Hash(s, q) ==> p.lc == q.lc
  }

  /** Every category written reads as its own text. */
  ghost predicate ReadBack(s: Source, ps: seq<Part>, outs: seq<Output>, files: seq<Common>) {
    |outs| == |ps| && forall i :: 0 <= i < |ps| ==> ReadsAs(files, outs[i], Body(s, ps[i]))
  }

  /** Every category of every locale reads as its own text. */
  ghost predicate EveryPartReadsBack(s: Source, data: Table, ps: seq<Part>) {
    forall i :: 0 <= i < |ps| ==>
      ReadsAs(Files(s, data, ps, []), Written(s, data, ps[i]), Body(s, ps[i]))
  }

  lemma OutputsReadBack(s: Source, data: Table, ps: seq<Part>)
    ensures ReadBack(s, ps, Outputs(s, data, ps), Files(s, data, ps, [])) <==> EveryPartReadsBack(s, data, ps)
  {
    forall i | 0 <= i < |ps| ensures Outputs(s, data, ps)[i] == Written(s, data, ps[i]) {
      OutputsAt(s, data, ps, i);
    }
  }

  /** Every part finds its text and charset in the table. */
  ghost predicate Faithful(s: Source, data: Table, ps: seq<Part>) {
    forall i :: 0 <= i < |ps| ==> Found(s, data, ps[i])
  }

  ghost predicate Found(s: Source, data: Table, p: Part) {
    var h := Hash(s, p);
    h in data && data[h].val == Body(s, p) && data[h].cset == s.cset(p.locale)
  }

  lemma OneFilePerHash(s: Source, data: Table, ps: seq<Part>, c: Common, d: Common)
    requires c in Files(s, data, ps, []) && d in Files(s, data, ps, []) && c.file.h == d.file.h
    ensures c == d
  {
    var files := Files(s, data, ps, []);
    var i :| 0 <= i < |files| && files[i] == c;
    var j :| 0 <= j < |files| && files[j] == d;
    if i < j {
      FilesAreDistinct(s, data, ps, [], i, j);
    } else if j < i {
      FilesAreDistinct(s, data, ps, [], j, i);
    }
  }

  lemma PartReadsBack(s: Source, data: Table, ps: seq<Part>, i: nat)
    requires Faithful(s, data, ps) && OneCategoryPerHash(s, data, ps) && i < |ps|
    ensures ReadsAs(Files(s, data, ps, []), Written(s, data, ps[i]), Body(s, ps[i]))
  {
    assert Found(s, data, ps[i]);
    if IsPoint(s, data, ps[i]) {
      SomeFileIsWritten(s, data, ps, [], i);
      var c :| c in Files(s, data, ps, []) && c.file.h == Hash(s, ps[i]);
      var j := FilesArePointedTo(s, data, ps, [], c);
      assert SameCategory(s, data, ps[i], ps[j]);
    }
  }

  /**
   With a faithful table, every category of every locale reads back as its own text exactly when no
   hash is pointed to under both LC_CTYPE and LC_COLLATE.
   */
  lemma ReadsBackExactly(s: Source, data: Table, ps: seq<Part>)
    requires Faithful(s, data, ps)
    ensures EveryPartReadsBack(s, data, ps) <==> OneCategoryPerHash(s, data, ps)
  {
    if OneCategoryPerHash(s, data, ps) {
      forall i | 0 <= i < |ps| ensures ReadsAs(Files(s, data, ps, []), Written(s, data, ps[i]), Body(s, ps[i])) {
        PartReadsBack(s, data, ps, i);
      }
    }
    if EveryPartReadsBack(s, data, ps) {
      forall i, j | 0 <= i < |ps| && 0 <= j < |ps| ensures SameCategory(s, data, ps[i], ps[j]) {
        if IsPoint(s, data, ps[i]) && IsPoint(s, data, ps[j]) && Hash(s, ps[i]) == Hash(s, ps[j]) {
          OneFilePerHash(s, data, ps,
                         Common(File(ps[i].lc, Hash(s, ps[i])), Body(s, ps[i])),
                         Common(File(ps[j].lc, Hash(s, ps[j])), Body(s, ps[j])));
        }
      }
    }
  }

  // ---------------------------------------------------------------------------
  // From the command line to the files

  /** The keys of the dictionary of locales: every name once, where it was first given. */
  function Distinct(locales: seq<string>): (r: seq<string>) {
    if locales == [] then []
    else
      var most := Distinct(locales[..|locales| - 1]);
      var last := locales[|locales| - 1];
      if last in most then most else most + [last]
  }

  lemma {:induction false} DistinctAreGiven(locales: seq<string>, name: string)
    ensures name in Distinct(locales) <==> name in locales
  {
    if locales != [] {
      var k := |locales| - 1;
      DistinctAreGiven(locales[..k], name);
      assert locales == locales[..k] + [locales[k]];
    }
  }

  /** No name comes twice. */
  lemma {:induction false} DistinctDiffer(locales: seq<string>, i: nat, j: nat)
    requires i < j < |Distinct(locales)|
    ensures Distinct(locales)[i] != Distinct(locales)[j]
  {
    var k := |locales| - 1;
    if j < |Distinct(locales[..k])| {
      DistinctDiffer(locales[..k], i, j);
    }
  }

  /** The names given so far are in front of those given later. */
  lemma {:induction false} DistinctGrows(locales: seq<string>, k: nat)
    requires k <= |locales|
    ensures Distinct(locales[..k]) <= Distinct(locales)
    decreases |locales|
  {
    if k == |locales| {
      assert locales[..k] == locales;
    } else {
      var most := locales[..|locales| - 1];
      DistinctGrows(most, k);
      assert most[..k] == locales[..k];
    }
  }

  lemma EveryCategoryIsListed(lc: Category)
    ensures lc in LCC
  {
    match lc
    case Ctype => assert LCC[0] == lc;
    case Collate => assert LCC[1] == lc;
    case Numeric => assert LCC[2] == lc;
    case Monetary => assert LCC[3] == lc;
    case Time => assert LCC[4] == lc;
    case Messages => assert LCC[5] == lc;
  }

  lemma {:induction false} PartsOfOne(locale: string, lcs: seq<Category>, p: Part)
    ensures p in PartsOf(locale, lcs) <==> p.locale == locale && p.lc in lcs
  {
    if lcs != [] {
      PartsOfOne(locale, lcs[1..], p);
    }
  }

  lemma {:induction false} PartsAreComplete(locales: seq<string>, p: Part)
    ensures p in Parts(locales) <==> p.locale in locales
  {
    if locales != [] {
      PartsAreComplete(locales[1..], p);
      PartsOfOne(locales[0], LCC, p);
      EveryCategoryIsListed(p.lc);
    }
  }

  /** The parts that may be shared: the two big categories of UTF-8 locales that are not standalone. */
  predicate Shareable(s: Source, p: Part) {
    s.cset(p.locale) == "UTF-8" && (p.lc.Ctype? || p.lc.Collate?) && !Standalone(p.locale)
  }

  /** Some shareable LC_CTYPE text is also a shareable LC_COLLATE text. */
  ghost predicate TextInBoth(s: Source, ps: seq<Part>) {
    exists p, q :: p in ps && q in ps && Clash(s, p, q)
  }

  ghost predicate Clash(s: Source, p: Part, q: Part) {
    Shareable(s, p) && Shareable(s, q) && p.lc != q.lc && Body(s, p) == Body(s, q)
  }

  /** The parts written are among the parts recorded. */
  lemma WrittenWereRecorded(locales: seq<string>, q: Part)
    requires q in Parts(Distinct(locales))
    ensures q in Parts(locales)
  {
    PartsAreComplete(Distinct(locales), q);
    DistinctAreGiven(locales, q.locale);
    PartsAreComplete(locales, q);
  }

  lemma TableServesAll(s: Source, locales: seq<string>)
    requires RecordAll(s, map[], Parts(locales)).Some?
    ensures Faithful(s, RecordAll(s, map[], Parts(locales)).value, Parts(Distinct(locales)))
  {
    var ps, qs := Parts(locales), Parts(Distinct(locales));
    var data := RecordAll(s, map[], ps).value;
    forall i | 0 <= i < |qs| ensures Found(s, data, qs[i]) {
      assert qs[i] in qs;
      WrittenWereRecorded(locales, qs[i]);
      var j :| 0 <= j < |ps| && ps[j] == qs[i];
      TableIsFaithful(s, map[], ps, j);
    }
  }

  lemma {:induction false} OccursOnce(s: Source, ps: seq<Part>, p: Part)
    requires p in ps
    ensures Occurrences(s, ps, Hash(s, p)) >= 1
  {
    if p != ps[0] {
      OccursOnce(s, ps[1..], p);
    }
  }

  lemma {:induction false} OccursTwice(s: Source, ps: seq<Part>, p: Part, q: Part)
    requires p in ps && q in ps && p != q && Hash(s, p) == Hash(s, q)
    ensures Occurrences(s, ps, Hash(s, p)) >= 2
  {
    if p == ps[0] {
      OccursOnce(s, ps[1..], q);
    } else if q == ps[0] {
      OccursOnce(s, ps[1..], p);
    } else {
      OccursTwice(s, ps[1..], p, q);
    }
  }

  /** Two shareable parts with the same text but different categories are both pointed to. */
  lemma ClashMakesPoints(s: Source, locales: seq<string>, p: Part, q: Part)
    requires RecordAll(s, map[], Parts(locales)).Some?
    requires p in Parts(Distinct(locales)) && q in Parts(Distinct(locales)) && Clash(s, p, q)
    ensures var data := RecordAll(s, map[], Parts(locales)).value;
            IsPoint(s, data, p) && IsPoint(s, data, q) && Hash(s, p) == Hash(s, q)
  {
    var ps, qs := Parts(locales), Parts(Distinct(locales));
    var data := RecordAll(s, map[], ps).value;
    WrittenWereRecorded(locales, p);
    WrittenWereRecorded(locales, q);
    OccursTwice(s, ps, p, q);
    TableCounts(s, map[], ps, Hash(s, p));
    TableServesAll(s, locales);
    var i :| 0 <= i < |qs| && qs[i] == p;
    assert Found(s, data, qs[i]);
  }

  /** Points with one hash and two categories are two shareable parts with one text. */
  lemma ClashIsNeeded(s: Source, data: Table, ps: seq<Part>)
    requires Faithful(s, data, ps) && !TextInBoth(s, ps)
    ensures OneCategoryPerHash(s, data, ps)
  {
    forall i, j | 0 <= i < |ps| && 0 <= j < |ps| ensures SameCategory(s, data, ps[i], ps[j]) {
      assert Found(s, data, ps[i]) && Found(s, data, ps[j]);
      assert ps[i] in ps && ps[j] in ps && !Clash(s, ps[i], ps[j]);
    }
  }

  /**
   For any hash function and any list of locales on which no assertion fires: every locale reads back
   all its categories through the common files exactly when no shareable LC_CTYPE text is also a
   shareable LC_COLLATE text.
   */
  lemma SharingKeepsEveryLocaleExactly(s: Source, locales: seq<string>)
    requires RecordAll(s, map[], Parts(locales)).Some?
    ensures var data, qs := RecordAll(s, map[], Parts(locales)).value, Parts(Distinct(locales));
            EveryPartReadsBack(s, data, qs) <==> !TextInBoth(s, qs)
  {
    var data, qs := RecordAll(s, map[], Parts(locales)).value, Parts(Distinct(locales));
    TableServesAll(s, locales);
    ReadsBackExactly(s, data, qs);
    if TextInBoth(s, qs) {
      var p, q :| p in qs && q in qs && Clash(s, p, q);
      ClashMakesPoints(s, locales, p, q);
      var i :| 0 <= i < |qs| && qs[i] == p;
      var j :| 0 <= j < |qs| && qs[j] == q;
      assert !SameCategory(s, data, qs[i], qs[j]);
    } else {
      ClashIsNeeded(s, data, qs);
    }
  }

  /**
   The whole script: it comes to its files exactly when parts with one hash have one text and one charset;
   and these files give every locale back exactly when no shareable LC_CTYPE text is also a shareable
   LC_COLLATE text.
   */
  method Prepare(s: Source, locales: seq<string>) returns (r: Option<(seq<Output>, seq<Common>)>)
    ensures r.Some? <==> Consistent(s, Parts(locales))
    ensures r.Some? ==>
              var qs := Parts(Distinct(locales));
              ReadBack(s, qs, r.value.0, r.value.1) <==> !TextInBoth(s, qs)
  {
    NoAssertionFiresExactly(s, Parts(locales));
    var data := BuildTable(s, locales);
    if data.None? {
      return None;
    }
    var outs, files := Emit(s, data.value, Distinct(locales));
    SharingKeepsEveryLocaleExactly(s, locales);
    OutputsReadBack(s, data.value, Parts(Distinct(locales)));
    r := Some((outs, files));
  }

  // ---------------------------------------------------------------------------
  // What is shared

  /** Two places among the parts have one hash. */
  ghost predicate Recurs(s: Source, ps: seq<Part>, h: string) {
    exists i, j :: 0 <= i < j < |ps| && Hash(s, ps[i]) == h && Hash(s, ps[j]) == h
  }

  lemma {:induction false} OccursAt(s: Source, ps: seq<Part>, h: string, i: nat)
    requires i < |ps| && Hash(s, ps[i]) == h
    ensures Occurrences(s, ps, h) >= 1
  {
    if i > 0 {
      OccursAt(s, ps[1..], h, i - 1);
    }
  }

  lemma {:induction false} OccursSomewhere(s: Source, ps: seq<Part>, h: string) returns (i: nat)
    requires Occurrences(s, ps, h) >= 1
    ensures i < |ps| && Hash(s, ps[i]) == h
  {
    if Hash(s, ps[0]) == h {
      i := 0;
    } else {
      i := OccursSomewhere(s, ps[1..], h);
      i := i + 1;
    }
  }

  lemma {:induction false} RecursExactly(s: Source, ps: seq<Part>, h: string)
    ensures Occurrences(s, ps, h) >= 2 <==> Recurs(s, ps, h)
  {
    if ps != [] {
      var rest := ps[1..];
      RecursExactly(s, rest, h);
      if i, j :| 0 <= i < j < |ps| && Hash(s, ps[i]) == h && Hash(s, ps[j]) == h {
        assert rest[j - 1] == ps[j];
        if i == 0 {
          OccursAt(s, rest, h, j - 1);
        } else {
          assert rest[i - 1] == ps[i];
        }
      }
      if Occurrences(s, ps, h) >= 2 {
        if Hash(s, ps[0]) == h {
          var j := OccursSomewhere(s, rest, h);
          assert ps[j + 1] == rest[j];
        } else {
          var i, j :| 0 <= i < j < |rest| && Hash(s, rest[i]) == h && Hash(s, rest[j]) == h;
          assert ps[i + 1] == rest[i] && ps[j + 1] == rest[j];
        }
      }
    }
  }

  /**
   If no assertion fires: a category is written as a reference to a common file, named by category and hash,
   exactly when its charset and text, hashed together, came up more than once, it is LC_CTYPE or LC_COLLATE of a
   UTF-8 locale, and the locale is neither of the two standalone ones. Otherwise the text itself is written.
   */
  lemma PointsExactly(s: Source, locales: seq<string>, p: Part)
    requires RecordAll(s, map[], Parts(locales)).Some? && p in Parts(locales)
    ensures var data, h := RecordAll(s, map[], Parts(locales)).value, s.hash(s.cset(p.locale) + s.body(p.locale, p.lc));
            Written(s, data, p) ==
            if && Recurs(s, Parts(locales), h) && s.cset(p.locale) == "UTF-8" && (p.lc == Ctype || p.lc == Collate)
               && p.locale != "en_US.UTF-8" && p.locale != "C.UTF-8"
            then Point(File(p.lc, h)) else Inline(s.body(p.locale, p.lc))
  {
    var ps, h := Parts(locales), Hash(s, p);
    var i :| 0 <= i < |ps| && ps[i] == p;
    TableIsFaithful(s, map[], ps, i);
    OccursAt(s, ps, h, i);
    TableCounts(s, map[], ps, h);
    RecursExactly(s, ps, h);
  }

  /** The categories of a locale in the order of the source. */
  lemma PartsInOrder(locale: string)
    ensures Parts([locale]) == [Part(locale, Ctype), Part(locale, Collate), Part(locale, Numeric),
                                Part(locale, Monetary), Part(locale, Time), Part(locale, Messages)]
  {
    var lcs := LCC;
    assert [locale][1..] == [];
    SixParts(locale, lcs);
    assert PartsOf(locale, LCC) + [] == PartsOf(locale, LCC);
  }

  lemma SixParts(locale: string, lcs: seq<Category>)
    requires |lcs| == 6
    ensures PartsOf(locale, lcs) == [Part(locale, lcs[0]), Part(locale, lcs[1]), Part(locale, lcs[2]),
                                     Part(locale, lcs[3]), Part(locale, lcs[4]), Part(locale, lcs[5])]
  {
    PartsOfAt(locale, lcs, 0);
    PartsOfAt(locale, lcs, 1);
    PartsOfAt(locale, lcs, 2);
    PartsOfAt(locale, lcs, 3);
    PartsOfAt(locale, lcs, 4);
    PartsOfAt(locale, lcs, 5);
  }

  lemma {:induction false} PartsOfAt(locale: string, lcs: seq<Category>, i: nat)
    requires i < |lcs|
    ensures |PartsOf(locale, lcs)| == |lcs| && PartsOf(locale, lcs)[i] == Part(locale, lcs[i])
  {
    if |lcs| > 1 {
      PartsOfAt(locale, lcs[1..], if i == 0 then 0 else i - 1);
    }
  }

  // ---------------------------------------------------------------------------
  // A text in both categories does occur

  /** One locale with one text for both categories, and no other clash of hashes: it does not read back. */
  lemma OneTextForBothIsLost(s: Source, locale: string)
    requires s.cset(locale) == "UTF-8" && !Standalone(locale)
    requires s.body(locale, Ctype) == s.body(locale, Collate)
    requires Consistent(s, Parts([locale]))
    ensures RecordAll(s, map[], Parts([locale])).Some?
    ensures var data, qs := RecordAll(s, map[], Parts([locale])).value, Parts(Distinct([locale]));
            !EveryPartReadsBack(s, data, qs)
  {
    var p, q := Part(locale, Ctype), Part(locale, Collate);
    NoAssertionFiresExactly(s, Parts([locale]));
    assert [locale][..0] == [] && Distinct([locale]) == [locale];
    PartsAreComplete([locale], p);
    PartsAreComplete([locale], q);
    assert Clash(s, p, q);
    SharingKeepsEveryLocaleExactly(s, [locale]);
  }
}
