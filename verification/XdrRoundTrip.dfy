/** What a packed value unpacks to, and exactly when packing succeeds. */
module XdrRoundTrip {
  import opened Words
  import opened Wrappers
  import opened Xdr

  /** `bytes` stand in `buf` at `pos`. */
  ghost predicate At(buf: seq<Byte>, pos: nat, bytes: seq<Byte>) {
    pos + |bytes| <= |buf| && buf[pos..pos + |bytes|] == bytes
  }

  lemma AtSplit(buf: seq<Byte>, pos: nat, a: seq<Byte>, b: seq<Byte>)
    requires At(buf, pos, a + b)
    ensures At(buf, pos, a) && At(buf, pos + |a|, b)
  {
    var c := a + b;
    assert a == c[..|a|] && b == c[|a|..];
  }

  /** What comes back: hypers reduced modulo 2^64, fixed strings cut or zero-filled to their size. */
  function CanonScalar(k: Kind, v: Value): (r: Value) {
    match (k, v)
    case (UHyper, Num(n)) => Num(n % TWO64)
    case (Hyper, Num(n)) => Num(Signed(n % TWO64, TWO64))
    case (FString(n), Bytes(s)) => if n < 0 then v else Bytes(Fit(s, n))
    case _ => v
  }

  function MapAll(f: Value -> Value, vs: seq<Value>): (rs: seq<Value>)
    ensures |rs| == |vs|
  {
    if vs == [] then [] else [f(vs[0])] + MapAll(f, vs[1..])
  }

  function Canon(t: Type, v: Value): (r: Value)
    decreases t, 0
  {
    if t.Scalar? then CanonScalar(t.kind, v)
    else if v.Items? then Items(MapAll(Canoner(t.item), v.vs))
    else v
  }

  function Canoner(t: Type): (f: Value -> Value)
    decreases t, 1
  {
    v => Canon(t, v)
  }

  lemma UintAt(x: int, buf: seq<Byte>, pos: nat)
    requires PackUint(x).Ok() && At(buf, pos, PackUint(x).bytes)
    ensures UnpackUint(buf, pos) == Got(x, pos + 4)
  {
    WordPower();
    NumberOfDigits(x, WORD_SIZE);
  }

  lemma HyperHalves(x: int)
    ensures x / TWO32 % TWO32 * TWO32 + x % TWO32 == x % TWO64
  {
  }

  lemma NumberAppend(w: seq<Byte>, d: Byte)
    ensures Number(w + [d]) == Number(w) * 0x100 + d
  {
    assert (w + [d])[..|w|] == w;
  }

  lemma ShiftOut(a: nat, p: nat, b: nat, d: nat)
    ensures (a * p + b) * 0x100 + d == a * (p * 0x100) + (b * 0x100 + d)
  {
    assert a * p * 0x100 == a * (p * 0x100);
  }

  lemma {:induction false} NumberOfParts(a: seq<Byte>, b: seq<Byte>)
    ensures Number(a + b) == Number(a) * ByteRange(|b|) + Number(b)
  {
    if b == [] {
      assert a + b == a;
    } else {
      var k := |b| - 1;
      NumberOfParts(a, b[..k]);
      NumberAppend(a + b[..k], b[k]);
      assert a + b == (a + b[..k]) + [b[k]];
      ShiftOut(Number(a), ByteRange(k), Number(b[..k]), b[k]);
    }
  }

  /** The two words of a hyper are the eight bytes of the number modulo 2^64, big end first. */
  lemma UhyperIsBigEndian(x: int)
    ensures PackUhyper(x) == Packed(Digits(x % TWO64, 8), None)
  {
    var hi, lo := x / TWO32 % TWO32, x % TWO32;
    HyperHalves(x);
    WordPower();
    NumberOfDigits(hi, WORD_SIZE);
    NumberOfDigits(lo, WORD_SIZE);
    NumberOfParts(Word(hi), Word(lo));
    DigitsOfNumber(Word(hi) + Word(lo));
  }

  lemma UhyperAt(x: int, buf: seq<Byte>, pos: nat)
    requires At(buf, pos, PackUhyper(x).bytes)
    ensures UnpackUhyper(buf, pos) == Got(x % TWO64, pos + 8)
  {
    var hi, lo := x / TWO32 % TWO32, x % TWO32;
    ThenAt(PackUint(hi), PackUint(lo), buf, pos);
    UintAt(hi, buf, pos);
    UintAt(lo, buf, pos + 4);
    HyperHalves(x);
  }

  lemma FstringAt(n: int, s: seq<Byte>, buf: seq<Byte>, pos: nat)
    requires n >= 0 && At(buf, pos, PackFstring(n, s).bytes)
    ensures UnpackFstring(n, buf, pos) == Got(Bytes(Fit(s, n)), pos + |PackFstring(n, s).bytes|)
  {
    var bytes := PackFstring(n, s).bytes;
    assert buf[pos..pos + n] == buf[pos..pos + |bytes|][..n] == bytes[..n];
    assert bytes[..n] == Fit(s, n);
  }

  lemma StringAt(s: seq<Byte>, buf: seq<Byte>, pos: nat)
    requires var p := PackScalar(String, Bytes(s)); p.Ok() && At(buf, pos, p.bytes)
    ensures UnpackScalar(String, buf, pos) == Got(Bytes(s), pos + |PackScalar(String, Bytes(s)).bytes|)
  {
    ThenAt(PackUint(|s|), PackFstring(|s|, s), buf, pos);
    UintAt(|s|, buf, pos);
    FstringAt(|s|, s, buf, pos + 4);
    assert Fit(s, |s|) == s;
  }

  lemma IntAt(n: int, buf: seq<Byte>, pos: nat)
    requires var p := PackScalar(Int, Num(n)); p.Ok() && At(buf, pos, p.bytes)
    ensures UnpackScalar(Int, buf, pos) == Got(Num(n), pos + 4)
  {
    UintAt(n % TWO32, buf, pos);
    assert Signed(n % TWO32, TWO32) == n;
  }

  lemma RoundTripScalar(k: Kind, v: Value, buf: seq<Byte>, pos: nat)
    requires PackScalar(k, v).Ok()
    requires At(buf, pos, PackScalar(k, v).bytes)
    ensures UnpackScalar(k, buf, pos) == Got(CanonScalar(k, v), pos + |PackScalar(k, v).bytes|)
  {
    match (k, v)
    case (UInt, Num(n)) => UintAt(n, buf, pos);
    case (Int, Num(n)) => IntAt(n, buf, pos);
    case (Bool, Flag(b)) => UintAt(if b then 1 else 0, buf, pos);
    case (UHyper, Num(n)) => UhyperAt(n, buf, pos);
    case (Hyper, Num(n)) => UhyperAt(n, buf, pos);
    case (FString(n), Bytes(s)) => FstringAt(n, s, buf, pos);
    case (String, Bytes(s)) => StringAt(s, buf, pos);
    case _ =>
  }

  /** Two calls that both wrote at `pos`: the first there, the second right behind. */
  lemma ThenAt(p: Packed, q: Packed, buf: seq<Byte>, pos: nat)
    requires Then(p, q).Ok() && At(buf, pos, Then(p, q).bytes)
    ensures p.Ok() && q.Ok()
    ensures At(buf, pos, p.bytes) && At(buf, pos + |p.bytes|, q.bytes)
    ensures |Then(p, q).bytes| == |p.bytes| + |q.bytes|
  {
    AtSplit(buf, pos, p.bytes, q.bytes);
  }

  /** One turn of a list: the marker, the item, and the rest of the list. */
  lemma TurnAt(first: Packed, rest: Packed, buf: seq<Byte>, pos: nat)
    requires var p := Then(PackUint(1), Then(first, rest)); p.Ok() && At(buf, pos, p.bytes)
    ensures first.Ok() && rest.Ok()
    ensures UnpackUint(buf, pos) == Got(1, pos + 4)
    ensures At(buf, pos + 4, first.bytes) && At(buf, pos + 4 + |first.bytes|, rest.bytes)
    ensures |Then(PackUint(1), Then(first, rest)).bytes| == 4 + |first.bytes| + |rest.bytes|
  {
    ThenAt(PackUint(1), Then(first, rest), buf, pos);
    ThenAt(first, rest, buf, pos + 4);
    UintAt(1, buf, pos);
  }

  /** In `buf`, whatever `item` packs `back` unpacks to what `f` makes of it. */
  ghost predicate Inverse(item: PackItem, back: UnpackItem, f: Value -> Value, buf: seq<Byte>) {
    forall v, p: nat {:trigger At(buf, p, item(v).bytes)} :: item(v).Ok() && At(buf, p, item(v).bytes) ==>
      back(p) == Got(f(v), p + |item(v).bytes|)
  }

  lemma {:induction false} RoundTripList(item: PackItem, back: UnpackItem, f: Value -> Value,
                                         vs: seq<Value>, buf: seq<Byte>, pos: nat)
    requires Advances(back) && Inverse(item, back, f, buf)
    requires PackList(item, vs).Ok() && At(buf, pos, PackList(item, vs).bytes)
    ensures UnpackList(back, buf, pos) == Got(MapAll(f, vs), pos + |PackList(item, vs).bytes|)
    decreases |vs|
  {
    if vs == [] {
      UintAt(0, buf, pos);
    } else {
      var first, rest := item(vs[0]), PackList(item, vs[1..]);
      TurnAt(first, rest, buf, pos);
      assert back(pos + 4) == Got(f(vs[0]), pos + 4 + |first.bytes|);
      RoundTripList(item, back, f, vs[1..], buf, pos + 4 + |first.bytes|);
    }
  }

  lemma {:induction false} RoundTripFarray(item: PackItem, back: UnpackItem, f: Value -> Value,
                                           vs: seq<Value>, buf: seq<Byte>, pos: nat)
    requires Advances(back) && Inverse(item, back, f, buf)
    requires PackEach(item, vs).Ok() && At(buf, pos, PackEach(item, vs).bytes)
    ensures UnpackFarray(|vs|, back, pos) == Got(MapAll(f, vs), pos + |PackEach(item, vs).bytes|)
    decreases |vs|
  {
    if vs != [] {
      var first, rest := item(vs[0]), PackEach(item, vs[1..]);
      ThenAt(first, rest, buf, pos);
      assert back(pos) == Got(f(vs[0]), pos + |first.bytes|);
      RoundTripFarray(item, back, f, vs[1..], buf, pos + |first.bytes|);
    }
  }

  /** A value packed anywhere in a buffer unpacks to its canonical form, and the cursor ends behind it. */
  lemma {:induction false} RoundTrip(t: Type, v: Value, buf: seq<Byte>, pos: nat)
    requires Pack(t, v).Ok()
    requires At(buf, pos, Pack(t, v).bytes)
    ensures Unpack(t, buf, pos) == Got(Canon(t, v), pos + |Pack(t, v).bytes|)
    decreases t
  {
    if t.Scalar? {
      RoundTripScalar(t.kind, v, buf, pos);
    } else {
      var item, back, f := ItemPacker(t.item), ItemUnpacker(t.item, buf), Canoner(t.item);
      forall w, p: nat | item(w).Ok() && At(buf, p, item(w).bytes)
        ensures back(p) == Got(f(w), p + |item(w).bytes|)
      {
        RoundTrip(t.item, w, buf, p);
      }
      match t
      case List(_) => RoundTripList(item, back, f, v.vs, buf, pos);
      case FArray(_, _) => RoundTripFarray(item, back, f, v.vs, buf, pos);
      case Array(_) =>
        ThenAt(PackUint(|v.vs|), PackEach(item, v.vs), buf, pos);
        UintAt(|v.vs|, buf, pos);
        RoundTripFarray(item, back, f, v.vs, buf, pos + 4);
    }
  }

  /** The statement for a buffer that is a prefix, the packed value and a suffix. */
  lemma PackThenUnpack(t: Type, v: Value, prefix: seq<Byte>, suffix: seq<Byte>)
    requires Pack(t, v).Ok()
    ensures var bytes := Pack(t, v).bytes;
            Unpack(t, prefix + bytes + suffix, |prefix|) == Got(Canon(t, v), |prefix| + |bytes|)
  {
    RoundTrip(t, v, prefix + Pack(t, v).bytes + suffix, |prefix|);
  }

  // ---------------------------------------------------------------------------
  // When packing succeeds, and when the value itself comes back

  predicate PackableScalar(k: Kind, v: Value) {
    match (k, v)
    case (UInt, Num(n)) => 0 <= n < TWO32
    case (Int, Num(n)) => -TWO32 / 2 <= n < TWO32 / 2
    case (Bool, Flag(_)) => true
    case (UHyper, Num(_)) => true
    case (Hyper, Num(_)) => true
    case (FString(n), Bytes(_)) => n >= 0
    case (String, Bytes(s)) => |s| < TWO32
    case _ => false
  }

  /** What the source demands: the right sort of value, in range, of the right length or size. */
  predicate Packable(t: Type, v: Value)
    decreases t
  {
    if t.Scalar? then PackableScalar(t.kind, v)
    else
      && v.Items?
      && (t.FArray? ==> |v.vs| == t.count)
      && (t.Array? ==> |v.vs| < TWO32)
      && forall i :: 0 <= i < |v.vs| ==> Packable(t.item, v.vs[i])
  }

  lemma {:induction false} PackAllSucceeds(item: PackItem, vs: seq<Value>)
    ensures PackList(item, vs).Ok() <==> forall i :: 0 <= i < |vs| ==> item(vs[i]).Ok()
    ensures PackEach(item, vs).Ok() <==> forall i :: 0 <= i < |vs| ==> item(vs[i]).Ok()
  {
    if vs != [] {
      PackAllSucceeds(item, vs[1..]);
      assert forall i :: 0 < i < |vs| ==> vs[i] == vs[1..][i - 1];
    }
  }

  lemma {:induction false} PackSucceedsExactly(t: Type, v: Value)
    ensures Pack(t, v).Ok() <==> Packable(t, v)
    decreases t
  {
    if !t.Scalar? && v.Items? {
      PackAllSucceeds(ItemPacker(t.item), v.vs);
      forall i | 0 <= i < |v.vs| ensures ItemPacker(t.item)(v.vs[i]).Ok() <==> Packable(t.item, v.vs[i]) {
        PackSucceedsExactly(t.item, v.vs[i]);
      }
    }
  }

  predicate ExactScalar(k: Kind, v: Value) {
    match (k, v)
    case (UHyper, Num(n)) => 0 <= n < TWO64
    case (Hyper, Num(n)) => -TWO64 / 2 <= n < TWO64 / 2
    case (FString(n), Bytes(s)) => n < 0 || |s| == n
    case _ => true
  }

  /** The values that survive the trip: hypers in range and fixed strings of their size. */
  predicate Exact(t: Type, v: Value)
    decreases t
  {
    if t.Scalar? then ExactScalar(t.kind, v)
    else v.Items? ==> forall i :: 0 <= i < |v.vs| ==> Exact(t.item, v.vs[i])
  }

  lemma {:induction false} MapAllAt(f: Value -> Value, vs: seq<Value>, i: nat)
    requires i < |vs|
    ensures MapAll(f, vs)[i] == f(vs[i])
  {
    if i > 0 {
      MapAllAt(f, vs[1..], i - 1);
    }
  }

  lemma {:induction false} ComesBackExactly(t: Type, v: Value)
    ensures Canon(t, v) == v <==> Exact(t, v)
    decreases t
  {
    if !t.Scalar? && v.Items? {
      var rs := MapAll(Canoner(t.item), v.vs);
      forall i | 0 <= i < |v.vs| ensures rs[i] == v.vs[i] <==> Exact(t.item, v.vs[i]) {
        MapAllAt(Canoner(t.item), v.vs, i);
        ComesBackExactly(t.item, v.vs[i]);
      }
    }
  }

  ghost predicate WholeWords(p: Packed) {
    |p.bytes| % 4 == 0
  }

  lemma ThenWritesWords(p: Packed, q: Packed)
    requires WholeWords(p) && WholeWords(q)
    ensures WholeWords(Then(p, q))
  {
  }

  ghost predicate WritesWords(item: PackItem) {
    forall v :: WholeWords(item(v))
  }

  lemma {:induction false} PackListWritesWords(item: PackItem, vs: seq<Value>)
    requires WritesWords(item)
    ensures WholeWords(PackList(item, vs))
  {
    if vs != [] {
      PackListWritesWords(item, vs[1..]);
      ThenWritesWords(item(vs[0]), PackList(item, vs[1..]));
      ThenWritesWords(PackUint(1), Then(item(vs[0]), PackList(item, vs[1..])));
    }
  }

  lemma {:induction false} PackEachWritesWords(item: PackItem, vs: seq<Value>)
    requires WritesWords(item)
    ensures WholeWords(PackEach(item, vs))
  {
    if vs != [] {
      PackEachWritesWords(item, vs[1..]);
      ThenWritesWords(item(vs[0]), PackEach(item, vs[1..]));
    }
  }

  lemma ScalarWritesWords(k: Kind, v: Value)
    ensures WholeWords(PackScalar(k, v))
  {
    match (k, v)
    case (UHyper, Num(n)) => ThenWritesWords(PackUint(n / TWO32 % TWO32), PackUint(n % TWO32));
    case (Hyper, Num(n)) => ThenWritesWords(PackUint(n / TWO32 % TWO32), PackUint(n % TWO32));
    case (String, Bytes(s)) => ThenWritesWords(PackUint(|s|), PackFstring(|s|, s));
    case _ =>
  }

  /** Every call, raising or not, writes whole words. */
  lemma {:induction false} PackWritesWords(t: Type, v: Value)
    ensures WholeWords(Pack(t, v))
    decreases t
  {
    if t.Scalar? {
      ScalarWritesWords(t.kind, v);
    } else if v.Items? {
      forall w ensures WholeWords(ItemPacker(t.item)(w)) {
        PackWritesWords(t.item, w);
      }
      PackListWritesWords(ItemPacker(t.item), v.vs);
      PackEachWritesWords(ItemPacker(t.item), v.vs);
      if t.Array? {
        ThenWritesWords(PackUint(|v.vs|), PackEach(ItemPacker(t.item), v.vs));
      }
    }
  }
}
