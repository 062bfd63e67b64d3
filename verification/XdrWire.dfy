/** Facts about arbitrary bytes: cut-off input, self-delimiting encodings, repacking what was read. */
module XdrWire {
  import opened Words
  import opened Xdr
  import opened XdrRoundTrip

  // ---------------------------------------------------------------------------
  // Input that is cut off

  /** `s` is what `r` becomes when only the first `cut` bytes are there. */
  ghost predicate CutOff<T>(r: Unpacked<T>, s: Unpacked<T>, cut: nat) {
    r.Got? ==>
      if r.pos <= cut then s == r else s.Raised? && s.error == EndOfFile
  }

  lemma CutUint(buf: seq<Byte>, pos: nat, cut: nat)
    requires pos <= cut <= |buf|
    ensures CutOff(UnpackUint(buf, pos), UnpackUint(buf[..cut], pos), cut)
  {
    if pos + 4 <= cut {
      assert buf[..cut][pos..pos + 4] == buf[pos..pos + 4];
    }
  }

  lemma CutUhyper(buf: seq<Byte>, pos: nat, cut: nat)
    requires pos <= cut <= |buf|
    ensures CutOff(UnpackUhyper(buf, pos), UnpackUhyper(buf[..cut], pos), cut)
  {
    CutUint(buf, pos, cut);
    if pos + 4 <= cut {
      CutUint(buf, pos + 4, cut);
    }
  }

  lemma CutFstring(n: int, buf: seq<Byte>, pos: nat, cut: nat)
    requires pos <= cut <= |buf|
    ensures CutOff(UnpackFstring(n, buf, pos), UnpackFstring(n, buf[..cut], pos), cut)
  {
    if n >= 0 && pos + Rounded(n) <= cut {
      assert buf[..cut][pos..pos + n] == buf[pos..pos + n];
    }
  }

  lemma CutScalar(k: Kind, buf: seq<Byte>, pos: nat, cut: nat)
    requires pos <= cut <= |buf|
    ensures CutOff(UnpackScalar(k, buf, pos), UnpackScalar(k, buf[..cut], pos), cut)
  {
    match k
    case UHyper => CutUhyper(buf, pos, cut);
    case Hyper => CutUhyper(buf, pos, cut);
    case FString(n) => CutFstring(n, buf, pos, cut);
    case String =>
      CutUint(buf, pos, cut);
      var x := UnpackUint(buf, pos);
      if x.Got? && x.pos <= cut {
        CutFstring(x.value, buf, x.pos, cut);
      }
    case _ => CutUint(buf, pos, cut);
  }

  ghost predicate CutItem(item: UnpackItem, short: UnpackItem, cut: nat) {
    forall p: nat :: p <= cut ==> CutOff(item(p), short(p), cut)
  }

  lemma {:induction false} CutList(item: UnpackItem, short: UnpackItem, buf: seq<Byte>, pos: nat, cut: nat)
    requires Advances(item) && Advances(short) && CutItem(item, short, cut)
    requires pos <= cut <= |buf|
    ensures CutOff(UnpackList(item, buf, pos), UnpackList(short, buf[..cut], pos), cut)
    decreases |buf| - pos
  {
    CutUint(buf, pos, cut);
    var x := UnpackUint(buf, pos);
    if x.Got? && x.pos <= cut && x.value == 1 {
      var first := item(x.pos);
      assert CutOff(first, short(x.pos), cut);
      if first.Got? && first.pos <= cut {
        CutList(item, short, buf, first.pos, cut);
      }
    }
  }

  lemma {:induction false} CutFarray(n: int, item: UnpackItem, short: UnpackItem, pos: nat, cut: nat)
    requires Advances(item) && Advances(short) && CutItem(item, short, cut)
    requires pos <= cut
    ensures CutOff(UnpackFarray(n, item, pos), UnpackFarray(n, short, pos), cut)
    decreases if n > 0 then n else 0
  {
    if n > 0 {
      var first := item(pos);
      assert CutOff(first, short(pos), cut);
      if first.Got? && first.pos <= cut {
        CutFarray(n - 1, item, short, first.pos, cut);
      }
    }
  }

  /**
   Unpacking reads nothing behind the cursor it leaves, and needs everything before it: on input
   cut short of that cursor it raises end-of-file.
   */
  lemma {:induction false} UnpackOfCutInput(t: Type, buf: seq<Byte>, pos: nat, cut: nat)
    requires pos <= cut <= |buf|
    ensures CutOff(Unpack(t, buf, pos), Unpack(t, buf[..cut], pos), cut)
    decreases t
  {
    if t.Scalar? {
      CutScalar(t.kind, buf, pos, cut);
    } else {
      var item, short := ItemUnpacker(t.item, buf), ItemUnpacker(t.item, buf[..cut]);
      forall p: nat | p <= cut ensures CutOff(item(p), short(p), cut) {
        UnpackOfCutInput(t.item, buf, p, cut);
      }
      match t
      case List(_) => CutList(item, short, buf, pos, cut);
      case FArray(n, _) => CutFarray(n, item, short, pos, cut);
      case Array(_) =>
        CutUint(buf, pos, cut);
        var x := UnpackUint(buf, pos);
        if x.Got? && x.pos <= cut {
          CutFarray(x.value, item, short, x.pos, cut);
        }
    }
  }

  /** An encoding that is cut off anywhere inside raises end-of-file. */
  lemma StrictPrefixIsEndOfFile(t: Type, v: Value, buf: seq<Byte>, pos: nat, cut: nat)
    requires Pack(t, v).Ok() && At(buf, pos, Pack(t, v).bytes)
    requires pos <= cut < pos + |Pack(t, v).bytes|
    ensures var r := Unpack(t, buf[..cut], pos); r.Raised? && r.error == EndOfFile
  {
    RoundTrip(t, v, buf, pos);
    UnpackOfCutInput(t, buf, pos, cut);
  }

  /** No encoding continues another one of the same type. */
  lemma EncodingsArePrefixFree(t: Type, v: Value, w: Value)
    requires Pack(t, v).Ok() && Pack(t, w).Ok()
    requires Pack(t, v).bytes <= Pack(t, w).bytes
    ensures Canon(t, v) == Canon(t, w) && Pack(t, v).bytes == Pack(t, w).bytes
  {
    var buf := Pack(t, w).bytes;
    RoundTrip(t, w, buf, 0);
    RoundTrip(t, v, buf, 0);
  }

  // ---------------------------------------------------------------------------
  // Repacking what was read

  /** Which bytes of an encoding carry the value: not padding, and not the word of a true boolean. */
  function Repeat(b: bool, n: nat): (m: seq<bool>)
    ensures |m| == n && forall i :: 0 <= i < n ==> m[i] == b
  {
    seq(n, _ => b)
  }

  function FstringMask(n: nat): (m: seq<bool>) {
    Repeat(true, n) + Repeat(false, Rounded(n) - n)
  }

  function ScalarMask(k: Kind, v: Value): (m: seq<bool>) {
    match (k, v)
    case (Bool, Flag(b)) => Repeat(!b, 4)
    case (FString(n), _) => if n < 0 then [] else FstringMask(n)
    case (String, Bytes(s)) => Repeat(true, 4) + FstringMask(|s|)
    case (UHyper, _) => Repeat(true, 8)
    case (Hyper, _) => Repeat(true, 8)
    case _ => Repeat(true, 4)
  }

  function ListMask(f: Value -> seq<bool>, vs: seq<Value>): (m: seq<bool>) {
    if vs == [] then Repeat(true, 4) else Repeat(true, 4) + (f(vs[0]) + ListMask(f, vs[1..]))
  }

  function EachMask(f: Value -> seq<bool>, vs: seq<Value>): (m: seq<bool>) {
    if vs == [] then [] else f(vs[0]) + EachMask(f, vs[1..])
  }

  function Mask(t: Type, v: Value): (m: seq<bool>)
    decreases t, 0
  {
    if t.Scalar? then ScalarMask(t.kind, v)
    else if !v.Items? then []
    else
      match t
      case List(u) => ListMask(Masker(u), v.vs)
      case FArray(_, u) => EachMask(Masker(u), v.vs)
      case Array(u) => Repeat(true, 4) + EachMask(Masker(u), v.vs)
  }

  function Masker(t: Type): (f: Value -> seq<bool>)
    decreases t, 1
  {
    v => Mask(t, v)
  }

  /**
   `p` would write exactly as many bytes as were read, and the same ones where `mask` says so. A cursor set
   behind the end of the buffer can only have read nothing.
   */
  ghost predicate Rewrites(p: Packed, mask: seq<bool>, buf: seq<Byte>, pos: nat, end: nat) {
    && p.Ok()
    && |p.bytes| == |mask| == end - pos
    && (end <= |buf| || end == pos)
    && forall i :: 0 <= i < |mask| && mask[i] ==> buf[pos + i] == p.bytes[i]
  }

  lemma RewritesThen(p: Packed, m: seq<bool>, q: Packed, n: seq<bool>, buf: seq<Byte>, pos: nat, mid: nat, end: nat)
    requires Rewrites(p, m, buf, pos, mid) && Rewrites(q, n, buf, mid, end)
    ensures Rewrites(Then(p, q), m + n, buf, pos, end)
  {
  }

  lemma RewriteUint(buf: seq<Byte>, pos: nat)
    requires UnpackUint(buf, pos).Got?
    ensures Rewrites(PackUint(UnpackUint(buf, pos).value), Repeat(true, 4), buf, pos, pos + 4)
  {
    DigitsOfNumber(buf[pos..pos + 4]);
  }

  lemma RewriteUhyper(buf: seq<Byte>, pos: nat)
    requires UnpackUhyper(buf, pos).Got?
    ensures Rewrites(PackUhyper(UnpackUhyper(buf, pos).value), Repeat(true, 8), buf, pos, pos + 8)
  {
    var hi, lo := UnpackUint(buf, pos).value, UnpackUint(buf, pos + 4).value;
    RewriteUint(buf, pos);
    RewriteUint(buf, pos + 4);
    RewritesThen(PackUint(hi), Repeat(true, 4), PackUint(lo), Repeat(true, 4), buf, pos, pos + 4, pos + 8);
    HalvesOfHyper(hi, lo);
    assert Repeat(true, 4) + Repeat(true, 4) == Repeat(true, 8);
  }

  lemma HalvesOfHyper(hi: int, lo: int)
    requires 0 <= hi < TWO32 && 0 <= lo < TWO32
    ensures (hi * TWO32 + lo) / TWO32 % TWO32 == hi && (hi * TWO32 + lo) % TWO32 == lo
  {
  }

  lemma SameDigits(x: int, y: int)
    requires x % TWO64 == y % TWO64
    ensures PackUhyper(x) == PackUhyper(y)
  {
    UhyperIsBigEndian(x);
    UhyperIsBigEndian(y);
  }

  lemma SignedResidue(x: int)
    requires 0 <= x < TWO64
    ensures Signed(x, TWO64) % TWO64 == x % TWO64
  {
  }

  lemma PackUhyperOfSigned(x: int)
    requires 0 <= x < TWO64
    ensures PackUhyper(Signed(x, TWO64)) == PackUhyper(x)
  {
    SignedResidue(x);
    SameDigits(x, Signed(x, TWO64));
  }

  ghost predicate ScalarRewrites(k: Kind, buf: seq<Byte>, pos: nat)
    requires UnpackScalar(k, buf, pos).Got?
  {
    var r := UnpackScalar(k, buf, pos);
    Rewrites(PackScalar(k, r.value), ScalarMask(k, r.value), buf, pos, r.pos)
  }

  lemma RewriteFstring(n: nat, buf: seq<Byte>, pos: nat)
    requires pos + Rounded(n) <= |buf|
    ensures Rewrites(PackFstring(n, buf[pos..pos + n]), FstringMask(n), buf, pos, pos + Rounded(n))
  {
  }

  lemma RewriteString(buf: seq<Byte>, pos: nat)
    requires UnpackScalar(String, buf, pos).Got?
    ensures ScalarRewrites(String, buf, pos)
  {
    var n := UnpackUint(buf, pos).value;
    var s := buf[pos + 4..pos + 4 + n];
    assert UnpackScalar(String, buf, pos) == Got(Bytes(s), pos + 4 + Rounded(n));
    assert |s| == n;
    RewriteUint(buf, pos);
    RewriteFstring(n, buf, pos + 4);
    RewritesThen(PackUint(n), Repeat(true, 4), PackFstring(n, s), FstringMask(n),
                 buf, pos, pos + 4, pos + 4 + Rounded(n));
  }

  lemma RewriteInt(buf: seq<Byte>, pos: nat)
    requires UnpackScalar(Int, buf, pos).Got?
    ensures ScalarRewrites(Int, buf, pos)
  {
    RewriteUint(buf, pos);
    var x := UnpackUint(buf, pos).value;
    assert Signed(x, TWO32) % TWO32 == x;
  }

  lemma RewriteBool(buf: seq<Byte>, pos: nat)
    requires UnpackScalar(Bool, buf, pos).Got?
    ensures ScalarRewrites(Bool, buf, pos)
  {
    RewriteUint(buf, pos);
  }

  lemma RewriteHyper(k: Kind, buf: seq<Byte>, pos: nat)
    requires k == UHyper || k == Hyper
    requires UnpackScalar(k, buf, pos).Got?
    ensures ScalarRewrites(k, buf, pos)
  {
    RewriteUhyper(buf, pos);
    PackUhyperOfSigned(UnpackUhyper(buf, pos).value);
  }

  lemma RewriteFixed(n: int, buf: seq<Byte>, pos: nat)
    requires UnpackScalar(FString(n), buf, pos).Got?
    ensures ScalarRewrites(FString(n), buf, pos)
  {
    RewriteFstring(n, buf, pos);
  }

  lemma RewriteUnsigned(buf: seq<Byte>, pos: nat)
    requires UnpackScalar(UInt, buf, pos).Got?
    ensures ScalarRewrites(UInt, buf, pos)
  {
    RewriteUint(buf, pos);
  }

  lemma RewriteScalar(k: Kind, buf: seq<Byte>, pos: nat)
    requires UnpackScalar(k, buf, pos).Got?
    ensures ScalarRewrites(k, buf, pos)
  {
    match k
    case UInt => RewriteUnsigned(buf, pos);
    case Int => RewriteInt(buf, pos);
    case Bool => RewriteBool(buf, pos);
    case UHyper => RewriteHyper(k, buf, pos);
    case Hyper => RewriteHyper(k, buf, pos);
    case FString(n) => RewriteFixed(n, buf, pos);
    case String => RewriteString(buf, pos);
  }

  ghost predicate RewritesItem(back: UnpackItem, item: PackItem, f: Value -> seq<bool>, buf: seq<Byte>) {
    forall p: nat :: back(p).Got? && item(back(p).value).Ok() ==>
      Rewrites(item(back(p).value), f(back(p).value), buf, p, back(p).pos)
  }

  lemma {:induction false} RewriteList(back: UnpackItem, item: PackItem, f: Value -> seq<bool>,
                                       buf: seq<Byte>, pos: nat)
    requires Advances(back) && RewritesItem(back, item, f, buf)
    requires UnpackList(back, buf, pos).Got? && PackList(item, UnpackList(back, buf, pos).value).Ok()
    ensures var r := UnpackList(back, buf, pos);
            Rewrites(PackList(item, r.value), ListMask(f, r.value), buf, pos, r.pos)
    decreases |buf| - pos
  {
    RewriteUint(buf, pos);
    if UnpackUint(buf, pos).value == 1 {
      var first := back(pos + 4);
      var rest := UnpackList(back, buf, first.pos);
      assert ([first.value] + rest.value)[1..] == rest.value;
      RewriteList(back, item, f, buf, first.pos);
      assert Rewrites(item(first.value), f(first.value), buf, pos + 4, first.pos);
      RewritesThen(item(first.value), f(first.value), PackList(item, rest.value), ListMask(f, rest.value),
                   buf, pos + 4, first.pos, rest.pos);
      RewritesThen(PackUint(1), Repeat(true, 4),
                   Then(item(first.value), PackList(item, rest.value)), f(first.value) + ListMask(f, rest.value),
                   buf, pos, pos + 4, rest.pos);
    }
  }

  lemma {:induction false} RewriteFarray(n: int, back: UnpackItem, item: PackItem, f: Value -> seq<bool>,
                                         buf: seq<Byte>, pos: nat)
    requires Advances(back) && RewritesItem(back, item, f, buf)
    requires UnpackFarray(n, back, pos).Got? && PackEach(item, UnpackFarray(n, back, pos).value).Ok()
    ensures var r := UnpackFarray(n, back, pos);
            Rewrites(PackEach(item, r.value), EachMask(f, r.value), buf, pos, r.pos)
    decreases if n > 0 then n else 0
  {
    if n > 0 {
      var first := back(pos);
      var rest := UnpackFarray(n - 1, back, first.pos);
      assert ([first.value] + rest.value)[1..] == rest.value;
      assert Rewrites(item(first.value), f(first.value), buf, pos, first.pos);
      RewriteFarray(n - 1, back, item, f, buf, first.pos);
      RewritesThen(item(first.value), f(first.value), PackEach(item, rest.value), EachMask(f, rest.value),
                   buf, pos, first.pos, rest.pos);
    }
  }

  /**
   What arbitrary bytes unpack to, where it can be packed again: it takes as many bytes as were consumed,
   and the bytes differ only in padding and in the words of true booleans.
   */
  lemma {:induction false} RepackWhatWasRead(t: Type, buf: seq<Byte>, pos: nat)
    requires Unpack(t, buf, pos).Got? && Pack(t, Unpack(t, buf, pos).value).Ok()
    ensures var r := Unpack(t, buf, pos);
            Rewrites(Pack(t, r.value), Mask(t, r.value), buf, pos, r.pos)
    decreases t
  {
    if t.Scalar? {
      RewriteScalar(t.kind, buf, pos);
    } else {
      var back, item, f := ItemUnpacker(t.item, buf), ItemPacker(t.item), Masker(t.item);
      forall p: nat | back(p).Got? && item(back(p).value).Ok()
        ensures Rewrites(item(back(p).value), f(back(p).value), buf, p, back(p).pos)
      {
        RepackWhatWasRead(t.item, buf, p);
      }
      match t
      case List(_) => RewriteList(back, item, f, buf, pos);
      case FArray(n, _) => RewriteFarray(n, back, item, f, buf, pos);
      case Array(_) =>
        var n := UnpackUint(buf, pos).value;
        RewriteUint(buf, pos);
        FarrayCount(n, back, pos + 4);
        RewriteFarray(n, back, item, f, buf, pos + 4);
        var r := UnpackFarray(n, back, pos + 4);
        RewritesThen(PackUint(n), Repeat(true, 4), PackEach(item, r.value), EachMask(f, r.value),
                     buf, pos, pos + 4, r.pos);
    }
  }

  /** Read, written and read again: the same value at the same length. */
  lemma RereadWhatWasRepacked(t: Type, buf: seq<Byte>, pos: nat, prefix: seq<Byte>, suffix: seq<Byte>)
    requires Unpack(t, buf, pos).Got? && Pack(t, Unpack(t, buf, pos).value).Ok()
    ensures var r := Unpack(t, buf, pos);
            Unpack(t, prefix + Pack(t, r.value).bytes + suffix, |prefix|)
            == Got(r.value, |prefix| + (r.pos - pos))
  {
    var r := Unpack(t, buf, pos);
    RepackWhatWasRead(t, buf, pos);
    PackThenUnpack(t, r.value, prefix, suffix);
    ReadIsExact(t, buf, pos);
    ComesBackExactly(t, r.value);
  }

  // ---------------------------------------------------------------------------
  // What was read: in canonical form, and when it can be packed again

  lemma {:induction false} FarrayCount(n: int, back: UnpackItem, pos: nat)
    requires Advances(back) && UnpackFarray(n, back, pos).Got?
    ensures |UnpackFarray(n, back, pos).value| == if n < 0 then 0 else n
    decreases if n > 0 then n else 0
  {
    if n > 0 {
      FarrayCount(n - 1, back, back(pos).pos);
    }
  }

  ghost predicate All(q: Value -> bool, vs: seq<Value>) {
    forall i :: 0 <= i < |vs| ==> q(vs[i])
  }

  lemma {:induction false} ListReadAll(q: Value -> bool, back: UnpackItem, buf: seq<Byte>, pos: nat)
    requires Advances(back) && forall p: nat :: back(p).Got? ==> q(back(p).value)
    requires UnpackList(back, buf, pos).Got?
    ensures All(q, UnpackList(back, buf, pos).value)
    decreases |buf| - pos
  {
    if UnpackUint(buf, pos).value == 1 {
      ListReadAll(q, back, buf, back(pos + 4).pos);
    }
  }

  lemma {:induction false} FarrayReadAll(n: int, q: Value -> bool, back: UnpackItem, pos: nat)
    requires Advances(back) && forall p: nat :: back(p).Got? ==> q(back(p).value)
    requires UnpackFarray(n, back, pos).Got?
    ensures All(q, UnpackFarray(n, back, pos).value)
    decreases if n > 0 then n else 0
  {
    if n > 0 {
      FarrayReadAll(n - 1, q, back, back(pos).pos);
    }
  }

  /** What holds of every item read from the buffer holds of all items of a value read from it. */
  lemma ItemsReadAll(t: Type, q: Value -> bool, buf: seq<Byte>, pos: nat)
    requires !t.Scalar? && Unpack(t, buf, pos).Got?
    requires forall p: nat :: Unpack(t.item, buf, p).Got? ==> q(Unpack(t.item, buf, p).value)
    ensures Unpack(t, buf, pos).value.Items? && All(q, Unpack(t, buf, pos).value.vs)
  {
    var back := ItemUnpacker(t.item, buf);
    forall p: nat | back(p).Got? ensures q(back(p).value) {
      assert back(p) == Unpack(t.item, buf, p);
    }
    match t
    case List(_) => ListReadAll(q, back, buf, pos);
    case FArray(n, _) => FarrayReadAll(n, q, back, pos);
    case Array(_) =>
      var x := UnpackUint(buf, pos);
      FarrayReadAll(x.value, q, back, x.pos);
  }

  /** What comes out of a buffer is in canonical form. */
  lemma {:induction false} ReadIsExact(t: Type, buf: seq<Byte>, pos: nat)
    requires Unpack(t, buf, pos).Got?
    ensures Exact(t, Unpack(t, buf, pos).value)
    decreases t
  {
    if !t.Scalar? {
      var q := (v: Value) => Exact(t.item, v);
      forall p: nat | Unpack(t.item, buf, p).Got? ensures q(Unpack(t.item, buf, p).value) {
        ReadIsExact(t.item, buf, p);
      }
      ItemsReadAll(t, q, buf, pos);
    }
  }

  /** The value holds no fixed array of negative count, whatever the type allows for. */
  predicate CountsFit(t: Type, v: Value)
    decreases t
  {
    t.Scalar? ||
    (&& v.Items?
     && (t.FArray? ==> t.count >= 0)
     && forall i :: 0 <= i < |v.vs| ==> CountsFit(t.item, v.vs[i]))
  }

  lemma {:induction false} ReadIsPackable(t: Type, buf: seq<Byte>, pos: nat)
    requires Unpack(t, buf, pos).Got?
    ensures Packable(t, Unpack(t, buf, pos).value) <==> CountsFit(t, Unpack(t, buf, pos).value)
    decreases t
  {
    if !t.Scalar? {
      var v := Unpack(t, buf, pos).value;
      var q := (v: Value) => Packable(t.item, v) <==> CountsFit(t.item, v);
      forall p: nat | Unpack(t.item, buf, p).Got? ensures q(Unpack(t.item, buf, p).value) {
        ReadIsPackable(t.item, buf, p);
      }
      ItemsReadAll(t, q, buf, pos);
      assert forall i :: 0 <= i < |v.vs| ==> q(v.vs[i]);
      if t.FArray? {
        FarrayCount(t.count, ItemUnpacker(t.item, buf), pos);
      } else if t.Array? {
        FarrayCount(UnpackUint(buf, pos).value, ItemUnpacker(t.item, buf), pos + 4);
      }
    }
  }

  /** What was read can be packed again exactly when it holds no fixed array of negative count. */
  lemma ReadRepacksExactly(t: Type, buf: seq<Byte>, pos: nat)
    requires Unpack(t, buf, pos).Got?
    ensures Pack(t, Unpack(t, buf, pos).value).Ok() <==> CountsFit(t, Unpack(t, buf, pos).value)
  {
    ReadIsPackable(t, buf, pos);
    PackSucceedsExactly(t, Unpack(t, buf, pos).value);
  }
}
