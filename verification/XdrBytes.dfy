/** The bytes of RFC 1014, written out, and the proof that packing writes exactly these. */
module XdrBytes {
  import opened Words
  import opened Wrappers
  import opened Xdr
  import opened XdrRoundTrip

  /** Four bytes, big end first. */
  function BigEndian(x: int): (w: seq<Byte>)
    ensures |w| == 4
  {
    [x / 0x100_0000 % 0x100, x / 0x1_0000 % 0x100, x / 0x100 % 0x100, x % 0x100]
  }

  /** The first `n` bytes of `s`, and zeros up to `n` bytes and on to a whole word. */
  function Filled(s: seq<Byte>, n: nat): (w: seq<Byte>)
    ensures n <= |w| < n + 4 && |w| % 4 == 0
    ensures forall i :: 0 <= i < |w| ==> w[i] == if i < n && i < |s| then s[i] else 0
  {
    seq<Byte>((n + 3) / 4 * 4, (i: nat) => if i < n && i < |s| then s[i] else 0)
  }

  /** The bytes of a scalar: two's complement for signed numbers, 0 or 1 for booleans, a length before a string. */
  function WireScalar(k: Kind, v: Value): seq<Byte> {
    match (k, v)
    case (UInt, Num(n)) => BigEndian(n)
    case (Int, Num(n)) => BigEndian(if n < 0 then n + TWO32 else n)
    case (Bool, Flag(b)) => if b then [0, 0, 0, 1] else [0, 0, 0, 0]
    case (UHyper, Num(n)) => BigEndian(n / TWO32 % TWO32) + BigEndian(n % TWO32)
    case (Hyper, Num(n)) => BigEndian(n / TWO32 % TWO32) + BigEndian(n % TWO32)
    case (FString(n), Bytes(s)) => if n < 0 then [] else Filled(s, n)
    case (String, Bytes(s)) => BigEndian(|s|) + Filled(s, |s|)
    case _ => []
  }

  type Wiring = Value -> seq<Byte>

  /** The items one after the other. */
  function Joined(item: Wiring, vs: seq<Value>): seq<Byte> {
    if vs == [] then [] else item(vs[0]) + Joined(item, vs[1..])
  }

  /** Every item behind the word 1, and the word 0 behind the last. */
  function Linked(item: Wiring, vs: seq<Value>): seq<Byte> {
    if vs == [] then [0, 0, 0, 0] else [0, 0, 0, 1] + (item(vs[0]) + Linked(item, vs[1..]))
  }

  /** The bytes of a value of any type. */
  function Wire(t: Type, v: Value): seq<Byte>
    decreases t, 0
  {
    if t.Scalar? then WireScalar(t.kind, v)
    else if !v.Items? then []
    else
      match t
      case List(u) => Linked(Wirer(u), v.vs)
      case FArray(_, u) => Joined(Wirer(u), v.vs)
      case Array(u) => BigEndian(|v.vs|) + Joined(Wirer(u), v.vs)
  }

  function Wirer(t: Type): (item: Wiring)
    decreases t, 1
  {
    v => Wire(t, v)
  }

  // ---------------------------------------------------------------------------
  // Packing writes these bytes

  lemma LastDigit(x: nat, n: nat)
    requires n > 0
    ensures Digits(x, n) == Digits(x / 0x100, n - 1) + [x % 0x100]
  {
  }

  lemma WordBytes(x: nat)
    requires x < TWO32
    ensures Word(x) == BigEndian(x)
  {
    var a := x / 0x100;
    var b := a / 0x100;
    var c := b / 0x100;
    LastDigit(x, WORD_SIZE);
    LastDigit(a, WORD_SIZE - 1);
    LastDigit(b, WORD_SIZE - 2);
    LastDigit(c, WORD_SIZE - 3);
    assert b == x / 0x1_0000 && c == x / 0x100_0000;
    assert Digits(c / 0x100, 0) == [];
  }

  lemma UintBytes(x: int)
    ensures PackUint(x).Ok() <==> 0 <= x < TWO32
    ensures PackUint(x).Ok() ==> PackUint(x) == Packed(BigEndian(x), None)
  {
    if 0 <= x < TWO32 {
      WordBytes(x);
    }
  }

  lemma FstringBytes(n: nat, s: seq<Byte>)
    ensures PackFstring(n, s) == Packed(Filled(s, n), None)
  {
    assert PackFstring(n, s).bytes == Filled(s, n);
  }

  lemma SmallWords()
    ensures BigEndian(0) == [0, 0, 0, 0] && BigEndian(1) == [0, 0, 0, 1]
  {
  }

  lemma IntBytes(n: int)
    requires -TWO32 / 2 <= n < TWO32 / 2
    ensures PackUint(n % TWO32).bytes == BigEndian(if n < 0 then n + TWO32 else n)
  {
    UintBytes(n % TWO32);
    assert n % TWO32 == if n < 0 then n + TWO32 else n;
  }

  lemma BoolBytes(b: bool)
    ensures Pack(Scalar(Bool), Flag(b)) == Packed([0, 0, 0, if b then 1 else 0], None)
  {
    UintBytes(if b then 1 else 0);
    SmallWords();
  }

  lemma ScalarBytes(k: Kind, v: Value)
    requires PackScalar(k, v).Ok()
    ensures PackScalar(k, v).bytes == WireScalar(k, v)
  {
    match (k, v)
    case (UInt, Num(n)) => UintBytes(n);
    case (Int, Num(n)) => IntBytes(n);
    case (Bool, Flag(b)) => BoolBytes(b);
    case (UHyper, Num(n)) => HyperBytes(n);
    case (Hyper, Num(n)) => HyperBytes(n);
    case (FString(n), Bytes(s)) => FstringBytes(n, s);
    case (String, Bytes(s)) =>
      UintBytes(|s|);
      FstringBytes(|s|, s);
  }

  lemma HyperBytes(n: int)
    ensures PackUhyper(n) == Packed(BigEndian(n / TWO32 % TWO32) + BigEndian(n % TWO32), None)
  {
    UintBytes(n / TWO32 % TWO32);
    UintBytes(n % TWO32);
  }

  ghost predicate WritesWire(item: PackItem, wire: Wiring) {
    forall v :: item(v).Ok() ==> item(v).bytes == wire(v)
  }

  lemma {:induction false} EachBytes(item: PackItem, wire: Wiring, vs: seq<Value>)
    requires WritesWire(item, wire) && PackEach(item, vs).Ok()
    ensures PackEach(item, vs).bytes == Joined(wire, vs)
  {
    if vs != [] {
      EachBytes(item, wire, vs[1..]);
    }
  }

  lemma {:induction false} ListBytes(item: PackItem, wire: Wiring, vs: seq<Value>)
    requires WritesWire(item, wire) && PackList(item, vs).Ok()
    ensures PackList(item, vs).bytes == Linked(wire, vs)
  {
    UintBytes(0);
    UintBytes(1);
    SmallWords();
    if vs != [] {
      ListBytes(item, wire, vs[1..]);
    }
  }

  /** Whatever packs without raising is written as RFC 1014 has it, byte for byte. */
  lemma {:induction false} PackIsWire(t: Type, v: Value)
    requires Pack(t, v).Ok()
    ensures Pack(t, v).bytes == Wire(t, v)
    decreases t
  {
    if t.Scalar? {
      ScalarBytes(t.kind, v);
    } else {
      var item, wire := ItemPacker(t.item), Wirer(t.item);
      forall w | item(w).Ok() ensures item(w).bytes == wire(w) {
        PackIsWire(t.item, w);
      }
      match t
      case List(_) => ListBytes(item, wire, v.vs);
      case FArray(_, _) => EachBytes(item, wire, v.vs);
      case Array(_) =>
        UintBytes(|v.vs|);
        EachBytes(item, wire, v.vs);
    }
  }

  // ---------------------------------------------------------------------------
  // What is raised

  /** What the first thing wrong with a scalar raises. */
  lemma ScalarErrors(k: Kind, v: Value)
    ensures k == UInt && v.Num? && !(0 <= v.n < TWO32) ==> PackScalar(k, v).error == Some(ConversionError)
    ensures k == Int && v.Num? && !(-TWO32 <= 2 * v.n < TWO32) ==>
              PackScalar(k, v).error == Some(ConversionError)
    ensures k.FString? && k.size < 0 && v.Bytes? ==> PackScalar(k, v) == Packed([], Some(ValueError))
    ensures k == String && v.Bytes? && |v.s| >= TWO32 ==> PackScalar(k, v) == Packed([], Some(ConversionError))
  {
  }

  /** A wrong count is raised before anything is written. */
  lemma CountErrors(n: int, t: Type, vs: seq<Value>)
    requires |vs| != n
    ensures Pack(FArray(n, t), Items(vs)) == Packed([], Some(ValueError))
  {
  }

  lemma JoinedStep(wire: Wiring, vs: seq<Value>, k: nat, tail: seq<Byte>)
    requires 0 < k <= |vs|
    ensures Joined(wire, vs[..k]) + tail == wire(vs[0]) + (Joined(wire, vs[1..][..k - 1]) + tail)
  {
    assert vs[..k][0] == vs[0] && vs[..k][1..] == vs[1..][..k - 1];
  }

  lemma {:induction false} EachStops(item: PackItem, wire: Wiring, vs: seq<Value>, k: nat)
    requires WritesWire(item, wire) && k < |vs|
    requires !item(vs[k]).Ok() && forall i :: 0 <= i < k ==> item(vs[i]).Ok()
    ensures PackEach(item, vs) == Packed(Joined(wire, vs[..k]) + item(vs[k]).bytes, item(vs[k]).error)
  {
    if k > 0 {
      var rest := vs[1..];
      assert rest[k - 1] == vs[k] && forall i :: 0 <= i < k - 1 ==> rest[i] == vs[i + 1];
      EachStops(item, wire, rest, k - 1);
      JoinedStep(wire, vs, k, item(vs[k]).bytes);
    } else {
      assert vs[..0] == [] && [] + item(vs[0]).bytes == item(vs[0]).bytes;
    }
  }

  /** The first item that raises stops an array, with exactly the items in front of it written. */
  lemma FirstErrorStops(t: Type, vs: seq<Value>, k: nat)
    requires k < |vs| && !Pack(t, vs[k]).Ok() && forall i :: 0 <= i < k ==> Pack(t, vs[i]).Ok()
    ensures Pack(FArray(|vs|, t), Items(vs))
            == Packed(Joined(Wirer(t), vs[..k]) + Pack(t, vs[k]).bytes, Pack(t, vs[k]).error)
  {
    var item, wire := ItemPacker(t), Wirer(t);
    forall w | item(w).Ok() ensures item(w).bytes == wire(w) {
      PackIsWire(t, w);
    }
    EachStops(item, wire, vs, k);
  }

  /** Reading: too few bytes for a word, a negative size, and a marker that is neither 0 nor 1. */
  lemma ReadErrors(buf: seq<Byte>, pos: nat, n: int, t: Type)
    ensures pos + 4 > |buf| ==> Unpack(Scalar(UInt), buf, pos) == Raised(EndOfFile, pos + 4)
    ensures n < 0 ==> Unpack(Scalar(FString(n)), buf, pos) == Raised(ValueError, pos)
    ensures pos + 4 <= |buf| && buf[pos..pos + 4] != [0, 0, 0, 0] && buf[pos..pos + 4] != [0, 0, 0, 1] ==>
              Unpack(List(t), buf, pos) == Raised(ConversionError, pos + 4)
  {
    if pos + 4 <= |buf| {
      MarkerIs(buf[pos..pos + 4]);
    }
  }

  lemma MarkerIs(w: seq<Byte>)
    requires |w| == 4
    ensures Number(w) == 0 <==> w == [0, 0, 0, 0]
    ensures Number(w) == 1 <==> w == [0, 0, 0, 1]
  {
    DigitsOfNumber(w);
    WordPower();
    WordBytes(Number(w));
    SmallWords();
    WordBytes(0);
    WordBytes(1);
    NumberOfDigits(0, WORD_SIZE);
    NumberOfDigits(1, WORD_SIZE);
  }
}
