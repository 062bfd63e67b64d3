/**
 External data representation (xdrlib.py): the wire format as functions.

 The callbacks `pack_item` and `unpack_item` are function values. A `Type` says which calls are
 composed, to any depth.
 */
module Xdr {
  import opened Words
  import opened Wrappers

  type Byte = b: int | 0 <= b < 0x100

  /** `TypeError` stands for every value of the wrong sort. */
  datatype Error = EndOfFile | ConversionError | ValueError | TypeError

  datatype Kind = UInt | Int | Bool | UHyper | Hyper | FString(size: int) | String

  datatype Type =
    | Scalar(kind: Kind)
    | List(item: Type)
    | FArray(count: int, item: Type)
    | Array(item: Type)

  datatype Value = Num(n: int) | Flag(b: bool) | Bytes(s: seq<Byte>) | Items(vs: seq<Value>)

  // ---------------------------------------------------------------------------
  // Numbers as bytes, big end first

  const WORD_SIZE: nat := 4

  function Digits(x: nat, n: nat): (w: seq<Byte>)
    ensures |w| == n
  {
    if n == 0 then [] else Digits(x / 0x100, n - 1) + [x % 0x100]
  }

  function Number(w: seq<Byte>): (x: nat)
  {
    if w == [] then 0 else Number(w[..|w| - 1]) * 0x100 + w[|w| - 1]
  }

  function ByteRange(n: nat): (p: nat)
    ensures p > 0
  {
    if n == 0 then 1 else ByteRange(n - 1) * 0x100
  }

  lemma {:induction false} NumberOfDigits(x: nat, n: nat)
    requires x < ByteRange(n)
    ensures Number(Digits(x, n)) == x
  {
    if n > 0 {
      NumberOfDigits(x / 0x100, n - 1);
      var w := Digits(x, n);
      assert w[..n - 1] == Digits(x / 0x100, n - 1);
    }
  }

  lemma {:induction false} DigitsOfNumber(w: seq<Byte>)
    ensures Number(w) < ByteRange(|w|) && Digits(Number(w), |w|) == w
  {
    if w != [] {
      DigitsOfNumber(w[..|w| - 1]);
      assert w == w[..|w| - 1] + [w[|w| - 1]];
    }
  }

  lemma WordPower()
    ensures ByteRange(WORD_SIZE) == TWO32
  {
    assert ByteRange(1) == 0x100;
    assert ByteRange(2) == 0x1_0000;
    assert ByteRange(3) == 0x100_0000;
  }

  function Word(x: nat): (w: seq<Byte>)
    ensures |w| == 4
  {
    Digits(x, WORD_SIZE)
  }

  function Signed(x: int, modulus: int): int {
    if x >= modulus / 2 then x - modulus else x
  }

  /** Sizes are rounded up to whole words. */
  function Rounded(n: nat): (r: nat)
    ensures n <= r < n + 4 && r % 4 == 0
  {
    (n + 3) / 4 * 4
  }

  // ---------------------------------------------------------------------------
  // Packing

  /** The bytes a call appends, and what it raises after appending them. */
  datatype Packed = Packed(bytes: seq<Byte>, error: Option<Error>) {
    predicate Ok() {
      error.None?
    }
  }

  function Zeros(n: nat): (z: seq<Byte>)
    ensures |z| == n
  {
    seq<Byte>(n, _ => 0)
  }

  /** `s` cut or padded with zeros to `n` bytes. */
  function Fit(s: seq<Byte>, n: nat): (r: seq<Byte>)
    ensures |r| == n
  {
    if n <= |s| then s[..n] else s + Zeros(n - |s|)
  }

  function PackUint(x: int): (p: Packed) {
    if 0 <= x < TWO32 then Packed(Word(x), None) else Raising(ConversionError)
  }

  function PackFstring(n: int, s: seq<Byte>): (p: Packed) {
    if n < 0 then Raising(ValueError)
    else
      var data := if n <= |s| then s[..n] else s;
      Packed(data + Zeros(Rounded(n) - |data|), None)
  }

  /** One call after another: the second happens only when the first did not raise. */
  function Then(p: Packed, q: Packed): Packed {
    if p.Ok() then Packed(p.bytes + q.bytes, q.error) else p
  }

  function PackUhyper(x: int): (p: Packed) {
    Then(PackUint(x / TWO32 % TWO32), PackUint(x % TWO32))
  }

  function Raising(e: Error): (p: Packed) {
    Packed([], Some(e))
  }

  function PackScalar(k: Kind, v: Value): (p: Packed)
  {
    match (k, v)
    case (UInt, Num(n)) => PackUint(n)
    case (Int, Num(n)) =>
      if -TWO32 / 2 <= n < TWO32 / 2 then PackUint(n % TWO32) else Raising(ConversionError)
    case (Bool, Flag(b)) => PackUint(if b then 1 else 0)
    case (UHyper, Num(n)) => PackUhyper(n)
    case (Hyper, Num(n)) => PackUhyper(n)
    case (FString(n), Bytes(s)) => PackFstring(n, s)
    case (String, Bytes(s)) => Then(PackUint(|s|), PackFstring(|s|, s))
    case _ => Raising(TypeError)
  }

  type PackItem = Value -> Packed

  /** Every item behind a word 1, then a word 0. */
  function PackList(item: PackItem, vs: seq<Value>): (p: Packed) {
    if vs == [] then PackUint(0)
    else Then(PackUint(1), Then(item(vs[0]), PackList(item, vs[1..])))
  }

  function PackEach(item: PackItem, vs: seq<Value>): (p: Packed) {
    if vs == [] then Packed([], None) else Then(item(vs[0]), PackEach(item, vs[1..]))
  }

  function PackFarray(n: int, item: PackItem, vs: seq<Value>): (p: Packed) {
    if |vs| != n then Raising(ValueError) else PackEach(item, vs)
  }

  function Pack(t: Type, v: Value): (p: Packed)
    decreases t, 0
  {
    if t.Scalar? then PackScalar(t.kind, v)
    else if !v.Items? then Raising(TypeError)
    else
      match t
      case List(u) => PackList(ItemPacker(u), v.vs)
      case FArray(n, u) => PackFarray(n, ItemPacker(u), v.vs)
      case Array(u) => Then(PackUint(|v.vs|), PackFarray(|v.vs|, ItemPacker(u), v.vs))
  }

  function ItemPacker(t: Type): (item: PackItem)
    decreases t, 1
  {
    v => Pack(t, v)
  }

  // ---------------------------------------------------------------------------
  // Unpacking

  /** A value, or what was raised; with the cursor left behind in both cases. */
  datatype Unpacked<T> = Got(value: T, pos: nat) | Raised(error: Error, pos: nat) {
    /** Give a raised result another value type. */
    function Raise<U>(): Unpacked<U>
      requires Raised?
    {
      Raised(error, pos)
    }
  }

  /** Reading a word moves the cursor even when it raises. */
  function UnpackUint(buf: seq<Byte>, pos: nat): (r: Unpacked<int>)
    ensures r.Got? ==> r.pos == pos + 4 <= |buf| && 0 <= r.value < TWO32
  {
    if pos + 4 <= |buf| then
      DigitsOfNumber(buf[pos..pos + 4]);
      WordPower();
      Got(Number(buf[pos..pos + 4]), pos + 4)
    else Raised(EndOfFile, pos + 4)
  }

  function UnpackUhyper(buf: seq<Byte>, pos: nat): (r: Unpacked<int>)
    ensures r.Got? ==> r.pos == pos + 8 <= |buf| && 0 <= r.value < TWO64
  {
    var hi := UnpackUint(buf, pos);
    if hi.Raised? then hi
    else
      var lo := UnpackUint(buf, hi.pos);
      if lo.Raised? then lo else Got(hi.value * TWO32 + lo.value, lo.pos)
  }

  function UnpackFstring(n: int, buf: seq<Byte>, pos: nat): (r: Unpacked<Value>)
    ensures r.Got? ==> r.pos >= pos
  {
    if n < 0 then Raised(ValueError, pos)
    else if pos + Rounded(n) > |buf| then Raised(EndOfFile, pos)
    else Got(Bytes(buf[pos..pos + n]), pos + Rounded(n))
  }

  function UnpackScalar(k: Kind, buf: seq<Byte>, pos: nat): (r: Unpacked<Value>)
    ensures r.Got? ==> r.pos >= pos
  {
    match k
    case UInt =>
      var x := UnpackUint(buf, pos);
      if x.Raised? then x.Raise() else Got(Num(x.value), x.pos)
    case Int =>
      var x := UnpackUint(buf, pos);
      if x.Raised? then x.Raise() else Got(Num(Signed(x.value, TWO32)), x.pos)
    case Bool =>
      var x := UnpackUint(buf, pos);
      if x.Raised? then x.Raise() else Got(Flag(Signed(x.value, TWO32) != 0), x.pos)
    case UHyper =>
      var x := UnpackUhyper(buf, pos);
      if x.Raised? then x.Raise() else Got(Num(x.value), x.pos)
    case Hyper =>
      var x := UnpackUhyper(buf, pos);
      if x.Raised? then x.Raise() else Got(Num(Signed(x.value, TWO64)), x.pos)
    case FString(n) => UnpackFstring(n, buf, pos)
    case String =>
      var x := UnpackUint(buf, pos);
      if x.Raised? then x.Raise() else UnpackFstring(x.value, buf, x.pos)
  }

  type UnpackItem = nat -> Unpacked<Value>

  /** The call never moves the cursor back. */
  ghost predicate Advances(item: UnpackItem) {
    forall p: nat :: item(p).Got? ==> item(p).pos >= p
  }

  /** Terminates on arbitrary bytes: every turn consumes at least its marker word. */
  function UnpackList(item: UnpackItem, buf: seq<Byte>, pos: nat): (r: Unpacked<seq<Value>>)
    requires Advances(item)
    ensures r.Got? ==> r.pos >= pos
    decreases |buf| - pos
  {
    var x := UnpackUint(buf, pos);
    if x.Raised? then x.Raise()
    else if x.value == 0 then Got([], x.pos)
    else if x.value != 1 then Raised(ConversionError, x.pos)
    else
      var first := item(x.pos);
      if first.Raised? then first.Raise()
      else
        var rest := UnpackList(item, buf, first.pos);
        if rest.Raised? then rest else Got([first.value] + rest.value, rest.pos)
  }

  function UnpackFarray(n: int, item: UnpackItem, pos: nat): (r: Unpacked<seq<Value>>)
    requires Advances(item)
    ensures r.Got? ==> r.pos >= pos
    decreases if n > 0 then n else 0
  {
    if n <= 0 then Got([], pos)
    else
      var first := item(pos);
      if first.Raised? then first.Raise()
      else
        var rest := UnpackFarray(n - 1, item, first.pos);
        if rest.Raised? then rest else Got([first.value] + rest.value, rest.pos)
  }

  function Wrap(r: Unpacked<seq<Value>>): Unpacked<Value> {
    if r.Raised? then r.Raise() else Got(Items(r.value), r.pos)
  }

  function Unpack(t: Type, buf: seq<Byte>, pos: nat): (r: Unpacked<Value>)
    ensures r.Got? ==> r.pos >= pos
    decreases t, 0
  {
    match t
    case Scalar(k) => UnpackScalar(k, buf, pos)
    case List(u) => Wrap(UnpackList(ItemUnpacker(u, buf), buf, pos))
    case FArray(n, u) => Wrap(UnpackFarray(n, ItemUnpacker(u, buf), pos))
    case Array(u) =>
      var x := UnpackUint(buf, pos);
      if x.Raised? then x.Raise() else Wrap(UnpackFarray(x.value, ItemUnpacker(u, buf), x.pos))
  }

  function ItemUnpacker(t: Type, buf: seq<Byte>): (item: UnpackItem)
    ensures Advances(item)
    decreases t, 1
  {
    (p: nat) => Unpack(t, buf, p)
  }
}
