/** The `Packer` and `Unpacker` objects: a growing buffer, and a cursor over a fixed one. */
module XdrStreams {
  import opened Words
  import opened Wrappers
  import opened Xdr
  import opened XdrRoundTrip
  import XdrBytes

  lemma ThenAssociates(p: Packed, q: Packed, r: Packed)
    ensures Then(Then(p, q), r) == Then(p, Then(q, r))
  {
    if p.Ok() && q.Ok() {
      assert (p.bytes + q.bytes) + r.bytes == p.bytes + (q.bytes + r.bytes);
    }
  }

  /** From `before` to `after` the bytes of `p` were appended; `err` is what `p` raises. */
  ghost predicate Wrote(before: seq<Byte>, after: seq<Byte>, p: Packed, err: Option<Error>) {
    after == before + p.bytes && err == p.error
  }

  lemma WroteThen(a: seq<Byte>, b: seq<Byte>, c: seq<Byte>, p: Packed, q: Packed, err: Option<Error>)
    requires Wrote(a, b, p, None) && Wrote(b, c, q, err)
    ensures Wrote(a, c, Then(p, q), err)
  {
  }

  lemma WholeAppend(before: seq<Byte>, bytes: seq<Byte>)
    requires |before| % 4 == 0 && |bytes| % 4 == 0
    ensures |before + bytes| % 4 == 0
  {
  }

  lemma StaysWhole(before: seq<Byte>, after: seq<Byte>, t: Type, v: Value, err: Option<Error>)
    requires Wrote(before, after, Pack(t, v), err) && |before| % 4 == 0
    ensures |after| % 4 == 0
  {
    PackWritesWords(t, v);
    WholeAppend(before, Pack(t, v).bytes);
  }

  class Packer {
    var buf: seq<Byte>

    /** Whatever the calls so far did, the buffer holds whole words. */
    ghost predicate Valid()
      reads this
    {
      |buf| % 4 == 0
    }

    constructor ()
      ensures buf == [] && Valid()
    {
      buf := [];
    }

    method PackUint(x: int) returns (err: Option<Error>)
      modifies this
      ensures Wrote(old(buf), buf, Xdr.PackUint(x), err)
    {
      if 0 <= x < TWO32 {
        buf := buf + Word(x);
        err := None;
      } else {
        err := Some(ConversionError);
      }
    }

    method PackInt(x: int) returns (err: Option<Error>)
      modifies this
      ensures Wrote(old(buf), buf, PackScalar(Int, Num(x)), err)
    {
      if -TWO32 / 2 <= x < TWO32 / 2 {
        buf := buf + Word(x % TWO32);
        err := None;
      } else {
        err := Some(ConversionError);
      }
    }

    method PackUhyper(x: int) returns (err: Option<Error>)
      modifies this
      ensures Wrote(old(buf), buf, Xdr.PackUhyper(x), err)
    {
      ghost var start := buf;
      err := PackUint(x / TWO32 % TWO32);
      ghost var mid := buf;
      err := PackUint(x % TWO32);
      WroteThen(start, mid, buf, Xdr.PackUint(x / TWO32 % TWO32), Xdr.PackUint(x % TWO32), err);
    }

    method PackFstring(n: int, s: seq<Byte>) returns (err: Option<Error>)
      modifies this
      ensures Wrote(old(buf), buf, Xdr.PackFstring(n, s), err)
    {
      if n < 0 {
        return Some(ValueError);
      }
      var data := if n <= |s| then s[..n] else s;
      data := data + Zeros(Rounded(n) - |data|);
      buf := buf + data;
      err := None;
    }

    method PackString(s: seq<Byte>) returns (err: Option<Error>)
      modifies this
      ensures Wrote(old(buf), buf, PackScalar(String, Bytes(s)), err)
    {
      ghost var start := buf;
      err := PackUint(|s|);
      if err.None? {
        ghost var mid := buf;
        err := PackFstring(|s|, s);
        WroteThen(start, mid, buf, Xdr.PackUint(|s|), Xdr.PackFstring(|s|, s), err);
      }
    }

    method PackScalarItem(k: Kind, v: Value) returns (err: Option<Error>)
      modifies this
      ensures Wrote(old(buf), buf, PackScalar(k, v), err)
    {
      match (k, v) {
        case (UInt, Num(n)) => err := PackUint(n);
        case (Int, Num(n)) => err := PackInt(n);
        case (Bool, Flag(b)) => err := PackUint(if b then 1 else 0);
        case (UHyper, Num(n)) => err := PackUhyper(n);
        case (Hyper, Num(n)) => err := PackUhyper(n);
        case (FString(n), Bytes(s)) => err := PackFstring(n, s);
        case (String, Bytes(s)) => err := PackString(s);
        case _ => err := Some(TypeError);
      }
    }

    method PackList(t: Type, vs: seq<Value>) returns (err: Option<Error>)
      modifies this
      ensures Wrote(old(buf), buf, Xdr.PackList(ItemPacker(t), vs), err)
      decreases t, 2
    {
      ghost var item := ItemPacker(t);
      ghost var done := Packed([], None);
      var i := 0;
      while i < |vs|
        invariant 0 <= i <= |vs|
        invariant Wrote(old(buf), buf, done, None)
        invariant Then(done, Xdr.PackList(item, vs[i..])) == Xdr.PackList(item, vs)
      {
        ListTurn(item, vs, i, done);
        ghost var start := buf;
        err := PackUint(1);
        ghost var mid := buf;
        err := PackItem(t, vs[i]);
        WroteThen(start, mid, buf, Xdr.PackUint(1), item(vs[i]), err);
        WroteThen(old(buf), start, buf, done, Then(Xdr.PackUint(1), item(vs[i])), err);
        done := Then(done, Then(Xdr.PackUint(1), item(vs[i])));
        if err.Some? {
          return;
        }
        i := i + 1;
      }
      ghost var start := buf;
      err := PackUint(0);
      WroteThen(old(buf), start, buf, done, Xdr.PackUint(0), err);
    }

    method PackFarray(n: int, t: Type, vs: seq<Value>) returns (err: Option<Error>)
      modifies this
      ensures Wrote(old(buf), buf, Xdr.PackFarray(n, ItemPacker(t), vs), err)
      decreases t, 2
    {
      if |vs| != n {
        return Some(ValueError);
      }
      ghost var item := ItemPacker(t);
      ghost var done := Packed([], None);
      var i := 0;
      while i < |vs|
        invariant 0 <= i <= |vs|
        invariant Wrote(old(buf), buf, done, None)
        invariant Then(done, PackEach(item, vs[i..])) == PackEach(item, vs)
      {
        EachTurn(item, vs, i, done);
        ghost var start := buf;
        err := PackItem(t, vs[i]);
        WroteThen(old(buf), start, buf, done, item(vs[i]), err);
        done := Then(done, item(vs[i]));
        if err.Some? {
          return;
        }
        i := i + 1;
      }
      err := None;
    }

    method PackArray(t: Type, vs: seq<Value>) returns (err: Option<Error>)
      modifies this
      ensures Wrote(old(buf), buf, Pack(Array(t), Items(vs)), err)
      decreases t, 3
    {
      ghost var start := buf;
      err := PackUint(|vs|);
      if err.None? {
        ghost var mid := buf;
        err := PackFarray(|vs|, t, vs);
        WroteThen(start, mid, buf, Xdr.PackUint(|vs|), Xdr.PackFarray(|vs|, ItemPacker(t), vs), err);
      }
    }

    method PackItems(t: Type, vs: seq<Value>) returns (err: Option<Error>)
      requires !t.Scalar?
      modifies this
      ensures Wrote(old(buf), buf, Pack(t, Items(vs)), err)
      decreases t, 0
    {
      match t {
        case List(u) => err := PackList(u, vs);
        case FArray(n, u) => err := PackFarray(n, u, vs);
        case Array(u) => err := PackArray(u, vs);
      }
    }

    /** The call a type stands for; as a callback it packs the items of lists and arrays. */
    method PackItem(t: Type, v: Value) returns (err: Option<Error>)
      modifies this
      ensures Wrote(old(buf), buf, Pack(t, v), err)
      ensures err.None? ==> buf == old(buf) + XdrBytes.Wire(t, v)
      ensures old(Valid()) ==> Valid()
      decreases t, 1
    {
      ghost var start := buf;
      if t.Scalar? {
        err := PackScalarItem(t.kind, v);
      } else if v.Items? {
        err := PackItems(t, v.vs);
      } else {
        err := Some(TypeError);
      }
      if |start| % 4 == 0 {
        StaysWhole(start, buf, t, v, err);
      }
      if err.None? {
        XdrBytes.PackIsWire(t, v);
      }
    }
  }

  lemma ListTurn(item: PackItem, vs: seq<Value>, i: nat, done: Packed)
    requires i < |vs|
    ensures Then(done, PackList(item, vs[i..]))
            == Then(Then(done, Then(PackUint(1), item(vs[i]))), PackList(item, vs[i + 1..]))
  {
    assert vs[i..][1..] == vs[i + 1..];
    var turn := Then(PackUint(1), item(vs[i]));
    ThenAssociates(PackUint(1), item(vs[i]), PackList(item, vs[i + 1..]));
    ThenAssociates(done, turn, PackList(item, vs[i + 1..]));
  }

  lemma EachTurn(item: PackItem, vs: seq<Value>, i: nat, done: Packed)
    requires i < |vs|
    ensures Then(done, PackEach(item, vs[i..])) == Then(Then(done, item(vs[i])), PackEach(item, vs[i + 1..]))
  {
    assert vs[i..][1..] == vs[i + 1..];
    ThenAssociates(done, item(vs[i]), PackEach(item, vs[i + 1..]));
  }

  /** The items read so far in front of what the rest of the loop reads. */
  ghost function Prepend(done: seq<Value>, r: Unpacked<seq<Value>>): (s: Unpacked<seq<Value>>)
    ensures done == [] ==> s == r
    ensures r.Got? && r.value == [] ==> s == Got(done, r.pos)
  {
    if r.Got? then
      assert done == [] ==> done + r.value == r.value;
      assert r.value == [] ==> done + r.value == done;
      Got(done + r.value, r.pos)
    else r
  }

  lemma PrependTurn(done: seq<Value>, v: Value, r: Unpacked<seq<Value>>)
    requires r.Got?
    ensures Prepend(done, Got([v] + r.value, r.pos)) == Prepend(done + [v], r)
  {
    assert done + ([v] + r.value) == done + [v] + r.value;
  }

  class Unpacker {
    var buf: seq<Byte>
    var pos: nat

    constructor (data: seq<Byte>)
      ensures buf == data && pos == 0
    {
      buf := data;
      pos := 0;
    }

    method UnpackUint() returns (r: Unpacked<int>)
      modifies this`pos
      ensures r == Xdr.UnpackUint(buf, old(pos)) && pos == r.pos
    {
      var i := pos;
      var j := i + 4;
      pos := j;
      var data := if j <= |buf| then buf[i..j] else if i <= |buf| then buf[i..] else [];
      if |data| < 4 {
        return Raised(EndOfFile, pos);
      }
      r := Got(Number(data), pos);
    }

    method UnpackUhyper() returns (r: Unpacked<int>)
      modifies this`pos
      ensures r == Xdr.UnpackUhyper(buf, old(pos)) && pos == r.pos
    {
      var hi := UnpackUint();
      if hi.Raised? {
        return hi;
      }
      var lo := UnpackUint();
      if lo.Raised? {
        return lo;
      }
      r := Got(hi.value * TWO32 + lo.value, pos);
    }

    method UnpackFstring(n: int) returns (r: Unpacked<Value>)
      modifies this`pos
      ensures r == Xdr.UnpackFstring(n, buf, old(pos)) && pos == r.pos
    {
      if n < 0 {
        return Raised(ValueError, pos);
      }
      var i := pos;
      var j := i + Rounded(n);
      if j > |buf| {
        return Raised(EndOfFile, pos);
      }
      pos := j;
      r := Got(Bytes(buf[i..i + n]), pos);
    }

    method UnpackScalarItem(k: Kind) returns (r: Unpacked<Value>)
      modifies this`pos
      ensures r == UnpackScalar(k, buf, old(pos)) && pos == r.pos
    {
      if k.FString? {
        r := UnpackFstring(k.size);
      } else if k.UHyper? || k.Hyper? {
        var x := UnpackUhyper();
        if x.Raised? {
          return x.Raise();
        }
        r := Got(Num(if k.Hyper? then Signed(x.value, TWO64) else x.value), pos);
      } else {
        var x := UnpackUint();
        if x.Raised? {
          return x.Raise();
        }
        match k {
          case UInt => r := Got(Num(x.value), pos);
          case Int => r := Got(Num(Signed(x.value, TWO32)), pos);
          case Bool => r := Got(Flag(Signed(x.value, TWO32) != 0), pos);
          case String => r := UnpackFstring(x.value);
        }
      }
    }

    method UnpackList(t: Type) returns (r: Unpacked<seq<Value>>)
      modifies this`pos
      ensures r == Xdr.UnpackList(ItemUnpacker(t, buf), buf, old(pos)) && pos == r.pos
      decreases t, 1
    {
      ghost var item := ItemUnpacker(t, buf);
      var list := [];
      while true
        invariant Prepend(list, Xdr.UnpackList(item, buf, pos)) == Xdr.UnpackList(item, buf, old(pos))
        decreases |buf| - pos
      {
        ghost var start := pos;
        var x := UnpackUint();
        if x.Raised? {
          return x.Raise();
        }
        if x.value == 0 {
          return Got(list, pos);
        }
        if x.value != 1 {
          return Raised(ConversionError, pos);
        }
        var first := UnpackItem(t);
        if first.Raised? {
          return first.Raise();
        }
        ghost var rest := Xdr.UnpackList(item, buf, pos);
        if rest.Got? {
          PrependTurn(list, first.value, rest);
        }
        list := list + [first.value];
      }
    }

    method UnpackFarray(n: int, t: Type) returns (r: Unpacked<seq<Value>>)
      modifies this`pos
      ensures r == Xdr.UnpackFarray(n, ItemUnpacker(t, buf), old(pos)) && pos == r.pos
      decreases t, 1
    {
      ghost var item := ItemUnpacker(t, buf);
      var list := [];
      var i := 0;
      while i < n
        invariant 0 <= i && (i <= n || n < 0)
        invariant Prepend(list, Xdr.UnpackFarray(n - i, item, pos)) == Xdr.UnpackFarray(n, item, old(pos))
      {
        var first := UnpackItem(t);
        if first.Raised? {
          return first.Raise();
        }
        ghost var rest := Xdr.UnpackFarray(n - i - 1, item, pos);
        if rest.Got? {
          PrependTurn(list, first.value, rest);
        }
        list := list + [first.value];
        i := i + 1;
      }
      r := Got(list, pos);
    }

    /** The call a type stands for; as a callback it unpacks the items of lists and arrays. */
    method UnpackItem(t: Type) returns (r: Unpacked<Value>)
      modifies this`pos
      ensures r == Unpack(t, buf, old(pos)) && pos == r.pos
      decreases t, 0
    {
      match t {
        case Scalar(k) =>
          r := UnpackScalarItem(k);
        case List(u) =>
          var s := UnpackList(u);
          r := Wrap(s);
        case FArray(n, u) =>
          var s := UnpackFarray(n, u);
          r := Wrap(s);
        case Array(u) =>
          var x := UnpackUint();
          if x.Raised? {
            return x.Raise();
          }
          var s := UnpackFarray(x.value, u);
          r := Wrap(s);
      }
    }
  }
}
