/**
 Cipher block chaining and ciphertext stealing (section 5 of RFC 3962) over any block cipher: the modes
 the DES and AES providers ask of libucrypto.
 */
module BlockChaining {
  type Octet = bv8
  type Bytes = seq<Octet>

  function Xor(a: Bytes, b: Bytes): (r: Bytes)
    requires |a| == |b|
    ensures |r| == |a|
  {
    seq(|a|, i requires 0 <= i < |a| => a[i] ^ b[i])
  }

  /** Byte by byte, and a string of zeros. */
  lemma XorAt(a: Bytes, b: Bytes, i: nat)
    requires i < |a| == |b|
    ensures Xor(a, b)[i] == a[i] ^ b[i] && Zeros(|a|)[i] == 0
  {
  }

  lemma XorTwice(a: Bytes, b: Bytes)
    requires |a| == |b|
    ensures Xor(Xor(a, b), b) == a
  {
    forall i | 0 <= i < |a| ensures Xor(Xor(a, b), b)[i] == a[i] {
      XorByteTwice(a[i], b[i]);
    }
  }

  lemma XorByteTwice(x: Octet, y: Octet)
    ensures (x ^ y) ^ y == x
  {
  }

  /** A block cipher under one key: both directions keep the block size, and one undoes the other. */
  datatype Cipher = Cipher(size: nat, encrypt: Bytes -> Bytes, decrypt: Bytes -> Bytes) {
    ghost predicate Valid() {
      && size > 0
      && (forall b {:trigger encrypt(b)} :: |b| == size ==> |encrypt(b)| == size)
      && (forall b {:trigger decrypt(b)} :: |b| == size ==> |decrypt(b)| == size)
      && (forall b {:trigger decrypt(encrypt(b))} :: |b| == size ==> decrypt(encrypt(b)) == b)
    }
  }

  /** A length made of whole blocks. */
  predicate Whole(size: nat, n: nat)
    decreases n
  {
    n == 0 || (0 < size <= n && Whole(size, n - size))
  }

  /** Chained encryption, block by block; a rest shorter than a block, which no caller has, stays as it is. */
  ghost function Cbc(c: Cipher, iv: Bytes, x: Bytes): (r: Bytes)
    requires c.Valid() && |iv| == c.size
    ensures |r| == |x|
    decreases |x|
  {
    if |x| < c.size then x
    else
      var y := c.encrypt(Xor(x[..c.size], iv));
      y + Cbc(c, y, x[c.size..])
  }

  ghost function CbcInverse(c: Cipher, iv: Bytes, y: Bytes): (r: Bytes)
    requires c.Valid() && |iv| == c.size
    ensures |r| == |y|
    decreases |y|
  {
    if |y| < c.size then y
    else Xor(c.decrypt(y[..c.size]), iv) + CbcInverse(c, y[..c.size], y[c.size..])
  }

  lemma FirstBlockDecrypts(c: Cipher, iv: Bytes, a: Bytes)
    requires c.Valid() && |iv| == |a| == c.size
    ensures Xor(c.decrypt(c.encrypt(Xor(a, iv))), iv) == a
  {
    XorTwice(a, iv);
  }

  lemma InverseStep(c: Cipher, iv: Bytes, y: Bytes, rest: Bytes)
    requires c.Valid() && |iv| == |y| == c.size
    ensures CbcInverse(c, iv, y + rest) == Xor(c.decrypt(y), iv) + CbcInverse(c, y, rest)
  {
    var z := y + rest;
    assert z[..c.size] == y && z[c.size..] == rest;
  }

  lemma {:induction false} CbcRoundTrip(c: Cipher, iv: Bytes, x: Bytes)
    requires c.Valid() && |iv| == c.size
    ensures CbcInverse(c, iv, Cbc(c, iv, x)) == x
    decreases |x|
  {
    if |x| >= c.size {
      var a, b := x[..c.size], x[c.size..];
      var y := c.encrypt(Xor(a, iv));
      FirstBlockDecrypts(c, iv, a);
      InverseStep(c, iv, y, Cbc(c, y, b));
      CbcRoundTrip(c, y, b);
      assert x == a + b;
    }
  }

  /** The last block of a message that has one. */
  function LastBlock(size: nat, x: Bytes): Bytes
    requires size <= |x|
  {
    x[|x| - size..]
  }

  /** The chaining value after `x`: every block encrypted on top of the one before. */
  ghost function Chain(c: Cipher, iv: Bytes, x: Bytes): (r: Bytes)
    requires c.Valid() && |iv| == c.size
    ensures |r| == c.size
    decreases |x|
  {
    if |x| < c.size then iv
    else Chain(c, c.encrypt(Xor(x[..c.size], iv)), x[c.size..])
  }

  lemma {:induction false} ChainIsLastBlock(c: Cipher, iv: Bytes, x: Bytes)
    requires c.Valid() && |iv| == c.size && Whole(c.size, |x|) && x != []
    ensures c.size <= |x| && Chain(c, iv, x) == LastBlock(c.size, Cbc(c, iv, x))
    decreases |x|
  {
    var y, rest := c.encrypt(Xor(x[..c.size], iv)), x[c.size..];
    if rest != [] {
      ChainIsLastBlock(c, y, rest);
    }
  }

  lemma CbcOfTwo(c: Cipher, iv: Bytes, a: Bytes, b: Bytes)
    requires c.Valid() && |iv| == |a| == |b| == c.size
    ensures var e := c.encrypt(Xor(a, iv));
            Cbc(c, iv, a + b) == e + c.encrypt(Xor(b, e))
  {
    var e, x := c.encrypt(Xor(a, iv)), a + b;
    assert x[..c.size] == a && x[c.size..] == b;
    assert b[..c.size] == b && b[c.size..] == [];
  }

  /** A block put in front: what lies behind it moves by its length. */
  lemma SliceBehind(p: Bytes, q: Bytes, i: nat, j: nat)
    requires i <= j <= |q|
    ensures (p + q)[|p| + i..|p| + j] == q[i..j]
  {
  }

  lemma SliceOfRest(x: Bytes, n: nat, i: nat, j: nat)
    requires i <= j && n + j <= |x|
    ensures x[n + i..n + j] == x[n..][i..j]
  {
  }

  /** The ciphertext block before `k`, or the starting value. */
  function Before(size: nat, iv: Bytes, y: Bytes, k: nat): Bytes
    requires k == 0 || size <= k <= |y|
  {
    if k == 0 then iv else y[k - size..k]
  }

  lemma BeforeBehind(iv: Bytes, e: Bytes, y: Bytes, k: nat)
    requires e != [] && (k == 0 || |e| <= k <= |y|)
    ensures Before(|e|, iv, e + y, |e| + k) == Before(|e|, e, y, k)
  {
    if k == 0 {
      assert (e + y)[0..|e|] == e;
    } else {
      SliceBehind(e, y, k - |e|, k);
    }
  }

  /** Every block of a chained message is made of its plaintext block and the ciphertext block before it. */
  lemma {:induction false} CbcChains(c: Cipher, iv: Bytes, x: Bytes, k: nat, p: Bytes, q: Bytes)
    requires c.Valid() && |iv| == c.size && Whole(c.size, k) && k + c.size <= |x|
    requires p == x[k..k + c.size] && q == Cbc(c, iv, x)[k..k + c.size]
    ensures k == 0 || c.size <= k
    ensures q == c.encrypt(Xor(p, Before(c.size, iv, Cbc(c, iv, x), k)))
    decreases k
  {
    var a, rest := x[..c.size], x[c.size..];
    var e := c.encrypt(Xor(a, iv));
    var z := Cbc(c, e, rest);
    assert Cbc(c, iv, x) == e + z;
    if k == 0 {
      assert p == a && q == e;
    } else {
      var j := k - c.size;
      SliceBehind(e, z, j, j + c.size);
      SliceOfRest(x, c.size, j, j + c.size);
      CbcChains(c, e, rest, j, p, q);
      BeforeBehind(iv, e, z, j);
    }
  }

  // ---------------------------------------------------------------------------
  // Ciphertext stealing

  function Zeros(n: nat): (z: Bytes)
    ensures |z| == n
  {
    seq(n, _ => 0)
  }

  /** How many bytes come before the last two blocks, the last of which may be short. */
  function BeforeLastTwo(size: nat, n: nat): (k: nat)
    requires 0 < size < n
    ensures k + size < n <= k + 2 * size && Whole(size, k)
    decreases n
  {
    if n <= 2 * size then 0 else size + BeforeLastTwo(size, n - size)
  }

  /** Filled up with zeros to whole blocks. */
  function Padded(size: nat, x: Bytes): (p: Bytes)
    requires 0 < size < |x|
  {
    x + Zeros(BeforeLastTwo(size, |x|) + 2 * size - |x|)
  }

  /** The two blocks behind the first `k` bytes change places and only `n` bytes are kept. */
  function Swapped(size: nat, y: Bytes, k: nat, n: nat): (z: Bytes)
    requires k + size <= n <= |y| == k + 2 * size
    ensures |z| == n
  {
    y[..k] + y[k + size..] + y[k..n - size]
  }

  /** The padded message is chained, its last two blocks change places, and as much as was filled up is cut off. */
  ghost function Cts(c: Cipher, iv: Bytes, x: Bytes): (r: Bytes)
    requires c.Valid() && |iv| == c.size < |x|
    ensures |r| == |x|
  {
    Swapped(c.size, Cbc(c, iv, Padded(c.size, x)), BeforeLastTwo(c.size, |x|), |x|)
  }

  /** The chained ciphertext again: the bytes cut off are found in the decryption of the block moved forward. */
  ghost function Unswapped(c: Cipher, z: Bytes, k: nat): (y: Bytes)
    requires c.Valid() && k + c.size <= |z| <= k + 2 * c.size
    ensures |y| == k + 2 * c.size
  {
    var moved, short := z[k..k + c.size], z[k + c.size..];
    z[..k] + (short + c.decrypt(moved)[|short|..]) + moved
  }

  ghost function CtsInverse(c: Cipher, iv: Bytes, z: Bytes): (r: Bytes)
    requires c.Valid() && |iv| == c.size < |z|
    ensures |r| == |z|
  {
    CbcInverse(c, iv, Unswapped(c, z, BeforeLastTwo(c.size, |z|)))[..|z|]
  }

  lemma XorZeroTail(a: Bytes, b: Bytes, n: nat)
    requires n <= |a| == |b| && a[n..] == Zeros(|a| - n)
    ensures Xor(a, b)[n..] == b[n..]
  {
    forall i | n <= i < |a| ensures Xor(a, b)[i] == b[i] {
      assert a[i] == a[n..][i - n];
      XorZeroByte(b[i]);
    }
  }

  lemma XorZeroByte(y: Octet)
    ensures 0 ^ y == y
  {
  }

  /** The last block of a chained message is made of its last plaintext block and the block before. */
  lemma {:induction false} LastOfChained(c: Cipher, iv: Bytes, p: Bytes, k: nat)
    requires c.Valid() && |iv| == c.size && Whole(c.size, k) && |p| == k + 2 * c.size
    ensures var y := Cbc(c, iv, p);
            y[k + c.size..] == c.encrypt(Xor(p[k + c.size..], y[k..k + c.size]))
    decreases k
  {
    var a, rest := p[..c.size], p[c.size..];
    if k == 0 {
      assert p == a + rest;
      CbcOfTwo(c, iv, a, rest);
    } else {
      var e := c.encrypt(Xor(a, iv));
      var y, z := Cbc(c, iv, p), Cbc(c, e, rest);
      LastOfChained(c, e, rest, k - c.size);
      assert y == e + z;
      assert p[k + c.size..] == rest[k..] && y[k + c.size..] == z[k..] && y[k..k + c.size] == z[k - c.size..k];
    }
  }

  /** The decryption of a block made from zeros at its end shows the block it was chained on. */
  lemma StolenBytesComeBack(c: Cipher, e: Bytes, b: Bytes, n: nat)
    requires c.Valid() && n <= |e| == |b| == c.size && b[n..] == Zeros(c.size - n)
    ensures e[..n] + c.decrypt(c.encrypt(Xor(b, e)))[n..] == e
  {
    XorZeroTail(b, e, n);
  }

  lemma ThreeParts(u: Bytes, f: Bytes, v: Bytes)
    ensures var z := u + f + v; z[..|u|] == u && z[|u|..|u| + |f|] == f && z[|u| + |f|..] == v
  {
  }

  /** What stands where after the swap. */
  lemma SwappedParts(size: nat, y: Bytes, k: nat, n: nat)
    requires k + size <= n <= |y| == k + 2 * size
    ensures var z := Swapped(size, y, k, n);
            && z[..k] == y[..k] && z[k..k + size] == y[k + size..]
            && z[k + size..] == y[k..k + size][..n - k - size]
  {
    ThreeParts(y[..k], y[k + size..], y[k..n - size]);
    assert y[k..n - size] == y[k..k + size][..n - k - size];
  }

  /** When the last block was made on top of the one before from a plaintext that ends in zeros. */
  lemma SwapIsUndone(c: Cipher, y: Bytes, k: nat, n: nat, b: Bytes)
    requires c.Valid() && k + c.size <= n <= |y| == k + 2 * c.size && |b| == c.size
    requires y[k + c.size..] == c.encrypt(Xor(b, y[k..k + c.size]))
    requires b[n - k - c.size..] == Zeros(|y| - n)
    ensures Unswapped(c, Swapped(c.size, y, k, n), k) == y
  {
    var e, f := y[k..k + c.size], y[k + c.size..];
    SwappedParts(c.size, y, k, n);
    StolenBytesComeBack(c, e, b, n - k - c.size);
    assert y == y[..k] + e + f;
  }

  /** Decryption undoes encryption, whatever the length of the last block. */
  lemma CtsRoundTrip(c: Cipher, iv: Bytes, x: Bytes)
    requires c.Valid() && |iv| == c.size < |x|
    ensures CtsInverse(c, iv, Cts(c, iv, x)) == x
  {
    var k, p := BeforeLastTwo(c.size, |x|), Padded(c.size, x);
    LastOfChained(c, iv, p, k);
    SwapIsUndone(c, Cbc(c, iv, p), k, |x|, p[k + c.size..]);
    CbcRoundTrip(c, iv, p);
  }

  lemma MovedBlock(size: nat, y: Bytes, k: nat, n: nat)
    requires k + size <= n <= |y| == k + 2 * size
    ensures Swapped(size, y, k, n)[k..k + size] == LastBlock(size, y)
  {
  }

  lemma ChainIsMoved(c: Cipher, iv: Bytes, p: Bytes, k: nat, n: nat)
    requires c.Valid() && |iv| == c.size && Whole(c.size, |p|)
    requires k + c.size <= n <= |p| == k + 2 * c.size
    ensures Swapped(c.size, Cbc(c, iv, p), k, n)[k..k + c.size] == Chain(c, iv, p)
  {
    ChainIsLastBlock(c, iv, p);
    MovedBlock(c.size, Cbc(c, iv, p), k, n);
  }

  lemma TwoMoreBlocks(size: nat, k: nat)
    requires 0 < size && Whole(size, k)
    ensures Whole(size, k + 2 * size)
  {
    assert Whole(size, k + size);
  }

  /** The block moved forward is the chaining value after the padded message. */
  lemma MovedBlockIsChain(c: Cipher, iv: Bytes, x: Bytes)
    requires c.Valid() && |iv| == c.size < |x|
    ensures var k := BeforeLastTwo(c.size, |x|);
            Cts(c, iv, x)[k..k + c.size] == Chain(c, iv, Padded(c.size, x))
  {
    var k := BeforeLastTwo(c.size, |x|);
    TwoMoreBlocks(c.size, k);
    ChainIsMoved(c, iv, Padded(c.size, x), k, |x|);
  }
}
