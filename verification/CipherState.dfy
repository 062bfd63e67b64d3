/**
 The DES and AES encryption providers (des.c, aes.c): gathering the encrypted parts of a message,
 the library call, scattering the result, and the cipher state carried from message to message.

 The block ciphers come from outside, with the law that decryption undoes encryption.
 */
module CipherState {
  import opened Wrappers
  import opened BlockChaining

  /** One part of a message; only some parts are encrypted. */
  datatype Iov = Iov(encrypted: bool, data: Bytes)

  datatype Code = Ok | BadKeySize | BadMessageSize | CryptoInternal

  /** What a provider makes of the gathered bytes: return code, output and new state. */
  datatype Outcome = Outcome(code: Code, bytes: Bytes, ivec: Option<Bytes>)

  // ---------------------------------------------------------------------------
  // Gathering and scattering

  function Gather(iovs: seq<Iov>): (r: Bytes) {
    if iovs == [] then []
    else (if iovs[0].encrypted then iovs[0].data else []) + Gather(iovs[1..])
  }

  /** The encrypted parts overwritten in order, each keeping its length; the others untouched. */
  function Scatter(iovs: seq<Iov>, buf: Bytes): (r: seq<Iov>)
    requires |buf| == |Gather(iovs)|
    ensures |r| == |iovs|
  {
    if iovs == [] then []
    else if iovs[0].encrypted then
      var n := |iovs[0].data|;
      [Iov(true, buf[..n])] + Scatter(iovs[1..], buf[n..])
    else [iovs[0]] + Scatter(iovs[1..], buf)
  }

  /** The encrypted parts one after the other, and nothing of the others. */
  lemma {:induction false} GatherIsConcatenation(a: seq<Iov>, b: seq<Iov>, data: Bytes)
    ensures Gather(a + b) == Gather(a) + Gather(b)
    ensures Gather([Iov(true, data)]) == data && Gather([Iov(false, data)]) == []
  {
    assert [Iov(true, data)][1..] == [] && data + [] == data;
    if a == [] {
      assert a + b == b;
    } else {
      GatherIsConcatenation(a[1..], b, data);
      assert (a + b)[1..] == a[1..] + b;
    }
  }

  lemma {:induction false} GatherOfScatter(iovs: seq<Iov>, buf: Bytes)
    requires |buf| == |Gather(iovs)|
    ensures Gather(Scatter(iovs, buf)) == buf
  {
    if iovs != [] {
      var n := if iovs[0].encrypted then |iovs[0].data| else 0;
      GatherOfScatter(iovs[1..], buf[n..]);
      assert buf == buf[..n] + buf[n..];
      var r := Scatter(iovs, buf);
      assert r[1..] == Scatter(iovs[1..], buf[n..]);
    }
  }

  /** Scattering never touches a part that is not encrypted, nor changes a length. */
  lemma {:induction false} ScatterKeepsShape(iovs: seq<Iov>, buf: Bytes, k: nat)
    requires |buf| == |Gather(iovs)| && k < |iovs|
    ensures var r := Scatter(iovs, buf);
            && r[k].encrypted == iovs[k].encrypted && |r[k].data| == |iovs[k].data|
            && (!iovs[k].encrypted ==> r[k] == iovs[k])
  {
    var n := if iovs[0].encrypted then |iovs[0].data| else 0;
    if k > 0 {
      ScatterKeepsShape(iovs[1..], buf[n..], k - 1);
    }
  }

  // ---------------------------------------------------------------------------
  // The providers, on gathered bytes

  const DES_BLOCK: nat := 8
  const AES_BLOCK: nat := 16

  /** The state to start from: the one given, or zeros when there is none. */
  function StartingFrom(ivec: Option<Bytes>, n: nat): Bytes {
    if ivec.Some? then ivec.value else Zeros(n)
  }

  function DesValidate(keyLength: nat, ivec: Option<Bytes>, length: nat): Code {
    if keyLength != DES_BLOCK then BadKeySize
    else if length % DES_BLOCK != 0 then BadMessageSize
    else if ivec.Some? && |ivec.value| != DES_BLOCK then BadMessageSize
    else Ok
  }

  ghost predicate IsDes(c: Cipher) {
    c.Valid() && c.size == DES_BLOCK
  }

  /** The new state is the last block of ciphertext. */
  ghost function DesEncrypt(c: Cipher, keyLength: nat, ivec: Option<Bytes>, x: Bytes): Outcome
    requires IsDes(c)
  {
    var code := DesValidate(keyLength, ivec, |x|);
    if code != Ok || x == [] then Outcome(code, x, ivec)
    else
      var y := Cbc(c, StartingFrom(ivec, DES_BLOCK), x);
      Outcome(Ok, y, if ivec.Some? then Some(LastBlock(DES_BLOCK, y)) else None)
  }

  ghost function DesDecrypt(c: Cipher, keyLength: nat, ivec: Option<Bytes>, y: Bytes): Outcome
    requires IsDes(c)
  {
    var code := DesValidate(keyLength, ivec, |y|);
    if code != Ok || y == [] then Outcome(code, y, ivec)
    else
      Outcome(Ok, CbcInverse(c, StartingFrom(ivec, DES_BLOCK), y),
              if ivec.Some? then Some(LastBlock(DES_BLOCK, y)) else None)
  }

  ghost predicate IsAes(c: Cipher) {
    c.Valid() && c.size == AES_BLOCK
  }

  function AesBlocks(length: nat): nat {
    (length + AES_BLOCK - 1) / AES_BLOCK
  }

  /** The last block but one of the ciphertext. */
  function AesState(y: Bytes): Bytes
    requires AesBlocks(|y|) > 1
  {
    var n := AesBlocks(|y|);
    y[(n - 2) * AES_BLOCK..(n - 1) * AES_BLOCK]
  }

  /**
   A single block is encrypted from zeros and leaves the state alone; more than one is chained. No block
   at all counts as refused: the C code would go on and look for a state in front of its buffer.
   */
  ghost function AesEncrypt(c: Cipher, ivec: Option<Bytes>, x: Bytes): Outcome
    requires IsAes(c)
  {
    if x == [] then Outcome(CryptoInternal, x, ivec)
    else if AesBlocks(|x|) == 1 then
      if |x| != AES_BLOCK then Outcome(BadMessageSize, x, ivec)
      else Outcome(Ok, Cbc(c, Zeros(AES_BLOCK), x), ivec)
    else if ivec.Some? && |ivec.value| != AES_BLOCK then Outcome(CryptoInternal, x, ivec)
    else
      var y := Cts(c, StartingFrom(ivec, AES_BLOCK), x);
      Outcome(Ok, y, if ivec.Some? then Some(AesState(y)) else None)
  }

  ghost function AesDecrypt(c: Cipher, ivec: Option<Bytes>, y: Bytes): Outcome
    requires IsAes(c)
  {
    if y == [] then Outcome(CryptoInternal, y, ivec)
    else if AesBlocks(|y|) == 1 then
      if |y| != AES_BLOCK then Outcome(BadMessageSize, y, ivec)
      else Outcome(Ok, CbcInverse(c, Zeros(AES_BLOCK), y), ivec)
    else if ivec.Some? && |ivec.value| != AES_BLOCK then Outcome(CryptoInternal, y, ivec)
    else
      Outcome(Ok, CtsInverse(c, StartingFrom(ivec, AES_BLOCK), y),
              if ivec.Some? then Some(AesState(y)) else None)
  }

  /** From equal states, decryption gives the plaintext back and ends in the sender's new state. */
  ghost predicate Undone(e: Outcome, d: Outcome, x: Bytes) {
    && |e.bytes| == |x|
    && (e.code == Ok ==> d == Outcome(Ok, x, e.ivec))
  }

  lemma DesIsUndone(c: Cipher, keyLength: nat, ivec: Option<Bytes>, x: Bytes)
    requires IsDes(c)
    ensures var e := DesEncrypt(c, keyLength, ivec, x);
            Undone(e, DesDecrypt(c, keyLength, ivec, e.bytes), x)
  {
    if DesValidate(keyLength, ivec, |x|) == Ok && x != [] {
      CbcRoundTrip(c, StartingFrom(ivec, DES_BLOCK), x);
    }
  }

  /** The same for AES; a single block stands alone, encrypted from zeros whatever the state is. */
  lemma AesIsUndone(c: Cipher, ivec: Option<Bytes>, x: Bytes)
    requires IsAes(c)
    ensures var e := AesEncrypt(c, ivec, x); |e.bytes| == |x| && Undone(e, AesDecrypt(c, ivec, e.bytes), x)
    ensures |x| == AES_BLOCK ==> AesEncrypt(c, ivec, x) == Outcome(Ok, Chain(c, Zeros(AES_BLOCK), x), ivec)
  {
    if |x| == AES_BLOCK {
      CbcRoundTrip(c, Zeros(AES_BLOCK), x);
      ChainIsLastBlock(c, Zeros(AES_BLOCK), x);
    } else if |x| > AES_BLOCK && (ivec.Some? ==> |ivec.value| == AES_BLOCK) {
      CtsRoundTrip(c, StartingFrom(ivec, AES_BLOCK), x);
    }
  }

  // ---------------------------------------------------------------------------
  // What is accepted, and where chaining starts

  /** Keys and states of eight bytes, and messages of whole blocks of eight. */
  lemma DesAcceptsExactly(keyLength: nat, ivec: Option<Bytes>, length: nat)
    ensures var code := DesValidate(keyLength, ivec, length);
            && (code == Ok <==> keyLength == 8 && length % 8 == 0 && (ivec.Some? ==> |ivec.value| == 8))
            && (code == BadKeySize <==> keyLength != 8)
            && (code == Ok || code == BadKeySize || code == BadMessageSize)
  {
  }

  /** Any length from one block of sixteen bytes on; a state is looked at only above one block. */
  lemma AesAcceptsExactly(c: Cipher, ivec: Option<Bytes>, x: Bytes)
    requires IsAes(c)
    ensures AesEncrypt(c, ivec, x).code == AesDecrypt(c, ivec, x).code
    ensures AesEncrypt(c, ivec, x).code == Ok <==>
            |x| == 16 || (|x| > 16 && (ivec.Some? ==> |ivec.value| == 16))
    ensures AesEncrypt(c, ivec, x).code == BadMessageSize <==> 0 < |x| < 16
  {
  }

  /** Without a state chaining starts from zeros, in both directions and for both ciphers. */
  lemma NoStateIsZeroState(c: Cipher, keyLength: nat, x: Bytes)
    ensures IsDes(c) ==>
              && DesEncrypt(c, keyLength, None, x).bytes == DesEncrypt(c, keyLength, Some(Zeros(8)), x).bytes
              && DesDecrypt(c, keyLength, None, x).bytes == DesDecrypt(c, keyLength, Some(Zeros(8)), x).bytes
    ensures IsAes(c) ==>
              && AesEncrypt(c, None, x).bytes == AesEncrypt(c, Some(Zeros(16)), x).bytes
              && AesDecrypt(c, None, x).bytes == AesDecrypt(c, Some(Zeros(16)), x).bytes
  {
  }

  // ---------------------------------------------------------------------------
  // Streams of messages, split differently on the two sides

  type Provider = (Option<Bytes>, Bytes) -> Outcome

  /** One direction undoes the other on every message. */
  ghost predicate Inverse(enc: Provider, dec: Provider) {
    forall ivec, x ::
      && |dec(ivec, x).bytes| == |x|
      && Undone(enc(ivec, x), dec(ivec, enc(ivec, x).bytes), x)
  }

  /** A provider call on a message in parts. */
  datatype Sent = Sent(code: Code, iovs: seq<Iov>, ivec: Option<Bytes>)

  ghost function OnParts(f: Provider, ivec: Option<Bytes>, iovs: seq<Iov>): Sent {
    var x := Gather(iovs);
    var o := f(ivec, x);
    if o.code == Ok && |o.bytes| == |x| then Sent(Ok, Scatter(iovs, o.bytes), o.ivec)
    else Sent(o.code, iovs, ivec)
  }

  /** Every message was encrypted, and arrived in any other split of the same bytes. */
  ghost predicate Transmitted(enc: Provider, ivec: Option<Bytes>, sent: seq<seq<Iov>>, arrived: seq<seq<Iov>>)
    decreases |sent|
  {
    && |arrived| == |sent|
    && (sent != [] ==>
          var o := OnParts(enc, ivec, sent[0]);
          && o.code == Ok
          && Gather(arrived[0]) == Gather(o.iovs)
          && Transmitted(enc, o.ivec, sent[1..], arrived[1..]))
  }

  ghost function StateAfter(f: Provider, ivec: Option<Bytes>, messages: seq<seq<Iov>>): Option<Bytes>
    decreases |messages|
  {
    if messages == [] then ivec else StateAfter(f, OnParts(f, ivec, messages[0]).ivec, messages[1..])
  }

  /** The state after one more message is the one the call on that message leaves. */
  lemma {:induction false} StateAfterOneMore(f: Provider, ivec: Option<Bytes>, messages: seq<seq<Iov>>, m: seq<Iov>)
    ensures StateAfter(f, ivec, []) == ivec
    ensures StateAfter(f, ivec, messages + [m]) == OnParts(f, StateAfter(f, ivec, messages), m).ivec
    decreases |messages|
  {
    if messages == [] {
      assert messages + [m] == [m];
    } else {
      StateAfterOneMore(f, OnParts(f, ivec, messages[0]).ivec, messages[1..], m);
      assert (messages + [m])[1..] == messages[1..] + [m];
    }
  }

  /** What the receiver reads out of the parts it has decrypted in place. */
  ghost function Plaintexts(f: Provider, ivec: Option<Bytes>, messages: seq<seq<Iov>>): seq<Bytes>
    decreases |messages|
  {
    if messages == [] then []
    else
      var o := OnParts(f, ivec, messages[0]);
      [Gather(o.iovs)] + Plaintexts(f, o.ivec, messages[1..])
  }

  function Gathered(messages: seq<seq<Iov>>): seq<Bytes> {
    if messages == [] then [] else [Gather(messages[0])] + Gathered(messages[1..])
  }

  lemma OneMessageIsUndone(enc: Provider, dec: Provider, ivec: Option<Bytes>, sent: seq<Iov>, arrived: seq<Iov>)
    requires Inverse(enc, dec)
    requires var o := OnParts(enc, ivec, sent); o.code == Ok && Gather(arrived) == Gather(o.iovs)
    ensures var d := OnParts(dec, ivec, arrived);
            d.code == Ok && d.ivec == OnParts(enc, ivec, sent).ivec && Gather(d.iovs) == Gather(sent)
  {
    var x := Gather(sent);
    var e := enc(ivec, x);
    assert Undone(e, dec(ivec, e.bytes), x);
    GatherOfScatter(sent, e.bytes);
    GatherOfScatter(arrived, x);
  }

  /** Over a stream of any length both states stay equal and every message comes back. */
  lemma {:induction false} StreamsDecrypt(enc: Provider, dec: Provider, ivec: Option<Bytes>,
                                          sent: seq<seq<Iov>>, arrived: seq<seq<Iov>>)
    requires Inverse(enc, dec) && Transmitted(enc, ivec, sent, arrived)
    ensures Plaintexts(dec, ivec, arrived) == Gathered(sent)
    ensures StateAfter(dec, ivec, arrived) == StateAfter(enc, ivec, sent)
    decreases |sent|
  {
    if sent != [] {
      OneMessageIsUndone(enc, dec, ivec, sent[0], arrived[0]);
      StreamsDecrypt(enc, dec, OnParts(enc, ivec, sent[0]).ivec, sent[1..], arrived[1..]);
    }
  }

  ghost function DesEncryptor(c: Cipher, keyLength: nat): Provider
    requires IsDes(c)
  {
    (ivec: Option<Bytes>, x: Bytes) => if IsDes(c) then DesEncrypt(c, keyLength, ivec, x) else Outcome(Ok, x, ivec)
  }

  ghost function DesDecryptor(c: Cipher, keyLength: nat): Provider
    requires IsDes(c)
  {
    (ivec: Option<Bytes>, x: Bytes) => if IsDes(c) then DesDecrypt(c, keyLength, ivec, x) else Outcome(Ok, x, ivec)
  }

  lemma DesStreamsDecrypt(c: Cipher, keyLength: nat, ivec: Option<Bytes>,
                          sent: seq<seq<Iov>>, arrived: seq<seq<Iov>>)
    requires IsDes(c) && Transmitted(DesEncryptor(c, keyLength), ivec, sent, arrived)
    ensures Plaintexts(DesDecryptor(c, keyLength), ivec, arrived) == Gathered(sent)
    ensures StateAfter(DesDecryptor(c, keyLength), ivec, arrived) == StateAfter(DesEncryptor(c, keyLength), ivec, sent)
  {
    var enc, dec := DesEncryptor(c, keyLength), DesDecryptor(c, keyLength);
    forall iv, x
      ensures |dec(iv, x).bytes| == |x| && Undone(enc(iv, x), dec(iv, enc(iv, x).bytes), x)
    {
      DesIsUndone(c, keyLength, iv, x);
    }
    StreamsDecrypt(enc, dec, ivec, sent, arrived);
  }

  ghost function AesEncryptor(c: Cipher): Provider
    requires IsAes(c)
  {
    (ivec: Option<Bytes>, x: Bytes) => if IsAes(c) then AesEncrypt(c, ivec, x) else Outcome(Ok, x, ivec)
  }

  ghost function AesDecryptor(c: Cipher): Provider
    requires IsAes(c)
  {
    (ivec: Option<Bytes>, x: Bytes) => if IsAes(c) then AesDecrypt(c, ivec, x) else Outcome(Ok, x, ivec)
  }

  lemma AesStreamsDecrypt(c: Cipher, ivec: Option<Bytes>, sent: seq<seq<Iov>>, arrived: seq<seq<Iov>>)
    requires IsAes(c) && Transmitted(AesEncryptor(c), ivec, sent, arrived)
    ensures Plaintexts(AesDecryptor(c), ivec, arrived) == Gathered(sent)
    ensures StateAfter(AesDecryptor(c), ivec, arrived) == StateAfter(AesEncryptor(c), ivec, sent)
  {
    var enc, dec := AesEncryptor(c), AesDecryptor(c);
    forall iv, x
      ensures |dec(iv, x).bytes| == |x| && Undone(enc(iv, x), dec(iv, enc(iv, x).bytes), x)
    {
      AesIsUndone(c, iv, x);
    }
    StreamsDecrypt(enc, dec, ivec, sent, arrived);
  }

  // ---------------------------------------------------------------------------
  // The message authentication code of DES

  /** The loop over whole blocks of the gathered bytes, one chaining value at a time. */
  method DesCbcMac(c: Cipher, keyLength: nat, iovs: seq<Iov>, ivec: Option<Bytes>, outLength: nat)
    returns (code: Code, output: Bytes)
    requires IsDes(c)
    ensures code == (if DesValidate(keyLength, ivec, |Gather(iovs)|) != Ok
                     then DesValidate(keyLength, ivec, |Gather(iovs)|)
                     else if outLength != DES_BLOCK then BadMessageSize else Ok)
    ensures code == Ok ==>
              && (ivec.Some? ==> |ivec.value| == c.size)
              && output == Chain(c, if ivec.Some? then ivec.value else Zeros(c.size), Gather(iovs))
  {
    var x := Gather(iovs);
    output := [];
    code := DesValidate(keyLength, ivec, |x|);
    if code != Ok {
      return;
    }
    if outLength != DES_BLOCK {
      code := BadMessageSize;
      return;
    }
    ghost var iv := StartingFrom(ivec, DES_BLOCK);
    var y := StartingFrom(ivec, DES_BLOCK);
    var i := 0;
    assert x[0..] == x;
    while i + DES_BLOCK <= |x|
      invariant 0 <= i <= |x| && |y| == DES_BLOCK
      invariant Chain(c, y, x[i..]) == Chain(c, iv, x)
    {
      assert x[i..][..DES_BLOCK] == x[i..i + DES_BLOCK] && x[i..][DES_BLOCK..] == x[i + DES_BLOCK..];
      var b := Xor(x[i..i + DES_BLOCK], y);
      y := c.encrypt(b);
      i := i + DES_BLOCK;
    }
    output := y;
  }

  /** On a non-empty message the code is the last ciphertext block, which is also the state encryption leaves. */
  lemma MacIsCipherState(c: Cipher, keyLength: nat, iovs: seq<Iov>, iv: Bytes)
    requires IsDes(c) && Gather(iovs) != []
    requires DesValidate(keyLength, Some(iv), |Gather(iovs)|) == Ok
    ensures var x := Gather(iovs); var e := DesEncrypt(c, keyLength, Some(iv), x);
            && |x| >= DES_BLOCK
            && Chain(c, iv, x) == LastBlock(DES_BLOCK, Cbc(c, iv, x))
            && e.ivec == Some(Chain(c, iv, x))
  {
    WholeDesBlocks(|Gather(iovs)|);
    ChainIsLastBlock(c, iv, Gather(iovs));
  }

  lemma {:induction false} WholeAesBlocks(k: nat)
    requires Whole(AES_BLOCK, k)
    ensures k % AES_BLOCK == 0
  {
    if k > 0 {
      WholeAesBlocks(k - AES_BLOCK);
    }
  }

  /** The state AES writes back is the chaining value after the zero-padded plaintext, as with DES. */
  lemma AesStateIsChain(c: Cipher, iv: Bytes, x: Bytes)
    requires IsAes(c) && |iv| == AES_BLOCK < |x|
    ensures AesEncrypt(c, Some(iv), x).ivec == Some(Chain(c, iv, Padded(AES_BLOCK, x)))
  {
    var k := BeforeLastTwo(AES_BLOCK, |x|);
    WholeAesBlocks(k);
    assert k == (AesBlocks(|x|) - 2) * AES_BLOCK;
    MovedBlockIsChain(c, iv, x);
  }

  lemma {:induction false} WholeDesBlocks(n: nat)
    requires n % DES_BLOCK == 0
    ensures Whole(DES_BLOCK, n)
  {
    if n > 0 {
      WholeDesBlocks(n - DES_BLOCK);
    }
  }
}
