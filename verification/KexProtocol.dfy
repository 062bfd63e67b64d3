/**
 The GSS-authenticated SSH key exchange (sections 2.1 and 2.2 of RFC 4462): messages, and what
 the two programs take from outside. The GSS mechanism, the hash and the MIC are given from
 outside; key agreement is modular exponentiation.
 */
module KexProtocol {
  import opened Wrappers
  import opened Words
  import DH = DiffieHellman

  type Octets = seq<int>

  /** A GSS major status: COMPLETE is no bit at all. */
  datatype Major = Major(error: bool, continueNeeded: bool, supplementary: bool) {
    predicate Complete() {
      !error && !continueNeeded && !supplementary
    }
  }

  /** What one call of gss_init_sec_context or gss_accept_sec_context hands back. */
  datatype GssResult = GssResult(maj: Major, token: Octets, mutual: bool, integ: bool)

  datatype Group = Group(p: nat, g: nat)

  datatype Message =
    | GroupReq(min: int, nbits: int, max: int)
    | GroupMsg(group: Group)
    | Init(token: Octets, pub: nat)
    | Continue(token: Octets)
    | HostKey(blob: Octets)
    | Complete(pub: nat, mic: Octets, finalToken: Option<Octets>)
    | ErrorMsg
    | Garbled          // contents that cannot be read, of whatever type
    | Other            // a packet type the exchange does not know

  /** Which exchange was negotiated: a known group, or one asked for by size. */
  datatype Kind = FixedGroup(group: Group) | GroupExchange(nbits: int)

  /** What one side knows of the connection: the version strings and both KEXINIT packets. */
  datatype Side = Side(clientVersion: Octets, serverVersion: Octets, my: Octets, peer: Octets)

  /** The size parameters and the group enter the hash only after a group exchange. */
  datatype GexInputs = NoGex | Gex(min: int, nbits: int, max: int, group: Group)

  datatype HashInputs = HashInputs(
    clientVersion: Octets, serverVersion: Octets,
    clientKexInit: Octets, serverKexInit: Octets,
    hostKey: Octets,
    gex: GexInputs,
    clientPub: nat, serverPub: nat,
    secret: nat)

  /** Everything the two programs take from outside. A key of `None` is a failed key generation. */
  datatype Config = Config(
    kind: Kind,
    groupMin: int, groupMax: int,
    client: Side, server: Side,
    clientKey: Option<nat>, serverKey: Option<nat>,
    choose: (int, int, int) -> Option<Group>,
    validPub: (Group, nat) -> bool,
    hash: HashInputs -> Octets,
    sign: Octets -> Option<Octets>,
    checkMic: (Octets, Octets) -> bool)

  /** How a program stands: out of input, ended by an error, before the MIC check, or with keys. */
  datatype Ending = Waiting | Fatal | AtMicCheck | Keys(secret: nat, hashed: HashInputs)

  function Bits(p: nat): nat {
    if p == 0 then 0 else 1 + Bits(p / 2)
  }

  /** A number has `n` bits when it lies between two neighbouring powers of two. */
  lemma {:induction false} BitsAreExact(p: nat)
    ensures p < TwoTo(Bits(p)) && (p > 0 ==> Bits(p) > 0 && TwoTo(Bits(p) - 1) <= p)
  {
    if p > 1 {
      BitsAreExact(p / 2);
    }
  }

  /** The size of a modulus within bounds, told by powers of two. */
  ghost predicate SizeAllowed(p: nat, lo: int, hi: int) {
    (lo > 0 ==> TwoTo(lo - 1) <= p) && hi >= 0 && p < TwoTo(hi)
  }

  lemma SizeAllowedExactly(p: nat, lo: int, hi: int)
    ensures lo <= Bits(p) <= hi <==> SizeAllowed(p, lo, hi)
  {
    var n := Bits(p);
    BitsAreExact(p);
    if lo > 0 {
      if lo <= n {
        TwoToGrows(lo - 1, n - 1);
      } else {
        TwoToGrows(n, lo - 1);
      }
    }
    if hi >= 0 {
      if n <= hi {
        TwoToGrows(n, hi);
      } else {
        TwoToGrows(hi, n - 1);
      }
    }
  }

  function Pub(group: Group, key: Option<nat>): nat {
    if key.None? then 0 else DH.ModExp(group.g, key.value, group.p)
  }

  function Secret(group: Group, key: Option<nat>, peerPub: nat): nat {
    if key.None? then 0 else DH.ModExp(peerPub, key.value, group.p)
  }

  function Clamp(lo: int, hi: int, n: int): int {
    var up := if n < lo then lo else n;
    if up > hi then hi else up
  }

  /** How many of the messages satisfy `p`. */
  function Count(p: Message -> bool, ms: seq<Message>): (n: nat) {
    if ms == [] then 0 else Count(p, ms[..|ms| - 1]) + (if p(ms[|ms| - 1]) then 1 else 0)
  }

  const IS_INIT: Message -> bool := (m: Message) => m.Init?
  const IS_COMPLETE: Message -> bool := (m: Message) => m.Complete?
  const IS_HOSTKEY: Message -> bool := (m: Message) => m.HostKey?
  /** The messages that carry a token from one mechanism to the other. */
  const IS_TOKEN: Message -> bool := (m: Message) => m.Init? || m.Continue? || m.Complete?

  lemma CountAppend(p: Message -> bool, ms: seq<Message>, m: Message)
    ensures Count(p, ms + [m]) == Count(p, ms) + (if p(m) then 1 else 0)
  {
    assert (ms + [m])[..|ms|] == ms;
  }

  // ---------------------------------------------------------------------------
  // The tokens the two mechanisms exchange

  function TokenOf(m: Message): seq<Octets> {
    match m
    case Init(token, _) => [token]
    case Continue(token) => [token]
    case Complete(_, _, Some(token)) => [token]
    case _ => []
  }

  /** The tokens carried by the messages, in order. */
  function Tokens(ms: seq<Message>): (ts: seq<Octets>) {
    if ms == [] then [] else Tokens(ms[..|ms| - 1]) + TokenOf(ms[|ms| - 1])
  }

  /** The tokens a mechanism has produced, in order. */
  function Produced(rs: seq<GssResult>): (ts: seq<Octets>) {
    if rs == [] then []
    else Produced(rs[..|rs| - 1]) + (if rs[|rs| - 1].token != [] then [rs[|rs| - 1].token] else [])
  }

  lemma TokensAppend(ms: seq<Message>, m: Message)
    ensures Tokens(ms + [m]) == Tokens(ms) + TokenOf(m)
  {
    assert (ms + [m])[..|ms|] == ms;
  }

  lemma ProducedAppend(rs: seq<GssResult>, r: GssResult)
    ensures Produced(rs + [r]) == Produced(rs) + (if r.token != [] then [r.token] else [])
  {
    assert (rs + [r])[..|rs|] == rs;
  }

  lemma {:induction false} TokensOfPrefix(ms: seq<Message>, all: seq<Message>)
    requires ms <= all
    ensures Tokens(ms) <= Tokens(all)
    decreases |all|
  {
    if |ms| == |all| {
      assert ms == all;
    } else {
      TokensOfPrefix(ms, all[..|all| - 1]);
    }
  }
}
