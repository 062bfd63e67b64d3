/** Modular exponentiation, the arithmetic under the finite-field key agreement. */
module DiffieHellman {

  function Power(b: int, e: nat): int {
    if e == 0 then 1 else b * Power(b, e - 1)
  }

  /** `b^e mod p`; a zero modulus stands for a group no key can be made in. */
  function ModExp(b: int, e: nat, p: nat): (r: nat) {
    if p == 0 then 0 else Power(b, e) % p
  }

  lemma {:induction false} PowerAdds(b: int, d: nat, e: nat)
    ensures Power(b, d + e) == Power(b, d) * Power(b, e)
  {
    if d > 0 {
      PowerAdds(b, d - 1, e);
      assert Power(b, d + e) == b * (Power(b, d - 1) * Power(b, e));
    }
  }

  /** With these and the sum of exponents the power is what it should be. */
  lemma PowerStarts(b: int)
    ensures Power(b, 0) == 1 && Power(b, 1) == b
  {
    assert Power(b, 1) == b * Power(b, 0);
  }

  /** A residue: below the modulus, and off by a multiple of it. */
  lemma ModExpIsResidue(b: int, e: nat, p: nat) returns (k: int)
    requires p > 0
    ensures ModExp(b, e, p) < p && Power(b, e) == k * p + ModExp(b, e, p)
  {
    k := Power(b, e) / p;
  }

  lemma {:induction false} PowerMultiplies(b: int, d: nat, e: nat)
    ensures Power(Power(b, d), e) == Power(b, d * e)
  {
    if e > 0 {
      PowerMultiplies(b, d, e - 1);
      PowerAdds(b, d, d * (e - 1));
      assert d * e == d + d * (e - 1);
    }
  }

  lemma ResidueOfProduct(a: int, b: int, p: nat)
    requires p > 0
    ensures (a % p * (b % p)) % p == (a * b) % p
  {
    var i, j := a / p, b / p;
    var c, d := a % p, b % p;
    assert a == c + i * p && b == d + j * p;
    var k := c * j + i * d + i * j * p;
    assert a * b == c * d + k * p by {
      assert (c + i * p) * (d + j * p) == c * d + c * (j * p) + i * p * d + i * p * (j * p);
      assert c * (j * p) == c * j * p;
      assert i * p * d == i * d * p;
      assert i * p * (j * p) == i * j * p * p;
      assert k * p == c * j * p + i * d * p + i * j * p * p;
    }
    AddMultiple(c * d, k, p);
  }

  lemma {:induction false} AddMultiple(x: int, k: int, p: nat)
    requires p > 0
    ensures (x + k * p) % p == x % p
    decreases if k < 0 then -k else k
  {
    if k > 0 {
      assert x + k * p == (x + (k - 1) * p) + p;
      AddOnce(x + (k - 1) * p, p);
      AddMultiple(x, k - 1, p);
    } else if k < 0 {
      assert x + (k + 1) * p == (x + k * p) + p;
      AddOnce(x + k * p, p);
      AddMultiple(x, k + 1, p);
    }
  }

  lemma AddOnce(x: int, p: nat)
    requires p > 0
    ensures (x + p) % p == x % p
  {
    var q, r := x / p, x % p;
    assert x + p == (q + 1) * p + r;
    QuotientIs(x + p, q + 1, r, p);
  }

  lemma QuotientIs(x: int, q: int, r: int, p: nat)
    requires p > 0 && 0 <= r < p && x == q * p + r
    ensures x % p == r
  {
    var d := x / p - q;
    assert d * p == r - x % p;
    assert d >= 1 ==> d * p >= p;
    assert d <= -1 ==> d * p + p <= 0;
  }

  lemma ResidueOfStep(b: int, u: int, v: int, p: nat)
    requires p > 0 && u % p == v % p
    ensures (b % p * u) % p == (b * v) % p
  {
    QuotientIs(b % p, 0, b % p, p);
    ResidueOfProduct(b % p, u, p);
    ResidueOfProduct(b, v, p);
  }

  lemma {:induction false} PowerOfResidue(b: int, e: nat, p: nat)
    requires p > 0
    ensures Power(b % p, e) % p == Power(b, e) % p
  {
    if e > 0 {
      PowerOfResidue(b, e - 1, p);
      ResidueOfStep(b, Power(b % p, e - 1), Power(b, e - 1), p);
    }
  }

  /** Both sides of the exchange compute the same secret, the base to the product of the exponents. */
  lemma SecretsAgree(g: int, x: nat, y: nat, p: nat)
    ensures ModExp(ModExp(g, x, p), y, p) == ModExp(ModExp(g, y, p), x, p)
    ensures p > 0 ==> ModExp(ModExp(g, x, p), y, p) == Power(g, x * y) % p
  {
    if p > 0 {
      PowerOfResidue(Power(g, x), y, p);
      PowerOfResidue(Power(g, y), x, p);
      PowerMultiplies(g, x, y);
      PowerMultiplies(g, y, x);
      assert x * y == y * x;
    }
  }
}
