/** Powers of two, and the sizes of the unsigned machine words. */
module Words {
  const TWO32: int := 0x1_0000_0000
  const TWO64: int := 0x1_0000_0000_0000_0000

  function TwoTo(n: nat): (r: nat)
    ensures r > 0
  {
    if n == 0 then 1 else 2 * TwoTo(n - 1)
  }

  lemma {:induction false} TwoToAdds(m: nat, n: nat)
    ensures TwoTo(m + n) == TwoTo(m) * TwoTo(n)
  {
    if m > 0 {
      TwoToAdds(m - 1, n);
    }
  }

  lemma {:induction false} TwoToGrows(m: nat, n: nat)
    requires m <= n
    ensures TwoTo(m) <= TwoTo(n)
  {
    if m < n {
      TwoToGrows(m, n - 1);
    }
  }

  lemma Squared(n: nat, r: int)
    requires TwoTo(n) == r
    ensures TwoTo(n + n) == r * r
  {
    TwoToAdds(n, n);
  }

  lemma WordSizes(one: nat)
    requires one == 1
    ensures TwoTo(32 * one) == TWO32 && TwoTo(64 * one) == TWO64
  {
    Squared(one, 2);
    Squared(2 * one, 4);
    Squared(4 * one, 16);
    Squared(8 * one, 0x100);
    Squared(16 * one, 0x1_0000);
    Squared(32 * one, TWO32);
  }
}
