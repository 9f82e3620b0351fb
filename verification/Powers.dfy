/** Powers of two, for prefix lengths and block sizes. */
module Powers {

  function Pow2(n: nat): (r: nat)
    ensures r >= 1
  {
    if n == 0 then 1 else 2 * Pow2(n - 1)
  }

  lemma {:induction false} Pow2Add(m: nat, n: nat)
    ensures Pow2(m + n) == Pow2(m) * Pow2(n)
  {
    if m != 0 {
      Pow2Add(m - 1, n);
      assert Pow2(m) * Pow2(n) == 2 * (Pow2(m - 1) * Pow2(n));
    }
  }

  lemma {:induction false} Pow2Strict(m: nat, n: nat)
    requires m < n
    ensures Pow2(m) < Pow2(n)
  {
    if n == m + 1 {
    } else {
      Pow2Strict(m, n - 1);
    }
  }

  /** Two multiples of s that are less than s apart in order are a whole s apart. */
  lemma MultiplesApart(a: int, b: int, s: nat)
    requires s > 0 && a % s == 0 && b % s == 0 && a < b
    ensures a + s <= b
  {
    assert a == s * (a / s) && b == s * (b / s);
    if b / s > a / s {
      assert s * (a / s + 1) <= s * (b / s);
    }
  }

  lemma MultipleOfPower(a: nat, small: nat, large: nat)
    requires small <= large && a % Pow2(large) == 0
    ensures a % Pow2(small) == 0
  {
    Pow2Add(large - small, small);
    MultipleOfFactor(a, Pow2(large - small), Pow2(small));
  }

  lemma MultipleOfFactor(a: nat, p: nat, s: nat)
    requires p > 0 && s > 0 && p * s > 0 && a % (p * s) == 0
    ensures a % s == 0
  {
    var q := a / (p * s);
    assert a == (p * s) * q;
    Regroup(p, s, q);
    MulMod(p * q, s);
  }

  lemma Regroup(p: int, s: int, q: int)
    ensures p * s * q == p * q * s
  {
  }

  /** Products with a sum, for the places where the solver should not search. */
  lemma Distribute(a: int, b: int, s: int)
    ensures (a + b) * s == a * s + b * s
  {
  }

  lemma Division(n: nat, s: nat)
    requires s > 0
    ensures n == n / s * s + n % s && 0 <= n % s < s && n / s >= 0
  {
  }

  lemma MulAtLeast(d: int, s: int)
    requires d >= 1 && s >= 0
    ensures d * s >= s
  {
  }

  lemma SmallMultipleIsZero(d: int, s: int)
    requires -s < d * s < s
    ensures d == 0
  {
    if d >= 1 {
      MulAtLeast(d, s);
    } else if -d >= 1 {
      MulAtLeast(-d, s);
    }
  }

  lemma MulMod(k: nat, s: nat)
    requires s > 0
    ensures k * s % s == 0 && k * s / s == k
  {
    var q, r := k * s / s, k * s % s;
    assert k * s == q * s + r;
    assert (k - q) * s == r;
    SmallMultipleIsZero(k - q, s);
  }

  /** Quotients place a number in exactly one block of size s. */
  lemma BlockOf(x: nat, base: nat, s: nat)
    requires s > 0 && base % s == 0
    ensures x / s == base / s <==> base <= x < base + s
  {
    var q, k := x / s, base / s;
    assert x == s * q + x % s && base == s * k;
    if q < k {
      assert s * (q + 1) <= s * k;
    } else if q > k {
      assert s * (k + 1) <= s * q;
    }
  }
}
