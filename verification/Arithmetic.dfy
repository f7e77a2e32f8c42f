/** Facts about products and remainders that the solver does not find by itself. */
module Arithmetic {

  lemma MulBeyondOne(n: nat, d: int)
    ensures d >= 1 ==> n * d >= n
    ensures d <= -1 ==> n * d + n <= 0
  {
  }

  lemma DivModUnique(x: int, n: int, q: int, r: int)
    requires 0 <= r < n && x == n * q + r
    ensures x % n == r && x / n == q
  {
    var d := x / n - q;
    assert n * d == n * (x / n) - n * q == r - x % n;
    MulBeyondOne(n, d);
  }

  lemma SmallMod(x: int, n: int)
    requires 0 <= x < n
    ensures x % n == x
  {
    DivModUnique(x, n, 0, x);
  }

  lemma WrapMod(x: int, n: int)
    requires n <= x < n + n
    ensures x % n == x - n
  {
    DivModUnique(x, n, 1, x - n);
  }

  /** Adding to a number or to its remainder leaves the same remainder. */
  lemma ModOfSum(x: int, p: int, n: nat)
    requires n > 0
    ensures (x % n + p) % n == (x + p) % n
  {
    var q, r := (x % n + p) / n, (x % n + p) % n;
    assert x + p == n * (x / n) + (n * q + r) == n * (x / n + q) + r;
    DivModUnique(x + p, n, x / n + q, r);
  }

  /** Round number k of several rounds of n turns ends within all turns. */
  lemma RoundFits(k: nat, rounds: nat, n: nat)
    requires k < rounds
    ensures k * n + n <= rounds * n
  {
    assert rounds * n == k * n + (rounds - k) * n;
    MulBeyondOne(n, rounds - k);
  }

  lemma NextMultiple(n: nat, k: nat)
    ensures k * n + n == (k + 1) * n
  {
  }

  /** Counting on by one: the remainder wraps around and carries into the quotient. */
  lemma DivModStep(x: int, n: nat)
    requires n > 0
    ensures (x + 1) % n == if x % n + 1 == n then 0 else x % n + 1
    ensures (x + 1) / n == if x % n + 1 == n then x / n + 1 else x / n
  {
    if x % n + 1 == n {
      assert n * (x / n + 1) == n * (x / n) + n;
      DivModUnique(x + 1, n, x / n + 1, 0);
    } else {
      DivModUnique(x + 1, n, x / n, x % n + 1);
    }
  }
}
