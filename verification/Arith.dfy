/** Powers, quotients and remainders. */
module Arith {

  function Min(a: int, b: int): int {
    if a < b then a else b
  }

  function Max(a: int, b: int): int {
    if a < b then b else a
  }

  lemma MulLarge(d: int, m: nat)
    requires m >= 1
    ensures d >= 1 ==> d * m >= m
    ensures d <= -1 ==> d * m + m <= 0
  {
    if d >= 1 {
      assert (d - 1) * m >= 0;
    } else if d <= -1 {
      assert (-1 - d) * m >= 0;
    }
  }

  lemma MulLess(a: nat, b: nat, m: nat, r: nat)
    requires a < b && r < m
    ensures a * m + r < b * m
  {
    assert (b - a) * m == b * m - a * m;
    MulLarge(b - a, m);
  }

  lemma DivUnique(x: int, m: nat, q: int, r: nat)
    requires m >= 1 && r < m && x == q * m + r
    ensures x / m == q && x % m == r
  {
    var d := x / m - q;
    MulLarge(d, m);
    assert d * m == (x / m) * m - q * m;
  }

  lemma DivDiv(x: nat, a: nat, b: nat)
    requires a >= 1 && b >= 1
    ensures b * a >= 1
    ensures x / (b * a) == (x / a) / b
    ensures x % (b * a) == x % a + a * ((x / a) % b)
  {
    var q, r := x / a, x % a;
    var q', r' := q / b, q % b;
    MulLess(r', b, a, r);
    assert x == q' * (b * a) + (r' * a + r) by {
      assert x == q * a + r && q == q' * b + r';
      Regroup(q', b, r', a);
    }
    DivUnique(x, b * a, q', r' * a + r);
  }

  lemma Regroup(q: int, b: int, r: int, a: int)
    ensures (q * b + r) * a == q * (b * a) + r * a
  {
    assert (q * b + r) * a == (q * b) * a + r * a;
    assert (q * b) * a == q * (b * a);
  }

  /** Remainder and quotient of a sum in base `m`. */
  lemma DigitsOfSum(m: nat, r: nat, d: nat, r': nat, d': nat)
    requires m >= 1 && r < m && r' < m
    ensures r + m * d == r' + m * d' <==> r == r' && d == d'
  {
    if r + m * d == r' + m * d' {
      DivUnique(r + m * d, m, d, r);
      DivUnique(r + m * d, m, d', r');
    }
  }

  function Pow(f: nat, k: nat): nat {
    if k == 0 then 1 else f * Pow(f, k - 1)
  }

  lemma {:induction false} PowPositive(f: nat, k: nat)
    requires f >= 1
    ensures Pow(f, k) >= 1
  {
    if k > 0 {
      PowPositive(f, k - 1);
      MulLarge(f, Pow(f, k - 1));
    }
  }

  // ----- Counting residues

  /** How many numbers below `n` satisfy `p`. */
  function CountBelow(n: nat, p: nat -> bool): (r: nat) {
    if n == 0 then 0 else CountBelow(n - 1, p) + if p(n - 1) then 1 else 0
  }

  lemma {:induction false} CountSame(n: nat, p: nat -> bool, q: nat -> bool)
    requires forall i: nat :: i < n ==> p(i) == q(i)
    ensures CountBelow(n, p) == CountBelow(n, q)
  {
    if n > 0 {
      CountSame(n - 1, p, q);
    }
  }

  /** How many numbers below `n` have the remainder `c` modulo `m`. */
  function CountResidue(n: nat, m: nat, c: nat): (r: nat)
    requires m >= 1
  {
    CountBelow(n, (i: nat) => i % m == c)
  }

  lemma DivNext(x: nat, m: nat)
    requires m >= 1
    ensures (x + 1) / m == x / m + if (x + 1) % m == 0 then 1 else 0
    ensures (x + 1) % m == if x % m == m - 1 then 0 else x % m + 1
  {
    var q, r := x / m, x % m;
    if r == m - 1 {
      assert (q + 1) * m == q * m + m;
      DivUnique(x + 1, m, q + 1, 0);
    } else {
      DivUnique(x + 1, m, q, r + 1);
    }
  }

  lemma ShiftResidue(n: nat, m: nat, c: nat)
    requires m >= 1 && c < m
    ensures (n + m - c) % m == 0 <==> n % m == c
  {
    var q, r := n / m, n % m;
    assert n == q * m + r;
    if r >= c {
      assert (q + 1) * m == q * m + m;
      DivUnique(n + m - c, m, q + 1, r - c);
    } else {
      DivUnique(n + m - c, m, q, r + m - c);
    }
  }

  /** The closed form: `ceil((n - c) / m)`, and zero when `n <= c`. */
  lemma {:induction false} CountResidueIs(n: nat, m: nat, c: nat)
    requires m >= 1 && c < m
    ensures CountResidue(n, m, c) == (n + m - 1 - c) / m
  {
    if n == 0 {
      DivUnique(m - 1 - c, m, 0, m - 1 - c);
    } else {
      CountResidueIs(n - 1, m, c);
      DivNext(n + m - 2 - c, m);
      ShiftResidue(n - 1, m, c);
    }
  }

  lemma ModAtMost(r: nat, m: nat)
    requires m >= 1
    ensures r % m <= r
  {
    var q: nat := r / m;
    assert r == q * m + r % m;
    NatProduct(q, m);
  }

  lemma NatProduct(a: nat, b: nat)
    ensures a * b >= 0
  {
  }

  lemma DivNextBlock(x: nat, m: nat)
    requires m >= 1
    ensures (x + m) / m == x / m + 1
  {
    assert (x / m + 1) * m == (x / m) * m + m;
    DivUnique(x + m, m, x / m + 1, x % m);
  }

  // ----- Reals

  function Ceil(x: real): int {
    -((-x).Floor)
  }

  lemma MulNonNegative(a: real, b: real)
    requires a >= 0.0 && b >= 0.0
    ensures a * b >= 0.0
  {
  }

  lemma MulAtLeast(a: real, b: real, s: real)
    requires a >= b && s >= 0.0
    ensures a * s >= b * s
  {
    MulNonNegative(a - b, s);
    assert (a - b) * s == a * s - b * s;
  }
}
