/**
 `unique_filter`: request `i` gets a window of rows that starts at `(i + salt) * 997`
 modulo the number of possible starts. When these windows differ, and when they lie inside
 the collection.
 */
module UniqueWindows {
  import opened Arith

  const STRIDE := 997

  function Width(count: nat): nat {
    Max(10, Min(100, count))
  }

  function Span(count: nat): (s: nat)
    ensures s == if count <= 100 then 1 else count - 99
  {
    Max(1, count - Width(count) + 1)
  }

  /** The first row of the window and the row after its last: a window of 100 rows, or of all
      the rows but at least ten, whose start is congruent to `997 * (request + salt)` modulo
      the number of starts. It lies inside the collection exactly when that has at least ten
      rows. */
  function UniqueFilter(request: nat, count: nat, salt: int): (window: (int, int))
    ensures 0 <= window.0 < Span(count) && Divides(Span(count), (request + salt) * 997 - window.0)
    ensures window.1 - window.0 == if count < 10 then 10 else if count < 100 then count else 100
    ensures window.1 <= count <==> count >= 10
  {
    var start := ((request + salt) * STRIDE) % Span(count);
    Congruent((request + salt) * STRIDE, Span(count));
    (start, start + Width(count))
  }

  // ----- Divisibility

  ghost predicate Divides(d: nat, n: int) {
    exists q: int :: n == q * d
  }

  lemma Congruent(n: int, d: nat)
    requires d >= 1
    ensures Divides(d, n - n % d)
  {
    assert n - n % d == (n / d) * d;
  }

  lemma DividesMod(d: nat, n: int)
    requires d >= 1
    ensures Divides(d, n) <==> n % d == 0
  {
    if Divides(d, n) {
      var q: int :| n == q * d;
      DivUnique(n, d, q, 0);
    }
    if n % d == 0 {
      assert n == (n / d) * d;
    }
  }

  /** Bezout: the last remainder of Euclid's algorithm divides both numbers and is a
      combination of them. */
  lemma {:induction false} Bezout(a: nat, b: nat) returns (g: nat, x: int, y: int)
    requires a >= 1
    ensures g >= 1 && Divides(g, a) && Divides(g, b) && g == x * a + y * b
    decreases b
  {
    if b == 0 {
      g, x, y := a, 1, 0;
      assert a == 1 * a && b == 0 * a;
    } else {
      var x', y';
      g, x', y' := Bezout(b, a % b);
      x, y := y', x' - (a / b) * y';
      var q := a / b;
      assert a == q * b + a % b;
      assert x' * b + y' * (a - q * b) == y' * a + (x' - q * y') * b by {
        assert y' * (a - q * b) == y' * a - y' * (q * b);
        assert (x' - q * y') * b == x' * b - (q * y') * b;
        assert y' * (q * b) == (q * y') * b;
      }
      var m, n :| b == m * g && a % b == n * g;
      assert a == (q * m + n) * g by {
        Regroup(q, m, n, g);
      }
    }
  }

  /** 997 is prime. */
  lemma StridePrime(d: nat, q: int)
    requires d >= 1 && STRIDE == q * d
    ensures d == 1 || d == STRIDE
  {
    assert q >= 1 by {
      MulLarge(q, d);
      assert q == 0 ==> q * d == 0;
    }
    if d <= 31 {
      SmallFactor(d, q);
    } else {
      MulLarge(q - 31, d);
      assert (q - 31) * d == q * d - 31 * d;
      SmallFactor(q, d);
    }
  }

  lemma SmallFactor(d: nat, q: int)
    requires 1 <= d <= 31 && STRIDE == q * d
    ensures d == 1
  {
    assert forall k :: 2 <= k <= 31 ==> STRIDE % k != 0;
    DivUnique(STRIDE, d, q, 0);
  }

  /** A span that 997 does not divide shares no factor with it, so it divides a multiple of
      997 only if it divides the other factor. */
  lemma Euclid(span: nat, n: int)
    requires span >= 1 && span % STRIDE != 0 && Divides(span, n * STRIDE)
    ensures Divides(span, n)
  {
    var g, x, y := Bezout(STRIDE, span);
    var q: int :| STRIDE == q * g;
    StridePrime(g, q);
    DividesMod(STRIDE, span);
    assert g == 1;
    var k: int :| n * STRIDE == k * span;
    Combine(n, STRIDE, span, x, y, k);
  }

  lemma Combine(n: int, stride: int, span: int, x: int, y: int, k: int)
    requires x * stride + y * span == 1 && n * stride == k * span
    ensures n == (x * k + y * n) * span
  {
    assert n * (x * stride + y * span) == x * (n * stride) + (y * n) * span;
    assert x * (k * span) == (x * k) * span;
    assert (x * k + y * n) * span == (x * k) * span + (y * n) * span;
  }

  // ----- Distinct windows

  lemma SameStart(i: nat, j: nat, count: nat, salt: int)
    ensures UniqueFilter(i, count, salt) == UniqueFilter(j, count, salt) <==> Divides(Span(count), (j - i) * STRIDE)
  {
    var s := Span(count);
    var a, b := (i + salt) * STRIDE, (j + salt) * STRIDE;
    assert b - a == (j - i) * STRIDE;
    DividesMod(s, b - a);
    SameMod(a, b, s);
  }

  lemma SameMod(a: int, b: int, s: nat)
    requires s >= 1
    ensures a % s == b % s <==> (b - a) % s == 0
  {
    var q, r := a / s, a % s;
    if a % s == b % s {
      assert b - a == (b / s - q) * s;
      DivUnique(b - a, s, b / s - q, 0);
    }
    if (b - a) % s == 0 {
      var k := (b - a) / s;
      assert b == (q + k) * s + r;
      DivUnique(b, s, q + k, r);
    }
  }

  ghost predicate AllDistinct(count: nat, salt: int) {
    forall i: nat, j: nat :: i < j < i + Span(count) ==> UniqueFilter(i, count, salt) != UniqueFilter(j, count, salt)
  }

  /** Requests less than a span apart get different windows exactly when 997 does not divide
      the span. */
  lemma DistinctIff(count: nat, salt: int)
    ensures AllDistinct(count, salt) <==> Span(count) % 997 != 0
  {
    var s := Span(count);
    if s % STRIDE != 0 {
      forall i: nat, j: nat | i < j < i + s
        ensures UniqueFilter(i, count, salt) != UniqueFilter(j, count, salt)
      {
        SameStart(i, j, count, salt);
        if Divides(s, (j - i) * STRIDE) {
          Euclid(s, j - i);
          DividesMod(s, j - i);
          DivUnique(j - i, s, 0, j - i);
        }
      }
    } else {
      var d := s / STRIDE;
      SameStart(0, d, count, salt);
      assert (d - 0) * STRIDE == 1 * s;
      assert 0 < d < s;
      assert !AllDistinct(count, salt);
    }
  }
}
