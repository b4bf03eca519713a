/** Small facts about multiplication and Euclidean division used by the proofs. */
module Arith {

  lemma MulAtLeast(t: int, d: int)
    requires t >= 1 && d > 0
    ensures t * d >= d
  {
    if t > 1 {
      MulAtLeast(t - 1, d);
      assert t * d == (t - 1) * d + d;
    }
  }

  /** Quotient and remainder are determined by `v == q * d + r` with `0 <= r < d`. */
  lemma DivModUnique(v: int, d: int, q: int, r: int)
    requires d > 0 && 0 <= r < d && v == q * d + r
    ensures v / d == q && v % d == r
  {
    var q', r' := v / d, v % d;
    assert v == q' * d + r';
    var t := q - q';
    assert t * d == r' - r by {
      assert q * d - q' * d == (q - q') * d;
    }
    if t >= 1 {
      MulAtLeast(t, d);
    } else if t <= -1 {
      MulAtLeast(-t, d);
    }
  }

  lemma DivMod(v: int, d: int)
    requires d > 0
    ensures v == (v / d) * d + v % d && 0 <= v % d < d
  {
  }

  /** Multiplying by a positive `s` keeps a strict order with a gap of at least `s`. */
  lemma MulBelow(a: int, b: int, s: int)
    requires 0 <= a < b && s > 0
    ensures a * s + s <= b * s
  {
    MulAtLeast(b - a, s);
    assert b * s - a * s == (b - a) * s;
  }

  /** Multiplying by a non-negative `s` keeps order. */
  lemma MulMono(a: int, b: int, s: int)
    requires a <= b && s >= 0
    ensures a * s <= b * s
  {
    assert b * s - a * s == (b - a) * s;
    MulNonNeg(b - a, s);
  }

  lemma MulNonNeg(a: int, s: int)
    requires a >= 0 && s >= 0
    ensures a * s >= 0
  {
  }

  /** A multiple of a multiple of `d` is a multiple of `d`. */
  lemma ModOfMultiple(n: int, f: int, d: int)
    requires d > 0 && f > 0 && n % f == 0 && f % d == 0
    ensures n % d == 0
  {
    DivMod(n, f);
    DivMod(f, d);
    var a, b := n / f, f / d;
    assert n == a * (b * d);
    assert a * (b * d) == (a * b) * d;
    DivModUnique(n, d, a * b, 0);
  }
}
