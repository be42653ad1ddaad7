/** The few facts about multiplication and division that the index arithmetic of the other modules rests on. */
module Arith {

  lemma MulMono(a: int, b: int, d: nat)
    requires a <= b
    ensures a * d <= b * d
  {
  }

  lemma MulAssoc(a: int, b: int, c: int)
    ensures a * (b * c) == (a * b) * c
  {
  }

  /** Quotient and remainder are determined by the division equation. */
  lemma DivModUnique(x: int, d: nat, q: int, r: nat)
    requires r < d && x == q * d + r
    ensures x / d == q && x % d == r
  {
    var q', r' := x / d, x % d;
    assert x == q' * d + r';
    if q < q' {
      MulMono(q + 1, q', d);
    } else if q > q' {
      MulMono(q' + 1, q, d);
    }
  }

  /** Subtracting the divisor keeps the remainder and lowers the quotient by one. */
  lemma DivModStep(x: int, d: nat)
    requires d >= 1
    ensures (x - d) % d == x % d && (x - d) / d == x / d - 1
  {
    assert x - d == (x / d - 1) * d + x % d by {
      assert (x / d - 1) * d == (x / d) * d - d;
    }
    DivModUnique(x - d, d, x / d - 1, x % d);
  }

  /** Counting up by one carries exactly when the remainder is at its top. */
  lemma DivModNext(x: nat, d: nat)
    requires d >= 1
    ensures if x % d + 1 < d then (x + 1) / d == x / d && (x + 1) % d == x % d + 1
            else (x + 1) / d == x / d + 1 && (x + 1) % d == 0
    ensures x == (x / d) * d + x % d
  {
    var q, r := x / d, x % d;
    if r + 1 < d {
      DivModUnique(x + 1, d, q, r + 1);
    } else {
      assert (q + 1) * d == q * d + d;
      DivModUnique(x + 1, d, q + 1, 0);
    }
  }

  /** Fewer than `d` consecutive numbers have different remainders. */
  lemma ModDistinct(a: nat, b: nat, d: nat)
    requires a < b < a + d
    ensures a % d != b % d
  {
    if a % d == b % d {
      var q, q' := a / d, b / d;
      assert b - a == (q' - q) * d;
      if q' > q {
        MulMono(1, q' - q, d);
      } else {
        MulMono(q' - q, 0, d);
      }
    }
  }

  /** Going on by at most one divisor wraps the remainder at most once. */
  lemma ModAdd(p: nat, i: nat, d: nat)
    requires 1 <= d && i <= d
    ensures (p + i) % d == if p % d + i < d then p % d + i else p % d + i - d
  {
    var q, r := p / d, p % d;
    if r + i < d {
      DivModUnique(p + i, d, q, r + i);
    } else {
      assert (q + 1) * d == q * d + d;
      DivModUnique(p + i, d, q + 1, r + i - d);
    }
  }
}
