/** The few facts of multiplication and division that the solver needs spelled out. */
module Arith {

  lemma {:induction false} MulMono(a: nat, b: nat, d: nat)
    requires a <= b
    ensures a * d <= b * d
    decreases b
  {
    if a < b {
      MulMono(a, b - 1, d);
      assert b * d == (b - 1) * d + d;
    }
  }

  lemma {:induction false} DivMod(x: nat, d: nat)
    requires d > 0
    ensures x == x / d * d + x % d && 0 <= x % d < d && x / d >= 0
  {
  }

  lemma {:induction false} DivIs(x: nat, d: nat, q: nat, r: nat)
    requires r < d && x == q * d + r
    ensures x / d == q && x % d == r
  {
    DivMod(x, d);
    var p := x / d;
    assert (p + 1) * d == p * d + d && (q + 1) * d == q * d + d;
    if p < q {
      MulMono(p + 1, q, d);
    } else if q < p {
      MulMono(q + 1, p, d);
    }
  }

  /** `x / d < u` exactly when `x < u * d`. */
  lemma {:induction false} DivLess(x: nat, d: nat, u: nat)
    requires d > 0
    ensures x / d < u <==> x < u * d
  {
    DivMod(x, d);
    var p := x / d;
    if p < u {
      MulMono(p + 1, u, d);
      assert (p + 1) * d == p * d + d;
    } else {
      MulMono(u, p, d);
    }
  }

  /** A page-table entry made of a page number and the two low bits, taken apart again. */
  lemma {:induction false} PageEntryBits(n: nat)
    ensures var e := 4096 * n + 3;
            e % 2 == 1 && e / 2 % 2 == 1 && e / 128 % 2 == 0 && e / 4096 == n
  {
    var e := 4096 * n + 3;
    DivIs(e, 2, 2048 * n + 1, 1);
    DivIs(2048 * n + 1, 2, 1024 * n, 1);
    DivIs(e, 128, 32 * n, 3);
    DivIs(32 * n, 2, 16 * n, 0);
    DivIs(e, 4096, n, 3);
  }
}
