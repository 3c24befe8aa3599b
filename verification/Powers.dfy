/**
 Powers of two and right shifts.

 The word loops of caladon-core/src/seed_codec.rs, web-client/caladon/src/bytes.ts and
 web-client/caladon/src/collateral.ts shift and mask; the proofs about them divide and take
 remainders. `Shift` halves s times, rounding down for negative numbers too, as the arithmetic
 shift of a signed word does; `ShiftIsDivision` makes that one division, and `ModPow2` adds one
 bit to a residue.
 */
module Powers {
  predicate IsPow2(n: nat) {
    n == 1 || (n > 0 && n % 2 == 0 && IsPow2(n / 2))
  }

  function Pow2(h: nat): (p: nat)
    ensures p > 0
  {
    if h == 0 then 1 else 2 * Pow2(h - 1)
  }

  /** x >> s. */
  function Shift(x: int, s: nat): (r: int)
    ensures x >= 0 ==> r >= 0
    decreases s
  {
    if s == 0 then x else Shift(x / 2, s - 1)
  }

  lemma {:induction false} ShiftIsDivision(x: int, s: nat)
    ensures Shift(x, s) == x / Pow2(s)
    decreases s
  {
    if s > 0 {
      ShiftIsDivision(x / 2, s - 1);
      DivDiv(x, Pow2(s - 1));
    }
  }

  lemma DivDiv(x: int, p: int)
    requires p > 0
    ensures x / 2 / p == x / (2 * p)
  {
    var q, r := x / 2 / p, x / 2 % p;
    assert x == 2 * (q * p + r) + x % 2;
    DivUnique(x, 2 * p, q, 2 * r + x % 2);
  }

  lemma DivUnique(x: int, d: int, q: int, r: int)
    requires d > 0 && 0 <= r < d && x == q * d + r
    ensures x / d == q && x % d == r
  {
    var e := x / d - q;
    assert x == (x / d) * d + x % d;
    assert e * d == r - x % d;
  }

  /** One more bit of a residue. */
  lemma ModPow2(x: int, h: nat)
    ensures x % Pow2(h + 1) == x % Pow2(h) + (if Shift(x, h) % 2 == 1 then Pow2(h) else 0)
  {
    ShiftIsDivision(x, h);
    ModDouble(x, Pow2(h));
  }

  lemma ModDouble(x: int, p: int)
    requires p > 0
    ensures x % (2 * p) == x % p + (if x / p % 2 == 1 then p else 0)
  {
    var q, r := x / p, x % p;
    var c, b := q / 2, q % 2;
    assert x == q * p + r;
    assert q == 2 * c + b;
    assert q * p == c * (2 * p) + b * p by {
      assert (2 * c + b) * p == 2 * c * p + b * p;
    }
    DivUnique(x, 2 * p, c, b * p + r);
  }
}
