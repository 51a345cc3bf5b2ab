/**
  Powers of the alphabet size and the few facts about products and division
  the enumeration proofs need. A product with a variable factor is written as
  `Blocks(q, p)`, `q` blocks of `p`, and a quotient and remainder as
  `Quot(i, p)` and `Rem(i, p)`, all by repeated addition or subtraction, so
  that the proofs about them are linear arithmetic; only `Pow` itself and
  `BlocksIsProduct`, which ties `Blocks` to `*`, multiply two variables.
*/
module Arith {

  /** `base` raised to `exp`; the program's `26 ** passwordLength`. */
  function Pow(base: nat, exp: nat): (r: nat)
    ensures base >= 1 ==> r >= 1
  {
    if exp == 0 then 1 else base * Pow(base, exp - 1)
  }

  /** `q` blocks of `p`, that is `q * p`. */
  function Blocks(q: nat, p: nat): nat {
    if q == 0 then 0 else Blocks(q - 1, p) + p
  }

  /** How many whole blocks of `p` fit in `i`, that is `i / p`. */
  function Quot(i: nat, p: nat): nat
    requires p > 0
  {
    if i < p then 0 else 1 + Quot(i - p, p)
  }

  /** What is left of `i` after the whole blocks of `p`, that is `i % p`. */
  function Rem(i: nat, p: nat): nat
    requires p > 0
  {
    if i < p then i else Rem(i - p, p)
  }

  lemma {:induction false} BlocksIsProduct(q: nat, p: nat)
    ensures Blocks(q, p) == q * p
  {
    if q > 0 {
      BlocksIsProduct(q - 1, p);
      assert (q - 1) * p + p == q * p;
    }
  }

  lemma {:induction false} BlocksMonotone(a: nat, b: nat, p: nat)
    requires a <= b
    ensures Blocks(a, p) <= Blocks(b, p)
    decreases b
  {
    if a < b {
      BlocksMonotone(a, b - 1, p);
    }
  }

  /** Fewer blocks fall short by at least one whole block. */
  lemma BlocksGap(a: nat, b: nat, p: nat)
    requires a < b
    ensures Blocks(a, p) + p <= Blocks(b, p)
  {
    BlocksMonotone(a + 1, b, p);
  }

  /** A dividend is its quotient's blocks plus a remainder below the divisor. */
  lemma {:induction false} QuotRem(i: nat, p: nat)
    requires p > 0
    ensures i == Blocks(Quot(i, p), p) + Rem(i, p) && Rem(i, p) < p
    decreases i
  {
    if i >= p {
      QuotRem(i - p, p);
    }
  }

  /** The quotient is below `m` when the dividend is below `m` blocks of the divisor. */
  lemma {:induction false} QuotBelow(i: nat, p: nat, m: nat)
    requires p > 0 && i < Blocks(m, p)
    ensures Quot(i, p) < m
    decreases i
  {
    if i >= p {
      QuotBelow(i - p, p, m - 1);
    }
  }

  /** Quotient and remainder are the only pair that rebuilds the dividend. */
  lemma {:induction false} QuotRemUnique(i: nat, p: nat, q: nat, r: nat)
    requires p > 0 && r < p && i == Blocks(q, p) + r
    ensures Quot(i, p) == q && Rem(i, p) == r
    decreases q
  {
    if q > 0 {
      QuotRemUnique(i - p, p, q - 1, r);
    }
  }
}
