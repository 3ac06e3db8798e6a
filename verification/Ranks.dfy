/** Ranks: whole binary logarithms, in which the costs of splaying are counted. */
module Ranks {

  /** The whole part of the binary logarithm, 0 for 0. */
  function Rank(n: nat): nat {
    if n <= 1 then 0 else 1 + Rank(n / 2)
  }

  /** The rank is the exponent of the largest power of two that is not larger. */
  lemma {:induction false} RankIs(n: nat)
    requires n >= 1
    ensures Power2(Rank(n)) <= n < Power2(Rank(n) + 1)
  {
    if n > 1 {
      RankIs(n / 2);
    }
  }

  function Power2(k: nat): (p: nat) {
    if k == 0 then 1 else 2 * Power2(k - 1)
  }

  lemma {:induction false} RankGrows(a: nat, b: nat)
    requires a <= b
    ensures Rank(a) <= Rank(b)
  {
    if a > 1 {
      RankGrows(a / 2, b / 2);
    }
  }

  /** Two parts of one whole cannot both have its rank. */
  lemma {:induction false} RankPair(a: nat, b: nat, n: nat)
    requires a + b <= n && n >= 2
    ensures Rank(a) <= Rank(n) && Rank(b) <= Rank(n)
    ensures Rank(a) < Rank(n) || Rank(b) < Rank(n)
  {
    RankGrows(a, n);
    RankGrows(b, n);
    if a > 1 && b > 1 {
      RankPair(a / 2, b / 2, n / 2);
    }
  }
}
