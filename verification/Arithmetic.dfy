/** Facts about products and remainders of integers. */
module Arithmetic {

  lemma Divides(g: nat, p: nat, q: int)
    requires 0 < p && g == p * q
    ensures g % p == 0
  {
    assert g == p * (g / p) + g % p;
    NoRemainder(p, q - g / p, g % p);
  }

  lemma NoRemainder(p: nat, t: int, r: nat)
    requires r < p && p * t == r
    ensures r == 0
  {
    if t >= 1 {
      MulGrows(p, t);
    } else if t <= -1 {
      MulGrows(p, -t);
      assert p * (-t) == -(p * t);
    }
  }

  lemma {:induction false} MulGrows(p: nat, t: nat)
    requires 1 <= t
    ensures p <= p * t
    decreases t
  {
    if t > 1 {
      MulGrows(p, t - 1);
      assert p * t == p * (t - 1) + p;
    }
  }
}
