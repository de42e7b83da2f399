/** Cauchy matrices: every square one over distinct points has a trivial kernel. */
module Cauchy {
  import opened Gf16
  import opened Gf16Order
  import opened Matrix

  // The sum over i of x[i] / (xs[i] + y).
  ghost function CauchySum(x: Vec, xs: Vec, y: Elem): Elem
    requires |x| == |xs|
  {
    if |x| == 0 then 0
    else Add(Mul(x[0], Inv(Add(xs[0], y))), CauchySum(x[1..], xs[1..], y))
  }

  ghost predicate Distinct(xs: Vec) {
    forall i, j :: 0 <= i < j < |xs| ==> xs[i] != xs[j]
  }

  ghost predicate Apart(xs: Vec, ys: Vec) {
    forall i, j :: 0 <= i < |xs| && 0 <= j < |ys| ==> xs[i] != ys[j]
  }

  // Coefficients after eliminating the point pair (x0, y0).
  ghost function Reduce(x: Vec, xs: Vec, x0: Elem, y0: Elem): (r: Vec)
    requires |x| == |xs|
    ensures |r| == |x|
  {
    seq(|x|, i requires 0 <= i < |x| => Mul(x[i], Mul(Add(x0, xs[i]), Inv(Add(xs[i], y0)))))
  }

  // One term: (x0+y)a/(c+y) + (x0+y0)a/(c+y0) = (y+y0) a (x0+c) / ((c+y0)(c+y)).
  lemma TermIdentity(a: Elem, c: Elem, x0: Elem, y0: Elem, y: Elem)
    requires c != y && c != y0
    ensures Add(Mul(Add(x0, y), Mul(a, Inv(Add(c, y)))), Mul(Add(x0, y0), Mul(a, Inv(Add(c, y0)))))
         == Mul(Add(y, y0), Mul(Mul(a, Mul(Add(x0, c), Inv(Add(c, y0)))), Inv(Add(c, y))))
  {
    hide *;
    var (p, q, d) := (Inv(Add(c, y)), Inv(Add(c, y0)), Add(x0, c));
    PartialFraction(c, x0, y);
    PartialFraction(c, x0, y0);
    MixedFraction(c, y, y0);
    calc {
      Add(Mul(Add(x0, y), Mul(a, p)), Mul(Add(x0, y0), Mul(a, q)));
      { MulPull(Add(x0, y), a, p); MulPull(Add(x0, y0), a, q); }
      Add(Mul(a, Mul(Add(x0, y), p)), Mul(a, Mul(Add(x0, y0), q)));
      { MulAddRight(a, Mul(Add(x0, y), p), Mul(Add(x0, y0), q)); }
      Mul(a, Add(Add(Mul(d, p), 1), Add(Mul(d, q), 1)));
      { AddSwap(Mul(d, p), 1, Mul(d, q), 1); AddSelf(1); AddZero(Add(Mul(d, p), Mul(d, q))); }
      Mul(a, Add(Mul(d, p), Mul(d, q)));
      { MulAddRight(d, p, q); }
      Mul(a, Mul(d, Add(p, q)));
      Mul(a, Mul(d, Mul(Add(y, y0), Mul(q, p))));
      { Rearrange(a, d, q, p, Add(y, y0)); }
      Mul(Add(y, y0), Mul(Mul(a, Mul(d, q)), p));
    }
  }

  lemma MulPull(u: Elem, a: Elem, p: Elem)
    ensures Mul(u, Mul(a, p)) == Mul(a, Mul(u, p))
  {
    hide *;
    MulAssoc(u, a, p);
    MulComm(u, a);
    MulAssoc(a, u, p);
  }

  lemma Rearrange(a: Elem, d: Elem, q: Elem, p: Elem, u: Elem)
    ensures Mul(a, Mul(d, Mul(u, Mul(q, p)))) == Mul(u, Mul(Mul(a, Mul(d, q)), p))
  {
    hide *;
    MulPull(d, u, Mul(q, p));
    MulPull(a, u, Mul(d, Mul(q, p)));
    MulAssoc(d, q, p);
    MulAssoc(a, Mul(d, q), p);
  }

  // (x0+y)/(c+y) = (x0+c)/(c+y) + 1.
  lemma PartialFraction(c: Elem, x0: Elem, y: Elem)
    requires c != y
    ensures Mul(Add(x0, y), Inv(Add(c, y))) == Add(Mul(Add(x0, c), Inv(Add(c, y))), 1)
  {
    hide *;
    AddCancel(c, y);
    InverseLaw(Add(c, y));
    AddChain(x0, c, y);
    MulAddLeft(Add(x0, c), Add(c, y), Inv(Add(c, y)));
  }

  lemma AddChain(a: Elem, b: Elem, c: Elem)
    ensures Add(Add(a, b), Add(b, c)) == Add(a, c)
  {
    hide *;
    AddAssoc(a, b, Add(b, c));
    AddAssoc(b, b, c);
    AddSelf(b);
    AddZero(c);
  }

  // 1/(c+y) + 1/(c+y0) = (y+y0) / ((c+y0)(c+y)).
  lemma MixedFraction(c: Elem, y: Elem, y0: Elem)
    requires c != y && c != y0
    ensures Add(Inv(Add(c, y)), Inv(Add(c, y0)))
         == Mul(Add(y, y0), Mul(Inv(Add(c, y0)), Inv(Add(c, y))))
  {
    hide *;
    var (u, v) := (Add(c, y), Add(c, y0));
    var (p, q) := (Inv(u), Inv(v));
    AddCancel(c, y);
    AddCancel(c, y0);
    InverseLaw(u);
    InverseLaw(v);
    AddComm(c, y);
    AddChain(y, c, y0);
    calc {
      Mul(Add(u, v), Mul(q, p));
      { MulAddLeft(u, v, Mul(q, p)); }
      Add(Mul(u, Mul(q, p)), Mul(v, Mul(q, p)));
      { MulPull(u, q, p); MulAssoc(v, q, p); MulOneRight(q); MulOneLeft(p); }
      Add(q, p);
      { AddComm(q, p); }
      Add(p, q);
    }
  }

  lemma {:induction false} SumIdentity(x: Vec, xs: Vec, x0: Elem, y0: Elem, y: Elem)
    requires |x| == |xs| && y !in xs && y0 !in xs
    ensures Add(Mul(Add(x0, y), CauchySum(x, xs, y)), Mul(Add(x0, y0), CauchySum(x, xs, y0)))
         == Mul(Add(y, y0), CauchySum(Reduce(x, xs, x0, y0), xs, y))
  {
    hide Mul, Add, Inv;
    if |x| == 0 {
      MulZeroRight(Add(x0, y));
      MulZeroRight(Add(x0, y0));
      MulZeroRight(Add(y, y0));
      AddZero(0);
    } else {
      SumIdentity(x[1..], xs[1..], x0, y0, y);
      TermIdentity(x[0], xs[0], x0, y0, y);
      assert Reduce(x, xs, x0, y0)[1..] == Reduce(x[1..], xs[1..], x0, y0);
      SumIdentityStep(Add(x0, y), Mul(x[0], Inv(Add(xs[0], y))), CauchySum(x[1..], xs[1..], y),
                      Add(x0, y0), Mul(x[0], Inv(Add(xs[0], y0))), CauchySum(x[1..], xs[1..], y0));
      MulAddRight(Add(y, y0), Mul(Reduce(x, xs, x0, y0)[0], Inv(Add(xs[0], y))),
                  CauchySum(Reduce(x[1..], xs[1..], x0, y0), xs[1..], y));
    }
  }

  lemma SumIdentityStep(u: Elem, a: Elem, s: Elem, v: Elem, b: Elem, t: Elem)
    ensures Add(Mul(u, Add(a, s)), Mul(v, Add(b, t)))
         == Add(Add(Mul(u, a), Mul(v, b)), Add(Mul(u, s), Mul(v, t)))
  {
    hide *;
    MulAddRight(u, a, s);
    MulAddRight(v, b, t);
    AddSwap(Mul(u, a), Mul(u, s), Mul(v, b), Mul(v, t));
  }

  // The kernel of a square Cauchy matrix is trivial.
  lemma {:induction false} CauchyKernel(x: Vec, xs: Vec, ys: Vec)
    requires |x| == |xs| == |ys| && Distinct(xs) && Distinct(ys) && Apart(xs, ys)
    requires forall j :: 0 <= j < |ys| ==> CauchySum(x, xs, ys[j]) == 0
    ensures x == Zeros(|x|)
    decreases |x|
  {
    hide Mul, Add, Inv, CauchySum;
    if |x| != 0 {
      var (x0, y0) := (xs[0], ys[0]);
      var r := Reduce(x, xs, x0, y0);
      forall j | 0 <= j < |ys| - 1 ensures CauchySum(r[1..], xs[1..], ys[1..][j]) == 0 {
        ReducedSum(x, xs, ys, j + 1);
      }
      CauchyKernel(r[1..], xs[1..], ys[1..]);
      forall i | 1 <= i < |x| ensures x[i] == 0 {
        assert r[1..][i - 1] == 0;
        ReducedNonZero(x[i], x0, xs[i], y0);
      }
      HeadTerm(x, xs, y0);
      NoZeroDivisors(x[0], Inv(Add(x0, y0)));
      AddCancel(x0, y0);
      InverseLaw(Add(x0, y0));
    }
  }

  lemma ReducedSum(x: Vec, xs: Vec, ys: Vec, j: nat)
    requires |x| == |xs| == |ys| && 1 <= j < |ys| && Distinct(ys) && Apart(xs, ys)
    requires CauchySum(x, xs, ys[0]) == 0 && CauchySum(x, xs, ys[j]) == 0
    ensures CauchySum(Reduce(x, xs, xs[0], ys[0])[1..], xs[1..], ys[j]) == 0
  {
    hide Mul, Add, Inv;
    var (x0, y0, y) := (xs[0], ys[0], ys[j]);
    var r := Reduce(x, xs, x0, y0);
    SumIdentity(x, xs, x0, y0, y);
    MulZeroRight(Add(x0, y));
    MulZeroRight(Add(x0, y0));
    AddZero(0);
    AddCancel(y, y0);
    NoZeroDivisors(Add(y, y0), CauchySum(r, xs, y));
    // the term of x0 itself has coefficient zero
    AddSelf(x0);
    MulZeroLeft(Inv(Add(x0, y0)));
    MulZeroRight(x[0]);
    MulZeroLeft(Inv(Add(x0, y)));
    AddZero(CauchySum(r[1..], xs[1..], y));
  }

  lemma ReducedNonZero(a: Elem, x0: Elem, c: Elem, y0: Elem)
    requires x0 != c && c != y0 && Mul(a, Mul(Add(x0, c), Inv(Add(c, y0)))) == 0
    ensures a == 0
  {
    hide *;
    AddCancel(x0, c);
    AddCancel(c, y0);
    InverseLaw(Add(c, y0));
    NoZeroDivisors(a, Mul(Add(x0, c), Inv(Add(c, y0))));
    if a != 0 {
      NoZeroDivisors(Add(x0, c), Inv(Add(c, y0)));
    }
  }

  lemma HeadTerm(x: Vec, xs: Vec, y: Elem)
    requires |x| == |xs| != 0 && forall i :: 1 <= i < |x| ==> x[i] == 0
    ensures CauchySum(x, xs, y) == Mul(x[0], Inv(Add(xs[0], y)))
  {
    hide Mul, Add, Inv;
    ZeroSum(x[1..], xs[1..], y);
    AddZero(Mul(x[0], Inv(Add(xs[0], y))));
  }

  lemma {:induction false} ZeroSum(x: Vec, xs: Vec, y: Elem)
    requires |x| == |xs| && forall i :: 0 <= i < |x| ==> x[i] == 0
    ensures CauchySum(x, xs, y) == 0
  {
    hide Mul, Add, Inv;
    if |x| != 0 {
      ZeroSum(x[1..], xs[1..], y);
      MulZeroLeft(Inv(Add(xs[0], y)));
      AddZero(0);
    }
  }
}
