/** Polynomials over the field of bytes: evaluation, division by a root, interpolation. */
module Polynomials {
  import opened Collections
  import opened Bits
  import opened GF256
  import opened PrimitiveElement

  type Coeffs = seq<Byte>

  datatype Point = Point(x: Byte, y: Byte)

  /** The value at x of the polynomial whose coefficient of x^i is c[i]. */
  function Eval(c: Coeffs, x: Byte): Byte {
    if c == [] then 0 else XorByte(Mul(Eval(c[1..], x), x), c[0])
  }

  predicate AllZero(c: Coeffs) {
    forall i :: 0 <= i < |c| ==> c[i] == 0
  }

  lemma MulAddBoth(a: Byte, b: Byte, c: Byte)
    ensures Mul(a, XorByte(b, c)) == XorByte(Mul(a, b), Mul(a, c))
    ensures Mul(XorByte(a, b), c) == XorByte(Mul(a, c), Mul(b, c))
  {
    MulAddRight(a, b, c);
    MulAddLeft(a, b, c);
  }

  lemma MulSwap(a: Byte, b: Byte, c: Byte)
    ensures Mul(Mul(a, b), c) == Mul(Mul(a, c), b)
  {
    MulAssociates(a, b, c);
    MulCommutes(b, c);
    MulAssociates(a, c, b);
  }

  // ----- a nonzero polynomial with k coefficients has fewer than k roots

  /** Coefficients of the quotient of c by (x - r). */
  function Divide(c: Coeffs, r: Byte): (q: Coeffs)
    requires c != []
    ensures |q| == |c| - 1
  {
    if |c| == 1 then [] else [Eval(c[1..], r)] + Divide(c[1..], r)
  }

  lemma XorDropPair(p: Byte, q: Byte, r: Byte, s: Byte)
    ensures XorByte(XorByte(p, XorByte(q, r)), XorByte(r, s)) == XorByte(XorByte(p, q), s)
  {
    XorAssociates(p, q, r);
    XorAssociates(XorByte(p, q), r, XorByte(r, s));
    XorCancel(s, r);
  }

  /** One step of synthetic division. */
  lemma DivideStep(d: Byte, e: Byte, x: Byte, r: Byte, c0: Byte)
    ensures XorByte(Mul(XorByte(Mul(d, x), e), XorByte(x, r)), XorByte(Mul(e, r), c0))
            == XorByte(Mul(XorByte(Mul(d, XorByte(x, r)), e), x), c0)
  {
    var a := XorByte(x, r);
    MulAddBoth(Mul(d, x), e, a);
    MulAddBoth(e, x, r);
    MulAddBoth(Mul(d, a), e, x);
    MulSwap(d, x, a);
    XorDropPair(Mul(Mul(d, a), x), Mul(e, x), Mul(e, r), c0);
  }

  lemma {:induction false} DivideCorrect(c: Coeffs, r: Byte, x: Byte)
    requires c != []
    ensures Eval(c, x) == XorByte(Mul(Eval(Divide(c, r), x), XorByte(x, r)), Eval(c, r))
  {
    if |c| == 1 {
      MulZeroLeft(x);
      MulZeroLeft(r);
      MulZeroLeft(XorByte(x, r));
    } else {
      DivideCorrect(c[1..], r, x);
      DivideStep(Eval(Divide(c[1..], r), x), Eval(c[1..], r), x, r, c[0]);
    }
  }

  lemma {:induction false} DivideToZero(c: Coeffs, r: Byte)
    requires c != [] && AllZero(Divide(c, r)) && Eval(c, r) == 0
    ensures AllZero(c)
  {
    hide Mul;
    if |c| == 1 {
      MulZeroLeft(r);
    } else {
      var q := Divide(c, r);
      assert q[0] == Eval(c[1..], r) == 0;
      assert AllZero(Divide(c[1..], r)) by {
        assert forall i :: 0 <= i < |c| - 2 ==> Divide(c[1..], r)[i] == q[i + 1];
      }
      DivideToZero(c[1..], r);
      MulZeroLeft(r);
      assert forall i :: 1 <= i < |c| ==> c[i] == c[1..][i - 1];
    }
  }

  /** As many distinct roots as coefficients leave the zero polynomial only. */
  lemma {:induction false} ZeroByRoots(c: Coeffs, xs: seq<Byte>)
    requires |xs| >= |c| && Distinct(xs)
    requires forall x :: x in xs ==> Eval(c, x) == 0
    ensures AllZero(c)
    decreases |c|
  {
    if c != [] {
      var r, rest := xs[0], xs[1..];
      forall x | x in rest
        ensures Eval(Divide(c, r), x) == 0
      {
        DivideCorrect(c, r, x);
        var i :| 0 <= i < |rest| && rest[i] == x;
        assert xs[i + 1] == x && x != r;
        XorZeroOnlyIfEqual(x, r);
        if Eval(Divide(c, r), x) != 0 {
          MulIsNonzero(Eval(Divide(c, r), x), XorByte(x, r));
        }
      }
      ZeroByRoots(Divide(c, r), rest);
      DivideToZero(c, r);
    }
  }

  lemma XorZeroOnlyIfEqual(a: Byte, b: Byte)
    ensures XorByte(a, b) == 0 <==> a == b
  {
    XorSelf(a);
    if XorByte(a, b) == 0 {
      XorZero(a, b);
    }
  }

  // ----- sums and products of polynomials

  function Sum(c: Coeffs, d: Coeffs): (s: Coeffs)
    requires |c| == |d|
    ensures |s| == |c|
  {
    seq(|c|, i requires 0 <= i < |c| => XorByte(c[i], d[i]))
  }

  lemma {:induction false} EvalSum(c: Coeffs, d: Coeffs, x: Byte)
    requires |c| == |d|
    ensures Eval(Sum(c, d), x) == XorByte(Eval(c, x), Eval(d, x))
  {
    if c != [] {
      EvalSum(c[1..], d[1..], x);
      assert Sum(c, d)[1..] == Sum(c[1..], d[1..]);
      MulAddBoth(Eval(c[1..], x), Eval(d[1..], x), x);
      XorInterchange(Mul(Eval(c[1..], x), x), Mul(Eval(d[1..], x), x), c[0], d[0]);
    }
  }

  function Scale(c: Coeffs, k: Byte): (s: Coeffs)
    ensures |s| == |c|
  {
    seq(|c|, i requires 0 <= i < |c| => Mul(c[i], k))
  }

  lemma {:induction false} EvalScale(c: Coeffs, k: Byte, x: Byte)
    ensures Eval(Scale(c, k), x) == Mul(Eval(c, x), k)
  {
    hide XTime, Xor;
    if c == [] {
      MulZeroLeft(k);
    } else {
      EvalScale(c[1..], k, x);
      assert Scale(c, k)[1..] == Scale(c[1..], k);
      MulSwap(Eval(c[1..], x), k, x);
      MulAddBoth(Mul(Eval(c[1..], x), x), c[0], k);
    }
  }

  /** The coefficients of c * (x - r). */
  function TimesLinear(c: Coeffs, r: Byte): (s: Coeffs)
    ensures |s| == |c| + 1
  {
    Sum([0] + c, Scale(c, r) + [0])
  }

  lemma {:induction false} EvalAppendZero(c: Coeffs, x: Byte)
    ensures Eval(c + [0], x) == Eval(c, x)
  {
    if c == [] {
      MulZeroLeft(x);
      assert (c + [0])[1..] == [];
    } else {
      EvalAppendZero(c[1..], x);
      assert (c + [0])[1..] == c[1..] + [0];
    }
  }

  lemma EvalTimesLinear(c: Coeffs, r: Byte, x: Byte)
    ensures Eval(TimesLinear(c, r), x) == Mul(Eval(c, x), XorByte(x, r))
  {
    EvalSum([0] + c, Scale(c, r) + [0], x);
    assert ([0] + c)[1..] == c;
    EvalAppendZero(Scale(c, r), x);
    EvalScale(c, r, x);
    MulAddBoth(Eval(c, x), x, r);
  }

  // ----- Lagrange interpolation

  function Xs(ps: seq<Point>): (xs: seq<Byte>)
    ensures |xs| == |ps|
  {
    seq(|ps|, i requires 0 <= i < |ps| => ps[i].x)
  }

  ghost predicate OnCurve(ps: seq<Point>, c: Coeffs) {
    forall p :: p in ps ==> p.y == Eval(c, p.x)
  }

  /** Division, with 0 where there is no quotient: total, so that sums of quotients are. */
  ghost function Quotient(a: Byte, d: Byte): (q: Byte)
    ensures d != 0 ==> q == Div(a, d)
  {
    if d == 0 then 0 else Div(a, d)
  }

  /** y_i times (x - x_j) / (x_i - x_j) for every j < n other than i. */
  ghost function Term(ps: seq<Point>, i: nat, x: Byte, n: nat): Byte
    requires i < |ps| && n <= |ps|
    decreases n
  {
    if n == 0 then ps[i].y
    else if n - 1 == i then Term(ps, i, x, n - 1)
    else Mul(Term(ps, i, x, n - 1), Quotient(XorByte(x, ps[n - 1].x), XorByte(ps[i].x, ps[n - 1].x)))
  }

  /** The sum of the first n terms. */
  ghost function Lagrange(ps: seq<Point>, x: Byte, n: nat): Byte
    requires n <= |ps|
    decreases n
  {
    if n == 0 then 0 else XorByte(Lagrange(ps, x, n - 1), Term(ps, n - 1, x, |ps|))
  }

  // ----- the interpolant is a polynomial with as many coefficients as points

  lemma QuotientAsProduct(a: Byte, d: Byte)
    ensures Quotient(a, d) == Mul(a, Quotient(1, d))
  {
    if d != 0 {
      MulAssociates(a, Div(1, d), d);
      MulOneRight(a);
      QuotientIsUnique(Div(a, d), Mul(a, Div(1, d)), d);
    }
  }

  lemma MulOneRight(a: Byte)
    ensures Mul(a, 1) == a
  {
    MulDigits(a, 1);
  }

  ghost function TermCoeffs(ps: seq<Point>, i: nat, n: nat): (c: Coeffs)
    requires i < |ps| && n <= |ps|
    ensures |c| == if i < n then n else n + 1
    decreases n
  {
    if n == 0 then [ps[i].y]
    else if n - 1 == i then TermCoeffs(ps, i, n - 1)
    else FactorCoeffs(TermCoeffs(ps, i, n - 1), ps[n - 1].x, XorByte(ps[i].x, ps[n - 1].x))
  }

  /** The coefficients of c * (x - r) / gap. */
  ghost function FactorCoeffs(c: Coeffs, r: Byte, gap: Byte): (s: Coeffs)
    ensures |s| == |c| + 1
  {
    Scale(TimesLinear(c, r), Quotient(1, gap))
  }

  lemma EvalFactor(c: Coeffs, r: Byte, gap: Byte, x: Byte)
    ensures Eval(FactorCoeffs(c, r, gap), x) == Mul(Eval(c, x), Quotient(XorByte(x, r), gap))
  {
    var inverse := Quotient(1, gap);
    EvalScale(TimesLinear(c, r), inverse, x);
    EvalTimesLinear(c, r, x);
    MulAssociates(Eval(c, x), XorByte(x, r), inverse);
    QuotientAsProduct(XorByte(x, r), gap);
  }

  lemma EvalConstant(y: Byte, x: Byte)
    ensures Eval([y], x) == y
  {
    MulZeroLeft(x);
  }

  lemma {:induction false} EvalTermCoeffs(ps: seq<Point>, i: nat, x: Byte, n: nat)
    requires i < |ps| && n <= |ps|
    ensures Eval(TermCoeffs(ps, i, n), x) == Term(ps, i, x, n)
    decreases n
  {
    hide Eval, FactorCoeffs, Quotient, Mul, XorByte;
    if n == 0 {
      EvalConstant(ps[i].y, x);
    } else {
      EvalTermCoeffs(ps, i, x, n - 1);
      if n - 1 != i {
        EvalFactor(TermCoeffs(ps, i, n - 1), ps[n - 1].x, XorByte(ps[i].x, ps[n - 1].x), x);
      }
    }
  }

  ghost function LagrangeCoeffs(ps: seq<Point>, n: nat): (c: Coeffs)
    requires n <= |ps|
    ensures |c| == |ps|
    decreases n
  {
    if n == 0 then Zeros(|ps|)
    else Sum(LagrangeCoeffs(ps, n - 1), TermCoeffs(ps, n - 1, |ps|))
  }

  function Zeros(k: nat): (c: Coeffs)
    ensures |c| == k
  {
    if k == 0 then [] else [0] + Zeros(k - 1)
  }

  lemma {:induction false} EvalZeros(k: nat, x: Byte)
    ensures Eval(Zeros(k), x) == 0
  {
    if k > 0 {
      EvalZeros(k - 1, x);
      MulZeroLeft(x);
    }
  }

  lemma {:induction false} EvalLagrangeCoeffs(ps: seq<Point>, x: Byte, n: nat)
    requires n <= |ps|
    ensures Eval(LagrangeCoeffs(ps, n), x) == Lagrange(ps, x, n)
    decreases n
  {
    hide Eval, Sum, Term, TermCoeffs, Mul, XorByte;
    if n == 0 {
      EvalZeros(|ps|, x);
    } else {
      EvalLagrangeCoeffs(ps, x, n - 1);
      EvalTermCoeffs(ps, n - 1, x, |ps|);
      EvalSum(LagrangeCoeffs(ps, n - 1), TermCoeffs(ps, n - 1, |ps|), x);
    }
  }

  // ----- the interpolant passes through its points

  /** The difference of two x coordinates. */
  lemma GapIsNonzero(ps: seq<Point>, i: nat, j: nat)
    requires i < |ps| && j < |ps| && i != j && Distinct(Xs(ps))
    ensures XorByte(ps[i].x, ps[j].x) != 0
  {
    assert Xs(ps)[i] != Xs(ps)[j];
    XorZeroOnlyIfEqual(ps[i].x, ps[j].x);
  }

  lemma QuotientOfSelf(d: Byte)
    requires d != 0
    ensures Quotient(d, d) == 1 && Quotient(0, d) == 0
  {
    MulOneLeft(d);
    QuotientIsUnique(Div(d, d), 1, d);
    MulZeroLeft(d);
    QuotientIsUnique(Div(0, d), 0, d);
  }

  lemma {:induction false} TermAtOwnPoint(ps: seq<Point>, i: nat, n: nat)
    requires i < |ps| && n <= |ps| && Distinct(Xs(ps))
    ensures Term(ps, i, ps[i].x, n) == ps[i].y
    decreases n
  {
    hide Mul, XorByte;
    if n > 0 {
      var j: nat := n - 1;
      TermAtOwnPoint(ps, i, j);
      if j != i {
        GapIsNonzero(ps, i, j);
        QuotientOfSelf(XorByte(ps[i].x, ps[j].x));
        MulOneRight(ps[i].y);
      }
    }
  }

  lemma {:induction false} TermAtOtherPoint(ps: seq<Point>, i: nat, k: nat, n: nat)
    requires i < |ps| && k < n <= |ps| && i != k && Distinct(Xs(ps))
    ensures Term(ps, i, ps[k].x, n) == 0
    decreases n
  {
    hide XTime, Xor;
    var j: nat := n - 1;
    if j == k {
      GapIsNonzero(ps, i, k);
      QuotientOfSelf(XorByte(ps[i].x, ps[k].x));
      XorSelf(ps[k].x);
    } else {
      TermAtOtherPoint(ps, i, k, j);
      if j != i {
        MulZeroLeft(Quotient(XorByte(ps[k].x, ps[j].x), XorByte(ps[i].x, ps[j].x)));
      }
    }
  }

  lemma {:induction false} LagrangeAtPoint(ps: seq<Point>, k: nat, n: nat)
    requires k < |ps| && n <= |ps| && Distinct(Xs(ps))
    ensures Lagrange(ps, ps[k].x, n) == if k < n then ps[k].y else 0
    decreases n
  {
    hide Mul;
    if n > 0 {
      var i: nat := n - 1;
      LagrangeAtPoint(ps, k, i);
      if i == k {
        TermAtOwnPoint(ps, k, |ps|);
      } else {
        TermAtOtherPoint(ps, i, k, |ps|);
      }
    }
  }

  // ----- interpolation recovers the polynomial

  /** Two polynomials with at most n coefficients that agree at n points are the same. */
  lemma SameByPoints(c: Coeffs, d: Coeffs, xs: seq<Byte>)
    requires |c| == |d| <= |xs| && Distinct(xs)
    requires forall x :: x in xs ==> Eval(c, x) == Eval(d, x)
    ensures c == d
  {
    forall x | x in xs
      ensures Eval(Sum(c, d), x) == 0
    {
      EvalSum(c, d, x);
      XorZeroOnlyIfEqual(Eval(c, x), Eval(d, x));
    }
    ZeroByRoots(Sum(c, d), xs);
    forall i | 0 <= i < |c|
      ensures c[i] == d[i]
    {
      assert Sum(c, d)[i] == 0;
      XorZeroOnlyIfEqual(c[i], d[i]);
    }
  }

  /** Interpolating k points of a polynomial with k coefficients gives its value anywhere. */
  lemma InterpolationRecovers(c: Coeffs, ps: seq<Point>, x: Byte)
    requires |c| == |ps| && Distinct(Xs(ps)) && OnCurve(ps, c)
    ensures Lagrange(ps, x, |ps|) == Eval(c, x)
  {
    var d := LagrangeCoeffs(ps, |ps|);
    forall x | x in Xs(ps)
      ensures Eval(c, x) == Eval(d, x)
    {
      var k :| 0 <= k < |ps| && Xs(ps)[k] == x;
      assert ps[k] in ps;
      EvalLagrangeCoeffs(ps, x, |ps|);
      LagrangeAtPoint(ps, k, |ps|);
    }
    SameByPoints(c, d, Xs(ps));
    EvalLagrangeCoeffs(ps, x, |ps|);
  }

  lemma EvalAtZero(c: Coeffs)
    requires c != []
    ensures Eval(c, 0) == c[0]
  {
  }

  // ----- fewer shares than the threshold say nothing about the secret

  /** The y values that coefficients random give the holders of xs. */
  function ShareValues(secret: Byte, random: Coeffs, xs: seq<Byte>): (ys: seq<Byte>)
    ensures |ys| == |xs|
  {
    seq(|xs|, i requires 0 <= i < |xs| => Eval([secret] + random, xs[i]))
  }

  /** For a fixed secret, different coefficients give different values. */
  lemma ShareValuesInjective(secret: Byte, random: Coeffs, random': Coeffs, xs: seq<Byte>)
    requires |random| == |random'| == |xs| && Distinct([0] + xs)
    requires ShareValues(secret, random, xs) == ShareValues(secret, random', xs)
    ensures random == random'
  {
    var c, c' := [secret] + random, [secret] + random';
    forall x | x in [0] + xs
      ensures Eval(c, x) == Eval(c', x)
    {
      if x == 0 {
        EvalAtZero(c);
        EvalAtZero(c');
      } else {
        var i :| 0 <= i < |xs| && xs[i] == x;
        assert ShareValues(secret, random, xs)[i] == ShareValues(secret, random', xs)[i];
      }
    }
    SameByPoints(c, c', [0] + xs);
    assert random == c[1..] == c'[1..] == random';
  }

  /** Any values fit any secret. */
  lemma ShareValuesSurjective(secret: Byte, ys: seq<Byte>, xs: seq<Byte>) returns (random: Coeffs)
    requires |ys| == |xs| && Distinct([0] + xs)
    ensures |random| == |xs| && ShareValues(secret, random, xs) == ys
  {
    hide Eval, Lagrange, LagrangeCoeffs, Mul, XorByte;
    var ps := [Point(0, secret)] + seq(|xs|, i requires 0 <= i < |xs| => Point(xs[i], ys[i]));
    assert Xs(ps) == [0] + xs;
    var c := LagrangeCoeffs(ps, |ps|);
    random := c[1..];
    EvalLagrangeCoeffs(ps, 0, |ps|);
    LagrangeAtPoint(ps, 0, |ps|);
    EvalAtZero(c);
    assert c == [secret] + random;
    forall i | 0 <= i < |xs|
      ensures Eval(c, xs[i]) == ys[i]
    {
      EvalLagrangeCoeffs(ps, xs[i], |ps|);
      LagrangeAtPoint(ps, i + 1, |ps|);
    }
  }
}
