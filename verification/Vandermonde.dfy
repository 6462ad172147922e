/** Closed-form inversion of a Vandermonde matrix (_invert_vdm of lib/fec.c). */
module Vandermonde {
  import opened GaloisField
  import opened GaloisTables
  import opened LinearAlgebra
  import opened GaussJordan
  import opened Polynomial

  function Pow(x: Byte, k: nat): (r: Byte) { if k == 0 then ONE else Mul(x, Pow(x, k - 1)) }

  /** 1, x, x^2, ..., x^(d-1) */
  function PowersRow(x: Byte, d: nat): (r: Vec)
    ensures |r| == d && forall k :: 0 <= k < d ==> r[k] == Pow(x, k)
  {
    seq(d, k requires 0 <= k < d => Pow(x, k))
  }

  function Vdm(ps: seq<Byte>, d: nat): (r: Mat)
    ensures Shape(r, |ps|, d) && forall i :: 0 <= i < |ps| ==> r[i] == PowersRow(ps[i], d)
  {
    seq(|ps|, i requires 0 <= i < |ps| => PowersRow(ps[i], d))
  }

  /** The first n terms and x^n times the rest make up the value. */
  lemma {:induction false} EvalDotTo(c: Vec, x: Byte, n: nat)
    requires n <= |c|
    ensures Eval(c, x) == Add(DotTo(PowersRow(x, |c|), c, n), Mul(Pow(x, n), EvalFrom(c, n, x)))
  {
    var row := PowersRow(x, |c|);
    if n == 0 {
      MulUnit(Eval(c, x)); AddZero(Eval(c, x));
    } else {
      EvalDotTo(c, x, n - 1);
      var e, xn := EvalFrom(c, n, x), Pow(x, n - 1);
      MulAdd(xn, c[n - 1], Mul(x, e));
      MulAssoc(xn, x, e); MulComm(xn, x);
      AddAssoc(DotTo(row, c, n - 1), Mul(xn, c[n - 1]), Mul(Pow(x, n), e));
    }
  }

  /** A row of the matrix evaluates polynomials. */
  lemma EvalDot(c: Vec, x: Byte)
    ensures Dot(PowersRow(x, |c|), c) == Eval(c, x)
  {
    EvalDotTo(c, x, |c|);
    MulZero(Pow(x, |c|));
    AddZero(Dot(PowersRow(x, |c|), c));
  }

  /** A Vandermonde matrix over distinct points is non-singular. */
  lemma VdmNonsingular(ps: seq<Byte>)
    requires Distinct(ps)
    ensures Nonsingular(Vdm(ps, |ps|))
  {
    var v := Vdm(ps, |ps|);
    forall c: Vec | Solves(v, c, Zeroes(|ps|)) ensures c == Zeroes(|ps|) {
      forall i | 0 <= i < |ps| ensures Eval(c, ps[i]) == ZERO { EvalDot(c, ps[i]); }
      TooManyRoots(c, ps);
    }
  }

  // ---- the product polynomial

  /** Coefficient k of (X - p) c. */
  function LinearEntry(c: Vec, p: Byte, k: nat): (r: Byte)
    requires 0 < |c| && k <= |c|
  {
    if k == 0 then Mul(p, c[0]) else if k == |c| then c[k - 1] else Add(c[k - 1], Mul(p, c[k]))
  }

  function TimesLinear(c: Vec, p: Byte): (r: Vec)
    requires |c| > 0
    ensures |r| == |c| + 1 && forall k :: 0 <= k <= |c| ==> r[k] == LinearEntry(c, p, k)
  {
    seq(|c| + 1, k requires 0 <= k <= |c| => LinearEntry(c, p, k))
  }

  /** p c + x (c + (x + p) v) = (x + p) (c + x v) */
  lemma TimesLinearStep(x: Byte, p: Byte, c: Byte, v: Byte)
    ensures Add(Mul(p, c), Mul(x, Add(c, Mul(Add(x, p), v)))) == Mul(Add(x, p), Add(c, Mul(x, v)))
  {
    var s := Add(x, p);
    var u := Mul(s, Mul(x, v));
    MulAdd(x, c, Mul(s, v));
    MulAssoc(x, s, v); MulComm(x, s); MulAssoc(s, x, v);
    AddAssoc(Mul(p, c), Mul(x, c), u);
    AddComm(Mul(p, c), Mul(x, c));
    MulAdd(c, x, p);
    MulAdd(s, c, Mul(x, v));
  }

  lemma {:induction false} EvalTimesLinearFrom(c: Vec, p: Byte, x: Byte, i: nat)
    requires 1 <= i <= |c|
    ensures EvalFrom(TimesLinear(c, p), i, x) == Add(c[i - 1], Mul(Add(x, p), EvalFrom(c, i, x)))
    decreases |c| - i
  {
    var w := TimesLinear(c, p);
    if i == |c| {
      MulZero(x); MulZero(Add(x, p));
      assert EvalFrom(w, i + 1, x) == ZERO;
    } else {
      EvalTimesLinearFrom(c, p, x, i + 1);
      var v := EvalFrom(c, i + 1, x);
      TimesLinearStep(x, p, c[i], v);
      AddAssoc(c[i - 1], Mul(p, c[i]), Mul(x, Add(c[i], Mul(Add(x, p), v))));
    }
  }

  lemma EvalTimesLinear(c: Vec, p: Byte, x: Byte)
    requires |c| > 0
    ensures Eval(TimesLinear(c, p), x) == Mul(Add(x, p), Eval(c, x))
  {
    EvalTimesLinearFrom(c, p, x, 1);
    TimesLinearStep(x, p, c[0], EvalFrom(c, 1, x));
  }

  /** The product of (X - p) over the first n points, leading coefficient included. */
  function Product(ps: seq<Byte>, n: nat): (r: Vec)
    requires n <= |ps|
    ensures |r| == n + 1 && r[n] == ONE
  {
    if n == 0 then [ONE] else TimesLinear(Product(ps, n - 1), ps[n - 1])
  }

  lemma {:induction false} ProductRoots(ps: seq<Byte>, n: nat, i: nat)
    requires i < n <= |ps|
    ensures Eval(Product(ps, n), ps[i]) == ZERO
  {
    var c, p := Product(ps, n - 1), ps[n - 1];
    EvalTimesLinear(c, p, ps[i]);
    if i == n - 1 {
      AddZero(p); MulZero(Eval(c, p));
    } else {
      ProductRoots(ps, n - 1, i);
      MulZero(Add(ps[i], p));
    }
  }

  /** What the coefficient loop computes: at every stage after the first it leaves the new
      constant term at zero instead of multiplying it in. */
  function Coefficients(ps: seq<Byte>, n: nat): (r: Vec)
    requires 1 <= n <= |ps|
    ensures |r| == n + 1 && r[n] == ONE && (n > 1 ==> r[0] == ZERO)
  {
    if n == 1 then [ps[0], ONE] else TimesLinear(Coefficients(ps, n - 1), ps[n - 1])[0 := ZERO]
  }

  /** When the skipped terms matter: never for one or two points, otherwise unless one of the
      first two points is zero. */
  ghost predicate SkipsNothing(ps: seq<Byte>) {
    |ps| <= 2 || ps[0] == ZERO || ps[1] == ZERO
  }

  lemma OnePoint(ps: seq<Byte>, n: nat)
    requires n == 1 <= |ps|
    ensures Coefficients(ps, n) == Product(ps, n)
  {
    hide Mul, Add;
    MulUnit(ps[0]);
    assert Product(ps, n - 1) == [ONE];
  }

  lemma KeepZero(w: Vec)
    requires |w| > 0 && w[0] == ZERO
    ensures w[0 := ZERO] == w
  {}

  /** A stage is exact when the term it skips is zero. */
  lemma {:induction false} ExactStage(ps: seq<Byte>, n: nat)
    requires 1 < n <= |ps| && Coefficients(ps, n - 1) == Product(ps, n - 1)
    requires Mul(ps[n - 1], Coefficients(ps, n - 1)[0]) == ZERO
    ensures Coefficients(ps, n) == Product(ps, n)
  {
    hide Mul, Add;
    KeepZero(TimesLinear(Coefficients(ps, n - 1), ps[n - 1]));
  }

  lemma {:induction false} CoefficientsExact(ps: seq<Byte>, n: nat)
    requires 1 <= n <= |ps| && (n == 1 || ps[0] == ZERO || ps[1] == ZERO)
    ensures Coefficients(ps, n) == Product(ps, n)
  {
    if n == 1 {
      OnePoint(ps, n);
    } else {
      CoefficientsExact(ps, n - 1);
      if n == 2 { MulNonZero(ps[1], ps[0]); } else { MulZero(ps[n - 1]); }
      ExactStage(ps, n);
    }
  }

  lemma QuotientIgnoresConstant(c: Vec, c': Vec, p: Byte)
    requires |c| == |c'| > 0 && forall k :: 1 <= k < |c| ==> c[k] == c'[k]
    ensures Quotient(c, p) == Quotient(c', p)
  {
    forall k | 0 <= k < |c| - 1 ensures Quotient(c, p)[k] == Quotient(c', p)[k] { EvalFromAgree(c, c', k + 1, p); }
  }

  lemma TwoPoints(ps: seq<Byte>, n: nat, p: Byte)
    requires n == 2 == |ps|
    ensures Quotient(Coefficients(ps, n), p) == Quotient(Product(ps, n), p)
  {
    hide Mul, Add;
    OnePoint(ps, n - 1);
    var c, c' := Coefficients(ps, n), Product(ps, n);
    assert c[1] == c'[1] && c[2] == c'[2];
    QuotientIgnoresConstant(c, c', p);
  }

  lemma QuotientsAgree(ps: seq<Byte>, p: Byte)
    requires |ps| > 0 && SkipsNothing(ps)
    ensures Quotient(Coefficients(ps, |ps|), p) == Quotient(Product(ps, |ps|), p)
  {
    hide Mul, Add, Product, Coefficients, Quotient, EvalFrom;
    if |ps| == 2 {
      TwoPoints(ps, |ps|, p);
    } else {
      CoefficientsExact(ps, |ps|);
    }
  }

  /** b and t of the source for one point. */
  function Basis(ps: seq<Byte>, row: nat): (r: Vec)
    requires row < |ps|
    ensures |r| == |ps|
  {
    Quotient(Coefficients(ps, |ps|), ps[row])
  }

  function Denominator(ps: seq<Byte>, row: nat): (r: Byte)
    requires row < |ps|
  {
    Eval(Basis(ps, row), ps[row])
  }

  /** What _invert_vdm() leaves in the matrix. */
  ghost function VdmInverse(ps: seq<Byte>): (r: Mat)
    ensures Shape(r, |ps|, |ps|)
    ensures forall col, row :: 0 <= col < |ps| && 0 <= row < |ps| ==>
      r[col][row] == Mul(Inv(Denominator(ps, row)), Basis(ps, row)[col])
  {
    seq(|ps|, col requires 0 <= col < |ps| => seq(|ps|, row requires 0 <= row < |ps| =>
      Mul(Inv(Denominator(ps, row)), Basis(ps, row)[col])))
  }

  lemma VdmEntry(ps: seq<Byte>, i: nat, row: nat)
    requires i < |ps| && row < |ps|
    ensures Dot(PowersRow(ps[i], |ps|), Column(VdmInverse(ps), row)) ==
      Mul(Inv(Denominator(ps, row)), Eval(Basis(ps, row), ps[i]))
  {
    assert Column(VdmInverse(ps), row) == Scale(Inv(Denominator(ps, row)), Basis(ps, row));
    DotScale(Inv(Denominator(ps, row)), Basis(ps, row), PowersRow(ps[i], |ps|));
    EvalDot(Basis(ps, row), ps[i]);
  }

  /** The basis polynomial of `row` vanishes at every other point. */
  lemma BasisElsewhere(ps: seq<Byte>, row: nat, i: nat)
    requires Distinct(ps) && row < |ps| && i < |ps| && i != row && SkipsNothing(ps)
    ensures Eval(Basis(ps, row), ps[i]) == ZERO
  {
    QuotientsAgree(ps, ps[row]);
    ProductRoots(ps, |ps|, i); ProductRoots(ps, |ps|, row);
    RootOfQuotient(Product(ps, |ps|), ps[row], ps[i]);
  }

  lemma BasisMonic(ps: seq<Byte>, row: nat)
    requires row < |ps|
    ensures Basis(ps, row)[|ps| - 1] == ONE
  {
    MulZero(ps[row]); AddZero(ONE);
    assert EvalFrom(Coefficients(ps, |ps|), |ps| + 1, ps[row]) == ZERO;
  }

  lemma DenominatorNonZero(ps: seq<Byte>, row: nat)
    requires Distinct(ps) && row < |ps| && SkipsNothing(ps)
    ensures Denominator(ps, row) != ZERO
  {
    BasisMonic(ps, row);
    var b := Basis(ps, row);
    if Eval(b, ps[row]) == ZERO {
      forall i | 0 <= i < |ps| ensures Eval(b, ps[i]) == ZERO {
        if i != row { BasisElsewhere(ps, row, i); }
      }
      TooManyRoots(b, ps);
    }
  }

  lemma RightInverse(ps: seq<Byte>)
    requires Distinct(ps) && SkipsNothing(ps)
    ensures MatMul(Vdm(ps, |ps|), VdmInverse(ps), |ps|) == Identity(|ps|)
  {
    var d, v, w := |ps|, Vdm(ps, |ps|), VdmInverse(ps);
    forall i | 0 <= i < d ensures VecMat(v[i], w, d) == Unit(i, d) {
      forall row | 0 <= row < d ensures VecMat(v[i], w, d)[row] == Unit(i, d)[row] {
        VdmEntry(ps, i, row);
        if i == row {
          DenominatorNonZero(ps, row);
          MulInv(Denominator(ps, row));
        } else {
          BasisElsewhere(ps, row, i);
          MulZero(Inv(Denominator(ps, row)));
        }
      }
    }
  }

  lemma RightInverseApplies(a: Mat, b: Mat, y: Vec)
    requires Shape(a, |a|, |a|) && Shape(b, |a|, |a|) && |y| == |a|
    requires MatMul(a, b, |a|) == Identity(|a|)
    ensures Solves(a, MatVec(b, y), y)
  {
    forall i | 0 <= i < |a| ensures Dot(a[i], MatVec(b, y)) == y[i] {
      VecMatDot(a[i], b, y);
      assert MatMul(a, b, |a|)[i] == Unit(i, |a|);
      DotUnit(y, i);
    }
  }

  lemma SolutionsAdd(a: Mat, x: Vec, z: Vec, y: Vec)
    requires Solves(a, x, y) && Solves(a, z, y)
    ensures Solves(a, Plus(x, z), Zeroes(|a|))
  {
    forall i | 0 <= i < |a| ensures Dot(a[i], Plus(x, z)) == ZERO {
      DotPlus(x, z, a[i]);
      AddZero(y[i]);
    }
  }

  /** A right inverse of a non-singular matrix is its inverse. */
  lemma RightInverseSuffices(a: Mat, b: Mat)
    requires Nonsingular(a) && Shape(b, |a|, |a|) && MatMul(a, b, |a|) == Identity(|a|)
    ensures IsInverse(a, b)
  {
    forall x: Vec | |x| == |a| ensures MatVec(b, MatVec(a, x)) == x {
      var y := MatVec(a, x);
      var z := MatVec(b, y);
      SolvesMatVec(a, x);
      RightInverseApplies(a, b, y);
      SolutionsAdd(a, x, z, y);
      forall i | 0 <= i < |x| ensures z[i] == x[i] {
        assert Plus(x, z)[i] == ZERO;
        AddCancel(x[i], z[i]);
      }
    }
    UndoesIsLeftInverse(a, b);
  }

  /** Conversely a matrix with an inverse is non-singular. */
  lemma InverseNonsingular(a: Mat, b: Mat)
    requires IsInverse(a, b)
    ensures Nonsingular(a)
  {
    forall x: Vec | Solves(a, x, Zeroes(|a|)) ensures x == Zeroes(|a|) {
      RightInverseApplies(b, a, x);
      SolvesUnique(a, x, Zeroes(|a|));
      forall i | 0 <= i < |a| ensures x[i] == ZERO {
        DotToComm(b[i], Zeroes(|a|), |a|);
        DotToZero(Zeroes(|a|), b[i], |a|);
      }
    }
  }

  // ---- exactly when the closed form is right

  lemma EvalDropConstant(c: Vec, x: Byte)
    requires |c| > 0
    ensures Eval(c[0 := ZERO], x) == Add(c[0], Eval(c, x))
  {
    var t := Mul(x, EvalFrom(c, 1, x));
    EvalFromAgree(c, c[0 := ZERO], 1, x);
    AddAssoc(c[0], c[0], t); AddZero(c[0]); AddZero(t);
  }

  lemma {:induction false} StageAt(ps: seq<Byte>, n: nat, x: Byte)
    requires 2 < n <= |ps|
    ensures Eval(Coefficients(ps, n), x) == Mul(Add(x, ps[n - 1]), Eval(Coefficients(ps, n - 1), x))
  {
    hide Mul, Add;
    var c, p := Coefficients(ps, n - 1), ps[n - 1];
    MulZero(p);
    KeepZero(TimesLinear(c, p));
    EvalTimesLinear(c, p, x);
  }

  /** The first point is not a root of what the loop computes. */
  lemma {:induction false} FirstPointMissed(ps: seq<Byte>, n: nat)
    requires 2 <= n <= |ps| && Distinct(ps) && ps[0] != ZERO && ps[1] != ZERO
    ensures Eval(Coefficients(ps, n), ps[0]) != ZERO
  {
    hide Mul, Add;
    var p := ps[n - 1];
    if n == 2 {
      OnePoint(ps, n - 1);
      EvalDropConstant(Product(ps, n), ps[0]);
      ProductRoots(ps, n, 0);
      AddZero(Product(ps, n)[0]);
      MulNonZero(p, ps[0]);
    } else {
      FirstPointMissed(ps, n - 1);
      StageAt(ps, n, ps[0]);
      AddCancel(ps[0], p);
      MulNonZero(Add(ps[0], p), Eval(Coefficients(ps, n - 1), ps[0]));
    }
  }

  lemma LastPointHit(ps: seq<Byte>)
    requires |ps| >= 3
    ensures Eval(Coefficients(ps, |ps|), ps[|ps| - 1]) == ZERO
  {
    hide Mul, Add, Coefficients, EvalFrom;
    var p := ps[|ps| - 1];
    StageAt(ps, |ps|, p);
    AddZero(p); MulZero(Eval(Coefficients(ps, |ps| - 1), p));
  }

  lemma BasisMisses(ps: seq<Byte>, r: nat)
    requires Distinct(ps) && !SkipsNothing(ps) && r == |ps| - 1
    ensures Eval(Basis(ps, r), ps[0]) != ZERO
  {
    hide Mul, Add;
    FirstPointMissed(ps, |ps|); LastPointHit(ps);
    Division(Coefficients(ps, |ps|), ps[r], ps[0]);
    MulZero(Add(ps[0], ps[r])); AddZero(ZERO);
  }

  lemma SkippedTermsMatter(ps: seq<Byte>)
    requires Distinct(ps) && !SkipsNothing(ps)
    ensures !IsInverse(Vdm(ps, |ps|), VdmInverse(ps))
  {
    hide Mul, Add;
    var d, r := |ps|, |ps| - 1;
    var v, w := Vdm(ps, d), VdmInverse(ps);
    var b, t := Basis(ps, r), Denominator(ps, r);
    BasisMisses(ps, r);
    VdmEntry(ps, 0, r); VdmEntry(ps, r, r);
    if MatMul(v, w, d) == Identity(d) {
      assert VecMat(v[0], w, d)[r] == Unit(0, d)[r] && VecMat(v[r], w, d)[r] == Unit(r, d)[r];
      MulNonZero(Inv(t), Eval(b, ps[0]));
      if t != ZERO { MulInv(t); } else { MulZero(Eval(b, ps[r])); }
    }
  }

  /** The closed form inverts the Vandermonde matrix of distinct points exactly when there are at
      most two points or one of the first two is zero. */
  lemma VdmInverseExact(ps: seq<Byte>)
    requires Distinct(ps)
    ensures IsInverse(Vdm(ps, |ps|), VdmInverse(ps)) <==> SkipsNothing(ps)
  {
    if SkipsNothing(ps) {
      VdmNonsingular(ps);
      RightInverse(ps);
      RightInverseSuffices(Vdm(ps, |ps|), VdmInverse(ps));
    } else {
      SkippedTermsMatter(ps);
    }
  }

  // ---- the loops

  /** Coefficient k - z of o, the ones below it being zero. */
  ghost function Slot(o: Vec, z: int, k: nat): (r: Byte)
    requires k - z < |o|
  {
    if k < z then ZERO else o[k - z]
  }

  /** The top entries of c[] are the coefficients of `o` below its leading one. */
  ghost predicate Holds(c: seq<Byte>, o: Vec) {
    1 < |o| <= |c| + 1 && o[|o| - 1] == ONE &&
    forall k {:trigger c[k]} :: 0 <= k < |c| ==> c[k] == Slot(o, |c| + 1 - |o|, k)
  }

  lemma StageEntry(c: seq<Byte>, o: Vec, p: Byte, k: nat, r: Byte)
    requires Holds(c, o) && |o| <= |c| && k < |c|
    requires r == if |c| + 1 - |o| <= k < |c| - 1 then Add(c[k], Mul(p, c[k + 1]))
      else if k == |c| - 1 then Add(c[k], p) else c[k]
    ensures r == Slot(TimesLinear(o, p)[0 := ZERO], |c| - |o|, k)
  {
    hide Mul, Add;
    MulUnit(p);
  }

  /** One stage multiplies by (X - pi), without the constant term. */
  method Stage(gf: Gf, c: array<Byte>, pi: Byte, i: nat, ghost o: Vec)
    requires 1 <= i < c.Length && |o| == i + 1 && Holds(c[..], o)
    modifies c
    ensures Holds(c[..], TimesLinear(o, pi)[0 := ZERO])
  {
    hide Mul, Add;
    var d := c.Length;
    var j := d - 1 - (i - 1);
    while j < d - 1
      invariant d - i <= j <= d - 1
      invariant forall k :: 0 <= k < d ==>
        c[k] == if d - i <= k < j then Add(old(c[k]), Mul(pi, old(c[k + 1]))) else old(c[k])
    {
      c[j] := Add(c[j], GfMul(gf, pi, c[j + 1]));
      j := j + 1;
    }
    c[d - 1] := Add(c[d - 1], pi);
    forall k | 0 <= k < d ensures c[k] == Slot(TimesLinear(o, pi)[0 := ZERO], d - |o|, k) {
      StageEntry(old(c[..]), o, pi, k, c[k]);
    }
  }

  /** c holds the coefficients of the product of (X - p), with 1 above them. */
  method BuildCoefficients(gf: Gf, p: array<Byte>, c: array<Byte>)
    requires p != c && 1 < c.Length == p.Length && forall k :: 0 <= k < c.Length ==> c[k] == ZERO
    modifies c
    ensures c[..] + [ONE] == Coefficients(p[..], p.Length)
  {
    hide Mul, Add;
    var d := c.Length;
    ghost var ps := p[..];
    c[d - 1] := p[0];
    var i := 1;
    while i < d
      invariant 1 <= i <= d && Holds(c[..], Coefficients(ps, i))
    {
      Stage(gf, c, p[i], i, Coefficients(ps, i));
      i := i + 1;
    }
    assert c[..] + [ONE] == Coefficients(ps, d);
  }

  /** Synthetic division of c by (X - xx) into b, and the value t of b at xx. */
  method Divide(gf: Gf, c: array<Byte>, b: array<Byte>, xx: Byte, ghost f: Vec) returns (t: Byte)
    requires c != b && c.Length == b.Length > 0 && f == c[..] + [ONE]
    modifies b
    ensures b[..] == Quotient(f, xx) && t == Eval(b[..], xx)
  {
    hide Mul, Add;
    var d := c.Length;
    ghost var q := Quotient(f, xx);
    MulZero(xx); AddZero(ONE);
    assert EvalFrom(f, d + 1, xx) == ZERO && EvalFrom(q, d, xx) == ZERO;
    t := ONE;
    b[d - 1] := ONE;
    var i := d - 1;
    while i > 0
      invariant 0 <= i <= d - 1
      invariant forall k :: i <= k < d ==> b[k] == q[k]
      invariant t == EvalFrom(q, i, xx)
    {
      AddComm(Mul(xx, t), q[i - 1]);
      b[i - 1] := Add(c[i], GfMul(gf, xx, b[i]));
      t := Add(GfMul(gf, xx, t), b[i - 1]);
      i := i - 1;
    }
    assert b[..] == q;
  }

  /** The degenerate 1 by 1 case is left alone: it is its own inverse. */
  lemma OnePointInverse(ps: seq<Byte>)
    requires |ps| == 1
    ensures VdmInverse(ps)[0] == PowersRow(ps[0], 1)
  {
    hide Mul, Add;
    BasisMonic(ps, 0);
    var b := Basis(ps, 0);
    assert EvalFrom(b, |ps|, ps[0]) == ZERO && EvalFrom(b, |ps| - 1, ps[0]) == Denominator(ps, 0);
    MulZero(ps[0]); AddZero(ONE);
    MulUnit(Inv(ONE)); MulInv(ONE); MulComm(ONE, Inv(ONE));
  }

  /** b and 1 / t for one point. */
  method BasisColumn(gf: Gf, c: array<Byte>, b: array<Byte>, xx: Byte, row: nat, ghost ps: seq<Byte>)
    returns (inv: Byte)
    requires c != b && c.Length == b.Length == |ps| && row < |ps| && xx == ps[row]
    requires c[..] + [ONE] == Coefficients(ps, |ps|)
    modifies b
    ensures forall i :: 0 <= i < |ps| ==> VdmInverse(ps)[i][row] == Mul(inv, b[i])
  {
    hide Mul, Add;
    var t := Divide(gf, c, b, xx, Coefficients(ps, |ps|));
    inv := GfInverse(gf, t);
  }

  /** Column `row` of the result: the basis polynomial over its value. */
  method StoreColumn(gf: Gf, src: array2<Byte>, b: array<Byte>, inv: Byte, row: nat)
    requires row < src.Length1 == b.Length <= src.Length0
    modifies src
    ensures forall i, j :: 0 <= i < src.Length0 && 0 <= j < src.Length1 ==>
      src[i, j] == if i < b.Length && j == row then Mul(inv, b[i]) else old(src[i, j])
  {
    hide Mul, Add;
    var col := 0;
    while col < b.Length
      invariant 0 <= col <= b.Length
      invariant forall i, j :: 0 <= i < src.Length0 && 0 <= j < src.Length1 ==>
        src[i, j] == if i < col && j == row then Mul(inv, b[i]) else old(src[i, j])
    {
      src[col, row] := GfMul(gf, inv, b[col]);
      col := col + 1;
    }
  }

  /** The points are in the second column. */
  method ReadPoints(src: array2<Byte>, p: array<Byte>)
    requires 1 < p.Length == src.Length1 <= src.Length0
    modifies p
    ensures forall i :: 0 <= i < p.Length ==> p[i] == src[i, 1]
  {
    for i := 0 to p.Length
      invariant forall k :: 0 <= k < i ==> p[k] == src[k, 1]
    {
      p[i] := src[i, 1];
    }
  }

  method FillInverse(gf: Gf, src: array2<Byte>, p: array<Byte>, c: array<Byte>, ghost ps: seq<Byte>, ghost w: Mat)
    requires p != c && p[..] == ps && 0 < p.Length == c.Length == src.Length1 <= src.Length0
    requires c[..] + [ONE] == Coefficients(ps, |ps|) && w == VdmInverse(ps)
    modifies src
    ensures forall i, j :: 0 <= i < src.Length0 && 0 <= j < |ps| ==>
      src[i, j] == if i < |ps| then w[i][j] else old(src[i, j])
  {
    hide Mul, Add, VdmInverse;
    var d := p.Length;
    var b := new Byte[d](_ => ZERO);
    var row := 0;
    while row < d
      invariant 0 <= row <= d
      invariant forall i, j :: 0 <= i < src.Length0 && 0 <= j < d && (j < row || i >= d) ==>
        src[i, j] == if i < d then w[i][j] else old(src[i, j])
    {
      var inv := BasisColumn(gf, c, b, p[row], row, ps);
      StoreColumn(gf, src, b, inv, row);
      row := row + 1;
    }
  }

  /** In-place inversion of the top d by d block, a Vandermonde matrix; other rows are untouched. */
  method InvertVdm(gf: Gf, src: array2<Byte>, d: nat, ghost ps: seq<Byte>)
    requires 0 < d == src.Length1 == |ps| <= src.Length0
    requires forall i, j :: 0 <= i < d && 0 <= j < d ==> src[i, j] == Pow(ps[i], j)
    modifies src
    ensures forall i, j :: 0 <= i < src.Length0 && 0 <= j < d ==>
      src[i, j] == if i < d then VdmInverse(ps)[i][j] else old(src[i, j])
  {
    hide Mul, Add, VdmInverse, Coefficients;
    if d == 1 {
      OnePointInverse(ps);
      return;
    }
    var c, p := new Byte[d](_ => ZERO), new Byte[d](_ => ZERO);
    ReadPoints(src, p);
    forall i | 0 <= i < d ensures p[i] == ps[i] { MulUnit(ps[i]); assert Pow(ps[i], 0) == ONE; }
    assert p[..] == ps;
    BuildCoefficients(gf, p, c);
    FillInverse(gf, src, p, c, ps, VdmInverse(ps));
  }
}
