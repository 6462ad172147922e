/** Polynomials over GF(2^8) as coefficient sequences, constant term first: synthetic
    division and the number of roots. */
module Polynomial {
  import opened GaloisField
  import opened LinearAlgebra

  /** Horner's rule on the coefficients from index i on. */
  function EvalFrom(c: Vec, i: nat, x: Byte): (r: Byte)
    decreases |c| - i
  {
    if i >= |c| then ZERO else Add(c[i], Mul(x, EvalFrom(c, i + 1, x)))
  }

  function Eval(c: Vec, x: Byte): (r: Byte) { EvalFrom(c, 0, x) }

  /** The quotient on division by (X - p): entry k is the tail of c from k + 1 on, at p. */
  function Quotient(c: Vec, p: Byte): (r: Vec)
    ensures |r| == if |c| == 0 then 0 else |c| - 1
    ensures forall k :: 0 <= k < |r| ==> r[k] == EvalFrom(c, k + 1, p)
  {
    if |c| == 0 then [] else seq(|c| - 1, k requires 0 <= k < |c| - 1 => EvalFrom(c, k + 1, p))
  }

  lemma {:induction false} EvalFromAgree(c: Vec, c': Vec, i: nat, x: Byte)
    requires |c| == |c'| && forall k :: i <= k < |c| ==> c[k] == c'[k]
    ensures EvalFrom(c, i, x) == EvalFrom(c', i, x)
    decreases |c| - i
  {
    if i < |c| { EvalFromAgree(c, c', i + 1, x); }
  }

  /** c(x) = (x - p) q(x) + c(p), with q the quotient; stated for the tails from i on. */
  lemma {:induction false} DivisionFrom(c: Vec, i: nat, p: Byte, x: Byte)
    ensures EvalFrom(c, i, x) == Add(Mul(Add(x, p), EvalFrom(Quotient(c, p), i, x)), EvalFrom(c, i, p))
    decreases |c| - i
  {
    var q := Quotient(c, p);
    if i + 1 < |c| {
      DivisionFrom(c, i + 1, p, x);
      DivisionStep(c[i], x, p, EvalFrom(q, i + 1, x), EvalFrom(c, i + 1, p));
    } else {
      assert EvalFrom(c, i + 1, x) == ZERO && EvalFrom(c, i + 1, p) == ZERO;
      MulZero(x); MulZero(p); MulZero(Add(x, p));
      AddZero(EvalFrom(c, i, p));
    }
  }

  lemma Division(c: Vec, p: Byte, x: Byte)
    ensures Eval(c, x) == Add(Mul(Add(x, p), Eval(Quotient(c, p), x)), Eval(c, p))
  {
    DivisionFrom(c, 0, p, x);
  }

  /** c0 + x ((x + p) q + r) = (x + p) (r + x q) + (c0 + p r) */
  lemma DivisionStep(c0: Byte, x: Byte, p: Byte, q: Byte, r: Byte)
    ensures Add(c0, Mul(x, Add(Mul(Add(x, p), q), r))) == Add(Mul(Add(x, p), Add(r, Mul(x, q))), Add(c0, Mul(p, r)))
  {
    var s := Add(x, p);
    var u := Mul(s, Mul(x, q));
    MulAdd(x, Mul(s, q), r);
    MulAssoc(x, s, q); MulComm(x, s); MulAssoc(s, x, q);
    assert Mul(x, Mul(s, q)) == u;
    MulAdd(s, r, Mul(x, q));
    MulAdd(r, x, p);
    Regroup(c0, u, Mul(x, r), Mul(p, r));
  }

  lemma Regroup(c: Byte, u: Byte, a: Byte, b: Byte)
    ensures Add(Add(Add(a, b), u), Add(c, b)) == Add(c, Add(u, a))
  {
    AddComm(a, b); AddAssoc(b, a, u);
    AddComm(c, b); AddSwap(b, Add(a, u), b, c);
    AddZero(b); AddZero(Add(Add(a, u), c));
    AddComm(a, u); AddComm(Add(u, a), c);
  }

  ghost predicate Distinct(ps: seq<Byte>) {
    forall i, j :: 0 <= i < j < |ps| ==> ps[i] != ps[j]
  }

  /** A vanishing quotient and a vanishing remainder leave nothing. */
  lemma QuotientZero(c: Vec, p: Byte)
    requires |c| > 0 && Eval(c, p) == ZERO && Quotient(c, p) == Zeroes(|c| - 1)
    ensures c == Zeroes(|c|)
  {
    MulZero(p);
    forall k | 0 <= k < |c| ensures c[k] == ZERO {
      AddZero(c[k]);
      assert EvalFrom(c, k, p) == ZERO by { if k > 0 { assert Quotient(c, p)[k - 1] == ZERO; } }
      assert EvalFrom(c, k + 1, p) == ZERO by { if k + 1 < |c| { assert Quotient(c, p)[k] == ZERO; } }
    }
  }

  /** A polynomial with as many distinct roots as coefficients is zero. */
  lemma {:induction false} TooManyRoots(c: Vec, ps: seq<Byte>)
    requires |c| <= |ps| && Distinct(ps)
    requires forall i :: 0 <= i < |c| ==> Eval(c, ps[i]) == ZERO
    ensures c == Zeroes(|c|)
    decreases |c|
  {
    if |c| > 0 {
      var n := |c| - 1;
      var q := Quotient(c, ps[n]);
      forall i | 0 <= i < n ensures Eval(q, ps[i]) == ZERO { RootOfQuotient(c, ps[n], ps[i]); }
      TooManyRoots(q, ps);
      QuotientZero(c, ps[n]);
    }
  }

  lemma RootOfQuotient(c: Vec, p: Byte, x: Byte)
    requires p != x && Eval(c, p) == ZERO && Eval(c, x) == ZERO
    ensures Eval(Quotient(c, p), x) == ZERO
  {
    var v := Eval(Quotient(c, p), x);
    Division(c, p, x);
    AddZero(Mul(Add(x, p), v));
    MulNonZero(Add(x, p), v);
    AddCancel(x, p);
  }
}
