/** Vectors and matrices over GF(2^8), and the exchange step on which in-place
    Gauss-Jordan elimination rests. */
module LinearAlgebra {
  import opened GaloisField

  type Vec = seq<Byte>
  type Mat = seq<Vec>

  /** `m` has `rows` rows of `cols` entries. */
  ghost predicate Shape(m: Mat, rows: nat, cols: nat) {
    |m| == rows && forall i :: 0 <= i < rows ==> |m[i]| == cols
  }

  /** The inner product of the first `n` entries. */
  function DotTo(u: Vec, v: Vec, n: nat): (r: Byte)
    requires n <= |u| && n <= |v|
  {
    if n == 0 then ZERO else Add(DotTo(u, v, n - 1), Mul(u[n - 1], v[n - 1]))
  }

  function Dot(u: Vec, v: Vec): (r: Byte)
    requires |u| == |v|
  {
    DotTo(u, v, |u|)
  }

  function Plus(u: Vec, v: Vec): (r: Vec)
    requires |u| == |v|
    ensures |r| == |u| && forall i :: 0 <= i < |u| ==> r[i] == Add(u[i], v[i])
  {
    seq(|u|, i requires 0 <= i < |u| => Add(u[i], v[i]))
  }

  function Scale(c: Byte, u: Vec): (r: Vec)
    ensures |r| == |u| && forall i :: 0 <= i < |u| ==> r[i] == Mul(c, u[i])
  {
    seq(|u|, i requires 0 <= i < |u| => Mul(c, u[i]))
  }

  function Zeroes(n: nat): (r: Vec)
    ensures |r| == n && forall i :: 0 <= i < n ==> r[i] == ZERO
  {
    seq(n, _ => ZERO)
  }

  /** The unit vector e_k. */
  function Unit(k: nat, n: nat): (r: Vec)
    ensures |r| == n && forall i :: 0 <= i < n ==> r[i] == if i == k then ONE else ZERO
  {
    seq(n, i requires 0 <= i < n => if i == k then ONE else ZERO)
  }

  function Identity(n: nat): (r: Mat)
    ensures Shape(r, n, n) && forall i :: 0 <= i < n ==> r[i] == Unit(i, n)
  {
    seq(n, i requires 0 <= i < n => Unit(i, n))
  }

  function Column(m: Mat, k: nat): (r: Vec)
    requires forall i :: 0 <= i < |m| ==> k < |m[i]|
    ensures |r| == |m| && forall i :: 0 <= i < |m| ==> r[i] == m[i][k]
  {
    seq(|m|, i requires 0 <= i < |m| => m[i][k])
  }

  function MatVec(m: Mat, v: Vec): (r: Vec)
    requires forall i :: 0 <= i < |m| ==> |m[i]| == |v|
    ensures |r| == |m| && forall i :: 0 <= i < |m| ==> r[i] == Dot(m[i], v)
  {
    seq(|m|, i requires 0 <= i < |m| => Dot(m[i], v))
  }

  /** The row vector `u` times the matrix `m`. */
  function VecMat(u: Vec, m: Mat, cols: nat): (r: Vec)
    requires Shape(m, |u|, cols)
    ensures |r| == cols && forall k :: 0 <= k < cols ==> r[k] == Dot(u, Column(m, k))
  {
    seq(cols, k requires 0 <= k < cols => Dot(u, Column(m, k)))
  }

  function MatMul(a: Mat, b: Mat, cols: nat): (r: Mat)
    requires forall i :: 0 <= i < |a| ==> |a[i]| == |b|
    requires Shape(b, |b|, cols)
    ensures Shape(r, |a|, cols) && forall i :: 0 <= i < |a| ==> r[i] == VecMat(a[i], b, cols)
  {
    seq(|a|, i requires 0 <= i < |a| => VecMat(a[i], b, cols))
  }

  // ---- the inner product is bilinear

  lemma {:induction false} DotToAgree(u: Vec, v: Vec, u': Vec, v': Vec, n: nat)
    requires n <= |u| && n <= |v| && n <= |u'| && n <= |v'|
    requires forall i :: 0 <= i < n ==> u[i] == u'[i] && v[i] == v'[i]
    ensures DotTo(u, v, n) == DotTo(u', v', n)
  {
    if n > 0 { DotToAgree(u, v, u', v', n - 1); }
  }

  lemma {:induction false} DotToComm(u: Vec, v: Vec, n: nat)
    requires n <= |u| && n <= |v|
    ensures DotTo(u, v, n) == DotTo(v, u, n)
  {
    if n > 0 { DotToComm(u, v, n - 1); MulComm(u[n - 1], v[n - 1]); }
  }

  lemma {:induction false} DotToPlus(u: Vec, v: Vec, w: Vec, n: nat)
    requires |u| == |v| && n <= |u| && n <= |w|
    ensures DotTo(Plus(u, v), w, n) == Add(DotTo(u, w, n), DotTo(v, w, n))
  {
    if n == 0 {
      AddZero(ZERO);
    } else {
      DotToPlus(u, v, w, n - 1);
      MulAdd(w[n - 1], u[n - 1], v[n - 1]);
      AddSwap(DotTo(u, w, n - 1), DotTo(v, w, n - 1), Mul(u[n - 1], w[n - 1]), Mul(v[n - 1], w[n - 1]));
    }
  }

  lemma {:induction false} DotToScale(c: Byte, u: Vec, w: Vec, n: nat)
    requires n <= |u| && n <= |w|
    ensures DotTo(Scale(c, u), w, n) == Mul(c, DotTo(u, w, n))
  {
    if n == 0 {
      MulZero(c);
    } else {
      DotToScale(c, u, w, n - 1);
      MulAssoc(c, u[n - 1], w[n - 1]);
      MulAdd(c, DotTo(u, w, n - 1), Mul(u[n - 1], w[n - 1]));
    }
  }

  lemma {:induction false} DotToZero(u: Vec, w: Vec, n: nat)
    requires n <= |u| && n <= |w|
    requires forall i :: 0 <= i < n ==> u[i] == ZERO
    ensures DotTo(u, w, n) == ZERO
  {
    if n > 0 {
      DotToZero(u, w, n - 1);
      MulZero(w[n - 1]);
      AddZero(ZERO);
    }
  }

  /** Taking the term at `p` out of an inner product. */
  lemma {:induction false} DotToSplit(u: Vec, w: Vec, p: nat, n: nat)
    requires p < |u| && n <= |u| && n <= |w|
    ensures p < n ==> DotTo(u, w, n) == Add(Mul(u[p], w[p]), DotTo(u[p := ZERO], w, n))
    ensures p >= n ==> DotTo(u, w, n) == DotTo(u[p := ZERO], w, n)
  {
    if n > 0 {
      DotToSplit(u, w, p, n - 1);
      var t, s := Mul(u[n - 1], w[n - 1]), DotTo(u[p := ZERO], w, n - 1);
      if p == n - 1 {
        MulZero(w[p]); AddZero(s); AddComm(s, t);
      } else if p < n - 1 {
        AddAssoc(Mul(u[p], w[p]), s, t);
      }
    }
  }

  lemma DotSplit(u: Vec, w: Vec, p: nat)
    requires |u| == |w| && p < |u|
    ensures Dot(u, w) == Add(Mul(u[p], w[p]), Dot(u[p := ZERO], w))
  {
    DotToSplit(u, w, p, |u|);
  }

  /** An entry that meets a zero coefficient does not matter. */
  lemma DotIgnores(u: Vec, w: Vec, p: nat, x: Byte)
    requires |u| == |w| && p < |u|
    ensures Dot(u[p := ZERO], w[p := x]) == Dot(u[p := ZERO], w)
  {
    DotToIgnores(u[p := ZERO], w, p, x, |u|);
  }

  lemma {:induction false} DotToIgnores(u: Vec, w: Vec, p: nat, x: Byte, n: nat)
    requires p < |w| && n <= |u| && n <= |w| && (p < |u| ==> u[p] == ZERO)
    ensures DotTo(u, w[p := x], n) == DotTo(u, w, n)
  {
    if n > 0 {
      DotToIgnores(u, w, p, x, n - 1);
      MulZero(x); MulZero(w[p]);
    }
  }

  lemma DotUnit(u: Vec, k: nat)
    requires k < |u|
    ensures Dot(u, Unit(k, |u|)) == u[k] && Dot(Unit(k, |u|), u) == u[k]
  {
    var e := Unit(k, |u|);
    DotSplit(e, u, k);
    DotToZero(e[k := ZERO], u, |u|);
    MulUnit(u[k]); AddZero(u[k]);
    DotToComm(u, e, |u|);
  }

  lemma DotPlus(u: Vec, v: Vec, w: Vec)
    requires |u| == |v| == |w|
    ensures Dot(Plus(u, v), w) == Add(Dot(u, w), Dot(v, w))
    ensures Dot(w, Plus(u, v)) == Add(Dot(w, u), Dot(w, v))
  {
    DotToPlus(u, v, w, |u|);
    DotToComm(Plus(u, v), w, |u|); DotToComm(u, w, |u|); DotToComm(v, w, |u|);
  }

  lemma DotScale(c: Byte, u: Vec, w: Vec)
    requires |u| == |w|
    ensures Dot(Scale(c, u), w) == Mul(c, Dot(u, w))
    ensures Dot(w, Scale(c, u)) == Mul(c, Dot(w, u))
  {
    DotToScale(c, u, w, |u|);
    DotToComm(Scale(c, u), w, |u|); DotToComm(u, w, |u|);
  }

  /** (u m) . x == u . (m x) */
  lemma VecMatDot(u: Vec, m: Mat, x: Vec)
    requires Shape(m, |u|, |x|)
    ensures Dot(VecMat(u, m, |x|), x) == Dot(u, MatVec(m, x))
  {
    VecMatDotTo(u, m, x, |x|);
    assert seq(|u|, k requires 0 <= k < |u| => DotTo(m[k], x, |x|)) == MatVec(m, x);
  }

  lemma {:induction false} VecMatDotTo(u: Vec, m: Mat, x: Vec, n: nat)
    requires Shape(m, |u|, |x|) && n <= |x|
    ensures DotTo(VecMat(u, m, |x|), x, n) == Dot(u, seq(|u|, k requires 0 <= k < |u| => DotTo(m[k], x, n)))
  {
    var s := seq(|u|, k requires 0 <= k < |u| => DotTo(m[k], x, n));
    if n == 0 {
      DotToComm(u, s, |u|);
      DotToZero(s, u, |u|);
    } else {
      var s' := seq(|u|, k requires 0 <= k < |u| => DotTo(m[k], x, n - 1));
      VecMatDotTo(u, m, x, n - 1);
      var col := Column(m, n - 1);
      var t := Scale(x[n - 1], col);
      forall k | 0 <= k < |u| ensures s[k] == Plus(s', t)[k] {
        MulComm(x[n - 1], col[k]);
      }
      assert s == Plus(s', t);
      DotPlus(s', t, u);
      DotScale(x[n - 1], col, u);
      MulComm(x[n - 1], Dot(u, col));
    }
  }
}
