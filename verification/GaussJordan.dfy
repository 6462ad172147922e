/** In-place Gauss-Jordan inversion (_invert_mat of lib/fec.c).

    The working matrix is read as a system `out = s in` whose slots hold a mixture of the
    unknowns x and the right-hand sides y of the original system y = A x.  A pivot step at
    p exchanges the roles of slot p; a row swap exchanges two labels.  Every step keeps the
    set of solutions, so when all slots are exchanged the matrix is the inverse. */
module GaussJordan {
  import opened GaloisField
  import opened GaloisTables
  import opened LinearAlgebra

  /** y = s x */
  ghost predicate Solves(s: Mat, x: Vec, y: Vec) {
    |x| == |y| && Shape(s, |x|, |x|) && forall i :: 0 <= i < |y| ==> y[i] == Dot(s[i], x)
  }

  /** The only solution of s x = 0 is x = 0. */
  ghost predicate Nonsingular(s: Mat) {
    Shape(s, |s|, |s|) && forall x: Vec :: Solves(s, x, Zeroes(|s|)) ==> x == Zeroes(|s|)
  }

  // ---- one pivot step

  ghost function PivotRow(row: Vec, p: nat): (r: Vec)
    requires p < |row|
    ensures |r| == |row|
  {
    Scale(Inv(row[p]), row[p := ONE])
  }

  ghost function Reduced(row: Vec, pivot: Vec, p: nat): (r: Vec)
    requires p < |row| == |pivot|
    ensures |r| == |row|
  {
    Plus(row[p := ZERO], Scale(row[p], pivot))
  }

  ghost function Exchanged(s: Mat, p: nat): (r: Mat)
    requires Shape(s, |s|, |s|) && p < |s|
    ensures Shape(r, |s|, |s|)
  {
    seq(|s|, i requires 0 <= i < |s| =>
      if i == p then PivotRow(s[p], p) else Reduced(s[i], PivotRow(s[p], p), p))
  }

  /** With `rest` the other terms of the pivot row, it can be solved for its own unknown. */
  lemma SolvePivot(c: Byte, x: Byte, y: Byte, rest: Byte)
    requires c != ZERO
    ensures Mul(Inv(c), Add(y, rest)) == x <==> y == Add(Mul(c, x), rest)
  {
    MulInv(c);
    MulUnit(x); MulUnit(Add(y, rest));
    if y == Add(Mul(c, x), rest) {
      AddCancel(Mul(c, x), rest);
      MulAssoc(Inv(c), c, x);
    }
    if Mul(Inv(c), Add(y, rest)) == x {
      MulAssoc(c, Inv(c), Add(y, rest));
      AddCancel(y, rest);
    }
  }

  lemma PivotRowValue(row: Vec, p: nat, x: Vec, y: Byte)
    requires p < |row| == |x|
    ensures Dot(PivotRow(row, p), x[p := y]) == Mul(Inv(row[p]), Add(y, Dot(row[p := ZERO], x)))
  {
    var one := row[p := ONE];
    DotScale(Inv(row[p]), one, x[p := y]);
    DotSplit(one, x[p := y], p);
    assert one[p := ZERO] == row[p := ZERO];
    DotIgnores(row, x, p, y);
    MulUnit(y);
  }

  lemma ReducedValue(row: Vec, pivot: Vec, p: nat, x: Vec, y: Byte)
    requires p < |row| == |x| == |pivot|
    ensures Dot(Reduced(row, pivot, p), x[p := y]) == Add(Dot(row[p := ZERO], x), Mul(row[p], Dot(pivot, x[p := y])))
  {
    DotPlus(row[p := ZERO], Scale(row[p], pivot), x[p := y]);
    DotScale(row[p], pivot, x[p := y]);
    DotIgnores(row, x, p, y);
  }

  /** A pivot step trades unknown p for right-hand side p and loses no solution. */
  lemma ExchangeStep(s: Mat, p: nat, x: Vec, y: Vec)
    requires Shape(s, |s|, |s|) && p < |s| == |x| == |y| && s[p][p] != ZERO
    ensures Solves(s, x, y) <==> Solves(Exchanged(s, p), x[p := y[p]], y[p := x[p]])
  {
    var x', y' := x[p := y[p]], y[p := x[p]];
    var pivot := PivotRow(s[p], p);
    var t := Exchanged(s, p);
    var rest := Dot(s[p][p := ZERO], x);
    PivotRowValue(s[p], p, x, y[p]);
    DotSplit(s[p], x, p);
    SolvePivot(s[p][p], x[p], y[p], rest);
    assert Dot(pivot, x') == x[p] <==> y[p] == Dot(s[p], x);
    forall i | 0 <= i < |s| && i != p
      ensures Dot(pivot, x') == x[p] ==> Dot(t[i], x') == Dot(s[i], x)
    {
      ReducedValue(s[i], pivot, p, x, y[p]);
      DotSplit(s[i], x, p);
      AddComm(Dot(s[i][p := ZERO], x), Mul(s[i][p], x[p]));
    }
    assert t[p] == pivot;
  }

  // ---- the mixed system

  ghost predicate Labels(lab: seq<nat>, d: nat) {
    |lab| == d && forall j :: 0 <= j < d ==> lab[j] < d
  }

  ghost function Ins(x: Vec, y: Vec, piv: seq<bool>, lab: seq<nat>): (r: Vec)
    requires |x| == |y| == |piv| && Labels(lab, |y|)
    ensures |r| == |x| && forall j :: 0 <= j < |x| ==> r[j] == if piv[j] then y[lab[j]] else x[j]
  {
    seq(|x|, j requires 0 <= j < |x| => if piv[j] then y[lab[j]] else x[j])
  }

  ghost function Outs(x: Vec, y: Vec, piv: seq<bool>, lab: seq<nat>): (r: Vec)
    requires |x| == |y| == |piv| && Labels(lab, |y|)
    ensures |r| == |x| && forall j :: 0 <= j < |x| ==> r[j] == if piv[j] then x[j] else y[lab[j]]
  {
    seq(|x|, j requires 0 <= j < |x| => if piv[j] then x[j] else y[lab[j]])
  }

  /** The working matrix `s`, read through pivots and labels, has the solutions of `a`. */
  ghost predicate Tracks(a: Mat, s: Mat, piv: seq<bool>, lab: seq<nat>) {
    Shape(a, |a|, |a|) && Shape(s, |a|, |a|) && |piv| == |a| && Labels(lab, |a|) &&
    forall x: Vec, y: Vec :: |x| == |y| == |a| ==>
      (Solves(a, x, y) <==> Solves(s, Ins(x, y, piv, lab), Outs(x, y, piv, lab)))
  }

  function Swapped<T>(q: seq<T>, i: nat, j: nat): (r: seq<T>)
    requires i < |q| && j < |q|
    ensures |r| == |q| && r[i] == q[j] && r[j] == q[i]
    ensures forall k :: 0 <= k < |q| && k != i && k != j ==> r[k] == q[k]
  {
    q[i := q[j]][j := q[i]]
  }

  lemma SolvesSwapped(s: Mat, u: Vec, v: Vec, i: nat, j: nat)
    requires |s| == |u| == |v| && Shape(s, |s|, |s|) && i < |s| && j < |s|
    ensures Solves(s, u, v) <==> Solves(Swapped(s, i, j), u, Swapped(v, i, j))
  {
    var s', v' := Swapped(s, i, j), Swapped(v, i, j);
    if Solves(s, u, v) {
      assert forall k :: 0 <= k < |s| ==> v'[k] == Dot(s'[k], u);
    } else {
      var k :| 0 <= k < |s| && v[k] != Dot(s[k], u);
      var k' := if k == i then j else if k == j then i else k;
      assert v'[k'] != Dot(s'[k'], u);
    }
  }

  lemma LabelsSwapped(x: Vec, y: Vec, piv: seq<bool>, lab: seq<nat>, i: nat, j: nat)
    requires |x| == |y| == |piv| && Labels(lab, |y|) && i < |x| && j < |x| && !piv[i] && !piv[j]
    ensures Labels(Swapped(lab, i, j), |y|)
    ensures Ins(x, y, piv, Swapped(lab, i, j)) == Ins(x, y, piv, lab)
    ensures Outs(x, y, piv, Swapped(lab, i, j)) == Swapped(Outs(x, y, piv, lab), i, j)
  {}

  lemma TracksSwap(a: Mat, s: Mat, piv: seq<bool>, lab: seq<nat>, i: nat, j: nat)
    requires Tracks(a, s, piv, lab) && i < |a| && j < |a| && !piv[i] && !piv[j]
    ensures Tracks(a, Swapped(s, i, j), piv, Swapped(lab, i, j))
  {
    var s', lab' := Swapped(s, i, j), Swapped(lab, i, j);
    forall x: Vec, y: Vec | |x| == |y| == |a|
      ensures Solves(a, x, y) <==> Solves(s', Ins(x, y, piv, lab'), Outs(x, y, piv, lab'))
    {
      LabelsSwapped(x, y, piv, lab, i, j);
      SolvesSwapped(s, Ins(x, y, piv, lab), Outs(x, y, piv, lab), i, j);
    }
  }

  lemma SlotExchanged(x: Vec, y: Vec, piv: seq<bool>, lab: seq<nat>, p: nat)
    requires |x| == |y| == |piv| && Labels(lab, |y|) && p < |x| && !piv[p]
    ensures Ins(x, y, piv[p := true], lab) == Ins(x, y, piv, lab)[p := Outs(x, y, piv, lab)[p]]
    ensures Outs(x, y, piv[p := true], lab) == Outs(x, y, piv, lab)[p := Ins(x, y, piv, lab)[p]]
  {}

  lemma TracksPivot(a: Mat, s: Mat, piv: seq<bool>, lab: seq<nat>, p: nat)
    requires Tracks(a, s, piv, lab) && p < |a| && !piv[p] && s[p][p] != ZERO
    ensures Tracks(a, Exchanged(s, p), piv[p := true], lab)
  {
    var t, piv' := Exchanged(s, p), piv[p := true];
    forall x: Vec, y: Vec | |x| == |y| == |a|
      ensures Solves(a, x, y) <==> Solves(t, Ins(x, y, piv', lab), Outs(x, y, piv', lab))
    {
      ExchangeStep(s, p, Ins(x, y, piv, lab), Outs(x, y, piv, lab));
      SlotExchanged(x, y, piv, lab, p);
    }
  }

  lemma SolvesUnit(s: Mat, c: nat)
    requires Shape(s, |s|, |s|) && c < |s|
    ensures Solves(s, Unit(c, |s|), Column(s, c))
  {
    forall i | 0 <= i < |s| ensures Dot(s[i], Unit(c, |s|)) == s[i][c] { DotUnit(s[i], c); }
  }

  lemma NullSlots(x: Vec, u: Vec, v: Vec, piv: seq<bool>, lab: seq<nat>)
    requires |x| == |u| == |v| == |piv| && Labels(lab, |x|)
    requires forall i :: 0 <= i < |x| ==> x[i] == (if piv[i] then v[i] else u[i])
    requires forall i :: 0 <= i < |x| ==> (if piv[i] then u[i] else v[i]) == ZERO
    ensures Ins(x, Zeroes(|x|), piv, lab) == u
    ensures Outs(x, Zeroes(|x|), piv, lab) == v
  {}

  /** A column with no pivot gives a non-zero vector that `a` sends to zero. */
  lemma NullVector(a: Mat, s: Mat, piv: seq<bool>, lab: seq<nat>, c: nat) returns (x: Vec)
    requires Tracks(a, s, piv, lab) && c < |a| && !piv[c]
    requires forall i :: 0 <= i < |a| && !piv[i] ==> s[i][c] == ZERO
    ensures |x| == |a| && x[c] == ONE && Solves(a, x, Zeroes(|a|))
  {
    SolvesUnit(s, c);
    var u, v := Unit(c, |a|), Column(s, c);
    x := seq(|a|, i requires 0 <= i < |a| => if piv[i] then v[i] else u[i]);
    NullSlots(x, u, v, piv, lab);
  }

  /** While a slot is unexchanged, a non-singular matrix has a pivot to offer. */
  lemma PivotExists(a: Mat, s: Mat, piv: seq<bool>, lab: seq<nat>, c: nat)
    requires Nonsingular(a) && Tracks(a, s, piv, lab) && c < |a| && !piv[c]
    ensures exists i :: 0 <= i < |a| && !piv[i] && s[i][c] != ZERO
  {
    if forall i :: 0 <= i < |a| && !piv[i] ==> s[i][c] == ZERO {
      var x := NullVector(a, s, piv, lab, c);
    }
  }

  // ---- undoing the labels

  lemma DotSwap(u: Vec, v: Vec, i: nat, j: nat)
    requires i < |u| == |v| && j < |u|
    ensures Dot(Swapped(u, i, j), Swapped(v, i, j)) == Dot(u, v)
  {
    var u', v' := Swapped(u, i, j), Swapped(v, i, j);
    if i == j {
      assert u' == u && v' == v;
    } else {
      var r := u[i := ZERO][j := ZERO];
      DotSplit(u, v, i); DotSplit(u[i := ZERO], v, j);
      DotSplit(u', v', i); DotSplit(u'[i := ZERO], v', j);
      assert u'[i := ZERO][j := ZERO] == r;
      assert v' == v[i := v[j]][j := v[i]];
      assert r[i := ZERO] == r && r[j := ZERO] == r;
      DotIgnores(r, v, i, v[j]);
      DotIgnores(r, v[i := v[j]], j, v[i]);
      var a, b, c := Mul(u[i], v[i]), Mul(u[j], v[j]), Dot(r, v);
      AddAssoc(a, b, c); AddAssoc(b, a, c); AddComm(a, b);
    }
  }

  ghost function Relabel(y: Vec, lab: seq<nat>): (r: Vec)
    requires Labels(lab, |y|)
    ensures |r| == |y| && forall j :: 0 <= j < |y| ==> r[j] == y[lab[j]]
  {
    seq(|y|, j requires 0 <= j < |y| => y[lab[j]])
  }

  /** Every slot is exchanged: `s` computes the unknowns from relabelled right-hand sides. */
  ghost predicate InvertsUpTo(a: Mat, s: Mat, lab: seq<nat>) {
    Shape(a, |a|, |a|) && Shape(s, |a|, |a|) && Labels(lab, |a|) &&
    forall x: Vec, y: Vec :: |x| == |y| == |a| ==> (Solves(a, x, y) <==> Solves(s, Relabel(y, lab), x))
  }

  ghost function ColumnsSwapped(s: Mat, i: nat, j: nat): (r: Mat)
    requires Shape(s, |s|, |s|) && i < |s| && j < |s|
    ensures Shape(r, |s|, |s|)
  {
    seq(|s|, k requires 0 <= k < |s| => Swapped(s[k], i, j))
  }

  lemma InvertsSwap(a: Mat, s: Mat, lab: seq<nat>, i: nat, j: nat)
    requires InvertsUpTo(a, s, lab) && i < |a| && j < |a|
    ensures InvertsUpTo(a, ColumnsSwapped(s, i, j), Swapped(lab, i, j))
  {
    var s', lab' := ColumnsSwapped(s, i, j), Swapped(lab, i, j);
    forall x: Vec, y: Vec | |x| == |y| == |a|
      ensures Solves(a, x, y) <==> Solves(s', Relabel(y, lab'), x)
    {
      var u := Relabel(y, lab);
      assert Relabel(y, lab') == Swapped(u, i, j);
      forall k | 0 <= k < |a| ensures Dot(s'[k], Swapped(u, i, j)) == Dot(s[k], u) { DotSwap(s[k], u, i, j); }
    }
  }

  // ---- inverse matrices

  ghost predicate IsInverse(a: Mat, b: Mat) {
    Shape(a, |a|, |a|) && Shape(b, |a|, |a|) &&
    MatMul(a, b, |a|) == Identity(|a|) && MatMul(b, a, |a|) == Identity(|a|)
  }

  lemma MatVecUnit(a: Mat, k: nat, d: nat)
    requires Shape(a, d, d) && k < d
    ensures MatVec(a, Unit(k, d)) == Column(a, k)
  {
    forall r | 0 <= r < d ensures MatVec(a, Unit(k, d))[r] == a[r][k] { DotUnit(a[r], k); }
  }

  /** `b` undoes `a` on every vector. */
  ghost predicate Undoes(b: Mat, a: Mat) {
    Shape(a, |a|, |a|) && Shape(b, |a|, |a|) &&
    forall x: Vec {:trigger MatVec(a, x)} :: |x| == |a| ==> MatVec(b, MatVec(a, x)) == x
  }

  lemma UndoesEntry(a: Mat, b: Mat, i: nat, k: nat)
    requires Undoes(b, a) && i < |a| && k < |a|
    ensures Dot(b[i], Column(a, k)) == if i == k then ONE else ZERO
  {
    MatVecUnit(a, k, |a|);
    var e := Unit(k, |a|);
    assert MatVec(b, MatVec(a, e)) == e;
    assert MatVec(b, Column(a, k))[i] == Dot(b[i], Column(a, k));
  }

  lemma UndoesRow(a: Mat, b: Mat, i: nat)
    requires Undoes(b, a) && i < |a|
    ensures VecMat(b[i], a, |a|) == Unit(i, |a|)
  {
    var r, e := VecMat(b[i], a, |a|), Unit(i, |a|);
    forall k | 0 <= k < |a| ensures r[k] == e[k] { UndoesEntry(a, b, i, k); }
  }

  lemma UndoesIsLeftInverse(a: Mat, b: Mat)
    requires Undoes(b, a)
    ensures MatMul(b, a, |a|) == Identity(|a|)
  {
    var m, id := MatMul(b, a, |a|), Identity(|a|);
    forall i | 0 <= i < |a| ensures m[i] == id[i] { UndoesRow(a, b, i); }
  }

  lemma SolvesMatVec(a: Mat, x: Vec)
    requires Shape(a, |x|, |x|)
    ensures Solves(a, x, MatVec(a, x))
  {}

  lemma SolvesUnique(a: Mat, x: Vec, y: Vec)
    requires Solves(a, x, y)
    ensures MatVec(a, x) == y
  {}

  lemma SolutionsUndo(a: Mat, b: Mat)
    requires Shape(a, |a|, |a|) && Shape(b, |a|, |a|)
    requires forall x: Vec, y: Vec :: |x| == |y| == |a| && Solves(a, x, y) ==> Solves(b, y, x)
    ensures Undoes(b, a)
  {
    forall x: Vec | |x| == |a| ensures MatVec(b, MatVec(a, x)) == x {
      SolvesMatVec(a, x);
      SolvesUnique(b, MatVec(a, x), x);
    }
  }

  lemma InverseOfSolutions(a: Mat, b: Mat)
    requires Shape(a, |a|, |a|) && Shape(b, |a|, |a|)
    requires forall x: Vec, y: Vec :: |x| == |y| == |a| ==> (Solves(a, x, y) <==> Solves(b, y, x))
    ensures IsInverse(a, b)
  {
    SolutionsUndo(a, b); SolutionsUndo(b, a);
    UndoesIsLeftInverse(a, b); UndoesIsLeftInverse(b, a);
  }

  // ---- the algorithm, in place

  ghost function RowOf(m: array2<Byte>, i: nat): (r: Vec)
    reads m
    requires i < m.Length0
    ensures |r| == m.Length1 && forall j :: 0 <= j < m.Length1 ==> r[j] == m[i, j]
  {
    seq(m.Length1, j requires 0 <= j < m.Length1 reads m => m[i, j])
  }

  ghost function Rows(m: array2<Byte>): (r: Mat)
    reads m
    ensures Shape(r, m.Length0, m.Length1)
    ensures forall i :: 0 <= i < m.Length0 ==> r[i] == RowOf(m, i)
  {
    seq(m.Length0, i requires 0 <= i < m.Length0 reads m => RowOf(m, i))
  }

  method SwapRows(src: array2<Byte>, a: nat, b: nat)
    requires a < src.Length0 && b < src.Length0
    modifies src
    ensures Rows(src) == Swapped(old(Rows(src)), a, b)
  {
    var k := 0;
    while k < src.Length1
      invariant 0 <= k <= src.Length1
      invariant forall i, j :: 0 <= i < src.Length0 && 0 <= j < src.Length1 && ((i != a && i != b) || j >= k) ==>
        src[i, j] == old(src[i, j])
      invariant forall j :: 0 <= j < k ==> src[a, j] == old(src[b, j]) && src[b, j] == old(src[a, j])
    {
      src[a, k], src[b, k] := src[b, k], src[a, k];
      k := k + 1;
    }
    assert RowOf(src, a) == old(RowOf(src, b)) && RowOf(src, b) == old(RowOf(src, a));
    assert forall i :: 0 <= i < src.Length0 && i != a && i != b ==> RowOf(src, i) == old(RowOf(src, i));
  }

  method SwapColumns(src: array2<Byte>, a: nat, b: nat)
    requires a < src.Length0 == src.Length1 && b < src.Length0
    modifies src
    ensures Rows(src) == ColumnsSwapped(old(Rows(src)), a, b)
  {
    var row := 0;
    while row < src.Length0
      invariant 0 <= row <= src.Length0
      invariant forall i, j :: 0 <= i < src.Length0 && 0 <= j < src.Length1 && ((j != a && j != b) || i >= row) ==>
        src[i, j] == old(src[i, j])
      invariant forall i :: 0 <= i < row ==> src[i, a] == old(src[i, b]) && src[i, b] == old(src[i, a])
    {
      src[row, a], src[row, b] := src[row, b], src[row, a];
      row := row + 1;
    }
    assert forall i :: 0 <= i < src.Length0 ==> RowOf(src, i) == Swapped(old(RowOf(src, i)), a, b);
  }

  /** The contents of `src` differ from `m` only in row i, which is `row`. */
  ghost predicate RowReplaced(src: array2<Byte>, m: Mat, i: nat, row: Vec)
    reads src
  {
    Shape(m, src.Length0, src.Length1) && i < src.Length0 && |row| == src.Length1 &&
    (forall r, j :: 0 <= r < src.Length0 && 0 <= j < src.Length1 ==> src[r, j] == if r == i then row[j] else m[r][j])
  }

  lemma RowReplacedRows(src: array2<Byte>, m: Mat, i: nat, row: Vec)
    requires RowReplaced(src, m, i, row)
    ensures Rows(src) == m[i := row]
  {
    var q := m[i := row];
    forall r | 0 <= r < src.Length0 ensures Rows(src)[r] == q[r] {
      assert RowOf(src, r) == q[r];
    }
  }

  /** row i := c * row i */
  method ScaleRow(gf: Gf, src: array2<Byte>, i: nat, c: Byte)
    requires i < src.Length0
    modifies src
    ensures RowReplaced(src, old(Rows(src)), i, Scale(c, old(RowOf(src, i))))
  {
    ghost var m := Rows(src);
    var k := 0;
    while k < src.Length1
      invariant 0 <= k <= src.Length1
      invariant forall r, j :: 0 <= r < src.Length0 && 0 <= j < src.Length1 ==>
        src[r, j] == if r == i && j < k then Mul(c, m[i][j]) else m[r][j]
    {
      src[i, k] := GfMul(gf, c, src[i, k]);
      k := k + 1;
    }
  }

  /** row i := row i + c * row p */
  method AddMulRow(gf: Gf, src: array2<Byte>, i: nat, p: nat, c: Byte)
    requires i < src.Length0 && p < src.Length0 && i != p
    modifies src
    ensures RowReplaced(src, old(Rows(src)), i, Plus(old(RowOf(src, i)), Scale(c, old(RowOf(src, p)))))
  {
    ghost var m := Rows(src);
    var k := 0;
    while k < src.Length1
      invariant 0 <= k <= src.Length1
      invariant forall r, j :: 0 <= r < src.Length0 && 0 <= j < src.Length1 ==>
        src[r, j] == if r == i && j < k then Add(m[i][j], Mul(c, m[p][j])) else m[r][j]
    {
      src[i, k] := Add(src[i, k], GfMul(gf, c, src[p, k]));
      k := k + 1;
    }
  }

  method SetEntry(src: array2<Byte>, i: nat, j: nat, v: Byte)
    requires i < src.Length0 && j < src.Length1
    modifies src
    ensures Rows(src) == old(Rows(src))[i := old(RowOf(src, i))[j := v]]
  {
    ghost var m := Rows(src);
    src[i, j] := v;
    RowReplacedRows(src, m, i, m[i][j := v]);
  }

  /** Scales the pivot row so that its pivot entry becomes the inverse of the pivot. */
  method ScalePivotRow(gf: Gf, src: array2<Byte>, p: nat)
    requires p < src.Length0 == src.Length1 && src[p, p] != ZERO
    modifies src
    ensures Rows(src) == old(Rows(src))[p := PivotRow(old(RowOf(src, p)), p)]
  {
    ghost var m := Rows(src);
    var c := src[p, p];
    if c != ONE {
      c := GfInverse(gf, c);
      SetEntry(src, p, p, ONE);
      ScaleRow(gf, src, p, c);
      RowReplacedRows(src, m[p := m[p][p := ONE]], p, PivotRow(m[p], p));
    } else {
      UnitPivot(m[p], p);
    }
  }

  /** A pivot of 1 needs no scaling. */
  lemma UnitPivot(row: Vec, p: nat)
    requires p < |row| && row[p] == ONE
    ensures PivotRow(row, p) == row
  {
    hide Mul, Add;
    MulInv(ONE);
    MulUnit(Inv(ONE));
    forall j | 0 <= j < |row| ensures PivotRow(row, p)[j] == row[j] { MulUnit(row[j]); }
  }

  /** An identity pivot row removes nothing from the other rows. */
  lemma IdentityPivot(row: Vec, p: nat)
    requires p < |row|
    ensures Reduced(row, Unit(p, |row|), p) == row
  {
    forall j | 0 <= j < |row| ensures Reduced(row, Unit(p, |row|), p)[j] == row[j] {
      MulUnit(row[p]); MulZero(row[p]); AddZero(row[j]);
    }
  }

  lemma ZeroMultiple(row: Vec, pivot: Vec, p: nat)
    requires p < |row| == |pivot| && row[p] == ZERO
    ensures Reduced(row, pivot, p) == row
  {
    forall j | 0 <= j < |row| ensures Reduced(row, pivot, p)[j] == row[j] {
      MulZero(pivot[j]); AddZero(row[j]);
    }
  }

  /** row i := row i with entry p cleared, plus its old entry times the pivot row. */
  method EliminateRow(gf: Gf, src: array2<Byte>, i: nat, p: nat)
    requires p < src.Length0 == src.Length1 && i < src.Length0 && i != p
    modifies src
    ensures Rows(src) == old(Rows(src))[i := Reduced(old(RowOf(src, i)), old(RowOf(src, p)), p)]
  {
    ghost var m := Rows(src);
    var c := src[i, p];
    SetEntry(src, i, p, ZERO);
    if c != ZERO {
      AddMulRow(gf, src, i, p, c);
      RowReplacedRows(src, m[i := m[i][p := ZERO]], i, Reduced(m[i], m[p], p));
    } else {
      ZeroMultiple(m[i], m[p], p);
      assert m[i][p := ZERO] == m[i];
    }
  }

  method RowEquals(src: array2<Byte>, p: nat, row: array<Byte>) returns (same: bool)
    requires p < src.Length0 && row.Length == src.Length1
    ensures same <==> RowOf(src, p) == row[..]
  {
    var j := 0;
    while j < row.Length && src[p, j] == row[j]
      invariant 0 <= j <= row.Length
      invariant forall k :: 0 <= k < j ==> src[p, k] == row[k]
    {
      j := j + 1;
    }
    same := j == row.Length;
    assert !same ==> RowOf(src, p)[j] != row[..][j];
  }

  /** Rows below `n` and the pivot row hold their exchanged values, the others are untouched. */
  ghost predicate PartlyExchanged(s: Mat, m: Mat, p: nat, n: nat) {
    Shape(m, |m|, |m|) && p < |m| == |s| &&
    forall r :: 0 <= r < |m| ==> s[r] == if r < n || r == p then Exchanged(m, p)[r] else m[r]
  }

  method EliminateOthers(gf: Gf, src: array2<Byte>, p: nat, ghost m: Mat)
    requires p < src.Length0 == src.Length1 && Shape(m, src.Length0, src.Length0)
    requires PartlyExchanged(Rows(src), m, p, 0)
    modifies src
    ensures Rows(src) == Exchanged(m, p)
  {
    var ix := 0;
    while ix < src.Length0
      invariant 0 <= ix <= src.Length0 && PartlyExchanged(Rows(src), m, p, ix)
    {
      if ix != p { EliminateRow(gf, src, ix, p); }
      ix := ix + 1;
    }
  }

  lemma IdentityRowDone(s: Mat, m: Mat, p: nat)
    requires PartlyExchanged(s, m, p, 0) && s[p] == Unit(p, |m|)
    ensures s == Exchanged(m, p)
  {
    forall r | 0 <= r < |m| && r != p ensures s[r] == Exchanged(m, p)[r] { IdentityPivot(m[r], p); }
  }

  /** One pivot step.  Elimination is skipped when the pivot row is a unit row. */
  method Pivot(gf: Gf, src: array2<Byte>, idRow: array<Byte>, p: nat)
    requires p < src.Length0 == src.Length1 == idRow.Length && idRow[..] == Zeroes(idRow.Length) && src[p, p] != ZERO
    modifies src, idRow
    ensures Rows(src) == Exchanged(old(Rows(src)), p) && idRow[..] == Zeroes(idRow.Length)
  {
    ghost var m := Rows(src);
    ScalePivotRow(gf, src, p);
    idRow[p] := ONE;
    assert idRow[..] == Unit(p, idRow.Length);
    var same := RowEquals(src, p, idRow);
    if !same {
      EliminateOthers(gf, src, p, m);
    } else {
      IdentityRowDone(Rows(src), m, p);
    }
    idRow[p] := ZERO;
    assert idRow[..] == Zeroes(idRow.Length);
  }

  /** The diagonal entry if it will do, else the first one found row by row. */
  method FindPivot(src: array2<Byte>, ipiv: array<bool>, col: nat) returns (irow: nat, icol: nat)
    requires col < src.Length0 == src.Length1 == ipiv.Length
    requires exists i, j :: 0 <= i < ipiv.Length && 0 <= j < ipiv.Length && !ipiv[i] && !ipiv[j] && src[i, j] != ZERO
    ensures irow < src.Length0 && icol < src.Length0 && !ipiv[irow] && !ipiv[icol] && src[irow, icol] != ZERO
  {
    var d := src.Length0;
    if !ipiv[col] && src[col, col] != ZERO {
      return col, col;
    }
    var row := 0;
    while row < d
      invariant 0 <= row <= d
      invariant forall i, j :: 0 <= i < row && 0 <= j < d && !ipiv[i] && !ipiv[j] ==> src[i, j] == ZERO
    {
      if !ipiv[row] {
        var ix := 0;
        while ix < d
          invariant 0 <= ix <= d
          invariant forall j :: 0 <= j < ix && !ipiv[j] ==> src[row, j] == ZERO
        {
          if !ipiv[ix] && src[row, ix] != ZERO {
            return row, ix;
          }
          ix := ix + 1;
        }
      }
      row := row + 1;
    }
    assert false;
  }

  /** How many slots are marked. */
  function Total(q: seq<bool>): (r: nat) {
    if q == [] then 0 else (if q[|q| - 1] then 1 else 0) + Total(q[..|q| - 1])
  }

  lemma {:induction false} TotalUpdate(q: seq<bool>, i: nat)
    requires i < |q| && !q[i]
    ensures Total(q[i := true]) == Total(q) + 1
  {
    var n := |q| - 1;
    if i == n {
      assert q[i := true][..n] == q[..n];
    } else {
      assert q[i := true][..n] == q[..n][i := true];
      TotalUpdate(q[..n], i);
    }
  }

  /** Fewer marks than slots leave one unmarked; as many marks as slots leave none. */
  lemma {:induction false} Unmarked(q: seq<bool>)
    ensures Total(q) <= |q|
    ensures Total(q) < |q| ==> exists i :: 0 <= i < |q| && !q[i]
    ensures Total(q) == |q| ==> forall i :: 0 <= i < |q| ==> q[i]
  {
    if q != [] {
      var n := |q| - 1;
      Unmarked(q[..n]);
      if q[n] && Total(q) < |q| {
        var i :| 0 <= i < n && !q[..n][i];
        assert !q[i];
      }
    }
  }

  function Iota(d: nat): (r: seq<nat>)
    ensures |r| == d && forall i :: 0 <= i < d ==> r[i] == i
  {
    seq(d, i requires 0 <= i < d => i)
  }

  lemma TracksStart(a: Mat)
    requires Shape(a, |a|, |a|)
    ensures Tracks(a, a, seq(|a|, _ => false), Iota(|a|))
  {
    forall x: Vec, y: Vec | |x| == |y| == |a|
      ensures Solves(a, x, y) <==>
        Solves(a, Ins(x, y, seq(|a|, _ => false), Iota(|a|)), Outs(x, y, seq(|a|, _ => false), Iota(|a|)))
    {
      assert Ins(x, y, seq(|a|, _ => false), Iota(|a|)) == x;
      assert Outs(x, y, seq(|a|, _ => false), Iota(|a|)) == y;
    }
  }

  lemma TracksEnd(a: Mat, s: Mat, piv: seq<bool>, lab: seq<nat>)
    requires Tracks(a, s, piv, lab) && forall i :: 0 <= i < |piv| ==> piv[i]
    ensures InvertsUpTo(a, s, lab)
  {
    forall x: Vec, y: Vec | |x| == |y| == |a|
      ensures Solves(a, x, y) <==> Solves(s, Relabel(y, lab), x)
    {
      assert Ins(x, y, piv, lab) == Relabel(y, lab);
      assert Outs(x, y, piv, lab) == x;
    }
  }

  lemma InvertsEnd(a: Mat, s: Mat)
    requires InvertsUpTo(a, s, Iota(|a|))
    ensures IsInverse(a, s)
  {
    forall x: Vec, y: Vec | |x| == |y| == |a| ensures Solves(a, x, y) <==> Solves(s, y, x) {
      assert Relabel(y, Iota(|a|)) == y;
    }
    InverseOfSolutions(a, s);
  }

  /** labs[k] are the labels after k columns; step k exchanged labels r[k] and c[k]. */
  ghost predicate LabelHistory(labs: seq<seq<nat>>, r: seq<nat>, c: seq<nat>, d: nat, n: nat) {
    |labs| == n + 1 && n <= d == |r| == |c| && labs[0] == Iota(d) &&
    (forall k :: 0 <= k <= n ==> Labels(labs[k], d)) &&
    forall k :: 0 <= k < n ==> r[k] < d && c[k] < d && labs[k + 1] == Swapped(labs[k], r[k], c[k])
  }

  lemma PivotAvailable(a: Mat, s: Mat, piv: seq<bool>, lab: seq<nat>)
    requires Nonsingular(a) && Tracks(a, s, piv, lab) && Total(piv) < |piv|
    ensures exists i, j :: 0 <= i < |a| && 0 <= j < |a| && !piv[i] && !piv[j] && s[i][j] != ZERO
  {
    Unmarked(piv);
    var c :| 0 <= c < |piv| && !piv[c];
    PivotExists(a, s, piv, lab, c);
  }

  /** Column `col` of the elimination: find, swap, pivot. */
  method EliminateColumn(gf: Gf, src: array2<Byte>, ipiv: array<bool>, idRow: array<Byte>, col: nat, ghost a: Mat,
                         ghost lab: seq<nat>)
    returns (irow: nat, icol: nat)
    requires col < src.Length0 == src.Length1 == ipiv.Length == idRow.Length == |a| && Nonsingular(a)
    requires idRow[..] == Zeroes(idRow.Length)
    requires Total(ipiv[..]) == col
    requires Tracks(a, Rows(src), ipiv[..], lab)
    modifies src, ipiv, idRow
    ensures irow < |a| && icol < |a| && Labels(lab, |a|)
    ensures idRow[..] == Zeroes(idRow.Length)
    ensures Total(ipiv[..]) == col + 1
    ensures Tracks(a, Rows(src), ipiv[..], Swapped(lab, irow, icol))
  {
    ghost var piv, s := ipiv[..], Rows(src);
    PivotAvailable(a, s, piv, lab);
    irow, icol := FindPivot(src, ipiv, col);
    ipiv[icol] := true;
    TotalUpdate(piv, icol);
    assert ipiv[..] == piv[icol := true];
    BringPivot(src, irow, icol);
    TracksSwap(a, s, piv, lab, irow, icol);
    Pivot(gf, src, idRow, icol);
    TracksPivot(a, Swapped(s, irow, icol), piv, Swapped(lab, irow, icol), icol);
  }

  /** Swaps rows so that the pivot lies on the diagonal. */
  method BringPivot(src: array2<Byte>, irow: nat, icol: nat)
    requires irow < src.Length0 == src.Length1 && icol < src.Length0
    modifies src
    ensures Rows(src) == Swapped(old(Rows(src)), irow, icol) && src[icol, icol] == old(src[irow, icol])
  {
    ghost var s := Rows(src);
    if irow != icol { SwapRows(src, irow, icol); }
    assert Swapped(s, irow, irow) == s;
    assert Rows(src)[icol][icol] == s[irow][icol];
  }

  /** All columns: every slot is exchanged, and indxr, indxc record the row swaps. */
  method Eliminate(gf: Gf, src: array2<Byte>, indxr: array<nat>, indxc: array<nat>, ghost a: Mat)
    returns (ghost labs: seq<seq<nat>>)
    requires src.Length0 == src.Length1 == indxr.Length == indxc.Length && indxr != indxc
    requires a == Rows(src) && Nonsingular(a)
    modifies src, indxr, indxc
    ensures LabelHistory(labs, indxr[..], indxc[..], |a|, |a|)
    ensures InvertsUpTo(a, Rows(src), labs[|a|])
  {
    var d := src.Length0;
    var ipiv, idRow := new bool[d](_ => false), new Byte[d](_ => ZERO);
    labs := [Iota(d)];
    TracksStart(a);
    assert ipiv[..] == seq(d, _ => false);
    TotalZero(ipiv[..]);
    var col := 0;
    while col < d
      invariant 0 <= col <= d
      invariant idRow[..] == Zeroes(d) && Total(ipiv[..]) == col
      invariant LabelHistory(labs, indxr[..], indxc[..], d, col)
      invariant Tracks(a, Rows(src), ipiv[..], labs[col])
    {
      ghost var r, c, lab := indxr[..], indxc[..], labs[col];
      var irow, icol := EliminateColumn(gf, src, ipiv, idRow, col, a, lab);
      ghost var s, piv, lab' := Rows(src), ipiv[..], Swapped(lab, irow, icol);
      indxr[col] := irow;
      indxc[col] := icol;
      HistoryStep(labs, r, c, d, col, irow, icol);
      assert indxr[..] == r[col := irow] && indxc[..] == c[col := icol];
      labs := labs + [lab'];
      col := col + 1;
      assert Rows(src) == s && ipiv[..] == piv && labs[col] == lab';
    }
    Unmarked(ipiv[..]);
    TracksEnd(a, Rows(src), ipiv[..], labs[d]);
  }

  /** Undoes the recorded row swaps on the columns, last first. */
  method Unscramble(src: array2<Byte>, indxr: array<nat>, indxc: array<nat>, ghost a: Mat, ghost labs: seq<seq<nat>>)
    requires src.Length0 == src.Length1 == |a| && LabelHistory(labs, indxr[..], indxc[..], |a|, |a|)
    requires InvertsUpTo(a, Rows(src), labs[|a|])
    modifies src
    ensures InvertsUpTo(a, Rows(src), Iota(|a|))
  {
    var col := src.Length0;
    while col > 0
      invariant 0 <= col <= src.Length0
      invariant InvertsUpTo(a, Rows(src), labs[col])
    {
      var r, c := indxr[col - 1], indxc[col - 1];
      ghost var s := Rows(src);
      InvertsSwap(a, s, labs[col], r, c);
      if r != c { SwapColumns(src, r, c); } else { SwapNothing(s, r); }
      SwapTwice(labs[col - 1], r, c);
      col := col - 1;
    }
  }

  /** Gauss-Jordan elimination with full pivoting leaves the inverse in place. */
  method InvertMat(gf: Gf, src: array2<Byte>)
    requires src.Length0 == src.Length1 && Nonsingular(Rows(src))
    modifies src
    ensures IsInverse(old(Rows(src)), Rows(src))
  {
    var d := src.Length0;
    var indxc, indxr := new nat[d](_ => 0), new nat[d](_ => 0);
    ghost var a := Rows(src);
    ghost var labs := Eliminate(gf, src, indxr, indxc, a);
    Unscramble(src, indxr, indxc, a, labs);
    InvertsEnd(a, Rows(src));
  }

  lemma TotalZero(q: seq<bool>)
    requires forall i :: 0 <= i < |q| ==> !q[i]
    ensures Total(q) == 0
  {}

  lemma HistoryStep(labs: seq<seq<nat>>, r: seq<nat>, c: seq<nat>, d: nat, n: nat, i: nat, j: nat)
    requires LabelHistory(labs, r, c, d, n) && n < d && i < d && j < d
    ensures LabelHistory(labs + [Swapped(labs[n], i, j)], r[n := i], c[n := j], d, n + 1)
  {}

  lemma SwapTwice(lab: seq<nat>, i: nat, j: nat)
    requires i < |lab| && j < |lab|
    ensures Swapped(Swapped(lab, i, j), i, j) == lab
  {}

  lemma SwapNothing(s: Mat, i: nat)
    requires Shape(s, |s|, |s|) && i < |s|
    ensures ColumnsSwapped(s, i, i) == s
  {
    forall k | 0 <= k < |s| ensures ColumnsSwapped(s, i, i)[k] == s[k] { assert Swapped(s[k], i, i) == s[k]; }
  }
}
