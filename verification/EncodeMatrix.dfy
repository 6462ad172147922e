/** The systematic encoding matrix of fec_new() (lib/fec.c), and the property the code rests on:
    every choice of d of its rows is invertible. */
module EncodeMatrix {
  import opened GaloisField
  import opened GaloisTables
  import opened LinearAlgebra
  import opened GaussJordan
  import opened Polynomial
  import opened Vandermonde

  /** The evaluation point of strip k: 0, 1, a, a^2, ... */
  function Point(k: nat): (r: Byte) { if k == 0 then ZERO else Alpha(k - 1) }

  function Points(n: nat): (r: seq<Byte>)
    ensures |r| == n && forall k :: 0 <= k < n ==> r[k] == Point(k)
  {
    seq(n, k requires 0 <= k < n => Point(k))
  }

  lemma {:induction false} PowAlpha(i: nat, k: nat)
    ensures Pow(Alpha(i), k) == Alpha(i * k)
  {
    hide Mul;
    if k > 0 {
      PowAlpha(i, k - 1);
      MulAlpha(i, i * (k - 1));
    }
  }

  lemma {:induction false} PowZero(k: nat)
    requires k > 0
    ensures Pow(ZERO, k) == ZERO
  {
    MulZero(Pow(ZERO, k - 1));
  }

  lemma PointsDiffer(i: nat, j: nat)
    requires i < j < 256
    ensures Point(i) != Point(j)
  {
    if i == 0 { AlphaNonZero(j - 1); } else if Alpha(i - 1) == Alpha(j - 1) { AlphaInjective(i - 1, j - 1); }
  }

  lemma PointsDistinct(n: nat)
    requires n <= 256
    ensures Distinct(Points(n)) && (n > 0 ==> SkipsNothing(Points(n)))
  {
    forall i, j | 0 <= i < j < n ensures Points(n)[i] != Points(n)[j] { PointsDiffer(i, j); }
  }

  /** Row k of the Vandermonde matrix times the inverse of its top block. */
  ghost function Product(d: nat, k: nat): (r: Vec)
    ensures |r| == d
  {
    VecMat(PowersRow(Point(k), d), VdmInverse(Points(d)), d)
  }

  /** Row k of the encoding matrix: strip k as a combination of the data strips. */
  ghost function Row(d: nat, k: nat): (r: Vec)
    ensures |r| == d
  {
    if k < d then Unit(k, d) else Product(d, k)
  }

  /** Writing the identity on top is what the multiplication would have given. */
  lemma TopIsProduct(d: nat, k: nat)
    requires k < d <= 256
    ensures Row(d, k) == Product(d, k)
  {
    hide VdmInverse;
    PointsDistinct(d);
    RightInverse(Points(d));
    assert MatMul(Vdm(Points(d), d), VdmInverse(Points(d)), d)[k] == Unit(k, d);
  }

  // ---- any d rows

  ghost predicate DistinctStrips(idx: seq<nat>) {
    forall i, j :: 0 <= i < j < |idx| ==> idx[i] != idx[j]
  }

  ghost function Chosen(d: nat, idx: seq<nat>): (r: Mat)
    ensures Shape(r, |idx|, d) && forall i :: 0 <= i < |idx| ==> r[i] == Row(d, idx[i])
  {
    seq(|idx|, i requires 0 <= i < |idx| => Row(d, idx[i]))
  }

  ghost function PointsOf(idx: seq<nat>): (r: seq<Byte>)
    ensures |r| == |idx| && forall i :: 0 <= i < |idx| ==> r[i] == Point(idx[i])
  {
    seq(|idx|, i requires 0 <= i < |idx| => Point(idx[i]))
  }

  /** Strip k of the data x is the value at point k of the polynomial that interpolates x. */
  lemma RowEvaluates(d: nat, k: nat, x: Vec)
    requires d <= 256 && |x| == d
    ensures Dot(Row(d, k), x) == Eval(MatVec(VdmInverse(Points(d)), x), Point(k))
  {
    hide VdmInverse;
    if k < d { TopIsProduct(d, k); }
    var w := VdmInverse(Points(d));
    VecMatDot(PowersRow(Point(k), d), w, x);
    EvalDot(MatVec(w, x), Point(k));
  }

  lemma InterpolantZero(d: nat, x: Vec)
    requires 0 < d <= 256 && |x| == d && MatVec(VdmInverse(Points(d)), x) == Zeroes(d)
    ensures x == Zeroes(d)
  {
    hide VdmInverse;
    PointsDistinct(d);
    RightInverse(Points(d));
    RightInverseApplies(Vdm(Points(d), d), VdmInverse(Points(d)), x);
    forall i | 0 <= i < d ensures x[i] == ZERO {
      var v := Vdm(Points(d), d)[i];
      DotToComm(v, Zeroes(d), d);
      DotToZero(Zeroes(d), v, d);
    }
  }

  /** Any d different rows of the encoding matrix form a non-singular matrix. */
  lemma AnyRowsNonsingular(d: nat, idx: seq<nat>)
    requires 0 < d == |idx| && d <= 256 && DistinctStrips(idx) && forall i :: 0 <= i < d ==> idx[i] < 256
    ensures Nonsingular(Chosen(d, idx))
  {
    hide VdmInverse, Mul, Add;
    var ps := PointsOf(idx);
    forall i, j | 0 <= i < j < d ensures ps[i] != ps[j] {
      if idx[i] < idx[j] { PointsDiffer(idx[i], idx[j]); } else { PointsDiffer(idx[j], idx[i]); }
    }
    forall x: Vec | Solves(Chosen(d, idx), x, Zeroes(d)) ensures x == Zeroes(d) {
      var y := MatVec(VdmInverse(Points(d)), x);
      forall i | 0 <= i < d ensures Eval(y, ps[i]) == ZERO { RowEvaluates(d, idx[i], x); }
      TooManyRoots(y, ps);
      InterpolantZero(d, x);
    }
  }

  // ---- the limit of 256 strips

  ghost predicate Selection(d: nat, dp: nat, idx: seq<nat>) {
    |idx| == d && DistinctStrips(idx) && forall i :: 0 <= i < d ==> idx[i] < dp
  }

  /** Strips 1 and 256 have the same point, so a selection with both sees one point less. */
  ghost function Repeating(d: nat): (r: seq<nat>)
    ensures |r| == d && forall i :: 0 <= i < d ==> r[i] == if i == 0 then 1 else if i == 1 then 256 else i
  {
    seq(d, i => if i == 0 then 1 else if i == 1 then 256 else i)
  }

  ghost function Seen(d: nat): (r: seq<Byte>)
    requires d >= 2
    ensures |r| == d - 1 && forall i :: 0 <= i < d - 1 ==> r[i] == Point(i + 1)
  {
    seq(d - 1, i requires 0 <= i < d - 1 => Point(i + 1))
  }

  lemma InterpolantOf(d: nat, y: Vec)
    requires 0 < d <= 256 && |y| == d
    ensures MatVec(VdmInverse(Points(d)), MatVec(Vdm(Points(d), d), y)) == y
  {
    hide VdmInverse, Mul, Add;
    PointsDistinct(d);
    VdmInverseExact(Points(d));
    var x := MatVec(Vdm(Points(d), d), y);
    RightInverseApplies(VdmInverse(Points(d)), Vdm(Points(d), d), y);
    SolvesUnique(VdmInverse(Points(d)), x, y);
  }

  lemma SamePoint(k: nat)
    requires k == 256
    ensures Point(k) == Point(1)
  {
    hide Alpha;
    assert (k - 1) % 255 == 0;
    AlphaMod(k - 1);
  }

  lemma RepeatedPoint(d: nat, i: nat)
    requires i < d && d >= 2
    ensures Point(Repeating(d)[i]) in Seen(d)
  {
    hide Alpha;
    var k := Repeating(d)[i];
    if i == 1 { SamePoint(k); }
    var n := if i <= 1 then 0 else i - 1;
    assert Seen(d)[n] == Point(n + 1) == Point(k);
  }

  /** The values at the first d points of the polynomial that vanishes at every point seen. */
  ghost function Hidden(d: nat): (x: Vec)
    requires d >= 2
    ensures |x| == d
  {
    MatVec(Vdm(Points(d), d), Vandermonde.Product(Seen(d), d - 1))
  }

  lemma HiddenInterpolant(d: nat)
    requires 2 <= d <= 256
    ensures MatVec(VdmInverse(Points(d)), Hidden(d)) == Vandermonde.Product(Seen(d), d - 1)
  {
    hide VdmInverse, Mul, Add, DotTo, Vandermonde.Product, Points, Seen, MatVec, Vdm;
    InterpolantOf(d, Vandermonde.Product(Seen(d), d - 1));
  }

  lemma HiddenAt(d: nat, i: nat)
    requires 2 <= d <= 256 && i < d
    ensures Dot(Row(d, Repeating(d)[i]), Hidden(d)) == ZERO
  {
    hide VdmInverse, Mul, Add, DotTo, Row, Vandermonde.Product, Repeating, Points, Seen, MatVec, Hidden, Eval, Dot,
      Point;
    HiddenInterpolant(d);
    RowEvaluates(d, Repeating(d)[i], Hidden(d));
    RepeatedPoint(d, i);
    var n :| 0 <= n < d - 1 && Seen(d)[n] == Point(Repeating(d)[i]);
    ProductRoots(Seen(d), d - 1, n);
  }

  lemma HiddenNonZero(d: nat)
    requires 2 <= d <= 256
    ensures Hidden(d) != Zeroes(d)
  {
    hide VdmInverse, Mul, Add, DotTo, EvalFrom, Vandermonde.Product;
    var x, w := Hidden(d), VdmInverse(Points(d));
    InterpolantOf(d, Vandermonde.Product(Seen(d), d - 1));
    assert Dot(w[d - 1], x) == ONE;
    if x == Zeroes(d) {
      DotToComm(w[d - 1], x, d);
      DotToZero(x, w[d - 1], d);
      ZeroByte();
    }
  }

  /** Data that these d strips do not see at all. */
  lemma Invisible(d: nat)
    requires 2 <= d <= 256
    ensures Hidden(d) != Zeroes(d) && Solves(Chosen(d, Repeating(d)), Hidden(d), Zeroes(d))
  {
    hide Hidden, Mul, Add, DotTo, Row;
    HiddenNonZero(d);
    forall i | 0 <= i < d ensures Dot(Chosen(d, Repeating(d))[i], Hidden(d)) == ZERO { HiddenAt(d, i); }
  }

  /** With at least two data strips, any d of the dp strips determine the data exactly when
      dp <= 256. */
  lemma StripLimit(d: nat, dp: nat)
    requires 2 <= d <= dp && d <= 256
    ensures (forall idx :: Selection(d, dp, idx) ==> Nonsingular(Chosen(d, idx))) <==> dp <= 256
  {
    hide Row, Mul, Add, DotTo, Alpha;
    if dp <= 256 {
      forall idx | Selection(d, dp, idx) ensures Nonsingular(Chosen(d, idx)) { AnyRowsNonsingular(d, idx); }
    } else {
      Invisible(d);
      assert Selection(d, dp, Repeating(d)) && !Nonsingular(Chosen(d, Repeating(d)));
    }
  }

  // ---- the powers told without the points

  /** Column 0 is all ones; column 1 is 0, 1 and from there on the entry above times the generator; every
      further column is the one before times column 1. */
  ghost predicate IsPowerTable(m: Mat, rows: nat, cols: nat) {
    Shape(m, rows, cols) &&
    (forall i :: 0 <= i < rows && cols > 0 ==> m[i][0] == ONE) &&
    (forall i {:trigger m[i]} :: 0 <= i < rows && cols > 1 ==>
      m[i][1] == if i == 0 then ZERO else if i == 1 then ONE else Xtime(m[i - 1][1])) &&
    (forall i, j {:trigger m[i][j]} :: 0 <= i < rows && 1 < j < cols ==> m[i][j] == Mul(m[i][j - 1], m[i][1]))
  }

  lemma PowerTableIs(m: Mat, rows: nat, cols: nat)
    requires Shape(m, rows, cols) && forall i, j :: 0 <= i < rows && 0 <= j < cols ==> m[i][j] == Pow(Point(i), j)
    ensures IsPowerTable(m, rows, cols)
  {
    hide Mul, Xtime;
    forall i | 0 <= i < rows && cols > 1 ensures m[i][1] == Point(i) { PowOne(Point(i)); }
    forall i, j | 0 <= i < rows && 1 < j < cols ensures m[i][j] == Mul(m[i][j - 1], m[i][1]) {
      PowOne(Point(i));
      MulComm(Point(i), Pow(Point(i), j - 1));
    }
  }

  lemma PowOne(x: Byte)
    ensures Pow(x, 1) == x && Pow(x, 0) == ONE
  {
    hide Mul;
    MulUnit(x);
  }

  /** There is only one such table. */
  lemma {:induction false} PowerTableAt(m: Mat, rows: nat, cols: nat, i: nat, j: nat)
    requires IsPowerTable(m, rows, cols) && i < rows && j < cols
    ensures m[i][j] == Pow(Point(i), j)
    decreases j, i
  {
    hide Mul, Xtime;
    PowOne(Point(i));
    if j == 1 {
      if i == 1 {
        assert Alpha(0) == ONE && Point(i) == Alpha(0);
        assert m[i][1] == ONE;
      } else if i > 1 {
        PowerTableAt(m, rows, cols, i - 1, 1);
        PowOne(Point(i - 1));
        assert Alpha(i - 1) == Xtime(Alpha(i - 2));
      }
    } else if j > 1 {
      PowerTableAt(m, rows, cols, i, j - 1);
      PowerTableAt(m, rows, cols, i, 1);
      MulComm(Point(i), Pow(Point(i), j - 1));
    }
  }

  /** Row k of the encoding matrix takes the first d rows of the table to its row k. */
  lemma RowOfTable(d: nat, dp: nat, table: Mat, k: nat)
    requires 0 < d <= dp && d <= 256 && k < dp && IsPowerTable(table, dp, d)
    ensures |table| == dp && Shape(table[..d], d, d) && VecMat(Row(d, k), table[..d], d) == table[k]
  {
    hide VdmInverse, Pow, Mul, IsPowerTable;
    var v := Vdm(Points(d), d);
    TableShape(table, dp, d);
    assert table[..d] == v by { TableTop(table, d, dp); }
    assert table[k] == PowersRow(Point(k), d) by { TableRow(table, d, dp, k); }
    if k < d { TopIsProduct(d, k); }
    PointsDistinct(d);
    VdmInverseExact(Points(d));
    TimesInverse(PowersRow(Point(k), d), VdmInverse(Points(d)), v);
  }

  lemma TimesInverse(u: Vec, w: Mat, v: Mat)
    requires Shape(w, |u|, |u|) && Shape(v, |u|, |u|) && MatMul(w, v, |u|) == Identity(|u|)
    ensures VecMat(VecMat(u, w, |u|), v, |u|) == u
  {
    hide Mul, Add, DotTo;
    var d := |u|;
    forall c | 0 <= c < d ensures VecMat(VecMat(u, w, d), v, d)[c] == u[c] {
      var y := Column(v, c);
      VecMatDot(u, w, y);
      forall i | 0 <= i < d
        ensures MatVec(w, y)[i] == Unit(c, d)[i]
      {
        assert MatMul(w, v, d)[i][c] == Identity(d)[i][c];
      }
      assert MatVec(w, y) == Unit(c, d);
      DotUnit(u, c);
    }
  }

  lemma TableShape(table: Mat, dp: nat, d: nat)
    requires IsPowerTable(table, dp, d) && d <= dp
    ensures |table| == dp && Shape(table[..d], d, d)
  {
    hide Xtime, Mul;
  }

  lemma TableRow(table: Mat, d: nat, dp: nat, k: nat)
    requires IsPowerTable(table, dp, d) && k < dp
    ensures table[k] == PowersRow(Point(k), d)
  {
    hide Pow, Mul, Xtime;
    forall j | 0 <= j < d ensures table[k][j] == Pow(Point(k), j) { PowerTableAt(table, dp, d, k, j); }
  }

  lemma TableTop(table: Mat, d: nat, dp: nat)
    requires IsPowerTable(table, dp, d) && d <= dp
    ensures table[..d] == Vdm(Points(d), d)
  {
    hide Pow, Mul, Xtime;
    forall k | 0 <= k < d ensures table[..d][k] == Vdm(Points(d), d)[k] { TableRow(table, d, dp, k); }
  }

  // ---- building the matrix

  /** What fec_new() leaves in a context. */
  class Fec {
    const d: nat
    const dp: nat
    const enc: array2<Byte>
    const gf: Gf

    ghost predicate Valid()
      reads enc
    {
      0 < d <= dp && enc.Length0 == dp && enc.Length1 == d &&
      forall k :: 0 <= k < dp ==> RowOf(enc, k) == Row(d, k)
    }

    lemma Sizes()
      requires Valid()
      ensures 0 < d <= dp && enc.Length0 == dp && enc.Length1 == d
    {}

    constructor (gf: Gf, d: nat, dp: nat, enc: array2<Byte>)
      requires 0 < d <= dp && enc.Length0 == dp && enc.Length1 == d
      requires forall k :: 0 <= k < dp ==> RowOf(enc, k) == Row(d, k)
      ensures Valid() && this.d == d && this.dp == dp && this.enc == enc
    {
      this.d, this.dp, this.enc, this.gf := d, dp, enc, gf;
    }
  }

  /** Row r holds the powers of point r. */
  ghost predicate PowersUpTo(tmp: array2<Byte>, r: nat, c: nat)
    reads tmp
  {
    forall i, j :: 0 <= i < tmp.Length0 && 0 <= j < tmp.Length1 && (i < r || (i == r && j < c)) ==>
      tmp[i, j] == Pow(Point(i), j)
  }

  /** The first row is that of the point 0. */
  method FirstRow(tmp: array2<Byte>)
    requires tmp.Length0 > 0 && tmp.Length1 > 0
    modifies tmp
    ensures PowersUpTo(tmp, 1, 0)
  {
    hide Mul;
    tmp[0, 0] := ONE;
    for col := 1 to tmp.Length1
      invariant PowersUpTo(tmp, 0, col)
    {
      PowZero(col);
      tmp[0, col] := ZERO;
    }
  }

  /** The exponents row * col are passed as int. */
  predicate ExponentsFit(d: nat, dp: nat) { (dp - 2) * (d - 1) <= INT_MAX }

  lemma ExponentFits(d: nat, dp: nat, row: nat, col: nat)
    requires ExponentsFit(d, dp) && row + 1 < dp && col < d
    ensures row * col <= INT_MAX
  {
    assert row * col <= (dp - 2) * col <= (dp - 2) * (d - 1);
  }

  method FillPowers(gf: Gf, tmp: array2<Byte>)
    requires tmp.Length0 > 0 && tmp.Length1 > 0 && ExponentsFit(tmp.Length1, tmp.Length0)
    modifies tmp
    ensures PowersUpTo(tmp, tmp.Length0, 0)
    ensures IsPowerTable(Rows(tmp), tmp.Length0, tmp.Length1)
  {
    hide Pow, Alpha, IsPowerTable;
    FirstRow(tmp);
    for row := 0 to tmp.Length0 - 1
      invariant PowersUpTo(tmp, row + 1, 0)
    {
      for col := 0 to tmp.Length1
        invariant PowersUpTo(tmp, row + 1, col)
      {
        ExponentFits(tmp.Length1, tmp.Length0, row, col);
        var e := Modnn(row * col);
        AlphaMod(row * col);
        PowAlpha(row, col);
        tmp[row + 1, col] := GfExp(gf, e);
      }
    }
    PowerTableIs(Rows(tmp), tmp.Length0, tmp.Length1);
  }

  /** One entry of a matrix product. */
  method DotEntry(gf: Gf, tmp: array2<Byte>, row: nat, col: nat, ghost u: Vec, ghost w: Vec) returns (acc: Byte)
    requires row < tmp.Length0 && col < tmp.Length1 <= tmp.Length0 && |u| == |w| == tmp.Length1
    requires forall i :: 0 <= i < |u| ==> tmp[row, i] == u[i] && tmp[i, col] == w[i]
    ensures acc == Dot(u, w)
  {
    hide Mul, Add;
    acc := ZERO;
    for i := 0 to tmp.Length1
      invariant acc == DotTo(u, w, i)
    {
      acc := Add(acc, GfMul(gf, tmp[row, i], tmp[i, col]));
    }
  }

  /** The product of row `row` of tmp with its top block, into row `row` of enc. */
  method ProductRow(gf: Gf, tmp: array2<Byte>, enc: array2<Byte>, row: nat, ghost u: Vec, ghost w: Mat)
    requires tmp != enc && row < tmp.Length0 == enc.Length0 && tmp.Length1 == enc.Length1 <= row
    requires |u| == tmp.Length1 && Shape(w, |u|, |u|)
    requires forall j :: 0 <= j < |u| ==> tmp[row, j] == u[j]
    requires forall i, j :: 0 <= i < |u| && 0 <= j < |u| ==> tmp[i, j] == w[i][j]
    modifies enc
    ensures RowOf(enc, row) == VecMat(u, w, |u|)
    ensures forall i, j :: 0 <= i < enc.Length0 && i != row && 0 <= j < enc.Length1 ==> enc[i, j] == old(enc[i, j])
  {
    hide Mul, Add, DotTo;
    for col := 0 to tmp.Length1
      invariant forall j :: 0 <= j < col ==> enc[row, j] == VecMat(u, w, |u|)[j]
      invariant forall i, j :: 0 <= i < enc.Length0 && i != row && 0 <= j < enc.Length1 ==> enc[i, j] == old(enc[i, j])
    {
      var v := DotEntry(gf, tmp, row, col, u, Column(w, col));
      enc[row, col] := v;
    }
  }

  /** The identity on top. */
  method IdentityTop(enc: array2<Byte>)
    requires enc.Length1 <= enc.Length0
    modifies enc
    ensures forall i, j :: 0 <= i < enc.Length0 && 0 <= j < enc.Length1 ==>
      enc[i, j] == if i >= enc.Length1 then old(enc[i, j]) else if i == j then ONE else ZERO
  {
    for row := 0 to enc.Length1
      invariant forall i, j :: 0 <= i < enc.Length0 && 0 <= j < enc.Length1 ==>
        enc[i, j] == if i < row then ZERO else old(enc[i, j])
    {
      for col := 0 to enc.Length1
        invariant forall i, j :: 0 <= i < enc.Length0 && 0 <= j < enc.Length1 ==>
          enc[i, j] == if i < row || (i == row && j < col) then ZERO else old(enc[i, j])
      {
        enc[row, col] := ZERO;
      }
    }
    for col := 0 to enc.Length1
      invariant forall i, j :: 0 <= i < enc.Length0 && 0 <= j < enc.Length1 ==>
        enc[i, j] == if i >= enc.Length1 then old(enc[i, j]) else if i == j < col then ONE else ZERO
    {
      enc[col, col] := ONE;
    }
  }

  /** The rows below the identity. */
  method ProductRows(gf: Gf, tmp: array2<Byte>, enc: array2<Byte>)
    requires tmp != enc && tmp.Length0 == enc.Length0 && tmp.Length1 == enc.Length1 <= tmp.Length0
    requires forall i, j :: 0 <= i < tmp.Length0 && 0 <= j < tmp.Length1 ==>
      tmp[i, j] == if i < tmp.Length1 then VdmInverse(Points(tmp.Length1))[i][j] else Pow(Point(i), j)
    modifies enc
    ensures forall k :: tmp.Length1 <= k < tmp.Length0 ==> RowOf(enc, k) == Product(tmp.Length1, k)
  {
    hide Mul, Add, DotTo, VdmInverse, Pow, Alpha;
    var d := tmp.Length1;
    ghost var w := VdmInverse(Points(d));
    for row := d to tmp.Length0
      invariant forall k :: d <= k < row ==> RowOf(enc, k) == Product(d, k)
    {
      ghost var before := Rows(enc);
      ProductRow(gf, tmp, enc, row, PowersRow(Point(row), d), w);
      forall k | d <= k < row ensures RowOf(enc, k) == before[k] {}
    }
  }

  method FecNew(gf: Gf, d: nat, dp: nat) returns (code: Fec)
    requires 0 < d <= dp && ExponentsFit(d, dp)
    ensures code.Valid() && code.d == d && code.dp == dp && fresh(code.enc)
    ensures d <= 256 ==> forall table: Mat, k :: IsPowerTable(table, dp, d) && 0 <= k < dp ==>
      VecMat(RowOf(code.enc, k), table[..d], d) == table[k]
  {
    hide Mul, Add, DotTo, VdmInverse, Pow, Alpha, IsPowerTable;
    var tmp, enc := new Byte[dp, d]((i, j) => ZERO), new Byte[dp, d]((i, j) => ZERO);
    FillPowers(gf, tmp);
    InvertVdm(gf, tmp, d, Points(d));
    ProductRows(gf, tmp, enc);
    ghost var before := Rows(enc);
    IdentityTop(enc);
    forall k | 0 <= k < dp ensures RowOf(enc, k) == Row(d, k) {
      if k < d { assert RowOf(enc, k) == Unit(k, d); } else { assert RowOf(enc, k) == before[k]; }
    }
    code := new Fec(gf, d, dp, enc);
    if d <= 256 {
      forall table: Mat, k | IsPowerTable(table, dp, d) && 0 <= k < dp
        ensures |table| == dp && Shape(table[..d], d, d) && VecMat(RowOf(code.enc, k), table[..d], d) == table[k]
      {
        TableShape(table, dp, d);
        RowOfTable(d, dp, table, k);
      }
    }
  }
}
