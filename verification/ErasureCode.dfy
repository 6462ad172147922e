/** Encoding data strips into parity strips and rebuilding a lost strip from any d survivors
    (lib/fec.c, include/fec.h). */
module ErasureCode {
  import opened Options
  import opened GaloisField
  import opened GaloisTables
  import opened LinearAlgebra
  import opened GaussJordan
  import opened EncodeMatrix

  type Strip = seq<Byte>

  const STRIDE := 8192
  const STRIPE_SIZE := 512
  const MAX_STRIP := 16

  ghost predicate Strips(data: seq<Strip>, n: nat, size: nat) {
    |data| == n && forall j :: 0 <= j < n ==> |data[j]| == size
  }

  /** Strip k of a stripe: byte t combines byte t of every data strip. */
  ghost function Coded(d: nat, data: seq<Strip>, k: nat, size: nat): (r: Strip)
    requires Strips(data, d, size)
    ensures |r| == size && forall t :: 0 <= t < size ==> r[t] == Dot(Row(d, k), Column(data, t))
  {
    seq(size, t requires 0 <= t < size => Dot(Row(d, k), Column(data, t)))
  }

  /** The code is systematic: the first d strips are the data. */
  lemma Systematic(d: nat, data: seq<Strip>, k: nat, size: nat)
    requires Strips(data, d, size) && k < d
    ensures Coded(d, data, k, size) == data[k]
  {
    hide DotTo, Mul, Add;
    forall t | 0 <= t < size ensures Coded(d, data, k, size)[t] == data[k][t] {
      DotUnit(Column(data, t), k);
    }
  }

  /** The strips told from the table of powers: if the data bytes at t are the first d rows of it times y,
      then byte t of every strip is its row of the table times y. */
  lemma CodedByTable(d: nat, dp: nat, table: Mat, data: seq<Strip>, k: nat, size: nat, t: nat, y: Vec)
    requires 0 < d <= dp && d <= 256 && k < dp && IsPowerTable(table, dp, d)
    requires Strips(data, d, size) && t < size && |y| == d
    requires |table| == dp && Shape(table[..d], d, d) && Column(data, t) == MatVec(table[..d], y)
    ensures |table[k]| == d && Coded(d, data, k, size)[t] == Dot(table[k], y)
  {
    hide DotTo, Mul, Add, Row, IsPowerTable;
    RowOfTable(d, dp, table, k);
    VecMatDot(Row(d, k), table[..d], y);
  }

  // ---- combining strips

  /** dst += c * src on one stretch; nothing to do for c = 0. */
  method AddMul(gf: Gf, dst: array2<Byte>, o: nat, from: nat, to: nat, src: Strip, c: Byte)
    requires o < dst.Length0 && from <= to <= dst.Length1 && to <= |src|
    modifies dst
    ensures forall i, t :: 0 <= i < dst.Length0 && 0 <= t < dst.Length1 ==>
      dst[i, t] == if i == o && from <= t < to then Add(old(dst[i, t]), Mul(c, src[t])) else old(dst[i, t])
  {
    hide Add, Mul;
    if c == ZERO {
      forall t | from <= t < to
        ensures Add(dst[o, t], Mul(c, src[t])) == dst[o, t]
      {
        MulZero(src[t]);
        AddZero(dst[o, t]);
      }
      return;
    }
    for t := from to to
      invariant forall i, k :: 0 <= i < dst.Length0 && 0 <= k < dst.Length1 ==>
        dst[i, k] == if i == o && from <= k < t then Add(old(dst[i, k]), Mul(c, src[k])) else old(dst[i, k])
    {
      dst[o, t] := Add(dst[o, t], GfMul(gf, c, src[t]));
    }
  }

  method Clear(dst: array2<Byte>, o: nat, from: nat, to: nat)
    requires o < dst.Length0 && from <= to <= dst.Length1
    modifies dst
    ensures forall i, t :: 0 <= i < dst.Length0 && 0 <= t < dst.Length1 ==>
      dst[i, t] == if i == o && from <= t < to then ZERO else old(dst[i, t])
  {
    for t := from to to
      invariant forall i, k :: 0 <= i < dst.Length0 && 0 <= k < dst.Length1 ==>
        dst[i, k] == if i == o && from <= k < t then ZERO else old(dst[i, k])
    {
      dst[o, t] := ZERO;
    }
  }

  /** One output stretch: the combination of all sources by row i of m. */
  method Combine(gf: Gf, dst: array2<Byte>, o: nat, from: nat, to: nat, m: array2<Byte>, i: nat, src: seq<Strip>,
                 ghost u: Vec)
    requires m != dst && o < dst.Length0 && from <= to <= dst.Length1
    requires i < m.Length0 && m.Length1 == |src| == |u| && RowOf(m, i) == u
    requires forall j :: 0 <= j < |src| ==> to <= |src[j]|
    modifies dst
    ensures forall k, t :: 0 <= k < dst.Length0 && 0 <= t < dst.Length1 && (k != o || t < from || to <= t) ==>
      dst[k, t] == old(dst[k, t])
    ensures forall t :: from <= t < to ==> dst[o, t] == Dot(u, Column(src, t))
  {
    hide Add, Mul;
    Clear(dst, o, from, to);
    for j := 0 to |src|
      invariant forall k, t :: 0 <= k < dst.Length0 && 0 <= t < dst.Length1 && (k != o || t < from || to <= t) ==>
        dst[k, t] == old(dst[k, t])
      invariant forall t :: from <= t < to ==> dst[o, t] == DotTo(u, Column(src, t), j)
    {
      AddMul(gf, dst, o, from, to, src[j], m[i, j]);
      assert m[i, j] == u[j];
    }
  }

  // ---- encoding

  /** Parity strips blocks[0..], STRIDE bytes at a time. The byte-sized loop counters of the
      source bound both counts by 255. */
  method FecEncode(code: Fec, src: seq<Strip>, fecs: array2<Byte>, blocks: seq<nat>, size: nat)
    requires code.Valid() && code.enc != fecs && code.d <= 255 && |blocks| <= 255
    requires Strips(src, code.d, size) && |blocks| <= fecs.Length0 && size <= fecs.Length1
    requires forall i :: 0 <= i < |blocks| ==> code.d <= blocks[i] < code.dp
    modifies fecs
    ensures forall i, t :: 0 <= i < |blocks| && 0 <= t < size ==> fecs[i, t] == Coded(code.d, src, blocks[i], size)[t]
  {
    hide Add, Mul, DotTo, Row;
    var at := 0;
    while at < size
      invariant 0 <= at <= size
      invariant forall i, t :: 0 <= i < |blocks| && 0 <= t < at ==> fecs[i, t] == Coded(code.d, src, blocks[i], size)[t]
    {
      var to := at + if size - at < STRIDE then size - at else STRIDE;
      for i := 0 to |blocks|
        invariant forall k, t :: 0 <= k < |blocks| && 0 <= t < (if k < i then to else at) ==>
          fecs[k, t] == Coded(code.d, src, blocks[k], size)[t]
      {
        Combine(code.gf, fecs, i, at, to, code.enc, blocks[i], src, Row(code.d, blocks[i]));
      }
      at := to;
    }
  }

  // ---- decoding

  /** Strip i is in place when it is a data strip, and parity fills the gaps. */
  ghost predicate InPlace(d: nat, dp: nat, idx: seq<nat>) {
    Selection(d, dp, idx) && forall i :: 0 <= i < d ==> idx[i] >= d || idx[i] == i
  }

  /** The number of gaps before row n. */
  function Gaps(d: nat, idx: seq<nat>, n: nat): (r: nat)
    requires n <= |idx|
    ensures r <= n
  {
    if n == 0 then 0 else Gaps(d, idx, n - 1) + if idx[n - 1] >= d then 1 else 0
  }

  lemma {:induction false} GapsGrow(d: nat, idx: seq<nat>, m: nat, n: nat)
    requires m <= n <= |idx|
    ensures Gaps(d, idx, m) <= Gaps(d, idx, n)
    ensures m < n && idx[m] >= d ==> Gaps(d, idx, m) < Gaps(d, idx, n)
  {
    if m < n { GapsGrow(d, idx, m, n - 1); }
  }

  lemma GapsNext(d: nat, idx: seq<nat>, n: nat)
    requires n < |idx|
    ensures Gaps(d, idx, 0) == 0 && Gaps(d, idx, n + 1) == Gaps(d, idx, n) + if idx[n] >= d then 1 else 0
  {}

  method DecodeMatrix(code: Fec, idx: seq<nat>, m: array2<Byte>)
    requires code.Valid() && code.enc != m && code.dp <= 256 && m.Length0 == m.Length1 == code.d
    requires InPlace(code.d, code.dp, idx)
    modifies m
    ensures IsInverse(Chosen(code.d, idx), Rows(m))
  {
    hide Add, Mul, DotTo;
    var d := code.d;
    for i := 0 to d
      invariant forall k, j :: 0 <= k < i && 0 <= j < d ==> m[k, j] == Row(d, idx[k])[j]
    {
      for j := 0 to d
        invariant forall k, j :: 0 <= k < i && 0 <= j < d ==> m[k, j] == Row(d, idx[k])[j]
        invariant forall k :: 0 <= k < j ==> m[i, k] == Row(d, idx[i])[k]
      {
        if idx[i] < d {
          m[i, j] := if j == i then ONE else ZERO;
        } else {
          assert RowOf(code.enc, idx[i])[j] == Row(d, idx[i])[j];
          m[i, j] := code.enc[idx[i], j];
        }
      }
    }
    forall i | 0 <= i < d ensures Rows(m)[i] == Chosen(d, idx)[i] { assert RowOf(m, i) == Row(d, idx[i]); }
    assert Rows(m) == Chosen(d, idx);
    AnyRowsNonsingular(d, idx);
    InvertMat(code.gf, m);
  }

  /** pkts[i] is strip idx[i] of the stripe that encodes data. */
  ghost predicate Received(d: nat, idx: seq<nat>, pkts: seq<Strip>, data: seq<Strip>, size: nat) {
    |idx| == d && Strips(data, d, size) && Strips(pkts, d, size) && forall i :: 0 <= i < d ==>
      pkts[i] == Coded(d, data, idx[i], size)
  }

  /** The inverse of the chosen rows recovers one byte of one data strip. */
  lemma Recovers(d: nat, idx: seq<nat>, inv: Mat, data: seq<Strip>, size: nat, pkts: seq<Strip>, row: nat, t: nat)
    requires Received(d, idx, pkts, data, size) && IsInverse(Chosen(d, idx), inv) && row < d && t < size
    ensures Dot(inv[row], Column(pkts, t)) == data[row][t]
  {
    hide Add, Mul, DotTo, Row;
    var a, x := Chosen(d, idx), Column(data, t);
    assert Column(pkts, t) == MatVec(a, x);
    VecMatDot(inv[row], a, x);
    assert MatMul(inv, a, d)[row] == Unit(row, d);
    DotUnit(x, row);
  }

  ghost predicate Holds(outs: array2<Byte>, o: nat, strip: Strip)
    reads outs
  {
    o < outs.Length0 && |strip| <= outs.Length1 && forall t :: 0 <= t < |strip| ==> outs[o, t] == strip[t]
  }

  /** The first n missing data strips are in consecutive buffers. */
  ghost predicate Rebuilt(outs: array2<Byte>, d: nat, idx: seq<nat>, n: nat, data: seq<Strip>)
    requires n <= |idx| && n <= |data|
    reads outs
  {
    forall row :: 0 <= row < n && idx[row] >= d ==> Holds(outs, Gaps(d, idx, row), data[row])
  }

  method RebuildRow(gf: Gf, m: array2<Byte>, pkts: seq<Strip>, outs: array2<Byte>, o: nat, row: nat, size: nat,
                    ghost idx: seq<nat>, ghost data: seq<Strip>)
    requires m != outs && m.Length0 == m.Length1 == |pkts| && row < |pkts| && o < outs.Length0 && size <= outs.Length1
    requires Received(|pkts|, idx, pkts, data, size) && IsInverse(Chosen(|pkts|, idx), Rows(m))
    modifies outs
    ensures Holds(outs, o, data[row])
    ensures forall i, t :: 0 <= i < outs.Length0 && i != o && 0 <= t < outs.Length1 ==> outs[i, t] == old(outs[i, t])
  {
    hide Add, Mul, DotTo, Row, IsInverse, Chosen;
    ghost var inv := Rows(m);
    Combine(gf, outs, o, 0, size, m, row, pkts, inv[row]);
    forall t | 0 <= t < size ensures outs[o, t] == data[row][t] {
      Recovers(|pkts|, idx, inv, data, size, pkts, row, t);
    }
  }

  /** Rebuilds the missing data strips into consecutive output buffers. */
  method FecDecode(code: Fec, pkts: seq<Strip>, outs: array2<Byte>, idx: seq<nat>, size: nat, ghost data: seq<Strip>)
    requires code.Valid() && code.enc != outs && code.d <= 255 && code.dp <= 256 && InPlace(code.d, code.dp, idx)
    requires Received(code.d, idx, pkts, data, size)
    requires Gaps(code.d, idx, code.d) <= outs.Length0 && size <= outs.Length1
    modifies outs
    ensures Rebuilt(outs, code.d, idx, code.d, data)
  {
    hide Add, Mul, DotTo, Row, IsInverse, Chosen, Fec.Valid, Coded, Filled, Gaps;
    var d := code.d;
    var m := new Byte[d, d]((i, j) => ZERO);
    DecodeMatrix(code, idx, m);
    var outix := 0;
    for row := 0 to d
      invariant outix == Gaps(d, idx, row) <= outs.Length0
      invariant IsInverse(Chosen(d, idx), Rows(m))
      invariant Rebuilt(outs, d, idx, row, data)
    {
      GapsGrow(d, idx, row, d);
      GapsNext(d, idx, row);
      if idx[row] >= d {
        forall r | 0 <= r < row && idx[r] >= d ensures Gaps(d, idx, r) < outix { GapsGrow(d, idx, r, row); }
        RebuildRow(code.gf, m, pkts, outs, outix, row, size, idx, data);
        outix := outix + 1;
      }
    }
  }

  // ---- choosing the strips to decode from

  type Slots = seq<Option<Strip>>

  /** The number of strips present among lo, ..., hi - 1. */
  ghost function Present(s: Slots, lo: nat, hi: nat): (r: nat)
    requires hi <= |s|
    ensures lo <= hi ==> r <= hi - lo
    decreases hi - lo
  {
    if lo >= hi then 0 else (if s[lo].Some? then 1 else 0) + Present(s, lo + 1, hi)
  }

  lemma {:induction false} PresentNone(s: Slots, lo: nat, hi: nat)
    requires lo <= hi <= |s| && forall k :: lo <= k < hi ==> s[k].None?
    ensures Present(s, lo, hi) == 0
    decreases hi - lo
  {
    if lo < hi { PresentNone(s, lo + 1, hi); }
  }

  lemma {:induction false} PresentSplit(s: Slots, lo: nat, mid: nat, hi: nat)
    requires lo <= mid <= hi <= |s|
    ensures Present(s, lo, hi) == Present(s, lo, mid) + Present(s, mid, hi)
    decreases mid - lo
  {
    if lo < mid { PresentSplit(s, lo + 1, mid, hi); }
  }

  lemma {:induction false} PresentUpdate(s: Slots, k: nat, v: Strip, lo: nat, hi: nat)
    requires lo <= hi <= |s| && k < |s| && s[k].None?
    ensures Present(s[k := Some(v)], lo, hi) == Present(s, lo, hi) + if lo <= k < hi then 1 else 0
    decreases hi - lo
  {
    if lo < hi { PresentUpdate(s, k, v, lo + 1, hi); }
  }

  /** The next strip present from p on, or hi. */
  method NextPresent(s: Slots, from: nat, hi: nat) returns (p: nat)
    requires from <= hi <= |s|
    ensures from <= p <= hi && (p < hi ==> s[p].Some?) && Present(s, from, hi) == Present(s, p, hi)
    ensures p == hi ==> Present(s, from, hi) == 0
  {
    p := from;
    while p < hi && s[p].None?
      invariant from <= p <= hi && Present(s, from, hi) == Present(s, p, hi)
    {
      p := p + 1;
    }
  }

  /** Slot k is filled from strip j: its own if present, else a parity strip before q. */
  ghost predicate Entry(s: Slots, d: nat, q: nat, k: nat, j: nat, v: Strip)
    requires k < d <= |s|
  {
    j < |s| && s[j] == Some(v) && if s[k].Some? then j == k else d <= j < q
  }

  ghost predicate Placed(s: Slots, d: nat, q: nat, out: seq<Strip>, idx: seq<nat>) {
    |out| == |idx| <= d <= |s| && DistinctStrips(idx) && forall k :: 0 <= k < |idx| ==>
      Entry(s, d, q, k, idx[k], out[k])
  }

  lemma PlaceNext(s: Slots, d: nat, q: nat, out: seq<Strip>, idx: seq<nat>, q': nat, j: nat, v: Strip)
    requires Placed(s, d, q, out, idx) && |idx| < d <= q <= q' && Entry(s, d, q', |idx|, j, v)
    requires j == |idx| || q <= j
    ensures Placed(s, d, q', out + [v], idx + [j])
  {
    forall k | 0 <= k < |idx|
      ensures Entry(s, d, q', k, idx[k], out[k]) && idx[k] != j
    {
      assert Entry(s, d, q, k, idx[k], out[k]);
    }
  }

  /** Every data strip present stays in its place; gaps are filled with parity strips in order.
      When d strips are present the source's assertion p < dp cannot fail. */
  method DecodePrepare(s: Slots, d: nat) returns (out: seq<Strip>, idx: seq<nat>)
    requires 0 < d <= |s| && Present(s, 0, |s|) == d
    ensures |out| == d && InPlace(d, |s|, idx)
    ensures forall i :: 0 <= i < d ==> s[idx[i]] == Some(out[i]) && (idx[i] >= d <==> s[i].None?)
  {
    var dp := |s|;
    PresentSplit(s, 0, d, dp);
    var first := NextPresent(s, d, dp);
    var p := if first < dp then first else 0;
    ghost var q := first;
    out, idx := [], [];
    for i := 0 to d
      invariant |idx| == i && d <= q <= dp && Present(s, q, dp) == d - i - Present(s, i, d)
      invariant (p == q || (p == 0 && q == dp)) && (q < dp ==> s[q].Some?)
      invariant Placed(s, d, q, out, idx)
    {
      if s[i].Some? {
        PlaceNext(s, d, q, out, idx, q, i, s[i].value);
        out, idx := out + [s[i].value], idx + [i];
      } else {
        assert p < dp;
        ghost var q' := p + 1;
        PlaceNext(s, d, q, out, idx, q', p, s[p].value);
        out, idx := out + [s[p].value], idx + [p];
        p := NextPresent(s, p + 1, dp);
        PlaceLater(s, d, q', out, idx, p);
        q := p;
      }
    }
    forall i | 0 <= i < d
      ensures s[idx[i]] == Some(out[i]) && (idx[i] >= d <==> s[i].None?) && (idx[i] >= d || idx[i] == i)
    {
      assert Entry(s, d, q, i, idx[i], out[i]);
    }
  }

  lemma PlaceLater(s: Slots, d: nat, q: nat, out: seq<Strip>, idx: seq<nat>, q': nat)
    requires Placed(s, d, q, out, idx) && q <= q'
    ensures Placed(s, d, q', out, idx)
  {
    forall k | 0 <= k < |idx| ensures Entry(s, d, q', k, idx[k], out[k]) { assert Entry(s, d, q, k, idx[k], out[k]); }
  }

  // ---- one stripe

  /** The contents of a buffer. */
  method BufferStrip(m: array2<Byte>, o: nat, ghost strip: Strip) returns (r: Strip)
    requires Holds(m, o, strip) && |strip| == m.Length1
    ensures r == strip
  {
    r := seq(m.Length1, t requires 0 <= t < m.Length1 reads m => m[o, t]);
  }

  /** Whatever is present is the right strip. */
  ghost predicate Consistent(s: Slots, d: nat, data: seq<Strip>, size: nat)
    requires Strips(data, d, size)
  {
    forall k :: 0 <= k < |s| && s[k].Some? ==> s[k].value == Coded(d, data, k, size)
  }

  method PlaceInputs(d: nat, dp: nat, input: seq<Strip>, inidx: seq<nat>, ghost data: seq<Strip>, ghost size: nat)
    returns (s: Slots)
    requires Selection(d, dp, inidx) && Received(d, inidx, input, data, size)
    ensures |s| == dp && Present(s, 0, dp) == d && Consistent(s, d, data, size)
  {
    hide Coded;
    s := seq(dp, _ => None);
    PresentNone(s, 0, dp);
    for i := 0 to d
      invariant |s| == dp && Present(s, 0, dp) == i && Consistent(s, d, data, size)
      invariant forall k :: i <= k < d ==> s[inidx[k]].None?
    {
      PresentUpdate(s, inidx[i], input[i], 0, dp);
      s := s[inidx[i] := Some(input[i])];
    }
  }

  method DataIsMissing(s: Slots, d: nat) returns (r: bool)
    requires d <= |s|
    ensures r <==> exists i :: 0 <= i < d && s[i].None?
  {
    for i := 0 to d
      invariant forall k :: 0 <= k < i ==> s[k].Some?
    {
      if s[i].None? { return true; }
    }
    return false;
  }

  /** There are never more gaps than parity strips. */
  lemma {:induction false} GapsAreMissing(s: Slots, d: nat, idx: seq<nat>, n: nat)
    requires n <= d <= |s| && |idx| == d && forall i :: 0 <= i < d ==> (idx[i] >= d <==> s[i].None?)
    ensures Gaps(d, idx, n) == n - Present(s, 0, n)
  {
    if n > 0 {
      GapsAreMissing(s, d, idx, n - 1);
      PresentSplit(s, 0, n - 1, n);
    }
  }

  /** Puts the rebuilt data strips into the empty data slots. */
  method FillGaps(s: Slots, d: nat, idx: seq<nat>, missing: array2<Byte>, ghost data: seq<Strip>) returns (r: Slots)
    requires d <= |s| && |idx| == |data| == d && Strips(data, d, missing.Length1)
    requires Consistent(s, d, data, missing.Length1)
    requires forall i :: 0 <= i < d ==> (idx[i] >= d <==> s[i].None?)
    requires Rebuilt(missing, d, idx, d, data)
    ensures |r| == |s| && Consistent(r, d, data, missing.Length1) && forall i :: 0 <= i < d ==> r[i].Some?
  {
    hide Coded;
    r := s;
    var m := 0;
    for i := 0 to d
      invariant |r| == |s| && m == Gaps(d, idx, i)
      invariant Consistent(r, d, data, missing.Length1)
      invariant forall k :: 0 <= k < i ==> r[k].Some?
      invariant forall k :: i <= k < d ==> r[k] == s[k]
    {
      if r[i].None? {
        var strip := BufferStrip(missing, m, data[i]);
        Systematic(d, data, i, missing.Length1);
        r := r[i := Some(strip)];
        m := m + 1;
      }
    }
  }

  /** Data strips from any d strips. */
  method RecoverData(code: Fec, s: Slots, size: nat, ghost data: seq<Strip>) returns (r: Slots)
    requires code.Valid() && code.d <= 255 && code.dp <= 256 && code.dp - code.d < MAX_STRIP && |s| == code.dp
    requires Strips(data, code.d, size) && Consistent(s, code.d, data, size) && Present(s, 0, code.dp) == code.d
    ensures |r| == code.dp && Consistent(r, code.d, data, size) && forall i :: 0 <= i < code.d ==> r[i].Some?
  {
    hide Fec.Valid, Coded;
    var d := code.d;
    assert 0 < d <= code.dp by { code.Sizes(); }
    var oin, oidx := DecodePrepare(s, d);
    var lost := DataIsMissing(s, d);
    if !lost { return s; }
    GapsAreMissing(s, d, oidx, d);
    PresentSplit(s, 0, d, code.dp);
    var missing := new Byte[MAX_STRIP, size]((i, j) => ZERO);
    FecDecode(code, oin, missing, oidx, size, data);
    r := FillGaps(s, d, oidx, missing, data);
  }

  /** The parity strips of one stripe. */
  method EcEncode(code: Fec, ds: seq<Strip>, ps: array2<Byte>, size: nat)
    requires code.Valid() && code.enc != ps && code.d <= 255 && code.dp - code.d <= 255
    requires Strips(ds, code.d, size) && code.dp - code.d <= ps.Length0 && size == ps.Length1
    modifies ps
    ensures forall k :: code.d <= k < code.dp ==> Holds(ps, k - code.d, Coded(code.d, ds, k, size))
  {
    hide Coded, Row;
    var pidx := seq(code.dp - code.d, i requires 0 <= i < code.dp - code.d => code.d + i);
    FecEncode(code, ds, ps, pidx, size);
    forall k | code.d <= k < code.dp ensures Holds(ps, k - code.d, Coded(code.d, ds, k, size)) {
      assert pidx[k - code.d] == k;
    }
  }

  /** The parity strip k, from data strips that are all there. */
  method RecoverParity(code: Fec, s: Slots, k: nat, size: nat, ghost data: seq<Strip>) returns (output: Strip)
    requires code.Valid() && code.d <= 255 && code.d <= k < code.dp && code.dp - code.d < MAX_STRIP && |s| == code.dp
    requires Strips(data, code.d, size) && Consistent(s, code.d, data, size)
    requires forall i :: 0 <= i < code.d ==> s[i].Some?
    ensures output == Coded(code.d, data, k, size)
  {
    hide Fec.Valid, Coded;
    var d := code.d;
    var ds := seq(d, i requires 0 <= i < d => s[i].value);
    forall i | 0 <= i < d ensures ds[i] == data[i] { Systematic(d, data, i, size); }
    assert ds == data;
    var ps := new Byte[MAX_STRIP - 1, size]((i, j) => ZERO);
    EcEncode(code, ds, ps, size);
    output := BufferStrip(ps, k - d, Coded(d, data, k, size));
  }

  /** Any d strips of a stripe rebuild any strip of it, data or parity. */
  method EcDecode(code: Fec, input: seq<Strip>, inidx: seq<nat>, idx: nat, size: nat, ghost data: seq<Strip>)
    returns (output: Strip)
    requires code.Valid() && code.d <= 255 && code.dp - code.d < MAX_STRIP && code.dp <= 256
    requires Selection(code.d, code.dp, inidx) && idx < code.dp
    requires Received(code.d, inidx, input, data, size)
    ensures output == Coded(code.d, data, idx, size)
  {
    hide Fec.Valid, Coded;
    var s := PlaceInputs(code.d, code.dp, input, inidx, data, size);
    s := RecoverData(code, s, size, data);
    if idx < code.d {
      output := s[idx].value;
    } else {
      output := RecoverParity(code, s, idx, size, data);
    }
  }

  // ---- a whole object

  /** The part of every strip that belongs to bytes lo, ..., hi - 1. */
  function Cut(strips: seq<Strip>, lo: nat, hi: nat): (r: seq<Strip>)
    requires lo <= hi && forall j :: 0 <= j < |strips| ==> hi <= |strips[j]|
    ensures |r| == |strips| && forall j :: 0 <= j < |strips| ==> r[j] == strips[j][lo..hi]
  {
    seq(|strips|, j requires 0 <= j < |strips| => strips[j][lo..hi])
  }

  /** Stripes are coded independently. */
  lemma CodedCut(d: nat, data: seq<Strip>, k: nat, size: nat, lo: nat, hi: nat)
    requires Strips(data, d, size) && lo <= hi <= size
    ensures Coded(d, Cut(data, lo, hi), k, hi - lo) == Coded(d, data, k, size)[lo..hi]
  {
    hide DotTo, Row;
    forall t | 0 <= t < hi - lo ensures Column(Cut(data, lo, hi), t) == Column(data, lo + t) {}
  }

  lemma ReceivedCut(d: nat, idx: seq<nat>, pkts: seq<Strip>, data: seq<Strip>, size: nat, lo: nat, hi: nat)
    requires Received(d, idx, pkts, data, size) && lo <= hi <= size
    ensures Received(d, idx, Cut(pkts, lo, hi), Cut(data, lo, hi), hi - lo)
  {
    hide Coded;
    forall i | 0 <= i < d ensures Cut(pkts, lo, hi)[i] == Coded(d, Cut(data, lo, hi), idx[i], hi - lo) {
      CodedCut(d, data, idx[i], size, lo, hi);
    }
  }

  /** One stripe of the lost replica. */
  method DecodeStripe(code: Fec, input: seq<Strip>, inidx: seq<nat>, buf: array<Byte>, idx: nat, lo: nat, hi: nat,
                      ghost size: nat, ghost data: seq<Strip>)
    requires code.Valid() && code.d <= 255 && code.dp - code.d < MAX_STRIP && code.dp <= 256
    requires Selection(code.d, code.dp, inidx) && idx < code.dp && Received(code.d, inidx, input, data, size)
    requires lo <= hi <= size <= buf.Length && buf[..lo] == Coded(code.d, data, idx, size)[..lo]
    modifies buf
    ensures buf[..hi] == Coded(code.d, data, idx, size)[..hi]
    ensures forall k :: hi <= k < buf.Length ==> buf[k] == old(buf[k])
  {
    hide Coded, Fec.Valid;
    ghost var whole := Coded(code.d, data, idx, size);
    ReceivedCut(code.d, inidx, input, data, size, lo, hi);
    CodedCut(code.d, data, idx, size, lo, hi);
    var out := EcDecode(code, Cut(input, lo, hi), inidx, idx, hi - lo, Cut(data, lo, hi));
    CopyIn(buf, lo, out);
    assert whole[..hi] == whole[..lo] + whole[lo..hi];
  }

  /** The number of bytes of a replica that hold whole stripes. */
  function ReplicaSize(d: nat, objectSize: nat): (r: nat)
    requires d > 0
    ensures objectSize % STRIPE_SIZE == 0 && STRIPE_SIZE % d == 0 ==> r * d == objectSize
  {
    var size, stripes := STRIPE_SIZE / d, objectSize / STRIPE_SIZE;
    assert STRIPE_SIZE % d == 0 ==> (size * stripes) * d == (size * d) * stripes;
    size * stripes
  }

  method DecodeStripes(code: Fec, input: seq<Strip>, inidx: seq<nat>, buf: array<Byte>, idx: nat, size: nat,
                       stripes: nat, ghost data: seq<Strip>)
    requires code.Valid() && code.d <= 255 && code.dp - code.d < MAX_STRIP && code.dp <= 256
    requires Selection(code.d, code.dp, inidx) && idx < code.dp
    requires Received(code.d, inidx, input, data, size * stripes) && size * stripes <= buf.Length
    modifies buf
    ensures buf[..size * stripes] == Coded(code.d, data, idx, size * stripes)
    ensures forall k :: size * stripes <= k < buf.Length ==> buf[k] == old(buf[k])
  {
    hide Coded, Fec.Valid, Filled, Received, Selection;
    ghost var all := size * stripes;
    ReceivedData(code.d, inidx, input, data, all);
    ghost var whole := Coded(code.d, data, idx, all);
    var at := 0;
    for i := 0 to stripes
      invariant at == size * i && at <= all
      invariant buf[..at] == whole[..at] && forall k :: all <= k < buf.Length ==> buf[k] == old(buf[k])
    {
      Scaled(size, i + 1, stripes);
      DecodeStripe(code, input, inidx, buf, idx, at, at + size, all, data);
      at := at + size;
    }
  }

  /** The lost replica of an object, stripe by stripe, from any d replicas. */
  method FecDecodeBuffer(code: Fec, input: seq<Strip>, inidx: seq<nat>, buf: array<Byte>, idx: nat, objectSize: nat,
                         ghost data: seq<Strip>)
    requires code.Valid() && code.d <= 255 && code.dp - code.d < MAX_STRIP && code.dp <= 256
    requires Selection(code.d, code.dp, inidx) && idx < code.dp
    requires Received(code.d, inidx, input, data, ReplicaSize(code.d, objectSize))
    requires ReplicaSize(code.d, objectSize) <= buf.Length
    modifies buf
    ensures buf[..ReplicaSize(code.d, objectSize)] == Coded(code.d, data, idx, ReplicaSize(code.d, objectSize))
    ensures buf[ReplicaSize(code.d, objectSize)..] == old(buf[ReplicaSize(code.d, objectSize)..])
  {
    hide Coded, Fec.Valid, Filled, Received, Selection;
    code.Sizes();
    DecodeStripes(code, input, inidx, buf, idx, STRIPE_SIZE / code.d, objectSize / STRIPE_SIZE, data);
  }

  lemma ReceivedData(d: nat, idx: seq<nat>, pkts: seq<Strip>, data: seq<Strip>, size: nat)
    requires Received(d, idx, pkts, data, size)
    ensures Strips(data, d, size)
  {}

  lemma Scaled(k: nat, m: nat, n: nat)
    requires 0 < m <= n
    ensures k * (m - 1) + k == k * m <= k * n
  {}

  method CopyIn(buf: array<Byte>, at: nat, strip: Strip)
    requires at + |strip| <= buf.Length
    modifies buf
    ensures buf[..at + |strip|] == old(buf[..at]) + strip
    ensures forall k :: at + |strip| <= k < buf.Length ==> buf[k] == old(buf[k])
  {
    for t := 0 to |strip|
      invariant forall k :: 0 <= k < buf.Length ==> buf[k] == if at <= k < at + t then strip[k - at] else old(buf[k])
    {
      buf[at + t] := strip[t];
    }
  }
}
