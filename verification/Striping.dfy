/** Erasure-coded objects (sheep/gateway.c): a flat range of bytes is cut into stripes, each stripe
    into strips, and strip k of every stripe is kept by replica k together with the parity strips. */
module Striping {
  import opened Sequences
  import opened GaloisField
  import opened GaloisTables
  import opened LinearAlgebra
  import opened EncodeMatrix
  import opened ErasureCode

  // ---- cutting and joining

  function Join(qs: seq<Strip>, n: nat): (r: Strip)
    requires n <= |qs|
  {
    if n == 0 then [] else Join(qs, n - 1) + qs[n - 1]
  }

  ghost predicate Uniform(qs: seq<Strip>, size: nat) { forall i :: 0 <= i < |qs| ==> |qs[i]| == size }

  lemma Distribute(size: nat, n: nat)
    requires n > 0
    ensures size * n == size * (n - 1) + size
  {}

  lemma {:induction false} JoinSize(qs: seq<Strip>, size: nat, n: nat)
    requires Uniform(qs, size) && n <= |qs|
    ensures |Join(qs, n)| == size * n
  {
    if n > 0 { JoinSize(qs, size, n - 1); Distribute(size, n); }
  }

  lemma {:induction false} JoinAgree(qs: seq<Strip>, qs': seq<Strip>, n: nat)
    requires n <= |qs| && n <= |qs'| && forall i :: 0 <= i < n ==> qs[i] == qs'[i]
    ensures Join(qs, n) == Join(qs', n)
  {
    if n > 0 { JoinAgree(qs, qs', n - 1); }
  }

  lemma {:induction false} JoinConcat(a: seq<Strip>, b: seq<Strip>, n: nat)
    requires n <= |b|
    ensures Join(a + b, |a| + n) == Join(a, |a|) + Join(b, n)
  {
    if n == 0 { JoinAgree(a, a + b, |a|); } else { JoinConcat(a, b, n - 1); }
  }

  lemma ThreeParts(j: Strip, a: Strip, b: Strip, c: Strip, x: nat, y: nat)
    requires j == a + b + c && x == |a| && y == |a| + |b|
    ensures x <= y <= |j| && j[..x] == a && j[x..y] == b && j[y..] == c
  {}

  /** A run of uniform pieces is a slice of the whole. */
  lemma JoinSlice(qs: seq<Strip>, size: nat, lo: nat, hi: nat)
    requires Uniform(qs, size) && lo <= hi <= |qs|
    ensures size * lo <= size * hi <= |Join(qs, |qs|)|
    ensures Join(qs[lo..hi], hi - lo) == Join(qs, |qs|)[size * lo..size * hi]
    ensures Join(qs[..lo], lo) == Join(qs, |qs|)[..size * lo]
    ensures Join(qs[hi..], |qs| - hi) == Join(qs, |qs|)[size * hi..]
  {
    hide Join;
    var a, b, c := qs[..lo], qs[lo..hi], qs[hi..];
    assert qs == (a + b) + c && a + b == qs[..hi];
    JoinConcat(a + b, c, |c|);
    JoinConcat(a, b, |b|);
    JoinSize(a, size, lo); JoinSize(a + b, size, hi);
    ThreeParts(Join(qs, |qs|), Join(a, lo), Join(b, |b|), Join(c, |c|), size * lo, size * hi);
  }

  /** buf in n pieces of the same size. */
  function Cuts(buf: Strip, size: nat, n: nat): (r: seq<Strip>)
    requires size * n <= |buf|
    ensures |r| == n && Uniform(r, size)
  {
    if n == 0 then []
    else
      Distribute(size, n);
      Cuts(buf, size, n - 1) + [buf[size * (n - 1)..size * n]]
  }

  lemma {:induction false} CutsAt(buf: Strip, size: nat, n: nat, i: nat)
    requires size * n <= |buf| && i < n
    ensures size * i <= size * (i + 1) <= |buf| && Cuts(buf, size, n)[i] == buf[size * i..size * (i + 1)]
  {
    Distribute(size, n);
    if i < n - 1 { CutsAt(buf, size, n - 1, i); }
  }

  lemma {:induction false} JoinCuts(buf: Strip, size: nat, n: nat)
    requires size * n <= |buf|
    ensures Join(Cuts(buf, size, n), n) == buf[..size * n]
  {
    if n > 0 {
      Distribute(size, n);
      JoinCuts(buf, size, n - 1);
      JoinAgree(Cuts(buf, size, n - 1), Cuts(buf, size, n), n - 1);
    }
  }

  // ---- one object on its replicas

  /** replicas[k][s] is strip k of stripe s. */
  type Replicas = seq<seq<Strip>>

  ghost predicate Shaped(r: Replicas, dp: nat, n: nat, size: nat) {
    |r| == dp && forall k :: 0 <= k < dp ==> |r[k]| == n && Uniform(r[k], size)
  }

  /** The data strips of stripe s. */
  function DataRow(r: Replicas, d: nat, s: nat): (row: seq<Strip>)
    requires d <= |r| && forall k :: 0 <= k < d ==> s < |r[k]|
    ensures |row| == d && forall j :: 0 <= j < d ==> row[j] == r[j][s]
  {
    seq(d, j requires 0 <= j < d => r[j][s])
  }

  ghost function Stripes(r: Replicas, d: nat, n: nat): (q: seq<Strip>)
    requires d <= |r| && forall k :: 0 <= k < d ==> |r[k]| == n
    ensures |q| == n && forall s :: 0 <= s < n ==> q[s] == Join(DataRow(r, d, s), d)
  {
    seq(n, s requires 0 <= s < n => Join(DataRow(r, d, s), d))
  }

  /** The bytes of the object. */
  ghost function Flat(r: Replicas, d: nat, n: nat): (q: Strip)
    requires d <= |r| && forall k :: 0 <= k < d ==> |r[k]| == n
  {
    Join(Stripes(r, d, n), n)
  }

  /** Stripe s is a codeword. */
  ghost predicate IsCodeword(r: Replicas, d: nat, dp: nat, n: nat, size: nat, s: nat)
    requires d <= dp && Shaped(r, dp, n, size) && s < n
  {
    forall k :: 0 <= k < dp ==> r[k][s] == Coded(d, DataRow(r, d, s), k, size)
  }

  lemma StripesUniform(r: Replicas, d: nat, dp: nat, n: nat, size: nat)
    requires d <= dp && Shaped(r, dp, n, size)
    ensures Uniform(Stripes(r, d, n), size * d)
  {
    forall s | 0 <= s < n ensures |Stripes(r, d, n)[s]| == size * d { JoinSize(DataRow(r, d, s), size, d); }
  }

  /** Strip k of a new stripe s replaces the old one on every replica. */
  ghost predicate Replaced(r: Replicas, r': Replicas, s: nat, row: seq<Strip>) {
    |r'| == |r| == |row| && forall k :: 0 <= k < |r| ==> s < |r[k]| && r'[k] == r[k][s := row[k]]
  }

  function ReplaceStripe(r: Replicas, s: nat, row: seq<Strip>): (r': Replicas)
    requires |row| == |r| && forall k :: 0 <= k < |r| ==> s < |r[k]|
    ensures Replaced(r, r', s, row)
  {
    seq(|r|, k requires 0 <= k < |r| => r[k][s := row[k]])
  }

  lemma ReplacedShape(r: Replicas, r': Replicas, dp: nat, n: nat, size: nat, s: nat, row: seq<Strip>)
    requires Shaped(r, dp, n, size) && s < n && Uniform(row, size) && Replaced(r, r', s, row)
    ensures Shaped(r', dp, n, size)
  {}

  /** Other stripes stay as they are. */
  lemma ReplacedOther(r: Replicas, r': Replicas, d: nat, dp: nat, n: nat, size: nat, s: nat, row: seq<Strip>, i: nat)
    requires d <= dp && Shaped(r, dp, n, size) && Shaped(r', dp, n, size) && s < n && i < n && i != s
    requires Replaced(r, r', s, row)
    ensures DataRow(r', d, i) == DataRow(r, d, i)
    ensures IsCodeword(r, d, dp, n, size, i) ==> IsCodeword(r', d, dp, n, size, i)
  {
    hide Coded;
    assert DataRow(r', d, i) == DataRow(r, d, i);
  }

  ghost predicate IsRow(row: seq<Strip>, ds: seq<Strip>, d: nat, dp: nat, size: nat) {
    d <= dp == |row| && Strips(ds, d, size) && forall k :: 0 <= k < dp ==> row[k] == Coded(d, ds, k, size)
  }

  lemma ReplacedSelf(r: Replicas, r': Replicas, d: nat, dp: nat, n: nat, size: nat, s: nat, row: seq<Strip>,
                     ds: seq<Strip>)
    requires d <= dp && Shaped(r, dp, n, size) && Shaped(r', dp, n, size) && s < n && Replaced(r, r', s, row)
    requires IsRow(row, ds, d, dp, size)
    ensures DataRow(r', d, s) == ds && IsCodeword(r', d, dp, n, size, s)
  {
    hide Coded;
    forall j | 0 <= j < d ensures row[j] == ds[j] { Systematic(d, ds, j, size); }
    assert DataRow(r', d, s) == ds;
  }

  /** The data strips of one stripe. */
  method DataStrips(stripe: Strip, size: nat, d: nat) returns (ds: seq<Strip>)
    requires size * d == |stripe|
    ensures ds == Cuts(stripe, size, d)
  {
    ds := [];
    for j := 0 to d
      invariant ds == Cuts(stripe, size, d)[..j]
    {
      CutsAt(stripe, size, d, j);
      ds := ds + [stripe[size * j..size * (j + 1)]];
    }
  }

  /** The contents of all buffers. */
  method ReadBuffers(ps: array2<Byte>, ghost want: seq<Strip>) returns (strips: seq<Strip>)
    requires ps.Length0 == |want| && forall i :: 0 <= i < |want| ==> Holds(ps, i, want[i]) && |want[i]| == ps.Length1
    ensures strips == want
  {
    strips := [];
    for i := 0 to ps.Length0
      invariant strips == want[..i]
    {
      var p := BufferStrip(ps, i, want[i]);
      strips := strips + [p];
    }
  }

  ghost function ParityRow(ds: seq<Strip>, d: nat, dp: nat, size: nat): (r: seq<Strip>)
    requires d <= dp && Strips(ds, d, size)
    ensures |r| == dp - d && forall i :: 0 <= i < dp - d ==> r[i] == Coded(d, ds, d + i, size)
  {
    seq(dp - d, i requires 0 <= i < dp - d => Coded(d, ds, d + i, size))
  }

  lemma WholeRowAt(ds: seq<Strip>, d: nat, dp: nat, size: nat, k: nat)
    requires d <= dp && Strips(ds, d, size) && k < dp
    ensures (ds + ParityRow(ds, d, dp, size))[k] == Coded(d, ds, k, size)
  {
    hide Coded, ParityRow, Row;
    if k < d {
      Systematic(d, ds, k, size);
    } else {
      assert ParityRow(ds, d, dp, size)[k - d] == Coded(d, ds, d + (k - d), size);
    }
  }

  lemma WholeRow(ds: seq<Strip>, d: nat, dp: nat, size: nat)
    requires d <= dp && Strips(ds, d, size)
    ensures IsRow(ds + ParityRow(ds, d, dp, size), ds, d, dp, size)
  {
    hide Coded, ParityRow, Row, Strips;
    var row := ds + ParityRow(ds, d, dp, size);
    assert |row| == dp by { StripCount(ds, d, size); }
    forall k | 0 <= k < dp ensures row[k] == Coded(d, ds, k, size) { WholeRowAt(ds, d, dp, size, k); }
  }

  lemma StripCount(ds: seq<Strip>, d: nat, size: nat)
    requires Strips(ds, d, size)
    ensures |ds| == d
  {}

  method ParityStrips(code: Fec, ds: seq<Strip>, size: nat) returns (parity: seq<Strip>)
    requires code.Valid() && code.d <= 255 && code.dp - code.d <= 255 && Strips(ds, code.d, size)
    ensures code.d <= code.dp && parity == ParityRow(ds, code.d, code.dp, size)
  {
    hide Fec.Valid, Coded, Holds, Filled, ParityRow, Strips, Row;
    code.Sizes();
    var ps := new Byte[code.dp - code.d, size]((i, j) => ZERO);
    EcEncode(code, ds, ps, size);
    ghost var want := ParityRow(ds, code.d, code.dp, size);
    forall i | 0 <= i < |want| ensures Holds(ps, i, want[i]) { assert want[i] == Coded(code.d, ds, code.d + i, size); }
    parity := ReadBuffers(ps, want);
  }

  /** All strips of one stripe, parity included. */
  method EncodeStripe(code: Fec, ds: seq<Strip>, size: nat) returns (row: seq<Strip>)
    requires code.Valid() && code.d <= 255 && code.dp - code.d <= 255 && Strips(ds, code.d, size)
    ensures IsRow(row, ds, code.d, code.dp, size)
  {
    hide Fec.Valid, Coded, Filled, IsRow, ParityRow, Strips, Row;
    var parity := ParityStrips(code, ds, size);
    WholeRow(ds, code.d, code.dp, size);
    row := ds + parity;
  }

  method AppendRow(buf: Strip, r: Replicas, d: nat, s: nat) returns (buf': Strip)
    requires d <= |r| && forall k :: 0 <= k < d ==> s < |r[k]|
    ensures buf' == buf + Join(DataRow(r, d, s), d)
  {
    ghost var row := DataRow(r, d, s);
    buf' := buf;
    for j := 0 to d
      invariant buf' == buf + Join(row, j)
    {
      assert (buf + Join(row, j)) + row[j] == buf + (Join(row, j) + row[j]);
      buf' := buf' + r[j][s];
    }
  }

  method AssembleStripes(r: Replicas, d: nat, n: nat, start: nat, end: nat) returns (buf: Strip)
    requires d <= |r| && start <= end <= n && forall k :: 0 <= k < d ==> |r[k]| == n
    ensures buf == Join(Stripes(r, d, n)[start..end], end - start)
  {
    hide DataRow;
    ghost var q := Stripes(r, d, n)[start..end];
    buf := [];
    for i := start to end
      invariant buf == Join(q, i - start)
    {
      assert q[i - start] == Join(DataRow(r, d, i), d);
      buf := AppendRow(buf, r, d, i);
    }
  }

  /** An aligned write shorter than one stripe, for which no old data is read. */
  predicate AlignedShort(off: nat, len: nat) { off % STRIPE_SIZE == 0 && 0 < len < STRIPE_SIZE }

  function Up(x: nat): (r: nat) { (x + (STRIPE_SIZE - 1)) / STRIPE_SIZE }

  lemma Bounds(off: nat, len: nat, n: nat)
    requires off + len <= STRIPE_SIZE * n
    ensures off / STRIPE_SIZE <= Up(off + len) <= n
    ensures STRIPE_SIZE * (off / STRIPE_SIZE) + off % STRIPE_SIZE == off && off + len <= STRIPE_SIZE * Up(off + len)
    ensures (off + len) % STRIPE_SIZE != 0 ==>
      STRIPE_SIZE * ((off + len) / STRIPE_SIZE) + STRIPE_SIZE == STRIPE_SIZE * Up(off + len)
  {}

  lemma ZeroCoded(d: nat, data: seq<Strip>, k: nat, size: nat)
    requires Strips(data, d, size) && forall j :: 0 <= j < d ==> data[j] == Zeroes(size)
    ensures Coded(d, data, k, size) == Zeroes(size)
  {
    hide DotTo, Row;
    forall t | 0 <= t < size ensures Dot(Row(d, k), Column(data, t)) == ZERO {
      DotToComm(Row(d, k), Column(data, t), d);
      DotToZero(Column(data, t), Row(d, k), d);
    }
  }

  lemma ZeroCodewords(r: Replicas, d: nat, dp: nat, n: nat, size: nat, s: nat)
    requires d <= dp && Shaped(r, dp, n, size) && s < n && forall k :: 0 <= k < dp ==> r[k][s] == Zeroes(size)
    ensures IsCodeword(r, d, dp, n, size, s)
  {
    hide Coded;
    forall k | 0 <= k < dp
      ensures r[k][s] == Coded(d, DataRow(r, d, s), k, size)
    {
      ZeroCoded(d, DataRow(r, d, s), k, size);
    }
  }

  lemma {:induction false} ZeroJoin(qs: seq<Strip>, n: nat, size: nat)
    requires n <= |qs| && forall i :: 0 <= i < n ==> qs[i] == Zeroes(size)
    ensures |Join(qs, n)| == size * n && forall t :: 0 <= t < |Join(qs, n)| ==> Join(qs, n)[t] == ZERO
  {
    if n > 0 { ZeroJoin(qs, n - 1, size); Distribute(size, n); }
  }

  lemma ZeroFlat(r: Replicas, d: nat, n: nat, size: nat)
    requires d <= |r| && forall k :: 0 <= k < d ==> |r[k]| == n && forall s :: 0 <= s < n ==> r[k][s] == Zeroes(size)
    ensures Flat(r, d, n) == Zeroes(size * d * n)
  {
    var q := Stripes(r, d, n);
    forall s | 0 <= s < n ensures q[s] == Zeroes(size * d) { ZeroJoin(DataRow(r, d, s), d, size); }
    ZeroJoin(q, n, size * d);
  }

  /** Where the stripes read and the data go in the buffer. */
  lemma Room(off: nat, len: nat, n: nat)
    requires off + len <= STRIPE_SIZE * n
    ensures off / STRIPE_SIZE <= Up(off + len)
    ensures var head, tail, over := STRIPE_SIZE * (off / STRIPE_SIZE), STRIPE_SIZE * ((off + len) / STRIPE_SIZE),
      off % STRIPE_SIZE;
      var size := STRIPE_SIZE * (Up(off + len) - off / STRIPE_SIZE);
      over + len <= size &&
      (over != 0 ==> head + STRIPE_SIZE <= STRIPE_SIZE * n && STRIPE_SIZE <= size) &&
      ((len + off) % STRIPE_SIZE != 0 ==>
        head <= tail && tail + STRIPE_SIZE <= STRIPE_SIZE * n && tail - head + STRIPE_SIZE <= size)
  {
    Bounds(off, len, n);
  }

  /** Zeros written after the data of an aligned short write. */
  function Spill(off: nat, len: nat): (r: Strip)
    ensures |r| == if AlignedShort(off, len) then STRIPE_SIZE - len else 0
    ensures forall t :: 0 <= t < |r| ==> r[t] == ZERO
  {
    if AlignedShort(off, len) then Zeroes(STRIPE_SIZE - len) else []
  }

  lemma SpillFits(size: nat, off: nat, len: nat)
    requires size % STRIPE_SIZE == 0 && off + len <= size
    ensures off + len + |Spill(off, len)| <= size
  {
    Bounds(off, len, size / STRIPE_SIZE);
  }

  /** The contents c once data has been written at off, with the zeros that follow it. */
  function Written(c: Strip, off: nat, data: Strip): (r: Strip)
    requires |c| % STRIPE_SIZE == 0 && off + |data| <= |c|
    ensures |r| == |c|
  {
    SpillFits(|c|, off, |data|);
    Patched(c, off, data + Spill(off, |data|))
  }

  /** A zeroed buffer that starts at `head` of c, with the stripes at head and tail read into it if
      wanted, and the data over them. */
  ghost function Layered(c: Strip, head: nat, tail: nat, over: nat, size: nat, first: bool, last: bool,
                         data: Strip): (buf: Strip)
    requires over + |data| <= size && (first ==> head + STRIPE_SIZE <= |c| && STRIPE_SIZE <= size)
    requires last ==> head <= tail && tail + STRIPE_SIZE <= |c| && tail - head + STRIPE_SIZE <= size
    ensures |buf| == size
  {
    var b0 := Zeroes(size);
    var b1 := if first then Patched(b0, 0, c[head..head + STRIPE_SIZE]) else b0;
    var b2 := if last then Patched(b1, tail - head, c[tail..tail + STRIPE_SIZE]) else b1;
    Patched(b2, over, data)
  }

  /** The buffer of init_erasure_buffer() over old contents c. */
  ghost function Buffer(c: Strip, off: nat, data: Strip, create: bool): (buf: Strip)
    requires |c| % STRIPE_SIZE == 0 && off + |data| <= |c|
    ensures |buf| == STRIPE_SIZE * (Up(off + |data|) - off / STRIPE_SIZE)
  {
    var head, tail := STRIPE_SIZE * (off / STRIPE_SIZE), STRIPE_SIZE * ((off + |data|) / STRIPE_SIZE);
    Room(off, |data|, |c| / STRIPE_SIZE);
    Layered(c, head, tail, off % STRIPE_SIZE, STRIPE_SIZE * (Up(off + |data|) - off / STRIPE_SIZE),
            !create && off % STRIPE_SIZE != 0, !create && (|data| + off) % STRIPE_SIZE != 0 && tail > head, data)
  }

  lemma BufferBefore(c: Strip, off: nat, data: Strip, t: nat)
    requires |c| % STRIPE_SIZE == 0 && off + |data| <= |c| && t < off % STRIPE_SIZE && t < |Buffer(c, off, data, false)|
    ensures Buffer(c, off, data, false)[t] == c[STRIPE_SIZE * (off / STRIPE_SIZE) + t]
  {
    hide Patched;
  }

  lemma LayeredAfter(c: Strip, head: nat, tail: nat, over: nat, size: nat, first: bool, last: bool, data: Strip, t: nat)
    requires over + |data| <= size && (first ==> head + STRIPE_SIZE <= |c| && STRIPE_SIZE <= size)
    requires last ==> head <= tail && tail + STRIPE_SIZE <= |c| && tail - head + STRIPE_SIZE <= size
    requires over + |data| <= t < size && head + size <= |c|
    ensures Layered(c, head, tail, over, size, first, last, data)[t] ==
      if (last && tail <= head + t < tail + STRIPE_SIZE) || (first && t < STRIPE_SIZE) then c[head + t] else ZERO
  {}

  lemma BufferAfter(c: Strip, off: nat, data: Strip, t: nat)
    requires |c| % STRIPE_SIZE == 0 && off + |data| <= |c|
    requires off % STRIPE_SIZE + |data| <= t < |Buffer(c, off, data, false)|
    ensures STRIPE_SIZE * (off / STRIPE_SIZE) + t < |c|
    ensures Buffer(c, off, data, false)[t] == if AlignedShort(off, |data|) then ZERO
      else c[STRIPE_SIZE * (off / STRIPE_SIZE) + t]
  {
    hide Patched, Layered;
    Bounds(off, |data|, |c| / STRIPE_SIZE);
    Room(off, |data|, |c| / STRIPE_SIZE);
    var head, tail := STRIPE_SIZE * (off / STRIPE_SIZE), STRIPE_SIZE * ((off + |data|) / STRIPE_SIZE);
    LayeredAfter(c, head, tail, off % STRIPE_SIZE, |Buffer(c, off, data, false)|, off % STRIPE_SIZE != 0,
                 (|data| + off) % STRIPE_SIZE != 0 && tail > head, data, t);
  }

  lemma BufferWithin(c: Strip, off: nat, data: Strip, t: nat)
    requires |c| % STRIPE_SIZE == 0 && off + |data| <= |c| && off % STRIPE_SIZE <= t < off % STRIPE_SIZE + |data|
    requires t < |Buffer(c, off, data, false)|
    ensures Buffer(c, off, data, false)[t] == data[t - off % STRIPE_SIZE]
  {
    hide Patched;
  }

  /** Apart from the data and the spill the buffer holds the old bytes. */
  lemma BufferAt(c: Strip, off: nat, data: Strip, t: nat)
    requires |c| % STRIPE_SIZE == 0 && off + |data| <= |c| && t < |Buffer(c, off, data, false)|
    ensures STRIPE_SIZE * (off / STRIPE_SIZE) + t < |c| && off + |data| + |Spill(off, |data|)| <= |c|
    ensures Buffer(c, off, data, false)[t] ==
      Patched(c, off, data + Spill(off, |data|))[STRIPE_SIZE * (off / STRIPE_SIZE) + t]
  {
    hide Patched, Buffer;
    Bounds(off, |data|, |c| / STRIPE_SIZE);
    if t < off % STRIPE_SIZE { BufferBefore(c, off, data, t); }
    else if t < off % STRIPE_SIZE + |data| { BufferWithin(c, off, data, t); }
    else { BufferAfter(c, off, data, t); }
  }

  lemma BufferWrites(c: Strip, off: nat, data: Strip, n: nat)
    requires |c| == STRIPE_SIZE * n && off + |data| <= |c|
    ensures off + |data| + |Spill(off, |data|)| <= |c|
    ensures STRIPE_SIZE * (off / STRIPE_SIZE) <= STRIPE_SIZE * Up(off + |data|) <= |c|
    ensures c[..STRIPE_SIZE * (off / STRIPE_SIZE)] + Buffer(c, off, data, false) +
      c[STRIPE_SIZE * Up(off + |data|)..] == Written(c, off, data)
  {
    hide Buffer, Patched;
    Bounds(off, |data|, n);
    var lo, hi, buf, p := STRIPE_SIZE * (off / STRIPE_SIZE), STRIPE_SIZE * Up(off + |data|),
      Buffer(c, off, data, false), Patched(c, off, data + Spill(off, |data|));
    forall x | 0 <= x < |c| ensures (c[..lo] + buf + c[hi..])[x] == p[x] {
      if lo <= x < hi { BufferAt(c, off, data, x - lo); }
    }
  }

  lemma BufferCreates(c: Strip, off: nat, data: Strip, n: nat)
    requires c == Zeroes(STRIPE_SIZE * n) && off + |data| <= |c|
    ensures STRIPE_SIZE * (off / STRIPE_SIZE) <= STRIPE_SIZE * Up(off + |data|) <= |c|
    ensures c[..STRIPE_SIZE * (off / STRIPE_SIZE)] + Buffer(c, off, data, true) + c[STRIPE_SIZE * Up(off + |data|)..] ==
      Patched(c, off, data)
  {
    hide Patched;
    Bounds(off, |data|, n);
    var lo, hi, buf, p := STRIPE_SIZE * (off / STRIPE_SIZE), STRIPE_SIZE * Up(off + |data|), Buffer(c, off, data, true),
      Patched(c, off, data);
    forall x | 0 <= x < |c| ensures (c[..lo] + buf + c[hi..])[x] == p[x] {}
  }

  /** A write refines an update of the flat bytes if and only if it is not an aligned short one or the
      bytes behind it, up to the end of the stripe, were zero. */
  lemma WriteExact(c: Strip, off: nat, data: Strip)
    requires |c| % STRIPE_SIZE == 0 && off + |data| <= |c|
    ensures Written(c, off, data) == Patched(c, off, data) <==>
      (AlignedShort(off, |data|) ==> forall x :: off + |data| <= x < off + STRIPE_SIZE ==> c[x] == ZERO)
  {
    hide Patched;
    Bounds(off, |data|, |c| / STRIPE_SIZE);
    var s := Spill(off, |data|);
    var p, q := Patched(c, off, data + s), Patched(c, off, data);
    forall x | 0 <= x < |c| && !(off + |data| <= x < off + |data| + |s|) ensures p[x] == q[x] {}
    forall x | off + |data| <= x < off + |data| + |s| ensures p[x] == ZERO && q[x] == c[x] {}
  }

  class ErasureObject {
    const code: Fec
    const n: nat
    const size: nat
    var replicas: Replicas

    /** A new object reads as zeros. */
    constructor (code: Fec, n: nat, size: nat)
      requires code.Valid() && code.d <= 255 && code.dp - code.d <= 255 && size * code.d == STRIPE_SIZE
      ensures Valid() && this.code == code && this.n == n && this.size == size && Contents() == Zeroes(STRIPE_SIZE * n)
    {
      this.code, this.n, this.size := code, n, size;
      replicas := seq(code.dp, _ => seq(n, _ => Zeroes(size)));
      new;
      hide Coded, Join;
      forall s | 0 <= s < n
        ensures IsCodeword(replicas, code.d, code.dp, n, size, s)
      {
        ZeroCodewords(replicas, code.d, code.dp, n, size, s);
      }
      ZeroFlat(replicas, code.d, n, size);
    }

    ghost predicate Valid()
      reads this, code.enc
    {
      code.Valid() && code.d <= 255 && code.dp - code.d <= 255 && size * code.d == STRIPE_SIZE &&
      Shaped(replicas, code.dp, n, size) && forall s :: 0 <= s < n ==> IsCodeword(replicas, code.d, code.dp, n, size, s)
    }

    ghost function Contents(): (q: Strip)
      reads this, code.enc
      requires Valid()
      ensures |q| == STRIPE_SIZE * n
    {
      StripesUniform(replicas, code.d, code.dp, n, size);
      JoinSize(Stripes(replicas, code.d, n), STRIPE_SIZE, n);
      Flat(replicas, code.d, n)
    }

    lemma Parts(lo: nat, hi: nat)
      requires Valid() && lo <= hi <= n
      ensures Join(Stripes0()[lo..hi], hi - lo) == Contents()[STRIPE_SIZE * lo..STRIPE_SIZE * hi]
      ensures Join(Stripes0()[..lo], lo) == Contents()[..STRIPE_SIZE * lo]
      ensures Join(Stripes0()[hi..], n - hi) == Contents()[STRIPE_SIZE * hi..]
    {
      hide IsCodeword, Join;
      StripesUniform(replicas, code.d, code.dp, n, size);
      JoinSlice(Stripes(replicas, code.d, n), STRIPE_SIZE, lo, hi);
      JoinSize(Stripes(replicas, code.d, n), STRIPE_SIZE, n);
    }

    /** Stripes start, ..., end - 1 put together from the data strips. */
    method Assemble(start: nat, end: nat) returns (buf: Strip)
      requires Valid() && start <= end <= n
      ensures buf == Contents()[STRIPE_SIZE * start..STRIPE_SIZE * end]
    {
      hide IsCodeword, Fec.Valid, Join;
      code.Sizes();
      Parts(start, end);
      buf := AssembleStripes(replicas, code.d, n, start, end);
    }

    /** Reading any range returns the bytes of the object. */
    method Read(off: nat, len: nat) returns (data: Strip)
      requires Valid() && off + len <= STRIPE_SIZE * n
      ensures data == Contents()[off..off + len]
    {
      hide Valid, Contents;
      var start, end := off / STRIPE_SIZE, Up(off + len);
      Bounds(off, len, n);
      var buf := Assemble(start, end);
      SliceOfSlice(Contents(), STRIPE_SIZE * start, STRIPE_SIZE * end, off % STRIPE_SIZE, off % STRIPE_SIZE + len);
      data := buf[off % STRIPE_SIZE..off % STRIPE_SIZE + len];
    }

    method PutStripe(s: nat, stripe: Strip)
      requires Valid() && s < n && |stripe| == STRIPE_SIZE
      modifies this`replicas
      ensures Valid() && Stripes0() == old(Stripes0())[s := stripe]
    {
      hide IsCodeword, Fec.Valid, Cuts, Join;
      code.Sizes();
      var d := code.d;
      ghost var r := replicas;
      var ds := DataStrips(stripe, size, d);
      var row := EncodeStripe(code, ds, size);
      replicas := ReplaceStripe(replicas, s, row);
      ReplacedShape(r, replicas, code.dp, n, size, s, row);
      ReplacedSelf(r, replicas, d, code.dp, n, size, s, row, ds);
      JoinCuts(stripe, size, d);
      forall i | 0 <= i < n
        ensures IsCodeword(replicas, d, code.dp, n, size, i)
        ensures Stripes(replicas, d, n)[i] == Stripes(r, d, n)[s := stripe][i]
      {
        if i != s { ReplacedOther(r, replicas, d, code.dp, n, size, s, row, i); }
      }
    }

    /** Stripes from `start` on are overwritten with buf. */
    method WriteStripes(start: nat, nr: nat, buf: Strip)
      requires Valid() && start + nr <= n && |buf| == STRIPE_SIZE * nr
      modifies this`replicas
      ensures Valid()
      ensures Contents() == old(Contents())[..STRIPE_SIZE * start] + buf + old(Contents())[STRIPE_SIZE * (start + nr)..]
    {
      hide Valid, Join, Cuts, Contents, Stripes0;
      ghost var q, cuts := Stripes0(), Cuts(buf, STRIPE_SIZE, nr);
      Parts(start, start + nr);
      for i := 0 to nr
        invariant Valid()
        invariant forall s :: 0 <= s < n ==> Stripes0()[s] == if start <= s < start + i then cuts[s - start] else q[s]
      {
        CutsAt(buf, STRIPE_SIZE, nr, i);
        PutStripe(start + i, buf[STRIPE_SIZE * i..STRIPE_SIZE * (i + 1)]);
      }
      assert Stripes0() == q[..start] + cuts + q[start + nr..];
      WholeJoin(q[..start], cuts, q[start + nr..], Stripes0());
      JoinCuts(buf, STRIPE_SIZE, nr);
    }

    method Layer(head: nat, tail: nat, over: nat, len: nat, first: bool, last: bool, data: Strip) returns (buf: Strip)
      requires Valid() && over + |data| <= len
      requires first ==> head + STRIPE_SIZE <= STRIPE_SIZE * n && STRIPE_SIZE <= len
      requires last ==> head <= tail && tail + STRIPE_SIZE <= STRIPE_SIZE * n && tail - head + STRIPE_SIZE <= len
      ensures buf == Layered(Contents(), head, tail, over, len, first, last, data)
    {
      hide Valid, Contents, Patched, Zeroes;
      buf := Zeroes(len);
      if first {
        var old_head := Read(head, STRIPE_SIZE);
        buf := Patched(buf, 0, old_head);
      }
      if last {
        var old_tail := Read(tail, STRIPE_SIZE);
        buf := Patched(buf, tail - head, old_tail);
      }
      buf := Patched(buf, over, data);
    }

    /** The stripes a write touches, with old data around the new: the first stripe is read when the
        write starts inside it, the last when the write ends inside it and it is another one. */
    method InitErasureBuffer(off: nat, data: Strip, create: bool) returns (buf: Strip)
      requires Valid() && off + |data| <= STRIPE_SIZE * n
      ensures buf == Buffer(Contents(), off, data, create)
    {
      Room(off, |data|, n);
      hide Valid, Contents, Layered, Up;
      var head, tail := STRIPE_SIZE * (off / STRIPE_SIZE), STRIPE_SIZE * ((off + |data|) / STRIPE_SIZE);
      var first, last := !create && off % STRIPE_SIZE != 0, !create && (|data| + off) % STRIPE_SIZE != 0 && tail > head;
      buf := Layer(head, tail, off % STRIPE_SIZE, STRIPE_SIZE * (Up(off + |data|) - off / STRIPE_SIZE), first, last,
        data);
    }

    /** A write changes the range it names and, when it is aligned and shorter than one stripe, sets
        the rest of that stripe to zero. */
    method Write(off: nat, data: Strip)
      requires Valid() && off + |data| <= STRIPE_SIZE * n
      modifies this`replicas
      ensures Valid() && Contents() == Written(old(Contents()), off, data)
    {
      hide Valid, Contents;
      Bounds(off, |data|, n);
      var start, end := off / STRIPE_SIZE, Up(off + |data|);
      var buf := InitErasureBuffer(off, data, false);
      BufferWrites(Contents(), off, data, n);
      WriteStripes(start, end - start, buf);
    }

    /** The write that creates the object. */
    method CreateAndWrite(off: nat, data: Strip)
      requires Valid() && off + |data| <= STRIPE_SIZE * n && Contents() == Zeroes(STRIPE_SIZE * n)
      modifies this`replicas
      ensures Valid() && Contents() == Patched(old(Contents()), off, data)
    {
      hide Valid, Contents;
      Bounds(off, |data|, n);
      var start, end := off / STRIPE_SIZE, Up(off + |data|);
      var buf := InitErasureBuffer(off, data, true);
      BufferCreates(Contents(), off, data, n);
      WriteStripes(start, end - start, buf);
    }

    ghost function Stripes0(): (q: seq<Strip>)
      reads this, code.enc
      requires Valid()
      ensures |q| == n && Contents() == Join(q, n)
    {
      Stripes(replicas, code.d, n)
    }
  }

  /** Where the bytes are: replica k of a data strip holds, for stripe s, piece k of that stripe. */
  lemma ReplicaHolds(o: ErasureObject, k: nat, s: nat)
    requires o.Valid() && k < o.code.d && s < o.n
    ensures var at := STRIPE_SIZE * s + o.size * k;
      at + o.size <= STRIPE_SIZE * o.n && k < |o.replicas| && s < |o.replicas[k]| &&
      o.replicas[k][s] == o.Contents()[at..at + o.size]
  {
    hide IsCodeword, Join, Fec.Valid;
    o.code.Sizes();
    var d, size, c := o.code.d, o.size, o.Contents();
    var stripe, row := Stripes(o.replicas, d, o.n)[s], DataRow(o.replicas, d, s);
    o.Parts(s, s + 1);
    OneJoined(Stripes(o.replicas, d, o.n), s);
    assert stripe == c[STRIPE_SIZE * s..STRIPE_SIZE * (s + 1)];
    JoinSlice(row, size, k, k + 1);
    OneJoined(row, k);
    assert o.replicas[k][s] == stripe[size * k..size * (k + 1)];
    SliceOfSlice(c, STRIPE_SIZE * s, STRIPE_SIZE * (s + 1), size * k, size * (k + 1));
    Distribute(size, k + 1);
  }

  lemma OneJoined(qs: seq<Strip>, i: nat)
    requires i < |qs|
    ensures Join(qs[i..i + 1], 1) == qs[i]
  {
    assert Join(qs[i..i + 1], 0) == [];
  }

  lemma ShortOverFull(c: Strip, off: nat, full: Strip, data: Strip)
    requires |c| % STRIPE_SIZE == 0 && off % STRIPE_SIZE == 0 && off + STRIPE_SIZE <= |c|
    requires |full| == STRIPE_SIZE && 0 < |data| < STRIPE_SIZE
    ensures Written(Written(c, off, full), off, data)[off..off + STRIPE_SIZE] == data + Zeroes(STRIPE_SIZE - |data|)
  {
    hide Patched;
    assert Spill(off, |full|) == [] && Spill(off, |data|) == Zeroes(STRIPE_SIZE - |data|);
  }

  /** A new object, a full stripe written, and then a shorter piece at its beginning: behind the piece
      the stripe reads as zeros, whatever had been written there. */
  method ShortWriteLosesData(code: Fec, n: nat, size: nat, s: nat, full: Strip, data: Strip) returns (got: Strip)
    requires code.Valid() && code.d <= 255 && code.dp - code.d <= 255 && size * code.d == STRIPE_SIZE
    requires s < n && |full| == STRIPE_SIZE && 0 < |data| < STRIPE_SIZE
    ensures got == data + Zeroes(STRIPE_SIZE - |data|)
    ensures got == data + full[|data|..] <==> forall x :: |data| <= x < STRIPE_SIZE ==> full[x] == ZERO
  {
    hide Fec.Valid, ErasureObject.Valid, ErasureObject.Contents, Patched;
    var off := STRIPE_SIZE * s;
    assert off % STRIPE_SIZE == 0 && off + STRIPE_SIZE <= STRIPE_SIZE * n;
    var obj := new ErasureObject(code, n, size);
    ShortOverFull(obj.Contents(), off, full, data);
    obj.Write(off, full);
    obj.Write(off, data);
    got := obj.Read(off, STRIPE_SIZE);
    RestIsZero(full, data);
  }

  lemma RestIsZero(full: Strip, data: Strip)
    requires |data| <= |full|
    ensures data + Zeroes(|full| - |data|) == data + full[|data|..] <==>
      forall x :: |data| <= x < |full| ==> full[x] == ZERO
  {
    var p, q := data + Zeroes(|full| - |data|), data + full[|data|..];
    forall x | |data| <= x < |full| ensures p[x] == ZERO && q[x] == full[x] {}
    forall x | 0 <= x < |data| ensures p[x] == q[x] {}
  }

  lemma SliceOfSlice(c: Strip, lo: nat, hi: nat, a: nat, b: nat)
    requires lo <= hi <= |c| && a <= b <= hi - lo
    ensures c[lo..hi][a..b] == c[lo + a..lo + b]
  {
    assert forall t :: 0 <= t < b - a ==> c[lo..hi][a..b][t] == c[lo + a..lo + b][t];
  }

  lemma WholeJoin(a: seq<Strip>, b: seq<Strip>, c: seq<Strip>, q: seq<Strip>)
    requires q == a + b + c
    ensures Join(q, |q|) == Join(a, |a|) + Join(b, |b|) + Join(c, |c|)
  {
    JoinBoth(a + b, c);
    JoinBoth(a, b);
  }

  lemma JoinBoth(a: seq<Strip>, b: seq<Strip>)
    ensures Join(a + b, |a + b|) == Join(a, |a|) + Join(b, |b|)
  {
    assert |a + b| == |a| + |b|;
    JoinConcat(a, b, |b|);
  }
}
