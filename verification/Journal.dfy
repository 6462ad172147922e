/** The journal file format of sheep/journal.c: how an entry is laid out, what a crash can leave of
    it, what the scan at start-up makes of that, and what replaying does to the store. */
module Journal {
  import opened Options

  type Bytes = seq<nat>

  const DESC_MAGIC: nat := 0xfee1900d
  const END_MARKER: nat := 0xdeadbeef
  const DESC_SIZE: nat := 508
  const MARKER_SIZE: nat := 4
  const META_SIZE: nat := DESC_SIZE + MARKER_SIZE
  const SECTOR: nat := 512

  const JF_STORE: nat := 0
  const JF_REMOVE_OBJ: nat := 2

  datatype Entry = Entry(flag: nat, oid: nat, offset: nat, create: bool, data: Bytes)

  // ---- little-endian fields

  function Le(v: nat, n: nat): (b: Bytes)
    ensures |b| == n
  {
    if n == 0 then [] else [v % 256] + Le(v / 256, n - 1)
  }

  function FromLe(b: Bytes): (v: nat) { if b == [] then 0 else b[0] + 256 * FromLe(b[1..]) }

  function Pow256(n: nat): (r: nat)
    ensures r > 0
  {
    if n == 0 then 1 else 256 * Pow256(n - 1)
  }

  lemma {:induction false} LeRoundTrip(v: nat, n: nat)
    requires v < Pow256(n)
    ensures FromLe(Le(v, n)) == v
  {
    if n > 0 {
      LeRoundTrip(v / 256, n - 1);
      assert Le(v, n)[1..] == Le(v / 256, n - 1);
    }
  }

  function Zeros(n: nat): (b: Bytes)
    ensures |b| == n && forall i :: 0 <= i < n ==> b[i] == 0
  {
    seq(n, _ => 0)
  }

  lemma {:induction false} ZerosValue(b: Bytes)
    requires forall i :: 0 <= i < |b| ==> b[i] == 0
    ensures FromLe(b) == 0
  {
    if b != [] { ZerosValue(b[1..]); }
  }

  // ---- the layout of an entry

  function RoundUp(n: nat): (r: nat)
    ensures r >= n && r % SECTOR == 0 && r < n + SECTOR
  {
    (n + (SECTOR - 1)) / SECTOR * SECTOR
  }

  /** The descriptor up to and including its size field. */
  function Fields(e: Entry): (b: Bytes)
    ensures |b| == 32
  {
    Le(DESC_MAGIC, 4) + Le(e.flag, 2) + Le(0, 2) + Le(e.oid, 8) + Le(e.offset, 8) + Le(|e.data|, 8)
  }

  function Descriptor(e: Entry): (b: Bytes)
    ensures |b| == DESC_SIZE
  {
    Fields(e) + [if e.create then 1 else 0] + Zeros(475)
  }

  function EntrySize(size: nat): (r: nat)
    ensures r >= SECTOR && r % SECTOR == 0
  {
    META_SIZE + RoundUp(size)
  }

  /** What journal_file_write() puts together: descriptor, data, padding, marker. */
  function Raw(e: Entry): (b: Bytes)
    ensures |b| == EntrySize(|e.data|)
  {
    Descriptor(e) + e.data + Zeros(RoundUp(|e.data|) - |e.data|) + Le(END_MARKER, MARKER_SIZE)
  }

  /** Values that fit their fields. */
  ghost predicate Encodable(e: Entry) {
    e.flag < Pow256(2) && e.oid < Pow256(8) && e.offset < Pow256(8) && |e.data| < Pow256(8)
  }

  // ---- reading fields back

  function Field(f: Bytes, p: nat, at: nat, n: nat): (v: nat)
    requires p + at + n <= |f|
  {
    FromLe(f[p + at..p + at + n])
  }

  /** The entry that a descriptor at p describes. */
  function Parse(f: Bytes, p: nat): (e: Entry)
    requires p + SECTOR <= |f| && p + DESC_SIZE + Field(f, p, 24, 8) <= |f|
  {
    var size := Field(f, p, 24, 8);
    Entry(Field(f, p, 4, 2), Field(f, p, 8, 8), Field(f, p, 16, 8), f[p + 32] != 0,
      f[p + DESC_SIZE..p + DESC_SIZE + size])
  }

  /** The bytes of q are at p. */
  ghost predicate At(f: Bytes, p: nat, q: Bytes) {
    p + |q| <= |f| && forall i :: 0 <= i < |q| ==> f[p + i] == q[i]
  }

  lemma AtPiece(f: Bytes, p: nat, a: Bytes, b: Bytes, c: Bytes)
    requires At(f, p, a + b + c)
    ensures At(f, p + |a|, b)
  {
    forall i | 0 <= i < |b| ensures f[p + |a| + i] == b[i] { assert f[p + (|a| + i)] == (a + b + c)[|a| + i]; }
  }

  lemma AtSlice(f: Bytes, p: nat, q: Bytes)
    requires At(f, p, q)
    ensures f[p..p + |q|] == q
  {}

  lemma FieldAt(f: Bytes, p: nat, at: nat, n: nat, v: nat)
    requires At(f, p + at, Le(v, n)) && v < Pow256(n)
    ensures Field(f, p, at, n) == v
  {
    AtSlice(f, p + at, Le(v, n));
    LeRoundTrip(v, n);
  }

  lemma FieldsAt(f: Bytes, p: nat, e: Entry, m: nat, h: nat, w: nat)
    requires m == 4 && h == 2 && w == 8 && At(f, p, Fields(e))
    ensures At(f, p, Le(DESC_MAGIC, m)) && At(f, p + 4, Le(e.flag, h)) && At(f, p + 8, Le(e.oid, w))
    ensures At(f, p + 16, Le(e.offset, w)) && At(f, p + 24, Le(|e.data|, w))
  {
    hide Le;
    var a, b, c, d, x, y := Le(DESC_MAGIC, m), Le(e.flag, h), Le(0, h), Le(e.oid, w), Le(e.offset, w), Le(|e.data|, w);
    var q := a + b + c + d + x + y;
    assert Fields(e) == q;
    assert q == [] + a + (b + c + d + x + y); AtPiece(f, p, [], a, b + c + d + x + y);
    assert q == a + b + (c + d + x + y); AtPiece(f, p, a, b, c + d + x + y);
    assert q == (a + b + c) + d + (x + y); AtPiece(f, p, a + b + c, d, x + y);
    assert q == (a + b + c + d) + x + y; AtPiece(f, p, a + b + c + d, x, y);
    assert q == (a + b + c + d + x) + y + []; AtPiece(f, p, a + b + c + d + x, y, []);
  }

  lemma MagicFits(n: nat)
    requires n == 4
    ensures DESC_MAGIC < Pow256(n) && END_MARKER < Pow256(n)
  {
    assert Pow256(n - 4) == 1 && Pow256(n - 3) == 256 && Pow256(n - 2) == 65536 && Pow256(n - 1) == 16777216;
  }

  /** What the first sector of an entry tells. */
  lemma HeadParse(f: Bytes, p: nat, e: Entry)
    requires At(f, p, Fields(e)) && Encodable(e)
    ensures Field(f, p, 0, 4) == DESC_MAGIC && Field(f, p, 4, 2) == e.flag && Field(f, p, 8, 8) == e.oid
    ensures Field(f, p, 16, 8) == e.offset && Field(f, p, 24, 8) == |e.data|
  {
    FieldsAt(f, p, e, 4, 2, 8);
    MagicFits(4);
    FieldAt(f, p, 0, 4, DESC_MAGIC); FieldAt(f, p, 4, 2, e.flag); FieldAt(f, p, 8, 8, e.oid);
    FieldAt(f, p, 16, 8, e.offset); FieldAt(f, p, 24, 8, |e.data|);
  }

  lemma RawParts(f: Bytes, p: nat, e: Entry)
    requires At(f, p, Raw(e))
    ensures At(f, p, Descriptor(e)) && At(f, p + DESC_SIZE, e.data)
    ensures At(f, p + EntrySize(|e.data|) - MARKER_SIZE, Le(END_MARKER, MARKER_SIZE))
  {
    hide Descriptor, Le;
    var d, z, m := Descriptor(e), Zeros(RoundUp(|e.data|) - |e.data|), Le(END_MARKER, MARKER_SIZE);
    assert Raw(e) == [] + d + (e.data + z + m); AtPiece(f, p, [], d, e.data + z + m);
    assert Raw(e) == d + e.data + (z + m); AtPiece(f, p, d, e.data, z + m);
    assert Raw(e) == (d + e.data + z) + m + []; AtPiece(f, p, d + e.data + z, m, []);
  }

  lemma DescriptorParts(f: Bytes, p: nat, e: Entry)
    requires At(f, p, Descriptor(e))
    ensures At(f, p, Fields(e)) && f[p + 32] == if e.create then 1 else 0
  {
    hide Fields;
    var x, c, z := Fields(e), [if e.create then 1 else 0], Zeros(475);
    assert Descriptor(e) == [] + x + (c + z); AtPiece(f, p, [], x, c + z);
    assert Descriptor(e) == x + c + z; AtPiece(f, p, x, c, z);
    assert f[p + |x| + 0] == c[0];
  }

  /** Reading back a whole entry gives the entry. */
  lemma RawParse(f: Bytes, p: nat, e: Entry)
    requires At(f, p, Raw(e)) && Encodable(e)
    ensures Field(f, p, 0, 4) == DESC_MAGIC && Field(f, p, 24, 8) == |e.data|
    ensures Field(f, p, EntrySize(|e.data|) - MARKER_SIZE, MARKER_SIZE) == END_MARKER && Parse(f, p) == e
  {
    hide Raw, Descriptor, Fields, FromLe, Le;
    RawParts(f, p, e);
    DescriptorParts(f, p, e);
    HeadParse(f, p, e);
    MagicFits(4);
    FieldAt(f, p, EntrySize(|e.data|) - MARKER_SIZE, MARKER_SIZE, END_MARKER);
    AtSlice(f, p + DESC_SIZE, e.data);
  }

  lemma AtOwn(b: Bytes)
    ensures At(b, 0, b)
  {}

  /** The buffer that is written: whole sectors, from which the entry can be read back, and with the
      marker at its end. */
  method BuildEntry(e: Entry) returns (wbuffer: Bytes)
    ensures wbuffer == Raw(e) && |wbuffer| == EntrySize(|e.data|) && |wbuffer| % SECTOR == 0
    ensures Encodable(e) ==>
      Field(wbuffer, 0, 0, 4) == DESC_MAGIC && Field(wbuffer, 0, 24, 8) == |e.data| && Parse(wbuffer, 0) == e
    ensures Encodable(e) ==> Field(wbuffer, 0, |wbuffer| - MARKER_SIZE, MARKER_SIZE) == END_MARKER
    ensures forall x :: DESC_SIZE + |e.data| <= x < |wbuffer| - MARKER_SIZE ==> wbuffer[x] == 0
  {
    hide Field, Parse, FromLe, Le, Descriptor;
    var rusize := RoundUp(|e.data|);
    wbuffer := Descriptor(e);
    wbuffer := wbuffer + e.data;
    if |e.data| < rusize {
      wbuffer := wbuffer + Zeros(rusize - |e.data|);
    } else {
      assert Zeros(0) == [];
    }
    wbuffer := wbuffer + Le(END_MARKER, MARKER_SIZE);
    AtOwn(wbuffer);
    if Encodable(e) { RawParse(wbuffer, 0, e); }
  }

  // ---- replaying

  type Store = map<nat, Bytes>

  function Max(a: nat, b: nat): (r: nat) { if a < b then b else a }

  function Extended(obj: Bytes, n: nat): (r: Bytes)
    ensures |r| == Max(|obj|, n) && forall x :: 0 <= x < |r| ==> r[x] == if x < |obj| then obj[x] else 0
  {
    if |obj| < n then obj + Zeros(n - |obj|) else obj
  }

  /** pwrite() */
  function Overwritten(obj: Bytes, at: nat, data: Bytes): (r: Bytes)
    ensures |r| == if data == [] then |obj| else Max(|obj|, at + |data|)
    ensures forall x :: 0 <= x < |r| ==>
      r[x] == if at <= x < at + |data| then data[x - at] else if x < |obj| then obj[x] else 0
  {
    if data == [] then obj
    else var o := Extended(obj, at + |data|); o[..at] + data + o[at + |data|..]
  }

  /** replay_journal_entry(); `size` gives the size to which a created object is allocated. */
  function ReplayOne(e: Entry, st: Store, size: nat -> nat): (r: Option<Store>) {
    if e.flag == JF_REMOVE_OBJ then Some(st - {e.oid})
    else if e.flag != JF_STORE then None
    else if !e.create && e.oid !in st then None
    else
      var obj := if e.oid in st then st[e.oid] else [];
      var obj := if e.create then Extended(obj, size(e.oid)) else obj;
      Some(st[e.oid := Overwritten(obj, e.offset, e.data)])
  }

  function Replay(es: seq<Entry>, n: nat, st: Store, size: nat -> nat): (r: Option<Store>)
    requires n <= |es|
  {
    if n == 0 then Some(st)
    else match Replay(es, n - 1, st, size)
      case None => None
      case Some(s) => ReplayOne(es[n - 1], s, size)
  }

  // ---- what a crash leaves

  /** The first k sectors of an entry in a file that was zeroed. */
  ghost function Persisted(e: Entry, k: nat): (b: Bytes)
    requires SECTOR * k <= EntrySize(|e.data|)
    ensures |b| == EntrySize(|e.data|)
  {
    Raw(e)[..SECTOR * k] + Zeros(EntrySize(|e.data|) - SECTOR * k)
  }

  /** Where entry i was reserved. */
  ghost function Start(es: seq<Entry>, i: nat): (p: nat)
    requires i <= |es|
    ensures p % SECTOR == 0
  {
    if i == 0 then 0
    else
      AddSectors(Start(es, i - 1), EntrySize(|es[i - 1].data|));
      Start(es, i - 1) + EntrySize(|es[i - 1].data|)
  }

  lemma AddSectors(a: nat, b: nat)
    requires a % SECTOR == 0 && b % SECTOR == 0
    ensures (a + b) % SECTOR == 0
  {}

  ghost predicate Holds(f: Bytes, e: Entry, k: nat, p: nat) {
    SECTOR * k <= EntrySize(|e.data|) && At(f, p, Persisted(e, k)) && Encodable(e)
  }

  /** Entry i is at its place as far as its first ks[i] sectors; the rest of the file is zero. */
  ghost predicate IsImage(f: Bytes, es: seq<Entry>, ks: seq<nat>) {
    |ks| == |es| && |f| % SECTOR == 0 && Start(es, |es|) <= |f| &&
    (forall i :: 0 <= i < |es| ==> Holds(f, es[i], ks[i], Start(es, i))) &&
    (forall x :: Start(es, |es|) <= x < |f| ==> f[x] == 0)
  }

  ghost predicate IsWhole(e: Entry, k: nat) { SECTOR * k == EntrySize(|e.data|) }

  /** The entries among the first n that were written in full. */
  ghost function Whole(es: seq<Entry>, ks: seq<nat>, n: nat): (r: seq<Entry>)
    requires n <= |es| == |ks|
  {
    if n == 0 then [] else Whole(es, ks, n - 1) + if IsWhole(es[n - 1], ks[n - 1]) then [es[n - 1]] else []
  }

  lemma HoldsWhole(f: Bytes, e: Entry, k: nat, p: nat)
    requires Holds(f, e, k, p) && IsWhole(e, k)
    ensures At(f, p, Raw(e))
  {
    hide Raw;
    assert Persisted(e, k) == Raw(e);
  }

  /** A started but unfinished entry shows its descriptor and no marker. */
  lemma HoldsPartly(f: Bytes, e: Entry, k: nat, p: nat)
    requires Holds(f, e, k, p) && k > 0 && !IsWhole(e, k)
    ensures Field(f, p, 0, 4) == DESC_MAGIC && Field(f, p, 24, 8) == |e.data|
    ensures Field(f, p, EntrySize(|e.data|) - MARKER_SIZE, MARKER_SIZE) == 0
  {
    HeadOf(f, e, k, p);
    HeadParse(f, p, e);
    TailOf(f, e, k, p);
    var at := p + (EntrySize(|e.data|) - MARKER_SIZE);
    ZerosValue(f[at..at + MARKER_SIZE]);
  }

  lemma HeadOf(f: Bytes, e: Entry, k: nat, p: nat)
    requires Holds(f, e, k, p) && k > 0
    ensures At(f, p, Fields(e))
  {
    hide Fields, Le;
    forall i | 0 <= i < 32 ensures f[p + i] == Fields(e)[i] {
      assert Raw(e)[i] == Descriptor(e)[i];
      assert f[p + i] == Persisted(e, k)[i];
    }
  }

  lemma TailOf(f: Bytes, e: Entry, k: nat, p: nat)
    requires Holds(f, e, k, p) && !IsWhole(e, k)
    ensures forall x :: p + EntrySize(|e.data|) - MARKER_SIZE <= x < p + EntrySize(|e.data|) ==> f[x] == 0
  {
    hide Raw;
    forall x | p + EntrySize(|e.data|) - MARKER_SIZE <= x < p + EntrySize(|e.data|) ensures f[x] == 0 {
      assert f[p + (x - p)] == Persisted(e, k)[x - p];
    }
  }

  lemma HoldsNothing(f: Bytes, e: Entry, p: nat, x: nat)
    requires Holds(f, e, 0, p) && p <= x < p + EntrySize(|e.data|)
    ensures f[x] == 0
  {
    hide Raw;
    assert f[p + (x - p)] == Persisted(e, 0)[x - p];
  }

  // ---- the scan

  lemma {:induction false} StartGrows(es: seq<Entry>, i: nat, j: nat)
    requires i <= j <= |es|
    ensures Start(es, i) <= Start(es, j) && (i < j ==> Start(es, i) + EntrySize(|es[i].data|) <= Start(es, j))
  {
    if i < j { StartGrows(es, i, j - 1); }
  }

  /** The scan stands at entry i, or in the unwritten place of entry i, or behind the last one. */
  ghost predicate Stands(es: seq<Entry>, ks: seq<nat>, f: Bytes, i: nat, p: nat) {
    i <= |es| == |ks| && p % SECTOR == 0 && p <= |f| &&
    if i < |es| then p == Start(es, i) || (ks[i] == 0 && Start(es, i) < p < Start(es, i + 1)) else Start(es, i) <= p
  }

  lemma NextSector(p: nat, q: nat)
    requires p % SECTOR == 0 && q % SECTOR == 0 && p < q
    ensures p + SECTOR <= q && (p + SECTOR) % SECTOR == 0
  {}

  lemma StandsInside(es: seq<Entry>, ks: seq<nat>, f: Bytes, i: nat, p: nat)
    requires IsImage(f, es, ks) && Stands(es, ks, f, i, p) && i < |es|
    ensures Start(es, i) <= p < Start(es, i + 1) <= |f| && Start(es, i + 1) == Start(es, i) + EntrySize(|es[i].data|)
  {
    StartGrows(es, i + 1, |es|);
  }

  lemma ImageAt(f: Bytes, es: seq<Entry>, ks: seq<nat>, i: nat)
    requires IsImage(f, es, ks) && i < |es|
    ensures |ks| == |es| && Holds(f, es[i], ks[i], Start(es, i))
  {}

  lemma BlankField(f: Bytes, p: nat, n: nat)
    requires n == 4 && p + n <= |f| && forall x :: p <= x < p + n ==> f[x] == 0
    ensures Field(f, p, 0, n) != DESC_MAGIC
  {
    ZerosValue(f[p..p + n]);
  }

  /** No descriptor is seen in a place where nothing was written. */
  lemma SeesNothing(f: Bytes, es: seq<Entry>, ks: seq<nat>, i: nat, p: nat)
    requires IsImage(f, es, ks) && Stands(es, ks, f, i, p) && p < |f| && (i < |es| ==> ks[i] == 0)
    ensures p + SECTOR <= |f| && Field(f, p, 0, 4) != DESC_MAGIC
    ensures i < |es| ==> p + SECTOR <= Start(es, i + 1)
  {
    hide Field, Holds;
    NextSector(p, |f|);
    if i < |es| {
      StandsInside(es, ks, f, i, p);
      NextSector(p, Start(es, i + 1));
      assert Holds(f, es[i], ks[i], Start(es, i));
      forall x | p <= x < p + 4 ensures f[x] == 0 { HoldsNothing(f, es[i], Start(es, i), x); }
    }
    BlankField(f, p, 4);
  }

  /** At a written entry the scan sees its descriptor, and its marker exactly when it is whole. */
  lemma SeesEntry(f: Bytes, es: seq<Entry>, ks: seq<nat>, i: nat, p: nat)
    requires IsImage(f, es, ks) && Stands(es, ks, f, i, p) && i < |es| && ks[i] > 0
    ensures p == Start(es, i) && p + EntrySize(|es[i].data|) == Start(es, i + 1) <= |f|
    ensures Field(f, p, 0, 4) == DESC_MAGIC && Field(f, p, 24, 8) == |es[i].data|
    ensures Field(f, p, EntrySize(|es[i].data|) - MARKER_SIZE, MARKER_SIZE) == END_MARKER <==> IsWhole(es[i], ks[i])
    ensures IsWhole(es[i], ks[i]) ==> Parse(f, p) == es[i]
  {
    hide Field, Holds, At, IsImage, Start, EntrySize, Raw;
    StandsInside(es, ks, f, i, p);
    ImageAt(f, es, ks, i);
    HoldsSeen(f, es[i], ks[i], p);
  }

  lemma HoldsSeen(f: Bytes, e: Entry, k: nat, p: nat)
    requires Holds(f, e, k, p) && k > 0
    ensures p + EntrySize(|e.data|) <= |f|
    ensures Field(f, p, 0, 4) == DESC_MAGIC && Field(f, p, 24, 8) == |e.data|
    ensures Field(f, p, EntrySize(|e.data|) - MARKER_SIZE, MARKER_SIZE) == END_MARKER <==> IsWhole(e, k)
    ensures IsWhole(e, k) ==> Parse(f, p) == e
  {
    hide Field, Parse, Raw, Encodable;
    if IsWhole(e, k) {
      HoldsWhole(f, e, k, p);
      RawParse(f, p, e);
    } else {
      HoldsPartly(f, e, k, p);
    }
  }

  lemma ImageSectors(f: Bytes, es: seq<Entry>, ks: seq<nat>)
    requires IsImage(f, es, ks)
    ensures |f| % SECTOR == 0
  {}

  /** After one blank sector. */
  lemma StepSector(f: Bytes, es: seq<Entry>, ks: seq<nat>, i: nat, p: nat) returns (i': nat)
    requires IsImage(f, es, ks) && Stands(es, ks, f, i, p) && p < |f| && (i < |es| ==> ks[i] == 0)
    ensures i' <= |es| && Stands(es, ks, f, i', p + SECTOR) && Whole(es, ks, i') == Whole(es, ks, i)
  {
    hide Field, Holds, IsImage, Start, EntrySize;
    SeesNothing(f, es, ks, i, p);
    ImageSectors(f, es, ks);
    NextSector(p, |f|);
    i' := i;
    if i < |es| {
      StandsInside(es, ks, f, i, p);
      if p + SECTOR == Start(es, i + 1) { i' := i + 1; }
    }
  }

  /** After one entry. */
  lemma StepEntry(f: Bytes, es: seq<Entry>, ks: seq<nat>, i: nat, p: nat)
    requires IsImage(f, es, ks) && Stands(es, ks, f, i, p) && i < |es| && ks[i] > 0
    ensures Stands(es, ks, f, i + 1, p + EntrySize(|es[i].data|))
  {
    hide Field, Parse, Holds, IsImage;
    SeesEntry(f, es, ks, i, p);
  }

  /** Wherever an entry was started, the marker is there if and only if all of it was written. */
  method JournalEntryFullWrite(f: Bytes, p: nat) returns (full: bool)
    requires p + SECTOR <= |f| && p + EntrySize(Field(f, p, 24, 8)) <= |f|
    ensures forall e: Entry, k: nat :: Holds(f, e, k, p) && k > 0 ==> (full <==> IsWhole(e, k))
  {
    hide Field, Holds, Parse, IsWhole;
    var end := p + RoundUp(Field(f, p, 24, 8)) + META_SIZE;
    var marker := Field(f, p, end - MARKER_SIZE - p, MARKER_SIZE);
    full := marker == END_MARKER;
    forall e: Entry, k: nat | Holds(f, e, k, p) && k > 0 ensures full <==> IsWhole(e, k) { HoldsSeen(f, e, k, p); }
  }

  /** The scan of a journal file replays exactly the entries that were written in full, in order,
      whatever their contents and however far each of the others got. */
  method DoRecover(f: Bytes, st: Store, size: nat -> nat, ghost es: seq<Entry>, ghost ks: seq<nat>)
    returns (r: Option<Store>)
    requires IsImage(f, es, ks)
    ensures r == Replay(Whole(es, ks, |es|), |Whole(es, ks, |es|)|, st, size)
  {
    hide Field, Parse, ReplayOne, IsWhole, IsImage, Stands, Holds, Whole, Start, Replay;
    r := Some(st);
    var p := 0;
    ghost var i: nat := 0;
    ScanStarts(f, es, ks, st, size);
    while p < |f|
      invariant i <= |es| == |ks| && Stands(es, ks, f, i, p) && r.Some?
      invariant r == Replay(Whole(es, ks, i), |Whole(es, ks, i)|, st, size)
      decreases |f| - p
    {
      if i == |es| || ks[i] == 0 { SeesNothing(f, es, ks, i, p); } else { SeesEntry(f, es, ks, i, p); }
      if Field(f, p, 0, 4) != DESC_MAGIC {
        i := StepSector(f, es, ks, i, p);
        p := p + SECTOR;
        continue;
      }
      var full := JournalEntryFullWrite(f, p);
      ImageAt(f, es, ks, i);
      StandsAt(es, ks, f, i, p);
      WholeStep(es, ks, i);
      ReplaySnoc(Whole(es, ks, i), es[i], st, size);
      if full {
        r := ReplayOne(Parse(f, p), r.value, size);
        if r.None? {
          ReplayStops(es, ks, i + 1, |es|, st, size);
          return;
        }
      }
      StepEntry(f, es, ks, i, p);
      p := p + EntrySize(Field(f, p, 24, 8));
      i := i + 1;
    }
    ScanEnds(f, es, ks, i, p);
  }

  lemma StandsAt(es: seq<Entry>, ks: seq<nat>, f: Bytes, i: nat, p: nat)
    requires IsImage(f, es, ks) && Stands(es, ks, f, i, p) && i < |es| && ks[i] > 0
    ensures p == Start(es, i)
  {
    hide Field, Parse;
    SeesEntry(f, es, ks, i, p);
  }

  lemma WholeStep(es: seq<Entry>, ks: seq<nat>, i: nat)
    requires i < |es| == |ks|
    ensures Whole(es, ks, i + 1) == if IsWhole(es[i], ks[i]) then Whole(es, ks, i) + [es[i]] else Whole(es, ks, i)
  {}

  lemma ScanStarts(f: Bytes, es: seq<Entry>, ks: seq<nat>, st: Store, size: nat -> nat)
    requires IsImage(f, es, ks)
    ensures |es| == |ks| && Stands(es, ks, f, 0, 0)
    ensures Replay(Whole(es, ks, 0), |Whole(es, ks, 0)|, st, size) == Some(st)
  {}

  /** At the end of the file no entry is left. */
  lemma ScanEnds(f: Bytes, es: seq<Entry>, ks: seq<nat>, i: nat, p: nat)
    requires IsImage(f, es, ks) && Stands(es, ks, f, i, p) && p >= |f|
    ensures i == |es|
  {
    if i < |es| { StandsInside(es, ks, f, i, p); }
  }

  lemma {:induction false} ReplayAgree(a: seq<Entry>, b: seq<Entry>, n: nat, st: Store, size: nat -> nat)
    requires n <= |a| && n <= |b| && forall i :: 0 <= i < n ==> a[i] == b[i]
    ensures Replay(a, n, st, size) == Replay(b, n, st, size)
  {
    if n > 0 { ReplayAgree(a, b, n - 1, st, size); }
  }

  lemma ReplaySnoc(es: seq<Entry>, e: Entry, st: Store, size: nat -> nat)
    ensures Replay(es + [e], |es| + 1, st, size) ==
      match Replay(es, |es|, st, size) case None => None case Some(s) => ReplayOne(e, s, size)
  {
    ReplayAgree(es, es + [e], |es|, st, size);
  }

  /** A replay that fails stays failed. */
  lemma {:induction false} ReplayStops(es: seq<Entry>, ks: seq<nat>, i: nat, n: nat, st: Store, size: nat -> nat)
    requires i <= n <= |es| == |ks| && Replay(Whole(es, ks, i), |Whole(es, ks, i)|, st, size).None?
    ensures Replay(Whole(es, ks, n), |Whole(es, ks, n)|, st, size).None?
  {
    hide ReplayOne;
    if i < n {
      ReplayStops(es, ks, i, n - 1, st, size);
      WholeStep(es, ks, n - 1);
      ReplaySnoc(Whole(es, ks, n - 1), es[n - 1], st, size);
    }
  }


  // ---- replaying over a store that has absorbed part of the log

  function Len(st: Store, o: nat): (n: nat) { if o in st then |st[o]| else 0 }
  function View(st: Store, o: nat, x: nat): (b: nat) { if o in st && x < |st[o]| then st[o][x] else 0 }

  /** The length that replaying e gives its object at least. */
  function Least(e: Entry, size: nat -> nat): (n: nat) {
    Max(if e.data == [] then 0 else e.offset + |e.data|, if e.create then size(e.oid) else 0)
  }

  ghost predicate Covers(e: Entry, x: nat) { e.offset <= x < e.offset + |e.data| }

  lemma StoreEffect(a: Entry, st: Store, size: nat -> nat, st': Store)
    requires a.flag == JF_STORE && ReplayOne(a, st, size) == Some(st')
    ensures st'.Keys == st.Keys + {a.oid} && (forall o :: o in st && o != a.oid ==> st'[o] == st[o])
    ensures Len(st', a.oid) == Max(Len(st, a.oid), Least(a, size))
    ensures forall x: nat :: View(st', a.oid, x) == if Covers(a, x) then a.data[x - a.offset] else View(st, a.oid, x)
  {}

  /** s and t differ at most in what replaying e settles. */
  ghost predicate Alike(e: Entry, size: nat -> nat, s: Store, t: Store) {
    t.Keys == s.Keys + {e.oid} && (forall o :: o in s && o != e.oid ==> s[o] == t[o]) &&
    Max(Len(s, e.oid), Least(e, size)) == Max(Len(t, e.oid), Least(e, size)) &&
    forall x: nat :: !Covers(e, x) ==> View(s, e.oid, x) == View(t, e.oid, x)
  }

  lemma AlikeStart(e: Entry, size: nat -> nat, s: Store, t: Store)
    requires e.flag == JF_STORE && ReplayOne(e, s, size) == Some(t)
    ensures Alike(e, size, s, t)
  {
    hide ReplayOne;
    StoreEffect(e, s, size, t);
  }

  lemma AlikeStep(e: Entry, a: Entry, size: nat -> nat, s: Store, t: Store, s': Store) returns (t': Store)
    requires Alike(e, size, s, t) && a.flag == JF_STORE && ReplayOne(a, s, size) == Some(s')
    ensures ReplayOne(a, t, size) == Some(t') && Alike(e, size, s', t')
  {
    t' := ReplayOne(a, t, size).value;
    AlikeAfter(e, a, size, s, t, s', t');
  }

  lemma AlikeAfter(e: Entry, a: Entry, size: nat -> nat, s: Store, t: Store, s': Store, t': Store)
    requires Alike(e, size, s, t) && a.flag == JF_STORE && ReplayOne(a, s, size) == Some(s')
    requires ReplayOne(a, t, size) == Some(t')
    ensures Alike(e, size, s', t')
  {
    hide ReplayOne, Overwritten;
    StoreEffect(a, s, size, s');
    StoreEffect(a, t, size, t');
    assert t'.Keys == s'.Keys + {e.oid};
    if a.oid != e.oid { SameOther(a, size, s, t, s', t'); }
  }

  /** Objects alike before are alike after. */
  lemma SameOther(a: Entry, size: nat -> nat, s: Store, t: Store, s': Store, t': Store)
    requires a.flag == JF_STORE && ReplayOne(a, s, size) == Some(s') && ReplayOne(a, t, size) == Some(t')
    requires (a.oid in s <==> a.oid in t) && (a.oid in s ==> s[a.oid] == t[a.oid])
    ensures s'[a.oid] == t'[a.oid]
  {}

  lemma AlikeMerge(e: Entry, size: nat -> nat, s: Store, t: Store, s': Store)
    requires e.flag == JF_STORE && Alike(e, size, s, t) && ReplayOne(e, s, size) == Some(s')
    ensures ReplayOne(e, t, size) == Some(s')
  {
    var t' := ReplayOne(e, t, size).value;
    MergeObject(e, size, s, t, s', t');
    StoreEffect(e, s, size, s');
    StoreEffect(e, t, size, t');
    assert t' == s';
  }

  lemma MergeObject(e: Entry, size: nat -> nat, s: Store, t: Store, s': Store, t': Store)
    requires e.flag == JF_STORE && Alike(e, size, s, t) && ReplayOne(e, s, size) == Some(s')
    requires ReplayOne(e, t, size) == Some(t')
    ensures e.oid in s' && e.oid in t' && s'[e.oid] == t'[e.oid]
  {
    StoreEffect(e, s, size, s');
    StoreEffect(e, t, size, t');
    hide ReplayOne, Overwritten;
    var p, q := s'[e.oid], t'[e.oid];
    assert |p| == |q|;
    forall x | 0 <= x < |p| ensures p[x] == q[x] { assert View(s', e.oid, x) == View(t', e.oid, x); }
  }

  ghost predicate StoresOnly(es: seq<Entry>) { forall i :: 0 <= i < |es| ==> es[i].flag == JF_STORE }

  lemma {:induction false} AlikeRun(es: seq<Entry>, m: nat, e: Entry, size: nat -> nat, s: Store, t: Store)
    returns (t': Store)
    requires StoresOnly(es) && m <= |es| && Alike(e, size, s, t) && Replay(es, m, s, size).Some?
    ensures Replay(es, m, t, size) == Some(t') && Alike(e, size, Replay(es, m, s, size).value, t')
  {
    hide ReplayOne, Alike;
    if m == 0 {
      t' := t;
    } else {
      t' := AlikeRun(es, m - 1, e, size, s, t);
      t' := AlikeStep(e, es[m - 1], size, Replay(es, m - 1, s, size).value, t', Replay(es, m, s, size).value);
    }
  }

  /** An entry that is replayed anyway may as well have been absorbed before. */
  lemma {:induction false} Absorb(es: seq<Entry>, n: nat, j: nat, size: nat -> nat, s: Store, t: Store)
    requires StoresOnly(es) && j < n <= |es| && Alike(es[j], size, s, t) && Replay(es, n, s, size).Some?
    ensures Replay(es, n, t, size) == Replay(es, n, s, size)
  {
    hide ReplayOne, Alike;
    if n == j + 1 {
      var t' := AlikeRun(es, j, es[j], size, s, t);
      AlikeMerge(es[j], size, Replay(es, j, s, size).value, t', Replay(es, n, s, size).value);
    } else {
      Absorb(es, n - 1, j, size, s, t);
    }
  }

  /** Replaying a log of stores over a store that has absorbed any prefix of it gives the same store
      as replaying it over the original one. */
  lemma {:induction false} ReplayIdempotent(es: seq<Entry>, k: nat, size: nat -> nat, s: Store, u: Store)
    requires StoresOnly(es) && k <= |es| && Replay(es, |es|, s, size).Some? && Replay(es, k, s, size) == Some(u)
    ensures Replay(es, |es|, u, size) == Replay(es, |es|, s, size)
  {
    hide ReplayOne, Alike;
    if k > 0 {
      var v := Replay(es, k - 1, s, size).value;
      ReplayIdempotent(es, k - 1, size, s, v);
      AlikeStart(es[k - 1], size, v, u);
      Absorb(es, |es|, k - 1, size, v, u);
    }
  }

  // ---- when replaying fails

  /** Object o exists once the first n entries have been replayed. */
  ghost predicate Present(es: seq<Entry>, n: nat, o: nat, s: Store)
    requires n <= |es|
  {
    if n == 0 then o in s
    else if es[n - 1].oid != o then Present(es, n - 1, o, s)
    else if es[n - 1].flag == JF_REMOVE_OBJ then false
    else es[n - 1].create || Present(es, n - 1, o, s)
  }

  /** Entry i has an unknown flag, or writes without creating to an object that is not there. */
  ghost predicate Bad(es: seq<Entry>, i: nat, s: Store)
    requires i < |es|
  {
    es[i].flag != JF_REMOVE_OBJ && (es[i].flag != JF_STORE || (!es[i].create && !Present(es, i, es[i].oid, s)))
  }

  lemma {:induction false} PresentIs(es: seq<Entry>, n: nat, o: nat, s: Store, size: nat -> nat)
    requires n <= |es| && Replay(es, n, s, size).Some?
    ensures o in Replay(es, n, s, size).value <==> Present(es, n, o, s)
  {
    if n > 0 { PresentIs(es, n - 1, o, s, size); }
  }

  /** Replaying fails if and only if some entry is bad. */
  lemma {:induction false} ReplayFails(es: seq<Entry>, n: nat, s: Store, size: nat -> nat)
    requires n <= |es|
    ensures Replay(es, n, s, size).None? <==> exists i :: 0 <= i < n && Bad(es, i, s)
  {
    if n > 0 {
      ReplayFails(es, n - 1, s, size);
      if Replay(es, n - 1, s, size).Some? {
        PresentIs(es, n - 1, es[n - 1].oid, s, size);
        assert ReplayOne(es[n - 1], Replay(es, n - 1, s, size).value, size).None? <==> Bad(es, n - 1, s);
      }
    }
  }

  // ---- the same with removals

  /** Object o is the same in both stores. */
  ghost predicate SameAt(o: nat, a: Store, b: Store) { (o in a <==> o in b) && (o in a ==> a[o] == b[o]) }

  lemma SameStep(e: Entry, o: nat, a: Store, b: Store, size: nat -> nat)
    requires SameAt(o, a, b)
    ensures e.oid == o ==> (ReplayOne(e, a, size).Some? <==> ReplayOne(e, b, size).Some?)
    ensures ReplayOne(e, a, size).Some? && ReplayOne(e, b, size).Some? ==>
      SameAt(o, ReplayOne(e, a, size).value, ReplayOne(e, b, size).value)
    ensures e.oid != o && ReplayOne(e, a, size).Some? ==> SameAt(o, ReplayOne(e, a, size).value, b)
  {}

  /** The entries for object o among the first n. */
  function Only(es: seq<Entry>, n: nat, o: nat): (q: seq<Entry>)
    requires n <= |es|
  {
    if n == 0 then [] else Only(es, n - 1, o) + if es[n - 1].oid == o then [es[n - 1]] else []
  }

  lemma {:induction false} OnlyPrefix(es: seq<Entry>, k: nat, n: nat, o: nat)
    requires k <= n <= |es|
    ensures |Only(es, k, o)| <= |Only(es, n, o)| && Only(es, k, o) == Only(es, n, o)[..|Only(es, k, o)|]
  {
    if k < n { OnlyPrefix(es, k, n - 1, o); }
  }

  lemma {:induction false} OnlyEntries(es: seq<Entry>, n: nat, o: nat, i: nat)
    requires n <= |es| && i < |Only(es, n, o)|
    ensures Only(es, n, o)[i].oid == o && exists k :: 0 <= k < n && es[k] == Only(es, n, o)[i]
  {
    if i < |Only(es, n - 1, o)| { OnlyEntries(es, n - 1, o, i); }
  }

  /** What becomes of an object depends on its own entries alone. */
  lemma {:induction false} OnlyMatters(es: seq<Entry>, n: nat, o: nat, a: Store, b: Store, size: nat -> nat)
    requires n <= |es| && SameAt(o, a, b) && Replay(es, n, a, size).Some?
    ensures var q := Only(es, n, o);
      Replay(q, |q|, b, size).Some? && SameAt(o, Replay(es, n, a, size).value, Replay(q, |q|, b, size).value)
  {
    hide ReplayOne, SameAt;
    if n > 0 {
      OnlyMatters(es, n - 1, o, a, b, size);
      var q, e := Only(es, n - 1, o), es[n - 1];
      SameStep(e, o, Replay(es, n - 1, a, size).value, Replay(q, |q|, b, size).value, size);
      if e.oid == o {
        assert Only(es, n, o) == q + [e];
        ReplaySnoc(q, e, b, size);
      } else {
        assert Only(es, n, o) == q;
      }
    }
  }

  /** Past its last removal an object no longer depends on what it was. */
  lemma {:induction false} RemovalForgets(es: seq<Entry>, n: nat, r: nat, a: Store, b: Store, size: nat -> nat)
    requires r < n <= |es| && es[r].flag == JF_REMOVE_OBJ && Replay(es, n, a, size).Some?
    requires Replay(es, n, b, size).Some?
    ensures SameAt(es[r].oid, Replay(es, n, a, size).value, Replay(es, n, b, size).value)
  {
    hide ReplayOne, SameAt;
    var u, v := Replay(es, n - 1, a, size).value, Replay(es, n - 1, b, size).value;
    if n > r + 1 {
      RemovalForgets(es, n - 1, r, a, b, size);
      SameStep(es[n - 1], es[r].oid, u, v, size);
    } else {
      RemovedSame(es[r], u, v, size);
    }
  }

  lemma RemovedSame(e: Entry, a: Store, b: Store, size: nat -> nat)
    requires e.flag == JF_REMOVE_OBJ
    ensures ReplayOne(e, a, size).Some? && ReplayOne(e, b, size).Some?
    ensures SameAt(e.oid, ReplayOne(e, a, size).value, ReplayOne(e, b, size).value)
  {}

  lemma StoredSame(es: seq<Entry>, k: nat, o: nat, size: nat -> nat, s: Store, u: Store)
    requires k <= |es| && Replay(es, |es|, s, size).Some? && Replay(es, k, s, size) == Some(u)
    requires Replay(es, |es|, u, size).Some?
    requires forall i :: 0 <= i < |es| && es[i].oid == o ==> es[i].flag != JF_REMOVE_OBJ
    ensures SameAt(o, Replay(es, |es|, u, size).value, Replay(es, |es|, s, size).value)
  {
    hide ReplayOne;
    var q, c := Only(es, |es|, o), |Only(es, k, o)|;
    assert StoresOnly(q) by { OnlyStores(es, o, s, size); }
    OnlyPrefix(es, k, |es|, o);
    OnlyMatters(es, k, o, s, s, size);
    OnlyMatters(es, |es|, o, s, s, size);
    ReplayAgree(Only(es, k, o), q, c, s, size);
    var v := Replay(q, c, s, size).value;
    ReplayIdempotent(q, c, size, s, v);
    OnlyMatters(es, |es|, o, u, v, size);
  }

  lemma OnlyStores(es: seq<Entry>, o: nat, s: Store, size: nat -> nat)
    requires Replay(es, |es|, s, size).Some?
    requires forall i :: 0 <= i < |es| && es[i].oid == o ==> es[i].flag != JF_REMOVE_OBJ
    ensures StoresOnly(Only(es, |es|, o))
  {
    ReplayFails(es, |es|, s, size);
    var q := Only(es, |es|, o);
    forall i | 0 <= i < |q| ensures q[i].flag == JF_STORE {
      OnlyEntries(es, |es|, o, i);
      var k :| 0 <= k < |es| && es[k] == q[i];
      assert !Bad(es, k, s);
    }
  }

  /** Replaying any log over a store that has absorbed any prefix of it either fails, if and only if an
      entry is bad for that store, or gives the same store as over the original one. */
  lemma ReplayAgain(es: seq<Entry>, k: nat, size: nat -> nat, s: Store, u: Store)
    requires k <= |es| && Replay(es, |es|, s, size).Some? && Replay(es, k, s, size) == Some(u)
    ensures Replay(es, |es|, u, size) ==
      if exists i :: 0 <= i < |es| && Bad(es, i, u) then None else Replay(es, |es|, s, size)
  {
    hide ReplayOne, Replay, Bad;
    ReplayFails(es, |es|, u, size);
    if Replay(es, |es|, u, size).Some? {
      var a, b := Replay(es, |es|, u, size).value, Replay(es, |es|, s, size).value;
      forall o: nat ensures SameAt(o, a, b) {
        if r :| 0 <= r < |es| && es[r].oid == o && es[r].flag == JF_REMOVE_OBJ {
          RemovalForgets(es, |es|, r, u, s, size);
        } else {
          StoredSame(es, k, o, size, s, u);
        }
      }
      assert a == b by { SameEverywhere(a, b); }
    }
  }

  lemma SameEverywhere(a: Store, b: Store)
    requires forall o: nat :: SameAt(o, a, b)
    ensures a == b
  {
    assert a.Keys == b.Keys by {
      forall o ensures o in a <==> o in b { assert SameAt(o, a, b); }
    }
    forall o | o in a ensures a[o] == b[o] { assert SameAt(o, a, b); }
  }

  /** With removals a replay over the absorbed log can fail: a write followed by the removal of the
      same object replays once, and not again. */
  lemma RemovedThenFails(o: nat, b: nat, s: Store, size: nat -> nat)
    requires o in s
    ensures var es := [Entry(JF_STORE, o, 0, false, [b]), Entry(JF_REMOVE_OBJ, o, 0, false, [])];
      Replay(es, 2, s, size).Some? && Replay(es, 2, Replay(es, 2, s, size).value, size).None?
  {
    var es := [Entry(JF_STORE, o, 0, false, [b]), Entry(JF_REMOVE_OBJ, o, 0, false, [])];
    assert Replay(es, 0, s, size) == Some(s);
    var s1 := ReplayOne(es[0], s, size).value;
    assert Replay(es, 1, s, size) == Some(s1);
    var s2 := s1 - {o};
    assert Replay(es, 2, s, size) == Some(s2);
    assert Replay(es, 0, s2, size) == Some(s2);
    assert Replay(es, 1, s2, size) == None;
  }

  // ---- both files

  lemma {:induction false} ReplayConcat(a: seq<Entry>, b: seq<Entry>, n: nat, st: Store, size: nat -> nat)
    requires n <= |b|
    ensures Replay(a + b, |a| + n, st, size) ==
      match Replay(a, |a|, st, size) case None => None case Some(s) => Replay(b, n, s, size)
  {
    hide ReplayOne;
    if n == 0 {
      ReplayAgree(a, a + b, |a|, st, size);
    } else {
      ReplayConcat(a, b, n - 1, st, size);
      assert (a + b)[|a| + n - 1] == b[n - 1];
    }
  }

  /** The logs a and b of files 0 and 1 in the order in which they are replayed: the file that was
      modified earlier comes first, and file 1 does when there is no telling. */
  ghost function OldThenNew(m0: nat, m1: nat, a: seq<Entry>, b: seq<Entry>): (log: seq<Entry>) {
    if m0 < m1 then a + b else b + a
  }

  method RecoverBoth(older: Bytes, newer: Bytes, st: Store, size: nat -> nat,
                     ghost es: seq<Entry>, ghost ks: seq<nat>, ghost es': seq<Entry>, ghost ks': seq<nat>)
    returns (r: Option<Store>)
    requires IsImage(older, es, ks) && IsImage(newer, es', ks')
    ensures |es| == |ks| && |es'| == |ks'|
    ensures var log := Whole(es, ks, |es|) + Whole(es', ks', |es'|);
      r == Replay(log, |log|, st, size)
  {
    hide Replay, Whole, Holds, Start;
    r := DoRecover(older, st, size, es, ks);
    ReplayConcat(Whole(es, ks, |es|), Whole(es', ks', |es'|), |Whole(es', ks', |es'|)|, st, size);
    if r.Some? { r := DoRecover(newer, r.value, size, es', ks'); }
  }

  /** After a crash at any point, with the store holding the effects of any prefix of the two logs, what
      comes out is the effect of all entries written in full in both files, or a failure if and only if
      one of them is bad for the store as it was found. */
  method CheckRecoverJournalFile(f0: Bytes, f1: Bytes, m0: nat, m1: nat, st: Store, size: nat -> nat,
                                 ghost es: seq<Entry>, ghost ks: seq<nat>, ghost es': seq<Entry>, ghost ks': seq<nat>)
    returns (r: Option<Store>)
    requires IsImage(f0, es, ks) && IsImage(f1, es', ks')
    ensures |es| == |ks| && |es'| == |ks'|
    ensures var log := OldThenNew(m0, m1, Whole(es, ks, |es|), Whole(es', ks', |es'|));
      r == Replay(log, |log|, st, size) &&
      forall k, s :: 0 <= k <= |log| && Replay(log, |log|, s, size).Some? && Replay(log, k, s, size) == Some(st) ==>
        r == if exists i :: 0 <= i < |log| && Bad(log, i, st) then None else Replay(log, |log|, s, size)
  {
    hide Replay, Whole, Holds, Start, Bad;
    if m0 < m1 {
      r := RecoverBoth(f0, f1, st, size, es, ks, es', ks');
    } else {
      r := RecoverBoth(f1, f0, st, size, es', ks', es, ks);
    }
    ghost var log := OldThenNew(m0, m1, Whole(es, ks, |es|), Whole(es', ks', |es'|));
    forall k, s | 0 <= k <= |log| && Replay(log, |log|, s, size).Some? && Replay(log, k, s, size) == Some(st)
      ensures r == if exists i :: 0 <= i < |log| && Bad(log, i, st) then None else Replay(log, |log|, s, size)
    {
      ReplayAgain(log, k, size, s, st);
    }
  }

  /** The replay is that of the entries in the order in which they were written. */
  ghost predicate InOrder(newer: nat, m0: nat, m1: nat, a: seq<Entry>, b: seq<Entry>, s: Store, size: nat -> nat) {
    var log, got := if newer == 1 then a + b else b + a, OldThenNew(m0, m1, a, b);
    Replay(got, |got|, s, size) == Replay(log, |log|, s, size)
  }

  lemma LaterWins(o: nat, x: nat, y: nat, s: Store, size: nat -> nat)
    requires o !in s
    ensures var es := [Entry(JF_STORE, o, 0, true, [x]), Entry(JF_STORE, o, 0, true, [y])];
      Replay(es, 2, s, size).Some? && o in Replay(es, 2, s, size).value &&
      |Replay(es, 2, s, size).value[o]| > 0 && Replay(es, 2, s, size).value[o][0] == y
  {
    var es := [Entry(JF_STORE, o, 0, true, [x]), Entry(JF_STORE, o, 0, true, [y])];
    assert Replay(es, 0, s, size) == Some(s);
    assert Replay(es, 1, s, size) == ReplayOne(es[0], s, size);
  }

  /** Times of last modification have whole seconds. Whatever the logs, they are replayed in the order in
      which they were written, if and only if file 1 is not the newer one in the same second. */
  lemma MtimeExact(newer: nat, m0: nat, m1: nat, size: nat -> nat)
    requires newer <= 1 && if newer == 1 then m0 <= m1 else m1 <= m0
    ensures (forall a, b, s :: InOrder(newer, m0, m1, a, b, s, size)) <==> !(newer == 1 && m0 == m1)
  {
    if newer == 1 && m0 == m1 {
      var o, s: Store := 0, map[];
      var a, b := [Entry(JF_STORE, o, 0, true, [1])], [Entry(JF_STORE, o, 0, true, [2])];
      LaterWins(o, 1, 2, s, size);
      LaterWins(o, 2, 1, s, size);
      assert a + b == [a[0], b[0]] && b + a == [b[0], a[0]];
      assert !InOrder(newer, m0, m1, a, b, s, size);
    }
  }

  // ---- reserving a place

  /** The current file, the position in it, and the size of either file. */
  datatype Jfile = Jfile(fd: nat, pos: nat, size: nat)

  /** Under the lock: the other file is taken when there is not enough space. */
  function Reserve(j: Jfile, wsize: nat): (r: (Jfile, nat)) {
    var k := if j.pos + wsize < j.size then j else Jfile(1 - if j.fd == 0 then 0 else 1, 0, j.size);
    (k.(pos := k.pos + wsize), k.pos)
  }

  ghost function Reserved(j: Jfile, ws: seq<nat>, n: nat): (k: Jfile)
    requires n <= |ws|
  {
    if n == 0 then j else Reserve(Reserved(j, ws, n - 1), ws[n - 1]).0
  }

  /** The number of the file generation that the n-th reservation falls in. */
  ghost function Turns(j: Jfile, ws: seq<nat>, n: nat): (k: nat)
    requires n <= |ws|
  {
    if n == 0 then 0
    else
      var i := Reserved(j, ws, n - 1);
      Turns(j, ws, n - 1) + if i.pos + ws[n - 1] < i.size then 0 else 1
  }

  ghost function Place(j: Jfile, ws: seq<nat>, i: nat): (p: nat)
    requires i < |ws|
  {
    Reserve(Reserved(j, ws, i), ws[i]).1
  }

  lemma {:induction false} PlacedBelow(j: Jfile, ws: seq<nat>, i: nat, n: nat)
    requires i < n <= |ws|
    ensures Turns(j, ws, i + 1) <= Turns(j, ws, n)
    ensures Turns(j, ws, n) == Turns(j, ws, i + 1) ==> Place(j, ws, i) + ws[i] <= Reserved(j, ws, n).pos
  {
    if i + 1 < n { PlacedBelow(j, ws, i, n - 1); }
  }

  /** Two reservations in the same file, between switches, never overlap; entries that fit a file are
      placed inside it. */
  lemma ReservationsDisjoint(j: Jfile, ws: seq<nat>, i: nat, k: nat)
    requires i < k < |ws| && Turns(j, ws, i + 1) == Turns(j, ws, k + 1)
    ensures Place(j, ws, i) + ws[i] <= Place(j, ws, k)
    ensures ws[k] <= j.size ==> Place(j, ws, k) + ws[k] <= j.size
  {
    PlacedBelow(j, ws, i, k);
    SizeKept(j, ws, k);
  }

  /** A reservation stays in the file if and only if it leaves room behind it, and then follows the one
      before; otherwise it is the first in the other file. */
  lemma SwitchesExactly(j: Jfile, ws: seq<nat>, n: nat)
    requires j.fd <= 1 && n < |ws|
    ensures var a, b := Reserved(j, ws, n), Reserved(j, ws, n + 1);
      (b.fd == a.fd <==> a.pos + ws[n] < j.size) && b.fd <= 1 && b.pos == Place(j, ws, n) + ws[n] &&
      Place(j, ws, n) == if b.fd == a.fd then a.pos else 0
  {
    SizeKept(j, ws, n);
    FdIsBit(j, ws, n);
  }

  lemma {:induction false} SizeKept(j: Jfile, ws: seq<nat>, n: nat)
    requires n <= |ws|
    ensures Reserved(j, ws, n).size == j.size
  {
    if n > 0 { SizeKept(j, ws, n - 1); }
  }

  // ---- the file is looked up after the lock is released

  lemma {:induction false} FdIsBit(j: Jfile, ws: seq<nat>, n: nat)
    requires j.fd <= 1 && n <= |ws|
    ensures Reserved(j, ws, n).fd <= 1
  {
    if n > 0 { FdIsBit(j, ws, n - 1); }
  }

  /** After n reservations the file of reservation i is open if and only if an even number of switches
      came after it. */
  lemma {:induction false} FdParity(j: Jfile, ws: seq<nat>, i: nat, n: nat)
    requires j.fd <= 1 && i < n <= |ws|
    ensures Turns(j, ws, i + 1) <= Turns(j, ws, n)
    ensures Reserved(j, ws, n).fd == Reserved(j, ws, i + 1).fd <==> (Turns(j, ws, n) - Turns(j, ws, i + 1)) % 2 == 0
  {
    if i + 1 < n {
      FdParity(j, ws, i, n - 1);
      FdIsBit(j, ws, n - 1);
      FdIsBit(j, ws, i + 1);
    }
  }

  ghost predicate Overlap(p: nat, a: nat, q: nat, b: nat) { p < q + b && q < p + a }

  /** Reservation k is in the file that is open after n of them, in its present generation. */
  ghost predicate Live(j: Jfile, ws: seq<nat>, k: nat, n: nat)
    requires n <= |ws|
  {
    k < n && Turns(j, ws, k + 1) == Turns(j, ws, n)
  }

  /** From a switch on, the reservations leave no gap. */
  lemma {:induction false} Tiled(j: Jfile, ws: seq<nat>, n: nat, x: nat) returns (k: nat)
    requires n <= |ws| && Turns(j, ws, n) > 0 && x < Reserved(j, ws, n).pos
    ensures Live(j, ws, k, n) && Place(j, ws, k) <= x < Place(j, ws, k) + ws[k]
  {
    var i := Reserved(j, ws, n - 1);
    if i.pos + ws[n - 1] >= i.size || x >= i.pos {
      k := n - 1;
    } else {
      k := Tiled(j, ws, n - 1, x);
    }
  }

  /** The write of reservation i, made when n reservations have been, goes to the file it was reserved in
      if and only if the number of switches since is even. Unless that number is zero it goes to a
      generation of a file in which it has no place, and there it falls on a live entry if and only if
      that generation has come past its offset; with no switch since it falls on none. */
  lemma LandsWhereReserved(j: Jfile, ws: seq<nat>, i: nat, n: nat)
    requires j.fd <= 1 && i < n <= |ws| && ws[i] > 0
    ensures Reserved(j, ws, n).fd == Reserved(j, ws, i + 1).fd <==> (Turns(j, ws, n) - Turns(j, ws, i + 1)) % 2 == 0
    ensures Live(j, ws, i, n) ==>
      forall k :: 0 <= k < |ws| && k != i && Live(j, ws, k, n) ==>
        !Overlap(Place(j, ws, i), ws[i], Place(j, ws, k), ws[k])
    ensures !Live(j, ws, i, n) ==>
      ((exists k :: 0 <= k < |ws| && Live(j, ws, k, n) && Overlap(Place(j, ws, i), ws[i], Place(j, ws, k), ws[k])) <==>
       Place(j, ws, i) < Reserved(j, ws, n).pos)
  {
    FdParity(j, ws, i, n);
    if Live(j, ws, i, n) {
      forall k | 0 <= k < |ws| && k != i && Live(j, ws, k, n)
        ensures !Overlap(Place(j, ws, i), ws[i], Place(j, ws, k), ws[k])
      {
        LiveApart(j, ws, i, k, n);
      }
    } else {
      StrayOverlaps(j, ws, i, n);
    }
  }

  lemma LiveApart(j: Jfile, ws: seq<nat>, i: nat, k: nat, n: nat)
    requires n <= |ws| && Live(j, ws, i, n) && Live(j, ws, k, n) && i != k
    ensures !Overlap(Place(j, ws, i), ws[i], Place(j, ws, k), ws[k])
  {
    if i < k { ReservationsDisjoint(j, ws, i, k); } else { ReservationsDisjoint(j, ws, k, i); }
  }

  lemma StrayOverlaps(j: Jfile, ws: seq<nat>, i: nat, n: nat)
    requires i < n <= |ws| && ws[i] > 0 && Turns(j, ws, n) > Turns(j, ws, i + 1)
    ensures (exists k ::
      0 <= k < |ws| && Live(j, ws, k, n) && Overlap(Place(j, ws, i), ws[i], Place(j, ws, k), ws[k])) <==>
      Place(j, ws, i) < Reserved(j, ws, n).pos
  {
    if Place(j, ws, i) < Reserved(j, ws, n).pos {
      var k := Tiled(j, ws, n, Place(j, ws, i));
      assert Overlap(Place(j, ws, i), ws[i], Place(j, ws, k), ws[k]);
    } else {
      forall k | 0 <= k < |ws| && Live(j, ws, k, n) ensures !Overlap(Place(j, ws, i), ws[i], Place(j, ws, k), ws[k]) {
        PlacedBelow(j, ws, k, n);
      }
    }
  }

  /** Two switches while a write is under way bring its file back, and the write destroys the entry that
      has its place there now. */
  lemma LateWriteDestroys() returns (j: Jfile, ws: seq<nat>)
    ensures j.fd == 0 && |ws| == 3 && forall k :: 0 <= k < 3 ==> ws[k] % SECTOR == 0 && 0 < ws[k] < j.size
    ensures Reserved(j, ws, 3).fd == Reserved(j, ws, 1).fd && !Live(j, ws, 0, 3)
    ensures Live(j, ws, 2, 3) && Overlap(Place(j, ws, 0), ws[0], Place(j, ws, 2), ws[2])
  {
    j, ws := Jfile(0, 0, 5120), [2560, 3072, 3072];
    assert Reserved(j, ws, 1) == Jfile(0, 2560, 5120) && Turns(j, ws, 1) == 0 && Place(j, ws, 0) == 0;
    assert Reserved(j, ws, 2) == Jfile(1, 3072, 5120) && Turns(j, ws, 2) == 1;
    assert Reserved(j, ws, 3) == Jfile(0, 3072, 5120) && Turns(j, ws, 3) == 2 && Place(j, ws, 2) == 0;
  }

  /** The space that entries take. */
  function Sizes(es: seq<Entry>): (ws: seq<nat>)
    ensures |ws| == |es| && forall i :: 0 <= i < |es| ==> ws[i] == EntrySize(|es[i].data|)
  {
    seq(|es|, i requires 0 <= i < |es| => EntrySize(|es[i].data|))
  }

  /** In a file taken from its beginning, without a switch, the places reserved are those where the scan
      looks for entries, and all of them are within the file. */
  lemma {:induction false} PlacesAreStarts(j: Jfile, es: seq<Entry>, n: nat)
    requires j.pos == 0 && n <= |es| && Turns(j, Sizes(es), n) == 0
    ensures Reserved(j, Sizes(es), n) == j.(pos := Start(es, n)) && (n > 0 ==> Start(es, n) < j.size)
    ensures forall i :: 0 <= i < n ==> Place(j, Sizes(es), i) == Start(es, i)
  {
    if n > 0 { PlacesAreStarts(j, es, n - 1); }
  }
}
