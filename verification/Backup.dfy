/** Incremental backup of a vdi between two snapshots and its restore (dog/vdi.c). Objects are
    sequences of sectors; 0 is the sector of zeros. */
module Backup {
  import opened Sequences

  type Object = seq<nat>

  const FORMAT_VERSION: nat := 1
  const MAGIC: nat := 0x11921192
  const UINT32_MAX: nat := 0xffff_ffff

  /** The objects a snapshot has, by index. */
  type Vdi = map<nat, Object>

  function Blank(size: nat): (o: Object)
    ensures |o| == size && forall i :: 0 <= i < size ==> o[i] == 0
  {
    seq(size, _ => 0)
  }

  /** What is read at an index; an unallocated object reads as zeros. */
  function Read(v: Vdi, idx: nat, size: nat): (o: Object) { if idx in v then v[idx] else Blank(size) }

  ghost predicate Sized(v: Vdi, size: nat) { forall i :: i in v ==> |v[i]| == size }

  /** Sectors [offset, offset + |data|) of the object at idx. */
  datatype Record = Record(idx: nat, offset: nat, data: Object)

  datatype Item = Header(version: nat, magic: nat) | Chunk(record: Record)

  /** The end marker is a record without data for an index that no object has. */
  const END := Chunk(Record(UINT32_MAX, 0, []))

  /** The range left after equal sectors at both ends are discarded; what is discarded is equal, and
      what is left differs at both ends. */
  ghost predicate IsCompact(to: Object, from: Object, offset: nat, length: nat) {
    |to| == |from| && offset + length <= |to| &&
    (forall i :: 0 <= i < |to| && !(offset <= i < offset + length) ==> to[i] == from[i]) &&
    (length > 0 ==> to[offset] != from[offset] && to[offset + length - 1] != from[offset + length - 1])
  }

  method CompactObjBackup(to: Object, from: Object) returns (offset: nat, length: nat)
    requires |to| == |from|
    ensures IsCompact(to, from, offset, length)
  {
    offset, length := 0, |to|;
    while length > 0 && to[offset] == from[offset]
      invariant offset + length == |to| && forall i :: 0 <= i < offset ==> to[i] == from[i]
    {
      offset, length := offset + 1, length - 1;
    }
    var last := |to| - 1;
    while length > 0 && to[last] == from[last]
      invariant offset + length <= |to| && last == offset + length - 1
      invariant forall i :: 0 <= i < offset || offset + length <= i < |to| ==> to[i] == from[i]
      invariant length > 0 ==> to[offset] != from[offset]
    {
      last, length := last - 1, length - 1;
    }
  }

  /** The range is determined by the two objects. */
  lemma CompactUnique(to: Object, from: Object, o: nat, l: nat, o': nat, l': nat)
    requires IsCompact(to, from, o, l) && IsCompact(to, from, o', l') && l > 0
    ensures o == o' && l == l'
  {
    assert to[o] != from[o] && to[o + l - 1] != from[o + l - 1];
    if l' > 0 { assert to[o'] != from[o'] && to[o' + l' - 1] != from[o' + l' - 1]; }
  }

  /** Writing the compacted range over the old object gives the new one. */
  lemma CompactRestores(to: Object, from: Object, offset: nat, length: nat)
    requires IsCompact(to, from, offset, length)
    ensures Patched(from, offset, to[offset..offset + length]) == to
    ensures length == 0 ==> from == to
  {}

  // ---- backup

  /** The stream for the objects below n. */
  ghost predicate IsBackup(from: Vdi, to: Vdi, size: nat, n: nat, recs: seq<Record>) {
    (forall k :: 0 <= k < |recs| ==> recs[k].idx < n && IsRecord(from, to, size, recs[k])) &&
    (forall j, k :: 0 <= j < k < |recs| ==> recs[j].idx < recs[k].idx) &&
    (forall i :: 0 <= i < n && Read(from, i, size) != Read(to, i, size) ==>
      exists k :: 0 <= k < |recs| && recs[k].idx == i)
  }

  ghost predicate IsRecord(from: Vdi, to: Vdi, size: nat, r: Record) {
    var t, f := Read(to, r.idx, size), Read(from, r.idx, size);
    r.data != [] && IsCompact(t, f, r.offset, |r.data|) && r.data == t[r.offset..r.offset + |r.data|]
  }

  method GetObjBackup(from: Vdi, to: Vdi, idx: nat, size: nat) returns (r: Record)
    requires Sized(from, size) && Sized(to, size)
    ensures r.idx == idx && (r.data != [] ==> IsRecord(from, to, size, r))
    ensures r.data == [] ==> Read(from, idx, size) == Read(to, idx, size)
  {
    var t, f := Read(to, idx, size), Read(from, idx, size);
    var offset, length := CompactObjBackup(t, f);
    CompactRestores(t, f, offset, length);
    r := Record(idx, offset, t[offset..offset + length]);
  }

  method VdiBackup(from: Vdi, to: Vdi, size: nat, n: nat) returns (stream: seq<Item>, ghost recs: seq<Record>)
    requires Sized(from, size) && Sized(to, size) && n <= UINT32_MAX
    ensures IsBackup(from, to, size, n, recs)
    ensures IsStream(stream, recs)
    ensures |stream| >= 2 && stream[0] == Header(FORMAT_VERSION, MAGIC) && stream[|stream| - 1] == END
  {
    stream, recs := [Header(FORMAT_VERSION, MAGIC)], [];
    for idx := 0 to n
      invariant IsBackup(from, to, size, idx, recs) && IsStream(stream + [END], recs)
    {
      if idx !in to && idx !in from {
        BackupNone(from, to, size, idx, recs);
        continue;
      }
      var r := GetObjBackup(from, to, idx, size);
      if r.data == [] {
        BackupNone(from, to, size, idx, recs);
        continue;
      }
      BackupOne(from, to, size, idx, recs, r);
      assert IsStream(stream + [Chunk(r)] + [END], recs + [r]) by { StreamOne(stream, recs, r); }
      stream, recs := stream + [Chunk(r)], recs + [r];
    }
    stream := stream + [END];
  }

  /** A header, the records in order, and the end marker. */
  ghost predicate IsStream(stream: seq<Item>, recs: seq<Record>) {
    |stream| == |recs| + 2 && stream[0] == Header(FORMAT_VERSION, MAGIC) && stream[|recs| + 1] == END &&
    forall k {:trigger stream[k]} :: 1 <= k <= |recs| ==> stream[k] == Chunk(recs[k - 1])
  }

  lemma StreamOne(stream: seq<Item>, recs: seq<Record>, r: Record)
    requires IsStream(stream + [END], recs)
    ensures IsStream(stream + [Chunk(r)] + [END], recs + [r])
  {
    var s, t := stream + [END], stream + [Chunk(r)] + [END];
    forall k | 1 <= k <= |recs| + 1
      ensures t[k] == Chunk((recs + [r])[k - 1])
    {
      assert k <= |recs| ==> s[k] == Chunk(recs[k - 1]);
    }
    assert s[0] == t[0];
  }

  lemma BackupNone(from: Vdi, to: Vdi, size: nat, idx: nat, recs: seq<Record>)
    requires IsBackup(from, to, size, idx, recs) && Read(from, idx, size) == Read(to, idx, size)
    ensures IsBackup(from, to, size, idx + 1, recs)
  {}

  lemma BackupOne(from: Vdi, to: Vdi, size: nat, idx: nat, recs: seq<Record>, r: Record)
    requires IsBackup(from, to, size, idx, recs) && r.idx == idx && IsRecord(from, to, size, r)
    ensures IsBackup(from, to, size, idx + 1, recs + [r])
  {
    hide IsRecord;
    var recs' := recs + [r];
    forall i | 0 <= i < idx + 1 && Read(from, i, size) != Read(to, i, size)
      ensures exists k :: 0 <= k < |recs'| && recs'[k].idx == i
    {
      if i < idx {
        var k :| 0 <= k < |recs| && recs[k].idx == i;
        assert recs'[k].idx == i;
      } else {
        assert recs'[|recs|].idx == i;
      }
    }
  }

  // ---- restore

  /** A copy-on-write of the record into the new vdi, on top of its parent's object. */
  function Restored(v: Vdi, parent: Vdi, r: Record, size: nat): (v': Vdi)
    requires r.offset + |r.data| <= size && Sized(parent, size)
  {
    v[r.idx := Patched(Read(parent, r.idx, size), r.offset, r.data)]
  }

  /** The new vdi reads its own object where it has one, else its parent's. */
  function ReadChild(v: Vdi, parent: Vdi, idx: nat, size: nat): (o: Object) {
    if idx in v then v[idx] else Read(parent, idx, size)
  }

  ghost predicate Fits(recs: seq<Record>, size: nat) {
    forall k :: 0 <= k < |recs| ==> recs[k].offset + |recs[k].data| <= size
  }

  ghost function RestoredAll(parent: Vdi, recs: seq<Record>, n: nat, size: nat): (v: Vdi)
    requires n <= |recs| && Fits(recs, size) && Sized(parent, size)
  {
    if n == 0 then map[] else Restored(RestoredAll(parent, recs, n - 1, size), parent, recs[n - 1], size)
  }

  /** What a restore leaves: a failed one has created the new vdi all the same. */
  datatype Outcome = Done(vdi: Vdi) | Corrupted | Truncated(vdi: Vdi)

  predicate IsEnd(item: Item) { item.Chunk? && item.record.idx == UINT32_MAX }

  /** The records from position i up to the first item that is an end marker or no record. */
  ghost function Leading(stream: seq<Item>, i: nat): (recs: seq<Record>)
    requires i <= |stream|
    ensures i + |recs| <= |stream| && forall k :: 0 <= k < |recs| ==> stream[i + k] == Chunk(recs[k])
    decreases |stream| - i
  {
    if i == |stream| || stream[i].Header? || IsEnd(stream[i]) then [] else [stream[i].record] + Leading(stream, i + 1)
  }

  ghost predicate StreamFits(stream: seq<Item>, size: nat) {
    forall k :: 0 <= k < |stream| && stream[k].Chunk? ==> stream[k].record.offset + |stream[k].record.data| <= size
  }

  lemma LeadingFits(stream: seq<Item>, i: nat, size: nat)
    requires i <= |stream| && StreamFits(stream, size)
    ensures Fits(Leading(stream, i), size)
  {
    var recs := Leading(stream, i);
    forall k | 0 <= k < |recs|
      ensures recs[k].offset + |recs[k].data| <= size
    {
      assert stream[i + k] == Chunk(recs[k]);
    }
  }

  /** Reads any stream: a wrong header restores nothing; otherwise the records before the first end
      marker or gap are restored, and it is an error if no end marker follows them. */
  method DoRestore(stream: seq<Item>, parent: Vdi, size: nat) returns (r: Outcome)
    requires Sized(parent, size) && StreamFits(stream, size)
    ensures r.Corrupted? <==> |stream| == 0 || stream[0] != Header(FORMAT_VERSION, MAGIC)
    ensures !r.Corrupted? ==>
      var recs := Leading(stream, 1);
      Fits(recs, size) && r.vdi == RestoredAll(parent, recs, |recs|, size) &&
      (r.Done? <==> 1 + |recs| < |stream| && IsEnd(stream[1 + |recs|]))
  {
    hide Patched, Restored, Leading, Sized;
    if |stream| == 0 || stream[0] != Header(FORMAT_VERSION, MAGIC) { return Corrupted; }
    ghost var recs := Leading(stream, 1);
    LeadingFits(stream, 1, size);
    var v: Vdi := map[];
    var i := 1;
    while i < |stream|
      invariant 1 <= i <= 1 + |recs| && recs[i - 1..] == Leading(stream, i)
      invariant v == RestoredAll(parent, recs, i - 1, size)
    {
      LeadingNext(stream, i, recs);
      if stream[i].Header? { return Truncated(v); }
      var rec := stream[i].record;
      if rec.idx == UINT32_MAX { return Done(v); }
      v := Restored(v, parent, rec, size);
      i := i + 1;
    }
    LeadingNext(stream, i, recs);
    return Truncated(v);
  }

  lemma LeadingNext(stream: seq<Item>, i: nat, recs: seq<Record>)
    requires 1 <= i <= |stream| && i - 1 <= |recs| && recs[i - 1..] == Leading(stream, i)
    ensures i == |stream| || stream[i].Header? || IsEnd(stream[i]) <==> i - 1 == |recs|
    ensures i - 1 < |recs| ==> stream[i] == Chunk(recs[i - 1]) && recs[i..] == Leading(stream, i + 1)
  {
    if i - 1 < |recs| {
      assert recs[i - 1] == recs[i - 1..][0];
      assert recs[i..] == recs[i - 1..][1..];
    }
  }

  /** Of a backup stream that breaks off after m items beside the header, exactly the records among
      them are read, and all of them when none is missing. */
  lemma {:induction false} LeadingOfBackup(stream: seq<Item>, recs: seq<Record>, m: nat, i: nat)
    requires IsStream(stream, recs) && 1 <= i <= m + 1 <= |stream|
    requires forall k :: 0 <= k < |recs| ==> recs[k].idx < UINT32_MAX
    ensures i - 1 <= |recs| ==> Leading(stream[..m + 1], i) == recs[i - 1..if m < |recs| then m else |recs|]
    decreases m - i
  {
    if i <= m && i <= |recs| {
      assert stream[..m + 1][i] == Chunk(recs[i - 1]);
      LeadingOfBackup(stream, recs, m, i + 1);
    }
  }

  lemma {:induction false} RestoredHas(parent: Vdi, recs: seq<Record>, n: nat, size: nat, i: nat)
    requires n <= |recs| && Fits(recs, size) && Sized(parent, size)
    ensures i in RestoredAll(parent, recs, n, size) <==> exists k :: 0 <= k < n && recs[k].idx == i
  {
    hide Patched, Sized;
    if n > 0 { RestoredHas(parent, recs, n - 1, size, i); }
  }

  lemma {:induction false} RestoredAt(parent: Vdi, recs: seq<Record>, n: nat, size: nat, k: nat)
    requires k < n <= |recs| && Fits(recs, size) && Sized(parent, size)
    requires forall j :: k < j < |recs| ==> recs[j].idx != recs[k].idx
    ensures recs[k].idx in RestoredAll(parent, recs, n, size)
    ensures RestoredAll(parent, recs, n, size)[recs[k].idx] ==
      Patched(Read(parent, recs[k].idx, size), recs[k].offset, recs[k].data)
  {
    hide Patched, Sized;
    if k < n - 1 { RestoredAt(parent, recs, n - 1, size, k); }
  }

  lemma BackupFits(from: Vdi, to: Vdi, size: nat, n: nat, recs: seq<Record>)
    requires Sized(from, size) && Sized(to, size) && IsBackup(from, to, size, n, recs)
    ensures Fits(recs, size)
  {
    forall k | 0 <= k < |recs|
      ensures recs[k].offset + |recs[k].data| <= size
    {
      assert IsRecord(from, to, size, recs[k]);
    }
  }

  /** Restoring a backup onto the older snapshot gives the newer one: every object below the count
      reads as in it, and the others as in the older. */
  lemma RoundTrip(from: Vdi, to: Vdi, size: nat, n: nat, recs: seq<Record>, i: nat)
    requires Sized(from, size) && Sized(to, size) && IsBackup(from, to, size, n, recs)
    ensures Fits(recs, size)
    ensures ReadChild(RestoredAll(from, recs, |recs|, size), from, i, size) == if i < n then Read(to, i, size)
      else Read(from, i, size)
  {
    hide Patched, RestoredAll, IsCompact, IsBackup;
    BackupFits(from, to, size, n, recs);
    assert forall j, k :: 0 <= j < k < |recs| ==> recs[j].idx < recs[k].idx by { Ordered(from, to, size, n, recs); }
    RestoredHas(from, recs, |recs|, size, i);
    if k :| 0 <= k < |recs| && recs[k].idx == i {
      RestoredAt(from, recs, |recs|, size, k);
      Recorded(from, to, size, n, recs, k);
      CompactRestores(Read(to, i, size), Read(from, i, size), recs[k].offset, |recs[k].data|);
    } else if i < n {
      Unrecorded(from, to, size, n, recs, i);
    }
  }

  /** Restoring a backup that breaks off after m records gives the newer snapshot below the first record
      that is missing and the older one from there on. */
  lemma TruncatedRestore(from: Vdi, to: Vdi, size: nat, n: nat, recs: seq<Record>, m: nat, i: nat)
    requires Sized(from, size) && Sized(to, size) && IsBackup(from, to, size, n, recs) && m < |recs|
    ensures Fits(recs[..m], size)
    ensures ReadChild(RestoredAll(from, recs[..m], m, size), from, i, size) ==
      Read(if i < recs[m].idx then to else from, i, size)
  {
    PrefixBackup(from, to, size, n, recs, m);
    RoundTrip(from, to, size, recs[m].idx, recs[..m], i);
  }

  lemma PrefixBackup(from: Vdi, to: Vdi, size: nat, n: nat, recs: seq<Record>, m: nat)
    requires IsBackup(from, to, size, n, recs) && m < |recs|
    ensures IsBackup(from, to, size, recs[m].idx, recs[..m])
  {
    hide IsRecord;
    forall i | 0 <= i < recs[m].idx && Read(from, i, size) != Read(to, i, size)
      ensures exists k :: 0 <= k < m && recs[..m][k].idx == i
    {
      var k :| 0 <= k < |recs| && recs[k].idx == i;
      assert k < m && recs[..m][k].idx == i;
    }
  }

  lemma Ordered(from: Vdi, to: Vdi, size: nat, n: nat, recs: seq<Record>)
    requires IsBackup(from, to, size, n, recs)
    ensures forall j, k :: 0 <= j < k < |recs| ==> recs[j].idx < recs[k].idx
  {}

  lemma Recorded(from: Vdi, to: Vdi, size: nat, n: nat, recs: seq<Record>, k: nat)
    requires IsBackup(from, to, size, n, recs) && k < |recs|
    ensures recs[k].idx < n && IsRecord(from, to, size, recs[k])
  {}

  lemma Unrecorded(from: Vdi, to: Vdi, size: nat, n: nat, recs: seq<Record>, i: nat)
    requires IsBackup(from, to, size, n, recs) && i < n && !exists k :: 0 <= k < |recs| && recs[k].idx == i
    ensures Read(from, i, size) == Read(to, i, size)
  {}
}
