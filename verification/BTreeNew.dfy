/** Putting new indices into a tree of lib/sd_inode.c after leaves have been split as written: the keys
    are no longer right, but a new index still finds a leaf with room. */
module BTreeNew {
  import opened Options
  import opened Sequences
  import opened BTree

  // ---- what splits as written leave behind

  /** The keys of the root are in order, and only 0 may be there more than once. */
  ghost predicate Ordered(root: seq<Indirect>) {
    forall i, k :: 0 <= i < k < |root| ==>
      root[i].idx <= root[k].idx && (root[k].idx > 0 ==> root[i].idx < root[k].idx)
  }

  /** Leaf i is a good one, and its key is its maximum, unless it is 0 and not the last. */
  ghost predicate Keyed(t: Tree, i: nat)
    requires i < |t.root|
  {
    t.root[i].oid in t.nodes && t.root[i].oid < t.counter &&
    var leaf := Leaf(t, i);
    GoodLeaf(leaf) && (t.root[i].idx > 0 || i == |t.root| - 1 ==> leaf[|leaf| - 1].idx == t.root[i].idx)
  }

  ghost predicate Loose(t: Tree) {
    0 < |t.root| <= MAX_INDIRECT && HasNodes(t) && DistinctNodes(t) && Ordered(t.root) &&
    forall i :: 0 <= i < |t.root| ==> Keyed(t, i)
  }

  ghost predicate Usable(t: Tree) {
    match t.depth
    case 2 => Loose(t)
    case _ => Valid(t)
  }

  /** No entry of the leaf is for an index from lo to hi. */
  ghost predicate LeafLacks(leaf: seq<Index>, lo: nat, hi: nat) {
    forall i :: 0 <= i < |leaf| ==> !(lo <= leaf[i].idx <= hi)
  }

  ghost predicate Lacks(t: Tree, lo: nat, hi: nat)
    requires HasNodes(t)
  {
    if t.depth == 2 then forall i :: 0 <= i < |t.root| ==> LeafLacks(Leaf(t, i), lo, hi) else LeafLacks(t.leaf, lo, hi)
  }

  lemma ValidUsable(t: Tree)
    requires Valid(t)
    ensures Usable(t) && Settable(t)
  {
    hide Sorted;
    if t.depth == 2 {
      forall i, k | 0 <= i < k < |t.root|
        ensures t.root[i].idx < t.root[k].idx
      {
        assert RootKeys(t.root)[i] < RootKeys(t.root)[k];
      }
      forall i | 0 <= i < |t.root| ensures Keyed(t, i) { assert Fits(t, i); }
    }
  }

  lemma UsableParts(t: Tree)
    requires Usable(t)
    ensures Settable(t) && HasNodes(t) && t.depth <= 2 && (t.depth == 2 ==> Loose(t))
    ensures t.depth == 1 ==> Sorted(t.leaf) && |t.leaf| <= MAX_INDEX && t.root == []
    ensures t.depth == 0 ==> t == EMPTY
  {}

  /** In a valid tree an index without an entry is in no leaf. */
  lemma ValidLacks(t: Tree, lo: nat, hi: nat)
    requires Valid(t) && HasNodes(t) && forall j :: lo <= j <= hi ==> !HasEntry(t, j)
    ensures Lacks(t, lo, hi)
  {
    hide Sorted, Found;
    if t.depth == 2 {
      forall i, q | 0 <= i < |t.root| && 0 <= q < |Leaf(t, i)| ensures !(lo <= Leaf(t, i)[q].idx <= hi) {
        var j := Leaf(t, i)[q].idx;
        assert Fits(t, i);
        LeafRange(t, i, q);
        GetIn(t, i, j);
        ValueAt(Leaf(t, i), q);
        assert HasEntry(t, j);
      }
    } else {
      forall q | 0 <= q < |t.leaf| ensures !(lo <= t.leaf[q].idx <= hi) {
        ValueAt(t.leaf, q);
        assert HasEntry(t, t.leaf[q].idx);
      }
    }
  }

  lemma LacksFound(leaf: seq<Index>, idx: nat, hi: nat)
    requires LeafLacks(leaf, idx, hi) && idx <= hi
    ensures !Found(leaf, idx)
  {
    ValueNone(leaf, idx);
  }

  lemma InsertedLacks(leaf: seq<Index>, idx: nat, vid: nat, hi: nat)
    requires LeafLacks(leaf, idx, hi)
    ensures LeafLacks(Inserted(leaf, Index(idx, vid)), idx + 1, hi)
  {
    hide Pos;
  }

  lemma InsertedGood(leaf: seq<Index>, idx: nat, vid: nat, hi: nat)
    requires GoodLeaf(leaf) && |leaf| < MAX_INDEX && LeafLacks(leaf, idx, hi) && idx <= hi
    ensures var leaf' := Inserted(leaf, Index(idx, vid));
      GoodLeaf(leaf') && LeafLacks(leaf', idx + 1, hi) &&
      leaf'[|leaf'| - 1].idx == if leaf[|leaf| - 1].idx < idx then idx else leaf[|leaf| - 1].idx
  {
    hide Inserted, Found;
    LacksFound(leaf, idx, hi);
    InsertedSorted(leaf, Index(idx, vid));
    InsertedEnds(leaf, Index(idx, vid));
    InsertedLacks(leaf, idx, vid, hi);
  }

  // ---- one leaf

  lemma LeafTurn(t: Tree, idx: nat, vid: nat, hi: nat)
    requires Valid(t) && t.depth <= 1 && HasNodes(t) && Lacks(t, idx, hi) && idx <= hi
    ensures var o := Once(AsWritten, t, idx, vid);
      !o.Panic? && Usable(o.tree) && HasNodes(o.tree) && Lacks(o.tree, if o.Done? then idx + 1 else idx, hi) &&
      o.tree.depth >= 1 && (o.Again? ==> Valid(o.tree) && o.tree.depth == 2)
  {
    hide Inserted, Found, Transferred, Usable;
    LacksFound(t.leaf, idx, hi);
    var o := Once(AsWritten, t, idx, vid);
    if o.Again? {
      TransferLacks(t, idx, hi);
    } else {
      InsertedSorted(t.leaf, Index(idx, vid));
      InsertedLacks(t.leaf, idx, vid, hi);
    }
    ValidUsable(o.tree);
  }

  lemma TransferLacks(t: Tree, lo: nat, hi: nat)
    requires t.depth == 1 && Sorted(t.leaf) && 2 <= |t.leaf| <= MAX_INDEX && t.root == [] && LeafLacks(t.leaf, lo, hi)
    ensures Rooted(Transferred(t)) && Transferred(t).depth == 2 && Lacks(Transferred(t), lo, hi)
  {
    hide AddToRoot, Sorted;
    TransferRooted(t);
    TransferredRoot(t);
    TransferredIs(t, |t.leaf| / 2);
  }

  // ---- two levels

  /** Only leaf p and its key change. */
  lemma LooseWithLeaf(t: Tree, p: nat, leaf: seq<Index>, key: nat, t': Tree)
    requires Loose(t) && p < |t.root| && GoodLeaf(leaf)
    requires t' == t.(root := t.root[p := Indirect(key, t.root[p].oid)], nodes := t.nodes[t.root[p].oid := leaf])
    requires key > 0 || p == |t.root| - 1 ==> leaf[|leaf| - 1].idx == key
    requires key == t.root[p].idx || (p == |t.root| - 1 && key > t.root[p].idx)
    ensures Loose(t')
  {
    hide Sorted;
    forall i | 0 <= i < |t'.root| ensures Keyed(t', i) { assert Keyed(t, i); }
  }

  lemma LacksWithLeaf(t: Tree, p: nat, leaf: seq<Index>, t': Tree, lo: nat, lo': nat, hi: nat)
    requires t.depth == t'.depth == 2 && HasNodes(t) && HasNodes(t') && DistinctNodes(t) && p < |t.root| == |t'.root|
    requires t'.nodes == t.nodes[t.root[p].oid := leaf]
    requires forall i :: 0 <= i < |t.root| ==> t'.root[i].oid == t.root[i].oid
    requires Lacks(t, lo, hi) && LeafLacks(leaf, lo', hi) && lo <= lo'
    ensures Lacks(t', lo', hi)
  {
    forall i | 0 <= i < |t'.root| ensures LeafLacks(Leaf(t', i), lo', hi) { assert LeafLacks(Leaf(t, i), lo, hi); }
  }

  lemma Insert(t: Tree, idx: nat, vid: nat, hi: nat, p: nat, key: nat, t': Tree)
    requires t.depth == 2 && Loose(t) && Lacks(t, idx, hi) && idx <= hi && p < |t.root| && |Leaf(t, p)| < MAX_INDEX
    requires if idx <= t.root[p].idx then key == t.root[p].idx else p == |t.root| - 1 && key == idx
    requires var leaf' := Inserted(Leaf(t, p), Index(idx, vid));
      t' == t.(root := t.root[p := Indirect(key, t.root[p].oid)], nodes := t.nodes[t.root[p].oid := leaf'])
    ensures Loose(t') && Lacks(t', idx + 1, hi)
  {
    hide Inserted, Sorted;
    var leaf' := Inserted(Leaf(t, p), Index(idx, vid));
    assert Keyed(t, p);
    InsertedGood(Leaf(t, p), idx, vid, hi);
    LooseWithLeaf(t, p, leaf', key, t');
    LacksWithLeaf(t, p, leaf', t', idx, idx + 1, hi);
  }

  lemma NewLeaf(t: Tree, idx: nat, vid: nat, hi: nat, t': Tree)
    requires t.depth == 2 && Loose(t) && Lacks(t, idx, hi) && |t.root| < MAX_INDIRECT && t.root[|t.root| - 1].idx < idx
    requires t' == t.(root := t.root + [Indirect(idx, t.counter)], nodes := t.nodes[t.counter := [Index(idx, vid)]],
      counter := t.counter + 1)
    ensures Loose(t') && Lacks(t', idx + 1, hi)
  {
    forall i | 0 <= i < |t.root|
      ensures t'.root[i].oid != t.counter && Leaf(t', i) == Leaf(t, i)
    {
      assert Keyed(t, i) && t'.root[i] == t.root[i];
    }
    forall i | 0 <= i < |t'.root| ensures Keyed(t', i) { assert i < |t.root| ==> Keyed(t, i); }
    forall i | 0 <= i < |t'.root| ensures LeafLacks(Leaf(t', i), idx + 1, hi) {
      assert i < |t.root| ==> LeafLacks(Leaf(t, i), idx, hi);
    }
  }

  lemma SplitRoot(t: Tree, p: nat)
    requires t.depth == 2 && HasNodes(t) && p < |t.root| <= MAX_INDIRECT && |Leaf(t, p)| >= 2
    ensures Split(AsWritten, t, p).root == if |t.root| < MAX_INDIRECT then [Indirect(0, t.counter)] + t.root else t.root
  {
    if |t.root| < MAX_INDIRECT { WrittenRoot(t, p); }
  }

  /** Leaf p keeps its right half; the left half is not in the root yet. */
  lemma HalvedLoose(t: Tree, p: nat, t0: Tree)
    requires Loose(t) && p < |t.root| && |Leaf(t, p)| == MAX_INDEX
    requires var leaf, n := Leaf(t, p), MAX_INDEX / 2;
      t0 == t.(nodes := t.nodes[t.counter := leaf[..n]][t.root[p].oid := leaf[n..]], counter := t.counter + 1)
    ensures Loose(t0) && t.counter in t0.nodes && GoodLeaf(t0.nodes[t.counter])
    ensures forall i :: 0 <= i < |t.root| ==> t.root[i].oid != t.counter
  {
    hide Sorted;
    assert Keyed(t, p);
    HalfLeaves(Leaf(t, p), MAX_INDEX / 2);
    forall i | 0 <= i < |t.root| ensures t.root[i].oid != t.counter && Keyed(t0, i) { assert Keyed(t, i); }
  }

  lemma FrontLoose(t: Tree, oid: nat, t': Tree)
    requires Loose(t) && |t.root| < MAX_INDIRECT && oid in t.nodes && oid < t.counter && GoodLeaf(t.nodes[oid])
    requires forall i :: 0 <= i < |t.root| ==> t.root[i].oid != oid
    requires t' == t.(root := [Indirect(0, oid)] + t.root)
    ensures Loose(t')
  {
    hide GoodLeaf;
    forall i | 0 <= i < |t'.root| ensures Keyed(t', i) { assert i > 0 ==> Keyed(t, i - 1); }
  }

  /** A split as written, with or without room in the root. */
  lemma SplitLoose(t: Tree, p: nat)
    requires t.depth == 2 && Loose(t) && p < |t.root| && |Leaf(t, p)| == MAX_INDEX
    ensures Loose(Split(AsWritten, t, p))
  {
    hide AddToRoot, Sorted, GoodLeaf;
    var leaf, t' := Leaf(t, p), Split(AsWritten, t, p);
    SplitRoot(t, p);
    var t0 := t'.(root := t.root);
    HalvedLoose(t, p, t0);
    if |t.root| < MAX_INDIRECT { FrontLoose(t0, t.counter, t'); } else { assert t' == t0; }
  }

  lemma SplitLacks(t: Tree, p: nat, lo: nat, hi: nat)
    requires t.depth == 2 && Loose(t) && p < |t.root| && |Leaf(t, p)| == MAX_INDEX && Lacks(t, lo, hi)
    ensures HasNodes(Split(AsWritten, t, p)) && Lacks(Split(AsWritten, t, p), lo, hi)
  {
    hide AddToRoot, Sorted;
    var leaf, t' := Leaf(t, p), Split(AsWritten, t, p);
    assert Keyed(t, p) && LeafLacks(leaf, lo, hi);
    SplitNodes(AsWritten, t, p);
    SplitRoot(t, p);
    forall i | 0 <= i < |t.root| ensures Keyed(t, i) && LeafLacks(Leaf(t, i), lo, hi) { assert Keyed(t, i); }
    forall i | 0 <= i < |t'.root| ensures LeafLacks(Leaf(t', i), lo, hi) {
      assert |t'.root| > |t.root| && i > 0 ==> Keyed(t, i - 1) && LeafLacks(Leaf(t, i - 1), lo, hi);
      assert |t'.root| == |t.root| ==> Keyed(t, i) && LeafLacks(Leaf(t, i), lo, hi);
    }
  }

  /** The second turn comes to one of the halves. */
  lemma SplitRoomThere(t: Tree, idx: nat)
    requires t.depth == 2 && Loose(t) && Pos(RootKeys(t.root), idx) < |t.root|
    requires |Leaf(t, Pos(RootKeys(t.root), idx))| == MAX_INDEX
    ensures var t' := Split(AsWritten, t, Pos(RootKeys(t.root), idx)); var q := Pos(RootKeys(t'.root), idx);
      HasNodes(t') && q < |t'.root| && |Leaf(t', q)| < MAX_INDEX
  {
    hide AddToRoot, Sorted;
    var p := Pos(RootKeys(t.root), idx);
    assert Keyed(t, p);
    SplitNodes(AsWritten, t, p);
    SplitRoot(t, p);
    WrittenPos(t.root, Indirect(0, t.counter), idx);
  }

  lemma RootTurn(t: Tree, idx: nat, vid: nat, hi: nat)
    requires t.depth == 2 && Loose(t) && Lacks(t, idx, hi) && idx <= hi
    ensures var o := Once(AsWritten, t, idx, vid);
      !o.Panic? ==> o.tree.depth == 2 && Loose(o.tree) && Lacks(o.tree, if o.Done? then idx + 1 else idx, hi)
    ensures var p := Pos(RootKeys(t.root), idx);
      Once(AsWritten, t, idx, vid).Again? <==> p < |t.root| && |Leaf(t, p)| == MAX_INDEX
    ensures Once(AsWritten, t, idx, vid).Panic? ==> Pos(RootKeys(t.root), idx) == |t.root|
  {
    hide Inserted, Split, Found, Sorted, Loose, Lacks;
    RootParts(t, idx, hi);
    var p, o := Pos(RootKeys(t.root), idx), Once(AsWritten, t, idx, vid);
    if p < |t.root| {
      if o.Again? {
        SplitLoose(t, p);
        SplitLacks(t, p, idx, hi);
      } else {
        assert t.root[p := Indirect(t.root[p].idx, t.root[p].oid)] == t.root;
        Insert(t, idx, vid, hi, p, t.root[p].idx, o.tree);
      }
    } else if |Leaf(t, p - 1)| < MAX_INDEX {
      AppendedKey(t, idx, vid, hi);
      Insert(t, idx, vid, hi, p - 1, idx, o.tree);
    } else if !o.Panic? {
      NewLeaf(t, idx, vid, hi, o.tree);
    }
  }

  lemma RootParts(t: Tree, idx: nat, hi: nat)
    requires t.depth == 2 && Loose(t) && Lacks(t, idx, hi) && idx <= hi
    ensures HasNodes(t) && |t.root| > 0
    ensures forall i :: 0 <= i < |t.root| ==> 0 < |Leaf(t, i)| <= MAX_INDEX && !Found(Leaf(t, i), idx)
  {
    hide Sorted, Found;
    forall i | 0 <= i < |t.root| ensures 0 < |Leaf(t, i)| <= MAX_INDEX && !Found(Leaf(t, i), idx) {
      assert Keyed(t, i);
      LacksFound(Leaf(t, i), idx, hi);
    }
  }

  lemma AppendedKey(t: Tree, idx: nat, vid: nat, hi: nat)
    requires t.depth == 2 && Loose(t) && Lacks(t, idx, hi) && idx <= hi && Pos(RootKeys(t.root), idx) == |t.root|
    requires |Leaf(t, |t.root| - 1)| < MAX_INDEX
    ensures var leaf := Inserted(Leaf(t, |t.root| - 1), Index(idx, vid)); leaf[|leaf| - 1].idx == idx
    ensures t.root[|t.root| - 1].idx < idx
  {
    hide Inserted, Sorted;
    assert Keyed(t, |t.root| - 1);
    assert RootKeys(t.root)[|t.root| - 1] < idx;
    InsertedGood(Leaf(t, |t.root| - 1), idx, vid, hi);
  }

  // ---- a whole set

  /** A new index is put into any such tree, splits included, and the rest of the range stays new. */
  lemma NewSet(t: Tree, idx: nat, vid: nat, hi: nat)
    requires Usable(t) && Settable(t) && Lacks(t, idx, hi) && idx <= hi
    ensures var o := Set(AsWritten, t, idx, vid);
      !o.Again? && (o.Done? ==> Usable(o.tree) && Settable(o.tree) && o.tree.depth >= 1 && Lacks(o.tree, idx + 1, hi))
  {
    hide Once, Loose, Lacks, Valid;
    UsableParts(t);
    NewTurn(t, idx, vid, hi);
    if Once(AsWritten, t, idx, vid).Again? { AgainTurn(t, idx, vid, hi); }
  }

  lemma NewTurn(t: Tree, idx: nat, vid: nat, hi: nat)
    requires Usable(t) && Settable(t) && Lacks(t, idx, hi) && idx <= hi
    ensures var o := Once(AsWritten, t, idx, vid);
      !o.Panic? ==>
        o.tree.depth >= 1 && Usable(o.tree) && Settable(o.tree) &&
        Lacks(o.tree, if o.Done? then idx + 1 else idx, hi) &&
        (o.Again? ==> o.tree.depth == 2)
  {
    hide Once, Lacks, Valid, Keyed;
    UsableParts(t);
    if t.depth == 2 { RootTurn(t, idx, vid, hi); } else { LeafTurn(t, idx, vid, hi); }
    if !Once(AsWritten, t, idx, vid).Panic? { UsableParts(Once(AsWritten, t, idx, vid).tree); }
  }

  /** A second turn is the last. */
  lemma AgainTurn(t: Tree, idx: nat, vid: nat, hi: nat)
    requires Usable(t) && Settable(t) && Lacks(t, idx, hi) && idx <= hi && Once(AsWritten, t, idx, vid).Again?
    ensures var t1 := Once(AsWritten, t, idx, vid).tree;
      t1.depth == 2 && Settable(t1) && Loose(t1) && Lacks(t1, idx, hi) && Once(AsWritten, t1, idx, vid).Done? &&
      Usable(Once(AsWritten, t1, idx, vid).tree) && Settable(Once(AsWritten, t1, idx, vid).tree) &&
      Once(AsWritten, t1, idx, vid).tree.depth == 2 && Lacks(Once(AsWritten, t1, idx, vid).tree, idx + 1, hi)
  {
    hide Lacks, Valid, Keyed, Sorted, Split, Transferred, Inserted, Found;
    var t1 := Once(AsWritten, t, idx, vid).tree;
    NewTurn(t, idx, vid, hi);
    RootTurn(t1, idx, vid, hi);
    UsableParts(t);
    if t.depth == 2 {
      RootTurn(t, idx, vid, hi);
      SplitRoomThere(t, idx);
    } else {
      TransferHasRoom(t, idx);
    }
  }

  lemma TransferHasRoom(t: Tree, idx: nat)
    requires t.depth == 1 && Sorted(t.leaf) && |t.leaf| == MAX_INDEX
    ensures var t1 := Transferred(t); var p := Pos(RootKeys(t1.root), idx);
      HasNodes(t1) && |t1.root| == 2 && |Leaf(t1, if p < 2 then p else 1)| < MAX_INDEX
  {
    hide AddToRoot, Sorted;
    TransferredRoot(t);
    TransferredIs(t, |t.leaf| / 2);
    HalfLeaves(t.leaf, |t.leaf| / 2);
  }
}
