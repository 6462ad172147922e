/** The two-level index tree of lib/sd_inode.c as a value: what searching, inserting and splitting
    do, and that together they behave like a map from object index to vdi id. */
module BTree {
  import opened Options
  import opened Sequences

  datatype Index = Index(idx: nat, vid: nat)
  datatype Indirect = Indirect(idx: nat, oid: nat)

  /** depth 0: not initialised; depth 1: `leaf` in the inode; depth 2: `root` in the inode and the
      leaves in node objects. */
  datatype Tree = Tree(depth: nat, leaf: seq<Index>, root: seq<Indirect>, nodes: map<nat, seq<Index>>, counter: nat)

  const MAX_INDEX: nat := 524287
  const MAX_INDIRECT: nat := 262143

  const EMPTY := Tree(0, [], [], map[], 0)

  // ---- searching

  function Keys(leaf: seq<Index>): (r: seq<nat>)
    ensures |r| == |leaf| && forall i :: 0 <= i < |leaf| ==> r[i] == leaf[i].idx
  {
    seq(|leaf|, i requires 0 <= i < |leaf| => leaf[i].idx)
  }

  function RootKeys(root: seq<Indirect>): (r: seq<nat>)
    ensures |r| == |root| && forall i :: 0 <= i < |root| ==> r[i] == root[i].idx
  {
    seq(|root|, i requires 0 <= i < |root| => root[i].idx)
  }

  ghost predicate Increasing(keys: seq<nat>) {
    forall i, j :: 0 <= i < j < |keys| ==> keys[i] < keys[j]
  }

  /** The first position whose key is not below j. */
  function PosFrom(keys: seq<nat>, j: nat, i: nat): (p: nat)
    requires i <= |keys|
    ensures i <= p <= |keys| && (forall k :: i <= k < p ==> keys[k] < j) && (p < |keys| ==> keys[p] >= j)
    decreases |keys| - i
  {
    if i == |keys| || keys[i] >= j then i else PosFrom(keys, j, i + 1)
  }

  function Pos(keys: seq<nat>, j: nat): (p: nat)
    ensures p <= |keys| && (forall k :: 0 <= k < p ==> keys[k] < j) && (p < |keys| ==> keys[p] >= j)
  {
    PosFrom(keys, j, 0)
  }

  lemma NotAbove(keys: seq<nat>, i: nat, j: nat)
    requires Increasing(keys) && i <= j < |keys|
    ensures keys[i] <= keys[j]
  {}

  lemma PosUnique(keys: seq<nat>, j: nat, p: nat)
    requires Increasing(keys) && p <= |keys| && (p > 0 ==> keys[p - 1] < j) && (p < |keys| ==> keys[p] >= j)
    ensures Pos(keys, j) == p
  {
    forall k | 0 <= k < p ensures keys[k] < j { NotAbove(keys, k, p - 1); }
  }

  lemma PosFirst(keys: seq<nat>, j: nat, p: nat)
    requires p <= |keys| && (forall k :: 0 <= k < p ==> keys[k] < j) && (p < |keys| ==> keys[p] >= j)
    ensures Pos(keys, j) == p
  {}

  predicate Found(leaf: seq<Index>, j: nat) {
    Pos(Keys(leaf), j) < |leaf| && leaf[Pos(Keys(leaf), j)].idx == j
  }

  function Value(leaf: seq<Index>, j: nat): (v: Option<nat>) {
    if Found(leaf, j) then Some(leaf[Pos(Keys(leaf), j)].vid) else None
  }

  /** What a caller is told: 0 stands for no entry. */
  function Vid(v: Option<nat>): (r: nat) { if v.Some? then v.value else 0 }

  ghost predicate Sorted(leaf: seq<Index>) { Increasing(Keys(leaf)) }

  lemma ValueAt(leaf: seq<Index>, i: nat)
    requires Sorted(leaf) && i < |leaf|
    ensures Found(leaf, leaf[i].idx) && Value(leaf, leaf[i].idx) == Some(leaf[i].vid)
  {
    PosUnique(Keys(leaf), leaf[i].idx, i);
  }

  lemma ValueNone(leaf: seq<Index>, j: nat)
    requires forall i :: 0 <= i < |leaf| ==> leaf[i].idx != j
    ensures !Found(leaf, j) && Value(leaf, j) == None
  {}

  // ---- one leaf

  function Inserted(leaf: seq<Index>, e: Index): (r: seq<Index>)
    ensures |r| == |leaf| + 1
  {
    InsertAt(leaf, Pos(Keys(leaf), e.idx), e)
  }

  lemma InsertAtIncreasing(keys: seq<nat>, p: nat, k: nat)
    requires Increasing(keys) && p <= |keys| && (p < |keys| ==> k < keys[p]) && (p > 0 ==> keys[p - 1] < k)
    ensures Increasing(InsertAt(keys, p, k))
  {
    hide InsertAt;
    var keys' := InsertAt(keys, p, k);
    forall i, j | 0 <= i < j < |keys'| ensures keys'[i] < keys'[j] {
      if i < p { NotAbove(keys, i, p - 1); }
      if j > p { NotAbove(keys, p, j - 1); }
      assert j < p ==> keys[i] < keys[j];
      assert i > p ==> keys[i - 1] < keys[j - 1];
    }
  }

  lemma InsertedSorted(leaf: seq<Index>, e: Index)
    requires Sorted(leaf) && !Found(leaf, e.idx)
    ensures Sorted(Inserted(leaf, e))
  {
    hide InsertAt;
    var p := Pos(Keys(leaf), e.idx);
    InsertAtIncreasing(Keys(leaf), p, e.idx);
    assert Keys(Inserted(leaf, e)) == InsertAt(Keys(leaf), p, e.idx);
  }

  lemma InsertedValue(leaf: seq<Index>, e: Index, j: nat)
    requires Sorted(leaf) && !Found(leaf, e.idx)
    ensures Value(Inserted(leaf, e), j) == if j == e.idx then Some(e.vid) else Value(leaf, j)
  {
    var p, r := Pos(Keys(leaf), e.idx), Inserted(leaf, e);
    InsertedSorted(leaf, e);
    if j == e.idx {
      ValueAt(r, p);
    } else if i :| 0 <= i < |leaf| && leaf[i].idx == j {
      ValueAt(leaf, i);
      ValueAt(r, if i < p then i else i + 1);
    } else {
      ValueNone(leaf, j);
      ValueNone(r, j);
    }
  }

  function Updated(leaf: seq<Index>, j: nat, vid: nat): (r: seq<Index>)
    requires Found(leaf, j)
    ensures |r| == |leaf| && Keys(r) == Keys(leaf)
  {
    var r := leaf[Pos(Keys(leaf), j) := Index(j, vid)];
    assert forall i :: 0 <= i < |leaf| ==> r[i].idx == leaf[i].idx;
    r
  }

  lemma UpdatedValue(leaf: seq<Index>, idx: nat, vid: nat, j: nat)
    requires Sorted(leaf) && Found(leaf, idx)
    ensures Value(Updated(leaf, idx, vid), j) == if j == idx then Some(vid) else Value(leaf, j)
  {}

  lemma SplitSorted(leaf: seq<Index>, n: nat)
    requires Sorted(leaf) && n <= |leaf|
    ensures Sorted(leaf[..n]) && Sorted(leaf[n..])
  {
    forall i, j | 0 <= i < j < n
      ensures Keys(leaf[..n])[i] < Keys(leaf[..n])[j]
    {
      assert Keys(leaf)[i] < Keys(leaf)[j];
    }
    forall i, j | 0 <= i < j < |leaf| - n
      ensures Keys(leaf[n..])[i] < Keys(leaf[n..])[j]
    {
      assert Keys(leaf)[n + i] < Keys(leaf)[n + j];
    }
  }

  lemma SplitEntry(leaf: seq<Index>, n: nat, i: nat)
    requires Sorted(leaf) && 0 < n <= |leaf| && i < |leaf|
    ensures i < n <==> leaf[i].idx <= leaf[n - 1].idx
    ensures Value(leaf, leaf[i].idx) == Some(leaf[i].vid)
    ensures Value(if i < n then leaf[..n] else leaf[n..], leaf[i].idx) == Some(leaf[i].vid)
  {
    SplitSorted(leaf, n);
    ValueAt(leaf, i);
    if i < n {
      NotAbove(Keys(leaf), i, n - 1);
      ValueAt(leaf[..n], i);
    } else {
      assert Keys(leaf)[n - 1] < Keys(leaf)[i];
      ValueAt(leaf[n..], i - n);
    }
  }

  /** Either half answers for its own range. */
  lemma SplitValue(leaf: seq<Index>, n: nat, j: nat)
    requires Sorted(leaf) && 0 < n <= |leaf|
    ensures Value(leaf, j) == if j <= leaf[n - 1].idx then Value(leaf[..n], j) else Value(leaf[n..], j)
  {
    hide Sorted, Value, Found;
    if i :| 0 <= i < |leaf| && leaf[i].idx == j {
      SplitEntry(leaf, n, i);
    } else {
      ValueNone(leaf, j);
      ValueNone(leaf[..n], j);
      ValueNone(leaf[n..], j);
    }
  }

  // ---- the whole tree

  ghost predicate GoodLeaf(leaf: seq<Index>) { 0 < |leaf| <= MAX_INDEX && Sorted(leaf) }

  ghost predicate HasNodes(t: Tree) { forall i :: 0 <= i < |t.root| ==> t.root[i].oid in t.nodes }

  function Leaf(t: Tree, i: nat): (r: seq<Index>)
    requires i < |t.root| && t.root[i].oid in t.nodes
  {
    t.nodes[t.root[i].oid]
  }

  /** Leaf i holds the indices above the key before it, and its own key is its maximum. */
  ghost predicate Fits(t: Tree, i: nat)
    requires i < |t.root|
  {
    t.root[i].oid in t.nodes &&
    var leaf := Leaf(t, i);
    GoodLeaf(leaf) && leaf[|leaf| - 1].idx == t.root[i].idx && (i > 0 ==> t.root[i - 1].idx < leaf[0].idx)
  }

  ghost predicate Rooted(t: Tree) {
    0 < |t.root| <= MAX_INDIRECT && HasNodes(t) && Increasing(RootKeys(t.root)) &&
    (forall i :: 0 <= i < |t.root| ==> Fits(t, i)) &&
    (forall i :: 0 <= i < |t.root| ==> t.root[i].oid < t.counter) &&
    DistinctNodes(t)
  }

  ghost predicate DistinctNodes(t: Tree) {
    forall i, j :: 0 <= i < j < |t.root| ==> t.root[i].oid != t.root[j].oid
  }

  ghost predicate Valid(t: Tree) {
    match t.depth
    case 0 => t == EMPTY
    case 1 => Sorted(t.leaf) && |t.leaf| <= MAX_INDEX && t.root == []
    case 2 => Rooted(t)
    case _ => false
  }

  /** sd_inode_get_vid() */
  function Get(t: Tree, j: nat): (v: Option<nat>)
    requires forall i :: 0 <= i < |t.root| ==> t.root[i].oid in t.nodes
  {
    if t.depth == 1 then Value(t.leaf, j)
    else if t.depth == 2 then
      var p := Pos(RootKeys(t.root), j);
      if p < |t.root| then Value(Leaf(t, p), j) else None
    else None
  }

  /** The search for idx finds an entry. */
  ghost predicate HasEntry(t: Tree, idx: nat)
    requires HasNodes(t)
  {
    Get(t, idx).Some?
  }

  lemma GetIn(t: Tree, i: nat, j: nat)
    requires t.depth == 2 && HasNodes(t) && Increasing(RootKeys(t.root)) && i < |t.root|
    requires j <= t.root[i].idx && (i > 0 ==> t.root[i - 1].idx < j)
    ensures Get(t, j) == Value(Leaf(t, i), j)
  {
    PosUnique(RootKeys(t.root), j, i);
  }

  lemma GetBeyond(t: Tree, j: nat)
    requires t.depth == 2 && HasNodes(t) && Increasing(RootKeys(t.root)) && |t.root| > 0 && t.root[|t.root| - 1].idx < j
    ensures Get(t, j) == None
  {
    PosUnique(RootKeys(t.root), j, |t.root|);
  }

  // ---- the ways in which a set changes the tree

  /** The key given to the new left half: the code takes the slot after the last entry of a zeroed
      buffer; the last entry is what the rest of the code relies on. */
  datatype Mode = AsWritten | AsIntended

  function SplitKey(mode: Mode, half: seq<Index>): (k: nat)
    requires |half| > 0
  {
    if mode == AsWritten then 0 else half[|half| - 1].idx
  }

  /** insert_idx_entry(): nothing happens when the root is full. */
  function AddToRoot(root: seq<Indirect>, e: Indirect): (r: seq<Indirect>) {
    if |root| >= MAX_INDIRECT then root
    else InsertAt(root, Pos(RootKeys(root), e.idx), e)
  }

  /** transfer_to_idx_root() */
  function Transferred(t: Tree): (t': Tree)
    requires |t.leaf| >= 2
    ensures t'.depth == 2
  {
    var n := |t.leaf| / 2;
    var left, right := t.leaf[..n], t.leaf[n..];
    var l, r := Indirect(left[n - 1].idx, t.counter), Indirect(right[|right| - 1].idx, t.counter + 1);
    Tree(2, [], AddToRoot(AddToRoot([], l), r), t.nodes[t.counter := left][t.counter + 1 := right], t.counter + 2)
  }

  lemma TransferredIs(t: Tree, n: nat)
    requires |t.leaf| >= 2 && n == |t.leaf| / 2
    ensures Transferred(t) ==
      Tree(2, [], AddToRoot(AddToRoot([], Indirect(t.leaf[n - 1].idx, t.counter)),
        Indirect(t.leaf[|t.leaf| - 1].idx, t.counter + 1)),
           t.nodes[t.counter := t.leaf[..n]][t.counter + 1 := t.leaf[n..]], t.counter + 2)
  {
    hide AddToRoot;
  }

  /** split_index_node() on leaf p */
  function Split(mode: Mode, t: Tree, p: nat): (t': Tree)
    requires p < |t.root| && t.root[p].oid in t.nodes && |Leaf(t, p)| >= 2
    ensures t'.depth == t.depth
  {
    var leaf := Leaf(t, p);
    var n := |leaf| / 2;
    t.(root := AddToRoot(t.root, Indirect(SplitKey(mode, leaf[..n]), t.counter)),
       nodes := t.nodes[t.counter := leaf[..n]][t.root[p].oid := leaf[n..]],
       counter := t.counter + 1)
  }

  datatype Outcome = Done(tree: Tree) | Again(tree: Tree) | Panic

  /** One turn of the loop of set_vid_for_btree(). */
  function Once(mode: Mode, t: Tree, idx: nat, vid: nat): (o: Outcome)
    requires forall i :: 0 <= i < |t.root| ==> t.root[i].oid in t.nodes
    requires t.depth == 2 ==> |t.root| > 0
  {
    if t.depth != 2 then
      var t1 := if t.depth == 0 then t.(depth := 1) else t;
      if Found(t1.leaf, idx) then Done(t1.(leaf := Updated(t1.leaf, idx, vid)))
      else if |t1.leaf| >= MAX_INDEX then Again(Transferred(t1))
      else Done(t1.(leaf := Inserted(t1.leaf, Index(idx, vid))))
    else
      var p := Pos(RootKeys(t.root), idx);
      if p < |t.root| then
        var oid, leaf := t.root[p].oid, Leaf(t, p);
        if Found(leaf, idx) then Done(t.(nodes := t.nodes[oid := Updated(leaf, idx, vid)]))
        else if |leaf| >= MAX_INDEX then Again(Split(mode, t, p))
        else Done(t.(nodes := t.nodes[oid := Inserted(leaf, Index(idx, vid))]))
      else
        var oid, leaf := t.root[p - 1].oid, Leaf(t, p - 1);
        if |leaf| < MAX_INDEX then
          var leaf' := Inserted(leaf, Index(idx, vid));
          Done(t.(root := t.root[p - 1 := Indirect(leaf'[|leaf'| - 1].idx, oid)], nodes := t.nodes[oid := leaf']))
        else if |t.root| >= MAX_INDIRECT then Panic
        else Done(t.(root := t.root + [Indirect(idx, t.counter)], nodes := t.nodes[t.counter := [Index(idx, vid)]],
          counter := t.counter + 1))
  }

  /** t' is t with idx set to vid. */
  ghost predicate IsSet(t: Tree, t': Tree, idx: nat, vid: nat)
    requires HasNodes(t) && HasNodes(t')
  {
    forall j: nat :: Get(t', j) == if j == idx then Some(vid) else Get(t, j)
  }

  /** The same, as far as a caller of get can tell. */
  ghost predicate ReadsAsSet(t: Tree, t': Tree, idx: nat, vid: nat)
    requires HasNodes(t) && HasNodes(t')
  {
    forall j: nat :: Vid(Get(t', j)) == if j == idx then vid else Vid(Get(t, j))
  }

  ghost predicate SameMap(t: Tree, t': Tree)
    requires HasNodes(t) && HasNodes(t')
  {
    forall j: nat :: Get(t', j) == Get(t, j)
  }

  // ---- depth 1

  lemma LeafSet(t: Tree, idx: nat, vid: nat)
    requires Valid(t) && t.depth <= 1 && !Once(AsWritten, t, idx, vid).Again?
    ensures var o := Once(AsWritten, t, idx, vid);
      o.Done? && Valid(o.tree) && o.tree.root == t.root && IsSet(t, o.tree, idx, vid)
  {
    var leaf, t' := t.leaf, Once(AsWritten, t, idx, vid).tree;
    if Found(leaf, idx) {
      forall j: nat
        ensures Value(t'.leaf, j) == if j == idx then Some(vid) else Value(leaf, j)
      {
        UpdatedValue(leaf, idx, vid, j);
      }
    } else {
      InsertedSorted(leaf, Index(idx, vid));
      forall j: nat
        ensures Value(t'.leaf, j) == if j == idx then Some(vid) else Value(leaf, j)
      {
        InsertedValue(leaf, Index(idx, vid), j);
      }
    }
  }

  lemma HalfLeaves(leaf: seq<Index>, n: nat)
    requires Sorted(leaf) && 2 <= |leaf| <= MAX_INDEX && n == |leaf| / 2
    ensures GoodLeaf(leaf[..n]) && GoodLeaf(leaf[n..]) && leaf[n - 1].idx < leaf[n].idx <= leaf[|leaf| - 1].idx
  {
    SplitSorted(leaf, n);
    assert Keys(leaf)[n - 1] < Keys(leaf)[n];
    NotAbove(Keys(leaf), n, |leaf| - 1);
  }

  lemma AddFirst(e: Indirect)
    ensures AddToRoot([], e) == [e]
  {}

  lemma AddSecond(l: Indirect, r: Indirect)
    requires l.idx < r.idx
    ensures AddToRoot([l], r) == [l, r]
  {
    PosUnique(RootKeys([l]), r.idx, 1);
  }

  lemma TransferredRoot(t: Tree)
    requires Sorted(t.leaf) && 2 <= |t.leaf| <= MAX_INDEX
    ensures var n := |t.leaf| / 2;
      Transferred(t).root == [Indirect(t.leaf[n - 1].idx, t.counter), Indirect(t.leaf[|t.leaf| - 1].idx, t.counter + 1)]
  {
    hide AddToRoot;
    var n := |t.leaf| / 2;
    HalfLeaves(t.leaf, n);
    AddFirst(Indirect(t.leaf[n - 1].idx, t.counter));
    AddSecond(Indirect(t.leaf[n - 1].idx, t.counter), Indirect(t.leaf[|t.leaf| - 1].idx, t.counter + 1));
  }

  lemma TransferRooted(t: Tree)
    requires Sorted(t.leaf) && 2 <= |t.leaf| <= MAX_INDEX
    ensures Rooted(Transferred(t))
  {
    hide AddToRoot, Sorted;
    HalfLeaves(t.leaf, |t.leaf| / 2);
    TransferredRoot(t);
  }

  lemma ValueBeyond(leaf: seq<Index>, j: nat)
    requires Sorted(leaf) && |leaf| > 0 && leaf[|leaf| - 1].idx < j
    ensures !Found(leaf, j) && Value(leaf, j) == None
  {
    forall i | 0 <= i < |leaf| ensures leaf[i].idx != j { NotAbove(Keys(leaf), i, |leaf| - 1); }
    ValueNone(leaf, j);
  }

  lemma TransferGet(t: Tree, j: nat)
    requires t.depth == 1 && Sorted(t.leaf) && 2 <= |t.leaf| <= MAX_INDEX && Rooted(Transferred(t))
    ensures Get(Transferred(t), j) == Value(t.leaf, j)
  {
    hide AddToRoot, Sorted, Value;
    var t', n := Transferred(t), |t.leaf| / 2;
    TransferredRoot(t);
    SplitValue(t.leaf, n, j);
    if j <= t'.root[0].idx { GetIn(t', 0, j); } else if j <= t'.root[1].idx { GetIn(t', 1, j); } else {
      GetBeyond(t', j);
      ValueBeyond(t.leaf, j);
    }
  }

  /** A full root leaf becomes two half-full leaves with the same contents. */
  lemma TransferKeeps(t: Tree)
    requires t.depth == 1 && Sorted(t.leaf) && 2 <= |t.leaf| <= MAX_INDEX && t.root == []
    ensures Rooted(Transferred(t)) && SameMap(t, Transferred(t))
  {
    hide Transferred, Value;
    TransferRooted(t);
    forall j: nat ensures Get(Transferred(t), j) == Value(t.leaf, j) { TransferGet(t, j); }
  }

  // ---- depth 2: one leaf changes

  ghost function WithLeaf(t: Tree, p: nat, leaf: seq<Index>): (t': Tree)
    requires p < |t.root|
  {
    t.(nodes := t.nodes[t.root[p].oid := leaf])
  }

  lemma WithLeafRooted(t: Tree, p: nat, leaf: seq<Index>)
    requires Rooted(t) && p < |t.root| && GoodLeaf(leaf) && leaf[|leaf| - 1].idx == t.root[p].idx
    requires p > 0 ==> t.root[p - 1].idx < leaf[0].idx
    ensures Rooted(WithLeaf(t, p, leaf))
  {
    var t' := WithLeaf(t, p, leaf);
    forall i | 0 <= i < |t'.root| ensures Fits(t', i) { assert Fits(t, i); }
  }

  /** Only the answers of leaf p change. */
  lemma WithLeafSet(t: Tree, p: nat, leaf: seq<Index>, idx: nat, vid: nat)
    requires t.depth == 2 && HasNodes(t) && DistinctNodes(t) && p < |t.root| && p == Pos(RootKeys(t.root), idx)
    requires forall j: nat :: Value(leaf, j) == if j == idx then Some(vid) else Value(Leaf(t, p), j)
    ensures HasNodes(WithLeaf(t, p, leaf)) && IsSet(t, WithLeaf(t, p, leaf), idx, vid)
  {}

  /** Every entry of leaf p lies between the keys around it. */
  lemma LeafRange(t: Tree, p: nat, i: nat)
    requires Rooted(t) && p < |t.root| && i < |Leaf(t, p)|
    ensures Leaf(t, p)[i].idx <= t.root[p].idx && (p > 0 ==> t.root[p - 1].idx < Leaf(t, p)[i].idx)
  {
    assert Fits(t, p);
    var leaf := Leaf(t, p);
    NotAbove(Keys(leaf), 0, i); NotAbove(Keys(leaf), i, |leaf| - 1);
  }

  lemma UpdateKeeps(t: Tree, p: nat, idx: nat, vid: nat)
    requires t.depth == 2 && Rooted(t) && p < |t.root| && p == Pos(RootKeys(t.root), idx) && Found(Leaf(t, p), idx)
    ensures var t' := WithLeaf(t, p, Updated(Leaf(t, p), idx, vid)); Rooted(t') && IsSet(t, t', idx, vid)
  {
    var leaf, leaf' := Leaf(t, p), Updated(Leaf(t, p), idx, vid);
    assert Fits(t, p);
    assert Keys(leaf')[0] == Keys(leaf)[0] && Keys(leaf')[|leaf| - 1] == Keys(leaf)[|leaf| - 1];
    WithLeafRooted(t, p, leaf');
    forall j: nat
      ensures Value(leaf', j) == if j == idx then Some(vid) else Value(leaf, j)
    {
      UpdatedValue(leaf, idx, vid, j);
    }
    WithLeafSet(t, p, leaf', idx, vid);
  }

  lemma InsertKeeps(t: Tree, p: nat, idx: nat, vid: nat)
    requires t.depth == 2 && Rooted(t) && p < |t.root| && p == Pos(RootKeys(t.root), idx)
    requires !Found(Leaf(t, p), idx) && |Leaf(t, p)| < MAX_INDEX
    ensures var t' := WithLeaf(t, p, Inserted(Leaf(t, p), Index(idx, vid))); Rooted(t') && IsSet(t, t', idx, vid)
  {
    var leaf, leaf' := Leaf(t, p), Inserted(Leaf(t, p), Index(idx, vid));
    assert Fits(t, p);
    InsertedSorted(leaf, Index(idx, vid));
    assert RootKeys(t.root)[p] >= idx && (p > 0 ==> RootKeys(t.root)[p - 1] < idx);
    InsertedEnds(leaf, Index(idx, vid));
    WithLeafRooted(t, p, leaf');
    forall j: nat
      ensures Value(leaf', j) == if j == idx then Some(vid) else Value(leaf, j)
    {
      InsertedValue(leaf, Index(idx, vid), j);
    }
    WithLeafSet(t, p, leaf', idx, vid);
  }

  lemma InsertedEnds(leaf: seq<Index>, e: Index)
    requires |leaf| > 0
    ensures Inserted(leaf, e)[|leaf|].idx == if leaf[|leaf| - 1].idx < e.idx then e.idx else leaf[|leaf| - 1].idx
    ensures Inserted(leaf, e)[0].idx == e.idx || Inserted(leaf, e)[0] == leaf[0]
    requires Sorted(leaf) && !Found(leaf, e.idx)
  {
    var p := Pos(Keys(leaf), e.idx);
    if leaf[|leaf| - 1].idx < e.idx {
      PosUnique(Keys(leaf), e.idx, |leaf|);
    } else {
      assert p < |leaf|;
    }
  }

  // ---- depth 2: beyond the last key

  lemma AppendRooted(t: Tree, leaf: seq<Index>, t': Tree)
    requires Rooted(t) && GoodLeaf(leaf) && t.root[|t.root| - 1].idx < leaf[|leaf| - 1].idx
    requires |t.root| > 1 ==> t.root[|t.root| - 2].idx < leaf[0].idx
    requires var q := |t.root| - 1;
      t' == t.(root := t.root[q := Indirect(leaf[|leaf| - 1].idx, t.root[q].oid)],
        nodes := t.nodes[t.root[q].oid := leaf])
    ensures Rooted(t')
  {
    hide Sorted;
    var q := |t.root| - 1;
    forall i | 0 <= i < |t'.root| ensures Fits(t', i) { assert Fits(t, i); }
    forall i, j | 0 <= i < j < |t'.root|
      ensures RootKeys(t'.root)[i] < RootKeys(t'.root)[j]
    {
      assert RootKeys(t.root)[i] < RootKeys(t.root)[j];
    }
  }

  lemma AppendGet(t: Tree, leaf: seq<Index>, t': Tree, j: nat, idx: nat, vid: nat)
    requires t.depth == 2 && Rooted(t) && Rooted(t') && |leaf| > 0
    requires leaf[|leaf| - 1].idx == idx > t.root[|t.root| - 1].idx
    requires var q := |t.root| - 1;
      t' == t.(root := t.root[q := Indirect(leaf[|leaf| - 1].idx, t.root[q].oid)],
        nodes := t.nodes[t.root[q].oid := leaf])
    requires Value(leaf, j) == if j == idx then Some(vid) else Value(Leaf(t, |t.root| - 1), j)
    ensures Get(t', j) == if j == idx then Some(vid) else Get(t, j)
  {
    hide Value, Sorted;
    var q := |t.root| - 1;
    assert Fits(t, q);
    if q > 0 && j <= t.root[q - 1].idx {
      assert RootKeys(t.root)[q - 1] >= j;
      PosUnique(RootKeys(t'.root), j, Pos(RootKeys(t.root), j));
    } else if j <= idx {
      GetIn(t', q, j);
      if j <= t.root[q].idx { GetIn(t, q, j); } else { GetBeyond(t, j); ValueBeyond(Leaf(t, q), j); }
    } else {
      GetBeyond(t', j);
      GetBeyond(t, j);
    }
  }

  lemma AppendKeeps(t: Tree, idx: nat, vid: nat, leaf: seq<Index>, t': Tree)
    requires t.depth == 2 && Rooted(t) && Pos(RootKeys(t.root), idx) == |t.root| && |Leaf(t, |t.root| - 1)| < MAX_INDEX
    requires leaf == Inserted(Leaf(t, |t.root| - 1), Index(idx, vid))
    requires var q := |t.root| - 1;
      t' == t.(root := t.root[q := Indirect(leaf[|leaf| - 1].idx, t.root[q].oid)],
        nodes := t.nodes[t.root[q].oid := leaf])
    ensures Rooted(t') && IsSet(t, t', idx, vid)
  {
    hide Value;
    var q := |t.root| - 1;
    var last := Leaf(t, q);
    assert Fits(t, q) && RootKeys(t.root)[q] < idx;
    if q > 0 { assert RootKeys(t.root)[q - 1] < RootKeys(t.root)[q]; }
    ValueBeyond(last, idx);
    InsertedSorted(last, Index(idx, vid));
    InsertedEnds(last, Index(idx, vid));
    AppendRooted(t, leaf, t');
    forall j: nat ensures Get(t', j) == if j == idx then Some(vid) else Get(t, j) {
      InsertedValue(last, Index(idx, vid), j);
      AppendGet(t, leaf, t', j, idx, vid);
    }
  }

  lemma NewLeafRooted(t: Tree, idx: nat, vid: nat, t': Tree)
    requires Rooted(t) && t.root[|t.root| - 1].idx < idx && |t.root| < MAX_INDIRECT
    requires t' == t.(root := t.root + [Indirect(idx, t.counter)], nodes := t.nodes[t.counter := [Index(idx, vid)]],
      counter := t.counter + 1)
    ensures Rooted(t')
  {
    var n := |t.root|;
    forall i | 0 <= i < n + 1 ensures Fits(t', i) { assert i < n ==> Fits(t, i); }
    forall i, j | 0 <= i < j < n + 1 ensures RootKeys(t'.root)[i] < RootKeys(t'.root)[j] {
      if j < n { assert RootKeys(t.root)[i] < RootKeys(t.root)[j]; } else { NotAbove(RootKeys(t.root), i, n - 1); }
    }
  }

  lemma NewLeafGet(t: Tree, idx: nat, vid: nat, t': Tree, j: nat)
    requires t.depth == 2 && Rooted(t) && Rooted(t') && t.root[|t.root| - 1].idx < idx
    requires t' == t.(root := t.root + [Indirect(idx, t.counter)], nodes := t.nodes[t.counter := [Index(idx, vid)]],
      counter := t.counter + 1)
    ensures Get(t', j) == if j == idx then Some(vid) else Get(t, j)
  {
    hide Value, Sorted;
    var n, p := |t.root|, Pos(RootKeys(t.root), j);
    if p < n {
      NotAbove(RootKeys(t.root), p, n - 1);
      PosUnique(RootKeys(t'.root), j, p);
    } else if j <= idx {
      GetIn(t', n, j);
      SingleValue(Index(idx, vid), j);
    } else {
      GetBeyond(t', j);
    }
  }

  lemma SingleValue(e: Index, j: nat)
    ensures Value([e], j) == if j == e.idx then Some(e.vid) else None
  {
    assert Keys([e]) == [e.idx];
  }

  lemma NewLeafKeeps(t: Tree, idx: nat, vid: nat, t': Tree)
    requires t.depth == 2 && Rooted(t) && Pos(RootKeys(t.root), idx) == |t.root| < MAX_INDIRECT
    requires t' == t.(root := t.root + [Indirect(idx, t.counter)], nodes := t.nodes[t.counter := [Index(idx, vid)]],
      counter := t.counter + 1)
    ensures Rooted(t') && IsSet(t, t', idx, vid)
  {
    hide Value, Sorted;
    assert RootKeys(t.root)[|t.root| - 1] < idx;
    NewLeafRooted(t, idx, vid, t');
    forall j: nat ensures Get(t', j) == if j == idx then Some(vid) else Get(t, j) { NewLeafGet(t, idx, vid, t', j); }
  }

  // ---- splitting a full leaf

  lemma SplitRoot(t: Tree, p: nat, e: Indirect)
    requires Rooted(t) && p < |t.root| < MAX_INDIRECT && e.idx < t.root[p].idx && (p > 0 ==> t.root[p - 1].idx < e.idx)
    ensures AddToRoot(t.root, e) == InsertAt(t.root, p, e)
  {
    PosUnique(RootKeys(t.root), e.idx, p);
  }

  ghost function SplitAt(t: Tree, p: nat, leaf: seq<Index>, n: nat): (t': Tree)
    requires p < |t.root| && 0 < n <= |leaf|
  {
    t.(root := InsertAt(t.root, p, Indirect(leaf[n - 1].idx, t.counter)),
       nodes := t.nodes[t.counter := leaf[..n]][t.root[p].oid := leaf[n..]], counter := t.counter + 1)
  }

  lemma SplitFits(t: Tree, p: nat, leaf: seq<Index>, n: nat, i: nat)
    requires Rooted(t) && p < |t.root| && leaf == Leaf(t, p) && |leaf| >= 2 && n == |leaf| / 2 && i <= |t.root|
    ensures Fits(SplitAt(t, p, leaf, n), i)
  {
    hide Sorted, InsertAt;
    assert Fits(t, p) && Fits(t, if i <= p then i else i - 1);
    HalfLeaves(leaf, n);
  }

  /** With the last entry as its key, the left half finds its place in front of the right half. */
  lemma SplitRooted(t: Tree, p: nat, leaf: seq<Index>, n: nat)
    requires Rooted(t) && p < |t.root| < MAX_INDIRECT && leaf == Leaf(t, p) && |leaf| >= 2 && n == |leaf| / 2
    ensures Rooted(SplitAt(t, p, leaf, n))
  {
    hide Sorted, InsertAt, Increasing, Fits;
    var t' := SplitAt(t, p, leaf, n);
    assert leaf[n - 1].idx < t.root[p].idx && (p > 0 ==> t.root[p - 1].idx < leaf[n - 1].idx) by {
      SplitBetween(t, p, n);
    }
    InsertAtIncreasing(RootKeys(t.root), p, leaf[n - 1].idx);
    assert RootKeys(t'.root) == InsertAt(RootKeys(t.root), p, leaf[n - 1].idx);
    forall i | 0 <= i < |t'.root| ensures Fits(t', i) { SplitFits(t, p, leaf, n, i); }
    assert forall i :: 0 <= i < |t'.root| ==> t'.root[i].oid in t'.nodes;
  }

  lemma SplitBetween(t: Tree, p: nat, n: nat)
    requires Rooted(t) && p < |t.root| && |Leaf(t, p)| >= 2 && n == |Leaf(t, p)| / 2
    ensures Leaf(t, p)[n - 1].idx < t.root[p].idx && (p > 0 ==> t.root[p - 1].idx < Leaf(t, p)[n - 1].idx)
  {
    assert Fits(t, p);
    HalfLeaves(Leaf(t, p), n);
    LeafRange(t, p, n - 1);
  }

  lemma SplitPos(t: Tree, p: nat, leaf: seq<Index>, n: nat, j: nat)
    requires Rooted(t) && p < |t.root| && leaf == Leaf(t, p) && |leaf| >= 2 && n == |leaf| / 2
    requires Rooted(SplitAt(t, p, leaf, n))
    ensures var q := Pos(RootKeys(t.root), j);
      Pos(RootKeys(SplitAt(t, p, leaf, n).root), j) == if q < p || (q == p && j <= leaf[n - 1].idx) then q else q + 1
  {
    hide Sorted, InsertAt, Fits;
    var q, keys := Pos(RootKeys(t.root), j), RootKeys(SplitAt(t, p, leaf, n).root);
    SplitBetween(t, p, n);
    if q < p || (q == p && j <= leaf[n - 1].idx) { PosUnique(keys, j, q); } else { PosUnique(keys, j, q + 1); }
  }

  lemma SplitGet(t: Tree, p: nat, leaf: seq<Index>, n: nat, j: nat)
    requires t.depth == 2 && Rooted(t) && p < |t.root| && leaf == Leaf(t, p) && |leaf| >= 2 && n == |leaf| / 2
    requires Rooted(SplitAt(t, p, leaf, n))
    ensures Get(SplitAt(t, p, leaf, n), j) == Get(t, j)
  {
    hide Value, InsertAt;
    assert Fits(t, p);
    SplitPos(t, p, leaf, n, j);
    SplitValue(leaf, n, j);
  }

  lemma SplitKeeps(t: Tree, p: nat)
    requires t.depth == 2 && Rooted(t) && p < |t.root| < MAX_INDIRECT && |Leaf(t, p)| >= 2
    ensures Rooted(Split(AsIntended, t, p)) && SameMap(t, Split(AsIntended, t, p))
  {
    hide Value, Sorted, AddToRoot, InsertAt;
    var leaf := Leaf(t, p);
    var n := |leaf| / 2;
    SplitBetween(t, p, n);
    SplitRoot(t, p, Indirect(leaf[n - 1].idx, t.counter));
    SplitRooted(t, p, leaf, n);
    assert Split(AsIntended, t, p) == SplitAt(t, p, leaf, n);
    forall j: nat ensures Get(SplitAt(t, p, leaf, n), j) == Get(t, j) { SplitGet(t, p, leaf, n, j); }
  }

  // ---- setting one index

  /** The leaf in which idx belongs is not full. */
  ghost predicate HasRoom(t: Tree, idx: nat)
    requires HasNodes(t) && |t.root| > 0
  {
    var p := Pos(RootKeys(t.root), idx);
    |Leaf(t, if p < |t.root| then p else p - 1)| < MAX_INDEX
  }

  /** With room, one turn of the loop does it. */
  lemma OnceWithRoom(mode: Mode, t: Tree, idx: nat, vid: nat)
    requires t.depth == 2 && Rooted(t)
    requires HasRoom(t, idx) || (Pos(RootKeys(t.root), idx) < |t.root| &&
      Found(Leaf(t, Pos(RootKeys(t.root), idx)), idx))
    ensures var o := Once(mode, t, idx, vid);
      o.Done? && o.tree.depth == 2 && Rooted(o.tree) && IsSet(t, o.tree, idx, vid)
  {
    hide Rooted, Value, IsSet, Found;
    assert HasNodes(t) && |t.root| > 0 by { RootedParts(t); }
    var p := Pos(RootKeys(t.root), idx);
    if p < |t.root| {
      if Found(Leaf(t, p), idx) { UpdateKeeps(t, p, idx, vid); } else { InsertKeeps(t, p, idx, vid); }
    } else {
      AppendKeeps(t, idx, vid, Inserted(Leaf(t, p - 1), Index(idx, vid)), Once(mode, t, idx, vid).tree);
    }
  }

  lemma RootedParts(t: Tree)
    requires Rooted(t)
    ensures HasNodes(t) && 0 < |t.root| <= MAX_INDIRECT
  {}

  lemma TransferRoom(t: Tree, idx: nat)
    requires Sorted(t.leaf) && |t.leaf| == MAX_INDEX && Rooted(Transferred(t))
    ensures HasRoom(Transferred(t), idx)
  {
    hide AddToRoot, Sorted;
    TransferredRoot(t);
  }

  lemma SplitRoom(t: Tree, p: nat, leaf: seq<Index>, n: nat, idx: nat)
    requires Rooted(t) && p < |t.root| && leaf == Leaf(t, p) && |leaf| == MAX_INDEX && n == |leaf| / 2
    requires Rooted(SplitAt(t, p, leaf, n))
    requires Pos(RootKeys(t.root), idx) == p
    ensures HasRoom(SplitAt(t, p, leaf, n), idx)
  {
    hide InsertAt, Sorted;
    SplitPos(t, p, leaf, n, idx);
  }

  lemma SplitNodes(mode: Mode, t: Tree, p: nat)
    requires HasNodes(t) && p < |t.root| && |Leaf(t, p)| >= 2
    ensures HasNodes(Split(mode, t, p)) && |Split(mode, t, p).root| > 0
  {
    hide InsertAt;
  }

  /** The search has somewhere to go. */
  ghost predicate Settable(t: Tree) { HasNodes(t) && (t.depth == 2 ==> |t.root| > 0) }

  lemma TransferNodes(t: Tree)
    requires |t.leaf| >= 2
    ensures HasNodes(Transferred(t)) && |Transferred(t).root| > 0
  {
    hide InsertAt;
  }

  lemma AgainReady(mode: Mode, t: Tree, idx: nat, vid: nat)
    requires Settable(t) && Once(mode, t, idx, vid).Again?
    ensures HasNodes(Once(mode, t, idx, vid).tree) && |Once(mode, t, idx, vid).tree.root| > 0
  {
    hide Transferred, Split, Found;
    if t.depth == 2 {
      SplitNodes(mode, t, Pos(RootKeys(t.root), idx));
    } else {
      TransferNodes(if t.depth == 0 then t.(depth := 1) else t);
    }
  }

  /** The turns of the loop, of which there are at most two. */
  function Set(mode: Mode, t: Tree, idx: nat, vid: nat): (o: Outcome)
    requires Valid(t) || Settable(t)
  {
    match Once(mode, t, idx, vid)
    case Again(t1) =>
      AgainReady(mode, t, idx, vid);
      Once(mode, t1, idx, vid)
    case o => o
  }

  /** The root can still take an entry. */
  ghost predicate Growable(t: Tree) { t.depth == 2 ==> |t.root| < MAX_INDIRECT }

  /** split_index_node() is called: idx is new and its leaf, not beyond the last key, is full. */
  ghost predicate Splits(t: Tree, idx: nat)
    requires Valid(t)
  {
    t.depth == 2 && var p := Pos(RootKeys(t.root), idx);
    p < |t.root| && !Found(Leaf(t, p), idx) && |Leaf(t, p)| == MAX_INDEX
  }

  lemma SetDepth1(mode: Mode, t: Tree, idx: nat, vid: nat)
    requires Valid(t) && t.depth <= 1
    ensures var o := Set(mode, t, idx, vid); o.Done? && Valid(o.tree) && IsSet(t, o.tree, idx, vid)
  {
    hide Value, Transferred;
    if Once(mode, t, idx, vid).Again? {
      TransferKeeps(t);
      TransferRoom(t, idx);
      OnceWithRoom(mode, Transferred(t), idx, vid);
    } else {
      LeafSet(t, idx, vid);
    }
  }

  lemma SetDepth2(mode: Mode, t: Tree, idx: nat, vid: nat)
    requires Valid(t) && t.depth == 2 && !Splits(t, idx) && Growable(t)
    ensures var o := Set(mode, t, idx, vid); o.Done? && Valid(o.tree) && IsSet(t, o.tree, idx, vid)
  {
    hide Value, Split;
    var p := Pos(RootKeys(t.root), idx);
    assert Fits(t, if p < |t.root| then p else p - 1);
    if p == |t.root| && |Leaf(t, p - 1)| == MAX_INDEX {
      NewLeafKeeps(t, idx, vid, Once(mode, t, idx, vid).tree);
    } else {
      OnceWithRoom(mode, t, idx, vid);
    }
  }

  lemma SplitReady(t: Tree, p: nat, idx: nat)
    requires t.depth == 2 && Rooted(t) && p == Pos(RootKeys(t.root), idx) < |t.root| < MAX_INDIRECT
    requires |Leaf(t, p)| == MAX_INDEX
    ensures var t1 := Split(AsIntended, t, p); t1.depth == 2 && Rooted(t1) && SameMap(t, t1) && HasRoom(t1, idx)
  {
    hide Value, AddToRoot, InsertAt, Sorted;
    var leaf := Leaf(t, p);
    SplitKeeps(t, p);
    SplitBetween(t, p, |leaf| / 2);
    SplitRoot(t, p, Indirect(leaf[|leaf| / 2 - 1].idx, t.counter));
    SplitRoom(t, p, leaf, |leaf| / 2, idx);
  }

  lemma SetSplit(t: Tree, idx: nat, vid: nat)
    requires Valid(t) && Splits(t, idx) && Growable(t)
    ensures var o := Set(AsIntended, t, idx, vid); o.Done? && Valid(o.tree) && IsSet(t, o.tree, idx, vid)
  {
    hide Value, Found, Split;
    var p := Pos(RootKeys(t.root), idx);
    SplitReady(t, p, idx);
    OnceWithRoom(AsIntended, Split(AsIntended, t, p), idx, vid);
  }

  /** With the intended key every set behaves like a map update, whatever it has to rearrange. */
  lemma SetRefines(t: Tree, idx: nat, vid: nat)
    requires Valid(t) && Growable(t)
    ensures var o := Set(AsIntended, t, idx, vid); o.Done? && Valid(o.tree) && IsSet(t, o.tree, idx, vid)
  {
    if t.depth <= 1 { SetDepth1(AsIntended, t, idx, vid); }
    else if Splits(t, idx) { SetSplit(t, idx, vid); }
    else { SetDepth2(AsIntended, t, idx, vid); }
  }

  /** Short of splitting a leaf the code as written does too. */
  lemma SetAsWritten(t: Tree, idx: nat, vid: nat)
    requires Valid(t) && Growable(t) && !Splits(t, idx)
    ensures var o := Set(AsWritten, t, idx, vid); o.Done? && Valid(o.tree) && IsSet(t, o.tree, idx, vid)
  {
    if t.depth <= 1 { SetDepth1(AsWritten, t, idx, vid); } else { SetDepth2(AsWritten, t, idx, vid); }
  }

  // ---- what the key as written costs

  lemma {:induction false} PosShift(keys: seq<nat>, k: nat, j: nat, i: nat)
    requires i <= |keys|
    ensures PosFrom([k] + keys, j, i + 1) == PosFrom(keys, j, i) + 1
    decreases |keys| - i
  {
    if i < |keys| && keys[i] < j { PosShift(keys, k, j, i + 1); }
  }

  /** The new left half goes to the front of the root, under the key 0. */
  lemma WrittenRoot(t: Tree, p: nat)
    requires HasNodes(t) && p < |t.root| < MAX_INDIRECT && |Leaf(t, p)| >= 2
    ensures Split(AsWritten, t, p).root == [Indirect(0, t.counter)] + t.root
  {
    assert Pos(RootKeys(t.root), 0) == 0;
  }

  lemma WrittenPos(root: seq<Indirect>, e: Indirect, j: nat)
    requires e.idx == 0
    ensures Pos(RootKeys([e] + root), j) == if j == 0 then 0 else Pos(RootKeys(root), j) + 1
  {
    assert RootKeys([e] + root) == [0] + RootKeys(root);
    PosShift(RootKeys(root), 0, j, 0);
  }

  /** Past such a split, leaf p answers only from its right half, and index 0 only from the left. */
  lemma WrittenGet(t: Tree, p: nat, j: nat)
    requires t.depth == 2 && Rooted(t) && p < |t.root| < MAX_INDIRECT && |Leaf(t, p)| >= 2
    ensures HasNodes(Split(AsWritten, t, p))
    ensures var leaf := Leaf(t, p); var n := |leaf| / 2;
      Get(Split(AsWritten, t, p), j) ==
        if j == 0 then Value(leaf[..n], 0) else if Pos(RootKeys(t.root), j) == p then Value(leaf[n..], j) else Get(t, j)
  {
    hide AddToRoot, Value;
    SplitNodes(AsWritten, t, p);
    WrittenRoot(t, p);
    WrittenPos(t.root, Indirect(0, t.counter), j);
  }

  /** A turn that finds room inserts, even in a tree whose keys are no longer right. */
  lemma OnceInserts(mode: Mode, t: Tree, idx: nat, vid: nat, q: nat)
    requires t.depth == 2 && HasNodes(t) && DistinctNodes(t) && q == Pos(RootKeys(t.root), idx) < |t.root|
    requires Sorted(Leaf(t, q)) && |Leaf(t, q)| < MAX_INDEX && !Found(Leaf(t, q), idx)
    ensures var o := Once(mode, t, idx, vid); o.Done? && HasNodes(o.tree) && IsSet(t, o.tree, idx, vid)
  {
    hide Value, Found;
    var leaf := Leaf(t, q);
    forall j: nat ensures Value(Inserted(leaf, Index(idx, vid)), j) == if j == idx then Some(vid) else Value(leaf, j) {
      InsertedValue(leaf, Index(idx, vid), j);
    }
    WithLeafSet(t, q, Inserted(leaf, Index(idx, vid)), idx, vid);
  }

  lemma HalfNotFound(leaf: seq<Index>, n: nat, idx: nat)
    requires Sorted(leaf) && !Found(leaf, idx) && n <= |leaf|
    ensures !Found(leaf[..n], idx) && !Found(leaf[n..], idx)
  {
    forall i | 0 <= i < |leaf| ensures leaf[i].idx != idx { ValueAt(leaf, i); }
    ValueNone(leaf[..n], idx); ValueNone(leaf[n..], idx);
  }

  /** Where the second turn ends up, and that there is room for idx there. */
  lemma WrittenReady(t: Tree, idx: nat)
    requires Valid(t) && Splits(t, idx) && Growable(t)
    ensures var t1 := Split(AsWritten, t, Pos(RootKeys(t.root), idx));
      HasNodes(t1) && DistinctNodes(t1) && var q := Pos(RootKeys(t1.root), idx);
      q < |t1.root| && Sorted(Leaf(t1, q)) && |Leaf(t1, q)| < MAX_INDEX && !Found(Leaf(t1, q), idx)
  {
    hide Value, Found, AddToRoot;
    var p := Pos(RootKeys(t.root), idx);
    var leaf := Leaf(t, p);
    assert Fits(t, p);
    SplitNodes(AsWritten, t, p);
    SplitSorted(leaf, |leaf| / 2);
    HalfNotFound(leaf, |leaf| / 2, idx);
    WrittenRoot(t, p);
    WrittenPos(t.root, Indirect(0, t.counter), idx);
  }

  lemma WrittenAgain(t: Tree, idx: nat, vid: nat)
    requires Valid(t) && Splits(t, idx) && Growable(t)
    ensures var o := Set(AsWritten, t, idx, vid);
      var t1 := Split(AsWritten, t, Pos(RootKeys(t.root), idx));
      HasNodes(t1) && o.Done? && HasNodes(o.tree) && IsSet(t1, o.tree, idx, vid)
  {
    hide Value, Found, AddToRoot;
    WrittenReady(t, idx);
    var t1 := Split(AsWritten, t, Pos(RootKeys(t.root), idx));
    OnceInserts(AsWritten, t1, idx, vid, Pos(RootKeys(t1.root), idx));
  }

  /** The left half of leaf p holds nothing that would be missed. */
  ghost predicate NothingLost(t: Tree, p: nat)
    requires HasNodes(t) && p < |t.root|
  {
    var leaf := Leaf(t, p);
    (forall i :: 0 <= i < |leaf| / 2 && leaf[i].idx != 0 ==> leaf[i].vid == 0) && (p > 0 ==> Vid(Get(t, 0)) == 0)
  }

  lemma RightOnly(leaf: seq<Index>, n: nat, i: nat)
    requires Sorted(leaf) && i < n <= |leaf|
    ensures Value(leaf[n..], leaf[i].idx) == None
  {
    forall k | 0 <= k < |leaf| - n ensures leaf[n..][k].idx != leaf[i].idx { assert Keys(leaf)[i] < Keys(leaf)[n + k]; }
    ValueNone(leaf[n..], leaf[i].idx);
  }

  lemma LostAt(t: Tree, p: nat, i: nat)
    requires t.depth == 2 && Rooted(t) && p < |t.root| < MAX_INDIRECT && i < |Leaf(t, p)| / 2
    requires Leaf(t, p)[i].idx != 0
    ensures HasNodes(Split(AsWritten, t, p)) && Get(t, Leaf(t, p)[i].idx) == Some(Leaf(t, p)[i].vid)
    ensures Get(Split(AsWritten, t, p), Leaf(t, p)[i].idx) == None
  {
    hide Value;
    var leaf := Leaf(t, p);
    assert Fits(t, p);
    LeafRange(t, p, i);
    PosUnique(RootKeys(t.root), leaf[i].idx, p);
    ValueAt(leaf, i);
    RightOnly(leaf, |leaf| / 2, i);
    WrittenGet(t, p, leaf[i].idx);
  }

  lemma LostZero(t: Tree, p: nat)
    requires t.depth == 2 && Rooted(t) && 0 < p < |t.root| < MAX_INDIRECT && |Leaf(t, p)| >= 2
    ensures HasNodes(Split(AsWritten, t, p)) && Get(Split(AsWritten, t, p), 0) == None
  {
    hide Value;
    var leaf := Leaf(t, p);
    WrittenGet(t, p, 0);
    forall i | 0 <= i < |leaf| / 2 ensures leaf[..|leaf| / 2][i].idx != 0 { LeafRange(t, p, i); }
    ValueNone(leaf[..|leaf| / 2], 0);
  }

  lemma KeptAt(t: Tree, p: nat, j: nat)
    requires t.depth == 2 && Rooted(t) && p < |t.root| < MAX_INDIRECT && |Leaf(t, p)| >= 2 && NothingLost(t, p)
    ensures HasNodes(Split(AsWritten, t, p)) && Vid(Get(Split(AsWritten, t, p), j)) == Vid(Get(t, j))
  {
    hide Value;
    var leaf := Leaf(t, p);
    var n := |leaf| / 2;
    assert Fits(t, p);
    WrittenGet(t, p, j);
    SplitValue(leaf, n, j);
    if j == 0 {
      if p > 0 { LostZero(t, p); }
    } else if Pos(RootKeys(t.root), j) == p && j <= leaf[n - 1].idx {
      LeftIsZero(leaf, n, j);
    }
  }

  lemma LeftIsZero(leaf: seq<Index>, n: nat, j: nat)
    requires Sorted(leaf) && 0 < n <= |leaf| && j != 0 && j <= leaf[n - 1].idx
    requires forall i :: 0 <= i < n && leaf[i].idx != 0 ==> leaf[i].vid == 0
    ensures Vid(Value(leaf[..n], j)) == 0 && Value(leaf[n..], j) == None
  {
    forall k | 0 <= k < |leaf| - n ensures leaf[n..][k].idx != j { assert Keys(leaf)[n - 1] < Keys(leaf)[n + k]; }
    ValueNone(leaf[n..], j);
  }

  /** When a leaf is split, the code as written still behaves like a map update if and only if the
      left half holds no vdi id that matters; otherwise those become unreachable. */
  lemma SplitAsWrittenExact(t: Tree, idx: nat, vid: nat)
    requires Valid(t) && Splits(t, idx) && Growable(t)
    ensures var o := Set(AsWritten, t, idx, vid);
      o.Done? && HasNodes(o.tree) && (ReadsAsSet(t, o.tree, idx, vid) <==> NothingLost(t, Pos(RootKeys(t.root), idx)))
  {
    hide Value, Found, Split, Once;
    var p := Pos(RootKeys(t.root), idx);
    WrittenAgain(t, idx, vid);
    var leaf, t1, t2 := Leaf(t, p), Split(AsWritten, t, p), Set(AsWritten, t, idx, vid).tree;
    if NothingLost(t, p) {
      forall j: nat ensures Vid(Get(t2, j)) == if j == idx then vid else Vid(Get(t, j)) { KeptAt(t, p, j); }
    } else if i :| 0 <= i < |leaf| / 2 && leaf[i].idx != 0 && leaf[i].vid != 0 {
      LostAt(t, p, i);
      assert Fits(t, p);
      FreshDiffers(leaf, i, idx);
      assert Get(t2, leaf[i].idx) == Get(t1, leaf[i].idx);
    } else {
      LostZero(t, p);
      assert RootKeys(t.root)[0] < idx;
      assert Get(t2, 0) == Get(t1, 0);
    }
  }

  lemma FreshDiffers(leaf: seq<Index>, i: nat, idx: nat)
    requires i < |leaf| && !Found(leaf, idx) && Sorted(leaf)
    ensures leaf[i].idx != idx
  {
    ValueAt(leaf, i);
  }

  // ---- a full root

  lemma FullRootGet(mode: Mode, t: Tree, p: nat, j: nat)
    requires t.depth == 2 && Rooted(t) && p < |t.root| == MAX_INDIRECT && |Leaf(t, p)| >= 2
    ensures HasNodes(Split(mode, t, p))
    ensures Get(Split(mode, t, p), j) == if Pos(RootKeys(t.root), j) == p then Value(Leaf(t, p)[|Leaf(t, p)| / 2..], j)
      else Get(t, j)
  {
    hide Value;
    SplitNodes(mode, t, p);
  }

  lemma FullRootReady(mode: Mode, t: Tree, idx: nat)
    requires Valid(t) && Splits(t, idx) && !Growable(t)
    ensures var p := Pos(RootKeys(t.root), idx); var t1 := Split(mode, t, p);
      HasNodes(t1) && t1.root == t.root && Sorted(Leaf(t1, p)) && |Leaf(t1, p)| < MAX_INDEX && !Found(Leaf(t1, p), idx)
  {
    hide Value, Found;
    var p := Pos(RootKeys(t.root), idx);
    var leaf := Leaf(t, p);
    assert Fits(t, p);
    SplitNodes(mode, t, p);
    SplitSorted(leaf, |leaf| / 2);
    HalfNotFound(leaf, |leaf| / 2, idx);
  }

  lemma FullRootAgain(mode: Mode, t: Tree, idx: nat, vid: nat)
    requires Valid(t) && Splits(t, idx) && !Growable(t)
    ensures var o := Set(mode, t, idx, vid);
      var t1 := Split(mode, t, Pos(RootKeys(t.root), idx));
      HasNodes(t1) && o.Done? && HasNodes(o.tree) && IsSet(t1, o.tree, idx, vid)
  {
    hide Value, Found;
    FullRootReady(mode, t, idx);
    OnceInserts(mode, Split(mode, t, Pos(RootKeys(t.root), idx)), idx, vid, Pos(RootKeys(t.root), idx));
  }

  /** When the root is full as well, the entry for the left half is dropped without notice, and the
      set is right if and only if that half held no vdi ids. */
  lemma FullRootExact(mode: Mode, t: Tree, idx: nat, vid: nat)
    requires Valid(t) && Splits(t, idx) && !Growable(t)
    ensures var o := Set(mode, t, idx, vid); var leaf := Leaf(t, Pos(RootKeys(t.root), idx));
      o.Done? && HasNodes(o.tree) &&
      (ReadsAsSet(t, o.tree, idx, vid) <==> forall i :: 0 <= i < |leaf| / 2 ==> leaf[i].vid == 0)
  {
    hide Value, Found, Split, Once;
    var p := Pos(RootKeys(t.root), idx);
    FullRootAgain(mode, t, idx, vid);
    var leaf, t1, t2 := Leaf(t, p), Split(mode, t, p), Set(mode, t, idx, vid).tree;
    assert Fits(t, p);
    if i :| 0 <= i < |leaf| / 2 && leaf[i].vid != 0 {
      LeafRange(t, p, i);
      PosUnique(RootKeys(t.root), leaf[i].idx, p);
      ValueAt(leaf, i);
      RightOnly(leaf, |leaf| / 2, i);
      FullRootGet(mode, t, p, leaf[i].idx);
      FreshDiffers(leaf, i, idx);
      assert Get(t2, leaf[i].idx) == Get(t1, leaf[i].idx);
    } else {
      forall j: nat ensures Vid(Get(t2, j)) == if j == idx then vid else Vid(Get(t, j)) {
        FullRootGet(mode, t, p, j);
        SplitValue(leaf, |leaf| / 2, j);
        if j <= leaf[|leaf| / 2 - 1].idx { LeftAllZero(leaf, |leaf| / 2, j); }
      }
    }
  }

  lemma LeftAllZero(leaf: seq<Index>, n: nat, j: nat)
    requires Sorted(leaf) && 0 < n <= |leaf| && j <= leaf[n - 1].idx
    requires forall i :: 0 <= i < n ==> leaf[i].vid == 0
    ensures Vid(Value(leaf[..n], j)) == 0 && Value(leaf[n..], j) == None
  {
    forall k | 0 <= k < |leaf| - n ensures leaf[n..][k].idx != j { assert Keys(leaf)[n - 1] < Keys(leaf)[n + k]; }
    ValueNone(leaf[n..], j);
  }

  // ---- how full the leaves are

  const INDEX_LIMIT: nat := 0x1_0000_0000
  const HALF: nat := 262143

  /** Indices are 32-bit, and every leaf but the last holds at least half of what it could. */
  ghost predicate Packed(t: Tree) {
    match t.depth
    case 1 => forall i :: 0 <= i < |t.leaf| ==> t.leaf[i].idx < INDEX_LIMIT
    case 2 =>
      HasNodes(t) && |t.root| > 0 && t.root[|t.root| - 1].idx < INDEX_LIMIT &&
      forall i :: 0 <= i < |t.root| - 1 ==> |Leaf(t, i)| >= HALF
    case _ => true
  }

  lemma {:induction false} KeysSpread(keys: seq<nat>, n: nat)
    requires Increasing(keys) && 0 < n <= |keys|
    ensures keys[n - 1] >= keys[0] + n - 1
  {
    if n > 1 { KeysSpread(keys, n - 1); }
  }

  /** Each leaf but the last takes HALF different indices. */
  lemma {:induction false} RootSpread(t: Tree, i: nat)
    requires t.depth == 2 && Rooted(t) && Packed(t) && i < |t.root| - 1
    ensures t.root[i].idx + 1 >= HALF * (i + 1)
  {
    assert Fits(t, i);
    var leaf := Leaf(t, i);
    KeysSpread(Keys(leaf), |leaf|);
    if i > 0 { RootSpread(t, i - 1); }
  }

  /** So the root stays far from full: at most 16385 entries of 262143, and no entry is ever dropped. */
  lemma RootNeverFull(t: Tree)
    requires Valid(t) && Packed(t)
    ensures t.depth == 2 ==> |t.root| <= 16385
    ensures Growable(t)
  {
    if t.depth == 2 && |t.root| > 1 {
      var i := |t.root| - 2;
      RootSpread(t, i);
      assert RootKeys(t.root)[i] < RootKeys(t.root)[i + 1];
    }
  }

  lemma WithLeafPacked(t: Tree, p: nat, leaf: seq<Index>)
    requires t.depth == 2 && Packed(t) && DistinctNodes(t) && p < |t.root| && |leaf| >= |Leaf(t, p)|
    ensures Packed(WithLeaf(t, p, leaf))
  {
    var t' := WithLeaf(t, p, leaf);
    forall i | 0 <= i < |t'.root| - 1 ensures |Leaf(t', i)| >= HALF { assert |Leaf(t, i)| >= HALF; }
  }

  lemma AppendedLast(leaf: seq<Index>, e: Index)
    requires Sorted(leaf) && |leaf| > 0 && leaf[|leaf| - 1].idx < e.idx
    ensures Inserted(leaf, e)[|leaf|] == e
  {
    PosUnique(Keys(leaf), e.idx, |leaf|);
  }

  /** A turn that does not split keeps the leaves packed. */
  lemma OncePacked(mode: Mode, t: Tree, idx: nat, vid: nat)
    requires t.depth == 2 && Rooted(t) && Packed(t) && idx < INDEX_LIMIT && Once(mode, t, idx, vid).Done?
    ensures Packed(Once(mode, t, idx, vid).tree)
  {
    hide Inserted, Found;
    var p, t' := Pos(RootKeys(t.root), idx), Once(mode, t, idx, vid).tree;
    if p < |t.root| {
      WithLeafPacked(t, p, t'.nodes[t.root[p].oid]);
    } else if |Leaf(t, p - 1)| < MAX_INDEX {
      assert Fits(t, p - 1);
      AppendedLast(Leaf(t, p - 1), Index(idx, vid));
      forall i | 0 <= i < |t'.root| - 1 ensures |Leaf(t', i)| >= HALF { assert |Leaf(t, i)| >= HALF; }
    } else {
      forall i | 0 <= i < |t'.root| - 1 ensures |Leaf(t', i)| >= HALF {
        assert i < |t.root| - 1 ==> |Leaf(t, i)| >= HALF;
        assert Fits(t, i);
      }
    }
  }

  lemma TransferPacked(t: Tree)
    requires t.depth == 1 && Packed(t) && Sorted(t.leaf) && |t.leaf| == MAX_INDEX
    ensures Packed(Transferred(t))
  {
    hide AddToRoot, Sorted;
    TransferredRoot(t);
  }

  lemma SplitPacked(t: Tree, p: nat)
    requires t.depth == 2 && Rooted(t) && Packed(t) && p < |t.root| < MAX_INDIRECT && |Leaf(t, p)| == MAX_INDEX
    ensures Packed(Split(AsIntended, t, p))
  {
    hide AddToRoot, InsertAt, Sorted;
    var leaf := Leaf(t, p);
    var n := |leaf| / 2;
    SplitBetween(t, p, n);
    SplitRoot(t, p, Indirect(leaf[n - 1].idx, t.counter));
    var t' := Split(AsIntended, t, p);
    SplitNodes(AsIntended, t, p);
    forall i | 0 <= i < |t'.root| - 1 ensures |Leaf(t', i)| >= HALF {
      assert i < p ==> |Leaf(t, i)| >= HALF;
      assert i > p + 1 ==> |Leaf(t, i - 1)| >= HALF;
    }
  }

  lemma LeafPacked(mode: Mode, t: Tree, idx: nat, vid: nat)
    requires Valid(t) && Packed(t) && t.depth <= 1 && idx < INDEX_LIMIT && Once(mode, t, idx, vid).Done?
    ensures Packed(Once(mode, t, idx, vid).tree)
  {
    hide Found;
    var t' := Once(mode, t, idx, vid).tree;
    forall i | 0 <= i < |t'.leaf| ensures t'.leaf[i].idx < INDEX_LIMIT {}
  }

  /** Every set keeps the leaves packed; as written, every set that splits no leaf. */
  lemma SetPacked(mode: Mode, t: Tree, idx: nat, vid: nat)
    requires Valid(t) && Packed(t) && idx < INDEX_LIMIT && (mode == AsWritten ==> !Splits(t, idx))
    ensures var o := Set(mode, t, idx, vid); o.Done? && Valid(o.tree) && Packed(o.tree) && IsSet(t, o.tree, idx, vid)
  {
    hide Once, Found, Packed, IsSet;
    RootNeverFull(t);
    if mode == AsWritten { SetAsWritten(t, idx, vid); } else { SetRefines(t, idx, vid); }
    match Once(mode, t, idx, vid)
    case Done(_) =>
      if t.depth == 2 { OncePacked(mode, t, idx, vid); } else { LeafPacked(mode, t, idx, vid); }
    case Again(t1) =>
      AgainPacked(mode, t, idx, vid);
      OncePacked(mode, t1, idx, vid);
    case Panic =>
  }

  lemma AgainPacked(mode: Mode, t: Tree, idx: nat, vid: nat)
    requires Valid(t) && Packed(t) && Growable(t) && Once(mode, t, idx, vid).Again?
    requires mode == AsWritten ==> !Splits(t, idx)
    ensures var t1 := Once(mode, t, idx, vid).tree; t1.depth == 2 && Rooted(t1) && Packed(t1)
  {
    hide Found, Transferred, Split, Packed;
    if t.depth == 2 {
      var p := Pos(RootKeys(t.root), idx);
      assert Fits(t, p);
      SplitKeeps(t, p);
      SplitPacked(t, p);
    } else {
      TransferKeeps(t);
      TransferPacked(t);
    }
  }

  // ---- whole runs

  /** The vdi id last set for j. */
  function LastSet(ops: seq<Index>, n: nat, j: nat): (v: Option<nat>)
    requires n <= |ops|
  {
    if n == 0 then None else if ops[n - 1].idx == j then Some(ops[n - 1].vid) else LastSet(ops, n - 1, j)
  }

  /** A set of a 32-bit index that, in the code as written, splits no leaf. */
  ghost predicate Sets(mode: Mode, t: Tree, e: Index, t': Tree) {
    e.idx < INDEX_LIMIT &&
    (Valid(t) && Packed(t) ==> (mode == AsWritten ==> !Splits(t, e.idx)) && Set(mode, t, e.idx, e.vid) == Done(t'))
  }

  ghost predicate Trace(mode: Mode, ts: seq<Tree>, ops: seq<Index>) {
    |ts| == |ops| + 1 && ts[0] == EMPTY && forall i :: 0 <= i < |ops| ==> Sets(mode, ts[i], ops[i], ts[i + 1])
  }

  /** Every run refines a map: get finds the vid set last, and nothing where none was. The root never
      fills up. */
  lemma {:induction false} RunRefines(mode: Mode, ts: seq<Tree>, ops: seq<Index>, n: nat)
    requires Trace(mode, ts, ops) && n < |ts|
    ensures Valid(ts[n]) && Packed(ts[n]) && Growable(ts[n])
    ensures forall j: nat :: Get(ts[n], j) == LastSet(ops, n, j)
  {
    hide Set, Splits, Value, Packed;
    if n > 0 {
      RunRefines(mode, ts, ops, n - 1);
      var e := ops[n - 1];
      assert Sets(mode, ts[n - 1], e, ts[n]);
      SetPacked(mode, ts[n - 1], e.idx, e.vid);
    }
    EmptyPacked();
    RootNeverFull(ts[n]);
  }

  lemma EmptyPacked()
    ensures Valid(EMPTY) && Packed(EMPTY)
  {}

  // ---- a run that ends in a split

  /** Entries for the even indices 2a, ..., 2(b - 1). */
  function Evens(a: nat, b: nat): (q: seq<Index>)
    requires a <= b
    ensures |q| == b - a && forall i :: 0 <= i < b - a ==> q[i] == Index(2 * (a + i), 1)
  {
    seq(b - a, i requires 0 <= i => Index(2 * (a + i), 1))
  }

  /** The tree after the first k even indices are set in order. */
  function Grown(k: nat): (t: Tree) {
    if k == 0 then EMPTY
    else if k <= MAX_INDEX then Tree(1, Evens(0, k), [], map[], 0)
    else Tree(2, [], [Indirect(2 * (HALF - 1), 0), Indirect(2 * (k - 1), 1)],
      map[0 := Evens(0, HALF), 1 := Evens(HALF, k)], 2)
  }

  lemma EvensSorted(a: nat, b: nat)
    requires a <= b
    ensures Sorted(Evens(a, b)) && !Found(Evens(a, b), 2 * b)
    ensures Inserted(Evens(a, b), Index(2 * b, 1)) == Evens(a, b + 1)
  {
    var q := Evens(a, b);
    PosUnique(Keys(q), 2 * b, b - a);
  }

  lemma GrownRooted(k: nat)
    requires MAX_INDEX < k <= HALF + MAX_INDEX
    ensures Rooted(Grown(k)) && Packed(Grown(k)) && Pos(RootKeys(Grown(k).root), 2 * k) == 2
    ensures forall m: nat :: HALF <= m < k ==> Pos(RootKeys(Grown(k).root), 2 * m + 1) == if m < k - 1 then 1 else 2
  {
    hide Evens, Sorted;
    var t := Grown(k);
    EvensSorted(0, HALF);
    EvensSorted(HALF, k);
    PosUnique(RootKeys(t.root), 2 * k, 2);
    forall m: nat | HALF <= m < k ensures Pos(RootKeys(t.root), 2 * m + 1) == if m < k - 1 then 1 else 2 {
      PosUnique(RootKeys(t.root), 2 * m + 1, if m < k - 1 then 1 else 2);
    }
  }

  lemma GrownTransfers(k: nat)
    requires k == MAX_INDEX
    ensures var t := Transferred(Grown(k));
      t.depth == 2 && t.root == [Indirect(2 * (HALF - 1), 0), Indirect(2 * (k - 1), 1)] && t.counter == 2 &&
      t.leaf == [] && t.nodes == map[0 := Evens(0, HALF), 1 := Evens(HALF, k)]
  {
    hide AddToRoot, Sorted;
    var t := Grown(k);
    EvensSorted(0, k);
    TransferredRoot(t);
    assert t.leaf[..HALF] == Evens(0, HALF) && t.leaf[HALF..] == Evens(HALF, k);
  }

  /** Appending the next even index. */
  lemma AppendsEven(mode: Mode, t: Tree, k: nat)
    requires MAX_INDEX <= k < HALF + MAX_INDEX && t.leaf == [] && t.counter == 2 && t.depth == 2
    requires t.root == [Indirect(2 * (HALF - 1), 0), Indirect(2 * (k - 1), 1)]
    requires t.nodes == map[0 := Evens(0, HALF), 1 := Evens(HALF, k)]
    ensures Once(mode, t, 2 * k, 1) == Done(Grown(k + 1))
  {
    hide Evens, Inserted;
    EvensSorted(HALF, k);
    PosUnique(RootKeys(t.root), 2 * k, 2);
    assert t.nodes[1 := Evens(HALF, k + 1)] == Grown(k + 1).nodes;
  }

  lemma GrownStep(k: nat)
    requires k < HALF + MAX_INDEX
    ensures Valid(Grown(k)) && Packed(Grown(k)) && !Splits(Grown(k), 2 * k)
    ensures Set(AsWritten, Grown(k), 2 * k, 1) == Done(Grown(k + 1))
  {
    hide Evens, Inserted, Transferred, Found;
    var t := Grown(k);
    EvensSorted(0, k);
    if k == MAX_INDEX {
      GrownTransfers(k);
      AppendsEven(AsWritten, Transferred(t), k);
    } else if k > MAX_INDEX {
      GrownRooted(k);
      AppendsEven(AsWritten, t, k);
    } else {
      assert Evens(0, 0) == [];
    }
  }

  /** A run of the code as written that sets 786430 even indices in order, and then an odd one within
      the last leaf: that leaf is full, is split, and what its left half held can no longer be read. */
  lemma SplitLosesVids() returns (ts: seq<Tree>, ops: seq<Index>, t: Tree)
    ensures Trace(AsWritten, ts, ops) && t == ts[|ops|]
    ensures Valid(t) && Packed(t) && Splits(t, 2 * HALF + 1)
    ensures var o := Set(AsWritten, t, 2 * HALF + 1, 1);
      o.Done? && HasNodes(o.tree) && !ReadsAsSet(t, o.tree, 2 * HALF + 1, 1)
    ensures Get(t, 2 * HALF) == Some(1)
  {
    hide Set, Evens, Splits, Sorted, Rooted;
    var n := HALF + MAX_INDEX;
    ts, ops := seq(n + 1, k requires 0 <= k => Grown(k)), seq(n, k requires 0 <= k => Index(2 * k, 1));
    t := Grown(n);
    forall k | 0 <= k < n ensures Sets(AsWritten, ts[k], ops[k], ts[k + 1]) { GrownStep(k); }
    GrownSplits(n);
    RootNeverFull(t);
    SplitAsWrittenExact(t, 2 * HALF + 1, 1);
  }

  lemma GrownSplits(n: nat)
    requires n == HALF + MAX_INDEX
    ensures Valid(Grown(n)) && Packed(Grown(n)) && Splits(Grown(n), 2 * HALF + 1) && Get(Grown(n), 2 * HALF) == Some(1)
    ensures Pos(RootKeys(Grown(n).root), 2 * HALF + 1) == 1 && !NothingLost(Grown(n), 1)
  {
    hide Evens;
    var t := Grown(n);
    GrownRooted(n);
    EvensSorted(HALF, n);
    var leaf := Leaf(t, 1);
    ValueNone(leaf, 2 * HALF + 1);
    ValueAt(leaf, 0);
    PosUnique(RootKeys(t.root), 2 * HALF, 1);
    assert leaf[0].idx == 2 * HALF && leaf[0].vid == 1;
  }
}
