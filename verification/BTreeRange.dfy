/** What setting a range of indices through the write-back cache does to the tree: a set of an index
    that has its entry in a cached leaf is lost (lib/sd_inode.c:685-687, 706-737). Which ones are is
    told here from the tree before the range alone. */
module BTreeRange {
  import opened Options
  import opened Sequences
  import opened BTree

  // ---- which leaf an index falls into while the range is set

  /** One leaf with these keys, or leaves that end at these keys. */
  datatype Layout = Flat(keys: seq<nat>) | Fenced(keys: seq<nat>)

  predicate Listed(keys: seq<nat>, i: nat) {
    Pos(keys, i) < |keys| && keys[Pos(keys, i)] == i
  }

  /** A single leaf takes new indices until it is full; the next one makes it two halves. After that
      indices below the last key move no fence. */
  function Next(f: Layout, i: nat): (r: Layout) {
    match f
    case Fenced(_) => f
    case Flat(keys) =>
      if Listed(keys, i) then f
      else if |keys| < MAX_INDEX then Flat(InsertAt(keys, Pos(keys, i), i))
      else Fenced([keys[MAX_INDEX / 2 - 1], keys[|keys| - 1]])
  }

  /** The layout of t once the n indices from `start` on are set. */
  function After(t: Tree, start: nat, n: nat): (f: Layout) {
    if n > 0 then Next(After(t, start, n - 1), start + n - 1)
    else if t.depth == 2 then Fenced(RootKeys(t.root))
    else Flat(Keys(t.leaf))
  }

  lemma {:induction false} FencesStay(t: Tree, start: nat, m: nat, n: nat)
    requires m <= n && After(t, start, m).Fenced?
    ensures After(t, start, n) == After(t, start, m)
  {
    if m < n { FencesStay(t, start, m, n - 1); }
  }

  /** When i is set, as part of the range, it goes to the leaf that j belongs to. */
  ghost predicate SameLeaf(t: Tree, start: nat, i: nat, j: nat)
    requires start <= i
  {
    var f := After(t, start, i + 1 - start);
    f.Fenced? && Pos(f.keys, i) == Pos(f.keys, j)
  }

  /** j has an entry in t, and a new index of the range before it goes to the same leaf. */
  ghost predicate Shadowed(t: Tree, start: nat, j: nat)
    requires HasNodes(t)
  {
    HasEntry(t, j) && Covered(t, start, j, j)
  }

  ghost predicate Covered(t: Tree, start: nat, idx: nat, j: nat)
    requires HasNodes(t)
  {
    exists i {:trigger SameLeaf(t, start, i, j)} :: start <= i < idx && !HasEntry(t, i) && SameLeaf(t, start, i, j)
  }

  /** The answers once [start, idx) has been set to vid through the cache. */
  ghost function Ranged(t: Tree, start: nat, idx: nat, vid: nat, j: nat): (v: Option<nat>)
    requires HasNodes(t)
  {
    if start <= j < idx && !Shadowed(t, start, j) then Some(vid) else Get(t, j)
  }

  /** Every shadowed index of [start, idx) has the vid already. */
  ghost predicate NoneLost(t: Tree, start: nat, idx: nat, vid: nat)
    requires HasNodes(t)
  {
    forall j :: start <= j < idx && Shadowed(t, start, j) ==> Get(t, j) == Some(vid)
  }

  lemma PosOrder(keys: seq<nat>, i: nat, j: nat)
    requires i <= j
    ensures Pos(keys, i) <= Pos(keys, j)
  {}

  lemma SameLeafLater(t: Tree, start: nat, i: nat, idx: nat, j: nat, f: Layout)
    requires start <= i <= idx < j && f == After(t, start, idx + 1 - start) && SameLeaf(t, start, i, j)
    ensures f.Fenced? && Pos(f.keys, idx) == Pos(f.keys, j)
  {
    hide After, Pos;
    FencesStay(t, start, i + 1 - start, idx + 1 - start);
    PosOrder(f.keys, i, idx);
    PosOrder(f.keys, idx, j);
  }

  /** A new index covers later ones of its leaf; those covered before it in that leaf are of it too. */
  lemma CoveredNext(t: Tree, start: nat, idx: nat, j: nat, f: Layout)
    requires HasNodes(t) && start <= idx < j && f == After(t, start, idx + 1 - start)
    ensures HasEntry(t, idx) ==> (Covered(t, start, idx + 1, j) <==> Covered(t, start, idx, j))
    ensures !HasEntry(t, idx) && f.Fenced? ==> (Covered(t, start, idx + 1, j) <==> Pos(f.keys, idx) == Pos(f.keys, j))
    ensures f.Flat? ==> !Covered(t, start, idx + 1, j)
  {
    hide HasEntry, HasNodes, After, Pos;
    if f.Fenced? && Pos(f.keys, idx) == Pos(f.keys, j) { assert SameLeaf(t, start, idx, j); }
    if Covered(t, start, idx + 1, j) {
      var i :| start <= i < idx + 1 && !HasEntry(t, i) && SameLeaf(t, start, i, j);
      SameLeafLater(t, start, i, idx, j, f);
    }
  }

  /** In a tree with two levels an index is shadowed if and only if a new index of the range before it
      belongs to its leaf. */
  lemma ShadowedTwoLevels(t: Tree, start: nat, j: nat)
    requires t.depth == 2 && HasNodes(t)
    ensures Shadowed(t, start, j) <==>
      HasEntry(t, j) && exists i ::
        start <= i < j && !HasEntry(t, i) && Pos(RootKeys(t.root), i) == Pos(RootKeys(t.root), j)
  {
    forall i | start <= i ensures SameLeaf(t, start, i, j) <==> Pos(RootKeys(t.root), i) == Pos(RootKeys(t.root), j) {
      FencesStay(t, start, 0, i + 1 - start);
    }
  }

  lemma {:induction false} FlatBefore(t: Tree, start: nat, m: nat, n: nat)
    requires m <= n && After(t, start, n).Flat?
    ensures After(t, start, m).Flat?
  {
    if m < n { FlatBefore(t, start, m, n - 1); }
  }

  /** While a single leaf takes the whole range nothing is lost. */
  lemma OneLeafLosesNothing(t: Tree, start: nat, idx: nat, vid: nat)
    requires HasNodes(t) && start <= idx && After(t, start, idx - start).Flat?
    ensures NoneLost(t, start, idx, vid)
  {
    forall j | start <= j < idx && Shadowed(t, start, j) ensures false {
      var i :| start <= i < j && !HasEntry(t, i) && SameLeaf(t, start, i, j);
      FlatBefore(t, start, i + 1 - start, idx - start);
    }
  }

  /** Nor does a range of indices that are all new, or all there already, or a single index. */
  lemma UniformLosesNothing(t: Tree, start: nat, idx: nat, vid: nat)
    requires HasNodes(t)
    requires (forall j :: start <= j < idx ==> HasEntry(t, j)) || (forall j :: start <= j < idx ==> !HasEntry(t, j)) ||
      idx <= start + 1
    ensures NoneLost(t, start, idx, vid)
  {}

  // ---- trees that differ in vids only

  function Blanked(leaf: seq<Index>): (r: seq<Index>)
    ensures |r| == |leaf| && forall i :: 0 <= i < |leaf| ==> r[i] == Index(leaf[i].idx, 0)
  {
    seq(|leaf|, i requires 0 <= i < |leaf| => Index(leaf[i].idx, 0))
  }

  ghost function Shape(t: Tree): (r: Tree) {
    t.(leaf := Blanked(t.leaf), nodes := map o | o in t.nodes :: Blanked(t.nodes[o]))
  }

  ghost function ShapeOf(o: Outcome): (r: Outcome) {
    match o case Done(t) => Done(Shape(t)) case Again(t) => Again(Shape(t)) case Panic => Panic
  }

  lemma BlankedKeys(leaf: seq<Index>, j: nat)
    ensures Keys(Blanked(leaf)) == Keys(leaf) && (Found(Blanked(leaf), j) <==> Found(leaf, j))
  {
    assert Keys(Blanked(leaf)) == Keys(leaf);
  }

  lemma BlankedEdits(leaf: seq<Index>, idx: nat, vid: nat, n: nat)
    requires n <= |leaf|
    ensures Blanked(Inserted(leaf, Index(idx, vid))) == Inserted(Blanked(leaf), Index(idx, 0))
    ensures Found(leaf, idx) ==>
      Found(Blanked(leaf), idx) && Blanked(Updated(leaf, idx, vid)) == Updated(Blanked(leaf), idx, 0)
    ensures Found(leaf, idx) ==> Blanked(Updated(leaf, idx, vid)) == Blanked(leaf)
    ensures Blanked(leaf)[..n] == Blanked(leaf[..n]) && Blanked(leaf)[n..] == Blanked(leaf[n..])
  {
    BlankedKeys(leaf, idx);
  }

  lemma ShapeUpdate(t: Tree, t': Tree, oid: nat, leaf: seq<Index>)
    requires t'.nodes == t.nodes[oid := leaf]
    ensures Shape(t').nodes == Shape(t).nodes[oid := Blanked(leaf)]
  {}

  lemma ShapeParts(t: Tree)
    ensures Shape(t).depth == t.depth && Shape(t).root == t.root && Shape(t).counter == t.counter
    ensures HasNodes(Shape(t)) <==> HasNodes(t)
    ensures HasNodes(t) ==> forall i :: 0 <= i < |t.root| ==> Leaf(Shape(t), i) == Blanked(Leaf(t, i))
  {}

  lemma BlankedHalves(leaf: seq<Index>, n: nat)
    requires 0 < n < |leaf|
    ensures |Blanked(leaf)| == |leaf| && Blanked(leaf)[..n] == Blanked(leaf[..n])
    ensures Blanked(leaf)[n..] == Blanked(leaf[n..])
    ensures Blanked(leaf)[n - 1].idx == leaf[n - 1].idx && Blanked(leaf)[|leaf| - 1].idx == leaf[|leaf| - 1].idx
    ensures Blanked([]) == []
  {}

  lemma ShapeFields(t: Tree)
    ensures var b := Shape(t);
      b.depth == t.depth && b.root == t.root && b.counter == t.counter && b.leaf == Blanked(t.leaf)
  {}

  lemma TransferShape(t: Tree, n: nat)
    requires 2 <= |t.leaf| && n == |t.leaf| / 2
    ensures Transferred(Shape(t)) == Shape(Transferred(t))
  {
    hide AddToRoot, Blanked, Transferred, Shape;
    BlankedHalves(t.leaf, n);
    TransferredIs(t, n);
    ShapeFields(t);
    ShapeFields(Transferred(t));
    TransferredIs(Shape(t), n);
    var left, right := t.leaf[..n], t.leaf[n..];
    var t1 := t.(nodes := t.nodes[t.counter := left]);
    ShapeUpdate(t, t1, t.counter, left);
    ShapeUpdate(t1, Transferred(t), t.counter + 1, right);
  }

  lemma LeafOnceShape(t: Tree, idx: nat, vid: nat)
    requires t.depth <= 1 && t.root == [] && |t.leaf| <= MAX_INDEX
    ensures Once(AsWritten, Shape(t), idx, 0) == ShapeOf(Once(AsWritten, t, idx, vid))
  {
    hide Inserted, Updated, Found, Transferred;
    BlankedKeys(t.leaf, idx);
    BlankedEdits(t.leaf, idx, vid, |t.leaf| / 2);
    var t1 := if t.depth == 0 then t.(depth := 1) else t;
    if |t.leaf| == MAX_INDEX { TransferShape(t1, |t.leaf| / 2); }
  }

  lemma RootOnceShape(t: Tree, idx: nat, vid: nat)
    requires t.depth == 2 && HasNodes(t) && |t.root| > 0 && Once(AsWritten, t, idx, vid).Done?
    ensures HasNodes(Shape(t)) && Once(AsWritten, Shape(t), idx, 0) == ShapeOf(Once(AsWritten, t, idx, vid))
  {
    hide Inserted, Updated, Found;
    var p := Pos(RootKeys(t.root), idx);
    var q := if p < |t.root| then p else p - 1;
    var oid, leaf := t.root[q].oid, Leaf(t, q);
    ShapeParts(t);
    BlankedKeys(leaf, idx);
    BlankedEdits(leaf, idx, vid, |leaf| / 2);
    var t' := Once(AsWritten, t, idx, vid).tree;
    if p == |t.root| && |leaf| >= MAX_INDEX {
      ShapeUpdate(t, t', t.counter, [Index(idx, vid)]);
      assert Blanked([Index(idx, vid)]) == [Index(idx, 0)];
    } else {
      ShapeUpdate(t, t', oid, t'.nodes[oid]);
    }
  }

  /** A set that splits nothing does the same to the shapes of trees of one shape. */
  lemma SetShape(u: Tree, d: Tree, idx: nat, vid: nat)
    requires Valid(u) && Packed(u) && Valid(d) && Packed(d) && Shape(u) == Shape(d) && idx < INDEX_LIMIT
    requires !Splits(d, idx)
    ensures !Splits(u, idx) && Set(AsWritten, u, idx, vid).Done? && Set(AsWritten, d, idx, vid).Done?
    ensures Shape(Set(AsWritten, u, idx, vid).tree) == Shape(Set(AsWritten, d, idx, vid).tree)
  {
    hide Once, Found, Packed, Splits, Rooted, Valid, Shape, IsSet;
    SplitsShape(u, d, idx);
    SetPacked(AsWritten, u, idx, vid);
    SetPacked(AsWritten, d, idx, vid);
    OnceShape(u, idx, vid);
    OnceShape(d, idx, vid);
    if Once(AsWritten, u, idx, vid).Again? {
      AgainShape(u, idx, vid);
      AgainShape(d, idx, vid);
    }
  }

  lemma SplitsShape(u: Tree, d: Tree, idx: nat)
    requires Valid(u) && Valid(d) && Shape(u) == Shape(d)
    ensures Splits(u, idx) <==> Splits(d, idx)
  {
    hide Found;
    if u.depth == 2 {
      ShapeParts(u);
      ShapeParts(d);
      var p := Pos(RootKeys(u.root), idx);
      if p < |u.root| {
        BlankedKeys(Leaf(u, p), idx);
        BlankedKeys(Leaf(d, p), idx);
        assert Leaf(Shape(u), p) == Blanked(Leaf(u, p)) && Leaf(Shape(d), p) == Blanked(Leaf(d, p));
      }
    }
  }

  lemma OnceShape(t: Tree, idx: nat, vid: nat)
    requires Valid(t) && Packed(t) && !Splits(t, idx)
    ensures HasNodes(t) && HasNodes(Shape(t)) && (t.depth == 2 ==> |t.root| > 0) && Shape(t).depth == t.depth
    ensures Shape(t).root == t.root
    ensures Once(AsWritten, Shape(t), idx, 0) == ShapeOf(Once(AsWritten, t, idx, vid))
  {
    ShapeParts(t);
    if t.depth == 2 {
      RootNeverFull(t);
      var p := Pos(RootKeys(t.root), idx);
      assert Fits(t, if p < |t.root| then p else p - 1);
      RootOnceShape(t, idx, vid);
    } else {
      LeafOnceShape(t, idx, vid);
    }
  }

  lemma AgainShape(t: Tree, idx: nat, vid: nat)
    requires Valid(t) && Packed(t) && idx < INDEX_LIMIT && !Splits(t, idx) && Once(AsWritten, t, idx, vid).Again?
    ensures var t1 := Once(AsWritten, t, idx, vid).tree;
      HasNodes(t1) && HasNodes(Shape(t1)) && t1.depth == 2 && |t1.root| > 0 && Shape(t1).depth == 2 &&
      Shape(t1).root == t1.root &&
      Once(AsWritten, Shape(t1), idx, 0) == ShapeOf(Once(AsWritten, t1, idx, vid))
  {
    hide Found, Transferred, Split;
    RootNeverFull(t);
    AgainPacked(AsWritten, t, idx, vid);
    SetPacked(AsWritten, t, idx, vid);
    var t1 := Once(AsWritten, t, idx, vid).tree;
    ShapeParts(t1);
    RootOnceShape(t1, idx, vid);
  }

  // ---- the layout follows the tree

  ghost predicate Matches(u: Tree, f: Layout) {
    match f
    case Flat(keys) => u.depth <= 1 && Keys(u.leaf) == keys
    case Fenced(keys) => u.depth == 2 && RootKeys(u.root) == keys
  }

  /** The tree in which idx is finally put: with two levels if it has to be made so. */
  ghost function Base(u: Tree, idx: nat): (t: Tree)
  {
    if u.depth == 1 && !Found(u.leaf, idx) && |u.leaf| >= MAX_INDEX then Transferred(u) else u
  }

  lemma BelowLast(t: Tree, j: nat, idx: nat)
    requires t.depth == 2 && Rooted(t) && HasEntry(t, j) && idx < j
    ensures Pos(RootKeys(t.root), idx) < |t.root|
  {
    PosOrder(RootKeys(t.root), idx, j);
  }

  lemma RootSame(u: Tree, idx: nat, vid: nat)
    requires u.depth == 2 && Rooted(u) && Pos(RootKeys(u.root), idx) < |u.root| && Once(AsWritten, u, idx, vid).Done?
    ensures Once(AsWritten, u, idx, vid).tree.root == u.root && Once(AsWritten, u, idx, vid).tree.depth == 2
  {
    hide Inserted, Updated, Found;
  }

  lemma RootNext(u: Tree, idx: nat, vid: nat, j: nat)
    requires Valid(u) && Packed(u) && u.depth == 2 && idx < INDEX_LIMIT && !Splits(u, idx) && HasEntry(u, j) && idx < j
    ensures Set(AsWritten, u, idx, vid).Done? && Set(AsWritten, u, idx, vid).tree.depth == 2
    ensures Set(AsWritten, u, idx, vid).tree.root == u.root && Pos(RootKeys(u.root), idx) < |u.root|
  {
    hide IsSet, Packed, Found, Inserted, Updated;
    SetPacked(AsWritten, u, idx, vid);
    BelowLast(u, j, idx);
    var p := Pos(RootKeys(u.root), idx);
    assert Fits(u, p);
    RootSame(u, idx, vid);
  }

  lemma TransferNext(u: Tree, idx: nat, vid: nat, j: nat)
    requires Valid(u) && Packed(u) && u.depth == 1 && idx < INDEX_LIMIT && HasEntry(u, j) && idx < j
    requires !Found(u.leaf, idx) && |u.leaf| == MAX_INDEX
    ensures var t1 := Transferred(u);
      Rooted(t1) && Pos(RootKeys(t1.root), idx) < |t1.root| &&
      RootKeys(t1.root) == [Keys(u.leaf)[MAX_INDEX / 2 - 1], Keys(u.leaf)[MAX_INDEX - 1]] &&
      Set(AsWritten, u, idx, vid).Done? && Set(AsWritten, u, idx, vid).tree.root == t1.root &&
      Set(AsWritten, u, idx, vid).tree.depth == 2
  {
    hide IsSet, Packed, Found, Inserted, Updated, Transferred, Rooted, SameMap;
    SetPacked(AsWritten, u, idx, vid);
    TransferKeeps(u);
    TransferredRoot(u);
    var t1 := Transferred(u);
    RootedParts(t1);
    TransferGet(u, j);
    BelowLast(t1, j, idx);
    RootSame(t1, idx, vid);
  }

  lemma LeafNext(u: Tree, idx: nat, vid: nat)
    requires Valid(u) && u.depth == 1 && (Found(u.leaf, idx) || |u.leaf| < MAX_INDEX)
    ensures Set(AsWritten, u, idx, vid).Done? && Set(AsWritten, u, idx, vid).tree.depth == 1
    ensures Matches(Set(AsWritten, u, idx, vid).tree, Next(Flat(Keys(u.leaf)), idx))
  {
    hide InsertAt;
    if !Found(u.leaf, idx) {
      assert Keys(Inserted(u.leaf, Index(idx, vid))) == InsertAt(Keys(u.leaf), Pos(Keys(u.leaf), idx), idx);
    }
  }

  /** A set below an index that has an entry moves no fence of a tree with two levels. */
  lemma MatchesNext(u: Tree, f: Layout, idx: nat, vid: nat, j: nat)
    requires Valid(u) && Packed(u) && Matches(u, f) && idx < INDEX_LIMIT && !Splits(u, idx) && HasEntry(u, j) && idx < j
    ensures u.depth > 0 && Set(AsWritten, u, idx, vid).Done? && Matches(Set(AsWritten, u, idx, vid).tree, Next(f, idx))
    ensures Base(u, idx).depth == 2 ==> Set(AsWritten, u, idx, vid).tree.root == Base(u, idx).root
    ensures Base(u, idx).depth == 2 ==>
      Rooted(Base(u, idx)) && Pos(RootKeys(Base(u, idx).root), idx) < |Base(u, idx).root|
    ensures Base(u, idx).depth == Set(AsWritten, u, idx, vid).tree.depth
  {
    hide Set, Transferred, InsertAt, Packed;
    if u.depth == 2 {
      RootNext(u, idx, vid, j);
    } else if !Found(u.leaf, idx) && |u.leaf| >= MAX_INDEX {
      TransferNext(u, idx, vid, j);
    } else {
      LeafNext(u, idx, vid);
    }
  }
}
