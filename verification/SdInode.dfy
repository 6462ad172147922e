/** The inode's index operations of lib/sd_inode.c as methods on its buffers, with the write-back
    cache of node objects that a range of sets goes through. */
module SdInode {
  import opened Options
  import opened Sequences
  import opened BTree
  import opened BTreeNew
  import opened BTreeRange

  const NUMBER_OF_CACHE := 4

  type Nodes = map<nat, seq<Index>>
  datatype Slot = Slot(oid: nat, mem: seq<Index>)

  ghost predicate DistinctSlots(cache: seq<Slot>) {
    forall i, j :: 0 <= i < j < |cache| ==> cache[i].oid != cache[j].oid
  }

  ghost predicate IsCached(cache: seq<Slot>, oid: nat) {
    exists i :: 0 <= i < |cache| && cache[i].oid == oid
  }

  /** At most one more node is cached. */
  ghost predicate OnlyAdds(c: seq<Slot>, c': seq<Slot>, oid: nat) {
    forall o {:trigger IsCached(c', o)} :: IsCached(c', o) ==> IsCached(c, o) || o == oid
  }

  /** The node objects as seen through the cache. */
  ghost function Overlay(store: Nodes, cache: seq<Slot>, n: nat): (r: Nodes)
    requires n <= |cache|
  {
    if n == 0 then store else Overlay(store, cache, n - 1)[cache[n - 1].oid := cache[n - 1].mem]
  }

  lemma {:induction false} OverlayHit(store: Nodes, cache: seq<Slot>, i: nat, n: nat)
    requires DistinctSlots(cache) && i < n <= |cache|
    ensures cache[i].oid in Overlay(store, cache, n) && Overlay(store, cache, n)[cache[i].oid] == cache[i].mem
  {
    if i < n - 1 { OverlayHit(store, cache, i, n - 1); }
  }

  lemma {:induction false} OverlayMiss(store: Nodes, cache: seq<Slot>, oid: nat, n: nat)
    requires n <= |cache| && forall i :: 0 <= i < n ==> cache[i].oid != oid
    ensures oid in Overlay(store, cache, n) <==> oid in store
    ensures oid in store ==> Overlay(store, cache, n)[oid] == store[oid]
  {
    if n > 0 { OverlayMiss(store, cache, oid, n - 1); }
  }

  lemma {:induction false} OverlayPrefix(store: Nodes, cache: seq<Slot>, cache': seq<Slot>, n: nat)
    requires n <= |cache| && n <= |cache'| && forall i :: 0 <= i < n ==> cache[i] == cache'[i]
    ensures Overlay(store, cache, n) == Overlay(store, cache', n)
  {
    if n > 0 { OverlayPrefix(store, cache, cache', n - 1); }
  }

  lemma {:induction false} OverlayReplace(store: Nodes, cache: seq<Slot>, i: nat, mem: seq<Index>, n: nat)
    requires DistinctSlots(cache) && i < n <= |cache|
    ensures Overlay(store, cache[i := Slot(cache[i].oid, mem)], n) == Overlay(store, cache, n)[cache[i].oid := mem]
  {
    if i == n - 1 {
      OverlayPrefix(store, cache, cache[i := Slot(cache[i].oid, mem)], i);
    } else {
      OverlayReplace(store, cache, i, mem, n - 1);
    }
  }

  lemma {:induction false} OverlayStore(store: Nodes, cache: seq<Slot>, oid: nat, mem: seq<Index>, n: nat)
    requires n <= |cache| && forall i :: 0 <= i < n ==> cache[i].oid != oid
    ensures Overlay(store[oid := mem], cache, n) == Overlay(store, cache, n)[oid := mem]
  {
    if n > 0 { OverlayStore(store, cache, oid, mem, n - 1); }
  }

  lemma {:induction false} OverlayHides(store: Nodes, cache: seq<Slot>, oid: nat, mem: seq<Index>, i: nat, n: nat)
    requires i < n <= |cache| && cache[i].oid == oid
    ensures Overlay(store[oid := mem], cache, n) == Overlay(store, cache, n)
    decreases n
  {
    if exists k :: 0 <= k < n - 1 && cache[k].oid == oid {
      var k :| 0 <= k < n - 1 && cache[k].oid == oid;
      OverlayHides(store, cache, oid, mem, k, n - 1);
    } else {
      OverlayStore(store, cache, oid, mem, n - 1);
    }
  }

  /** nbsearch(): where j is, or else the next greater position. */
  method Nbsearch(keys: seq<nat>, j: nat) returns (p: nat)
    requires forall i, k :: 0 <= i < k < |keys| ==> keys[i] <= keys[k] && (keys[k] == j ==> keys[i] < j)
    ensures p == Pos(keys, j)
  {
    var l, r := 0, |keys| - 1;
    while l <= r
      invariant 0 <= l <= r + 1 <= |keys|
      invariant forall i :: 0 <= i < l ==> keys[i] < j
      invariant forall i :: r < i < |keys| ==> keys[i] > j
    {
      var m := l + (r - l) / 2;
      if j < keys[m] {
        r := m - 1;
      } else if j > keys[m] {
        l := m + 1;
      } else {
        PosFirst(keys, j, m);
        return m;
      }
    }
    PosFirst(keys, j, l);
    return l;
  }

  /** The searches for idx work: keys in order, and none equal to idx twice. */
  ghost predicate Searchable(t: Tree, idx: nat) {
    match t.depth
    case 0 => t.leaf == [] && t.root == []
    case 1 => Sorted(t.leaf) && t.root == []
    case 2 =>
      HasNodes(t) && |t.root| > 0 &&
      (forall i, k :: 0 <= i < k < |t.root| ==>
        t.root[i].idx <= t.root[k].idx && (t.root[k].idx == idx ==> t.root[i].idx < idx)) &&
      var p := Pos(RootKeys(t.root), idx);
      Sorted(Leaf(t, if p < |t.root| then p else p - 1))
    case _ => false
  }

  /** idx has its entry in a cached node, so that writing its vid misses the cached copy. */
  ghost predicate Bypasses(t: Tree, cache: seq<Slot>, idx: nat)
    requires HasNodes(t)
  {
    t.depth == 2 && var p := Pos(RootKeys(t.root), idx);
    p < |t.root| && Found(Leaf(t, p), idx) && IsCached(cache, t.root[p].oid)
  }

  method SearchIndex(leaf: seq<Index>, idx: nat) returns (p: nat)
    requires Sorted(leaf)
    ensures p == Pos(Keys(leaf), idx)
  {
    p := Nbsearch(Keys(leaf), idx);
  }

  method SearchIndirect(root: seq<Indirect>, idx: nat) returns (p: nat)
    requires forall i, k :: 0 <= i < k < |root| ==>
      root[i].idx <= root[k].idx && (root[k].idx == idx ==> root[i].idx < idx)
    ensures p == Pos(RootKeys(root), idx)
  {
    p := Nbsearch(RootKeys(root), idx);
  }

  datatype Status = Finished | Retry | Panicked

  /** What a turn of the loop leaves, for a tree t and the cache it goes through. */
  ghost predicate Turned(t: Tree, cache: seq<Slot>, idx: nat, vid: nat, t': Tree, r: Status)
    requires HasNodes(t) && (t.depth == 2 ==> |t.root| > 0)
  {
    if Bypasses(t, cache, idx) then t' == t && r == Finished
    else match Once(AsWritten, t, idx, vid)
      case Done(u) => t' == u && r == Finished
      case Again(u) => t' == u && r == Retry
      case Panic => t' == t && r == Panicked
  }

  /** The effect of a whole set: none in the tree when the write bypasses the cache. */
  ghost predicate Settled(t: Tree, cache: seq<Slot>, idx: nat, vid: nat, t': Tree, ok: bool)
    requires Valid(t) || Settable(t)
  {
    HasNodes(t) &&
    if Bypasses(t, cache, idx) then ok && t' == t
    else match Set(AsWritten, t, idx, vid) case Done(u) => ok && t' == u case Again(_) => false case Panic => !ok
  }

  /** The loop can begin with t, and if it has to turn again, that turn finds room. */
  ghost predicate Ready(t: Tree, idx: nat, vid: nat) {
    1 <= t.depth <= 2 && Settable(t) && Searchable(t, idx) && (t.depth == 1 ==> |t.leaf| <= MAX_INDEX) &&
    (Once(AsWritten, t, idx, vid).Again? ==>
      var t1 := Once(AsWritten, t, idx, vid).tree;
      t1.depth == 2 && Settable(t1) && Searchable(t1, idx) && !HasEntry(t1, idx) && !HasEntry(t, idx) &&
      Once(AsWritten, t1, idx, vid).Done?)
  }

  /** The node that takes idx when it is put into a tree with two levels. */
  ghost function Target(t: Tree, idx: nat): (oid: nat)
    requires |t.root| > 0
  {
    var p := Pos(RootKeys(t.root), idx);
    t.root[if p < |t.root| then p else p - 1].oid
  }

  /** What setting idx in t leaves cached: nothing new, or the node that took a new index. */
  ghost predicate TurnCaches(t: Tree, c: seq<Slot>, c': seq<Slot>, idx: nat)
    requires HasNodes(t) && (t.depth == 2 ==> |t.root| > 0)
  {
    if t.depth == 2 then
      OnlyAdds(c, c', Target(t, idx)) &&
      (!HasEntry(t, idx) && Pos(RootKeys(t.root), idx) < |t.root| ==> IsCached(c', Target(t, idx)))
    else c' == c
  }

  class Inode {
    var depth: nat
    var leaf: seq<Index>
    var root: seq<Indirect>
    var counter: nat
    var store: Nodes
    var cache: seq<Slot>

    ghost function View(): (t: Tree)
      reads this
    {
      Tree(depth, leaf, root, Overlay(store, cache, |cache|), counter)
    }

    /** Node objects are created in the store; only those can be cached. */
    ghost predicate CacheOk()
      reads this
    {
      |cache| < NUMBER_OF_CACHE && DistinctSlots(cache) && (forall i :: 0 <= i < |cache| ==> cache[i].oid in store) &&
      (forall oid :: oid in store ==> oid < counter) && (forall i :: 0 <= i < |root| ==> root[i].oid in store)
    }

    // ---- the cache

    method IcacheFind(oid: nat) returns (i: Option<nat>)
      ensures i.Some? ==> i.value < |cache| && cache[i.value].oid == oid
      ensures i.None? <==> !IsCached(cache, oid)
    {
      for k := 0 to |cache|
        invariant forall n :: 0 <= n < k ==> cache[n].oid != oid
      {
        if cache[k].oid == oid { return Some(k); }
      }
      return None;
    }

    method IcacheRelease()
      requires CacheOk()
      modifies this`store, this`cache
      ensures CacheOk() && cache == [] && store == old(Overlay(store, cache, |cache|)) && View() == old(View())
      ensures store.Keys == old(store.Keys)
    {
      for i := 0 to |cache|
        invariant store == old(Overlay(store, cache, i)) && cache == old(cache) && store.Keys == old(store.Keys)
        invariant forall oid :: oid in store ==> oid < counter
        invariant forall i :: 0 <= i < |root| ==> root[i].oid in store
      {
        store := store[cache[i].oid := cache[i].mem];
      }
      cache := [];
    }

    method IcacheInsert(oid: nat, mem: seq<Index>)
      requires CacheOk() && oid in store
      modifies this`store, this`cache
      ensures IsCached(cache, oid) && OnlyAdds(old(cache), cache, oid)
      ensures CacheOk() && View() == old(View()).(nodes := old(View()).nodes[oid := mem])
      ensures store.Keys == old(store.Keys) + {oid}
    {
      var i := IcacheFind(oid);
      if i.Some? {
        OverlayReplace(store, cache, i.value, mem, |cache|);
        cache := cache[i.value := Slot(oid, mem)];
        assert cache[i.value].oid == oid;
        assert forall k :: 0 <= k < |cache| ==> cache[k].oid == old(cache)[k].oid;
        return;
      }
      if |cache| == NUMBER_OF_CACHE - 1 {
        StoredStays(store, cache, oid, |cache|);
        IcacheRelease();
      }
      OverlayPrefix(store, cache, cache + [Slot(oid, mem)], |cache|);
      cache := cache + [Slot(oid, mem)];
      assert cache[|cache| - 1].oid == oid;
      assert forall k :: 0 <= k < |cache| - 1 ==> cache[k] == old(cache)[k];
    }

    method ReadNode(oid: nat) returns (mem: seq<Index>)
      requires CacheOk() && oid in View().nodes
      ensures mem == View().nodes[oid]
    {
      var i := IcacheFind(oid);
      if i.Some? {
        OverlayHit(store, cache, i.value, |cache|);
        return cache[i.value].mem;
      }
      OverlayMiss(store, cache, oid, |cache|);
      return store[oid];
    }

    /** A whole node: a new one goes to the store, an old one to the cache. */
    method WriteNode(oid: nat, mem: seq<Index>, create: bool)
      requires CacheOk() && (if create then oid == counter - 1 && oid !in store else oid in store)
      modifies this`store, this`cache
      ensures if create then cache == old(cache) else IsCached(cache, oid) && OnlyAdds(old(cache), cache, oid)
      ensures CacheOk() && View() == old(View()).(nodes := old(View()).nodes[oid := mem])
      ensures store.Keys == old(store.Keys) + {oid}
    {
      if create {
        OverlayStore(store, cache, oid, mem, |cache|);
        store := store[oid := mem];
      } else {
        IcacheInsert(oid, mem);
      }
    }

    /** A vid inside a node: goes to the store even when the node is cached. */
    method WriteVid(oid: nat, p: nat, vid: nat)
      requires CacheOk() && oid in store
      modifies this`store
      ensures CacheOk()
      ensures IsCached(cache, oid) ==> View() == old(View())
      ensures !IsCached(cache, oid) && oid in old(View()).nodes && p < |old(View()).nodes[oid]| ==>
        View() == old(View()).(nodes :=
          old(View()).nodes[oid := old(View()).nodes[oid][p := old(View()).nodes[oid][p].(vid := vid)]])
    {
      var mem := store[oid];
      var mem' := if p < |mem| then mem[p := mem[p].(vid := vid)] else mem;
      if i :| 0 <= i < |cache| && cache[i].oid == oid {
        OverlayHides(store, cache, oid, mem', i, |cache|);
      } else {
        OverlayStore(store, cache, oid, mem', |cache|);
        OverlayMiss(store, cache, oid, |cache|);
      }
      store := store[oid := mem'];
    }

    // ---- the tree

    /** A new node object under the next free oid. */
    method CreateNode(mem: seq<Index>) returns (oid: nat)
      requires CacheOk()
      modifies this`store, this`cache, this`counter
      ensures oid == old(counter) && counter == oid + 1 && cache == old(cache)
      ensures CacheOk() && store.Keys == old(store.Keys) + {oid}
      ensures View() == old(View()).(nodes := old(View()).nodes[oid := mem], counter := oid + 1)
    {
      oid := counter;
      counter := counter + 1;
      WriteNode(oid, mem, true);
    }

    /** transfer_to_idx_root() */
    method TransferToIdxRoot()
      requires CacheOk() && depth == 1 && |leaf| >= 2 && Sorted(leaf) && |leaf| <= MAX_INDEX
      modifies this
      ensures CacheOk() && View() == Transferred(old(View())) && cache == old(cache)
    {
      hide AddToRoot, Overlay, Sorted, Keys, RootKeys, Transferred;
      ghost var t := View();
      var n := |leaf| / 2;
      var left, right := leaf[..n], leaf[n..];
      TransferParts(t, n);
      root := [];
      var leftOid := CreateNode(left);
      var rightOid := CreateNode(right);
      assert View() == t.(root := [], nodes := t.nodes[leftOid := left][rightOid := right], counter := t.counter + 2);
      leaf, depth := [], 2;
      root := AddToRoot([], Indirect(left[n - 1].idx, leftOid));
      root := AddToRoot(root, Indirect(right[|right| - 1].idx, rightOid));
    }

    /** split_index_node() on the leaf that root[p] points to */
    method SplitIndexNode(p: nat, old_leaf: seq<Index>)
      requires CacheOk() && depth == 2 && HasNodes(View()) && p < |root| && old_leaf == Leaf(View(), p)
      requires |old_leaf| >= 2
      modifies this
      ensures CacheOk() && View() == Split(AsWritten, old(View()), p)
    {
      hide Overlay, InsertAt;
      var n := |old_leaf| / 2;
      var newOid := CreateNode(old_leaf[..n]);
      WriteNode(root[p].oid, old_leaf[n..], false);
      root := AddToRoot(root, Indirect(0, newOid));
    }

    method TurnLeaf(idx: nat, vid: nat) returns (r: Status)
      requires CacheOk() && depth == 1 && Searchable(View(), idx) && |leaf| <= MAX_INDEX
      modifies this
      ensures CacheOk() && Turned(old(View()), old(cache), idx, vid, View(), r)
      ensures cache == old(cache)
    {
      hide Overlay, InsertAt;
      var p := SearchIndex(leaf, idx);
      if p < |leaf| && leaf[p].idx == idx {
        leaf := leaf[p := Index(idx, vid)];
      } else if |leaf| >= MAX_INDEX {
        TransferToIdxRoot();
        return Retry;
      } else {
        leaf := InsertAt(leaf, p, Index(idx, vid));
      }
      return Finished;
    }

    /** idx belongs in the leaf of root[p]; inserting it leaves that node cached. */
    method TurnInRange(idx: nat, vid: nat, p: nat) returns (r: Status)
      requires CacheOk() && depth == 2 && Searchable(View(), idx) && p == Pos(RootKeys(root), idx) < |root|
      modifies this
      ensures r == Finished && !HasEntry(old(View()), idx) ==> root == old(root) && IsCached(cache, old(root)[p].oid)
      ensures r == Finished ==> OnlyAdds(old(cache), cache, old(root)[p].oid)
      ensures CacheOk() && Turned(old(View()), old(cache), idx, vid, View(), r)
      ensures HasEntry(old(View()), idx) ==> cache == old(cache)
    {
      hide Overlay, InsertAt;
      ghost var t := View();
      var oid := root[p].oid;
      var leaf_node := ReadNode(oid);
      var q := SearchIndex(leaf_node, idx);
      if q < |leaf_node| && leaf_node[q].idx == idx {
        WriteVid(oid, q, vid);
        assert Bypasses(t, old(cache), idx) || View().nodes == t.nodes[oid := Updated(leaf_node, idx, vid)];
        return Finished;
      }
      if |leaf_node| >= MAX_INDEX {
        SplitIndexNode(p, leaf_node);
        return Retry;
      }
      WriteNode(oid, InsertAt(leaf_node, q, Index(idx, vid)), false);
      return Finished;
    }

    /** idx is beyond the last key. */
    method TurnBeyond(idx: nat, vid: nat) returns (r: Status)
      requires CacheOk() && depth == 2 && Searchable(View(), idx) && Pos(RootKeys(root), idx) == |root|
      modifies this
      ensures CacheOk() && Turned(old(View()), old(cache), idx, vid, View(), r)
      ensures HasEntry(old(View()), idx) ==> cache == old(cache)
      ensures OnlyAdds(old(cache), cache, old(root)[|old(root)| - 1].oid)
    {
      hide Overlay, InsertAt;
      var p := |root|;
      var oid := root[p - 1].oid;
      var leaf_node := ReadNode(oid);
      if |leaf_node| < MAX_INDEX {
        var q := SearchIndex(leaf_node, idx);
        leaf_node := InsertAt(leaf_node, q, Index(idx, vid));
        root := root[p - 1 := Indirect(leaf_node[|leaf_node| - 1].idx, oid)];
        WriteNode(oid, leaf_node, false);
      } else if |root| >= MAX_INDIRECT {
        return Panicked;
      } else {
        var newOid := CreateNode([Index(idx, vid)]);
        root := root + [Indirect(idx, newOid)];
      }
      return Finished;
    }

    method Turn(idx: nat, vid: nat) returns (r: Status)
      requires CacheOk() && 1 <= depth <= 2 && Searchable(View(), idx) && (depth == 1 ==> |leaf| <= MAX_INDEX)
      modifies this
      ensures CacheOk() && Turned(old(View()), old(cache), idx, vid, View(), r)
      ensures HasEntry(old(View()), idx) ==> cache == old(cache)
      ensures r == Finished || old(depth) == 1 ==> TurnCaches(old(View()), old(cache), cache, idx)
    {
      if depth == 1 {
        r := TurnLeaf(idx, vid);
      } else {
        var p := SearchIndirect(root, idx);
        if p < |root| { r := TurnInRange(idx, vid, p); } else { r := TurnBeyond(idx, vid); }
      }
    }

    /** The loop of set_vid_for_btree(), which turns at most twice. */
    method SetVidForBtree(idx: nat, vid: nat) returns (ok: bool)
      requires CacheOk() && Ready(View(), idx, vid)
      modifies this
      ensures CacheOk() && Settled(old(View()), old(cache), idx, vid, View(), ok)
      ensures HasEntry(old(View()), idx) ==> cache == old(cache)
      ensures Valid(old(View())) && ok && !Splits(old(View()), idx) ==>
        SetCaches(old(View()), old(cache), cache, idx)
    {
      hide Overlay, Once, Set, Found, Valid, Searchable, Turned, Bypasses, TurnCaches, SetCaches, Splits, Ready,
        Settled;
      ghost var t := View();
      ghost var turns := 0;
      ReadyParts(t, idx, vid);
      var r := Retry;
      while r == Retry
        invariant CacheOk() && 0 <= turns <= 2
        invariant r == Retry ==> 1 <= depth <= 2 && Searchable(View(), idx) && HasNodes(View())
        invariant r == Retry ==> (depth == 1 ==> |leaf| <= MAX_INDEX) && (depth == 2 ==> |root| > 0)
        invariant turns == 0 ==> View() == t && cache == old(cache) && r == Retry
        invariant turns == 1 && r == Retry ==> !HasEntry(t, idx) && Once(AsWritten, t, idx, vid) == Again(View())
        invariant Valid(t) && turns == 1 && r == Retry && t.depth == 1 ==> cache == old(cache)
        invariant turns == 2 ==> r != Retry
        invariant r != Retry ==> Settled(t, old(cache), idx, vid, View(), r == Finished)
        invariant r != Retry ==> (HasEntry(t, idx) ==> cache == old(cache))
        invariant Valid(t) && r == Finished && !Splits(t, idx) ==> SetCaches(t, old(cache), cache, idx)
        decreases 2 - turns
      {
        ghost var before, c := View(), cache;
        r := Turn(idx, vid);
        if turns == 0 {
          FirstTurn(t, c, idx, vid, View(), r);
          if Valid(t) { FirstCaches(t, c, idx, vid, View(), r, cache); }
        } else {
          LastTurn(t, old(cache), c, idx, vid, before, View(), r);
          if Valid(t) { LastCaches(t, c, idx, vid, before, cache); }
        }
        turns := turns + 1;
      }
      ok := r == Finished;
    }

    method GetVid(idx: nat) returns (vid: nat)
      requires CacheOk() && cache == [] && Valid(View())
      ensures vid == Vid(Get(View(), idx))
    {
      ValidSearchable(View(), idx);
      if depth == 0 { return 0; }
      var node := leaf;
      if depth == 2 {
        var p := SearchIndirect(root, idx);
        if p == |root| { return 0; }
        node := ReadNode(root[p].oid);
      }
      var q := SearchIndex(node, idx);
      return if q < |node| && node[q].idx == idx then node[q].vid else 0;
    }

    /** One index of a range; the tree is initialised first if need be. When nothing is split the set is
        lost if and only if the index is shadowed; a new index is never lost. */
    method SetVidStep(idx: nat, vid: nat, ghost t: Tree, ghost start: nat, ghost end: nat, ghost d: Tree,
                      ghost d': Tree, ghost direct: bool, ghost allNew: bool)
      requires CacheOk() && start <= idx <= end && (direct || allNew)
      requires direct ==> Following(t, start, idx, vid, View(), d, cache) && Sets(AsWritten, d, Index(idx, vid), d')
      requires allNew ==> Growing(start, idx, end, View(), d) && Extends(d, idx, vid, d')
      modifies this
      ensures CacheOk()
      ensures direct ==> Following(t, start, idx + 1, vid, View(), d', cache)
      ensures allNew ==> Growing(start, idx + 1, end, View(), d')
    {
      hide Overlay, Set, Get, Splits, Following, Settled, SetCaches, Valid, Packed, Ready, Growing, Extends, HasEntry;
      ghost var u, c := View(), cache;
      if direct { FollowingParts(t, start, idx, vid, u, d, c, d'); }
      if allNew { GrowingParts(start, idx, end, vid, u, d, d'); }
      if depth == 0 {
        InitSame(u, idx, vid);
        depth := 1;
      }
      ghost var v := View();
      if allNew { GrowingReady(start, idx, end, vid, u, d, v); } else { ValidReady(v, idx, vid); }
      var ok := SetVidForBtree(idx, vid);
      if direct {
        assert ok && Stepped(u, c, idx, vid, View(), cache) by { StepDone(u, c, idx, vid, View(), cache, ok); }
        FollowingStep(t, start, idx, vid, u, d, c, d', View(), cache);
      }
      if allNew { GrowingStep(start, idx, end, vid, u, d, d', v, c, View(), ok); }
    }

    /** A range of sets through the cache, then everything back to the store. Beside the trees ts that
        direct sets would give: if no leaf is split, the result answers vid for every index of the range
        but the shadowed ones, which keep what they had, and it is the tree of direct sets if and only if
        those had the vid already. If all of the range is new, it is that tree whatever is split. */
    method SetVidRange(start: nat, end: nat, vid: nat, ghost ts: seq<Tree>)
      requires CacheOk() && cache == [] && Valid(View()) && start <= end
      requires |ts| == end + 2 - start && ts[0] == View()
      requires DirectRun(ts, start, vid) || NewRun(ts, start, end, vid)
      modifies this
      ensures CacheOk() && cache == [] && store == View().nodes && HasNodes(View()) && HasNodes(old(View()))
      ensures DirectRun(ts, start, vid) ==>
        Valid(View()) && (forall j: nat :: Get(View(), j) == Ranged(old(View()), start, end + 1, vid, j)) &&
        (View() == ts[end + 1 - start] <==> NoneLost(old(View()), start, end + 1, vid))
      ensures NewRun(ts, start, end, vid) ==> View() == ts[end + 1 - start]
    {
      hide Overlay, Valid, Packed, Sets, Following, Get, Ranged, NoneLost, Growing, Extends, AllNew;
      ghost var t, direct, allNew := View(), DirectRun(ts, start, vid), NewRun(ts, start, end, vid);
      if direct { FollowingStarts(t, start, vid); }
      if allNew { GrowingStarts(t, start, end); }
      var idx := start;
      while idx <= end
        invariant start <= idx <= end + 1 && CacheOk()
        invariant direct ==> Following(t, start, idx, vid, View(), ts[idx - start], cache)
        invariant allNew ==> Growing(start, idx, end, View(), ts[idx - start])
      {
        assert direct ==> Sets(AsWritten, ts[idx - start], Index(start + (idx - start), vid), ts[idx - start + 1]);
        assert allNew ==> Extends(ts[idx - start], start + (idx - start), vid, ts[idx - start + 1]);
        SetVidStep(idx, vid, t, start, end, ts[idx - start], ts[idx - start + 1], direct, allNew);
        idx := idx + 1;
      }
      if direct { FollowingEnds(t, start, idx, vid, View(), ts[idx - start], cache); }
      if allNew { GrowingEnds(start, idx, end, View(), ts[idx - start]); }
      ValidSearchable(t, start);
      IcacheRelease();
      NothingCached(store, cache);
    }

    /** A new index in a leaf with room: the leaf ends up in the cache. */
    method InsertCached(idx: nat, vid: nat, p: nat)
      requires CacheOk() && depth == 2 && Rooted(View()) && p == Pos(RootKeys(root), idx) < |root|
      requires |Leaf(View(), p)| < MAX_INDEX && !HasEntry(View(), idx)
      modifies this
      ensures CacheOk() && depth == 2 && Rooted(View()) && root == old(root) && IsSet(old(View()), View(), idx, vid)
      ensures IsCached(cache, root[p].oid)
    {
      hide Overlay, InsertAt, Get, Rooted, Found, IsSet, Once;
      ghost var t, c := View(), cache;
      assert HasNodes(t) && |root| > 0 by { RootedParts(t); }
      RootedSearchable(t, idx);
      OnceWithRoom(AsWritten, t, idx, vid);
      var r := TurnInRange(idx, vid, p);
      if Bypasses(t, c, idx) { BypassHasEntry(t, c, idx); }
    }

    /** A new index followed by one that its leaf already holds: the first set caches the leaf, the
        second writes past the cache, and the release restores the old vid. */
    method RangeLosesUpdate(idx: nat, vid: nat, p: nat)
      requires CacheOk() && depth == 2 && Rooted(View()) && p < |root|
      requires p == Pos(RootKeys(root), idx) == Pos(RootKeys(root), idx + 1)
      requires |Leaf(View(), p)| < MAX_INDEX && !HasEntry(View(), idx) && HasEntry(View(), idx + 1)
      modifies this
      ensures HasNodes(View()) && Get(View(), idx) == Some(vid) && Get(View(), idx + 1) == old(Get(View(), idx + 1))
      ensures store == View().nodes
    {
      hide Overlay, Rooted, Once, Searchable;
      ghost var t := View();
      assert HasNodes(t) by { RootedParts(t); }
      InsertCached(idx, vid, p);
      ghost var t1 := View();
      assert HasNodes(t1) && |root| > 0 by { RootedParts(t1); }
      assert Get(t1, idx + 1) == Get(t, idx + 1);
      RootedSearchable(t1, idx + 1);
      assert Bypasses(t1, cache, idx + 1);
      var r := TurnInRange(idx + 1, vid, p);
      IcacheRelease();
      NothingCached(store, cache);
    }
  }

  lemma TransferParts(t: Tree, n: nat)
    requires t.depth == 1 && 2 <= |t.leaf| <= MAX_INDEX && Sorted(t.leaf) && n == |t.leaf| / 2
    ensures var left, right := t.leaf[..n], t.leaf[n..];
      var root := AddToRoot(AddToRoot([], Indirect(left[n - 1].idx, t.counter)),
        Indirect(right[|right| - 1].idx, t.counter + 1));
      Transferred(t) == Tree(2, [], root, t.nodes[t.counter := left][t.counter + 1 := right], t.counter + 2) &&
      |root| == 2 && root[0].oid == t.counter && root[1].oid == t.counter + 1
  {
    hide AddToRoot, Sorted, Transferred;
    TransferredIs(t, n);
    TransferredRoot(t);
  }

  lemma NothingCached(store: Nodes, cache: seq<Slot>)
    requires cache == []
    ensures Overlay(store, cache, |cache|) == store
  {}

  /** Initialising an empty tree first makes no difference to a set. */
  lemma InitSame(t: Tree, idx: nat, vid: nat)
    requires t == EMPTY
    ensures Valid(t.(depth := 1)) && Set(AsWritten, t.(depth := 1), idx, vid) == Set(AsWritten, t, idx, vid)
    ensures !HasEntry(t, idx) && !HasEntry(t.(depth := 1), idx)
  {
    var t1 := t.(depth := 1);
    assert Sorted(t1.leaf);
    assert Once(AsWritten, t1, idx, vid) == Once(AsWritten, t, idx, vid);
  }

  /** ts is a run of direct sets that split no leaf, from a tree such as runs leave. */
  ghost predicate DirectRun(ts: seq<Tree>, start: nat, vid: nat) {
    |ts| > 0 && Packed(ts[0]) &&
    forall k :: 0 <= k < |ts| - 1 ==> Sets(AsWritten, ts[k], Index(start + k, vid), ts[k + 1])
  }

  // ---- a range of new indices

  ghost predicate AllNew(t: Tree, start: nat, end: nat)
    requires HasNodes(t)
  {
    forall j :: start <= j <= end ==> !HasEntry(t, j)
  }

  ghost predicate Extends(d: Tree, idx: nat, vid: nat, d': Tree) {
    Settable(d) && Set(AsWritten, d, idx, vid) == Done(d')
  }

  /** ts is a run of direct sets of new indices. */
  ghost predicate NewRun(ts: seq<Tree>, start: nat, end: nat, vid: nat) {
    |ts| > 0 && HasNodes(ts[0]) && AllNew(ts[0], start, end) &&
    forall k :: 0 <= k < |ts| - 1 ==> Extends(ts[k], start + k, vid, ts[k + 1])
  }

  /** So the set of a single index through the cache is always a direct set. */
  lemma SingleIndex(t: Tree, idx: nat, vid: nat, t': Tree)
    requires Valid(t) && Packed(t) && idx < INDEX_LIMIT && Set(AsWritten, t, idx, vid) == Done(t')
    ensures HasNodes(t)
    ensures NewRun([t, t'], idx, idx, vid) || (DirectRun([t, t'], idx, vid) && NoneLost(t, idx, idx + 1, vid))
  {
    hide Get, Set, Packed, NoneLost, Valid;
    ValidUsable(t);
    var ts := [t, t'];
    if HasEntry(t, idx) {
      assert !Splits(t, idx) by { UpdateShape(t, idx, vid); }
      assert Sets(AsWritten, ts[0], Index(idx + 0, vid), ts[1]);
      assert DirectRun(ts, idx, vid);
      UniformLosesNothing(t, idx, idx + 1, vid);
    } else {
      assert Extends(ts[0], idx + 0, vid, ts[1]);
      assert NewRun(ts, idx, idx, vid);
    }
  }

  /** [start, idx) has been set, and the cache leads to the tree d of direct sets. */
  ghost predicate Growing(start: nat, idx: nat, end: nat, u: Tree, d: Tree) {
    u == d && Usable(u) && Settable(u) && Lacks(u, idx, end) && (idx == start ==> Valid(u))
  }

  lemma GrowingStarts(t: Tree, start: nat, end: nat)
    requires Valid(t) && HasNodes(t) && AllNew(t, start, end)
    ensures Growing(start, start, end, t, t)
  {
    hide HasEntry, Lacks, Usable;
    ValidUsable(t);
    ValidLacks(t, start, end);
  }

  lemma GrowingEnds(start: nat, idx: nat, end: nat, u: Tree, d: Tree)
    requires Growing(start, idx, end, u, d)
    ensures u == d && HasNodes(u)
  {}

  lemma GrowingParts(start: nat, idx: nat, end: nat, vid: nat, u: Tree, d: Tree, d': Tree)
    requires Growing(start, idx, end, u, d) && Extends(d, idx, vid, d')
    ensures Settable(u) && Set(AsWritten, u, idx, vid) == Done(d') && u.depth <= 2 && (u.depth == 0 ==> u == EMPTY)
  {
    UsableParts(u);
  }

  lemma UsableSearchable(t: Tree, idx: nat)
    requires t.depth == 2 && Loose(t) && idx > 0
    ensures Searchable(t, idx)
  {
    hide Sorted;
    var p := Pos(RootKeys(t.root), idx);
    assert Keyed(t, if p < |t.root| then p else p - 1);
  }

  lemma LacksNoEntry(t: Tree, idx: nat, hi: nat)
    requires HasNodes(t) && Lacks(t, idx, hi) && idx <= hi
    ensures !HasEntry(t, idx)
  {
    hide Found;
    if t.depth == 2 {
      var p := Pos(RootKeys(t.root), idx);
      if p < |t.root| { LacksFound(Leaf(t, p), idx, hi); }
    } else {
      LacksFound(t.leaf, idx, hi);
    }
  }

  /** With or without right keys, a new index other than 0 is searched for as it should be. */
  lemma UsableReady(t: Tree, idx: nat, vid: nat, hi: nat)
    requires Usable(t) && Settable(t) && t.depth >= 1 && Lacks(t, idx, hi) && 0 < idx <= hi
    ensures Ready(t, idx, vid)
  {
    hide Once, Loose, Lacks, HasEntry, Searchable, Valid;
    UsableParts(t);
    LacksNoEntry(t, idx, hi);
    if t.depth == 2 { UsableSearchable(t, idx); } else { ValidSearchable(t, idx); }
    if Once(AsWritten, t, idx, vid).Again? {
      var t1 := Once(AsWritten, t, idx, vid).tree;
      AgainTurn(t, idx, vid, hi);
      UsableSearchable(t1, idx);
      LacksNoEntry(t1, idx, hi);
    }
  }

  lemma GrowingReady(start: nat, idx: nat, end: nat, vid: nat, u: Tree, d: Tree, v: Tree)
    requires Growing(start, idx, end, u, d) && start <= idx <= end && v == if u.depth == 0 then u.(depth := 1) else u
    ensures Ready(v, idx, vid)
  {
    hide Lacks, Loose, Ready;
    UsableParts(u);
    if u.depth == 0 {
      InitSame(u, idx, vid);
      ValidReady(v, idx, vid);
    } else if idx == start {
      ValidReady(v, idx, vid);
    } else {
      UsableReady(v, idx, vid, end);
    }
  }

  lemma GrowingStep(start: nat, idx: nat, end: nat, vid: nat, u: Tree, d: Tree, d': Tree, v: Tree, c: seq<Slot>,
                    u': Tree, ok: bool)
    requires Growing(start, idx, end, u, d) && Extends(d, idx, vid, d') && start <= idx <= end
    requires v == if u.depth == 0 then u.(depth := 1) else u
    requires Settable(v) && Settled(v, c, idx, vid, u', ok)
    ensures Growing(start, idx + 1, end, u', d')
  {
    hide Lacks, Loose, Set, HasEntry, Bypasses, Usable;
    UsableParts(u);
    if u.depth == 0 { InitSame(u, idx, vid); } else { LacksNoEntry(u, idx, end); }
    if Bypasses(v, c, idx) { BypassHasEntry(v, c, idx); }
    NewSet(u, idx, vid, end);
  }

  // ---- a range of sets, seen beside direct sets

  /** For an index still to come, its entry is in a cached node if and only if it is covered. */
  ghost predicate CacheTracks(t: Tree, start: nat, idx: nat, u: Tree, c: seq<Slot>)
    requires HasNodes(t) && HasNodes(u)
  {
    forall j: nat :: j >= idx && HasEntry(t, j) ==> (Bypasses(u, c, j) <==> Covered(t, start, idx, j))
  }

  ghost predicate MoreToCome(t: Tree, idx: nat)
    requires HasNodes(t)
  {
    exists j: nat :: j >= idx && HasEntry(t, j)
  }

  /** From t, with [start, idx) set, the cache leads to u and direct sets lead to d. */
  ghost predicate Following(t: Tree, start: nat, idx: nat, vid: nat, u: Tree, d: Tree, c: seq<Slot>) {
    start <= idx && HasNodes(t) && HasNodes(u) && HasNodes(d) &&
    Valid(u) && Packed(u) && Valid(d) && Packed(d) && Shape(u) == Shape(d) &&
    (forall j: nat :: Get(u, j) == Ranged(t, start, idx, vid, j)) &&
    (forall j: nat :: Get(d, j) == if start <= j < idx then Some(vid) else Get(t, j)) &&
    (NoneLost(t, start, idx, vid) ==> u == d) &&
    (u.depth <= 1 ==> c == []) &&
    (MoreToCome(t, idx) ==> Matches(u, After(t, start, idx - start))) &&
    CacheTracks(t, start, idx, u, c)
  }

  lemma FollowingStarts(t: Tree, start: nat, vid: nat)
    requires Valid(t) && Packed(t)
    ensures HasNodes(t) && Following(t, start, start, vid, t, t, [])
  {
    hide Packed, Get;
    ValidSearchable(t, start);
    forall j: nat | j >= start && HasEntry(t, j) ensures Bypasses(t, [], j) <==> Covered(t, start, start, j) {}
  }

  lemma FollowingEnds(t: Tree, start: nat, idx: nat, vid: nat, u: Tree, d: Tree, c: seq<Slot>)
    requires Following(t, start, idx, vid, u, d, c)
    ensures HasNodes(t) && HasNodes(u) && Valid(u)
    ensures forall j: nat :: Get(u, j) == Ranged(t, start, idx, vid, j)
    ensures u == d <==> NoneLost(t, start, idx, vid)
  {
    hide Get, Shadowed, Packed, Valid, Shape, CacheTracks, MoreToCome;
    if u == d {
      forall j: nat | start <= j < idx && Shadowed(t, start, j) ensures Get(t, j) == Some(vid) {
        assert Get(u, j) == Ranged(t, start, idx, vid, j);
        assert Get(d, j) == Some(vid);
      }
    }
  }

  lemma FollowingParts(t: Tree, start: nat, idx: nat, vid: nat, u: Tree, d: Tree, c: seq<Slot>, d': Tree)
    requires Following(t, start, idx, vid, u, d, c) && Sets(AsWritten, d, Index(idx, vid), d')
    ensures Valid(u) && Packed(u) && HasNodes(u) && !Splits(u, idx) && idx < INDEX_LIMIT
    ensures Set(AsWritten, u, idx, vid).Done? && (u.depth == 0 ==> u == EMPTY)
  {
    hide Get, Ranged, NoneLost, CacheTracks, MoreToCome, Set, Splits, Packed;
    SetShape(u, d, idx, vid);
  }

  /** The effects of one set of the range, as the class leaves them. */
  ghost predicate Stepped(u: Tree, c: seq<Slot>, idx: nat, vid: nat, u': Tree, c': seq<Slot>)
    requires Valid(u)
  {
    var v := if u.depth == 0 then u.(depth := 1) else u;
    Valid(v) && Settled(v, c, idx, vid, u', true) && SetCaches(v, c, c', idx) && HasNodes(v) &&
    (HasEntry(v, idx) ==> c' == c)
  }

  lemma StepDone(u: Tree, c: seq<Slot>, idx: nat, vid: nat, u': Tree, c': seq<Slot>, ok: bool)
    requires Valid(u) && !Splits(u, idx) && Set(AsWritten, u, idx, vid).Done?
    requires var v := if u.depth == 0 then u.(depth := 1) else u;
      Valid(v) && HasNodes(v) && Settled(v, c, idx, vid, u', ok) && (HasEntry(v, idx) ==> c' == c) &&
      (ok && !Splits(v, idx) ==> SetCaches(v, c, c', idx))
    ensures ok && Stepped(u, c, idx, vid, u', c')
  {
    hide Set, SetCaches, Get, Bypasses;
    if u.depth == 0 { InitSame(u, idx, vid); }
  }

  lemma UpdateShape(u: Tree, idx: nat, vid: nat)
    requires Valid(u) && HasNodes(u) && HasEntry(u, idx)
    ensures !Splits(u, idx) && Set(AsWritten, u, idx, vid).Done? && Shape(Set(AsWritten, u, idx, vid).tree) == Shape(u)
    ensures Set(AsWritten, u, idx, vid).tree.root == u.root && Set(AsWritten, u, idx, vid).tree.depth == u.depth
  {
    hide Updated, Inserted;
    if u.depth == 2 {
      var p := Pos(RootKeys(u.root), idx);
      var oid, leaf := u.root[p].oid, Leaf(u, p);
      BlankedEdits(leaf, idx, vid, 0);
      ShapeUpdate(u, Set(AsWritten, u, idx, vid).tree, oid, Updated(leaf, idx, vid));
      assert Shape(u).nodes[oid := Blanked(leaf)] == Shape(u).nodes;
    } else {
      BlankedEdits(u.leaf, idx, vid, 0);
    }
  }

  lemma AnswersStep(t: Tree, start: nat, idx: nat, vid: nat, u: Tree, u': Tree, lost: bool)
    requires HasNodes(t) && HasNodes(u) && HasNodes(u') && start <= idx
    requires forall j: nat :: Get(u, j) == Ranged(t, start, idx, vid, j)
    requires if lost then u' == u && Shadowed(t, start, idx) else IsSet(u, u', idx, vid) && !Shadowed(t, start, idx)
    ensures forall j: nat :: Get(u', j) == Ranged(t, start, idx + 1, vid, j)
  {
    hide Get, Shadowed;
    forall j: nat ensures Get(u', j) == Ranged(t, start, idx + 1, vid, j) {
      assert Get(u, j) == Ranged(t, start, idx, vid, j);
    }
  }

  lemma DirectStep(t: Tree, start: nat, idx: nat, vid: nat, d: Tree, d': Tree)
    requires HasNodes(t) && HasNodes(d) && HasNodes(d') && start <= idx && IsSet(d, d', idx, vid)
    requires forall j: nat :: Get(d, j) == if start <= j < idx then Some(vid) else Get(t, j)
    ensures forall j: nat :: Get(d', j) == if start <= j < idx + 1 then Some(vid) else Get(t, j)
  {
    hide Get;
  }

  lemma NoneLostBefore(t: Tree, start: nat, idx: nat, vid: nat)
    requires HasNodes(t) && NoneLost(t, start, idx + 1, vid)
    ensures NoneLost(t, start, idx, vid)
  {
    hide Get, Shadowed;
  }

  /** What the layout says once idx is set, if more entries of t are to come. */
  lemma MatchesStep(t: Tree, start: nat, idx: nat, vid: nat, u: Tree, u': Tree, lost: bool)
    requires HasNodes(t) && HasNodes(u) && start <= idx && Valid(u) && Packed(u) && !Splits(u, idx) && idx < INDEX_LIMIT
    requires forall j: nat :: Get(u, j) == Ranged(t, start, idx, vid, j)
    requires MoreToCome(t, idx) ==> Matches(u, After(t, start, idx - start))
    requires Set(AsWritten, u, idx, vid).Done? && u' == if lost then u else Set(AsWritten, u, idx, vid).tree
    requires lost ==> u.depth == 2
    ensures MoreToCome(t, idx + 1) ==> Matches(u', After(t, start, idx + 1 - start))
  {
    hide Get, Set, Splits, Packed, Matches, Shadowed;
    if j: nat :| j >= idx + 1 && HasEntry(t, j) {
      assert MoreToCome(t, idx);
      assert Get(u, j) == Ranged(t, start, idx, vid, j);
      var f := After(t, start, idx - start);
      MatchesNext(u, f, idx, vid, j);
      if lost { MatchesFenced(u, f, idx); }
    }
  }

  lemma MatchesFenced(u: Tree, f: Layout, idx: nat)
    requires u.depth == 2 && Matches(u, f)
    ensures Next(f, idx) == f && f.Fenced?
  {}

  lemma TracksPresent(t: Tree, start: nat, idx: nat, u: Tree, u': Tree, c: seq<Slot>)
    requires HasNodes(t) && HasNodes(u) && HasNodes(u') && start <= idx && HasEntry(t, idx)
    requires CacheTracks(t, start, idx, u, c)
    requires u'.root == u.root && u'.depth == u.depth
    requires forall j: nat :: j > idx ==> Get(u', j) == Get(u, j)
    ensures CacheTracks(t, start, idx + 1, u', c)
  {
    hide Covered, Value;
    forall j: nat | j >= idx + 1 && HasEntry(t, j) ensures Bypasses(u', c, j) <==> Covered(t, start, idx + 1, j) {
      CoveredNext(t, start, idx, j, After(t, start, idx + 1 - start));
      assert Bypasses(u, c, j) <==> Covered(t, start, idx, j);
      BypassSame(u, u', c, j);
    }
  }

  lemma BypassSame(u: Tree, u': Tree, c: seq<Slot>, j: nat)
    requires HasNodes(u) && HasNodes(u') && u'.root == u.root && u'.depth == u.depth && Get(u', j) == Get(u, j)
    ensures Bypasses(u', c, j) <==> Bypasses(u, c, j)
  {}

  lemma PresentStep(t: Tree, start: nat, idx: nat, vid: nat, u: Tree, d: Tree, c: seq<Slot>, d': Tree, u': Tree,
                    c': seq<Slot>)
    requires Following(t, start, idx, vid, u, d, c) && Sets(AsWritten, d, Index(idx, vid), d') && HasNodes(d')
    requires Valid(u) && Stepped(u, c, idx, vid, u', c') && HasEntry(t, idx)
    ensures Valid(u') && Packed(u') && HasNodes(u') && Shape(u') == Shape(d') && c' == c && (u'.depth <= 1 ==> c' == [])
    ensures forall j: nat :: Get(u', j) == Ranged(t, start, idx + 1, vid, j)
    ensures NoneLost(t, start, idx + 1, vid) ==> u' == d'
    ensures MoreToCome(t, idx + 1) ==> Matches(u', After(t, start, idx + 1 - start))
    ensures CacheTracks(t, start, idx + 1, u', c')
  {
    hide Get, Set, Splits, Packed, Matches, Covered, Shape, MoreToCome, SetCaches, Valid, CacheTracks, NoneLost;
    FollowingParts(t, start, idx, vid, u, d, c, d');
    assert Get(u, idx) == Ranged(t, start, idx, vid, idx);
    UpdateShape(u, idx, vid);
    SetShape(u, d, idx, vid);
    SetPacked(AsWritten, u, idx, vid);
    var lost := Bypasses(u, c, idx);
    assert lost <==> Shadowed(t, start, idx) by { TracksAt(t, start, idx, u, c); }
    NotEmpty(u, idx);
    assert u' == if lost then u else Set(AsWritten, u, idx, vid).tree;
    ValidSearchable(u', idx);
    AnswersStep(t, start, idx, vid, u, u', lost);
    MatchesStep(t, start, idx, vid, u, u', lost);
    TracksPresent(t, start, idx, u, u', c);
    if NoneLost(t, start, idx + 1, vid) {
      NoneLostBefore(t, start, idx, vid);
      if lost {
        LostHasVid(t, start, idx, vid);
        SetSame(u, idx, vid);
      }
    }
  }

  lemma LostHasVid(t: Tree, start: nat, idx: nat, vid: nat)
    requires HasNodes(t) && start <= idx && NoneLost(t, start, idx + 1, vid) && Shadowed(t, start, idx)
    ensures Get(t, idx) == Some(vid)
  {}

  lemma TracksAt(t: Tree, start: nat, idx: nat, u: Tree, c: seq<Slot>)
    requires HasNodes(t) && HasNodes(u) && CacheTracks(t, start, idx, u, c) && HasEntry(t, idx)
    ensures Bypasses(u, c, idx) <==> Shadowed(t, start, idx)
  {}

  lemma NotEmpty(u: Tree, idx: nat)
    requires HasNodes(u) && HasEntry(u, idx)
    ensures u.depth != 0
  {}

  lemma CoveredLater(t: Tree, start: nat, idx: nat, j: nat)
    requires HasNodes(t) && Covered(t, start, idx, j)
    ensures Covered(t, start, idx + 1, j)
  {
    var i :| start <= i < idx && !HasEntry(t, i) && SameLeaf(t, start, i, j);
    assert SameLeaf(t, start, i, j);
  }

  lemma SamePosition(b: Tree, idx: nat, j: nat)
    requires DistinctNodes(b) && |b.root| > 0 && Pos(RootKeys(b.root), idx) < |b.root|
    requires Pos(RootKeys(b.root), j) < |b.root|
    ensures b.root[Pos(RootKeys(b.root), j)].oid == Target(b, idx) <==>
      Pos(RootKeys(b.root), idx) == Pos(RootKeys(b.root), j)
  {}

  lemma BypassesCached(u: Tree, c: seq<Slot>, j: nat)
    requires HasNodes(u) && u.depth == 2 && HasEntry(u, j)
    ensures Pos(RootKeys(u.root), j) < |u.root|
    ensures Bypasses(u, c, j) <==> IsCached(c, u.root[Pos(RootKeys(u.root), j)].oid)
  {}

  /** After a new index is put in the leaf of b that it belongs to, an entry to come is in a cached node
      if and only if it is in that leaf. */
  lemma TracksNewAt(t: Tree, start: nat, idx: nat, u: Tree, b: Tree, u': Tree, c: seq<Slot>, c': seq<Slot>, j: nat,
                    f: Layout)
    requires HasNodes(t) && HasNodes(u) && HasNodes(u') && start <= idx < j && !HasEntry(t, idx) && HasEntry(t, j)
    requires HasEntry(u', j)
    requires f == After(t, start, idx + 1 - start) && f.Fenced? && Matches(u', f)
    requires HasNodes(b) && DistinctNodes(b) && b.depth == 2 && u'.root == b.root
    requires Pos(RootKeys(b.root), idx) < |b.root|
    requires OnlyAdds(c, c', Target(b, idx)) && IsCached(c', Target(b, idx))
    requires if u.depth == 2 then b == u && HasEntry(u, j) else c == []
    requires Bypasses(u, c, j) <==> Covered(t, start, idx, j)
    ensures Bypasses(u', c', j) <==> Covered(t, start, idx + 1, j)
  {
    hide Covered, Get, Found;
    BypassesCached(u', c', j);
    SamePosition(b, idx, j);
    CoveredNext(t, start, idx, j, f);
    var oid := b.root[Pos(RootKeys(b.root), j)].oid;
    if IsCached(c', oid) && oid != Target(b, idx) {
      assert IsCached(c, oid);
      BypassesCached(u, c, j);
      CoveredLater(t, start, idx, j);
    }
  }

  lemma TracksNew(t: Tree, start: nat, idx: nat, vid: nat, u: Tree, u': Tree, c: seq<Slot>, c': seq<Slot>)
    requires HasNodes(t) && HasNodes(u) && HasNodes(u') && start <= idx && !HasEntry(t, idx) && !HasEntry(u, idx)
    requires Valid(u) && Packed(u) && !Splits(u, idx) && idx < INDEX_LIMIT && u.depth > 0
    requires CacheTracks(t, start, idx, u, c) && (u.depth <= 1 ==> c == [])
    requires forall j: nat :: j > idx ==> Get(u, j) == Get(t, j) && Get(u', j) == Get(t, j)
    requires MoreToCome(t, idx) ==> Matches(u, After(t, start, idx - start))
    requires Set(AsWritten, u, idx, vid) == Done(u') && SetCaches(u, c, c', idx)
    ensures CacheTracks(t, start, idx + 1, u', c')
  {
    hide Get, Set, Splits, Packed, Covered, Matches, Valid, Base, Target, Rooted;
    forall j: nat | j >= idx + 1 && HasEntry(t, j) ensures Bypasses(u', c', j) <==> Covered(t, start, idx + 1, j) {
      assert MoreToCome(t, idx);
      var f, b := After(t, start, idx - start), Base(u, idx);
      assert Get(u, j) == Get(t, j) && Get(u', j) == Get(t, j);
      assert Bypasses(u, c, j) <==> Covered(t, start, idx, j);
      MatchesNext(u, f, idx, vid, j);
      BaseParts(u, idx);
      BaseAnswers(u, idx);
      if b.depth == 2 {
        MatchesTwo(u', Next(f, idx));
        RootedParts(b);
        TracksNewAt(t, start, idx, u, b, u', c, c', j, Next(f, idx));
      } else {
        MatchesOne(u', Next(f, idx));
        CoveredNext(t, start, idx, j, Next(f, idx));
      }
    }
  }

  lemma BaseAnswers(u: Tree, idx: nat)
    requires Valid(u) && HasNodes(u) && HasNodes(Base(u, idx))
    ensures HasEntry(Base(u, idx), idx) <==> HasEntry(u, idx)
    ensures u.depth <= 2
  {
    hide Transferred;
    if u.depth == 1 && !Found(u.leaf, idx) && |u.leaf| >= MAX_INDEX { TransferKeeps(u); }
  }

  lemma MatchesTwo(u: Tree, f: Layout)
    requires u.depth == 2 && Matches(u, f)
    ensures f.Fenced? && f.keys == RootKeys(u.root)
  {}

  lemma MatchesOne(u: Tree, f: Layout)
    requires u.depth != 2 && Matches(u, f)
    ensures f.Flat?
  {}

  lemma BaseParts(u: Tree, idx: nat)
    requires HasNodes(u)
    ensures Base(u, idx).depth == 2 || Base(u, idx) == u
    ensures u.depth == 2 ==> Base(u, idx) == u
    ensures Rooted(Base(u, idx)) ==> DistinctNodes(Base(u, idx)) && HasNodes(Base(u, idx))
    ensures !HasEntry(u, idx) && Base(u, idx).depth == 2 && u.depth == 1 ==> !Found(u.leaf, idx)
  {}

  lemma NewStep(t: Tree, start: nat, idx: nat, vid: nat, u: Tree, d: Tree, c: seq<Slot>, d': Tree, u': Tree,
                c': seq<Slot>)
    requires Following(t, start, idx, vid, u, d, c) && Sets(AsWritten, d, Index(idx, vid), d') && HasNodes(d')
    requires Valid(u) && Stepped(u, c, idx, vid, u', c') && !HasEntry(t, idx)
    ensures Valid(u') && Packed(u') && HasNodes(u') && Shape(u') == Shape(d') && (u'.depth <= 1 ==> c' == [])
    ensures forall j: nat :: Get(u', j) == Ranged(t, start, idx + 1, vid, j)
    ensures NoneLost(t, start, idx + 1, vid) ==> u' == d'
    ensures MoreToCome(t, idx + 1) ==> Matches(u', After(t, start, idx + 1 - start))
    ensures CacheTracks(t, start, idx + 1, u', c')
  {
    hide Get, Set, Splits, Packed, Matches, Covered, Shape, MoreToCome, SetCaches, Valid, CacheTracks, NoneLost,
      Bypasses;
    FollowingParts(t, start, idx, vid, u, d, c, d');
    assert Get(u, idx) == Ranged(t, start, idx, vid, idx);
    SetShape(u, d, idx, vid);
    SetPacked(AsWritten, u, idx, vid);
    assert !HasEntry(u, idx);
    NewDone(u, c, idx, vid, u', c');
    ValidSearchable(u', idx);
    AnswersStep(t, start, idx, vid, u, u', false);
    MatchesStep(t, start, idx, vid, u, u', false);
    NewTracks(t, start, idx, vid, u, u', c, c');
    if NoneLost(t, start, idx + 1, vid) { NoneLostBefore(t, start, idx, vid); }
  }

  lemma NewTracks(t: Tree, start: nat, idx: nat, vid: nat, u: Tree, u': Tree, c: seq<Slot>, c': seq<Slot>)
    requires HasNodes(t) && HasNodes(u) && HasNodes(u') && start <= idx && !HasEntry(t, idx) && !HasEntry(u, idx)
    requires Valid(u) && Packed(u) && !Splits(u, idx) && idx < INDEX_LIMIT && Stepped(u, c, idx, vid, u', c')
    requires CacheTracks(t, start, idx, u, c) && (u.depth <= 1 ==> c == [])
    requires forall j: nat :: Get(u, j) == Ranged(t, start, idx, vid, j)
    requires forall j: nat :: Get(u', j) == Ranged(t, start, idx + 1, vid, j)
    requires MoreToCome(t, idx) ==> Matches(u, After(t, start, idx - start))
    requires Set(AsWritten, u, idx, vid) == Done(u')
    ensures CacheTracks(t, start, idx + 1, u', c')
  {
    hide Get, Set, Splits, Packed, Covered, Matches, Valid, SetCaches, Bypasses;
    if u.depth == 0 {
      NothingToCome(t, start, idx, vid, u);
    } else {
      forall j: nat | j > idx ensures Get(u, j) == Get(t, j) && Get(u', j) == Get(t, j) {
        assert Get(u, j) == Ranged(t, start, idx, vid, j) && Get(u', j) == Ranged(t, start, idx + 1, vid, j);
      }
      TracksNew(t, start, idx, vid, u, u', c, c');
    }
  }

  lemma NothingToCome(t: Tree, start: nat, idx: nat, vid: nat, u: Tree)
    requires HasNodes(t) && HasNodes(u) && u.depth == 0 && (forall j: nat :: Get(u, j) == Ranged(t, start, idx, vid, j))
    ensures forall j: nat :: j >= idx ==> !HasEntry(t, j)
  {
    forall j: nat | j >= idx ensures !HasEntry(t, j) { assert Get(u, j) == Ranged(t, start, idx, vid, j); }
  }

  lemma NewDone(u: Tree, c: seq<Slot>, idx: nat, vid: nat, u': Tree, c': seq<Slot>)
    requires Valid(u) && HasNodes(u) && !HasEntry(u, idx) && Stepped(u, c, idx, vid, u', c')
    requires u.depth <= 1 ==> c == []
    ensures Set(AsWritten, u, idx, vid) == Done(u') && (u'.depth <= 1 ==> c' == [])
  {
    hide Set, Get, SetCaches, Bypasses;
    var v := if u.depth == 0 then u.(depth := 1) else u;
    if u.depth == 0 { InitSame(u, idx, vid); }
    if Bypasses(v, c, idx) { BypassHasEntry(v, c, idx); }
    ValidSearchable(v, idx);
    DepthStays(v, c, idx, vid, u', c');
  }

  lemma DepthStays(v: Tree, c: seq<Slot>, idx: nat, vid: nat, u': Tree, c': seq<Slot>)
    requires Valid(v) && v.depth >= 1 && HasNodes(v) && Set(AsWritten, v, idx, vid) == Done(u')
    requires SetCaches(v, c, c', idx)
    ensures u'.depth <= 1 ==> v.depth == 1 && c' == c
  {
    hide Transferred, Inserted, Updated, Split;
  }

  lemma FollowingStep(t: Tree, start: nat, idx: nat, vid: nat, u: Tree, d: Tree, c: seq<Slot>, d': Tree, u': Tree,
                      c': seq<Slot>)
    requires Following(t, start, idx, vid, u, d, c) && Sets(AsWritten, d, Index(idx, vid), d')
    requires Valid(u) && Stepped(u, c, idx, vid, u', c')
    ensures Following(t, start, idx + 1, vid, u', d', c')
  {
    hide Get, Ranged, NoneLost, CacheTracks, MoreToCome, Set, Splits, Packed, Shape, Matches, Covered, Stepped, Valid;
    SetPacked(AsWritten, d, idx, vid);
    ValidSearchable(d', idx);
    DirectStep(t, start, idx, vid, d, d');
    if HasEntry(t, idx) {
      PresentStep(t, start, idx, vid, u, d, c, d', u', c');
    } else {
      NewStep(t, start, idx, vid, u, d, c, d', u', c');
    }
  }

  lemma SetSame(t: Tree, idx: nat, vid: nat)
    requires Valid(t) && HasNodes(t) && Get(t, idx) == Some(vid)
    ensures Set(AsWritten, t, idx, vid) == Done(t)
  {
    if t.depth == 2 {
      var p := Pos(RootKeys(t.root), idx);
      var leaf := Leaf(t, p);
      assert Updated(leaf, idx, vid) == leaf;
      assert t.nodes[t.root[p].oid := leaf] == t.nodes;
    } else {
      assert Updated(t.leaf, idx, vid) == t.leaf;
    }
  }

  lemma ValidSearchable(t: Tree, idx: nat)
    requires Valid(t)
    ensures Searchable(t, idx) && HasNodes(t) && t.depth <= 2
    ensures (t.depth == 1 ==> |t.leaf| <= MAX_INDEX) && (t.depth == 2 ==> |t.root| > 0)
  {
    if t.depth == 2 {
      var p := Pos(RootKeys(t.root), idx);
      assert Fits(t, if p < |t.root| then p else p - 1);
      forall i, k | 0 <= i < k < |t.root|
        ensures t.root[i].idx < t.root[k].idx
      {
        assert RootKeys(t.root)[i] < RootKeys(t.root)[k];
      }
    }
  }

  lemma BypassHasEntry(t: Tree, cache: seq<Slot>, idx: nat)
    requires HasNodes(t) && Bypasses(t, cache, idx)
    ensures HasEntry(t, idx)
  {}

  lemma RootedSearchable(t: Tree, idx: nat)
    requires t.depth == 2 && Rooted(t)
    ensures Searchable(t, idx)
  {
    ValidSearchable(t, idx);
  }

  lemma WrittenSearchable(t: Tree, idx: nat)
    requires Valid(t) && Splits(t, idx) && Growable(t)
    ensures Searchable(Split(AsWritten, t, Pos(RootKeys(t.root), idx)), idx)
  {
    hide AddToRoot, Value, Found;
    var p := Pos(RootKeys(t.root), idx);
    WrittenReady(t, idx);
    WrittenRoot(t, p);
    assert Fits(t, p) && Fits(t, 0);
    forall i, k | 0 <= i < k < |t.root|
      ensures t.root[i].idx < t.root[k].idx
    {
      assert RootKeys(t.root)[i] < RootKeys(t.root)[k];
    }
    if idx == 0 { FreshDiffers(Leaf(t, p), |Leaf(t, p)| - 1, idx); }
  }

  lemma FullSearchable(t: Tree, idx: nat)
    requires Valid(t) && Splits(t, idx) && !Growable(t)
    ensures Searchable(Split(AsWritten, t, Pos(RootKeys(t.root), idx)), idx)
  {
    hide Value, Found;
    FullRootReady(AsWritten, t, idx);
    ValidSearchable(t, idx);
  }

  /** After a transfer or a split there is nothing left to find and room to insert. */
  lemma SecondTurn(t: Tree, idx: nat, vid: nat, t1: Tree)
    requires Valid(t) && Once(AsWritten, t, idx, vid) == Again(t1)
    ensures t1.depth == 2 && HasNodes(t1) && |t1.root| > 0 && Searchable(t1, idx)
    ensures !HasEntry(t1, idx) && !HasEntry(t, idx) && Once(AsWritten, t1, idx, vid).Done?
  {
    hide Transferred, Split, Searchable, Found;
    if t.depth == 2 {
      assert Splits(t, idx) by { assert Fits(t, Pos(RootKeys(t.root), idx)); }
      if Growable(t) {
        WrittenReady(t, idx); WrittenSearchable(t, idx); WrittenAgain(t, idx, vid);
      } else {
        FullRootReady(AsWritten, t, idx); FullSearchable(t, idx); FullRootAgain(AsWritten, t, idx, vid);
      }
    } else {
      TransferKeeps(t);
      TransferRoom(t, idx);
      RootedSearchable(t1, idx);
      OnceWithRoom(AsWritten, t1, idx, vid);
    }
  }

  lemma ValidReady(t: Tree, idx: nat, vid: nat)
    requires Valid(t) && t.depth >= 1
    ensures Ready(t, idx, vid)
  {
    hide Once, Valid, Searchable, HasEntry;
    ValidSearchable(t, idx);
    if Once(AsWritten, t, idx, vid).Again? { SecondTurn(t, idx, vid, Once(AsWritten, t, idx, vid).tree); }
  }

  lemma ReadyParts(t: Tree, idx: nat, vid: nat)
    requires Ready(t, idx, vid)
    ensures 1 <= t.depth <= 2 && Settable(t) && HasNodes(t) && Searchable(t, idx)
    ensures (t.depth == 1 ==> |t.leaf| <= MAX_INDEX) && (t.depth == 2 ==> |t.root| > 0)
  {}

  lemma FirstTurn(t: Tree, cache: seq<Slot>, idx: nat, vid: nat, t': Tree, r: Status)
    requires Ready(t, idx, vid) && Settable(t) && Turned(t, cache, idx, vid, t', r)
    ensures r == Retry ==>
      t'.depth == 2 && HasNodes(t') && |t'.root| > 0 && Searchable(t', idx) && !HasEntry(t, idx) &&
      Once(AsWritten, t, idx, vid) == Again(t')
    ensures r != Retry ==> Settled(t, cache, idx, vid, t', r == Finished)
  {
    hide Once, Bypasses, Searchable, HasEntry;
  }

  lemma LastTurn(t: Tree, cache: seq<Slot>, cache1: seq<Slot>, idx: nat, vid: nat, t1: Tree, t': Tree, r: Status)
    requires Ready(t, idx, vid) && Settable(t) && Once(AsWritten, t, idx, vid) == Again(t1)
    requires HasNodes(t1) && (t1.depth == 2 ==> |t1.root| > 0)
    requires Turned(t1, cache1, idx, vid, t', r) && !HasEntry(t, idx)
    ensures r == Finished && Settled(t, cache, idx, vid, t', true)
  {
    hide Once, HasEntry, Bypasses, Searchable;
    if Bypasses(t1, cache1, idx) { BypassHasEntry(t1, cache1, idx); }
    if Bypasses(t, cache, idx) { BypassHasEntry(t, cache, idx); }
  }

  /** The same for a whole set, which may have to make the tree one with two levels first. */
  ghost predicate SetCaches(t: Tree, c: seq<Slot>, c': seq<Slot>, idx: nat)
    requires Valid(t)
  {
    var b := Base(t, idx);
    HasNodes(b) && (b.depth == 2 ==> |b.root| > 0) && TurnCaches(b, c, c', idx)
  }

  lemma FirstCaches(t: Tree, c: seq<Slot>, idx: nat, vid: nat, t': Tree, r: Status, c': seq<Slot>)
    requires Valid(t) && HasNodes(t) && (t.depth == 2 ==> |t.root| > 0) && t.depth >= 1 && Turned(t, c, idx, vid, t', r)
    requires r == Finished || t.depth == 1 ==> TurnCaches(t, c, c', idx)
    ensures r == Finished && !Splits(t, idx) ==> SetCaches(t, c, c', idx)
    ensures r == Retry && t.depth == 1 ==> c' == c
  {
    hide Transferred, Inserted, Updated, Split;
  }

  lemma LastCaches(t: Tree, c: seq<Slot>, idx: nat, vid: nat, t1: Tree, c': seq<Slot>)
    requires Valid(t) && Once(AsWritten, t, idx, vid) == Again(t1) && t.depth >= 1
    requires HasNodes(t1) && (t1.depth == 2 ==> |t1.root| > 0) && TurnCaches(t1, c, c', idx)
    ensures !Splits(t, idx) ==> t.depth == 1 && SetCaches(t, c, c', idx)
  {
    hide Transferred, Inserted, Updated, Split;
    if t.depth == 2 {
      var p := Pos(RootKeys(t.root), idx);
      assert p < |t.root|;
      assert Fits(t, p);
    }
  }

  lemma {:induction false} StoredStays(store: Nodes, cache: seq<Slot>, oid: nat, n: nat)
    requires n <= |cache| && oid in store
    ensures oid in Overlay(store, cache, n)
  {
    if n > 0 { StoredStays(store, cache, oid, n - 1); }
  }
}
