/** The hash ring as sheep keeps it: a red-black tree of vnodes in hash order, how it is filled and how
    the copies of an object are found on it (include/sheep.h). Vnodes are numbered from 1 in the order
    in which they are made. */
module VnodeRing {
  import opened Options
  import opened Placement
  import opened RedBlackTree
  import opened TreeLayout

  // ---- the ring in the tree

  /** The tree nodes s, in order, as vnodes. */
  ghost function Ring(all: seq<Vnode>, s: seq<nat>): (ring: seq<Vnode>)
    requires forall i :: 0 <= i < |s| ==> 0 < s[i] <= |all|
    ensures |ring| == |s| && forall i :: 0 <= i < |s| ==> ring[i] == all[s[i] - 1]
  {
    seq(|s|, i requires 0 <= i < |s| => all[s[i] - 1])
  }

  /** The tree holds the first n vnodes, by hash. */
  ghost predicate Holds(t: RbTree, all: seq<Vnode>, n: nat)
    reads t
  {
    t.Valid() && Sorted(t.key, t.Contents()) && n <= |all| < |t.mem| &&
    (forall x :: x in t.Contents() <==> 0 < x <= n) &&
    (forall x :: 0 < x <= |all| ==> t.key(x) == all[x - 1].hash)
  }

  lemma HoldsInRange(t: RbTree, all: seq<Vnode>, n: nat)
    requires Holds(t, all, n)
    ensures forall i :: 0 <= i < |t.Contents()| ==> 0 < t.Contents()[i] <= |all|
    ensures n > 0 ==> t.Contents() != []
    ensures t.Valid() && Distinct(t.Contents())
  {
    Listed(t.mem, t.root, t.tree);
    forall i | 0 <= i < |t.Contents()| ensures 0 < t.Contents()[i] <= |all| { assert t.Contents()[i] in t.Contents(); }
    if n > 0 { assert 1 in t.Contents(); }
  }

  lemma CeilingIsFirst(key: nat -> int, s: seq<nat>, ring: seq<Vnode>, h: nat, r: nat)
    requires |s| == |ring| && (forall i :: 0 <= i < |s| ==> key(s[i]) == ring[i].hash) && ring != []
    requires Ceiling(key, s, h, r)
    ensures r == s[Round(FirstAt(ring, h, 0), |ring|)]
  {
    var p := FirstAt(ring, h, 0);
    assert p < |ring| ==> h <= key(s[p]);
    if !Below(key, s, h) {
      var i :| 0 <= i < |s| && r == s[i] && h <= key(r) && Below(key, s[..i], h);
      assert forall j :: 0 <= j < i ==> s[..i][j] == s[j];
    }
  }

  /** The search of the tree ends at the vnode where the walk round the ring starts. */
  method OidToFirstVnode(t: RbTree, h: nat, ghost all: seq<Vnode>, ghost n: nat) returns (x: nat)
    requires Holds(t, all, n) && n > 0
    ensures forall i :: 0 <= i < |t.Contents()| ==> 0 < t.Contents()[i] <= |all|
    ensures var ring := Ring(all, t.Contents()); ring != [] && x == t.Contents()[Round(FirstAt(ring, h, 0), |ring|)]
  {
    HoldsInRange(t, all, n);
    x := t.Nsearch(h);
    CeilingIsFirst(t.key, t.Contents(), Ring(all, t.Contents()), h, x);
  }

  /** Stepping to the next node, or back to the first, is one step round the ring. */
  method NextVnode(t: RbTree, x: nat, ghost i: nat) returns (r: nat)
    requires t.Valid() && i < |t.Contents()| && t.Contents()[i] == x
    ensures r == t.Contents()[Round(i + 1, |t.Contents()|)]
  {
    hide Follows, At, Colored, Nodes;
    ghost var s := t.Contents();
    Listed(t.mem, t.root, t.tree);
    r := t.Next(x);
    NextSlot(s, i, r);
    if r == 0 {
      assert s[i + 1..] == [];
      r := t.First();
    }
  }

  /** Panics if and only if more copies are wanted than there are zones on the ring; otherwise returns
      the first vnode of each new zone, clockwise. */
  method OidToVnodes(t: RbTree, h: nat, copies: nat, all: seq<Vnode>, ghost n: nat) returns (vnodes: Option<seq<Vnode>>)
    requires Holds(t, all, n) && n > 0 && copies > 0
    ensures forall i :: 0 <= i < |t.Contents()| ==> 0 < t.Contents()[i] <= |all|
    ensures var ring := Ring(all, t.Contents());
      (vnodes.Some? <==> copies <= |Zones(ring)|) &&
      (vnodes.Some? ==> copies <= |Chosen(ring, h)| && vnodes.value == Chosen(ring, h)[..copies])
  {
    hide Clockwise, Zones, HasZone, Holds, At, Colored, Ids, Nodes, Distinct, FirstAt, Firsts, Round;
    HoldsInRange(t, all, n);
    ghost var s, ring := t.Contents(), Ring(all, t.Contents());
    ghost var c := Clockwise(ring, h);
    ChosenCount(ring, h);
    var first := OidToFirstVnode(t, h, all, n);
    ghost var p := Round(FirstAt(ring, h, 0), |ring|);
    WalkAt(ring, h, 0);
    RoundWithin(p, |ring|);
    var chosen, next := [all[first - 1]], first;
    ghost var m := 1;
    assert Firsts(c, 1) == [c[0]] by { FirstOfAll(c); }
    ghost var q := p;
    while |chosen| < copies
      invariant 1 <= m <= |ring| && 1 <= |chosen| <= copies && chosen == Firsts(c, m)
      invariant q < |ring| && q == Round(p + m - 1, |ring|) && next == s[q]
      decreases |ring| - m
    {
      next := NextVnode(t, next, q);
      RoundStep(p, m, |ring|);
      q := Round(q + 1, |ring|);
      if next == first {
        BackAtStart(s, p, m);
        return None;
      }
      assert m < |ring| by { NotBack(s, p, m); }
      WalkAt(ring, h, m);
      assert all[next - 1] == ring[q] == c[m];
      var same := SameZoneAs(chosen, all[next - 1]);
      FirstsNext(c, m);
      if !same { chosen := chosen + [all[next - 1]]; }
      m := m + 1;
    }
    FirstsPrefix(c, m, |ring|);
    return Some(chosen);
  }

  lemma FirstsNext(c: seq<Vnode>, m: nat)
    requires m < |c|
    ensures Firsts(c, m + 1) == if HasZone(Firsts(c, m), c[m].zone) then Firsts(c, m) else Firsts(c, m) + [c[m]]
  {}

  lemma RoundWithin(p: nat, n: nat)
    requires p < n
    ensures Round(p, n) == p
  {}

  lemma RoundStep(p: nat, m: nat, n: nat)
    requires p < n && 1 <= m <= n
    ensures Round(Round(p + m - 1, n) + 1, n) == if m == n then p else Round(p + m, n)
  {}

  lemma BackAtStart(s: seq<nat>, p: nat, m: nat)
    requires Distinct(s) && p < |s| && 1 <= m <= |s| && s[if m == |s| then p else Round(p + m, |s|)] == s[p]
    ensures m == |s|
  {}

  lemma NotBack(s: seq<nat>, p: nat, m: nat)
    requires p < |s| && 1 <= m <= |s| && s[if m == |s| then p else Round(p + m, |s|)] != s[p]
    ensures m < |s|
  {}

  // ---- filling the ring

  /** The hash of vnode i of a node: the node's hash, hashed i + 1 times over. */
  function Hash(next: nat -> nat, seed: nat, i: nat): (h: nat) {
    next(if i == 0 then seed else Hash(next, seed, i - 1))
  }

  lemma HashSteps(next: nat -> nat, seed: nat, i: nat)
    ensures Hash(next, seed, 0) == next(seed)
    ensures Hash(next, seed, i + 1) == next(Hash(next, seed, i))
  {}

  function VnodesOf(nodes: seq<NodeInfo>, next: nat -> nat, k: nat): (vs: seq<Vnode>)
    requires k < |nodes|
    ensures |vs| == nodes[k].vnodes
    ensures forall i :: 0 <= i < |vs| ==> vs[i] == Vnode(Hash(next, nodes[k].seed, i), k, nodes[k].zone)
  {
    seq(nodes[k].vnodes, i requires 0 <= i => Vnode(Hash(next, nodes[k].seed, i), k, nodes[k].zone))
  }

  /** The vnodes of the first n nodes in the order in which they are made. */
  function VnodesTo(nodes: seq<NodeInfo>, next: nat -> nat, n: nat): (vs: seq<Vnode>)
    requires n <= |nodes|
  {
    if n == 0 then [] else VnodesTo(nodes, next, n - 1) + VnodesOf(nodes, next, n - 1)
  }

  lemma {:induction false} VnodesPrefix(nodes: seq<NodeInfo>, next: nat -> nat, m: nat, n: nat)
    requires m <= n <= |nodes|
    ensures |VnodesTo(nodes, next, m)| <= |VnodesTo(nodes, next, n)|
    ensures VnodesTo(nodes, next, m) == VnodesTo(nodes, next, n)[..|VnodesTo(nodes, next, m)|]
  {
    if m < n { VnodesPrefix(nodes, next, m, n - 1); }
  }

  lemma {:induction false} VnodeAt(nodes: seq<NodeInfo>, next: nat -> nat, n: nat, x: nat)
    requires n <= |nodes| && x < |VnodesTo(nodes, next, n)|
    ensures var v := VnodesTo(nodes, next, n)[x]; v.node < n && v.zone == nodes[v.node].zone && nodes[v.node].vnodes > 0
  {
    if x < |VnodesTo(nodes, next, n - 1)| { VnodeAt(nodes, next, n - 1, x); }
  }

  ghost predicate Collide(all: seq<Vnode>) { exists i, j :: 0 <= i < j < |all| && all[i].hash == all[j].hash }

  /** Vnode x is in the tree; its key is the hash of the seed if it is the first after `last`, else the
      hash of the key before it. */
  ghost predicate Link(t: RbTree, next: nat -> nat, seed: nat, x: nat, last: nat)
    reads t
  {
    t.Valid() && x in t.Contents() &&
    if x == last + 1 then t.key(x) == next(seed) else x > 0 && t.key(x - 1) >= 0 && t.key(x) == next(t.key(x - 1))
  }

  lemma HeldKey(t: RbTree, all: seq<Vnode>, n: nat, x: nat)
    requires Holds(t, all, n) && 0 < x <= n
    ensures t.Valid() && x <= |all| && x in t.Contents() && t.key(x) == all[x - 1].hash
  {}

  /** Vnodes whose hashes are the repeated hashes of the seed are linked. */
  lemma LinkedHashes(t: RbTree, all: seq<Vnode>, n: nat, next: nat -> nat, seed: nat, last: nat, i: nat)
    requires Holds(t, all, n) && last + i < n <= |all|
    requires forall j :: 0 <= j <= i ==> all[last + j].hash == Hash(next, seed, j)
    ensures Link(t, next, seed, last + i + 1, last)
  {
    hide Hash, Holds;
    HashSteps(next, seed, if i > 0 then i - 1 else 0);
    HeldKey(t, all, n, last + i + 1);
    assert all[last + i].hash == Hash(next, seed, i);
    if i > 0 {
      HeldKey(t, all, n, last + i);
      assert all[last + (i - 1)].hash == Hash(next, seed, i - 1);
    }
  }

  /** The vnodes of one node go into the tree, unless one has the hash of a vnode there already. */
  method NodeToVnodes(t: RbTree, node: NodeInfo, from: nat, next: nat -> nat, ghost all: seq<Vnode>) returns (ok: bool)
    requires Holds(t, all, from) && from + node.vnodes <= |all|
    requires forall i :: 0 <= i < node.vnodes ==> all[from + i].hash == Hash(next, node.seed, i)
    modifies t
    ensures if ok then Holds(t, all, from + node.vnodes) else Collide(all)
    ensures ok ==> forall x :: from < x <= from + node.vnodes ==> Link(t, next, node.seed, x, from)
  {
    hide Link;
    var hval := node.seed;
    for i := 0 to node.vnodes
      invariant Holds(t, all, from + i)
      invariant hval == if i == 0 then node.seed else Hash(next, node.seed, i - 1)
    {
      hval := next(hval);
      var x := from + i + 1;
      assert all[from + i].hash == Hash(next, node.seed, i);
      ghost var was := t.Contents();
      var found := t.Insert(x);
      if found != 0 {
        assert all[found - 1].hash == all[x - 1].hash;
        return false;
      }
      InsertedMembers(was, t.Contents(), x);
    }
    forall x | from < x <= from + node.vnodes ensures Link(t, next, node.seed, x, from) {
      LinkedHashes(t, all, from + node.vnodes, next, node.seed, from, x - from - 1);
    }
    return true;
  }

  lemma InsertedMembers(a: seq<nat>, b: seq<nat>, x: nat)
    requires Inserted(a, b, x)
    ensures forall y :: y in b <==> y == x || y in a
  {
    var i :| 0 <= i <= |a| && b == a[..i] + [x] + a[i..];
    forall y ensures y in b <==> y == x || y in a { assert a == a[..i] + a[i..]; }
  }

  /** The number of vnodes of the first n nodes. */
  function Count(nodes: seq<NodeInfo>, n: nat): (c: nat)
    requires n <= |nodes|
  {
    if n == 0 then 0 else Count(nodes, n - 1) + nodes[n - 1].vnodes
  }

  lemma {:induction false} CountIs(nodes: seq<NodeInfo>, next: nat -> nat, n: nat)
    requires n <= |nodes|
    ensures |VnodesTo(nodes, next, n)| == Count(nodes, n)
  {
    if n > 0 { CountIs(nodes, next, n - 1); }
  }

  /** All vnodes of node k are linked in the order in which they are made. */
  ghost predicate Chained(t: RbTree, nodes: seq<NodeInfo>, next: nat -> nat, k: nat)
    requires k < |nodes|
    reads t
  {
    forall x :: Count(nodes, k) < x <= Count(nodes, k) + nodes[k].vnodes ==>
      Link(t, next, nodes[k].seed, x, Count(nodes, k))
  }

  lemma {:induction false} LinkedAt(t: RbTree, nodes: seq<NodeInfo>, next: nat -> nat, k: nat, i: nat)
    requires k < |nodes| && i < nodes[k].vnodes && var all := VnodesTo(nodes, next, |nodes|); Holds(t, all, |all|)
    ensures Link(t, next, nodes[k].seed, Count(nodes, k) + i + 1, Count(nodes, k))
  {
    hide Hash, VnodesOf, Holds, VnodesTo, Count, Link;
    var all, n := VnodesTo(nodes, next, |nodes|), Count(nodes, k);
    VnodesPlaced(nodes, next, k);
    CountIs(nodes, next, k);
    forall j | 0 <= j <= i ensures all[n + j].hash == Hash(next, nodes[k].seed, j) {
      assert all[n + j] == Vnode(Hash(next, nodes[k].seed, j), k, nodes[k].zone);
    }
    LinkedHashes(t, all, |all|, next, nodes[k].seed, n, i);
  }

  lemma {:induction false} ChainedAt(t: RbTree, nodes: seq<NodeInfo>, next: nat -> nat, k: nat)
    requires k < |nodes| && var all := VnodesTo(nodes, next, |nodes|); Holds(t, all, |all|)
    ensures Chained(t, nodes, next, k)
  {
    hide Link, Holds;
    var n := Count(nodes, k);
    forall x | n < x <= n + nodes[k].vnodes ensures Link(t, next, nodes[k].seed, x, n) {
      LinkedAt(t, nodes, next, k, x - n - 1);
    }
  }

  /** All vnodes of all nodes in one tree; panics if and only if two of them have the same hash. */
  method NodesToVnodes(nodes: seq<NodeInfo>, next: nat -> nat) returns (t: Option<RbTree>)
    ensures var all := VnodesTo(nodes, next, |nodes|);
      (t.Some? <==> !Collide(all)) && (t.Some? ==> fresh(t.value) && Holds(t.value, all, |all|))
    ensures t.Some? ==>
      |t.value.Contents()| == Count(nodes, |nodes|) && forall k :: 0 <= k < |nodes| ==> Chained(t.value, nodes, next, k)
  {
    hide Holds, Collide, Hash, VnodesOf, Chained;
    var all := VnodesTo(nodes, next, |nodes|);
    var vroot := new RbTree(|all| + 1, x => if 0 < x <= |all| then all[x - 1].hash else 0);
    assert Holds(vroot, all, 0) by { EmptyHolds(vroot, all); }
    for k := 0 to |nodes|
      invariant fresh(vroot) && Holds(vroot, all, |VnodesTo(nodes, next, k)|)
    {
      VnodesPrefix(nodes, next, k + 1, |nodes|);
      VnodesPlaced(nodes, next, k);
      var ok := NodeToVnodes(vroot, nodes[k], |VnodesTo(nodes, next, k)|, next, all);
      if !ok { return None; }
    }
    NoneCollide(vroot, all);
    CountIs(nodes, next, |nodes|);
    AllHeld(vroot, all);
    forall k | 0 <= k < |nodes| ensures Chained(vroot, nodes, next, k) { ChainedAt(vroot, nodes, next, k); }
    return Some(vroot);
  }

  lemma AllHeld(t: RbTree, all: seq<Vnode>)
    requires Holds(t, all, |all|)
    ensures |t.Contents()| == |all|
  {
    HoldsInRange(t, all, |all|);
    var s := t.Contents();
    CountBelow(s, |all|);
  }

  lemma SomeMember(s: seq<nat>) returns (x: nat)
    requires s != []
    ensures x in s
  {
    x := s[0];
  }

  /** A list of different numbers that has exactly 1, ..., n has n of them. */
  lemma {:induction false} CountBelow(s: seq<nat>, n: nat)
    requires Distinct(s) && forall x :: x in s <==> 0 < x <= n
    ensures |s| == n
  {
    if n == 0 {
      if s != [] { var x := SomeMember(s); }
    } else {
      assert n in s;
      var i :| 0 <= i < |s| && s[i] == n;
      var r := s[..i] + s[i + 1..];
      forall x ensures x in r <==> 0 < x <= n - 1 {
        if x in r { assert x in s; }
        if 0 < x <= n - 1 {
          assert x in s;
          var j :| 0 <= j < |s| && s[j] == x;
          assert r[if j < i then j else j - 1] == x;
        }
      }
      CountBelow(r, n - 1);
    }
  }

  lemma EmptyHolds(t: RbTree, all: seq<Vnode>)
    requires t.Valid() && t.Contents() == [] && |t.mem| == |all| + 1
    requires forall x :: 0 < x <= |all| ==> t.key(x) == all[x - 1].hash
    ensures Holds(t, all, 0)
  {}

  lemma {:induction false} VnodesPlaced(nodes: seq<NodeInfo>, next: nat -> nat, k: nat)
    requires k < |nodes|
    ensures var all, n := VnodesTo(nodes, next, |nodes|), |VnodesTo(nodes, next, k)|;
      |VnodesTo(nodes, next, k + 1)| == n + nodes[k].vnodes <= |all| &&
      forall i :: 0 <= i < nodes[k].vnodes ==> all[n + i] == Vnode(Hash(next, nodes[k].seed, i), k, nodes[k].zone)
  {
    hide Hash;
    VnodesPrefix(nodes, next, k + 1, |nodes|);
    var all, n := VnodesTo(nodes, next, |nodes|), |VnodesTo(nodes, next, k)|;
    forall i | 0 <= i < nodes[k].vnodes ensures all[n + i] == VnodesOf(nodes, next, k)[i] {
      assert VnodesTo(nodes, next, k + 1)[n + i] == VnodesOf(nodes, next, k)[i];
    }
  }

  lemma NoneCollide(t: RbTree, all: seq<Vnode>)
    requires Holds(t, all, |all|)
    ensures !Collide(all)
  {
    var s := t.Contents();
    forall i, j | 0 <= i < j < |all| ensures all[i].hash != all[j].hash {
      assert i + 1 in s && j + 1 in s;
      var a :| 0 <= a < |s| && s[a] == i + 1;
      var b :| 0 <= b < |s| && s[b] == j + 1;
      assert if a < b then t.key(s[a]) < t.key(s[b]) else t.key(s[b]) < t.key(s[a]);
    }
  }

  /** What is built is a ring, and on it are exactly the zones of the nodes that store data. */
  lemma {:induction false} RingBuilt(t: RbTree, nodes: seq<NodeInfo>, next: nat -> nat)
    requires var all := VnodesTo(nodes, next, |nodes|); Holds(t, all, |all|)
    ensures var all := VnodesTo(nodes, next, |nodes|);
      (forall i :: 0 <= i < |t.Contents()| ==> 0 < t.Contents()[i] <= |all|) &&
      IsRing(Ring(all, t.Contents())) && Zones(Ring(all, t.Contents())) == StoringZones(nodes)
  {
    var all, s := VnodesTo(nodes, next, |nodes|), t.Contents();
    HoldsInRange(t, all, |all|);
    var ring := Ring(all, s);
    forall i, j | 0 <= i < j < |ring| ensures ring[i].hash < ring[j].hash { assert t.key(s[i]) < t.key(s[j]); }
    forall i | 0 <= i < |ring|
      ensures ring[i].zone in StoringZones(nodes) && ring[i].node < |nodes| && ring[i].zone == nodes[ring[i].node].zone
    {
      VnodeAt(nodes, next, |nodes|, s[i] - 1);
      assert nodes[ring[i].node] in nodes;
    }
    forall z | z in StoringZones(nodes) ensures z in Zones(ring) {
      var n :| n in nodes && n.vnodes > 0 && n.zone == z;
      var k :| 0 <= k < |nodes| && nodes[k] == n;
      StoringOnRing(t, nodes, next, k);
    }
  }

  lemma {:induction false} StoringOnRing(t: RbTree, nodes: seq<NodeInfo>, next: nat -> nat, k: nat)
    requires var all := VnodesTo(nodes, next, |nodes|); Holds(t, all, |all|)
    requires k < |nodes| && nodes[k].vnodes > 0
    ensures var all := VnodesTo(nodes, next, |nodes|);
      (forall i :: 0 <= i < |t.Contents()| ==> 0 < t.Contents()[i] <= |all|) &&
      nodes[k].zone in Zones(Ring(all, t.Contents()))
  {
    var all, s := VnodesTo(nodes, next, |nodes|), t.Contents();
    HoldsInRange(t, all, |all|);
    VnodesPlaced(nodes, next, k);
    var x := |VnodesTo(nodes, next, k)| + 1;
    assert x in s;
    var i :| 0 <= i < |s| && s[i] == x;
    var first := 0;
    assert all[x - 1 + first] == Vnode(Hash(next, nodes[k].seed, first), k, nodes[k].zone);
    assert Ring(all, s)[i] in Ring(all, s) && Ring(all, s)[i].zone == nodes[k].zone;
  }

  function Min(a: nat, b: nat): (m: nat) { if a < b then a else b }

  /** Asking for no more than min(copies, zone count) copies never panics: the ring built from the nodes
      has that many zones. The copies are on the first vnodes clockwise from the hash of the object, one in
      each zone. */
  method OidToCopies(nodes: seq<NodeInfo>, next: nat -> nat, h: nat, copies: nat) returns (vnodes: Option<seq<Vnode>>)
    requires copies > 0 && StoringZones(nodes) != {} && !Collide(VnodesTo(nodes, next, |nodes|))
    ensures vnodes.Some? && DistinctZones(vnodes.value)
    ensures |vnodes.value| == Min(copies, Min(|StoringZones(nodes)|, SD_MAX_COPIES))
    ensures PlacedFrom(vnodes.value, VnodesTo(nodes, next, |nodes|), h)
  {
    hide Holds, Zones, Collide, IsRing, Chosen, DistinctZones, PlacedFrom;
    var all := VnodesTo(nodes, next, |nodes|);
    var t := NodesToVnodes(nodes, next);
    var nr := GetZonesNrFrom(nodes);
    RingBuilt(t.value, nodes, next);
    SomeVnode(nodes, next);
    assert nr > 0;
    var asked := Min(copies, nr);
    vnodes := OidToVnodes(t.value, h, asked, all, |all|);
    ghost var ring := Ring(all, t.value.Contents());
    ChosenPrefixDistinct(ring, h, asked);
    ChosenPlaced(ring, h);
    PlacedPrefix(Chosen(ring, h), ring, h, asked);
    PlacedOnAll(t.value, all, ring, vnodes.value, h);
  }

  /** The ring has the same vnodes as the nodes have. */
  lemma PlacedOnAll(t: RbTree, all: seq<Vnode>, ring: seq<Vnode>, vs: seq<Vnode>, h: nat)
    requires Holds(t, all, |all|) && (forall i :: 0 <= i < |t.Contents()| ==> 0 < t.Contents()[i] <= |all|)
    requires ring == Ring(all, t.Contents()) && PlacedFrom(vs, ring, h)
    ensures PlacedFrom(vs, all, h)
  {
    hide Placement.Before, HasZone;
    var s := t.Contents();
    forall v ensures v in all <==> v in ring {
      if v in all {
        var x :| 0 <= x < |all| && all[x] == v;
        assert x + 1 in s;
        var i :| 0 <= i < |s| && s[i] == x + 1;
        assert ring[i] == v;
      }
    }
  }

  lemma ChosenPrefixDistinct(ring: seq<Vnode>, h: nat, n: nat)
    ensures n <= |Chosen(ring, h)| ==> DistinctZones(Chosen(ring, h)[..n])
  {
    FirstsDistinct(Clockwise(ring, h), |ring|);
  }

  lemma SomeVnode(nodes: seq<NodeInfo>, next: nat -> nat)
    requires StoringZones(nodes) != {}
    ensures VnodesTo(nodes, next, |nodes|) != []
  {
    var z :| z in StoringZones(nodes);
    var n :| n in nodes && n.vnodes > 0 && n.zone == z;
    var k :| 0 <= k < |nodes| && nodes[k] == n;
    VnodesPlaced(nodes, next, k);
  }
}
