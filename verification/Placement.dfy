/** Placement of an object's copies on the hash ring (include/sheep.h, sheep/group.c): walking
    clockwise from the object's hash, the first vnode of each new zone. */
module Placement {
  import opened Options
  import opened Sequences

  datatype Vnode = Vnode(hash: nat, node: nat, zone: nat)

  /** In hash order without collisions, and every vnode of a node in the node's zone. */
  ghost predicate IsRing(ring: seq<Vnode>) {
    (forall i, j :: 0 <= i < j < |ring| ==> ring[i].hash < ring[j].hash) &&
    (forall i, j :: 0 <= i < |ring| && 0 <= j < |ring| && ring[i].node == ring[j].node ==> ring[i].zone == ring[j].zone)
  }

  // ---- the walk

  /** The first position at or after hash h, or the end. */
  function FirstAt(ring: seq<Vnode>, h: nat, i: nat): (p: nat)
    requires i <= |ring|
    ensures i <= p <= |ring| && (forall k :: i <= k < p ==> ring[k].hash < h) && (p < |ring| ==> ring[p].hash >= h)
    decreases |ring| - i
  {
    if i == |ring| || ring[i].hash >= h then i else FirstAt(ring, h, i + 1)
  }

  /** The ring read clockwise from hash h. */
  function Clockwise(ring: seq<Vnode>, h: nat): (c: seq<Vnode>)
    ensures |c| == |ring|
  {
    var p := FirstAt(ring, h, 0);
    ring[p..] + ring[..p]
  }

  ghost predicate HasZone(vs: seq<Vnode>, z: nat) { exists k :: 0 <= k < |vs| && vs[k].zone == z }

  /** The first vnode of every zone among the first n of c, in order. */
  ghost function Firsts(c: seq<Vnode>, n: nat): (f: seq<Vnode>)
    requires n <= |c|
  {
    if n == 0 then []
    else
      var f := Firsts(c, n - 1);
      if HasZone(f, c[n - 1].zone) then f else f + [c[n - 1]]
  }

  ghost function Chosen(ring: seq<Vnode>, h: nat): (f: seq<Vnode>) { Firsts(Clockwise(ring, h), |ring|) }

  ghost predicate DistinctZones(vs: seq<Vnode>) {
    forall i, j :: 0 <= i < j < |vs| ==> vs[i].zone != vs[j].zone
  }

  lemma {:induction false} FirstsDistinct(c: seq<Vnode>, n: nat)
    requires n <= |c|
    ensures DistinctZones(Firsts(c, n))
  {
    if n > 0 { FirstsDistinct(c, n - 1); }
  }

  /** Every vnode walked over is in a zone that has been chosen. */
  lemma {:induction false} FirstsCover(c: seq<Vnode>, n: nat, k: nat)
    requires k < n <= |c|
    ensures HasZone(Firsts(c, n), c[k].zone)
  {
    var f, g := Firsts(c, n - 1), Firsts(c, n);
    if k < n - 1 {
      FirstsCover(c, n - 1, k);
      var i :| 0 <= i < |f| && f[i].zone == c[k].zone;
      assert g[i].zone == c[k].zone;
    } else if !HasZone(f, c[k].zone) {
      assert g[|f|].zone == c[k].zone;
    }
  }

  /** Every chosen vnode is the first of its zone on the walk. */
  lemma {:induction false} FirstsAreFirst(c: seq<Vnode>, n: nat, i: nat) returns (k: nat)
    requires n <= |c| && i < |Firsts(c, n)|
    ensures k < n && c[k] == Firsts(c, n)[i] && forall j :: 0 <= j < k ==> c[j].zone != c[k].zone
  {
    var f := Firsts(c, n - 1);
    if i < |f| {
      k := FirstsAreFirst(c, n - 1, i);
    } else {
      k := n - 1;
      forall j | 0 <= j < k ensures c[j].zone != c[k].zone { FirstsCover(c, n - 1, j); }
    }
  }

  lemma {:induction false} FirstsPrefix(c: seq<Vnode>, m: nat, n: nat)
    requires m <= n <= |c|
    ensures |Firsts(c, m)| <= |Firsts(c, n)| && Firsts(c, m) == Firsts(c, n)[..|Firsts(c, m)|]
  {
    if m < n { FirstsPrefix(c, m, n - 1); }
  }

  ghost function Zones(vs: seq<Vnode>): (s: set<nat>) { set v | v in vs :: v.zone }

  lemma {:induction false} DistinctCount(vs: seq<Vnode>)
    requires DistinctZones(vs)
    ensures |Zones(vs)| == |vs|
  {
    if vs != [] {
      var n := |vs| - 1;
      DistinctCount(vs[..n]);
      assert vs == vs[..n] + [vs[n]];
      assert Zones(vs) == Zones(vs[..n]) + {vs[n].zone};
      assert vs[n].zone !in Zones(vs[..n]);
    }
  }

  /** There are as many copies to be had as there are zones on the ring. */
  lemma ChosenCount(ring: seq<Vnode>, h: nat)
    ensures |Chosen(ring, h)| == |Zones(ring)|
  {
    var c, f := Clockwise(ring, h), Chosen(ring, h);
    FirstsDistinct(c, |ring|);
    DistinctCount(f);
    assert Zones(f) == Zones(ring) by {
      forall z | z in Zones(ring) ensures z in Zones(f) {
        var v :| v in ring && v.zone == z;
        assert v in c;
        var k :| 0 <= k < |c| && c[k] == v;
        FirstsCover(c, |ring|, k);
        var i :| 0 <= i < |f| && f[i].zone == z;
        assert f[i] in f;
      }
      forall z | z in Zones(f) ensures z in Zones(ring) {
        var v :| v in f && v.zone == z;
        var i :| 0 <= i < |f| && f[i] == v;
        var k := FirstsAreFirst(c, |ring|, i);
        assert c[k] in ring;
      }
    }
  }

  // ---- the same told without the ring

  /** Going clockwise from hash h, a is met before b. */
  ghost predicate Before(h: nat, a: Vnode, b: Vnode) {
    if a.hash >= h <==> b.hash >= h then a.hash < b.hash else a.hash >= h
  }

  /** Each of vs is the first of its zone among all, clockwise from h, and what is met before it is in
      the zone of an earlier one. */
  ghost predicate PlacedFrom(vs: seq<Vnode>, all: seq<Vnode>, h: nat) {
    (forall i :: 0 <= i < |vs| ==> vs[i] in all) &&
    (forall i, v :: 0 <= i < |vs| && v in all && v.zone == vs[i].zone && v != vs[i] ==> Before(h, vs[i], v)) &&
    (forall i, v :: 0 <= i < |vs| && v in all && Before(h, v, vs[i]) ==> HasZone(vs[..i], v.zone))
  }

  lemma ClockwiseOrder(ring: seq<Vnode>, h: nat, a: nat, b: nat)
    requires IsRing(ring) && a < b < |ring|
    ensures Before(h, Clockwise(ring, h)[a], Clockwise(ring, h)[b])
  {
    var p, c, n := FirstAt(ring, h, 0), Clockwise(ring, h), |ring|;
    forall k | p <= k < n ensures ring[k].hash >= h { assert k > p ==> ring[p].hash < ring[k].hash; }
    assert c[a] == ring[if p + a < n then p + a else p + a - n];
    assert c[b] == ring[if p + b < n then p + b else p + b - n];
  }

  lemma ClockwiseHas(ring: seq<Vnode>, h: nat, v: Vnode) returns (k: nat)
    requires v in ring
    ensures k < |ring| && Clockwise(ring, h)[k] == v
  {
    assert v in Clockwise(ring, h);
    k :| 0 <= k < |ring| && Clockwise(ring, h)[k] == v;
  }

  /** The vnodes chosen before the one at place k of the walk. */
  lemma FirstsUpTo(c: seq<Vnode>, n: nat, i: nat) returns (k: nat)
    requires n <= |c| && i < |Firsts(c, n)|
    ensures k < n && c[k] == Firsts(c, n)[i] && Firsts(c, k) == Firsts(c, n)[..i]
    ensures forall j :: 0 <= j < k ==> c[j].zone != c[k].zone
  {
    hide HasZone;
    k := FirstsAreFirst(c, n, i);
    var f, g := Firsts(c, n), Firsts(c, k);
    FirstsPrefix(c, k + 1, n);
    assert !HasZone(g, c[k].zone) by { NoneChosen(c, k); }
    assert Firsts(c, k + 1) == g + [c[k]];
    assert f[|g|] == c[k];
    FirstsDistinct(c, n);
    assert |g| == i;
  }

  lemma NoneChosen(c: seq<Vnode>, k: nat)
    requires k < |c| && forall j :: 0 <= j < k ==> c[j].zone != c[k].zone
    ensures !HasZone(Firsts(c, k), c[k].zone)
  {
    forall i | 0 <= i < |Firsts(c, k)| ensures Firsts(c, k)[i].zone != c[k].zone {
      var j := FirstsAreFirst(c, k, i);
    }
  }

  lemma ChosenPlaced(ring: seq<Vnode>, h: nat)
    requires IsRing(ring)
    ensures PlacedFrom(Chosen(ring, h), ring, h)
  {
    hide IsRing, Clockwise, HasZone, Before;
    var c, f := Clockwise(ring, h), Chosen(ring, h);
    forall i | 0 <= i < |f| ensures f[i] in ring { ChosenOnRing(ring, h, i); }
    forall i, v | 0 <= i < |f| && v in ring ensures v.zone == f[i].zone && v != f[i] ==> Before(h, f[i], v)
      ensures Before(h, v, f[i]) ==> HasZone(f[..i], v.zone)
    {
      ChosenPlacedAt(ring, h, i, v);
    }
  }

  lemma ChosenOnRing(ring: seq<Vnode>, h: nat, i: nat)
    requires i < |Chosen(ring, h)|
    ensures Chosen(ring, h)[i] in ring
  {
    var k := FirstsAreFirst(Clockwise(ring, h), |ring|, i);
  }

  lemma ChosenPlacedAt(ring: seq<Vnode>, h: nat, i: nat, v: Vnode)
    requires IsRing(ring) && i < |Chosen(ring, h)| && v in ring
    ensures var f := Chosen(ring, h);
      (v.zone == f[i].zone && v != f[i] ==> Before(h, f[i], v)) && (Before(h, v, f[i]) ==> HasZone(f[..i], v.zone))
  {
    hide IsRing, Clockwise, HasZone;
    var c := Clockwise(ring, h);
    var k := FirstsUpTo(c, |ring|, i);
    var a := ClockwiseHas(ring, h, v);
    if a > k { ClockwiseOrder(ring, h, k, a); }
    if a < k { FirstsCover(c, k, a); }
  }

  lemma PlacedPrefix(vs: seq<Vnode>, all: seq<Vnode>, h: nat, n: nat)
    requires PlacedFrom(vs, all, h) && n <= |vs|
    ensures PlacedFrom(vs[..n], all, h)
  {
    hide Before, HasZone;
    forall i, v | 0 <= i < n && v in all && Before(h, v, vs[..n][i]) ensures HasZone(vs[..n][..i], v.zone) {
      assert vs[..n][..i] == vs[..i];
    }
  }

  // ---- the loops of the source

  /** A position at most once round the ring. */
  function Round(i: nat, n: nat): (r: nat)
    requires i < 2 * n
    ensures r < n
  {
    if i < n then i else i - n
  }

  method SameZoneAs(chosen: seq<Vnode>, v: Vnode) returns (same: bool)
    ensures same <==> HasZone(chosen, v.zone)
  {
    for j := 0 to |chosen|
      invariant !HasZone(chosen[..j], v.zone)
    {
      if chosen[j].zone == v.zone { return true; }
    }
    assert chosen[..|chosen|] == chosen;
    return false;
  }

  /** Position i of the walk. */
  lemma WalkAt(ring: seq<Vnode>, h: nat, i: nat)
    requires i < |ring|
    ensures Clockwise(ring, h)[i] == ring[Round(Round(FirstAt(ring, h, 0), |ring|) + i, |ring|)]
  {}

  lemma FirstOfAll(c: seq<Vnode>)
    requires c != []
    ensures Firsts(c, 1) == [c[0]]
  {
    assert Firsts(c, 0) == [];
  }

  // ---- minimal movement

  /** The ring without the vnodes of node x. */
  ghost function Skip(q: seq<Vnode>, x: nat): (r: seq<Vnode>) {
    if q == [] then []
    else Skip(q[..|q| - 1], x) + if q[|q| - 1].node == x then [] else [q[|q| - 1]]
  }

  lemma {:induction false} SkipConcat(a: seq<Vnode>, b: seq<Vnode>, x: nat)
    ensures Skip(a + b, x) == Skip(a, x) + Skip(b, x)
  {
    if b == [] {
      assert a + b == a;
    } else {
      var n := |b| - 1;
      assert (a + b)[..|a + b| - 1] == a + b[..n];
      SkipConcat(a, b[..n], x);
    }
  }

  lemma {:induction false} SkipAll(q: seq<Vnode>, x: nat, v: Vnode)
    ensures v in Skip(q, x) <==> v in q && v.node != x
  {
    if q != [] {
      SkipAll(q[..|q| - 1], x, v);
      assert q == q[..|q| - 1] + [q[|q| - 1]];
    }
  }

  lemma {:induction false} FirstAtIs(ring: seq<Vnode>, h: nat, p: nat, i: nat)
    requires i <= p <= |ring| && (forall k :: 0 <= k < p ==> ring[k].hash < h) && (p < |ring| ==> ring[p].hash >= h)
    ensures FirstAt(ring, h, i) == p
    decreases p - i
  {
    if i < p { FirstAtIs(ring, h, p, i + 1); }
  }

  lemma SkipBefore(ring: seq<Vnode>, h: nat, x: nat, p: nat, k: nat)
    requires p == FirstAt(ring, h, 0) && k < |Skip(ring[..p], x)|
    ensures Skip(ring[..p], x)[k].hash < h
  {
    SkipAll(ring[..p], x, Skip(ring[..p], x)[k]);
  }

  lemma SkipAfter(ring: seq<Vnode>, h: nat, x: nat, p: nat, k: nat)
    requires IsRing(ring) && p == FirstAt(ring, h, 0) && k < |Skip(ring[p..], x)|
    ensures Skip(ring[p..], x)[k].hash >= h
  {
    var v := Skip(ring[p..], x)[k];
    SkipAll(ring[p..], x, v);
    var j :| 0 <= j < |ring[p..]| && ring[p..][j] == v;
    assert p + j == p || ring[p].hash < ring[p + j].hash;
  }

  /** Leaving a node out of the ring leaves it out of every walk. */
  lemma SkipClockwise(ring: seq<Vnode>, h: nat, x: nat)
    requires IsRing(ring)
    ensures Clockwise(Skip(ring, x), h) == Skip(Clockwise(ring, h), x)
  {
    hide Skip, IsRing;
    var p := FirstAt(ring, h, 0);
    var a, b := Skip(ring[..p], x), Skip(ring[p..], x);
    assert ring == ring[..p] + ring[p..];
    SkipConcat(ring[..p], ring[p..], x);
    SkipConcat(ring[p..], ring[..p], x);
    forall k | 0 <= k < |a| ensures a[k].hash < h { SkipBefore(ring, h, x, p, k); }
    forall k | 0 <= k < |b| ensures b[k].hash >= h { SkipAfter(ring, h, x, p, k); }
    FirstAtIs(a + b, h, |a|, 0);
    assert (a + b)[|a|..] == b && (a + b)[..|a|] == a;
  }

  /** How the first vnodes of all zones change when node x leaves. */
  datatype Change =
    | Same
    | Lost(rest: seq<Vnode>, at: nat, v: Vnode)
    | Replaced(rest: seq<Vnode>, at: nat, v: Vnode, at': nat, w: Vnode)

  ghost predicate Explains(ch: Change, g: seq<Vnode>, h: seq<Vnode>, x: nat, z: nat) {
    match ch
    case Same => g == h
    case Lost(f, a, v) => a <= |f| && v.node == x && v.zone == z && !HasZone(f, z) && g == InsertAt(f, a, v) && h == f
    case Replaced(f, a, v, b, w) =>
      a <= b <= |f| && v.node == x && v.zone == z && w.zone == z && !HasZone(f, z) && g == InsertAt(f, a, v) &&
      h == InsertAt(f, b, w)
  }

  lemma InsertZone(f: seq<Vnode>, a: nat, v: Vnode, z: nat)
    requires a <= |f|
    ensures HasZone(InsertAt(f, a, v), z) <==> HasZone(f, z) || v.zone == z
  {
    var g := InsertAt(f, a, v);
    if k :| 0 <= k < |f| && f[k].zone == z { assert g[if k < a then k else k + 1].zone == z; }
    assert g[a] == v;
    if k :| 0 <= k < |g| && g[k].zone == z && k != a { assert f[if k < a then k else k - 1].zone == z; }
  }

  lemma AppendZone(f: seq<Vnode>, c: Vnode, z: nat)
    ensures HasZone(f + [c], z) <==> HasZone(f, z) || c.zone == z
  {
    var g := f + [c];
    if k :| 0 <= k < |f| && f[k].zone == z { assert g[k].zone == z; }
    assert g[|f|] == c;
  }

  lemma InsertAppend(f: seq<Vnode>, a: nat, v: Vnode, c: Vnode)
    requires a <= |f|
    ensures InsertAt(f, a, v) + [c] == InsertAt(f + [c], a, v)
  {}

  ghost function Extend(f: seq<Vnode>, c: Vnode): (r: seq<Vnode>) { if HasZone(f, c.zone) then f else f + [c] }

  /** One more vnode of another node. */
  lemma ExplainsOther(ch: Change, g: seq<Vnode>, h: seq<Vnode>, x: nat, z: nat, c: Vnode) returns (ch': Change)
    requires Explains(ch, g, h, x, z) && c.node != x
    ensures Explains(ch', Extend(g, c), Extend(h, c), x, z)
  {
    hide HasZone, InsertAt;
    match ch
    case Same => ch' := Same;
    case Lost(f, a, v) =>
      InsertZone(f, a, v, c.zone);
      AppendZone(f, c, z);
      InsertAppend(f, a, v, c);
      if c.zone == z {
        ch' := Replaced(f, a, v, |f|, c);
        assert f + [c] == InsertAt(f, |f|, c);
      } else if HasZone(f, c.zone) {
        ch' := ch;
      } else {
        ch' := Lost(f + [c], a, v);
      }
    case Replaced(f, a, v, b, w) =>
      InsertZone(f, a, v, c.zone); InsertZone(f, b, w, c.zone);
      AppendZone(f, c, z);
      InsertAppend(f, a, v, c); InsertAppend(f, b, w, c);
      if c.zone == z || HasZone(f, c.zone) {
        ch' := ch;
      } else {
        ch' := Replaced(f + [c], a, v, b, w);
      }
  }

  /** One more vnode of node x itself. */
  lemma ExplainsSelf(ch: Change, g: seq<Vnode>, h: seq<Vnode>, x: nat, z: nat, c: Vnode) returns (ch': Change)
    requires Explains(ch, g, h, x, z) && c.node == x && c.zone == z
    ensures Explains(ch', Extend(g, c), h, x, z)
  {
    match ch
    case Same =>
      if HasZone(g, z) {
        ch' := Same;
      } else {
        ch' := Lost(g, |g|, c);
        assert g + [c] == InsertAt(g, |g|, c);
      }
    case Lost(f, a, v) => InsertZone(f, a, v, z); ch' := ch;
    case Replaced(f, a, v, b, w) => InsertZone(f, a, v, z); ch' := ch;
  }

  lemma {:induction false} FirstsAgree(c: seq<Vnode>, c': seq<Vnode>, n: nat)
    requires n <= |c| && n <= |c'| && forall k :: 0 <= k < n ==> c[k] == c'[k]
    ensures Firsts(c, n) == Firsts(c', n)
  {
    if n > 0 { FirstsAgree(c, c', n - 1); }
  }

  lemma FirstsExtend(c: seq<Vnode>, v: Vnode)
    ensures Firsts(c + [v], |c| + 1) == Extend(Firsts(c, |c|), v)
  {
    FirstsAgree(c, c + [v], |c|);
  }

  lemma {:induction false} Changed(c: seq<Vnode>, x: nat, z: nat) returns (ch: Change)
    requires forall k :: 0 <= k < |c| && c[k].node == x ==> c[k].zone == z
    ensures Explains(ch, Firsts(c, |c|), Firsts(Skip(c, x), |Skip(c, x)|), x, z)
    decreases |c|
  {
    hide Firsts;
    if c == [] {
      assert Skip(c, x) == c;
      ch := Same;
    } else {
      var n := |c| - 1;
      var c0, v := c[..n], c[n];
      assert c == c0 + [v];
      ch := Changed(c0, x, z);
      var g, h := Firsts(c0, n), Firsts(Skip(c0, x), |Skip(c0, x)|);
      FirstsExtend(c0, v);
      if v.node == x {
        assert Skip(c, x) == Skip(c0, x);
        ch := ExplainsSelf(ch, g, h, x, z, v);
      } else {
        FirstsExtend(Skip(c0, x), v);
        ch := ExplainsOther(ch, g, h, x, z, v);
      }
    }
  }

  ghost predicate UsesNode(vs: seq<Vnode>, x: nat) { exists k :: 0 <= k < |vs| && vs[k].node == x }

  lemma ZoneOf(ring: seq<Vnode>, h: nat, x: nat) returns (z: nat)
    requires IsRing(ring)
    ensures forall k :: 0 <= k < |ring| && Clockwise(ring, h)[k].node == x ==> Clockwise(ring, h)[k].zone == z
  {
    var c := Clockwise(ring, h);
    forall k | 0 <= k < |c| ensures c[k] in ring {}
    if i :| 0 <= i < |ring| && ring[i].node == x { z := ring[i].zone; } else { z := 0; }
  }

  lemma SkipUnused(c: seq<Vnode>, x: nat)
    ensures !UsesNode(Firsts(Skip(c, x), |Skip(c, x)|), x)
  {
    var d := Skip(c, x);
    forall i | 0 <= i < |Firsts(d, |d|)| ensures Firsts(d, |d|)[i].node != x {
      var k := FirstsAreFirst(d, |d|, i);
      SkipAll(c, x, d[k]);
    }
  }

  lemma CutBeyond(f: seq<Vnode>, a: nat, v: Vnode, n: nat)
    requires n <= a <= |f|
    ensures InsertAt(f, a, v)[..n] == f[..n]
  {}

  lemma CutWithin(f: seq<Vnode>, a: nat, v: Vnode, n: nat)
    requires a < n <= |f| + 1
    ensures InsertAt(f, a, v)[..n] == InsertAt(f[..n - 1], a, v)
  {}

  /** The change among the first n. */
  lemma Cut(ch: Change, g: seq<Vnode>, g': seq<Vnode>, x: nat, z: nat, n: nat)
    returns (rest: seq<Vnode>, a: nat, v: Vnode, b: nat, u: Vnode)
    requires Explains(ch, g, g', x, z) && n <= |g'| && !UsesNode(g', x)
    ensures n <= |g| && (!UsesNode(g[..n], x) ==> g'[..n] == g[..n])
    ensures UsesNode(g[..n], x) ==>
      |rest| == n - 1 && a <= b <= |rest| && v.node == x && g[..n] == InsertAt(rest, a, v) &&
      g'[..n] == InsertAt(rest, b, u)
  {
    hide InsertAt, HasZone;
    rest, a, v, b, u := [], 0, Vnode(0, 0, 0), 0, Vnode(0, 0, 0);
    if ch == Same {
      assert forall k :: 0 <= k < n ==> g[..n][k].node != x;
    } else if ch.at >= n {
      CutBeyond(ch.rest, ch.at, ch.v, n);
      if ch.Replaced? { CutBeyond(ch.rest, ch.at', ch.w, n); }
      assert forall k :: 0 <= k < n ==> g[..n][k] == g'[k];
    } else {
      rest, a, v := ch.rest[..n - 1], ch.at, ch.v;
      CutWithin(ch.rest, a, v, n);
      assert g[..n][a].node == x;
      if ch.Replaced? && ch.at' < n {
        b, u := ch.at', ch.w;
        CutWithin(ch.rest, b, u, n);
      } else {
        b, u := n - 1, ch.rest[n - 1];
        if ch.Replaced? { CutBeyond(ch.rest, ch.at', ch.w, n); }
        AppendIsInsert(ch.rest, n);
      }
    }
  }

  lemma AppendIsInsert(f: seq<Vnode>, n: nat)
    requires 0 < n <= |f|
    ensures f[..n] == InsertAt(f[..n - 1], n - 1, f[n - 1])
  {}

  /** Minimal movement. When node x leaves and enough zones remain, an object without a copy on x
      keeps its vnodes; one with a copy on x keeps all the others, in order, and gets one vnode in
      place of that one. Read backwards it says what a node that joins changes. */
  lemma MinimalMovement(ring: seq<Vnode>, h: nat, x: nat, n: nat)
    returns (rest: seq<Vnode>, a: nat, v: Vnode, b: nat, u: Vnode)
    requires IsRing(ring) && n <= |Chosen(Skip(ring, x), h)|
    ensures n <= |Chosen(ring, h)|
    ensures !UsesNode(Chosen(ring, h)[..n], x) ==> Chosen(Skip(ring, x), h)[..n] == Chosen(ring, h)[..n]
    ensures UsesNode(Chosen(ring, h)[..n], x) ==>
      |rest| == n - 1 && a <= b <= |rest| && v.node == x &&
      Chosen(ring, h)[..n] == InsertAt(rest, a, v) && Chosen(Skip(ring, x), h)[..n] == InsertAt(rest, b, u)
  {
    hide Clockwise, IsRing;
    var c := Clockwise(ring, h);
    var z := ZoneOf(ring, h, x);
    SkipClockwise(ring, h, x);
    assert |Skip(ring, x)| == |Skip(c, x)|;
    var ch := Changed(c, x, z);
    var g, g' := Chosen(ring, h), Chosen(Skip(ring, x), h);
    SkipUnused(c, x);
    rest, a, v, b, u := Cut(ch, g, g', x, z, n);
  }

  // ---- how many copies are safe to ask for

  const SD_MAX_COPIES := 31

  /** `seed` is the hash of the node's address, from which the hashes of its vnodes are made. */
  datatype NodeInfo = NodeInfo(zone: nat, vnodes: nat, seed: nat)

  ghost function StoringZones(nodes: seq<NodeInfo>): (s: set<nat>) { set n | n in nodes && n.vnodes > 0 :: n.zone }

  /** The number of zones that store data, counted up to SD_MAX_COPIES. */
  method GetZonesNrFrom(nodes: seq<NodeInfo>) returns (nr: nat)
    ensures nr == if |StoringZones(nodes)| < SD_MAX_COPIES then |StoringZones(nodes)| else SD_MAX_COPIES
  {
    var zones: seq<nat> := [];
    ghost var seen: set<nat> := {};
    for i := 0 to |nodes|
      invariant seen == StoringZones(nodes[..i]) && |seen| == |zones| < SD_MAX_COPIES
      invariant forall z :: z in zones <==> z in seen
    {
      assert nodes[..i + 1] == nodes[..i] + [nodes[i]];
      if nodes[i].vnodes == 0 {
        assert StoringZones(nodes[..i + 1]) == StoringZones(nodes[..i]);
        continue;
      }
      assert StoringZones(nodes[..i + 1]) == seen + {nodes[i].zone};
      if nodes[i].zone !in zones {
        zones := zones + [nodes[i].zone];
        seen := seen + {nodes[i].zone};
        if |zones| == SD_MAX_COPIES {
          assert seen <= StoringZones(nodes);
          SubsetCount(seen, StoringZones(nodes));
          return SD_MAX_COPIES;
        }
      }
    }
    assert nodes[..|nodes|] == nodes;
    return |zones|;
  }

  lemma {:induction false} SubsetCount(a: set<nat>, b: set<nat>)
    requires a <= b
    ensures |a| <= |b|
  {
    if a != {} {
      var x :| x in a;
      SubsetCount(a - {x}, b - {x});
    }
  }
}
