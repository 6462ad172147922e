/** The red-black tree of lib/rbtree.c and include/rbtree.h: rotations and the two
    fix-up loops rewrite links and colours in place. */
module RedBlackTree {
  import opened Sequences
  import opened TreeLayout

  predicate IsRed(t: Tree) {
    t.Node? && t.red
  }

  predicate RedAbove(c: Context) {
    !c.Top? && c.red
  }

  /** No red node has a red child and every path down meets `h` black nodes. */
  ghost predicate Colored(t: Tree, h: nat) {
    if t.Leaf? then h == 0
    else if t.red then !IsRed(t.left) && !IsRed(t.right) && Colored(t.left, h) && Colored(t.right, h)
    else h > 0 && Colored(t.left, h - 1) && Colored(t.right, h - 1)
  }

  /** The rest of a coloured tree with a black root, around a hole for a subtree
      of black height `h`. */
  ghost predicate ColoredAround(c: Context, h: nat) {
    c.Top? ||
    (Colored(Sibling(c), h) &&
     if c.red
     then !IsRed(Sibling(c)) && !c.up.Top? && !c.up.red && ColoredAround(c.up, h)
     else ColoredAround(c.up, h + 1))
  }

  ghost predicate NoRedPair(t: Tree) {
    t.Node? ==> (t.red ==> !IsRed(t.left) && !IsRed(t.right)) && NoRedPair(t.left) && NoRedPair(t.right)
  }

  /** The numbers of black nodes met on the paths from the root down to a null link. */
  function BlackCounts(t: Tree): set<nat> {
    if t.Leaf? then {0}
    else if t.red then BlackCounts(t.left) + BlackCounts(t.right)
    else set n | n in BlackCounts(t.left) + BlackCounts(t.right) :: n + 1
  }

  lemma {:induction false} SomeCount(t: Tree)
    ensures BlackCounts(t) != {}
  {
    if t.Node? {
      SomeCount(t.left);
      var n :| n in BlackCounts(t.left);
      assert n in BlackCounts(t.left) + BlackCounts(t.right);
      assert t.red || n + 1 in BlackCounts(t);
    }
  }

  /** What being coloured means, path by path. */
  lemma {:induction false} ColoredExactly(t: Tree, h: nat)
    ensures Colored(t, h) <==> NoRedPair(t) && BlackCounts(t) == {h}
  {
    if t.Node? {
      SomeCount(t.left);
      SomeCount(t.right);
      var a, b := BlackCounts(t.left), BlackCounts(t.right);
      if t.red {
        ColoredExactly(t.left, h);
        ColoredExactly(t.right, h);
        UnionIs(a, b, h);
      } else {
        if h > 0 {
          ColoredExactly(t.left, h - 1);
          ColoredExactly(t.right, h - 1);
          UnionIs(a, b, h - 1);
        }
        RaisedIs(a + b, h);
      }
    }
  }

  lemma UnionIs(a: set<nat>, b: set<nat>, h: nat)
    requires a != {} && b != {}
    ensures a + b == {h} <==> a == {h} && b == {h}
  {
    var x :| x in a;
    var y :| y in b;
    assert x in a + b && y in a + b;
    if a + b == {h} {
      assert forall z :: z in a ==> z in a + b;
      assert forall z :: z in b ==> z in a + b;
    }
  }

  lemma RaisedIs(a: set<nat>, h: nat)
    requires a != {}
    ensures (set n | n in a :: n + 1) == {h} <==> h > 0 && a == {h - 1}
  {
    var up := set n | n in a :: n + 1;
    var x :| x in a;
    assert x + 1 in up;
    if up == {h} {
      forall z | z in a ensures z == h - 1 {
        assert z + 1 in up;
      }
    }
  }

  function Height(t: Tree): nat {
    if t.Leaf? then 0 else 1 + if Height(t.left) < Height(t.right) then Height(t.right) else Height(t.left)
  }

  function Pow2(n: nat): nat {
    if n == 0 then 1 else 2 * Pow2(n - 1)
  }

  lemma {:induction false} Tall(t: Tree, h: nat)
    requires Colored(t, h)
    ensures Height(t) <= 2 * h + (if IsRed(t) then 1 else 0)
    ensures Pow2(h) <= |Ids(t)| + 1
  {
    if t.Node? {
      Tall(t.left, if t.red then h else h - 1);
      Tall(t.right, if t.red then h else h - 1);
    }
  }

  lemma {:induction false} PowMonotone(a: nat, b: nat)
    requires a <= b
    ensures 1 <= Pow2(a) <= Pow2(b)
    decreases b
  {
    if a < b {
      PowMonotone(a, b - 1);
    } else if a > 0 {
      PowMonotone(a - 1, b - 1);
    }
  }

  lemma {:induction false} PowSquare(h: nat)
    ensures Pow2(2 * h) == Pow2(h) * Pow2(h)
  {
    if h > 0 {
      PowSquare(h - 1);
      assert Pow2(2 * h) == 2 * Pow2(2 * h - 1) && Pow2(2 * h - 1) == 2 * Pow2(2 * (h - 1));
    }
  }

  lemma SquareMonotone(a: nat, b: nat)
    requires a <= b
    ensures a * a <= b * b
  {
  }

  /** A tree of n nodes is at most twice as high as the logarithm of n + 1. */
  lemma Shallow(t: Tree, h: nat)
    requires Colored(t, h) && !IsRed(t)
    ensures Pow2(Height(t)) <= (|Ids(t)| + 1) * (|Ids(t)| + 1)
  {
    Tall(t, h);
    PowMonotone(Height(t), 2 * h);
    PowSquare(h);
    SquareMonotone(Pow2(h), |Ids(t)| + 1);
  }

  function Heaved(c: Context, h: nat): nat
    requires !c.Top?
  {
    if c.red then h else h + 1
  }

  lemma {:induction false} PlugColored(c: Context, t: Tree, h: nat) returns (k: nat)
    requires Colored(t, h) && ColoredAround(c, h)
    requires !(RedAbove(c) && IsRed(t))
    ensures Colored(Plug(c, t), k)
    ensures !c.Top? ==> !IsRed(Plug(c, t))
    decreases c
  {
    if c.Top? {
      k := h;
    } else {
      k := PlugColored(c.up, Above(c, t), Heaved(c, h));
    }
  }

  lemma {:induction false} SplitColored(c: Context, t: Tree, k: nat) returns (h: nat)
    requires Colored(Plug(c, t), k) && !IsRed(Plug(c, t))
    ensures Colored(t, h) && ColoredAround(c, h)
    ensures !(RedAbove(c) && IsRed(t))
    ensures c.Top? ==> !IsRed(t)
    decreases c
  {
    if c.Top? {
      h := k;
    } else {
      var g := SplitColored(c.up, Above(c, t), k);
      h := if c.red then g else g - 1;
    }
  }

  function Depth(c: Context): nat {
    if c.Top? then 0 else Depth(c.up) + 1
  }

  function BlackPushed(g: Tree): Tree
    requires g.Node? && g.left.Node? && g.right.Node?
  {
    Node(g.left.(red := false), g.id, true, g.right.(red := false))
  }

  lemma BlackPushedAt(m: seq<Cell>, root: nat, c: Context, g: Tree)
    requires At(m, root, c, g) && g.Node? && g.left.Node? && g.right.Node?
    requires g.left.id < |m| && g.right.id < |m| && g.id < |m|
    ensures At(m[g.left.id := m[g.left.id].(red := false)][g.right.id := m[g.right.id].(red := false)][g.id :=
      m[g.id].(red := true)],
               root, c, BlackPushed(g))
  {
    Neighbours(m, root, c, g);
    hide At;
    FocusLeft(m, root, c, g);
    Recolored(m, root, InLeft(c, g.id, g.red, g.right), g.left, false);
    var m1, g1 := m[g.left.id := m[g.left.id].(red := false)], g.(left := g.left.(red := false));
    FocusLeft(m1, root, c, g1);
    FocusRight(m1, root, c, g1);
    Recolored(m1, root, InRight(g1.left, g.id, g.red, c), g.right, false);
    var m2, g2 := m1[g.right.id := m1[g.right.id].(red := false)], g1.(right := g.right.(red := false));
    FocusRight(m2, root, c, g2);
    Recolored(m2, root, c, g2, true);
  }

  lemma PushedColors(c: Context, t: Tree, h: nat)
    requires Colored(t, h) && ColoredAround(c, h) && RedAbove(c) && IsRed(Sibling(c.up))
    ensures Colored(BlackPushed(Above(c.up, Above(c, t))), h + 1) && ColoredAround(c.up.up, h + 1)
    ensures Ids(BlackPushed(Above(c.up, Above(c, t)))) == Ids(Above(c.up, Above(c, t)))
  {
  }

  /** A red parent is never the root, so the loop may read its grandparent. */
  lemma GrandparentThere(c: Context, h: nat)
    requires ColoredAround(c, h) && RedAbove(c)
    ensures !c.up.Top? && !c.up.red
  {
  }

  lemma PlugTop(t: Tree)
    ensures Plug(Top, t) == t
  {
  }

  lemma Blackened(t: Tree, h: nat) returns (s: Tree, k: nat)
    requires Colored(t, h) && t.Node?
    ensures s == t.(red := false) && Colored(s, k) && !IsRed(s) && Ids(s) == Ids(t)
  {
    s := t.(red := false);
    k := if t.red then h + 1 else h;
  }

  /** The parent's tree as the last rotation finds it: the red child on the left. */
  function LeanLeft(c: Context, t: Tree): Tree
    requires !c.Top? && t.Node?
  {
    if c.InLeft? then Above(c, t) else RotatedLeft(Above(c, t))
  }

  lemma LiftLeftColors(c: Context, t: Tree, h: nat)
    requires Colored(t, h) && ColoredAround(c, h) && IsRed(t) && RedAbove(c) && c.up.InLeft? && !IsRed(c.up.right)
    ensures var q := LeanLeft(c, t);
      Colored(q.left, h) && IsRed(q.left) &&
      ColoredAround(InLeft(c.up.up, q.id, false, Node(q.right, c.up.id, true, c.up.right)), h)
  {
  }

  lemma LiftLeftOrder(g: Context, q: Tree)
    requires g.InLeft? && q.Node?
    ensures Ids(Plug(InLeft(g.up, q.id, false, Node(q.right, g.id, true, g.right)), q.left)) == Ids(Plug(g, q))
  {
    var b := Node(q.(red := false), g.id, true, g.right);
    RightRotationOrder(b);
    SameOrder(g.up, RotatedRight(b), b);
    SameOrder(g.up, b, Above(g, q));
  }

  /** The parent's tree as the last rotation finds it: the red child on the right. */
  function LeanRight(c: Context, t: Tree): Tree
    requires !c.Top? && t.Node?
  {
    if c.InRight? then Above(c, t) else RotatedRight(Above(c, t))
  }

  lemma LiftRightColors(c: Context, t: Tree, h: nat)
    requires Colored(t, h) && ColoredAround(c, h) && IsRed(t) && RedAbove(c) && c.up.InRight? && !IsRed(c.up.left)
    ensures var q := LeanRight(c, t);
      Colored(q.right, h) && IsRed(q.right) &&
      ColoredAround(InRight(Node(c.up.left, c.up.id, true, q.left), q.id, false, c.up.up), h)
  {
  }

  lemma LiftRightOrder(g: Context, q: Tree)
    requires g.InRight? && q.Node?
    ensures Ids(Plug(InRight(Node(g.left, g.id, true, q.left), q.id, false, g.up), q.right)) == Ids(Plug(g, q))
  {
    var b := Node(g.left, g.id, true, q.(red := false));
    LeftRotationOrder(b);
    SameOrder(g.up, RotatedLeft(b), b);
    SameOrder(g.up, b, Above(g, q));
  }

  // ---- what the removal fix-up does to the colours ----

  /** A subtree one black node short of `h + 1`; a red one is mended by turning black. */
  ghost predicate Short(t: Tree, h: nat) {
    if IsRed(t) then Colored(t.(red := false), h + 1) else Colored(t, h)
  }

  /** A short subtree has a sibling, so the loop may read its links. */
  lemma SiblingThere(c: Context, h: nat)
    requires ColoredAround(c, h + 1) && !c.Top?
    ensures Sibling(c).Node? && Colored(Sibling(c), h + 1)
    ensures IsRed(Sibling(c)) ==> !c.red
  {
  }

  lemma NephewColors(o: Tree, h: nat)
    requires Colored(o, h + 1) && o.Node? && !IsRed(o)
    ensures Colored(o.left, h) && Colored(o.right, h)
    ensures IsRed(o.left) ==> Colored(o.left.(red := false), h + 1)
    ensures IsRed(o.right) ==> Colored(o.right.(red := false), h + 1)
  {
  }

  lemma ShortStart(t: Tree, h: nat)
    requires Colored(t, h)
    ensures Short(t, h)
  {
  }

  lemma ShortBlack(t: Tree, h: nat)
    requires Short(t, h) && !IsRed(t)
    ensures Colored(t, h)
  {
  }

  /** Where the loop stops, turning the subtree black makes the whole tree coloured. */
  lemma Mended(c: Context, t: Tree, h: nat, done: bool) returns (s: Tree, k: nat)
    requires done ==> c.Top? && Colored(t, h) && !IsRed(t)
    requires !done ==> Short(t, h) && ColoredAround(c, h + 1) && (c.Top? || IsRed(t))
    ensures s == Plug(c, if t.Node? then t.(red := false) else t)
    ensures Colored(s, k) && !IsRed(s) && Ids(s) == Ids(Plug(c, t))
  {
    var b := if t.Node? then t.(red := false) else t;
    s := Plug(c, b);
    SameOrder(c, b, t);
    k := PlugColored(c, b, if IsRed(t) then h + 1 else h);
  }

  function SiblingPulledLeft(c: Context): Context
    requires c.InLeft? && c.right.Node?
  {
    InLeft(InLeft(c.up, c.right.id, false, c.right.right), c.id, true, c.right.left)
  }

  lemma SiblingPulledLeftColors(c: Context, t: Tree, h: nat)
    requires c.InLeft? && ColoredAround(c, h + 1) && IsRed(c.right)
    ensures ColoredAround(SiblingPulledLeft(c), h + 1) && !IsRed(SiblingPulledLeft(c).right)
    ensures Ids(Plug(SiblingPulledLeft(c), t)) == Ids(Plug(c, t))
  {
    var a := Node(t, c.id, true, c.right.(red := false));
    LeftRotationOrder(a);
    SameOrder(c.up, RotatedLeft(a), a);
    SameOrder(c.up, a, Above(c, t));
  }

  lemma ReddenedSibling(c: Context, t: Tree, h: nat)
    requires ColoredAround(c, h + 1) && !c.Top? && Colored(t, h) && !IsRed(t)
    requires Sibling(c).Node? && !Sibling(c).red && !IsRed(Sibling(c).left) && !IsRed(Sibling(c).right)
    ensures var up := Above(Across(c, t), Sibling(c).(red := true));
      Short(up, Heaved(c, h)) && ColoredAround(c.up, Heaved(c, h) + 1) && Ids(up) == Ids(Above(c, t))
  {
  }

  function SiblingLeantLeft(o: Tree): Tree
    requires o.Node? && o.left.Node?
  {
    RotatedRight(Node(o.left.(red := false), o.id, true, o.right))
  }

  lemma SiblingLeantLeftColors(o: Tree, h: nat)
    requires Colored(o, h + 1) && !IsRed(o) && IsRed(o.left) && !IsRed(o.right)
    ensures Colored(SiblingLeantLeft(o).left, h) && Colored(SiblingLeantLeft(o).right.(red := false), h + 1)
    ensures Ids(SiblingLeantLeft(o)) == Ids(o)
  {
    RightRotationOrder(Node(o.left.(red := false), o.id, true, o.right));
  }

  function SiblingLiftedLeft(c: Context, t: Tree): Tree
    requires c.InLeft? && c.right.Node? && c.right.right.Node?
  {
    Node(Node(t, c.id, false, c.right.left), c.right.id, c.red, c.right.right.(red := false))
  }

  lemma SiblingLiftedLeftColors(c: Context, t: Tree, o: Tree, h: nat) returns (k: nat)
    requires c.InLeft? && ColoredAround(c, h + 1) && Colored(t, h) && Ids(o) == Ids(c.right)
    requires o.Node? && o.right.Node? && Colored(o.left, h) && Colored(o.right.(red := false), h + 1)
    ensures var s := Plug(c.up, SiblingLiftedLeft(c.(right := o), t));
      Colored(s, k) && !IsRed(s) && Ids(s) == Ids(Plug(c, t))
  {
    var l := SiblingLiftedLeft(c.(right := o), t);
    assert Colored(Node(t, c.id, false, o.left), h + 1);
    k := PlugColored(c.up, l, Heaved(c, h + 1));
    var a := Node(t, c.id, false, o.(red := c.red, right := o.right.(red := false)));
    assert Ids(a.right) == Ids(o);
    assert Ids(a) == Ids(Above(c, t));
    LeftRotationOrder(a);
    SameOrder(c.up, l, a);
    SameOrder(c.up, a, Above(c, t));
  }

  function SiblingPulledRight(c: Context): Context
    requires c.InRight? && c.left.Node?
  {
    InRight(c.left.right, c.id, true, InRight(c.left.left, c.left.id, false, c.up))
  }

  lemma SiblingPulledRightColors(c: Context, t: Tree, h: nat)
    requires c.InRight? && ColoredAround(c, h + 1) && IsRed(c.left)
    ensures ColoredAround(SiblingPulledRight(c), h + 1) && !IsRed(SiblingPulledRight(c).left)
    ensures Ids(Plug(SiblingPulledRight(c), t)) == Ids(Plug(c, t))
  {
    var a := Node(c.left.(red := false), c.id, true, t);
    RightRotationOrder(a);
    SameOrder(c.up, RotatedRight(a), a);
    SameOrder(c.up, a, Above(c, t));
  }

  function SiblingLeantRight(o: Tree): Tree
    requires o.Node? && o.right.Node?
  {
    RotatedLeft(Node(o.left, o.id, true, o.right.(red := false)))
  }

  lemma SiblingLeantRightColors(o: Tree, h: nat)
    requires Colored(o, h + 1) && !IsRed(o) && IsRed(o.right) && !IsRed(o.left)
    ensures Colored(SiblingLeantRight(o).right, h) && Colored(SiblingLeantRight(o).left.(red := false), h + 1)
    ensures Ids(SiblingLeantRight(o)) == Ids(o)
  {
    LeftRotationOrder(Node(o.left, o.id, true, o.right.(red := false)));
  }

  function SiblingLiftedRight(c: Context, t: Tree): Tree
    requires c.InRight? && c.left.Node? && c.left.left.Node?
  {
    Node(c.left.left.(red := false), c.left.id, c.red, Node(c.left.right, c.id, false, t))
  }

  lemma SiblingLiftedRightColors(c: Context, t: Tree, o: Tree, h: nat) returns (k: nat)
    requires c.InRight? && ColoredAround(c, h + 1) && Colored(t, h) && Ids(o) == Ids(c.left)
    requires o.Node? && o.left.Node? && Colored(o.right, h) && Colored(o.left.(red := false), h + 1)
    ensures var s := Plug(c.up, SiblingLiftedRight(c.(left := o), t));
      Colored(s, k) && !IsRed(s) && Ids(s) == Ids(Plug(c, t))
  {
    var l := SiblingLiftedRight(c.(left := o), t);
    assert Colored(Node(o.right, c.id, false, t), h + 1);
    k := PlugColored(c.up, l, Heaved(c, h + 1));
    var a := Node(o.(red := c.red, left := o.left.(red := false)), c.id, false, t);
    assert Ids(a.left) == Ids(o);
    assert Ids(a) == Ids(Above(c, t));
    RightRotationOrder(a);
    SameOrder(c.up, l, a);
    SameOrder(c.up, a, Above(c, t));
  }

  // ---- the order of the nodes ----

  ghost predicate Sorted(key: nat -> int, s: seq<nat>) {
    forall i, j :: 0 <= i < j < |s| ==> key(s[i]) < key(s[j])
  }

  ghost predicate Below(key: nat -> int, s: seq<nat>, v: int) {
    forall i :: 0 <= i < |s| ==> key(s[i]) < v
  }

  ghost predicate Beyond(key: nat -> int, s: seq<nat>, v: int) {
    forall i :: 0 <= i < |s| ==> v < key(s[i])
  }

  lemma SortedParts(key: nat -> int, a: seq<nat>, x: nat, b: seq<nat>)
    requires Sorted(key, a + [x] + b)
    ensures Sorted(key, a) && Sorted(key, b) && Below(key, a, key(x)) && Beyond(key, b, key(x))
  {
    var s := a + [x] + b;
    assert forall i :: 0 <= i < |a| ==> s[i] == a[i];
    assert s[|a|] == x;
    assert forall i :: 0 <= i < |b| ==> b[i] == s[|a| + 1 + i];
  }

  lemma SortedWith(key: nat -> int, a: seq<nat>, x: nat, b: seq<nat>)
    requires Sorted(key, a + b) && Below(key, a, key(x)) && Beyond(key, b, key(x))
    ensures Sorted(key, a + [x] + b)
  {
    var s, t := a + [x] + b, a + b;
    assert forall i :: 0 <= i < |a| ==> s[i] == a[i] && t[i] == a[i];
    assert forall i :: |a| < i < |s| ==> s[i] == b[i - |a| - 1] && s[i] == t[i - 1];
  }

  lemma BelowPlus(key: nat -> int, a: seq<nat>, b: seq<nat>, v: int)
    requires Below(key, a, v) && Below(key, b, v)
    ensures Below(key, a + b, v)
  {
    assert forall i :: 0 <= i < |a + b| ==> (a + b)[i] == if i < |a| then a[i] else b[i - |a|];
  }

  lemma BeyondPlus(key: nat -> int, a: seq<nat>, b: seq<nat>, v: int)
    requires Beyond(key, a, v) && Beyond(key, b, v)
    ensures Beyond(key, a + b, v)
  {
    assert forall i :: 0 <= i < |a + b| ==> (a + b)[i] == if i < |a| then a[i] else b[i - |a|];
  }

  /** A search for `v` has narrowed to the subtree `t`. */
  ghost predicate Narrowed(key: nat -> int, c: Context, t: Tree, v: int) {
    Below(key, Before(c), v) && Beyond(key, After(c), v) && Sorted(key, Ids(t))
  }

  lemma NarrowLeft(key: nat -> int, c: Context, t: Tree, v: int)
    requires Narrowed(key, c, t, v) && t.Node? && v < key(t.id)
    ensures Narrowed(key, InLeft(c, t.id, t.red, t.right), t.left, v)
  {
    SortedParts(key, Ids(t.left), t.id, Ids(t.right));
    assert Ids(t) == Ids(t.left) + [t.id] + Ids(t.right);
    hide Ids, Sorted;
    BeyondPlus(key, [t.id], Ids(t.right), v);
    BeyondPlus(key, [t.id] + Ids(t.right), After(c), v);
  }

  lemma NarrowRight(key: nat -> int, c: Context, t: Tree, v: int)
    requires Narrowed(key, c, t, v) && t.Node? && key(t.id) < v
    ensures Narrowed(key, InRight(t.left, t.id, t.red, c), t.right, v)
  {
    SortedParts(key, Ids(t.left), t.id, Ids(t.right));
    assert Ids(t) == Ids(t.left) + [t.id] + Ids(t.right);
    hide Ids, Sorted;
    BelowPlus(key, Before(c), Ids(t.left), v);
    BelowPlus(key, Before(c) + Ids(t.left), [t.id], v);
  }

  ghost predicate Absent(key: nat -> int, s: seq<nat>, v: int) {
    forall i :: 0 <= i < |s| ==> key(s[i]) != v
  }

  /** A search that runs into a null link has met no equal key. */
  lemma NarrowedAway(key: nat -> int, c: Context, v: int)
    requires Narrowed(key, c, Leaf, v)
    ensures Absent(key, Ids(Plug(c, Leaf)), v)
  {
    InOrder(c, Leaf);
    var a, b := Before(c), After(c);
    assert a + [] + b == a + b;
    assert forall i :: 0 <= i < |a + b| ==> (a + b)[i] == if i < |a| then a[i] else b[i - |a|];
  }

  lemma NarrowedHit(c: Context, t: Tree)
    requires t.Node?
    ensures |Before(c) + Ids(t.left)| < |Ids(Plug(c, t))|
    ensures Ids(Plug(c, t))[|Before(c) + Ids(t.left)|] == t.id
    ensures Ids(Plug(c, t)) == (Before(c) + Ids(t.left)) + [t.id] + (Ids(t.right) + After(c))
  {
    InOrder(c, t);
    assert Ids(t) == Ids(t.left) + [t.id] + Ids(t.right);
    hide Ids;
    Opened(Before(c), Ids(t.left), t.id, Ids(t.right), After(c));
  }

  lemma Opened(a: seq<nat>, p: seq<nat>, x: nat, q: seq<nat>, b: seq<nat>)
    ensures a + (p + [x] + q) + b == (a + p) + [x] + (q + b)
  {
  }

  lemma OpenedInsert(a: seq<nat>, p: seq<nat>, x: nat, q: seq<nat>, b: seq<nat>)
    ensures a + (p + [x] + q) + b == InsertAt(a + (p + q) + b, |a| + |p|, x)
  {
    var s := a + (p + q) + b;
    assert s == (a + p) + (q + b);
    assert s[..|a| + |p|] == a + p && s[|a| + |p|..] == q + b;
    Opened(a, p, x, q, b);
  }

  lemma StartNarrowed(key: nat -> int, t: Tree, v: int)
    requires Sorted(key, Ids(t))
    ensures Narrowed(key, Top, t, v) && Plug(Top, t) == t
  {
  }

  lemma PlugDown(c: Context, t: Tree)
    requires t.Node?
    ensures Plug(InLeft(c, t.id, t.red, t.right), t.left) == Plug(c, t)
    ensures Plug(InRight(t.left, t.id, t.red, c), t.right) == Plug(c, t)
  {
  }

  lemma Present(key: nat -> int, s: seq<nat>, i: nat)
    requires i < |s|
    ensures s[i] in s && !Absent(key, s, key(s[i]))
  {
  }

  lemma NewNode(h: nat)
    requires Colored(Leaf, h)
    ensures forall x :: Colored(Node(Leaf, x, true, Leaf), h)
  {
  }

  lemma AroundListed(c: Context, t: Tree, x: nat)
    requires x !in Ids(Plug(c, t))
    ensures x !in Around(c)
  {
    NodesAreIds(Plug(c, t));
    PlugNodes(c, t);
  }

  /** b is a with x put in somewhere. */
  ghost predicate Inserted(a: seq<nat>, b: seq<nat>, x: nat) {
    exists i :: 0 <= i <= |a| && b == InsertAt(a, i, x)
  }

  /** The new node hangs between the keys below it and the keys beyond it. */
  lemma InsertedInOrder(key: nat -> int, c: Context, x: nat)
    requires Narrowed(key, c, Leaf, key(x)) && Sorted(key, Ids(Plug(c, Leaf)))
    ensures Inserted(Ids(Plug(c, Leaf)), Ids(Plug(c, Node(Leaf, x, true, Leaf))), x)
    ensures Sorted(key, Ids(Plug(c, Node(Leaf, x, true, Leaf))))
  {
    InOrder(c, Leaf);
    InOrder(c, Node(Leaf, x, true, Leaf));
    var a, b := Before(c), After(c);
    assert Ids(Leaf) == [] && Ids(Node(Leaf, x, true, Leaf)) == [x];
    assert a + [] + b == a + b;
    SortedWith(key, a, x, b);
    assert a + [x] + b == InsertAt(a + b, |a|, x);
  }

  lemma RemovedOrder(c: Context, t: Tree, s: Tree, p: seq<nat>, x: nat, q: seq<nat>)
    requires Ids(t) == p + [x] + q && Ids(s) == p + q
    ensures Inserted(Ids(Plug(c, s)), Ids(Plug(c, t)), x)
  {
    InOrder(c, t);
    InOrder(c, s);
    OpenedInsert(Before(c), p, x, q, After(c));
    assert |Before(c)| + |p| <= |Before(c) + (p + q) + After(c)|;
  }

  lemma {:induction false} RenamedAround(d: Context, base: Context, other: Context, h: nat)
    requires ColoredAround(Append(d, base), h)
    requires base.InRight? && other.InRight? && other == base.(id := other.id)
    ensures ColoredAround(Append(d, other), h)
  {
    if !d.Top? {
      RenamedAround(d.up, base, other, Heaved(d, h));
    }
  }

  /** Taking a node with one child at most out of a coloured tree. */
  lemma UnlinkedColors(c: Context, t: Tree, s: Tree, h: nat)
    requires Colored(t, h) && ColoredAround(c, h) && OnlyChild(t, s) && (c.Top? ==> !t.red)
    ensures !t.red ==> h > 0 && Colored(s, h - 1)
    ensures t.red ==> Colored(s, h) && !IsRed(s) && !c.Top?
  {
  }

  lemma UnlinkedOrder(c: Context, t: Tree, s: Tree)
    requires OnlyChild(t, s)
    ensures Inserted(Ids(Plug(c, s)), Ids(Plug(c, t)), t.id)
  {
    if t.left.Leaf? && s == t.right {
      assert Ids(t) == [] + [t.id] + Ids(s) && Ids(s) == [] + Ids(s);
      RemovedOrder(c, t, s, [], t.id, Ids(s));
    } else {
      assert Ids(t) == Ids(s) + [t.id] + [] && Ids(s) == Ids(s) + [];
      RemovedOrder(c, t, s, Ids(s), t.id, []);
    }
  }

  lemma SuccessorOrder(c: Context, t: Tree, d: Context, s: Tree)
    requires t.Node? && t.right == Plug(d, s) && Spine(d) && s.Node? && s.left.Leaf?
    ensures Inserted(Ids(Plug(Append(d, InRight(t.left, s.id, t.red, c)), s.right)), Ids(Plug(c, t)), t.id)
  {
    var u := Node(t.left, s.id, t.red, Plug(d, s.right));
    AppendPlug(d, InRight(t.left, s.id, t.red, c), s.right);
    SpineOrder(d, s.id, s.red, s.right);
    var p, q := Ids(t.left), Ids(Plug(d, s.right));
    assert Ids(t) == p + [t.id] + ([s.id] + q);
    assert Ids(u) == p + [s.id] + q;
    assert p + [s.id] + q == p + ([s.id] + q);
    hide Ids, Append, Inserted;
    RemovedOrder(c, t, u, p, t.id, [s.id] + q);
    PlugDown(c, u);
  }

  lemma {:induction false} AppendPlug(d: Context, base: Context, t: Tree)
    ensures Plug(Append(d, base), t) == Plug(base, Plug(d, t))
    decreases d
  {
    if !d.Top? {
      AppendPlug(d.up, base, Above(d, t));
    }
  }

  /** The colours around a successor's place survive its move. */
  lemma SuccessorColors(c: Context, t: Tree, d: Context, s: Tree, k: nat) returns (h: nat)
    requires t.Node? && t.right == Plug(d, s) && s.Node? && s.left.Leaf?
    requires Colored(Plug(c, t), k) && !IsRed(Plug(c, t))
    ensures var e := Append(d, InRight(t.left, s.id, t.red, c));
      Colored(s, h) && ColoredAround(e, h) && !(RedAbove(e) && s.red) && !e.Top?
  {
    var base, other := InRight(t.left, t.id, t.red, c), InRight(t.left, s.id, t.red, c);
    AppendPlug(d, base, s);
    h := SplitColored(Append(d, base), s, k);
    RenamedAround(d, base, other, h);
  }

  function Head(s: seq<nat>): nat {
    if s == [] then 0 else s[0]
  }

  /** r follows n in s, or is null at the end. */
  ghost predicate Follows(s: seq<nat>, n: nat, r: nat) {
    exists i :: 0 <= i < |s| && s[i] == n && r == Head(s[i + 1..])
  }

  lemma FollowsIn(c: Context, t: Tree)
    requires t.Node?
    ensures Follows(Ids(Plug(c, t)), t.id, Head(Ids(t.right) + After(c)))
  {
    NarrowedHit(c, t);
    var a, b := Before(c) + Ids(t.left), Ids(t.right) + After(c);
    assert (a + [t.id] + b)[|a| + 1..] == b;
  }

  lemma SpineHead(d: Context, s: Tree)
    requires Spine(d) && s.Node? && s.left.Leaf?
    ensures Ids(Plug(d, s)) != [] && Ids(Plug(d, s))[0] == s.id
  {
    SpineOrder(d, s.id, s.red, s.right);
  }

  /** r is the first node from key v on, or the first of all past the last key. */
  ghost predicate Ceiling(key: nat -> int, s: seq<nat>, v: int, r: nat) {
    if s == [] then r == 0
    else if Below(key, s, v) then r == s[0]
    else exists i :: 0 <= i < |s| && r == s[i] && v <= key(r) && Below(key, s[..i], v)
  }

  lemma CeilingHit(key: nat -> int, c: Context, t: Tree, v: int)
    requires t.Node? && Narrowed(key, c, t, v) && key(t.id) == v
    ensures Ceiling(key, Ids(Plug(c, t)), v, t.id)
  {
    NarrowedHit(c, t);
    SortedParts(key, Ids(t.left), t.id, Ids(t.right));
    var a, b := Before(c) + Ids(t.left), Ids(t.right) + After(c);
    assert Ids(t) == Ids(t.left) + [t.id] + Ids(t.right);
    hide Ids, Sorted;
    BelowPlus(key, Before(c), Ids(t.left), v);
    CeilingAt(key, a, t.id, b, v);
  }

  lemma CeilingAt(key: nat -> int, a: seq<nat>, x: nat, b: seq<nat>, v: int)
    requires Below(key, a, v) && v <= key(x)
    ensures Ceiling(key, a + [x] + b, v, x)
  {
    var s := a + [x] + b;
    assert s[..|a|] == a && s[|a|] == x;
  }

  lemma CeilingMiss(key: nat -> int, c: Context, v: int)
    requires Narrowed(key, c, Leaf, v)
    ensures var s := Ids(Plug(c, Leaf)); Ceiling(key, s, v, if After(c) != [] then After(c)[0] else Head(s))
  {
    InOrder(c, Leaf);
    var a, b := Before(c), After(c);
    assert a + [] + b == a + b;
    if b == [] {
      assert a + b == a;
    } else {
      assert a + b == a + [b[0]] + b[1..];
      CeilingAt(key, a, b[0], b[1..], v);
    }
  }

  lemma NotOwnParent(m: seq<Cell>, root: nat, t: Tree, n: nat)
    requires At(m, root, Top, t) && n in Nodes(t) && 0 < n < |m|
    ensures m[n].parent != n
  {
    var c, s := Locate(Top, t, n);
    FocusRoot(m, root, c, s);
    Neighbours(m, root, c, s);
  }

  lemma NoIds()
    ensures Ids(Leaf) == []
  {
  }

  ghost predicate Distinct(s: seq<nat>) {
    forall i, j :: 0 <= i < j < |s| ==> s[i] != s[j]
  }

  lemma Listed(m: seq<Cell>, root: nat, t: Tree)
    requires At(m, root, Top, t)
    ensures Distinct(Ids(t)) && forall i :: 0 <= i < |Ids(t)| ==> 0 < Ids(t)[i] < |m|
    ensures forall x :: x in Nodes(t) <==> x in Ids(t)
  {
    NoRepeats(t);
    NodesAreIds(t);
    RepNodes(m, t, 0);
    forall i | 0 <= i < |Ids(t)| ensures 0 < Ids(t)[i] < |m| {
      assert Ids(t)[i] in Ids(t);
    }
  }

  lemma NextSlot(s: seq<nat>, k: nat, r: nat)
    requires Distinct(s) && k < |s| && Follows(s, s[k], r)
    ensures r == Head(s[k + 1..])
  {
  }

  lemma Removed(key: nat -> int, a: seq<nat>, b: seq<nat>, x: nat)
    requires Inserted(a, b, x) && Distinct(b)
    ensures x !in a && (Sorted(key, b) ==> Sorted(key, a))
  {
    var i :| 0 <= i <= |a| && b == InsertAt(a, i, x);
    assert b[i] == x;
    assert forall j :: 0 <= j < |a| ==> a[j] == b[if j < i then j else j + 1];
  }

  class RbTree {
    const key: nat -> int
    var mem: seq<Cell>
    var root: nat
    ghost var tree: Tree

    /** Links, parent links and colours agree with `tree`, whose root is black. */
    ghost predicate Valid()
      reads this
    {
      At(mem, root, Top, tree) && !IsRed(tree) && exists h: nat :: Colored(tree, h)
    }

    /** The nodes in order. */
    ghost function Contents(): seq<nat>
      reads this
    {
      Ids(tree)
    }

    constructor (n: nat, key: nat -> int)
      ensures Valid() && Contents() == [] && |mem| == n && this.key == key
    {
      this.key := key;
      mem := seq(n, _ => Cell(0, 0, 0, false));
      root := 0;
      tree := Leaf;
      new;
      assert Colored(Leaf, 0);
    }

    /** The lines that hang `other` where `node` hung. */
    method Relink(parent: nat, node: nat, other: nat, ghost c: Context, ghost m: seq<Cell>)
      requires parent == Parent(c) && parent < |mem| && node != 0
      requires RepAround(m, root, c, node)
      requires c.InRight? ==> Id(c.left) != node
      requires !c.Top? ==> mem[parent] == m[parent]
      modifies this`mem, this`root
      ensures mem == WithChild(old(mem), c, other)
      ensures root == if c.Top? then other else old(root)
    {
      if parent != 0 {
        if node == mem[parent].left {
          mem := mem[parent := mem[parent].(left := other)];
        } else {
          mem := mem[parent := mem[parent].(right := other)];
        }
      } else {
        root := other;
      }
    }

    method SetParent(x: nat, p: nat)
      requires 0 < x < |mem|
      modifies this`mem
      ensures mem == WithParent(old(mem), x, p)
    {
      mem := mem[x := mem[x].(parent := p)];
    }

    method RotateLeft(node: nat, ghost c: Context, ghost t: Tree)
      requires At(mem, root, c, t) && t.Node? && t.id == node && t.right.Node?
      modifies this`mem, this`root
      ensures |mem| == old(|mem|)
      ensures At(mem, root, c, RotatedLeft(t))
    {
      ghost var m := mem;
      ghost var rt := root;
      Neighbours(m, root, c, t);
      LeftNames(m, root, c, t);
      assert RepAround(m, root, c, node);
      hide At, Rep, RepAround, Apart, ApartAround, Nodes, Around;
      var right := mem[node].right;
      var parent := mem[node].parent;
      mem := mem[node := mem[node].(right := mem[right].left)];
      if mem[node].right != 0 {
        SetParent(mem[right].left, node);
      }
      mem := mem[right := mem[right].(left := node)];
      SetParent(right, parent);
      Relink(parent, node, right, c, m);
      SetParent(node, right);
      assert mem == TurnLeft(m, c, node, right);
      TurnLeftAt(m, rt, c, t);
    }

    method RotateRight(node: nat, ghost c: Context, ghost t: Tree)
      requires At(mem, root, c, t) && t.Node? && t.id == node && t.left.Node?
      modifies this`mem, this`root
      ensures |mem| == old(|mem|)
      ensures At(mem, root, c, RotatedRight(t))
    {
      ghost var m := mem;
      ghost var rt := root;
      Neighbours(m, root, c, t);
      RightNames(m, root, c, t);
      assert RepAround(m, root, c, node);
      hide At, Rep, RepAround, Apart, ApartAround, Nodes, Around;
      var left := mem[node].left;
      var parent := mem[node].parent;
      mem := mem[node := mem[node].(left := mem[left].right)];
      if mem[node].left != 0 {
        SetParent(mem[left].right, node);
      }
      mem := mem[left := mem[left].(right := node)];
      SetParent(left, parent);
      Relink(parent, node, left, c, m);
      SetParent(node, left);
      assert mem == TurnRight(m, c, node, left);
      TurnRightAt(m, rt, c, t);
    }

    method SetColor(x: nat, red: bool, ghost c: Context, ghost t: Tree)
      requires At(mem, root, c, t) && t.Node? && t.id == x
      modifies this`mem
      ensures |mem| == old(|mem|)
      ensures At(mem, root, c, t.(red := red))
    {
      Recolored(mem, root, c, t, red);
      mem := mem[x := mem[x].(red := red)];
    }

    /** Uncle and parent turn black and the grandparent red (either side). */
    method PushBlack(uncle: nat, parent: nat, gparent: nat, ghost c: Context, ghost g: Tree)
      requires At(mem, root, c, g) && g.Node? && g.left.Node? && g.right.Node? && g.id == gparent
      requires (uncle == g.right.id && parent == g.left.id) || (uncle == g.left.id && parent == g.right.id)
      modifies this`mem
      ensures |mem| == old(|mem|)
      ensures At(mem, root, c, BlackPushed(g))
    {
      ghost var m := mem;
      Neighbours(m, root, c, g);
      BlackPushedAt(m, root, c, g);
      hide At;
      mem := mem[uncle := mem[uncle].(red := false)];
      mem := mem[parent := mem[parent].(red := false)];
      mem := mem[gparent := mem[gparent].(red := true)];
      assert mem == m[g.left.id := m[g.left.id].(red := false)][g.right.id := m[g.right.id].(red := false)][g.id :=
        m[g.id].(red := true)];
    }

    /** The parent turns black, the grandparent red, and the parent is lifted by a
        right rotation. */
    method LiftLeft(parent: nat, gparent: nat, ghost c: Context, ghost q: Tree)
      requires At(mem, root, c, q) && q.Node? && q.id == parent && c.InLeft? && c.id == gparent
      modifies this`mem, this`root
      ensures |mem| == old(|mem|)
      ensures At(mem, root, InLeft(c.up, q.id, false, Node(q.right, c.id, true, c.right)), q.left)
    {
      hide At;
      SetColor(parent, false, c, q);
      ghost var b := q.(red := false);
      FocusUp(mem, root, c, b);
      SetColor(gparent, true, c.up, Above(c, b));
      ghost var g := Node(b, c.id, true, c.right);
      RotateRight(gparent, c.up, g);
      FocusLeft(mem, root, c.up, RotatedRight(g));
    }

    /** One turn of the insertion loop when the red parent is a left child. */
    method InsertUnderLeft(node: nat, parent: nat, gparent: nat, ghost c: Context, ghost t: Tree, ghost h: nat)
      returns (next: nat, ghost d: Context, ghost s: Tree, ghost k: nat)
      requires At(mem, root, c, t) && IsRed(t) && t.id == node
      requires RedAbove(c) && c.id == parent && c.up.InLeft? && c.up.id == gparent
      requires Colored(t, h) && ColoredAround(c, h)
      modifies this`mem, this`root
      ensures |mem| == old(|mem|)
      ensures At(mem, root, d, s) && IsRed(s) && s.id == next
      ensures Colored(s, k) && ColoredAround(d, k)
      ensures Ids(Plug(d, s)) == Ids(Plug(c, t))
      ensures Depth(d) < Depth(c)
    {
      ghost var g, q := c.up, Above(c, t);
      CellsNear(mem, root, c, t);
      FocusUp(mem, root, c, t);
      CellsNear(mem, root, g, q);
      FocusUp(mem, root, g, q);
      FocusRight(mem, root, g.up, Above(g, q));
      CellsNear(mem, root, InRight(q, gparent, false, g.up), g.right);
      hide At, Plug, Ids, Colored, ColoredAround;
      var uncle := mem[gparent].right;
      if uncle != 0 && mem[uncle].red {
        PushBlack(uncle, parent, gparent, g.up, Above(g, q));
        d, s, k := g.up, BlackPushed(Above(g, q)), h + 1;
        next := gparent;
        PushedColors(c, t, h);
        SameOrder(d, s, Above(g, q));
        return;
      }
      var n, p := node, parent;
      if mem[parent].right == node {
        RotateLeft(parent, g, q);
        LeftRotationOrder(q);
        SameOrder(g, q, RotatedLeft(q));
        q := RotatedLeft(q);
        n, p := parent, node;
      }
      LiftLeft(p, gparent, g, q);
      next, k := n, h;
      d, s := InLeft(g.up, q.id, false, Node(q.right, g.id, true, g.right)), q.left;
      LiftLeftColors(c, t, h);
      LiftLeftOrder(g, q);
    }

    /** The parent turns black, the grandparent red, and the parent is lifted by a
        left rotation. */
    method LiftRight(parent: nat, gparent: nat, ghost c: Context, ghost q: Tree)
      requires At(mem, root, c, q) && q.Node? && q.id == parent && c.InRight? && c.id == gparent
      modifies this`mem, this`root
      ensures |mem| == old(|mem|)
      ensures At(mem, root, InRight(Node(c.left, c.id, true, q.left), q.id, false, c.up), q.right)
    {
      hide At;
      SetColor(parent, false, c, q);
      ghost var b := q.(red := false);
      FocusUp(mem, root, c, b);
      SetColor(gparent, true, c.up, Above(c, b));
      ghost var g := Node(c.left, c.id, true, b);
      RotateLeft(gparent, c.up, g);
      FocusRight(mem, root, c.up, RotatedLeft(g));
    }

    /** One turn of the insertion loop when the red parent is a right child. */
    method InsertUnderRight(node: nat, parent: nat, gparent: nat, ghost c: Context, ghost t: Tree, ghost h: nat)
      returns (next: nat, ghost d: Context, ghost s: Tree, ghost k: nat)
      requires At(mem, root, c, t) && IsRed(t) && t.id == node
      requires RedAbove(c) && c.id == parent && c.up.InRight? && c.up.id == gparent
      requires Colored(t, h) && ColoredAround(c, h)
      modifies this`mem, this`root
      ensures |mem| == old(|mem|)
      ensures At(mem, root, d, s) && IsRed(s) && s.id == next
      ensures Colored(s, k) && ColoredAround(d, k)
      ensures Ids(Plug(d, s)) == Ids(Plug(c, t))
      ensures Depth(d) < Depth(c)
    {
      ghost var g, q := c.up, Above(c, t);
      CellsNear(mem, root, c, t);
      FocusUp(mem, root, c, t);
      CellsNear(mem, root, g, q);
      FocusUp(mem, root, g, q);
      FocusLeft(mem, root, g.up, Above(g, q));
      CellsNear(mem, root, InLeft(g.up, gparent, false, q), g.left);
      hide At, Plug, Ids, Colored, ColoredAround;
      var uncle := mem[gparent].left;
      if uncle != 0 && mem[uncle].red {
        PushBlack(uncle, parent, gparent, g.up, Above(g, q));
        d, s, k := g.up, BlackPushed(Above(g, q)), h + 1;
        next := gparent;
        PushedColors(c, t, h);
        SameOrder(d, s, Above(g, q));
        return;
      }
      var n, p := node, parent;
      if mem[parent].left == node {
        RotateRight(parent, g, q);
        RightRotationOrder(q);
        SameOrder(g, q, RotatedRight(q));
        q := RotatedRight(q);
        n, p := parent, node;
      }
      LiftRight(p, gparent, g, q);
      next, k := n, h;
      d, s := InRight(Node(g.left, g.id, true, q.left), q.id, false, g.up), q.right;
      LiftRightColors(c, t, h);
      LiftRightOrder(g, q);
    }

    /** The insertion fix-up: the coloured tree around a red node becomes a
        coloured tree with a black root, the nodes in the same order. */
    method InsertColor(node: nat, ghost c: Context, ghost t: Tree, ghost h: nat)
      returns (ghost s: Tree, ghost k: nat)
      requires At(mem, root, c, t) && IsRed(t) && t.id == node
      requires Colored(t, h) && ColoredAround(c, h)
      modifies this`mem, this`root
      ensures |mem| == old(|mem|)
      ensures At(mem, root, Top, s) && Ids(s) == Ids(Plug(c, t))
      ensures Colored(s, k) && !IsRed(s)
    {
      hide At, Plug, Ids, Colored, ColoredAround;
      var n := node;
      ghost var d, u, g := c, t, h;
      CellsNear(mem, root, d, u);
      while mem[n].parent != 0 && mem[mem[n].parent].red
        invariant |mem| == old(|mem|)
        invariant At(mem, root, d, u) && IsRed(u) && u.id == n && 0 < n < |mem|
        invariant mem[n].parent == Parent(d)
        invariant Parent(d) < |mem| && (!d.Top? ==> d.id != 0 && mem[d.id].red == d.red)
        invariant Colored(u, g) && ColoredAround(d, g)
        invariant Ids(Plug(d, u)) == Ids(Plug(c, t))
        decreases Depth(d)
      {
        var parent := mem[n].parent;
        GrandparentThere(d, g);
        FocusUp(mem, root, d, u);
        CellsNear(mem, root, d, u);
        CellsNear(mem, root, d.up, Above(d, u));
        var gparent := mem[parent].parent;
        if parent == mem[gparent].left {
          n, d, u, g := InsertUnderLeft(n, parent, gparent, d, u, g);
        } else {
          n, d, u, g := InsertUnderRight(n, parent, gparent, d, u, g);
        }
        CellsNear(mem, root, d, u);
      }
      FocusRoot(mem, root, d, u);
      k := PlugColored(d, u, g);
      PlugNode(d, u);
      CellsNear(mem, root, Top, Plug(d, u));
      SetColor(root, false, Top, Plug(d, u));
      s, k := Blackened(Plug(d, u), k);
    }

    /** The red sibling turns black, the parent red, and the sibling is rotated above it. */
    method PullSiblingLeft(parent: nat, other: nat, ghost c: Context, ghost t: Tree)
      requires At(mem, root, c, t) && c.InLeft? && c.right.Node? && c.id == parent && c.right.id == other
      modifies this`mem, this`root
      ensures |mem| == old(|mem|)
      ensures At(mem, root, SiblingPulledLeft(c), t)
    {
      hide At;
      FocusAcross(mem, root, c, t);
      SetColor(other, false, Across(c, t), c.right);
      ghost var o := c.right.(red := false);
      FocusUp(mem, root, Across(c, t), o);
      SetColor(parent, true, c.up, Node(t, c.id, c.red, o));
      RotateLeft(parent, c.up, Node(t, c.id, true, o));
      ghost var s := RotatedLeft(Node(t, c.id, true, o));
      FocusLeft(mem, root, c.up, s);
      FocusLeft(mem, root, InLeft(c.up, s.id, s.red, s.right), s.left);
    }

    /** The red near child of the sibling takes the sibling's place. */
    method LeanSiblingLeft(other: nat, ghost c: Context, ghost t: Tree)
      requires At(mem, root, c, t) && c.InLeft? && c.right.Node? && c.right.id == other && c.right.left.Node?
      modifies this`mem, this`root
      ensures |mem| == old(|mem|)
      ensures At(mem, root, c.(right := SiblingLeantLeft(c.right)), t)
    {
      hide At;
      ghost var o, a := c.right, Across(c, t);
      FocusAcross(mem, root, c, t);
      CellsNear(mem, root, a, o);
      FocusLeft(mem, root, a, o);
      SetColor(mem[other].left, false, InLeft(a, o.id, o.red, o.right), o.left);
      o := o.(left := o.left.(red := false));
      FocusLeft(mem, root, a, o);
      SetColor(other, true, a, o);
      RotateRight(other, a, o.(red := true));
      FocusAcross(mem, root, c.(right := SiblingLeantLeft(c.right)), t);
    }

    /** The sibling takes the parent's colour and place, its far child turning black. */
    method LiftSiblingLeft(parent: nat, other: nat, ghost c: Context, ghost t: Tree)
      requires At(mem, root, c, t) && c.InLeft? && c.right.Node? && c.right.right.Node?
      requires c.id == parent && c.right.id == other
      modifies this`mem, this`root
      ensures |mem| == old(|mem|)
      ensures At(mem, root, c.up, SiblingLiftedLeft(c, t))
    {
      hide At;
      ghost var o, a := c.right, Across(c, t);
      CellsNear(mem, root, c, t);
      FocusAcross(mem, root, c, t);
      SetColor(other, mem[parent].red, a, o);
      o := o.(red := c.red);
      FocusUp(mem, root, a, o);
      SetColor(parent, false, c.up, Node(t, c.id, c.red, o));
      ghost var q := Node(t, c.id, false, o);
      FocusRight(mem, root, c.up, q);
      ghost var b := InRight(t, c.id, false, c.up);
      CellsNear(mem, root, b, o);
      FocusRight(mem, root, b, o);
      SetColor(mem[other].right, false, InRight(o.left, o.id, o.red, b), o.right);
      o := o.(right := o.right.(red := false));
      q := Node(t, c.id, false, o);
      FocusRight(mem, root, b, o);
      FocusRight(mem, root, c.up, q);
      RotateLeft(parent, c.up, q);
    }

    /** The red sibling turns black, the parent red, and the sibling is rotated above it. */
    method PullSiblingRight(parent: nat, other: nat, ghost c: Context, ghost t: Tree)
      requires At(mem, root, c, t) && c.InRight? && c.left.Node? && c.id == parent && c.left.id == other
      modifies this`mem, this`root
      ensures |mem| == old(|mem|)
      ensures At(mem, root, SiblingPulledRight(c), t)
    {
      hide At;
      FocusAcross(mem, root, c, t);
      SetColor(other, false, Across(c, t), c.left);
      ghost var o := c.left.(red := false);
      FocusUp(mem, root, Across(c, t), o);
      SetColor(parent, true, c.up, Node(o, c.id, c.red, t));
      RotateRight(parent, c.up, Node(o, c.id, true, t));
      ghost var s := RotatedRight(Node(o, c.id, true, t));
      FocusRight(mem, root, c.up, s);
      FocusRight(mem, root, InRight(s.left, s.id, s.red, c.up), s.right);
    }

    /** The red near child of the sibling takes the sibling's place. */
    method LeanSiblingRight(other: nat, ghost c: Context, ghost t: Tree)
      requires At(mem, root, c, t) && c.InRight? && c.left.Node? && c.left.id == other && c.left.right.Node?
      modifies this`mem, this`root
      ensures |mem| == old(|mem|)
      ensures At(mem, root, c.(left := SiblingLeantRight(c.left)), t)
    {
      hide At;
      ghost var o, a := c.left, Across(c, t);
      FocusAcross(mem, root, c, t);
      CellsNear(mem, root, a, o);
      FocusRight(mem, root, a, o);
      SetColor(mem[other].right, false, InRight(o.left, o.id, o.red, a), o.right);
      o := o.(right := o.right.(red := false));
      FocusRight(mem, root, a, o);
      SetColor(other, true, a, o);
      RotateLeft(other, a, o.(red := true));
      FocusAcross(mem, root, c.(left := SiblingLeantRight(c.left)), t);
    }

    /** The sibling takes the parent's colour and place, its far child turning black. */
    method LiftSiblingRight(parent: nat, other: nat, ghost c: Context, ghost t: Tree)
      requires At(mem, root, c, t) && c.InRight? && c.left.Node? && c.left.left.Node?
      requires c.id == parent && c.left.id == other
      modifies this`mem, this`root
      ensures |mem| == old(|mem|)
      ensures At(mem, root, c.up, SiblingLiftedRight(c, t))
    {
      hide At;
      ghost var o, a := c.left, Across(c, t);
      CellsNear(mem, root, c, t);
      FocusAcross(mem, root, c, t);
      SetColor(other, mem[parent].red, a, o);
      o := o.(red := c.red);
      FocusUp(mem, root, a, o);
      SetColor(parent, false, c.up, Node(o, c.id, c.red, t));
      ghost var q := Node(o, c.id, false, t);
      FocusLeft(mem, root, c.up, q);
      ghost var b := InLeft(c.up, c.id, false, t);
      CellsNear(mem, root, b, o);
      FocusLeft(mem, root, b, o);
      SetColor(mem[other].left, false, InLeft(b, o.id, o.red, o.right), o.left);
      o := o.(left := o.left.(red := false));
      q := Node(o, c.id, false, t);
      FocusLeft(mem, root, b, o);
      FocusLeft(mem, root, c.up, q);
      RotateRight(parent, c.up, q);
    }

    /** The sibling is lifted over the parent and the whole tree is coloured again. */
    method MendLeft(parent: nat, other: nat, ghost c: Context, ghost t: Tree, ghost h: nat)
      returns (ghost s: Tree, ghost k: nat)
      requires At(mem, root, c, t) && c.InLeft? && c.id == parent && c.right.Node? && c.right.id == other
      requires Colored(t, h) && ColoredAround(c, h + 1) && !c.right.red
      requires IsRed(c.right.left) || IsRed(c.right.right)
      modifies this`mem, this`root
      ensures |mem| == old(|mem|)
      ensures At(mem, root, Top, s) && Ids(s) == Ids(Plug(c, t)) && Colored(s, k) && !IsRed(s)
    {
      ghost var o := c.right;
      FocusAcross(mem, root, c, t);
      CellsNear(mem, root, Across(c, t), o);
      FocusRight(mem, root, Across(c, t), o);
      CellsNear(mem, root, InRight(o.left, o.id, o.red, Across(c, t)), o.right);
      SiblingThere(c, h);
      NephewColors(o, h);
      hide At, Plug, Ids, Colored, ColoredAround;
      var y := other;
      if mem[other].right == 0 || !mem[mem[other].right].red {
        LeanSiblingLeft(other, c, t);
        SiblingLeantLeftColors(o, h);
        o := SiblingLeantLeft(o);
        CellsNear(mem, root, c.(right := o), t);
        y := mem[parent].right;
      }
      LiftSiblingLeft(parent, y, c.(right := o), t);
      k := SiblingLiftedLeftColors(c, t, o, h);
      s := Plug(c.up, SiblingLiftedLeft(c.(right := o), t));
      FocusRoot(mem, root, c.up, SiblingLiftedLeft(c.(right := o), t));
    }

    /** The removal loop's turn past the red-sibling case, at a left child. */
    method EraseBlackLeft(parent: nat, other: nat, ghost c: Context, ghost t: Tree, ghost h: nat)
      returns (next: nat, above: nat, done: bool, ghost d: Context, ghost s: Tree, ghost k: nat)
      requires At(mem, root, c, t) && c.InLeft? && c.id == parent && c.right.Node? && c.right.id == other
      requires Colored(t, h) && !IsRed(t) && ColoredAround(c, h + 1) && !c.right.red
      modifies this`mem, this`root
      ensures |mem| == old(|mem|)
      ensures At(mem, root, d, s) && next == Id(s) && Ids(Plug(d, s)) == Ids(Plug(c, t))
      ensures done ==> d.Top? && Colored(s, k) && !IsRed(s)
      ensures !done ==> above == Parent(d) && Short(s, k) && ColoredAround(d, k + 1)
      ensures !done ==> d == c.up && (c.red ==> IsRed(s))
    {
      hide At, Plug, Ids, Colored, ColoredAround, Short;
      ghost var o, a := c.right, Across(c, t);
      FocusAcross(mem, root, c, t);
      CellsNear(mem, root, a, o);
      FocusLeft(mem, root, a, o);
      CellsNear(mem, root, InLeft(a, o.id, o.red, o.right), o.left);
      FocusRight(mem, root, a, o);
      CellsNear(mem, root, InRight(o.left, o.id, o.red, a), o.right);
      if (mem[other].left == 0 || !mem[mem[other].left].red) && (mem[other].right == 0 || !mem[mem[other].right].red) {
        FocusUp(mem, root, c, t);
        SetColor(other, true, a, o);
        d, s, k, done := c.up, Above(a, o.(red := true)), Heaved(c, h), false;
        FocusUp(mem, root, a, o.(red := true));
        CellsNear(mem, root, d, s);
        ReddenedSibling(c, t, h);
        SameOrder(d, s, Above(c, t));
        next, above := parent, mem[parent].parent;
      } else {
        s, k := MendLeft(parent, other, c, t, h);
        d, done, next, above := Top, true, root, 0;
        CellsNear(mem, root, Top, s);
        PlugTop(s);
      }
    }

    /** One turn of the removal loop when the short subtree is a left child. */
    method EraseUnderLeft(node: nat, parent: nat, ghost c: Context, ghost t: Tree, ghost h: nat)
      returns (next: nat, above: nat, done: bool, ghost d: Context, ghost s: Tree, ghost k: nat)
      requires At(mem, root, c, t) && c.InLeft? && Id(t) == node && c.id == parent
      requires Colored(t, h) && !IsRed(t) && ColoredAround(c, h + 1)
      modifies this`mem, this`root
      ensures |mem| == old(|mem|)
      ensures At(mem, root, d, s) && next == Id(s) && Ids(Plug(d, s)) == Ids(Plug(c, t))
      ensures done ==> d.Top? && Colored(s, k) && !IsRed(s)
      ensures !done ==> above == Parent(d) && Short(s, k) && ColoredAround(d, k + 1)
      ensures !done && !IsRed(s) ==> Depth(d) < Depth(c)
    {
      hide At, Plug, Ids, Colored, ColoredAround, Short;
      ghost var e := c;
      CellsNear(mem, root, e, t);
      SiblingThere(e, h);
      FocusAcross(mem, root, e, t);
      CellsNear(mem, root, Across(e, t), e.right);
      var other := mem[parent].right;
      if mem[other].red {
        PullSiblingLeft(parent, other, e, t);
        SiblingPulledLeftColors(e, t, h);
        e := SiblingPulledLeft(e);
        CellsNear(mem, root, e, t);
        SiblingThere(e, h);
        other := mem[parent].right;
      }
      next, above, done, d, s, k := EraseBlackLeft(parent, other, e, t, h);
    }

    /** The sibling is lifted over the parent and the whole tree is coloured again. */
    method MendRight(parent: nat, other: nat, ghost c: Context, ghost t: Tree, ghost h: nat)
      returns (ghost s: Tree, ghost k: nat)
      requires At(mem, root, c, t) && c.InRight? && c.id == parent && c.left.Node? && c.left.id == other
      requires Colored(t, h) && ColoredAround(c, h + 1) && !c.left.red
      requires IsRed(c.left.right) || IsRed(c.left.left)
      modifies this`mem, this`root
      ensures |mem| == old(|mem|)
      ensures At(mem, root, Top, s) && Ids(s) == Ids(Plug(c, t)) && Colored(s, k) && !IsRed(s)
    {
      ghost var o := c.left;
      FocusAcross(mem, root, c, t);
      CellsNear(mem, root, Across(c, t), o);
      FocusLeft(mem, root, Across(c, t), o);
      CellsNear(mem, root, InLeft(Across(c, t), o.id, o.red, o.right), o.left);
      SiblingThere(c, h);
      NephewColors(o, h);
      hide At, Plug, Ids, Colored, ColoredAround;
      var y := other;
      if mem[other].left == 0 || !mem[mem[other].left].red {
        LeanSiblingRight(other, c, t);
        SiblingLeantRightColors(o, h);
        o := SiblingLeantRight(o);
        CellsNear(mem, root, c.(left := o), t);
        y := mem[parent].left;
      }
      LiftSiblingRight(parent, y, c.(left := o), t);
      k := SiblingLiftedRightColors(c, t, o, h);
      s := Plug(c.up, SiblingLiftedRight(c.(left := o), t));
      FocusRoot(mem, root, c.up, SiblingLiftedRight(c.(left := o), t));
    }

    /** The removal loop's turn past the red-sibling case, at a right child. */
    method EraseBlackRight(parent: nat, other: nat, ghost c: Context, ghost t: Tree, ghost h: nat)
      returns (next: nat, above: nat, done: bool, ghost d: Context, ghost s: Tree, ghost k: nat)
      requires At(mem, root, c, t) && c.InRight? && c.id == parent && c.left.Node? && c.left.id == other
      requires Colored(t, h) && !IsRed(t) && ColoredAround(c, h + 1) && !c.left.red
      modifies this`mem, this`root
      ensures |mem| == old(|mem|)
      ensures At(mem, root, d, s) && next == Id(s) && Ids(Plug(d, s)) == Ids(Plug(c, t))
      ensures done ==> d.Top? && Colored(s, k) && !IsRed(s)
      ensures !done ==> above == Parent(d) && Short(s, k) && ColoredAround(d, k + 1)
      ensures !done ==> d == c.up && (c.red ==> IsRed(s))
    {
      hide At, Plug, Ids, Colored, ColoredAround, Short;
      ghost var o, a := c.left, Across(c, t);
      FocusAcross(mem, root, c, t);
      CellsNear(mem, root, a, o);
      FocusRight(mem, root, a, o);
      CellsNear(mem, root, InRight(o.left, o.id, o.red, a), o.right);
      FocusLeft(mem, root, a, o);
      CellsNear(mem, root, InLeft(a, o.id, o.red, o.right), o.left);
      if (mem[other].right == 0 || !mem[mem[other].right].red) && (mem[other].left == 0 || !mem[mem[other].left].red) {
        FocusUp(mem, root, c, t);
        SetColor(other, true, a, o);
        d, s, k, done := c.up, Above(a, o.(red := true)), Heaved(c, h), false;
        FocusUp(mem, root, a, o.(red := true));
        CellsNear(mem, root, d, s);
        ReddenedSibling(c, t, h);
        SameOrder(d, s, Above(c, t));
        next, above := parent, mem[parent].parent;
      } else {
        s, k := MendRight(parent, other, c, t, h);
        d, done, next, above := Top, true, root, 0;
        CellsNear(mem, root, Top, s);
        PlugTop(s);
      }
    }

    /** One turn of the removal loop when the short subtree is a right child. */
    method EraseUnderRight(node: nat, parent: nat, ghost c: Context, ghost t: Tree, ghost h: nat)
      returns (next: nat, above: nat, done: bool, ghost d: Context, ghost s: Tree, ghost k: nat)
      requires At(mem, root, c, t) && c.InRight? && Id(t) == node && c.id == parent
      requires Colored(t, h) && !IsRed(t) && ColoredAround(c, h + 1)
      modifies this`mem, this`root
      ensures |mem| == old(|mem|)
      ensures At(mem, root, d, s) && next == Id(s) && Ids(Plug(d, s)) == Ids(Plug(c, t))
      ensures done ==> d.Top? && Colored(s, k) && !IsRed(s)
      ensures !done ==> above == Parent(d) && Short(s, k) && ColoredAround(d, k + 1)
      ensures !done && !IsRed(s) ==> Depth(d) < Depth(c)
    {
      hide At, Plug, Ids, Colored, ColoredAround, Short;
      ghost var e := c;
      CellsNear(mem, root, e, t);
      SiblingThere(e, h);
      FocusAcross(mem, root, e, t);
      CellsNear(mem, root, Across(e, t), e.left);
      var other := mem[parent].left;
      if mem[other].red {
        PullSiblingRight(parent, other, e, t);
        SiblingPulledRightColors(e, t, h);
        e := SiblingPulledRight(e);
        CellsNear(mem, root, e, t);
        SiblingThere(e, h);
        other := mem[parent].left;
      }
      next, above, done, d, s, k := EraseBlackRight(parent, other, e, t, h);
    }

    /** One turn of the removal loop. */
    method EraseTurn(node: nat, parent: nat, ghost c: Context, ghost t: Tree, ghost h: nat)
      returns (next: nat, above: nat, done: bool, ghost d: Context, ghost s: Tree, ghost k: nat)
      requires At(mem, root, c, t) && !c.Top? && Id(t) == node && c.id == parent
      requires Colored(t, h) && !IsRed(t) && ColoredAround(c, h + 1)
      modifies this`mem, this`root
      ensures |mem| == old(|mem|)
      ensures At(mem, root, d, s) && next == Id(s) && Ids(Plug(d, s)) == Ids(Plug(c, t))
      ensures done ==> d.Top? && Colored(s, k) && !IsRed(s)
      ensures !done ==> above == Parent(d) && Short(s, k) && ColoredAround(d, k + 1)
      ensures !done && !IsRed(s) ==> Depth(d) < Depth(c)
    {
      hide At, Plug, Ids, Colored, ColoredAround, Short, Depth;
      CellsNear(mem, root, c, t);
      SiblingThere(c, h);
      if mem[parent].left == node {
        next, above, done, d, s, k := EraseUnderLeft(node, parent, c, t, h);
      } else {
        next, above, done, d, s, k := EraseUnderRight(node, parent, c, t, h);
      }
    }

    /** The removal fix-up: a subtree one black node short, in a tree coloured
        otherwise, becomes a coloured tree with a black root and the same order. */
    method EraseColor(node: nat, parent: nat, ghost c: Context, ghost t: Tree, ghost h: nat)
      returns (ghost s: Tree, ghost k: nat)
      requires At(mem, root, c, t) && node == Id(t) && parent == Parent(c)
      requires Colored(t, h) && ColoredAround(c, h + 1)
      modifies this`mem, this`root
      ensures |mem| == old(|mem|)
      ensures At(mem, root, Top, s) && Ids(s) == Ids(Plug(c, t)) && Colored(s, k) && !IsRed(s)
    {
      var n, p, done := node, parent, false;
      ghost var d, u, g := c, t, h;
      ShortStart(t, h);
      hide At, Plug, Ids, Colored, ColoredAround, Short, Depth;
      CellsNear(mem, root, d, u);
      while !done && (n == 0 || !mem[n].red) && n != root
        invariant |mem| == old(|mem|)
        invariant At(mem, root, d, u) && n == Id(u) && Ids(Plug(d, u)) == Ids(Plug(c, t))
        invariant n != 0 ==> u.Node? && n < |mem| && mem[n].red == u.red
        invariant n == root <==> d.Top?
        invariant done ==> d.Top? && Colored(u, g) && !IsRed(u)
        invariant !done ==> p == Parent(d) && Short(u, g) && ColoredAround(d, g + 1)
        decreases !done, if IsRed(u) then 0 else Depth(d) + 1
      {
        ShortBlack(u, g);
        n, p, done, d, u, g := EraseTurn(n, p, d, u, g);
        CellsNear(mem, root, d, u);
      }
      if n != 0 {
        SetColor(n, false, d, u);
      }
      s, k := Mended(d, u, g, done);
      FocusRoot(mem, root, d, if u.Node? then u.(red := false) else u);
    }

    // ---- the search and insertion loops of include/rbtree.h ----

    method Link(node: nat, parent: nat, left: bool, ghost c: Context)
      requires At(mem, root, c, Leaf) && 0 < node < |mem| && node !in Around(c)
      requires parent == Parent(c) && parent < |mem| && (!c.Top? ==> c.id != 0 && left == c.InLeft?)
      modifies this`mem, this`root
      ensures |mem| == old(|mem|)
      ensures At(mem, root, c, Node(Leaf, node, true, Leaf))
    {
      LinkedAt(mem, root, c, node);
      mem := mem[node := Cell(0, 0, parent, true)];
      if parent == 0 {
        root := node;
      } else if left {
        mem := mem[parent := mem[parent].(left := node)];
      } else {
        mem := mem[parent := mem[parent].(right := node)];
      }
    }

    /** The walk down that search and insertion share: to a node with key `v`, or
        to the null link where such a node belongs. */
    method Descend(v: int) returns (n: nat, parent: nat, left: bool, ghost c: Context, ghost t: Tree)
      requires Valid() && Sorted(key, Contents())
      ensures At(mem, root, c, t) && Plug(c, t) == tree && Narrowed(key, c, t, v)
      ensures n == Id(t) && (if n == 0 then t.Leaf? else t.Node? && key(n) == v)
      ensures n == 0 ==>
        parent == Parent(c) && (parent != 0 ==> parent < |mem|) && (!c.Top? ==> c.id != 0 && left == c.InLeft?)
    {
      c, t := Top, tree;
      n, parent, left := root, 0, false;
      hide At, Plug, Ids, Colored, Narrowed, Sorted;
      CellsNear(mem, root, c, t);
      StartNarrowed(key, tree, v);
      while n != 0
        invariant At(mem, root, c, t) && Plug(c, t) == tree && Narrowed(key, c, t, v)
        invariant n == Id(t) && (n == 0 ==> t.Leaf?)
        invariant n != 0 ==> t.Node? && n < |mem| && mem[n] == Cell(Id(t.left), Id(t.right), Parent(c), t.red)
        invariant parent == Parent(c) && (parent != 0 ==> parent < |mem|)
        invariant !c.Top? ==> c.id != 0 && left == c.InLeft?
        decreases t
      {
        PlugDown(c, t);
        if v < key(n) {
          FocusLeft(mem, root, c, t);
          NarrowLeft(key, c, t, v);
          c, t := InLeft(c, t.id, t.red, t.right), t.left;
          n, parent, left := mem[n].left, n, true;
        } else if v > key(n) {
          FocusRight(mem, root, c, t);
          NarrowRight(key, c, t, v);
          c, t := InRight(t.left, t.id, t.red, c), t.right;
          n, parent, left := mem[n].right, n, false;
        } else {
          return;
        }
        CellsNear(mem, root, c, t);
      }
    }

    /** Finds the node with key `v`, or reports that there is none. */
    method Search(v: int) returns (n: nat)
      requires Valid() && Sorted(key, Contents())
      ensures n == 0 <==> Absent(key, Contents(), v)
      ensures n != 0 ==> n in Contents() && key(n) == v
    {
      hide At, Plug, Ids, Colored, Narrowed, Sorted, Absent;
      ghost var c, t;
      var parent, left;
      n, parent, left, c, t := Descend(v);
      if n == 0 {
        NarrowedAway(key, c, v);
      } else {
        NarrowedHit(c, t);
        Present(key, Contents(), |Before(c) + Ids(t.left)|);
      }
    }

    /** Puts a new node in order, unless a node with its key is there already. */
    method Insert(node: nat) returns (found: nat)
      requires Valid() && Sorted(key, Contents()) && 0 < node < |mem| && node !in Contents()
      modifies this`mem, this`root, this`tree
      ensures Valid() && Sorted(key, Contents()) && |mem| == old(|mem|)
      ensures found == 0 <==> Absent(key, old(Contents()), key(node))
      ensures found == 0 ==> Inserted(old(Contents()), Contents(), node)
      ensures found != 0 ==> found in Contents() && key(found) == key(node) && unchanged(this)
    {
      ghost var k: nat :| Colored(tree, k);
      hide At, Plug, Ids, Colored, ColoredAround, Narrowed, Sorted, Absent, Inserted;
      ghost var c, t;
      var parent, left;
      found, parent, left, c, t := Descend(key(node));
      if found != 0 {
        NarrowedHit(c, t);
        Present(key, Contents(), |Before(c) + Ids(t.left)|);
      } else {
        NarrowedAway(key, c, key(node));
        InsertedInOrder(key, c, node);
        ghost var h := SplitColored(c, Leaf, k);
        NewNode(h);
        AroundListed(c, Leaf, node);
        Link(node, parent, left, c);
        t, k := InsertColor(node, c, Node(Leaf, node, true, Leaf), h);
        tree := t;
      }
    }

    // ---- removal ----

    /** Takes out a node with at most one child. */
    method Unlink(node: nat, child: nat, ghost c: Context, ghost t: Tree, ghost s: Tree)
      returns (parent: nat, red: bool)
      requires At(mem, root, c, t) && OnlyChild(t, s) && t.id == node && Id(s) == child
      modifies this`mem, this`root
      ensures |mem| == old(|mem|)
      ensures At(mem, root, c, s) && parent == Parent(c) && red == t.red
    {
      ghost var m := mem;
      Neighbours(m, root, c, t);
      SplicedAt(m, root, c, t, s);
      assert RepAround(m, root, c, node);
      hide At, Rep, RepAround, Apart, ApartAround, Nodes, Around;
      parent, red := mem[node].parent, mem[node].red;
      if child != 0 {
        SetParent(child, parent);
      }
      Relink(parent, node, child, c, m);
    }

    /** Down the left links to the first node of a subtree. */
    method Leftmost(from: nat, ghost c: Context, ghost t: Tree) returns (n: nat, ghost d: Context, ghost s: Tree)
      requires At(mem, root, c, t) && t.Node? && t.id == from
      ensures Spine(d) && Plug(d, s) == t && s.Node? && s.left.Leaf? && s.id == n
      ensures At(mem, root, Append(d, c), s)
    {
      n, d, s := from, Top, t;
      hide At, Append, Plug;
      PlugTop(t);
      FocusPath(mem, root, d, c, s);
      Neighbours(mem, root, Append(d, c), s);
      while mem[n].left != 0
        invariant s.Node? && s.id == n && n < |mem| && mem[n].left == Id(s.left) && (s.left.Node? ==> s.left.id != 0)
        invariant Spine(d) && Plug(d, s) == t && At(mem, root, Append(d, c), s)
        decreases s
      {
        n := mem[n].left;
        PlugDown(d, s);
        d, s := InLeft(d, s.id, s.red, s.right), s.left;
        FocusPath(mem, root, d, c, s);
        Neighbours(mem, root, Append(d, c), s);
      }
    }

    method Detach(child: nat, parent: nat, gone: nat, node: nat)
      requires child < |mem| && 0 < parent < |mem| && 0 < gone < |mem| && 0 < node < |mem|
      requires 0 < mem[gone].right < |mem|
      requires gone != child && gone != parent && gone != node
      modifies this`mem
      ensures mem == Detached(old(mem), child, parent, gone, node, old(mem[gone].right))
      ensures gone != old(mem[gone].right) ==> mem[gone] == old(mem[gone])
    {
      if child != 0 {
        SetParent(child, parent);
      }
      mem := mem[parent := mem[parent].(left := child)];
      mem := mem[node := mem[node].(right := mem[gone].right)];
      SetParent(mem[gone].right, node);
    }

    method TakeOver(gone: nat, node: nat)
      requires 0 < gone < |mem| && 0 < node < |mem| && gone != node && 0 < mem[gone].left < |mem|
      modifies this`mem
      ensures mem == WithParent(old(mem)[node :=
        Cell(old(mem[gone].left), old(mem[node].right), old(mem[gone].parent), old(mem[gone].red))],
          old(mem[gone].left), node)
    {
      mem := mem[node := mem[node].(parent := mem[gone].parent, red := mem[gone].red)];
      mem := mem[node := mem[node].(left := mem[gone].left)];
      SetParent(mem[gone].left, node);
    }

    /** The writes that put the successor in the place of a node with two children. */
    method Transplant(gone: nat, node: nat, ghost c: Context, ghost e: Context)
      returns (child: nat, parent: nat, red: bool)
      requires Names(mem, c, e, gone, node) && RepAround(mem, root, c, gone) && (c.InRight? ==> Id(c.left) != gone)
      modifies this`mem, this`root
      ensures mem == Moved(old(mem), c, gone, node) && root == RootAfter(old(root), c, node)
      ensures child == old(mem[node].right) && red == old(mem[node].red)
      ensures parent == if e.id == gone then node else e.id
    {
      ghost var m := mem;
      hide RepAround, Detached;
      Relink(mem[gone].parent, gone, node, c, m);
      assert mem[node] == m[node] && mem[gone] == m[gone];
      child, parent, red := mem[node].right, mem[node].parent, mem[node].red;
      if parent == gone {
        parent := node;
      } else {
        Detach(child, parent, gone, node);
      }
      TakeOver(gone, node);
    }

    /** Puts the successor of a node with two children in the node's place. */
    method MoveSuccessor(gone: nat, ghost c: Context, ghost t: Tree)
      returns (child: nat, parent: nat, red: bool, ghost d: Context, ghost s: Tree)
      requires At(mem, root, c, t) && t.Node? && t.left.Node? && t.right.Node? && t.id == gone
      modifies this`mem, this`root
      ensures |mem| == old(|mem|)
      ensures Spine(d) && Plug(d, s) == t.right && s.Node? && s.left.Leaf? && red == s.red
      ensures At(mem, root, Append(d, InRight(t.left, s.id, t.red, c)), s.right)
      ensures child == Id(s.right) && parent == Parent(Append(d, InRight(t.left, s.id, t.red, c)))
    {
      ghost var m, rt := mem, root;
      Neighbours(m, root, c, t);
      assert RepAround(m, root, c, gone);
      hide At, Rep, RepAround, Apart, ApartAround, Nodes, Around, Plug, Moved;
      FocusRight(m, root, c, t);
      var node;
      node, d, s := Leftmost(mem[gone].right, InRight(t.left, t.id, t.red, c), t.right);
      SuccessorNames(m, root, c, t, d, s);
      MovedAt(m, root, c, t, d, s);
      CellsNear(m, root, Append(d, InRight(t.left, t.id, t.red, c)), s);
      child, parent, red := Transplant(gone, node, c, Append(d, InRight(t.left, t.id, t.red, c)));
    }

    /** Recolours after a node was taken out, if that node was black. */
    method Settle(child: nat, parent: nat, red: bool, ghost c: Context, ghost s: Tree, ghost h: nat)
      returns (ghost u: Tree, ghost k: nat)
      requires At(mem, root, c, s) && child == Id(s) && parent == Parent(c)
      requires red ==> Colored(s, h) && ColoredAround(c, h) && !IsRed(s) && !c.Top?
      requires !red ==> Colored(s, h) && ColoredAround(c, h + 1)
      modifies this`mem, this`root
      ensures |mem| == old(|mem|)
      ensures At(mem, root, Top, u) && Ids(u) == Ids(Plug(c, s)) && Colored(u, k) && !IsRed(u)
    {
      hide At, Plug, Ids, Colored, ColoredAround;
      if red {
        FocusRoot(mem, root, c, s);
        u := Plug(c, s);
        k := PlugColored(c, s, h);
      } else {
        u, k := EraseColor(child, parent, c, s, h);
      }
    }

    /** The first half of a removal: the node is out, at most one black node is missing. */
    method TakeOut(node: nat, ghost c: Context, ghost t: Tree, ghost k: nat)
      returns (child: nat, parent: nat, red: bool, ghost d: Context, ghost u: Tree, ghost h: nat)
      requires At(mem, root, c, t) && t.Node? && t.id == node
      requires Colored(Plug(c, t), k) && !IsRed(Plug(c, t))
      modifies this`mem, this`root
      ensures |mem| == old(|mem|)
      ensures At(mem, root, d, u) && child == Id(u) && parent == Parent(d)
      ensures Colored(u, h) && ColoredAround(d, if red then h else h + 1)
      ensures red ==> !IsRed(u) && !d.Top?
      ensures Inserted(Ids(Plug(d, u)), Ids(Plug(c, t)), node)
    {
      hide At, Plug, Ids, Colored, ColoredAround, Inserted, Append;
      Neighbours(mem, root, c, t);
      if mem[node].left != 0 && mem[node].right != 0 {
        ghost var s;
        child, parent, red, d, s := MoveSuccessor(node, c, t);
        h := SuccessorColors(c, t, d, s, k);
        SuccessorOrder(c, t, d, s);
        d, u := Append(d, InRight(t.left, s.id, t.red, c)), s.right;
        UnlinkedColors(d, s, u, h);
      } else {
        child := if mem[node].left == 0 then mem[node].right else mem[node].left;
        d, u := c, if t.left.Leaf? then t.right else t.left;
        h := SplitColored(c, t, k);
        UnlinkedColors(c, t, u, h);
        UnlinkedOrder(c, t, u);
        parent, red := Unlink(node, child, c, t, u);
      }
      h := if red then h else h - 1;
    }

    /** Removes a node: the others stay in order, and the colours are mended. */
    method Erase(node: nat)
      requires Valid() && node in Contents()
      modifies this`mem, this`root, this`tree
      ensures Valid() && |mem| == old(|mem|)
      ensures Inserted(Contents(), old(Contents()), node) && node !in Contents()
      ensures old(Sorted(key, Contents())) ==> Sorted(key, Contents())
    {
      ghost var k: nat :| Colored(tree, k);
      ghost var was := Contents();
      Listed(mem, root, tree);
      ghost var c, t := Locate(Top, tree, node);
      PlugTop(tree);
      hide At, Plug, Ids, Colored, ColoredAround, Inserted, Sorted, Distinct;
      FocusRoot(mem, root, c, t);
      var child, parent, red;
      ghost var d, u, h;
      child, parent, red, d, u, h := TakeOut(node, c, t, k);
      u, k := Settle(child, parent, red, d, u, h);
      tree := u;
      Removed(key, Contents(), was, node);
    }

    // ---- walking ----

    method First() returns (n: nat)
      requires Valid()
      ensures n == Head(Contents())
    {
      hide At, Plug, Append, Colored;
      CellsNear(mem, root, Top, tree);
      if root == 0 {
        return 0;
      }
      ghost var d, s;
      n, d, s := Leftmost(root, Top, tree);
      SpineHead(d, s);
    }

    /** The node after `node` in order; a cleared node (its own parent) has none. */
    method Next(node: nat) returns (r: nat)
      requires Valid() && 0 < node < |mem| && (node in Contents() || mem[node].parent == node)
      ensures node in Contents() ==> Follows(Contents(), node, r)
      ensures node !in Contents() ==> r == 0
    {
      NodesAreIds(tree);
      if mem[node].parent == node {
        if node in Contents() {
          NotOwnParent(mem, root, tree, node);
        }
        return 0;
      }
      ghost var c, t := Locate(Top, tree, node);
      PlugTop(tree);
      hide At, Plug, Ids, Append, Follows;
      FocusRoot(mem, root, c, t);
      Neighbours(mem, root, c, t);
      FollowsIn(c, t);
      if mem[node].right != 0 {
        FocusRight(mem, root, c, t);
        ghost var d, s;
        r, d, s := Leftmost(mem[node].right, InRight(t.left, t.id, t.red, c), t.right);
        SpineHead(d, s);
        return;
      }
      NoIds();
      ghost var e, u := c, t;
      var n := node;
      r := mem[n].parent;
      while r != 0 && n == mem[r].right
        invariant At(mem, root, e, u) && u.Node? && u.id == n && After(e) == After(c)
        invariant r == Parent(e) && (!e.Top? ==> 0 < r < |mem|)
        decreases e
      {
        CellsNear(mem, root, e, u);
        FocusUp(mem, root, e, u);
        e, u := e.up, Above(e, u);
        Neighbours(mem, root, e, u);
        n := r;
        r := mem[n].parent;
        if !e.Top? {
          CellsNear(mem, root, e, u);
        }
      }
      CellsNear(mem, root, e, u);
    }

    /** The iteration macro: every node once, in order. */
    method Walk() returns (s: seq<nat>)
      requires Valid()
      ensures s == Contents()
    {
      s := [];
      Listed(mem, root, tree);
      hide At, Ids, Colored, Follows, Distinct, Nodes;
      var n := First();
      while n != 0
        invariant |s| <= |Contents()| && s == Contents()[..|s|]
        invariant n == Head(Contents()[|s|..])
        decreases |Contents()| - |s|
      {
        assert n == Contents()[|s|];
        var r := Next(n);
        NextSlot(Contents(), |s|, r);
        s, n := s + [n], r;
      }
    }

    /** The search for the first node from a key on, wrapping past the last. */
    method Nsearch(v: int) returns (r: nat)
      requires Valid() && Sorted(key, Contents())
      ensures Ceiling(key, Contents(), v, r)
    {
      ghost var c, t := Top, tree;
      var n := root;
      r := 0;
      hide At, Plug, Ids, Colored, Narrowed, Sorted, Ceiling;
      CellsNear(mem, root, c, t);
      StartNarrowed(key, tree, v);
      while n != 0
        invariant At(mem, root, c, t) && Plug(c, t) == tree && Narrowed(key, c, t, v)
        invariant n == Id(t) && (n == 0 ==> t.Leaf?)
        invariant n != 0 ==> t.Node? && n < |mem| && mem[n] == Cell(Id(t.left), Id(t.right), Parent(c), t.red)
        invariant r == Head(After(c)) && (r == 0 ==> After(c) == [])
        decreases t
      {
        PlugDown(c, t);
        if v < key(n) {
          FocusLeft(mem, root, c, t);
          NarrowLeft(key, c, t, v);
          c, t := InLeft(c, t.id, t.red, t.right), t.left;
          n, r := mem[n].left, n;
        } else if v > key(n) {
          FocusRight(mem, root, c, t);
          NarrowRight(key, c, t, v);
          c, t := InRight(t.left, t.id, t.red, c), t.right;
          n := mem[n].right;
        } else {
          CeilingHit(key, c, t, v);
          return n;
        }
        CellsNear(mem, root, c, t);
      }
      CeilingMiss(key, c, v);
      if r == 0 && root != 0 {
        r := First();
      }
    }
  }
}
