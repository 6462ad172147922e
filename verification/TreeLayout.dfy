/** Trees of nodes linked by left, right and parent fields (include/rbtree.h), as
    they lie in memory. Nodes are addresses; address 0 is the null link. A place in
    a tree is a context with a subtree in its hole. */
module TreeLayout {
  datatype Cell = Cell(left: nat, right: nat, parent: nat, red: bool)

  datatype Tree = Leaf | Node(left: Tree, id: nat, red: bool, right: Tree)

  // The way from a subtree up to the root: the subtree is the left (right)
  // child of `id`, whose other child is `right` (`left`).
  datatype Context =
    | Top
    | InLeft(up: Context, id: nat, red: bool, right: Tree)
    | InRight(left: Tree, id: nat, red: bool, up: Context)

  function Id(t: Tree): nat {
    if t.Leaf? then 0 else t.id
  }

  function Parent(c: Context): nat {
    if c.Top? then 0 else c.id
  }

  function Sibling(c: Context): Tree
    requires !c.Top?
  {
    if c.InLeft? then c.right else c.left
  }

  function Nodes(t: Tree): set<nat> {
    if t.Leaf? then {} else Nodes(t.left) + {t.id} + Nodes(t.right)
  }

  function Around(c: Context): set<nat> {
    if c.Top? then {} else Nodes(Sibling(c)) + {c.id} + Around(c.up)
  }

  function Plug(c: Context, t: Tree): Tree {
    match c
    case Top => t
    case InLeft(up, x, red, r) => Plug(up, Node(t, x, red, r))
    case InRight(l, x, red, up) => Plug(up, Node(l, x, red, t))
  }

  /** The nodes in order. */
  function Ids(t: Tree): seq<nat> {
    if t.Leaf? then [] else Ids(t.left) + [t.id] + Ids(t.right)
  }

  // ---- a tree laid out in memory ----

  ghost predicate Rep(m: seq<Cell>, t: Tree, p: nat) {
    t.Leaf? ||
    (0 < t.id < |m| &&
     m[t.id] == Cell(Id(t.left), Id(t.right), p, t.red) &&
     Rep(m, t.left, t.id) && Rep(m, t.right, t.id))
  }

  ghost predicate RepAround(m: seq<Cell>, root: nat, c: Context, x: nat) {
    match c
    case Top => root == x
    case InLeft(up, n, red, r) =>
      0 < n < |m| && m[n] == Cell(x, Id(r), Parent(up), red) &&
      Rep(m, r, n) && RepAround(m, root, up, n)
    case InRight(l, n, red, up) =>
      0 < n < |m| && m[n] == Cell(Id(l), x, Parent(up), red) &&
      Rep(m, l, n) && RepAround(m, root, up, n)
  }

  ghost predicate Apart(t: Tree) {
    t.Leaf? ||
    (t.id !in Nodes(t.left) && t.id !in Nodes(t.right) && Nodes(t.left) !! Nodes(t.right) &&
     Apart(t.left) && Apart(t.right))
  }

  ghost predicate ApartAround(c: Context) {
    c.Top? ||
    (c.id !in Nodes(Sibling(c)) && c.id !in Around(c.up) && Nodes(Sibling(c)) !! Around(c.up) &&
     Apart(Sibling(c)) && ApartAround(c.up))
  }

  /** Memory `m` holds, from `root`, the tree `Plug(c, t)` with every parent
      link in place and no node met twice. */
  ghost predicate At(m: seq<Cell>, root: nat, c: Context, t: Tree) {
    Rep(m, t, Parent(c)) && RepAround(m, root, c, Id(t)) &&
    Apart(t) && ApartAround(c) && Nodes(t) !! Around(c)
  }

  lemma FocusLeft(m: seq<Cell>, root: nat, c: Context, t: Tree)
    requires t.Node?
    ensures At(m, root, c, t) <==> At(m, root, InLeft(c, t.id, t.red, t.right), t.left)
  {
  }

  lemma FocusRight(m: seq<Cell>, root: nat, c: Context, t: Tree)
    requires t.Node?
    ensures At(m, root, c, t) <==> At(m, root, InRight(t.left, t.id, t.red, c), t.right)
  {
  }

  lemma {:induction false} FocusRoot(m: seq<Cell>, root: nat, c: Context, t: Tree)
    ensures At(m, root, c, t) <==> At(m, root, Top, Plug(c, t))
    decreases c
  {
    hide At;
    match c
    case Top =>
    case InLeft(up, x, red, r) =>
      FocusLeft(m, root, up, Node(t, x, red, r));
      FocusRoot(m, root, up, Node(t, x, red, r));
    case InRight(l, x, red, up) =>
      FocusRight(m, root, up, Node(l, x, red, t));
      FocusRoot(m, root, up, Node(l, x, red, t));
  }

  // ---- single writes ----

  function WithParent(m: seq<Cell>, x: nat, p: nat): (r: seq<Cell>)
    requires x < |m|
    ensures |r| == |m|
  {
    if x == 0 then m else m[x := m[x].(parent := p)]
  }

  function WithChild(m: seq<Cell>, c: Context, y: nat): (r: seq<Cell>)
    requires Parent(c) < |m|
    ensures |r| == |m|
  {
    match c
    case Top => m
    case InLeft(_, n, _, _) => m[n := m[n].(left := y)]
    case InRight(_, n, _, _) => m[n := m[n].(right := y)]
  }

  lemma {:induction false} RepFrame(m: seq<Cell>, k: seq<Cell>, t: Tree, p: nat)
    requires Rep(m, t, p) && |k| == |m|
    requires forall x :: x in Nodes(t) && 0 < x < |m| ==> k[x] == m[x]
    ensures Rep(k, t, p)
  {
    if t.Node? {
      RepFrame(m, k, t.left, t.id);
      RepFrame(m, k, t.right, t.id);
    }
  }

  lemma {:induction false} AroundFrame(m: seq<Cell>, k: seq<Cell>, root: nat, c: Context, x: nat)
    requires RepAround(m, root, c, x) && |k| == |m|
    requires forall n :: n in Around(c) && 0 < n < |m| ==> k[n] == m[n]
    ensures RepAround(k, root, c, x)
  {
    if !c.Top? {
      RepFrame(m, k, Sibling(c), c.id);
      AroundFrame(m, k, root, c.up, c.id);
    }
  }

  lemma {:induction false} RepNodes(m: seq<Cell>, t: Tree, p: nat)
    requires Rep(m, t, p)
    ensures Id(t) < |m| || t.Leaf?
    ensures forall x :: x in Nodes(t) ==> 0 < x < |m|
  {
    if t.Node? {
      RepNodes(m, t.left, t.id);
      RepNodes(m, t.right, t.id);
    }
  }

  /** A subtree is moved under another parent by writing its root's cell. */
  lemma Reparented(m: seq<Cell>, k: seq<Cell>, t: Tree, p: nat, q: nat)
    requires Rep(m, t, p) && Apart(t) && |k| == |m|
    requires forall x :: x in Nodes(t) && 0 < x < |m| && x != Id(t) ==> k[x] == m[x]
    requires t.Node? ==> k[t.id] == m[t.id].(parent := q)
    ensures Rep(k, t, q)
  {
    if t.Node? {
      RepFrame(m, k, t.left, t.id);
      RepFrame(m, k, t.right, t.id);
    }
  }

  /** A context takes another subtree by writing the link just above the hole. */
  lemma Rechilded(m: seq<Cell>, k: seq<Cell>, root: nat, c: Context, x: nat, y: nat)
    requires RepAround(m, root, c, x) && ApartAround(c) && |k| == |m|
    requires forall n :: n in Around(c) && 0 < n < |m| && n != Parent(c) ==> k[n] == m[n]
    requires !c.Top? ==> k[c.id] == WithChild(m, c, y)[c.id]
    ensures RepAround(k, if c.Top? then y else root, c, y)
  {
    if !c.Top? {
      RepFrame(m, k, Sibling(c), c.id);
      AroundFrame(m, k, root, c.up, c.id);
    }
  }

  lemma Recolored(m: seq<Cell>, root: nat, c: Context, t: Tree, red: bool)
    requires At(m, root, c, t) && t.Node?
    ensures At(m[t.id := m[t.id].(red := red)], root, c, t.(red := red))
  {
    var k := m[t.id := m[t.id].(red := red)];
    RepFrame(m, k, t.left, t.id);
    RepFrame(m, k, t.right, t.id);
    AroundFrame(m, k, root, c, t.id);
  }

  // ---- rotations ----

  function RotatedLeft(t: Tree): Tree
    requires t.Node? && t.right.Node?
  {
    Node(Node(t.left, t.id, t.red, t.right.left), t.right.id, t.right.red, t.right.right)
  }

  function RotatedRight(t: Tree): Tree
    requires t.Node? && t.left.Node?
  {
    Node(t.left.left, t.left.id, t.left.red, Node(t.left.right, t.id, t.red, t.right))
  }

  lemma IdInNodes(t: Tree)
    ensures t.Node? ==> t.id in Nodes(t)
  {
  }

  /** Where a node, its parent and its children lie: in range and apart. */
  lemma Neighbours(m: seq<Cell>, root: nat, c: Context, t: Tree)
    requires At(m, root, c, t) && t.Node?
    ensures 0 < t.id < |m| && m[t.id] == Cell(Id(t.left), Id(t.right), Parent(c), t.red)
    ensures Id(t.left) < |m| && Id(t.right) < |m| && Parent(c) < |m|
    ensures t.id != Id(t.left) && t.id != Id(t.right) && t.id != Parent(c)
    ensures Id(t.left) != 0 ==> Id(t.left) != Id(t.right) && Id(t.left) != Parent(c)
    ensures Id(t.right) != 0 ==> Id(t.right) != Parent(c)
    ensures t.left.Node? ==> t.left.id != 0
    ensures t.right.Node? ==> t.right.id != 0
    ensures !c.Top? ==> c.id != 0 && (c.InRight? ==> Id(c.left) != t.id) && (c.InLeft? ==> Id(c.right) != t.id)
  {
    RepNodes(m, t, Parent(c));
    IdInNodes(t.left);
    IdInNodes(t.right);
    if !c.Top? {
      IdInNodes(Sibling(c));
    }
  }

  lemma ApartRotatedLeft(t: Tree)
    requires Apart(t) && t.Node? && t.right.Node?
    ensures Apart(RotatedLeft(t)) && Nodes(RotatedLeft(t)) == Nodes(t)
  {
  }

  lemma ApartRotatedRight(t: Tree)
    requires Apart(t) && t.Node? && t.left.Node?
    ensures Apart(RotatedRight(t)) && Nodes(RotatedRight(t)) == Nodes(t)
  {
  }

  /** The pieces a left rotation moves: in memory, and apart from one another. */
  lemma LeftPieces(m: seq<Cell>, root: nat, c: Context, t: Tree)
    requires At(m, root, c, t) && t.Node? && t.right.Node?
    ensures Rep(m, t.left, t.id) && Rep(m, t.right.left, t.right.id) && Rep(m, t.right.right, t.right.id)
    ensures RepAround(m, root, c, t.id) && ApartAround(c) && Apart(t.right.left)
    ensures Clear(t.left, t.id, t.right.id, c) && Clear(t.right.left, t.id, t.right.id, c)
    ensures Clear(t.right.right, t.id, t.right.id, c)
    ensures Nodes(t.right.left) !! Nodes(t.left) && Nodes(t.right.left) !! Nodes(t.right.right)
    ensures t.id !in Around(c) && t.right.id !in Around(c)
  {
    var r := t.right;
    assert Rep(m, r, t.id) && Apart(r) && Nodes(r) <= Nodes(t);
    assert Nodes(r.left) <= Nodes(r) && Nodes(r.right) <= Nodes(r);
    if !c.Top? {
      assert c.id in Around(c);
    }
  }

  ghost predicate Clear(t: Tree, x: nat, y: nat, c: Context) {
    x !in Nodes(t) && y !in Nodes(t) && Nodes(t) !! Around(c) && (!c.Top? ==> c.id !in Nodes(t))
  }

  lemma RotateLeftDone(m: seq<Cell>, root: nat, c: Context, t: Tree, k: seq<Cell>)
    requires At(m, root, c, t) && t.Node? && t.right.Node? && |k| == |m|
    requires 0 < t.id < |m| && 0 < t.right.id < |m| && Id(t.right.left) < |m| && Parent(c) < |m|
    requires forall x :: 0 < x < |m| && x != t.id && x != t.right.id && x != Id(t.right.left) && x != Parent(c) ==>
      k[x] == m[x]
    requires k[t.id] == Cell(Id(t.left), Id(t.right.left), t.right.id, t.red)
    requires k[t.right.id] == Cell(t.id, Id(t.right.right), Parent(c), t.right.red)
    requires t.right.left.Node? ==> k[t.right.left.id] == m[t.right.left.id].(parent := t.id)
    requires !c.Top? ==> k[c.id] == WithChild(m, c, t.right.id)[c.id]
    ensures At(k, if c.Top? then t.right.id else root, c, RotatedLeft(t))
  {
    var r := t.right;
    assert Rep(k, t.left, t.id) && Rep(k, r.left, t.id) && Rep(k, r.right, r.id) &&
      RepAround(k, if c.Top? then r.id else root, c, r.id) by {
      LeftPieces(m, root, c, t);
      IdInNodes(r.left);
      hide At, Rep, RepAround, Apart, ApartAround, Nodes, Around;
      RepFrame(m, k, t.left, t.id);
      Reparented(m, k, r.left, r.id, t.id);
      RepFrame(m, k, r.right, r.id);
      Rechilded(m, k, root, c, t.id, r.id);
    }
    ApartRotatedLeft(t);
    assert Rep(k, Node(t.left, t.id, t.red, r.left), r.id);
  }

  lemma LeftNames(m: seq<Cell>, root: nat, c: Context, t: Tree)
    requires At(m, root, c, t) && t.Node? && t.right.Node?
    ensures 0 < t.right.id < |m| && t.right.id != t.id && t.right.id != Parent(c)
    ensures m[t.right.id] == Cell(Id(t.right.left), Id(t.right.right), t.id, t.right.red)
    ensures Id(t.right.left) < |m|
    ensures t.right.left.Node? ==> t.right.left.id != 0
    ensures Id(t.right.left) != 0 ==>
      Id(t.right.left) != t.id && Id(t.right.left) != t.right.id && Id(t.right.left) != Parent(c)
  {
    LeftPieces(m, root, c, t);
    IdInNodes(t.right.left);
    FocusRight(m, root, c, t);
    Neighbours(m, root, InRight(t.left, t.id, t.red, c), t.right);
    hide At, Rep, RepAround, Apart, ApartAround, Nodes, Around;
  }

  function TurnLeft(m: seq<Cell>, c: Context, x: nat, y: nat): (k: seq<Cell>)
    requires x < |m| && y < |m| && m[y].left < |m| && Parent(c) < |m|
    ensures |k| == |m|
  {
    var m1 := WithParent(m[x := m[x].(right := m[y].left)], m[y].left, x);
    var m2 := WithParent(m1[y := m1[y].(left := x)], y, m[x].parent);
    WithParent(WithChild(m2, c, y), x, y)
  }

  lemma TurnLeftCells(m: seq<Cell>, c: Context, x: nat, y: nat)
    requires 0 < x < |m| && 0 < y < |m| && m[y].left < |m| && Parent(c) < |m|
    requires x != y && x != m[y].left && y != m[y].left && x != Parent(c) && y != Parent(c)
    requires m[y].left != 0 ==> m[y].left != Parent(c)
    requires !c.Top? ==> c.id != 0
    ensures var k := TurnLeft(m, c, x, y);
      k[x] == m[x].(right := m[y].left, parent := y) &&
      k[y] == m[y].(left := x, parent := m[x].parent) &&
      (m[y].left != 0 ==> k[m[y].left] == m[m[y].left].(parent := x)) &&
      (!c.Top? ==> k[c.id] == WithChild(m, c, y)[c.id]) &&
      forall i :: 0 < i < |m| && i != x && i != y && i != m[y].left && i != Parent(c) ==> k[i] == m[i]
  {
  }

  /** The writes of a left rotation leave the rotated tree in memory. */
  lemma TurnLeftAt(m: seq<Cell>, root: nat, c: Context, t: Tree)
    requires At(m, root, c, t) && t.Node? && t.right.Node?
    requires t.id < |m| && t.right.id < |m| && m[t.right.id].left < |m| && Parent(c) < |m|
    ensures At(TurnLeft(m, c, t.id, t.right.id), if c.Top? then t.right.id else root, c, RotatedLeft(t))
  {
    Neighbours(m, root, c, t);
    LeftNames(m, root, c, t);
    TurnLeftCells(m, c, t.id, t.right.id);
    hide At, Rep, RepAround, Apart, ApartAround, Nodes, Around, TurnLeft;
    RotateLeftDone(m, root, c, t, TurnLeft(m, c, t.id, t.right.id));
  }

  /** The pieces a right rotation moves: in memory, and apart from one another. */
  lemma RightPieces(m: seq<Cell>, root: nat, c: Context, t: Tree)
    requires At(m, root, c, t) && t.Node? && t.left.Node?
    ensures Rep(m, t.right, t.id) && Rep(m, t.left.right, t.left.id) && Rep(m, t.left.left, t.left.id)
    ensures RepAround(m, root, c, t.id) && ApartAround(c) && Apart(t.left.right)
    ensures Clear(t.right, t.id, t.left.id, c) && Clear(t.left.right, t.id, t.left.id, c)
    ensures Clear(t.left.left, t.id, t.left.id, c)
    ensures Nodes(t.left.right) !! Nodes(t.right) && Nodes(t.left.right) !! Nodes(t.left.left)
    ensures t.id !in Around(c) && t.left.id !in Around(c)
  {
    var l := t.left;
    assert Rep(m, l, t.id) && Apart(l) && Nodes(l) <= Nodes(t);
    assert Nodes(l.right) <= Nodes(l) && Nodes(l.left) <= Nodes(l);
    if !c.Top? {
      assert c.id in Around(c);
    }
  }

  lemma RightNames(m: seq<Cell>, root: nat, c: Context, t: Tree)
    requires At(m, root, c, t) && t.Node? && t.left.Node?
    ensures 0 < t.left.id < |m| && t.left.id != t.id && t.left.id != Parent(c)
    ensures m[t.left.id] == Cell(Id(t.left.left), Id(t.left.right), t.id, t.left.red)
    ensures Id(t.left.right) < |m|
    ensures t.left.right.Node? ==> t.left.right.id != 0
    ensures Id(t.left.right) != 0 ==>
      Id(t.left.right) != t.id && Id(t.left.right) != t.left.id && Id(t.left.right) != Parent(c)
  {
    RightPieces(m, root, c, t);
    IdInNodes(t.left.right);
    FocusLeft(m, root, c, t);
    Neighbours(m, root, InLeft(c, t.id, t.red, t.right), t.left);
    hide At, Rep, RepAround, Apart, ApartAround, Nodes, Around;
  }

  function TurnRight(m: seq<Cell>, c: Context, x: nat, y: nat): (k: seq<Cell>)
    requires x < |m| && y < |m| && m[y].right < |m| && Parent(c) < |m|
    ensures |k| == |m|
  {
    var m1 := WithParent(m[x := m[x].(left := m[y].right)], m[y].right, x);
    var m2 := WithParent(m1[y := m1[y].(right := x)], y, m[x].parent);
    WithParent(WithChild(m2, c, y), x, y)
  }

  lemma TurnRightCells(m: seq<Cell>, c: Context, x: nat, y: nat)
    requires 0 < x < |m| && 0 < y < |m| && m[y].right < |m| && Parent(c) < |m|
    requires x != y && x != m[y].right && y != m[y].right && x != Parent(c) && y != Parent(c)
    requires m[y].right != 0 ==> m[y].right != Parent(c)
    requires !c.Top? ==> c.id != 0
    ensures var k := TurnRight(m, c, x, y);
      k[x] == m[x].(left := m[y].right, parent := y) &&
      k[y] == m[y].(right := x, parent := m[x].parent) &&
      (m[y].right != 0 ==> k[m[y].right] == m[m[y].right].(parent := x)) &&
      (!c.Top? ==> k[c.id] == WithChild(m, c, y)[c.id]) &&
      forall i :: 0 < i < |m| && i != x && i != y && i != m[y].right && i != Parent(c) ==> k[i] == m[i]
  {
  }

  lemma RotateRightDone(m: seq<Cell>, root: nat, c: Context, t: Tree, k: seq<Cell>)
    requires At(m, root, c, t) && t.Node? && t.left.Node? && |k| == |m|
    requires 0 < t.id < |m| && 0 < t.left.id < |m| && Id(t.left.right) < |m| && Parent(c) < |m|
    requires forall x :: 0 < x < |m| && x != t.id && x != t.left.id && x != Id(t.left.right) && x != Parent(c) ==>
      k[x] == m[x]
    requires k[t.id] == Cell(Id(t.left.right), Id(t.right), t.left.id, t.red)
    requires k[t.left.id] == Cell(Id(t.left.left), t.id, Parent(c), t.left.red)
    requires t.left.right.Node? ==> k[t.left.right.id] == m[t.left.right.id].(parent := t.id)
    requires !c.Top? ==> k[c.id] == WithChild(m, c, t.left.id)[c.id]
    ensures At(k, if c.Top? then t.left.id else root, c, RotatedRight(t))
  {
    var l := t.left;
    assert Rep(k, t.right, t.id) && Rep(k, l.right, t.id) && Rep(k, l.left, l.id) &&
      RepAround(k, if c.Top? then l.id else root, c, l.id) by {
      RightPieces(m, root, c, t);
      IdInNodes(l.right);
      hide At, Rep, RepAround, Apart, ApartAround, Nodes, Around;
      RepFrame(m, k, t.right, t.id);
      Reparented(m, k, l.right, l.id, t.id);
      RepFrame(m, k, l.left, l.id);
      Rechilded(m, k, root, c, t.id, l.id);
    }
    ApartRotatedRight(t);
    assert Rep(k, Node(l.right, t.id, t.red, t.right), l.id);
  }

  /** The writes of a right rotation leave the rotated tree in memory. */
  lemma TurnRightAt(m: seq<Cell>, root: nat, c: Context, t: Tree)
    requires At(m, root, c, t) && t.Node? && t.left.Node?
    requires t.id < |m| && t.left.id < |m| && m[t.left.id].right < |m| && Parent(c) < |m|
    ensures At(TurnRight(m, c, t.id, t.left.id), if c.Top? then t.left.id else root, c, RotatedRight(t))
  {
    Neighbours(m, root, c, t);
    RightNames(m, root, c, t);
    TurnRightCells(m, c, t.id, t.left.id);
    hide At, Rep, RepAround, Apart, ApartAround, Nodes, Around, TurnRight;
    RotateRightDone(m, root, c, t, TurnRight(m, c, t.id, t.left.id));
  }

  /** The cell of the node above the hole, when the hole holds `x`. */
  function CellAbove(c: Context, x: nat): Cell
    requires !c.Top?
  {
    if c.InLeft? then Cell(x, Id(c.right), Parent(c.up), c.red) else Cell(Id(c.left), x, Parent(c.up), c.red)
  }

  /** What the links around a place read. */
  lemma CellsNear(m: seq<Cell>, root: nat, c: Context, t: Tree)
    requires At(m, root, c, t)
    ensures t.Node? ==> 0 < t.id < |m| && m[t.id] == Cell(Id(t.left), Id(t.right), Parent(c), t.red)
    ensures !c.Top? ==> 0 < c.id < |m| && m[c.id] == CellAbove(c, Id(t))
    ensures !c.Top? && Sibling(c).Node? ==> Sibling(c).id != Id(t) && Sibling(c).id != 0
    ensures c.Top? ==> root == Id(t)
    ensures !c.Top? ==> root != Id(t)
  {
    if !c.Top? {
      IdInNodes(Sibling(c));
      IdInNodes(t);
      RootAbove(m, root, c, Id(t));
    }
  }

  lemma {:induction false} RootAbove(m: seq<Cell>, root: nat, c: Context, x: nat)
    requires RepAround(m, root, c, x) && !c.Top?
    ensures root in Around(c) && 0 < root
    decreases c
  {
    if !c.up.Top? {
      RootAbove(m, root, c.up, c.id);
    }
  }

  /** One step up. */
  function Above(c: Context, t: Tree): Tree
    requires !c.Top?
  {
    if c.InLeft? then Node(t, c.id, c.red, c.right) else Node(c.left, c.id, c.red, t)
  }

  lemma FocusUp(m: seq<Cell>, root: nat, c: Context, t: Tree)
    requires At(m, root, c, t) && !c.Top?
    ensures At(m, root, c.up, Above(c, t))
    ensures Plug(c.up, Above(c, t)) == Plug(c, t)
  {
    if c.InLeft? {
      FocusLeft(m, root, c.up, Above(c, t));
    } else {
      FocusRight(m, root, c.up, Above(c, t));
    }
  }

  /** Only the order of the nodes in the hole matters to the order of the whole. */
  lemma {:induction false} SameOrder(c: Context, t: Tree, s: Tree)
    requires Ids(t) == Ids(s)
    ensures Ids(Plug(c, t)) == Ids(Plug(c, s))
    decreases c
  {
    if !c.Top? {
      SameOrder(c.up, Above(c, t), Above(c, s));
    }
  }

  lemma Regrouped(a: seq<nat>, x: nat, b: seq<nat>, y: nat, d: seq<nat>)
    ensures (a + [x] + b) + [y] + d == a + [x] + (b + [y] + d)
  {
  }

  lemma LeftRotationOrder(t: Tree)
    requires t.Node? && t.right.Node?
    ensures Ids(RotatedLeft(t)) == Ids(t)
  {
    Regrouped(Ids(t.left), t.id, Ids(t.right.left), t.right.id, Ids(t.right.right));
    assert Ids(RotatedLeft(t)) == Ids(Node(t.left, t.id, t.red, t.right.left)) + [t.right.id] + Ids(t.right.right);
    assert Ids(t.right) == Ids(t.right.left) + [t.right.id] + Ids(t.right.right);
  }

  lemma RightRotationOrder(t: Tree)
    requires t.Node? && t.left.Node?
    ensures Ids(RotatedRight(t)) == Ids(t)
  {
    Regrouped(Ids(t.left.left), t.left.id, Ids(t.left.right), t.id, Ids(t.right));
    assert Ids(RotatedRight(t)) == Ids(t.left.left) + [t.left.id] + Ids(Node(t.left.right, t.id, t.red, t.right));
    assert Ids(t.left) == Ids(t.left.left) + [t.left.id] + Ids(t.left.right);
  }

  /** The place of the other child. */
  function Across(c: Context, t: Tree): Context
    requires !c.Top?
  {
    if c.InLeft? then InRight(t, c.id, c.red, c.up) else InLeft(c.up, c.id, c.red, t)
  }

  lemma FocusAcross(m: seq<Cell>, root: nat, c: Context, t: Tree)
    requires !c.Top?
    ensures At(m, root, c, t) <==> At(m, root, Across(c, t), Sibling(c))
    ensures Plug(Across(c, t), Sibling(c)) == Plug(c, t)
  {
    hide At;
    FocusLeft(m, root, c.up, Above(c, t));
    FocusRight(m, root, c.up, Above(c, t));
  }

  // ---- taking a node out ----

  lemma AtFrame(m: seq<Cell>, k: seq<Cell>, root: nat, c: Context, t: Tree)
    requires At(m, root, c, t) && |k| == |m|
    requires forall x :: (x in Nodes(t) || x in Around(c)) && 0 < x < |m| ==> k[x] == m[x]
    ensures At(k, root, c, t)
  {
    RepFrame(m, k, t, Parent(c));
    AroundFrame(m, k, root, c, Id(t));
  }

  ghost predicate OnlyChild(t: Tree, s: Tree) {
    t.Node? && ((t.left.Leaf? && s == t.right) || (t.right.Leaf? && s == t.left))
  }

  function Spliced(m: seq<Cell>, c: Context, x: nat): (k: seq<Cell>)
    requires x < |m| && Parent(c) < |m|
    ensures |k| == |m|
  {
    WithChild(WithParent(m, x, Parent(c)), c, x)
  }

  function RootAfter(root: nat, c: Context, x: nat): nat {
    if c.Top? then x else root
  }

  /** A node with one child at most is taken out by hanging that child in its place. */
  lemma SplicedAt(m: seq<Cell>, root: nat, c: Context, t: Tree, s: Tree)
    requires At(m, root, c, t) && OnlyChild(t, s) && Id(s) < |m| && Parent(c) < |m|
    ensures At(Spliced(m, c, Id(s)), RootAfter(root, c, Id(s)), c, s)
    ensures Spliced(m, c, Id(s))[t.id] == m[t.id]
    ensures t.id !in Nodes(s) && t.id !in Around(c)
  {
    var k := Spliced(m, c, Id(s));
    Neighbours(m, root, c, t);
    assert Rep(m, s, t.id) && Apart(s) && Nodes(s) <= Nodes(t) && t.id !in Nodes(s);
    assert Nodes(s) !! Around(c) && (!c.Top? ==> c.id in Around(c));
    IdInNodes(s);
    assert Rep(k, s, Parent(c)) by {
      hide Rep, Apart, Nodes, Around, At, RepAround;
      Reparented(m, k, s, t.id, Parent(c));
    }
    assert RepAround(k, RootAfter(root, c, Id(s)), c, Id(s)) by {
      hide Rep, Apart, Nodes, Around, RepAround, ApartAround;
      assert RepAround(m, root, c, t.id) && ApartAround(c);
      Rechilded(m, k, root, c, t.id, Id(s));
    }
  }

  function Replaced(m: seq<Cell>, c: Context, x: nat, y: nat): (k: seq<Cell>)
    requires x < |m| && y < |m| && m[x].left < |m| && m[x].right < |m| && Parent(c) < |m|
    ensures |k| == |m|
  {
    WithParent(WithParent(WithChild(m, c, y)[y := m[x]], m[x].right, y), m[x].left, y)
  }

  lemma ReplacedCells(m: seq<Cell>, c: Context, x: nat, y: nat)
    requires 0 < x < |m| && 0 < y < |m| && m[x].left < |m| && m[x].right < |m| && Parent(c) < |m|
    requires y != Parent(c) && y != m[x].left && y != m[x].right && (!c.Top? ==> c.id != 0)
    requires m[x].left != 0 ==> m[x].left != m[x].right && m[x].left != Parent(c)
    requires m[x].right != 0 ==> m[x].right != Parent(c)
    ensures var k := Replaced(m, c, x, y);
      k[y] == m[x] &&
      (m[x].left != 0 ==> k[m[x].left] == m[m[x].left].(parent := y)) &&
      (m[x].right != 0 ==> k[m[x].right] == m[m[x].right].(parent := y)) &&
      (!c.Top? ==> k[c.id] == WithChild(m, c, y)[c.id]) &&
      forall i :: 0 < i < |m| && i != y && i != m[x].left && i != m[x].right && i != Parent(c) ==> k[i] == m[i]
  {
  }

  /** A fresh node takes over the links and the colour of a node in the tree. */
  lemma ReplacedAt(m: seq<Cell>, root: nat, c: Context, t: Tree, y: nat)
    requires At(m, root, c, t) && t.Node? && 0 < y < |m| && y !in Nodes(t) && y !in Around(c)
    requires t.id < |m| && Id(t.left) < |m| && Id(t.right) < |m| && Parent(c) < |m|
    requires m[t.id].left == Id(t.left) && m[t.id].right == Id(t.right)
    ensures At(Replaced(m, c, t.id, y), RootAfter(root, c, y), c, t.(id := y))
  {
    var k := Replaced(m, c, t.id, y);
    Neighbours(m, root, c, t);
    IdInNodes(t.left);
    IdInNodes(t.right);
    assert !c.Top? ==> c.id in Around(c);
    ReplacedCells(m, c, t.id, y);
    ReplacedPieces(m, root, c, t, y, k);
    hide Replaced;
  }

  lemma ReplacedPieces(m: seq<Cell>, root: nat, c: Context, t: Tree, y: nat, k: seq<Cell>)
    requires At(m, root, c, t) && t.Node? && 0 < y < |m| && y !in Nodes(t) && y !in Around(c) && |k| == |m|
    requires Id(t.left) < |m| && Id(t.right) < |m| && Parent(c) < |m|
    requires t.left.Node? ==> k[t.left.id] == m[t.left.id].(parent := y)
    requires t.right.Node? ==> k[t.right.id] == m[t.right.id].(parent := y)
    requires !c.Top? ==> k[c.id] == WithChild(m, c, y)[c.id]
    requires forall i :: 0 < i < |m| && i != y && i != Id(t.left) && i != Id(t.right) && i != Parent(c) ==> k[i] == m[i]
    ensures Rep(k, t.left, y) && Rep(k, t.right, y) && RepAround(k, RootAfter(root, c, y), c, y)
  {
    IdInNodes(t.left);
    IdInNodes(t.right);
    assert !c.Top? ==> c.id in Around(c);
    assert Rep(m, t.left, t.id) && Rep(m, t.right, t.id) && Apart(t.left) && Apart(t.right);
    assert Nodes(t.left) <= Nodes(t) && Nodes(t.right) <= Nodes(t) && Nodes(t.left) !! Nodes(t.right);
    assert RepAround(m, root, c, t.id) && ApartAround(c) && Nodes(t) !! Around(c);
    hide Rep, Apart, Nodes, Around, At, RepAround, ApartAround;
    Reparented(m, k, t.left, t.id, y);
    Reparented(m, k, t.right, t.id, y);
    Rechilded(m, k, root, c, t.id, y);
  }

  // ---- the way down to the leftmost node ----

  function Append(d: Context, base: Context): Context {
    match d
    case Top => base
    case InLeft(up, x, red, r) => InLeft(Append(up, base), x, red, r)
    case InRight(l, x, red, up) => InRight(l, x, red, Append(up, base))
  }

  predicate Spine(d: Context) {
    d.Top? || (d.InLeft? && Spine(d.up))
  }

  lemma {:induction false} FocusPath(m: seq<Cell>, root: nat, d: Context, base: Context, t: Tree)
    ensures At(m, root, Append(d, base), t) <==> At(m, root, base, Plug(d, t))
    ensures Plug(Append(d, base), t) == Plug(base, Plug(d, t))
    decreases d
  {
    hide At;
    if !d.Top? {
      FocusLeft(m, root, Append(d.up, base), Above(d, t));
      FocusRight(m, root, Append(d.up, base), Above(d, t));
      FocusPath(m, root, d.up, base, Above(d, t));
    }
  }

  lemma {:induction false} PlugApart(d: Context, t: Tree)
    requires Apart(Plug(d, t))
    ensures Apart(t) && Nodes(t) !! Around(d) && Nodes(Plug(d, t)) == Nodes(t) + Around(d)
    ensures !d.Top? ==> Parent(d) in Around(d) && Id(Plug(d, t)) in Around(d)
    decreases d
  {
    if !d.Top? {
      PlugApart(d.up, Above(d, t));
    }
  }

  lemma {:induction false} SpineOrder(d: Context, x: nat, red: bool, r: Tree)
    requires Spine(d)
    ensures Ids(Plug(d, Node(Leaf, x, red, r))) == [x] + Ids(Plug(d, r))
    decreases d
  {
    SpineSplit(d, Node(Leaf, x, red, r));
    SpineSplit(d, r);
    assert Ids(Node(Leaf, x, red, r)) == [x] + Ids(r);
    assert [x] + Ids(r) + After(d) == [x] + (Ids(r) + After(d));
  }

  lemma {:induction false} SpineSplit(d: Context, t: Tree)
    requires Spine(d)
    ensures Ids(Plug(d, t)) == Ids(t) + After(d)
    decreases d
  {
    InOrder(d, t);
    SpineBefore(d);
  }

  lemma {:induction false} SpineBefore(d: Context)
    requires Spine(d)
    ensures Before(d) == []
  {
    if !d.Top? {
      SpineBefore(d.up);
    }
  }

  /** The nodes left of the hole, in order. */
  function Before(c: Context): seq<nat> {
    match c
    case Top => []
    case InLeft(up, _, _, _) => Before(up)
    case InRight(l, x, _, up) => Before(up) + Ids(l) + [x]
  }

  /** The nodes right of the hole, in order. */
  function After(c: Context): seq<nat> {
    match c
    case Top => []
    case InLeft(up, x, _, r) => [x] + Ids(r) + After(up)
    case InRight(_, _, _, up) => After(up)
  }

  lemma Nested(p: seq<nat>, a: seq<nat>, x: nat, b: seq<nat>, q: seq<nat>)
    ensures p + (a + [x] + b) + q == p + a + ([x] + b + q)
    ensures p + (a + [x] + b) + q == (p + a + [x]) + b + q
  {
  }

  lemma {:induction false} InOrder(c: Context, t: Tree)
    ensures Ids(Plug(c, t)) == Before(c) + Ids(t) + After(c)
    decreases c
  {
    if !c.Top? {
      var a := Above(c, t);
      InOrder(c.up, a);
      Nested(Before(c.up), Ids(a.left), a.id, Ids(a.right), After(c.up));
      assert Ids(a) == Ids(a.left) + [a.id] + Ids(a.right);
      hide Ids;
    }
  }

  // ---- moving the successor into a node's place ----

  function Moved(m: seq<Cell>, c: Context, x: nat, y: nat): (k: seq<Cell>)
    requires x < |m| && y < |m| && m[x].left < |m| && m[x].right < |m| && Parent(c) < |m|
    requires m[y].right < |m| && m[y].parent < |m|
    ensures |k| == |m|
  {
    var m1 := WithChild(m, c, y);
    var m2 := if m[y].parent == x then m1 else Detached(m1, m[y].right, m[y].parent, x, y, m[x].right);
    WithParent(m2[y := Cell(m2[x].left, m2[y].right, m2[x].parent, m2[x].red)], m[x].left, y)
  }

  function Detached(m: seq<Cell>, child: nat, parent: nat, x: nat, y: nat, r: nat): (k: seq<Cell>)
    requires child < |m| && parent < |m| && x < |m| && y < |m| && r < |m|
    ensures |k| == |m|
  {
    var m1 := WithParent(m, child, parent);
    var m2 := m1[parent := m1[parent].(left := child)];
    WithParent(m2[y := m2[y].(right := r)], r, y)
  }

  /** The names a removal with two children meets: the node `x`, its successor `y`,
      the successor's child and the parent above it. */
  ghost predicate Names(m: seq<Cell>, c: Context, e: Context, x: nat, y: nat) {
    0 < x < |m| && 0 < y < |m| && 0 < m[x].left < |m| && 0 < m[x].right < |m| && Parent(c) < |m| &&
    m[y].right < |m| && m[x].parent == Parent(c) && (!c.Top? ==> c.id != 0) &&
    !e.Top? && 0 < e.id < |m| && e.id == m[y].parent &&
    x != y && x != m[x].left && x != m[x].right && m[x].left != m[x].right && y != m[x].left && y != e.id &&
    m[x].left != e.id &&
    Parent(c) != x && Parent(c) != y && Parent(c) != m[x].left && Parent(c) != m[x].right && Parent(c) != e.id &&
    (m[y].right != 0 ==>
      m[y].right != x && m[y].right != y && m[y].right != m[x].left && m[y].right != m[x].right && m[y].right != e.id &&
      m[y].right != Parent(c) && m[m[y].right].parent == y) &&
    if e.id == x then e.InRight? && m[x].right == y else e.InLeft? && m[x].right != y
  }

  lemma SplicedCells(m: seq<Cell>, e: Context, k: nat)
    requires k < |m| && !e.Top? && 0 < e.id < |m| && k != e.id
    ensures var v := Spliced(m, e, k);
      (k != 0 ==> v[k] == m[k].(parent := e.id)) &&
      v[e.id] == (if e.InLeft? then m[e.id].(left := k) else m[e.id].(right := k)) &&
      forall i :: 0 <= i < |m| && i != k && i != e.id ==> v[i] == m[i]
  {
  }

  lemma MovedNear(m: seq<Cell>, c: Context, e: Context, x: nat, y: nat)
    requires Names(m, c, e, x, y) && e.id == x
    ensures var k := Moved(m, c, x, y);
      k[y] == Cell(m[x].left, m[y].right, m[x].parent, m[x].red) &&
      k[m[x].left] == m[m[x].left].(parent := y) &&
      (!c.Top? ==> k[c.id] == WithChild(m, c, y)[c.id]) &&
      forall i :: 0 < i < |m| && i != y && i != m[x].left && i != Parent(c) ==> k[i] == m[i]
  {
  }

  lemma MovedFar(m: seq<Cell>, c: Context, e: Context, x: nat, y: nat)
    requires Names(m, c, e, x, y) && e.id != x
    ensures var k, q, r, ch := Moved(m, c, x, y), e.id, m[x].right, m[y].right;
      k[y] == m[x] && k[m[x].left] == m[m[x].left].(parent := y) &&
      (!c.Top? ==> k[c.id] == WithChild(m, c, y)[c.id]) &&
      k[r] == (if r == q then m[r].(left := ch, parent := y) else m[r].(parent := y)) &&
      (r != q ==> k[q] == m[q].(left := ch)) &&
      (ch != 0 ==> k[ch] == m[ch].(parent := q)) &&
      forall i :: 0 < i < |m| && i != y && i != m[x].left && i != r && i != q && i != ch && i != Parent(c) ==>
        k[i] == m[i]
  {
  }

  /** The links written for the successor are those of taking it out and then
      letting it replace the node, up to the cell of the node that leaves. */
  lemma MovedCells(m: seq<Cell>, c: Context, e: Context, x: nat, y: nat)
    requires Names(m, c, e, x, y)
    ensures var v := Spliced(m, e, m[y].right);
      v[x].left == m[x].left && v[x].right == (if e.id == x then m[y].right else m[x].right) &&
      v[x].parent == m[x].parent && v[x].red == m[x].red &&
      forall i :: 0 < i < |m| && i != x ==> Moved(m, c, x, y)[i] == Replaced(v, c, x, y)[i]
  {
    hide Moved, Replaced, Spliced;
    var v := Spliced(m, e, m[y].right);
    SplicedCells(m, e, m[y].right);
    ReplacedCells(v, c, x, y);
    if e.id == x {
      MovedNear(m, c, e, x, y);
    } else {
      MovedFar(m, c, e, x, y);
    }
  }

  /** A node with two children and the leftmost node below its right child: the
      names they meet are apart. */
  lemma SuccessorNames(m: seq<Cell>, root: nat, c: Context, t: Tree, d: Context, s: Tree)
    requires At(m, root, c, t) && t.Node? && t.left.Node? && t.right == Plug(d, s)
    requires Spine(d) && s.Node? && s.left.Leaf?
    ensures Names(m, c, Append(d, InRight(t.left, t.id, t.red, c)), t.id, s.id)
    ensures m[t.id] == Cell(Id(t.left), Id(t.right), Parent(c), t.red) && m[s.id].right == Id(s.right)
  {
    var base := InRight(t.left, t.id, t.red, c);
    PlugNode(d, s);
    assert Apart(t.right);
    hide At, Rep, RepAround, Apart, ApartAround, Nodes, Around, Plug;
    FocusRight(m, root, c, t);
    FocusPath(m, root, d, base, s);
    Neighbours(m, root, c, t);
    Neighbours(m, root, Append(d, base), s);
    InnerNames(d, s);
    OuterNames(m, root, c, t);
    ChildParent(m, root, Append(d, base), s);
  }

  lemma ChildParent(m: seq<Cell>, root: nat, c: Context, t: Tree)
    requires At(m, root, c, t) && t.Node?
    ensures t.right.Node? ==> 0 < t.right.id < |m| && m[t.right.id].parent == t.id
  {
    assert Rep(m, t.right, t.id);
  }

  lemma InnerNames(d: Context, s: Tree)
    requires Apart(Plug(d, s)) && s.Node?
    ensures s.id in Nodes(Plug(d, s)) && Id(Plug(d, s)) in Nodes(Plug(d, s))
    ensures s.right.Node? ==> s.right.id in Nodes(Plug(d, s)) && s.right.id != Id(Plug(d, s))
    ensures d.Top? ==> Plug(d, s) == s
    ensures !d.Top? ==> d.id in Nodes(Plug(d, s)) && Id(Plug(d, s)) != s.id
  {
    PlugApart(d, s);
    IdInNodes(s.right);
    assert s.right.Node? ==> s.right.id in Nodes(s) && s.right.id != s.id;
  }

  lemma OuterNames(m: seq<Cell>, root: nat, c: Context, t: Tree)
    requires At(m, root, c, t) && t.Node?
    ensures forall x :: x in Nodes(t.right) ==> x != 0 && x != t.id && x != Id(t.left) && x != Parent(c)
  {
    IdInNodes(t.left);
    RepNodes(m, t, Parent(c));
    assert !c.Top? ==> c.id in Around(c);
    assert Nodes(t.right) <= Nodes(t);
  }

  lemma {:induction false} PlugNode(c: Context, t: Tree)
    requires t.Node?
    ensures Plug(c, t).Node?
    decreases c
  {
    if !c.Top? {
      PlugNode(c.up, Above(c, t));
    }
  }

  /** Moving the successor leaves the tree without the node, the successor in its
      place and the successor's child in the successor's. */
  lemma MovedAt(m: seq<Cell>, root: nat, c: Context, t: Tree, d: Context, s: Tree)
    requires At(m, root, c, t) && t.Node? && t.left.Node? && t.right == Plug(d, s)
    requires Spine(d) && s.Node? && s.left.Leaf?
    requires Names(m, c, Append(d, InRight(t.left, t.id, t.red, c)), t.id, s.id)
    ensures At(Moved(m, c, t.id, s.id), RootAfter(root, c, s.id), Append(d, InRight(t.left, s.id, t.red, c)), s.right)
  {
    hide At, Rep, RepAround, Apart, ApartAround, Nodes, Around, Plug, Append, Moved, Spliced, Replaced;
    var e := Append(d, InRight(t.left, t.id, t.red, c));
    var u := Node(t.left, t.id, t.red, Plug(d, s.right));
    MovedCells(m, c, e, t.id, s.id);
    SuccessorOut(m, root, c, t, d, s);
    var v, k, to := Spliced(m, e, m[s.id].right), Moved(m, c, t.id, s.id), RootAfter(root, c, s.id);
    Neighbours(v, root, c, u);
    ReplacedAt(v, root, c, u, s.id);
    OldMissing(v, root, c, u, s.id);
    AtFrame(Replaced(v, c, t.id, s.id), k, to, c, u.(id := s.id));
    FocusRight(k, to, c, u.(id := s.id));
    FocusPath(k, to, d, InRight(t.left, s.id, t.red, c), s.right);
  }

  lemma SuccessorOut(m: seq<Cell>, root: nat, c: Context, t: Tree, d: Context, s: Tree)
    requires At(m, root, c, t) && t.Node? && t.left.Node? && t.right == Plug(d, s)
    requires Spine(d) && s.Node? && s.left.Leaf?
    requires Names(m, c, Append(d, InRight(t.left, t.id, t.red, c)), t.id, s.id)
    ensures var u := Node(t.left, t.id, t.red, Plug(d, s.right));
      At(Spliced(m, Append(d, InRight(t.left, t.id, t.red, c)), m[s.id].right), root, c, u) &&
      s.id !in Nodes(u) && s.id !in Around(c)
  {
    hide At, Rep, RepAround, Apart, ApartAround, Nodes, Around, Plug, Append, Spliced;
    var base := InRight(t.left, t.id, t.red, c);
    SuccessorNames(m, root, c, t, d, s);
    FocusRight(m, root, c, t);
    FocusPath(m, root, d, base, s);
    SplicedAt(m, root, Append(d, base), s, s.right);
    var v := Spliced(m, Append(d, base), m[s.id].right);
    FocusPath(v, root, d, base, s.right);
    FocusRight(v, root, c, Node(t.left, t.id, t.red, Plug(d, s.right)));
    Missing(d, t, c, s);
  }

  lemma Missing(d: Context, t: Tree, c: Context, s: Tree)
    requires t.Node? && s.Node?
    requires s.id !in Nodes(s.right) && s.id !in Around(Append(d, InRight(t.left, t.id, t.red, c)))
    ensures s.id !in Nodes(Node(t.left, t.id, t.red, Plug(d, s.right))) && s.id !in Around(c)
  {
    AppendAround(d, InRight(t.left, t.id, t.red, c));
    PlugNodes(d, s.right);
  }

  lemma {:induction false} AppendAround(d: Context, base: Context)
    ensures Around(Append(d, base)) == Around(d) + Around(base)
  {
    if !d.Top? {
      AppendAround(d.up, base);
    }
  }

  lemma {:induction false} PlugNodes(d: Context, t: Tree)
    ensures Nodes(Plug(d, t)) == Nodes(t) + Around(d)
    decreases d
  {
    if !d.Top? {
      PlugNodes(d.up, Above(d, t));
    }
  }

  lemma OldMissing(m: seq<Cell>, root: nat, c: Context, t: Tree, y: nat)
    requires At(m, root, c, t) && t.Node? && y !in Nodes(t)
    ensures t.id !in Nodes(t.(id := y)) && t.id !in Around(c)
  {
  }

  // ---- hanging a new node ----

  function Linked(m: seq<Cell>, c: Context, x: nat): (k: seq<Cell>)
    requires x < |m| && Parent(c) < |m|
    ensures |k| == |m|
  {
    WithChild(m[x := Cell(0, 0, Parent(c), true)], c, x)
  }

  lemma LinkedAt(m: seq<Cell>, root: nat, c: Context, x: nat)
    requires At(m, root, c, Leaf) && 0 < x < |m| && x !in Around(c) && Parent(c) < |m|
    ensures At(Linked(m, c, x), RootAfter(root, c, x), c, Node(Leaf, x, true, Leaf))
  {
    assert !c.Top? ==> c.id in Around(c);
    Rechilded(m, Linked(m, c, x), root, c, 0, x);
  }

  // ---- finding a node ----

  lemma {:induction false} Locate(c: Context, t: Tree, n: nat) returns (d: Context, s: Tree)
    requires n in Nodes(t)
    ensures Plug(d, s) == Plug(c, t) && s.Node? && s.id == n
    decreases t
  {
    if n == t.id {
      d, s := c, t;
    } else if n in Nodes(t.left) {
      d, s := Locate(InLeft(c, t.id, t.red, t.right), t.left, n);
    } else {
      d, s := Locate(InRight(t.left, t.id, t.red, c), t.right, n);
    }
  }

  lemma {:induction false} NodesAreIds(t: Tree)
    ensures forall x :: x in Nodes(t) <==> x in Ids(t)
  {
    if t.Node? {
      NodesAreIds(t.left);
      NodesAreIds(t.right);
    }
  }

  /** No node is listed twice. */
  lemma {:induction false} NoRepeats(t: Tree)
    requires Apart(t)
    ensures forall i, j :: 0 <= i < j < |Ids(t)| ==> Ids(t)[i] != Ids(t)[j]
  {
    if t.Node? {
      NoRepeats(t.left);
      NoRepeats(t.right);
      NodesAreIds(t.left);
      NodesAreIds(t.right);
      var a, b := Ids(t.left), Ids(t.right);
      var s := a + [t.id] + b;
      forall i, j | 0 <= i < j < |s| ensures s[i] != s[j] {
        assert i < |a| ==> s[i] in a;
        assert j > |a| ==> s[j] in b;
      }
    }
  }
}
