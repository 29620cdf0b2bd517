/**
 Link-level reasoning for the red-black tree: a snapshot of the node fields is a map
 of cells, and each relinking step of rbtree.c takes cells that hold one shape to cells
 that hold another.
 */
module RbLinks {
  import opened RbShape

  datatype Cell = Cell(parent: Node?, left: Node?, right: Node?, red: bool)

  type Cells = map<Node, Cell>

  ghost function Opt(n: Node?): set<Node> { if n == null then {} else {n} }

  ghost predicate Same(m: Cells, m': Cells, s: set<Node>) {
    forall n :: n in s ==> n in m && n in m' && m[n] == m'[n]
  }

  /** Only the cells of s may differ. */
  ghost predicate Touched(m: Cells, m': Cells, s: set<Node>) {
    m'.Keys == m.Keys && forall n :: n in m && n !in s ==> m'[n] == m[n]
  }

  /** The cells link the nodes of t exactly as the shape says, below the parent p. */
  ghost predicate Rep(m: Cells, t: Shape, p: Node?) {
    t.Fork? ==>
      && t.node in m && m[t.node] == Cell(p, Root(t.left), Root(t.right), t.red)
      && Rep(m, t.left, t.node) && Rep(m, t.right, t.node)
  }

  ghost predicate RepPath(m: Cells, c: Path, hole: Node?) {
    match c
    case Top => true
    case InLeft(n, red, right, up) =>
      && n in m && m[n] == Cell(Parent(up), hole, Root(right), red)
      && Rep(m, right, n) && RepPath(m, up, n)
    case InRight(left, n, red, up) =>
      && n in m && m[n] == Cell(Parent(up), Root(left), hole, red)
      && Rep(m, left, n) && RepPath(m, up, n)
  }

  ghost function TopNode(c: Path, hole: Node?): Node? {
    if c.Top? then hole else TopNode(c.up, c.node)
  }

  /** The cells hold the subtree t under the path c, below the given root. */
  ghost predicate Holds(m: Cells, root: Node?, c: Path, t: Shape) {
    && RepPath(m, c, Root(t)) && Rep(m, t, Parent(c))
    && root == TopNode(c, Root(t))
    && Sep(t) && PathSep(c) && PathNodes(c) !! Nodes(t)
  }

  // ---- frames

  lemma {:induction false} RepFrame(m: Cells, m': Cells, t: Shape, p: Node?)
    requires Rep(m, t, p) && Same(m, m', Nodes(t))
    ensures Rep(m', t, p)
  {
    if t.Fork? {
      RepFrame(m, m', t.left, t.node);
      RepFrame(m, m', t.right, t.node);
    }
  }

  lemma {:induction false} RepPathFrame(m: Cells, m': Cells, c: Path, hole: Node?)
    requires RepPath(m, c, hole) && Same(m, m', PathNodes(c))
    ensures RepPath(m', c, hole)
  {
    if !c.Top? {
      RepFrame(m, m', Sibling(c), c.node);
      RepPathFrame(m, m', c.up, c.node);
    }
  }

  lemma {:induction false} RepKeys(m: Cells, t: Shape, p: Node?)
    requires Rep(m, t, p)
    ensures Nodes(t) <= m.Keys
  {
    if t.Fork? {
      RepKeys(m, t.left, t.node);
      RepKeys(m, t.right, t.node);
    }
  }

  lemma {:induction false} RepPathKeys(m: Cells, c: Path, hole: Node?)
    requires RepPath(m, c, hole)
    ensures PathNodes(c) <= m.Keys
  {
    if !c.Top? {
      RepKeys(m, Sibling(c), c.node);
      RepPathKeys(m, c.up, c.node);
    }
  }

  lemma Untouched(m: Cells, m': Cells, s: set<Node>, t: Shape, p: Node?)
    requires Rep(m, t, p) && Touched(m, m', s) && Nodes(t) !! s
    ensures Rep(m', t, p)
  {
    RepKeys(m, t, p);
    RepFrame(m, m', t, p);
  }

  lemma UntouchedPath(m: Cells, m': Cells, s: set<Node>, c: Path, hole: Node?)
    requires RepPath(m, c, hole) && Touched(m, m', s) && PathNodes(c) !! s
    ensures RepPath(m', c, hole)
  {
    RepPathKeys(m, c, hole);
    RepPathFrame(m, m', c, hole);
  }

  lemma HoldsFrame(m: Cells, m': Cells, root: Node?, c: Path, t: Shape)
    requires Holds(m, root, c, t) && Same(m, m', PathNodes(c) + Nodes(t))
    ensures Holds(m', root, c, t)
  {
    RepFrame(m, m', t, Parent(c));
    RepPathFrame(m, m', c, Root(t));
  }

  // ---- moving the focus

  lemma {:induction false} HoldsPlug(m: Cells, root: Node?, c: Path, t: Shape)
    ensures Holds(m, root, c, t) <==> Holds(m, root, Top, Plug(c, t))
  {
    match c
    case Top =>
    case InLeft(n, red, right, up) =>
      Refocus(m, root, up, t, n, red, right);
      HoldsPlug(m, root, up, Fork(t, n, red, right));
    case InRight(left, n, red, up) =>
      Refocus(m, root, up, left, n, red, t);
      HoldsPlug(m, root, up, Fork(left, n, red, t));
  }

  lemma Refocus(m: Cells, root: Node?, c: Path, l: Shape, n: Node, red: bool, r: Shape)
    ensures Holds(m, root, c, Fork(l, n, red, r)) <==> Holds(m, root, InLeft(n, red, r, c), l)
    ensures Holds(m, root, c, Fork(l, n, red, r)) <==> Holds(m, root, InRight(l, n, red, c), r)
    ensures PathNodes(InLeft(n, red, r, c)) + Nodes(l) == PathNodes(c) + Nodes(Fork(l, n, red, r))
    ensures PathNodes(InRight(l, n, red, c)) + Nodes(r) == PathNodes(c) + Nodes(Fork(l, n, red, r))
  {
  }

  lemma {:induction false} TopInPath(c: Path, hole: Node?)
    requires !c.Top?
    ensures TopNode(c, hole) in PathNodes(c)
  {
    if !c.up.Top? {
      TopInPath(c.up, c.node);
    }
  }

  // ---- single steps

  lemma Recoloured(m: Cells, m': Cells, root: Node?, c: Path, t: Shape, red: bool)
    requires Holds(m, root, c, t) && t.Fork?
    requires Touched(m, m', {t.node}) && t.node in m && m'[t.node] == m[t.node].(red := red)
    ensures Holds(m', root, c, t.(red := red))
  {
    Untouched(m, m', {t.node}, t.left, t.node);
    Untouched(m, m', {t.node}, t.right, t.node);
    UntouchedPath(m, m', {t.node}, c, t.node);
    assert Nodes(t.(red := red)) == Nodes(t);
  }

  /** m' has the child link above the focus of c set to y. */
  ghost predicate Relinked(m: Cells, m': Cells, c: Path, y: Node?) {
    !c.Top? ==>
      && c.node in m && c.node in m'
      && m'[c.node] == if c.InLeft? then m[c.node].(left := y) else m[c.node].(right := y)
  }

  lemma RelinkPath(m: Cells, m': Cells, s: set<Node>, c: Path, x: Node?, y: Node?)
    requires RepPath(m, c, x) && PathSep(c) && Relinked(m, m', c, y)
    requires Touched(m, m', s) && PathNodes(c) !! s - Opt(Parent(c))
    ensures RepPath(m', c, y)
  {
    if !c.Top? {
      Untouched(m, m', s, Sibling(c), c.node);
      UntouchedPath(m, m', s, c.up, c.node);
    }
  }

  ghost predicate Reparented(m: Cells, m': Cells, t: Shape, p: Node?) {
    t.Fork? ==> t.node in m && t.node in m' && m'[t.node] == m[t.node].(parent := p)
  }

  lemma Reparent(m: Cells, m': Cells, s: set<Node>, t: Shape, p: Node?, p': Node?)
    requires Rep(m, t, p) && Sep(t) && Reparented(m, m', t, p')
    requires Touched(m, m', s) && Nodes(t) !! s - Opt(Root(t))
    ensures Rep(m', t, p')
  {
    if t.Fork? {
      Untouched(m, m', s, t.left, t.node);
      Untouched(m, m', s, t.right, t.node);
    }
  }

  // ---- rotations

  lemma RotationSep(a: Shape, x: Node, b: Shape, y: Node, d: Shape, p: bool, q: bool)
    ensures Sep(Fork(a, x, p, Fork(b, y, q, d))) <==> Sep(Fork(Fork(a, x, p, b), y, q, d))
    ensures Nodes(Fork(a, x, p, Fork(b, y, q, d))) == Nodes(Fork(Fork(a, x, p, b), y, q, d))
       == Nodes(a) + {x} + Nodes(b) + {y} + Nodes(d)
    ensures Sep(Fork(a, x, p, Fork(b, y, q, d))) ==>
      && x != y && x !in Nodes(a) + Nodes(b) + Nodes(d) && y !in Nodes(a) + Nodes(b) + Nodes(d)
      && Nodes(a) !! Nodes(b) && Nodes(a) !! Nodes(d) && Nodes(b) !! Nodes(d)
      && Sep(a) && Sep(b) && Sep(d)
  {
    assert Nodes(Fork(b, y, q, d)) == Nodes(b) + {y} + Nodes(d);
    assert Nodes(Fork(a, x, p, b)) == Nodes(a) + {x} + Nodes(b);
  }

  /** What either rotation leaves of the pieces around nodes x and y. */
  lemma RotationPieces(m: Cells, m': Cells, s: set<Node>, c: Path, hole: Node, hole': Node,
                       a: Shape, x: Node, b: Shape, bp: Node, bp': Node, y: Node, d: Shape)
    requires Rep(m, a, x) && Rep(m, b, bp) && Rep(m, d, y) && RepPath(m, c, hole)
    requires Sep(b) && PathSep(c)
    requires Nodes(a) !! s && Nodes(d) !! s && Nodes(b) !! s - Opt(Root(b)) && PathNodes(c) !! s - Opt(Parent(c))
    requires Touched(m, m', s) && Reparented(m, m', b, bp') && Relinked(m, m', c, hole')
    ensures Rep(m', a, x) && Rep(m', b, bp') && Rep(m', d, y) && RepPath(m', c, hole')
  {
    Untouched(m, m', s, a, x);
    Untouched(m, m', s, d, y);
    Reparent(m, m', s, b, bp, bp');
    RelinkPath(m, m', s, c, hole, hole');
  }

  lemma LeftFacts(m: Cells, root: Node?, c: Path, t: Shape)
    requires Holds(m, root, c, t) && t.Fork? && t.right.Fork?
    ensures var x, y, b, p := t.node, t.right.node, Root(t.right.left), Parent(c);
      && x in m && y in m && Opt(b) <= m.Keys && Opt(p) <= m.Keys
      && m[x] == Cell(p, Root(t.left), y, t.red)
      && m[y] == Cell(x, b, Root(t.right.right), t.right.red)
      && x != y && b != x && b != y && p != x && p != y && (p != null ==> p != b)
      && (c.InLeft? ==> m[p].left == x)
      && (c.InRight? ==> m[p].right == x && m[p].left != x)
  {
    assert Rep(m, t.right, t.node) && Sep(t.right) && Rep(m, t.right.left, t.right.node);
    PathFacts(m, c, t.node);
  }

  lemma RightFacts(m: Cells, root: Node?, c: Path, t: Shape)
    requires Holds(m, root, c, t) && t.Fork? && t.left.Fork?
    ensures var x, y, b, p := t.left.node, t.node, Root(t.left.right), Parent(c);
      && x in m && y in m && Opt(b) <= m.Keys && Opt(p) <= m.Keys
      && m[y] == Cell(p, x, Root(t.right), t.red)
      && m[x] == Cell(y, Root(t.left.left), b, t.left.red)
      && x != y && b != x && b != y && p != x && p != y && (p != null ==> p != b)
      && (c.InLeft? ==> m[p].left == y && m[p].right != y)
      && (c.InRight? ==> m[p].right == y)
  {
    assert Rep(m, t.left, t.node) && Sep(t.left) && Rep(m, t.left.right, t.left.node);
    PathFacts(m, c, t.node);
  }

  /** The parent of a focus tells by its child links which side the focus is on. */
  lemma PathFacts(m: Cells, c: Path, x: Node)
    requires RepPath(m, c, x) && x !in PathNodes(c)
    ensures c.InLeft? ==> c.node in m && m[c.node].left == x && m[c.node].right != x
    ensures c.InRight? ==> c.node in m && m[c.node].right == x && m[c.node].left != x
  {
    if !c.Top? {
      assert Root(Sibling(c)) == null || Root(Sibling(c)) in Nodes(Sibling(c));
    }
  }

  lemma LeftRotated(m: Cells, m': Cells, root: Node?, root': Node?, c: Path, t: Shape)
    requires Holds(m, root, c, t) && t.Fork? && t.right.Fork?
    requires var x, y, b, p := t.node, t.right.node, t.right.left, Parent(c);
      && Touched(m, m', {x, y} + Opt(Root(b)) + Opt(p))
      && x in m && m'[x] == Cell(y, Root(t.left), Root(b), t.red)
      && y in m && m'[y] == Cell(p, x, Root(t.right.right), t.right.red)
      && Reparented(m, m', b, x) && Relinked(m, m', c, y)
      && root' == if p == null then y else root
    ensures Holds(m', root', c, RotL(t))
  {
    var a, b, d, x, y := t.left, t.right.left, t.right.right, t.node, t.right.node;
    RotationSep(a, x, b, y, d, t.red, t.right.red);
    assert Rep(m, t.right, x);
    RotationPieces(m, m', {x, y} + Opt(Root(b)) + Opt(Parent(c)), c, x, y, a, x, b, y, x, y, d);
  }

  lemma RightRotated(m: Cells, m': Cells, root: Node?, root': Node?, c: Path, t: Shape)
    requires Holds(m, root, c, t) && t.Fork? && t.left.Fork?
    requires var x, y, b, p := t.left.node, t.node, t.left.right, Parent(c);
      && Touched(m, m', {x, y} + Opt(Root(b)) + Opt(p))
      && y in m && m'[y] == Cell(x, Root(b), Root(t.right), t.red)
      && x in m && m'[x] == Cell(p, Root(t.left.left), y, t.left.red)
      && Reparented(m, m', b, y) && Relinked(m, m', c, x)
      && root' == if p == null then x else root
    ensures Holds(m', root', c, RotR(t))
  {
    var a, b, d, x, y := t.left.left, t.left.right, t.right, t.left.node, t.node;
    RotationSep(a, x, b, y, d, t.left.red, t.red);
    assert Rep(m, t.left, y);
    RotationPieces(m, m', {x, y} + Opt(Root(b)) + Opt(Parent(c)), c, y, x, a, x, b, x, y, y, d);
  }

  // ---- adding and taking out a node

  /** Hanging a fresh red leaf node at an empty place. */
  lemma Grafted(m: Cells, m': Cells, root: Node?, root': Node?, c: Path, z: Node)
    requires Holds(m, root, c, Leaf) && z !in m
    requires m'.Keys == m.Keys + {z} && m'[z] == Cell(Parent(c), null, null, true)
    requires Relinked(m, m', c, z)
    requires forall n :: n in m && n !in Opt(Parent(c)) ==> m'[n] == m[n]
    requires root' == if c.Top? then z else root
    ensures Holds(m', root', c, Fork(Leaf, z, true, Leaf))
  {
    var m1 := m' - {z};
    RepPathKeys(m, c, null);
    RelinkPath(m, m1, Opt(Parent(c)), c, null, z);
    RepPathFrame(m1, m', c, z);
  }

  /** Replacing a node that has at most one child by that child. */
  lemma Spliced(m: Cells, m': Cells, root: Node?, root': Node?, c: Path, t: Shape, v: Shape)
    requires Holds(m, root, c, t) && t.Fork?
    requires (t.left.Leaf? && v == t.right) || (t.right.Leaf? && v == t.left)
    requires Touched(m, m', Opt(Parent(c)) + Opt(Root(v)))
    requires Relinked(m, m', c, Root(v)) && Reparented(m, m', v, Parent(c))
    requires root' == if c.Top? then Root(v) else root
    ensures Holds(m', root', c, v)
    ensures PathNodes(c) + Nodes(v) == PathNodes(c) + Nodes(t) - {t.node}
  {
    var s := Opt(Parent(c)) + Opt(Root(v));
    assert Rep(m, v, t.node) && Sep(v);
    RelinkPath(m, m', s, c, t.node, Root(v));
    Reparent(m, m', s, v, t.node, Parent(c));
  }

  /** Node y takes the place of z above the subtrees l and r. */
  lemma Seated(m: Cells, m': Cells, s: set<Node>, c: Path, l: Shape, z: Node, y: Node, red: bool, r: Shape)
    requires RepPath(m, c, z) && PathSep(c) && Rep(m, l, z) && Sep(l)
    requires Touched(m, m', s) && PathNodes(c) !! s - Opt(Parent(c)) && Nodes(l) !! s - Opt(Root(l))
    requires y in m' && m'[y] == Cell(Parent(c), Root(l), Root(r), red) && Rep(m', r, y)
    requires Relinked(m, m', c, y) && Reparented(m, m', l, y)
    ensures RepPath(m', c, y) && Rep(m', Fork(l, y, red, r), Parent(c))
  {
    RelinkPath(m, m', s, c, z, y);
    Reparent(m, m', s, l, z, y);
  }

  /** Flat facts about a node with two children. */
  /** A node and its only child, as the cells show them. */
  lemma OnlyChild(m: Cells, root: Node?, c: Path, t: Shape, v: Shape)
    requires Holds(m, root, c, t) && t.Fork?
    requires (t.left.Leaf? && v == t.right) || (t.right.Leaf? && v == t.left)
    ensures t.node in m && m[t.node].parent == Parent(c) && Parent(c) != t.node && Opt(Parent(c)) <= m.Keys
    ensures v.Fork? ==> v.node in m && v.node != t.node && v.node != Parent(c)
    ensures c.InLeft? ==> m[c.node].left == t.node && m[c.node].right != t.node
    ensures c.InRight? ==> m[c.node].right == t.node && m[c.node].left != t.node
  {
    PathFacts(m, c, t.node);
    assert v.Fork? ==> v.node in Nodes(v) && Nodes(v) <= Nodes(t);
    assert v.Fork? ==> Rep(m, v, t.node);
  }

  /** The right child of z, which has no left child. */
  lemma RightOnly(m: Cells, root: Node?, c: Path, l: Shape, z: Node, red: bool, y: Node, yred: bool, b: Shape)
    requires Holds(m, root, c, Fork(l, z, red, Fork(Leaf, y, yred, b)))
    ensures y in m && m[y] == Cell(z, null, Root(b), yred) && Opt(Root(b)) <= m.Keys
  {
    assert Rep(m, Fork(Leaf, y, yred, b), z) && Rep(m, b, y);
  }

  lemma ForkFacts(m: Cells, root: Node?, c: Path, l: Shape, z: Node, red: bool, r: Shape)
    requires Holds(m, root, c, Fork(l, z, red, r)) && l.Fork? && r.Fork?
    ensures z in m && m[z] == Cell(Parent(c), l.node, r.node, red)
    ensures l.node in m && r.node in m && Opt(Parent(c)) <= m.Keys
    ensures l.node != z && r.node != z && l.node != r.node && Parent(c) != z && Parent(c) != l.node
      && Parent(c) != r.node
    ensures c.InLeft? ==> m[c.node].left == z && m[c.node].right != z
    ensures c.InRight? ==> m[c.node].right == z && m[c.node].left != z
  {
    assert l.node in Nodes(l) && r.node in Nodes(r);
    assert Rep(m, l, z) && Rep(m, r, z);
    PathFacts(m, c, z);
  }

  lemma SeatedFar(m: Cells, m': Cells, root: Node?, root': Node?, c: Path, l: Shape, z: Node, y: Node, red: bool,
                  r: Shape)
    requires Holds(m, root, c, Fork(l, z, red, r)) && l.Fork? && r.Fork?
    requires y !in PathNodes(c) + Nodes(Fork(l, z, red, r))
    requires Touched(m, m', {y, l.node, r.node} + Opt(Parent(c)))
    requires y in m' && m'[y] == Cell(Parent(c), l.node, r.node, red)
    requires Relinked(m, m', c, y) && Reparented(m, m', l, y) && Reparented(m, m', r, y)
    requires root' == if c.Top? then y else root
    ensures Holds(m', root', c, Fork(l, y, red, r))
  {
    var s := {y, l.node, r.node} + Opt(Parent(c));
    assert l.node in Nodes(l) && r.node in Nodes(r);
    Reparent(m, m', s, r, z, y);
    Seated(m, m', s, c, l, z, y, red, r);
  }

  lemma SeatedNear(m: Cells, m': Cells, root: Node?, root': Node?, c: Path, l: Shape, z: Node, y: Node, red: bool,
                   yred: bool, b: Shape)
    requires Holds(m, root, c, Fork(l, z, red, Fork(Leaf, y, yred, b))) && l.Fork?
    requires Touched(m, m', {y, l.node} + Opt(Parent(c)))
    requires y in m' && m'[y] == Cell(Parent(c), l.node, Root(b), red)
    requires Relinked(m, m', c, y) && Reparented(m, m', l, y)
    requires root' == if c.Top? then y else root
    ensures Holds(m', root', c, Fork(l, y, red, b))
  {
    var s := {y, l.node} + Opt(Parent(c));
    var r := Fork(Leaf, y, yred, b);
    assert l.node in Nodes(l) && Nodes(r) == {y} + Nodes(b) && Sep(r);
    assert Rep(m, r, z);
    Untouched(m, m', s, b, y);
    Seated(m, m', s, c, l, z, y, red, b);
  }
}
