/**
 The value-level side of the red-black tree of kernel/src/lib/rbtree.c: shapes of
 trees, paths from a subtree up to the root (a zipper), in-order contents and the
 colour rules.  Nothing here reads the mutable fields of a node.
 */
module RbShape {
  import opened Words
  import opened Pow

  /** An intrusive tree node.  The key is fixed by the container before insertion. */
  class Node {
    const key: u64
    var parent: Node?
    var left: Node?
    var right: Node?
    var red: bool

    constructor (key: u64)
      ensures this.key == key && parent == null && left == null && right == null && !red
    {
      this.key := key;
      parent, left, right, red := null, null, null, false;
    }
  }

  datatype Shape = Leaf | Fork(left: Shape, node: Node, red: bool, right: Shape)

  /** What surrounds a subtree: the chain of its ancestors with their other subtrees. */
  datatype Path =
    | Top
    | InLeft(node: Node, red: bool, right: Shape, up: Path)
    | InRight(left: Shape, node: Node, red: bool, up: Path)

  ghost function Root(t: Shape): Node? {
    if t.Leaf? then null else t.node
  }

  ghost function Parent(c: Path): Node? {
    if c.Top? then null else c.node
  }

  ghost function Sibling(c: Path): Shape
    requires !c.Top?
  {
    if c.InLeft? then c.right else c.left
  }

  ghost function Plug(c: Path, t: Shape): Shape {
    match c
    case Top => t
    case InLeft(n, red, right, up) => Plug(up, Fork(t, n, red, right))
    case InRight(left, n, red, up) => Plug(up, Fork(left, n, red, t))
  }

  ghost function Nodes(t: Shape): set<Node> {
    match t
    case Leaf => {}
    case Fork(l, n, _, r) => Nodes(l) + {n} + Nodes(r)
  }

  ghost function PathNodes(c: Path): set<Node> {
    match c
    case Top => {}
    case InLeft(n, _, r, up) => {n} + Nodes(r) + PathNodes(up)
    case InRight(l, n, _, up) => {n} + Nodes(l) + PathNodes(up)
  }

  /** No node occurs twice. */
  ghost predicate Sep(t: Shape) {
    match t
    case Leaf => true
    case Fork(l, n, _, r) =>
      n !in Nodes(l) && n !in Nodes(r) && Nodes(l) !! Nodes(r) && Sep(l) && Sep(r)
  }

  ghost predicate PathSep(c: Path) {
    match c
    case Top => true
    case InLeft(n, _, r, up) =>
      n !in Nodes(r) && n !in PathNodes(up) && Nodes(r) !! PathNodes(up) && Sep(r) && PathSep(up)
    case InRight(l, n, _, up) =>
      n !in Nodes(l) && n !in PathNodes(up) && Nodes(l) !! PathNodes(up) && Sep(l) && PathSep(up)
  }

  ghost function Depth(c: Path): nat {
    if c.Top? then 0 else 1 + Depth(c.up)
  }

  /** The path p continued by c above it. */
  ghost function Append(p: Path, c: Path): Path {
    match p
    case Top => c
    case InLeft(n, red, right, up) => InLeft(n, red, right, Append(up, c))
    case InRight(left, n, red, up) => InRight(left, n, red, Append(up, c))
  }

  lemma {:induction false} PlugAppend(p: Path, c: Path, t: Shape)
    ensures Plug(Append(p, c), t) == Plug(c, Plug(p, t))
  {
    match p
    case Top =>
    case InLeft(n, red, right, up) => PlugAppend(up, c, Fork(t, n, red, right));
    case InRight(left, n, red, up) => PlugAppend(up, c, Fork(left, n, red, t));
  }

  /** Left steps only. */
  ghost predicate Spine(p: Path) {
    !p.Top? ==> p.InLeft? && Spine(p.up)
  }

  // ---- in-order contents

  ghost function Inorder(t: Shape): seq<Node> {
    match t
    case Leaf => []
    case Fork(l, n, _, r) => Inorder(l) + [n] + Inorder(r)
  }

  ghost function Before(c: Path): seq<Node> {
    match c
    case Top => []
    case InLeft(_, _, _, up) => Before(up)
    case InRight(l, n, _, up) => Before(up) + Inorder(l) + [n]
  }

  ghost function After(c: Path): seq<Node> {
    match c
    case Top => []
    case InLeft(n, _, r, up) => [n] + Inorder(r) + After(up)
    case InRight(_, _, _, up) => After(up)
  }

  ghost predicate Sorted(s: seq<Node>) {
    forall i, j :: 0 <= i < j < |s| ==> s[i].key < s[j].key
  }

  lemma Regroup(p: seq<Node>, a: seq<Node>, n: Node, b: seq<Node>, q: seq<Node>)
    ensures p + (a + [n] + b) + q == p + a + ([n] + b + q)
    ensures p + (a + [n] + b) + q == (p + a + [n]) + b + q
  {
  }

  /** s' is s with the one element n put in somewhere. */
  ghost predicate Added(s: seq<Node>, s': seq<Node>, n: Node) {
    exists i :: 0 <= i <= |s| && s' == s[..i] + [n] + s[i..]
  }

  lemma {:induction false} PlugInorder(c: Path, t: Shape)
    ensures Inorder(Plug(c, t)) == Before(c) + Inorder(t) + After(c)
  {
    match c
    case Top =>
    case InLeft(n, red, right, up) =>
      PlugInorder(up, Fork(t, n, red, right));
      Regroup(Before(up), Inorder(t), n, Inorder(right), After(up));
    case InRight(left, n, red, up) =>
      PlugInorder(up, Fork(left, n, red, t));
      Regroup(Before(up), Inorder(left), n, Inorder(t), After(up));
  }

  lemma {:induction false} NodesAreInorder(t: Shape)
    ensures forall n :: n in Nodes(t) ==> n in Inorder(t)
    ensures forall n :: n in Inorder(t) ==> n in Nodes(t)
  {
    if t.Fork? {
      NodesAreInorder(t.left);
      NodesAreInorder(t.right);
    }
  }

  // ---- rotations

  ghost function RotL(t: Shape): Shape
    requires t.Fork? && t.right.Fork?
  {
    Fork(Fork(t.left, t.node, t.red, t.right.left), t.right.node, t.right.red, t.right.right)
  }

  ghost function RotR(t: Shape): Shape
    requires t.Fork? && t.left.Fork?
  {
    Fork(t.left.left, t.left.node, t.left.red, Fork(t.left.right, t.node, t.red, t.right))
  }

  /** A rotation keeps the in-order contents. */
  lemma RotationInorder(a: Shape, x: Node, p: bool, b: Shape, y: Node, q: bool, d: Shape)
    ensures Inorder(Fork(Fork(a, x, p, b), y, q, d)) == Inorder(Fork(a, x, p, Fork(b, y, q, d)))
  {
    calc {
      Inorder(Fork(Fork(a, x, p, b), y, q, d));
      (Inorder(a) + [x] + Inorder(b)) + [y] + Inorder(d);
      Inorder(a) + [x] + (Inorder(b) + [y] + Inorder(d));
      Inorder(Fork(a, x, p, Fork(b, y, q, d)));
    }
  }

  lemma {:induction false} PlugNodes(c: Path, t: Shape)
    ensures Nodes(Plug(c, t)) == PathNodes(c) + Nodes(t)
  {
    match c
    case Top =>
    case InLeft(n, red, right, up) => PlugNodes(up, Fork(t, n, red, right));
    case InRight(left, n, red, up) => PlugNodes(up, Fork(left, n, red, t));
  }

  lemma SortedAppend(a: seq<Node>, b: seq<Node>)
    ensures Sorted(a + b) <==>
      Sorted(a) && Sorted(b) && forall x, y :: x in a && y in b ==> x.key < y.key
  {
    var s := a + b;
    if Sorted(s) {
      forall i, j | 0 <= i < j < |a| ensures a[i].key < a[j].key {
        assert s[i] == a[i] && s[j] == a[j];
      }
      forall i, j | 0 <= i < j < |b| ensures b[i].key < b[j].key {
        assert s[|a| + i] == b[i] && s[|a| + j] == b[j];
      }
      forall x, y | x in a && y in b ensures x.key < y.key {
        var i :| 0 <= i < |a| && a[i] == x;
        var j :| 0 <= j < |b| && b[j] == y;
        assert s[i] == x && s[|a| + j] == y;
      }
    }
  }

  /** Sortedness around one element. */
  lemma SortedAround(l: seq<Node>, n: Node, r: seq<Node>)
    ensures Sorted(l + [n] + r) <==>
      && Sorted(l) && Sorted(r)
      && (forall x :: x in l ==> x.key < n.key)
      && (forall y :: y in r ==> n.key < y.key)
  {
    SortedAppend(l + [n], r);
    SortedAppend(l, [n]);
    assert n in l + [n];
  }

  /** The nodes left of the focus have smaller keys than k, those right of it larger ones. */
  ghost predicate Bracket(c: Path, k: u64) {
    && (forall n :: n in Before(c) ==> n.key < k)
    && (forall n :: n in After(c) ==> k < n.key)
  }

  lemma SortedFocus(c: Path, t: Shape)
    requires Sorted(Inorder(Plug(c, t)))
    ensures Sorted(Inorder(t))
    ensures t.Fork? ==> forall n :: n in Inorder(t.left) ==> n.key < t.node.key
    ensures t.Fork? ==> forall n :: n in Inorder(t.right) ==> t.node.key < n.key
  {
    PlugInorder(c, t);
    SortedAppend(Before(c) + Inorder(t), After(c));
    SortedAppend(Before(c), Inorder(t));
    if t.Fork? {
      SortedAround(Inorder(t.left), t.node, Inorder(t.right));
    }
  }

  /** One step of the search loops keeps the bracket. */
  lemma BracketStep(c: Path, t: Shape, k: u64)
    requires Sorted(Inorder(Plug(c, t))) && t.Fork? && Bracket(c, k)
    ensures k < t.node.key ==> Bracket(InLeft(t.node, t.red, t.right, c), k)
    ensures t.node.key < k ==> Bracket(InRight(t.left, t.node, t.red, c), k)
  {
    SortedFocus(c, t);
    var l, r := InLeft(t.node, t.red, t.right, c), InRight(t.left, t.node, t.red, c);
    assert forall n :: n in After(l) ==> n == t.node || n in Inorder(t.right) || n in After(c);
    assert forall n :: n in Before(r) ==> n == t.node || n in Inorder(t.left) || n in Before(c);
  }

  /** At a leaf the bracket leaves no room for the key. */
  lemma BracketEmpty(c: Path, k: u64)
    requires Bracket(c, k)
    ensures Inorder(Plug(c, Leaf)) == Before(c) + After(c)
    ensures forall n :: n in Inorder(Plug(c, Leaf)) ==> n.key != k
  {
    PlugInorder(c, Leaf);
    assert Before(c) + [] + After(c) == Before(c) + After(c);
  }

  /** A node with the bracketed key fits there. */
  lemma BracketLeaf(c: Path, z: Node, red: bool)
    requires Sorted(Inorder(Plug(c, Leaf))) && Bracket(c, z.key)
    ensures Inorder(Plug(c, Leaf)) == Before(c) + After(c)
    ensures Inorder(Plug(c, Fork(Leaf, z, red, Leaf))) == Before(c) + [z] + After(c)
    ensures Sorted(Before(c) + [z] + After(c))
    ensures c.InLeft? ==> z.key < c.node.key
    ensures c.InRight? ==> c.node.key < z.key
  {
    BracketEmpty(c, z.key);
    PlugInorder(c, Fork(Leaf, z, red, Leaf));
    assert Inorder(Fork(Leaf, z, red, Leaf)) == [z];
    SortedAppend(Before(c), After(c));
    SortedAround(Before(c), z, After(c));
  }

  /** Strictly increasing keys already rule out a repeated node. */
  lemma {:induction false} SortedIsSep(t: Shape)
    requires Sorted(Inorder(t))
    ensures Sep(t)
  {
    if t.Fork? {
      assert Inorder(t) == Inorder(t.left) + [t.node] + Inorder(t.right);
      SortedAround(Inorder(t.left), t.node, Inorder(t.right));
      NodesAreInorder(t.left);
      NodesAreInorder(t.right);
      assert forall x :: x in Nodes(t.left) ==> x.key < t.node.key;
      assert forall x :: x in Nodes(t.right) ==> t.node.key < x.key;
      SortedIsSep(t.left);
      SortedIsSep(t.right);
    }
  }

  lemma {:induction false} SepPlug(c: Path, t: Shape)
    ensures Sep(Plug(c, t)) <==> Sep(t) && PathSep(c) && PathNodes(c) !! Nodes(t)
  {
    match c
    case Top =>
    case InLeft(n, red, right, up) => SepPlug(up, Fork(t, n, red, right));
    case InRight(left, n, red, up) => SepPlug(up, Fork(left, n, red, t));
  }

  // ---- colours

  ghost predicate IsRed(t: Shape) { t.Fork? && t.red }

  ghost predicate RedPath(c: Path) { !c.Top? && c.red }

  /** Number of black nodes on the leftmost way down. */
  ghost function Bh(t: Shape): nat {
    if t.Leaf? then 0 else Bh(t.left) + if t.red then 0 else 1
  }

  /** Equal black heights and no red node with a red child. */
  ghost predicate Coloured(t: Shape) {
    t.Fork? ==>
      && Coloured(t.left) && Coloured(t.right)
      && Bh(t.left) == Bh(t.right)
      && (t.red ==> !IsRed(t.left) && !IsRed(t.right))
  }

  ghost predicate RedBlack(t: Shape) {
    Coloured(t) && !IsRed(t)
  }

  /** The path obeys the colour rules around a subtree of black height h, and its top is black. */
  ghost predicate PathColoured(c: Path, h: nat) {
    match c
    case Top => true
    case InLeft(_, red, sib, up) =>
      && Coloured(sib) && Bh(sib) == h
      && (red ==> !IsRed(sib) && !up.Top? && !up.red)
      && PathColoured(up, h + if red then 0 else 1)
    case InRight(sib, _, red, up) =>
      && Coloured(sib) && Bh(sib) == h
      && (red ==> !IsRed(sib) && !up.Top? && !up.red)
      && PathColoured(up, h + if red then 0 else 1)
  }

  lemma {:induction false} PlugColoured(c: Path, t: Shape)
    requires Coloured(t) && PathColoured(c, Bh(t))
    requires IsRed(t) ==> !c.Top? && !c.red
    ensures RedBlack(Plug(c, t))
  {
    match c
    case Top =>
    case InLeft(n, red, right, up) => PlugColoured(up, Fork(t, n, red, right));
    case InRight(left, n, red, up) => PlugColoured(up, Fork(left, n, red, t));
  }

  lemma {:induction false} UnplugColoured(c: Path, t: Shape)
    requires RedBlack(Plug(c, t))
    ensures Coloured(t) && PathColoured(c, Bh(t))
    ensures IsRed(t) ==> !c.Top? && !c.red
  {
    match c
    case Top =>
    case InLeft(n, red, right, up) => UnplugColoured(up, Fork(t, n, red, right));
    case InRight(left, n, red, up) => UnplugColoured(up, Fork(left, n, red, t));
  }

  // ---- height

  ghost function Height(t: Shape): nat {
    if t.Leaf? then 0 else 1 + if Height(t.left) < Height(t.right) then Height(t.right) else Height(t.left)
  }

  /** At most every other node on a way down is red, and the black levels are full. */
  lemma {:induction false} HeightBound(t: Shape)
    requires Coloured(t)
    ensures Height(t) <= 2 * Bh(t) + if IsRed(t) then 1 else 0
    ensures Pow2(Bh(t)) <= |Inorder(t)| + 1
  {
    if t.Fork? {
      HeightBound(t.left);
      HeightBound(t.right);
    }
  }

  lemma {:induction false} DepthBound(c: Path, t: Shape)
    ensures Depth(c) + Height(t) <= Height(Plug(c, t))
  {
    match c
    case Top =>
    case InLeft(n, red, right, up) => DepthBound(up, Fork(t, n, red, right));
    case InRight(left, n, red, up) => DepthBound(up, Fork(left, n, red, t));
  }

  /** d <= 2*log2(n+1), without logarithms. */
  ghost predicate WithinLog(d: nat, n: nat) {
    Pow2(d) <= (n + 1) * (n + 1)
  }

  /** A way down in a red-black tree of n nodes visits at most 2*log2(n+1) of them. */
  lemma SearchBound(c: Path, t: Shape, d: nat)
    requires RedBlack(Plug(c, t)) && d <= Depth(c) + Height(t)
    ensures WithinLog(d, |Inorder(Plug(c, t))|)
  {
    var w := Plug(c, t);
    HeightBound(w);
    DepthBound(c, t);
    Pow2Monotone(d, Bh(w) + Bh(w));
    Pow2Add(Bh(w), Bh(w));
    MulMonotone(Pow2(Bh(w)), |Inorder(w)| + 1);
  }

  lemma MulMonotone(a: nat, b: nat)
    requires a <= b
    ensures a * a <= b * b
  {
    assert a * a <= a * b <= b * b;
  }

  /** The path to a given node. */
  lemma {:induction false} Locate(t: Shape, c: Path, n: Node) returns (c': Path, s: Shape)
    requires n in Nodes(t)
    ensures Plug(c', s) == Plug(c, t) && s.Fork? && s.node == n
  {
    if t.node == n {
      c', s := c, t;
    } else if n in Nodes(t.left) {
      c', s := Locate(t.left, InLeft(t.node, t.red, t.right, c), n);
    } else {
      c', s := Locate(t.right, InRight(t.left, t.node, t.red, c), n);
    }
  }

  /** r is the element after n in s, null after the last. */
  ghost predicate IsNext(s: seq<Node>, n: Node, r: Node?) {
    && (forall i :: 0 <= i < |s| - 1 && s[i] == n ==> r == s[i + 1])
    && (s != [] && s[|s| - 1] == n ==> r == null)
  }

  lemma NextInSeq(a: seq<Node>, n: Node, b: seq<Node>)
    requires Sorted(a + [n] + b)
    ensures IsNext(a + [n] + b, n, if b == [] then null else b[0])
  {
    var s := a + [n] + b;
    forall i | 0 <= i < |s| && s[i] == n ensures i == |a| {
      assert s[|a|] == n;
    }
  }

  lemma RegroupAround(p: seq<Node>, l: seq<Node>, n: Node, r: seq<Node>, q: seq<Node>)
    ensures p + (l + [n] + r) + q == (p + l) + [n] + (r + q)
  {
  }

  /** What follows the focus in key order. */
  lemma NextOf(c: Path, t: Shape)
    requires t.Fork? && Sorted(Inorder(Plug(c, t)))
    ensures var s := Inorder(t.right) + After(c);
      IsNext(Inorder(Plug(c, t)), t.node, if s == [] then null else s[0])
  {
    PlugInorder(c, t);
    RegroupAround(Before(c), Inorder(t.left), t.node, Inorder(t.right), After(c));
    NextInSeq(Before(c) + Inorder(t.left), t.node, Inorder(t.right) + After(c));
  }
}
