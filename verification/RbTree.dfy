/** The red-black tree of kernel/src/lib/rbtree.c, relinked in place. */
module RbTree {
  import opened Words
  import opened RbShape
  import opened RbLinks
  import opened RbColour

  ghost function Snapshot(s: set<Node>): Cells
    reads s
  {
    map n | n in s :: Cell(n.parent, n.left, n.right, n.red)
  }

  class Tree {
    var root: Node?
    ghost var shape: Shape
    ghost var nodes: set<Node>

    /** The heap holds exactly the subtree t under the path c. */
    ghost predicate At(c: Path, t: Shape)
      reads this, nodes
    {
      Holds(Snapshot(nodes), root, c, t) && nodes == PathNodes(c) + Nodes(t)
    }

    ghost predicate Valid()
      reads this, nodes
    {
      At(Top, shape) && Sorted(Inorder(shape)) && RedBlack(shape)
    }

    /** The nodes of the tree in key order. */
    ghost function Contents(): seq<Node>
      reads this
    {
      Inorder(shape)
    }

    constructor ()
      ensures Valid() && Contents() == [] && nodes == {}
    {
      root := null;
      shape := Leaf;
      nodes := {};
    }

    // ---- the link updates

    method LeftRotateLinks(x: Node)
      requires x.right != null
      requires var y, b, p := x.right, x.right.left, x.parent;
        x != y && b != x && b != y && p != x && p != y && (p != null ==> p != b)
      modifies this`root, {x, x.right}, Opt(x.right.left), Opt(x.parent)
      ensures var y, b, p := old(x.right), old(x.right.left), old(x.parent);
        && x.parent == y && x.right == b && x.left == old(x.left) && x.red == old(x.red)
        && y.parent == p && y.left == x && y.right == old(y.right) && y.red == old(y.red)
        && (b != null ==> b.parent == x && b.left == old(b.left) && b.right == old(b.right) && b.red == old(b.red))
        && (p != null ==>
             && p.parent == old(p.parent) && p.red == old(p.red)
             && p.left == (if old(p.left) == x then y else old(p.left))
             && p.right == (if old(p.left) == x then old(p.right) else y))
        && root == if p == null then y else old(root)
    {
      var y := x.right;

      x.right := y.left;
      if y.left != null {
        y.left.parent := x;
      }

      y.parent := x.parent;
      if x.parent == null {
        root := y;
      } else if x == x.parent.left {
        x.parent.left := y;
      } else {
        x.parent.right := y;
      }

      y.left := x;
      x.parent := y;
    }

    method RightRotateLinks(x: Node)
      requires x.left != null
      requires var y, b, p := x.left, x.left.right, x.parent;
        x != y && b != x && b != y && p != x && p != y && (p != null ==> p != b)
      modifies this`root, {x, x.left}, Opt(x.left.right), Opt(x.parent)
      ensures var y, b, p := old(x.left), old(x.left.right), old(x.parent);
        && x.parent == y && x.left == b && x.right == old(x.right) && x.red == old(x.red)
        && y.parent == p && y.right == x && y.left == old(y.left) && y.red == old(y.red)
        && (b != null ==> b.parent == x && b.left == old(b.left) && b.right == old(b.right) && b.red == old(b.red))
        && (p != null ==>
             && p.parent == old(p.parent) && p.red == old(p.red)
             && p.right == (if old(p.right) == x then y else old(p.right))
             && p.left == (if old(p.right) == x then old(p.left) else y))
        && root == if p == null then y else old(root)
    {
      var y := x.left;

      x.left := y.right;
      if y.right != null {
        y.right.parent := x;
      }

      y.parent := x.parent;
      if x.parent == null {
        root := y;
      } else if x == x.parent.right {
        x.parent.right := y;
      } else {
        x.parent.left := y;
      }

      y.right := x;
      x.parent := y;
    }

    method TransplantLinks(u: Node, v: Node?)
      requires v != u && u.parent != u && (v != null ==> v != u.parent)
      modifies this`root, Opt(u.parent), Opt(v)
      ensures var p := old(u.parent);
        && root == (if p == null then v else old(root))
        && (p != null ==>
             && p.parent == old(p.parent) && p.red == old(p.red)
             && p.left == (if old(p.left) == u then v else old(p.left))
             && p.right == (if old(p.left) == u then old(p.right) else v))
        && (v != null ==> v.parent == p && v.left == old(v.left) && v.right == old(v.right) && v.red == old(v.red))
    {
      if u.parent == null {
        root := v;
      } else if u == u.parent.left {
        u.parent.left := v;
      } else {
        u.parent.right := v;
      }
      if v != null {
        v.parent := u.parent;
      }
    }

    /** Lines 223-227: y takes over the parent, the left child and the colour of z. */
    method SeatLinks(z: Node, y: Node)
      requires z.left != null && y != z && z.parent != z && z.left != z
      requires y != z.parent && y != z.left && z.left != z.parent
      modifies this`root, Opt(z.parent), y, z.left
      ensures var p, l := old(z.parent), old(z.left);
        && root == (if p == null then y else old(root))
        && (p != null ==>
             && p.parent == old(p.parent) && p.red == old(p.red)
             && p.left == (if old(p.left) == z then y else old(p.left))
             && p.right == (if old(p.left) == z then old(p.right) else y))
        && y.parent == p && y.left == l && y.right == old(y.right) && y.red == z.red
        && l.parent == y && l.left == old(l.left) && l.right == old(l.right) && l.red == old(l.red)
    {
      TransplantLinks(z, y);
      y.left := z.left;
      if y.left != null {
        y.left.parent := y;
      }
      y.red := z.red;
    }

    method LeftRotate(x: Node, ghost c: Path, ghost t: Shape)
      requires At(c, t) && t.Fork? && t.node == x && t.right.Fork?
      modifies this`root, nodes
      ensures At(c, RotL(t))
    {
      ghost var m := Snapshot(nodes);
      LeftFacts(m, root, c, t);
      LeftRotateLinks(x);
      LeftRotated(m, Snapshot(nodes), old(root), root, c, t);
      RotationSep(t.left, x, t.right.left, t.right.node, t.right.right, t.red, t.right.red);
    }

    method RightRotate(x: Node, ghost c: Path, ghost t: Shape)
      requires At(c, t) && t.Fork? && t.node == x && t.left.Fork?
      modifies this`root, nodes
      ensures At(c, RotR(t))
    {
      ghost var m := Snapshot(nodes);
      RightFacts(m, root, c, t);
      RightRotateLinks(x);
      RightRotated(m, Snapshot(nodes), old(root), root, c, t);
      RotationSep(t.left.left, t.left.node, t.left.right, x, t.right, t.left.red, t.red);
    }

    /** The assignment x->red = red. */
    method Paint(x: Node, red: bool, ghost c: Path, ghost t: Shape)
      requires At(c, t) && t.Fork? && t.node == x
      modifies nodes
      ensures At(c, t.(red := red))
    {
      ghost var m := Snapshot(nodes);
      x.red := red;
      Recoloured(m, Snapshot(nodes), root, c, t, red);
    }

    lemma Refocused(c: Path, t: Shape)
      requires !c.Top?
      ensures At(c, t) <==> At(c.up, Frame(c, t))
    {
      if c.InLeft? {
        Refocus(Snapshot(nodes), root, c.up, t, c.node, c.red, c.right);
      } else {
        Refocus(Snapshot(nodes), root, c.up, c.left, c.node, c.red, t);
      }
    }

    /** What the focus and its surroundings look like from the node. */
    lemma Look(c: Path, t: Shape)
      requires At(c, t)
      ensures Root(t) == null || Root(t) in nodes
      ensures t.Fork? ==> t.node.parent == Parent(c) && t.node.left == Root(t.left) && t.node.right == Root(t.right)
      ensures t.Fork? ==> t.node.red == t.red
      ensures !c.Top? ==> c.node in nodes && c.node.red == c.red && c.node.parent == Parent(c.up)
      ensures c.InLeft? ==> c.node.left == Root(t) && c.node.right == Root(c.right)
      ensures c.InRight? ==> c.node.right == Root(t) && c.node.left == Root(c.left)
    {
      var m := Snapshot(nodes);
      assert Rep(m, t, Parent(c)) && RepPath(m, c, Root(t));
    }

    /** The same for a focus that has a parent and a grandparent; the child links tell the sides apart. */
    lemma Surroundings(c: Path, t: Shape)
      requires At(c, t) && t.Fork? && !c.Top? && !c.up.Top?
      ensures t.node.parent == c.node && c.node.parent == c.up.node
      ensures t.node == c.node.left <==> c.InLeft?
      ensures t.node == c.node.right <==> c.InRight?
      ensures c.node == c.up.node.left <==> c.up.InLeft?
      ensures c.node == c.up.node.right <==> c.up.InRight?
      ensures var y := if c.up.InLeft? then c.up.node.right else c.up.node.left;
        y == Root(Sibling(c.up)) && (y != null ==> y.red == Sibling(c.up).red)
    {
      var m := Snapshot(nodes);
      Look(c, t);
      Refocused(c, t);
      Look(c.up, Frame(c, t));
      PathFacts(m, c, t.node);
      PathFacts(m, c.up, c.node);
      assert Rep(m, Sibling(c.up), c.up.node);
    }

    // ---- insertion

    /** Red uncle of fix_insert, lines 55-61 and 78-84. */
    method PushRed(z: Node, y: Node, ghost c: Path, ghost t: Shape) returns (z': Node)
      requires At(c, t) && t.Fork? && t.node == z && InsertOk(c, t)
      requires RedPath(c) && !c.up.Top? && IsRed(Sibling(c.up)) && Sibling(c.up).node == y
      requires z.parent == c.node && c.node.parent == c.up.node
      modifies nodes
      ensures At(c.up.up, Pushed(c, t)) && z' == Pushed(c, t).node
    {
      var p := z.parent;
      var gp := p.parent;
      Refocused(c, t);
      ghost var pt := Frame(c, t);
      Paint(p, false, c.up, pt);
      pt := pt.(red := false);
      Refocused(c.up, pt);
      ghost var g := Frame(c.up, pt);
      ghost var yc := if c.up.InLeft? then InRight(pt, gp, c.up.red, c.up.up) else InLeft(gp, c.up.red, pt, c.up.up);
      Refocused(yc, Sibling(c.up));
      Paint(y, false, yc, Sibling(c.up));
      ghost var yt := Sibling(c.up).(red := false);
      Refocused(yc, yt);
      Paint(gp, true, c.up.up, Frame(yc, yt));
      z' := gp;
    }

    /** Black uncle, focus already on the outer left: recolour and rotate the grandparent right. */
    method RotateOuterLeft(z: Node, gp: Node, ghost c: Path, ghost t: Shape) returns (ghost c': Path)
      requires At(c, t) && t.Fork? && t.node == z && InsertOk(c, t) && c.InLeft? && c.red
      requires c.up.InLeft? && !c.up.red && c.up.node == gp && !IsRed(c.up.right)
      modifies this`root, nodes
      ensures At(c', t) && InsertOk(c', t) && !RedPath(c')
      ensures Inorder(Plug(c', t)) == Inorder(Plug(c, t))
    {
      ghost var p, s, y, up := c.node, c.right, c.up.right, c.up.up;
      Look(c, t);
      Refocused(c, t);
      Paint(z.parent, false, c.up, Fork(t, p, true, s));
      Refocused(c.up, Fork(t, p, false, s));
      Paint(gp, true, up, Fork(Fork(t, p, false, s), gp, false, y));
      RightRotate(gp, up, Fork(Fork(t, p, false, s), gp, true, y));
      c' := InLeft(p, false, Fork(s, gp, true, y), up);
      Refocused(c', t);
      OuterLeftOk(t, p, s, gp, y, up);
    }

    method RotateOuterRight(z: Node, gp: Node, ghost c: Path, ghost t: Shape) returns (ghost c': Path)
      requires At(c, t) && t.Fork? && t.node == z && InsertOk(c, t) && c.InRight? && c.red
      requires c.up.InRight? && !c.up.red && c.up.node == gp && !IsRed(c.up.left)
      modifies this`root, nodes
      ensures At(c', t) && InsertOk(c', t) && !RedPath(c')
      ensures Inorder(Plug(c', t)) == Inorder(Plug(c, t))
    {
      ghost var p, s, y, up := c.node, c.left, c.up.left, c.up.up;
      Look(c, t);
      Refocused(c, t);
      Paint(z.parent, false, c.up, Fork(s, p, true, t));
      Refocused(c.up, Fork(s, p, false, t));
      Paint(gp, true, up, Fork(y, gp, false, Fork(s, p, false, t)));
      LeftRotate(gp, up, Fork(y, gp, true, Fork(s, p, false, t)));
      c' := InRight(Fork(y, gp, true, s), p, false, up);
      Refocused(c', t);
      OuterRightOk(t, p, s, gp, y, up);
    }

    /** Focus on the inner side: rotate the parent, which becomes the new focus. */
    method RotateInnerLeft(p: Node, ghost c: Path, ghost t: Shape) returns (ghost c': Path, ghost t': Shape)
      requires At(c, t) && InsertOk(c, t) && c.InRight? && c.red && c.node == p
      modifies this`root, nodes
      ensures c' == InLeft(t.node, true, t.right, c.up) && t' == Fork(c.left, p, true, t.left)
      ensures At(c', t') && InsertOk(c', t')
      ensures Inorder(Plug(c', t')) == Inorder(Plug(c, t))
    {
      Refocused(c, t);
      LeftRotate(p, c.up, Fork(c.left, p, true, t));
      c', t' := InLeft(t.node, true, t.right, c.up), Fork(c.left, p, true, t.left);
      Refocused(c', t');
      InnerLeftOk(t, p, c.left, c.up);
    }

    method RotateInnerRight(p: Node, ghost c: Path, ghost t: Shape) returns (ghost c': Path, ghost t': Shape)
      requires At(c, t) && InsertOk(c, t) && c.InLeft? && c.red && c.node == p
      modifies this`root, nodes
      ensures c' == InRight(t.left, t.node, true, c.up) && t' == Fork(t.right, p, true, c.right)
      ensures At(c', t') && InsertOk(c', t')
      ensures Inorder(Plug(c', t')) == Inorder(Plug(c, t))
    {
      Refocused(c, t);
      RightRotate(p, c.up, Fork(t, p, true, c.right));
      c', t' := InRight(t.left, t.node, true, c.up), Fork(t.right, p, true, c.right);
      Refocused(c', t');
      InnerRightOk(t, p, c.right, c.up);
    }

    /** One pass of the fix_insert loop when the parent is a left child, lines 53-72. */
    method FixInsertLeft(z0: Node, gp: Node, ghost c0: Path, ghost t0: Shape)
      returns (z: Node, ghost c: Path, ghost t: Shape)
      requires At(c0, t0) && t0.Fork? && t0.node == z0 && InsertOk(c0, t0) && RedPath(c0)
      requires c0.up.InLeft? && c0.up.node == gp
      modifies this`root, nodes
      ensures At(c, t) && t.Fork? && t.node == z && InsertOk(c, t)
      ensures RedPath(c) ==> Depth(c) < Depth(c0)
      ensures Inorder(Plug(c, t)) == Inorder(Plug(c0, t0))
    {
      z, c, t := z0, c0, t0;
      Surroundings(c, t);
      var y := gp.right;
      if y != null && y.red {
        PushedOk(c, t);
        z := PushRed(z, y, c, t);
        c, t := c.up.up, Pushed(c, t);
      } else {
        if z == z.parent.right {
          z := z.parent;
          c, t := RotateInnerLeft(z, c, t);
        }
        c := RotateOuterLeft(z, gp, c, t);
      }
    }

    method FixInsertRight(z0: Node, gp: Node, ghost c0: Path, ghost t0: Shape)
      returns (z: Node, ghost c: Path, ghost t: Shape)
      requires At(c0, t0) && t0.Fork? && t0.node == z0 && InsertOk(c0, t0) && RedPath(c0)
      requires c0.up.InRight? && c0.up.node == gp
      modifies this`root, nodes
      ensures At(c, t) && t.Fork? && t.node == z && InsertOk(c, t)
      ensures RedPath(c) ==> Depth(c) < Depth(c0)
      ensures Inorder(Plug(c, t)) == Inorder(Plug(c0, t0))
    {
      z, c, t := z0, c0, t0;
      Surroundings(c, t);
      var y := gp.left;
      if y != null && y.red {
        PushedOk(c, t);
        z := PushRed(z, y, c, t);
        c, t := c.up.up, Pushed(c, t);
      } else {
        if z == z.parent.left {
          z := z.parent;
          c, t := RotateInnerRight(z, c, t);
        }
        c := RotateOuterRight(z, gp, c, t);
      }
    }

    method FixInsert(z0: Node, ghost c0: Path, ghost t0: Shape)
      requires At(c0, t0) && t0.Fork? && t0.node == z0 && InsertOk(c0, t0)
      modifies this, nodes
      ensures nodes == old(nodes) && At(Top, shape) && RedBlack(shape)
      ensures Inorder(shape) == Inorder(Plug(c0, t0))
    {
      var z := z0;
      ghost var c, t := c0, t0;
      Look(c, t);
      while z.parent != null && z.parent.red
        invariant nodes == old(nodes)
        invariant At(c, t) && t.Fork? && t.node == z && InsertOk(c, t)
        invariant z.parent == Parent(c) && (z.parent != null ==> z.parent.red == c.red)
        invariant Inorder(Plug(c, t)) == Inorder(Plug(c0, t0))
        decreases if RedPath(c) then Depth(c) + 1 else 0
      {
        GrandparentExists(c, t);
        Surroundings(c, t);
        var gp := z.parent.parent;
        assert gp != null; // the break for a missing grandparent is never taken
        if z.parent == gp.left {
          z, c, t := FixInsertLeft(z, gp, c, t);
        } else {
          z, c, t := FixInsertRight(z, gp, c, t);
        }
        Look(c, t);
      }
      BlackenRoot(c, t);
    }

    /** The closing lines of fix_insert. */
    method BlackenRoot(ghost c: Path, ghost t: Shape)
      requires At(c, t) && InsertOk(c, t) && !RedPath(c)
      modifies this, nodes
      ensures nodes == old(nodes) && At(Top, shape) && RedBlack(shape)
      ensures Inorder(shape) == Inorder(Plug(c, t))
    {
      InsertDone(c, t);
      HoldsPlug(Snapshot(nodes), root, c, t);
      PlugNodes(c, t);
      ghost var w := Plug(c, t);
      if root != null {
        Paint(root, false, Top, w);
      }
      shape := w.(red := false);
    }

    /** The descent of rb_insert, lines 148-161: the place for a new key, or nothing if it is taken. */
    method FindSlot(key: u64) returns (taken: bool, y: Node?, ghost c: Path)
      requires Valid()
      ensures taken <==> exists n :: n in Contents() && n.key == key
      ensures !taken ==> At(c, Leaf) && Plug(c, Leaf) == shape && Bracket(c, key) && y == Parent(c)
    {
      y := null;
      var x := root;
      c := Top;
      ghost var t := shape;
      Look(c, t);
      while x != null
        invariant At(c, t) && Plug(c, t) == shape && Bracket(c, key)
        invariant x == Root(t) && y == Parent(c)
        decreases t
      {
        y := x;
        Look(c, t);
        BracketStep(c, t, key);
        if key == x.key {
          PlugNodes(c, t);
          NodesAreInorder(shape);
          return true, y, c;
        }
        if key < x.key {
          c, t := InLeft(t.node, t.red, t.right, c), t.left;
          x := x.left;
        } else {
          c, t := InRight(t.left, t.node, t.red, c), t.right;
          x := x.right;
        }
        Refocused(c, t);
      }
      BracketEmpty(c, key);
      taken := false;
    }

    /** Adds z unless its key is taken.  A node already in the tree is refused the same way. */
    method Insert(z: Node) returns (inserted: bool)
      requires Valid()
      modifies this, nodes, z
      ensures Valid()
      ensures inserted <==> forall n :: n in old(Contents()) ==> n.key != z.key
      ensures inserted <==> forall n :: n in old(nodes) ==> n.key != z.key
      ensures inserted ==> nodes == old(nodes) + {z}
      ensures inserted ==> Added(old(Contents()), Contents(), z)
      ensures !inserted ==> shape == old(shape) && nodes == old(nodes)
      ensures !inserted ==> z.red == old(z.red) && z.parent == old(z.parent) && z.left == old(z.left)
      ensures !inserted ==> z.right == old(z.right)
    {
      ghost var c;
      var taken, y;
      taken, y, c := FindSlot(z.key);
      NodesAreInorder(shape);
      if taken {
        return false;
      }
      BracketLeaf(c, z, true);
      GraftNode(z, y, c);
      FixInsert(z, c, Fork(Leaf, z, true, Leaf));
      ghost var i := |Before(c)|;
      assert Contents() == old(Contents())[..i] + [z] + old(Contents())[i..];
      inserted := true;
    }

    /** Lines 163-173: initialise z and hang it below y. */
    method GraftLinks(z: Node, y: Node?)
      requires y != z
      modifies this`root, z, Opt(y)
      ensures z.parent == y && z.left == null && z.right == null && z.red
      ensures root == if y == null then z else old(root)
      ensures y != null ==> y.parent == old(y.parent) && y.red == old(y.red)
      ensures y != null ==> y.left == (if z.key < y.key then z else old(y.left))
      ensures y != null ==> y.right == (if z.key < y.key then old(y.right) else z)
    {
      z.parent := y;
      z.left := null;
      z.right := null;
      z.red := true;

      if y == null {
        root := z;
      } else if z.key < y.key {
        y.left := z;
      } else {
        y.right := z;
      }
    }

    method GraftNode(z: Node, y: Node?, ghost c: Path)
      requires At(c, Leaf) && y == Parent(c) && Plug(c, Leaf) == shape && RedBlack(shape)
      requires z !in nodes
      requires c.InLeft? ==> z.key < c.node.key
      requires c.InRight? ==> c.node.key < z.key
      modifies this, nodes, z
      ensures At(c, Fork(Leaf, z, true, Leaf)) && nodes == old(nodes) + {z} && shape == old(shape)
      ensures InsertOk(c, Fork(Leaf, z, true, Leaf))
    {
      ghost var m := Snapshot(nodes);
      UnplugColoured(c, Leaf);
      Look(c, Leaf);
      GraftLinks(z, y);
      nodes := nodes + {z};
      Grafted(m, Snapshot(nodes), old(root), root, c, z);
    }

    // ---- lookup and traversal

    /**
     rb_find; steps counts the nodes it inspects: those on the way down to the place c of the key, and the one found
     there.
     */
    method Find(key: u64) returns (n: Node?, ghost c: Path, ghost t: Shape, ghost steps: nat)
      requires Valid()
      ensures n != null ==> n in Contents() && n.key == key
      ensures n == null ==> forall x :: x in Contents() ==> x.key != key
      ensures At(c, t) && Plug(c, t) == shape && Bracket(c, key) && n == Root(t)
      ensures steps == Depth(c) + (if n != null then 1 else 0) && WithinLog(steps, |Contents()|)
    {
      n := root;
      c, t, steps := Top, shape, 0;
      Look(c, t);
      while n != null
        invariant At(c, t) && Plug(c, t) == shape && Bracket(c, key)
        invariant n == Root(t) && steps == Depth(c)
        decreases t
      {
        Look(c, t);
        steps := steps + 1;
        if key == n.key {
          PlugNodes(c, t);
          NodesAreInorder(shape);
          SearchBound(c, t, steps);
          return;
        }
        BracketStep(c, t, key);
        if key < n.key {
          c, t := InLeft(t.node, t.red, t.right, c), t.left;
          n := n.left;
        } else {
          c, t := InRight(t.left, t.node, t.red, c), t.right;
          n := n.right;
        }
        Refocused(c, t);
      }
      BracketEmpty(c, key);
      SearchBound(c, t, steps);
    }

    /** tree_min below the focus: the first node of t in key order, with the way down to it. */
    method TreeMin(x: Node?, ghost c: Path, ghost t: Shape) returns (n: Node?, ghost p: Path, ghost t': Shape)
      requires At(c, t) && x == Root(t)
      ensures n == if t.Leaf? then null else Inorder(t)[0]
      ensures At(Append(p, c), t') && Plug(p, t') == t && Spine(p) && n == Root(t')
      ensures t'.Fork? ==> t'.left.Leaf?
    {
      n := x;
      p, t' := Top, t;
      Look(c, t');
      while n != null && n.left != null
        invariant At(Append(p, c), t') && Plug(p, t') == t && Spine(p) && n == Root(t')
        invariant n != null ==> n.left == Root(t'.left)
        invariant t.Leaf? == t'.Leaf?
        invariant t.Fork? ==> Inorder(t)[0] == Inorder(t')[0]
        decreases t'
      {
        Look(Append(p, c), t');
        p, t' := InLeft(t'.node, t'.red, t'.right, p), t'.left;
        n := n.left;
        Refocused(Append(p, c), t');
        Look(Append(p, c), t');
      }
    }

    method First() returns (n: Node?)
      requires Valid()
      ensures n == if Contents() == [] then null else Contents()[0]
    {
      ghost var p, t;
      n, p, t := TreeMin(root, Top, shape);
    }

    /** rb_next: the node after n in key order, or null after the last one. */
    method Next(n: Node?) returns (r: Node?)
      requires Valid() && (n != null ==> n in Contents())
      ensures n == null ==> r == null
      ensures n != null ==> IsNext(Contents(), n, r)
    {
      if n == null {
        return null;
      }
      NodesAreInorder(shape);
      ghost var c, t := Locate(shape, Top, n);
      HoldsPlug(Snapshot(nodes), root, c, t);
      PlugNodes(c, t);
      Look(c, t);
      NextOf(c, t);
      if n.right != null {
        ghost var p, s;
        Refocused(InRight(t.left, n, t.red, c), t.right);
        r, p, s := TreeMin(n.right, InRight(t.left, n, t.red, c), t.right);
      } else {
        r := ClimbNext(n, c, t);
      }
    }

    /** The climb of rb_next: the first ancestor reached from a left child. */
    method ClimbNext(n: Node, ghost c0: Path, ghost t0: Shape) returns (r: Node?)
      requires At(c0, t0) && t0.Fork? && t0.node == n
      ensures r == if After(c0) == [] then null else After(c0)[0]
    {
      var m := n;
      ghost var c, t := c0, t0;
      r := n.parent;
      Look(c, t);
      ClimbView(c, t);
      while r != null && m == r.right
        invariant At(c, t) && t.Fork? && t.node == m && r == Parent(c)
        invariant r != null ==> (m == r.right <==> c.InRight?)
        invariant After(c) == After(c0)
        decreases c
      {
        Refocused(c, t);
        m := r;
        c, t := c.up, Frame(c, t);
        Look(c, t);
        ClimbView(c, t);
        r := r.parent;
      }
    }

    lemma ClimbView(c: Path, t: Shape)
      requires At(c, t) && t.Fork?
      ensures !c.Top? ==> (t.node == c.node.right <==> c.InRight?)
    {
      PathFacts(Snapshot(nodes), c, t.node);
    }

    // ---- removal

    /** transplant of a node with at most one child: it leaves the tree, its own links untouched. */
    method Splice(u: Node, v: Node?, ghost c: Path, ghost t: Shape, ghost vt: Shape)
      requires At(c, t) && t.Fork? && t.node == u && v == Root(vt)
      requires (t.left.Leaf? && vt == t.right) || (t.right.Leaf? && vt == t.left)
      modifies this`root, this`nodes, nodes
      ensures At(c, vt) && nodes == old(nodes) - {u}
      ensures u.parent == old(u.parent) && u.left == old(u.left) && u.right == old(u.right) && u.red == old(u.red)
    {
      hide Holds, Rep, RepPath, Nodes, PathNodes, Sep, PathSep;
      ghost var m := Snapshot(nodes);
      OnlyChild(m, root, c, t, vt);
      TransplantLinks(u, v);
      ghost var m' := Snapshot(nodes);
      Spliced(m, m', old(root), root, c, t, vt);
      nodes := nodes - {u};
      HoldsFrame(m', Snapshot(nodes), root, c, vt);
    }

    /** Line 211, which rewrites a parent link with its own value. */
    method AdoptAgain(x: Node?, y: Node, ghost c: Path, ghost l: Shape, ghost z: Node, ghost red: bool,
                      ghost yred: bool, ghost b: Shape)
      requires At(c, Fork(l, z, red, Fork(Leaf, y, yred, b))) && x == Root(b)
      modifies Opt(x)
      ensures Snapshot(nodes) == old(Snapshot(nodes))
    {
      ghost var m := Snapshot(nodes);
      assert Rep(m, Fork(Leaf, y, yred, b), z) && Rep(m, b, y);
      if x != null {
        assert x in nodes && m[x].parent == y;
        x.parent := y;
      }
    }

    /** Lines 208-227 when the successor y is the right child of z. */
    method SeatNear(z: Node, y: Node, ghost c: Path, ghost l: Shape, ghost red: bool, ghost yred: bool, ghost b: Shape)
      requires At(c, Fork(l, z, red, Fork(Leaf, y, yred, b))) && l.Fork?
      modifies this`root, nodes
      ensures Holds(Snapshot(nodes), root, c, Fork(l, y, red, b))
    {
      hide Holds, Rep, RepPath, Nodes, PathNodes, Sep, PathSep;
      ghost var m := Snapshot(nodes);
      ghost var r := Fork(Leaf, y, yred, b);
      ForkFacts(m, root, c, l, z, red, r);
      RightOnly(m, root, c, l, z, red, y, yred, b);
      var x := y.right;
      AdoptAgain(x, y, c, l, z, red, yred, b);
      SeatLinks(z, y);
      SeatedNear(m, Snapshot(nodes), old(root), root, c, l, z, y, red, yred, b);
    }

    method SeatFarLinks(z: Node, y: Node)
      requires z.left != null && z.right != null && y != z && z.parent != z && z.left != z && z.right != z
      requires y != z.parent && y != z.left && y != z.right && z.left != z.right
      requires z.left != z.parent && z.right != z.parent
      modifies this`root, Opt(z.parent), y, z.left, z.right
      ensures var p, l, r := old(z.parent), old(z.left), old(z.right);
        && root == (if p == null then y else old(root))
        && (p != null ==>
             && p.parent == old(p.parent) && p.red == old(p.red)
             && p.left == (if old(p.left) == z then y else old(p.left))
             && p.right == (if old(p.left) == z then old(p.right) else y))
        && y.parent == p && y.left == l && y.right == r && y.red == z.red
        && l.parent == y && l.left == old(l.left) && l.right == old(l.right) && l.red == old(l.red)
        && r.parent == y && r.left == old(r.left) && r.right == old(r.right) && r.red == old(r.red)
    {
      y.right := z.right;
      if y.right != null {
        y.right.parent := y;
      }
      SeatLinks(z, y);
    }

    /** Lines 217-227 when y was already spliced out from deeper down. */
    method SeatFar(z: Node, y: Node, ghost c: Path, ghost l: Shape, ghost red: bool, ghost r: Shape)
      requires At(c, Fork(l, z, red, r)) && l.Fork? && r.Fork? && y !in nodes
      modifies this`root, nodes, y
      ensures Holds(Snapshot(nodes + {y}), root, c, Fork(l, y, red, r))
    {
      ghost var m := Snapshot(nodes + {y});
      HoldsFrame(Snapshot(nodes), m, root, c, Fork(l, z, red, r));
      ForkFacts(m, root, c, l, z, red, r);
      SeatFarLinks(z, y);
      SeatedFar(m, Snapshot(nodes + {y}), old(root), root, c, l, z, y, red, r);
    }

    lemma AtAppend(p: Path, c: Path, t: Shape)
      ensures At(Append(p, c), t) <==> At(c, Plug(p, t))
    {
      var m := Snapshot(nodes);
      PlugAppend(p, c, t);
      HoldsPlug(m, root, Append(p, c), t);
      HoldsPlug(m, root, c, Plug(p, t));
      PlugNodes(Append(p, c), t);
      PlugNodes(c, Plug(p, t));
    }

    /** Narrows the footprint to the nodes that are still linked. */
    ghost method Forget(s: set<Node>, c: Path, t: Shape)
      requires Holds(Snapshot(s), root, c, t)
      modifies this`nodes
      ensures At(c, t) && nodes == PathNodes(c) + Nodes(t)
    {
      RepPathKeys(Snapshot(s), c, Root(t));
      RepKeys(Snapshot(s), t, Parent(c));
      nodes := PathNodes(c) + Nodes(t);
      HoldsFrame(Snapshot(s), Snapshot(nodes), root, c, t);
    }

    /** Lines 204-228: a node with two children is replaced by its successor y. */
    method RemoveInner(z: Node, ghost c: Path, ghost t: Shape)
      returns (x: Node?, xp: Node?, yred: bool, ghost cx: Path, ghost b: Shape)
      requires At(c, t) && t.Fork? && t.node == z && t.left.Fork? && t.right.Fork? && RedBlack(Plug(c, t))
      modifies this`root, this`nodes, nodes
      ensures At(cx, b) && x == Root(b) && xp == Parent(cx)
      ensures if yred then RedBlack(Plug(cx, b)) else DeleteOk(cx, b)
      ensures Added(Inorder(Plug(cx, b)), Inorder(Plug(c, t)), z)
    {
      ghost var l, red := t.left, t.red;
      ghost var cz := InRight(l, z, red, c);
      Look(c, t);
      Refocused(cz, t.right);
      ghost var p, ty;
      var y;
      y, p, ty := TreeMin(z.right, cz, t.right);
      Look(Append(p, cz), ty);
      b := ty.right;
      yred := y.red;
      x := y.right;
      cx := Append(p, InRight(l, y, red, c));
      SuccessorColours(c, l, z, red, p, y, yred, b);
      SuccessorInorder(c, l, z, red, p, y, yred, b);
      xp := Successor(z, y, c, l, red, p, yred, b);
    }

    method Successor(z: Node, y: Node, ghost c: Path, ghost l: Shape, ghost red: bool, ghost p: Path, ghost yred: bool,
                     ghost b: Shape)
      returns (xp: Node?)
      requires At(c, Fork(l, z, red, Plug(p, Fork(Leaf, y, yred, b)))) && l.Fork?
      modifies this`root, this`nodes, nodes
      ensures At(Append(p, InRight(l, y, red, c)), b)
      ensures xp == Parent(Append(p, InRight(l, y, red, c)))
    {
      ghost var cz, ty := InRight(l, z, red, c), Fork(Leaf, y, yred, b);
      SuccessorParent(z, y, c, l, red, p, yred, b);
      if y.parent == z {
        xp := y;
        SuccessorNear(z, y, c, l, red, yred, b);
      } else {
        Splice(y, y.right, Append(p, cz), ty, b);
        xp := y.parent;
        SuccessorFar(z, y, c, l, red, p, b);
      }
    }

    lemma SuccessorParent(z: Node, y: Node, c: Path, l: Shape, red: bool, p: Path, yred: bool, b: Shape)
      requires At(c, Fork(l, z, red, Plug(p, Fork(Leaf, y, yred, b))))
      ensures At(Append(p, InRight(l, z, red, c)), Fork(Leaf, y, yred, b))
      ensures y.parent == (if p.Top? then z else p.node) && y.right == Root(b) && y != z
      ensures p.Top? <==> y.parent == z
    {
      var cz, ty := InRight(l, z, red, c), Fork(Leaf, y, yred, b);
      Refocused(cz, Plug(p, ty));
      AtAppend(p, cz, ty);
      Look(Append(p, cz), ty);
      PlugNodes(p, ty);
    }

    method SuccessorNear(z: Node, y: Node, ghost c: Path, ghost l: Shape, ghost red: bool, ghost yred: bool,
                         ghost b: Shape)
      requires At(c, Fork(l, z, red, Fork(Leaf, y, yred, b))) && l.Fork?
      modifies this`root, this`nodes, nodes
      ensures At(InRight(l, y, red, c), b)
    {
      SeatNear(z, y, c, l, red, yred, b);
      Forget(nodes, c, Fork(l, y, red, b));
      Refocused(InRight(l, y, red, c), b);
    }

    method SuccessorFar(z: Node, y: Node, ghost c: Path, ghost l: Shape, ghost red: bool, ghost p: Path, ghost b: Shape)
      requires At(Append(p, InRight(l, z, red, c)), b) && l.Fork? && !p.Top? && y !in nodes
      modifies this`root, this`nodes, nodes, y
      ensures At(Append(p, InRight(l, y, red, c)), b)
    {
      ghost var cz, r := InRight(l, z, red, c), Plug(p, b);
      AtAppend(p, cz, b);
      Refocused(cz, r);
      PlugNodes(p, b);
      SeatFar(z, y, c, l, red, r);
      Forget(nodes + {y}, c, Fork(l, y, red, r));
      Refocused(InRight(l, y, red, c), r);
      AtAppend(p, InRight(l, y, red, c), b);
    }

    /** Lines 243-249: a red sibling w of the left focus is rotated above the parent. */
    method RedSiblingL(xp: Node, w: Node, ghost c: Path, ghost t: Shape) returns (w': Node, ghost c': Path)
      requires At(c, t) && c.InLeft? && c.node == xp && IsRed(c.right) && c.right.node == w && DeleteOk(c, t)
      modifies this`root, nodes
      ensures c' == InLeft(xp, true, c.right.left, InLeft(w, false, c.right.right, c.up))
      ensures At(c', t) && DeleteOk(c', t) && !IsRed(c'.right) && Root(c'.right) == w'
      ensures Inorder(Plug(c', t)) == Inorder(Plug(c, t))
    {
      ghost var s, up := c.right, c.up;
      RedSiblingLeft(t, xp, c.red, s, up);
      Refocused(c, t);
      ghost var cw := InRight(t, xp, c.red, up);
      Refocused(cw, s);
      Paint(w, false, cw, s);
      Refocused(cw, s.(red := false));
      Paint(xp, true, up, Fork(t, xp, c.red, s.(red := false)));
      LeftRotate(xp, up, Fork(t, xp, true, s.(red := false)));
      c' := InLeft(xp, true, s.left, InLeft(w, false, s.right, up));
      Refocused(c'.up, Fork(t, xp, true, s.left));
      Refocused(c', t);
      Look(c', t);
      SiblingExists(c', t);
      w' := xp.right;
    }

    method RedSiblingR(xp: Node, w: Node, ghost c: Path, ghost t: Shape) returns (w': Node, ghost c': Path)
      requires At(c, t) && c.InRight? && c.node == xp && IsRed(c.left) && c.left.node == w && DeleteOk(c, t)
      modifies this`root, nodes
      ensures c' == InRight(c.left.right, xp, true, InRight(c.left.left, w, false, c.up))
      ensures At(c', t) && DeleteOk(c', t) && !IsRed(c'.left) && Root(c'.left) == w'
      ensures Inorder(Plug(c', t)) == Inorder(Plug(c, t))
    {
      ghost var s, up := c.left, c.up;
      RedSiblingRight(t, xp, c.red, s, up);
      Refocused(c, t);
      ghost var cw := InLeft(xp, c.red, t, up);
      Refocused(cw, s);
      Paint(w, false, cw, s);
      Refocused(cw, s.(red := false));
      Paint(xp, true, up, Fork(s.(red := false), xp, c.red, t));
      RightRotate(xp, up, Fork(s.(red := false), xp, true, t));
      c' := InRight(s.right, xp, true, InRight(s.left, w, false, up));
      Refocused(c'.up, Fork(s.right, xp, true, t));
      Refocused(c', t);
      Look(c', t);
      SiblingExists(c', t);
      w' := xp.left;
    }

    /** Lines 251-257 and 291-297: the black sibling turns red, the deficit moves to the parent. */
    method DeficitUpward(w: Node, xp: Node, ghost c: Path, ghost t: Shape)
        returns (x': Node, xp': Node?, ghost t': Shape)
      requires At(c, t) && DeleteOk(c, t) && !IsRed(t) && !c.Top? && c.node == xp
      requires var s := Sibling(c); s.Fork? && s.node == w && !s.red && !IsRed(s.left) && !IsRed(s.right)
      modifies this`root, nodes
      ensures t' == Frame(PaintSibling(c), t) && At(c.up, t') && DeleteOk(c.up, t')
      ensures x' == xp && xp' == Parent(c.up)
      ensures Inorder(Plug(c.up, t')) == Inorder(Plug(c, t))
    {
      ghost var s := Sibling(c);
      DeficitUp(c, t);
      Refocused(c, t);
      ghost var cw := if c.InLeft? then InRight(t, xp, c.red, c.up) else InLeft(xp, c.red, t, c.up);
      Refocused(cw, s);
      Paint(w, true, cw, s);
      Refocused(cw, s.(red := true));
      t' := Frame(PaintSibling(c), t);
      Look(c.up, t');
      x' := xp;
      xp' := x'.parent;
    }

    /** Lines 260-267: the red inner nephew is rotated to the outer side. */
    method InnerNephewL(xp: Node, w: Node, ghost c: Path, ghost t: Shape) returns (w': Node, ghost c': Path)
      requires At(c, t) && c.InLeft? && c.node == xp && DeleteOk(c, t)
      requires var s := c.right; s.Fork? && s.node == w && !s.red && IsRed(s.left) && !IsRed(s.right)
      requires w.left == c.right.left.node
      modifies this`root, nodes
      ensures At(c', t) && DeleteOk(c', t) && c'.InLeft? && c'.node == xp && c'.up == c.up && c'.red == c.red
      ensures var s := c'.right; s.Fork? && s.node == w' && !s.red && IsRed(s.right)
      ensures Inorder(Plug(c', t)) == Inorder(Plug(c, t))
    {
      ghost var s, up := c.right, c.up;
      InnerNephewLeft(t, xp, c.red, s, up);
      Refocused(c, t);
      ghost var cw := InRight(t, xp, c.red, up);
      Refocused(cw, s);
      ghost var cn := InLeft(w, false, s.right, cw);
      Refocused(cn, s.left);
      Paint(w.left, false, cn, s.left);
      Refocused(cn, s.left.(red := false));
      Paint(w, true, cw, Fork(s.left.(red := false), w, false, s.right));
      RightRotate(w, cw, Fork(s.left.(red := false), w, true, s.right));
      ghost var s' := Fork(s.left.left, s.left.node, false, Fork(s.left.right, w, true, s.right));
      c' := InLeft(xp, c.red, s', up);
      Refocused(cw, s');
      Refocused(c', t);
      Look(c', t);
      w' := xp.right;
    }

    method InnerNephewR(xp: Node, w: Node, ghost c: Path, ghost t: Shape) returns (w': Node, ghost c': Path)
      requires At(c, t) && c.InRight? && c.node == xp && DeleteOk(c, t)
      requires var s := c.left; s.Fork? && s.node == w && !s.red && IsRed(s.right) && !IsRed(s.left)
      requires w.right == c.left.right.node
      modifies this`root, nodes
      ensures At(c', t) && DeleteOk(c', t) && c'.InRight? && c'.node == xp && c'.up == c.up && c'.red == c.red
      ensures var s := c'.left; s.Fork? && s.node == w' && !s.red && IsRed(s.left)
      ensures Inorder(Plug(c', t)) == Inorder(Plug(c, t))
    {
      ghost var s, up := c.left, c.up;
      InnerNephewRight(t, xp, c.red, s, up);
      Refocused(c, t);
      ghost var cw := InLeft(xp, c.red, t, up);
      Refocused(cw, s);
      ghost var cn := InRight(s.left, w, false, cw);
      Refocused(cn, s.right);
      Paint(w.right, false, cn, s.right);
      Refocused(cn, s.right.(red := false));
      Paint(w, true, cw, Fork(s.left, w, false, s.right.(red := false)));
      LeftRotate(w, cw, Fork(s.left, w, true, s.right.(red := false)));
      ghost var s' := Fork(Fork(s.left, w, true, s.right.left), s.right.node, false, s.right.right);
      c' := InRight(s', xp, c.red, up);
      Refocused(cw, s');
      Refocused(c', t);
      Look(c', t);
      w' := xp.left;
    }

    /** Lines 269-274: the rotation that makes up for the missing black node. */
    method OuterNephewL(xp: Node, w: Node, ghost c: Path, ghost t: Shape) returns (ghost t': Shape)
      requires At(c, t) && c.InLeft? && c.node == xp && DeleteOk(c, t) && !IsRed(t)
      requires var s := c.right; s.Fork? && s.node == w && !s.red && IsRed(s.right)
      requires w.right == c.right.right.node && xp.red == c.red
      modifies this`root, nodes
      ensures At(c.up, t') && RedBlack(Plug(c.up, t'))
      ensures Inorder(Plug(c.up, t')) == Inorder(Plug(c, t))
    {
      ghost var s, up := c.right, c.up;
      OuterNephewLeft(t, xp, c.red, s, up);
      Refocused(c, t);
      ghost var cw := InRight(t, xp, c.red, up);
      Refocused(cw, s);
      Paint(w, xp.red, cw, s);
      ghost var s1 := s.(red := c.red);
      Refocused(cw, s1);
      Paint(xp, false, up, Fork(t, xp, c.red, s1));
      cw := InRight(t, xp, false, up);
      Refocused(cw, s1);
      ghost var cn := InRight(s.left, w, c.red, cw);
      Refocused(cn, s.right);
      Look(cw, s1);
      Paint(w.right, false, cn, s.right);
      ghost var s2 := Fork(s.left, w, c.red, s.right.(red := false));
      Refocused(cn, s.right.(red := false));
      Refocused(cw, s2);
      LeftRotate(xp, up, Fork(t, xp, false, s2));
      t' := Fork(Fork(t, xp, false, s.left), w, c.red, s.right.(red := false));
    }

    method OuterNephewR(xp: Node, w: Node, ghost c: Path, ghost t: Shape) returns (ghost t': Shape)
      requires At(c, t) && c.InRight? && c.node == xp && DeleteOk(c, t) && !IsRed(t)
      requires var s := c.left; s.Fork? && s.node == w && !s.red && IsRed(s.left)
      requires w.left == c.left.left.node && xp.red == c.red
      modifies this`root, nodes
      ensures At(c.up, t') && RedBlack(Plug(c.up, t'))
      ensures Inorder(Plug(c.up, t')) == Inorder(Plug(c, t))
    {
      ghost var s, up := c.left, c.up;
      OuterNephewRight(t, xp, c.red, s, up);
      Refocused(c, t);
      ghost var cw := InLeft(xp, c.red, t, up);
      Refocused(cw, s);
      Paint(w, xp.red, cw, s);
      ghost var s1 := s.(red := c.red);
      Refocused(cw, s1);
      Paint(xp, false, up, Fork(s1, xp, c.red, t));
      cw := InLeft(xp, false, t, up);
      Refocused(cw, s1);
      ghost var cn := InLeft(w, c.red, s.right, cw);
      Refocused(cn, s.left);
      Look(cw, s1);
      Paint(w.left, false, cn, s.left);
      ghost var s2 := Fork(s.left.(red := false), w, c.red, s.right);
      Refocused(cn, s.left.(red := false));
      Refocused(cw, s2);
      RightRotate(xp, up, Fork(s2, xp, false, t));
      t' := Fork(s.left.(red := false), w, c.red, Fork(s.right, xp, false, t));
    }

    /** What the loop reads around a focus that is one black short. */
    lemma DeleteView(c: Path, t: Shape)
      requires At(c, t) && DeleteOk(c, t)
      ensures Root(t) == root <==> c.Top?
      ensures Root(t) != null ==> Root(t).red == t.red
      ensures !c.Top? ==> (Root(t) == c.node.left <==> c.InLeft?)
      ensures !c.Top? ==> c.node.red == c.red
      ensures !c.Top? ==> Sibling(c).Fork? && SiblingView(c, Sibling(c).node)
    {
      var m := Snapshot(nodes);
      Look(c, t);
      if !c.Top? {
        TopInPath(c, Root(t));
        SiblingExists(c, t);
        if t.Fork? {
          PathFacts(m, c, t.node);
        }
        var s := Sibling(c);
        assert Rep(m, s, c.node) && Rep(m, s.left, s.node) && Rep(m, s.right, s.node);
      }
    }

    ghost predicate SiblingView(c: Path, w: Node)
      requires !c.Top? && Sibling(c).Fork?
      reads c.node, w, Opt(Root(Sibling(c).left)), Opt(Root(Sibling(c).right))
    {
      var s := Sibling(c);
      && w == s.node && w.red == s.red && w == (if c.InLeft? then c.node.right else c.node.left)
      && w.left == Root(s.left) && w.right == Root(s.right)
      && (w.left != null ==> w.left.red == s.left.red)
      && (w.right != null ==> w.right.red == s.right.red)
    }

    /** One pass of the fix-up loop of rb_remove for a left focus, lines 241-277. */
    method FixRemoveLeft(xp0: Node, ghost c0: Path, ghost t0: Shape)
      returns (done: bool, x: Node?, xp: Node?, ghost c: Path, ghost t: Shape)
      requires At(c0, t0) && DeleteOk(c0, t0) && !IsRed(t0) && c0.InLeft? && c0.node == xp0
      modifies this`root, nodes
      ensures At(c, t) && DeleteOk(c, t) && x == Root(t)
      ensures if done then c.Top? else xp == Parent(c) && (IsRed(t) || Depth(c) < Depth(c0))
      ensures Inorder(Plug(c, t)) == Inorder(Plug(c0, t0))
    {
      xp, c, t := xp0, c0, t0;
      DeleteView(c, t);
      var w := xp.right;
      if w != null && w.red {
        w, c := RedSiblingL(xp, w, c, t);
      }
      DeleteView(c, t);
      if (w.left == null || !w.left.red) && (w.right == null || !w.right.red) {
        done := false;
        x, xp, t := DeficitUpward(w, xp, c, t);
        c := c.up;
      } else {
        if w.right == null || !w.right.red {
          w, c := InnerNephewL(xp, w, c, t);
          DeleteView(c, t);
        }
        t := OuterNephewL(xp, w, c, t);
        x := root;
        done := true;
        c, t := Whole(c.up, t);
      }
    }

    method FixRemoveRight(xp0: Node, ghost c0: Path, ghost t0: Shape)
      returns (done: bool, x: Node?, xp: Node?, ghost c: Path, ghost t: Shape)
      requires At(c0, t0) && DeleteOk(c0, t0) && !IsRed(t0) && c0.InRight? && c0.node == xp0
      modifies this`root, nodes
      ensures At(c, t) && DeleteOk(c, t) && x == Root(t)
      ensures if done then c.Top? else xp == Parent(c) && (IsRed(t) || Depth(c) < Depth(c0))
      ensures Inorder(Plug(c, t)) == Inorder(Plug(c0, t0))
    {
      xp, c, t := xp0, c0, t0;
      DeleteView(c, t);
      var w := xp.left;
      if w != null && w.red {
        w, c := RedSiblingR(xp, w, c, t);
      }
      DeleteView(c, t);
      if (w.left == null || !w.left.red) && (w.right == null || !w.right.red) {
        done := false;
        x, xp, t := DeficitUpward(w, xp, c, t);
        c := c.up;
      } else {
        if w.left == null || !w.left.red {
          w, c := InnerNephewR(xp, w, c, t);
          DeleteView(c, t);
        }
        t := OuterNephewR(xp, w, c, t);
        x := root;
        done := true;
        c, t := Whole(c.up, t);
      }
    }

    /** Looks at the finished tree from its root. */
    lemma Whole(c: Path, t: Shape) returns (c': Path, t': Shape)
      requires At(c, t) && RedBlack(Plug(c, t))
      ensures c' == Top && t' == Plug(c, t) && At(c', t') && DeleteOk(c', t') && root == Root(t')
    {
      c', t' := Top, Plug(c, t);
      HoldsPlug(Snapshot(nodes), root, c, t);
      PlugNodes(c, t);
    }

    method FixRemove(x0: Node?, xp0: Node?, ghost c0: Path, ghost t0: Shape)
      requires At(c0, t0) && DeleteOk(c0, t0) && x0 == Root(t0) && xp0 == Parent(c0)
      modifies this, nodes
      ensures nodes == old(nodes) && At(Top, shape) && RedBlack(shape)
      ensures Inorder(shape) == Inorder(Plug(c0, t0))
    {
      hide At, DeleteOk, Inorder, Plug, RedBlack;
      var x, xp := x0, xp0;
      ghost var c, t := c0, t0;
      DeleteView(c, t);
      while x != root && (x == null || !x.red)
        invariant nodes == old(nodes) && shape == old(shape)
        invariant At(c, t) && DeleteOk(c, t) && x == Root(t) && xp == Parent(c)
        invariant (x == root <==> c.Top?) && (x != null ==> x.red == t.red)
        invariant Inorder(Plug(c, t)) == Inorder(Plug(c0, t0))
        decreases if IsRed(t) then 0 else 1 + Depth(c)
      {
        assert xp != null; // the break for a missing parent is never taken
        DeleteView(c, t);
        var done;
        if x == xp.left {
          done, x, xp, c, t := FixRemoveLeft(xp, c, t);
        } else {
          done, x, xp, c, t := FixRemoveRight(xp, c, t);
        }
        if done {
          break;
        }
        DeleteView(c, t);
      }
      BlackenFocus(x, c, t);
    }

    /** Lines 321-322. */
    method BlackenFocus(x: Node?, ghost c: Path, ghost t: Shape)
      requires At(c, t) && DeleteOk(c, t) && x == Root(t) && (c.Top? || IsRed(t))
      modifies this, nodes
      ensures nodes == old(nodes) && At(Top, shape) && RedBlack(shape)
      ensures Inorder(shape) == Inorder(Plug(c, t))
    {
      DeleteDone(c, t);
      ghost var t' := t;
      if x != null {
        Paint(x, false, c, t);
        t' := t.(red := false);
      }
      HoldsPlug(Snapshot(nodes), root, c, t');
      PlugNodes(c, t');
      shape := Plug(c, t');
    }

    /** Lines 185-228: takes z out; what is left may be one black node short at x. */
    method Unlink(z: Node, ghost c: Path, ghost t: Shape)
      returns (x: Node?, xp: Node?, yred: bool, ghost cx: Path, ghost b: Shape)
      requires At(c, t) && t.Fork? && t.node == z && RedBlack(Plug(c, t))
      modifies this`root, this`nodes, nodes
      ensures At(cx, b) && x == Root(b) && xp == Parent(cx)
      ensures if yred then RedBlack(Plug(cx, b)) else DeleteOk(cx, b)
      ensures Added(Inorder(Plug(cx, b)), Inorder(Plug(c, t)), z)
    {
      Look(c, t);
      UnplugColoured(c, t);
      yred := z.red;
      if z.left == null {
        x, xp, cx, b := z.right, z.parent, c, t.right;
        SpliceColours(c, t, b);
        SpliceInorder(c, t, b);
        Splice(z, z.right, c, t, b);
      } else if z.right == null {
        x, xp, cx, b := z.left, z.parent, c, t.left;
        SpliceColours(c, t, b);
        SpliceInorder(c, t, b);
        Splice(z, z.left, c, t, b);
      } else {
        x, xp, yred, cx, b := RemoveInner(z, c, t);
      }
    }

    method Detach(z: Node, ghost c: Path, ghost t: Shape)
      requires Valid() && At(c, t) && Plug(c, t) == shape && t.Fork? && t.node == z
      modifies this, nodes
      ensures Valid() && Added(Contents(), old(Contents()), z) && nodes == old(nodes) - {z}
    {
      ghost var cx, b;
      var x, xp, yred;
      x, xp, yred, cx, b := Unlink(z, c, t);
      RemovedNodes(Plug(cx, b), old(shape), z);
      PlugNodes(cx, b);
      if !yred {
        FixRemove(x, xp, cx, b);
      } else {
        HoldsPlug(Snapshot(nodes), root, cx, b);
        shape := Plug(cx, b);
      }
    }

    /** Takes the node with the given key out of the tree and clears its links. */
    method Remove(key: u64) returns (z: Node?)
      requires Valid()
      modifies this, nodes
      ensures Valid()
      ensures z == null <==> forall n :: n in old(Contents()) ==> n.key != key
      ensures z == null ==> shape == old(shape) && nodes == old(nodes)
      ensures z != null ==> z.key == key && Added(Contents(), old(Contents()), z) && nodes == old(nodes) - {z}
      ensures z != null ==> z.parent == null && z.left == null && z.right == null && !z.red
    {
      ghost var c, t, steps;
      z, c, t, steps := Find(key);
      if z == null {
        return;
      }
      NodesAreInorder(shape);
      Detach(z, c, t);
      ClearLinks(z);
    }

    method ClearLinks(z: Node)
      modifies z
      ensures z.parent == null && z.left == null && z.right == null && !z.red
    {
      z.parent := null;
      z.left := null;
      z.right := null;
      z.red := false;
    }
  }
}