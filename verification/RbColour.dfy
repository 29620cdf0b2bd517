/** The colour side of the insert and delete fix-ups of rbtree.c, on shapes. */
module RbColour {
  import opened RbShape

  ghost function Frame(c: Path, t: Shape): (f: Shape)
    requires !c.Top?
    ensures f.Fork?
  {
    if c.InLeft? then Fork(t, c.node, c.red, c.right) else Fork(c.left, c.node, c.red, t)
  }

  lemma PlugSame(c: Path, t: Shape, t': Shape)
    requires Inorder(t) == Inorder(t')
    ensures Inorder(Plug(c, t)) == Inorder(Plug(c, t'))
  {
    PlugInorder(c, t);
    PlugInorder(c, t');
  }

  // ---- insertion

  /** A red node t sits under c; the only possible violation is a red parent just above it. */
  ghost predicate InsertOk(c: Path, t: Shape) {
    IsRed(t) && Coloured(t) && PathColoured(c, Bh(t))
  }

  /** Under a red parent there is a black grandparent. */
  lemma GrandparentExists(c: Path, t: Shape)
    requires InsertOk(c, t) && RedPath(c)
    ensures !c.up.Top? && !c.up.red
  {
  }

  /** Red uncle: parent and uncle turn black, the grandparent turns red and becomes the focus. */
  ghost function Pushed(c: Path, t: Shape): Shape
    requires !c.Top? && !c.up.Top? && Sibling(c.up).Fork?
  {
    var f := Frame(c, t);
    var p, y := f.(red := false), Sibling(c.up).(red := false);
    if c.up.InLeft? then Fork(p, c.up.node, true, y) else Fork(y, c.up.node, true, p)
  }

  lemma PushedOk(c: Path, t: Shape)
    requires InsertOk(c, t) && RedPath(c) && IsRed(Sibling(c.up))
    ensures InsertOk(c.up.up, Pushed(c, t))
    ensures Inorder(Plug(c.up.up, Pushed(c, t))) == Inorder(Plug(c, t))
  {
    var p, y, h := Frame(c, t), Sibling(c.up), Bh(t);
    assert PathColoured(c.up, h) && PathColoured(c.up.up, h + 1);
    assert Coloured(p.(red := false)) && Bh(p.(red := false)) == h + 1;
    assert Coloured(y.(red := false)) && Bh(y.(red := false)) == h + 1;
    assert Inorder(p.(red := false)) == Inorder(p) && Inorder(y.(red := false)) == Inorder(y);
    PlugSame(c.up.up, Frame(c.up, p), Pushed(c, t));
  }

  /** Black uncle, focus on the outer side: the tree that replaces the grandparent's. */
  lemma OuterLeftOk(t: Shape, p: Node, s: Shape, g: Node, y: Shape, up: Path)
    requires InsertOk(InLeft(p, true, s, InLeft(g, false, y, up)), t) && !IsRed(y)
    ensures InsertOk(InLeft(p, false, Fork(s, g, true, y), up), t)
    ensures Inorder(Plug(InLeft(p, false, Fork(s, g, true, y), up), t))
         == Inorder(Plug(InLeft(p, true, s, InLeft(g, false, y, up)), t))
  {
    var h := Bh(t);
    assert PathColoured(InLeft(g, false, y, up), h);
    assert Coloured(Fork(s, g, true, y)) && Bh(Fork(s, g, true, y)) == h;
    RotationInorder(t, p, false, s, g, true, y);
    assert Inorder(Fork(Fork(t, p, false, s), g, true, y)) == Inorder(Fork(Fork(t, p, true, s), g, false, y));
    PlugSame(up, Fork(t, p, false, Fork(s, g, true, y)), Fork(Fork(t, p, true, s), g, false, y));
  }

  lemma OuterRightOk(t: Shape, p: Node, s: Shape, g: Node, y: Shape, up: Path)
    requires InsertOk(InRight(s, p, true, InRight(y, g, false, up)), t) && !IsRed(y)
    ensures InsertOk(InRight(Fork(y, g, true, s), p, false, up), t)
    ensures Inorder(Plug(InRight(Fork(y, g, true, s), p, false, up), t))
         == Inorder(Plug(InRight(s, p, true, InRight(y, g, false, up)), t))
  {
    var h := Bh(t);
    assert PathColoured(InRight(y, g, false, up), h);
    assert Coloured(Fork(y, g, true, s)) && Bh(Fork(y, g, true, s)) == h;
    RotationInorder(y, g, true, s, p, false, t);
    assert Inorder(Fork(y, g, true, Fork(s, p, false, t))) == Inorder(Fork(y, g, false, Fork(s, p, true, t)));
    PlugSame(up, Fork(Fork(y, g, true, s), p, false, t), Fork(y, g, false, Fork(s, p, true, t)));
  }

  /** Focus on the inner side: rotating the parent moves the violation to the outer side. */
  lemma InnerLeftOk(t: Shape, p: Node, s: Shape, up: Path)
    requires InsertOk(InRight(s, p, true, up), t)
    ensures InsertOk(InLeft(t.node, true, t.right, up), Fork(s, p, true, t.left))
    ensures Inorder(Plug(InLeft(t.node, true, t.right, up), Fork(s, p, true, t.left)))
         == Inorder(Plug(InRight(s, p, true, up), t))
  {
    RotationInorder(s, p, true, t.left, t.node, true, t.right);
    PlugSame(up, Fork(Fork(s, p, true, t.left), t.node, true, t.right), Fork(s, p, true, t));
  }

  lemma InnerRightOk(t: Shape, p: Node, s: Shape, up: Path)
    requires InsertOk(InLeft(p, true, s, up), t)
    ensures InsertOk(InRight(t.left, t.node, true, up), Fork(t.right, p, true, s))
    ensures Inorder(Plug(InRight(t.left, t.node, true, up), Fork(t.right, p, true, s)))
         == Inorder(Plug(InLeft(p, true, s, up), t))
  {
    RotationInorder(t.left, t.node, true, t.right, p, true, s);
    PlugSame(up, Fork(t.left, t.node, true, Fork(t.right, p, true, s)), Fork(t, p, true, s));
  }

  /** With no red parent left, blackening the root finishes the insertion. */
  lemma {:induction false} InsertDone(c: Path, t: Shape)
    requires InsertOk(c, t) && !RedPath(c)
    ensures Plug(c, t).Fork? && RedBlack(Plug(c, t).(red := false))
    ensures Inorder(Plug(c, t).(red := false)) == Inorder(Plug(c, t))
  {
    if !c.Top? {
      PlugColoured(c, t);
      PlugNodes(c, t);
    }
  }

  // ---- removal

  /** All colour rules but the one that forbids red children of the root of t. */
  ghost predicate Nearly(t: Shape) {
    t.Fork? ==> Coloured(t.left) && Coloured(t.right) && Bh(t.left) == Bh(t.right)
  }

  /** The focus is one black node short. */
  ghost predicate DeleteOk(c: Path, t: Shape) {
    Nearly(t) && PathColoured(c, Bh(t) + 1)
  }

  /** Taking out a node with at most one child: a red one leaves no trace, a black one a deficit. */
  lemma SpliceColours(c: Path, t: Shape, v: Shape)
    requires t.Fork? && ((t.left.Leaf? && v == t.right) || (t.right.Leaf? && v == t.left))
    requires Coloured(t) && PathColoured(c, Bh(t)) && (IsRed(t) ==> !c.Top? && !c.red)
    ensures t.red ==> RedBlack(Plug(c, v))
    ensures !t.red ==> DeleteOk(c, v)
  {
    if t.red {
      PlugColoured(c, v);
    }
  }

  lemma SpliceInorder(c: Path, t: Shape, v: Shape)
    requires t.Fork? && ((t.left.Leaf? && v == t.right) || (t.right.Leaf? && v == t.left))
    ensures Added(Inorder(Plug(c, v)), Inorder(Plug(c, t)), t.node)
  {
    PlugInorder(c, t);
    PlugInorder(c, v);
    assert Inorder(v) == Inorder(t.left) + Inorder(t.right);
    DropInorder(Before(c), Inorder(t.left), t.node, Inorder(t.right), After(c));
  }

  lemma DropInorder(p: seq<Node>, l: seq<Node>, z: Node, r: seq<Node>, q: seq<Node>)
    ensures Added(p + (l + r) + q, p + (l + [z] + r) + q, z)
  {
    var s, i := p + (l + r) + q, |p| + |l|;
    assert p + (l + [z] + r) + q == s[..i] + [z] + s[i..];
  }

  /** Which node sits at a place of the path does not matter to the colours. */
  lemma {:induction false} SeatColours(p: Path, l: Shape, z: Node, y: Node, red: bool, c: Path, h: nat)
    ensures PathColoured(Append(p, InRight(l, z, red, c)), h) == PathColoured(Append(p, InRight(l, y, red, c)), h)
    ensures RedPath(Append(p, InRight(l, z, red, c))) == RedPath(Append(p, InRight(l, y, red, c)))
  {
    if !p.Top? {
      SeatColours(p.up, l, z, y, red, c, h + if p.red then 0 else 1);
    }
  }

  lemma {:induction false} SpineBefore(p: Path)
    requires Spine(p)
    ensures Before(p) == []
  {
    if !p.Top? {
      SpineBefore(p.up);
    }
  }

  /** The successor y of z, found down the spine p, takes the seat of z and leaves b behind. */
  lemma SuccessorColours(c: Path, l: Shape, z: Node, red: bool, p: Path, y: Node, yred: bool, b: Shape)
    requires RedBlack(Plug(c, Fork(l, z, red, Plug(p, Fork(Leaf, y, yred, b)))))
    ensures var cx := Append(p, InRight(l, y, red, c));
      if yred then RedBlack(Plug(cx, b)) else DeleteOk(cx, b)
  {
    var cz, cx, ty := Append(p, InRight(l, z, red, c)), Append(p, InRight(l, y, red, c)), Fork(Leaf, y, yred, b);
    PlugAppend(p, InRight(l, z, red, c), ty);
    UnplugColoured(cz, ty);
    SeatColours(p, l, z, y, red, c, Bh(ty));
    assert cx.Top? == cz.Top?;
    SpliceColours(cx, ty, b);
  }

  lemma PluggedForks(c: Path, l: Shape, y: Node, red: bool, p: Path, b: Shape)
    ensures Plug(InRight(l, y, red, c), Plug(p, b)) == Plug(c, Fork(l, y, red, Plug(p, b)))
  {
  }

  lemma SuccessorInorder(c: Path, l: Shape, z: Node, red: bool, p: Path, y: Node, yred: bool, b: Shape)
    requires Spine(p)
    ensures Plug(Append(p, InRight(l, y, red, c)), b) == Plug(c, Fork(l, y, red, Plug(p, b)))
    ensures Added(Inorder(Plug(c, Fork(l, y, red, Plug(p, b)))),
                  Inorder(Plug(c, Fork(l, z, red, Plug(p, Fork(Leaf, y, yred, b))))), z)
  {
    PlugAppend(p, InRight(l, y, red, c), b);
    PluggedForks(c, l, y, red, p, b);
    hide Plug, Before, After, Spine, Added, Append;
    SpineInorder(p, y, yred, b);
    PlugInorder(c, Fork(l, z, red, Plug(p, Fork(Leaf, y, yred, b))));
    PlugInorder(c, Fork(l, y, red, Plug(p, b)));
    DropInorder(Before(c), Inorder(l), z, [y] + Inorder(Plug(p, b)), After(c));
    assert Inorder(l) + [y] + Inorder(Plug(p, b)) == Inorder(l) + ([y] + Inorder(Plug(p, b)));
  }

  lemma SpineInorder(p: Path, y: Node, yred: bool, b: Shape)
    requires Spine(p)
    ensures Inorder(Plug(p, Fork(Leaf, y, yred, b))) == [y] + Inorder(Plug(p, b))
  {
    hide Plug, Before, After, Spine;
    SpineBefore(p);
    PlugInorder(p, Fork(Leaf, y, yred, b));
    PlugInorder(p, b);
    assert Inorder(Fork(Leaf, y, yred, b)) == [y] + Inorder(b);
    assert [] + ([y] + Inorder(b)) + After(p) == [y] + ([] + Inorder(b) + After(p));
  }

  /** A focus that is one black short has a sibling. */
  lemma SiblingExists(c: Path, t: Shape)
    requires DeleteOk(c, t) && !c.Top?
    ensures Sibling(c).Fork?
  {
  }

  /** Red sibling: after the rotation the focus has a black sibling and a red parent. */
  lemma RedSiblingLeft(t: Shape, p: Node, red: bool, w: Shape, up: Path)
    requires DeleteOk(InLeft(p, red, w, up), t) && IsRed(w)
    ensures !red
    ensures DeleteOk(InLeft(p, true, w.left, InLeft(w.node, false, w.right, up)), t) && !IsRed(w.left)
    ensures Inorder(Plug(InLeft(p, true, w.left, InLeft(w.node, false, w.right, up)), t))
         == Inorder(Plug(InLeft(p, red, w, up), t))
  {
    RotationInorder(t, p, true, w.left, w.node, false, w.right);
    assert Inorder(Fork(t, p, true, w.(red := false))) == Inorder(Fork(t, p, red, w));
    PlugSame(up, Fork(Fork(t, p, true, w.left), w.node, false, w.right), Fork(t, p, red, w));
  }

  lemma RedSiblingRight(t: Shape, p: Node, red: bool, w: Shape, up: Path)
    requires DeleteOk(InRight(w, p, red, up), t) && IsRed(w)
    ensures !red
    ensures DeleteOk(InRight(w.right, p, true, InRight(w.left, w.node, false, up)), t) && !IsRed(w.right)
    ensures Inorder(Plug(InRight(w.right, p, true, InRight(w.left, w.node, false, up)), t))
         == Inorder(Plug(InRight(w, p, red, up), t))
  {
    RotationInorder(w.left, w.node, false, w.right, p, true, t);
    assert Inorder(Fork(w.(red := false), p, true, t)) == Inorder(Fork(w, p, red, t));
    PlugSame(up, Fork(w.left, w.node, false, Fork(w.right, p, true, t)), Fork(w, p, red, t));
  }

  /** Black sibling with black children: it turns red and the deficit moves up. */
  lemma DeficitUp(c: Path, t: Shape)
    requires DeleteOk(c, t) && !IsRed(t) && !c.Top?
    requires var w := Sibling(c); w.Fork? && !w.red && !IsRed(w.left) && !IsRed(w.right)
    ensures DeleteOk(c.up, Frame(PaintSibling(c), t))
    ensures Inorder(Plug(c.up, Frame(PaintSibling(c), t))) == Inorder(Plug(c, t))
  {
    var w := Sibling(c);
    assert Inorder(w.(red := true)) == Inorder(w);
    PlugSame(c.up, Frame(PaintSibling(c), t), Frame(c, t));
  }

  ghost function PaintSibling(c: Path): (c': Path)
    requires !c.Top? && Sibling(c).Fork?
    ensures !c'.Top? && c'.up == c.up
  {
    if c.InLeft? then c.(right := c.right.(red := true)) else c.(left := c.left.(red := true))
  }

  /** Red nephew on the inner side: it is rotated to the outer side. */
  lemma InnerNephewLeft(t: Shape, p: Node, red: bool, w: Shape, up: Path)
    requires DeleteOk(InLeft(p, red, w, up), t) && w.Fork? && !w.red && IsRed(w.left) && !IsRed(w.right)
    ensures var w' := Fork(w.left.left, w.left.node, false, Fork(w.left.right, w.node, true, w.right));
      && DeleteOk(InLeft(p, red, w', up), t)
      && Inorder(Plug(InLeft(p, red, w', up), t)) == Inorder(Plug(InLeft(p, red, w, up), t))
  {
    var w' := Fork(w.left.left, w.left.node, false, Fork(w.left.right, w.node, true, w.right));
    assert Coloured(w) && Coloured(w.left) && Coloured(Fork(w.left.right, w.node, true, w.right));
    assert Coloured(w') && Bh(w') == Bh(w);
    RotationInorder(w.left.left, w.left.node, false, w.left.right, w.node, true, w.right);
    assert Inorder(Fork(w.left.(red := false), w.node, true, w.right)) == Inorder(w);
    PlugSame(up, Fork(t, p, red, w'), Fork(t, p, red, w));
  }

  lemma InnerNephewRight(t: Shape, p: Node, red: bool, w: Shape, up: Path)
    requires DeleteOk(InRight(w, p, red, up), t) && w.Fork? && !w.red && IsRed(w.right) && !IsRed(w.left)
    ensures var w' := Fork(Fork(w.left, w.node, true, w.right.left), w.right.node, false, w.right.right);
      && DeleteOk(InRight(w', p, red, up), t)
      && Inorder(Plug(InRight(w', p, red, up), t)) == Inorder(Plug(InRight(w, p, red, up), t))
  {
    var w' := Fork(Fork(w.left, w.node, true, w.right.left), w.right.node, false, w.right.right);
    assert Coloured(w) && Coloured(w.right) && Coloured(Fork(w.left, w.node, true, w.right.left));
    assert Coloured(w') && Bh(w') == Bh(w);
    RotationInorder(w.left, w.node, true, w.right.left, w.right.node, false, w.right.right);
    assert Inorder(Fork(w.left, w.node, true, w.right.(red := false))) == Inorder(w);
    PlugSame(up, Fork(w', p, red, t), Fork(w, p, red, t));
  }

  /** Red nephew on the outer side: one rotation makes up for the missing black node. */
  lemma OuterNephewLeft(t: Shape, p: Node, red: bool, w: Shape, up: Path)
    requires DeleteOk(InLeft(p, red, w, up), t) && !IsRed(t) && w.Fork? && !w.red && IsRed(w.right)
    ensures var r := Fork(Fork(t, p, false, w.left), w.node, red, w.right.(red := false));
      RedBlack(Plug(up, r)) && Inorder(Plug(up, r)) == Inorder(Plug(InLeft(p, red, w, up), t))
  {
    var r := Fork(Fork(t, p, false, w.left), w.node, red, w.right.(red := false));
    assert Coloured(w) && Coloured(w.right) && Coloured(w.right.(red := false)) && Coloured(Fork(t, p, false, w.left));
    PlugColoured(up, r);
    RotationInorder(t, p, false, w.left, w.node, red, w.right.(red := false));
    assert Inorder(Fork(w.left, w.node, red, w.right.(red := false))) == Inorder(w);
    PlugSame(up, r, Fork(t, p, red, w));
  }

  lemma OuterNephewRight(t: Shape, p: Node, red: bool, w: Shape, up: Path)
    requires DeleteOk(InRight(w, p, red, up), t) && !IsRed(t) && w.Fork? && !w.red && IsRed(w.left)
    ensures var r := Fork(w.left.(red := false), w.node, red, Fork(w.right, p, false, t));
      RedBlack(Plug(up, r)) && Inorder(Plug(up, r)) == Inorder(Plug(InRight(w, p, red, up), t))
  {
    var r := Fork(w.left.(red := false), w.node, red, Fork(w.right, p, false, t));
    assert Coloured(w) && Coloured(w.left) && Coloured(w.left.(red := false)) && Coloured(Fork(w.right, p, false, t));
    PlugColoured(up, r);
    RotationInorder(w.left.(red := false), w.node, red, w.right, p, false, t);
    assert Inorder(Fork(w.left.(red := false), w.node, red, w.right)) == Inorder(w);
    PlugSame(up, r, Fork(w, p, red, t));
  }

  /** At the root, or on a red node, blackening the focus ends the removal. */
  lemma DeleteDone(c: Path, t: Shape)
    requires DeleteOk(c, t) && (c.Top? || IsRed(t))
    ensures t.Fork? ==> RedBlack(Plug(c, t.(red := false))) && Inorder(Plug(c, t.(red := false))) == Inorder(Plug(c, t))
  {
    if t.Fork? {
      PlugColoured(c, t.(red := false));
      PlugSame(c, t.(red := false), t);
    }
  }

  /** One node less in key order is one node less in the tree, and the order stays. */
  lemma RemovedNodes(w: Shape, t: Shape, z: Node)
    requires Added(Inorder(w), Inorder(t), z) && Sorted(Inorder(t))
    ensures Sorted(Inorder(w)) && Nodes(w) == Nodes(t) - {z}
  {
    hide Inorder, Nodes, Sorted;
    var s, s' := Inorder(w), Inorder(t);
    var i :| 0 <= i <= |s| && s' == s[..i] + [z] + s[i..];
    assert s == s[..i] + s[i..];
    SortedAround(s[..i], z, s[i..]);
    SortedAppend(s[..i], s[i..]);
    NodesAreInorder(w);
    NodesAreInorder(t);
    assert forall n :: n in s' <==> n == z || n in s[..i] || n in s[i..];
    assert forall n :: n in s <==> n in s[..i] || n in s[i..];
    assert z in s';
  }
}
