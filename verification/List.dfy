/** The intrusive doubly linked list of kernel/src/lib/list.c. */
module List {
  import opened Words

  class Node {
    var prev: Node?
    var next: Node?

    constructor ()
      ensures prev == null && next == null
    {
      prev, next := null, null;
    }
  }

  /** What a node's links hold. */
  datatype Cell = Cell(prev: Node?, next: Node?)

  type Cells = map<Node, Cell>

  ghost function Snapshot(nodes: set<Node>): Cells
    reads nodes
  {
    map x | x in nodes :: Cell(x.prev, x.next)
  }

  ghost function Members(s: seq<Node>): set<Node> { set x | x in s }

  /** The node at position i; there is none before the first or after the last. */
  ghost function At(s: seq<Node>, i: int): Node? { if 0 <= i < |s| then s[i] else null }

  /** Forward and backward links both spell out s. */
  ghost predicate Spells(m: Cells, s: seq<Node>) {
    forall i :: 0 <= i < |s| ==> s[i] in m && m[s[i]] == Cell(At(s, i - 1), At(s, i + 1))
  }

  /** From m to m': the node l now leads on to x, the node r back to y, and no other link has changed. */
  ghost predicate Relinked(m: Cells, m': Cells, l: Node?, x: Node?, r: Node?, y: Node?) {
    forall z :: z in m && z in m' ==> m'[z] == Cell(if z == r then y else m[z].prev, if z == l then x else m[z].next)
  }

  function Insert(s: seq<Node>, k: nat, n: Node): seq<Node>
    requires k <= |s|
    ensures |Insert(s, k, n)| == |s| + 1
  {
    s[..k] + [n] + s[k..]
  }

  lemma InsertAt(s: seq<Node>, k: nat, n: Node, i: int)
    requires k <= |s|
    ensures At(Insert(s, k, n), i) == if i < k then At(s, i) else if i == k then n else At(s, i - 1)
  {
  }

  lemma InsertNodes(s: seq<Node>, k: nat, n: Node)
    requires k <= |s|
    ensures Members(Insert(s, k, n)) == Members(s) + {n}
  {
    assert s == s[..k] + s[k..];
  }

  lemma InsertDistinct(s: seq<Node>, k: nat, n: Node)
    requires k <= |s| && Distinct(s) && n !in s
    ensures Distinct(Insert(s, k, n))
  {
    var t := Insert(s, k, n);
    forall i, j | 0 <= i < j < |t| ensures t[i] != t[j] {
      InsertAt(s, k, n, i);
      InsertAt(s, k, n, j);
    }
  }

  lemma InsertedAt(m: Cells, m': Cells, s: seq<Node>, k: nat, n: Node, i: nat)
    requires k <= |s| && Spells(m, s) && Distinct(s) && n !in s && m'.Keys == m.Keys + {n} && i <= |s|
    requires Relinked(m, m', At(s, k - 1), n, At(s, k), n) && m'[n] == Cell(At(s, k - 1), At(s, k))
    ensures var t := Insert(s, k, n); t[i] in m' && m'[t[i]] == Cell(At(t, i - 1), At(t, i + 1))
  {
    hide Insert, Spells, Relinked, Distinct;
    InsertAt(s, k, n, i - 1);
    InsertAt(s, k, n, i);
    InsertAt(s, k, n, i + 1);
    if i != k {
      Neighbour(m, m', s, k, n, if i < k then i else i - 1);
    }
  }

  /** A node put at position k. */
  lemma Inserted(m: Cells, m': Cells, s: seq<Node>, k: nat, n: Node)
    requires k <= |s| && Spells(m, s) && Distinct(s) && n !in s && n !in m && m'.Keys == m.Keys + {n}
    requires Relinked(m, m', At(s, k - 1), n, At(s, k), n) && m'[n] == Cell(At(s, k - 1), At(s, k))
    ensures Spells(m', Insert(s, k, n))
  {
    hide Insert, Relinked, Distinct, At;
    var t := Insert(s, k, n);
    forall i | 0 <= i < |t| ensures t[i] in m' && m'[t[i]] == Cell(At(t, i - 1), At(t, i + 1)) {
      InsertedAt(m, m', s, k, n, i);
    }
  }

  lemma Neighbour(m: Cells, m': Cells, s: seq<Node>, k: nat, n: Node, j: nat)
    requires k <= |s| && j < |s| && Spells(m, s) && Distinct(s) && n !in s && m'.Keys == m.Keys + {n}
    requires Relinked(m, m', At(s, k - 1), n, At(s, k), n)
    ensures s[j] in m' && m'[s[j]] == Cell(if j == k then n else At(s, j - 1), if j == k - 1 then n else At(s, j + 1))
  {
    assert s[j] in m && m[s[j]] == Cell(At(s, j - 1), At(s, j + 1));
    AtOnce(s, k - 1, j);
    AtOnce(s, k, j);
    hide At, Distinct, Spells;
  }

  function Remove(s: seq<Node>, k: nat): seq<Node>
    requires k < |s|
    ensures |Remove(s, k)| == |s| - 1
  {
    s[..k] + s[k + 1..]
  }

  lemma RemoveAt(s: seq<Node>, k: nat, i: int)
    requires k < |s|
    ensures At(Remove(s, k), i) == if i < k then At(s, i) else At(s, i + 1)
  {
  }

  lemma RemoveNodes(s: seq<Node>, k: nat)
    requires k < |s| && Distinct(s)
    ensures Members(Remove(s, k)) == Members(s) - {s[k]}
  {
    assert s == s[..k] + [s[k]] + s[k + 1..];
  }

  lemma RemoveDistinct(s: seq<Node>, k: nat)
    requires k < |s| && Distinct(s)
    ensures Distinct(Remove(s, k)) && s[k] !in Remove(s, k)
  {
    var t := Remove(s, k);
    forall i, j | 0 <= i < j < |t| ensures t[i] != t[j] {
      RemoveAt(s, k, i);
      RemoveAt(s, k, j);
    }
    forall i | 0 <= i < |t| ensures t[i] != s[k] {
      RemoveAt(s, k, i);
    }
  }

  lemma AtOnce(s: seq<Node>, i: int, j: nat)
    requires Distinct(s) && j < |s|
    ensures At(s, i) == s[j] <==> i == j
  {
  }

  lemma Survivor(m: Cells, m': Cells, s: seq<Node>, k: nat, j: nat)
    requires k < |s| && j < |s| && j != k && Spells(m, s) && Distinct(s) && m'.Keys == m.Keys
    requires Relinked(m, m', At(s, k - 1), At(s, k + 1), At(s, k + 1), At(s, k - 1))
    ensures s[j] in m' && m'[s[j]] == Cell(At(s, if j == k + 1 then k - 1 else j - 1),
                                           At(s, if j == k - 1 then k + 1 else j + 1))
  {
    assert s[j] in m && m[s[j]] == Cell(At(s, j - 1), At(s, j + 1));
    AtOnce(s, k - 1, j);
    AtOnce(s, k + 1, j);
    hide At, Distinct, Spells;
  }

  lemma RemovedAt(m: Cells, m': Cells, s: seq<Node>, k: nat, i: nat)
    requires k < |s| && i < |s| - 1 && Spells(m, s) && Distinct(s) && m'.Keys == m.Keys
    requires Relinked(m, m', At(s, k - 1), At(s, k + 1), At(s, k + 1), At(s, k - 1))
    ensures var t := Remove(s, k); t[i] in m' && m'[t[i]] == Cell(At(t, i - 1), At(t, i + 1))
  {
    hide Remove, Spells, Relinked, Distinct;
    RemoveAt(s, k, i - 1);
    RemoveAt(s, k, i);
    RemoveAt(s, k, i + 1);
    Survivor(m, m', s, k, if i < k then i else i + 1);
  }

  /** The node at position k taken out. */
  lemma Removed(m: Cells, m': Cells, s: seq<Node>, k: nat)
    requires k < |s| && Spells(m, s) && Distinct(s) && m'.Keys == m.Keys
    requires Relinked(m, m', At(s, k - 1), At(s, k + 1), At(s, k + 1), At(s, k - 1))
    ensures Spells(m', Remove(s, k))
  {
    hide Remove, Relinked, Distinct, At;
    var t := Remove(s, k);
    forall i | 0 <= i < |t| ensures t[i] in m' && m'[t[i]] == Cell(At(t, i - 1), At(t, i + 1)) {
      RemovedAt(m, m', s, k, i);
    }
  }

  /** The links of the nodes of s after n was put between positions k-1 and k, when they were m before. */
  ghost predicate Hooked(m: Cells, nodes: set<Node>, s: seq<Node>, n: Node, k: nat)
    reads nodes, n
  {
    && n.prev == At(s, k - 1) && n.next == At(s, k) && m.Keys == nodes
    && forall x :: x in nodes ==>
         && x.prev == (if x == At(s, k) then n else m[x].prev)
         && x.next == (if x == At(s, k - 1) then n else m[x].next)
  }

  lemma HookedSpells(m: Cells, s: seq<Node>, n: Node, k: nat)
    requires k <= |s| && Spells(m, s) && Distinct(s) && n !in s && Hooked(m, Members(s), s, n, k)
    ensures var t := Insert(s, k, n);
      Distinct(t) && Spells(Snapshot(Members(s) + {n}), t) && Members(t) == Members(s) + {n}
    ensures At(Insert(s, k, n), 0) == if k == 0 then n else At(s, 0)
    ensures At(Insert(s, k, n), |s|) == if k == |s| then n else At(s, |s| - 1)
  {
    hide Insert, Distinct, Spells, At;
    InsertNodes(s, k, n);
    InsertDistinct(s, k, n);
    InsertAt(s, k, n, 0);
    InsertAt(s, k, n, |s|);
    Inserted(m, Snapshot(Members(s) + {n}), s, k, n);
  }

  /** The links of the nodes of s after the node at position k was passed over. */
  ghost predicate Bypassed(m: Cells, nodes: set<Node>, s: seq<Node>, k: nat)
    reads nodes
  {
    && m.Keys == nodes
    && forall x :: x in nodes ==>
         && x.prev == (if x == At(s, k + 1) then At(s, k - 1) else m[x].prev)
         && x.next == (if x == At(s, k - 1) then At(s, k + 1) else m[x].next)
  }

  lemma BypassedSpells(m: Cells, s: seq<Node>, k: nat)
    requires k < |s| && Spells(m, s) && Distinct(s) && Bypassed(m, Members(s), s, k)
    ensures var t := Remove(s, k);
      Distinct(t) && Spells(Snapshot(Members(s) - {s[k]}), t) && Members(t) == Members(s) - {s[k]}
    ensures At(Remove(s, k), 0) == if k == 0 then At(s, 1) else At(s, 0)
    ensures At(Remove(s, k), |s| - 2) == if k == |s| - 1 then At(s, k - 1) else At(s, |s| - 1)
  {
    hide Remove, Distinct, Spells, At;
    RemoveNodes(s, k);
    RemoveDistinct(s, k);
    RemoveAt(s, k, 0);
    RemoveAt(s, k, |s| - 2);
    Removed(m, Snapshot(Members(s)), s, k);
    Fewer(Snapshot(Members(s)), Snapshot(Members(s) - {s[k]}), Remove(s, k));
  }

  lemma Fewer(m: Cells, m': Cells, s: seq<Node>)
    requires Spells(m, s) && Members(s) <= m'.Keys && forall x :: x in m' ==> x in m && m'[x] == m[x]
    ensures Spells(m', s)
  {
    forall i | 0 <= i < |s| ensures s[i] in m' {
      assert s[i] in Members(s);
    }
  }

  ghost predicate Shows(m: Cells, nodes: set<Node>)
    reads nodes
  {
    m.Keys == nodes && forall x :: x in nodes ==> m[x].prev == x.prev && m[x].next == x.next
  }

  /** The links at a gap, and whether it is at an end. */
  ghost predicate Gap(m: Cells, s: seq<Node>, k: nat)
    requires k <= |s|
  {
    && (k > 0 ==> s[k - 1] in m && m[s[k - 1]].next == At(s, k) && (At(s, |s| - 1) == s[k - 1] <==> k == |s|))
    && (k < |s| ==> s[k] in m && m[s[k]].prev == At(s, k - 1) && (At(s, 0) == s[k] <==> k == 0))
  }

  lemma Around(m: Cells, s: seq<Node>, k: nat)
    requires k <= |s| && Spells(m, s) && Distinct(s)
    ensures Gap(m, s, k)
  {
  }

  class List {
    var length: nat
    var head: Node?
    var tail: Node?
    /** The nodes in order, and as a set. */
    ghost var nodes: seq<Node>
    ghost var repr: set<Node>

    ghost predicate Valid()
      reads this, repr
    {
      && Distinct(nodes) && Spells(Snapshot(repr), nodes) && length == |nodes|
      && head == At(nodes, 0) && tail == At(nodes, |nodes| - 1) && repr == Members(nodes)
    }

    constructor ()
      ensures Valid() && nodes == []
    {
      length, head, tail, nodes, repr := 0, null, null, [], {};
    }

    /** list_is_empty; its sanity check never fails. */
    method IsEmpty() returns (empty: bool)
      requires Valid()
      ensures empty <==> nodes == []
    {
      assert (head == null) == (length == 0);
      empty := head == null;
    }

    /** The length goes up, and the list is whole again. */
    method CountIn(n: Node, ghost k: nat, ghost m: Cells)
      requires k <= |nodes| && n !in nodes && length == |nodes| && repr == Members(nodes)
      requires Hooked(m, repr, nodes, n, k) && Spells(m, nodes) && Distinct(nodes)
      requires head == (if k == 0 then n else At(nodes, 0))
        && tail == (if k == |nodes| then n else At(nodes, |nodes| - 1))
      modifies this`length, this`nodes, this`repr
      ensures Valid() && nodes == Insert(old(nodes), k, n)
    {
      hide Distinct, Spells, Snapshot, Insert, At, Hooked, Members;
      HookedSpells(m, nodes, n, k);
      length := length + 1;
      nodes := Insert(nodes, k, n);
      repr := repr + {n};
    }

    /** Lines 16-41 of list_insert_after: the links and ends. */
    method HookAfter(pos: Node?, n: Node, ghost k: nat, ghost m: Cells)
      requires n !in repr && k <= |nodes| && pos == At(nodes, k - 1) && (pos == null ==> nodes == [])
        && repr == Members(nodes)
      requires Gap(m, nodes, k) && Shows(m, repr) && head == At(nodes, 0) && tail == At(nodes, |nodes| - 1)
      modifies this`head, this`tail, repr, n
      ensures Hooked(m, repr, nodes, n, k)
      ensures head == (if k == 0 then n else At(nodes, 0))
        && tail == (if k == |nodes| then n else At(nodes, |nodes| - 1))
    {
      if pos == null {
        head := n;
        tail := n;
        n.prev := null;
        n.next := null;
      } else {
        n.prev := pos;
        n.next := pos.next;
        if n.next != null {
          n.next.prev := n;
        }
        pos.next := n;
        if tail == pos {
          tail := n;
        }
      }
    }

    /** list_insert_after: n comes to stand at position k, after pos; a null position needs an empty list. */
    method InsertAfter(pos: Node?, n: Node, ghost k: nat)
      requires Valid() && n !in nodes && k <= |nodes| && pos == At(nodes, k - 1) && (pos == null ==> nodes == [])
      modifies this, repr, n
      ensures Valid() && nodes == Insert(old(nodes), k, n)
    {
      ghost var m := Snapshot(repr);
      hide Distinct, Spells, Insert, At, Gap, Hooked;
      Around(m, nodes, k);
      HookAfter(pos, n, k, m);
      CountIn(n, k, m);
    }

    /** Lines 48-73 of list_insert_before. */
    method HookBefore(pos: Node?, n: Node, ghost k: nat, ghost m: Cells)
      requires n !in repr && k <= |nodes| && pos == At(nodes, k) && (pos == null ==> nodes == [])
        && repr == Members(nodes)
      requires Gap(m, nodes, k) && Shows(m, repr) && head == At(nodes, 0) && tail == At(nodes, |nodes| - 1)
      modifies this`head, this`tail, repr, n
      ensures Hooked(m, repr, nodes, n, k)
      ensures head == (if k == 0 then n else At(nodes, 0))
        && tail == (if k == |nodes| then n else At(nodes, |nodes| - 1))
    {
      if pos == null {
        head := n;
        tail := n;
        n.prev := null;
        n.next := null;
      } else {
        n.prev := pos.prev;
        n.next := pos;
        if n.prev != null {
          n.prev.next := n;
        }
        pos.prev := n;
        if head == pos {
          head := n;
        }
      }
    }

    /** list_insert_before: n comes to stand at position k, before pos; a null position needs an empty list. */
    method InsertBefore(pos: Node?, n: Node, ghost k: nat)
      requires Valid() && n !in nodes && k <= |nodes| && pos == At(nodes, k) && (pos == null ==> nodes == [])
      modifies this, repr, n
      ensures Valid() && nodes == Insert(old(nodes), k, n)
    {
      ghost var m := Snapshot(repr);
      hide Distinct, Spells, Insert, At, Gap, Hooked;
      Around(m, nodes, k);
      HookBefore(pos, n, k, m);
      CountIn(n, k, m);
    }

    /** list_append. */
    method Append(n: Node)
      requires Valid() && n !in nodes
      modifies this, repr, n
      ensures Valid() && nodes == old(nodes) + [n]
    {
      hide Spells, Distinct, Snapshot, Members;
      InsertAfter(tail, n, |nodes|);
    }

    /** list_prepend. */
    method Prepend(n: Node)
      requires Valid() && n !in nodes
      modifies this, repr, n
      ensures Valid() && nodes == [n] + old(nodes)
    {
      hide Spells, Distinct, Snapshot, Members;
      InsertBefore(head, n, 0);
    }

    /** Lines 92-100 of list_remove. */
    method Unhook(n: Node, ghost k: nat, ghost m: Cells)
      requires k < |nodes| && n == nodes[k] && repr == Members(nodes)
      requires Gap(m, nodes, k) && Gap(m, nodes, k + 1) && Shows(m, repr) && head == At(nodes, 0)
        && tail == At(nodes, |nodes| - 1)
      modifies this`head, this`tail, repr
      ensures Bypassed(m, repr, nodes, k)
      ensures head == (if k == 0 then At(nodes, 1) else At(nodes, 0))
      ensures tail == (if k == |nodes| - 1 then At(nodes, k - 1) else At(nodes, |nodes| - 1))
    {
      if n.prev != null {
        n.prev.next := n.next;
      }
      if n.next != null {
        n.next.prev := n.prev;
      }
      if head == n {
        head := n.next;
      }
      if tail == n {
        tail := n.prev;
      }
    }

    /** list_remove of the node at position k. */
    method Take(n: Node, ghost k: nat)
      requires Valid() && k < |nodes| && n == nodes[k]
      modifies this, repr
      ensures Valid() && nodes == Remove(old(nodes), k)
    {
      ghost var m := Snapshot(repr);
      hide Distinct, Spells, Remove, At, Gap, Bypassed;
      Around(m, nodes, k);
      Around(m, nodes, k + 1);
      Unhook(n, k, m);
      CountOut(k, m);
    }

    method CountOut(ghost k: nat, ghost m: Cells)
      requires k < |nodes| == length && repr == Members(nodes)
      requires Bypassed(m, repr, nodes, k) && Spells(m, nodes) && Distinct(nodes)
      requires head == (if k == 0 then At(nodes, 1) else At(nodes, 0))
      requires tail == (if k == |nodes| - 1 then At(nodes, k - 1) else At(nodes, |nodes| - 1))
      modifies this`length, this`nodes, this`repr
      ensures Valid() && nodes == Remove(old(nodes), k)
    {
      hide Distinct, Spells, Snapshot, Remove, At, Bypassed, Members;
      BypassedSpells(m, nodes, k);
      repr := repr - {nodes[k]};
      nodes := Remove(nodes, k);
      length := length - 1;
    }

    /** list_pop_head. */
    method PopHead() returns (n: Node?)
      requires Valid()
      modifies this, repr
      ensures Valid() && n == At(old(nodes), 0)
      ensures nodes == if old(nodes) == [] then [] else old(nodes)[1..]
    {
      hide Spells, Distinct;
      n := head;
      if n != null {
        Take(n, 0);
      }
    }

    /** list_pop_tail. */
    method PopTail() returns (n: Node?)
      requires Valid()
      modifies this, repr
      ensures Valid() && n == At(old(nodes), |old(nodes)| - 1)
      ensures nodes == if old(nodes) == [] then [] else old(nodes)[..|old(nodes)| - 1]
    {
      hide Spells, Distinct;
      n := tail;
      if n != null {
        Take(n, |nodes| - 1);
      }
    }
  }
}
