/**
 The buddy allocator of kernel/src/mm/pmm.c on values: how the managed pages are cut
 into aligned power-of-two blocks, and what the descriptor array and the free lists
 say about that.  Page numbers stand for addresses divided by ARCH_PAGE_GRAN.
 */
module BuddyLayout {
  import opened Words
  import opened Pow
  import opened Bits

  const MAX_ORDER: nat := 10

  datatype Descriptor = Descriptor(order: nat, free: bool)

  /** Free blocks are on a list, used ones belong to a caller, the held one is being worked on. */
  datatype Owner = Free | Used | Held

  datatype Piece = Piece(order: nat, owner: Owner)

  /** The blocks by their first page. */
  type Layout = map<nat, Piece>

  function Buddy(i: nat, o: nat): nat {
    Xor(i, Pow2(o))
  }

  ghost predicate Placed(m: Layout, n: nat) {
    forall i :: i in m ==> m[i].order <= MAX_ORDER && Aligned(i, m[i].order) && i + Pow2(m[i].order) <= n
  }

  ghost predicate Apart(m: Layout) {
    forall i, j :: i in m && j in m && i < j ==> i + Pow2(m[i].order) <= j
  }

  ghost predicate Within(m: Layout, i: nat, k: nat) {
    i in m && i <= k < i + Pow2(m[i].order)
  }

  /** The blocks cover exactly the managed pages. */
  ghost predicate Covers(m: Layout, pages: set<nat>) {
    && (forall i: nat, k: nat :: Within(m, i, k) ==> k in pages)
    && (forall k :: k in pages ==> exists i: nat :: Within(m, i, k))
  }

  /** Each free list holds exactly the free blocks of its order, once each. */
  ghost predicate Listed(m: Layout, levels: seq<seq<nat>>) {
    && |levels| == MAX_ORDER + 1
    && (forall o :: 0 <= o <= MAX_ORDER ==> Distinct(levels[o]))
    && (forall o, i :: 0 <= o <= MAX_ORDER && i in levels[o] ==> i in m && m[i] == Piece(o, Free))
    && (forall i :: i in m && m[i].owner == Free && m[i].order <= MAX_ORDER ==> i in levels[m[i].order])
  }

  /** The descriptors at the heads of free and used blocks are right. */
  ghost predicate Described(m: Layout, blocks: seq<Descriptor>) {
    forall i :: i in m && m[i].owner != Held && i < |blocks| ==> blocks[i] == Descriptor(m[i].order, m[i].owner == Free)
  }

  /** Page j lies behind the head of block h, and a block of order o fits there. */
  ghost predicate Inside(m: Layout, h: nat, j: nat, o: nat) {
    h in m && h < j && j + Pow2(o) <= h + Pow2(m[h].order) && Aligned(j, o)
  }

  /** A descriptor still marked free that heads no block is a leftover inside a larger one. */
  ghost predicate Leftovers(m: Layout, blocks: seq<Descriptor>) {
    forall j :: 0 <= j < |blocks| && blocks[j].free && j !in m ==> exists h: nat :: Inside(m, h, j, blocks[j].order)
  }

  ghost predicate Inv(m: Layout, blocks: seq<Descriptor>, levels: seq<seq<nat>>, pages: set<nat>) {
    Placed(m, |blocks|) && Apart(m) && Covers(m, pages) && Listed(m, levels) && Described(m, blocks)
      && Leftovers(m, blocks)
  }

  /** No block is being worked on. */
  ghost predicate Settled(m: Layout) {
    forall i :: i in m ==> m[i].owner != Held
  }

  /** Block b is the one being worked on. */
  ghost predicate OnlyHeld(m: Layout, b: nat) {
    b in m && m[b].owner == Held && forall i :: i in m && i != b ==> m[i].owner != Held
  }

  // ---- arithmetic of blocks

  lemma BuddyPair(i: nat, o: nat)
    requires Aligned(i, o)
    ensures var b, l := Buddy(i, o), if i < Buddy(i, o) then i else Buddy(i, o);
      && b != i && Aligned(b, o) && Buddy(b, o) == i
      && Aligned(l, o + 1) && ((i == l && b == l + Pow2(o)) || (b == l && i == l + Pow2(o)))
  {
    XorBit(i, o);
    var b := Buddy(i, o);
    if Aligned(i, o + 1) {
      AlignedAdd(i, o, o);
      XorBit(b, o);
      if Aligned(b, o + 1) {
        AlignedGap(i, b, o + 1);
        assert false;
      }
    } else {
      AlignedDown(b, o + 1, o);
      XorBit(b, o);
    }
  }

  /** An aligned block that contains one page of an aligned smaller block contains all of it. */
  lemma Nested(h: nat, c: nat, l: nat, o: nat, k: nat)
    requires Aligned(h, c) && Aligned(l, o) && o <= c
    requires h <= k < h + Pow2(c) && l <= k < l + Pow2(o)
    ensures h <= l && l + Pow2(o) <= h + Pow2(c)
  {
    AlignedDown(h, c, o);
    AlignedAdd(h, o, c);
    if l < h {
      AlignedGap(l, h, o);
    }
    AlignedGap(l, h + Pow2(c), o);
  }

  // ---- no stale descriptor is acted upon

  /** Whenever pmm_free reads a free buddy of the right order, that buddy is on the list of that order. */
  lemma BuddyIsListed(m: Layout, blocks: seq<Descriptor>, i: nat)
    requires Placed(m, |blocks|) && Apart(m) && Described(m, blocks) && Leftovers(m, blocks)
    requires OnlyHeld(m, i)
    requires var b := Buddy(i, m[i].order); b < |blocks| && blocks[b] == Descriptor(m[i].order, true)
    ensures var b := Buddy(i, m[i].order); b in m && m[b] == Piece(m[i].order, Free)
  {
    var o := m[i].order;
    var b := Buddy(i, o);
    BuddyPair(i, o);
    if b !in m {
      var h: nat :| Inside(m, h, b, blocks[b].order);
      Pow2Strict(o, m[h].order);
      var l := if i < b then i else b;
      Nested(h, m[h].order, l, o + 1, b);
      assert false;
    }
  }

  // ---- free lists

  /** list_remove of one entry. */
  function Without(s: seq<nat>, x: nat): (r: seq<nat>) {
    if s == [] then [] else if s[0] == x then s[1..] else [s[0]] + Without(s[1..], x)
  }

  lemma {:induction false} WithoutIsRemoval(s: seq<nat>, x: nat)
    requires Distinct(s)
    ensures Distinct(Without(s, x)) && x !in Without(s, x)
    ensures forall y :: y in Without(s, x) ==> y in s
    ensures forall y :: y in s && y != x ==> y in Without(s, x)
  {
    if s != [] {
      assert s == [s[0]] + s[1..];
      assert s[0] !in s[1..];
      if s[0] != x {
        WithoutIsRemoval(s[1..], x);
      }
    }
  }

  lemma Unlisted(m: Layout, m': Layout, levels: seq<seq<nat>>, b: nat)
    requires Listed(m, levels) && b in m && m[b].owner == Free && m[b].order <= MAX_ORDER
    requires b in m' ==> m'[b].owner != Free
    requires forall i :: i != b && i in m && m[i].owner == Free ==> i in m' && m'[i] == m[i]
    requires forall i :: i != b && i in m' && m'[i].owner == Free ==> i in m && m[i] == m'[i]
    ensures Listed(m', levels[m[b].order := Without(levels[m[b].order], b)])
  {
    WithoutIsRemoval(levels[m[b].order], b);
  }

  lemma Relisted(m: Layout, m': Layout, levels: seq<seq<nat>>, b: nat)
    requires Listed(m, levels) && b in m' && m'[b].owner == Free && m'[b].order <= MAX_ORDER
    requires b in m ==> m[b].owner != Free
    requires forall i :: i != b && i in m && m[i].owner == Free ==> i in m' && m'[i] == m[i]
    requires forall i :: i != b && i in m' && m'[i].owner == Free ==> i in m && m[i] == m'[i]
    ensures Listed(m', levels[m'[b].order := levels[m'[b].order] + [b]])
  {
    assert b !in levels[m'[b].order];
  }

  // ---- the steps of pmm_alloc and pmm_free

  ghost predicate SameCut(m: Layout, m': Layout) {
    m.Keys == m'.Keys && forall i :: i in m ==> m[i].order == m'[i].order
  }

  lemma OwnerIrrelevant(m: Layout, m': Layout, blocks: seq<Descriptor>, pages: set<nat>)
    requires SameCut(m, m')
    ensures Placed(m, |blocks|) ==> Placed(m', |blocks|)
    ensures Apart(m) ==> Apart(m')
    ensures Covers(m, pages) ==> Covers(m', pages)
    ensures Leftovers(m, blocks) ==> Leftovers(m', blocks)
  {
    assert forall i: nat, k: nat :: Within(m, i, k) <==> Within(m', i, k);
    assert forall h: nat, j: nat, o: nat :: Inside(m, h, j, o) <==> Inside(m', h, j, o);
  }

  /** What the descriptor at the head of a block says does not concern the leftovers. */
  lemma HeadIrrelevant(m: Layout, blocks: seq<Descriptor>, b: nat, d: Descriptor)
    requires Leftovers(m, blocks) && b in m && b < |blocks|
    ensures Leftovers(m, blocks[b := d])
  {
    var blocks' := blocks[b := d];
    forall j | 0 <= j < |blocks'| && blocks'[j].free && j !in m
      ensures exists h: nat :: Inside(m, h, j, blocks'[j].order)
    {
      assert blocks'[j] == blocks[j];
    }
  }

  /** The list head leaves its list. */
  lemma TakeStep(m: Layout, blocks: seq<Descriptor>, levels: seq<seq<nat>>, pages: set<nat>, b: nat)
    requires Inv(m, blocks, levels, pages) && b in m && m[b].owner == Free
    ensures var o := m[b].order;
      Inv(m[b := Piece(o, Held)], blocks, levels[o := Without(levels[o], b)], pages)
  {
    var m' := m[b := Piece(m[b].order, Held)];
    OwnerIrrelevant(m, m', blocks, pages);
    Unlisted(m, m', levels, b);
  }

  /** The caller's block goes into or out of work. */
  lemma GrantStep(m: Layout, blocks: seq<Descriptor>, levels: seq<seq<nat>>, pages: set<nat>, b: nat)
    requires Inv(m, blocks, levels, pages) && b in m && m[b].owner == Held
    ensures Inv(m[b := Piece(m[b].order, Used)], blocks[b := Descriptor(m[b].order, false)], levels, pages)
  {
    hide Apart, Covers, Leftovers;
    var m' := m[b := Piece(m[b].order, Used)];
    OwnerIrrelevant(m, m', blocks, pages);
    HeadIrrelevant(m', blocks, b, Descriptor(m[b].order, false));
  }

  lemma ReclaimStep(m: Layout, blocks: seq<Descriptor>, levels: seq<seq<nat>>, pages: set<nat>, b: nat)
    requires Inv(m, blocks, levels, pages) && b in m && m[b].owner == Used
    ensures Inv(m[b := Piece(m[b].order, Held)], blocks, levels, pages)
  {
    hide Placed, Apart, Covers, Leftovers;
    OwnerIrrelevant(m, m[b := Piece(m[b].order, Held)], blocks, pages);
  }

  lemma ReleaseStep(m: Layout, blocks: seq<Descriptor>, levels: seq<seq<nat>>, pages: set<nat>, b: nat)
    requires Inv(m, blocks, levels, pages) && b in m && m[b].owner == Held
    ensures var o := m[b].order;
      Inv(m[b := Piece(o, Free)], blocks[b := Descriptor(o, true)], levels[o := levels[o] + [b]], pages)
  {
    var o := m[b].order;
    var m' := m[b := Piece(o, Free)];
    OwnerIrrelevant(m, m', blocks, pages);
    Relisted(m, m', levels, b);
    HeadIrrelevant(m', blocks, b, Descriptor(o, true));
  }

  /** Cutting the held block of order o + 1 in two halves of order o. */
  ghost function Halved(m: Layout, b: nat): Layout
    requires b in m && m[b].order > 0
  {
    var o := m[b].order - 1;
    m[b := Piece(o, Held)][b + Pow2(o) := Piece(o, Free)]
  }

  lemma HalvedFresh(m: Layout, b: nat)
    requires Apart(m) && b in m && m[b].order > 0
    ensures b + Pow2(m[b].order - 1) !in m
  {
    assert Pow2(m[b].order) == 2 * Pow2(m[b].order - 1);
  }

  lemma HalvedPlaced(m: Layout, n: nat, b: nat)
    requires Placed(m, n) && b in m && m[b].order > 0
    ensures b + Pow2(m[b].order - 1) < n && Placed(Halved(m, b), n)
  {
    var o := m[b].order - 1;
    AlignedDown(b, o + 1, o);
    AlignedAdd(b, o, o);
  }

  lemma HalvedApart(m: Layout, b: nat)
    requires Apart(m) && b in m && m[b].order > 0
    ensures Apart(Halved(m, b))
  {
    var o := m[b].order - 1;
    var r, m' := b + Pow2(o), Halved(m, b);
    assert Pow2(o + 1) == 2 * Pow2(o);
    forall i, j | i in m' && j in m' && i < j ensures i + Pow2(m'[i].order) <= j {
      var i', j' := if i == r then b else i, if j == r then b else j;
      assert i' in m && j' in m;
    }
  }

  lemma HalvedCovers(m: Layout, pages: set<nat>, b: nat)
    requires Covers(m, pages) && b in m && m[b].order > 0 && b + Pow2(m[b].order - 1) !in m
    ensures Covers(Halved(m, b), pages)
  {
    var o := m[b].order - 1;
    var r, m' := b + Pow2(o), Halved(m, b);
    assert Pow2(o + 1) == 2 * Pow2(o);
    forall i: nat, k: nat | Within(m', i, k) ensures k in pages {
      assert Within(m, if i == r then b else i, k);
    }
    forall k | k in pages ensures exists i: nat :: Within(m', i, k) {
      var i: nat :| Within(m, i, k);
      assert Within(m', if i == b && r <= k then r else i, k);
    }
  }

  lemma HalvedLeftovers(m: Layout, blocks: seq<Descriptor>, b: nat)
    requires Leftovers(m, blocks) && b in m && m[b].order > 0 && Aligned(b, m[b].order)
    requires b + Pow2(m[b].order - 1) < |blocks| && b + Pow2(m[b].order - 1) !in m
    ensures Leftovers(Halved(m, b), blocks[b + Pow2(m[b].order - 1) := Descriptor(m[b].order - 1, true)])
  {
    var o := m[b].order - 1;
    var r, m' := b + Pow2(o), Halved(m, b);
    var blocks' := blocks[r := Descriptor(o, true)];
    AlignedDown(b, o + 1, o);
    AlignedAdd(b, o, o);
    forall j | 0 <= j < |blocks'| && blocks'[j].free && j !in m'
      ensures exists h: nat :: Inside(m', h, j, blocks'[j].order)
    {
      var h: nat :| Inside(m, h, j, blocks[j].order);
      if h == b {
        LeftoverHalf(b, o, j, blocks[j].order);
        assert Inside(m', if j < r then b else r, j, blocks'[j].order);
      } else {
        assert Inside(m', h, j, blocks'[j].order);
      }
    }
  }

  /** A leftover behind the head of a block lies in one of its halves. */
  lemma LeftoverHalf(b: nat, o: nat, j: nat, s: nat)
    requires Aligned(b, o + 1) && Aligned(j, s) && b < j && j + Pow2(s) <= b + Pow2(o + 1)
    ensures j < b + Pow2(o) ==> j + Pow2(s) <= b + Pow2(o)
  {
    Pow2Strict(s, o + 1);
    AlignedDown(b, o + 1, s);
    AlignedAdd(b, s, o);
    if j < b + Pow2(o) {
      AlignedGap(j, b + Pow2(o), s);
    }
  }

  lemma HalvedListed(m: Layout, levels: seq<seq<nat>>, b: nat)
    requires Listed(m, levels) && b in m && m[b].owner == Held && 0 < m[b].order <= MAX_ORDER
    requires b + Pow2(m[b].order - 1) !in m
    ensures var o := m[b].order - 1;
      Listed(Halved(m, b), levels[o := levels[o] + [b + Pow2(o)]])
  {
    Relisted(m, Halved(m, b), levels, b + Pow2(m[b].order - 1));
  }

  lemma HalvedDescribed(m: Layout, blocks: seq<Descriptor>, b: nat)
    requires Described(m, blocks) && b in m && m[b].order > 0 && b + Pow2(m[b].order - 1) < |blocks|
    ensures Described(Halved(m, b), blocks[b + Pow2(m[b].order - 1) := Descriptor(m[b].order - 1, true)])
  {
  }

  lemma SplitStep(m: Layout, blocks: seq<Descriptor>, levels: seq<seq<nat>>, pages: set<nat>, b: nat)
    requires Inv(m, blocks, levels, pages) && b in m && m[b].owner == Held && m[b].order > 0
    ensures var o := m[b].order - 1; var r := Buddy(b, o);
      && r == b + Pow2(o) && r < |blocks|
      && Inv(Halved(m, b), blocks[r := Descriptor(o, true)], levels[o := levels[o] + [r]], pages)
  {
    var o := m[b].order - 1;
    AlignedDown(b, o + 1, o);
    XorBit(b, o);
    HalvedFresh(m, b);
    HalvedPlaced(m, |blocks|, b);
    HalvedApart(m, b);
    HalvedCovers(m, pages, b);
    HalvedLeftovers(m, blocks, b);
    HalvedListed(m, levels, b);
    HalvedDescribed(m, blocks, b);
  }

  /** The held block i and its free buddy become one held block. */
  ghost function Merged(m: Layout, i: nat): Layout
    requires i in m
  {
    var o := m[i].order;
    var b := Buddy(i, o);
    var l := if i < b then i else b;
    (m - {i, b})[l := Piece(o + 1, Held)]
  }

  lemma MergedPlaced(m: Layout, n: nat, i: nat)
    requires Placed(m, n) && i in m && m[i].order < MAX_ORDER
    requires var b := Buddy(i, m[i].order); b in m && m[b].order == m[i].order
    ensures Placed(Merged(m, i), n)
  {
    BuddyPair(i, m[i].order);
  }

  lemma MergedApart(m: Layout, i: nat)
    requires Apart(m) && i in m && Aligned(i, m[i].order)
    requires var b := Buddy(i, m[i].order); b in m && m[b].order == m[i].order
    ensures Apart(Merged(m, i))
  {
    var o := m[i].order;
    var b := Buddy(i, o);
    BuddyPair(i, o);
    var l, m' := if i < b then i else b, Merged(m, i);
    var r := l + Pow2(o);
    forall j, k | j in m' && k in m' && j < k ensures j + Pow2(m'[j].order) <= k {
      if j == l {
        assert r + Pow2(o) <= k;
      } else {
        assert j + Pow2(m[j].order) <= k;
      }
    }
  }

  lemma MergedCovers(m: Layout, pages: set<nat>, i: nat)
    requires Covers(m, pages) && i in m && Aligned(i, m[i].order)
    requires var b := Buddy(i, m[i].order); b in m && m[b].order == m[i].order
    ensures Covers(Merged(m, i), pages)
  {
    var o := m[i].order;
    var b := Buddy(i, o);
    BuddyPair(i, o);
    var l, m' := if i < b then i else b, Merged(m, i);
    var r := l + Pow2(o);
    forall j: nat, k: nat | Within(m', j, k) ensures k in pages {
      assert Within(m, if j == l && r <= k then r else j, k);
    }
    forall k | k in pages ensures exists j: nat :: Within(m', j, k) {
      var j: nat :| Within(m, j, k);
      assert Within(m', if j == r then l else j, k);
    }
  }

  lemma MergedLeftovers(m: Layout, blocks: seq<Descriptor>, i: nat)
    requires Leftovers(m, blocks) && i in m && Aligned(i, m[i].order) && i < |blocks|
    requires var b := Buddy(i, m[i].order);
      b in m && m[b].order == m[i].order && b < |blocks| && blocks[b].order == m[i].order
    requires blocks[i].free ==> blocks[i].order <= m[i].order
    ensures Leftovers(Merged(m, i), blocks)
  {
    var o := m[i].order;
    var b := Buddy(i, o);
    BuddyPair(i, o);
    var l, m' := if i < b then i else b, Merged(m, i);
    var r := l + Pow2(o);
    forall j | 0 <= j < |blocks| && blocks[j].free && j !in m'
      ensures exists h: nat :: Inside(m', h, j, blocks[j].order)
    {
      if j == r {
        AbsorbedInside(m', l, o, blocks[j].order);
      } else {
        var h: nat :| Inside(m, h, j, blocks[j].order);
        assert Inside(m', if h == r then l else h, j, blocks[j].order);
      }
    }
  }

  /** The absorbed right buddy keeps its descriptor, now inside the merged block. */
  lemma AbsorbedInside(m: Layout, l: nat, o: nat, s: nat)
    requires l in m && m[l].order == o + 1 && s <= o && Aligned(l + Pow2(o), o)
    ensures Inside(m, l, l + Pow2(o), s)
  {
    AlignedDown(l + Pow2(o), o, s);
    Pow2Strict(s, o);
  }

  lemma MergedListed(m: Layout, levels: seq<seq<nat>>, i: nat)
    requires Listed(m, levels) && i in m && m[i].owner == Held && m[i].order <= MAX_ORDER
    requires var b := Buddy(i, m[i].order); b in m && m[b] == Piece(m[i].order, Free)
    ensures var o := m[i].order;
      Listed(Merged(m, i), levels[o := Without(levels[o], Buddy(i, o))])
  {
    Unlisted(m, Merged(m, i), levels, Buddy(i, m[i].order));
  }

  lemma MergeStep(m: Layout, blocks: seq<Descriptor>, levels: seq<seq<nat>>, pages: set<nat>, i: nat)
    requires Inv(m, blocks, levels, pages) && i in m && m[i].owner == Held && m[i].order < MAX_ORDER
    requires var b := Buddy(i, m[i].order); b in m && m[b] == Piece(m[i].order, Free)
    requires blocks[i].free ==> blocks[i].order <= m[i].order
    ensures var o := m[i].order;
      Inv(Merged(m, i), blocks, levels[o := Without(levels[o], Buddy(i, o))], pages)
  {
    BuddyPair(i, m[i].order);
    MergedPlaced(m, |blocks|, i);
    MergedApart(m, i);
    MergedCovers(m, pages, i);
    MergedLeftovers(m, blocks, i);
    MergedListed(m, levels, i);
  }

  // ---- what allocation and release do to the layout

  /** Halves the held block b until it has order o; the right halves become free. */
  ghost function SplitTo(m: Layout, b: nat, o: nat): Layout
    requires b in m
    decreases m[b].order
  {
    if m[b].order <= o then m else SplitTo(Halved(m, b), b, o)
  }

  ghost function AllocLayout(m: Layout, b: nat, o: nat): Layout
    requires b in m
  {
    SplitTo(m[b := Piece(m[b].order, Held)], b, o)[b := Piece(o, Used)]
  }

  ghost predicate FreeBuddy(m: Layout, i: nat)
    requires i in m
  {
    var b := Buddy(i, m[i].order);
    m[i].order < MAX_ORDER && b in m && m[b] == Piece(m[i].order, Free)
  }

  ghost function Left(m: Layout, i: nat): nat
    requires i in m
  {
    var b := Buddy(i, m[i].order);
    if i < b then i else b
  }

  /** Merges the held block i with its buddy as long as that is free, then frees it. */
  ghost function MergeUp(m: Layout, i: nat): Layout
    requires i in m
    decreases MAX_ORDER - m[i].order
  {
    if FreeBuddy(m, i) then MergeUp(Merged(m, i), Left(m, i)) else m[i := Piece(m[i].order, Free)]
  }

  ghost function FreeLayout(m: Layout, i: nat): Layout
    requires i in m
  {
    MergeUp(m[i := Piece(m[i].order, Held)], i)
  }

  // ---- coalescing

  /** No free block below the top order has a free buddy of its order. */
  ghost predicate Coalesced(m: Layout) {
    forall i :: i in m && m[i].owner == Free ==> !FreeBuddy(m, i)
  }

  lemma HalvedCoalesced(m: Layout, n: nat, b: nat)
    requires Placed(m, n) && Coalesced(m) && b in m && m[b].owner == Held && m[b].order > 0
    requires b + Pow2(m[b].order - 1) !in m
    ensures Coalesced(Halved(m, b))
  {
    var m', o := Halved(m, b), m[b].order - 1;
    var r := b + Pow2(o);
    AlignedDown(b, o + 1, o);
    XorBit(b, o);
    BuddyPair(b, o);
    forall i | i in m' && m'[i].owner == Free ensures !FreeBuddy(m', i) {
      if i != r {
        assert i in m && m[i] == m'[i] && !FreeBuddy(m, i);
        if Buddy(i, m[i].order) == r && m[i].order == o {
          BuddyPair(i, o);
        }
      }
    }
  }

  lemma {:induction false} SplitCoalesced(m: Layout, n: nat, b: nat, o: nat)
    requires Placed(m, n) && Apart(m) && Coalesced(m) && b in m && m[b].owner == Held
    ensures b in SplitTo(m, b, o) && Coalesced(SplitTo(m, b, o)) && SplitTo(m, b, o)[b].owner == Held
    ensures o <= m[b].order ==> SplitTo(m, b, o)[b].order == o
    decreases m[b].order
  {
    if m[b].order > o {
      HalvedFresh(m, b);
      HalvedPlaced(m, n, b);
      HalvedApart(m, b);
      HalvedCoalesced(m, n, b);
      SplitCoalesced(Halved(m, b), n, b, o);
    }
  }

  /** Allocation keeps free memory maximally coalesced. */
  lemma AllocCoalesced(m: Layout, n: nat, b: nat, o: nat)
    requires Placed(m, n) && Apart(m) && Coalesced(m) && b in m && m[b].owner == Free
    ensures Coalesced(AllocLayout(m, b, o))
  {
    var h := m[b := Piece(m[b].order, Held)];
    assert Coalesced(h) by {
      forall i | i in h && h[i].owner == Free ensures !FreeBuddy(h, i) {
        assert !FreeBuddy(m, i);
      }
    }
    SplitCoalesced(h, n, b, o);
    var s := SplitTo(h, b, o);
    var u: Layout := s[b := Piece(o, Used)];
    forall i | i in u && u[i].owner == Free ensures !FreeBuddy(u, i) {
      assert !FreeBuddy(s, i);
    }
  }

  lemma {:induction false} MergeCoalesced(m: Layout, n: nat, i: nat)
    requires Placed(m, n) && Apart(m) && Coalesced(m) && i in m && m[i].owner == Held
    ensures Coalesced(MergeUp(m, i))
    decreases MAX_ORDER - m[i].order
  {
    BuddyPair(i, m[i].order);
    if FreeBuddy(m, i) {
      var m' := Merged(m, i);
      MergedPlaced(m, n, i);
      MergedApart(m, i);
      forall j | j in m' && m'[j].owner == Free ensures !FreeBuddy(m', j) {
        assert !FreeBuddy(m, j);
      }
      MergeCoalesced(m', n, Left(m, i));
    } else {
      var m' := m[i := Piece(m[i].order, Free)];
      forall j | j in m' && m'[j].owner == Free ensures !FreeBuddy(m', j) {
        BuddyPair(j, m'[j].order);
        if j != i {
          assert !FreeBuddy(m, j);
        }
      }
    }
  }

  /** Releasing a block keeps free memory maximally coalesced. */
  lemma FreeCoalesced(m: Layout, n: nat, i: nat)
    requires Placed(m, n) && Apart(m) && Coalesced(m) && i in m && m[i].owner == Used
    ensures Coalesced(FreeLayout(m, i))
  {
    var h := m[i := Piece(m[i].order, Held)];
    forall j | j in h && h[j].owner == Free ensures !FreeBuddy(h, j) {
      assert !FreeBuddy(m, j);
    }
    MergeCoalesced(h, n, i);
  }

  // ---- an allocation undone at once

  lemma MergeUndoesHalving(m: Layout, n: nat, b: nat)
    requires Placed(m, n) && b in m && m[b].owner == Held && m[b].order > 0
    requires b + Pow2(m[b].order - 1) !in m
    ensures FreeBuddy(Halved(m, b), b) && Left(Halved(m, b), b) == b && Merged(Halved(m, b), b) == m
  {
    var o := m[b].order - 1;
    AlignedDown(b, o + 1, o);
    XorBit(b, o);
  }

  lemma {:induction false} MergeUndoesSplit(m: Layout, n: nat, b: nat, o: nat)
    requires Placed(m, n) && Apart(m) && b in m && m[b].owner == Held
    ensures b in SplitTo(m, b, o) && SplitTo(m, b, o)[b].owner == Held && MergeUp(SplitTo(m, b, o), b) == MergeUp(m, b)
    ensures o <= m[b].order ==> SplitTo(m, b, o)[b].order == o
    decreases m[b].order
  {
    if m[b].order > o {
      HalvedFresh(m, b);
      HalvedPlaced(m, n, b);
      HalvedApart(m, b);
      MergeUndoesHalving(m, n, b);
      MergeUndoesSplit(Halved(m, b), n, b, o);
    }
  }

  /** pmm_free right after pmm_alloc restores exactly the blocks there were. */
  lemma AllocFreeRestores(m: Layout, n: nat, b: nat, o: nat)
    requires Placed(m, n) && Apart(m) && Coalesced(m)
    requires b in m && m[b].owner == Free && o <= m[b].order
    ensures b in AllocLayout(m, b, o) && FreeLayout(AllocLayout(m, b, o), b) == m
  {
    var h := m[b := Piece(m[b].order, Held)];
    MergeUndoesSplit(h, n, b, o);
    var s := SplitTo(h, b, o);
    var u: Layout := s[b := Piece(o, Used)];
    assert u[b := Piece(o, Held)] == s;
    BuddyPair(b, m[b].order);
    assert !FreeBuddy(m, b);
    assert h[b := Piece(m[b].order, Free)] == m;
  }

  // ---- carving at start-up

  ghost predicate Between(a: nat, k: nat, b: nat) { a <= k < b }

  ghost function Range(a: nat, b: nat): set<nat> {
    set k: nat | a <= k < b && Between(a, k, b)
  }

  /** None of the pages from a to b is managed. */
  ghost predicate Unmanaged(pages: set<nat>, a: nat, b: nat) {
    forall k :: k in pages ==> !(a <= k < b)
  }

  /** A free block over pages that were not managed before. */
  lemma CarveStep(m: Layout, blocks: seq<Descriptor>, levels: seq<seq<nat>>, pages: set<nat>, a: nat, o: nat,
                  pages': set<nat>)
    requires Inv(m, blocks, levels, pages)
    requires o <= MAX_ORDER && Aligned(a, o) && a + Pow2(o) <= |blocks| && Unmanaged(pages, a, a + Pow2(o))
    requires pages' == pages + Range(a, a + Pow2(o))
    ensures Inv(m[a := Piece(o, Free)], blocks[a := Descriptor(o, true)], levels[o := levels[o] + [a]], pages')
  {
    CarvedApart(m, pages, a, o);
    CarvedCovers(m, pages, a, o, pages');
    Relisted(m, m[a := Piece(o, Free)], levels, a);
    CarvedLeftovers(m, blocks, a, o);
    CarvedDescribed(m, blocks, a, o);
  }

  lemma CarvedApart(m: Layout, pages: set<nat>, a: nat, o: nat)
    requires Apart(m) && Covers(m, pages) && Unmanaged(pages, a, a + Pow2(o))
    ensures a !in m && Apart(m[a := Piece(o, Free)])
  {
    assert !Within(m, a, a);
    forall i | i in m ensures i + Pow2(m[i].order) <= a || a + Pow2(o) <= i {
      assert !Within(m, i, a);
      assert Within(m, i, i);
    }
  }

  lemma CarvedCovers(m: Layout, pages: set<nat>, a: nat, o: nat, pages': set<nat>)
    requires Covers(m, pages) && a !in m && pages' == pages + Range(a, a + Pow2(o))
    ensures Covers(m[a := Piece(o, Free)], pages')
  {
    var m' := m[a := Piece(o, Free)];
    forall i: nat, k: nat | Within(m', i, k) ensures k in pages' {
      assert i != a ==> Within(m, i, k);
    }
    forall k | k in pages' ensures exists i: nat :: Within(m', i, k) {
      if k in pages {
        var i: nat :| Within(m, i, k);
        assert Within(m', i, k);
      } else {
        assert Within(m', a, k);
      }
    }
  }

  lemma CarvedDescribed(m: Layout, blocks: seq<Descriptor>, a: nat, o: nat)
    requires Described(m, blocks) && a < |blocks|
    ensures Described(m[a := Piece(o, Free)], blocks[a := Descriptor(o, true)])
  {
  }

  lemma CarvedLeftovers(m: Layout, blocks: seq<Descriptor>, a: nat, o: nat)
    requires Leftovers(m, blocks) && a !in m && a < |blocks|
    ensures Leftovers(m[a := Piece(o, Free)], blocks[a := Descriptor(o, true)])
  {
    var m', blocks' := m[a := Piece(o, Free)], blocks[a := Descriptor(o, true)];
    forall j | 0 <= j < |blocks'| && blocks'[j].free && j !in m'
      ensures exists h: nat :: Inside(m', h, j, blocks'[j].order)
    {
      var h: nat :| Inside(m, h, j, blocks[j].order);
      assert Inside(m', h, j, blocks'[j].order);
    }
  }

  /** A stretch of pages that pmm_init hands out. */
  datatype Region = Region(start: nat, end: nat)

  /** The block could not have been larger within its region. */
  ghost predicate Greedy(g: Region, i: nat, o: nat) {
    && g.start <= i && i + Pow2(o) <= g.end
    && (o < MAX_ORDER ==> !(Aligned(i, o + 1) && i + Pow2(o + 1) <= g.end))
  }

  ghost predicate GreedyIn(regions: seq<Region>, i: nat, o: nat) {
    exists k :: 0 <= k < |regions| && Greedy(regions[k], i, o)
  }

  ghost predicate AllGreedy(m: Layout, regions: seq<Region>) {
    forall i :: i in m ==> GreedyIn(regions, i, m[i].order)
  }

  ghost predicate NoTouching(regions: seq<Region>) {
    forall j, k :: 0 <= j < k < |regions| ==> regions[j].end < regions[k].start
  }

  lemma GreedyPair(regions: seq<Region>, j: nat, k: nat, l: nat, o: nat)
    requires NoTouching(regions) && j < |regions| && k < |regions| && o < MAX_ORDER && Aligned(l, o + 1)
    requires Greedy(regions[j], l, o)
    ensures !Greedy(regions[k], l + Pow2(o), o)
  {
    assert Pow2(o + 1) == 2 * Pow2(o);
  }

  lemma GreedyRight(regions: seq<Region>, l: nat, o: nat)
    requires NoTouching(regions) && o < MAX_ORDER && Aligned(l, o + 1) && GreedyIn(regions, l, o)
    ensures !GreedyIn(regions, l + Pow2(o), o)
  {
    var j :| 0 <= j < |regions| && Greedy(regions[j], l, o);
    forall k | 0 <= k < |regions| ensures !Greedy(regions[k], l + Pow2(o), o) {
      GreedyPair(regions, j, k, l, o);
    }
  }

  lemma GreedyAlone(m: Layout, regions: seq<Region>, i: nat)
    requires AllGreedy(m, regions) && NoTouching(regions) && i in m && Aligned(i, m[i].order)
    ensures !FreeBuddy(m, i)
  {
    var o := m[i].order;
    var b := Buddy(i, o);
    BuddyPair(i, o);
    var l := if i < b then i else b;
    if o < MAX_ORDER && l in m && m[l].order == o {
      GreedyRight(regions, l, o);
    }
  }

  /** Greedy carving of regions that do not touch leaves no pair of free buddies. */
  lemma GreedyCoalesced(m: Layout, n: nat, regions: seq<Region>)
    requires Placed(m, n) && AllGreedy(m, regions) && NoTouching(regions)
    ensures Coalesced(m)
  {
    forall i | i in m && m[i].owner == Free ensures !FreeBuddy(m, i) {
      GreedyAlone(m, regions, i);
    }
  }
}
