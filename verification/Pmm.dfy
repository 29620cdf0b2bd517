/** The physical page allocator of kernel/src/mm/pmm.c. */
module Pmm {
  import opened Words
  import opened Pow
  import opened Bits
  import opened BuddyLayout
  import BuddyRuns

  lemma HalvedHeld(m: Layout, b: nat)
    requires OnlyHeld(m, b) && m[b].order > 0
    ensures OnlyHeld(Halved(m, b), b) && Halved(m, b)[b].order == m[b].order - 1
  {
  }

  // ---- orders

  /** pmm_pagecount_to_order; a count of zero wraps to the largest u64 first. */
  function PagecountToOrder(pages: u64): nat {
    if pages == 1 then 0
    else 64 - Clz64(Wrap(pages - 1))
  }

  /** For one page or more it is the smallest order whose block holds that many pages. */
  lemma SmallestOrder(pages: u64)
    requires pages >= 1
    ensures pages <= Pow2(PagecountToOrder(pages))
    ensures forall o: nat :: o < PagecountToOrder(pages) ==> Pow2(o) < pages
  {
    hide BitLength, Wrap;
    if pages > 1 {
      BitLengthBounds(pages - 1);
      forall o: nat | o < PagecountToOrder(pages) ensures Pow2(o) < pages {
        Pow2Monotone(o, PagecountToOrder(pages) - 1);
      }
    }
  }

  const DESCRIPTOR_BYTES: nat := 32

  /** An entry of the boot memory map, in pages; the bootloader keeps usable entries page-aligned. */
  datatype MapEntry = MapEntry(start: nat, end: nat, usable: bool)

  /** What the boot protocol promises: some usable memory, sorted and without overlap. */
  ghost predicate BootMap(entries: seq<MapEntry>) {
    && (exists i :: 0 <= i < |entries| && entries[i].usable)
    && (forall i :: 0 <= i < |entries| && entries[i].usable ==> entries[i].start < entries[i].end)
    && (forall i, j :: 0 <= i < j < |entries| && entries[i].usable && entries[j].usable ==>
        entries[i].end <= entries[j].start)
  }

  ghost predicate Separated(entries: seq<MapEntry>) {
    forall i, j :: 0 <= i < j < |entries| && entries[i].usable && entries[j].usable ==>
      entries[i].end < entries[j].start
  }

  /** One past the last usable page. */
  ghost function BlockCount(entries: seq<MapEntry>): nat {
    if entries == [] then 0
    else if entries[|entries| - 1].usable then entries[|entries| - 1].end
    else BlockCount(entries[..|entries| - 1])
  }

  /** Pages taken by the descriptor array. */
  function ArrayPages(count: nat): nat {
    (count * DESCRIPTOR_BYTES + (PAGE - 1)) / PAGE
  }

  ghost predicate HasRoom(e: MapEntry, count: nat) {
    e.usable && e.start <= e.end && (e.end - e.start) * PAGE >= count * DESCRIPTOR_BYTES
  }

  /** The usable stretches, less the descriptor array at the start of the entry that hosts it. */
  ghost function Regions(entries: seq<MapEntry>, host: nat, reserve: nat): seq<Region> {
    if entries == [] then []
    else
      var i := |entries| - 1;
      var e := entries[i];
      Regions(entries[..i], host, reserve) +
      (if e.usable then [EntryRegion(e, i == host, reserve)] else [])
  }

  // ---- which pages those are, by bytes

  /** Page k meets the bytes of count descriptors that start at page p. */
  predicate MeetsArray(k: nat, p: nat, count: nat) {
    k * PAGE < p * PAGE + count * DESCRIPTOR_BYTES && p * PAGE < (k + 1) * PAGE
  }

  ghost predicate UsablePage(entries: seq<MapEntry>, k: nat) {
    exists i :: 0 <= i < |entries| && entries[i].usable && entries[i].start <= k < entries[i].end
  }

  /** A usable page that holds no descriptor. */
  ghost predicate ManagedPage(entries: seq<MapEntry>, host: nat, count: nat, k: nat)
    requires host < |entries|
  {
    UsablePage(entries, k) && !MeetsArray(k, entries[host].start, count)
  }

  /** The page count of the array is right: exactly the pages before it meet the array. */
  lemma ArrayPagesMeet(k: nat, p: nat, count: nat)
    requires count > 0 && p <= k
    ensures MeetsArray(k, p, count) <==> k < p + ArrayPages(count)
  {
  }

  /** An array that fits into its entry takes no page behind it. */
  lemma ArrayFits(e: MapEntry, count: nat)
    requires HasRoom(e, count)
    ensures e.start + ArrayPages(count) <= e.end
  {
  }

  predicate InRegion(g: Region, k: nat) { g.start <= k < g.end }

  /** Page k is in the stretch of some usable entry. */
  ghost predicate InEntries(entries: seq<MapEntry>, host: nat, reserve: nat, k: nat) {
    exists i :: 0 <= i < |entries| && entries[i].usable && InRegion(EntryRegion(entries[i], i == host, reserve), k)
  }

  lemma InOneMore(rs: seq<Region>, g: Region, k: nat)
    ensures InRegions(rs + [g], k) <==> InRegions(rs, k) || InRegion(g, k)
  {
    var t := rs + [g];
    assert t[|rs|] == g;
    if j :| 0 <= j < |rs| && InRegion(rs[j], k) {
      assert InRegion(t[j], k);
    }
  }

  lemma InOneEntryMore(entries: seq<MapEntry>, host: nat, reserve: nat, k: nat)
    requires entries != []
    ensures
      var n := |entries| - 1;
      InEntries(entries, host, reserve, k) <==>
        || InEntries(entries[..n], host, reserve, k)
        || (entries[n].usable && InRegion(EntryRegion(entries[n], n == host, reserve), k))
  {
    var n := |entries| - 1;
    if InEntries(entries, host, reserve, k) {
      var i :| 0 <= i < |entries| && entries[i].usable && InRegion(EntryRegion(entries[i], i == host, reserve), k);
      assert i < n ==> entries[..n][i] == entries[i];
    }
    if InEntries(entries[..n], host, reserve, k) {
      var i :| 0 <= i < n && entries[..n][i].usable && InRegion(EntryRegion(entries[..n][i], i == host, reserve), k);
      assert entries[..n][i] == entries[i];
    }
  }

  lemma {:induction false} RegionsAre(entries: seq<MapEntry>, host: nat, reserve: nat, k: nat)
    ensures InRegions(Regions(entries, host, reserve), k) <==> InEntries(entries, host, reserve, k)
  {
    if entries != [] {
      hide InRegions, InEntries;
      var n := |entries| - 1;
      RegionsAre(entries[..n], host, reserve, k);
      InOneEntryMore(entries, host, reserve, k);
      RegionsStep(entries, n, host, reserve);
      assert entries[..n + 1] == entries;
      InOneMore(Regions(entries[..n], host, reserve), EntryRegion(entries[n], n == host, reserve), k);
    }
  }

  /** The managed pages are exactly the usable ones that hold no descriptor. */
  lemma ManagedPages(entries: seq<MapEntry>, host: nat, count: nat, k: nat)
    requires BootMap(entries) && host < |entries| && HasRoom(entries[host], count) && count > 0
    ensures InRegions(Regions(entries, host, ArrayPages(count)), k) <==> ManagedPage(entries, host, count, k)
  {
    RegionsAre(entries, host, ArrayPages(count), k);
    ArrayFits(entries[host], count);
    if k >= entries[host].start {
      ArrayPagesMeet(k, entries[host].start, count);
    }
    hide Regions, InRegions, ArrayPages, HasRoom;
  }

  lemma {:induction false} BlockCountBound(entries: seq<MapEntry>)
    requires forall i, j :: 0 <= i < j < |entries| && entries[i].usable && entries[j].usable ==>
      entries[i].end <= entries[j].start
    requires forall i :: 0 <= i < |entries| && entries[i].usable ==> entries[i].start < entries[i].end
    ensures forall i :: 0 <= i < |entries| && entries[i].usable ==> entries[i].end <= BlockCount(entries)
  {
    if entries != [] {
      var last := entries[|entries| - 1];
      BlockCountBound(entries[..|entries| - 1]);
    }
  }

  /** Some usable entry ends there, and none later. */
  ghost predicate LastEnd(entries: seq<MapEntry>, count: nat) {
    && count > 0 && (exists i :: 0 <= i < |entries| && entries[i].usable && entries[i].end == count)
    && forall i :: 0 <= i < |entries| && entries[i].usable ==> entries[i].end <= count
  }

  lemma {:induction false} CountIsEnd(entries: seq<MapEntry>)
    requires exists i :: 0 <= i < |entries| && entries[i].usable
    ensures exists i :: 0 <= i < |entries| && entries[i].usable && entries[i].end == BlockCount(entries)
  {
    var n := |entries| - 1;
    if entries[n].usable {
      assert entries[n].end == BlockCount(entries);
    } else {
      var i :| 0 <= i < |entries| && entries[i].usable;
      assert entries[..n][i].usable;
      CountIsEnd(entries[..n]);
      var j :| 0 <= j < n && entries[..n][j].usable && entries[..n][j].end == BlockCount(entries[..n]);
      assert entries[j].usable && entries[j].end == BlockCount(entries);
    }
  }

  lemma LastEndIs(entries: seq<MapEntry>)
    requires BootMap(entries)
    ensures LastEnd(entries, BlockCount(entries))
  {
    BlockCountBound(entries);
    CountIsEnd(entries);
    hide BlockCount;
  }

  lemma {:induction false} RegionsBelow(entries: seq<MapEntry>, host: nat, reserve: nat, bound: nat)
    requires forall i :: 0 <= i < |entries| && entries[i].usable ==> entries[i].end < bound
    ensures forall k :: 0 <= k < |Regions(entries, host, reserve)| ==> Regions(entries, host, reserve)[k].end < bound
  {
    if entries != [] {
      RegionsBelow(entries[..|entries| - 1], host, reserve, bound);
    }
  }

  /** Separated entries give separated regions. */
  lemma {:induction false} RegionsApart(entries: seq<MapEntry>, host: nat, reserve: nat)
    requires Separated(entries)
    ensures NoTouching(Regions(entries, host, reserve))
  {
    if entries != [] {
      var n := |entries| - 1;
      RegionsApart(entries[..n], host, reserve);
      if entries[n].usable {
        RegionsBelow(entries[..n], host, reserve, entries[n].start);
      }
    }
  }

  /** m is m0 and free blocks carved greedily from g. */
  ghost predicate CarvedFrom(m0: Layout, m: Layout, g: Region) {
    forall i :: i in m ==> (i in m0 && m[i] == m0[i]) || (m[i].owner == Free && Greedy(g, i, m[i].order))
  }

  lemma CarvedMore(m0: Layout, m: Layout, g: Region, i: nat, o: nat)
    requires CarvedFrom(m0, m, g) && Greedy(g, i, o)
    ensures CarvedFrom(m0, m[i := Piece(o, Free)], g)
  {
  }

  /** Orders above the given one do not fit at the page. */
  ghost predicate Reached(g: Region, page: nat, order: nat, p0: set<nat>) {
    && g.start <= page <= g.end && order <= MAX_ORDER && Unmanaged(p0, g.start, g.end)
    && (order < MAX_ORDER ==> !(Aligned(page, order + 1) && page + Pow2(order + 1) <= g.end))
  }

  lemma LowerOrder(g: Region, page: nat, order: nat, p0: set<nat>)
    requires Reached(g, page, order, p0) && order > 0 && !(Aligned(page, order) && page + Pow2(order) <= g.end)
    ensures Reached(g, page, order - 1, p0)
  {
  }

  /** After carving up to b, the pages from b to c are still unmanaged, and carving them joins the ranges. */
  lemma UnmanagedRest(pages: set<nat>, a: nat, b: nat, c: nat, end: nat)
    requires Unmanaged(pages, a, end) && a <= b <= c <= end
    ensures Unmanaged(pages + Range(a, b), b, c)
    ensures pages + Range(a, b) + Range(b, c) == pages + Range(a, c)
  {
  }

  ghost function EntryRegion(e: MapEntry, hosting: bool, reserve: nat): Region {
    Region(if hosting then e.start + reserve else e.start, e.end)
  }

  lemma RegionsStep(entries: seq<MapEntry>, i: nat, host: nat, reserve: nat)
    requires i < |entries|
    ensures !entries[i].usable ==> Regions(entries[..i + 1], host, reserve) == Regions(entries[..i], host, reserve)
    ensures entries[i].usable ==>
      Regions(entries[..i + 1], host, reserve)
      == Regions(entries[..i], host, reserve) + [EntryRegion(entries[i], i == host, reserve)]
  {
    assert entries[..i + 1][..i] == entries[..i];
  }

  /** The allocator state after the entries that gave the regions: those pages, all free, carved greedily. */
  ghost predicate Filled(m: Layout, pages: set<nat>, regions: seq<Region>) {
    && (forall i :: i in m ==> m[i].owner == Free)
    && (forall k: nat :: k in pages <==> InRegions(regions, k))
    && AllGreedy(m, regions)
  }

  lemma FilledMore(m: Layout, m': Layout, pages: set<nat>, pages': set<nat>, regions: seq<Region>, g: Region)
    requires Filled(m, pages, regions) && CarvedFrom(m, m', g) && pages' == pages + Range(g.start, g.end)
    ensures Filled(m', pages', regions + [g])
  {
    var regions' := regions + [g];
    forall k: nat ensures k in pages' <==> InRegions(regions', k) {
      assert regions'[|regions|] == g;
      if InRegions(regions, k) {
        var j :| 0 <= j < |regions| && regions[j].start <= k < regions[j].end;
        assert regions'[j] == regions[j];
      }
    }
    forall i | i in m' ensures GreedyIn(regions', i, m'[i].order) {
      if i in m && m'[i] == m[i] {
        var k :| 0 <= k < |regions| && Greedy(regions[k], i, m[i].order);
        assert regions'[k] == regions[k];
      } else {
        assert Greedy(regions'[|regions|], i, m'[i].order);
      }
    }
  }

  /** The next region is below the block count and not managed yet. */
  lemma NextRegion(m: Layout, pages: set<nat>, entries: seq<MapEntry>, i: nat, host: nat)
    requires BootMap(entries) && i < |entries| && entries[i].usable
    requires i == host ==> HasRoom(entries[i], BlockCount(entries))
    requires Filled(m, pages, Regions(entries[..i], host, ArrayPages(BlockCount(entries))))
    ensures var g := EntryRegion(entries[i], i == host, ArrayPages(BlockCount(entries)));
      g.start <= g.end <= BlockCount(entries) && Unmanaged(pages, g.start, g.end)
  {
    var reserve := ArrayPages(BlockCount(entries));
    var regions := Regions(entries[..i], host, reserve);
    BlockCountBound(entries);
    RegionsBelow(entries[..i], host, reserve, entries[i].start + 1);
    forall k | k in pages ensures !(entries[i].start <= k < entries[i].end) {
      assert InRegions(regions, k);
    }
  }

  ghost predicate InRegions(regions: seq<Region>, k: nat) {
    exists j :: 0 <= j < |regions| && InRegion(regions[j], k)
  }

  lemma MergedHeld(m: Layout, i: nat)
    requires OnlyHeld(m, i) && Aligned(i, m[i].order) && FreeBuddy(m, i)
    ensures OnlyHeld(Merged(m, i), Left(m, i)) && Merged(m, i)[Left(m, i)].order == m[i].order + 1
  {
  }

  class Allocator {
    const blocks: array<Descriptor>
    const levels: array<seq<nat>>
    ghost var layout: Layout
    ghost var pages: set<nat>

    /** The descriptors and lists agree with the layout, which may have a block in work. */
    ghost predicate Working()
      reads this, blocks, levels
    {
      Inv(layout, blocks[..], levels[..], pages)
    }

    ghost predicate Valid()
      reads this, blocks, levels
    {
      Working() && Settled(layout)
    }

    /** The block with the smallest sufficient order, at the head of its list, is cut down to the order asked for. */
    method Alloc(order: nat) returns (r: Option<nat>)
      requires Valid() && order <= MAX_ORDER
      modifies this`layout, blocks, levels
      ensures Valid()
      ensures r.None? ==> layout == old(layout) && forall i :: i in layout && layout[i].owner == Free ==>
        layout[i].order < order
      ensures r.Some? ==> r.value in old(layout) && old(layout)[r.value].owner == Free
      ensures r.Some? ==> order <= old(layout)[r.value].order
      ensures r.Some? ==> forall i :: i in old(layout) && old(layout)[i].owner == Free && order <= old(layout)[i].order
                            ==> old(layout)[r.value].order <= old(layout)[i].order
      ensures r.Some? ==> old(layout)[r.value].order < levels.Length
      ensures r.Some? ==> [r.value] <= old(levels[..])[old(layout)[r.value].order]
      ensures r.Some? ==> layout == AllocLayout(old(layout), r.value, order)
    {
      var i := FindLevel(order);
      if i > MAX_ORDER {
        return None;
      }

      var block := levels[i][0];
      TakeHead(i, block);
      SplitDown(block, i, order);
      Grant(block, order);
      r := Some(block);
    }

    /** Lines 63-70: the first non-empty list from the given order on. */
    method FindLevel(order: nat) returns (i: nat)
      requires Valid() && order <= MAX_ORDER
      ensures order <= i <= MAX_ORDER + 1 && (i <= MAX_ORDER ==> levels[i] != [])
      ensures forall b :: b in layout && layout[b].owner == Free && order <= layout[b].order ==>
        i <= layout[b].order <= MAX_ORDER
    {
      i := order;
      while i <= MAX_ORDER && levels[i] == []
        invariant order <= i <= MAX_ORDER + 1
        invariant forall o :: order <= o < i ==> levels[..][o] == []
      {
        i := i + 1;
      }
    }

    method TakeHead(i: nat, block: nat)
      requires Valid() && i <= MAX_ORDER && levels[i] != [] && block == levels[i][0]
      modifies this`layout, levels
      ensures block in old(layout) && old(layout)[block] == Piece(i, Free)
      ensures Working() && layout == old(layout)[block := Piece(i, Held)] && OnlyHeld(layout, block)
    {
      assert block in levels[..][i];
      TakeStep(layout, blocks[..], levels[..], pages, block);
      ghost var lists := levels[..];
      levels[i] := Without(levels[i], block);
      layout := layout[block := Piece(i, Held)];
      assert levels[..] == lists[i := Without(lists[i], block)];
    }

    /** Lines 75-83: the right halves go to the free lists. */
    method SplitDown(block: nat, top: nat, order: nat)
      requires Working() && OnlyHeld(layout, block) && layout[block].order == top && order <= top
      modifies this`layout, blocks, levels
      ensures Working() && OnlyHeld(layout, block) && layout[block].order == order
      ensures layout == SplitTo(old(layout), block, order)
    {
      var i := top;
      while i > order
        invariant order <= i <= top
        invariant Working() && OnlyHeld(layout, block) && layout[block].order == i
        invariant SplitTo(layout, block, order) == SplitTo(old(layout), block, order)
      {
        SplitOnce(block, i);
        i := i - 1;
      }
    }

    /** Marks the descriptor free with the given order and appends it to that list. */
    method Enlist(page: nat, order: nat)
      requires page < blocks.Length && order < levels.Length
      modifies blocks, levels
      ensures blocks[..] == old(blocks[..])[page := Descriptor(order, true)]
      ensures levels[..] == old(levels[..])[order := old(levels[order]) + [page]]
    {
      blocks[page] := Descriptor(order, true);
      levels[order] := levels[order] + [page];
    }

    method SplitOnce(block: nat, i: nat)
      requires Working() && OnlyHeld(layout, block) && layout[block].order == i && i > 0
      modifies this`layout, blocks, levels
      ensures Working() && OnlyHeld(layout, block) && layout[block].order == i - 1
      ensures layout == Halved(old(layout), block)
    {
      ghost var descriptors, lists := blocks[..], levels[..];
      SplitStep(layout, descriptors, lists, pages, block);
      HalvedHeld(layout, block);
      var right := Xor(block, Pow2(i - 1));
      Enlist(right, i - 1);
      layout := Halved(layout, block);
    }

    method Grant(block: nat, order: nat)
      requires Working() && OnlyHeld(layout, block) && layout[block].order == order
      modifies this`layout, blocks
      ensures Valid() && layout == old(layout)[block := Piece(order, Used)]
    {
      ghost var descriptors := blocks[..];
      GrantStep(layout, descriptors, levels[..], pages, block);
      blocks[block] := Descriptor(order, false);
      layout := layout[block := Piece(order, Used)];
      assert blocks[..] == descriptors[block := Descriptor(order, false)];
    }

    /** Gives an outstanding block back; it is merged with its buddy as long as that is free too. */
    method Release(page: nat)
      requires Valid() && page in layout && layout[page].owner == Used
      modifies this`layout, blocks, levels
      ensures Valid() && layout == FreeLayout(old(layout), page)
    {
      var idx: nat := page;
      var i := blocks[idx].order;
      assert !blocks[idx].free; // line 102
      ReclaimStep(layout, blocks[..], levels[..], pages, idx);
      layout := layout[idx := Piece(i, Held)];
      ghost var start := layout;

      var merging := true;
      while i < MAX_ORDER && merging
        invariant Working() && OnlyHeld(layout, idx) && layout[idx].order == i
        invariant blocks[idx].free ==> blocks[idx].order <= i
        invariant MergeUp(layout, idx) == MergeUp(start, page)
        invariant !merging ==> !FreeBuddy(layout, idx)
        decreases MAX_ORDER - i, merging
      {
        var buddy := Xor(idx, Pow2(i));
        if buddy >= blocks.Length || !(blocks[buddy].free && blocks[buddy].order == i) {
          merging := false;
        } else {
          MergeOnce(idx, buddy, i);
          idx := if idx < buddy then idx else buddy;
          i := i + 1;
        }
      }
      PutBack(idx, i);
    }

    method MergeOnce(idx: nat, buddy: nat, i: nat)
      requires Working() && OnlyHeld(layout, idx) && layout[idx].order == i && i < MAX_ORDER
      requires buddy == Buddy(idx, i) && buddy < blocks.Length && blocks[buddy] == Descriptor(i, true)
      requires blocks[idx].free ==> blocks[idx].order <= i
      modifies this`layout, levels
      ensures FreeBuddy(old(layout), idx) && layout == Merged(old(layout), idx)
      ensures var l := if idx < buddy then idx else buddy;
        Working() && OnlyHeld(layout, l) && layout[l].order == i + 1 && (blocks[l].free ==> blocks[l].order <= i + 1)
    {
      ghost var lists := levels[..];
      BuddyIsListed(layout, blocks[..], idx);
      MergeStep(layout, blocks[..], lists, pages, idx);
      MergedHeld(layout, idx);
      assert buddy in levels[..][i]; // list_remove acts on the list the buddy is on
      levels[i] := Without(levels[i], buddy);
      layout := Merged(layout, idx);
      assert levels[..] == lists[i := Without(lists[i], buddy)];
    }

    method PutBack(idx: nat, i: nat)
      requires Working() && OnlyHeld(layout, idx) && layout[idx].order == i
      modifies this`layout, blocks, levels
      ensures Valid() && layout == old(layout)[idx := Piece(i, Free)]
    {
      ghost var descriptors, lists := blocks[..], levels[..];
      ReleaseStep(layout, descriptors, lists, pages, idx);
      Enlist(idx, i);
      layout := layout[idx := Piece(i, Free)];
    }

    // ---- start-up

    constructor Empty(count: nat)
      ensures fresh(blocks) && fresh(levels) && blocks.Length == count
      ensures Valid() && layout == map[] && pages == {}
    {
      blocks := new Descriptor[count](_ => Descriptor(0, false));
      levels := new seq<nat>[MAX_ORDER + 1](_ => []);
      layout := map[];
      pages := {};
    }

    /** The carving of g has reached the given page and is about to try the given order. */
    ghost predicate Carving(g: Region, page: nat, order: nat, m0: Layout, p0: set<nat>)
      reads this, blocks, levels
    {
      && Valid() && g.end <= blocks.Length
      && Reached(g, page, order, p0) && pages == p0 + Range(g.start, page) && CarvedFrom(m0, layout, g)
    }

    /** The greedy loop of pmm_init over one stretch, lines 187-205. */
    method Carve(g: Region)
      requires Valid() && g.start <= g.end <= blocks.Length && Unmanaged(pages, g.start, g.end)
      modifies this`layout, this`pages, blocks, levels
      ensures Valid() && pages == old(pages) + Range(g.start, g.end)
      ensures CarvedFrom(old(layout), layout, g)
    {
      var order: nat := MAX_ORDER;
      var page: nat := g.start;
      assert Carving(g, page, order, layout, pages);
      while page != g.end
        invariant Carving(g, page, order, old(layout), old(pages))
        decreases g.end - page, order
      {
        page, order := CarveTurn(g, page, order, old(layout), old(pages));
      }
    }

    method CarveTurn(g: Region, page: nat, order: nat, ghost m0: Layout, ghost p0: set<nat>)
        returns (page': nat, order': nat)
      requires Carving(g, page, order, m0, p0) && page != g.end
      modifies this`layout, this`pages, blocks, levels
      ensures Carving(g, page', order', m0, p0)
      ensures page < page' || (page == page' && order' < order)
    {
      var fits := Fits(page, order, g.end);
      if !fits {
        LowerOrder(g, page, order, p0);
        page', order' := page, order - 1;
      } else {
        CarveBlock(g, page, order, m0, p0);
        page', order' := page + Pow2(order), MAX_ORDER;
      }
    }

    method CarveBlock(g: Region, page: nat, order: nat, ghost m0: Layout, ghost p0: set<nat>)
      requires Carving(g, page, order, m0, p0) && Aligned(page, order) && page + Pow2(order) <= g.end
      modifies this`layout, this`pages, blocks, levels
      ensures Carving(g, page + Pow2(order), MAX_ORDER, m0, p0)
    {
      ghost var next := page + Pow2(order);
      UnmanagedRest(p0, g.start, page, next, g.end);
      CarvedMore(m0, layout, g, page, order);
      CarveOne(page, order, p0 + Range(g.start, next));
    }

    /** The test of line 191. */
    static method Fits(page: nat, order: nat, end: nat) returns (ok: bool)
      ensures ok <==> Aligned(page, order) && page + Pow2(order) <= end
      ensures !ok && page < end ==> order > 0
    {
      var span := Pow2(order);
      AlignedMod(page, order);
      ok := !(page + span > end || page % span != 0);
    }

    method CarveOne(page: nat, order: nat, ghost managed: set<nat>)
      requires Valid() && order <= MAX_ORDER && Aligned(page, order) && page + Pow2(order) <= blocks.Length
      requires Unmanaged(pages, page, page + Pow2(order)) && managed == pages + Range(page, page + Pow2(order))
      modifies this`layout, this`pages, blocks, levels
      ensures Valid() && layout == old(layout)[page := Piece(order, Free)] && pages == managed
    {
      ghost var descriptors, lists := blocks[..], levels[..];
      CarveStep(layout, descriptors, lists, pages, page, order, managed);
      Enlist(page, order);
      layout := layout[page := Piece(order, Free)];
      pages := managed;
    }

    /** Lines 140-151. */
    static method CountBlocks(entries: seq<MapEntry>) returns (count: nat)
      ensures count == BlockCount(entries)
      ensures BootMap(entries) ==> LastEnd(entries, count)
    {
      count := 0;
      var i := 0;
      while i < |entries|
        invariant 0 <= i <= |entries|
        invariant count == BlockCount(entries[..i])
      {
        assert entries[..i + 1][..i] == entries[..i];
        if entries[i].usable {
          count := entries[i].end;
        }
        i := i + 1;
      }
      assert entries[..i] == entries;
      if BootMap(entries) {
        LastEndIs(entries);
      }
    }

    /** Lines 155-166: the first usable entry with room for the descriptors. */
    static method FindHost(entries: seq<MapEntry>, count: nat) returns (host: nat)
      requires BootMap(entries)
      ensures host <= |entries| && (host < |entries| ==> HasRoom(entries[host], count))
      ensures forall j :: 0 <= j < host ==> !HasRoom(entries[j], count)
    {
      host := 0;
      while host < |entries|
         && !(entries[host].usable && (entries[host].end - entries[host].start) * PAGE >= count * DESCRIPTOR_BYTES)
        invariant 0 <= host <= |entries|
        invariant forall j :: 0 <= j < host ==> !HasRoom(entries[j], count)
      {
        host := host + 1;
      }
    }

    /** The first i entries of the memory map are carved. */
    ghost predicate FilledTo(entries: seq<MapEntry>, i: nat, host: nat)
      requires i <= |entries|
      reads this, blocks, levels
    {
      && Valid() && blocks.Length == BlockCount(entries)
      && Filled(layout, pages, Regions(entries[..i], host, ArrayPages(BlockCount(entries))))
    }

    /** pmm_init; null stands for its failed assertion when no entry can hold the descriptors. */
    static method Init(entries: seq<MapEntry>) returns (a: Allocator?, ghost host: nat)
      requires BootMap(entries)
      ensures a == null <==> forall j :: 0 <= j < |entries| ==> !HasRoom(entries[j], BlockCount(entries))
      ensures a != null ==> fresh(a) && fresh(a.blocks) && fresh(a.levels)
      ensures a != null ==> host < |entries| && HasRoom(entries[host], BlockCount(entries))
      ensures a != null ==> forall j :: 0 <= j < host ==> !HasRoom(entries[j], BlockCount(entries))
      ensures a != null ==> a.FilledTo(entries, |entries|, host) && LastEnd(entries, a.blocks.Length)
      ensures a != null ==> forall k: nat :: k in a.pages <==> ManagedPage(entries, host, a.blocks.Length, k)
      ensures a != null && Separated(entries) ==> Coalesced(a.layout)
    {
      var count := CountBlocks(entries);
      var h := FindHost(entries, count);
      host := h;
      if h == |entries| {
        return null, host;
      }
      var al := new Allocator.Empty(count);
      al.FillAll(entries, h);
      al.StartsCoalesced(entries, h);
      al.ManagesRight(entries, h);
      a := al;
    }

    lemma ManagesRight(entries: seq<MapEntry>, host: nat)
      requires BootMap(entries) && host < |entries| && HasRoom(entries[host], BlockCount(entries))
      requires FilledTo(entries, |entries|, host)
      ensures LastEnd(entries, blocks.Length)
      ensures forall k: nat :: k in pages <==> ManagedPage(entries, host, blocks.Length, k)
    {
      LastEndIs(entries);
      hide Valid, BlockCount, HasRoom, Regions, InRegions, ArrayPages, BootMap, ManagedPage, AllGreedy;
      assert entries[..|entries|] == entries;
      forall k: nat ensures k in pages <==> ManagedPage(entries, host, blocks.Length, k) {
        ManagedPages(entries, host, blocks.Length, k);
      }
    }

    lemma StartsCoalesced(entries: seq<MapEntry>, host: nat)
      requires FilledTo(entries, |entries|, host)
      ensures Separated(entries) ==> Coalesced(layout)
    {
      assert entries[..|entries|] == entries;
      if Separated(entries) {
        var regions := Regions(entries, host, ArrayPages(BlockCount(entries)));
        RegionsApart(entries, host, ArrayPages(BlockCount(entries)));
        GreedyCoalesced(layout, blocks.Length, regions);
      }
    }

    /** Lines 175-206. */
    method FillAll(entries: seq<MapEntry>, host: nat)
      requires BootMap(entries) && host < |entries| && HasRoom(entries[host], BlockCount(entries))
      requires Valid() && layout == map[] && pages == {} && blocks.Length == BlockCount(entries)
      modifies this`layout, this`pages, blocks, levels
      ensures FilledTo(entries, |entries|, host)
    {
      var i := 0;
      while i < |entries|
        invariant 0 <= i <= |entries|
        invariant FilledTo(entries, i, host)
      {
        if entries[i].usable {
          FillEntry(entries, i, host);
        } else {
          RegionsStep(entries, i, host, ArrayPages(BlockCount(entries)));
        }
        i := i + 1;
      }
    }

    /** Lines 181-205 for one usable entry. */
    method FillEntry(entries: seq<MapEntry>, i: nat, host: nat)
      requires BootMap(entries) && i < |entries| && entries[i].usable
      requires i == host ==> HasRoom(entries[i], BlockCount(entries))
      requires FilledTo(entries, i, host)
      modifies this`layout, this`pages, blocks, levels
      ensures FilledTo(entries, i + 1, host)
    {
      ghost var reserve := ArrayPages(BlockCount(entries));
      NextRegion(layout, pages, entries, i, host);
      RegionsStep(entries, i, host, reserve);
      var start := entries[i].start;
      if i == host {
        start := start + ArrayPages(blocks.Length);
      }
      ghost var g := EntryRegion(entries[i], i == host, reserve);
      Carve(Region(start, entries[i].end));
      FilledMore(old(layout), layout, old(pages), pages, Regions(entries[..i], host, reserve), g);
    }

    // ---- any run

    /** Answering the requests has led from layout0 here, and callers hold what is outstanding. */
    ghost predicate Served(layout0: Layout, requests: seq<Request>, run: seq<BuddyRuns.Call>, held: map<nat, nat>)
      reads this, blocks, levels
    {
      && Valid() && BuddyRuns.Answers(layout0, requests, run) && BuddyRuns.LegalRun(layout0, run)
      && layout == BuddyRuns.After(layout0, run) && held == BuddyRuns.Outstanding(layout)
    }

    method ServeTake(order: nat, held: map<nat, nat>, ghost layout0: Layout, ghost done: seq<Request>,
                     ghost run: seq<BuddyRuns.Call>)
      returns (held': map<nat, nat>, ghost run': seq<BuddyRuns.Call>, ok: bool)
      requires Served(layout0, done, run, held)
      modifies this`layout, blocks, levels
      ensures ok ==> Served(layout0, done + [BuddyRuns.Take(order)], run', held')
      ensures !ok ==> run' == run && held' == held && Served(layout0, done, run, held)
      ensures !ok ==> BuddyRuns.Refused(layout, BuddyRuns.Take(order))
    {
      hide BuddyRuns.LegalRun, BuddyRuns.After, BuddyRuns.Outstanding, BuddyRuns.Answers, AllocLayout, FreeLayout;
      held', run', ok := held, run, false;
      if order <= MAX_ORDER {
        ghost var m := layout;
        var r := Alloc(order);
        if r.Some? {
          ok := true;
          ghost var call := BuddyRuns.Alloc(r.value, order);
          BuddyRuns.AllocOutstanding(m, r.value, order);
          BuddyRuns.AnswerTake(m, r.value, order);
          BuddyRuns.AnswersMore(layout0, done, run, BuddyRuns.Take(order), [call]);
          BuddyRuns.AfterOne(layout0, run, call);
          run' := run + [call];
          held' := held[r.value := order];
        }
      }
    }

    method ServeGiveBack(page: nat, held: map<nat, nat>, ghost layout0: Layout, ghost done: seq<Request>,
                         ghost run: seq<BuddyRuns.Call>)
      returns (held': map<nat, nat>, ghost run': seq<BuddyRuns.Call>)
      requires Served(layout0, done, run, held)
      modifies this`layout, blocks, levels
      ensures Served(layout0, done + [BuddyRuns.GiveBack(page)], run', held')
    {
      hide BuddyRuns.LegalRun, BuddyRuns.After, BuddyRuns.Outstanding, BuddyRuns.Answers, AllocLayout, FreeLayout;
      held', run' := held, run;
      ghost var m := layout;
      BuddyRuns.AnswerGiveBack(m, page);
      if page in held {
        IsUsed(m, page);
        Release(page);
        ghost var call := BuddyRuns.Release(page);
        BuddyRuns.FreeOutstanding(m, page);
        BuddyRuns.AnswersMore(layout0, done, run, BuddyRuns.GiveBack(page), [call]);
        BuddyRuns.AfterOne(layout0, run, call);
        run' := run + [call];
        held' := held - {page};
      } else {
        BuddyRuns.AnswersMore(layout0, done, run, BuddyRuns.GiveBack(page), []);
        assert run + [] == run;
      }
    }

    /** Nothing overlaps, no page is gained or lost, and coalesced memory has stayed so. */
    ghost predicate Sound(layout0: Layout)
      reads this`layout, this`pages
    {
      && Apart(layout) && (Coalesced(layout0) ==> Coalesced(layout))
      && BuddyRuns.PagesOf(layout, pages, Free) !! BuddyRuns.PagesOf(layout, pages, Used)
      && |BuddyRuns.PagesOf(layout, pages, Free)| + |BuddyRuns.PagesOf(layout, pages, Used)| == |pages|
    }

    lemma RunSound(layout0: Layout, requests: seq<Request>, run: seq<BuddyRuns.Call>, held: map<nat, nat>)
      requires Served(layout0, requests, run, held) && BuddyRuns.Partition(layout0, blocks.Length, pages)
        && Settled(layout0)
      ensures Sound(layout0)
    {
      BuddyRuns.RunKeeps(layout0, blocks.Length, pages, run);
      BuddyRuns.PageTotal(layout0, blocks.Length, pages, run);
    }

    /**
     Any run of pmm_alloc and pmm_free. The requests before the done-th are answered, all of them unless one ends in
     the allocator's panic, and then only because no free block is large enough or the order is not one.
     */
    method Serve(requests: seq<Request>) returns (held: map<nat, nat>, done: nat, ghost run: seq<BuddyRuns.Call>)
      requires Valid() && BuddyRuns.Outstanding(layout) == map[]
      modifies this`layout, blocks, levels
      ensures done <= |requests| && Served(old(layout), requests[..done], run, held) && Sound(old(layout))
      ensures done < |requests| ==> BuddyRuns.Refused(layout, requests[done])
    {
      ghost var layout0 := layout;
      held, run, done := map[], [], 0;
      assert Served(layout0, requests[..0], run, held);
      var ok := true;
      while done < |requests| && ok
        invariant done <= |requests| && Served(layout0, requests[..done], run, held)
        invariant !ok ==> done < |requests| && BuddyRuns.Refused(layout, requests[done])
        decreases |requests| - done, ok
      {
        hide Served, BuddyRuns.Refused;
        assert requests[..done + 1] == requests[..done] + [requests[done]];
        match requests[done] {
          case Take(order) =>
            held, run, ok := ServeTake(order, held, layout0, requests[..done], run);
          case GiveBack(page) =>
            held, run := ServeGiveBack(page, held, layout0, requests[..done], run);
        }
        if ok {
          done := done + 1;
        }
      }
      RunSound(layout0, requests[..done], run, held);
    }

    lemma NothingOut(entries: seq<MapEntry>, host: nat)
      requires FilledTo(entries, |entries|, host)
      ensures Valid() && BuddyRuns.Outstanding(layout) == map[]
      ensures Filled(layout, pages, Regions(entries, host, ArrayPages(BlockCount(entries))))
    {
      assert entries[..|entries|] == entries;
    }

    /**
     Every state reachable from pmm_init: boot is the layout it leaves, with exactly the usable pages outside the
     descriptor array free, and the run answers the requests from there.
     */
    static method BootAndServe(entries: seq<MapEntry>, requests: seq<Request>)
      returns (a: Allocator?, held: map<nat, nat>, done: nat, ghost boot: Layout, ghost run: seq<BuddyRuns.Call>,
               ghost host: nat)
      requires BootMap(entries)
      ensures a == null <==> forall j :: 0 <= j < |entries| ==> !HasRoom(entries[j], BlockCount(entries))
      ensures a != null ==> host < |entries| && HasRoom(entries[host], BlockCount(entries))
      ensures a != null ==> Filled(boot, a.pages, Regions(entries, host, ArrayPages(BlockCount(entries))))
      ensures a != null ==> forall k: nat :: k in a.pages <==> ManagedPage(entries, host, a.blocks.Length, k)
      ensures a != null ==> done <= |requests| && a.Served(boot, requests[..done], run, held) && a.Sound(boot)
      ensures a != null && done < |requests| ==> BuddyRuns.Refused(a.layout, requests[done])
      ensures a != null && Separated(entries) ==> Coalesced(boot)
    {
      hide Allocator.FilledTo, Filled, HasRoom, Regions, BlockCount, Allocator.Valid, Allocator.Sound, Coalesced,
        Separated, ManagedPage, LastEnd;
      hide Allocator.Served, BuddyRuns.Outstanding, BuddyRuns.Refused;
      held, done, boot, run := map[], 0, map[], [];
      a, host := Init(entries);
      if a != null {
        boot := a.layout;
        a.NothingOut(entries, host);
        held, done, run := a.Serve(requests);
      }
    }
  }

  type Request = BuddyRuns.Request

  lemma IsUsed(m: Layout, page: nat)
    requires page in BuddyRuns.Outstanding(m)
    ensures page in m && m[page].owner == Used
  {
  }
}
