/** What every run of pmm_alloc and pmm_free keeps, from any start such as the one pmm_init makes. */
module BuddyRuns {
  import opened Pow
  import opened BuddyLayout

  /** The managed pages are cut into aligned blocks that do not overlap. */
  ghost predicate Partition(m: Layout, n: nat, pages: set<nat>) {
    Placed(m, n) && Apart(m) && Covers(m, pages)
  }

  datatype Call = Alloc(block: nat, order: nat) | Release(block: nat)

  /** An allocation takes some large enough free block; a release names an outstanding one. */
  ghost predicate Legal(m: Layout, c: Call) {
    c.block in m &&
    match c
    case Alloc(b, o) => m[b].owner == Free && o <= m[b].order
    case Release(b) => m[b].owner == Used
  }

  ghost function Apply(m: Layout, c: Call): Layout
    requires Legal(m, c)
  {
    match c
    case Alloc(b, o) => AllocLayout(m, b, o)
    case Release(b) => FreeLayout(m, b)
  }

  ghost predicate LegalRun(m: Layout, run: seq<Call>)
    decreases |run|
  {
    run == [] || (Legal(m, run[0]) && LegalRun(Apply(m, run[0]), run[1..]))
  }

  ghost function After(m: Layout, run: seq<Call>): Layout
    requires LegalRun(m, run)
    decreases |run|
  {
    if run == [] then m else After(Apply(m, run[0]), run[1..])
  }

  lemma Reowned(m: Layout, m': Layout, n: nat, pages: set<nat>)
    requires Partition(m, n, pages) && SameCut(m, m')
    ensures Partition(m', n, pages)
  {
    assert forall i: nat, k: nat :: Within(m, i, k) <==> Within(m', i, k);
  }

  lemma {:induction false} SplitPartition(m: Layout, n: nat, pages: set<nat>, b: nat, o: nat)
    requires Partition(m, n, pages) && OnlyHeld(m, b) && o <= m[b].order
    ensures Partition(SplitTo(m, b, o), n, pages) && OnlyHeld(SplitTo(m, b, o), b)
    ensures SplitTo(m, b, o)[b].order == o
    decreases m[b].order
  {
    if m[b].order > o {
      HalvedFresh(m, b);
      HalvedPlaced(m, n, b);
      HalvedApart(m, b);
      HalvedCovers(m, pages, b);
      SplitPartition(Halved(m, b), n, pages, b, o);
    }
  }

  lemma {:induction false} MergePartition(m: Layout, n: nat, pages: set<nat>, i: nat)
    requires Partition(m, n, pages) && OnlyHeld(m, i)
    ensures Partition(MergeUp(m, i), n, pages) && Settled(MergeUp(m, i))
    decreases MAX_ORDER - m[i].order
  {
    if FreeBuddy(m, i) {
      MergedPlaced(m, n, i);
      MergedApart(m, i);
      MergedCovers(m, pages, i);
      MergePartition(Merged(m, i), n, pages, Left(m, i));
    } else {
      Reowned(m, m[i := Piece(m[i].order, Free)], n, pages);
    }
  }

  lemma ApplyKeeps(m: Layout, n: nat, pages: set<nat>, c: Call)
    requires Partition(m, n, pages) && Settled(m) && Legal(m, c)
    ensures Partition(Apply(m, c), n, pages) && Settled(Apply(m, c))
    ensures Coalesced(m) ==> Coalesced(Apply(m, c))
  {
    var b := c.block;
    var h := m[b := Piece(m[b].order, Held)];
    Reowned(m, h, n, pages);
    match c
    case Alloc(_, o) =>
      SplitPartition(h, n, pages, b, o);
      Reowned(SplitTo(h, b, o), SplitTo(h, b, o)[b := Piece(o, Used)], n, pages);
      if Coalesced(m) {
        AllocCoalesced(m, n, b, o);
      }
    case Release(_) =>
      MergePartition(h, n, pages, b);
      if Coalesced(m) {
        FreeCoalesced(m, n, b);
      }
  }

  /** Every reachable layout partitions the same pages, and stays coalesced if it started so. */
  lemma {:induction false} RunKeeps(m: Layout, n: nat, pages: set<nat>, run: seq<Call>)
    requires Partition(m, n, pages) && Settled(m) && LegalRun(m, run)
    ensures Partition(After(m, run), n, pages) && Settled(After(m, run))
    ensures Coalesced(m) ==> Coalesced(After(m, run))
    decreases |run|
  {
    if run != [] {
      ApplyKeeps(m, n, pages, run[0]);
      RunKeeps(Apply(m, run[0]), n, pages, run[1..]);
    }
  }

  /** The managed pages in blocks of one owner. */
  ghost function PagesOf(m: Layout, pages: set<nat>, owner: Owner): set<nat> {
    set k | k in pages && exists i: nat :: Within(m, i, k) && m[i].owner == owner
  }

  lemma OneBlock(m: Layout, i: nat, j: nat, k: nat)
    requires Apart(m) && Within(m, i, k) && Within(m, j, k)
    ensures i == j
  {
  }

  lemma OwnersSplitPages(m: Layout, n: nat, pages: set<nat>)
    requires Partition(m, n, pages) && Settled(m)
    ensures PagesOf(m, pages, Free) !! PagesOf(m, pages, Used)
    ensures PagesOf(m, pages, Free) + PagesOf(m, pages, Used) == pages
  {
    var f, u := PagesOf(m, pages, Free), PagesOf(m, pages, Used);
    forall k | k in pages ensures k in f || k in u {
      var i: nat :| Within(m, i, k);
    }
    forall k | k in f ensures k !in u {
      var i: nat :| Within(m, i, k) && m[i].owner == Free;
      forall j: nat | Within(m, j, k) ensures j == i {
        OneBlock(m, i, j, k);
      }
    }
  }

  /** Over any run the free and the outstanding pages are disjoint and add up to the same total. */
  lemma PageTotal(m: Layout, n: nat, pages: set<nat>, run: seq<Call>)
    requires Partition(m, n, pages) && Settled(m) && LegalRun(m, run)
    ensures PagesOf(After(m, run), pages, Free) !! PagesOf(After(m, run), pages, Used)
    ensures |PagesOf(After(m, run), pages, Free)| + |PagesOf(After(m, run), pages, Used)| == |pages|
  {
    RunKeeps(m, n, pages, run);
    OwnersSplitPages(After(m, run), n, pages);
  }

  // ---- what the callers hold

  /** The outstanding blocks with their orders. */
  ghost function Outstanding(m: Layout): map<nat, nat> {
    map i | i in m && m[i].owner == Used :: m[i].order
  }

  lemma HalvedOutstanding(m: Layout, b: nat)
    requires b in m && m[b].owner == Held && m[b].order > 0 && b + Pow2(m[b].order - 1) !in m
    ensures b in Halved(m, b) && Halved(m, b)[b] == Piece(m[b].order - 1, Held)
      && Outstanding(Halved(m, b)) == Outstanding(m)
  {
  }

  lemma {:induction false} SplitOutstanding(m: Layout, b: nat, o: nat)
    requires Apart(m) && b in m && m[b].owner == Held
    ensures b in SplitTo(m, b, o) && SplitTo(m, b, o)[b].owner == Held
      && Outstanding(SplitTo(m, b, o)) == Outstanding(m)
    decreases m[b].order
  {
    hide Apart, Outstanding, Halved;
    if m[b].order > o {
      HalvedFresh(m, b);
      HalvedApart(m, b);
      HalvedOutstanding(m, b);
      SplitOutstanding(Halved(m, b), b, o);
    }
  }

  lemma HeldApart(m: Layout, h: Layout)
    requires Apart(m) && SameCut(m, h)
    ensures Apart(h)
  {
  }

  /** An allocation adds exactly its own block to what callers hold. */
  lemma AllocOutstanding(m: Layout, b: nat, o: nat)
    requires Apart(m) && b in m && m[b].owner == Free
    ensures Outstanding(AllocLayout(m, b, o)) == Outstanding(m)[b := o]
  {
    hide Apart, SplitTo;
    var h := m[b := Piece(m[b].order, Held)];
    assert Outstanding(h) == Outstanding(m);
    HeldApart(m, h);
    SplitOutstanding(h, b, o);
    var s := SplitTo(h, b, o);
    assert Outstanding(s[b := Piece(o, Used)]) == Outstanding(s)[b := o];
  }

  lemma {:induction false} MergeOutstanding(m: Layout, i: nat)
    requires i in m && m[i].owner == Held
    ensures Outstanding(MergeUp(m, i)) == Outstanding(m)
    decreases MAX_ORDER - m[i].order
  {
    if FreeBuddy(m, i) {
      assert Outstanding(Merged(m, i)) == Outstanding(m);
      MergeOutstanding(Merged(m, i), Left(m, i));
    } else {
      assert Outstanding(m[i := Piece(m[i].order, Free)]) == Outstanding(m);
    }
  }

  /** A release takes exactly its own block away. */
  lemma FreeOutstanding(m: Layout, i: nat)
    requires i in m && m[i].owner == Used
    ensures Outstanding(FreeLayout(m, i)) == Outstanding(m) - {i}
  {
    var h := m[i := Piece(m[i].order, Held)];
    assert Outstanding(h) == Outstanding(m) - {i};
    MergeOutstanding(h, i);
  }

  lemma {:induction false} AfterOne(m: Layout, run: seq<Call>, c: Call)
    requires LegalRun(m, run) && Legal(After(m, run), c)
    ensures LegalRun(m, run + [c]) && After(m, run + [c]) == Apply(After(m, run), c)
    decreases |run|
  {
    if run == [] {
      assert run + [c] == [c] && [c][1..] == [];
    } else {
      AfterOne(Apply(m, run[0]), run[1..], c);
      assert (run + [c])[1..] == run[1..] + [c];
    }
  }

  // ---- requests

  /** What callers ask for: a block of an order, or to give back the block at a page. */
  datatype Request = Take(order: nat) | GiveBack(page: nat)

  /** b is a free block of the lowest order that will do. */
  ghost predicate Chosen(m: Layout, b: nat, o: nat) {
    && b in m && m[b].owner == Free && o <= m[b].order
    && forall i :: i in m && m[i].owner == Free && o <= m[i].order ==> m[b].order <= m[i].order
  }

  /** The request ends in a panic: the order is not one, or no free block is large enough. */
  ghost predicate Refused(m: Layout, r: Request) {
    r.Take? && (r.order > MAX_ORDER || forall i :: i in m && m[i].owner == Free ==> m[i].order < r.order)
  }

  /**
   The run is what the requests ask for, in order: an allocation of the order from the block of the lowest sufficient
   order, or the release of the page. A page that is not held is not given back.
   */
  ghost predicate Answers(m: Layout, requests: seq<Request>, run: seq<Call>)
    decreases |requests|
  {
    if requests == [] then run == []
    else
      match requests[0]
      case Take(o) =>
        && o <= MAX_ORDER && run != [] && run[0].Alloc? && run[0].order == o && Chosen(m, run[0].block, o)
        && Answers(Apply(m, run[0]), requests[1..], run[1..])
      case GiveBack(p) =>
        if p in Outstanding(m)
        then run != [] && run[0] == Release(p) && Answers(Apply(m, run[0]), requests[1..], run[1..])
        else Answers(m, requests[1..], run)
  }

  /** One more request answered. */
  lemma {:induction false} AnswersMore(m: Layout, requests: seq<Request>, run: seq<Call>, r: Request, calls: seq<Call>)
    requires Answers(m, requests, run) && LegalRun(m, run) && Answers(After(m, run), [r], calls)
    ensures Answers(m, requests + [r], run + calls)
    decreases |requests|
  {
    if requests == [] {
      assert requests + [r] == [r] && run + calls == calls;
    } else {
      assert (requests + [r])[1..] == requests[1..] + [r];
      if requests[0].GiveBack? && requests[0].page !in Outstanding(m) {
        AnswersMore(m, requests[1..], run, r, calls);
      } else {
        assert (run + calls)[1..] == run[1..] + calls;
        AnswersMore(Apply(m, run[0]), requests[1..], run[1..], r, calls);
      }
    }
  }

  lemma AnswerTake(m: Layout, b: nat, o: nat)
    requires Chosen(m, b, o) && o <= MAX_ORDER
    ensures Answers(m, [Take(o)], [Alloc(b, o)])
  {
    assert [Take(o)][1..] == [] && [Alloc(b, o)][1..] == [];
  }

  lemma AnswerGiveBack(m: Layout, p: nat)
    ensures Answers(m, [GiveBack(p)], if p in Outstanding(m) then [Release(p)] else [])
  {
    assert [GiveBack(p)][1..] == [] && [Release(p)][1..] == [];
  }
}
