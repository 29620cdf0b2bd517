/** The heap of eight slab caches, kernel/src/mm/heap.c. */
module Heap {
  import opened Words
  import opened Pow
  import opened SizeClasses
  import Slabs
  import Kmem
  import opened KmemRuns
  import opened HeapRuns

  // ---- the eight caches

  /** Cache k: its size class, its number in the headers, and no page in common with the spare ones. */
  ghost predicate Owns(c: Kmem.Cache, k: nat, supply: seq<nat>)
    reads c
  {
    && c.Valid() && c.size == CacheSize(k) && c.id == k && c.supply == [] && Slabs.Spare(supply, c.slabs, c.mags)
    && InRange(supply, c.Owned())
  }

  /** Pages end within 64 bits. */
  ghost predicate InRange(supply: seq<nat>, owned: set<nat>) {
    forall p :: p in supply || p in owned ==> p + PAGE <= U64_RANGE
  }

  lemma StillInRange(n: nat, supply: seq<nat>, rest: seq<nat>, owned: set<nat>, owned': set<nat>)
    requires InRange(supply, owned) && Kmem.Took(n, supply, rest, owned, owned')
    ensures InRange(rest, owned')
  {
    assert forall p :: p in rest ==> p in supply;
    assert forall p :: p in owned' ==> p in owned || p in supply;
  }

  ghost function Cells(caches: seq<Kmem.Cache>): set<Kmem.Cache> { set c | c in caches }

  /** No page belongs to two caches. */
  ghost predicate Apart(caches: seq<Kmem.Cache>)
    reads Cells(caches)
  {
    forall j, k :: 0 <= j < k < |caches| ==> caches[j] != caches[k] && caches[j].Owned() !! caches[k].Owned()
  }

  ghost predicate Sound(caches: seq<Kmem.Cache>, supply: seq<nat>)
    reads Cells(caches)
  {
    Apart(caches) && forall k :: 0 <= k < |caches| ==> Owns(caches[k], k, supply)
  }

  lemma StillSpare(c: Kmem.Cache, k: nat, supply: seq<nat>, rest: seq<nat>, n: nat, owned: set<nat>, owned': set<nat>)
    requires Owns(c, k, supply) && Kmem.Took(n, supply, rest, owned, owned') && c.Owned() !! owned
    ensures Owns(c, k, rest) && c.Owned() !! owned'
  {
    hide Kmem.Cache.Valid, Kmem.Cache.SlabsOk;
    forall p | p in supply ensures p !in c.Owned() {
    }
    assert forall p :: p in rest ==> p in supply;
    assert forall p :: p in owned' ==> p in owned || p in supply;
  }

  /** heap.c: the caches draw on the pages of one page allocator. */
  class Heap {
    const caches: seq<Kmem.Cache>
    /** The pages pmm_alloc(0) will return, in order. */
    var supply: seq<nat>

    ghost predicate Valid()
      reads this, Cells(caches)
    {
      |caches| == CLASSES && Sound(caches, supply)
    }

    constructor (caches: seq<Kmem.Cache>, supply: seq<nat>)
      requires |caches| == CLASSES && Sound(caches, supply)
      ensures Valid() && this.caches == caches && this.supply == supply
    {
      this.caches, this.supply := caches, supply;
    }

    /** The cache of a class has changed and taken pages; the others have not. */
    lemma Changed(k: nat, rest: seq<nat>, owned: set<nat>)
      requires k < |caches| == CLASSES && Owns(caches[k], k, rest)
        && Kmem.Took(1, supply, rest, owned, caches[k].Owned())
      requires forall j :: 0 <= j < CLASSES && j != k ==>
        Owns(caches[j], j, supply) && caches[j] != caches[k] && caches[j].Owned() !! owned
      requires forall i, j :: 0 <= i < j < CLASSES && i != k && j != k ==>
        caches[i] != caches[j] && caches[i].Owned() !! caches[j].Owned()
      ensures Sound(caches, rest)
    {
      hide Owns, Kmem.Took;
      forall j | 0 <= j < CLASSES && j != k ensures Owns(caches[j], j, rest) && caches[j].Owned() !! caches[k].Owned() {
        StillSpare(caches[j], j, supply, rest, 1, owned, caches[k].Owned());
      }
    }

    method AllocClass(k: nat, cpu: nat) returns (r: Kmem.Result)
      requires Valid() && k < CLASSES && cpu < Slabs.MAX_CPUS
      modifies this`supply, Cells(caches)
      ensures Valid() && !r.Failed? && (r.OutOfMemory? <==> old(supply) == [] && old(caches[k].Starved(cpu)))
      ensures r.OutOfMemory? ==> supply == old(supply) && unchanged(caches[k])
      ensures |old(supply)| <= |supply| + 1
      ensures r.Got? ==> AllocStep(cpu, old(caches[k].Look()), caches[k].Look(), r.obj)
      ensures forall j :: 0 <= j < CLASSES && j != k ==> unchanged(caches[j])
    {
      hide Kmem.Cache.Valid, Slabs.Spare, AllocStep, Kmem.Took, InRange, Kmem.Cache.Starved;
      var c := caches[k];
      ghost var owned := c.Owned();
      var rest;
      r, rest := c.AllocFrom(supply, cpu);
      Kmem.TookLength(1, supply, rest, owned, c.Owned());
      StillInRange(1, supply, rest, owned, c.Owned());
      Changed(k, rest, owned);
      supply := rest;
    }

    /**
     heap_alloc: an object of the smallest class that holds the size, or the assertion that the size is at most 1024.
     */
    method Alloc(size: nat, cpu: nat) returns (r: Kmem.Result)
      requires Valid() && cpu < Slabs.MAX_CPUS
      modifies this`supply, Cells(caches)
      ensures Valid() && (r.Failed? <==> size > 1024) && |old(supply)| <= |supply| + 1
      ensures !r.Got? ==> unchanged(this) && unchanged(Cells(caches))
      ensures 0 <= Order(size) && (size <= 1024 ==> Order(size) < CLASSES)
      ensures size <= 1024 ==> (r.OutOfMemory? <==> old(supply) == [] && old(caches[Order(size)].Starved(cpu)))
      ensures r.Got? ==>
        var k := Order(size);
        && size <= caches[k].size && (forall i: nat :: i < k ==> caches[i].size < size)
        && AllocStep(cpu, old(caches[k].Look()), caches[k].Look(), r.obj)
        && forall j :: 0 <= j < CLASSES && j != k ==> unchanged(caches[j])
    {
      hide Order, AllocStep, Kmem.Cache.Starved, Kmem.Cache.Valid, Slabs.Spare, InRange;
      SmallestClass(size);
      if size > 1024 {
        return Kmem.Failed;
      }
      r := AllocClass(Order(size), cpu);
    }

    /** Object obj has come back to cache k on the CPU, with the loss that kmem_free_cache has there. */
    twostate predicate Freed(k: nat, obj: nat, cpu: nat)
      requires k < |caches|
      reads Cells(caches)
    {
      && FreeStep(cpu, old(caches[k].Look()), caches[k].Look(), obj)
      && forall j :: 0 <= j < |caches| && j != k ==> unchanged(caches[j])
    }

    method FreeClass(k: nat, obj: nat, cpu: nat)
      requires Valid() && k < CLASSES && cpu < Slabs.MAX_CPUS
      requires obj in caches[k].where && caches[k].where[obj] == Slabs.Held
      modifies Cells(caches)
      ensures Valid() && Freed(k, obj, cpu)
    {
      hide Kmem.Cache.Valid, Kmem.Cache.Shape, Slabs.Spare, FreeStep, Slabs.Lossless, Kmem.Took, InRange;
      var c := caches[k];
      c.ValidShape();
      ghost var owned, slabs, mags := c.Owned(), c.slabs, c.mags;
      c.Free(cpu, obj);
      Slabs.SpareStays(supply, slabs, c.slabs, mags, c.mags);
      Kmem.TookNone(1, supply, owned);
      Changed(k, supply, owned);
    }

    /** heap_free_size of an object of the class that the size leads to. */
    method FreeSize(obj: nat, size: nat, cpu: nat)
      requires Valid() && cpu < Slabs.MAX_CPUS && 0 <= Order(size) < CLASSES
      requires obj in caches[Order(size)].where && caches[Order(size)].where[obj] == Slabs.Held
      modifies Cells(caches)
      ensures Valid() && Freed(Order(size), obj, cpu)
    {
      hide Order;
      FreeClass(Order(size), obj, cpu);
    }

    /** The slab header in a page, whichever cache made it. */
    method HeaderAt(page: nat) returns (h: Option<Slabs.Slab>)
      requires Valid()
      ensures forall k :: 0 <= k < CLASSES && page in caches[k].slabs ==> h == Some(caches[k].slabs[page])
      ensures h.None? ==> forall k :: 0 <= k < CLASSES ==> page !in caches[k].slabs
    {
      hide Kmem.Cache.Valid, Slabs.Spare;
      h := None;
      var i := 0;
      while i < CLASSES
        invariant 0 <= i <= CLASSES
        invariant h.None? ==> forall k :: 0 <= k < i ==> page !in caches[k].slabs
        invariant h.Some? ==> exists k :: 0 <= k < i && page in caches[k].slabs && h == Some(caches[k].slabs[page])
      {
        if h.None? && page in caches[i].slabs {
          h := Some(caches[i].slabs[page]);
        }
        i := i + 1;
      }
      if h.Some? {
        var m :| 0 <= m < CLASSES && page in caches[m].slabs && h == Some(caches[m].slabs[page]);
        forall k | 0 <= k < CLASSES && page in caches[k].slabs ensures k == m {
          assert page in caches[k].Owned() && page in caches[m].Owned();
        }
      }
    }

    /**
     The mask finds the slab of an object that cache k made; its header names cache k, whose object size leads back to
     class k, and the page belongs to no other cache and is not spare.
     */
    lemma FreeFinds(k: nat, obj: nat)
      requires Valid() && k < CLASSES && obj in caches[k].where
      ensures SlabOf(obj) in caches[k].slabs && caches[k].slabs[SlabOf(obj)].cache == k && Order(caches[k].size) == k
      ensures SlabOf(obj) + Slabs.HEADER <= obj && obj + caches[k].size <= SlabOf(obj) + PAGE
      ensures forall j :: 0 <= j < CLASSES && j != k ==> SlabOf(obj) !in caches[j].Owned()
      ensures SlabOf(obj) !in supply
    {
      OwnClass(k);
      hide SlabOf, Order, CacheSize, Slabs.Base, Slabs.ObjAt, Slabs.ObjectCount, Slabs.Stacked, Slabs.Listed;
      var c := caches[k];
      Slabs.Inside(c.size, c.slabs, c.where, obj);
      assert Slabs.Base(obj) in c.Owned();
      MaskIsBase(obj);
      assert SlabOf(obj) in c.Owned();
    }

    /** heap_free, given only the address, of an object that some cache k has given out. */
    method Free(obj: nat, cpu: nat, ghost k: nat)
      requires Valid() && cpu < Slabs.MAX_CPUS
      requires k < CLASSES && obj in caches[k].where && caches[k].where[obj] == Slabs.Held
      modifies Cells(caches)
      ensures Valid() && Freed(k, obj, cpu)
    {
      hide InRange, SlabOf, Order, CacheSize, Kmem.Cache.Valid, Slabs.Spare;
      FreeFinds(k, obj);
      var header := HeaderAt(SlabOf(obj));
      var size := caches[header.value.cache].size;
      FreeSize(obj, size, cpu);
    }

    /** Two objects of the heap do not overlap, whether of one cache or of two. */
    lemma ObjectsApart(j: nat, a: nat, k: nat, b: nat)
      requires Valid() && j < CLASSES && k < CLASSES && a in caches[j].where && b in caches[k].where && a < b
      ensures a + caches[j].size <= b
    {
      var c, d := caches[j], caches[k];
      if j == k {
        Slabs.Disjoint(c.size, c.slabs, c.where, a, b);
      } else {
        Slabs.Inside(c.size, c.slabs, c.where, a);
        Slabs.Inside(d.size, d.slabs, d.where, b);
        assert Slabs.Base(a) in c.Owned() && Slabs.Base(b) in d.Owned();
        Slabs.NextPage(a, b);
      }
    }

    // ---- every run

    ghost function Views(): (views: seq<View>)
      reads Cells(caches)
      ensures |views| == |caches| && forall k :: 0 <= k < |caches| ==> views[k] == caches[k].Look()
    {
      seq(|caches|, k requires 0 <= k < |caches| reads Cells(caches) => caches[k].Look())
    }

    ghost function Now(held: seq<Item>): HeapState
      reads Cells(caches)
    {
      HeapState(Views(), held)
    }

    lemma CachesSeated()
      requires Valid()
      ensures |caches| == CLASSES && forall k :: 0 <= k < CLASSES ==> Seated(caches[k].Look())
    {
      forall k | 0 <= k < CLASSES ensures Seated(caches[k].Look()) {
        assert Owns(caches[k], k, supply);
      }
    }

    /** Objects of different caches are at different addresses. */
    lemma Elsewhere(j: nat, a: nat, k: nat, b: nat)
      requires Valid() && j < CLASSES && k < CLASSES && j != k && a in caches[j].where && b in caches[k].where
      ensures a != b
    {
      var c, d := caches[j], caches[k];
      assert Slabs.Base(a) in c.slabs && Slabs.Base(b) in d.slabs;
      assert Slabs.Base(a) in c.Owned() && Slabs.Base(b) in d.Owned();
    }

    /** The object just given out is none of those held. */
    lemma NewAddress(k: nat, o: nat, before: View, held: seq<Item>, views: seq<View>)
      requires Valid() && k < CLASSES && Granted(before.where, caches[k].where, o) && |views| == CLASSES
        && views[k] == before
      requires forall c :: 0 <= c < CLASSES && c != k ==> views[c] == caches[c].Look()
      requires forall i :: 0 <= i < |held| ==> IsOut(views, held[i])
      ensures forall i :: 0 <= i < |held| ==> held[i].obj != o
    {
      hide Kmem.Cache.Valid, Valid;
      forall i | 0 <= i < |held| ensures held[i].obj != o {
        assert IsOut(views, held[i]);
        if held[i].order != k {
          Elsewhere(held[i].order, held[i].obj, k, o);
        }
      }
    }

    /** The call is above 1024 bytes, or there is nothing left for it. */
    ghost predicate Unmet(call: HeapCall)
      reads this, Cells(caches)
    {
      && call.AllocSize? && call.cpu < Slabs.MAX_CPUS
      && (call.size > 1024
          || (supply == [] && 0 <= Order(call.size) < |caches| && caches[Order(call.size)].Starved(call.cpu)))
    }

    method DoAlloc(size: nat, cpu: nat, held: seq<Item>) returns (held': seq<Item>, ok: bool)
      requires Valid() && cpu < Slabs.MAX_CPUS && Holding(Now(held))
      modifies this`supply, Cells(caches)
      ensures Valid() && |old(supply)| <= |supply| + 1
      ensures !ok ==> held' == held && unchanged(this) && unchanged(Cells(caches)) && Unmet(AllocSize(size, cpu))
      ensures ok ==> Holding(Now(held')) && Served(AllocSize(size, cpu), old(Now(held)), Now(held'))
    {
      hide Valid, Order, AllocMoves, Kmem.Cache.Starved, Granted, Views;
      CachesSeated();
      ghost var s := Now(held);
      var r := Alloc(size, cpu);
      ok, held' := r.Got?, held;
      if ok {
        var k := Order(size);
        held' := held + [Item(k, r.obj)];
        NewAddress(k, r.obj, s.views[k], held, s.views);
        assert Allocates(size, cpu, s, Now(held'));
        HoldsItem(size, cpu, s, Now(held'));
      }
    }

    method DoFree(cpu: nat, i: nat, held: seq<Item>) returns (held': seq<Item>)
      requires Valid() && cpu < Slabs.MAX_CPUS && i < |held| && Holding(Now(held))
      modifies Cells(caches)
      ensures Valid() && Holding(Now(held')) && Served(FreeItem(cpu, i), old(Now(held)), Now(held'))
    {
      hide Valid, FreeStep, Views;
      CachesSeated();
      ghost var s := Now(held);
      assert IsOut(s.views, held[i]);
      Free(held[i].obj, cpu, held[i].order);
      held' := Without(held, i);
      assert Frees(cpu, i, s, Now(held'));
      DropsItem(cpu, i, s, Now(held'));
    }

    /** One call of a run; false stands for a panic of the page allocator or the assertion on the size. */
    method Do(call: HeapCall, held: seq<Item>) returns (held': seq<Item>, ok: bool)
      requires Valid() && Holding(Now(held))
      modifies this`supply, Cells(caches)
      ensures Valid() && |old(supply)| <= |supply| + 1
      ensures !ok ==> held' == held && unchanged(this) && unchanged(Cells(caches)) && Unmet(call)
      ensures ok ==> Holding(Now(held')) && Served(call, old(Now(held)), Now(held'))
    {
      hide Valid, Allocates, Frees, Holding, Views, Unmet;
      held', ok := held, true;
      if call.cpu < Slabs.MAX_CPUS {
        if call.AllocSize? {
          held', ok := DoAlloc(call.size, call.cpu, held);
        } else if call.k < |held| {
          held' := DoFree(call.cpu, call.k, held);
        }
      }
    }

    /**
     The calls have led from the first state to this one, and objects are lost exactly if one of them found no room.
     */
    ghost predicate Ran(first: HeapState, calls: seq<HeapCall>, trace: seq<HeapState>, held: seq<Item>)
      reads this, Cells(caches)
    {
      && Valid() && HeapTraced(calls, trace) && trace[0] == first && trace[|calls|] == Now(held)
      && (AnyLostIn(Views()) <==> SomeWaste(calls, trace))
    }

    /**
     Any run of heap_alloc and heap_free on any CPUs, up to a call that cannot be met: every step does what its call
     asks to one cache and nothing to the others, callers hold exactly what they were given, no two at one address, and
     objects are lost exactly if some free finds both magazines of its class and CPU without room.
     */
    method Serve(calls: seq<HeapCall>) returns (held: seq<Item>, done: nat, ghost trace: seq<HeapState>)
      requires Valid() && Holding(Now([])) && !AnyLostIn(Views())
      modifies this`supply, Cells(caches)
      ensures done <= |calls| && Ran(old(Now([])), calls[..done], trace, held)
      ensures done < |calls| ==> Unmet(calls[done])
      ensures |old(supply)| <= |supply| + done
    {
      hide Valid, Holding, AnyLostIn, Served, Wastes, HeapTraced, SomeWaste, Unmet, Views;
      RanNone();
      held, trace, done := [], [Now([])], 0;
      while done < |calls|
        invariant 0 <= done <= |calls| && Ran(old(Now([])), calls[..done], trace, held) && Holding(Now(held))
        invariant |old(supply)| <= |supply| + done
      {
        ghost var s := Now(held);
        var ok;
        held, ok := Do(calls[done], held);
        if !ok {
          return;
        }
        RanMore(old(Now([])), calls[..done], trace, calls[done], s, held);
        assert calls[..done + 1] == calls[..done] + [calls[done]];
        trace := trace + [Now(held)];
        done := done + 1;
      }
    }

    lemma NowSettled(held: seq<Item>)
      requires Valid() && Holding(Now(held))
      ensures AllSettled(Now(held))
    {
      hide Valid, Seated, Holding;
      CachesSeated();
    }

    lemma RanNone()
      requires Valid() && Holding(Now([])) && !AnyLostIn(Views())
      ensures Ran(Now([]), [], [Now([])], [])
    {
      hide Valid, Holding, AnyLostIn, AllSettled, Views;
      NowSettled([]);
    }

    lemma RanMore(first: HeapState, calls: seq<HeapCall>, trace: seq<HeapState>, call: HeapCall, s: HeapState,
                  held: seq<Item>)
      requires Valid() && Holding(Now(held)) && Served(call, s, Now(held))
      requires HeapTraced(calls, trace) && trace[0] == first && trace[|calls|] == s
      requires AnyLostIn(s.views) <==> SomeWaste(calls, trace)
      ensures Ran(first, calls + [call], trace + [Now(held)], held)
    {
      assert AllSettled(s);
      hide Valid, Holding, AnyLostIn, Served, Wastes, SomeWaste, AllSettled, Views;
      NowSettled(held);
      ServedLoses(call, s, Now(held));
      HeapTracedMore(calls, trace, call, s, Now(held));
    }
  }

  // ---- heap_init

  lemma OneMoreCache(caches: seq<Kmem.Cache>, c: Kmem.Cache, supply: seq<nat>, rest: seq<nat>)
    requires Sound(caches, supply) && c !in caches && Owns(c, |caches|, rest)
    requires Kmem.Took(Kmem.CACHE_PAGES, supply, rest, {}, c.Owned())
    ensures Sound(caches + [c], rest)
  {
    hide Owns, Kmem.Took;
    forall j | 0 <= j < |caches| ensures Owns(caches[j], j, rest) && caches[j].Owned() !! c.Owned() {
      StillSpare(caches[j], j, supply, rest, Kmem.CACHE_PAGES, {}, c.Owned());
    }
  }

  lemma ClassSizes(k: nat)
    requires k < CLASSES
    ensures 8 <= CacheSize(k) <= 1024
  {
    assert Pow2(3) == 8 && Pow2(4) == 16 && Pow2(6) == 64;
    Pow2Add(4, 6);
    Pow2Monotone(3, k + 3);
    Pow2Monotone(k + 3, 10);
  }

  /** Nothing given out yet, and nothing lost. */
  ghost predicate Untouched(where: Slabs.Where) { forall o :: o in where ==> where[o].Free? || where[o].Slot? }

  ghost predicate Pages(supply: seq<nat>) {
    Distinct(supply) && forall p :: p in supply ==> p % PAGE == 0 && p > 0 && p + PAGE <= U64_RANGE
  }

  method NextCache(k: nat, pages: seq<nat>) returns (c: Kmem.Cache?, rest: seq<nat>)
    requires k < CLASSES && Pages(pages)
    ensures |pages| >= Kmem.CACHE_PAGES ==> c != null
    ensures c != null ==> fresh(c) && Owns(c, k, rest) && Untouched(c.where) && Pages(rest)
    ensures c != null ==> Kmem.Took(Kmem.CACHE_PAGES, pages, rest, {}, c.Owned())
  {
    hide CacheSize, Kmem.Took, Kmem.Cache.AllFull, Distinct;
    hide Slabs.Objects, Slabs.Stacked, Slabs.Listed, Kmem.Ours, Slabs.Homed, Slabs.Slotted;
    ClassSizes(k);
    c := Kmem.Cache.Init(k, CacheSize(k), pages);
    rest := [];
    if c != null {
      rest := c.supply;
      StillInRange(Kmem.CACHE_PAGES, pages, rest, {}, c.Owned());
      Slabs.NoSpare(rest, c.slabs, c.mags);
      c.supply := [];
      assert c.SlabsOk() && c.MagsOk();
    }
  }

  /** heap_init; null stands for the page allocator's panic, which eight times the pages of a cache rule out. */
  method Init(pages: seq<nat>) returns (h: Heap?)
    requires Pages(pages)
    ensures |pages| >= CLASSES * Kmem.CACHE_PAGES ==> h != null
    ensures h != null ==> fresh(h) && fresh(Cells(h.caches)) && h.Valid()
    ensures h != null ==> forall k :: 0 <= k < CLASSES ==> Untouched(h.caches[k].where)
  {
    hide Owns, Untouched, Pages, Kmem.Took;
    var caches: seq<Kmem.Cache>, rest, i := [], pages, 0;
    while i < CLASSES
      invariant 0 <= i == |caches| <= CLASSES && Sound(caches, rest) && Pages(rest)
      invariant forall k :: 0 <= k < |caches| ==> fresh(caches[k]) && Untouched(caches[k].where)
      invariant |pages| <= |rest| + 1088 * i
    {
      var c, left := NextCache(i, rest);
      if c == null {
        return null;
      }
      Kmem.TookLength(Kmem.CACHE_PAGES, rest, left, {}, c.Owned());
      OneMoreCache(caches, c, rest, left);
      caches, rest, i := caches + [c], left, i + 1;
    }
    h := new Heap(caches, rest);
  }

  lemma FreshHeap(h: Heap)
    requires h.Valid() && forall k :: 0 <= k < CLASSES ==> Untouched(h.caches[k].where)
    ensures Holding(h.Now([])) && !AnyLostIn(h.Views())
  {
    hide Heap.Valid;
    assert |h.caches| == CLASSES by {
      h.CachesSeated();
    }
  }

  /** Any run of calls on the heap that heap_init leaves. */
  method InitAndServe(pages: seq<nat>, calls: seq<HeapCall>)
      returns (h: Heap?, held: seq<Item>, done: nat, ghost trace: seq<HeapState>)
    requires Pages(pages)
    ensures |pages| >= CLASSES * Kmem.CACHE_PAGES ==> h != null
    ensures h != null ==> done <= |calls| && |trace| == done + 1 && h.Ran(trace[0], calls[..done], trace, held)
    ensures h != null ==> trace[0].held == [] && !AnyLostIn(trace[0].views)
    ensures h != null && done < |calls| ==> h.Unmet(calls[done])
  {
    hide Heap.Valid, Heap.Unmet, Heap.Views, Untouched, Pages, HeapTraced, SomeWaste, AnyLostIn, Holding;
    h := Init(pages);
    held, done, trace := [], 0, [];
    if h != null {
      FreshHeap(h);
      ghost var first := h.Now([]);
      held, done, trace := h.Serve(calls);
      RunLength(h, first, calls[..done], trace, held);
    }
  }

  lemma RunLength(h: Heap, first: HeapState, calls: seq<HeapCall>, trace: seq<HeapState>, held: seq<Item>)
    requires h.Ran(first, calls, trace, held)
    ensures |trace| == |calls| + 1 && trace[0] == first
  {
  }
}
