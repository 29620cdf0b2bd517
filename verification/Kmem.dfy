/** The slab allocator with per-CPU magazines, kernel/src/mm/kmem.c. */
module Kmem {
  import opened Words
  import opened Slabs
  import opened KmemRuns

  /** An object, the page allocator's panic, or a failed assertion or out-of-bounds slot. */
  datatype Result = Got(obj: nat) | OutOfMemory | Failed

  /** Every slab header names the cache. */
  ghost predicate Ours(slabs: SlabMap, id: nat) { forall p :: p in slabs ==> slabs[p].cache == id }

  /** The cache has grown by free objects only. */
  ghost predicate Grown(before: Where, after: Where) {
    && (forall q :: q in before ==> q in after && after[q] == before[q])
    && (forall q :: q in after && q !in before ==> after[q].Free?)
  }

  /** At most n pages were taken from the front of the supply, and no others came to be owned. */
  ghost predicate Took(n: nat, supply: seq<nat>, supply': seq<nat>, owned: set<nat>, owned': set<nat>) {
    && |supply'| <= |supply| <= |supply'| + n && supply' == supply[|supply| - |supply'|..]
    && forall p :: p in owned' <==> p in owned || p in supply[..|supply| - |supply'|]
  }

  lemma TookNone(n: nat, supply: seq<nat>, owned: set<nat>)
    ensures Took(n, supply, supply, owned, owned)
  {
  }

  lemma TookFirst(supply: seq<nat>, owned: set<nat>, owned': set<nat>)
    requires supply != [] && owned' == owned + {supply[0]}
    ensures Took(1, supply, supply[1..], owned, owned')
  {
    assert supply[..1] == [supply[0]];
  }

  lemma TookLength(n: nat, supply: seq<nat>, supply': seq<nat>, owned: set<nat>, owned': set<nat>)
    requires Took(n, supply, supply', owned, owned')
    ensures |supply'| <= |supply| <= |supply'| + n
  {
  }

  lemma TookMore(n: nat, k: nat, s: seq<nat>, s': seq<nat>, s'': seq<nat>, owned: set<nat>, owned': set<nat>,
                 owned'': set<nat>)
    requires Took(n, s, s', owned, owned') && Took(k, s', s'', owned', owned'')
    ensures Took(n + k, s, s'', owned, owned'')
  {
    var i, j := |s| - |s'|, |s| - |s''|;
    assert s[..j] == s[..i] + s'[..j - i];
  }

  /** The most pages that the magazines of one CPU can take, and those of a cache. */
  const CPU_PAGES: nat := MAG_SIZE + 2
  const CACHE_PAGES: nat := MAX_CPUS * CPU_PAGES

  class Cache {
    /** The address of the kmem_cache_t. */
    const id: nat
    const size: nat
    var slabs: SlabMap
    /** The first word of each object, where a free one keeps the link to the next. */
    var word: Links
    var partial: seq<nat>
    var full: seq<nat>
    var mags: Mags
    var loaded: seq<nat>
    var previous: seq<nat>
    var depotFull: seq<nat>
    var depotEmpty: seq<nat>
    /** The pages pmm_alloc(0) will return, in order. */
    var supply: seq<nat>
    ghost var where: Where
    ghost var stacks: Stacks
    ghost var home: map<nat, nat>

    /** The pages that have become slabs or magazines. */
    ghost function Owned(): set<nat>
      reads this`slabs, this`mags
    {
      slabs.Keys + mags.Keys
    }

    ghost function Look(): View
      reads this
    {
      View(where, mags, loaded, previous, home)
    }

    ghost predicate SlabsOk()
      reads this
    {
      && Objects(size, slabs, where) && Stacked(slabs, word, stacks, where) && Listed(partial, full, slabs, stacks)
      && Spare(supply, slabs, mags) && Ours(slabs, id)
    }

    ghost predicate MagsOk()
      reads this
    {
      Homed(loaded, previous, mags, home) && Slotted(mags, home, where) && depotFull == [] && depotEmpty == []
    }

    ghost predicate Valid()
      reads this
    {
      SlabsOk() && MagsOk() && |loaded| == MAX_CPUS
    }

    /** What the code's own indexing needs, whether or not the lists make sense. */
    ghost predicate SlabShape()
      reads this`slabs, this`partial
    {
      8 <= size <= PAGE - HEADER && forall p :: p in partial ==> p in slabs
    }

    ghost predicate Shape()
      reads this
    {
      && SlabShape() && Sized(mags) && |loaded| == |previous| == MAX_CPUS
      && (forall c :: 0 <= c < MAX_CPUS ==> loaded[c] in mags && previous[c] in mags)
      && (forall m :: m in depotFull ==> m in mags)
    }

    constructor Blank(id: nat, size: nat, pages: seq<nat>)
      ensures this.id == id && this.size == size && supply == pages
      ensures slabs == map[] && partial == [] && full == [] && mags == map[] && loaded == [] && previous == []
      ensures depotFull == [] && depotEmpty == [] && where == map[] && stacks == map[] && home == map[]
    {
      this.id, this.size, supply := id, size, pages;
      slabs, word, partial, full, mags, loaded, previous := map[], map[], [], [], map[], [], [];
      depotFull, depotEmpty, where, stacks, home := [], [], map[], map[], map[];
    }

    /** Lines 22-29: the objects of a page, linked through their first words. */
    method Thread(page: nat) returns (links: Links, head: nat, ghost made: Where)
      requires 8 <= size <= PAGE - HEADER
      ensures page % PAGE == 0 ==>
        var s := Run(page, ObjectCount(size), size);
        Chain(links, head, s) && Elsewhere(word, links, page) && Fills(made, page, s)
          && FillsPage(made.Keys, page, size)
    {
      head, links, made := 0, word, map[];
      var i := 0;
      while i < ObjectCount(size)
        invariant 0 <= i <= ObjectCount(size)
        invariant page % PAGE == 0 ==> Chain(links, head, Run(page, i, size))
        invariant page % PAGE == 0 ==> Elsewhere(word, links, page)
        invariant page % PAGE == 0 ==> Fills(made, page, Run(page, i, size))
      {
        hide Chain, Elsewhere, Fills, ObjectCount, ObjAt, Run;
        var obj := ObjAt(page, i, size);
        if page % PAGE == 0 {
          PushObject(word, links, head, page, i, size, made);
        }
        links := links[obj := head];
        head := obj;
        made := made[obj := Place.Free(page, i)];
        i := i + 1;
      }
      if page % PAGE == 0 {
        RunFull(page, size, made);
      }
    }

    /** cache_make_slab, put on the partial list; false stands for the page allocator's panic. */
    method MakeSlab() returns (ok: bool)
      requires SlabShape()
      modifies this`slabs, this`word, this`partial, this`supply, this`where, this`stacks
      ensures SlabShape() && (ok <==> |old(supply)| > 0) && (ok ==> partial == old(partial) + [old(supply)[0]])
      ensures ok ==> supply == old(supply)[1..] && slabs.Keys == old(slabs).Keys + {old(supply)[0]}
      ensures !ok ==> unchanged(this)
      ensures ok && old(SlabsOk()) ==> SlabsOk() && Grown(old(where), where)
      ensures ok && old(SlabsOk()) ==> FillsPage(where.Keys - old(where).Keys, old(supply)[0], size)
    {
      hide Objects, Stacked, Listed, Spare, Ours, Grown, Chain, Elsewhere, Fills, Run, ObjectCount, FillsPage;
      if supply == [] {
        return false;
      }
      ghost var good := SlabsOk();
      var page := supply[0];
      var links, head;
      ghost var made;
      links, head, made := Thread(page);
      if good {
        Commit(links, page, head, made);
        stacks := stacks[page := Run(page, ObjectCount(size), size)];
        where := where + made;
      }
      supply := supply[1..];
      slabs := slabs[page := Slab(id, head)];
      word := links;
      partial := partial + [page];
      ok := true;
    }

    lemma Commit(links: Links, page: nat, head: nat, made: Where)
      requires SlabsOk() && |supply| > 0 && page == supply[0]
      requires page % PAGE == 0 ==>
        var s := Run(page, ObjectCount(size), size);
        Chain(links, head, s) && Elsewhere(word, links, page) && Fills(made, page, s)
      ensures
        var slabs', where' := slabs[page := Slab(id, head)], where + made;
        var stacks' := stacks[page := Run(page, ObjectCount(size), size)];
        && Objects(size, slabs', where') && Stacked(slabs', links, stacks', where')
        && Listed(partial + [page], full, slabs', stacks')
        && Spare(supply[1..], slabs', mags) && Ours(slabs', id) && Grown(where, where')
        && FillsPage(where'.Keys - where.Keys, page, size)
    {
      assert page in supply && page !in slabs;
      AddSlab(size, slabs, word, stacks, where, links, page, head, id, made);
      CountPositive(size);
      NewListed(partial, full, slabs, stacks, page, Slab(id, head), Run(page, ObjectCount(size), size));
      SpareTaken(supply, slabs, mags, Slab(id, head));
      RunFull(page, size, made);
      assert (where + made).Keys - where.Keys == made.Keys;
    }

    /** Lines 39-51: the head of the first partial slab's list. */
    method PopObject() returns (r: Result)
      requires SlabShape() && partial != []
      modifies this`slabs, this`partial, this`full, this`where, this`stacks
      ensures SlabShape() && !r.OutOfMemory? && slabs.Keys == old(slabs).Keys
      ensures old(SlabsOk()) ==> r.Got? && SlabsOk() && r.obj in old(where) && old(where)[r.obj].Free?
      ensures old(SlabsOk()) ==> where == old(where)[r.obj := Held]
    {
      hide Objects, Stacked, Listed, Spare, Ours, Load;
      ghost var good := SlabsOk();
      var p := partial[0];
      if good {
        HeadIsFree(size, slabs, word, stacks, where, partial, full);
        Popped(p);
      }
      if slabs[p].freelist == 0 {
        return Failed;
      }
      var obj := slabs[p].freelist;
      if good {
        stacks := stacks[p := stacks[p][..|stacks[p]| - 1]];
        where := where[obj := Held];
      }
      slabs := slabs[p := slabs[p].(freelist := Load(word, obj))];
      if slabs[p].freelist == 0 {
        partial := partial[1..];
        full := full + [p];
      }
      return Got(obj);
    }

    lemma Popped(p: nat)
      requires SlabsOk() && partial != [] && p == partial[0] && p in slabs && p in stacks && stacks[p] != []
      ensures
        var o := slabs[p].freelist;
        var slabs' := slabs[p := slabs[p].(freelist := Load(word, o))];
        var t := stacks[p][..|stacks[p]| - 1];
        && o in where && where[o].Free? && Objects(size, slabs', where[o := Held])
        && Stacked(slabs', word, stacks[p := t], where[o := Held]) && Spare(supply, slabs', mags) && Ours(slabs', id)
        && if Load(word, o) == 0 then Listed(partial[1..], full + [p], slabs', stacks[p := t])
           else Listed(partial, full, slabs', stacks[p := t])
    {
      hide Load, Objects, Stacked, Listed, Spare;
      var o := slabs[p].freelist;
      var s := slabs[p].(freelist := Load(word, o));
      TakeTop(slabs, word, stacks, where, p);
      LastOne(size, slabs, word, stacks, where, p);
      MoveFull(partial, full, slabs, stacks, s);
      ObjectsStay(size, slabs, where, slabs[p := s], where[o := Held]);
      SpareStays(supply, slabs, slabs[p := s], mags, mags);
    }

    lemma AllTaken()
      requires SlabsOk() && partial == []
      ensures NoneFree(where)
    {
    }

    /** cache_alloc_from_slabs. */
    method AllocFromSlabs() returns (r: Result)
      requires SlabShape()
      modifies this`slabs, this`word, this`partial, this`full, this`supply, this`where, this`stacks
      ensures SlabShape() && (old(SlabsOk()) ==> !r.Failed?) && Took(1, old(supply), supply, old(Owned()), Owned())
      ensures r.OutOfMemory? <==> old(partial) == [] && old(supply) == []
      ensures r.OutOfMemory? ==> unchanged(this)
      ensures old(SlabsOk()) && r.Got? ==>
        SlabsOk() && Granted(old(where), where, r.obj) && (r.obj in old(where) ==> old(where)[r.obj].Free?)
      ensures old(SlabsOk()) && r.Got? ==> where.Keys == old(where).Keys || NoneFree(old(where))
    {
      hide SlabsOk, Took, NoneFree;
      TookNone(1, supply, Owned());
      if partial == [] {
        if SlabsOk() {
          AllTaken();
        }
        var ok := MakeSlab();
        if !ok {
          return OutOfMemory;
        }
        TookFirst(old(supply), old(Owned()), Owned());
      }
      r := PopObject();
    }

    // ---- magazine slots

    /** objects[--count]; an empty magazine has no such slot. */
    method TakeFrom(m: nat) returns (r: Result)
      requires Shape() && m in mags
      modifies this`mags, this`where
      ensures Shape() && (r.Got? <==> old(mags)[m].count > 0) && !r.OutOfMemory? && mags.Keys == old(mags).Keys
      ensures r.Got? ==> mags == old(mags)[m := old(mags)[m].(count := old(mags)[m].count - 1)]
      ensures old(Valid()) && m in home && old(mags)[m].count > 0 ==>
        Valid() && Granted(old(where), where, r.obj) && where.Keys == old(where).Keys
    {
      hide Objects, Stacked, Listed, Spare, Ours, Homed, Slotted;
      if mags[m].count == 0 {
        return Failed;
      }
      var n := mags[m].count - 1;
      var obj := mags[m].objects[n];
      if Valid() && m in home {
        Taken(m, mags[m].(count := n));
        where := where[obj := Held];
      }
      mags := mags[m := mags[m].(count := n)];
      return Got(obj);
    }

    lemma Taken(m: nat, mag: Mag)
      requires Valid() && Sized(mags) && m in home && m in mags && mags[m].count > 0
        && mag == mags[m].(count := mags[m].count - 1)
      ensures
        var o, mags' := mags[m].objects[mag.count], mags[m := mag];
        && o in where && where[o].Slot? && Objects(size, slabs, where[o := Held])
        && Stacked(slabs, word, stacks, where[o := Held])
        && Spare(supply, slabs, mags') && Homed(loaded, previous, mags', home) && Slotted(mags', home, where[o := Held])
    {
      TakeSlot(mags, home, where, m);
      HomesStay(loaded, previous, mags, m, mag, home);
      hide Objects, Stacked, Listed, Spare, Ours, Slotted, Homed, Sized;
      var o := mags[m].objects[mag.count];
      ObjectsStay(size, slabs, where, slabs, where[o := Held]);
      StacksStay(slabs, word, stacks, where, where[o := Held]);
      SpareStays(supply, slabs, slabs, mags, mags[m := mag]);
    }

    /** objects[count++] = obj. */
    method PutInto(m: nat, obj: nat)
      requires Shape() && m in mags && mags[m].count < MAG_SIZE
      modifies this`mags, this`where
      ensures Shape() && mags.Keys == old(mags).Keys
      ensures mags == old(mags)[m := Mag(old(mags)[m].count + 1, old(mags)[m].objects[old(mags)[m].count := obj])]
      ensures old(Valid()) && m in home && obj in old(where) && old(where)[obj] == Held ==>
        Valid() && where == old(where)[obj := Slot(m, old(mags)[m].count)]
    {
      hide Objects, Stacked, Listed, Spare, Ours, Homed, Slotted;
      var n := mags[m].count;
      var mag := Mag(n + 1, mags[m].objects[n := obj]);
      if Valid() && m in home && obj in where && where[obj] == Held {
        Put(m, obj, mag);
        where := where[obj := Slot(m, n)];
      }
      mags := mags[m := mag];
    }

    lemma Put(m: nat, o: nat, mag: Mag)
      requires Valid() && Sized(mags) && m in home && m in mags && mags[m].count < MAG_SIZE && o in where
        && where[o] == Held
      requires mag == Mag(mags[m].count + 1, mags[m].objects[mags[m].count := o])
      ensures
        var mags', where' := mags[m := mag], where[o := Slot(m, mags[m].count)];
        && Objects(size, slabs, where') && Stacked(slabs, word, stacks, where')
        && Spare(supply, slabs, mags') && Homed(loaded, previous, mags', home) && Slotted(mags', home, where')
    {
      PutSlot(mags, home, where, m, o, mag);
      HomesStay(loaded, previous, mags, m, mag, home);
      hide Objects, Stacked, Listed, Spare, Ours, Slotted, Homed, Sized;
      var mags', where' := mags[m := mag], where[o := Slot(m, mags[m].count)];
      ObjectsStay(size, slabs, where, slabs, where');
      StacksStay(slabs, word, stacks, where, where');
      SpareStays(supply, slabs, slabs, mags, mags');
    }

    // ---- allocating and freeing

    /** Valid caches meet what the code's indexing needs. */
    lemma ValidShape()
      requires Valid()
      ensures Shape()
    {
    }

    /** The two magazines of a CPU change places. */
    method Swap(cpu: nat)
      requires Shape() && cpu < MAX_CPUS
      modifies this`loaded, this`previous
      ensures loaded == old(loaded)[cpu := old(previous)[cpu]] && previous == old(previous)[cpu := old(loaded)[cpu]]
      ensures Shape() && (old(Valid()) ==> Valid() && loaded[cpu] in home)
    {
      hide Objects, Stacked, Listed, Spare, Ours, Slotted;
      if Valid() {
        SwapHomes(loaded, previous, mags, home, cpu);
      }
      loaded, previous := loaded[cpu := previous[cpu]], previous[cpu := loaded[cpu]];
    }

    /** Lines 124-126; the magazines do not notice. */
    method AllocDirectly() returns (r: Result)
      requires Shape()
      modifies this`slabs, this`word, this`partial, this`full, this`supply, this`where, this`stacks
      ensures Took(1, old(supply), supply, old(Owned()), Owned()) && (old(Valid()) ==> !r.Failed?)
      ensures r.OutOfMemory? <==> old(partial) == [] && old(supply) == []
      ensures r.OutOfMemory? ==> unchanged(this)
      ensures old(Valid()) && r.Got? ==> Valid() && Granted(old(where), where, r.obj)
      ensures old(Valid()) && r.Got? ==> where.Keys == old(where).Keys || NoneFree(old(where))
    {
      hide SlabsOk, Slotted, Homed, Sized, Took, Granted, NoneFree;
      r := AllocFromSlabs();
      if old(Valid()) && r.Got? {
        StillSlotted(mags, home, old(where), where, r.obj);
      }
    }

    /** The CPU has nothing to give, and neither have the slabs nor the page allocator. */
    ghost predicate Starved(cpu: nat)
      reads this
    {
      && Shape() && cpu < MAX_CPUS && mags[loaded[cpu]].count == 0 && mags[previous[cpu]].count != MAG_SIZE
      && depotFull == [] && partial == [] && supply == []
    }

    lemma LooksRight(cpu: nat)
      requires Valid() && cpu < MAX_CPUS
      ensures HasCpu(Look(), cpu) && loaded[cpu] in home && previous[cpu] in home
    {
    }

    /** Lines 99-101: the top of the loaded magazine. */
    method AllocLoaded(cpu: nat) returns (r: Result)
      requires Shape() && cpu < MAX_CPUS && mags[loaded[cpu]].count > 0
      modifies this`mags, this`where
      ensures r.Got? && mags.Keys == old(mags).Keys
      ensures old(Valid()) ==> Valid() && AllocStep(cpu, old(Look()), Look(), r.obj)
    {
      hide Valid, Granted, AllocStep;
      ghost var v, good := Look(), Valid();
      if good {
        LooksRight(cpu);
      }
      r := TakeFrom(loaded[cpu]);
      if good {
        TakesLoaded(cpu, v, Look(), r.obj);
      }
    }

    /** Lines 104-109: the magazines change places first. */
    method AllocOther(cpu: nat) returns (r: Result)
      requires Shape() && cpu < MAX_CPUS && mags[loaded[cpu]].count == 0 && mags[previous[cpu]].count == MAG_SIZE
      modifies this`mags, this`where, this`loaded, this`previous
      ensures r.Got? && mags.Keys == old(mags).Keys
      ensures old(Valid()) ==> Valid() && AllocStep(cpu, old(Look()), Look(), r.obj)
    {
      hide Valid, Granted, AllocStep;
      ghost var v, good := Look(), Valid();
      if good {
        LooksRight(cpu);
      }
      Swap(cpu);
      r := TakeFrom(loaded[cpu]);
      if good {
        TakesOther(cpu, v, Look(), r.obj);
      }
    }

    /** kmem_alloc_cache. */
    method Alloc(cpu: nat) returns (r: Result)
      requires Shape() && cpu < MAX_CPUS
      modifies this
      ensures (r.OutOfMemory? <==> old(Starved(cpu))) && (r.OutOfMemory? ==> unchanged(this))
      ensures Took(1, old(supply), supply, old(Owned()), Owned())
      ensures old(Valid()) ==> !r.Failed?
      ensures old(Valid()) && r.Got? ==> Valid() && AllocStep(cpu, old(Look()), Look(), r.obj)
    {
      hide SlabsOk, Slotted, Homed, Sized, Took, Granted, AllocStep, NoneFree;
      TookNone(1, supply, Owned());
      ghost var v, good := Look(), Valid();
      if mags[loaded[cpu]].count > 0 {
        r := AllocLoaded(cpu);
      } else if mags[previous[cpu]].count == MAG_SIZE {
        r := AllocOther(cpu);
      } else if depotFull != [] {
        var mag := depotFull[0];
        depotFull := depotFull[1..];
        depotEmpty := depotEmpty + [previous[cpu]];
        previous := previous[cpu := loaded[cpu]];
        loaded := loaded[cpu := mag];
        r := TakeFrom(mag);
      } else {
        r := AllocDirectly();
        if good && r.Got? {
          TakesFree(cpu, v, Look(), r.obj);
        }
      }
    }

    /** kmem_alloc_cache of a cache among others, which draw on the same pages. */
    method AllocFrom(pages: seq<nat>, cpu: nat) returns (r: Result, rest: seq<nat>)
      requires Valid() && cpu < MAX_CPUS && supply == [] && Spare(pages, slabs, mags)
      modifies this
      ensures Valid() && supply == [] && Spare(rest, slabs, mags) && Took(1, pages, rest, old(Owned()), Owned())
      ensures !r.Failed? && (r.OutOfMemory? <==> pages == [] && old(Starved(cpu)))
      ensures r.OutOfMemory? ==> rest == pages && unchanged(this)
      ensures r.Got? ==> AllocStep(cpu, old(Look()), Look(), r.obj)
    {
      hide Objects, Stacked, Listed, Spare, Ours, Slotted, Homed, Granted, Took, AllocMoves, Shape;
      supply := pages;
      ValidShape();
      r := Alloc(cpu);
      rest := supply;
      NoSpare(supply, slabs, mags);
      supply := [];
      assert SlabsOk() && MagsOk();
    }

    /**
     Lines 153-165: the loaded magazine goes to the end of the full list, and the first one there is loaded and emptied.
     */
    method Bounce(cpu: nat)
      requires Shape() && cpu < MAX_CPUS
      modifies this`depotFull, this`loaded, this`previous, this`mags
      ensures Shape() && mags[loaded[cpu]].count == 0 && previous == old(previous)[cpu := old(loaded)[cpu]]
      ensures mags.Keys == old(mags).Keys
      ensures loaded[cpu] in old(mags) && mags == old(mags)[loaded[cpu] := old(mags)[loaded[cpu]].(count := 0)]
      ensures old(depotFull) == [] ==> depotFull == [] && loaded == old(loaded)
    {
      depotFull := depotFull + [loaded[cpu]];
      var mag := depotFull[0];
      depotFull := depotFull[1..];
      previous := previous[cpu := loaded[cpu]];
      loaded := loaded[cpu := mag];
      mags := mags[mag := mags[mag].(count := 0)];
      assert old(depotFull) == [] ==> loaded == old(loaded);
    }

    /** As the full list is always empty, it is the magazine just put there that comes back. */
    method Recycle(cpu: nat)
      requires Shape() && cpu < MAX_CPUS
      modifies this`depotFull, this`loaded, this`previous, this`mags, this`where, this`home
      ensures Shape() && mags[loaded[cpu]].count == 0 && mags.Keys == old(mags).Keys
      ensures old(Valid()) ==> Valid() && loaded == old(loaded) && loaded[cpu] in home
      ensures old(Valid()) ==> previous == old(previous)[cpu := loaded[cpu]]
      ensures old(Valid()) ==> mags == old(mags)[loaded[cpu] := old(mags)[loaded[cpu]].(count := 0)]
      ensures old(Valid()) ==> where == Spilled(Spilled(old(where), old(previous)[cpu]), loaded[cpu])
    {
      hide Objects, Stacked, Listed, Spare, Ours, Slotted, Homed, Spilled;
      ghost var good := Valid();
      if good {
        Recycled(cpu);
        home := if previous[cpu] == loaded[cpu] then home else home - {previous[cpu]};
        where := Spilled(Spilled(where, previous[cpu]), loaded[cpu]);
      }
      hide Shape;
      Bounce(cpu);
    }

    lemma Recycled(cpu: nat)
      requires Valid() && cpu < MAX_CPUS
      ensures
        var m, q := loaded[cpu], previous[cpu];
        var home' := if q == m then home else home - {q};
        var mags', where' := mags[m := mags[m].(count := 0)], Spilled(Spilled(where, q), m);
        && Objects(size, slabs, where') && Stacked(slabs, word, stacks, where') && Spare(supply, slabs, mags')
        && Homed(loaded, previous[cpu := m], mags', home') && Slotted(mags', home', where') && m in home'
    {
      Sizes(cpu);
      hide Slotted, Homed, Objects, Stacked, Spare, Listed, Sized, Spilled;
      var m, q := loaded[cpu], previous[cpu];
      DoubleUp(loaded, previous, mags, home, cpu);
      var home' := if q == m then home else home - {q};
      var w1 := Spilled(where, q);
      var w2 := Spilled(w1, m);
      var mag := mags[m].(count := 0);
      HomesStay(loaded, previous[cpu := m], mags, m, mag, home');
      if q != m {
        DropMagazine(mags, home, where, q);
        EmptyOut(mags, home', w1, m);
      } else {
        SpilledTwice(where, m);
        EmptyOut(mags, home, where, m);
      }
      SpilledKeeps(where, q);
      SpilledKeeps(w1, m);
      ObjectsStay(size, slabs, where, slabs, w2);
      StacksStay(slabs, word, stacks, where, w2);
      SpareStays(supply, slabs, slabs, mags, mags[m := mag]);
    }

    lemma Sizes(cpu: nat)
      requires Valid() && cpu < MAX_CPUS
      ensures |loaded| == |previous| == MAX_CPUS && Sized(mags) && loaded[cpu] in mags
        && |mags[loaded[cpu]].objects| == MAG_SIZE
    {
    }

    /** All ways a CPU's magazines can be when a free finds no room: the loaded one full and the other not empty. */
    predicate NoRoom(cpu: nat)
      requires Shape() && cpu < MAX_CPUS
      reads this
    {
      mags[loaded[cpu]].count == MAG_SIZE && mags[previous[cpu]].count != 0
    }

    /** Lines 139-143: a slot of the loaded magazine. */
    method FreeLoaded(cpu: nat, obj: nat)
      requires Shape() && cpu < MAX_CPUS && mags[loaded[cpu]].count < MAG_SIZE
      modifies this`mags, this`where
      ensures mags.Keys == old(mags).Keys
      ensures old(Valid()) && obj in old(where) && old(where)[obj] == Held ==>
        Valid() && FreeStep(cpu, old(Look()), Look(), obj) && Lossless(old(where), where)
    {
      hide Valid, Returned, Lossless, FreeStep;
      ghost var v, good := Look(), Valid() && obj in where && where[obj] == Held;
      if good {
        LooksRight(cpu);
        PutReturns(where, obj);
      }
      PutInto(loaded[cpu], obj);
      if good {
        PutsLoaded(cpu, v, Look(), obj);
      }
    }

    /** Lines 145-151: the magazines change places first. */
    method FreeOther(cpu: nat, obj: nat)
      requires Shape() && cpu < MAX_CPUS && mags[loaded[cpu]].count == MAG_SIZE && mags[previous[cpu]].count == 0
      modifies this`mags, this`where, this`loaded, this`previous
      ensures mags.Keys == old(mags).Keys
      ensures old(Valid()) && obj in old(where) && old(where)[obj] == Held ==>
        Valid() && FreeStep(cpu, old(Look()), Look(), obj) && Lossless(old(where), where)
    {
      hide Valid, Returned, Lossless, FreeStep;
      ghost var v, good := Look(), Valid() && obj in where && where[obj] == Held;
      if good {
        LooksRight(cpu);
        PutReturns(where, obj);
      }
      Swap(cpu);
      PutInto(loaded[cpu], obj);
      if good {
        PutsOther(cpu, v, Look(), obj);
      }
    }

    lemma WillSpill(cpu: nat, obj: nat)
      requires Valid() && Shape() && cpu < MAX_CPUS && NoRoom(cpu) && obj in where && where[obj] == Held
      ensures
        var m, q := loaded[cpu], previous[cpu];
        var where' := Spilled(Spilled(where, q), m);
        && obj in where' && where'[obj] == Held && !Lossless(where, where'[obj := Slot(m, 0)])
        && Returned(where, where'[obj := Slot(m, 0)], obj, {m, q})
    {
      LooksRight(cpu);
      hide SlabsOk, Homed, Slotted, Returned, Lossless, Spilled;
      SpillLoses(mags, home, where, loaded[cpu], previous[cpu], obj);
    }

    /** Lines 153-166: the full magazine is emptied, and the other one forgotten. */
    method FreeWasting(cpu: nat, obj: nat)
      requires Shape() && cpu < MAX_CPUS && NoRoom(cpu)
      modifies this`mags, this`where, this`home, this`loaded, this`previous, this`depotFull
      ensures mags.Keys == old(mags).Keys
      ensures old(Valid()) && obj in old(where) && old(where)[obj] == Held ==>
        Valid() && FreeStep(cpu, old(Look()), Look(), obj) && !Lossless(old(where), where)
    {
      hide Valid, Returned, Lossless, Spilled, FreeStep;
      ghost var v, good := Look(), Valid() && obj in where && where[obj] == Held;
      if good {
        LooksRight(cpu);
        WillSpill(cpu, obj);
      }
      Recycle(cpu);
      PutInto(loaded[cpu], obj);
      if good {
        PutsWasting(cpu, v, Look(), obj);
      }
    }

    /**
     kmem_free_cache of an object a caller holds. Nothing is lost exactly when there is room; otherwise all objects
     in the CPU's two magazines are.
     */
    method Free(cpu: nat, obj: nat)
      requires Shape() && cpu < MAX_CPUS
      modifies this
      ensures slabs == old(slabs) && mags.Keys == old(mags).Keys && supply == old(supply)
      ensures old(Valid()) && obj in old(where) && old(where)[obj] == Held ==>
        Valid() && FreeStep(cpu, old(Look()), Look(), obj) && (Lossless(old(where), where) <==> !old(NoRoom(cpu)))
    {
      hide Valid, FreeStep, Lossless;
      if mags[loaded[cpu]].count < MAG_SIZE {
        FreeLoaded(cpu, obj);
      } else if mags[previous[cpu]].count == 0 {
        FreeOther(cpu, obj);
      } else {
        FreeWasting(cpu, obj);
      }
    }

    /**
     A caller may write any byte of an object it holds: the write is in no header, magazine or other object, and the
     free lists do not notice.
     */
    method Scribble(obj: nat, a: nat, memory: Links)
      requires Valid() && obj in where && where[obj] == Held && obj <= a < obj + size && ByteWritten(word, memory, a)
      modifies this`word
      ensures Valid() && word == memory
      ensures forall q :: q in where && q != obj ==> a < q || q + size <= a
      ensures forall p :: p in slabs ==> a < p || p + HEADER <= a
      ensures forall m :: m in mags ==> a < m || m + PAGE <= a
    {
      hide Objects, Stacked, Listed, Spare, Ours, Homed, Slotted, ByteWritten;
      Scribbled(size, slabs, word, memory, stacks, where, obj, a);
      HeadersSafe(size, slabs, mags, supply, where, obj, a);
      forall q | q in where && q != obj ensures a < q || q + size <= a {
        ByteOutside(size, slabs, where, obj, a, q);
      }
      word := memory;
    }

    // ---- kmem_cache_intialize

    /** While CPUs are being added: objs are the only objects taken, each once. */
    ghost predicate Booting(objs: seq<nat>)
      reads this
    {
      SlabShape() && SlabsOk() && MagsOk() && Calm(where, objs) && Distinct(objs) && AllHeld(where, objs)
    }

    method TakeOne(ghost objs: seq<nat>) returns (r: Result)
      requires Booting(objs)
      modifies this`slabs, this`word, this`partial, this`full, this`supply, this`where, this`stacks
      ensures r.Got? <==> !(old(partial) == [] && old(supply) == [])
      ensures Took(1, old(supply), supply, old(Owned()), Owned())
      ensures r.Got? ==> Booting(objs + [r.obj])
    {
      hide SlabsOk, Slotted, Homed, Granted, Calm, AllHeld, Distinct, Took;
      ghost var before := where;
      r := AllocFromSlabs();
      if r.Got? {
        StillSlotted(mags, home, before, where, r.obj);
        TookOne(before, where, objs, r.obj);
      }
    }

    /** The loop of cache_make_magazine. */
    method Populate() returns (objs: seq<nat>, ok: bool)
      requires Booting([])
      modifies this`slabs, this`word, this`partial, this`full, this`supply, this`where, this`stacks
      ensures |old(supply)| >= MAG_SIZE ==> ok
      ensures ok ==> Booting(objs) && |objs| == MAG_SIZE && Took(MAG_SIZE, old(supply), supply, old(Owned()), Owned())
    {
      hide Booting, Took;
      objs := [];
      ghost var s0, o0 := supply, Owned();
      TookNone(0, s0, o0);
      var i := 0;
      while i < MAG_SIZE
        invariant 0 <= i == |objs| <= MAG_SIZE && Booting(objs) && Took(i, s0, supply, o0, Owned())
      {
        ghost var s1, o1 := supply, Owned();
        var r := TakeOne(objs);
        if !r.Got? {
          TookLength(i, s0, s1, o0, o1);
          return objs, false;
        }
        TookMore(i, 1, s0, s1, supply, o0, o1, Owned());
        objs := objs + [r.obj];
        i := i + 1;
      }
      ok := true;
    }

    /** A page for a magazine that no CPU has yet. */
    method MagazinePage() returns (m: Option<nat>)
      requires Booting([])
      modifies this`supply, this`mags
      ensures m.None? <==> old(supply) == []
      ensures m.Some? ==> Booting([]) && m.value !in old(mags) && mags == old(mags)[m.value := Empty()]
      ensures m.Some? ==> m.value !in home
      ensures m.Some? ==> Took(1, old(supply), supply, old(Owned()), Owned())
    {
      hide Objects, Stacked, Listed, Spare, Ours, Slotted, Homed, Calm, Distinct, AllHeld, Took;
      if supply == [] {
        return None;
      }
      m := Some(supply[0]);
      var mag := Empty();
      NewPage(supply, slabs, mags, mag);
      HomesGrow(loaded, previous, mags, m.value, mag, home);
      Unseen(mags, home, where, m.value, mag);
      TookFirst(supply, Owned(), slabs.Keys + mags[m.value := mag].Keys);
      supply := supply[1..];
      mags := mags[m.value := mag];
    }

    /** A page and the objects for the magazine to load. */
    method FirstPage() returns (m: nat, objs: seq<nat>, ok: bool)
      requires Booting([])
      modifies this`slabs, this`word, this`partial, this`full, this`supply, this`where, this`stacks, this`mags
      ensures |old(supply)| >= MAG_SIZE + 1 ==> ok
      ensures ok ==> Booting(objs) && |objs| == MAG_SIZE && m !in home && m !in old(mags)
      ensures ok ==> mags == old(mags)[m := Empty()]
      ensures ok ==> Took(MAG_SIZE + 1, old(supply), supply, old(Owned()), Owned())
    {
      hide Booting, Empty, Took;
      ghost var s0, o0 := supply, Owned();
      var page := MagazinePage();
      if page.None? {
        return 0, [], false;
      }
      m := page.value;
      ghost var s1, o1 := supply, Owned();
      TookLength(1, s0, s1, o0, o1);
      objs, ok := Populate();
      if ok {
        TookMore(1, MAG_SIZE, s0, s1, supply, o0, o1, Owned());
      }
    }

    /** Both magazines of the next CPU, not yet given to it. */
    method BothPages() returns (m: nat, q: nat, objs: seq<nat>, ok: bool)
      requires Booting([])
      modifies this`slabs, this`word, this`partial, this`full, this`supply, this`where, this`stacks, this`mags
      ensures |old(supply)| >= CPU_PAGES ==> ok
      ensures ok ==> Booting(objs) && |objs| == MAG_SIZE && m != q && m !in home && q !in home && m !in old(mags)
      ensures ok ==> q !in old(mags)
      ensures ok ==> mags == old(mags)[m := Mag(MAG_SIZE, objs)][q := Empty()]
      ensures ok ==> Took(CPU_PAGES, old(supply), supply, old(Owned()), Owned())
    {
      hide Booting, Empty, Took;
      q := 0;
      ghost var s0, o0 := supply, Owned();
      m, objs, ok := FirstPage();
      if !ok {
        return;
      }
      ghost var s1, o1 := supply, Owned();
      TookLength(MAG_SIZE + 1, s0, s1, o0, o1);
      var page := SecondPage(m, objs);
      ok := page.Some?;
      if ok {
        q := page.value;
        TookMore(MAG_SIZE + 1, 1, s0, s1, supply, o0, o1, Owned());
        assert mags == old(mags)[m := Mag(MAG_SIZE, objs)][q := Empty()];
      }
    }

    /** Lines 84-87: a full magazine to load and an empty one; false stands for the page allocator's panic. */
    method AddCpu() returns (m: nat, q: nat, ok: bool)
      requires Booting([])
      modifies this
      ensures |old(supply)| >= CPU_PAGES ==> ok
      ensures ok ==> Booting([]) && loaded == old(loaded) + [m] && previous == old(previous) + [q]
      ensures ok ==> m in mags && mags[m].count == MAG_SIZE && q in mags && mags[q].count == 0 && m != q
      ensures ok ==> forall x :: x in old(mags) ==> x in mags && mags[x] == old(mags)[x]
      ensures ok ==> Took(CPU_PAGES, old(supply), supply, old(Owned()), Owned())
    {
      hide Booting, Empty, Took;
      var objs;
      m, q, objs, ok := BothPages();
      if ok {
        Install(m, q, objs);
      }
    }

    /** Every CPU so far has a full magazine loaded and an empty one behind it. */
    ghost predicate AllFull()
      reads this
    {
      forall c: nat :: c < |loaded| ==> Levels(Look(), c, MAG_SIZE, 0)
    }

    lemma BootingSized()
      requires Booting([])
      ensures Sized(mags)
    {
    }

    method AddNext() returns (ok: bool)
      requires Booting([]) && |loaded| == |previous| && AllFull()
      modifies this
      ensures |old(supply)| >= CPU_PAGES ==> ok
      ensures ok ==> Booting([]) && |loaded| == |old(loaded)| + 1 == |previous| && AllFull()
      ensures ok ==> Took(CPU_PAGES, old(supply), supply, old(Owned()), Owned())
    {
      hide Booting, Took;
      ghost var l0, p0 := loaded, previous;
      var m, q;
      m, q, ok := AddCpu();
      if ok {
        BootingSized();
        forall c: nat | c < |loaded| ensures Levels(Look(), c, MAG_SIZE, 0) {
          if c < |l0| {
            assert old(Levels(Look(), c, MAG_SIZE, 0));
            assert loaded[c] == l0[c] && previous[c] == p0[c];
          } else {
            assert loaded[c] == m && previous[c] == q;
          }
        }
      }
    }

    /** The magazine is filled in, and a page taken for the other. */
    method SecondPage(m: nat, objs: seq<nat>) returns (q: Option<nat>)
      requires Booting(objs) && |objs| == MAG_SIZE && m in mags && m !in home
      modifies this`supply, this`mags
      ensures q.None? <==> old(supply) == []
      ensures q.Some? ==> Booting(objs) && q.value != m && q.value !in home && q.value !in old(mags)
      ensures q.Some? ==> Took(1, old(supply), supply, old(Owned()), Owned())
      ensures q.Some? ==> mags == old(mags)[m := Mag(MAG_SIZE, objs)][q.value := Empty()]
    {
      hide Objects, Stacked, Listed, Spare, Ours, Slotted, Homed, Calm, Distinct, AllHeld, Took;
      var mag, empty := Mag(MAG_SIZE, objs), Empty();
      HomesStay(loaded, previous, mags, m, mag, home);
      Unseen(mags, home, where, m, mag);
      SpareStays(supply, slabs, slabs, mags, mags[m := mag]);
      mags := mags[m := mag];
      if supply == [] {
        return None;
      }
      q := Some(supply[0]);
      NewPage(supply, slabs, mags, empty);
      HomesGrow(loaded, previous, mags, q.value, empty, home);
      Unseen(mags, home, where, q.value, empty);
      TookFirst(supply, Owned(), slabs.Keys + mags[q.value := empty].Keys);
      supply := supply[1..];
      mags := mags[q.value := empty];
    }

    method Install(m: nat, q: nat, objs: seq<nat>)
      requires Booting(objs) && |objs| == MAG_SIZE && m in mags && mags[m] == Mag(MAG_SIZE, objs) && m !in home
      requires q in mags && q != m && q !in home && mags[q].count == 0
      modifies this`loaded, this`previous, this`home, this`where
      ensures Booting([]) && loaded == old(loaded) + [m] && previous == old(previous) + [q]
    {
      hide Objects, Stacked, Listed, Spare, Ours, Slotted, Homed, Calm, Distinct, AllHeld, Assign;
      Installed(m, q, objs);
      home := home[m := |loaded|][q := |loaded|];
      where := Assign(where, m, objs, MAG_SIZE);
      loaded, previous := loaded + [m], previous + [q];
    }

    lemma Installed(m: nat, q: nat, objs: seq<nat>)
      requires Booting(objs) && |objs| == MAG_SIZE && m in mags && mags[m] == Mag(MAG_SIZE, objs) && m !in home
      requires q in mags && q != m && q !in home && mags[q].count == 0
      ensures
        var where', home' := Assign(where, m, objs, MAG_SIZE), home[m := |loaded|][q := |loaded|];
        && Objects(size, slabs, where') && Stacked(slabs, word, stacks, where')
        && Homed(loaded + [m], previous + [q], mags, home')
        && Slotted(mags, home', where') && Calm(where', []) && Distinct<nat>([]) && AllHeld(where', [])
    {
      assert Sized(mags);
      hide Objects, Stacked, Listed, Spare, Ours, Slotted, Homed, Calm, Distinct, AllHeld, Sized, Assign;
      var where' := Assign(where, m, objs, MAG_SIZE);
      NewHomes(loaded, previous, mags, home, m, q);
      NewCpu(mags, home, where, m, q, objs, |loaded|);
      CalmAgain(where, m, objs);
      ObjectsStay(size, slabs, where, slabs, where');
      StacksStay(slabs, word, stacks, where, where');
      NoneHeld(where');
    }

    lemma BlankBoots()
      requires slabs == map[] && partial == [] && full == [] && mags == map[] && loaded == [] && previous == []
        && depotFull == []
      requires depotEmpty == [] && where == map[] && stacks == map[] && home == map[] && 8 <= size <= PAGE - HEADER
      requires Distinct(supply) && forall p :: p in supply ==> p % PAGE == 0 && p > 0
      ensures Booting([]) && Owned() == {}
    {
    }

    lemma Booted()
      requires Booting([]) && |loaded| == MAX_CPUS
      ensures Valid() && forall o :: o in where ==> where[o].Free? || where[o].Slot?
    {
    }

    /** The empty cache of lines 71-80. */
    static method NoCpus(id: nat, size: nat, pages: seq<nat>) returns (b: Cache)
      requires 8 <= size <= PAGE - HEADER && Distinct(pages) && forall p :: p in pages ==> p % PAGE == 0 && p > 0
      ensures fresh(b) && b.id == id && b.size == size && b.Booting([]) && b.loaded == b.previous == [] && b.AllFull()
      ensures Took(0, pages, b.supply, {}, b.Owned())
    {
      hide Cache.Booting, Took;
      b := new Cache.Blank(id, size, pages);
      b.BlankBoots();
      TookNone(0, pages, {});
    }

    /** kmem_cache_intialize; null stands for the page allocator's panic, which CACHE_PAGES pages rule out. */
    static method Init(id: nat, size: nat, pages: seq<nat>) returns (c: Cache?)
      requires 8 <= size <= PAGE - HEADER && Distinct(pages) && forall p :: p in pages ==> p % PAGE == 0 && p > 0
      ensures |pages| >= CACHE_PAGES ==> c != null
      ensures c != null ==> fresh(c) && c.id == id && c.size == size && c.Valid() && c.AllFull()
      ensures c != null ==> forall o :: o in c.where ==> c.where[o].Free? || c.where[o].Slot?
      ensures c != null ==> Took(CACHE_PAGES, pages, c.supply, {}, c.Owned())
    {
      hide Cache.Booting, Cache.Valid, Cache.AllFull, Cache.Owned, Took;
      var b := NoCpus(id, size, pages);
      ghost var used: nat := 0;
      var i := 0;
      while i < MAX_CPUS
        invariant 0 <= i <= MAX_CPUS && fresh(b) && b.Booting([]) && |b.loaded| == i == |b.previous| && b.AllFull()
        invariant used == 34 * i && Took(used, pages, b.supply, {}, b.Owned())
      {
        ghost var s1, o1 := b.supply, b.Owned();
        TookLength(used, pages, s1, {}, o1);
        var ok := b.AddNext();
        if !ok {
          return null;
        }
        TookMore(used, CPU_PAGES, pages, s1, b.supply, {}, o1, b.Owned());
        used := used + CPU_PAGES;
        i := i + 1;
      }
      b.Booted();
      c := b;
    }

    // ---- every run

    ghost function Now(held: seq<nat>): State
      reads this
    {
      State(Look(), held)
    }

    /** The invariant, as far as a run can see it. */
    lemma ValidSettles(held: seq<nat>)
      requires Valid() && HeldAre(where, held)
      ensures Settled(Now(held))
    {
      hide HeldAre, Homed, Slotted;
    }

    method DoAlloc(cpu: nat, held: seq<nat>) returns (held': seq<nat>, ok: bool)
      requires Valid() && HeldAre(where, held) && cpu < MAX_CPUS
      modifies this
      ensures |old(supply)| <= |supply| + 1
      ensures !ok ==> unchanged(this) && Starved(cpu) && held' == held
      ensures ok ==> Valid() && HeldAre(where, held') && Answered(AllocOn(cpu), old(Now(held)), Now(held'))
    {
      hide Valid, Shape, HeldAre, AllocMoves, Granted, Starved, Took, Answered;
      ValidShape();
      ghost var s, s0, o0 := Now(held), supply, Owned();
      var r := Alloc(cpu);
      TookLength(1, s0, supply, o0, Owned());
      ok, held' := r.Got?, held;
      if ok {
        HoldOne(s.view.where, where, held, r.obj);
        held' := held + [r.obj];
        AllocAnswered(AllocOn(cpu), s, Now(held'), r.obj);
      }
    }

    method DoFree(cpu: nat, held: seq<nat>, k: nat) returns (held': seq<nat>)
      requires Valid() && HeldAre(where, held) && cpu < MAX_CPUS && k < |held|
      modifies this
      ensures supply == old(supply)
      ensures Valid() && HeldAre(where, held') && Answered(FreeOn(cpu, k), old(Now(held)), Now(held'))
    {
      hide Valid, Shape, HeldAre, Returned, Lossless, FreeMoves, Wasted;
      ValidShape();
      ghost var s := Now(held);
      IsHeld(where, held, k);
      Free(cpu, held[k]);
      held' := Without(held, k);
      GiveBack(s.view.where, where, held, k, Wasted(s.view, cpu));
    }

    /** One call of a run; false stands for the page allocator's panic. */
    method Do(call: Call, held: seq<nat>) returns (held': seq<nat>, ok: bool)
      requires Valid() && HeldAre(where, held)
      modifies this
      ensures |old(supply)| <= |supply| + 1
      ensures !ok ==> unchanged(this) && call.AllocOn? && Starved(call.cpu) && held' == held
      ensures ok ==> Valid() && HeldAre(where, held') && Answered(call, old(Now(held)), Now(held'))
    {
      hide Valid, HeldAre, AllocStep, FreeStep, Starved;
      held', ok := held, true;
      if call.cpu < MAX_CPUS {
        if call.AllocOn? {
          held', ok := DoAlloc(call.cpu, held);
        } else if call.k < |held| {
          held' := DoFree(call.cpu, held, call.k);
        }
      }
    }

    /** The calls have led from the first state to this one, and objects are lost exactly if one of them spilled. */
    ghost predicate Ran(first: State, calls: seq<Call>, trace: seq<State>, held: seq<nat>)
      reads this
    {
      && Valid() && HeldAre(where, held)
      && Traced(calls, trace) && trace[0] == first && trace[|calls|] == Now(held)
      && (AnyLost(where) <==> SomeSpill(calls, trace))
    }

    /**
     Any run of allocations and frees on any CPUs, up to a call the page allocator has nothing left for: every step
     does what its call asks to the objects and to the magazines, every object is in one place throughout, and some
     are lost exactly if a free finds both of its CPU's magazines without room.
     */
    method Serve(calls: seq<Call>) returns (held: seq<nat>, done: nat, ghost trace: seq<State>)
      requires Valid() && HeldAre(where, []) && !AnyLost(where)
      modifies this
      ensures done <= |calls| && Ran(old(Now([])), calls[..done], trace, held)
      ensures done < |calls| ==> calls[done].AllocOn? && Starved(calls[done].cpu)
      ensures |old(supply)| <= |supply| + done
    {
      hide Valid, HeldAre, AnyLost, Answered, Spills, Traced, SomeSpill, Starved;
      RanNone();
      held, trace, done := [], [Now([])], 0;
      while done < |calls|
        invariant 0 <= done <= |calls| && Ran(old(Now([])), calls[..done], trace, held)
        invariant |old(supply)| <= |supply| + done
      {
        ghost var s := Now(held);
        var ok;
        held, ok := Do(calls[done], held);
        if !ok {
          return;
        }
        RanMore(old(Now([])), calls[..done], trace, calls[done], s, held);
        assert calls[..done + 1] == calls[..done] + [calls[done]];
        trace := trace + [Now(held)];
        done := done + 1;
      }
    }

    lemma RanNone()
      requires Valid() && HeldAre(where, []) && !AnyLost(where)
      ensures Ran(Now([]), [], [Now([])], [])
    {
      hide Valid, HeldAre, AnyLost, Settled;
      ValidSettles([]);
    }

    lemma RanMore(first: State, calls: seq<Call>, trace: seq<State>, call: Call, s: State, held: seq<nat>)
      requires Valid() && HeldAre(where, held) && Answered(call, s, Now(held))
      requires Traced(calls, trace) && trace[0] == first && trace[|calls|] == s
      requires AnyLost(s.view.where) <==> SomeSpill(calls, trace)
      ensures Ran(first, calls + [call], trace + [Now(held)], held)
    {
      assert Settled(s);
      hide Valid, HeldAre, AnyLost, Answered, Spills, SomeSpill, Settled;
      ValidSettles(held);
      StepLoses(call, s, Now(held));
      TracedMore(calls, trace, call, s, Now(held));
    }

    // ---- a run that loses objects

    /** 65 objects allocated on one CPU and given back: the last free finds both magazines full and loses them. */
    static method Leak(id: nat, size: nat, pages: seq<nat>)
        returns (c: Cache?, held: seq<nat>, done: nat, ghost trace: seq<State>)
      requires 8 <= size <= PAGE - HEADER && Distinct(pages) && forall p :: p in pages ==> p % PAGE == 0 && p > 0
      ensures |pages| >= CACHE_PAGES + MANY ==> c != null && done == 2 * MANY
      ensures c != null && done == 2 * MANY ==>
        && |trace| == 2 * MANY + 1 && c.Ran(trace[0], LeakCalls(), trace, held) && AnyLost(c.where)
        && Midway(trace[0], 0) && !AnyLost(trace[0].view.where)
    {
      hide Cache.Valid, Cache.Starved, Took, Traced, HeldAre, AnyLost, LeakCalls, Midway;
      c := Init(id, size, pages);
      held, done, trace := [], 0, [];
      if c != null {
        c.FreshStart();
        TookLength(CACHE_PAGES, pages, c.supply, {}, c.Owned());
        ghost var first := c.Now([]);
        held, done, trace := c.Serve(LeakCalls());
        if done == 2 * MANY {
          assert LeakCalls()[..done] == LeakCalls();
          c.RanLength(first, LeakCalls(), trace, held);
          LeakSpills(trace);
        } else {
          c.StarvedOut(LeakCalls()[done].cpu);
        }
      }
    }

    lemma RanLength(first: State, calls: seq<Call>, trace: seq<State>, held: seq<nat>)
      requires Ran(first, calls, trace, held)
      ensures |trace| == |calls| + 1
    {
    }

    lemma StarvedOut(cpu: nat)
      requires Starved(cpu)
      ensures supply == []
    {
    }

    lemma FreshStart()
      requires Valid() && AllFull() && forall o :: o in where ==> where[o].Free? || where[o].Slot?
      ensures HeldAre(where, []) && !AnyLost(where) && Midway(Now([]), 0)
    {
    }
  }

  /** A held object that goes into a slot is all that changes. */
  lemma PutReturns(where: Where, o: nat)
    requires o in where && where[o] == Held
    ensures forall m, i :: Returned(where, where[o := Slot(m, i)], o, {}) && Lossless(where, where[o := Slot(m, i)])
  {
  }

  /** The magazines do not see an allocation from a slab. */
  lemma StillSlotted(mags: Mags, home: map<nat, nat>, before: Where, after: Where, o: nat)
    requires Granted(before, after, o) && (o in before ==> before[o].Free?) && Slotted(mags, home, before)
    ensures Slotted(mags, home, after)
  {
    hide Slotted;
    SlotsStay(mags, home, before, after);
  }

  lemma TookOne(before: Where, after: Where, objs: seq<nat>, o: nat)
    requires Granted(before, after, o) && Calm(before, objs) && Distinct(objs) && AllHeld(before, objs)
    requires o in before ==> before[o].Free?
    ensures Calm(after, objs + [o]) && Distinct(objs + [o]) && AllHeld(after, objs + [o])
  {
    var t := objs + [o];
    forall i | 0 <= i < |objs| ensures t[i] in after && after[t[i]] == Held && t[i] != o {
      assert t[i] == objs[i];
    }
  }

  lemma IsHeld(where: Where, held: seq<nat>, k: nat)
    requires HeldAre(where, held) && k < |held|
    ensures held[k] in where && where[held[k]] == Held
  {
  }
}
