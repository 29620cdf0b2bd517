/** Slabs, magazines and where each object of a cache is; the invariants behind kernel/src/mm/kmem.c. */
module Slabs {
  import opened Words

  const MAG_SIZE: nat := 32
  const MAX_CPUS: nat := 32
  /** sizeof(kmem_slab_t): a list node, the cache and the free list. */
  const HEADER: nat := 32

  /** The header of a slab page; address 0 ends the free list. */
  datatype Slab = Slab(cache: nat, freelist: nat)

  datatype Mag = Mag(count: nat, objects: seq<nat>)

  /** A new magazine: no objects, all slots null. */
  function Empty(): (m: Mag)
    ensures m.count == 0 && |m.objects| == MAG_SIZE
  {
    Mag(0, seq(MAG_SIZE, _ => 0))
  }

  /** Where an object is: on its slab's free list, in a magazine a CPU can reach, with a caller, or nowhere. */
  datatype Place = Free(slab: nat, depth: nat) | Slot(mag: nat, index: nat) | Held | Lost

  type Where = map<nat, Place>
  type Links = map<nat, nat>
  type SlabMap = map<nat, Slab>
  type Stacks = map<nat, seq<nat>>
  type Mags = map<nat, Mag>

  // ---- objects in a slab page

  function ObjectCount(size: nat): nat
    requires size > 0
  {
    (PAGE - HEADER) / size
  }

  function ObjAt(page: nat, i: nat, size: nat): nat { page + HEADER + i * size }

  /** The page of an address, as the mask ~(SLAB_SIZE - 1) gives it. */
  function Base(o: nat): nat { o / PAGE * PAGE }

  lemma Scaled(a: nat, b: nat, size: nat)
    requires a <= b
    ensures a * size <= b * size
  {
  }

  /** The objects of a slab lie inside its page, so the mask finds the slab. */
  lemma InsidePage(page: nat, i: nat, size: nat)
    requires page % PAGE == 0 && size > 0 && i < ObjectCount(size)
    ensures page + HEADER <= ObjAt(page, i, size) && ObjAt(page, i, size) + size <= page + PAGE
      && Base(ObjAt(page, i, size)) == page
  {
    hide ObjectCount, Base;
    CountFits(size);
    Scaled(i + 1, ObjectCount(size), size);
    assert (i + 1) * size == i * size + size;
    BaseIs(page, ObjAt(page, i, size));
  }

  lemma CountFits(size: nat)
    requires size > 0
    ensures ObjectCount(size) * size <= PAGE - HEADER
  {
  }

  lemma BaseIs(page: nat, o: nat)
    requires page % PAGE == 0 && page <= o < page + PAGE
    ensures Base(o) == page
  {
  }

  lemma ApartInPage(page: nat, i: nat, j: nat, size: nat)
    requires i < j
    ensures ObjAt(page, i, size) + size <= ObjAt(page, j, size)
  {
    Scaled(i + 1, j, size);
    assert (i + 1) * size == i * size + size;
  }

  /** where covers exactly the objects of the slabs. */
  ghost predicate Objects(size: nat, slabs: SlabMap, where: Where) {
    && 8 <= size <= PAGE - HEADER
    && (forall p :: p in slabs ==> p % PAGE == 0 && p > 0)
    && (forall p: nat, i: nat :: p in slabs && i < ObjectCount(size) ==> ObjAt(p, i, size) in where)
    && (forall o :: o in where ==>
        Base(o) in slabs && exists i: nat :: i < ObjectCount(size) && o == ObjAt(Base(o), i, size))
  }

  lemma Inside(size: nat, slabs: SlabMap, where: Where, o: nat)
    requires Objects(size, slabs, where) && o in where
    ensures o > 0 && Base(o) + HEADER <= o && o + size <= Base(o) + PAGE
  {
    var i: nat :| i < ObjectCount(size) && o == ObjAt(Base(o), i, size);
    InsidePage(Base(o), i, size);
  }

  /** The count is the largest that fits. */
  lemma CountFull(size: nat, i: nat)
    requires size > 0
    ensures i < ObjectCount(size) <==> HEADER + (i + 1) * size <= PAGE
  {
    CountFits(size);
    if i < ObjectCount(size) {
      Scaled(i + 1, ObjectCount(size), size);
    } else {
      Scaled(ObjectCount(size) + 1, i + 1, size);
      assert (ObjectCount(size) + 1) * size == ObjectCount(size) * size + size;
    }
  }

  /** Every place in the page of p that an object fits is one of s. */
  ghost predicate FillsPage(s: set<nat>, p: nat, size: nat) {
    forall i: nat :: HEADER + (i + 1) * size <= PAGE ==> ObjAt(p, i, size) in s
  }

  /** Slab pages are filled: wherever one more object would fit in the page there is one. */
  lemma SlabFull(size: nat, slabs: SlabMap, where: Where, p: nat, i: nat)
    requires Objects(size, slabs, where) && p in slabs && p + HEADER + (i + 1) * size <= p + PAGE
    ensures p + HEADER + i * size in where
  {
    CountFull(size, i);
    assert ObjAt(p, i, size) in where;
  }

  lemma RunFull(page: nat, size: nat, made: Where)
    requires size > 0 && Fills(made, page, Run(page, ObjectCount(size), size))
    ensures FillsPage(made.Keys, page, size)
  {
    var s := Run(page, ObjectCount(size), size);
    forall i: nat | HEADER + (i + 1) * size <= PAGE ensures ObjAt(page, i, size) in made.Keys {
      CountFull(size, i);
      assert s[i] in made;
    }
  }

  lemma NextPage(o: nat, q: nat)
    requires o < q && Base(o) != Base(q)
    ensures Base(o) + PAGE <= Base(q)
  {
  }

  /** No two objects of a cache overlap. */
  lemma Disjoint(size: nat, slabs: SlabMap, where: Where, o: nat, q: nat)
    requires Objects(size, slabs, where) && o in where && q in where && o < q
    ensures o + size <= q
  {
    var i: nat :| i < ObjectCount(size) && o == ObjAt(Base(o), i, size);
    var j: nat :| j < ObjectCount(size) && q == ObjAt(Base(q), j, size);
    hide Base, ObjAt, ObjectCount, Objects;
    Inside(size, slabs, where, o);
    Inside(size, slabs, where, q);
    if Base(o) != Base(q) {
      NextPage(o, q);
    } else if i < j {
      ApartInPage(Base(o), i, j, size);
    } else if j < i {
      ApartInPage(Base(o), j, i, size);
    }
  }

  // ---- free lists threaded through the objects

  function Load(word: Links, a: nat): nat { if a in word then word[a] else 0 }

  function Top(s: seq<nat>): nat { if s == [] then 0 else s[|s| - 1] }

  /** From head, each word leads to the object pushed before it. */
  ghost predicate Chain(word: Links, head: nat, s: seq<nat>) {
    && head == Top(s)
    && forall i :: 0 <= i < |s| ==> Load(word, s[i]) == Top(s[..i])
  }

  /** Each free object is where its place says, and nothing else is on a free list. */
  ghost predicate Depths(slabs: SlabMap, stacks: Stacks, where: Where)
    requires stacks.Keys == slabs.Keys
  {
    forall p, i :: p in slabs && 0 <= i < |stacks[p]| ==> stacks[p][i] in where && where[stacks[p][i]] == Free(p, i)
  }

  ghost predicate Founds(slabs: SlabMap, stacks: Stacks, where: Where)
    requires stacks.Keys == slabs.Keys
  {
    forall o :: o in where && where[o].Free? ==>
      where[o].slab in slabs && where[o].depth < |stacks[where[o].slab]| && stacks[where[o].slab][where[o].depth] == o
  }

  ghost predicate Stacked(slabs: SlabMap, word: Links, stacks: Stacks, where: Where) {
    && stacks.Keys == slabs.Keys
    && (forall p :: p in slabs ==> Chain(word, slabs[p].freelist, stacks[p]))
    && Depths(slabs, stacks, where) && Founds(slabs, stacks, where)
  }

  /** Each slab is on one list: the partial one while it has free objects. */
  ghost predicate Listed(partial: seq<nat>, full: seq<nat>, slabs: SlabMap, stacks: Stacks) {
    && Distinct(partial) && Distinct(full) && stacks.Keys == slabs.Keys
    && (forall p :: p in partial ==> p in slabs && stacks[p] != [])
    && (forall p :: p in full ==> p in slabs && stacks[p] == [])
    && (forall p :: p in slabs ==> p in partial || p in full)
  }

  // ---- magazines

  ghost predicate Sized(mags: Mags) {
    forall m :: m in mags ==> |mags[m].objects| == MAG_SIZE && mags[m].count <= MAG_SIZE
  }

  /** home gives the CPU of each magazine that can be reached; a CPU's two may be one and the same. */
  ghost predicate Homed(loaded: seq<nat>, previous: seq<nat>, mags: Mags, home: map<nat, nat>) {
    && |loaded| == |previous| && Sized(mags)
    && (forall c :: 0 <= c < |loaded| ==> loaded[c] in home && home[loaded[c]] == c)
    && (forall c :: 0 <= c < |previous| ==> previous[c] in home && home[previous[c]] == c)
    && (forall m :: m in home ==> m in mags && home[m] < |loaded| && (m == loaded[home[m]] || m == previous[home[m]]))
  }

  ghost predicate Slotted(mags: Mags, home: map<nat, nat>, where: Where) {
    && (forall m, i :: m in home && m in mags && 0 <= i < mags[m].count && i < |mags[m].objects| ==>
          mags[m].objects[i] in where && where[mags[m].objects[i]] == Slot(m, i))
    && (forall o :: o in where && where[o].Slot? ==>
          var m, i := where[o].mag, where[o].index;
          m in home && m in mags && i < mags[m].count && i < |mags[m].objects| && mags[m].objects[i] == o)
  }

  // ---- the free pages

  ghost predicate Spare(supply: seq<nat>, slabs: SlabMap, mags: Mags) {
    && Distinct(supply) && slabs.Keys !! mags.Keys && (forall m :: m in mags ==> m % PAGE == 0)
    && (forall p :: p in supply ==> p % PAGE == 0 && p > 0 && p !in slabs && p !in mags)
  }

  lemma NoSpare(supply: seq<nat>, slabs: SlabMap, mags: Mags)
    requires Spare(supply, slabs, mags)
    ensures Spare([], slabs, mags)
  {
  }

  // ---- taking an object off a slab

  lemma PopChain(word: Links, head: nat, s: seq<nat>)
    requires Chain(word, head, s) && s != []
    ensures head == s[|s| - 1] && Chain(word, Load(word, head), s[..|s| - 1])
  {
    var t := s[..|s| - 1];
    forall i | 0 <= i < |t| ensures Load(word, t[i]) == Top(t[..i]) {
      assert t[..i] == s[..i] && t[i] == s[i];
    }
  }

  lemma TakeTop(slabs: SlabMap, word: Links, stacks: Stacks, where: Where, p: nat)
    requires Stacked(slabs, word, stacks, where) && p in slabs && stacks[p] != []
    ensures
      var o, n := slabs[p].freelist, |stacks[p]| - 1;
      && o == stacks[p][n] && o in where && where[o] == Free(p, n)
      && Stacked(slabs[p := slabs[p].(freelist := Load(word, o))], word, stacks[p := stacks[p][..n]], where[o := Held])
  {
    hide Chain, Load;
    PopChain(word, slabs[p].freelist, stacks[p]);
    var o, n := slabs[p].freelist, |stacks[p]| - 1;
    assert where[o] == Free(p, n);
    Shortened(slabs, stacks, where, p, o);
  }

  lemma Shortened(slabs: SlabMap, stacks: Stacks, where: Where, p: nat, o: nat)
    requires stacks.Keys == slabs.Keys && Depths(slabs, stacks, where) && Founds(slabs, stacks, where)
    requires p in slabs && stacks[p] != [] && o == stacks[p][|stacks[p]| - 1]
    ensures var stacks', where' := stacks[p := stacks[p][..|stacks[p]| - 1]], where[o := Held];
      Depths(slabs, stacks', where') && Founds(slabs, stacks', where')
  {
    var n := |stacks[p]| - 1;
    var stacks', where' := stacks[p := stacks[p][..n]], where[o := Held];
    assert where[o] == Free(p, n);
    forall q, i | q in slabs && 0 <= i < |stacks'[q]|
      ensures stacks'[q][i] in where' && where'[stacks'[q][i]] == Free(q, i)
    {
      assert stacks'[q][i] == stacks[q][i];
      assert where[stacks[q][i]] == Free(q, i);
    }
  }

  lemma FirstOnce(s: seq<nat>)
    requires Distinct(s) && s != []
    ensures Distinct(s[1..]) && forall q :: q in s[1..] <==> q in s && q != s[0]
  {
    assert s == [s[0]] + s[1..];
  }

  lemma LastOnce(s: seq<nat>, p: nat)
    requires Distinct(s) && p !in s
    ensures Distinct(s + [p])
  {
  }

  /** A slab that ran empty moves to the other list. */
  lemma MoveFull(partial: seq<nat>, full: seq<nat>, slabs: SlabMap, stacks: Stacks, s: Slab)
    requires Listed(partial, full, slabs, stacks) && partial != [] && |stacks[partial[0]]| > 0
    ensures
      var p := partial[0];
      var t := stacks[p][..|stacks[p]| - 1];
      if t == [] then Listed(partial[1..], full + [p], slabs[p := s], stacks[p := t])
      else Listed(partial, full, slabs[p := s], stacks[p := t])
  {
    var p := partial[0];
    assert p in partial && p !in full;
    hide Distinct;
    FirstOnce(partial);
    LastOnce(full, p);
  }

  // ---- a new slab

  /** The first n objects of a page, pushed in order. */
  ghost function Run(page: nat, n: nat, size: nat): (s: seq<nat>)
    ensures |s| == n && forall i :: 0 <= i < n ==> s[i] == ObjAt(page, i, size)
  {
    seq(n, i requires 0 <= i => ObjAt(page, i, size))
  }

  /** Words outside the page are as they were. */
  ghost predicate Elsewhere(word: Links, word': Links, page: nat) {
    forall a: nat :: Base(a) != page ==> Load(word', a) == Load(word, a)
  }

  /** made puts exactly the given objects on the free list of the page. */
  ghost predicate Fills(made: Where, page: nat, s: seq<nat>) {
    && (forall i :: 0 <= i < |s| ==> s[i] in made && made[s[i]] == Free(page, i))
    && (forall o :: o in made ==> made[o].Free? && made[o].slab == page && made[o].depth < |s| && s[made[o].depth] == o)
  }

  lemma PushChain(word: Links, head: nat, s: seq<nat>, o: nat)
    requires Chain(word, head, s) && o !in s
    ensures Chain(word[o := head], o, s + [o])
  {
    var t := s + [o];
    forall i | 0 <= i < |t| ensures Load(word[o := head], t[i]) == Top(t[..i]) {
      assert t[..i] == s[..i];
      assert i == |s| ==> s[..i] == s;
    }
  }

  lemma PushFills(made: Where, page: nat, s: seq<nat>, o: nat)
    requires Fills(made, page, s) && o !in s
    ensures Fills(made[o := Free(page, |s|)], page, s + [o])
  {
  }

  lemma RunNext(page: nat, n: nat, size: nat)
    requires size > 0
    ensures Run(page, n + 1, size) == Run(page, n, size) + [ObjAt(page, n, size)]
      && ObjAt(page, n, size) !in Run(page, n, size)
  {
    forall i: nat | i < n ensures Run(page, n, size)[i] != ObjAt(page, n, size) {
      ApartInPage(page, i, n, size);
    }
  }

  /** One turn of the loop in cache_make_slab. */
  lemma PushObject(word: Links, word': Links, head: nat, page: nat, n: nat, size: nat, made: Where)
    requires page % PAGE == 0 && size > 0 && n < ObjectCount(size)
    requires Chain(word', head, Run(page, n, size)) && Elsewhere(word, word', page)
      && Fills(made, page, Run(page, n, size))
    ensures
      var o := ObjAt(page, n, size);
      && Chain(word'[o := head], o, Run(page, n + 1, size)) && Elsewhere(word, word'[o := head], page)
      && Fills(made[o := Free(page, n)], page, Run(page, n + 1, size))
  {
    var o, s := ObjAt(page, n, size), Run(page, n, size);
    InsidePage(page, n, size);
    RunNext(page, n, size);
    PushChain(word', head, s, o);
    PushFills(made, page, s, o);
    hide Base;
  }

  lemma AddSlab(size: nat, slabs: SlabMap, word: Links, stacks: Stacks, where: Where, word': Links, page: nat,
                head: nat, cache: nat, made: Where)
    requires Objects(size, slabs, where) && Stacked(slabs, word, stacks, where)
    requires page !in slabs && page % PAGE == 0 && page > 0 && Elsewhere(word, word', page)
    requires Chain(word', head, Run(page, ObjectCount(size), size))
      && Fills(made, page, Run(page, ObjectCount(size), size))
    ensures var slabs', where' := slabs[page := Slab(cache, head)], where + made;
      && Objects(size, slabs', where')
      && Stacked(slabs', word', stacks[page := Run(page, ObjectCount(size), size)], where')
      && made.Keys !! where.Keys
  {
    var s := Run(page, ObjectCount(size), size);
    FreshObjects(size, slabs, where, page, made);
    NewObjects(size, slabs, where, page, Slab(cache, head), made);
    NewStacks(size, slabs, word, stacks, where, word', page, Slab(cache, head), made, s);
  }

  lemma CountPositive(size: nat)
    requires 0 < size <= PAGE - HEADER
    ensures ObjectCount(size) > 0
  {
  }

  lemma NewListed(partial: seq<nat>, full: seq<nat>, slabs: SlabMap, stacks: Stacks, page: nat, slab: Slab, s: seq<nat>)
    requires Listed(partial, full, slabs, stacks) && page !in slabs && s != []
    ensures Listed(partial + [page], full, slabs[page := slab], stacks[page := s])
  {
  }

  lemma SpareTaken(supply: seq<nat>, slabs: SlabMap, mags: Mags, slab: Slab)
    requires Spare(supply, slabs, mags) && supply != []
    ensures Spare(supply[1..], slabs[supply[0] := slab], mags)
  {
    assert supply[0] in supply;
    FirstOnce(supply);
    hide Distinct;
  }

  lemma FreshObjects(size: nat, slabs: SlabMap, where: Where, page: nat, made: Where)
    requires Objects(size, slabs, where) && page !in slabs && page % PAGE == 0
    requires Fills(made, page, Run(page, ObjectCount(size), size))
    ensures made.Keys !! where.Keys && forall o :: o in made ==> Base(o) == page
  {
    forall o | o in made ensures Base(o) == page && o !in where {
      InsidePage(page, made[o].depth, size);
    }
  }

  lemma NewObjects(size: nat, slabs: SlabMap, where: Where, page: nat, slab: Slab, made: Where)
    requires Objects(size, slabs, where) && page !in slabs && page % PAGE == 0 && page > 0
    requires Fills(made, page, Run(page, ObjectCount(size), size)) && forall o :: o in made ==> Base(o) == page
    ensures Objects(size, slabs[page := slab], where + made)
  {
    var slabs', where' := slabs[page := slab], where + made;
    var s := Run(page, ObjectCount(size), size);
    hide ObjAt, ObjectCount, Base;
    forall p: nat, i: nat | p in slabs' && i < ObjectCount(size) ensures ObjAt(p, i, size) in where' {
      if p == page {
        assert s[i] in made;
      }
    }
    forall o | o in where'
      ensures Base(o) in slabs' && exists i: nat :: i < ObjectCount(size) && o == ObjAt(Base(o), i, size)
    {
      if o in made {
        assert s[made[o].depth] == o;
      }
    }
  }

  lemma ChainStays(word: Links, word': Links, page: nat, head: nat, s: seq<nat>)
    requires Chain(word, head, s) && Elsewhere(word, word', page) && forall i :: 0 <= i < |s| ==> Base(s[i]) != page
    ensures Chain(word', head, s)
  {
    hide Base, Load;
  }

  lemma MoreFree(slabs: SlabMap, stacks: Stacks, where: Where, page: nat, slab: Slab, made: Where, s: seq<nat>)
    requires stacks.Keys == slabs.Keys && Depths(slabs, stacks, where) && Founds(slabs, stacks, where)
    requires page !in slabs && Fills(made, page, s) && made.Keys !! where.Keys
    ensures Depths(slabs[page := slab], stacks[page := s], where + made)
      && Founds(slabs[page := slab], stacks[page := s], where + made)
  {
  }

  lemma NewStacks(size: nat, slabs: SlabMap, word: Links, stacks: Stacks, where: Where, word': Links, page: nat,
                  slab: Slab, made: Where, s: seq<nat>)
    requires Objects(size, slabs, where) && Stacked(slabs, word, stacks, where) && page !in slabs
      && Elsewhere(word, word', page)
    requires Chain(word', slab.freelist, s) && Fills(made, page, s) && made.Keys !! where.Keys
    ensures Stacked(slabs[page := slab], word', stacks[page := s], where + made)
  {
    forall p | p in slabs ensures Chain(word', slabs[p].freelist, stacks[p]) {
      forall i | 0 <= i < |stacks[p]| ensures Base(stacks[p][i]) != page {
        assert Base(stacks[p][i]) in slabs;
      }
      hide Chain, Base, Objects, Elsewhere;
      ChainStays(word, word', page, slabs[p].freelist, stacks[p]);
    }
    hide Chain, Base, Objects, Elsewhere, Depths, Founds, Fills;
    MoreFree(slabs, stacks, where, page, slab, made, s);
  }

  // ---- magazines

  /** Objects in magazine m are gone. */
  ghost function Spilled(where: Where, m: nat): Where {
    map o | o in where :: if where[o].Slot? && where[o].mag == m then Lost else where[o]
  }

  lemma SpilledKeeps(where: Where, m: nat)
    ensures Spilled(where, m).Keys == where.Keys
    ensures forall o :: o in where ==>
      Spilled(where, m)[o] == where[o] || (!where[o].Free? && !Spilled(where, m)[o].Free?)
  {
  }

  lemma SpilledTwice(where: Where, m: nat)
    ensures Spilled(Spilled(where, m), m) == Spilled(where, m)
  {
  }

  lemma TakeSlot(mags: Mags, home: map<nat, nat>, where: Where, m: nat)
    requires Sized(mags) && Slotted(mags, home, where) && m in home && m in mags && mags[m].count > 0
    ensures
      var n := mags[m].count - 1;
      var o := mags[m].objects[n];
      && o in where && where[o] == Slot(m, n)
      && Slotted(mags[m := mags[m].(count := n)], home, where[o := Held])
  {
  }

  lemma PutSlot(mags: Mags, home: map<nat, nat>, where: Where, m: nat, o: nat, mag: Mag)
    requires Sized(mags) && Slotted(mags, home, where) && m in home && m in mags && mags[m].count < MAG_SIZE
    requires o in where && where[o] == Held && mag == Mag(mags[m].count + 1, mags[m].objects[mags[m].count := o])
    ensures Slotted(mags[m := mag], home, where[o := Slot(m, mags[m].count)])
  {
  }

  /** Zeroing a magazine's count loses what was in it. */
  lemma EmptyOut(mags: Mags, home: map<nat, nat>, where: Where, m: nat)
    requires Sized(mags) && Slotted(mags, home, where) && m in mags
    ensures Slotted(mags[m := mags[m].(count := 0)], home, Spilled(where, m))
  {
  }

  /** A magazine no CPU points to any more has lost its objects. */
  lemma DropMagazine(mags: Mags, home: map<nat, nat>, where: Where, m: nat)
    requires Slotted(mags, home, where)
    ensures Slotted(mags, home - {m}, Spilled(where, m))
  {
  }

  /** A change to objects that are not free does not touch the free lists. */
  lemma StacksStay(slabs: SlabMap, word: Links, stacks: Stacks, where: Where, where': Where)
    requires Stacked(slabs, word, stacks, where) && where'.Keys == where.Keys
    requires forall o :: o in where ==> where'[o] == where[o] || (!where[o].Free? && !where'[o].Free?)
    ensures Stacked(slabs, word, stacks, where')
  {
    hide Chain;
  }

  lemma SlotsStay(mags: Mags, home: map<nat, nat>, where: Where, where': Where)
    requires Slotted(mags, home, where) && where.Keys <= where'.Keys
    requires forall o :: o in where ==> where'[o] == where[o] || (!where[o].Slot? && !where'[o].Slot?)
    requires forall o :: o in where' && o !in where ==> !where'[o].Slot?
    ensures Slotted(mags, home, where')
  {
  }

  lemma HomesStay(loaded: seq<nat>, previous: seq<nat>, mags: Mags, m: nat, mag: Mag, home: map<nat, nat>)
    requires Homed(loaded, previous, mags, home) && m in mags && |mag.objects| == MAG_SIZE && mag.count <= MAG_SIZE
    ensures Homed(loaded, previous, mags[m := mag], home) && mags[m := mag].Keys == mags.Keys
  {
  }

  lemma ObjectsStay(size: nat, slabs: SlabMap, where: Where, slabs': SlabMap, where': Where)
    requires Objects(size, slabs, where) && slabs'.Keys == slabs.Keys && where'.Keys == where.Keys
    ensures Objects(size, slabs', where')
  {
    hide Base, ObjAt, ObjectCount;
  }

  lemma SpareStays(supply: seq<nat>, slabs: SlabMap, slabs': SlabMap, mags: Mags, mags': Mags)
    requires Spare(supply, slabs, mags) && slabs'.Keys == slabs.Keys && mags'.Keys == mags.Keys
    ensures Spare(supply, slabs', mags')
  {
  }

  /** The first partial slab has a free object, and its list head is not null. */
  lemma HeadIsFree(size: nat, slabs: SlabMap, word: Links, stacks: Stacks, where: Where, partial: seq<nat>,
                   full: seq<nat>)
    requires Objects(size, slabs, where) && Stacked(slabs, word, stacks, where) && Listed(partial, full, slabs, stacks)
      && partial != []
    ensures partial[0] in slabs && partial[0] in stacks && stacks[partial[0]] != [] && slabs[partial[0]].freelist != 0
  {
    TakeTop(slabs, word, stacks, where, partial[0]);
    Inside(size, slabs, where, slabs[partial[0]].freelist);
  }

  /** The link read from the head is null exactly when the slab has run empty. */
  lemma LastOne(size: nat, slabs: SlabMap, word: Links, stacks: Stacks, where: Where, p: nat)
    requires Objects(size, slabs, where) && Stacked(slabs, word, stacks, where) && p in slabs && stacks[p] != []
    ensures Load(word, slabs[p].freelist) == 0 <==> stacks[p][..|stacks[p]| - 1] == []
  {
    var s := stacks[p];
    assert Load(word, s[|s| - 1]) == Top(s[..|s| - 1]);
    if |s| > 1 {
      assert s[..|s| - 1][|s| - 2] == s[|s| - 2];
      Inside(size, slabs, where, s[|s| - 2]);
    }
  }

  lemma SwapHomes(loaded: seq<nat>, previous: seq<nat>, mags: Mags, home: map<nat, nat>, c: nat)
    requires Homed(loaded, previous, mags, home) && c < |loaded|
    ensures Homed(loaded[c := previous[c]], previous[c := loaded[c]], mags, home)
  {
  }

  /** The loaded magazine stands in both places; the one that was previous is out of reach, unless it is the same. */
  lemma DoubleUp(loaded: seq<nat>, previous: seq<nat>, mags: Mags, home: map<nat, nat>, c: nat)
    requires Homed(loaded, previous, mags, home) && c < |loaded|
    ensures loaded[c] in home && loaded[c] in mags
    ensures Homed(loaded, previous[c := loaded[c]], mags,
                  if previous[c] == loaded[c] then home else home - {previous[c]})
  {
    assert forall d :: 0 <= d < |loaded| && d != c ==> previous[d] != previous[c] && loaded[d] != previous[c];
  }

  /** Writing the byte at address a changes no word that lies before or behind it. */
  ghost predicate ByteWritten(word: Links, word': Links, a: nat) {
    forall w: nat :: w + 8 <= a || a < w ==> Load(word', w) == Load(word, w)
  }

  /** Free lists run through free objects only, so any byte of another object may be written. */
  lemma Scribbled(size: nat, slabs: SlabMap, word: Links, word': Links, stacks: Stacks, where: Where, o: nat, a: nat)
    requires Objects(size, slabs, where) && Stacked(slabs, word, stacks, where) && o in where && !where[o].Free?
    requires o <= a < o + size && ByteWritten(word, word', a)
    ensures Stacked(slabs, word', stacks, where)
  {
    hide Objects, Load;
    forall p | p in slabs ensures Chain(word', slabs[p].freelist, stacks[p]) {
      forall i | 0 <= i < |stacks[p]| ensures Load(word', stacks[p][i]) == Top(stacks[p][..i]) {
        var s := stacks[p][i];
        assert where[s] == Free(p, i);
        ByteOutside(size, slabs, where, o, a, s);
      }
    }
    hide Chain;
  }

  /** A byte of one object is in no other. */
  lemma ByteOutside(size: nat, slabs: SlabMap, where: Where, o: nat, a: nat, q: nat)
    requires Objects(size, slabs, where) && o in where && q in where && q != o && o <= a < o + size
    ensures a < q || q + size <= a
    ensures size >= 8
  {
    if o < q {
      Disjoint(size, slabs, where, o, q);
    } else {
      Disjoint(size, slabs, where, q, o);
    }
  }

  /** A byte of an object is in no slab header and in no magazine. */
  lemma HeadersSafe(size: nat, slabs: SlabMap, mags: Mags, supply: seq<nat>, where: Where, o: nat, a: nat)
    requires Objects(size, slabs, where) && Spare(supply, slabs, mags) && o in where && o <= a < o + size
    ensures forall p :: p in slabs ==> a < p || p + HEADER <= a
    ensures forall m :: m in mags ==> a < m || m + PAGE <= a
  {
    Inside(size, slabs, where, o);
    BaseIs(Base(o), a);
    assert Base(o) in slabs;
    forall p: nat | p % PAGE == 0 && p <= a < p + PAGE ensures p == Base(o) {
      BaseIs(p, a);
    }
  }

  /** No object has been lost on the way. */
  ghost predicate Lossless(before: Where, after: Where) {
    forall o :: o in before ==> o in after && (after[o] == Lost ==> before[o] == Lost)
  }

  /** Object o has come back to a magazine, and what was in the given ones is lost. */
  ghost predicate Returned(before: Where, after: Where, o: nat, gone: set<nat>) {
    && after.Keys == before.Keys && o in after && after[o].Slot?
    && forall q :: q in before && q != o ==>
      after[q] == if before[q].Slot? && before[q].mag in gone then Lost else before[q]
  }

  /** Emptying a full magazine loses objects, and only those in it and in the other one. */
  lemma SpillLoses(mags: Mags, home: map<nat, nat>, where: Where, m: nat, q: nat, obj: nat)
    requires Slotted(mags, home, where) && m in home && m in mags && mags[m].count == MAG_SIZE == |mags[m].objects|
    requires obj in where && where[obj] == Held
    ensures
      var where' := Spilled(Spilled(where, q), m);
      && obj in where' && where'[obj] == Held && !Lossless(where, where'[obj := Slot(m, 0)])
      && Returned(where, where'[obj := Slot(m, 0)], obj, {m, q})
  {
    var o := mags[m].objects[0];
    assert o in where && where[o] == Slot(m, 0);
    hide Slotted;
    var where' := Spilled(Spilled(where, q), m);
    assert where'[o] == Lost;
  }

  // ---- populating a magazine

  /** The first n of objs go into magazine m. */
  ghost function Assign(where: Where, m: nat, objs: seq<nat>, n: nat): Where
    requires n <= |objs|
  {
    if n == 0 then where else Assign(where, m, objs, n - 1)[objs[n - 1] := Slot(m, n - 1)]
  }

  ghost predicate AllHeld(where: Where, objs: seq<nat>) {
    forall i :: 0 <= i < |objs| ==> objs[i] in where && where[objs[i]] == Held
  }

  lemma {:induction false} Assigned(where: Where, m: nat, objs: seq<nat>, n: nat)
    requires n <= |objs| && Distinct(objs) && AllHeld(where, objs)
    ensures Assign(where, m, objs, n).Keys == where.Keys
    ensures forall i :: 0 <= i < n ==> Assign(where, m, objs, n)[objs[i]] == Slot(m, i)
    ensures forall i :: n <= i < |objs| ==> Assign(where, m, objs, n)[objs[i]] == Held
    ensures forall o :: o in where && o !in objs ==> Assign(where, m, objs, n)[o] == where[o]
  {
    if n > 0 {
      Assigned(where, m, objs, n - 1);
    }
  }

  lemma {:induction false} FillSlots(mags: Mags, home: map<nat, nat>, where: Where, m: nat, objs: seq<nat>, n: nat)
    requires Sized(mags) && m in home && |objs| == MAG_SIZE && Distinct(objs) && AllHeld(where, objs) && n <= MAG_SIZE
    requires Slotted(mags[m := Mag(0, objs)], home, where)
    ensures Slotted(mags[m := Mag(n, objs)], home, Assign(where, m, objs, n))
  {
    hide Slotted, Distinct;
    if n > 0 {
      FillSlots(mags, home, where, m, objs, n - 1);
      Assigned(where, m, objs, n - 1);
      FillNext(mags, home, Assign(where, m, objs, n - 1), m, objs, n - 1);
    }
  }

  lemma FillNext(mags: Mags, home: map<nat, nat>, where: Where, m: nat, objs: seq<nat>, n: nat)
    requires Sized(mags) && m in home && n < |objs| == MAG_SIZE && objs[n] in where && where[objs[n]] == Held
    requires Slotted(mags[m := Mag(n, objs)], home, where)
    ensures Slotted(mags[m := Mag(n + 1, objs)], home, where[objs[n] := Slot(m, n)])
  {
    var before := mags[m := Mag(n, objs)];
    assert objs[n := objs[n]] == objs;
    hide Slotted;
    PutSlot(before, home, where, m, objs[n], Mag(n + 1, objs));
    assert before[m := Mag(n + 1, objs)] == mags[m := Mag(n + 1, objs)];
  }

  // ---- kmem_cache_intialize

  /** Every object is free, in a magazine, or among those just taken. */
  ghost predicate Calm(where: Where, objs: seq<nat>) {
    forall o :: o in where ==> where[o].Free? || where[o].Slot? || (where[o] == Held && o in objs)
  }

  lemma NewPage(supply: seq<nat>, slabs: SlabMap, mags: Mags, mag: Mag)
    requires Spare(supply, slabs, mags) && supply != []
    ensures Spare(supply[1..], slabs, mags[supply[0] := mag]) && supply[0] !in mags
  {
    assert supply[0] in supply;
    FirstOnce(supply);
    hide Distinct;
  }

  lemma HomesGrow(loaded: seq<nat>, previous: seq<nat>, mags: Mags, m: nat, mag: Mag, home: map<nat, nat>)
    requires Homed(loaded, previous, mags, home) && m !in mags && |mag.objects| == MAG_SIZE && mag.count <= MAG_SIZE
    ensures Homed(loaded, previous, mags[m := mag], home) && m !in home
  {
  }

  /** A magazine no CPU has may hold anything. */
  lemma Unseen(mags: Mags, home: map<nat, nat>, where: Where, m: nat, mag: Mag)
    requires Slotted(mags, home, where) && m !in home
    ensures Slotted(mags[m := mag], home, where)
  {
  }

  lemma NewHomes(loaded: seq<nat>, previous: seq<nat>, mags: Mags, home: map<nat, nat>, m: nat, q: nat)
    requires Homed(loaded, previous, mags, home) && m in mags && q in mags && m !in home && q !in home
    ensures Homed(loaded + [m], previous + [q], mags, home[m := |loaded|][q := |loaded|])
  {
  }

  lemma NewCpu(mags: Mags, home: map<nat, nat>, where: Where, m: nat, q: nat, objs: seq<nat>, c: nat)
    requires Sized(mags) && Slotted(mags, home, where) && m in mags && q in mags && m != q && m !in home && q !in home
    requires mags[m] == Mag(MAG_SIZE, objs) && mags[q].count == 0 && Distinct(objs) && AllHeld(where, objs)
    ensures Slotted(mags, home[m := c][q := c], Assign(where, m, objs, MAG_SIZE))
  {
    var home' := home[m := c][q := c];
    assert Slotted(mags[m := Mag(0, objs)], home', where);
    hide Slotted, Distinct, AllHeld;
    FillSlots(mags, home', where, m, objs, MAG_SIZE);
    assert mags[m := Mag(MAG_SIZE, objs)] == mags;
  }

  lemma CalmAgain(where: Where, m: nat, objs: seq<nat>)
    requires Calm(where, objs) && Distinct(objs) && AllHeld(where, objs)
    ensures Calm(Assign(where, m, objs, |objs|), []) && Assign(where, m, objs, |objs|).Keys == where.Keys
    ensures forall o :: o in where && where[o].Free? ==> Assign(where, m, objs, |objs|)[o] == where[o]
    ensures forall o :: o in where && !where[o].Free? ==> !Assign(where, m, objs, |objs|)[o].Free?
  {
    Assigned(where, m, objs, |objs|);
  }
}
