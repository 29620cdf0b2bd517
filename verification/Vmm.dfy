/** The address-space layer, kernel/src/mm/vmm.c: segments, page faults and copies into another address space. */
module Vmm {
  import opened Words
  import opened PageTables
  import opened VirtualBytes
  import opened Segments
  import FileBytes
  import Ptm

  /** The most frames that a page can take: the page itself and the tables it is missing. */
  const FRAMES: nat := 1 + Ptm.TABLES

  /** Enough frames make it succeed, and no more are taken. */
  ghost predicate Draws(most: nat, before: seq<nat>, after: seq<nat>, ok: bool) {
    |after| <= |before| <= |after| + most && (|before| >= most ==> ok)
  }

  /**
   How a mapping request ends: refused, done, short of frames, at the assertion of arch_ptm_map on an address that is
   not page-aligned, or reaching into the upper half, which is not modelled.
   */
  datatype Mapping = Refused | Done(at: nat) | NoFrames(at: nat) | Misaligned(at: nat) | Beyond(at: nat)

  datatype Outcome = Handled | NoSegment | OutOfMemory

  ghost predicate InPage(a: nat, n: nat) { a % PAGE + n <= PAGE && (n > 0 ==> a / PAGE == (a + n - 1) / PAGE) }

  /** phys is where the page tables take a. */
  ghost predicate Translates(mem: Mem, root: nat, a: nat, phys: nat) {
    phys >= a % PAGE && Lookup(mem, root, a) == Some(phys - a % PAGE)
  }

  /** Line 381: no further than the end of the page. */
  function ChunkLen(a: nat, left: nat): (n: nat)
    requires left > 0
    ensures 0 < n <= left && InPage(a, n)
    ensures n < left ==> (a + n) % PAGE == 0
  {
    if left < PAGE - a % PAGE then left else PAGE - a % PAGE
  }

  lemma PageOfByte(s: Seg, a: nat)
    requires Covers(s, a) && s.base % PAGE == 0 && s.len % PAGE == 0
    ensures var i := PageIndex(s.base, a); i < s.len / PAGE && i * PAGE + a % PAGE == a - s.base
  {
  }

  /** How many pages n bytes from a on touch. */
  function Touched(a: nat, n: nat): nat { if n == 0 then 0 else (a + n - 1) / PAGE - a / PAGE + 1 }

  lemma TouchedMore(a: nat, i: nat, n: nat, count: nat)
    requires i < count && n == ChunkLen(a + i, count - i) && (i == 0 || (a + i) % PAGE == 0)
    ensures i + n <= count && Touched(a, i + n) == Touched(a, i) + 1 && (i + n < count ==> (a + i + n) % PAGE == 0)
  {
  }

  lemma TouchedLess(a: nat, i: nat, count: nat)
    requires i <= count
    ensures Touched(a, i) <= Touched(a, count)
  {
  }

  /** The first i bytes are done, at most FRAMES frames for each page they touch. */
  ghost predicate Spent(a: nat, i: nat, count: nat, before: seq<nat>, after: seq<nat>) {
    && i <= count && (i == 0 || i == count || (a + i) % PAGE == 0)
    && |after| <= |before| <= |after| + FRAMES * Touched(a, i)
  }

  lemma SpentMore(a: nat, i: nat, n: nat, count: nat, s0: seq<nat>, s1: seq<nat>, s2: seq<nat>, ok: bool)
    requires i < count && Spent(a, i, count, s0, s1) && n == ChunkLen(a + i, count - i) && Draws(FRAMES, s1, s2, ok)
    ensures Spent(a, i + n, count, s0, s2)
    ensures !ok ==> |s0| < FRAMES * Touched(a, count)
  {
    hide Touched, ChunkLen;
    TouchedMore(a, i, n, count);
    TouchedLess(a, i + n, count);
  }

  lemma SpentNone(a: nat, count: nat, s: seq<nat>)
    ensures Spent(a, 0, count, s, s)
  {
  }

  lemma SpentAll(a: nat, count: nat, s0: seq<nat>, s1: seq<nat>)
    requires Spent(a, count, count, s0, s1)
    ensures |s1| <= |s0| <= |s1| + FRAMES * Touched(a, count)
  {
  }

  /** Anonymous frames are neither page tables nor free. */
  ghost predicate Taken(frames: Frames, tables: set<nat>, supply: seq<nat>) {
    forall p :: p in frames ==> p !in tables && p !in supply
  }

  lemma StillTaken(frames: Frames, t0: set<nat>, s0: seq<nat>, t1: set<nat>, s1: seq<nat>)
    requires Taken(frames, t0, s0) && Ptm.Drew(t0, s0, t1, s1)
    ensures Taken(frames, t1, s1)
  {
  }

  lemma SameKeysTaken(frames: Frames, frames': Frames, tables: set<nat>, supply: seq<nat>)
    requires Taken(frames, tables, supply) && frames'.Keys == frames.Keys
    ensures Taken(frames', tables, supply)
  {
  }

  lemma TakesOne(frames: Frames, tables: set<nat>, supply: seq<nat>, phys: nat, page: seq<u8>)
    requires Taken(frames, tables, supply) && |supply| > 0 && phys == supply[0] && phys !in tables
      && phys !in supply[1..]
    ensures Taken(frames, tables, supply[1..]) && phys !in frames && Taken(frames[phys := page], tables, supply[1..])
  {
  }

  /** Physical memory: page tables, anonymous frames and the address spaces there are. */
  class Machine {
    const mem: Ptm.Memory
    var frames: Frames
    ghost var maps: set<nat>

    ghost predicate Valid()
      reads this, mem, mem.tables.Values
    {
      mem.Valid() && Pages(mem.Snap(), mem.pos, maps, frames) && Taken(frames, mem.tables.Keys, mem.supply)
    }

    constructor (mem: Ptm.Memory)
      requires mem.Valid()
      ensures this.mem == mem && frames == map[] && maps == {} && Valid()
    {
      this.mem, frames, maps := mem, map[], {};
    }

    /** Lines 144-145: a new frame behind the page at virt; none stands for the allocator's panic. */
    method Attach(root: nat, virt: nat, page: seq<u8>) returns (phys: Option<nat>)
      requires Valid() && IsMap(mem.Snap(), mem.pos, root) && virt % PAGE == 0
      modifies mem, mem.tables.Values
      ensures fresh(mem.tables.Values - old(mem.tables.Values)) && mem.Valid()
      ensures phys.None? ==> |mem.supply| == 0
      ensures Draws(FRAMES, old(mem.supply), mem.supply, phys.Some?)
      ensures phys.Some? ==> Taken(frames[phys.value := page], mem.tables.Keys, mem.supply)
      ensures phys.Some? ==> phys.value !in frames && phys.value % PAGE == 0 && phys.value < PHYS_LIMIT
      ensures phys.Some? ==> KeepsPlaces(old(mem.Snap()), old(mem.pos), mem.Snap(), mem.pos)
      ensures phys.Some? ==> LeafChanged(old(mem.Snap()), old(mem.pos), mem.Snap(), root, virt, phys)
    {
      hide Pages, Taken, Ptm.Memory.Valid, Ptm.Drew, LeafChanged, KeepsPlaces, SameLookups, IsMap, PhysBits;
      ghost var mem0, keys0, supply0 := mem.Snap(), mem.tables.Keys, mem.supply;
      phys := mem.TakeFrame();
      if phys.None? {
        return;
      }
      assert mem.Snap() == mem0;
      TakesOne(frames, keys0, supply0, phys.value, page);
      var ok := mem.Map(root, virt, phys.value);
      StillTaken(frames[phys.value := page], keys0, supply0[1..], mem.tables.Keys, mem.supply);
      if !ok {
        phys := None;
      }
    }

    /** What the address spaces will read as once the frame is filled. */
    method Fetch(root: nat, virt: nat, page: seq<u8>) returns (phys: Option<nat>)
      requires Valid() && root in maps && virt < LOWER && virt % PAGE == 0 && |page| == PAGE
      modifies mem, mem.tables.Values
      ensures fresh(mem.tables.Values - old(mem.tables.Values)) && mem.Valid()
      ensures phys.None? ==> |mem.supply| == 0
      ensures Draws(FRAMES, old(mem.supply), mem.supply, phys.Some?)
      ensures phys.Some? ==> Taken(frames[phys.value := page], mem.tables.Keys, mem.supply)
      ensures phys.Some? ==> Pages(mem.Snap(), mem.pos, maps, frames[phys.value := page])
      ensures phys.Some? ==>
        BroughtIn(old(mem.Snap()), frames, mem.Snap(), frames[phys.value := page], maps, root, virt, page)
    {
      ghost var mem0, pos0 := mem.Snap(), mem.pos;
      assert IsMap(mem0, pos0, root);
      hide Pages, Taken, Ptm.Memory.Valid, LeafChanged, KeepsPlaces, BroughtIn, IsMap, Draws;
      phys := Attach(root, virt, page);
      if phys.Some? {
        FaultKeeps(mem0, pos0, mem.Snap(), mem.pos, maps, frames, root, virt, phys.value, page);
        FaultBrings(mem0, pos0, mem.Snap(), maps, frames, root, virt, phys.value, page);
      }
    }

    /** Lines 144-153: a filled frame behind the page at virt; false stands for the allocator's panic. */
    method BringIn(root: nat, virt: nat, page: seq<u8>) returns (ok: bool)
      requires Valid() && root in maps && virt < LOWER && virt % PAGE == 0 && |page| == PAGE
      modifies this`frames, mem, mem.tables.Values
      ensures fresh(mem.tables.Values - old(mem.tables.Values))
      ensures ok ==> Valid() && BroughtIn(old(mem.Snap()), old(frames), mem.Snap(), frames, maps, root, virt, page)
      ensures Draws(FRAMES, old(mem.supply), mem.supply, ok) && (!ok ==> |mem.supply| == 0)
    {
      hide Pages, Taken, Ptm.Memory.Valid, BroughtIn, Draws;
      var phys := Fetch(root, virt, page);
      ok := phys.Some?;
      if ok {
        frames := frames[phys.value := page];
      }
    }

    /** memcpy through the direct map, within one frame. */
    method Poke(root: nat, a: nat, phys: nat, data: seq<u8>)
      requires Valid() && root in maps && a < LOWER && InPage(a, |data|)
      requires Translates(mem.Snap(), root, a, phys)
      modifies this`frames
      ensures Valid() && Poked(mem.Snap(), old(frames), frames, maps, root, a, data)
    {
      hide Pages, Taken, Ptm.Memory.Valid, Poked, FileBytes.Patch, Lookup;
      ghost var mem0 := mem.Snap();
      Seen(mem0, mem.pos, maps, frames, root, a);
      var p := phys - a % PAGE;
      var frames' := frames[p := FileBytes.Patch(frames[p], a % PAGE, data)];
      PatchPokes(mem0, mem.pos, maps, frames, frames', root, a, p, data);
      PatchKeeps(mem0, mem.pos, maps, frames, p, a % PAGE, data);
      SameKeysTaken(frames, frames', mem.tables.Keys, mem.supply);
      frames := frames';
    }

    method DrawMap() returns (root: Option<nat>)
      requires Valid()
      modifies mem, mem.tables.Values
      ensures mem.Valid() && Taken(frames, mem.tables.Keys, mem.supply)
      ensures root.None? ==> |old(mem.supply)| == 0
      ensures root.Some? ==> Pages(mem.Snap(), mem.pos, maps + {root.value}, frames) && root.value !in maps
      ensures root.Some? ==> Vacant(mem.Snap(), frames, root.value)
      ensures root.Some? ==> SameViews(old(mem.Snap()), mem.Snap(), frames, maps)
    {
      ghost var mem0, pos0, keys0, supply0 := mem.Snap(), mem.pos, mem.tables.Keys, mem.supply;
      hide Pages, Taken, Ptm.Memory.Valid, Ptm.Drew, Vacant, SameViews, SameLookups, KeepsPlaces, UpperHalf, Lookup;
      root := mem.NewMap();
      StillTaken(frames, keys0, supply0, mem.tables.Keys, mem.supply);
      if root.Some? {
        NewKeeps(mem0, pos0, mem.Snap(), mem.pos, maps, frames, root.value);
      }
    }

    method AddMap() returns (root: Option<nat>)
      requires Valid()
      modifies this`maps, mem, mem.tables.Values
      ensures root.None? ==> |old(mem.supply)| == 0
      ensures root.Some? ==> Valid() && root.value !in old(maps) && maps == old(maps) + {root.value}
      ensures root.Some? ==> Vacant(mem.Snap(), frames, root.value)
      ensures root.Some? ==> SameViews(old(mem.Snap()), mem.Snap(), frames, old(maps))
    {
      hide Pages, Taken, Ptm.Memory.Valid, Vacant, SameViews;
      root := DrawMap();
      if root.Some? {
        maps := maps + {root.value};
      }
    }
  }

  class AddrSpace {
    const machine: Machine
    /** ptm_map. */
    const root: nat
    const low: u64
    const high: u64
    var segments: seq<Seg>

    ghost predicate Valid()
      reads machine, machine.mem, machine.mem.tables.Values
    {
      machine.Valid() && root in machine.maps
    }

    constructor Empty(machine: Machine, root: nat, low: u64, high: u64)
      ensures this.machine == machine && this.root == root && this.low == low && this.high == high && segments == []
    {
      this.machine, this.root, this.low, this.high, segments := machine, root, low, high, [];
    }

    /** vmm_new_addr_space; null stands for the allocator's panic. */
    static method New(machine: Machine, low: u64, high: u64) returns (space: AddrSpace?)
      requires machine.Valid()
      modifies machine`maps, machine.mem, machine.mem.tables.Values
      ensures space == null ==> |old(machine.mem.supply)| == 0
      ensures space != null ==> space.machine == machine && space.Valid() && space.Placed() && space.segments == []
      ensures space != null ==> space.low == low && space.high == high
      ensures space != null ==> space.root !in old(machine.maps) && machine.maps == old(machine.maps) + {space.root}
      ensures space != null ==> Vacant(machine.mem.Snap(), machine.frames, space.root)
      ensures space != null ==> SameViews(old(machine.mem.Snap()), machine.mem.Snap(), machine.frames,
                                          old(machine.maps))
    {
      space := null;
      hide Machine.Valid, Vacant, SameViews;
      var root := machine.AddMap();
      if root.Some? {
        space := new AddrSpace.Empty(machine, root.value, low, high);
      }
    }

    /** The segments are sorted, disjoint, page-aligned and within the limits. */
    ghost predicate Placed()
      reads this`segments
    {
      Good(segments, low, high)
    }

    /** vmm_insert_seg. */
    method InsertSeg(s: Seg) returns (ghost k: nat)
      modifies this`segments
      ensures k <= |old(segments)| && segments == Inserted(old(segments), k, s)
      ensures Ordered(old(segments)) && (forall i :: 0 <= i < |old(segments)| ==> old(segments)[i].len > 0) ==>
        Slot(old(segments), s.base, k)
    {
      var i := 0;
      while i < |segments| && segments[i].base < s.base
        invariant 0 <= i <= |segments|
        invariant forall j :: 0 <= j < i ==> segments[j].base < s.base
      {
        i := i + 1;
      }
      k := i;
      segments := segments[..i] + [s] + segments[i..];
    }

    /** The loop of vmm_find_space. */
    method Scan(len: nat) returns (start: nat, i: nat)
      ensures Stops(segments, low, len, i) && start == Start(segments, low, i)
    {
      hide Wrap, Start, End;
      StartAt(segments, low, 0);
      start, i := low, 0;
      while i < |segments| && Wrap(start + len) >= segments[i].base
        invariant 0 <= i <= |segments| && start == Start(segments, low, i)
        invariant forall j :: 0 <= j < i ==> Wrap(Start(segments, low, j) + len) >= segments[j].base
      {
        StartAt(segments, low, i + 1);
        start := Wrap(segments[i].base + segments[i].len);
        i := i + 1;
      }
    }

    /** vmm_find_space: for every length where the scan stops, and without wrap-around what that means. */
    method FindSpace(len: nat) returns (start: nat, ghost k: nat)
      requires len < U64_RANGE
      ensures Stops(segments, low, len, k) && start == Found(segments, low, high, len, k)
      ensures Placed() && NoWrap(segments, low, len) ==> Scanned(segments, low, high, len, start)
    {
      hide Wrap, Good, NoWrap, Scanned;
      if segments == [] {
        start, k := low, 0;
      } else {
        start, k := Scan(len);
        if Wrap(start + len - 1) > high {
          start := 0;
        }
      }
      if Placed() && NoWrap(segments, low, len) {
        StopsScan(segments, low, high, len, k);
      }
    }

    /** vmm_check_collision. */
    method CheckCollision(base: nat, len: nat) returns (hit: bool)
      requires base < U64_RANGE && len < U64_RANGE
      ensures hit <==> AnyHit(segments, base, len)
      ensures Placed() && len > 0 && base + len <= U64_RANGE ==> (hit <==> Collides(segments, base, len))
    {
      hide Wrap;
      if Placed() && len > 0 && base + len <= U64_RANGE {
        HitsCollide(segments, low, high, base, len);
      }
      var end := Wrap(base + len - 1);
      var i := 0;
      while i < |segments|
        invariant 0 <= i <= |segments|
        invariant forall j :: 0 <= j < i ==> !Hits(segments[j], base, len)
      {
        var segEnd := Wrap(segments[i].base + segments[i].len - 1);
        if end >= segments[i].base && base <= segEnd {
          assert Hits(segments[i], base, len);
          return true;
        }
        i := i + 1;
      }
      return false;
    }

    /** vmm_is_in_bounds. */
    predicate InBounds(base: nat, len: nat) {
      low <= base && Wrap(base + len) <= high
    }

    /** vmm_addr_to_seg: the one segment that covers addr, or none. */
    method AddrToSeg(addr: nat) returns (r: Option<Seg>)
      requires Placed()
      ensures r.Some? ==> r.value in segments && Covers(r.value, addr)
      ensures r.Some? ==> forall s :: s in segments && Covers(s, addr) ==> s == r.value
      ensures r.None? ==> forall s :: s in segments ==> !Covers(s, addr)
    {
      var i := 0;
      while i < |segments|
        invariant 0 <= i <= |segments|
        invariant forall j :: 0 <= j < i ==> !Covers(segments[j], addr)
      {
        if segments[i].base <= addr < Wrap(segments[i].base + segments[i].len) {
          return Some(segments[i]);
        }
        i := i + 1;
      }
      return None;
    }

    /** The request can be used as it stands, as far as the code can tell. */
    ghost predicate Usable(virt: nat, len: nat)
      reads this`segments
    {
      !AnyHit(segments, virt, len) && InBounds(virt, len)
    }

    /**
     vmm_mmap up to the segment's insertion; none is VMM_MAP_FAILED. The list stays in order exactly if the segment
     fits where it is put. For lengths that do not wrap around, that is exactly if the request is free, is refused, or
     there is room for it elsewhere.
     */
    method Mmap(virt: nat, len: nat, prot: nat, flags: Flags, offset: nat) returns (r: Option<nat>)
      requires virt < U64_RANGE && len < U64_RANGE && virt % PAGE == 0 && len % PAGE == 0 && Placed()
      modifies this`segments
      ensures r.None? <==> flags.fixed && !old(Usable(virt, len))
      ensures r.None? ==> segments == old(segments)
      ensures r.Some? && old(Usable(virt, len)) ==> r.value == virt
      ensures r.Some? && !old(Usable(virt, len)) ==>
        exists k :: Stops(old(segments), low, len, k) && r.value == Found(old(segments), low, high, len, k)
      ensures r.Some? ==>
        exists k :: 0 <= k <= |old(segments)|
          && segments == Inserted(old(segments), k, Seg(r.value, len, prot, flags, offset))
      ensures r.Some? ==> (Placed() <==> Fits(r.value, len, low, high) && !Collides(old(segments), r.value, len))
      ensures len > 0 && virt + len < U64_RANGE && NoWrap(old(segments), low, len) ==>
        var free := Free(old(segments), low, high, virt, len);
        && (old(Usable(virt, len)) <==> free)
        && (r.Some? && !free ==> Scanned(old(segments), low, high, len, r.value))
        && (low <= high && low % PAGE == 0 ==>
            (Placed() <==> free || flags.fixed || Roomy(old(segments), low, high, len)))
    {
      hide Good, Wrap, Stops, Found, AnyHit, Collides, Fits, Scanned, NoWrap, Roomy;
      ghost var segs := segments;
      var at := virt;
      var hit := CheckCollision(virt, len);
      if hit || !InBounds(virt, len) {
        if flags.fixed {
          return None;
        }
        ghost var j;
        at, j := FindSpace(len);
        assert Stops(segs, low, len, j);
      }
      var s := Seg(at, len, prot, flags, offset);
      ghost var k := InsertSeg(s);
      SlotGood(segs, low, high);
      PutGood(segs, low, high, k, s);
      if len > 0 && virt + len < U64_RANGE && NoWrap(segs, low, len) {
        if Free(segs, low, high, virt, len) {
          FreeGood(segs, low, high, k, s);
        } else if low <= high && low % PAGE == 0 {
          ScannedGood(segs, low, high, k, s);
        }
      }
      return Some(at);
    }

    // ---- faults and copies

    ghost predicate Covered(addr: nat)
      reads this`segments
    {
      exists s :: s in segments && Covers(s, addr)
    }

    ghost predicate AllCovered(addr: nat, count: nat)
      reads this`segments
    {
      forall a :: addr <= a < addr + count ==> Covered(a)
    }

    /** Segments over the given addresses are anonymous and private. */
    ghost predicate Anonymous(addr: nat, count: nat)
      reads this`segments
    {
      forall s, k :: s in segments && addr <= k < addr + count && Covers(s, k) ==> s.flags.anon && !s.flags.shared
    }

    /** Segments over the address are private. */
    ghost predicate Private(addr: nat)
      reads this`segments
    {
      forall s :: s in segments && Covers(s, addr) ==> !s.flags.shared
    }

    /** vmm_pagefault_handler on a private segment, anonymous or with the given file behind it. */
    method PageFault(addr: nat, file: seq<u8>) returns (r: Outcome, ghost seg: Option<Seg>)
      requires Valid() && Placed() && addr < LOWER && Private(addr)
      modifies machine`frames, machine.mem, machine.mem.tables.Values
      ensures fresh(machine.mem.tables.Values - old(machine.mem.tables.Values))
      ensures (r == NoSegment <==> !Covered(addr)) && (r != NoSegment <==> seg.Some?)
      ensures r == NoSegment ==>
        Valid() && machine.mem.Snap() == old(machine.mem.Snap()) && machine.frames == old(machine.frames)
      ensures seg.Some? ==> seg.value in segments && Covers(seg.value, addr)
      ensures r == Handled ==> Valid()
      ensures r == Handled ==>
        BroughtIn(old(machine.mem.Snap()), old(machine.frames), machine.mem.Snap(), machine.frames, machine.maps,
                  root, addr, FaultPage(seg.value, addr, file))
      ensures Draws(FRAMES, old(machine.mem.supply), machine.mem.supply, r != OutOfMemory)
      ensures r == OutOfMemory ==> |machine.mem.supply| == 0
    {
      hide Machine.Valid, FaultPage;
      var s := AddrToSeg(addr);
      seg := s;
      if s.None? {
        return NoSegment, None;
      }
      var virt := addr / PAGE * PAGE;
      assert virt / PAGE == addr / PAGE;
      var ok := machine.BringIn(root, virt, FaultPage(s.value, addr, file));
      r := if ok then Handled else OutOfMemory;
    }

    /** Since mem0 and frames0, the first n pages from virt on have been mapped. */
    ghost predicate Mapped(mem0: Mem, frames0: Frames, virt: nat, anon: bool, file: seq<u8>, offset: nat, n: nat)
      reads machine, machine.mem, machine.mem.tables.Values
    {
      Valid() && Populated(mem0, frames0, machine.mem.Snap(), machine.frames, machine.maps, root, virt,
                           PopulatePages(anon, file, offset, n))
    }

    /** The loop of vmm_mmap over a private mapping; false stands for the allocator's panic. */
    method Populate(virt: nat, len: nat, anon: bool, file: seq<u8>, offset: nat) returns (ok: bool)
      requires Valid() && virt % PAGE == 0 && len % PAGE == 0 && virt + len <= LOWER
      modifies machine`frames, machine.mem, machine.mem.tables.Values
      ensures ok ==> Mapped(old(machine.mem.Snap()), old(machine.frames), virt, anon, file, offset, len / PAGE)
      ensures Draws(FRAMES * (len / PAGE), old(machine.mem.supply), machine.mem.supply, ok)
      ensures !ok ==> |machine.mem.supply| == 0
    {
      hide Machine.Valid, Populated, BroughtIn, PopulatePage, PopulatePages;
      ghost var mem0, frames0, supply0 := machine.mem.Snap(), machine.frames, machine.mem.supply;
      ghost var n := 0;
      NoPages(anon, file, offset);
      PopulatedNone(mem0, frames0, machine.maps, root, virt);
      var i := 0;
      while i < len
        invariant 0 <= i <= len && i == n * PAGE && fresh(machine.mem.tables.Values - old(machine.mem.tables.Values))
        invariant Mapped(mem0, frames0, virt, anon, file, offset, n)
        invariant |machine.mem.supply| <= |supply0| <= |machine.mem.supply| + FRAMES * n
      {
        ghost var mem1, frames1 := machine.mem.Snap(), machine.frames;
        ok := machine.BringIn(root, virt + i, PopulatePage(anon, file, offset, i));
        if !ok {
          return;
        }
        PopulateNext(anon, file, offset, n);
        PopulatedMore(mem0, frames0, mem1, frames1, machine.mem.Snap(), machine.frames, machine.maps, root, virt,
                      PopulatePages(anon, file, offset, n), PopulatePage(anon, file, offset, i));
        i := i + PAGE;
        n := n + 1;
      }
      ok := true;
    }

    /**
     vmm_mmap of a private mapping, with the loop over its pages if they are to be populated: the segment goes where
     Mmap puts it, and it is that segment's pages that are there afterwards.
     */
    method MmapPrivate(virt: nat, len: nat, prot: nat, flags: Flags, file: seq<u8>, offset: nat) returns (r: Mapping)
      requires virt < U64_RANGE && len < U64_RANGE && virt % PAGE == 0 && len % PAGE == 0 && Placed()
      requires Valid() && !flags.shared
      modifies this`segments, machine`frames, machine.mem, machine.mem.tables.Values
      ensures r.Refused? <==> flags.fixed && !old(Usable(virt, len))
      ensures r.Refused? ==> segments == old(segments)
      ensures !r.Refused? && old(Usable(virt, len)) ==> r.at == virt
      ensures !r.Refused? && !old(Usable(virt, len)) ==>
        exists k :: Stops(old(segments), low, len, k) && r.at == Found(old(segments), low, high, len, k)
      ensures !r.Refused? ==>
        exists k :: 0 <= k <= |old(segments)|
          && segments == Inserted(old(segments), k, Seg(r.at, len, prot, flags, offset))
      ensures !r.Refused? ==> (Placed() <==> Fits(r.at, len, low, high) && !Collides(old(segments), r.at, len))
      ensures !flags.populate ==> (r.Refused? || r.Done?)
      ensures !flags.populate || r.Refused? ==>
        Valid() && machine.mem.Snap() == old(machine.mem.Snap()) && machine.frames == old(machine.frames)
      ensures flags.populate && r.Done? ==>
        Mapped(old(machine.mem.Snap()), old(machine.frames), r.at, flags.anon, file, offset, len / PAGE)
      ensures r.NoFrames? ==> |old(machine.mem.supply)| < FRAMES * (len / PAGE)
      ensures !r.Refused? ==> (r.Misaligned? <==> flags.populate && len > 0 && r.at % PAGE != 0)
      ensures !r.Refused? ==> (r.Beyond? <==> flags.populate && len > 0 && r.at % PAGE == 0 && r.at + len > LOWER)
      ensures r.Misaligned? || (r.Beyond? && high < LOWER) ==> !Placed()
    {
      hide Machine.Valid, Good, Stops, Found, Collides, Roomy, Scanned, NoWrap, Segments.Free, Mapped, Wrap;
      var at := Mmap(virt, len, prot, flags, offset);
      if at.None? {
        return Refused;
      }
      r := Done(at.value);
      if flags.populate {
        if len == 0 {
          NothingMapped(at.value, flags.anon, file, offset);
        } else if at.value % PAGE != 0 {
          r := Misaligned(at.value);
        } else if at.value + len > LOWER {
          r := Beyond(at.value);
        } else {
          var ok := Populate(at.value, len, flags.anon, file, offset);
          if !ok {
            r := NoFrames(at.value);
          }
        }
      }
    }

    /** What a byte of a populated segment reads as: zero, or the byte of the file that the segment maps there. */
    lemma SegmentShown(mem0: Mem, frames0: Frames, s: Seg, file: seq<u8>, a: nat)
      requires Mapped(mem0, frames0, s.base, s.flags.anon, file, s.offset, s.len / PAGE) && Covers(s, a) && a < LOWER
      requires s.base % PAGE == 0 && s.len % PAGE == 0 && s.offset + s.len <= U64_RANGE
      ensures View(machine.mem.Snap(), machine.frames, root, a)
           == Some(if s.flags.anon then 0 else FileBytes.ByteAt(file, s.offset + (a - s.base)))
    {
      assert root in machine.maps;
      hide Valid, View, Wrap, PageIndex;
      PageOfByte(s, a);
      var i := PageIndex(s.base, a);
      assert PopulatePages(s.flags.anon, file, s.offset, s.len / PAGE)[i]
          == PopulatePage(s.flags.anon, file, s.offset, i * PAGE);
    }

    lemma NothingMapped(virt: nat, anon: bool, file: seq<u8>, offset: nat)
      requires Valid()
      ensures Mapped(machine.mem.Snap(), machine.frames, virt, anon, file, offset, 0)
    {
      NoPages(anon, file, offset);
      PopulatedNone(machine.mem.Snap(), machine.frames, machine.maps, root, virt);
    }

    lemma NoPages(anon: bool, file: seq<u8>, offset: nat)
      ensures PopulatePages(anon, file, offset, 0) == []
    {
    }

    /** vmm_virt_to_phys at a lower-half address, with what the answer means for the byte there. */
    method Translate(a: nat) returns (phys: nat)
      requires Valid() && a < LOWER
      ensures phys == Ptm.BAD_ADDRESS <==> View(machine.mem.Snap(), machine.frames, root, a).None?
      ensures phys != Ptm.BAD_ADDRESS ==> Translates(machine.mem.Snap(), root, a, phys)
    {
      Seen(machine.mem.Snap(), machine.mem.pos, machine.maps, machine.frames, root, a);
      hide Pages, Taken, View, Lookup, Ptm.Memory.Valid;
      phys := machine.mem.VirtToPhys(root, a);
    }

    /** An anonymous page is brought in as zeros. */
    lemma AnonymousPage(a: nat)
      requires Anonymous(a, 1)
      ensures Private(a) && forall s :: s in segments && Covers(s, a) ==> FaultPage(s, a, []) == Zeros(PAGE)
    {
      assert FileBytes.ReadBytes([], 0, PAGE) == Zeros(PAGE);
    }

    /** Lines 372-379: the page is brought in if need be; false stands for the panic. */
    method Reach(a: nat) returns (phys: nat, ok: bool)
      requires Valid() && Placed() && a < LOWER && Anonymous(a, 1)
      modifies machine`frames, machine.mem, machine.mem.tables.Values
      ensures fresh(machine.mem.tables.Values - old(machine.mem.tables.Values))
      ensures Draws(FRAMES, old(machine.mem.supply), machine.mem.supply, ok || !Covered(a))
      ensures !ok ==> !Covered(a) || |machine.mem.supply| == 0
      ensures ok ==> Valid() && Translates(machine.mem.Snap(), root, a, phys)
      ensures ok ==>
        Reached(old(machine.mem.Snap()), old(machine.frames), machine.mem.Snap(), machine.frames, machine.maps, root, a)
    {
      hide Machine.Valid, View, Lookup, Reached, BroughtIn, Translates, FaultPage, Zeros, Good, Private;
      ghost var mem0, frames0 := machine.mem.Snap(), machine.frames;
      phys := Translate(a);
      if phys != Ptm.BAD_ADDRESS {
        ReachedAlready(mem0, frames0, machine.maps, root, a);
        return phys, true;
      }
      AnonymousPage(a);
      var r;
      ghost var seg;
      r, seg := PageFault(a, []);
      if r == OutOfMemory {
        return phys, false;
      }
      phys := Translate(a);
      ok := phys != Ptm.BAD_ADDRESS;
      if r == Handled {
        ReachedNow(mem0, frames0, machine.mem.Snap(), machine.frames, machine.maps, root, a);
      }
    }

    /** Since mem0 and frames0, exactly src has been copied to dest. */
    ghost predicate Copied(mem0: Mem, frames0: Frames, dest: nat, src: seq<u8>)
      reads machine, machine.mem, machine.mem.tables.Values
    {
      Valid() && Became(mem0, frames0, machine.mem.Snap(), machine.frames, machine.maps, root, dest, src)
    }

    /** One turn of the loop: up to the end of the page. */
    method CopyChunk(dest: nat, src: seq<u8>, i: nat, ghost mem0: Mem, ghost frames0: Frames) returns (n: nat, ok: bool)
      requires Placed() && dest + |src| <= LOWER && Anonymous(dest, |src|) && i < |src|
      requires Copied(mem0, frames0, dest, src[..i])
      modifies machine`frames, machine.mem, machine.mem.tables.Values
      ensures fresh(machine.mem.tables.Values - old(machine.mem.tables.Values))
      ensures 0 < n <= |src| - i && (ok ==> Copied(mem0, frames0, dest, src[..i + n]))
      ensures n == ChunkLen(dest + i, |src| - i)
      ensures Draws(FRAMES, old(machine.mem.supply), machine.mem.supply, ok || !Covered(dest + i))
      ensures !ok ==> !Covered(dest + i) || |machine.mem.supply| == 0
    {
      hide Machine.Valid, Reached, Poked, Became, Pages, Lookup, Anonymous, Covered, Placed, ChunkLen, InPage,
        Translates;
      ghost var mem1, pos1, frames1 := machine.mem.Snap(), machine.mem.pos, machine.frames;
      Before(dest, |src|, i);
      n := ChunkLen(dest + i, |src| - i);
      var phys;
      phys, ok := Reach(dest + i);
      if ok {
        Store(dest, src, i, n, phys, mem0, frames0, mem1, pos1, frames1);
      }
    }

    lemma Before(dest: nat, count: nat, i: nat)
      requires Valid() && Anonymous(dest, count) && i < count
      ensures Pages(machine.mem.Snap(), machine.mem.pos, machine.maps, machine.frames) && Anonymous(dest + i, 1)
    {
    }

    method Store(dest: nat, src: seq<u8>, i: nat, n: nat, phys: nat,
                 ghost mem0: Mem, ghost frames0: Frames, ghost mem1: Mem, ghost pos1: map<nat, Pos>,
                 ghost frames1: Frames)
      requires Valid() && dest + |src| <= LOWER && i + n <= |src| && 0 < n
      requires InPage(dest + i, n) && Translates(machine.mem.Snap(), root, dest + i, phys)
      requires Pages(mem1, pos1, machine.maps, frames1)
        && Became(mem0, frames0, mem1, frames1, machine.maps, root, dest, src[..i])
      requires Reached(mem1, frames1, machine.mem.Snap(), machine.frames, machine.maps, root, dest + i)
      modifies machine`frames
      ensures Copied(mem0, frames0, dest, src[..i + n])
    {
      hide Machine.Valid, Reached, Poked, Became, Pages, Lookup, Translates;
      ghost var mem, frames2 := machine.mem.Snap(), machine.frames;
      machine.Poke(root, dest + i, phys, src[i..i + n]);
      ChunkDone(mem0, frames0, mem1, pos1, frames1, mem, frames2, machine.frames, machine.maps, root, dest, src, i, n);
    }

    lemma NothingCopied(dest: nat, src: seq<u8>)
      requires Valid()
      ensures Copied(machine.mem.Snap(), machine.frames, dest, src[..0])
    {
      BecameNothing(machine.mem.Snap(), machine.frames, machine.maps, root, dest);
    }

    /** vmm_copy_to; false stands for the panic on an address no segment covers or on exhausted memory. */
    method CopyTo(dest: nat, src: seq<u8>) returns (i: nat, ok: bool)
      requires Valid() && Placed() && dest + |src| <= LOWER && Anonymous(dest, |src|)
      modifies machine`frames, machine.mem, machine.mem.tables.Values
      ensures ok ==> i == |src| && Copied(old(machine.mem.Snap()), old(machine.frames), dest, src)
      ensures |old(machine.mem.supply)| >= FRAMES * Touched(dest, |src|) && AllCovered(dest, |src|) ==> ok
      ensures ok ==> |old(machine.mem.supply)| <= |machine.mem.supply| + FRAMES * Touched(dest, |src|)
      ensures !ok ==> |machine.mem.supply| == 0 || exists a :: dest <= a < dest + |src| && !Covered(a)
    {
      hide Valid, Copied, Placed, Anonymous, Covered, Touched, Spent, Draws, ChunkLen;
      ghost var mem0, frames0 := machine.mem.Snap(), machine.frames;
      ghost var supply0 := machine.mem.supply;
      NothingCopied(dest, src);
      SpentNone(dest, |src|, supply0);
      i := 0;
      while i < |src|
        invariant 0 <= i <= |src| && fresh(machine.mem.tables.Values - old(machine.mem.tables.Values))
        invariant Copied(mem0, frames0, dest, src[..i])
        invariant Spent(dest, i, |src|, supply0, machine.mem.supply)
      {
        ghost var supply1 := machine.mem.supply;
        var n;
        n, ok := CopyChunk(dest, src, i, mem0, frames0);
        SpentMore(dest, i, n, |src|, supply0, supply1, machine.mem.supply, ok || !Covered(dest + i));
        if !ok {
          return;
        }
        i := i + n;
      }
      assert src[..i] == src;
      SpentAll(dest, |src|, supply0, machine.mem.supply);
      ok := true;
    }

    /** vmm_zero_out. */
    method ZeroOut(dest: nat, count: nat) returns (i: nat, ok: bool)
      requires Valid() && Placed() && dest + count <= LOWER && Anonymous(dest, count)
      modifies machine`frames, machine.mem, machine.mem.tables.Values
      ensures ok ==> i == count && Copied(old(machine.mem.Snap()), old(machine.frames), dest, Zeros(count))
      ensures |old(machine.mem.supply)| >= FRAMES * Touched(dest, count) && AllCovered(dest, count) ==> ok
      ensures ok ==> |old(machine.mem.supply)| <= |machine.mem.supply| + FRAMES * Touched(dest, count)
      ensures !ok ==> |machine.mem.supply| == 0 || exists a :: dest <= a < dest + count && !Covered(a)
    {
      hide Valid, Copied, Placed, Anonymous, Covered, Zeros, Touched, Spent, Draws, ChunkLen;
      ghost var mem0, frames0 := machine.mem.Snap(), machine.frames;
      var src := Zeros(count);
      ghost var supply0 := machine.mem.supply;
      NothingCopied(dest, src);
      SpentNone(dest, count, supply0);
      i := 0;
      while i < count
        invariant 0 <= i <= count && fresh(machine.mem.tables.Values - old(machine.mem.tables.Values))
        invariant Copied(mem0, frames0, dest, src[..i])
        invariant Spent(dest, i, count, supply0, machine.mem.supply)
      {
        ghost var supply1 := machine.mem.supply;
        var n;
        n, ok := CopyChunk(dest, src, i, mem0, frames0);
        SpentMore(dest, i, n, count, supply0, supply1, machine.mem.supply, ok || !Covered(dest + i));
        if !ok {
          return;
        }
        i := i + n;
      }
      assert src[..i] == src;
      SpentAll(dest, count, supply0, machine.mem.supply);
      ok := true;
    }
  }
}
