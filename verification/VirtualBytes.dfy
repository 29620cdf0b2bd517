/** What the lower half of every address space reads as, through its page tables. */
module VirtualBytes {
  import opened Words
  import opened PageTables
  import FileBytes

  /** Contents of the frames behind anonymous pages, by physical address. */
  type Frames = map<nat, seq<u8>>

  const LOWER: nat := 0x8000_0000_0000

  ghost function View(mem: Mem, frames: Frames, r: nat, w: nat): Option<u8> {
    match Lookup(mem, r, w)
    case None => None
    case Some(p) => if p in frames && |frames[p]| == PAGE then Some(frames[p][w % PAGE]) else None
  }

  ghost predicate Whole(frames: Frames) {
    forall p :: p in frames ==> |frames[p]| == PAGE && p % PAGE == 0 && p < PHYS_LIMIT
  }

  ghost predicate Maps(mem: Mem, pos: map<nat, Pos>, maps: set<nat>) {
    forall r :: r in maps ==> IsMap(mem, pos, r)
  }

  /** Every mapped lower-half page has a frame. */
  ghost predicate Backed(mem: Mem, maps: set<nat>, frames: Frames) {
    forall r: nat, w: nat :: r in maps && w < LOWER && Lookup(mem, r, w).Some? ==> Lookup(mem, r, w).value in frames
  }

  /** Distinct pages, of one address space or of two, have distinct frames. */
  ghost predicate Own(mem: Mem, maps: set<nat>) {
    forall r: nat, s: nat, v: nat, w: nat ::
      (r in maps && s in maps && v < LOWER && w < LOWER && Lookup(mem, r, v).Some?
        && Lookup(mem, r, v) == Lookup(mem, s, w))
      ==> r == s && v / PAGE == w / PAGE
  }

  ghost predicate Pages(mem: Mem, pos: map<nat, Pos>, maps: set<nat>, frames: Frames) {
    Maps(mem, pos, maps) && Whole(frames) && Backed(mem, maps, frames) && Own(mem, maps)
  }

  lemma LowerPage(v: nat, w: nat)
    requires v < LOWER && w < LOWER
    ensures !UpperHalf(v) && (PageNo(v) == PageNo(w) <==> v / PAGE == w / PAGE)
  {
  }

  lemma PageUniform(mem: Mem, r: nat, v: nat, w: nat)
    requires v / PAGE == w / PAGE
    ensures Lookup(mem, r, v) == Lookup(mem, r, w)
  {
    SamePage(v, w);
    WalkSamePage(mem, r, v, w, 4);
  }

  function Zeros(n: nat): (z: seq<u8>)
    ensures |z| == n && forall i :: 0 <= i < n ==> z[i] == 0
  {
    seq<u8>(n, _ => 0)
  }

  // ---- a new address space

  ghost predicate SameViews(mem0: Mem, mem: Mem, frames: Frames, maps: set<nat>) {
    forall r: nat, w: nat :: r in maps && w < LOWER ==> View(mem, frames, r, w) == View(mem0, frames, r, w)
  }

  /** Nothing is mapped in the lower half. */
  ghost predicate Vacant(mem: Mem, frames: Frames, root: nat) {
    forall w: nat :: w < LOWER ==> View(mem, frames, root, w) == None
  }

  lemma NewKeeps(mem0: Mem, pos0: map<nat, Pos>, mem: Mem, pos: map<nat, Pos>, maps: set<nat>, frames: Frames,
                 root: nat)
    requires Pages(mem0, pos0, maps, frames) && KeepsPlaces(mem0, pos0, mem, pos) && SameLookups(mem0, mem, pos0)
    requires IsMap(mem, pos, root) && root !in mem0 && forall w: nat :: !UpperHalf(w) ==> Lookup(mem, root, w) == None
    ensures Pages(mem, pos, maps + {root}, frames) && root !in maps
    ensures Vacant(mem, frames, root) && SameViews(mem0, mem, frames, maps)
  {
    forall w: nat | w < LOWER ensures Lookup(mem, root, w) == None {
      LowerPage(w, w);
    }
  }

  // ---- a page fault

  lemma LeafLookup(mem0: Mem, pos0: map<nat, Pos>, mem: Mem, root: nat, virt: nat, phys: nat, r: nat, w: nat)
    requires LeafChanged(mem0, pos0, mem, root, virt, Some(phys)) && IsMap(mem0, pos0, r) && virt < LOWER && w < LOWER
    ensures Lookup(mem, r, w) == if r == root && w / PAGE == virt / PAGE then Some(phys) else Lookup(mem0, r, w)
  {
    LowerPage(virt, w);
  }

  lemma FaultKeeps(mem0: Mem, pos0: map<nat, Pos>, mem: Mem, pos: map<nat, Pos>, maps: set<nat>, frames: Frames,
                   root: nat, virt: nat, phys: nat, page: seq<u8>)
    requires Pages(mem0, pos0, maps, frames) && KeepsPlaces(mem0, pos0, mem, pos) && virt < LOWER && |page| == PAGE
    requires LeafChanged(mem0, pos0, mem, root, virt, Some(phys))
    requires phys !in frames && phys % PAGE == 0 && phys < PHYS_LIMIT
    ensures Pages(mem, pos, maps, frames[phys := page])
  {
    forall r: nat, w: nat | r in maps && w < LOWER
      ensures Lookup(mem, r, w) == if r == root && w / PAGE == virt / PAGE then Some(phys) else Lookup(mem0, r, w)
    {
      LeafLookup(mem0, pos0, mem, root, virt, phys, r, w);
    }
  }

  lemma FaultView(mem0: Mem, pos0: map<nat, Pos>, mem: Mem, maps: set<nat>, frames: Frames,
                  root: nat, virt: nat, phys: nat, page: seq<u8>, r: nat, w: nat)
    requires Pages(mem0, pos0, maps, frames) && virt < LOWER && r in maps && w < LOWER && |page| == PAGE
    requires LeafChanged(mem0, pos0, mem, root, virt, Some(phys)) && phys !in frames
    ensures View(mem, frames[phys := page], r, w) ==
      if r == root && w / PAGE == virt / PAGE then Some(page[w % PAGE]) else View(mem0, frames, r, w)
  {
    LeafLookup(mem0, pos0, mem, root, virt, phys, r, w);
  }

  /**
   A fault at addr in root's address space: its page reads as the given one, every other lower-half byte as before.
   */
  ghost predicate BroughtIn(mem0: Mem, frames0: Frames, mem: Mem, frames: Frames, maps: set<nat>,
                            root: nat, addr: nat, page: seq<u8>)
  {
    && |page| == PAGE
    && forall r: nat, w: nat :: r in maps && w < LOWER ==>
         View(mem, frames, r, w) ==
         if r == root && w / PAGE == addr / PAGE then Some(page[w % PAGE]) else View(mem0, frames0, r, w)
  }

  lemma FaultBrings(mem0: Mem, pos0: map<nat, Pos>, mem: Mem, maps: set<nat>, frames: Frames,
                    root: nat, virt: nat, phys: nat, page: seq<u8>)
    requires Pages(mem0, pos0, maps, frames) && virt < LOWER && |page| == PAGE
    requires LeafChanged(mem0, pos0, mem, root, virt, Some(phys)) && phys !in frames
    ensures BroughtIn(mem0, frames, mem, frames[phys := page], maps, root, virt, page)
  {
    forall r: nat, w: nat | r in maps && w < LOWER
      ensures View(mem, frames[phys := page], r, w) ==
        if r == root && w / PAGE == virt / PAGE then Some(page[w % PAGE]) else View(mem0, frames, r, w)
    {
      FaultView(mem0, pos0, mem, maps, frames, root, virt, phys, page, r, w);
    }
  }

  // ---- page after page

  /** The n-th page from virt on. */
  function PageIndex(virt: nat, w: nat): nat
    requires virt <= w
  {
    (w - virt) / PAGE
  }

  /** From virt on the given pages are there; every other lower-half byte is as before. */
  ghost predicate Populated(mem0: Mem, frames0: Frames, mem: Mem, frames: Frames, maps: set<nat>,
                            root: nat, virt: nat, pages: seq<seq<u8>>)
  {
    && (forall i :: 0 <= i < |pages| ==> |pages[i]| == PAGE)
    && forall r: nat, w: nat :: r in maps && w < LOWER ==>
         View(mem, frames, r, w) ==
         if r == root && virt <= w && PageIndex(virt, w) < |pages| then Some(pages[PageIndex(virt, w)][w % PAGE])
         else View(mem0, frames0, r, w)
  }

  lemma NextIndex(virt: nat, n: nat, w: nat)
    requires virt % PAGE == 0
    ensures w / PAGE == (virt + n * PAGE) / PAGE <==> virt <= w && PageIndex(virt, w) == n
  {
  }

  lemma PopulatedNone(mem: Mem, frames: Frames, maps: set<nat>, root: nat, virt: nat)
    ensures Populated(mem, frames, mem, frames, maps, root, virt, [])
  {
  }

  lemma PopulatedMore(mem0: Mem, frames0: Frames, mem1: Mem, frames1: Frames, mem: Mem, frames: Frames, maps: set<nat>,
                      root: nat, virt: nat, pages: seq<seq<u8>>, page: seq<u8>)
    requires Populated(mem0, frames0, mem1, frames1, maps, root, virt, pages) && virt % PAGE == 0
    requires BroughtIn(mem1, frames1, mem, frames, maps, root, virt + |pages| * PAGE, page)
    ensures Populated(mem0, frames0, mem, frames, maps, root, virt, pages + [page])
  {
    hide View, PageIndex;
    var pages' := pages + [page];
    forall r: nat, w: nat | r in maps && w < LOWER
      ensures View(mem, frames, r, w) ==
        if r == root && virt <= w && PageIndex(virt, w) < |pages'| then Some(pages'[PageIndex(virt, w)][w % PAGE])
        else View(mem0, frames0, r, w)
    {
      NextIndex(virt, |pages|, w);
    }
  }

  // ---- a write through the direct map

  lemma PatchKeeps(mem: Mem, pos: map<nat, Pos>, maps: set<nat>, frames: Frames, p: nat, off: nat, data: seq<u8>)
    requires Pages(mem, pos, maps, frames) && p in frames && off + |data| <= PAGE
    ensures Pages(mem, pos, maps, frames[p := FileBytes.Patch(frames[p], off, data)])
  {
  }

  lemma PatchView(mem: Mem, pos: map<nat, Pos>, maps: set<nat>, frames: Frames, root: nat, a: nat, p: nat,
                  data: seq<u8>, r: nat, w: nat)
    requires Pages(mem, pos, maps, frames) && root in maps && r in maps && a < LOWER && w < LOWER
    requires Lookup(mem, root, a) == Some(p) && p in frames && a % PAGE + |data| <= PAGE
    ensures View(mem, frames[p := FileBytes.Patch(frames[p], a % PAGE, data)], r, w) ==
      if r == root && a <= w < a + |data| then Some(data[w - a]) else View(mem, frames, r, w)
  {
    if r == root && w / PAGE == a / PAGE {
      PageUniform(mem, r, a, w);
    } else {
      assert Lookup(mem, r, w) != Some(p);
    }
  }

  // ---- a whole copy

  /** What an address reads as after src was copied to dest in this address space, if it read as v0 before. */
  ghost function Expected(v0: Option<u8>, here: bool, dest: nat, src: seq<u8>, w: nat): Option<u8> {
    if here && dest <= w < dest + |src| then Some(src[w - dest])
    else if v0.Some? then v0
    else if here && |src| > 0 && dest / PAGE <= w / PAGE <= (dest + |src| - 1) / PAGE then Some(0)
    else None
  }

  /** src is at dest; other bytes are as they were, and pages that had to be brought in are otherwise zero. */
  ghost predicate Became(mem0: Mem, frames0: Frames, mem: Mem, frames: Frames, maps: set<nat>, root: nat, dest: nat,
                         src: seq<u8>)
  {
    forall r: nat, w: nat :: r in maps && w < LOWER ==>
      View(mem, frames, r, w) == Expected(View(mem0, frames0, r, w), r == root, dest, src, w)
  }

  lemma BecameNothing(mem: Mem, frames: Frames, maps: set<nat>, root: nat, dest: nat)
    ensures Became(mem, frames, mem, frames, maps, root, dest, [])
  {
  }

  /** One more chunk; v1 is what w read as before it, and its page was brought in if it was missing. */
  lemma ExpectedStep(v0: Option<u8>, v1: Option<u8>, here: bool, dest: nat, src: seq<u8>, i: nat, n: nat, w: nat,
                     missing: bool)
    requires i + n <= |src| && n > 0 && (dest + i) / PAGE == (dest + i + n - 1) / PAGE
    requires v1 == Expected(v0, here, dest, src[..i], w)
    requires here && w / PAGE == (dest + i) / PAGE ==> (missing <==> v1.None?)
    ensures
      (if here && dest + i <= w < dest + i + n then Some(src[w - dest])
       else if here && missing && w / PAGE == (dest + i) / PAGE then Some(0) else v1)
      == Expected(v0, here, dest, src[..i + n], w)
  {
  }

  /** The page of a is there: brought in zeroed if it was missing, and nothing else has changed. */
  ghost predicate Reached(mem0: Mem, frames0: Frames, mem: Mem, frames: Frames, maps: set<nat>, root: nat, a: nat) {
    forall r: nat, w: nat :: r in maps && w < LOWER ==>
      View(mem, frames, r, w) ==
      if View(mem0, frames0, root, a).None? && r == root && w / PAGE == a / PAGE then Some(0)
        else View(mem0, frames0, r, w)
  }

  lemma ReachedAlready(mem: Mem, frames: Frames, maps: set<nat>, root: nat, a: nat)
    requires View(mem, frames, root, a).Some?
    ensures Reached(mem, frames, mem, frames, maps, root, a)
  {
  }

  lemma ReachedNow(mem0: Mem, frames0: Frames, mem: Mem, frames: Frames, maps: set<nat>, root: nat, a: nat)
    requires View(mem0, frames0, root, a).None?
    requires BroughtIn(mem0, frames0, mem, frames, maps, root, a, Zeros(PAGE))
    ensures Reached(mem0, frames0, mem, frames, maps, root, a)
  {
  }

  /** data stands at a, and nothing else has changed. */
  ghost predicate Poked(mem: Mem, frames: Frames, frames': Frames, maps: set<nat>, root: nat, a: nat, data: seq<u8>) {
    forall r: nat, w: nat :: r in maps && w < LOWER ==>
      View(mem, frames', r, w) == if r == root && a <= w < a + |data| then Some(data[w - a])
        else View(mem, frames, r, w)
  }

  lemma PatchPokes(mem: Mem, pos: map<nat, Pos>, maps: set<nat>, frames: Frames, frames': Frames, root: nat, a: nat,
                   p: nat, data: seq<u8>)
    requires Pages(mem, pos, maps, frames) && root in maps && a < LOWER
    requires Lookup(mem, root, a) == Some(p) && p in frames && |frames[p]| == PAGE && a % PAGE + |data| <= PAGE
    requires frames' == frames[p := FileBytes.Patch(frames[p], a % PAGE, data)]
    ensures Poked(mem, frames, frames', maps, root, a, data)
  {
    hide View, FileBytes.Patch, Lookup, Pages;
    forall r: nat, w: nat | r in maps && w < LOWER
      ensures View(mem, frames', r, w) == if r == root && a <= w < a + |data| then Some(data[w - a])
        else View(mem, frames, r, w)
    {
      PatchView(mem, pos, maps, frames, root, a, p, data, r, w);
    }
  }

  /** An address reads as something just when its page is mapped. */
  lemma Seen(mem: Mem, pos: map<nat, Pos>, maps: set<nat>, frames: Frames, r: nat, w: nat)
    requires Pages(mem, pos, maps, frames) && r in maps && w < LOWER
    ensures View(mem, frames, r, w).None? <==> Lookup(mem, r, w).None?
    ensures Lookup(mem, r, w).Some? ==>
      Lookup(mem, r, w).value in frames && Lookup(mem, r, w).value < PHYS_LIMIT
        && |frames[Lookup(mem, r, w).value]| == PAGE
  {
  }

  lemma ChunkDone(mem0: Mem, frames0: Frames, mem1: Mem, pos1: map<nat, Pos>, frames1: Frames, mem: Mem,
                  frames2: Frames, frames: Frames,
                  maps: set<nat>, root: nat, dest: nat, src: seq<u8>, i: nat, n: nat)
    requires i + n <= |src| && n > 0 && (dest + i) / PAGE == (dest + i + n - 1) / PAGE && dest + |src| <= LOWER
    requires Pages(mem1, pos1, maps, frames1) && root in maps
    requires Became(mem0, frames0, mem1, frames1, maps, root, dest, src[..i])
    requires Reached(mem1, frames1, mem, frames2, maps, root, dest + i)
    requires Poked(mem, frames2, frames, maps, root, dest + i, src[i..i + n])
    ensures Became(mem0, frames0, mem, frames, maps, root, dest, src[..i + n])
  {
    var a := dest + i;
    var missing := View(mem1, frames1, root, a).None?;
    forall r: nat, w: nat | r in maps && w < LOWER
      ensures View(mem, frames, r, w) == Expected(View(mem0, frames0, r, w), r == root, dest, src[..i + n], w)
    {
      var v0, v1 := View(mem0, frames0, r, w), View(mem1, frames1, r, w);
      if r == root && w / PAGE == a / PAGE {
        PageUniform(mem1, root, a, w);
        Seen(mem1, pos1, maps, frames1, root, a);
        Seen(mem1, pos1, maps, frames1, root, w);
      }
      hide View, Expected;
      ExpectedStep(v0, v1, r == root, dest, src, i, n, w, missing);
    }
  }
}
