/** The segment list of an address space, kernel/src/mm/vmm.c, as a sorted sequence. */
module Segments {
  import opened Words
  import FileBytes

  datatype Flags = Flags(shared: bool, anon: bool, fixed: bool, populate: bool)

  datatype Seg = Seg(base: nat, len: nat, prot: nat, flags: Flags, offset: nat)

  function End(s: Seg): nat { s.base + s.len }

  predicate Covers(s: Seg, addr: nat) { s.base <= addr < End(s) }

  predicate Overlaps(s: Seg, base: nat, len: nat) { s.base < base + len && base < End(s) }

  predicate Fits(base: nat, len: nat, low: nat, high: nat) {
    && len > 0 && low <= base && base + len - 1 <= high && base + len < U64_RANGE
    && base % PAGE == 0 && len % PAGE == 0
  }

  ghost predicate Ordered(segs: seq<Seg>) {
    forall i, j :: 0 <= i < j < |segs| ==> End(segs[i]) <= segs[j].base
  }

  /** Strictly sorted, pairwise disjoint, page-aligned and within the limits. */
  ghost predicate Good(segs: seq<Seg>, low: nat, high: nat) {
    && Ordered(segs)
    && forall i :: 0 <= i < |segs| ==> Fits(segs[i].base, segs[i].len, low, high)
  }

  /** Where a segment of the given base goes. */
  ghost predicate Slot(segs: seq<Seg>, base: nat, k: nat) {
    && k <= |segs| && (forall i :: 0 <= i < k ==> segs[i].base < base) && (k < |segs| ==> base <= segs[k].base)
  }

  function Inserted(segs: seq<Seg>, k: nat, s: Seg): seq<Seg>
    requires k <= |segs|
  {
    segs[..k] + [s] + segs[k..]
  }

  lemma InsertedGood(segs: seq<Seg>, low: nat, high: nat, k: nat, s: Seg)
    requires Good(segs, low, high) && Slot(segs, s.base, k)
    requires Fits(s.base, s.len, low, high) && forall i :: 0 <= i < |segs| ==> !Overlaps(segs[i], s.base, s.len)
    ensures Good(Inserted(segs, k, s), low, high)
  {
    var t := Inserted(segs, k, s);
    forall i, j | 0 <= i < j < |t| ensures End(t[i]) <= t[j].base {
      assert t[i] == if i < k then segs[i] else if i == k then s else segs[i - 1];
      assert t[j] == if j < k then segs[j] else if j == k then s else segs[j - 1];
      assert k < |segs| ==> !Overlaps(segs[k], s.base, s.len);
      assert i < k ==> !Overlaps(segs[i], s.base, s.len);
    }
    forall i | 0 <= i < |t| ensures Fits(t[i].base, t[i].len, low, high) {
      assert t[i] == if i < k then segs[i] else if i == k then s else segs[i - 1];
    }
  }

  lemma GoodApart(segs: seq<Seg>, low: nat, high: nat, k: nat, s: Seg)
    requires k <= |segs| && Good(Inserted(segs, k, s), low, high)
    ensures Fits(s.base, s.len, low, high) && forall i :: 0 <= i < |segs| ==> !Overlaps(segs[i], s.base, s.len)
  {
    var t := Inserted(segs, k, s);
    assert t[k] == s;
    forall i | 0 <= i < |segs| ensures !Overlaps(segs[i], s.base, s.len) {
      assert segs[i] == if i < k then t[i] else t[i + 1];
    }
  }

  // ---- vmm_find_space

  /** The starts it tries: the low limit and the end of each segment. */
  function Candidate(segs: seq<Seg>, low: nat, k: nat): nat
    requires k <= |segs|
  {
    if k == 0 then low else End(segs[k - 1])
  }

  /** There must be room to spare before the next segment; after the last one an exact fit will do. */
  predicate Allowed(segs: seq<Seg>, low: nat, high: nat, len: nat, k: nat)
    requires k <= |segs|
  {
    if k < |segs| then Candidate(segs, low, k) + len < segs[k].base else Candidate(segs, low, k) + len - 1 <= high
  }

  ghost predicate Lowest(segs: seq<Seg>, low: nat, high: nat, len: nat, k: nat) {
    && k <= |segs| && Allowed(segs, low, high, len, k)
    && forall j :: 0 <= j < k ==> !Allowed(segs, low, high, len, j)
  }

  ghost predicate HasGap(segs: seq<Seg>, low: nat, high: nat, len: nat) {
    exists k :: 0 <= k <= |segs| && Allowed(segs, low, high, len, k)
  }

  /** No sum the scan forms goes past 64 bits. */
  ghost predicate NoWrap(segs: seq<Seg>, low: nat, len: nat) {
    len > 0 && forall k :: 0 <= k <= |segs| ==> Candidate(segs, low, k) + len < U64_RANGE
  }

  /** Where the scan stops decides whether any start is allowed. */
  lemma ScanDone(segs: seq<Seg>, low: nat, high: nat, len: nat, k: nat)
    requires Good(segs, low, high) && NoWrap(segs, low, len) && k <= |segs|
    requires forall j :: 0 <= j < k ==> !Allowed(segs, low, high, len, j)
    requires k < |segs| ==> Candidate(segs, low, k) + len < segs[k].base
    ensures if Candidate(segs, low, k) + len - 1 <= high then Lowest(segs, low, high, len, k)
      else !HasGap(segs, low, high, len)
  {
    if k < |segs| {
      assert Fits(segs[k].base, segs[k].len, low, high);
    }
  }

  /** The starts as the code computes them. */
  function Start(segs: seq<Seg>, low: u64, k: nat): u64
    requires k <= |segs|
  {
    if k == 0 then low else Wrap(End(segs[k - 1]))
  }

  lemma StartAt(segs: seq<Seg>, low: u64, k: nat)
    requires k <= |segs|
    ensures Start(segs, low, k) == if k == 0 then low else Wrap(segs[k - 1].base + segs[k - 1].len)
  {
  }

  /** The scan stops at the first start whose sum with the length lies before the next segment. */
  ghost predicate Stops(segs: seq<Seg>, low: u64, len: nat, k: nat) {
    && k <= |segs| && (k < |segs| ==> Wrap(Start(segs, low, k) + len) < segs[k].base)
    && forall j :: 0 <= j < k ==> Wrap(Start(segs, low, j) + len) >= segs[j].base
  }

  /** What it answers there, sums taken modulo 2^64. */
  ghost function Found(segs: seq<Seg>, low: u64, high: u64, len: nat, k: nat): u64
    requires k <= |segs|
  {
    if segs == [] || Wrap(Start(segs, low, k) + len - 1) <= high then Start(segs, low, k) else 0
  }

  /** The test of vmm_check_collision on one segment, sums taken modulo 2^64. */
  predicate Hits(s: Seg, base: nat, len: nat) { Wrap(base + len - 1) >= s.base && base <= Wrap(End(s) - 1) }

  ghost predicate AnyHit(segs: seq<Seg>, base: nat, len: nat) {
    exists i :: 0 <= i < |segs| && Hits(segs[i], base, len)
  }

  /** For a range that does not wrap, the test is right. */
  lemma HitsCollide(segs: seq<Seg>, low: nat, high: nat, base: nat, len: nat)
    requires Good(segs, low, high) && len > 0 && base + len <= U64_RANGE
    ensures AnyHit(segs, base, len) <==> Collides(segs, base, len)
  {
    hide Wrap;
    forall i | 0 <= i < |segs| ensures Hits(segs[i], base, len) <==> Overlaps(segs[i], base, len) {
      assert Fits(segs[i].base, segs[i].len, low, high);
    }
  }

  /** Without wrap-around, where the scan stops is where the rule says. */
  lemma StopsScan(segs: seq<Seg>, low: u64, high: u64, len: nat, k: nat)
    requires Good(segs, low, high) && NoWrap(segs, low, len) && Stops(segs, low, len, k)
    ensures Scanned(segs, low, high, len, Found(segs, low, high, len, k))
  {
    hide Wrap, Ordered;
    forall j: nat | j <= |segs| ensures Start(segs, low, j) == Candidate(segs, low, j) {
      assert j > 0 ==> Fits(segs[j - 1].base, segs[j - 1].len, low, high);
    }
    assert forall j :: 0 <= j < k ==> !Allowed(segs, low, high, len, j) by {
      forall j | 0 <= j < k ensures !Allowed(segs, low, high, len, j) {
        assert Start(segs, low, j) == Candidate(segs, low, j) && Candidate(segs, low, j) + len < U64_RANGE;
      }
    }
    assert Candidate(segs, low, k) + len < U64_RANGE;
    ScanDone(segs, low, high, len, k);
  }

  /** Segments in order have distinct bases, so a place for a new one exists. */
  lemma SlotGood(segs: seq<Seg>, low: nat, high: nat)
    requires Good(segs, low, high)
    ensures Ordered(segs) && forall i :: 0 <= i < |segs| ==> segs[i].len > 0
  {
  }

  /** A start the rule allows is free. */
  lemma AllowedFits(segs: seq<Seg>, low: nat, high: nat, len: nat, k: nat)
    requires Good(segs, low, high) && NoWrap(segs, low, len) && low <= high && k <= |segs|
      && Allowed(segs, low, high, len, k)
    requires low % PAGE == 0 && len % PAGE == 0
    ensures var c := Candidate(segs, low, k);
      Fits(c, len, low, high) && forall i :: 0 <= i < |segs| ==> !Overlaps(segs[i], c, len)
  {
    var c := Candidate(segs, low, k);
    forall i | 0 <= i < |segs| ensures !Overlaps(segs[i], c, len) {
      if i < k - 1 {
        assert End(segs[i]) <= segs[k - 1].base;
      } else if i > k {
        assert End(segs[k]) <= segs[i].base;
      }
    }
    if k < |segs| {
      assert Fits(segs[k].base, segs[k].len, low, high);
    }
  }

  /**
   With every start refused, address 0 is free just when it is the low limit and the gap before the first segment fits
   exactly.
   */
  lemma ZeroFits(segs: seq<Seg>, low: nat, high: nat, len: nat)
    requires Good(segs, low, high) && NoWrap(segs, low, len) && segs != [] && !HasGap(segs, low, high, len)
    requires low % PAGE == 0 && len % PAGE == 0
    ensures (Fits(0, len, low, high) && forall i :: 0 <= i < |segs| ==> !Overlaps(segs[i], 0, len)) <==>
      (low == 0 && segs[0].base == len)
  {
    assert !Allowed(segs, low, high, len, 0);
    assert Fits(segs[0].base, segs[0].len, low, high);
    if low == 0 && segs[0].base == len {
      forall i | 0 <= i < |segs| ensures !Overlaps(segs[i], 0, len) {
        assert i > 0 ==> End(segs[0]) <= segs[i].base;
      }
    }
  }

  // ---- vmm_mmap

  ghost predicate Collides(segs: seq<Seg>, base: nat, len: nat) {
    exists i :: 0 <= i < |segs| && Overlaps(segs[i], base, len)
  }

  /** The requested place itself can be used. */
  ghost predicate Free(segs: seq<Seg>, low: nat, high: nat, base: nat, len: nat) {
    !Collides(segs, base, len) && low <= base && base + len <= high
  }

  /** What the scan ends with: the lowest allowed start, or 0; an empty list is not checked. */
  ghost predicate Scanned(segs: seq<Seg>, low: nat, high: nat, len: nat, start: nat) {
    if segs == [] then start == low
    else if HasGap(segs, low, high, len)
      then exists k :: Lowest(segs, low, high, len, k) && start == Candidate(segs, low, k)
    else start == 0
  }

  /** Some start is allowed, or 0 happens to fit. */
  ghost predicate Roomy(segs: seq<Seg>, low: nat, high: nat, len: nat) {
    HasGap(segs, low, high, len) || (low == 0 && segs != [] && segs[0].base == len)
  }

  lemma FreeGood(segs: seq<Seg>, low: nat, high: nat, k: nat, s: Seg)
    requires Good(segs, low, high) && Slot(segs, s.base, k) && Free(segs, low, high, s.base, s.len)
    requires s.len > 0 && s.base % PAGE == 0 && s.len % PAGE == 0 && s.base + s.len < U64_RANGE
    ensures Good(Inserted(segs, k, s), low, high)
  {
    InsertedGood(segs, low, high, k, s);
  }

  /** A segment put where the scan says keeps the list in order exactly when there was room. */
  lemma ScannedGood(segs: seq<Seg>, low: nat, high: nat, k: nat, s: Seg)
    requires Good(segs, low, high) && Slot(segs, s.base, k) && NoWrap(segs, low, s.len) && low <= high
    requires Scanned(segs, low, high, s.len, s.base) && low % PAGE == 0 && s.len % PAGE == 0
    ensures Good(Inserted(segs, k, s), low, high) <==> Roomy(segs, low, high, s.len)
  {
    if HasGap(segs, low, high, s.len) {
      var j :| 0 <= j <= |segs| && Allowed(segs, low, high, s.len, j) && s.base == Candidate(segs, low, j);
      AllowedFits(segs, low, high, s.len, j);
      InsertedGood(segs, low, high, k, s);
    } else if segs == [] {
      assert !Allowed(segs, low, high, s.len, 0);
      assert Inserted(segs, k, s) == [s];
      assert !Fits(Inserted(segs, k, s)[0].base, s.len, low, high);
    } else {
      ZeroFits(segs, low, high, s.len);
      if Roomy(segs, low, high, s.len) {
        InsertedGood(segs, low, high, k, s);
      }
      if Good(Inserted(segs, k, s), low, high) {
        GoodApart(segs, low, high, k, s);
      }
    }
  }

  /** Wherever a segment is put, the list stays in order exactly if it fits there and overlaps none. */
  lemma PutGood(segs: seq<Seg>, low: nat, high: nat, k: nat, s: Seg)
    requires Good(segs, low, high) && Slot(segs, s.base, k)
    ensures Good(Inserted(segs, k, s), low, high) <==> Fits(s.base, s.len, low, high) && !Collides(segs, s.base, s.len)
  {
    if Fits(s.base, s.len, low, high) && !Collides(segs, s.base, s.len) {
      InsertedGood(segs, low, high, k, s);
    }
    if Good(Inserted(segs, k, s), low, high) {
      GoodApart(segs, low, high, k, s);
    }
  }

  /** With no room the scan answers 0, and the new segment lies on top of the one that is there. */
  lemma NoRoom()
    ensures
      var segs, s := [Seg(0, 0x7FFF_FFFF_F000, 0, Flags(false, true, false, false), 0)],
        Seg(0, 0x2000, 0, Flags(false, true, false, false), 0);
      && Good(segs, 0, 0x7FFF_FFFF_FFFF) && NoWrap(segs, 0, s.len) && Scanned(segs, 0, 0x7FFF_FFFF_FFFF, s.len, s.base)
      && !Good(Inserted(segs, 0, s), 0, 0x7FFF_FFFF_FFFF)
  {
    var segs, s := [Seg(0, 0x7FFF_FFFF_F000, 0, Flags(false, true, false, false), 0)],
      Seg(0, 0x2000, 0, Flags(false, true, false, false), 0);
    assert !Allowed(segs, 0, 0x7FFF_FFFF_FFFF, s.len, 0) && !Allowed(segs, 0, 0x7FFF_FFFF_FFFF, s.len, 1);
    ScannedGood(segs, 0, 0x7FFF_FFFF_FFFF, 0, s);
  }

  // ---- what a private page should hold

  function Floor(addr: nat): nat { addr / PAGE * PAGE }

  /** Lines 147-153: what the fault handler fills the frame with, given the bytes of the file behind the segment. */
  function FaultPage(s: Seg, addr: nat, file: seq<u8>): (page: seq<u8>)
    ensures |page| == PAGE
  {
    if s.flags.anon then FileBytes.ReadBytes([], 0, PAGE)
    else FileBytes.ReadBytes(file, Wrap(addr - s.base + s.offset), PAGE)
  }

  /** What the page should hold. */
  function MappedPage(s: Seg, addr: nat, file: seq<u8>): seq<u8>
    requires s.base <= Floor(addr)
  {
    FileBytes.PageOf(file, Floor(addr) - s.base + s.offset)
  }

  lemma FloorIn(s: Seg, addr: nat)
    requires Covers(s, addr) && s.base % PAGE == 0
    ensures s.base <= Floor(addr) <= addr < Floor(addr) + PAGE && (Floor(addr) == addr <==> addr % PAGE == 0)
  {
  }

  /** What such a fault brings in: the bytes of the file from the faulting address on. */
  lemma FaultReads(s: Seg, addr: nat, file: seq<u8>, i: nat)
    requires Covers(s, addr) && s.offset + s.len <= U64_RANGE && i < PAGE
    ensures FaultPage(s, addr, file)[i] == if s.flags.anon then 0
      else FileBytes.ByteAt(file, s.offset + (addr - s.base) + i)
  {
  }

  /**
   A fault on a private file segment reads from the faulting address on, not from the start of its page: for every
   file the page is right exactly if the address is that start.
   */
  lemma FileFault(s: Seg, addr: nat)
    requires Covers(s, addr) && s.base % PAGE == 0 && !s.flags.anon && s.offset + s.len <= U64_RANGE
    ensures s.base <= Floor(addr)
    ensures (forall file: seq<u8> :: FaultPage(s, addr, file) == MappedPage(s, addr, file)) <==> addr % PAGE == 0
  {
    FloorIn(s, addr);
    hide Floor, Wrap;
    var pos := Floor(addr) - s.base + s.offset;
    if addr != Floor(addr) {
      var file := seq<u8>(pos + 1, i => if i == pos then 1 else 0);
      assert MappedPage(s, addr, file)[0] == 1 && FaultPage(s, addr, file)[0] == 0;
    }
  }

  // ---- populating at once

  /** Lines 218-224: page i of a private mapping, i counted in bytes. */
  function PopulatePage(anon: bool, file: seq<u8>, offset: nat, i: nat): (page: seq<u8>)
    ensures |page| == PAGE
  {
    if anon then FileBytes.ReadBytes([], 0, PAGE) else FileBytes.ReadBytes(file, Wrap(offset + i), PAGE)
  }

  ghost function PopulatePages(anon: bool, file: seq<u8>, offset: nat, n: nat): (pages: seq<seq<u8>>)
    ensures |pages| == n && forall i :: 0 <= i < n ==> pages[i] == PopulatePage(anon, file, offset, i * PAGE)
  {
    seq(n, i requires 0 <= i => PopulatePage(anon, file, offset, i * PAGE))
  }

  lemma PopulateNext(anon: bool, file: seq<u8>, offset: nat, n: nat)
    ensures PopulatePages(anon, file, offset, n + 1)
         == PopulatePages(anon, file, offset, n) + [PopulatePage(anon, file, offset, n * PAGE)]
  {
  }

  /** Populated pages show the file at the offset of the mapping, unlike those a fault brings in. */
  lemma PopulateShows(s: Seg, addr: nat, file: seq<u8>)
    requires Covers(s, addr) && s.base % PAGE == 0 && !s.flags.anon && s.offset + s.len <= U64_RANGE
    ensures s.base <= Floor(addr) && (Floor(addr) - s.base) % PAGE == 0
    ensures PopulatePage(s.flags.anon, file, s.offset, Floor(addr) - s.base) == MappedPage(s, addr, file)
  {
    FloorIn(s, addr);
  }
}
