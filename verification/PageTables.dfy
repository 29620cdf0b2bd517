/**
 Four-level page tables as in kernel/src/arch/x86_64/ptm.c, on values: the entry format
 (long-mode page translation, section 5.3 of the AMD64 Architecture Programmer's Manual
 volume 2), where each table sits in the tree, and what a walk finds.
 */
module PageTables {
  import opened Words
  import opened Pow
  import opened Bits

  const PRESENT: nat := 1
  const WRITE: nat := 2
  const USER: nat := 4
  const GLOBAL: nat := 0x100
  const ADDR_MASK: nat := 0x000F_FFFF_FFFF_F000
  const PHYS_LIMIT: nat := 0x10_0000_0000_0000

  /** The address bits an entry can hold. */
  function PhysBits(phys: nat): (r: nat)
    ensures phys < PHYS_LIMIT ==> r == phys
  {
    phys % PHYS_LIMIT
  }

  // ---- entries

  function EntryAddr(e: nat): nat { And(e, ADDR_MASK) }

  predicate Present(e: nat) { And(e, PRESENT) != 0 }

  /** The flags of an entry: its low twelve bits. */
  function FlagBits(e: nat): nat { e % PAGE }

  /** Present, writable, and open to user mode. */
  const USER_FLAGS: nat := 7

  /** Present, writable, global, and closed to user mode. */
  const KERNEL_FLAGS: nat := 0x103

  function UserEntry(phys: nat): nat { Or(Or(Or(phys, PRESENT), WRITE), USER) }

  function KernelEntry(phys: nat): nat { Or(Or(Or(phys, PRESENT), WRITE), GLOBAL) }

  lemma Powers()
    ensures Pow2(40) == 0x100_0000_0000 && Pow2(12) == 0x1000
  {
    assert Pow2(4) == 16;
    Pow2Add(4, 4);
    assert Pow2(8) == 0x100;
    Pow2Add(8, 4);
    assert Pow2(12) == 0x1000;
    Pow2Add(8, 12);
    assert Pow2(20) == 0x10_0000;
    Pow2Add(20, 20);
  }

  /** The mask keeps bits 12 to 51. */
  lemma EntryAddrIs(e: nat)
    ensures EntryAddr(e) == (e / 0x1000 % 0x100_0000_0000) * 0x1000
  {
    Powers();
    ShiftLeftMul(0xFF_FFFF_FFFF, 12);
    AndShift(e, 0xFF_FFFF_FFFF, 12);
    ShiftRightDiv(e, 12);
    AndLow(e / 0x1000, 40);
    ShiftLeftMul(And(e / 0x1000, 0xFF_FFFF_FFFF), 12);
  }

  lemma PageArithmetic(phys: nat, flags: nat)
    requires phys % PAGE == 0 && flags < PAGE
    ensures ((phys + flags) / 0x1000 % 0x100_0000_0000) * 0x1000 == phys % PHYS_LIMIT
    ensures phys < PHYS_LIMIT ==> phys % PHYS_LIMIT == phys
  {
    var q := phys / 0x1000;
    assert (phys + flags) / 0x1000 == q;
    var h, l := q / 0x100_0000_0000, q % 0x100_0000_0000;
    assert phys == h * PHYS_LIMIT + l * 0x1000;
  }

  lemma OrIsSum(phys: nat, flags: nat)
    requires phys % PAGE == 0 && flags < PAGE
    ensures Or(phys, flags) == phys + flags
  {
    Powers();
    AlignedMod(phys, 12);
    OrAligned(phys, flags, 12);
  }

  lemma OddIsPresent(e: nat)
    requires e % 2 == 1
    ensures Present(e)
  {
    AndLow(e, 1);
  }

  lemma OddSum(phys: nat, flags: nat)
    requires phys % PAGE == 0 && flags % 2 == 1
    ensures (phys + flags) % 2 == 1
  {
  }

  /** Flag bits below the page size leave the address readable. */
  lemma FlaggedEntry(phys: nat, flags: nat)
    requires phys % PAGE == 0 && flags < PAGE && flags % 2 == 1
    ensures Present(Or(phys, flags)) && EntryAddr(Or(phys, flags)) == phys % PHYS_LIMIT
    ensures phys < PHYS_LIMIT ==> EntryAddr(Or(phys, flags)) == phys
  {
    hide Or, And, Present, EntryAddr;
    OrIsSum(phys, flags);
    OddSum(phys, flags);
    OddIsPresent(phys + flags);
    EntryAddrIs(phys + flags);
    PageArithmetic(phys, flags);
  }

  lemma FlagSets(phys: nat)
    ensures UserEntry(phys) == Or(phys, 7) && KernelEntry(phys) == Or(phys, 0x103)
  {
    OrAssoc(phys, PRESENT, WRITE);
    OrAssoc(phys, 3, USER);
    OrAssoc(phys, 3, GLOBAL);
    assert Or(3, 256) == 259;
  }

  lemma UserEntryFields(phys: nat)
    requires phys % PAGE == 0
    ensures Present(UserEntry(phys)) && EntryAddr(UserEntry(phys)) == phys % PHYS_LIMIT
    ensures phys < PHYS_LIMIT ==> EntryAddr(UserEntry(phys)) == phys
    ensures UserEntry(phys) == phys + 7 && FlagBits(UserEntry(phys)) == USER_FLAGS
  {
    hide Or, Present, EntryAddr, UserEntry, KernelEntry;
    FlagSets(phys);
    FlaggedEntry(phys, 7);
    OrIsSum(phys, 7);
  }

  lemma KernelEntryFields(phys: nat)
    requires phys % PAGE == 0
    ensures Present(KernelEntry(phys)) && EntryAddr(KernelEntry(phys)) == phys % PHYS_LIMIT
    ensures phys < PHYS_LIMIT ==> EntryAddr(KernelEntry(phys)) == phys
    ensures KernelEntry(phys) == phys + 0x103 && FlagBits(KernelEntry(phys)) == KERNEL_FLAGS
  {
    hide Or, Present, EntryAddr, UserEntry, KernelEntry;
    FlagSets(phys);
    FlaggedEntry(phys, 0x103);
    OrIsSum(phys, 0x103);
  }

  lemma ZeroEntry()
    ensures !Present(0)
  {
  }

  // ---- the tree of tables

  /** Table contents by physical address. */
  type Mem = map<nat, seq<nat>>

  /** Where a table sits: a level-4 table, one of the shared upper-half level-3 tables, or below another. */
  datatype Pos = Root(pml4: nat) | Upper(i: nat) | Sub(parent: Pos, i: nat)

  ghost function Level(p: Pos): int {
    match p
    case Root(_) => 4
    case Upper(_) => 3
    case Sub(q, _) => Level(q) - 1
  }

  ghost function Child(p: Pos, i: nat): Pos {
    if p.Root? && i >= 256 then Upper(i) else Sub(p, i)
  }

  /** The index into a table of the given level. */
  function Idx(v: nat, level: nat): (i: nat)
    requires 1 <= level <= 4
    ensures i < 512
  {
    if level == 1 then v / 0x1000 % 512
    else if level == 2 then v / 0x20_0000 % 512
    else if level == 3 then v / 0x4000_0000 % 512
    else v / 0x80_0000_0000 % 512
  }

  /** The page of an address; bits above 47 take no part in translation. */
  function PageNo(v: nat): nat { v / 0x1000 % 0x10_0000_0000 }

  predicate UpperHalf(v: nat) { Idx(v, 4) >= 256 }

  lemma SamePage(v: nat, w: nat)
    ensures PageNo(v) == PageNo(w) <==>
      Idx(v, 1) == Idx(w, 1) && Idx(v, 2) == Idx(w, 2) && Idx(v, 3) == Idx(w, 3) && Idx(v, 4) == Idx(w, 4)
  {
    PageDigits(v);
    PageDigits(w);
  }

  lemma PageDigits(v: nat)
    ensures PageNo(v) == Idx(v, 1) + 512 * (Idx(v, 2) + 512 * (Idx(v, 3) + 512 * Idx(v, 4)))
  {
    var n := v / 0x1000;
    assert v / 0x20_0000 == n / 512;
    assert v / 0x4000_0000 == n / 512 / 512;
    assert v / 0x80_0000_0000 == n / 512 / 512 / 512;
  }

  ghost predicate Tables(mem: Mem, pos: map<nat, Pos>) {
    mem.Keys == pos.Keys && forall f :: f in mem ==>
      && |mem[f]| == 512 && f % PAGE == 0 && f < PHYS_LIMIT
      && 1 <= Level(pos[f]) <= 4 && (pos[f].Root? ==> pos[f].pml4 == f)
  }

  /** A present entry of an upper level leads to the one table of that place. */
  ghost predicate Linked(mem: Mem, pos: map<nat, Pos>) {
    forall f, i :: f in mem && f in pos && 0 <= i < |mem[f]| && Level(pos[f]) > 1 && Present(mem[f][i]) ==>
      EntryAddr(mem[f][i]) in pos && pos[EntryAddr(mem[f][i])] == Child(pos[f], i)
  }

  /** Every level-4 table has the same, always present, upper half. */
  ghost predicate Shared(mem: Mem, pos: map<nat, Pos>, higher: seq<nat>) {
    && |higher| == 256
    && (forall k :: 0 <= k < 256 ==>
        Present(higher[k]) && EntryAddr(higher[k]) in pos && pos[EntryAddr(higher[k])] == Upper(256 + k))
    && (forall f :: f in mem && f in pos && pos[f].Root? ==> |mem[f]| == 512 && mem[f][256..] == higher)
  }

  ghost predicate Inv(mem: Mem, pos: map<nat, Pos>, higher: seq<nat>) {
    Tables(mem, pos) && Linked(mem, pos) && Shared(mem, pos, higher)
  }

  ghost predicate IsMap(mem: Mem, pos: map<nat, Pos>, r: nat) {
    r in mem && r in pos && pos[r].Root?
  }

  // ---- walks

  /** The physical page a walk of v from table f at the given level ends at. */
  ghost function Walk(mem: Mem, f: nat, v: nat, level: nat): Option<nat>
    requires 1 <= level <= 4
    decreases level
  {
    if f !in mem || |mem[f]| != 512 then None
    else
      var e := mem[f][Idx(v, level)];
      if !Present(e) then None
      else if level == 1 then Some(EntryAddr(e))
      else Walk(mem, EntryAddr(e), v, level - 1)
  }

  /** The flat page map of an address space. */
  ghost function Lookup(mem: Mem, r: nat, v: nat): Option<nat> {
    Walk(mem, r, v, 4)
  }

  /** The place of the table that translates v at the given level. */
  ghost function PathPos(r: nat, v: nat, level: nat): Pos
    requires 1 <= level <= 4
    decreases 4 - level
  {
    if level == 4 then Root(r) else Child(PathPos(r, v, level + 1), Idx(v, level + 1))
  }

  lemma {:induction false} WalkSamePage(mem: Mem, f: nat, v: nat, w: nat, level: nat)
    requires 1 <= level <= 4 && PageNo(v) == PageNo(w)
    ensures Walk(mem, f, v, level) == Walk(mem, f, w, level)
    decreases level
  {
    SamePage(v, w);
    if level > 1 && f in mem && |mem[f]| == 512 {
      WalkSamePage(mem, EntryAddr(mem[f][Idx(v, level)]), v, w, level - 1);
    }
  }

  /** All address spaces agree on the upper half. */
  lemma UpperAgrees(mem: Mem, pos: map<nat, Pos>, higher: seq<nat>, r: nat, s: nat, v: nat)
    requires Inv(mem, pos, higher) && IsMap(mem, pos, r) && IsMap(mem, pos, s) && UpperHalf(v)
    ensures Lookup(mem, r, v) == Lookup(mem, s, v)
  {
    var i := Idx(v, 4);
    assert mem[r][i] == mem[r][256..][i - 256] == mem[s][256..][i - 256] == mem[s][i];
  }

  ghost function Put(mem: Mem, g: nat, i: nat, e: nat): Mem
    requires g in mem && i < |mem[g]|
  {
    var t: seq<nat> := mem[g][i := e];
    mem[g := t]
  }

  ghost function AddTable(mem: Mem, n: nat): Mem {
    var t: seq<nat> := seq(512, _ => 0);
    mem[n := t]
  }

  /** Writing an entry that is not on the way of v does not change where v leads. */
  lemma {:induction false} WalkWrite(mem: Mem, pos: map<nat, Pos>, g: nat, i: nat, e: nat, r: nat, f: nat, v: nat,
                                     level: nat)
    requires Tables(mem, pos) && Linked(mem, pos) && g in mem && i < 512
    requires 1 <= level <= 4 && f in mem && pos[f] == PathPos(r, v, level) && Level(pos[f]) == level
    requires !(pos[g] == PathPos(r, v, Level(pos[g])) && i == Idx(v, Level(pos[g])))
    ensures Walk(Put(mem, g, i, e), f, v, level) == Walk(mem, f, v, level)
    decreases level
  {
    var entry := mem[f][Idx(v, level)];
    if level > 1 && Present(entry) {
      WalkWrite(mem, pos, g, i, e, r, EntryAddr(entry), v, level - 1);
    }
  }

  /** Hanging an empty table into an absent entry does not change where anything leads. */
  lemma {:induction false} WalkGrow(mem: Mem, pos: map<nat, Pos>, g: nat, i: nat, n: nat, e: nat, f: nat, v: nat,
                                    level: nat)
    requires Tables(mem, pos) && Linked(mem, pos) && g in mem && i < 512 && Level(pos[g]) > 1 && !Present(mem[g][i])
    requires n !in mem && EntryAddr(e) == n
    requires 1 <= level <= 4 && f in mem && Level(pos[f]) == level
    ensures Walk(Put(AddTable(mem, n), g, i, e), f, v, level) == Walk(mem, f, v, level)
    decreases level
  {
    var mem' := Put(AddTable(mem, n), g, i, e);
    var k := Idx(v, level);
    ZeroEntry();
    if f == g && k == i {
      assert mem'[f][k] == e;
      assert Walk(mem', n, v, level - 1) == None;
    } else if level > 1 && Present(mem[f][k]) {
      WalkGrow(mem, pos, g, i, n, e, EntryAddr(mem[f][k]), v, level - 1);
    }
  }

  // ---- what the updates keep

  lemma GrowKeeps(mem: Mem, pos: map<nat, Pos>, higher: seq<nat>, g: nat, i: nat, n: nat)
    requires Inv(mem, pos, higher) && g in mem && i < 512 && Level(pos[g]) > 1 && !Present(mem[g][i])
    requires n !in mem && n % PAGE == 0 && n < PHYS_LIMIT
    ensures Inv(Put(AddTable(mem, n), g, i, UserEntry(n)), pos[n := Child(pos[g], i)], higher)
  {
    UserEntryFields(n);
    ZeroEntry();
    if pos[g].Root? {
      UpperPresent(mem, pos, higher, g, i);
    }
    GrowShared(mem, pos, higher, g, i, n);
    GrowLinked(mem, pos, g, i, n, UserEntry(n));
    GrowTables(mem, pos, g, i, n, UserEntry(n));
  }

  lemma GrowTables(mem: Mem, pos: map<nat, Pos>, g: nat, i: nat, n: nat, e: nat)
    requires Tables(mem, pos) && g in mem && i < 512 && Level(pos[g]) > 1 && (pos[g].Root? ==> i < 256)
    requires n !in mem && n % PAGE == 0 && n < PHYS_LIMIT
    ensures Tables(Put(AddTable(mem, n), g, i, e), pos[n := Child(pos[g], i)])
  {
  }

  lemma UpperPresent(mem: Mem, pos: map<nat, Pos>, higher: seq<nat>, g: nat, i: nat)
    requires Shared(mem, pos, higher) && IsMap(mem, pos, g) && i < |mem[g]| == 512
    ensures i >= 256 ==> Present(mem[g][i])
  {
    if i >= 256 {
      assert mem[g][i] == mem[g][256..][i - 256];
    }
  }

  lemma GrowShared(mem: Mem, pos: map<nat, Pos>, higher: seq<nat>, g: nat, i: nat, n: nat)
    requires Tables(mem, pos) && Shared(mem, pos, higher) && g in mem && i < 512 && (pos[g].Root? ==> i < 256)
      && n !in mem
    ensures Shared(Put(AddTable(mem, n), g, i, UserEntry(n)), pos[n := Child(pos[g], i)], higher)
  {
    var mem', pos' := Put(AddTable(mem, n), g, i, UserEntry(n)), pos[n := Child(pos[g], i)];
    forall f | f in mem' && f in pos' && pos'[f].Root? ensures |mem'[f]| == 512 && mem'[f][256..] == higher {
      assert mem'[f][256..] == mem[f][256..];
    }
  }

  lemma GrowLinked(mem: Mem, pos: map<nat, Pos>, g: nat, i: nat, n: nat, e: nat)
    requires Tables(mem, pos) && Linked(mem, pos) && g in mem && i < 512 && n !in mem && EntryAddr(e) == n
    ensures Linked(Put(AddTable(mem, n), g, i, e), pos[n := Child(pos[g], i)])
  {
    ZeroEntry();
  }

  lemma LeafKeeps(mem: Mem, pos: map<nat, Pos>, higher: seq<nat>, g: nat, i: nat, e: nat)
    requires Inv(mem, pos, higher) && g in mem && i < 512 && Level(pos[g]) == 1
    ensures Inv(Put(mem, g, i, e), pos, higher)
  {
  }

  /** arch_ptm_new_map: an empty lower half, the common upper half. */
  ghost function AddMap(mem: Mem, n: nat, higher: seq<nat>): Mem {
    var t: seq<nat> := seq(256, _ => 0) + higher;
    mem[n := t]
  }

  lemma NewMapKeeps(mem: Mem, pos: map<nat, Pos>, higher: seq<nat>, n: nat)
    requires Inv(mem, pos, higher) && n !in mem && n % PAGE == 0 && n < PHYS_LIMIT
    ensures Inv(AddMap(mem, n, higher), pos[n := Root(n)], higher)
  {
    ZeroEntry();
    var mem', pos' := AddMap(mem, n, higher), pos[n := Root(n)];
    assert mem'[n][256..] == higher;
    assert Tables(mem', pos');
    assert Linked(mem', pos');
  }

  /** Other address spaces do not notice a new one, which starts out with no lower-half pages. */
  lemma {:induction false} NewMapWalks(mem: Mem, pos: map<nat, Pos>, higher: seq<nat>, n: nat, f: nat, v: nat,
                                       level: nat)
    requires Inv(mem, pos, higher) && n !in mem
    requires 1 <= level <= 4 && f in mem && Level(pos[f]) == level
    ensures Walk(AddMap(mem, n, higher), f, v, level) == Walk(mem, f, v, level)
    decreases level
  {
    var e := mem[f][Idx(v, level)];
    if level > 1 && Present(e) {
      NewMapWalks(mem, pos, higher, n, EntryAddr(e), v, level - 1);
    }
  }

  // ---- the way down

  /** Following v from table f at one level leads to table h at a lower one. */
  ghost predicate Reaches(mem: Mem, f: nat, v: nat, level: nat, h: nat, l: nat)
    requires 1 <= l <= level <= 4
    decreases level
  {
    if level == l then f == h
    else
      && f in mem && |mem[f]| == 512 && Present(mem[f][Idx(v, level)])
      && Reaches(mem, EntryAddr(mem[f][Idx(v, level)]), v, level - 1, h, l)
  }

  lemma {:induction false} ReachesWalk(mem: Mem, f: nat, v: nat, level: nat, h: nat, l: nat)
    requires 1 <= l <= level <= 4 && Reaches(mem, f, v, level, h, l)
    ensures Walk(mem, f, v, level) == Walk(mem, h, v, l)
    decreases level
  {
    if level > l {
      ReachesWalk(mem, EntryAddr(mem[f][Idx(v, level)]), v, level - 1, h, l);
    }
  }

  lemma {:induction false} ReachesOn(mem: Mem, f: nat, v: nat, level: nat, h: nat, l: nat)
    requires 2 <= l <= level <= 4 && Reaches(mem, f, v, level, h, l)
    requires h in mem && |mem[h]| == 512 && Present(mem[h][Idx(v, l)])
    ensures Reaches(mem, f, v, level, EntryAddr(mem[h][Idx(v, l)]), l - 1)
    decreases level
  {
    if level > l {
      ReachesOn(mem, EntryAddr(mem[f][Idx(v, level)]), v, level - 1, h, l);
    }
  }

  /** Changes at or below the reached level do not disturb the way there. */
  lemma {:induction false} ReachesFrame(mem: Mem, mem': Mem, pos: map<nat, Pos>, f: nat, v: nat, level: nat, h: nat,
                                        l: nat)
    requires Tables(mem, pos) && Linked(mem, pos)
    requires 1 <= l <= level <= 4 && f in mem && Level(pos[f]) == level && Reaches(mem, f, v, level, h, l)
    requires forall g :: g in mem && Level(pos[g]) > l ==> g in mem' && mem'[g] == mem[g]
    ensures Reaches(mem', f, v, level, h, l)
    decreases level
  {
    if level > l {
      ReachesFrame(mem, mem', pos, EntryAddr(mem[f][Idx(v, level)]), v, level - 1, h, l);
    }
  }

  // ---- the flat map

  /** What the walk of w from r does is decided by the leaf entry that v from root ends at. */
  ghost predicate SameLeaf(root: nat, v: nat, r: nat, w: nat) {
    PageNo(v) == PageNo(w) && (r == root || UpperHalf(v))
  }

  lemma LeafPlace(root: nat, v: nat, r: nat, w: nat)
    ensures PathPos(root, v, 1) == PathPos(r, w, 1) && Idx(v, 1) == Idx(w, 1) <==> SameLeaf(root, v, r, w)
  {
    SamePage(v, w);
    assert PathPos(root, v, 3) == Child(Root(root), Idx(v, 4)) && PathPos(r, w, 3) == Child(Root(r), Idx(w, 4));
    assert PathPos(root, v, 2) == Child(PathPos(root, v, 3), Idx(v, 3))
      && PathPos(r, w, 2) == Child(PathPos(r, w, 3), Idx(w, 3));
  }

  /** Writing the leaf entry of v changes exactly the pages that share it. */
  lemma LeafWritten(mem: Mem, pos: map<nat, Pos>, higher: seq<nat>, root: nat, v: nat, g: nat, e: nat, r: nat, w: nat)
    requires Inv(mem, pos, higher) && IsMap(mem, pos, root) && IsMap(mem, pos, r)
    requires g in mem && pos[g] == PathPos(root, v, 1) && Level(pos[g]) == 1 && Reaches(mem, root, v, 4, g, 1)
    ensures Lookup(Put(mem, g, Idx(v, 1), e), r, w) ==
      if SameLeaf(root, v, r, w) then (if Present(e) then Some(EntryAddr(e)) else None) else Lookup(mem, r, w)
  {
    var mem' := Put(mem, g, Idx(v, 1), e);
    LeafPlace(root, v, r, w);
    if SameLeaf(root, v, r, w) {
      LeafKeeps(mem, pos, higher, g, Idx(v, 1), e);
      ReachesFrame(mem, mem', pos, root, v, 4, g, 1);
      ReachesWalk(mem', root, v, 4, g, 1);
      WalkSamePage(mem', r, v, w, 4);
      if r != root {
        UpperAgrees(mem', pos, higher, r, root, v);
      }
    } else {
      WalkWrite(mem, pos, g, Idx(v, 1), e, r, r, w, 4);
    }
  }

  /** Every address space translates every address as before. */
  ghost predicate SameLookups(mem: Mem, mem': Mem, pos: map<nat, Pos>) {
    forall r: nat, w: nat :: IsMap(mem, pos, r) ==> Lookup(mem', r, w) == Lookup(mem, r, w)
  }

  lemma GrowLookups(mem: Mem, pos: map<nat, Pos>, g: nat, i: nat, n: nat, e: nat)
    requires Tables(mem, pos) && Linked(mem, pos) && g in mem && i < 512 && Level(pos[g]) > 1 && !Present(mem[g][i])
    requires n !in mem && EntryAddr(e) == n
    ensures SameLookups(mem, Put(AddTable(mem, n), g, i, e), pos)
  {
    forall r: nat, w: nat | IsMap(mem, pos, r)
      ensures Lookup(Put(AddTable(mem, n), g, i, e), r, w) == Lookup(mem, r, w)
    {
      WalkGrow(mem, pos, g, i, n, e, r, w, 4);
    }
  }

  /** After get_next_level at entry i of table f: table n is there, and nothing else that matters changed. */
  ghost predicate Descended(mem: Mem, pos: map<nat, Pos>, mem': Mem, pos': map<nat, Pos>, higher: seq<nat>, f: nat,
                            i: nat, n: nat)
  {
    && Inv(mem', pos', higher) && SameLookups(mem, mem', pos)
    && f in mem' && i < |mem'[f]| && Present(mem'[f][i]) && EntryAddr(mem'[f][i]) == n
    && n in pos' && f in pos && pos'[n] == Child(pos[f], i)
    && forall g :: g in mem && g in pos ==>
      g in mem' && g in pos' && pos'[g] == pos[g] && (g != f ==> mem'[g] == mem[g])
  }

  lemma DescendPresent(mem: Mem, pos: map<nat, Pos>, higher: seq<nat>, f: nat, i: nat)
    requires Inv(mem, pos, higher) && f in mem && i < 512 && Level(pos[f]) > 1 && Present(mem[f][i])
    ensures Descended(mem, pos, mem, pos, higher, f, i, EntryAddr(mem[f][i]))
  {
  }

  lemma DescendGrown(mem: Mem, pos: map<nat, Pos>, higher: seq<nat>, f: nat, i: nat, n: nat)
    requires Inv(mem, pos, higher) && f in mem && i < 512 && Level(pos[f]) > 1 && !Present(mem[f][i])
    requires n !in mem && n % PAGE == 0 && n < PHYS_LIMIT
    ensures Descended(mem, pos, Put(AddTable(mem, n), f, i, UserEntry(n)), pos[n := Child(pos[f], i)], higher, f, i, n)
  {
    UserEntryFields(n);
    GrowKeeps(mem, pos, higher, f, i, n);
    GrowLookups(mem, pos, f, i, n, UserEntry(n));
  }

  /** No table has moved. */
  ghost predicate KeepsPlaces(mem0: Mem, pos0: map<nat, Pos>, mem: Mem, pos: map<nat, Pos>) {
    forall g :: g in mem0 && g in pos0 ==> g in mem && g in pos && pos[g] == pos0[g]
  }

  /** Nothing observable has changed since mem0, and the walk of v from root stands at table f of the given level. */
  ghost predicate OnWay(mem0: Mem, pos0: map<nat, Pos>, mem: Mem, pos: map<nat, Pos>, root: nat, v: nat, f: nat,
                        level: nat)
    requires 1 <= level <= 4
  {
    && SameLookups(mem0, mem, pos0) && KeepsPlaces(mem0, pos0, mem, pos)
    && IsMap(mem0, pos0, root) && pos0[root].pml4 == root
    && f in mem && f in pos && pos[f] == PathPos(root, v, level) && Level(pos[f]) == level
    && Reaches(mem, root, v, 4, f, level)
  }

  lemma OnWayStep(mem0: Mem, pos0: map<nat, Pos>, mem: Mem, pos: map<nat, Pos>, mem': Mem, pos': map<nat, Pos>,
                  higher: seq<nat>,
                  root: nat, v: nat, f: nat, level: nat, n: nat)
    requires 2 <= level <= 4 && Inv(mem, pos, higher) && OnWay(mem0, pos0, mem, pos, root, v, f, level)
    requires Descended(mem, pos, mem', pos', higher, f, Idx(v, level), n)
    ensures OnWay(mem0, pos0, mem', pos', root, v, n, level - 1)
  {
    ReachesFrame(mem, mem', pos, root, v, 4, f, level);
    ReachesOn(mem', root, v, 4, f, level);
  }

  /** The page map after mapping or unmapping the page of v. */
  ghost predicate LeafChanged(mem0: Mem, pos0: map<nat, Pos>, mem: Mem, root: nat, v: nat, target: Option<nat>) {
    forall r: nat, w: nat :: IsMap(mem0, pos0, r) ==>
      Lookup(mem, r, w) == if SameLeaf(root, v, r, w) then target else Lookup(mem0, r, w)
  }

  lemma LeafDone(mem0: Mem, pos0: map<nat, Pos>, mem: Mem, pos: map<nat, Pos>, higher: seq<nat>, root: nat, v: nat,
                 g: nat, e: nat)
    requires Inv(mem, pos, higher) && OnWay(mem0, pos0, mem, pos, root, v, g, 1)
    ensures Inv(Put(mem, g, Idx(v, 1), e), pos, higher)
    ensures LeafChanged(mem0, pos0, Put(mem, g, Idx(v, 1), e), root, v, if Present(e) then Some(EntryAddr(e)) else None)
  {
    LeafKeeps(mem, pos, higher, g, Idx(v, 1), e);
    var mem' := Put(mem, g, Idx(v, 1), e);
    forall r: nat, w: nat | IsMap(mem0, pos0, r)
      ensures Lookup(mem', r, w) == if SameLeaf(root, v, r, w) then (if Present(e) then Some(EntryAddr(e)) else None)
        else Lookup(mem0, r, w)
    {
      LeafWritten(mem, pos, higher, root, v, g, e, r, w);
      assert Lookup(mem, r, w) == Lookup(mem0, r, w);
    }
  }

  /** If the way of v breaks off, v and every page sharing its leaf are unmapped. */
  lemma BrokenWay(mem: Mem, pos: map<nat, Pos>, higher: seq<nat>, root: nat, v: nat, f: nat, level: nat)
    requires 1 <= level <= 4 && Inv(mem, pos, higher) && OnWay(mem, pos, mem, pos, root, v, f, level)
    requires !Present(mem[f][Idx(v, level)])
    ensures LeafChanged(mem, pos, mem, root, v, None)
  {
    ReachesWalk(mem, root, v, 4, f, level);
    forall r: nat, w: nat | IsMap(mem, pos, r) && SameLeaf(root, v, r, w) ensures Lookup(mem, r, w) == None {
      WalkSamePage(mem, r, v, w, 4);
      if r != root {
        UpperAgrees(mem, pos, higher, r, root, v);
      }
    }
  }

  lemma NewMapPlaces(mem: Mem, pos: map<nat, Pos>, higher: seq<nat>, n: nat)
    requires Inv(mem, pos, higher) && n !in mem
    ensures KeepsPlaces(mem, pos, AddMap(mem, n, higher), pos[n := Root(n)])
      && IsMap(AddMap(mem, n, higher), pos[n := Root(n)], n)
  {
  }

  /** A new address space: others translate as before, its own lower half is empty. */
  lemma NewMapLookups(mem: Mem, pos: map<nat, Pos>, higher: seq<nat>, n: nat)
    requires Inv(mem, pos, higher) && n !in mem
    ensures SameLookups(mem, AddMap(mem, n, higher), pos)
    ensures forall w: nat :: !UpperHalf(w) ==> Lookup(AddMap(mem, n, higher), n, w) == None
  {
    ZeroEntry();
    var mem' := AddMap(mem, n, higher);
    forall r: nat, w: nat | IsMap(mem, pos, r) ensures Lookup(mem', r, w) == Lookup(mem, r, w) {
      NewMapWalks(mem, pos, higher, n, r, w, 4);
    }
    forall w: nat | !UpperHalf(w) ensures Lookup(mem', n, w) == None {
      assert mem'[n][Idx(w, 4)] == 0;
    }
  }

  ghost predicate Zeroed(t: seq<nat>) {
    forall i :: 0 <= i < |t| ==> t[i] == 0
  }

  /** The state while arch_ptm_init fills in the upper half: i empty tables, no maps yet. */
  ghost predicate Booting(mem: Mem, pos: map<nat, Pos>, higher: seq<nat>) {
    && Tables(mem, pos) && |higher| <= 256
    && (forall f :: f in mem ==> f in pos && pos[f].Upper? && Zeroed(mem[f]))
    && (forall k :: 0 <= k < |higher| ==>
        Present(higher[k]) && EntryAddr(higher[k]) in pos && pos[EntryAddr(higher[k])] == Upper(256 + k))
    && (forall k :: 0 <= k < |higher| ==> FlagBits(higher[k]) == KERNEL_FLAGS)
  }

  lemma BootStep(mem: Mem, pos: map<nat, Pos>, higher: seq<nat>, n: nat, e: nat)
    requires Booting(mem, pos, higher) && |higher| < 256 && n !in mem && n % PAGE == 0 && n < PHYS_LIMIT
    requires Present(e) && EntryAddr(e) == n && FlagBits(e) == KERNEL_FLAGS
    ensures Booting(AddTable(mem, n), pos[n := Upper(256 + |higher|)], higher + [e])
  {
    var higher' := higher + [e];
    assert forall k :: 0 <= k < |higher| ==> higher'[k] == higher[k];
  }

  lemma BootDone(mem: Mem, pos: map<nat, Pos>, higher: seq<nat>)
    requires Booting(mem, pos, higher) && |higher| == 256
    ensures Inv(mem, pos, higher) && forall r: nat :: !IsMap(mem, pos, r)
  {
    ZeroEntry();
  }

  // ---- who may use a translation

  /** Entries are open to user mode, except those that lead to the upper half. */
  ghost predicate Perms(mem: Mem, pos: map<nat, Pos>, higher: seq<nat>) {
    && (forall f, i :: f in mem && f in pos && 0 <= i < |mem[f]| && Present(mem[f][i]) ==>
          FlagBits(mem[f][i]) == if pos[f].Root? && i >= 256 then KERNEL_FLAGS else USER_FLAGS)
    && (forall k :: 0 <= k < |higher| ==> FlagBits(higher[k]) == KERNEL_FLAGS)
  }

  lemma GrownPerms(mem: Mem, pos: map<nat, Pos>, higher: seq<nat>, f: nat, i: nat, n: nat)
    requires Inv(mem, pos, higher) && Perms(mem, pos, higher) && f in mem && i < 512 && !Present(mem[f][i])
    requires n !in mem && n % PAGE == 0
    ensures Perms(Put(AddTable(mem, n), f, i, UserEntry(n)), pos[n := Child(pos[f], i)], higher)
  {
    UserEntryFields(n);
    ZeroEntry();
    if pos[f].Root? {
      UpperPresent(mem, pos, higher, f, i);
    }
    hide Present, FlagBits, UserEntry, EntryAddr, Inv;
  }

  lemma LeafPerms(mem: Mem, pos: map<nat, Pos>, higher: seq<nat>, g: nat, i: nat, e: nat)
    requires Perms(mem, pos, higher) && g in mem && g in pos && i < |mem[g]| && Level(pos[g]) == 1
    requires Present(e) ==> FlagBits(e) == USER_FLAGS
    ensures Perms(Put(mem, g, i, e), pos, higher)
  {
    hide Present, FlagBits;
  }

  lemma NewMapPerms(mem: Mem, pos: map<nat, Pos>, higher: seq<nat>, n: nat)
    requires Perms(mem, pos, higher) && n !in mem && |higher| == 256
    ensures Perms(AddMap(mem, n, higher), pos[n := Root(n)], higher)
  {
    ZeroEntry();
    hide Present, FlagBits;
  }

  lemma BootPerms(mem: Mem, pos: map<nat, Pos>, higher: seq<nat>)
    requires Booting(mem, pos, higher)
    ensures Perms(mem, pos, higher)
  {
    ZeroEntry();
    hide Present, FlagBits;
  }

  /** Every entry on the way of v carries the flags. */
  ghost predicate AllFlagged(mem: Mem, f: nat, v: nat, level: nat, flags: nat)
    requires 1 <= level <= 4
    decreases level
  {
    && f in mem && |mem[f]| == 512 && FlagBits(mem[f][Idx(v, level)]) == flags
    && (level > 1 ==> AllFlagged(mem, EntryAddr(mem[f][Idx(v, level)]), v, level - 1, flags))
  }

  lemma {:induction false} OpenBelow(mem: Mem, pos: map<nat, Pos>, higher: seq<nat>, f: nat, v: nat, level: nat)
    requires 1 <= level <= 4 && Inv(mem, pos, higher) && Perms(mem, pos, higher)
    requires f in mem && Level(pos[f]) == level && (level == 4 ==> pos[f].Root? && !UpperHalf(v))
    requires Walk(mem, f, v, level).Some?
    ensures AllFlagged(mem, f, v, level, USER_FLAGS)
    decreases level
  {
    var e := mem[f][Idx(v, level)];
    assert Present(e) && (pos[f].Root? ==> level == 4);
    if level > 1 {
      assert pos[EntryAddr(e)] == Child(pos[f], Idx(v, level));
      hide Perms, Inv, Present, EntryAddr, FlagBits;
      OpenBelow(mem, pos, higher, EntryAddr(e), v, level - 1);
    }
  }

  /**
   A mapped lower-half page is writable and open to user mode at every level; the way to any upper-half page is closed
   to user mode at the first.
   */
  lemma WhoMayUse(mem: Mem, pos: map<nat, Pos>, higher: seq<nat>, r: nat, v: nat)
    requires Inv(mem, pos, higher) && Perms(mem, pos, higher) && IsMap(mem, pos, r)
    ensures !UpperHalf(v) && Lookup(mem, r, v).Some? ==> AllFlagged(mem, r, v, 4, USER_FLAGS)
    ensures UpperHalf(v) ==> FlagBits(mem[r][Idx(v, 4)]) == KERNEL_FLAGS
  {
    if UpperHalf(v) {
      var i := Idx(v, 4);
      assert mem[r][i] == mem[r][256..][i - 256] == higher[i - 256];
    } else if Lookup(mem, r, v).Some? {
      OpenBelow(mem, pos, higher, r, v, 4);
    }
  }
}
