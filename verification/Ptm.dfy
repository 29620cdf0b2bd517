/** The page-table manager of kernel/src/arch/x86_64/ptm.c, writing tables in place. */
module Ptm {
  import opened Words
  import opened PageTables

  /** The most tables that a mapping can be missing. */
  const TABLES: nat := 3

  const BAD_ADDRESS: nat := U64_RANGE - 1

  /** Frames that can still be handed out: page-aligned, below the physical limit, none twice. */
  ghost predicate GoodSupply(supply: seq<nat>) {
    && (forall i :: 0 <= i < |supply| ==> supply[i] % PAGE == 0 && supply[i] < PHYS_LIMIT)
    && (forall i, j :: 0 <= i < j < |supply| ==> supply[i] != supply[j])
  }

  /** Tables stay, new ones and what is left of the supply come from the supply, and no frame of it goes missing. */
  ghost predicate Drew(tables0: set<nat>, supply0: seq<nat>, tables: set<nat>, supply: seq<nat>) {
    && (forall f :: f in tables ==> f in tables0 || f in supply0)
    && (forall f :: f in supply ==> f in supply0)
    && tables0 <= tables && (forall f :: f in supply0 ==> f in supply || f in tables)
  }

  lemma DrewMore(t0: set<nat>, s0: seq<nat>, t1: set<nat>, s1: seq<nat>, t2: set<nat>, s2: seq<nat>)
    requires Drew(t0, s0, t1, s1) && Drew(t1, s1, t2, s2)
    ensures Drew(t0, s0, t2, s2)
  {
  }

  lemma DrewFirst(t: set<nat>, s: seq<nat>)
    ensures Drew(t, s, t, s) && (|s| > 0 ==> Drew(t, s, t + {s[0]}, s[1..]))
  {
  }

  class Memory {
    /** Table frames by physical address. */
    var tables: map<nat, array<nat>>
    /** The frames pmm_alloc(0) will return, in order. */
    var supply: seq<nat>
    /** higher_half_entries. */
    var higher: seq<nat>
    ghost var pos: map<nat, Pos>

    ghost function Snap(): Mem
      reads this`tables, tables.Values
    {
      map f | f in tables :: tables[f][..]
    }

    ghost predicate Frames()
      reads this`tables, this`supply
    {
      && (forall f :: f in tables ==> tables[f].Length == 512)
      && (forall f, g :: f in tables && g in tables && f != g ==> tables[f] != tables[g])
      && GoodSupply(supply) && forall i :: 0 <= i < |supply| ==> supply[i] !in tables
    }

    ghost predicate Valid()
      reads this, tables.Values
    {
      Frames() && Inv(Snap(), pos, higher) && Perms(Snap(), pos, higher)
    }

    /** One assignment table[i] = e. */
    method WriteEntry(f: nat, i: nat, e: nat)
      requires Frames() && f in tables && i < 512
      modifies tables[f]
      ensures Snap() == Put(old(Snap()), f, i, e)
    {
      tables[f][i] := e;
      assert tables[f][..] == old(tables[f][..])[i := e];
    }

    /** pmm_alloc(0); none left stands for the allocator's panic. */
    method PopFrame() returns (r: Option<nat>)
      requires Frames()
      modifies this`supply
      ensures Frames() && (r.None? <==> |old(supply)| == 0)
      ensures r.None? ==> supply == old(supply)
      ensures r.Some? ==> r.value == old(supply)[0] && supply == old(supply)[1..]
      ensures r.Some? ==> r.value !in tables && r.value !in supply && r.value % PAGE == 0 && r.value < PHYS_LIMIT
    {
      if |supply| == 0 {
        return None;
      }
      r := Some(supply[0]);
      supply := supply[1..];
    }

    method TakeFrame() returns (r: Option<nat>)
      requires Valid()
      modifies this`supply
      ensures Valid() && (r.None? <==> |old(supply)| == 0) && (r.None? ==> supply == old(supply))
      ensures r.Some? ==> r.value == old(supply)[0] && supply == old(supply)[1..]
      ensures r.Some? ==> r.value !in tables && r.value !in supply && r.value % PAGE == 0 && r.value < PHYS_LIMIT
    {
      ghost var mem := Snap();
      r := PopFrame();
      assert Snap() == mem;
    }

    /** A frame turned into a table of the given entries. */
    method InstallTable(n: nat, t: array<nat>)
      requires Frames() && n !in tables && n !in supply
      requires t.Length == 512 && t !in tables.Values
      modifies this`tables
      ensures Frames() && tables == old(tables)[n := t] && Snap() == old(Snap())[n := t[..]]
    {
      tables := tables[n := t];
    }

    /** memset of a fresh frame. */
    method ZeroTable(n: nat)
      requires Frames() && n !in tables && n !in supply
      modifies this`tables
      ensures Frames() && tables.Keys == old(tables).Keys + {n} && Snap() == AddTable(old(Snap()), n)
      ensures fresh(tables.Values - old(tables).Values) && forall f :: f in old(tables) ==> tables[f] == old(tables)[f]
    {
      var t := new nat[512](_ => 0);
      assert t[..] == seq(512, _ => 0);
      InstallTable(n, t);
    }

    /** A zeroed table frame for the given place. */
    method AllocTable(ghost p: Pos) returns (r: Option<nat>)
      requires Frames()
      modifies this`tables, this`supply, this`pos
      ensures Frames() && (r.None? <==> |old(supply)| == 0)
      ensures r.None? ==> tables == old(tables) && supply == old(supply) && pos == old(pos)
      ensures r.Some? ==> r.value == old(supply)[0] && supply == old(supply)[1..] && r.value !in old(tables)
      ensures r.Some? ==> Snap() == AddTable(old(Snap()), r.value) && pos == old(pos)[r.value := p]
      ensures r.Some? ==> tables.Keys == old(tables).Keys + {r.value}
      ensures r.Some? ==> fresh(tables.Values - old(tables).Values) && forall f :: f in old(tables) ==>
        f in tables && tables[f] == old(tables)[f]
    {
      ghost var mem := Snap();
      r := PopFrame();
      if r.Some? {
        pos := pos[r.value := p];
        assert Snap() == mem;
        ZeroTable(r.value);
      }
    }

    /** Lines 33-36: a new empty table behind an absent entry. */
    method Grow(f: nat, i: nat) returns (r: Option<nat>)
      requires Frames() && f in tables && f in pos && i < 512
      modifies this`tables, this`supply, this`pos, tables.Values
      ensures Frames() && fresh(tables.Values - old(tables).Values)
      ensures r.None? <==> |old(supply)| == 0
      ensures r.None? ==> tables == old(tables) && supply == old(supply) && pos == old(pos) && Snap() == old(Snap())
      ensures r.Some? ==> r.value !in old(tables) && r.value == old(supply)[0] && supply == old(supply)[1..]
      ensures r.Some? ==> Snap() == Put(AddTable(old(Snap()), r.value), f, i, UserEntry(r.value))
      ensures r.Some? ==> pos == old(pos)[r.value := Child(old(pos)[f], i)]
      ensures r.Some? ==> tables.Keys == old(tables).Keys + {r.value}
    {
      assert tables[f] in tables.Values;
      r := AllocTable(Child(pos[f], i));
      if r.Some? {
        WriteEntry(f, i, UserEntry(r.value));
      }
    }

    /** get_next_level without allocation: follows a present entry. */
    method NextLevel(f: nat, i: nat) returns (r: Option<nat>)
      requires Valid() && f in tables && i < 512 && Level(pos[f]) > 1
      ensures r == if Present(Snap()[f][i]) then Some(EntryAddr(Snap()[f][i])) else None
      ensures r.Some? ==> Descended(Snap(), pos, Snap(), pos, higher, f, i, r.value)
    {
      var e := tables[f][i];
      assert Snap()[f][i] == e;
      if Present(e) {
        DescendPresent(Snap(), pos, higher, f, i);
        return Some(EntryAddr(e));
      }
      return None;
    }

    lemma FirstGood()
      requires Frames() && |supply| > 0
      ensures supply[0] !in tables && supply[0] % PAGE == 0 && supply[0] < PHYS_LIMIT
    {
    }

    /** The allocating half of get_next_level. */
    method GrowLevel(f: nat, i: nat) returns (r: Option<nat>)
      requires Valid() && f in tables && i < 512 && Level(pos[f]) > 1 && !Present(Snap()[f][i])
      modifies this`tables, this`supply, this`pos, tables.Values
      ensures Valid() && fresh(tables.Values - old(tables).Values)
      ensures r.Some? ==> Descended(old(Snap()), old(pos), Snap(), pos, higher, f, i, r.value)
      ensures r.None? <==> |old(supply)| == 0
      ensures r.None? ==> pos == old(pos) && Snap() == old(Snap())
      ensures supply == if r.None? then old(supply) else old(supply)[1..]
      ensures Drew(old(tables).Keys, old(supply), tables.Keys, supply)
    {
      ghost var mem := Snap();
      assert f in mem && f in pos;
      if |supply| > 0 {
        FirstGood();
      }
      hide Drew, Inv, Perms, Frames, Put, AddTable, SameLookups, Present;
      DrewFirst(tables.Keys, supply);
      r := Grow(f, i);
      if r.Some? {
        GrownPerms(mem, old(pos), higher, f, i, r.value);
        DescendGrown(mem, old(pos), higher, f, i, r.value);
      }
    }

    lemma TableSize(f: nat)
      requires Valid() && f in tables
      ensures f in Snap() && |Snap()[f]| == 512
    {
    }

    /** get_next_level with allocation: an absent entry is filled with a new empty table. */
    method NextLevelAlloc(f: nat, i: nat) returns (r: Option<nat>)
      requires Valid() && f in tables && i < 512 && Level(pos[f]) > 1
      modifies this`tables, this`supply, this`pos, tables.Values
      ensures Valid() && fresh(tables.Values - old(tables).Values)
      ensures r.Some? ==> Descended(old(Snap()), old(pos), Snap(), pos, higher, f, i, r.value)
      ensures r.None? <==> |old(supply)| == 0 && !Present(old(Snap())[f][i])
      ensures r.None? ==> pos == old(pos) && Snap() == old(Snap())
      ensures supply == if r.None? || Present(old(Snap())[f][i]) then old(supply) else old(supply)[1..]
      ensures Drew(old(tables).Keys, old(supply), tables.Keys, supply)
    {
      hide Drew, Valid, Descended, Present;
      TableSize(f);
      r := NextLevel(f, i);
      if r.Some? {
        DrewFirst(tables.Keys, supply);
      } else {
        r := GrowLevel(f, i);
      }
    }

    /** The walk of virt from root stands at the given table; no translation has changed since mem0. */
    ghost predicate Walking(mem0: Mem, pos0: map<nat, Pos>, root: nat, virt: nat, table: nat, level: nat)
      requires 1 <= level <= 4
      reads this, tables.Values
    {
      Valid() && OnWay(mem0, pos0, Snap(), pos, root, virt, table, level)
    }

    /** Walking, with every new table drawn from the supply there was at first. */
    ghost predicate Growing(mem0: Mem, pos0: map<nat, Pos>, keys0: set<nat>, supply0: seq<nat>, root: nat, virt: nat,
                            table: nat, level: nat)
      requires 1 <= level <= 4
      reads this, tables.Values
    {
      Walking(mem0, pos0, root, virt, table, level) && Drew(keys0, supply0, tables.Keys, supply)
    }

    /** The supply ran out: tables may have been added, but nothing observable changed. */
    ghost predicate Stuck(mem0: Mem, pos0: map<nat, Pos>, keys0: set<nat>, supply0: seq<nat>)
      reads this, tables.Values
    {
      && Valid() && |supply| == 0 && SameLookups(mem0, Snap(), pos0) && KeepsPlaces(mem0, pos0, Snap(), pos)
      && Drew(keys0, supply0, tables.Keys, supply)
    }

    method DescendAlloc(root: nat, virt: nat, table: nat, level: nat,
                        ghost mem0: Mem, ghost pos0: map<nat, Pos>, ghost keys0: set<nat>, ghost supply0: seq<nat>)
      returns (r: Option<nat>)
      requires 2 <= level <= 4 && Growing(mem0, pos0, keys0, supply0, root, virt, table, level)
      modifies this`tables, this`supply, this`pos, tables.Values
      ensures fresh(tables.Values - old(tables).Values)
      ensures r.Some? ==> Growing(mem0, pos0, keys0, supply0, root, virt, r.value, level - 1)
      ensures r.None? ==> Stuck(mem0, pos0, keys0, supply0)
      ensures |supply| <= |old(supply)| <= |supply| + 1 && (r.None? ==> supply == old(supply) == [])
    {
      ghost var mem, keys, left := Snap(), tables.Keys, supply;
      hide Drew;
      r := NextLevelAlloc(table, Idx(virt, level));
      DrewMore(keys0, supply0, keys, left, tables.Keys, supply);
      if r.Some? {
        OnWayStep(mem0, pos0, mem, old(pos), Snap(), pos, higher, root, virt, table, level, r.value);
      }
    }

    method Descend(root: nat, virt: nat, table: nat, level: nat) returns (r: Option<nat>)
      requires 2 <= level <= 4 && Walking(Snap(), pos, root, virt, table, level)
      ensures r.Some? ==> Walking(Snap(), pos, root, virt, r.value, level - 1)
      ensures r.None? ==> !Present(Snap()[table][Idx(virt, level)])
    {
      r := NextLevel(table, Idx(virt, level));
      if r.Some? {
        OnWayStep(Snap(), pos, Snap(), pos, Snap(), pos, higher, root, virt, table, level, r.value);
      }
    }

    /** The walk down to the level-1 table, shared by lookup and unmapping; none if a level is missing. */
    method FindLeafTable(root: nat, virt: nat) returns (r: Option<nat>)
      requires Valid() && IsMap(Snap(), pos, root)
      ensures r.Some? ==> Walking(Snap(), pos, root, virt, r.value, 1)
      ensures r.None? ==> LeafChanged(Snap(), pos, Snap(), root, virt, None)
    {
      var table, level := root, 4;
      while level >= 2
        invariant 1 <= level <= 4
        invariant Walking(Snap(), pos, root, virt, table, level)
      {
        var next := Descend(root, virt, table, level);
        if next.None? {
          BrokenWay(Snap(), pos, higher, root, virt, table, level);
          return None;
        }
        table := next.value;
        level := level - 1;
      }
      return Some(table);
    }

    /** arch_ptm_virt_to_phys. */
    method VirtToPhys(root: nat, virt: nat) returns (phys: nat)
      requires Valid() && IsMap(Snap(), pos, root)
      ensures phys == match Lookup(Snap(), root, virt) case None => BAD_ADDRESS case Some(p) => p + virt % PAGE
    {
      var table := FindLeafTable(root, virt);
      if table.None? {
        return BAD_ADDRESS;
      }
      ReachesWalk(Snap(), root, virt, 4, table.value, 1);
      var e := tables[table.value][Idx(virt, 1)];
      assert Snap()[table.value][Idx(virt, 1)] == e;
      if !Present(e) {
        return BAD_ADDRESS;
      }
      return EntryAddr(e) + virt % PAGE;
    }

    /** arch_ptm_unmap with 4 KiB pages. */
    method Unmap(root: nat, virt: nat)
      requires Valid() && IsMap(Snap(), pos, root) && virt % PAGE == 0
      modifies tables.Values
      ensures Valid() && LeafChanged(old(Snap()), pos, Snap(), root, virt, None)
    {
      ghost var mem := Snap();
      var table := FindLeafTable(root, virt);
      if table.Some? {
        ZeroEntry();
        WriteLeaf(root, virt, table.value, 0, mem, pos);
      }
    }

    /** arch_ptm_map with 4 KiB pages; false stands for the allocator's panic, before the mapping is made. */
    method Map(root: nat, virt: nat, phys: nat) returns (ok: bool)
      requires Valid() && IsMap(Snap(), pos, root) && virt % PAGE == 0 && phys % PAGE == 0
      modifies this`tables, this`supply, this`pos, tables.Values
      ensures Valid() && fresh(tables.Values - old(tables).Values)
      ensures KeepsPlaces(old(Snap()), old(pos), Snap(), pos)
      ensures ok ==> LeafChanged(old(Snap()), old(pos), Snap(), root, virt, Some(PhysBits(phys)))
      ensures !ok ==> SameLookups(old(Snap()), Snap(), old(pos)) && |supply| == 0
      ensures |supply| <= |old(supply)| <= |supply| + TABLES && (|old(supply)| >= TABLES ==> ok)
      ensures Drew(old(tables).Keys, old(supply), tables.Keys, supply)
    {
      ghost var mem0, pos0 := Snap(), pos;
      var table := FindLeafAlloc(root, virt);
      if table.None? {
        return false;
      }
      UserEntryFields(phys);
      WriteLeaf(root, virt, table.value, UserEntry(phys), mem0, pos0);
      ok := true;
    }

    lemma AtTop(root: nat, virt: nat)
      requires Valid() && IsMap(Snap(), pos, root)
      ensures Growing(Snap(), pos, tables.Keys, supply, root, virt, root, 4)
    {
      DrewFirst(tables.Keys, supply);
    }

    /** Lines 66-71: the level-1 table, with missing levels filled in on the way. */
    method FindLeafAlloc(root: nat, virt: nat) returns (r: Option<nat>)
      requires Valid() && IsMap(Snap(), pos, root)
      modifies this`tables, this`supply, this`pos, tables.Values
      ensures Valid() && fresh(tables.Values - old(tables).Values)
      ensures r.Some? ==> Walking(old(Snap()), old(pos), root, virt, r.value, 1)
      ensures r.None? ==> SameLookups(old(Snap()), Snap(), old(pos))
      ensures r.None? ==> KeepsPlaces(old(Snap()), old(pos), Snap(), pos) && |supply| == 0
      ensures |supply| <= |old(supply)| <= |supply| + TABLES && (|old(supply)| >= TABLES ==> r.Some?)
      ensures Drew(old(tables).Keys, old(supply), tables.Keys, supply)
    {
      hide Drew, Valid, OnWay, SameLookups, KeepsPlaces, IsMap;
      ghost var mem0, pos0, keys0, supply0 := Snap(), pos, tables.Keys, supply;
      AtTop(root, virt);
      r := Some(root);
      var level := 4;
      while level >= 2 && r.Some?
        invariant 1 <= level <= 4 && fresh(tables.Values - old(tables).Values)
        invariant r.Some? ==> Growing(mem0, pos0, keys0, supply0, root, virt, r.value, level)
        invariant r.None? ==> Stuck(mem0, pos0, keys0, supply0)
        invariant |supply| <= |supply0| <= |supply| + 4 - level
        invariant r.None? ==> |supply0| < 4 - level
      {
        hide Growing, Stuck;
        r := DescendAlloc(root, virt, r.value, level, mem0, pos0, keys0, supply0);
        level := level - 1;
      }
    }

    method WriteLeaf(root: nat, virt: nat, table: nat, e: nat, ghost mem0: Mem, ghost pos0: map<nat, Pos>)
      requires Walking(mem0, pos0, root, virt, table, 1) && (Present(e) ==> FlagBits(e) == USER_FLAGS)
      modifies tables.Values
      ensures Valid()
      ensures KeepsPlaces(mem0, pos0, Snap(), pos)
      ensures LeafChanged(mem0, pos0, Snap(), root, virt, if Present(e) then Some(EntryAddr(e)) else None)
    {
      LeafDone(mem0, pos0, Snap(), pos, higher, root, virt, table, e);
      LeafPerms(Snap(), pos, higher, table, Idx(virt, 1), e);
      WriteEntry(table, Idx(virt, 1), e);
    }

    /** arch_ptm_new_map; none stands for the allocator's panic. */
    method NewMap() returns (r: Option<nat>)
      requires Valid()
      modifies this`tables, this`supply, this`pos
      ensures Valid() && fresh(tables.Values - old(tables).Values)
      ensures r.None? <==> |old(supply)| == 0
      ensures r.None? ==> supply == old(supply) && tables == old(tables) && pos == old(pos) && Snap() == old(Snap())
      ensures r.Some? ==> r.value == old(supply)[0] && supply == old(supply)[1..]
      ensures r.Some? ==> r.value !in old(tables) && IsMap(Snap(), pos, r.value)
      ensures r.Some? ==> SameLookups(old(Snap()), Snap(), old(pos)) && KeepsPlaces(old(Snap()), old(pos), Snap(), pos)
      ensures Drew(old(tables).Keys, old(supply), tables.Keys, supply)
      ensures r.Some? ==> forall w: nat :: !UpperHalf(w) ==> Lookup(Snap(), r.value, w) == None
    {
      ghost var mem := Snap();
      assert |higher| == 256;
      if |supply| > 0 {
        FirstGood();
      }
      hide Drew, Inv, Perms, Frames, AddMap, SameLookups, Lookup, UpperHalf;
      DrewFirst(tables.Keys, supply);
      r := AllocMap();
      if r.Some? {
        NewMapKeeps(mem, old(pos), higher, r.value);
        NewMapPerms(mem, old(pos), higher, r.value);
        NewMapLookups(mem, old(pos), higher, r.value);
        NewMapPlaces(mem, old(pos), higher, r.value);
      }
    }

    method AllocMap() returns (r: Option<nat>)
      requires Frames() && |higher| == 256
      modifies this`tables, this`supply, this`pos
      ensures Frames() && fresh(tables.Values - old(tables).Values) && (r.None? <==> |old(supply)| == 0)
      ensures r.None? ==> tables == old(tables) && supply == old(supply) && pos == old(pos) && Snap() == old(Snap())
      ensures r.Some? ==> r.value !in old(tables) && r.value == old(supply)[0] && supply == old(supply)[1..]
      ensures r.Some? ==> tables.Keys == old(tables).Keys + {r.value}
      ensures r.Some? ==> Snap() == AddMap(old(Snap()), r.value, higher) && pos == old(pos)[r.value := Root(r.value)]
    {
      ghost var mem := Snap();
      r := PopFrame();
      if r.Some? {
        var t := FilledTable();
        pos := pos[r.value := Root(r.value)];
        assert Snap() == mem;
        InstallTable(r.value, t);
      }
    }

    /** Lines 108-111. */
    method FilledTable() returns (t: array<nat>)
      requires |higher| == 256
      ensures fresh(t) && t.Length == 512 && t[..] == seq(256, _ => 0) + higher
    {
      t := new nat[512](_ => 0);
      var i := 0;
      while i < 256
        invariant 0 <= i <= 256
        invariant forall k :: 0 <= k < 256 ==> t[k] == 0
        invariant forall k :: 0 <= k < i ==> t[k + 256] == higher[k]
      {
        t[i + 256] := higher[i];
        i := i + 1;
      }
    }

    constructor Blank(frames: seq<nat>)
      requires GoodSupply(frames)
      ensures Frames() && tables == map[] && pos == map[] && higher == [] && supply == frames
    {
      tables, pos, higher, supply := map[], map[], [], frames;
    }

    lemma BlankBoots()
      requires tables == map[] && pos == map[] && higher == []
      ensures Booting(Snap(), pos, higher)
    {
    }

    /** arch_ptm_init; null stands for its panic, which a frame at address 0 brings about just like a missing one. */
    static method Init(frames: seq<nat>) returns (m: Memory?)
      requires GoodSupply(frames)
      ensures m == null <==> |frames| < 256 || 0 in frames[..256]
      ensures m != null ==> fresh(m) && fresh(m.tables.Values) && m.Valid() && m.supply == frames[256..]
      ensures m != null ==> forall r: nat :: !IsMap(m.Snap(), m.pos, r)
    {
      hide Memory.Frames, Booting, Inv, Perms, GoodSupply;
      var b := new Memory.Blank(frames);
      b.BlankBoots();
      var i := 0;
      while i < 256
        invariant 0 <= i <= 256 && |b.higher| == i <= |frames|
        invariant fresh(b) && fresh(b.tables.Values) && b.supply == frames[i..] && 0 !in frames[..i]
        invariant b.Frames() && Booting(b.Snap(), b.pos, b.higher)
      {
        var ok := b.AddUpper(i);
        if !ok {
          return null;
        }
        i := i + 1;
      }
      BootDone(b.Snap(), b.pos, b.higher);
      BootPerms(b.Snap(), b.pos, b.higher);
      m := b;
    }

    static method MakeKernelEntry(phys: nat) returns (e: nat)
      requires phys % PAGE == 0 && phys < PHYS_LIMIT
      ensures Present(e) && EntryAddr(e) == phys && FlagBits(e) == KERNEL_FLAGS
    {
      KernelEntryFields(phys);
      e := KernelEntry(phys);
    }

    method AddUpper(i: nat) returns (ok: bool)
      requires Frames() && Booting(Snap(), pos, higher) && |higher| == i < 256
      modifies this`tables, this`supply, this`pos, this`higher
      ensures ok <==> |old(supply)| > 0 && old(supply)[0] != 0
      ensures ok ==> Frames() && Booting(Snap(), pos, higher) && |higher| == i + 1 && supply == old(supply)[1..]
      ensures ok ==> fresh(tables.Values - old(tables).Values)
    {
      hide Frames, Booting, AddTable, Present, EntryAddr, FlagBits;
      ghost var mem := Snap();
      if |supply| > 0 {
        FirstGood();
      }
      var phys := AllocTable(Upper(256 + i));
      if phys.None? || phys.value == 0 {
        return false;
      }
      var e := MakeKernelEntry(phys.value);
      ghost var grown := Snap();
      BootStep(mem, old(pos), higher, phys.value, e);
      higher := higher + [e];
      assert Snap() == grown;
      ok := true;
    }
  }
}
