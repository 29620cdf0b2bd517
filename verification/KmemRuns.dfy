/** What runs of allocations and frees do to a slab cache, on what its callers and CPUs can see. */
module KmemRuns {
  import opened Words
  import opened Slabs

  /** Exactly object o has come to a caller; objects of a slab made meanwhile are free. */
  ghost predicate Granted(before: Where, after: Where, o: nat) {
    && o in after && after[o] == Held && (o in before ==> before[o].Free? || before[o].Slot?)
    && (forall q :: q in before && q != o ==> q in after && after[q] == before[q])
    && (forall q :: q in after && q !in before && q != o ==> after[q].Free?)
  }

  /** The callers hold exactly these. */
  ghost predicate HeldAre(where: Where, held: seq<nat>) {
    && Distinct(held) && AllHeld(where, held)
    && forall o :: o in where && where[o] == Held ==> o in held
  }

  ghost predicate AnyLost(where: Where) { exists o :: o in where && where[o] == Lost }

  // ---- the magazines of the CPUs

  /** Where each object is, the magazines, and which CPU has which. */
  datatype View = View(where: Where, mags: Mags, loaded: seq<nat>, previous: seq<nat>, home: map<nat, nat>)

  /** Every CPU has its own magazines, and the slots of those hold exactly the objects that are in a slot. */
  ghost predicate Seated(v: View) {
    |v.loaded| == MAX_CPUS && Homed(v.loaded, v.previous, v.mags, v.home) && Slotted(v.mags, v.home, v.where)
  }

  ghost predicate HasCpu(v: View, cpu: nat) {
    && cpu < |v.loaded| == |v.previous| && v.loaded[cpu] in v.mags && v.previous[cpu] in v.mags
    && Sized(v.mags)
  }

  lemma SeatedHas(v: View, cpu: nat)
    requires Seated(v) && cpu < MAX_CPUS
    ensures HasCpu(v, cpu) && v.loaded[cpu] in v.home
  {
  }

  ghost function Level(v: View, cpu: nat): nat
    requires HasCpu(v, cpu)
  {
    v.mags[v.loaded[cpu]].count
  }

  ghost function Other(v: View, cpu: nat): nat
    requires HasCpu(v, cpu)
  {
    v.mags[v.previous[cpu]].count
  }

  /** A free on the CPU would find its loaded magazine full and the other one not empty. */
  ghost predicate Cramped(v: View, cpu: nat) { HasCpu(v, cpu) && Level(v, cpu) == MAG_SIZE && Other(v, cpu) != 0 }

  /** The magazines whose objects a free on the CPU loses. */
  ghost function Wasted(v: View, cpu: nat): set<nat> {
    if Cramped(v, cpu) then {v.loaded[cpu], v.previous[cpu]} else {}
  }

  ghost predicate Same(v: View, v': View) { v'.loaded == v.loaded && v'.previous == v.previous }

  /** The two magazines of the CPU have changed places; those of the others have not. */
  ghost predicate Swapped(v: View, v': View, cpu: nat)
    requires HasCpu(v, cpu)
  {
    && v'.loaded == v.loaded[cpu := v.previous[cpu]]
    && v'.previous == v.previous[cpu := v.loaded[cpu]]
  }

  /** What an allocation on the CPU does to the magazines. */
  ghost predicate AllocMoves(v: View, v': View, cpu: nat) {
    && HasCpu(v, cpu)
    && var m, q := v.loaded[cpu], v.previous[cpu];
    if Level(v, cpu) > 0 then
      Same(v, v') && v'.mags == v.mags[m := v.mags[m].(count := Level(v, cpu) - 1)]
    else if Other(v, cpu) == MAG_SIZE then
      Swapped(v, v', cpu) && v'.mags == v.mags[q := v.mags[q].(count := MAG_SIZE - 1)]
    else
      Same(v, v') && v'.mags == v.mags
  }

  /** What a free of object o on the CPU does to them. */
  ghost predicate FreeMoves(v: View, v': View, cpu: nat, o: nat) {
    && HasCpu(v, cpu)
    && var m, q := v.loaded[cpu], v.previous[cpu];
    var l := Level(v, cpu);
    if l < MAG_SIZE then
      Same(v, v') && v'.mags == v.mags[m := Mag(l + 1, v.mags[m].objects[l := o])]
    else if Other(v, cpu) == 0 then
      Swapped(v, v', cpu) && v'.mags == v.mags[q := Mag(1, v.mags[q].objects[0 := o])]
    else
      && v'.loaded == v.loaded && v'.previous == v.previous[cpu := m]
      && v'.mags == v.mags[m := Mag(1, v.mags[m].objects[0 := o])]
  }

  ghost predicate NoneFree(where: Where) { forall o :: o in where ==> !where[o].Free? }

  /** A slab is made only if neither the CPU's magazines nor the other slabs have an object to give. */
  ghost predicate Thrifty(cpu: nat, v: View, v': View) {
    || v'.where.Keys == v.where.Keys
    || (HasCpu(v, cpu) && Level(v, cpu) == 0 && Other(v, cpu) != MAG_SIZE && NoneFree(v.where))
  }

  ghost predicate AllocStep(cpu: nat, v: View, v': View, o: nat) {
    Granted(v.where, v'.where, o) && AllocMoves(v, v', cpu) && Thrifty(cpu, v, v')
  }

  ghost predicate FreeStep(cpu: nat, v: View, v': View, o: nat) {
    Returned(v.where, v'.where, o, Wasted(v, cpu)) && FreeMoves(v, v', cpu, o)
  }

  // ---- the branches of the code

  lemma TakesLoaded(cpu: nat, v: View, v': View, o: nat)
    requires HasCpu(v, cpu) && Level(v, cpu) > 0 && Same(v, v') && Granted(v.where, v'.where, o)
    requires v'.where.Keys == v.where.Keys
    requires var m := v.loaded[cpu]; v'.mags == v.mags[m := v.mags[m].(count := Level(v, cpu) - 1)]
    ensures AllocStep(cpu, v, v', o)
  {
  }

  lemma TakesOther(cpu: nat, v: View, v': View, o: nat)
    requires HasCpu(v, cpu) && Level(v, cpu) == 0 && Other(v, cpu) == MAG_SIZE && Swapped(v, v', cpu)
    requires Granted(v.where, v'.where, o) && v'.where.Keys == v.where.Keys
    requires var q := v.previous[cpu]; v'.mags == v.mags[q := v.mags[q].(count := MAG_SIZE - 1)]
    ensures AllocStep(cpu, v, v', o)
  {
  }

  lemma TakesFree(cpu: nat, v: View, v': View, o: nat)
    requires HasCpu(v, cpu) && Level(v, cpu) == 0 && Other(v, cpu) != MAG_SIZE && Same(v, v')
    requires Granted(v.where, v'.where, o) && v'.mags == v.mags
    requires v'.where.Keys == v.where.Keys || NoneFree(v.where)
    ensures AllocStep(cpu, v, v', o)
  {
  }

  lemma PutsLoaded(cpu: nat, v: View, v': View, o: nat)
    requires HasCpu(v, cpu) && Level(v, cpu) < MAG_SIZE && Same(v, v') && Returned(v.where, v'.where, o, {})
    requires
      var m, l := v.loaded[cpu], Level(v, cpu);
      v'.mags == v.mags[m := Mag(l + 1, v.mags[m].objects[l := o])]
    ensures FreeStep(cpu, v, v', o)
  {
  }

  lemma PutsOther(cpu: nat, v: View, v': View, o: nat)
    requires HasCpu(v, cpu) && Level(v, cpu) == MAG_SIZE && Other(v, cpu) == 0 && Swapped(v, v', cpu)
    requires Returned(v.where, v'.where, o, {})
    requires var q := v.previous[cpu]; v'.mags == v.mags[q := Mag(1, v.mags[q].objects[0 := o])]
    ensures FreeStep(cpu, v, v', o)
  {
  }

  lemma PutsWasting(cpu: nat, v: View, v': View, o: nat)
    requires HasCpu(v, cpu) && Cramped(v, cpu) && v'.loaded == v.loaded
    requires v'.previous == v.previous[cpu := v.loaded[cpu]]
    requires Returned(v.where, v'.where, o, {v.loaded[cpu], v.previous[cpu]})
    requires
      var m := v.loaded[cpu];
      v'.mags == v.mags[m := v.mags[m].(count := 0)][m := Mag(1, v.mags[m].objects[0 := o])]
    ensures FreeStep(cpu, v, v', o)
  {
  }

  // ---- what a step does to the callers and to the losses

  lemma AllocLosesNone(before: Where, after: Where, o: nat)
    requires Granted(before, after, o)
    ensures AnyLost(after) <==> AnyLost(before)
  {
    if AnyLost(before) {
      var q :| q in before && before[q] == Lost;
      assert q in after && after[q] == Lost;
    }
    if AnyLost(after) {
      var q :| q in after && after[q] == Lost;
      assert q in before && before[q] == Lost;
    }
  }

  /** A free loses objects exactly if it finds no room. */
  lemma FreeLoses(cpu: nat, v: View, v': View, o: nat)
    requires Seated(v) && cpu < MAX_CPUS && FreeStep(cpu, v, v', o) && o in v.where && v.where[o] == Held
    ensures AnyLost(v'.where) <==> AnyLost(v.where) || Cramped(v, cpu)
  {
    SeatedHas(v, cpu);
    if Cramped(v, cpu) {
      var m := v.loaded[cpu];
      var q := v.mags[m].objects[0];
      assert v.where[q] == Slot(m, 0);
      assert v'.where[q] == Lost;
    }
    if AnyLost(v.where) {
      var q :| q in v.where && v.where[q] == Lost;
      assert v'.where[q] == Lost;
    }
  }

  lemma NoneHeld(where: Where)
    ensures Distinct<nat>([]) && AllHeld(where, [])
  {
  }

  lemma HoldsMore(before: Where, after: Where, objs: seq<nat>, o: nat)
    requires Granted(before, after, o) && Distinct(objs) && AllHeld(before, objs)
    ensures Distinct(objs + [o]) && AllHeld(after, objs + [o])
  {
    var t := objs + [o];
    forall i | 0 <= i < |objs| ensures t[i] in after && after[t[i]] == Held && t[i] != o {
      assert t[i] == objs[i];
    }
  }

  lemma HoldOne(before: Where, after: Where, held: seq<nat>, o: nat)
    requires Granted(before, after, o) && HeldAre(before, held)
    ensures HeldAre(after, held + [o])
  {
    HoldsMore(before, after, held, o);
    forall q | q in after && after[q] == Held ensures q in held + [o] {
      if q != o {
        assert q in before && q in held;
      }
    }
  }

  function Without<T>(held: seq<T>, k: nat): seq<T>
    requires k < |held|
  {
    held[..k] + held[k + 1..]
  }

  /** The others, each once. */
  lemma Others(held: seq<nat>, k: nat)
    requires Distinct(held) && k < |held|
    ensures Distinct(Without(held, k)) && forall q :: q in Without(held, k) <==> q in held && q != held[k]
  {
    var rest := Without(held, k);
    assert held == held[..k] + [held[k]] + held[k + 1..];
    forall i, j | 0 <= i < j < |rest| ensures rest[i] != rest[j] {
      assert rest[i] == held[if i < k then i else i + 1];
      assert rest[j] == held[if j < k then j else j + 1];
    }
  }

  lemma GiveBack(before: Where, after: Where, held: seq<nat>, k: nat, gone: set<nat>)
    requires HeldAre(before, held) && k < |held| && Returned(before, after, held[k], gone)
    ensures HeldAre(after, Without(held, k))
  {
    Others(held, k);
    hide Distinct, Without;
    var rest := Without(held, k);
    forall i | 0 <= i < |rest| ensures rest[i] in after && after[rest[i]] == Held {
      assert rest[i] in rest;
    }
    forall q | q in after && after[q] == Held ensures q in rest {
      assert q in before && q in held;
    }
  }

  // ---- runs

  /** An allocation, or a free of the k-th object held. */
  datatype Call = AllocOn(cpu: nat) | FreeOn(cpu: nat, k: nat)

  datatype State = State(view: View, held: seq<nat>)

  /** The call is a free of a held object that finds no room. */
  ghost predicate Spills(call: Call, s: State) {
    call.FreeOn? && call.cpu < MAX_CPUS && call.k < |s.held| && Cramped(s.view, call.cpu)
  }

  /** What a call must do to the state; one that names no CPU or no held object does nothing. */
  ghost predicate Answered(call: Call, s: State, s': State) {
    if call.cpu < MAX_CPUS && call.AllocOn? then
      && |s'.held| == |s.held| + 1 && s.held <= s'.held
      && AllocStep(call.cpu, s.view, s'.view, s'.held[|s.held|])
    else if call.cpu < MAX_CPUS && call.k < |s.held| then
      s'.held == Without(s.held, call.k) && FreeStep(call.cpu, s.view, s'.view, s.held[call.k])
    else
      s' == s
  }

  /** In every state each object is in one place, magazines and places agree, and callers hold what they were given. */
  ghost predicate Settled(s: State) { Seated(s.view) && HeldAre(s.view.where, s.held) }

  /** The states between the calls. */
  ghost predicate Traced(calls: seq<Call>, trace: seq<State>) {
    && |trace| == |calls| + 1
    && (forall i :: 0 <= i <= |calls| ==> Settled(trace[i]))
    && forall i :: 0 <= i < |calls| ==> Answered(calls[i], trace[i], trace[i + 1])
  }

  ghost predicate SomeSpill(calls: seq<Call>, trace: seq<State>)
    requires |trace| == |calls| + 1
  {
    exists i :: 0 <= i < |calls| && Spills(calls[i], trace[i])
  }

  lemma AllocAnswered(call: Call, s: State, s': State, o: nat)
    requires call.AllocOn? && call.cpu < MAX_CPUS && s'.held == s.held + [o] && AllocStep(call.cpu, s.view, s'.view, o)
    ensures Answered(call, s, s')
  {
    hide AllocStep;
  }

  lemma TracedMore(calls: seq<Call>, trace: seq<State>, call: Call, s: State, s': State)
    requires Traced(calls, trace) && trace[|calls|] == s && Answered(call, s, s') && Settled(s')
    ensures Traced(calls + [call], trace + [s'])
    ensures SomeSpill(calls + [call], trace + [s']) <==> SomeSpill(calls, trace) || Spills(call, s)
  {
    hide Answered, Spills, Settled;
    var calls', trace' := calls + [call], trace + [s'];
    assert calls'[|calls|] == call && trace'[|calls|] == s && trace'[|calls| + 1] == s';
    forall i | 0 <= i < |calls| ensures Answered(calls'[i], trace'[i], trace'[i + 1]) {
      assert calls'[i] == calls[i] && trace'[i] == trace[i] && trace'[i + 1] == trace[i + 1];
    }
    if SomeSpill(calls, trace) {
      var i :| 0 <= i < |calls| && Spills(calls[i], trace[i]);
      assert Spills(calls'[i], trace'[i]);
    }
  }

  /** Over a whole run, objects are lost exactly if they were at first or some call spilled. */
  lemma StepLoses(call: Call, s: State, s': State)
    requires Settled(s) && Answered(call, s, s')
    ensures AnyLost(s'.view.where) <==> AnyLost(s.view.where) || Spills(call, s)
  {
    hide Seated, AnyLost, AllocMoves, FreeMoves, Cramped, Distinct;
    if call.cpu < MAX_CPUS && call.AllocOn? {
      AllocLosesNone(s.view.where, s'.view.where, s'.held[|s.held|]);
    } else if call.cpu < MAX_CPUS && call.k < |s.held| {
      FreeLoses(call.cpu, s.view, s'.view, s.held[call.k]);
    }
  }

  // ---- a run that loses objects

  /** Two magazines with l objects in the loaded one and p in the other. */
  ghost predicate Levels(v: View, cpu: nat, l: nat, p: nat) {
    HasCpu(v, cpu) && v.loaded[cpu] != v.previous[cpu] && Level(v, cpu) == l && Other(v, cpu) == p
  }

  lemma AllocLevels(v: View, v': View, cpu: nat, l: nat)
    requires Levels(v, cpu, l, 0) && AllocMoves(v, v', cpu) && Seated(v')
    ensures Levels(v', cpu, if l > 0 then l - 1 else 0, 0)
  {
  }

  lemma FreeLevels(v: View, v': View, cpu: nat, o: nat, l: nat, p: nat)
    requires Levels(v, cpu, l, p) && FreeMoves(v, v', cpu, o) && Seated(v')
    ensures l < MAG_SIZE ==> Levels(v', cpu, l + 1, p)
    ensures l == MAG_SIZE && p == 0 ==> Levels(v', cpu, 1, MAG_SIZE)
  {
  }

  /** As many allocations as overfill two magazines, and then as many frees. */
  const MANY: nat := 2 * MAG_SIZE + 1

  function LeakCalls(): (calls: seq<Call>)
    ensures |calls| == 2 * MANY
    ensures forall i :: 0 <= i < |calls| ==> calls[i] == if i < MANY then AllocOn(0) else FreeOn(0, 0)
  {
    seq(2 * MANY, i => if i < MANY then AllocOn(0) else FreeOn(0, 0))
  }

  /** Where the run stands after i calls. */
  ghost predicate Midway(s: State, i: nat) {
    if i <= MANY then
      |s.held| == i && Levels(s.view, 0, if i < MAG_SIZE then MAG_SIZE - i else 0, 0)
    else
      var j := i - MANY;
      && j <= MANY && |s.held| == MANY - j
      && (j <= MAG_SIZE ==> Levels(s.view, 0, j, 0))
      && (MAG_SIZE < j < MANY ==> Levels(s.view, 0, j - MAG_SIZE, MAG_SIZE))
  }

  lemma MidwayNext(s: State, s': State, i: nat)
    requires i + 1 < 2 * MANY && Midway(s, i) && Settled(s') && Answered(LeakCalls()[i], s, s')
    ensures Midway(s', i + 1)
  {
    hide HeldAre, Granted, Returned, Levels, LeakCalls, AllocMoves, FreeMoves, Seated;
    if i < MANY {
      AllocLevels(s.view, s'.view, 0, if i < MAG_SIZE then MAG_SIZE - i else 0);
    } else {
      var j := i - MANY;
      var l, p := if j <= MAG_SIZE then j else j - MAG_SIZE, if j <= MAG_SIZE then 0 else MAG_SIZE;
      FreeLevels(s.view, s'.view, 0, s.held[0], l, p);
    }
  }

  lemma {:induction false} MidwayAt(trace: seq<State>, i: nat)
    requires Traced(LeakCalls(), trace) && Midway(trace[0], 0) && i < 2 * MANY
    ensures Midway(trace[i], i)
  {
    hide Midway, Answered, Settled, LeakCalls;
    if i > 0 {
      MidwayAt(trace, i - 1);
      MidwayNext(trace[i - 1], trace[i], i - 1);
    }
  }

  /** Every such run from full and empty magazines spills in its last call. */
  lemma LeakSpills(trace: seq<State>)
    requires Traced(LeakCalls(), trace) && Midway(trace[0], 0)
    ensures SomeSpill(LeakCalls(), trace)
  {
    hide Answered, Settled, Traced, LeakCalls;
    var i := 2 * MANY - 1;
    assert |trace| == |LeakCalls()| + 1 by {
      Lengths(trace);
    }
    MidwayAt(trace, i);
    assert Spills(LeakCalls()[i], trace[i]);
  }

  lemma Lengths(trace: seq<State>)
    requires Traced(LeakCalls(), trace)
    ensures |trace| == |LeakCalls()| + 1
  {
  }
}
