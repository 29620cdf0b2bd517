/** What runs of heap calls do to the eight caches together. */
module HeapRuns {
  import opened Slabs
  import opened SizeClasses
  import opened KmemRuns

  /** An object that a caller holds, and its class. */
  datatype Item = Item(order: nat, obj: nat)

  /** An allocation of a size, or a free of the k-th object held. */
  datatype HeapCall = AllocSize(size: nat, cpu: nat) | FreeItem(cpu: nat, k: nat)

  datatype HeapState = HeapState(views: seq<View>, held: seq<Item>)

  /** The callers hold exactly these, at as many addresses. */
  ghost predicate Holding(s: HeapState) {
    && (forall i, j :: 0 <= i < j < |s.held| ==> s.held[i].obj != s.held[j].obj)
    && (forall i :: 0 <= i < |s.held| ==> IsOut(s.views, s.held[i]))
    && (forall c: nat, o: nat :: IsOut(s.views, Item(c, o)) ==> Item(c, o) in s.held)
  }

  ghost predicate IsOut(views: seq<View>, it: Item) {
    it.order < |views| && it.obj in views[it.order].where && views[it.order].where[it.obj] == Held
  }

  ghost predicate AllSettled(s: HeapState) {
    |s.views| == CLASSES && (forall c :: 0 <= c < CLASSES ==> Seated(s.views[c])) && Holding(s)
  }

  ghost predicate Alone(views: seq<View>, views': seq<View>, k: nat) {
    |views'| == |views| && forall c :: 0 <= c < |views| && c != k ==> views'[c] == views[c]
  }

  ghost predicate Allocates(size: nat, cpu: nat, s: HeapState, s': HeapState) {
    var k, n := Order(size), |s.held|;
    && 0 <= k < |s.views| && Alone(s.views, s'.views, k) && |s'.held| == n + 1 && s.held <= s'.held
    && s'.held[n].order == k && AllocStep(cpu, s.views[k], s'.views[k], s'.held[n].obj)
  }

  ghost predicate Frees(cpu: nat, i: nat, s: HeapState, s': HeapState)
    requires i < |s.held|
  {
    var it := s.held[i];
    && it.order < |s.views| && Alone(s.views, s'.views, it.order) && s'.held == Without(s.held, i)
    && FreeStep(cpu, s.views[it.order], s'.views[it.order], it.obj)
  }

  /**
   What a call must do; one that names no CPU or no held object does nothing, and one above 1024 bytes has no answer.
   */
  ghost predicate Served(call: HeapCall, s: HeapState, s': HeapState) {
    if call.cpu < MAX_CPUS && call.AllocSize? then call.size <= 1024 && Allocates(call.size, call.cpu, s, s')
    else if call.cpu < MAX_CPUS && call.k < |s.held| then Frees(call.cpu, call.k, s, s')
    else s' == s
  }

  /** The call is a free that finds no room in the magazines of its class. */
  ghost predicate Wastes(call: HeapCall, s: HeapState) {
    && call.FreeItem? && call.cpu < MAX_CPUS && call.k < |s.held| && s.held[call.k].order < |s.views|
    && Cramped(s.views[s.held[call.k].order], call.cpu)
  }

  ghost predicate AnyLostIn(views: seq<View>) { exists c :: 0 <= c < |views| && AnyLost(views[c].where) }

  ghost predicate HeapTraced(calls: seq<HeapCall>, trace: seq<HeapState>) {
    && |trace| == |calls| + 1
    && (forall i :: 0 <= i <= |calls| ==> AllSettled(trace[i]))
    && forall i :: 0 <= i < |calls| ==> Served(calls[i], trace[i], trace[i + 1])
  }

  ghost predicate SomeWaste(calls: seq<HeapCall>, trace: seq<HeapState>)
    requires |trace| == |calls| + 1
  {
    exists i :: 0 <= i < |calls| && Wastes(calls[i], trace[i])
  }

  lemma LostThere(views: seq<View>, views': seq<View>, k: nat, lost: bool)
    requires k < |views| && Alone(views, views', k)
    requires AnyLost(views'[k].where) <==> AnyLost(views[k].where) || lost
    ensures AnyLostIn(views') <==> AnyLostIn(views) || lost
  {
    hide AnyLost;
    if AnyLostIn(views) {
      var c :| 0 <= c < |views| && AnyLost(views[c].where);
      assert AnyLost(views'[c].where);
    }
    if AnyLostIn(views') {
      var c :| 0 <= c < |views'| && AnyLost(views'[c].where);
      assert c != k ==> AnyLost(views[c].where);
    }
  }

  /** A call loses objects exactly if it is a free that finds no room. */
  lemma ServedLoses(call: HeapCall, s: HeapState, s': HeapState)
    requires AllSettled(s) && Served(call, s, s')
    ensures AnyLostIn(s'.views) <==> AnyLostIn(s.views) || Wastes(call, s)
  {
    hide Seated, AnyLost, AllocMoves, FreeMoves, Cramped, Order, AnyLostIn;
    if call.cpu < MAX_CPUS && call.AllocSize? {
      var k, n := Order(call.size), |s.held|;
      AllocLosesNone(s.views[k].where, s'.views[k].where, s'.held[n].obj);
      LostThere(s.views, s'.views, k, false);
    } else if call.cpu < MAX_CPUS && call.k < |s.held| {
      var it := s.held[call.k];
      assert IsOut(s.views, it);
      FreeLoses(call.cpu, s.views[it.order], s'.views[it.order], it.obj);
      LostThere(s.views, s'.views, it.order, Cramped(s.views[it.order], call.cpu));
    }
  }

  /** An allocation whose address nobody holds yet. */
  lemma HoldsItem(size: nat, cpu: nat, s: HeapState, s': HeapState)
    requires Holding(s) && Allocates(size, cpu, s, s')
    requires forall i :: 0 <= i < |s.held| ==> s.held[i].obj != s'.held[|s.held|].obj
    ensures Holding(s')
  {
    hide Order, AllocMoves;
    var n, k := |s.held|, s'.held[|s.held|].order;
    var it := s'.held[n];
    assert s'.held == s.held + [it];
    forall i | 0 <= i < |s'.held| ensures IsOut(s'.views, s'.held[i]) {
      if i < n {
        assert s'.held[i] == s.held[i] && IsOut(s.views, s.held[i]);
      }
    }
    forall c: nat, o: nat | IsOut(s'.views, Item(c, o)) ensures Item(c, o) in s'.held {
      if Item(c, o) != it {
        assert IsOut(s.views, Item(c, o));
      }
    }
  }

  lemma DropsItem(cpu: nat, i: nat, s: HeapState, s': HeapState)
    requires Holding(s) && i < |s.held| && Frees(cpu, i, s, s')
    ensures Holding(s')
  {
    hide FreeMoves, Cramped;
    var it := s.held[i];
    forall j | 0 <= j < |s'.held| ensures s'.held[j] == s.held[if j < i then j else j + 1] {
    }
    forall j | 0 <= j < |s'.held| ensures IsOut(s'.views, s'.held[j]) {
      var x := s.held[if j < i then j else j + 1];
      assert IsOut(s.views, x) && x.obj != it.obj;
    }
    forall c: nat, o: nat | IsOut(s'.views, Item(c, o)) ensures Item(c, o) in s'.held {
      assert IsOut(s.views, Item(c, o));
      var j :| 0 <= j < |s.held| && s.held[j] == Item(c, o);
      assert j != i;
      assert s'.held[if j < i then j else j - 1] == Item(c, o);
    }
  }

  lemma HeapTracedMore(calls: seq<HeapCall>, trace: seq<HeapState>, call: HeapCall, s: HeapState, s': HeapState)
    requires HeapTraced(calls, trace) && trace[|calls|] == s && Served(call, s, s') && AllSettled(s')
    ensures HeapTraced(calls + [call], trace + [s'])
    ensures SomeWaste(calls + [call], trace + [s']) <==> SomeWaste(calls, trace) || Wastes(call, s)
  {
    hide Served, Wastes, AllSettled;
    var calls', trace' := calls + [call], trace + [s'];
    assert calls'[|calls|] == call && trace'[|calls|] == s && trace'[|calls| + 1] == s';
    forall i | 0 <= i < |calls| ensures Served(calls'[i], trace'[i], trace'[i + 1]) {
      assert calls'[i] == calls[i] && trace'[i] == trace[i] && trace'[i + 1] == trace[i + 1];
    }
    if SomeWaste(calls, trace) {
      var i :| 0 <= i < |calls| && Wastes(calls[i], trace[i]);
      assert Wastes(calls'[i], trace'[i]);
    }
  }
}
