/**
 The run queue of kernel/src/sys/sched.c and the switch of kernel/src/arch/x86_64/sched.asm, as steps of any number of
 cores.
 */
module Sched {
  import opened Words

  type Thread = nat
  type CoreId = nat

  datatype Status = AwaitingCleanup | Blocked | Ready | Running

  /** A thread's status, the core it is assigned to, and whether its context holds the stack pointer it stopped at. */
  datatype Info = Info(status: Status, core: Option<CoreId>, saved: bool)

  /** How far a core is through sched_yield. */
  datatype Phase =
    | Executing
    | Picked(next: Thread, status: Status)  // sched_next has returned, line 84
    | Switching(prev: Thread)               // the thread register is written, line 97
    | Dropping(prev: Thread)                // the stack pointer is saved, sched.asm line 24

  datatype Core = Core(idle: Thread, curr: Thread, phase: Phase)

  datatype System = System(
    cores: map<CoreId, Core>, threads: map<Thread, Info>, queue: seq<Thread>, reaped: seq<Thread>, crashed: bool,
    arrived: seq<Thread>, popped: seq<Thread>)

  datatype Act =
    | Yield(core: CoreId, status: Status)
    | Switch(core: CoreId)
    | Save(core: CoreId)
    | Drop(core: CoreId)
    | Wake(thread: Thread)

  /**
   The threads a core has to itself: its idle thread, the one it runs, the one it picked and the one it is leaving.
   */
  predicate Mine(k: Core, t: Thread) {
    || t == k.idle || t == k.curr
    || (k.phase.Picked? && t == k.phase.next) || ((k.phase.Switching? || k.phase.Dropping?) && t == k.phase.prev)
  }

  ghost predicate Dropped(s: System, t: Thread) {
    t in s.threads && s.threads[t].saved && t !in s.queue && t !in s.reaped && forall c :: c in s.cores ==>
      !Mine(s.cores[c], t)
  }

  /** Callers outside enqueue only threads that are fully dropped or new. */
  ghost predicate Enabled(s: System, a: Act) {
    && !s.crashed
    && match a {
         case Yield(c, status) => c in s.cores && s.cores[c].phase.Executing? && status != Running
         case Switch(c) => c in s.cores && s.cores[c].phase.Picked?
         case Save(c) => c in s.cores && s.cores[c].phase.Switching?
         case Drop(c) => c in s.cores && s.cores[c].phase.Dropping?
         case Wake(t) => Dropped(s, t)
       }
  }

  /** sched_get_curr_thread()->assigned_core->idle_thread on core c. */
  function IdleOf(s: System, c: CoreId): Option<Thread>
    requires c in s.cores
  {
    var t := s.cores[c].curr;
    if t in s.threads && s.threads[t].core.Some? && s.threads[t].core.value in s.cores
    then Some(s.cores[s.threads[t].core.value].idle) else None
  }

  function Enqueue(s: System, t: Thread): System {
    s.(queue := s.queue + [t], arrived := s.arrived + [t])
  }

  /** sched_next. */
  function DoYield(s: System, c: CoreId, status: Status): System
    requires c in s.cores
  {
    var k := s.cores[c];
    if s.queue != [] then
      s.(queue := s.queue[1..], popped := s.popped + [s.queue[0]],
         cores := s.cores[c := k.(phase := Picked(s.queue[0], status))])
    else
      match IdleOf(s, c)
      case Some(idle) => s.(cores := s.cores[c := k.(phase := Picked(idle, status))])
      case None => s.(crashed := true)
  }

  /** Lines 87-97. */
  function DoSwitch(s: System, c: CoreId): System
    requires c in s.cores && s.cores[c].phase.Picked?
  {
    var k := s.cores[c];
    var next := k.phase.next;
    if k.curr !in s.threads || next !in s.threads then s.(crashed := true)
    else if k.curr == next then
      s.(threads := s.threads[next := s.threads[next].(status := Running)],
         cores := s.cores[c := k.(phase := Executing)])
    else
      s.(threads := s.threads[next := s.threads[next].(status := Running, core := s.threads[k.curr].core)]
                             [k.curr := s.threads[k.curr].(status := k.phase.status, core := None)],
         cores := s.cores[c := Core(k.idle, next, Switching(k.curr))])
  }

  /** The outgoing thread's stack pointer is stored, then the incoming one's is loaded. */
  function DoSave(s: System, c: CoreId): System
    requires c in s.cores && s.cores[c].phase.Switching?
  {
    var k := s.cores[c];
    if k.curr !in s.threads || k.phase.prev !in s.threads then s.(crashed := true)
    else
      s.(threads := s.threads[k.phase.prev := s.threads[k.phase.prev].(saved := true)]
                             [k.curr := s.threads[k.curr].(saved := false)],
         cores := s.cores[c := k.(phase := Dropping(k.phase.prev))])
  }

  /** sched_drop of the outgoing thread, called on the incoming thread's stack. */
  function DoDrop(s: System, c: CoreId): System
    requires c in s.cores && s.cores[c].phase.Dropping?
  {
    var k := s.cores[c];
    var prev := k.phase.prev;
    var s' := s.(cores := s.cores[c := k.(phase := Executing)]);
    match IdleOf(s, c)
    case None => s.(crashed := true)
    case Some(idle) =>
      if prev == idle then s'
      else if prev !in s.threads then s.(crashed := true)
      else match s.threads[prev].status
        case AwaitingCleanup => s'.(reaped := s.reaped + [prev])
        case Ready => Enqueue(s', prev)
        case _ => s'
  }

  function Step(s: System, a: Act): System
    requires Enabled(s, a)
  {
    match a
    case Yield(c, status) => DoYield(s, c, status)
    case Switch(c) => DoSwitch(s, c)
    case Save(c) => DoSave(s, c)
    case Drop(c) => DoDrop(s, c)
    case Wake(t) => Enqueue(s, t)
  }

  /** assigned_core names the core a thread runs on, and only then. */
  ghost predicate Assigned(cores: map<CoreId, Core>, th: map<Thread, Info>) {
    forall t :: t in th && th[t].core.Some? ==> th[t].core.value in cores && cores[th[t].core.value].curr == t
  }

  /** Every core runs its idle thread and nothing is queued. */
  ghost predicate Start(s: System) {
    && Assigned(s.cores, s.threads)
    && !s.crashed && s.queue == [] && s.reaped == [] && s.arrived == [] && s.popped == []
    && (forall c :: c in s.cores ==>
          var k := s.cores[c];
          k.curr == k.idle && k.phase == Executing && k.idle in s.threads
          && s.threads[k.idle].core == Some(c) && !s.threads[k.idle].saved)
    && (forall c, d :: c in s.cores && d in s.cores && s.cores[c].idle == s.cores[d].idle ==> c == d)
  }

  // ---- what every step keeps

  ghost predicate Apart(cores: map<CoreId, Core>) {
    forall c, d, t :: c in cores && d in cores && Mine(cores[c], t) && Mine(cores[d], t) ==> c == d
  }

  ghost predicate Off(cores: map<CoreId, Core>, q: seq<Thread>) {
    forall c, t :: c in cores && Mine(cores[c], t) ==> t !in q
  }

  ghost predicate CoreOk(c: CoreId, k: Core, th: map<Thread, Info>) {
    && k.idle in th && k.curr in th && th[k.curr].core == Some(c) && (k.curr == k.idle || th[k.curr].status == Running)
    && (k.idle == k.curr || k.phase == Switching(k.idle) || th[k.idle].saved)
    && (th[k.curr].saved <==> k.phase.Switching?)
    && match k.phase {
         case Executing => true
         case Picked(next, status) =>
           next in th && status != Running && (if next == k.curr then next == k.idle else th[next].saved)
         case Switching(prev) =>
           prev in th && prev != k.curr && th[prev].status != Running && th[k.curr].saved
             && th[k.curr].status == Running
         case Dropping(prev) => prev in th && prev != k.curr && th[prev].status != Running && th[prev].saved
       }
  }

  ghost predicate CoresOk(cores: map<CoreId, Core>, th: map<Thread, Info>) {
    forall c :: c in cores ==> CoreOk(c, cores[c], th)
  }

  ghost predicate Saved(q: seq<Thread>, th: map<Thread, Info>) {
    forall t :: t in q ==> t in th && th[t].saved
  }

  ghost predicate Inv(s: System) {
    && !s.crashed && Apart(s.cores) && Off(s.cores, s.queue + s.reaped) && Distinct(s.queue + s.reaped)
    && CoresOk(s.cores, s.threads) && Assigned(s.cores, s.threads) && Saved(s.queue, s.threads)
    && s.arrived == s.popped + s.queue
  }

  /** Core c hands over to k, which has no thread but its own and perhaps x, a thread no core had. */
  lemma StillApart(cores: map<CoreId, Core>, c: CoreId, k: Core, x: Option<Thread>)
    requires Apart(cores) && c in cores
    requires forall t: Thread :: Mine(k, t) ==> Mine(cores[c], t) || x == Some(t)
    requires x.Some? ==> forall d :: d in cores ==> !Mine(cores[d], x.value)
    ensures Apart(cores[c := k])
  {
    var cores' := cores[c := k];
    forall d, e, t: Thread | d in cores' && e in cores' && Mine(cores'[d], t) && Mine(cores'[e], t) ensures d == e {
      if x != Some(t) {
        assert Mine(cores[d], t) && Mine(cores[e], t);
      }
    }
  }

  lemma StillOff(cores: map<CoreId, Core>, c: CoreId, k: Core, q: seq<Thread>)
    requires Off(cores, q) && c in cores
    requires forall t: Thread :: Mine(k, t) ==> Mine(cores[c], t) || t !in q
    ensures Off(cores[c := k], q)
  {
  }

  /** What a core relies on does not change while its own threads do not. */
  lemma StillOk(c: CoreId, k: Core, th: map<Thread, Info>, th': map<Thread, Info>)
    requires CoreOk(c, k, th)
    requires forall t :: Mine(k, t) && t in th ==> t in th' && th'[t] == th[t]
    ensures CoreOk(c, k, th')
  {
    assert Mine(k, k.idle) && Mine(k, k.curr);
  }

  lemma CoresStillOk(cores: map<CoreId, Core>, c: CoreId, k: Core, th: map<Thread, Info>, th': map<Thread, Info>)
    requires CoresOk(cores, th) && Apart(cores) && c in cores && CoreOk(c, k, th')
    requires forall t :: t in th ==> t in th' && (th'[t] == th[t] || Mine(cores[c], t))
    ensures CoresOk(cores[c := k], th')
  {
    forall d | d in cores && d != c ensures CoreOk(d, cores[d], th') {
      StillOk(d, cores[d], th, th');
    }
  }

  /** Threads no core has keep their saved contexts. */
  lemma StillSaved(cores: map<CoreId, Core>, c: CoreId, q: seq<Thread>, r: seq<Thread>, th: map<Thread, Info>,
                   th': map<Thread, Info>)
    requires Saved(q, th) && Off(cores, q + r) && c in cores
    requires forall t :: t in th ==> t in th' && (th'[t] == th[t] || Mine(cores[c], t))
    ensures Saved(q, th')
  {
    forall t | t in q ensures t in th' && th'[t].saved {
      assert t in q + r;
    }
  }

  lemma OffFewer(cores: map<CoreId, Core>, q: seq<Thread>, q': seq<Thread>)
    requires Off(cores, q) && forall t :: t in q' ==> t in q
    ensures Off(cores, q')
  {
  }

  lemma IdleKeeps(s: System, c: CoreId, status: Status)
    requires Inv(s) && Enabled(s, Yield(c, status)) && s.queue == []
    ensures Inv(DoYield(s, c, status))
  {
    var k := s.cores[c];
    assert CoreOk(c, k, s.threads);
    var k' := k.(phase := Picked(k.idle, status));
    StillApart(s.cores, c, k', None);
    StillOff(s.cores, c, k', s.queue + s.reaped);
    CoresStillOk(s.cores, c, k', s.threads, s.threads);
  }

  lemma PopKeeps(s: System, c: CoreId, status: Status)
    requires Inv(s) && Enabled(s, Yield(c, status)) && s.queue != []
    ensures Inv(DoYield(s, c, status))
  {
    var k, s' := s.cores[c], DoYield(s, c, status);
    assert CoreOk(c, k, s.threads);
    var x, l := s.queue[0], s.queue + s.reaped;
    var k' := k.(phase := Picked(x, status));
    assert l[0] == x && l[1..] == s'.queue + s'.reaped;
    assert x in s.queue && x in l && x !in l[1..];
    OffFewer(s.cores, l, l[1..]);
    StillApart(s.cores, c, k', Some(x));
    StillOff(s.cores, c, k', l[1..]);
    CoresStillOk(s.cores, c, k', s.threads, s.threads);
    assert s.queue == [x] + s'.queue;
  }

  lemma SwitchCore(s: System, c: CoreId)
    requires c in s.cores && s.cores[c].phase.Picked? && CoreOk(c, s.cores[c], s.threads)
    ensures
      var k, s' := s.cores[c], DoSwitch(s, c);
      && s' == s.(threads := s'.threads, cores := s'.cores) && c in s'.cores && s'.cores == s.cores[c := s'.cores[c]]
      && (forall t: Thread :: Mine(s'.cores[c], t) ==> Mine(k, t)) && CoreOk(c, s'.cores[c], s'.threads)
      && (forall t :: t in s.threads ==> t in s'.threads && (s'.threads[t] == s.threads[t] || Mine(k, t)))
  {
  }

  lemma SwitchAssigned(s: System, c: CoreId)
    requires c in s.cores && s.cores[c].phase.Picked? && CoreOk(c, s.cores[c], s.threads)
      && Assigned(s.cores, s.threads)
    ensures var s' := DoSwitch(s, c); Assigned(s'.cores, s'.threads)
  {
  }

  lemma SwitchKeeps(s: System, c: CoreId)
    requires Inv(s) && Enabled(s, Switch(c))
    ensures Inv(DoSwitch(s, c))
  {
    assert CoreOk(c, s.cores[c], s.threads);
    hide Apart, Off, Distinct, CoresOk, CoreOk, Saved, Assigned, Mine, DoSwitch;
    var k, s' := s.cores[c], DoSwitch(s, c);
    SwitchCore(s, c);
    SwitchAssigned(s, c);
    var k' := s'.cores[c];
    StillApart(s.cores, c, k', None);
    StillOff(s.cores, c, k', s.queue + s.reaped);
    CoresStillOk(s.cores, c, k', s.threads, s'.threads);
    StillSaved(s.cores, c, s.queue, s.reaped, s.threads, s'.threads);
  }

  lemma SaveCore(s: System, c: CoreId)
    requires c in s.cores && s.cores[c].phase.Switching? && CoreOk(c, s.cores[c], s.threads)
    ensures
      var k, s' := s.cores[c], DoSave(s, c);
      && s' == s.(threads := s'.threads, cores := s'.cores) && c in s'.cores && s'.cores == s.cores[c := s'.cores[c]]
      && (forall t: Thread :: Mine(s'.cores[c], t) ==> Mine(k, t)) && CoreOk(c, s'.cores[c], s'.threads)
      && (forall t :: t in s.threads ==> t in s'.threads && (s'.threads[t] == s.threads[t] || Mine(k, t)))
  {
  }

  lemma SaveAssigned(s: System, c: CoreId)
    requires c in s.cores && s.cores[c].phase.Switching? && CoreOk(c, s.cores[c], s.threads)
      && Assigned(s.cores, s.threads)
    ensures var s' := DoSave(s, c); Assigned(s'.cores, s'.threads)
  {
  }

  lemma SaveKeeps(s: System, c: CoreId)
    requires Inv(s) && Enabled(s, Save(c))
    ensures Inv(DoSave(s, c))
  {
    assert CoreOk(c, s.cores[c], s.threads);
    hide Apart, Off, Distinct, CoresOk, CoreOk, Saved, Assigned, Mine, DoSave;
    var k, s' := s.cores[c], DoSave(s, c);
    SaveCore(s, c);
    SaveAssigned(s, c);
    var k' := s'.cores[c];
    StillApart(s.cores, c, k', None);
    StillOff(s.cores, c, k', s.queue + s.reaped);
    CoresStillOk(s.cores, c, k', s.threads, s'.threads);
    StillSaved(s.cores, c, s.queue, s.reaped, s.threads, s'.threads);
  }

  /** A thread no core has joins the end of the queue. */
  lemma EnqueueKeeps(s: System, t: Thread)
    requires Inv(s) && Dropped(s, t)
    ensures Inv(Enqueue(s, t))
  {
    var l, l' := s.queue + s.reaped, s.queue + [t] + s.reaped;
    assert forall u :: u in l' ==> u == t || u in l;
    forall i, j | 0 <= i < j < |l'| ensures l'[i] != l'[j] {
      var n := |s.queue|;
      assert i < n ==> l'[i] == l[i];
      assert i > n ==> l'[i] == l[i - 1];
      assert j < n ==> l'[j] == l[j];
      assert j > n ==> l'[j] == l[j - 1];
    }
  }

  lemma DropKeeps(s: System, c: CoreId)
    requires Inv(s) && Enabled(s, Drop(c))
    ensures Inv(DoDrop(s, c))
  {
    var k := s.cores[c];
    var prev := k.phase.prev;
    var k' := k.(phase := Executing);
    assert CoreOk(c, k, s.threads);
    StillApart(s.cores, c, k', None);
    StillOff(s.cores, c, k', s.queue + s.reaped);
    CoresStillOk(s.cores, c, k', s.threads, s.threads);
    var s' := s.(cores := s.cores[c := k']);
    assert Inv(s');
    if prev != k.idle {
      assert Mine(k, prev);
      assert prev !in s.queue + s.reaped;
      assert Dropped(s', prev);
      if s.threads[prev].status == Ready {
        EnqueueKeeps(s', prev);
      } else if s.threads[prev].status == AwaitingCleanup {
        ReapKeeps(s', prev);
      }
    }
  }

  lemma ReapKeeps(s: System, t: Thread)
    requires Inv(s) && Dropped(s, t)
    ensures Inv(s.(reaped := s.reaped + [t]))
  {
    var l := s.queue + s.reaped;
    assert s.queue + (s.reaped + [t]) == l + [t];
  }

  lemma StepKeeps(s: System, a: Act)
    requires Inv(s) && Enabled(s, a)
    ensures Inv(Step(s, a))
  {
    match a
    case Yield(c, status) =>
      if s.queue == [] {
        IdleKeeps(s, c, status);
      } else {
        PopKeeps(s, c, status);
      }
    case Switch(c) => SwitchKeeps(s, c);
    case Save(c) => SaveKeeps(s, c);
    case Drop(c) => DropKeeps(s, c);
    case Wake(t) => EnqueueKeeps(s, t);
  }

  // ---- every run

  ghost predicate Possible(s: System, run: seq<Act>)
    decreases |run|
  {
    run == [] || (Enabled(s, run[0]) && Possible(Step(s, run[0]), run[1..]))
  }

  ghost function After(s: System, run: seq<Act>): System
    requires Possible(s, run)
    decreases |run|
  {
    if run == [] then s else After(Step(s, run[0]), run[1..])
  }

  lemma {:induction false} RunKeeps(s: System, run: seq<Act>)
    requires Inv(s) && Possible(s, run)
    ensures Inv(After(s, run))
    decreases |run|
  {
    if run != [] {
      StepKeeps(s, run[0]);
      RunKeeps(Step(s, run[0]), run[1..]);
    }
  }

  lemma StartKeeps(s: System)
    requires Start(s)
    ensures Inv(s)
  {
  }

  /** No thread runs on two cores, is running and queued, or is queued twice; idle threads are never queued. */
  lemma OnePlace(s: System, run: seq<Act>, c: CoreId, d: CoreId, i: nat, j: nat)
    requires Start(s) && Possible(s, run)
    ensures
      var e := After(s, run);
      && !e.crashed
      && (c in e.cores && d in e.cores && c != d ==> e.cores[c].curr != e.cores[d].curr)
      && (c in e.cores ==> e.cores[c].curr !in e.queue && e.cores[c].idle !in e.queue)
      && (i < j < |e.queue| ==> e.queue[i] != e.queue[j])
  {
    StartKeeps(s);
    RunKeeps(s, run);
    var e := After(s, run);
    if c in e.cores {
      assert Mine(e.cores[c], e.cores[c].curr) && Mine(e.cores[c], e.cores[c].idle);
      assert forall t :: t in e.queue ==> t in e.queue + e.reaped;
      if d in e.cores {
        assert Mine(e.cores[d], e.cores[d].curr);
      }
    }
    if i < j < |e.queue| {
      assert (e.queue + e.reaped)[i] == e.queue[i] && (e.queue + e.reaped)[j] == e.queue[j];
    }
  }

  /** assigned_core names the running core and only that; every thread switched to has status RUNNING. */
  lemma WhoRuns(s: System, run: seq<Act>)
    requires Start(s) && Possible(s, run)
    ensures
      var e := After(s, run);
      && (forall c :: c in e.cores ==> e.cores[c].curr in e.threads && e.threads[e.cores[c].curr].core == Some(c))
      && (forall t :: t in e.threads && e.threads[t].core.Some? ==>
          e.threads[t].core.value in e.cores && e.cores[e.threads[t].core.value].curr == t)
      && (forall c :: c in e.cores && e.cores[c].curr != e.cores[c].idle ==>
          e.threads[e.cores[c].curr].status == Running)
  {
    StartKeeps(s);
    RunKeeps(s, run);
    var e := After(s, run);
    assert forall c :: c in e.cores ==> CoreOk(c, e.cores[c], e.threads);
  }

  /**
   Every queued thread has its stack pointer saved, and so has every thread a core is about to load. A thread that a
   core executes has not, so that no other core could load it.
   */
  lemma SavedFirst(s: System, run: seq<Act>)
    requires Start(s) && Possible(s, run)
    ensures
      var e := After(s, run);
      && (forall t :: t in e.queue ==> t in e.threads && e.threads[t].saved)
      && (forall c :: c in e.cores ==>
          e.cores[c].curr in e.threads && (e.threads[e.cores[c].curr].saved <==> e.cores[c].phase.Switching?))
  {
    StartKeeps(s);
    RunKeeps(s, run);
    var e := After(s, run);
    assert forall c :: c in e.cores ==> CoreOk(c, e.cores[c], e.threads);
  }

  lemma {:induction false} Grows(s: System, run: seq<Act>)
    requires Possible(s, run)
    ensures s.popped <= After(s, run).popped && s.arrived <= After(s, run).arrived
    decreases |run|
  {
    if run != [] {
      Grows(Step(s, run[0]), run[1..]);
    }
  }

  function Yields(run: seq<Act>): nat {
    if run == [] then 0 else (if run[0].Yield? then 1 else 0) + Yields(run[1..])
  }

  /** A step other than a yield takes nothing off the queue; a yield takes exactly the first thread. */
  lemma QueueMoves(s: System, a: Act)
    requires Inv(s) && Enabled(s, a)
    ensures
      var s' := Step(s, a);
      if a.Yield? && s.queue != [] then s'.queue == s.queue[1..] && s'.popped == s.popped + [s.queue[0]]
      else s.queue <= s'.queue && s'.popped == s.popped
  {
    if a.Yield? || a.Drop? {
      assert CoreOk(a.core, s.cores[a.core], s.threads);
    }
    hide CoresOk, Apart, Off, Assigned, Saved;
  }

  /** Every yield pops while there is something to pop. */
  lemma {:induction false} YieldsPop(s: System, run: seq<Act>, k: nat)
    requires Inv(s) && Possible(s, run) && k < |s.queue|
    ensures |After(s, run).popped| >= |s.popped| + if Yields(run) <= k then Yields(run) else k + 1
    decreases |run|
  {
    Grows(s, run);
    if run != [] {
      var s' := Step(s, run[0]);
      StepKeeps(s, run[0]);
      QueueMoves(s, run[0]);
      hide Inv, Step, Enabled;
      if !run[0].Yield? {
        YieldsPop(s', run[1..], k);
      } else if k > 0 {
        YieldsPop(s', run[1..], k - 1);
      } else {
        Grows(s', run[1..]);
      }
    }
  }

  /**
   A thread at position k is taken by the (k+1)-th yield from now, on whatever core, and until then moves up one place
   with each.
   */
  lemma TakenInTurn(s: System, before: seq<Act>, run: seq<Act>, k: nat)
    requires Start(s) && Possible(s, before) && Possible(After(s, before), run) && k < |After(s, before).queue|
    ensures
      var m, e := After(s, before), After(After(s, before), run);
      if |e.popped| > |m.popped| + k then e.popped[|m.popped| + k] == m.queue[k]
      else |e.queue| > |m.popped| + k - |e.popped| && e.queue[|m.popped| + k - |e.popped|] == m.queue[k]
    ensures Yields(run) > k ==> |After(After(s, before), run).popped| > |After(s, before).popped| + k
  {
    StartKeeps(s);
    RunKeeps(s, before);
    InTurn(After(s, before), run, k);
  }

  lemma InTurn(m: System, run: seq<Act>, k: nat)
    requires Inv(m) && Possible(m, run) && k < |m.queue|
    ensures
      var e := After(m, run);
      if |e.popped| > |m.popped| + k then e.popped[|m.popped| + k] == m.queue[k]
      else |e.queue| > |m.popped| + k - |e.popped| && e.queue[|m.popped| + k - |e.popped|] == m.queue[k]
    ensures Yields(run) > k ==> |After(m, run).popped| > |m.popped| + k
  {
    RunKeeps(m, run);
    Grows(m, run);
    YieldsPop(m, run, k);
    var e := After(m, run);
    assert m.arrived[|m.popped| + k] == m.queue[k];
    assert e.arrived[|m.popped| + k] == m.queue[k];
  }

  /** A thread woken in any reachable state is taken by the first yield after those for the threads queued before it. */
  lemma WokenInTurn(s: System, before: seq<Act>, t: Thread, run: seq<Act>)
    requires Start(s) && Possible(s, before) && Enabled(After(s, before), Wake(t))
    requires Possible(Step(After(s, before), Wake(t)), run)
    ensures
      var m := After(s, before);
      var e := After(Step(m, Wake(t)), run);
      var k := |m.popped| + |m.queue|;
      && Step(m, Wake(t)).queue == m.queue + [t] && (|e.popped| > k ==> e.popped[k] == t)
      && (Yields(run) > |m.queue| ==> |e.popped| > k)
  {
    StartKeeps(s);
    RunKeeps(s, before);
    var m := After(s, before);
    StepKeeps(m, Wake(t));
    InTurn(Step(m, Wake(t)), run, |m.queue|);
  }

  /** In every reachable state every core can take its next step, a yield with any status included. */
  lemma NeverStuck(s: System, run: seq<Act>, c: CoreId, status: Status)
    requires Start(s) && Possible(s, run) && c in After(s, run).cores && status != Running
    ensures
      var e := After(s, run);
      match e.cores[c].phase
      case Executing => Enabled(e, Yield(c, status))
      case Picked(_, _) => Enabled(e, Switch(c))
      case Switching(_) => Enabled(e, Save(c))
      case Dropping(_) => Enabled(e, Drop(c))
  {
    StartKeeps(s);
    RunKeeps(s, run);
  }

  // ---- one yield, from beginning to end

  /** Nothing in the run is a step of core c. */
  ghost predicate Quiet(run: seq<Act>, c: CoreId) { forall a :: a in run ==> a.Wake? || a.core != c }

  ghost predicate SameOn(s: System, s': System, c: CoreId) {
    && c in s.cores && c in s'.cores && s'.cores[c] == s.cores[c]
    && forall t :: t in s.threads && Mine(s.cores[c], t) ==> t in s'.threads && s'.threads[t] == s.threads[t]
  }

  /** What a core does touches only its own threads. */
  lemma Elsewhere(s: System, a: Act, c: CoreId)
    requires Inv(s) && Enabled(s, a) && c in s.cores && (a.Wake? || a.core != c)
    ensures SameOn(s, Step(s, a), c)
  {
    if !a.Wake? {
      assert CoreOk(a.core, s.cores[a.core], s.threads);
      assert forall t: Thread :: Mine(s.cores[c], t) ==> !Mine(s.cores[a.core], t);
      hide Inv, Apart, CoresOk;
      if a.Switch? {
        SwitchCore(s, a.core);
      } else if a.Save? {
        SaveCore(s, a.core);
      }
    }
  }

  lemma {:induction false} QuietKeeps(s: System, run: seq<Act>, c: CoreId)
    requires Inv(s) && Possible(s, run) && c in s.cores && Quiet(run, c)
    ensures SameOn(s, After(s, run), c) && Inv(After(s, run))
    decreases |run|
  {
    if run != [] {
      var s' := Step(s, run[0]);
      StepKeeps(s, run[0]);
      assert run[0] in run;
      Elsewhere(s, run[0], c);
      hide Inv, Step, Enabled, Mine;
      QuietKeeps(s', run[1..], c);
    }
  }

  /** The thread a yield in state m should go to: the first one queued, or the core's idle thread. */
  function NextOf(m: System, c: CoreId): Thread
    requires c in m.cores
  {
    if m.queue != [] then m.queue[0] else m.cores[c].idle
  }

  lemma YieldPicks(m: System, c: CoreId, status: Status)
    requires Inv(m) && Enabled(m, Yield(c, status))
    ensures
      var y := Step(m, Yield(c, status));
      && c in y.cores && y.cores[c] == m.cores[c].(phase := Picked(NextOf(m, c), status)) && y.threads == m.threads
      && y.queue == (if m.queue == [] then [] else m.queue[1..])
      && y.popped == m.popped + if m.queue == [] then [] else [m.queue[0]]
  {
    assert CoreOk(c, m.cores[c], m.threads);
  }

  /** What a core has done once it has switched from prev to next, prev having yielded with the status. */
  ghost predicate SwitchedTo(e: System, c: CoreId, prev: Thread, next: Thread, status: Status) {
    && c in e.cores && e.cores[c].curr == next && next in e.threads && e.threads[next].status == Running
    && (if prev == next then e.cores[c].phase == Executing
        else
          && e.threads[next].core == Some(c) && e.cores[c].phase == Switching(prev)
          && prev in e.threads && e.threads[prev].status == status && e.threads[prev].core == None)
  }

  lemma SwitchGoes(x: System, c: CoreId, status: Status, next: Thread)
    requires Inv(x) && c in x.cores && x.cores[c].phase == Picked(next, status)
    ensures Enabled(x, Switch(c)) && SwitchedTo(Step(x, Switch(c)), c, x.cores[c].curr, next, status)
  {
    assert CoreOk(c, x.cores[c], x.threads);
  }

  /**
   In every run, whatever other cores do in between: the core's next switch goes to the thread that was first in the
   queue at the yield, or to the idle thread if there was none, and leaves the yielding thread with the status given.
   */
  lemma YieldGoesTo(s: System, before: seq<Act>, c: CoreId, status: Status, mid: seq<Act>)
    requires Start(s) && Possible(s, before) && Enabled(After(s, before), Yield(c, status))
    requires Quiet(mid, c) && Possible(Step(After(s, before), Yield(c, status)), mid)
    ensures
      var m := After(s, before);
      var y := Step(m, Yield(c, status));
      var x := After(y, mid);
      && y.popped == (m.popped + if m.queue == [] then [] else [m.queue[0]])
      && Enabled(x, Switch(c)) && Inv(Step(x, Switch(c)))
      && SwitchedTo(Step(x, Switch(c)), c, m.cores[c].curr, NextOf(m, c), status)
  {
    StartKeeps(s);
    RunKeeps(s, before);
    hide Inv, Start;
    var m := After(s, before);
    var y := Step(m, Yield(c, status));
    StepKeeps(m, Yield(c, status));
    YieldPicks(m, c, status);
    QuietKeeps(y, mid, c);
    SwitchGoes(After(y, mid), c, status, NextOf(m, c));
    StepKeeps(After(y, mid), Switch(c));
  }

  /** Where a thread goes that yielded with the status: to the end of the run queue, to the reaper, or nowhere. */
  ghost predicate PutAway(x: System, f: System, prev: Thread, idle: Thread, status: Status) {
    && f.queue == (if prev != idle && status == Ready then x.queue + [prev] else x.queue)
    && f.reaped == (if prev != idle && status == AwaitingCleanup then x.reaped + [prev] else x.reaped)
  }

  lemma SaveGoes(x: System, c: CoreId, prev: Thread, status: Status)
    requires Inv(x) && c in x.cores && x.cores[c].phase == Switching(prev) && prev in x.threads
    requires x.threads[prev].status == status
    ensures
      && Enabled(x, Save(c))
      && var z := Step(x, Save(c));
      && c in z.cores && z.cores[c] == x.cores[c].(phase := Dropping(prev)) && prev in z.threads
      && z.threads[prev].status == status && z.threads[prev].saved
  {
    assert CoreOk(c, x.cores[c], x.threads);
  }

  lemma DropGoes(x: System, c: CoreId, prev: Thread, status: Status)
    requires Inv(x) && c in x.cores && x.cores[c].phase == Dropping(prev) && prev in x.threads
    requires x.threads[prev].status == status
    ensures Enabled(x, Drop(c)) && PutAway(x, Step(x, Drop(c)), prev, x.cores[c].idle, status)
    ensures prev != x.cores[c].idle && status == Blocked ==> Enabled(Step(x, Drop(c)), Wake(prev))
  {
    assert CoreOk(c, x.cores[c], x.threads);
    if prev != x.cores[c].idle && status == Blocked {
      assert Mine(x.cores[c], prev);
      assert prev !in x.queue + x.reaped;
    }
  }

  /** And from there, in every run, the thread that was switched out is saved and then goes where its status says. */
  lemma YieldedAway(e: System, c: CoreId, prev: Thread, next: Thread, status: Status, mid: seq<Act>, mid': seq<Act>)
    requires Inv(e) && SwitchedTo(e, c, prev, next, status) && prev != next && Quiet(mid, c) && Possible(e, mid)
    requires Quiet(mid', c) && (Enabled(After(e, mid), Save(c)) ==> Possible(Step(After(e, mid), Save(c)), mid'))
    ensures
      && Enabled(After(e, mid), Save(c))
      && var x := After(Step(After(e, mid), Save(c)), mid');
      && Enabled(x, Drop(c)) && prev in x.threads && x.threads[prev].saved
      && PutAway(x, Step(x, Drop(c)), prev, e.cores[c].idle, status)
      && (prev != e.cores[c].idle && status == Blocked ==> Enabled(Step(x, Drop(c)), Wake(prev)))
  {
    hide Inv;
    assert Mine(e.cores[c], prev);
    QuietKeeps(e, mid, c);
    var w := After(e, mid);
    SaveGoes(w, c, prev, status);
    StepKeeps(w, Save(c));
    var z := Step(w, Save(c));
    assert Mine(z.cores[c], prev);
    QuietKeeps(z, mid', c);
    DropGoes(After(z, mid'), c, prev, status);
  }

  // ---- no thread is lost

  ghost predicate OnCore(s: System, t: Thread) { exists c :: c in s.cores && Mine(s.cores[c], t) }

  /** A thread no core has is where the status it yielded with sends it. */
  ghost predicate Settled(s: System, t: Thread) {
    t in s.threads && !OnCore(s, t) ==>
      match s.threads[t].status
      case Ready => t in s.queue
      case AwaitingCleanup => t in s.reaped
      case Blocked => t !in s.queue && t !in s.reaped
      case Running => false
  }

  /** Only core c's own phase moves, so t stays on the core that has it. */
  lemma OnCoreStays(s: System, s': System, c: CoreId, t: Thread)
    requires c in s.cores && c in s'.cores && s'.cores == s.cores[c := s'.cores[c]] && OnCore(s, t)
    requires Mine(s.cores[c], t) ==> Mine(s'.cores[c], t)
    ensures OnCore(s', t)
  {
    var d :| d in s.cores && Mine(s.cores[d], t);
    assert d in s'.cores && Mine(s'.cores[d], t);
  }

  /** The thread that is dropped goes where its status says. */
  lemma DropSettles(s: System, c: CoreId)
    requires Inv(s) && Enabled(s, Drop(c)) && s.cores[c].phase.prev != s.cores[c].idle
    ensures var t := s.cores[c].phase.prev; t in DoDrop(s, c).threads && Settled(DoDrop(s, c), t)
  {
    var k := s.cores[c];
    var t, l := k.phase.prev, s.queue + s.reaped;
    assert CoreOk(c, k, s.threads) && Mine(k, t);
    assert t !in l;
    assert t !in s.queue && t !in s.reaped;
  }

  /** Any other step of a core keeps the threads it has, or lets its idle thread go idle. */
  lemma KeepsMine(s: System, a: Act, t: Thread)
    requires Enabled(s, a) && !a.Wake? && CoreOk(a.core, s.cores[a.core], s.threads)
    requires a.Drop? && t == s.cores[a.core].phase.prev ==> t == s.cores[a.core].idle
    ensures var s' := Step(s, a); a.core in s'.cores && s'.cores == s.cores[a.core := s'.cores[a.core]]
    ensures var s' := Step(s, a);
      (t in s.threads ==> t in s'.threads) && (Mine(s.cores[a.core], t) ==> Mine(s'.cores[a.core], t))
  {
  }

  lemma SettledOnCore(s: System, a: Act, t: Thread)
    requires Inv(s) && Enabled(s, a) && t in s.threads && OnCore(s, t)
    ensures t in Step(s, a).threads && Settled(Step(s, a), t)
  {
    if a.Wake? {
      assert OnCore(Step(s, a), t);
    } else {
      assert CoreOk(a.core, s.cores[a.core], s.threads);
      hide CoreOk, Inv, Step, Mine, OnCore;
      if a.Drop? && t == s.cores[a.core].phase.prev && t != s.cores[a.core].idle {
        DropSettles(s, a.core);
        DropIs(s, a);
      } else {
        KeepsMine(s, a, t);
        OnCoreStays(s, Step(s, a), a.core, t);
      }
    }
  }

  lemma DropIs(s: System, a: Act)
    requires Enabled(s, a) && a.Drop?
    ensures Step(s, a) == DoDrop(s, a.core)
  {
  }

  lemma SettledOffCore(s: System, a: Act, t: Thread)
    requires Inv(s) && Enabled(s, a) && a != Wake(t) && t in s.threads && !OnCore(s, t) && Settled(s, t)
    ensures t in Step(s, a).threads && Settled(Step(s, a), t)
  {
    var s' := Step(s, a);
    if !a.Wake? {
      var k := s.cores[a.core];
      assert !Mine(k, t) && CoreOk(a.core, k, s.threads);
      if a.Yield? && s.queue != [] {
        assert s.queue == [s.queue[0]] + s'.queue;
        assert Mine(s'.cores[a.core], s.queue[0]);
      }
      assert s'.threads[t] == s.threads[t];
    }
  }

  lemma SettledStep(s: System, a: Act, t: Thread)
    requires Inv(s) && Enabled(s, a) && a != Wake(t) && t in s.threads && Settled(s, t)
    ensures t in Step(s, a).threads && Settled(Step(s, a), t)
  {
    if OnCore(s, t) {
      SettledOnCore(s, a, t);
    } else {
      SettledOffCore(s, a, t);
    }
  }

  /**
   From when a core has it until it is next woken from outside, a thread is on a core or where its last yield sent it.
   */
  lemma {:induction false} NeverLost(s: System, run: seq<Act>, t: Thread)
    requires Inv(s) && Possible(s, run) && t in s.threads && Settled(s, t) && Wake(t) !in run
    ensures t in After(s, run).threads && Settled(After(s, run), t)
    decreases |run|
  {
    if run != [] {
      StepKeeps(s, run[0]);
      SettledStep(s, run[0], t);
      NeverLost(Step(s, run[0]), run[1..], t);
    }
  }
}
