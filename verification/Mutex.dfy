/** The three-state handoff mutex of kernel/src/common/sync/mutex.c, as interleaved steps of any number of threads. */
module Mutex {
  import opened Words

  type Thread = nat

  datatype State = Unlocked | Locked | Contested

  const SPIN_COUNT: nat := 10

  /** The atomic operation a thread does next. */
  datatype Pc =
    | Outside                    // not using the mutex
    | Trying(attempt: nat)       // lines 19 and 24
    | WantLatch                  // line 29
    | Exchanging                 // line 30
    | Appending                  // line 32
    | Parting                    // line 34
    | Blocked                    // line 35
    | Waking                     // line 36, put back on the run queue
    | Storing                    // line 39
    | Leaving                    // line 41
    | Holding                    // between acquire and release
    | Releasing                  // line 47
    | WantSlow(observed: State)  // line 50
    | Checking(observed: State)  // lines 52-53
    | HandingOff                 // lines 55-57
    | Settling                   // line 59
    | Unlatching                 // line 61

  /** The mutex, where each thread is, and what has happened: who joined the queue and who was taken off it. */
  datatype System = System(
    state: State, latch: Option<Thread>, queue: seq<Thread>, pc: map<Thread, Pc>, panicked: bool,
    arrived: seq<Thread>, granted: seq<Thread>)

  predicate Start(s: System) {
    && s.state == Unlocked && s.latch == None && s.queue == [] && !s.panicked && s.arrived == [] && s.granted == []
    && forall t :: t in s.pc ==> s.pc[t] == Outside
  }

  /** A thread waits at the latch while another has it, and once blocked until it is put back on the run queue. */
  predicate Enabled(s: System, t: Thread) {
    && t in s.pc && !s.panicked
    && match s.pc[t] {
         case WantLatch => s.latch == None
         case WantSlow(_) => s.latch == None
         case Waking => s.latch == None
         case Blocked => false
         case _ => true
       }
  }

  /** One atomic operation of thread t; a weak compare-and-swap may fail for no reason. */
  function Step(s: System, t: Thread, spurious: bool): System
    requires Enabled(s, t)
  {
    match s.pc[t]
    case Outside => s.(pc := s.pc[t := Trying(0)])
    case Trying(n) =>
      if s.state == Unlocked && !spurious then s.(state := Locked, pc := s.pc[t := Holding])
      else s.(pc := s.pc[t := if n < SPIN_COUNT then Trying(n + 1) else WantLatch])
    case WantLatch => s.(latch := Some(t), pc := s.pc[t := Exchanging])
    case Exchanging => s.(state := Contested, pc := s.pc[t := if s.state != Unlocked then Appending else Storing])
    case Appending => s.(queue := s.queue + [t], arrived := s.arrived + [t], pc := s.pc[t := Parting])
    case Parting => s.(latch := None, pc := s.pc[t := Blocked])
    case Waking => s.(latch := Some(t), pc := s.pc[t := Leaving])
    case Storing => s.(state := Locked, pc := s.pc[t := Leaving])
    case Leaving => s.(latch := None, pc := s.pc[t := Holding])
    case Holding => s.(pc := s.pc[t := Releasing])
    case Releasing =>
      if s.state == Locked then s.(state := Unlocked, pc := s.pc[t := Outside])
      else s.(pc := s.pc[t := WantSlow(s.state)])
    case WantSlow(observed) => s.(latch := Some(t), pc := s.pc[t := Checking(observed)])
    case Checking(observed) =>
      if observed == Contested && s.queue != [] then s.(pc := s.pc[t := HandingOff]) else s.(panicked := true)
    case HandingOff =>
      if s.queue == [] then s.(panicked := true)
      else s.(queue := s.queue[1..], granted := s.granted + [s.queue[0]],
              pc := s.pc[t := Settling][s.queue[0] := Waking])
    case Settling => s.(state := if s.queue == [] then Locked else s.state, pc := s.pc[t := Unlatching])
    case Unlatching => s.(latch := None, pc := s.pc[t := Outside])
  }

  // ---- what every step keeps

  /** Inside acquire past the point of success, holding, or inside release before giving the mutex up. */
  predicate Owns(pc: Pc) {
    pc.Waking? || pc.Storing? || pc.Leaving? || pc.Holding? || pc.Releasing? || pc.WantSlow? || pc.Checking?
      || pc.HandingOff?
  }

  predicate HasLatch(pc: Pc) {
    || pc.Exchanging? || pc.Appending? || pc.Parting? || pc.Storing? || pc.Leaving?
    || pc.Checking? || pc.HandingOff? || pc.Settling? || pc.Unlatching?
  }

  predicate Queued(pc: Pc) { pc.Parting? || pc.Blocked? }

  /** The latch holder is at a place where a contested mutex may have nobody queued. */
  predicate MayBeEmpty(pc: Pc) { pc.Appending? || pc.Storing? || pc.Settling? }

  /** x is the one thread whose place is in f, or there is none. */
  ghost predicate Sole(x: Option<Thread>, pc: map<Thread, Pc>, f: Pc -> bool) {
    && (forall t :: t in pc && f(pc[t]) ==> x == Some(t))
    && (x.Some? ==> x.value in pc && f(pc[x.value]))
  }

  /** The queue lists each waiting thread once. */
  ghost predicate QueueIs(q: seq<Thread>, pc: map<Thread, Pc>) {
    && Distinct(q)
    && (forall i :: 0 <= i < |q| ==> q[i] in pc && Queued(pc[q[i]]))
    && (forall t :: t in pc && Queued(pc[t]) ==> t in q)
  }

  ghost predicate StateIs(s: System, o: Option<Thread>) {
    && (s.state == Unlocked <==> o == None)
    && (s.queue != [] ==> s.state == Contested)
    && (s.state == Contested && s.queue == [] ==>
        s.latch.Some? && s.latch.value in s.pc && MayBeEmpty(s.pc[s.latch.value]))
  }

  /** Between popping a thread and settling the state, the popped thread owns the mutex and has not moved. */
  predicate OwnerWakes(pc: map<Thread, Pc>, o: Option<Thread>) {
    o.Some? && o.value in pc && pc[o.value].Waking?
  }

  /**
   What a thread at place p relies on; in particular the slow path of release has seen Contested, and it stayed so.
   */
  predicate Relies(s: System, o: Option<Thread>, p: Pc) {
    match p
    case WantSlow(observed) => observed == Contested && s.state == Contested
    case Checking(observed) => observed == Contested && s.state == Contested
    case HandingOff => s.state == Contested
    case Appending => s.state == Contested
    case Storing => s.queue == []
    case Settling => s.state == Contested && OwnerWakes(s.pc, o)
    case _ => true
  }

  ghost predicate PlacesAre(s: System, o: Option<Thread>) {
    forall t :: t in s.pc ==> Relies(s, o, s.pc[t])
  }

  ghost predicate InvWith(s: System, o: Option<Thread>) {
    && !s.panicked && Sole(o, s.pc, Owns) && Sole(s.latch, s.pc, HasLatch) && QueueIs(s.queue, s.pc)
    && StateIs(s, o) && PlacesAre(s, o) && s.arrived == s.granted + s.queue
  }

  /** Who owns the mutex after thread t's step. */
  function OwnerAfter(s: System, o: Option<Thread>, t: Thread, spurious: bool): Option<Thread>
    requires Enabled(s, t)
  {
    match s.pc[t]
    case Trying(_) => if s.state == Unlocked && !spurious then Some(t) else o
    case Exchanging => if s.state == Unlocked then Some(t) else o
    case Releasing => if s.state == Locked then None else o
    case HandingOff => if s.queue == [] then o else Some(s.queue[0])
    case _ => o
  }

  lemma SoleMoves(x: Option<Thread>, pc: map<Thread, Pc>, f: Pc -> bool, t: Thread, p: Pc)
    requires Sole(x, pc, f) && t in pc && (f(p) && !f(pc[t]) ==> x == None)
    ensures Sole(if f(p) then Some(t) else if f(pc[t]) then None else x, pc[t := p], f)
  {
  }

  /** Except for a handoff, only thread t moves. */
  lemma OneMoves(s: System, t: Thread, spurious: bool)
    requires Enabled(s, t) && !s.pc[t].HandingOff?
    ensures var s' := Step(s, t, spurious); t in s'.pc && s'.pc == s.pc[t := s'.pc[t]]
  {
  }

  /** Moving into or out of an owning place is what changes the owner. */
  lemma OwnerFollows(s: System, o: Option<Thread>, t: Thread, spurious: bool)
    requires Enabled(s, t) && !s.pc[t].HandingOff? && StateIs(s, o) && (Owns(s.pc[t]) ==> o == Some(t))
    ensures
      var p, p' := s.pc[t], Step(s, t, spurious).pc[t];
      && (Owns(p') && !Owns(p) ==> o == None)
      && OwnerAfter(s, o, t, spurious) == if Owns(p') then Some(t) else if Owns(p) then None else o
  {
  }

  lemma LatchFollows(s: System, t: Thread, spurious: bool)
    requires Enabled(s, t) && !s.pc[t].HandingOff? && (HasLatch(s.pc[t]) ==> s.latch == Some(t))
    ensures
      var p, s' := s.pc[t], Step(s, t, spurious);
      && (HasLatch(s'.pc[t]) && !HasLatch(p) ==> s.latch == None)
      && s'.latch == if HasLatch(s'.pc[t]) then Some(t) else if HasLatch(p) then None else s.latch
  {
  }

  lemma OwnerKept(s: System, o: Option<Thread>, t: Thread, spurious: bool)
    requires InvWith(s, o) && Enabled(s, t)
    ensures Sole(OwnerAfter(s, o, t, spurious), Step(s, t, spurious).pc, Owns)
  {
    assert Owns(s.pc[t]) ==> o == Some(t);
    if s.pc[t].HandingOff? {
      if s.queue != [] {
        assert Queued(s.pc[s.queue[0]]);
        hide Sole;
        SoleMoves(o, s.pc, Owns, t, Settling);
        SoleMoves(None, s.pc[t := Settling], Owns, s.queue[0], Waking);
      }
    } else {
      hide Sole, Step, OwnerAfter;
      OneMoves(s, t, spurious);
      OwnerFollows(s, o, t, spurious);
      SoleMoves(o, s.pc, Owns, t, Step(s, t, spurious).pc[t]);
    }
  }

  lemma LatchKept(s: System, o: Option<Thread>, t: Thread, spurious: bool)
    requires InvWith(s, o) && Enabled(s, t)
    ensures var s' := Step(s, t, spurious); Sole(s'.latch, s'.pc, HasLatch)
  {
    assert HasLatch(s.pc[t]) ==> s.latch == Some(t);
    if s.pc[t].HandingOff? {
      if s.queue != [] {
        assert Queued(s.pc[s.queue[0]]);
        assert !HasLatch(s.pc[s.queue[0]]);
        hide Sole;
        SoleMoves(s.latch, s.pc, HasLatch, t, Settling);
        SoleMoves(s.latch, s.pc[t := Settling], HasLatch, s.queue[0], Waking);
      }
    } else {
      hide Sole, Step;
      OneMoves(s, t, spurious);
      LatchFollows(s, t, spurious);
      SoleMoves(s.latch, s.pc, HasLatch, t, Step(s, t, spurious).pc[t]);
    }
  }

  lemma Joined(q: seq<Thread>, pc: map<Thread, Pc>, t: Thread)
    requires QueueIs(q, pc) && t in pc && !Queued(pc[t])
    ensures QueueIs(q + [t], pc[t := Parting])
  {
    forall u | u in pc[t := Parting] && Queued(pc[t := Parting][u]) ensures u in q + [t] {
      if u != t {
        assert u in q;
      }
    }
  }

  lemma Left(q: seq<Thread>, pc: map<Thread, Pc>, t: Thread)
    requires QueueIs(q, pc) && q != [] && t in pc && !Queued(pc[t])
    ensures QueueIs(q[1..], pc[t := Settling][q[0] := Waking])
  {
    var pc' := pc[t := Settling][q[0] := Waking];
    forall u | u in pc' && Queued(pc'[u]) ensures u in q[1..] {
      var i :| 0 <= i < |q| && q[i] == u;
      assert q[1..][i - 1] == u;
    }
    forall i | 0 <= i < |q[1..]| ensures q[1..][i] in pc' && Queued(pc'[q[1..][i]]) {
      assert q[1..][i] == q[i + 1];
    }
  }

  lemma Elsewhere(q: seq<Thread>, pc: map<Thread, Pc>, t: Thread, p: Pc)
    requires QueueIs(q, pc) && t in pc && Queued(pc[t]) == Queued(p)
    ensures QueueIs(q, pc[t := p])
  {
  }

  lemma QueueKept(s: System, o: Option<Thread>, t: Thread, spurious: bool)
    requires InvWith(s, o) && Enabled(s, t)
    ensures var s' := Step(s, t, spurious); QueueIs(s'.queue, s'.pc) && s'.arrived == s'.granted + s'.queue
  {
    hide StateIs, Sole, PlacesAre, QueueIs;
    var s' := Step(s, t, spurious);
    if s.pc[t].Appending? {
      Joined(s.queue, s.pc, t);
    } else if s.pc[t].HandingOff? {
      if s.queue != [] {
        Left(s.queue, s.pc, t);
        assert s.queue == [s.queue[0]] + s'.queue;
      }
    } else {
      OneMoves(s, t, spurious);
      Elsewhere(s.queue, s.pc, t, s'.pc[t]);
    }
  }

  lemma StateKept(s: System, o: Option<Thread>, t: Thread, spurious: bool)
    requires InvWith(s, o) && Enabled(s, t)
    ensures !Step(s, t, spurious).panicked
    ensures StateIs(Step(s, t, spurious), OwnerAfter(s, o, t, spurious))
  {
  }

  lemma MoverRelies(s: System, o: Option<Thread>, t: Thread, spurious: bool)
    requires InvWith(s, o) && Enabled(s, t)
    ensures var s' := Step(s, t, spurious); t in s'.pc && Relies(s', OwnerAfter(s, o, t, spurious), s'.pc[t])
  {
    assert Relies(s, o, s.pc[t]);
  }

  lemma OthersRely(s: System, o: Option<Thread>, t: Thread, spurious: bool, u: Thread)
    requires InvWith(s, o) && Enabled(s, t) && u in s.pc && u != t
    ensures var s' := Step(s, t, spurious); u in s'.pc && Relies(s', OwnerAfter(s, o, t, spurious), s'.pc[u])
  {
    assert Relies(s, o, s.pc[u]) && Relies(s, o, s.pc[t]);
    hide PlacesAre;
  }

  lemma PlacesKept(s: System, o: Option<Thread>, t: Thread, spurious: bool)
    requires InvWith(s, o) && Enabled(s, t)
    ensures PlacesAre(Step(s, t, spurious), OwnerAfter(s, o, t, spurious))
  {
    var s', o' := Step(s, t, spurious), OwnerAfter(s, o, t, spurious);
    forall u | u in s'.pc ensures Relies(s', o', s'.pc[u]) {
      if u == t {
        MoverRelies(s, o, t, spurious);
      } else {
        OthersRely(s, o, t, spurious, u);
      }
    }
  }

  lemma StepKeeps(s: System, o: Option<Thread>, t: Thread, spurious: bool)
    requires InvWith(s, o) && Enabled(s, t)
    ensures InvWith(Step(s, t, spurious), OwnerAfter(s, o, t, spurious))
  {
    OwnerKept(s, o, t, spurious);
    LatchKept(s, o, t, spurious);
    QueueKept(s, o, t, spurious);
    StateKept(s, o, t, spurious);
    PlacesKept(s, o, t, spurious);
  }

  // ---- every run

  datatype Act = Act(thread: Thread, spurious: bool)

  ghost predicate Possible(s: System, run: seq<Act>)
    decreases |run|
  {
    run == [] || (Enabled(s, run[0].thread) && Possible(Step(s, run[0].thread, run[0].spurious), run[1..]))
  }

  ghost function After(s: System, run: seq<Act>): System
    requires Possible(s, run)
    decreases |run|
  {
    if run == [] then s else After(Step(s, run[0].thread, run[0].spurious), run[1..])
  }

  ghost predicate Inv(s: System) { exists o :: InvWith(s, o) }

  lemma {:induction false} RunKeeps(s: System, run: seq<Act>)
    requires Inv(s) && Possible(s, run)
    ensures Inv(After(s, run))
    decreases |run|
  {
    if run != [] {
      var o :| InvWith(s, o);
      StepKeeps(s, o, run[0].thread, run[0].spurious);
      RunKeeps(Step(s, run[0].thread, run[0].spurious), run[1..]);
    }
  }

  lemma StartKeeps(s: System)
    requires Start(s)
    ensures Inv(s)
  {
    assert InvWith(s, None);
  }

  /** Over every interleaving, from an unused mutex: one owner at most, and no assertion fails. */
  lemma Exclusive(s: System, run: seq<Act>, t: Thread, u: Thread)
    requires Start(s) && Possible(s, run)
    ensures var e := After(s, run); !e.panicked && (t in e.pc && u in e.pc && Owns(e.pc[t]) && Owns(e.pc[u]) ==> t == u)
  {
    StartKeeps(s);
    RunKeeps(s, run);
  }

  /** A thread waits only while another owns the mutex, and the state says so. */
  lemma WaitersSeen(s: System, run: seq<Act>)
    requires Start(s) && Possible(s, run)
    ensures var e := After(s, run);
      e.queue != [] ==> e.state == Contested && exists t :: t in e.pc && Owns(e.pc[t]) && t !in e.queue
  {
    StartKeeps(s);
    RunKeeps(s, run);
    var e := After(s, run);
    var o :| InvWith(e, o);
    if e.queue != [] {
      assert o.value in e.pc && Owns(e.pc[o.value]);
    }
  }

  /** The k-th thread to be granted the mutex is the k-th that queued for it, and nobody is passed over. */
  lemma FirstComeFirstServed(s: System, run: seq<Act>)
    requires Start(s) && Possible(s, run)
    ensures var e := After(s, run); e.arrived == e.granted + e.queue && Distinct(e.queue)
  {
    StartKeeps(s);
    RunKeeps(s, run);
  }

  lemma SomeoneMoves(e: System, o: Option<Thread>)
    requires InvWith(e, o)
    ensures (forall t :: t in e.pc ==> e.pc[t] == Outside) || (exists t :: Enabled(e, t) && e.pc[t] != Outside)
  {
    if e.latch.Some? {
      assert Enabled(e, e.latch.value);
    } else if o.Some? {
      assert Enabled(e, o.value);
    } else if t :| t in e.pc && e.pc[t] != Outside {
      assert !Queued(e.pc[t]);
      assert Enabled(e, t);
    }
  }

  /** Some thread that uses the mutex can move, unless none uses it. */
  lemma NoDeadlock(s: System, run: seq<Act>)
    requires Start(s) && Possible(s, run)
    ensures
      var e := After(s, run);
      (forall t :: t in e.pc ==> e.pc[t] == Outside) || (exists t :: Enabled(e, t) && e.pc[t] != Outside)
  {
    StartKeeps(s);
    RunKeeps(s, run);
    hide InvWith, Start, Enabled, Step;
    var o :| InvWith(After(s, run), o);
    SomeoneMoves(After(s, run), o);
  }

  // ---- progress

  /** In every reachable state a thread waits only for the latch, while another has it, or asleep in the queue. */
  lemma OnlyTheseWait(s: System, run: seq<Act>, t: Thread)
    requires Start(s) && Possible(s, run) && t in After(s, run).pc
    ensures
      var e := After(s, run);
      || Enabled(e, t) || (e.pc[t].Blocked? && t in e.queue)
      || ((e.pc[t].WantLatch? || e.pc[t].WantSlow? || e.pc[t].Waking?) && e.latch.Some? && e.latch.value != t)
  {
    StartKeeps(s);
    RunKeeps(s, run);
    var e := After(s, run);
    var o :| InvWith(e, o);
    assert Queued(e.pc[t]) ==> t in e.queue;
    assert e.latch == Some(t) ==> HasLatch(e.pc[t]);
  }

  /** At most this many of its own steps are left before a thread is outside again. */
  function Rank(p: Pc): nat {
    match p
    case Outside => 0
    case Trying(n) => if n <= SPIN_COUNT then 26 - n else 16
    case WantLatch => 15
    case Exchanging => 14
    case Appending => 13
    case Parting => 12
    case Blocked => 11
    case Waking => 10
    case Storing => 10
    case Leaving => 9
    case Holding => 8
    case Releasing => 7
    case WantSlow(_) => 6
    case Checking(_) => 5
    case HandingOff => 4
    case Settling => 3
    case Unlatching => 2
  }

  lemma OwnStepAdvances(s: System, t: Thread, spurious: bool)
    requires Enabled(s, t) && s.pc[t] != Outside && !Step(s, t, spurious).panicked
    requires s.pc[t].HandingOff? && s.queue != [] ==> s.queue[0] != t
    ensures t in Step(s, t, spurious).pc && Rank(Step(s, t, spurious).pc[t]) < Rank(s.pc[t])
  {
  }

  lemma HandOffAdvances(s: System, t: Thread, spurious: bool, u: Thread)
    requires Enabled(s, t) && s.pc[t].HandingOff? && s.queue != [] && QueueIs(s.queue, s.pc) && u in s.pc && u != t
    ensures u in Step(s, t, spurious).pc && Rank(Step(s, t, spurious).pc[u]) <= Rank(s.pc[u])
  {
    assert s.queue[0] in s.pc && Queued(s.pc[s.queue[0]]);
    hide QueueIs;
  }

  /**
   Every own step of a thread that uses the mutex brings it nearer to the end, and no step of another sets it back.
   */
  lemma Advances(s: System, o: Option<Thread>, t: Thread, spurious: bool, u: Thread)
    requires InvWith(s, o) && Enabled(s, t) && u in s.pc && s.pc[u] != Outside
    ensures
      var s' := Step(s, t, spurious);
      u in s'.pc && Rank(s'.pc[u]) <= Rank(s.pc[u]) && (u == t ==> Rank(s'.pc[u]) < Rank(s.pc[u]))
  {
    hide StateIs, PlacesAre, Sole, Rank;
    StateKept(s, o, t, spurious);
    if s.queue != [] {
      assert s.queue[0] in s.pc && Queued(s.pc[s.queue[0]]);
    }
    hide QueueIs;
    if u == t {
      OwnStepAdvances(s, t, spurious);
    } else if s.pc[t].HandingOff? {
      if s.queue != [] {
        HandOffAdvances(s, t, spurious, u);
      }
    } else {
      OneMoves(s, t, spurious);
      hide Step;
    }
  }

  function Steps(run: seq<Act>, t: Thread): nat {
    if run == [] then 0 else (if run[0].thread == t then 1 else 0) + Steps(run[1..], t)
  }

  /** So a thread that has taken more steps than its rank has been outside on the way. */
  lemma {:induction false} GetsOut(s: System, o: Option<Thread>, run: seq<Act>, t: Thread) returns (i: nat)
    requires InvWith(s, o) && Possible(s, run) && t in s.pc && Steps(run, t) >= Rank(s.pc[t])
    ensures i <= |run| && Possible(s, run[..i]) && t in After(s, run[..i]).pc && After(s, run[..i]).pc[t] == Outside
    decreases |run|
  {
    if s.pc[t] == Outside {
      i := 0;
    } else {
      hide InvWith, Step, Rank, OwnerAfter, Enabled;
      var a := run[0];
      var s' := Step(s, a.thread, a.spurious);
      StepKeeps(s, o, a.thread, a.spurious);
      Advances(s, o, a.thread, a.spurious, t);
      var j := GetsOut(s', OwnerAfter(s, o, a.thread, a.spurious), run[1..], t);
      i := j + 1;
      assert run[..i][1..] == run[1..][..j];
    }
  }

  /** n steps of t alone lead from s to e. */
  ghost predicate Alone(s: System, t: Thread, n: nat, e: System)
    decreases n
  {
    if n == 0 then e == s else Enabled(s, t) && Alone(Step(s, t, false), t, n - 1, e)
  }

  function Solo(t: Thread, n: nat): (run: seq<Act>)
    ensures |run| == n && forall i :: 0 <= i < n ==> run[i] == Act(t, false)
  {
    seq(n, _ => Act(t, false))
  }

  lemma {:induction false} AloneRuns(s: System, t: Thread, n: nat, e: System)
    requires Alone(s, t, n, e)
    ensures Possible(s, Solo(t, n)) && After(s, Solo(t, n)) == e
    decreases n
  {
    if n > 0 {
      AloneRuns(Step(s, t, false), t, n - 1, e);
      hide Step;
      assert Solo(t, n)[1..] == Solo(t, n - 1);
    }
  }

  lemma {:induction false} AloneOn(s: System, t: Thread, n: nat, m: System, k: nat, e: System)
    requires Alone(s, t, n, m) && Alone(m, t, k, e)
    ensures Alone(s, t, n + k, e)
    decreases n
  {
    if n > 0 {
      AloneOn(Step(s, t, false), t, n - 1, m, k, e);
    }
  }

  /** The mutex is free, and t has left it. */
  ghost predicate LeftFree(e: System, t: Thread) {
    && e.state == Unlocked && e.latch == None && e.queue == [] && t in e.pc && e.pc[t] == Outside
    && forall u :: u in e.pc ==> !Owns(e.pc[u])
  }

  /** t has left the mutex to the first thread of queue q, which goes on from where it was put to sleep. */
  ghost predicate HandedOn(e: System, t: Thread, q: seq<Thread>)
    requires q != []
  {
    && t in e.pc && e.pc[t] == Outside && e.latch == None && e.queue == q[1..]
    && q[0] in e.pc && e.pc[q[0]] == Waking && (forall u :: u in e.pc && Owns(e.pc[u]) ==> u == q[0])
    && e.state == if q[1..] == [] then Locked else Contested
  }

  /** With nobody queued and the latch free, release takes two steps. */
  lemma ReleasesFree(s: System, o: Option<Thread>, t: Thread) returns (e: System)
    requires InvWith(s, o) && s.latch == None && t in s.pc && s.pc[t] == Holding && s.queue == []
    ensures Alone(s, t, 2, e) && LeftFree(e, t)
  {
    assert o == Some(t) && s.state == Locked;
    var s1 := Step(s, t, false);
    e := Step(s1, t, false);
    assert Alone(e, t, 0, e) && Alone(s1, t, 1, e);
    assert e.pc == s.pc[t := Outside];
    assert forall u :: u in s.pc && u != t ==> !Owns(s.pc[u]);
  }

  /** From holding, with the latch free and the mutex contested, to the point of handing off. */
  lemma ToHandOff(s: System, t: Thread) returns (e: System)
    requires !s.panicked && s.latch == None && t in s.pc && s.pc[t] == Holding && s.state == Contested && s.queue != []
    ensures Alone(s, t, 4, e) && e == s.(latch := Some(t), pc := s.pc[t := HandingOff])
  {
    var s1 := Step(s, t, false);
    var s2 := Step(s1, t, false);
    var s3 := Step(s2, t, false);
    e := Step(s3, t, false);
    assert Alone(e, t, 0, e) && Alone(s3, t, 1, e) && Alone(s2, t, 2, e) && Alone(s1, t, 3, e);
    assert e.pc == s.pc[t := HandingOff];
  }

  /** From there to the end of release. */
  lemma FromHandOff(s: System, t: Thread) returns (e: System)
    requires !s.panicked && t in s.pc && s.pc[t] == HandingOff && s.state == Contested && s.queue != []
    requires s.queue[0] in s.pc && s.queue[0] != t
    ensures Alone(s, t, 3, e) && e.latch == None && e.queue == s.queue[1..]
    ensures e.pc == s.pc[t := Outside][s.queue[0] := Waking] && e.state == if s.queue[1..] == [] then Locked
      else Contested
  {
    var s1 := Step(s, t, false);
    var s2 := Step(s1, t, false);
    e := Step(s2, t, false);
    assert Alone(e, t, 0, e) && Alone(s2, t, 1, e) && Alone(s1, t, 2, e);
    assert e.pc == s.pc[t := Outside][s.queue[0] := Waking];
  }

  lemma HolderFacts(s: System, o: Option<Thread>, t: Thread)
    requires InvWith(s, o) && s.latch == None && t in s.pc && s.pc[t] == Holding && s.queue != []
    ensures s.state == Contested && s.queue[0] in s.pc && s.queue[0] != t && !s.panicked
    ensures !Owns(Outside) && forall u :: u in s.pc && u != t ==> !Owns(s.pc[u])
  {
    assert Queued(s.pc[s.queue[0]]);
  }

  /** With threads queued, it takes the slow path and hands the mutex to the first of them. */
  lemma ReleasesSlow(s: System, o: Option<Thread>, t: Thread) returns (e: System)
    requires InvWith(s, o) && s.latch == None && t in s.pc && s.pc[t] == Holding && s.queue != []
    ensures Alone(s, t, 7, e) && HandedOn(e, t, s.queue)
  {
    hide InvWith, Step, Alone, Owns;
    var q := s.queue[0];
    HolderFacts(s, o, t);
    var m := ToHandOff(s, t);
    e := FromHandOff(m, t);
    AloneOn(s, t, 4, m, 3, e);
    assert e.pc == s.pc[t := Outside][q := Waking];
  }

  /** What a thread that is not the owner can still do with the latch, it does in a few steps of its own. */
  lemma {:induction false} LatchOpens(s: System, o: Option<Thread>, t: Thread) returns (run: seq<Act>)
    requires InvWith(s, o) && t in s.pc && s.pc[t] == Holding
    ensures Possible(s, run) && (forall a :: a in run ==> a.thread != t)
    ensures var e := After(s, run); e.latch == None && t in e.pc && e.pc[t] == Holding && InvWith(e, o)
    decreases if s.latch == None then 0 else Rank(s.pc[s.latch.value])
  {
    run := [];
    if s.latch.Some? {
      var u := s.latch.value;
      LatchStep(s, o, t, u);
      var s' := Step(s, u, false);
      hide InvWith, Step, Rank;
      var rest := LatchOpens(s', o, t);
      run := [Act(u, false)] + rest;
      assert run[1..] == rest;
    }
  }

  lemma LatchStep(s: System, o: Option<Thread>, t: Thread, u: Thread)
    requires InvWith(s, o) && t in s.pc && s.pc[t] == Holding && s.latch == Some(u)
    ensures
      && Enabled(s, u) && u != t
      && var s' := Step(s, u, false);
      && InvWith(s', o) && t in s'.pc && s'.pc[t] == Holding && (s'.latch == None || s'.latch == Some(u))
      && u in s.pc && u in s'.pc && (s'.latch.Some? ==> Rank(s'.pc[u]) < Rank(s.pc[u]))
  {
    assert HasLatch(s.pc[u]) && o == Some(t) && !Owns(s.pc[u]);
    StepKeeps(s, o, u, false);
    Advances(s, o, u, false, u);
    hide InvWith, Sole, QueueIs, PlacesAre;
    assert s.state != Unlocked by {
      OwnedState(s, o);
    }
  }

  lemma OwnedState(s: System, o: Option<Thread>)
    requires InvWith(s, o) && o.Some?
    ensures s.state != Unlocked
  {
  }

  /**
   From every reachable state a holder gets out: once whoever has the latch has let go of it, the holder's own steps
   alone leave the mutex free, or to the thread that queued first.
   */
  lemma ReleaseCompletes(s: System, run: seq<Act>, t: Thread) returns (first: seq<Act>, n: nat)
    requires Start(s) && Possible(s, run) && t in After(s, run).pc && After(s, run).pc[t] == Holding
    ensures Possible(After(s, run), first) && (forall a :: a in first ==> a.thread != t)
    ensures
      var m := After(After(s, run), first);
      && m.latch == None && t in m.pc && m.pc[t] == Holding && Possible(m, Solo(t, n))
      && var e := After(m, Solo(t, n));
      if m.queue == [] then n == 2 && LeftFree(e, t) else n == 7 && HandedOn(e, t, m.queue)
  {
    StartKeeps(s);
    RunKeeps(s, run);
    var h := After(s, run);
    var o :| InvWith(h, o);
    first := LatchOpens(h, o, t);
    var m := After(h, first);
    if m.queue == [] {
      n := 2;
      var e := ReleasesFree(m, o, t);
      AloneRuns(m, t, 2, e);
    } else {
      n := 7;
      var e := ReleasesSlow(m, o, t);
      AloneRuns(m, t, 7, e);
    }
  }

  /** t holds the mutex, alone. */
  ghost predicate HoldsIt(e: System, t: Thread) {
    t in e.pc && e.pc[t] == Holding && e.state != Unlocked && forall u :: u in e.pc && Owns(e.pc[u]) ==> u == t
  }

  /** How many steps an acquire still needs when nothing is in its way. */
  function AcquireSteps(p: Pc): nat {
    match p
    case Outside => 2
    case Trying(_) => 1
    case WantLatch => 4
    case Waking => 2
    case _ => 0
  }

  /** An acquire of a free mutex succeeds, on the fast path and on the slow one. */
  lemma AcquiresFree(s: System, o: Option<Thread>, t: Thread) returns (e: System)
    requires InvWith(s, o) && s.state == Unlocked && s.latch == None && t in s.pc
    requires s.pc[t].Outside? || s.pc[t].Trying? || s.pc[t].WantLatch?
    ensures Alone(s, t, AcquireSteps(s.pc[t]), e) && HoldsIt(e, t) && e.state == Locked && e.queue == []
  {
    assert o == None && s.queue == [];
    var s1 := Step(s, t, false);
    if s.pc[t].Outside? {
      e := Step(s1, t, false);
      assert Alone(e, t, 0, e) && Alone(s1, t, 1, e);
    } else if s.pc[t].Trying? {
      e := s1;
      assert Alone(e, t, 0, e);
    } else {
      var s2 := Step(s1, t, false);
      var s3 := Step(s2, t, false);
      e := Step(s3, t, false);
      assert Alone(e, t, 0, e) && Alone(s3, t, 1, e) && Alone(s2, t, 2, e) && Alone(s1, t, 3, e);
    }
    assert e.pc == s.pc[t := Holding];
    assert forall u :: u in s.pc && u != t ==> !Owns(s.pc[u]);
  }

  /** A thread that was handed the mutex goes on to hold it. */
  lemma WakesHolding(s: System, o: Option<Thread>, t: Thread) returns (e: System)
    requires InvWith(s, o) && s.latch == None && t in s.pc && s.pc[t] == Waking
    ensures Alone(s, t, 2, e) && HoldsIt(e, t) && e.queue == s.queue
  {
    assert o == Some(t);
    var s1 := Step(s, t, false);
    e := Step(s1, t, false);
    assert Alone(e, t, 0, e) && Alone(s1, t, 1, e);
    assert e.pc == s.pc[t := Holding];
    assert forall u :: u in s.pc && u != t ==> !Owns(s.pc[u]);
  }

  /** In every reachable state with the latch free, nothing else is in the way of an acquire. */
  lemma AcquireCompletes(s: System, run: seq<Act>, t: Thread)
    requires Start(s) && Possible(s, run) && t in After(s, run).pc && After(s, run).latch == None
    requires
      var m := After(s, run);
      m.pc[t].Waking? || (m.state == Unlocked && (m.pc[t].Outside? || m.pc[t].Trying? || m.pc[t].WantLatch?))
    ensures
      var m := After(s, run);
      var more := Solo(t, AcquireSteps(m.pc[t]));
      Possible(m, more) && HoldsIt(After(m, more), t)
  {
    StartKeeps(s);
    RunKeeps(s, run);
    var m := After(s, run);
    var o :| InvWith(m, o);
    if m.pc[t].Waking? {
      var e := WakesHolding(m, o, t);
      AloneRuns(m, t, 2, e);
    } else {
      var e := AcquiresFree(m, o, t);
      AloneRuns(m, t, AcquireSteps(m.pc[t]), e);
    }
  }

  /** On a mutex that stays taken, a thread tries eleven times and then goes for the latch. */
  lemma {:induction false} Spins(s: System, t: Thread, n: nat) returns (e: System)
    requires !s.panicked && s.state != Unlocked && t in s.pc && s.pc[t] == Trying(n) && n <= SPIN_COUNT
    ensures Alone(s, t, SPIN_COUNT + 1 - n, e) && t in e.pc && e.pc[t] == WantLatch && e == s.(pc := e.pc)
    decreases SPIN_COUNT - n
  {
    var s1 := Step(s, t, false);
    if n < SPIN_COUNT {
      e := Spins(s1, t, n + 1);
    } else {
      e := s1;
      assert Alone(e, t, 0, e);
    }
  }

  // ---- the lock it implements

  /** A fair lock: an owner and those waiting, in order. */
  datatype Lock = Lock(owner: Option<Thread>, waiting: seq<Thread>)

  predicate Acquires(a: Lock, b: Lock) { a == Lock(None, []) && b.owner.Some? && b.waiting == [] }

  predicate QueuesUp(a: Lock, b: Lock) {
    && a.owner.Some? && a.owner == b.owner && |b.waiting| == |a.waiting| + 1 && b.waiting[..|a.waiting|] == a.waiting
    && b.waiting[|a.waiting|] !in a.waiting && b.waiting[|a.waiting|] != a.owner.value
  }

  predicate HandsOver(a: Lock, b: Lock) {
    a.owner.Some? && a.waiting != [] && b == Lock(Some(a.waiting[0]), a.waiting[1..])
  }

  predicate Frees(a: Lock, b: Lock) { a.owner.Some? && a.waiting == [] && b == Lock(None, []) }

  predicate LockStep(a: Lock, b: Lock) { a == b || Acquires(a, b) || QueuesUp(a, b) || HandsOver(a, b) || Frees(a, b) }

  /** Which step of the fair lock a thread's step is, by the place it is at. */
  ghost predicate RefinesAs(s: System, t: Thread, spurious: bool, a: Lock, b: Lock)
    requires t in s.pc
  {
    match s.pc[t]
    case Trying(_) => if s.state == Unlocked && !spurious then Acquires(a, b) && b.owner == Some(t) else a == b
    case Exchanging => if s.state == Unlocked then Acquires(a, b) && b.owner == Some(t) else a == b
    case Appending => QueuesUp(a, b) && b.waiting[|a.waiting|] == t
    case Releasing => if s.state == Locked then Frees(a, b) && a.owner == Some(t) else a == b
    case HandingOff => HandsOver(a, b) && a.owner == Some(t)
    case _ => a == b
  }

  lemma StepRefines(s: System, o: Option<Thread>, t: Thread, spurious: bool)
    requires InvWith(s, o) && Enabled(s, t)
    ensures
      var a, b := Lock(o, s.queue), Lock(OwnerAfter(s, o, t, spurious), Step(s, t, spurious).queue);
      LockStep(a, b) && RefinesAs(s, t, spurious, a, b)
  {
    assert Relies(s, o, s.pc[t]);
    assert Owns(s.pc[t]) ==> o == Some(t);
    if s.pc[t].Appending? {
      assert t !in s.queue && o != Some(t);
    }
  }

  ghost predicate LockRun(trace: seq<Lock>) {
    forall i :: 0 <= i < |trace| - 1 ==> LockStep(trace[i], trace[i + 1])
  }

  /** trace shows, before and after each step, who owns the mutex and who is queued, and that step's own effect. */
  ghost predicate Shows(s: System, run: seq<Act>, trace: seq<Lock>)
    requires Possible(s, run)
    decreases |run|
  {
    && trace != [] && trace[0].waiting == s.queue && Sole(trace[0].owner, s.pc, Owns)
    && if run == [] then |trace| == 1
       else
         && Shows(Step(s, run[0].thread, run[0].spurious), run[1..], trace[1..])
         && RefinesAs(s, run[0].thread, run[0].spurious, trace[0], trace[1])
  }

  lemma {:induction false} RefinesFrom(s: System, o: Option<Thread>, run: seq<Act>) returns (trace: seq<Lock>)
    requires InvWith(s, o) && Possible(s, run)
    ensures Shows(s, run, trace) && LockRun(trace) && trace[0] == Lock(o, s.queue)
    decreases |run|
  {
    trace := [Lock(o, s.queue)];
    if run != [] {
      var t, b := run[0].thread, run[0].spurious;
      StepKeeps(s, o, t, b);
      StepRefines(s, o, t, b);
      var rest := RefinesFrom(Step(s, t, b), OwnerAfter(s, o, t, b), run[1..]);
      trace := trace + rest;
      assert trace[1..] == rest;
    }
  }

  /** Every run of the mutex is a run of the fair lock. */
  lemma Refines(s: System, run: seq<Act>)
    requires Start(s) && Possible(s, run)
    ensures exists trace :: Shows(s, run, trace) && LockRun(trace) && trace[0] == Lock(None, [])
  {
    assert InvWith(s, None);
    var trace := RefinesFrom(s, None, run);
  }
}
