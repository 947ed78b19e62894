/**
 What a call through `OnceCell` and `Mutex` achieves, over every run of `Sync`: it comes
 to an end unless it has to wait, nobody waits for nothing, it leaves the cell
 initialised, and it runs its own critical section exactly once.
 */
module SyncCalls {
  import opened Results
  import opened Sync

  // ----------------------------------------------------------- calls come to an end

  /** Thread t cannot move on by itself: the cell is not complete, or the lock is taken. */
  ghost predicate Waits<D>(s: State<D>, t: nat)
  {
    || (PcOf(s, t).Spinning? && s.once != Completed)
    || (PcOf(s, t).Locking? && s.locked)
  }

  /** The number of writes of a job's critical section. */
  function Writes<D>(job: Job<D>): nat
  {
    if job.body.Some? then |job.body.value| else 0
  }

  /** An upper bound on the steps a call still takes, steps spent waiting not counted. */
  function StepsLeft<D>(pc: Pc<D>): nat
  {
    match pc
    case Idle => 0
    case Entering(job) => 7 + Writes(job)
    case Trying(job) => 6 + Writes(job)
    case RunningClosure(job) => 5 + Writes(job)
    case ClosureDone(job) => 4 + Writes(job)
    case Spinning(job) => 4 + Writes(job)
    case Reading(job) => 3 + Writes(job)
    case Locking(job) => 2 + Writes(job)
    case Critical(job, done) => if done <= Writes(job) then 1 + Writes(job) - done else 1
    case Failed(_, _) => 0
    case Panicked => 0
  }

  /** Every thread that has not panicked can take a step; an idle one can call whatever it likes. */
  lemma StepEnabled<D>(s: State<D>, t: nat, job: Job<D>) returns (s': State<D>)
    requires Inv(s) && PcOf(s, t) != Panicked && !PcOf(s, t).Failed?
    ensures Step(s, t, if PcOf(s, t) == Idle then Call(job) else Next, s')
  {
    hide ValueInv, Apply, ApplyAll;
    match PcOf(s, t)
    case Idle => s' := Goto(s, t, Entering(job));
    case Entering(j) => s' := Goto(s, t, if s.once == Completed then Reading(j) else Trying(j));
    case Trying(j) =>
      s' := if s.once == Incomplete then Goto(s, t, RunningClosure(j)).(once := InProgress)
            else Goto(s, t, Spinning(j));
    case RunningClosure(j) =>
      s' := if j.closure.None? then Goto(s, t, Panicked)
            else Goto(s, t, ClosureDone(j)).(value := j.closure, initial := j.closure, writes := s.writes + 1);
    case ClosureDone(j) => s' := Goto(s, t, Reading(j)).(once := Completed);
    case Spinning(j) => s' := if s.once == Completed then Goto(s, t, Reading(j)) else s;
    case Reading(j) =>
      s' := if s.value.None? then Goto(s, t, Panicked) else Goto(s, t, if j.body.Some? then Locking(j) else Idle);
    case Locking(j) =>
      s' := if s.locked then s else Goto(s, t, Critical(j, 0)).(locked := true, log := s.log + [j.body.value]);
    case Critical(j, done) =>
      assert Holds(s, t) && PastOnce(PcOf(s, t));
      if done < |j.body.value| {
        var written := j.body.value[done](s.value.value);
        s' := if written.None? then Goto(s, t, Failed(j, done))
              else Goto(s, t, Critical(j, done + 1)).(value := written);
      } else {
        s' := Goto(s, t, Idle).(locked := false);
      }
  }

  /** Unless it waits, each of its own steps brings a call nearer to its end. */
  lemma OwnStepDecreases<D>(s: State<D>, t: nat, s': State<D>)
    requires Inv(s) && Step(s, t, Next, s')
    ensures if Waits(s, t) then s' == s else StepsLeft(PcOf(s', t)) < StepsLeft(PcOf(s, t))
  {
    hide ValueInv, OnceInv, Apply, ApplyAll;
    assert Holds(s, t) ==> PcOf(s, t).done <= |PcOf(s, t).job.body.value|;
  }

  /** A thread panics only where its closure does, and fails only where one of its writes does. */
  lemma PanicsOnlyWhere<D>(s: State<D>, t: nat, e: Event<D>, s': State<D>)
    requires Inv(s) && Step(s, t, e, s')
    ensures PcOf(s', t) == Panicked ==> PcOf(s, t).RunningClosure? && PcOf(s, t).job.closure.None?
    ensures PcOf(s', t).Failed? ==>
              && PcOf(s, t).Critical? && s.value.Some? && PcOf(s, t).job.body.Some?
              && PcOf(s, t).done < |PcOf(s, t).job.body.value|
              && PcOf(s, t).job.body.value[PcOf(s, t).done](s.value.value).None?
  {
    hide MutexInv, ValueInv, Apply, ApplyAll;
    assert PcOf(s, t).Reading? ==> PastOnce(PcOf(s, t));
  }

  // ------------------------------------------------------------- nobody waits in vain

  /** Some closure has panicked before step k. */
  ghost predicate ClosurePanicked<D>(run: seq<State<D>>, actions: seq<Action<D>>, k: nat)
    requires IsRun(run, actions) && k < |run|
  {
    exists x :: 0 <= x < k && ExecutesClosure(run, actions, x) && PcOf(run[x], actions[x].thread).job.closure.None?
  }

  lemma WaitingStep<D>(s: State<D>, t: nat, e: Event<D>, s': State<D>)
    requires Inv(s) && Step(s, t, e, s')
    ensures (exists u :: PcOf(s', u).Spinning?) && s'.once == Incomplete ==>
              (exists u :: PcOf(s, u).Spinning?) && s.once == Incomplete
    ensures s'.once == InProgress && (forall u :: !Initialising(PcOf(s', u))) ==>
              || (s.once == InProgress && forall u :: !Initialising(PcOf(s, u)))
              || (PcOf(s, t).RunningClosure? && PcOf(s, t).job.closure.None?)
  {
    hide MutexInv, ValueInv;
    StepMovesOne(s, t, e, s');
    if u :| PcOf(s', u).Spinning? { assert u != t ==> PcOf(s, u).Spinning?; }
    if s'.once == InProgress && forall u :: !Initialising(PcOf(s', u)) {
      assert !Initialising(PcOf(s', t)) && s.once == InProgress;
      forall u | u != t
        ensures !Initialising(PcOf(s, u))
      {
        assert !Initialising(PcOf(s', u));
      }
    }
  }

  /**
   In every interleaving: while a thread spins on the cell, some other thread is about to
   complete it, or the closure has panicked; while one spins on the lock, some other
   thread is inside its critical section or has panicked there.
   */
  lemma {:induction false} NobodyWaitsInVain<D>(run: seq<State<D>>, actions: seq<Action<D>>, k: nat)
    requires IsRun(run, actions) && k < |run|
    ensures run[k].once == Incomplete ==> forall t :: !PcOf(run[k], t).Spinning?
    ensures run[k].once == InProgress && !ClosurePanicked(run, actions, k) ==>
              exists t :: Initialising(PcOf(run[k], t))
    ensures run[k].locked ==> exists t :: Holds(run[k], t)
  {
    hide Inv, Step, Initialising;
    RunKeepsInv(run, actions, k);
    LockedIsHeld(run[k]);
    if k == 0 {
      assert forall t :: PcOf(run[0], t) == Idle;
    } else {
      NobodyWaitsInVain(run, actions, k - 1);
      RunKeepsInv(run, actions, k - 1);
      WaitingStep(run[k - 1], actions[k - 1].thread, actions[k - 1].event, run[k]);
      if ClosurePanicked(run, actions, k - 1) { PanickedStays(run, actions, k - 1); }
      if PcOf(run[k - 1], actions[k - 1].thread).RunningClosure?
         && PcOf(run[k - 1], actions[k - 1].thread).job.closure.None? {
        assert ExecutesClosure(run, actions, k - 1);
      }
    }
  }

  lemma PanickedStays<D>(run: seq<State<D>>, actions: seq<Action<D>>, k: nat)
    requires IsRun(run, actions) && k + 1 < |run| && ClosurePanicked(run, actions, k)
    ensures ClosurePanicked(run, actions, k + 1)
  {
  }

  lemma LockedIsHeld<D>(s: State<D>)
    requires Inv(s)
    ensures s.locked ==> exists t :: Holds(s, t)
  {
  }

  // -------------------------------------------------------- a call initialises the cell

  ghost predicate InOrDone<D>(s: State<D>, t: nat)
  {
    PcOf(s, t) != Idle || s.once == Completed
  }

  lemma InOrDoneStays<D>(s: State<D>, t: nat, u: nat, e: Event<D>, s': State<D>)
    requires Inv(s) && Step(s, u, e, s') && InOrDone(s, t)
    ensures InOrDone(s', t)
  {
    StepMovesOne(s, u, e, s');
    hide MutexInv, ValueInv;
    assert PcOf(s, u).Reading? || Holds(s, u) ==> PastOnce(PcOf(s, u));
  }

  /** In every interleaving: once a call has returned, the cell is complete. */
  lemma {:induction false} ReturnedMeansComplete<D>(run: seq<State<D>>, actions: seq<Action<D>>, i: nat, k: nat)
    requires IsRun(run, actions) && i < |actions| && i < k < |run| && actions[i].event.Call?
    ensures PcOf(run[k], actions[i].thread) == Idle ==> run[k].once == Completed
    ensures InOrDone(run[k], actions[i].thread)
    decreases k
  {
    hide Inv, Step;
    RunKeepsInv(run, actions, k - 1);
    if i < k - 1 {
      ReturnedMeansComplete(run, actions, i, k - 1);
      InOrDoneStays(run[k - 1], actions[i].thread, actions[k - 1].thread, actions[k - 1].event, run[k]);
    } else {
      CallEnters(run[i], actions[i].thread, actions[i].event.job, run[k]);
    }
  }

  lemma CallEnters<D>(s: State<D>, t: nat, job: Job<D>, s': State<D>)
    requires Step(s, t, Call(job), s')
    ensures PcOf(s', t) == Entering(job)
  {
  }

  /** In every interleaving: the thread whose closure returned completes the cell with its next step. */
  lemma ClosureCompletes<D>(run: seq<State<D>>, actions: seq<Action<D>>, k: nat)
    requires IsRun(run, actions) && k < |actions|
    ensures PcOf(run[k], actions[k].thread).ClosureDone? ==> run[k + 1].once == Completed
    ensures ExecutesClosure(run, actions, k) && PcOf(run[k], actions[k].thread).job.closure.Some? ==>
              PcOf(run[k + 1], actions[k].thread).ClosureDone?
  {
  }

  /** In every interleaving: a thread that spins on a complete cell goes on with its next step. */
  lemma SpinningEnds<D>(run: seq<State<D>>, actions: seq<Action<D>>, k: nat)
    requires IsRun(run, actions) && k < |actions|
    requires PcOf(run[k], actions[k].thread).Spinning? && run[k].once == Completed
    ensures PcOf(run[k + 1], actions[k].thread).Reading?
  {
  }

  // ------------------------------------------------------------ calls and critical sections

  /** The job of the last call thread t made among the first k actions. */
  function LastCall<D>(actions: seq<Action<D>>, t: nat, k: nat): Option<Job<D>>
    requires k <= |actions|
  {
    if k == 0 then None
    else if actions[k - 1].thread == t && actions[k - 1].event.Call? then Some(actions[k - 1].event.job)
    else LastCall(actions, t, k - 1)
  }

  predicate HasJob<D>(pc: Pc<D>)
  {
    pc != Idle && pc != Panicked
  }

  lemma JobKept<D>(s: State<D>, t: nat, e: Event<D>, s': State<D>)
    requires Step(s, t, e, s') && HasJob(PcOf(s', t))
    ensures e.Call? ==> PcOf(s', t).job == e.job
    ensures e.Next? ==> HasJob(PcOf(s, t)) && PcOf(s', t).job == PcOf(s, t).job
  {
  }

  /** A thread inside a call is at work on the job it called last. */
  lemma {:induction false} JobIsLastCall<D>(run: seq<State<D>>, actions: seq<Action<D>>, t: nat, k: nat)
    requires IsRun(run, actions) && k < |run| && HasJob(PcOf(run[k], t))
    ensures LastCall(actions, t, k) == Some(PcOf(run[k], t).job)
  {
    hide Step;
    if k == 0 {
      assert false;
    } else {
      StepMovesOne(run[k - 1], actions[k - 1].thread, actions[k - 1].event, run[k]);
      if actions[k - 1].thread == t { JobKept(run[k - 1], t, actions[k - 1].event, run[k]); }
      if actions[k - 1].thread != t || actions[k - 1].event.Next? { JobIsLastCall(run, actions, t, k - 1); }
    }
  }

  /** In every interleaving the value first written is what the closure of the running call returned. */
  lemma InitialIsClosure<D>(run: seq<State<D>>, actions: seq<Action<D>>, k: nat)
    requires IsRun(run, actions) && k < |actions| && ExecutesClosure(run, actions, k)
    ensures LastCall(actions, actions[k].thread, k).Some?
    ensures var f := LastCall(actions, actions[k].thread, k).value.closure;
            f.Some? ==> run[k + 1].value == f && run[k + 1].initial == f
  {
    JobIsLastCall(run, actions, actions[k].thread, k);
  }

  /** Step k takes the lock. */
  ghost predicate Takes<D>(run: seq<State<D>>, actions: seq<Action<D>>, k: nat)
    requires k < |actions| < |run|
  {
    !Holds(run[k], actions[k].thread) && Holds(run[k + 1], actions[k].thread)
  }

  /** The critical section of the last call thread t made. */
  function CalledBody<D>(actions: seq<Action<D>>, t: nat, k: nat): seq<D -> Option<D>>
    requires k <= |actions|
  {
    match LastCall(actions, t, k)
    case None => []
    case Some(job) => if job.body.Some? then job.body.value else []
  }

  /** The critical sections called by the threads that took the lock, in that order. */
  ghost function Acquired<D>(run: seq<State<D>>, actions: seq<Action<D>>, k: nat): seq<seq<D -> Option<D>>>
    requires k <= |actions| < |run|
  {
    if k == 0 then []
    else Acquired(run, actions, k - 1)
         + if Takes(run, actions, k - 1) then [CalledBody(actions, actions[k - 1].thread, k - 1)] else []
  }

  lemma LogStep<D>(s: State<D>, t: nat, e: Event<D>, s': State<D>)
    requires Inv(s) && Step(s, t, e, s')
    ensures !Holds(s, t) && Holds(s', t) ==>
              && PcOf(s, t).Locking? && PcOf(s, t).job.body.Some? && !s.locked
              && s'.log == s.log + [PcOf(s, t).job.body.value] && s'.value == s.value
    ensures Holds(s, t) || !Holds(s', t) ==> s'.log == s.log
  {
    hide OnceInv, ValueInv, Apply, ApplyAll;
  }

  /** In every interleaving the log is the critical sections the calls asked for, in the order of acquisition. */
  lemma {:induction false} LogIsOfCalls<D>(run: seq<State<D>>, actions: seq<Action<D>>, k: nat)
    requires IsRun(run, actions) && k < |run|
    ensures run[k].log == Acquired(run, actions, k)
  {
    hide Inv, Step, Holds;
    if k > 0 {
      LogIsOfCalls(run, actions, k - 1);
      RunKeepsInv(run, actions, k - 1);
      LogStep(run[k - 1], actions[k - 1].thread, actions[k - 1].event, run[k]);
      if Takes(run, actions, k - 1) { JobIsLastCall(run, actions, actions[k - 1].thread, k - 1); }
    }
  }

  /** How often thread t takes the lock from step i to step k. */
  ghost function Acquisitions<D>(run: seq<State<D>>, actions: seq<Action<D>>, t: nat, i: nat, k: nat): nat
    requires i <= k <= |actions| < |run|
    decreases k - i
  {
    if i == k then 0
    else Acquisitions(run, actions, t, i, k - 1)
         + if actions[k - 1].thread == t && Takes(run, actions, k - 1) then 1 else 0
  }

  /** Thread t called job at step i and has not returned before step k. */
  ghost predicate InCall<D>(run: seq<State<D>>, actions: seq<Action<D>>, t: nat, job: Job<D>, i: nat, k: nat)
  {
    && IsRun(run, actions) && i < |actions| && i < k < |run| && actions[i] == Action(t, Call(job))
    && forall x :: i < x < k ==> PcOf(run[x], t) != Idle
  }

  lemma GuardStep<D>(s: State<D>, t: nat, s': State<D>)
    requires Inv(s) && Step(s, t, Next, s')
    ensures Holds(s, t) ==> PcOf(s, t).job.body.Some? && (PcOf(s', t) == Idle || Holds(s', t))
    ensures PcOf(s', t) == Idle ==> !Holds(s', t)
    ensures !Holds(s, t) && HasJob(PcOf(s, t)) ==>
              && (PcOf(s', t) == Idle ==> PcOf(s, t).job.body.None?)
              && (Holds(s', t) ==> PcOf(s, t).job.body.Some?)
  {
    hide OnceInv, ValueInv, Apply, ApplyAll;
  }

  lemma StillCalled<D>(actions: seq<Action<D>>, t: nat, i: nat, k: nat)
    requires i < k <= |actions| && actions[i].thread == t && actions[i].event.Call?
    requires forall x :: i < x < k && actions[x].thread == t ==> actions[x].event.Next?
    ensures LastCall(actions, t, k) == Some(actions[i].event.job)
    decreases k
  {
    if k - 1 > i { StillCalled(actions, t, i, k - 1); }
  }

  lemma NoCallInside<D>(run: seq<State<D>>, actions: seq<Action<D>>, t: nat, job: Job<D>, i: nat, k: nat)
    requires InCall(run, actions, t, job, i, k)
    ensures LastCall(actions, t, k) == Some(job)
  {
    forall x | i < x < k && actions[x].thread == t
      ensures actions[x].event.Next?
    {
      assert Step(run[x], actions[x].thread, actions[x].event, run[x + 1]);
    }
    StillCalled(actions, t, i, k);
  }

  /**
   In every interleaving a call takes the lock exactly once between call and return if it
   has a critical section, and never if it has none.
   */
  lemma {:induction false} OneAcquisitionPerCall<D>(run: seq<State<D>>, actions: seq<Action<D>>, t: nat, job: Job<D>,
                                                    i: nat, k: nat)
    requires InCall(run, actions, t, job, i, k)
    ensures Acquisitions(run, actions, t, i, k) ==
            if Holds(run[k], t) || (PcOf(run[k], t) == Idle && job.body.Some?) then 1 else 0
    decreases k
  {
    hide Inv, Step, Holds, LastCall;
    var s, e, s' := run[k - 1], actions[k - 1], run[k];
    RunKeepsInv(run, actions, k - 1);
    StepMovesOne(s, e.thread, e.event, s');
    if i < k - 1 {
      OneAcquisitionPerCall(run, actions, t, job, i, k - 1);
      NoCallInside(run, actions, t, job, i, k - 1);
      if HasJob(PcOf(s, t)) { JobIsLastCall(run, actions, t, k - 1); }
      if e.thread == t {
        InsideIsNext(s, t, e.event, s');
        GuardStep(s, t, s');
      }
    } else {
      CallEnters(s, t, job, s');
      NotHolding(s, t, job, s');
      assert Acquisitions(run, actions, t, i, i) == 0;
    }
  }

  lemma InsideIsNext<D>(s: State<D>, t: nat, e: Event<D>, s': State<D>)
    requires Step(s, t, e, s') && PcOf(s, t) != Idle
    ensures e == Next && PcOf(s, t) != Panicked
  {
  }

  lemma NotHolding<D>(s: State<D>, t: nat, job: Job<D>, s': State<D>)
    requires Step(s, t, Call(job), s')
    ensures !Holds(s, t) && !Holds(s', t)
  {
  }

  /** Step x is the acquisition of the lock by thread t for w, and since then nobody else has entered. */
  ghost predicate TakenAt<D>(run: seq<State<D>>, actions: seq<Action<D>>, t: nat, w: seq<D -> Option<D>>,
                             x: nat, k: nat)
    requires k < |run|
  {
    && x < k && x < |actions| && actions[x].thread == t
    && !run[x].locked && run[k].log == run[x].log + [w]
    && run[x].value.Some? && run[x].value == ApplyAll(run[x].log, run[x].initial) && run[k].initial == run[x].initial
    && run[x].once == Completed
  }

  lemma TakenNow<D>(s: State<D>, t: nat, e: Event<D>, s': State<D>)
    requires Inv(s) && Step(s, t, e, s') && !Holds(s, t) && Holds(s', t)
    ensures !s.locked && s.value.Some? && s.value == ApplyAll(s.log, s.initial) && s'.initial == s.initial
    ensures s.once == Completed
  {
    hide Apply, ApplyAll;
    assert PcOf(s, t).Locking? && PastOnce(PcOf(s, t));
  }

  lemma OthersStayOut<D>(s: State<D>, t: nat, u: nat, e: Event<D>, s': State<D>)
    requires Inv(s) && Step(s, u, e, s') && Holds(s, t)
    ensures s'.log == s.log && s'.initial == s.initial
  {
    hide ValueInv, Apply, ApplyAll;
    assert s.locked && PastOnce(PcOf(s, t));
    assert PcOf(s, u).Locking? || Holds(s, u) || s'.log == s.log;
  }

  /** While a call holds the lock, there is the step at which it took it. */
  lemma {:induction false} HoldsSince<D>(run: seq<State<D>>, actions: seq<Action<D>>, t: nat, job: Job<D>,
                                         i: nat, k: nat) returns (x: nat)
    requires InCall(run, actions, t, job, i, k) && Holds(run[k], t)
    ensures job.body.Some? && i < x < k && TakenAt(run, actions, t, job.body.value, x, k)
    decreases k
  {
    hide Inv, Step, Holds, LastCall, TakenAt;
    var s, e, s' := run[k - 1], actions[k - 1], run[k];
    RunKeepsInv(run, actions, k - 1);
    if i == k - 1 {
      NotHolding(s, t, job, s');
      assert false;
    } else if Holds(s, t) {
      x := HoldsSince(run, actions, t, job, i, k - 1);
      OthersStayOut(s, t, e.thread, e.event, s');
      TakenLonger(run, actions, t, job.body.value, x, k - 1);
    } else {
      x := k - 1;
      StepMovesOne(s, e.thread, e.event, s');
      LogStep(s, t, e.event, s');
      NoCallInside(run, actions, t, job, i, k - 1);
      JobIsLastCall(run, actions, t, k - 1);
      TakenNow(s, t, e.event, s');
      TakenFirst(run, actions, t, job.body.value, x);
    }
  }

  lemma TakenLonger<D>(run: seq<State<D>>, actions: seq<Action<D>>, t: nat, w: seq<D -> Option<D>>, x: nat, k: nat)
    requires k + 1 < |run| && TakenAt(run, actions, t, w, x, k)
    requires run[k + 1].log == run[k].log && run[k + 1].initial == run[k].initial
    ensures TakenAt(run, actions, t, w, x, k + 1)
  {
  }

  lemma TakenFirst<D>(run: seq<State<D>>, actions: seq<Action<D>>, t: nat, w: seq<D -> Option<D>>, x: nat)
    requires x < |actions| && x + 1 < |run| && actions[x].thread == t
    requires !run[x].locked && run[x + 1].log == run[x].log + [w] && run[x + 1].initial == run[x].initial
    requires run[x].value.Some? && run[x].value == ApplyAll(run[x].log, run[x].initial) && run[x].once == Completed
    ensures TakenAt(run, actions, t, w, x, x + 1)
  {
  }

  /**
   In every interleaving: when a call with a critical section returns, the value is what
   that critical section, run as a whole, makes of the value at the moment the call took
   the lock, and the lock is free.
   */
  lemma ReturnAppliesBody<D>(run: seq<State<D>>, actions: seq<Action<D>>, t: nat, job: Job<D>, i: nat, r: nat)
      returns (x: nat)
    requires InCall(run, actions, t, job, i, r) && PcOf(run[r], t) == Idle && job.body.Some?
    ensures i < x < r && actions[x].thread == t && !run[x].locked && !run[r].locked
    ensures run[x].value.Some? && run[r].value.Some?
    ensures run[r].value == Apply(job.body.value, run[x].value)
    ensures run[r].log == run[x].log + [job.body.value]
  {
    hide Inv, Step, Holds, LastCall;
    var s, e := run[r - 1], actions[r - 1];
    RunKeepsInv(run, actions, r - 1);
    if i == r - 1 {
      CallEnters(s, t, job, run[r]);
      assert false;
    }
    StepMovesOne(s, e.thread, e.event, run[r]);
    assert e.thread == t;
    InsideIsNext(s, t, e.event, run[r]);
    GuardStep(s, t, run[r]);
    NoCallInside(run, actions, t, job, i, r - 1);
    JobIsLastCall(run, actions, t, r - 1);
    x := HoldsSince(run, actions, t, job, i, r - 1);
    ReleaseValue(run, actions, t, job.body.value, x, r - 1);
  }

  lemma ReleaseValue<D>(run: seq<State<D>>, actions: seq<Action<D>>, t: nat, w: seq<D -> Option<D>>, x: nat, k: nat)
    requires k + 1 < |run| && TakenAt(run, actions, t, w, x, k) && Inv(run[k]) && Holds(run[k], t)
    requires Step(run[k], t, Next, run[k + 1]) && PcOf(run[k + 1], t) == Idle
    ensures !run[k + 1].locked && run[k + 1].value.Some? && run[k + 1].value == Apply(w, run[x].value)
    ensures run[k + 1].log == run[x].log + [w]
  {
    hide OnceInv, Apply, ApplyAll;
    var s := run[k];
    assert s.log[|s.log| - 1] == w && s.log[..|s.log| - 1] == run[x].log;
    assert w[..|w|] == w;
  }
}
