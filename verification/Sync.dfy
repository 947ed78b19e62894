/**
 `Once`, `OnceCell` and `Mutex` of rust/src/sync.rs as an interleaved protocol: any
 number of threads, each atomic access a step of its own.

 A thread calls `get_or_init` on one shared cell and, if its job has a critical section,
 locks the mutex inside.  A critical section is a list of separate writes to the
 protected value, so other threads' steps can fall between them.
 */
module Sync {
  import opened Results

  datatype Once = Incomplete | InProgress | Completed

  /**
   `closure` is what the closure passed to `get_or_init` returns, None if it panics;
   `body` are the writes of the critical section, None if the caller does not lock; a
   write that is None panics.
   */
  datatype Job<!D> = Job(closure: Option<D>, body: Option<seq<D -> Option<D>>>)

  /** The program points between atomic steps; after a panic in `Failed` the guard is never dropped. */
  datatype Pc<!D> =
    | Idle
    | Entering(job: Job<D>)
    | Trying(job: Job<D>)
    | RunningClosure(job: Job<D>)
    | ClosureDone(job: Job<D>)
    | Spinning(job: Job<D>)
    | Reading(job: Job<D>)
    | Locking(job: Job<D>)
    | Critical(job: Job<D>, done: nat)
    | Failed(job: Job<D>, done: nat)
    | Panicked

  /**
   The cell with its mutex, and the threads.  The last three fields are history: how
   often a closure's value was written, that value, and the critical sections in the
   order their locks were acquired.
   */
  datatype State<!D> = State(
    once: Once,
    value: Option<D>,
    locked: bool,
    pcs: map<nat, Pc<D>>,
    writes: nat,
    initial: Option<D>,
    log: seq<seq<D -> Option<D>>>)

  function PcOf<D>(s: State<D>, t: nat): Pc<D>
  {
    if t in s.pcs then s.pcs[t] else Idle
  }

  function Goto<D>(s: State<D>, t: nat, pc: Pc<D>): State<D>
  {
    s.(pcs := s.pcs[t := pc])
  }

  /** Writes applied one after the other, None if one of them panics. */
  function Apply<D>(body: seq<D -> Option<D>>, d: Option<D>): Option<D>
    decreases |body|
  {
    if body == [] then d
    else
      match Apply(body[..|body| - 1], d)
      case None => None
      case Some(v) => body[|body| - 1](v)
  }

  /** Critical sections one after the other, each without interruption. */
  function ApplyAll<D>(log: seq<seq<D -> Option<D>>>, d: Option<D>): Option<D>
    decreases |log|
  {
    if log == [] then d else Apply(log[|log| - 1], ApplyAll(log[..|log| - 1], d))
  }

  // -------------------------------------------------------------------- steps

  datatype Event<!D> = Call(job: Job<D>) | Next

  /** Thread t takes its next atomic step. */
  ghost predicate Step<D>(s: State<D>, t: nat, e: Event<D>, s': State<D>)
  {
    (e.Call? <==> PcOf(s, t) == Idle) &&
    match PcOf(s, t)
    case Idle => s' == Goto(s, t, Entering(e.job))
    case Entering(job) => s' == Goto(s, t, if s.once == Completed then Reading(job) else Trying(job))
    case Trying(job) =>
      if s.once == Incomplete then s' == Goto(s, t, RunningClosure(job)).(once := InProgress)
      else s' == Goto(s, t, Spinning(job))
    case RunningClosure(job) =>
      if job.closure.None? then s' == Goto(s, t, Panicked)
      else s' == Goto(s, t, ClosureDone(job)).(value := job.closure, initial := job.closure, writes := s.writes + 1)
    case ClosureDone(job) => s' == Goto(s, t, Reading(job)).(once := Completed)
    case Spinning(job) => s' == if s.once == Completed then Goto(s, t, Reading(job)) else s
    case Reading(job) =>
      if s.value.None? then s' == Goto(s, t, Panicked)
      else s' == Goto(s, t, if job.body.Some? then Locking(job) else Idle)
    case Locking(job) =>
      && job.body.Some?
      && s' == if s.locked then s
               else Goto(s, t, Critical(job, 0)).(locked := true, log := s.log + [job.body.value])
    case Critical(job, done) =>
      && job.body.Some? && s.value.Some?
      && if done < |job.body.value|
         then
           var written := job.body.value[done](s.value.value);
           s' == if written.None? then Goto(s, t, Failed(job, done))
                 else Goto(s, t, Critical(job, done + 1)).(value := written)
         else s' == Goto(s, t, Idle).(locked := false)
    case Failed(_, _) => false
    case Panicked => false
  }

  ghost predicate Start<D>(s: State<D>)
  {
    s == State(Incomplete, None, false, map[], 0, None, [])
  }

  datatype Action<!D> = Action(thread: nat, event: Event<D>)

  ghost predicate IsRun<D>(run: seq<State<D>>, actions: seq<Action<D>>)
  {
    && |run| == |actions| + 1
    && Start(run[0])
    && forall k :: 0 <= k < |actions| ==> Step(run[k], actions[k].thread, actions[k].event, run[k + 1])
  }

  // ---------------------------------------------------------------- invariant

  predicate Initialising<D>(pc: Pc<D>)
  {
    pc.RunningClosure? || pc.ClosureDone?
  }

  predicate PastOnce<D>(pc: Pc<D>)
  {
    pc.Reading? || pc.Locking? || pc.Critical? || pc.Failed?
  }

  /** `Once`: one initialiser at most, and nobody past it before it is complete. */
  ghost predicate OnceThreads<D>(s: State<D>)
  {
    && (forall t, u :: Initialising(PcOf(s, t)) && Initialising(PcOf(s, u)) ==> t == u)
    && (forall t :: Initialising(PcOf(s, t)) ==>
          s.once == InProgress && s.writes == if PcOf(s, t).RunningClosure? then 0 else 1)
    && (forall t :: PastOnce(PcOf(s, t)) ==> s.once == Completed)
  }

  /** The value is written once at most, and before completion. */
  ghost predicate OnceWrites<D>(s: State<D>)
  {
    && (s.once == Incomplete ==> s.writes == 0)
    && (s.once == Completed ==> s.writes == 1)
    && s.writes <= 1
    && (s.writes == 1 <==> s.value.Some?) && (s.writes == 1 <==> s.initial.Some?)
  }

  ghost predicate OnceInv<D>(s: State<D>)
  {
    OnceThreads(s) && OnceWrites(s)
  }

  ghost predicate Holds<D>(s: State<D>, t: nat)
  {
    PcOf(s, t).Critical? || PcOf(s, t).Failed?
  }

  /** `Mutex`: one guard at most, exactly while locked. */
  ghost predicate MutexInv<D>(s: State<D>)
  {
    && (forall t, u :: Holds(s, t) && Holds(s, u) ==> t == u)
    && (s.locked ==> exists t :: Holds(s, t))
    && (s.locked ==> |s.log| > 0)
    && (forall t :: PcOf(s, t).Locking? || Holds(s, t) ==> PcOf(s, t).job.body.Some?)
    && (forall t :: Holds(s, t) ==>
          && s.locked && |s.log| > 0
          && PcOf(s, t).job.body.value == s.log[|s.log| - 1]
          && PcOf(s, t).done <= |s.log[|s.log| - 1]|)
  }

  /** The protected value is that of the finished critical sections, plus the writes of the current one so far. */
  ghost predicate ValueInv<D>(s: State<D>)
  {
    && (s.value.Some? <==> s.initial.Some?)
    && (s.value.None? ==> s.log == [])
    && (!s.locked ==> s.value == ApplyAll(s.log, s.initial))
    && (forall t :: Holds(s, t) && |s.log| > 0 && PcOf(s, t).done <= |s.log[|s.log| - 1]| ==>
          s.value == Apply(s.log[|s.log| - 1][..PcOf(s, t).done], ApplyAll(s.log[..|s.log| - 1], s.initial)))
  }

  ghost predicate Inv<D>(s: State<D>)
  {
    OnceInv(s) && MutexInv(s) && ValueInv(s)
  }

  lemma StartInv<D>(s: State<D>)
    requires Start(s)
    ensures Inv(s)
  {
    assert forall t :: PcOf(s, t) == Idle;
  }

  /** Only thread t's program point changes. */
  lemma StepMovesOne<D>(s: State<D>, t: nat, e: Event<D>, s': State<D>)
    requires Step(s, t, e, s')
    ensures forall u: nat :: u != t ==> PcOf(s', u) == PcOf(s, u)
    ensures forall u: nat :: u != t ==> (Holds(s', u) <==> Holds(s, u))
  {
  }

  lemma StepKeepsOnce<D>(s: State<D>, t: nat, e: Event<D>, s': State<D>)
    requires Inv(s) && Step(s, t, e, s')
    ensures OnceInv(s')
  {
    StepKeepsThreads(s, t, e, s');
    hide MutexInv, ValueInv;
    assert Initialising(PcOf(s, t)) ==> s.once == InProgress;
    hide OnceThreads;
  }

  lemma StepKeepsThreads<D>(s: State<D>, t: nat, e: Event<D>, s': State<D>)
    requires Inv(s) && Step(s, t, e, s')
    ensures OnceThreads(s')
  {
    hide MutexInv, ValueInv;
    StepMovesOne(s, t, e, s');
    InitialiserAlone(s, t);
    forall u | u != t && Initialising(PcOf(s', u))
      ensures PcOf(s', u) == PcOf(s, u) && !Initialising(PcOf(s', t)) && s'.once == s.once && s'.writes == s.writes
    {
    }
    assert s.once == Completed ==> s'.once == Completed;
    assert PastOnce(PcOf(s', t)) ==> s'.once == Completed;
    assert Initialising(PcOf(s', t)) ==>
             s'.once == InProgress && s'.writes == if PcOf(s', t).RunningClosure? then 0 else 1;
    hide Step, PcOf, OnceWrites;
  }

  lemma InitialiserAlone<D>(s: State<D>, t: nat)
    requires Inv(s)
    ensures forall u :: u != t && Initialising(PcOf(s, u)) ==> s.once == InProgress && !Initialising(PcOf(s, t))
  {
  }

  lemma StepKeepsMutex<D>(s: State<D>, t: nat, e: Event<D>, s': State<D>)
    requires Inv(s) && Step(s, t, e, s')
    ensures MutexInv(s')
  {
    hide OnceInv, ValueInv, Apply, ApplyAll;
    StepMovesOne(s, t, e, s');
    if Holds(s, t) || Holds(s', t) {
      GuardMoves(s, t, e, s');
    } else {
      assert s'.locked == s.locked && s'.log == s.log;
      assert PcOf(s', t).Locking? ==> PcOf(s', t).job.body.Some?;
      hide Step;
      if s.locked {
        var u :| Holds(s, u);
        assert Holds(s', u);
      }
    }
  }

  lemma GuardAlone<D>(s: State<D>, t: nat)
    requires Inv(s) && (Holds(s, t) || !s.locked)
    ensures forall u :: u != t ==> !Holds(s, u)
  {
  }

  /** The guard's thread and the lock agree. */
  ghost predicate GuardOk<D>(s: State<D>, t: nat)
  {
    && (Holds(s, t) <==> s.locked) && !PcOf(s, t).Locking?
    && (Holds(s, t) ==>
          && |s.log| > 0 && PcOf(s, t).job.body.Some?
          && PcOf(s, t).job.body.value == s.log[|s.log| - 1]
          && PcOf(s, t).done <= |s.log[|s.log| - 1]|)
  }

  /** A step of the thread that has the guard, takes it or gives it up. */
  lemma GuardMoves<D>(s: State<D>, t: nat, e: Event<D>, s': State<D>)
    requires Inv(s) && Step(s, t, e, s') && (Holds(s, t) || Holds(s', t))
    ensures MutexInv(s')
  {
    hide OnceInv, ValueInv, Apply, ApplyAll;
    StepMovesOne(s, t, e, s');
    assert Holds(s, t) || !s.locked;
    GuardAlone(s, t);
    if Holds(s, t) { GuardUsed(s, t, e, s'); } else { GuardTaken(s, t, e, s'); }
    assert forall u: nat :: u != t && PcOf(s', u).Locking? ==> PcOf(s, u).job.body.Some?;
    hide Step, PcOf, Inv;
  }

  lemma GuardTaken<D>(s: State<D>, t: nat, e: Event<D>, s': State<D>)
    requires Inv(s) && Step(s, t, e, s') && !Holds(s, t) && Holds(s', t)
    ensures GuardOk(s', t)
  {
    hide Inv, Apply, ApplyAll;
    assert PcOf(s, t).Locking?;
  }

  lemma GuardUsed<D>(s: State<D>, t: nat, e: Event<D>, s': State<D>)
    requires Inv(s) && Step(s, t, e, s') && Holds(s, t)
    ensures GuardOk(s', t)
  {
    hide OnceInv, ValueInv, Apply, ApplyAll;
    assert PcOf(s, t).Critical?;
  }

  lemma StepKeepsValue<D>(s: State<D>, t: nat, e: Event<D>, s': State<D>)
    requires Inv(s) && Step(s, t, e, s')
    ensures ValueInv(s')
  {
    StepMovesOne(s, t, e, s');
    match PcOf(s, t)
    case Locking(job) =>
      if !s.locked { LockKeepsValue(s, t, e, s'); }
    case Critical(job, done) =>
      if done < |job.body.value| { WriteKeepsValue(s, t, e, s'); } else { UnlockKeepsValue(s, t, e, s'); }
    case _ => hide Apply, ApplyAll;
  }

  lemma LockKeepsValue<D>(s: State<D>, t: nat, e: Event<D>, s': State<D>)
    requires Inv(s) && Step(s, t, e, s') && PcOf(s, t).Locking? && !s.locked
    ensures ValueInv(s')
  {
    StepMovesOne(s, t, e, s');
    assert s'.log[..|s'.log| - 1] == s.log;
    assert s'.log[|s'.log| - 1][..0] == [];
    LockStart(s, t, e, s');
    hide Step, PcOf, OnceInv, ApplyAll, Apply;
  }

  lemma LockStart<D>(s: State<D>, t: nat, e: Event<D>, s': State<D>)
    requires Inv(s) && Step(s, t, e, s') && PcOf(s, t).Locking? && !s.locked
    ensures s'.value == s.value && s'.initial == s.initial && s'.locked && Holds(s', t) && PcOf(s', t).done == 0
    ensures |s'.log| == |s.log| + 1 && s.value.Some?
    ensures s.value == Apply(s'.log[|s'.log| - 1][..0], s.value)
  {
    hide ApplyAll;
  }

  lemma WriteKeepsValue<D>(s: State<D>, t: nat, e: Event<D>, s': State<D>)
    requires Inv(s) && Step(s, t, e, s') && PcOf(s, t).Critical? && PcOf(s, t).job.body.Some?
    requires PcOf(s, t).done < |PcOf(s, t).job.body.value|
    ensures ValueInv(s')
  {
    StepMovesOne(s, t, e, s');
    assert Holds(s, t) && Holds(s', t);
    var done, body := PcOf(s, t).done, s.log[|s.log| - 1];
    assert body[..done + 1][..done] == body[..done];
    assert PcOf(s', t).done == if body[done](s.value.value).None? then done else done + 1;
    hide ApplyAll, OnceInv;
  }

  lemma UnlockKeepsValue<D>(s: State<D>, t: nat, e: Event<D>, s': State<D>)
    requires Inv(s) && Step(s, t, e, s') && PcOf(s, t).Critical? && PcOf(s, t).job.body.Some?
    requires PcOf(s, t).done >= |PcOf(s, t).job.body.value|
    ensures ValueInv(s')
  {
    StepMovesOne(s, t, e, s');
    assert Holds(s, t);
    var body := s.log[|s.log| - 1];
    assert body[..|body|] == body;
    hide Apply, OnceInv;
  }

  lemma StepKeepsInv<D>(s: State<D>, t: nat, e: Event<D>, s': State<D>)
    requires Inv(s) && Step(s, t, e, s')
    ensures Inv(s')
  {
    StepKeepsOnce(s, t, e, s');
    StepKeepsMutex(s, t, e, s');
    StepKeepsValue(s, t, e, s');
  }

  lemma {:induction false} RunKeepsInv<D>(run: seq<State<D>>, actions: seq<Action<D>>, k: nat)
    requires IsRun(run, actions) && k < |run|
    ensures Inv(run[k])
  {
    hide Inv, Step;
    if k == 0 {
      StartInv(run[0]);
    } else {
      RunKeepsInv(run, actions, k - 1);
      StepKeepsInv(run[k - 1], actions[k - 1].thread, actions[k - 1].event, run[k]);
    }
  }

  // --------------------------------------------------------------- whole runs

  /** The closure step of a run: thread t executes the closure it won. */
  ghost predicate ExecutesClosure<D>(run: seq<State<D>>, actions: seq<Action<D>>, k: nat)
    requires k < |actions| <= |run|
  {
    PcOf(run[k], actions[k].thread).RunningClosure?
  }

  ghost predicate NobodyInitialises<D>(s: State<D>)
  {
    s.once != Incomplete && forall t :: !PcOf(s, t).RunningClosure?
  }

  lemma NobodyStays<D>(s: State<D>, t: nat, e: Event<D>, s': State<D>)
    requires Inv(s) && Step(s, t, e, s')
    requires NobodyInitialises(s) || PcOf(s, t).RunningClosure?
    ensures NobodyInitialises(s')
  {
    StepMovesOne(s, t, e, s');
    hide MutexInv, ValueInv;
  }

  lemma {:induction false} NobodyLater<D>(run: seq<State<D>>, actions: seq<Action<D>>, i: nat, k: nat)
    requires IsRun(run, actions) && i <= k < |run| && NobodyInitialises(run[i])
    ensures NobodyInitialises(run[k])
    decreases k
  {
    hide Step, NobodyInitialises, Inv;
    if i < k {
      NobodyLater(run, actions, i, k - 1);
      RunKeepsInv(run, actions, k - 1);
      NobodyStays(run[k - 1], actions[k - 1].thread, actions[k - 1].event, run[k]);
    }
  }

  /** In every interleaving at most one closure is executed, whether it returns or panics. */
  lemma ClosureRunsOnce<D>(run: seq<State<D>>, actions: seq<Action<D>>, i: nat, j: nat)
    requires IsRun(run, actions) && i < |actions| && j < |actions|
    requires ExecutesClosure(run, actions, i) && ExecutesClosure(run, actions, j)
    ensures i == j
  {
    if i < j { ClosureBefore(run, actions, i, j); }
    if j < i { ClosureBefore(run, actions, j, i); }
  }

  lemma ClosureBefore<D>(run: seq<State<D>>, actions: seq<Action<D>>, i: nat, j: nat)
    requires IsRun(run, actions) && i < j < |actions| && ExecutesClosure(run, actions, i)
    ensures !ExecutesClosure(run, actions, j)
  {
    RunKeepsInv(run, actions, i);
    hide Inv, Step;
    NobodyStays(run[i], actions[i].thread, actions[i].event, run[i + 1]);
    NobodyLater(run, actions, i + 1, j);
  }

  lemma CompletedStays<D>(s: State<D>, t: nat, e: Event<D>, s': State<D>)
    requires Inv(s) && Step(s, t, e, s') && s.once == Completed
    ensures s'.once == Completed && s'.initial == s.initial && s'.writes == s.writes
    ensures PcOf(s', t) != Panicked
  {
    hide MutexInv, ValueInv;
  }

  /**
   From the first return of `get_or_init` on the cell is never written again, every
   later caller sees the same initialised value, and no closure runs: in particular the
   closures that would panic never do.
   */
  lemma {:induction false} InitialisedForGood<D>(run: seq<State<D>>, actions: seq<Action<D>>, i: nat, k: nat, t: nat)
    requires IsRun(run, actions) && i <= k < |run| && PastOnce(PcOf(run[i], t))
    ensures run[k].once == Completed && run[k].initial == run[i].initial && run[k].initial.Some? && run[k].writes == 1
    ensures forall u :: !Initialising(PcOf(run[k], u))
    decreases k
  {
    hide Inv, Step, PcOf, Initialising, PastOnce;
    RunKeepsInv(run, actions, k);
    if i < k {
      InitialisedForGood(run, actions, i, k - 1, t);
      RunKeepsInv(run, actions, k - 1);
      CompletedStays(run[k - 1], actions[k - 1].thread, actions[k - 1].event, run[k]);
      CompletedMeans(run[k]);
    } else {
      PastMeansCompleted(run[k], t);
      CompletedMeans(run[k]);
    }
  }

  lemma PastMeansCompleted<D>(s: State<D>, t: nat)
    requires Inv(s) && PastOnce(PcOf(s, t))
    ensures s.once == Completed
  {
  }

  lemma CompletedMeans<D>(s: State<D>)
    requires Inv(s) && s.once == Completed
    ensures s.initial.Some? && s.writes == 1 && forall u :: !Initialising(PcOf(s, u))
  {
  }

  /** Initialisation is complete and thread t has not panicked. */
  ghost predicate Calm<D>(s: State<D>, t: nat)
  {
    s.once == Completed && PcOf(s, t) != Panicked
  }

  lemma CalmStays<D>(s: State<D>, t: nat, e: Event<D>, s': State<D>, u: nat)
    requires Inv(s) && Step(s, t, e, s') && Calm(s, u)
    ensures Calm(s', u)
  {
    CompletedStays(s, t, e, s');
    StepMovesOne(s, t, e, s');
    hide Inv, Step;
  }

  /** A thread that enters after initialisation is complete does not panic. */
  lemma {:induction false} NoPanicAfterInit<D>(run: seq<State<D>>, actions: seq<Action<D>>, i: nat, k: nat, t: nat)
    requires IsRun(run, actions) && i <= k < |run| && Calm(run[i], t)
    ensures Calm(run[k], t)
    decreases k
  {
    hide Inv, Step, Calm;
    if i < k {
      NoPanicAfterInit(run, actions, i, k - 1, t);
      RunKeepsInv(run, actions, k - 1);
      CalmStays(run[k - 1], actions[k - 1].thread, actions[k - 1].event, run[k], t);
    }
  }

  /** Initialisation is under way, and nobody is left to finish it. */
  ghost predicate Abandoned<D>(s: State<D>)
  {
    s.once == InProgress && forall t :: !Initialising(PcOf(s, t))
  }

  lemma AbandonedStays<D>(s: State<D>, t: nat, e: Event<D>, s': State<D>)
    requires Inv(s) && Step(s, t, e, s')
    requires Abandoned(s) || (PcOf(s, t).RunningClosure? && PcOf(s, t).job.closure.None?)
    ensures Abandoned(s')
  {
    StepMovesOne(s, t, e, s');
    hide MutexInv, ValueInv;
  }

  /** When the closure panics, no caller ever gets past the cell: all of them spin for good. */
  lemma {:induction false} PanicBlocksAll<D>(run: seq<State<D>>, actions: seq<Action<D>>, i: nat, k: nat)
    requires IsRun(run, actions) && i < |actions| && i < k < |run| && ExecutesClosure(run, actions, i)
    requires PcOf(run[i], actions[i].thread).job.closure.None?
    ensures Abandoned(run[k]) && forall t :: !PastOnce(PcOf(run[k], t))
    decreases k
  {
    hide Inv, Step, Abandoned;
    if k - 1 > i { PanicBlocksAll(run, actions, i, k - 1); }
    RunKeepsInv(run, actions, k - 1);
    AbandonedStays(run[k - 1], actions[k - 1].thread, actions[k - 1].event, run[k]);
    RunKeepsInv(run, actions, k);
    AbandonedMeans(run[k]);
  }

  lemma AbandonedMeans<D>(s: State<D>)
    requires Inv(s) && Abandoned(s)
    ensures forall t :: !PastOnce(PcOf(s, t))
  {
  }

  /** In every interleaving at most one thread holds the guard. */
  lemma MutualExclusion<D>(run: seq<State<D>>, actions: seq<Action<D>>, k: nat, t: nat, u: nat)
    requires IsRun(run, actions) && k < |run| && Holds(run[k], t) && Holds(run[k], u)
    ensures t == u && run[k].locked
  {
    RunKeepsInv(run, actions, k);
  }

  /** The critical sections that have released the lock, in the order they acquired it. */
  function Finished<D>(s: State<D>): seq<seq<D -> Option<D>>>
  {
    if s.locked && |s.log| > 0 then s.log[..|s.log| - 1] else s.log
  }

  /**
   At every moment the protected value is what running the finished critical sections
   one after the other, in the order of acquisition, makes of the initial one, followed
   by the writes the one thread inside has done so far.
   */
  lemma Serialised<D>(run: seq<State<D>>, actions: seq<Action<D>>, k: nat)
    requires IsRun(run, actions) && k < |run| && run[k].value.Some?
    ensures run[k].initial.Some?
    ensures !run[k].locked ==> run[k].value == ApplyAll(run[k].log, run[k].initial)
    ensures run[k].locked ==> exists t :: Holds(run[k], t)
    ensures forall t :: Holds(run[k], t) ==>
              && run[k].locked && |run[k].log| == |Finished(run[k])| + 1
              && PcOf(run[k], t).done <= |run[k].log[|run[k].log| - 1]|
              && run[k].value == Apply(run[k].log[|run[k].log| - 1][..PcOf(run[k], t).done],
                                       ApplyAll(Finished(run[k]), run[k].initial))
  {
    RunKeepsInv(run, actions, k);
  }

  /** What a panic inside a critical section leaves behind. */
  ghost predicate Wedged<D>(s: State<D>, t: nat, value: Option<D>, log: seq<seq<D -> Option<D>>>)
  {
    PcOf(s, t).Failed? && s.locked && s.value == value && s.log == log
  }

  lemma WedgedStays<D>(s: State<D>, t: nat, value: Option<D>, log: seq<seq<D -> Option<D>>>,
                       u: nat, e: Event<D>, s': State<D>)
    requires Inv(s) && Step(s, u, e, s') && Wedged(s, t, value, log)
    ensures Wedged(s', t, value, log)
  {
    hide ValueInv, Apply, ApplyAll;
    StepMovesOne(s, u, e, s');
    GuardAlone(s, t);
    PastMeansCompleted(s, t);
    CompletedMeans(s);
    assert u != t && !Initialising(PcOf(s, u)) && !Holds(s, u);
    hide Inv, Initialising;
  }

  /**
   When a thread panics inside its critical section, the lock is never free again: for
   good nobody else gets the guard, and the value stays as the panic left it.
   */
  lemma {:induction false} PanicWedgesLock<D>(run: seq<State<D>>, actions: seq<Action<D>>, i: nat, k: nat, t: nat)
    requires IsRun(run, actions) && i <= k < |run| && PcOf(run[i], t).Failed?
    ensures Wedged(run[k], t, run[i].value, run[i].log)
    ensures forall u :: Holds(run[k], u) ==> u == t
    decreases k
  {
    hide Inv, Step, Wedged;
    RunKeepsInv(run, actions, k);
    if i < k {
      PanicWedgesLock(run, actions, i, k - 1, t);
      RunKeepsInv(run, actions, k - 1);
      WedgedStays(run[k - 1], t, run[i].value, run[i].log, actions[k - 1].thread, actions[k - 1].event, run[k]);
    } else {
      FailedIsWedged(run[k], t);
    }
    WedgedIsAlone(run[k], t, run[i].value, run[i].log);
  }

  lemma FailedIsWedged<D>(s: State<D>, t: nat)
    requires Inv(s) && PcOf(s, t).Failed?
    ensures Wedged(s, t, s.value, s.log)
  {
    assert Holds(s, t);
  }

  lemma WedgedIsAlone<D>(s: State<D>, t: nat, value: Option<D>, log: seq<seq<D -> Option<D>>>)
    requires Inv(s) && Wedged(s, t, value, log)
    ensures forall u :: Holds(s, u) ==> u == t
  {
    assert Holds(s, t);
  }
}
