/**
 Cooperative scheduling in rust/src/proc.rs on one hart: `new` and `give_up` work on the
 process table under its lock, and `give_up` drops the guard before `switch_context`.
 */
module RustSched {
  import opened Sv32
  import opened StackWords

  const PROC_MAX: nat := 8
  const SAVED: nat := 13

  // ---------------------------------------------------------------- selection

  /** The lowest runnable slot from 1 on that is not the current one, else slot 0. */
  ghost predicate Picked(runnable: seq<bool>, curr: nat, next: nat)
    requires |runnable| == PROC_MAX && next < PROC_MAX
  {
    if next > 0
    then runnable[next] && next != curr && forall j :: 1 <= j < next ==> !runnable[j] || j == curr
    else forall j :: 1 <= j < PROC_MAX ==> !runnable[j] || j == curr
  }

  /** The loop of `give_up`. */
  method PickNext(runnable: seq<bool>, curr: nat) returns (next: nat)
    requires |runnable| == PROC_MAX && curr < PROC_MAX
    ensures next < PROC_MAX && Picked(runnable, curr, next)
    ensures curr > 0 ==> next != curr
  {
    next := 0;
    for i := 1 to PROC_MAX
      invariant next == 0
      invariant forall j :: 1 <= j < i ==> !runnable[j] || j == curr
    {
      if runnable[i] && i != curr {
        next := i;
        break;
      }
    }
  }

  /** The loop of `next_unused`: the lowest slot that is not in use, or PROC_MAX. */
  method NextUnused(runnable: seq<bool>) returns (slot: nat)
    requires |runnable| == PROC_MAX
    ensures slot <= PROC_MAX && (forall i :: 0 <= i < slot ==> runnable[i])
    ensures slot < PROC_MAX ==> !runnable[slot]
  {
    slot := 0;
    while slot < PROC_MAX && runnable[slot]
      invariant slot <= PROC_MAX && forall i :: 0 <= i < slot ==> runnable[i]
    {
      slot := slot + 1;
    }
  }

  /** Two runnable user slots lie below j. */
  ghost predicate TwoBelow(runnable: seq<bool>, j: nat)
    requires |runnable| == PROC_MAX && j < PROC_MAX
  {
    exists a, b :: 1 <= a < b < j && runnable[a] && runnable[b]
  }

  /**
   Of two picks in a row one goes to the runnable slot j exactly when fewer than two
   runnable slots lie below it.  Slots above it may be added between the picks.
   */
  lemma ServedWithinTwo(runnable: seq<bool>, later: seq<bool>, curr: nat, n1: nat, n2: nat, j: nat)
    requires |runnable| == |later| == PROC_MAX && n1 < PROC_MAX && n2 < PROC_MAX && 1 <= j < PROC_MAX
    requires runnable[j] && forall i :: 0 <= i <= j ==> later[i] == runnable[i]
    requires Picked(runnable, curr, n1) && Picked(later, n1, n2)
    ensures n1 == j || n2 == j <==> !TwoBelow(runnable, j)
  {
    if n1 != j && n2 != j {
      assert 1 <= n2 < j && runnable[n2] && n2 != n1;
      assert 1 <= n1 < j && runnable[n1];
    }
  }

  /** Pick k of a sequence leads to pick k + 1. */
  ghost predicate PicksAt(runnable: seq<bool>, picks: seq<nat>, k: nat)
    requires |runnable| == PROC_MAX
  {
    k + 1 < |picks| && picks[k + 1] < PROC_MAX && Picked(runnable, picks[k], picks[k + 1])
  }

  /**
   With slots 1, 2 and 3 runnable slot 3 is starved: from any slot, for any number of
   turns, a run of picks goes to slots 1 and 2 only.
   */
  lemma {:induction false} SlotThreeStarves(curr: nat, turns: nat) returns (runnable: seq<bool>, picks: seq<nat>)
    requires curr < PROC_MAX
    ensures |runnable| == PROC_MAX && runnable[3]
    ensures |picks| == turns + 1 && picks[0] == curr
    ensures forall k :: 0 <= k < turns ==> PicksAt(runnable, picks, k)
    ensures forall k :: 1 <= k <= turns ==> picks[k] != 3
    ensures runnable == seq(PROC_MAX, i => i < 4)
  {
    if turns == 0 {
      runnable, picks := seq(PROC_MAX, i => i < 4), [curr];
    } else {
      runnable, picks := SlotThreeStarves(curr, turns - 1);
      var next := if picks[turns - 1] == 1 then 2 else 1;
      assert Picked(runnable, picks[turns - 1], next);
      var more := picks + [next];
      assert forall k :: 0 <= k < turns - 1 && PicksAt(runnable, picks, k) ==> PicksAt(runnable, more, k);
      assert PicksAt(runnable, more, turns - 1);
      picks := more;
    }
  }

  // ------------------------------------------------------------------ machine

  /** The stacks: one per slot, and the boot stack behind them. */
  datatype Layout = Layout(lo: seq<nat>, hi: seq<nat>)

  ghost predicate ValidLayout(l: Layout)
  {
    && |l.lo| == |l.hi| == PROC_MAX + 1
    && (forall i :: 0 <= i <= PROC_MAX ==> l.lo[i] + 4 * SAVED <= l.hi[i])
    && (forall i, j :: 0 <= i <= PROC_MAX && 0 <= j <= PROC_MAX && i != j ==> l.hi[i] <= l.lo[j] || l.hi[j] <= l.lo[i])
  }

  /** The stack a context runs on; the idle context is `kernel_main`, which stays on the boot stack. */
  function Home(i: nat): nat
  {
    if i == 0 then PROC_MAX else i
  }

  /**
   The program points between steps: ordinary code; in `give_up` with the guard taken,
   with the next slot found, with `curr_proc_idx` written, with the guard dropped; in
   `new` with the guard taken and with the slot filled in; after a panic.
   */
  datatype Phase =
    | Executing
    | Scanning
    | Found(next: nat)
    | Leaving(prev: nat)
    | Switching(prev: nat)
    | Creating
    | Created
    | Halted

  /**
   What a context last gave up: its sp and thirteen registers, at index 0 ra and from 1 on
   s0 to s11.  No step looks at it.
   */
  datatype Ctx = Active | Saved(regs: seq<nat>, sp: nat)

  /** `guards` are the contexts that hold a guard of the process table; no step looks at it. */
  datatype State = State(
    mem: Ram,
    regs: seq<nat>,
    sp: nat,
    phase: Phase,
    locked: bool,
    runnable: seq<bool>,
    sps: seq<nat>,
    curr: nat,
    ctx: seq<Ctx>,
    guards: set<nat>)

  /** The slot whose registers are in the machine: the current one, or while switching the previous one. */
  function Owner(s: State): nat
  {
    if s.phase.Leaving? || s.phase.Switching? then s.phase.prev else s.curr
  }

  /** Process code runs on its own stack. */
  ghost predicate WorkStep(l: Layout, s: State, s': State)
    requires ValidLayout(l) && s.curr < PROC_MAX
  {
    && s.phase == Executing && |s'.regs| == SAVED
    && l.lo[Home(s.curr)] + 4 * SAVED <= s'.sp <= l.hi[Home(s.curr)]
    && (forall b: nat :: b < l.lo[Home(s.curr)] || b >= l.hi[Home(s.curr)] ==> Load(s'.mem, b) == Load(s.mem, b))
    && s' == s.(mem := s'.mem, regs := s'.regs, sp := s'.sp)
  }

  /** `give_up` or `new` takes the process-table lock; a lock that is not free makes it spin. */
  ghost predicate AcquireStep(s: State, s': State)
  {
    && s.phase == Executing
    && (s' == s || s'.phase == Scanning || s'.phase == Creating)
    && s' == if s.locked then s else s.(phase := s'.phase, locked := true, guards := s.guards + {Owner(s)})
  }

  /** The scan for the next process. */
  ghost predicate ScanStep(s: State, next: nat, s': State)
    requires |s.runnable| == PROC_MAX
  {
    s.phase == Scanning && next < PROC_MAX && Picked(s.runnable, s.curr, next) && s' == s.(phase := Found(next))
  }

  /** `curr_proc_idx = next_runnable_idx` */
  ghost predicate SetCurrentStep(s: State, s': State)
  {
    s.phase.Found? && s' == s.(phase := Leaving(s.curr), curr := s.phase.next)
  }

  /** The guard goes out of scope: `drop(proc_guard)` in `give_up`, the end of the statement in `new`. */
  ghost predicate DropStep(s: State, s': State)
  {
    && (s.phase.Leaving? || s.phase == Created)
    && s' == s.(phase := if s.phase.Leaving? then Switching(s.phase.prev) else Executing,
                locked := false, guards := s.guards - {Owner(s)})
  }

  /** `switch_context`: push thirteen words on the old stack, pop thirteen from the new one. */
  ghost predicate SwitchStep(s: State, s': State)
  {
    && s.phase.Switching? && s.sp >= 4 * SAVED
    && var prev, at := s.phase.prev, s.sp - 4 * SAVED;
       && prev < |s.sps| && s.curr < |s.sps| && prev < |s.ctx| && s.curr < |s.ctx|
       && var sps := s.sps[prev := at];
          var m := SaveWords(s.mem, at, s.regs);
          s' == s.(mem := m, sps := sps, phase := Executing,
                   regs := LoadWords(m, sps[s.curr], SAVED), sp := sps[s.curr] + 4 * SAVED,
                   ctx := s.ctx[prev := Saved(s.regs, s.sp)][s.curr := Active])
  }

  /** The initial frame of a process: its entry point as ra, then twelve zeros. */
  function Frame(pc: nat): seq<nat>
  {
    [pc] + seq(SAVED - 1, _ => 0)
  }

  ghost predicate LowestUnused(runnable: seq<bool>, i: nat)
  {
    i < |runnable| && !runnable[i] && forall j :: 0 <= j < i ==> runnable[j]
  }

  /** `create_process` fills in the lowest unused slot i. */
  ghost predicate CreateStep(l: Layout, s: State, i: nat, pc: nat, s': State)
    requires ValidLayout(l)
  {
    && s.phase == Creating && i < PROC_MAX && LowestUnused(s.runnable, i) && i < |s.sps| && i < |s.ctx|
    && var at := l.hi[i] - 4 * SAVED;
       s' == s.(mem := SaveWords(s.mem, at, Frame(pc)), phase := Created, runnable := s.runnable[i := true],
                sps := s.sps[i := at], ctx := s.ctx[i := Saved(Frame(pc), l.hi[i])])
  }

  /** It panics without a slot or without memory for the page table, still holding the guard. */
  ghost predicate PanicStep(s: State, s': State)
  {
    s.phase == Creating && s' == s.(phase := Halted)
  }

  ghost predicate Step(l: Layout, s: State, s': State)
    requires ValidLayout(l) && s.curr < PROC_MAX && |s.runnable| == PROC_MAX
  {
    || WorkStep(l, s, s') || AcquireStep(s, s') || (exists next :: ScanStep(s, next, s'))
    || SetCurrentStep(s, s') || DropStep(s, s') || SwitchStep(s, s')
    || (exists i, pc :: CreateStep(l, s, i, pc, s')) || PanicStep(s, s')
  }

  // ---------------------------------------------------------------- invariant

  /** A context that gave up can be resumed with exactly what it saved. */
  ghost predicate Parked(l: Layout, m: Ram, i: nat, sp: nat, c: Ctx)
    requires ValidLayout(l) && i < PROC_MAX
  {
    && c.Saved? && |c.regs| == SAVED && c.sp == sp + 4 * SAVED
    && l.lo[Home(i)] <= sp && sp + 4 * SAVED <= l.hi[Home(i)]
    && At(m, sp, c.regs)
  }

  /** The program points at which a guard is in scope. */
  predicate Guarded(p: Phase)
  {
    p.Scanning? || p.Found? || p.Leaving? || p.Creating? || p.Created? || p.Halted?
  }

  /** The lock is taken exactly while a guard exists, and only the running context ever has one. */
  ghost predicate GuardInv(s: State)
  {
    && (s.locked <==> s.guards != {})
    && s.guards == if Guarded(s.phase) then {Owner(s)} else {}
  }

  /** Slots are filled from the bottom; whoever runs is runnable; a slot that was found is the one to pick. */
  ghost predicate TableInv(s: State)
  {
    && |s.runnable| == |s.sps| == |s.ctx| == PROC_MAX && s.curr < PROC_MAX && Owner(s) < PROC_MAX
    && (forall i, j :: 0 <= i < j < PROC_MAX && s.runnable[j] ==> s.runnable[i])
    && (s.curr != 0 ==> s.runnable[s.curr]) && (Owner(s) != 0 ==> s.runnable[Owner(s)])
    && (s.phase.Found? ==> s.phase.next < PROC_MAX && Picked(s.runnable, s.curr, s.phase.next))
  }

  /** The owner's stack pointer lies in its own stack; every other runnable context, and idle, is parked. */
  ghost predicate StackInv(l: Layout, s: State)
    requires ValidLayout(l) && TableInv(s)
  {
    && |s.regs| == SAVED
    && l.lo[Home(Owner(s))] + 4 * SAVED <= s.sp <= l.hi[Home(Owner(s))]
    && (forall i :: 0 <= i < PROC_MAX && i != Owner(s) && (i == 0 || s.runnable[i]) ==>
          Parked(l, s.mem, i, s.sps[i], s.ctx[i]))
  }

  ghost predicate Inv(l: Layout, s: State)
  {
    ValidLayout(l) && GuardInv(s) && TableInv(s) && StackInv(l, s)
  }

  /** `kernel_main` after initialisation: no process yet, on the boot stack. */
  ghost predicate Boot(l: Layout, s: State)
  {
    && ValidLayout(l)
    && |s.runnable| == |s.sps| == |s.ctx| == PROC_MAX && |s.regs| == SAVED
    && s.phase == Executing && !s.locked && s.guards == {} && s.curr == 0
    && (forall i :: 0 <= i < PROC_MAX ==> !s.runnable[i])
    && l.lo[PROC_MAX] + 4 * SAVED <= s.sp <= l.hi[PROC_MAX]
  }

  lemma BootInv(l: Layout, s: State)
    requires Boot(l, s)
    ensures Inv(l, s)
  {
  }

  /**
   The initial stack frame makes a context that can be resumed: the lowest of its thirteen
   words, which is popped as ra, is the entry point, and the others are zero.
   */
  lemma CreatedIsParked(l: Layout, m: Ram, i: nat, pc: nat)
    requires ValidLayout(l) && 1 <= i < PROC_MAX
    ensures Parked(l, SaveWords(m, l.hi[i] - 4 * SAVED, Frame(pc)), i, l.hi[i] - 4 * SAVED, Saved(Frame(pc), l.hi[i]))
    ensures Load(SaveWords(m, l.hi[i] - 4 * SAVED, Frame(pc)), l.hi[i] - 52) == pc
    ensures forall j :: 1 <= j < 13 ==> Load(SaveWords(m, l.hi[i] - 4 * SAVED, Frame(pc)), l.hi[i] - 52 + 4 * j) == 0
  {
    var at, m' := l.hi[i] - 4 * SAVED, SaveWords(m, l.hi[i] - 4 * SAVED, Frame(pc));
    SaveWordsEffect(m, at, Frame(pc));
    hide SaveWords, Load;
    forall j | 0 <= j < 13
      ensures Load(m', at + 4 * j) == if j == 0 then pc else 0
    {
      assert Load(m', at + 4 * j) == Frame(pc)[j];
    }
    assert Load(m', at + 4 * 0) == pc;
  }

  /** Contexts parked on other stacks than h stay parked when only h is written. */
  lemma ParkedElsewhere(l: Layout, m: Ram, m': Ram, i: nat, sp: nat, c: Ctx, h: nat)
    requires ValidLayout(l) && i < PROC_MAX && h <= PROC_MAX && h != Home(i) && Parked(l, m, i, sp, c)
    requires forall b: nat :: b < l.lo[h] || b >= l.hi[h] ==> Load(m', b) == Load(m, b)
    ensures Parked(l, m', i, sp, c)
  {
    AtUnchanged(m, m', sp, c.regs, l.lo[h], l.hi[h]);
  }

  lemma OthersParked(l: Layout, s: State, m: Ram, h: nat)
    requires Inv(l, s) && h <= PROC_MAX
    requires h == Home(Owner(s)) || (h < PROC_MAX && !s.runnable[h])
    requires forall b: nat :: b < l.lo[h] || b >= l.hi[h] ==> Load(m, b) == Load(s.mem, b)
    ensures forall i :: 0 <= i < PROC_MAX && i != Owner(s) && (i == 0 || s.runnable[i]) ==>
              Parked(l, m, i, s.sps[i], s.ctx[i])
  {
    hide Parked, Load;
    forall i | 0 <= i < PROC_MAX && i != Owner(s) && (i == 0 || s.runnable[i])
      ensures Parked(l, m, i, s.sps[i], s.ctx[i])
    {
      ParkedElsewhere(l, s.mem, m, i, s.sps[i], s.ctx[i], h);
    }
  }

  lemma SwitchKeepsInv(l: Layout, s: State, s': State)
    requires Inv(l, s) && SwitchStep(s, s')
    ensures Inv(l, s')
  {
    var prev, at := s.phase.prev, s.sp - 4 * SAVED;
    SaveWordsEffect(s.mem, at, s.regs);
    hide SaveWords, LoadWords;
    OthersParked(l, s, s'.mem, Home(prev));
    assert Parked(l, s'.mem, prev, at, Saved(s.regs, s.sp));
    hide Parked, At, Load, Picked;
    SwitchTargets(l, s, s');
  }

  lemma SwitchTargets(l: Layout, s: State, s': State)
    requires Inv(l, s) && SwitchStep(s, s')
    requires forall i :: 0 <= i < PROC_MAX && i != s.phase.prev && (i == 0 || s.runnable[i]) ==>
               Parked(l, s'.mem, i, s.sps[i], s.ctx[i])
    requires Parked(l, s'.mem, s.phase.prev, s.sp - 4 * SAVED, Saved(s.regs, s.sp))
    ensures l.lo[Home(s.curr)] + 4 * SAVED <= s'.sp <= l.hi[Home(s.curr)] && |s'.regs| == SAVED
  {
    hide SaveWords, At, Picked;
    var c := if s.curr == s.phase.prev then Saved(s.regs, s.sp) else s.ctx[s.curr];
    assert Parked(l, s'.mem, s.curr, s'.sps[s.curr], c);
  }

  lemma CreateKeepsInv(l: Layout, s: State, i: nat, pc: nat, s': State)
    requires Inv(l, s) && CreateStep(l, s, i, pc, s')
    ensures Inv(l, s')
  {
    var at := l.hi[i] - 4 * SAVED;
    SaveWordsEffect(s.mem, at, Frame(pc));
    if i > 0 { CreatedIsParked(l, s.mem, i, pc); }
    hide SaveWords, Parked, Picked, Frame;
    OthersParked(l, s, s'.mem, i);
  }

  lemma StepKeepsInv(l: Layout, s: State, s': State)
    requires Inv(l, s) && Step(l, s, s')
    ensures Inv(l, s')
  {
    if WorkStep(l, s, s') {
      OthersParked(l, s, s'.mem, Home(s.curr));
      hide Parked, Load, Picked;
    } else if SwitchStep(s, s') {
      SwitchKeepsInv(l, s, s');
    } else if i, pc :| CreateStep(l, s, i, pc, s') {
      CreateKeepsInv(l, s, i, pc, s');
    } else {
      hide Parked, Picked;
      OtherStepsKeepInv(l, s, s');
    }
  }

  lemma OtherStepsKeepInv(l: Layout, s: State, s': State)
    requires Inv(l, s)
    requires AcquireStep(s, s') || (exists next :: ScanStep(s, next, s')) || SetCurrentStep(s, s')
             || DropStep(s, s') || PanicStep(s, s')
    ensures Inv(l, s')
  {
    hide Parked;
  }

  // --------------------------------------------------------------- whole runs

  ghost predicate IsRun(l: Layout, run: seq<State>)
  {
    && |run| > 0 && Boot(l, run[0])
    && forall k :: 0 <= k < |run| - 1 ==>
         run[k].curr < PROC_MAX && |run[k].runnable| == PROC_MAX && Step(l, run[k], run[k + 1])
  }

  lemma {:induction false} RunKeepsInv(l: Layout, run: seq<State>, k: nat)
    requires IsRun(l, run) && k < |run|
    ensures ValidLayout(l) && Inv(l, run[k])
  {
    hide Inv, Step;
    if k > 0 {
      RunKeepsInv(l, run, k - 1);
      StepKeepsInv(l, run[k - 1], run[k]);
    } else {
      BootInv(l, run[0]);
    }
  }

  /**
   In every run no context holds a guard when `switch_context` executes or when ordinary
   code runs, whether that code was resumed or is new.  So the lock is free at the
   switch, and taking it never spins.
   */
  lemma LockFreeAtSwitch(l: Layout, run: seq<State>, k: nat)
    requires IsRun(l, run) && k < |run| && (run[k].phase.Switching? || run[k].phase == Executing)
    ensures run[k].guards == {} && !run[k].locked
  {
    RunKeepsInv(l, run, k);
  }

  // ----------------------------------------------------- who gets the processor

  /** `curr_proc_idx` is written: a turn. */
  ghost predicate Turn(run: seq<State>, x: nat)
    requires x + 1 < |run|
  {
    run[x].phase.Found? && run[x + 1].phase.Leaving?
  }

  lemma TurnPicks(l: Layout, s: State, s': State)
    requires Inv(l, s) && Step(l, s, s') && s.phase.Found? && s'.phase.Leaving?
    ensures s'.curr < PROC_MAX && Picked(s.runnable, s.curr, s'.curr) && s'.runnable == s.runnable
  {
    hide Parked, Picked;
  }

  /** Without a turn the current slot stays; slots are only ever added. */
  lemma OnlyTurnsMove(l: Layout, s: State, s': State)
    requires Inv(l, s) && Step(l, s, s')
    ensures !(s.phase.Found? && s'.phase.Leaving?) ==> s'.curr == s.curr
    ensures |s'.runnable| == PROC_MAX && forall i :: 0 <= i < PROC_MAX && s.runnable[i] ==> s'.runnable[i]
  {
    hide Parked, Picked, LowestUnused;
  }

  lemma {:induction false} BetweenTurns(l: Layout, run: seq<State>, x: nat, y: nat)
    requires IsRun(l, run) && x <= y < |run| && forall z :: x <= z < y ==> !Turn(run, z)
    ensures run[y].curr == run[x].curr && |run[x].runnable| == |run[y].runnable| == PROC_MAX
    ensures forall i :: 0 <= i < PROC_MAX && run[x].runnable[i] ==> run[y].runnable[i]
    decreases y
  {
    hide Inv, Step;
    if x < y {
      BetweenTurns(l, run, x, y - 1);
      RunKeepsInv(l, run, y - 1);
      assert !Turn(run, y - 1);
      OnlyTurnsMove(l, run[y - 1], run[y]);
    } else {
      RunKeepsInv(l, run, x);
      SlotsFilled(l, run[x]);
    }
  }

  /** Slots are filled from the bottom, so a runnable slot has two below it exactly from slot 3 on. */
  lemma SlotsFilled(l: Layout, s: State)
    requires Inv(l, s)
    ensures |s.runnable| == PROC_MAX && s.curr < PROC_MAX
    ensures forall i, j :: 0 <= i < j < PROC_MAX && s.runnable[j] ==> s.runnable[i]
    ensures forall j :: 1 <= j < PROC_MAX && s.runnable[j] ==> (TwoBelow(s.runnable, j) <==> j >= 3)
  {
    hide Parked, Picked;
    forall j | 1 <= j < PROC_MAX && s.runnable[j]
      ensures TwoBelow(s.runnable, j) <==> j >= 3
    {
      assert j >= 3 ==> s.runnable[1] && s.runnable[2];
    }
  }

  /**
   Over every run: of two turns in a row one goes to the runnable slot j exactly when
   fewer than two runnable slots lie below it.
   */
  lemma TurnWithinTwo(l: Layout, run: seq<State>, x: nat, y: nat, j: nat)
    requires IsRun(l, run) && x < y && y + 1 < |run| && Turn(run, x) && Turn(run, y)
    requires forall z :: x < z < y ==> !Turn(run, z)
    requires |run[x].runnable| == PROC_MAX && 1 <= j < PROC_MAX && run[x].runnable[j]
    ensures run[x + 1].curr == j || run[y + 1].curr == j <==> !TwoBelow(run[x].runnable, j)
  {
    hide Inv, Step, TwoBelow, Picked;
    RunKeepsInv(l, run, x);
    RunKeepsInv(l, run, y);
    SlotsFilled(l, run[x]);
    SlotsFilled(l, run[y]);
    TurnPicks(l, run[x], run[x + 1]);
    TurnPicks(l, run[y], run[y + 1]);
    BetweenTurns(l, run, x + 1, y);
    ServedWithinTwo(run[x].runnable, run[y].runnable, run[x].curr, run[x + 1].curr, run[y + 1].curr, j);
  }

  lemma StarvedStep(l: Layout, s: State, s': State, j: nat)
    requires Inv(l, s) && Step(l, s, s') && j < PROC_MAX && TwoBelow(s.runnable, j) && s.curr != j
    ensures |s'.runnable| == PROC_MAX && TwoBelow(s'.runnable, j) && s'.curr != j
  {
    OnlyTurnsMove(l, s, s');
    if s.phase.Found? && s'.phase.Leaving? { TurnPicks(l, s, s'); }
    hide Inv, Step;
    var a, b :| 1 <= a < b < j && s.runnable[a] && s.runnable[b];
    assert s'.runnable[a] && s'.runnable[b];
  }

  /** Over every run: with two runnable slots below it, a slot that is not current never is again. */
  lemma {:induction false} StarvedForGood(l: Layout, run: seq<State>, i: nat, k: nat, j: nat)
    requires IsRun(l, run) && i <= k < |run| && j < PROC_MAX
    requires |run[i].runnable| == PROC_MAX && TwoBelow(run[i].runnable, j) && run[i].curr != j
    ensures |run[k].runnable| == PROC_MAX && TwoBelow(run[k].runnable, j) && run[k].curr != j
    decreases k
  {
    hide Inv, Step, TwoBelow;
    if i < k {
      StarvedForGood(l, run, i, k - 1, j);
      RunKeepsInv(l, run, k - 1);
      StarvedStep(l, run[k - 1], run[k], j);
    }
  }

  lemma LowStep(l: Layout, s: State, s': State)
    requires Inv(l, s) && Step(l, s, s') && s.curr <= 2
    ensures s'.curr <= 2
  {
    OnlyTurnsMove(l, s, s');
    if s.phase.Found? && s'.phase.Leaving? { TurnPicks(l, s, s'); }
    SlotsFilled(l, s);
    hide Inv, Step;
  }

  /** From boot on, no process above slot 2 ever runs. */
  lemma {:induction false} OnlyTwoEverRun(l: Layout, run: seq<State>, k: nat)
    requires IsRun(l, run) && k < |run|
    ensures run[k].curr <= 2
  {
    hide Inv, Step;
    if k > 0 {
      OnlyTwoEverRun(l, run, k - 1);
      RunKeepsInv(l, run, k - 1);
      LowStep(l, run[k - 1], run[k]);
    }
  }

  // ------------------------------------------------------------ what is resumed

  /** A switch resumes p at step k. */
  ghost predicate ResumedAt(run: seq<State>, k: nat, p: nat)
    requires k < |run|
  {
    k > 0 && run[k - 1].phase.Switching? && run[k].phase == Executing && run[k].curr == p
  }

  ghost predicate Away(s: State, p: nat, c: Ctx)
  {
    p < |s.ctx| && s.ctx[p] == c && Owner(s) != p
  }

  lemma AwayStays(l: Layout, s: State, s': State, p: nat, c: Ctx)
    requires Inv(l, s) && Step(l, s, s') && Away(s, p, c) && p < PROC_MAX && (p == 0 || s.runnable[p])
    ensures Away(s', p, c) || (s.phase.Switching? && s'.phase == Executing && s'.curr == p)
    ensures p == 0 || (|s'.runnable| == PROC_MAX && s'.runnable[p])
  {
    hide Parked, Picked, LoadWords, SaveWords, Frame;
  }

  /** Until it is resumed, the record of a context that is away does not change. */
  lemma {:induction false} AwayUntil(l: Layout, run: seq<State>, p: nat, i: nat, k: nat, c: Ctx)
    requires IsRun(l, run) && p < PROC_MAX && i <= k < |run| && Away(run[i], p, c)
    requires |run[i].runnable| == PROC_MAX && (p == 0 || run[i].runnable[p])
    requires forall x :: i < x <= k ==> !ResumedAt(run, x, p)
    ensures Away(run[k], p, c) && |run[k].runnable| == PROC_MAX && (p == 0 || run[k].runnable[p])
    decreases k
  {
    hide Inv, Step, Away;
    if k > i {
      AwayUntil(l, run, p, i, k - 1, c);
      RunKeepsInv(l, run, k - 1);
      AwayStays(l, run[k - 1], run[k], p, c);
      assert !ResumedAt(run, k, p);
    }
    RunKeepsInv(l, run, k);
    SlotsFilled(l, run[k]);
  }

  lemma SwitchRestores(l: Layout, s: State, s': State, p: nat, c: Ctx)
    requires Inv(l, s) && Step(l, s, s') && s.phase.Switching? && s'.phase == Executing && s'.curr == p
    requires Away(s, p, c) || (s.phase.prev == p && c == Saved(s.regs, s.sp))
    ensures c.Saved? && s'.regs == c.regs && s'.sp == c.sp
  {
    assert SwitchStep(s, s');
    PopsWhatWasParked(l, s, s', p, c);
  }

  lemma PopsWhatWasParked(l: Layout, s: State, s': State, p: nat, c: Ctx)
    requires Inv(l, s) && SwitchStep(s, s') && s'.curr == p
    requires Away(s, p, c) || (s.phase.prev == p && c == Saved(s.regs, s.sp))
    ensures c.Saved? && s'.regs == c.regs && s'.sp == c.sp
  {
    SaveWordsEffect(s.mem, s.sp - 4 * SAVED, s.regs);
    hide SaveWords, Picked;
    OthersParked(l, s, s'.mem, Home(Owner(s)));
    assert Parked(l, s'.mem, p, s'.sps[p], c);
    LoadsBack(s'.mem, s'.sps[p], c.regs);
  }

  lemma SwitchSaves(l: Layout, s: State, s': State, p: nat)
    requires Inv(l, s) && Step(l, s, s') && s.phase == Switching(p) && s'.phase == Executing && s'.curr != p
    ensures Away(s', p, Saved(s.regs, s.sp)) && |s'.runnable| == PROC_MAX && (p == 0 || s'.runnable[p])
  {
    hide Parked, Picked;
  }

  /**
   Over every run: when a context that gave up is next resumed, be it at once (idle
   switching to itself) or after any number of other turns, it has the ra, s0 to s11 and
   sp it had when it gave up.
   */
  lemma ResumedAsSaved(l: Layout, run: seq<State>, p: nat, i: nat, k: nat)
    requires IsRun(l, run) && p < PROC_MAX && 0 < i <= k < |run|
    requires run[i - 1].phase == Switching(p) && run[i].phase == Executing
    requires ResumedAt(run, k, p) && forall x :: i <= x < k ==> !ResumedAt(run, x, p)
    ensures run[k].regs == run[i - 1].regs && run[k].sp == run[i - 1].sp
  {
    hide Inv, Step, Away;
    var c := Saved(run[i - 1].regs, run[i - 1].sp);
    RunKeepsInv(l, run, i - 1);
    if i < k {
      assert !ResumedAt(run, i, p);
      SwitchSaves(l, run[i - 1], run[i], p);
      AwayUntil(l, run, p, i, k - 1, c);
    }
    RunKeepsInv(l, run, k - 1);
    SwitchRestores(l, run[k - 1], run[k], p, c);
  }

  lemma CreateSaves(l: Layout, s: State, p: nat, pc: nat, s': State)
    requires Inv(l, s) && CreateStep(l, s, p, pc, s') && p >= 1
    ensures Away(s', p, Saved(Frame(pc), l.hi[p])) && |s'.runnable| == PROC_MAX && s'.runnable[p]
  {
    hide Parked, Picked;
  }

  /**
   Over every run: a new process is first resumed with its entry point in ra and zero in
   s0 to s11, on its own empty stack.
   */
  lemma ResumedAsCreated(l: Layout, run: seq<State>, p: nat, pc: nat, i: nat, k: nat)
    requires IsRun(l, run) && 1 <= p < PROC_MAX && i + 1 < k < |run|
    requires ValidLayout(l) && CreateStep(l, run[i], p, pc, run[i + 1])
    requires ResumedAt(run, k, p) && forall x :: i + 1 < x < k ==> !ResumedAt(run, x, p)
    ensures |run[k].regs| == 13 && run[k].regs[0] == pc && forall j :: 1 <= j < 13 ==> run[k].regs[j] == 0
    ensures run[k].sp == l.hi[p]
  {
    hide Inv, Step, Away, CreateStep;
    RunKeepsInv(l, run, i);
    CreateSaves(l, run[i], p, pc, run[i + 1]);
    AwayUntil(l, run, p, i + 1, k - 1, Saved(Frame(pc), l.hi[p]));
    RunKeepsInv(l, run, k - 1);
    SwitchRestores(l, run[k - 1], run[k], p, Saved(Frame(pc), l.hi[p]));
  }

  // ------------------------------------------------------- calls come to an end

  lemma PickExists(runnable: seq<bool>, curr: nat) returns (next: nat)
    requires |runnable| == PROC_MAX
    ensures next < PROC_MAX && Picked(runnable, curr, next)
  {
    next := 1;
    while next < PROC_MAX && (!runnable[next] || next == curr)
      invariant 1 <= next <= PROC_MAX && forall j :: 1 <= j < next ==> !runnable[j] || j == curr
    {
      next := next + 1;
    }
    if next == PROC_MAX { next := 0; }
  }

  ghost predicate Steps(l: Layout, run: seq<State>)
  {
    && ValidLayout(l)
    && forall k :: 0 <= k < |run| - 1 ==>
         run[k].curr < PROC_MAX && |run[k].runnable| == PROC_MAX && Step(l, run[k], run[k + 1])
  }

  /** Where ordinary code runs, `give_up` can be called, and it ends with the next process running. */
  lemma GiveUpCompletes(l: Layout, s: State) returns (run: seq<State>)
    requires Inv(l, s) && s.phase == Executing
    ensures |run| == 6 && run[0] == s && Steps(l, run)
    ensures run[5].phase == Executing && !run[5].locked && run[5].runnable == s.runnable
    ensures |s.runnable| == PROC_MAX && run[5].curr < PROC_MAX && Picked(s.runnable, s.curr, run[5].curr)
  {
    var next := PickExists(s.runnable, s.curr);
    hide Parked, Picked, LoadWords, SaveWords;
    var s1 := s.(phase := Scanning, locked := true, guards := s.guards + {s.curr});
    var s2 := s1.(phase := Found(next));
    var s3 := s2.(phase := Leaving(s.curr), curr := next);
    var s4 := s3.(phase := Switching(s.curr), locked := false, guards := s3.guards - {s.curr});
    var at := s.sp - 4 * SAVED;
    var sps, m := s.sps[s.curr := at], SaveWords(s.mem, at, s.regs);
    var s5 := s4.(mem := m, sps := sps, phase := Executing,
                  regs := LoadWords(m, sps[next], SAVED), sp := sps[next] + 4 * SAVED,
                  ctx := s.ctx[s.curr := Saved(s.regs, s.sp)][next := Active]);
    assert AcquireStep(s, s1) && ScanStep(s1, next, s2) && SetCurrentStep(s2, s3);
    assert DropStep(s3, s4) && SwitchStep(s4, s5);
    hide AcquireStep, ScanStep, SetCurrentStep, DropStep, SwitchStep, WorkStep, CreateStep, PanicStep;
    assert Step(l, s, s1) && Step(l, s1, s2) && Step(l, s2, s3) && Step(l, s3, s4) && Step(l, s4, s5);
    run := [s, s1, s2, s3, s4, s5];
  }

  /** With a slot left and memory to be had, `new` ends with the lowest unused slot taken and the caller running on. */
  lemma NewCompletes(l: Layout, s: State, i: nat, pc: nat) returns (run: seq<State>)
    requires Inv(l, s) && s.phase == Executing
    requires i < |s.runnable| && !s.runnable[i] && forall j :: 0 <= j < i ==> s.runnable[j]
    ensures |run| == 4 && run[0] == s && Steps(l, run)
    ensures run[3].phase == Executing && !run[3].locked && run[3].runnable == s.runnable[i := true]
    ensures run[3].curr == s.curr && run[3].regs == s.regs && run[3].sp == s.sp
    ensures CreateStep(l, run[1], i, pc, run[2])
  {
    hide Parked, Picked, SaveWords, Frame;
    var at := l.hi[i] - 4 * SAVED;
    var s1 := s.(phase := Creating, locked := true, guards := s.guards + {s.curr});
    var s2 := s1.(mem := SaveWords(s.mem, at, Frame(pc)), phase := Created, runnable := s.runnable[i := true],
                  sps := s.sps[i := at], ctx := s.ctx[i := Saved(Frame(pc), l.hi[i])]);
    var s3 := s2.(phase := Executing, locked := false, guards := s2.guards - {s.curr});
    assert AcquireStep(s, s1) && CreateStep(l, s1, i, pc, s2) && DropStep(s2, s3);
    run := [s, s1, s2, s3];
  }

  /** It panics whenever no slot is left. */
  lemma NoSlotPanics(l: Layout, s: State, s': State)
    requires Inv(l, s) && s.phase == Creating && Step(l, s, s') && forall i :: 0 <= i < PROC_MAX ==> s.runnable[i]
    ensures s'.phase == Halted
  {
  }
}
