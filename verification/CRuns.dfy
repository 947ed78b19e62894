/**
 Whole runs of the trap machine of c/kernel.c: what a process gets back from a system
 call, what stops the machine, that exit is final, how long a process waits, and how the
 machine is started.
 */
module CRuns {
  import opened Bits
  import opened Sv32
  import opened CSched
  import opened CProcess
  import opened StackWords
  import opened CTrap

  ghost predicate IsRun(l: Layout, run: seq<State>, events: seq<Event>)
  {
    && |run| == |events| + 1
    && Inv(l, run[0])
    && forall k :: 0 <= k < |events| ==> Step(l, run[k], events[k], run[k + 1])
  }

  lemma {:induction false} RunKeepsInv(l: Layout, run: seq<State>, events: seq<Event>, k: nat)
    requires IsRun(l, run, events) && k < |run|
    ensures Inv(l, run[k])
  {
    hide Inv, Step;
    if k > 0 {
      RunKeepsInv(l, run, events, k - 1);
      StepKeepsInv(l, run[k - 1], events[k - 1], run[k]);
    }
  }

  ghost predicate InUser(s: State, p: nat)
  {
    s.at.User? && s.current == p
  }

  /** While p is not in user mode, the record of its last `ecall` does not change, unless it exits. */
  lemma RecordStays(l: Layout, s: State, e: Event, s': State, p: nat)
    requires Inv(l, s) && Step(l, s, e, s') && p < PROC_NO_MAX
    requires s.last[p].Trapped? && !InUser(s, p) && !InUser(s', p)
    ensures |s'.last| == PROC_NO_MAX && (s'.last[p] == s.last[p] || s'.last[p] == Gone)
  {
    hide SpaceInv, StackInv, SatpOf, SpacesPlaced, LoadWords, SaveWords, At;
  }

  /**
   Exit is final: the yield of an exited process never comes back to it, so the panic
   after that yield is unreachable.
   */
  lemma ExitNeverReturns(l: Layout, s: State, n: nat, s': State)
    requires Inv(l, s) && ExitYieldStep(l, s, n, s')
    ensures n != s.current && s'.current != s.current
    ensures n != 0 ==> s'.at != Halted && s'.regs[RA] != l.exitRet
  {
    SwitchKeepsInv(l, s, l.exitRet, n, s');
    hide SpaceInv, StackInv, SatpOf, SpacesPlaced, LoadWords, SaveWords, At;
  }

  predicate ExitedAndAway(s: State, p: nat)
  {
    p < |s.procs| && s.procs[p].state == Exited && s.current != p
  }

  lemma ExitedStays(l: Layout, s: State, e: Event, s': State, p: nat)
    requires Inv(l, s) && Step(l, s, e, s') && 1 <= p < PROC_NO_MAX
    requires ExitedAndAway(s, p)
    ensures ExitedAndAway(s', p)
  {
    hide SpaceInv, StackInv, SatpOf, SpacesPlaced, LoadWords, SaveWords, At;
  }

  /** Once a process has exited and been switched away from, it is never current again. */
  lemma {:induction false} ExitIsFinal(l: Layout, run: seq<State>, events: seq<Event>, p: nat, i: nat, k: nat)
    requires IsRun(l, run, events) && 1 <= p < PROC_NO_MAX && i <= k < |run|
    requires ExitedAndAway(run[i], p)
    ensures ExitedAndAway(run[k], p)
    decreases k
  {
    hide Inv, Step, ExitedAndAway;
    if i < k {
      ExitIsFinal(l, run, events, p, i, k - 1);
      RunKeepsInv(l, run, events, k - 1);
      ExitedStays(l, run[k - 1], events[k - 1], run[k], p);
    }
  }

  /** After exiting, a process does not get back to user mode. */
  ghost predicate NeverUser(s: State, p: nat)
  {
    p < |s.procs| && s.procs[p].state == Exited && !InUser(s, p)
  }

  lemma NeverUserStays(l: Layout, s: State, e: Event, s': State, p: nat)
    requires Inv(l, s) && Step(l, s, e, s') && 1 <= p < PROC_NO_MAX && NeverUser(s, p)
    ensures NeverUser(s', p)
  {
    StepKeepsInv(l, s, e, s');
    UserMeansRunnable(l, s');
    ExitPersists(l, s, e, s', p);
    hide Inv, Step;
  }

  lemma UserMeansRunnable(l: Layout, s: State)
    requires Inv(l, s)
    ensures s.current < |s.procs| && (s.at.User? ==> s.procs[s.current].state == Runnable)
  {
  }

  /** Nothing revives an exited process. */
  lemma ExitPersists(l: Layout, s: State, e: Event, s': State, p: nat)
    requires Inv(l, s) && Step(l, s, e, s') && 1 <= p < PROC_NO_MAX && s.procs[p].state == Exited
    ensures p < |s'.procs| && s'.procs[p].state == Exited
  {
    hide SpaceInv, StackInv, CurrentOk, SatpOf, SpacesPlaced, LoadWords, SaveWords, Chosen, Resume;
  }

  lemma {:induction false} NeverUserAgain(l: Layout, run: seq<State>, events: seq<Event>, p: nat, i: nat, k: nat)
    requires IsRun(l, run, events) && 1 <= p < PROC_NO_MAX && i <= k < |run|
    requires NeverUser(run[i], p)
    ensures NeverUser(run[k], p)
    decreases k
  {
    hide Inv, Step, NeverUser;
    if i < k {
      NeverUserAgain(l, run, events, p, i, k - 1);
      RunKeepsInv(l, run, events, k - 1);
      NeverUserStays(l, run[k - 1], events[k - 1], run[k], p);
    }
  }

  /** From an `ecall` until the next time in user mode the record stays. */
  lemma {:induction false} RecordKept(l: Layout, run: seq<State>, events: seq<Event>, p: nat, i: nat, j: nat, k: nat)
    requires IsRun(l, run, events) && 1 <= p < PROC_NO_MAX && i < k < j < |run|
    requires InUser(run[i], p) && events[i] == LEcall && InUser(run[j], p)
    requires forall x :: i < x < j ==> !InUser(run[x], p)
    ensures |run[k].last| == PROC_NO_MAX && run[k].last[p] == Trapped(run[i].regs, run[i].at.pc)
    decreases k
  {
    hide Inv, Step, NeverUser;
    RunKeepsInv(l, run, events, k - 1);
    if k == i + 1 {
      EcallRecords(l, run[i], run[k], p);
    } else {
      RecordKept(l, run, events, p, i, j, k - 1);
      RecordStays(l, run[k - 1], events[k - 1], run[k], p);
      if run[k].last[p] == Gone {
        GoneMeansExited(l, run[k - 1], events[k - 1], run[k], p);
        NeverUserAgain(l, run, events, p, k, j);
        NeverInUser(run[j], p);
      }
    }
  }

  lemma NeverInUser(s: State, p: nat)
    requires NeverUser(s, p)
    ensures !InUser(s, p)
  {
  }

  lemma EcallRecords(l: Layout, s: State, s': State, p: nat)
    requires Inv(l, s) && Step(l, s, LEcall, s') && InUser(s, p)
    ensures |s'.last| == PROC_NO_MAX && s'.last[p] == Trapped(s.regs, s.at.pc)
  {
  }

  lemma GoneMeansExited(l: Layout, s: State, e: Event, s': State, p: nat)
    requires Inv(l, s) && Step(l, s, e, s') && 1 <= p < PROC_NO_MAX
    requires s.last[p].Trapped? && |s'.last| == PROC_NO_MAX && s'.last[p] == Gone
    ensures NeverUser(s', p)
  {
    hide SpaceInv, StackInv, SatpOf, SpacesPlaced, LoadWords, SaveWords, At;
  }

  lemma EcallLeavesUser(l: Layout, s: State, s': State, p: nat)
    requires Inv(l, s) && Step(l, s, LEcall, s')
    ensures !InUser(s', p) && |s.regs| == REGS
  {
  }

  /** The one step that takes a trapped process back to user mode. */
  lemma BackToUser(l: Layout, s: State, e: Event, s': State, p: nat)
    requires Inv(l, s) && Step(l, s, e, s') && 1 <= p < PROC_NO_MAX
    requires s.last[p].Trapped? && !InUser(s, p) && InUser(s', p)
    ensures |s.last[p].regs| == REGS
    ensures s'.at == User((s.last[p].pc + 4) % WORD) && s'.sscratch == Top(l, p)
    ensures if e.LGotChar? then s.last[p].regs[A3] == SYS_GETCHAR && s'.regs == s.last[p].regs[A0 := e.ch]
            else s.last[p].regs[A3] == SYS_PUTCHAR && s'.regs == s.last[p].regs
  {
    hide SpaceInv, StackInv, SpacesPlaced, LoadWords, SaveWords, At, Resume;
    match e
    case LUser => assert false;
    case LStore(_, _) => assert false;
    case LEcall => assert false;
    case LFault => assert false;
    case LDispatch => DispatchReturns(l, s, s');
    case LGotChar(ch) => GotCharReturns(l, s, ch, s');
    case LPollYield(n) => TrappedNotResumedInUser(l, s, l.getcharRet, n, s');
    case LExitYield(n) => TrappedNotResumedInUser(l, s, l.exitRet, n, s');
  }

  lemma DispatchReturns(l: Layout, s: State, s': State)
    requires Inv(l, s) && DispatchStep(l, s, s') && s'.at.User?
    ensures s.last[s.current].Trapped? && |s.last[s.current].regs| == REGS && s.last[s.current].regs[A3] == SYS_PUTCHAR
    ensures s'.at == User((s.last[s.current].pc + 4) % WORD) && s'.sscratch == Top(l, s.current)
    ensures s'.regs == s.last[s.current].regs
  {
    hide SpaceInv, StackInv, SpacesPlaced, LoadWords;
    SyscallNumberSaved(l, s);
    ReturnRestores(l, s, s.mem, s.last[s.current].regs, s');
  }

  lemma GotCharReturns(l: Layout, s: State, ch: nat, s': State)
    requires Inv(l, s) && GotCharStep(l, s, ch, s')
    ensures s.last[s.current].Trapped? && |s.last[s.current].regs| == REGS && s.last[s.current].regs[A3] == SYS_GETCHAR
    ensures s'.at == User((s.last[s.current].pc + 4) % WORD) && s'.sscratch == Top(l, s.current)
    ensures s'.regs == s.last[s.current].regs[A0 := ch]
  {
    hide SpaceInv, StackInv, SpacesPlaced, LoadWords;
    var f, regs := FrameAt(l, s.current), s.last[s.current].regs;
    A0Stored(s.mem, f, regs, ch);
    hide Store;
    ReturnRestores(l, s, Store(s.mem, f + 4 * A0, ch), regs[A0 := ch], s');
  }

  lemma TrappedNotResumedInUser(l: Layout, s: State, site: nat, n: nat, s': State)
    requires Inv(l, s) && 1 <= n < PROC_NO_MAX && n != s.current && Chosen(s.procs, s.current, n)
    requires (s.at == Polling && site == l.getcharRet) || (s.at == Exiting && site == l.exitRet)
    requires Switch(l, s, site, n, s') && s.last[n].Trapped?
    ensures s'.at == Polling
  {
    SwitchKeepsInv(l, s, site, n, s');
    hide SpaceInv, StackInv, SatpOf, SpacesPlaced, LoadWords, SaveWords, At;
  }

  /**
   System calls are transparent over every run: whatever the other processes do in
   between, and however often its call yields, a process next runs in user mode at its
   own ecall pc + 4 with every register it had, except that getchar delivers a0, and
   with sscratch naming its own kernel stack.
   */
  lemma SyscallTransparent(l: Layout, run: seq<State>, events: seq<Event>, p: nat, i: nat, j: nat)
    requires IsRun(l, run, events) && 1 <= p < PROC_NO_MAX && i < j < |run|
    requires InUser(run[i], p) && events[i] == LEcall && InUser(run[j], p)
    requires forall x :: i < x < j ==> !InUser(run[x], p)
    ensures run[j].at.pc == (run[i].at.pc + 4) % WORD
    ensures run[j].sscratch == Top(l, p)
    ensures |run[i].regs| == REGS
    ensures if events[j - 1].LGotChar?
            then run[i].regs[A3] == SYS_GETCHAR && run[j].regs == run[i].regs[A0 := events[j - 1].ch]
            else run[i].regs[A3] == SYS_PUTCHAR && run[j].regs == run[i].regs
  {
    hide Inv, Step;
    RunKeepsInv(l, run, events, i);
    EcallLeavesUser(l, run[i], run[i + 1], p);
    RecordKept(l, run, events, p, i, j, j - 1);
    RunKeepsInv(l, run, events, j - 1);
    BackToUser(l, run[j - 1], events[j - 1], run[j], p);
  }

  // ------------------------------------------- what a system call can and must lead to

  /** No process can be switched to. */
  ghost predicate NobodyRunnable(procs: seq<Proc>)
  {
    forall j :: 1 <= j < |procs| ==> procs[j].state != Runnable
  }

  /** A step in or into the kernel and what follows it, by the a3 of the trapped process. */
  lemma DispatchLeads(l: Layout, s: State, e: Event, s': State)
    requires Inv(l, s) && s.at == Dispatch && Step(l, s, e, s')
    ensures e == LDispatch && s.last[s.current].Trapped? && |s.last[s.current].regs| == 31
    ensures var t := s.last[s.current];
            match t.regs[13]
            case 1 => s'.at == User((t.pc + 4) % WORD) && s'.regs == t.regs && s'.procs == s.procs
            case 2 => s'.at == Polling && s'.procs == s.procs
            case 3 => s'.at == Exiting && s'.procs == s.procs[s.current := s.procs[s.current].(state := Exited)]
            case _ => s'.at == Halted
    ensures s'.current == s.current
  {
    hide SpaceInv, StackInv, SpacesPlaced, LoadWords, At;
    InTheSyscall(l, s);
    SyscallNumberSaved(l, s);
    if SyscallNumber(s) == SYS_PUTCHAR { DispatchReturns(l, s, s'); }
  }

  lemma InTheSyscall(l: Layout, s: State)
    requires Inv(l, s) && (s.at == Dispatch || s.at == Polling)
    ensures |s.procs| == |s.last| == PROC_NO_MAX && s.current < PROC_NO_MAX && |s.regs| == REGS
    ensures s.last[s.current].Trapped? && |s.last[s.current].regs| == REGS
  {
  }

  /** An `ecall` leads to the dispatch of exactly this call. */
  lemma EcallLeads(l: Layout, s: State, s': State)
    requires Inv(l, s) && Step(l, s, LEcall, s')
    ensures s'.at == Dispatch && s'.current == s.current && s'.procs == s.procs
    ensures |s.regs| == 31 && s.at.User? && s.current < |s'.last| && s'.last[s.current] == Trapped(s.regs, s.at.pc)
  {
  }

  /** A yield that stops the machine found nobody to switch to. */
  lemma YieldHalts(l: Layout, s: State, e: Event, s': State)
    requires Inv(l, s) && Step(l, s, e, s') && (e.LPollYield? || e.LExitYield?) && s'.at == Halted
    ensures e.LExitYield? && NobodyRunnable(s.procs)
  {
    hide SpaceInv, StackInv, SpacesPlaced, LoadWords, SaveWords, At;
    YielderEligible(l, s);
    if e.LPollYield? {
      if e.n != s.current { SwitchKeepsInv(l, s, l.getcharRet, e.n, s'); }
    } else {
      if e.n != s.current { SwitchKeepsInv(l, s, l.exitRet, e.n, s'); }
    }
  }

  lemma YielderEligible(l: Layout, s: State)
    requires Inv(l, s) && s.at != Halted
    ensures |s.procs| == PROC_NO_MAX && 1 <= s.current < PROC_NO_MAX
    ensures forall j :: 1 <= j < PROC_NO_MAX ==> (Eligible(s.procs[j]) <==> s.procs[j].state == Runnable)
    ensures s.at == Polling ==> Eligible(s.procs[s.current])
    ensures s.at == Exiting ==> !Eligible(s.procs[s.current])
  {
    hide SpaceInv, StackInv, SpacesPlaced, At;
  }

  lemma OnlyEcallDispatches(l: Layout, s: State, e: Event, s': State)
    requires Inv(l, s) && Step(l, s, e, s') && s'.at == Dispatch
    ensures e == LEcall
  {
    hide SpaceInv, StackInv, SpacesPlaced, LoadWords, SaveWords, At, Chosen, CurrentOk;
  }

  lemma OtherStepsDoNotHalt(l: Layout, s: State, e: Event, s': State)
    requires Inv(l, s) && Step(l, s, e, s') && s'.at == Halted
    ensures s.at != Halted ==> e.LFault? || e.LDispatch? || e.LPollYield? || e.LExitYield?
    ensures e.LDispatch? ==> s.at == Dispatch
  {
    hide SpaceInv, StackInv, SpacesPlaced, LoadWords, SaveWords, At, Chosen, CurrentOk;
  }

  /**
   Over every run that starts in user mode, the machine stops only for a reason of the
   code's: a trap that is no system call; an `ecall` whose a3 is none of 1, 2 and 3, the
   step before; or the yield after an exit that left no runnable process.
   */
  lemma HaltsOnlyFor(l: Layout, run: seq<State>, events: seq<Event>, k: nat)
    requires IsRun(l, run, events) && run[0].at.User? && k < |events|
    requires run[k].at != Halted && run[k + 1].at == Halted
    ensures || events[k].LFault?
            || (&& events[k].LDispatch? && k > 0 && events[k - 1] == LEcall && |run[k - 1].regs| == 31
                && run[k - 1].regs[13] != 1 && run[k - 1].regs[13] != 2 && run[k - 1].regs[13] != 3)
            || (events[k].LExitYield? && NobodyRunnable(run[k].procs))
  {
    hide Inv, Step;
    var e := events[k];
    RunKeepsInv(l, run, events, k);
    OtherStepsDoNotHalt(l, run[k], e, run[k + 1]);
    if e.LDispatch? {
      RunKeepsInv(l, run, events, k - 1);
      OnlyEcallDispatches(l, run[k - 1], events[k - 1], run[k]);
      EcallLeads(l, run[k - 1], run[k]);
      DispatchLeads(l, run[k], e, run[k + 1]);
    } else if !e.LFault? {
      YieldHalts(l, run[k], e, run[k + 1]);
    }
  }

  /** The state `Return` leads to. */
  lemma ReturnExists(l: Layout, s: State, m: Ram) returns (s': State)
    requires |s.regs| == REGS && s.current < |s.last|
    ensures Return(l, s, m, s')
  {
    var pc := (s.regs[S0] + 4) % WORD;
    s' := s.(mem := m, sepc := pc, regs := LoadWords(m, s.regs[SP] + l.depth, REGS), at := User(pc),
             last := s.last[s.current := Running]);
  }

  /** From user mode an `ecall` is always possible. */
  lemma EcallPossible(l: Layout, s: State) returns (s': State)
    requires Inv(l, s) && s.at.User?
    ensures Step(l, s, LEcall, s')
  {
    var f := s.sscratch - 4 * REGS;
    var regs := seq(REGS, k => if k == S0 then s.at.pc else if k == S1 then f else if k == SP then f - l.depth else 0);
    s' := s.(mem := SaveWords(s.mem, f, s.regs), sepc := s.at.pc, at := Dispatch, regs := regs,
             last := s.last[s.current := Trapped(s.regs, s.at.pc)]);
  }

  /** In user mode any computation is possible, and any store the walk allows. */
  lemma UserMayDo(l: Layout, s: State, regs: seq<nat>, pc: nat, va: nat, pa: nat, flags: nat, word: nat)
    requires Inv(l, s) && s.at.User? && |regs| == REGS
    ensures Step(l, s, LUser, s.(regs := regs, at := User(pc)))
    ensures UserReaches(s, va, pa, flags) && IsW(flags) ==>
              Step(l, s, LStore(va, word), s.(mem := Store(s.mem, pa - pa % 4, word), regs := regs, at := User(pc)))
  {
  }

  /** And any trap that is no system call stops the machine. */
  lemma FaultPossible(l: Layout, s: State) returns (s': State)
    requires Inv(l, s) && s.at.User?
    ensures Step(l, s, LFault, s') && s'.at == Halted
  {
    s' := s.(mem := SaveWords(s.mem, s.sscratch - 4 * REGS, s.regs), at := Halted);
  }

  /** The system calls 1, 2 and 3 are always served. */
  lemma DispatchPossible(l: Layout, s: State) returns (s': State)
    requires Inv(l, s) && s.at == Dispatch
    ensures Step(l, s, LDispatch, s')
  {
    InTheSyscall(l, s);
    hide Inv, LoadWords;
    if SyscallNumber(s) == SYS_PUTCHAR {
      s' := ReturnExists(l, s, s.mem);
    } else if SyscallNumber(s) == SYS_GETCHAR {
      s' := s.(at := Polling);
    } else if SyscallNumber(s) == SYS_EXIT {
      s' := s.(at := Exiting, procs := s.procs[s.current := s.procs[s.current].(state := Exited)],
               last := s.last[s.current := Gone]);
    } else {
      s' := s.(at := Halted);
    }
  }

  /** A character that arrives can be delivered, and ends the call. */
  lemma GotCharPossible(l: Layout, s: State, ch: nat) returns (s': State)
    requires Inv(l, s) && s.at == Polling
    ensures Step(l, s, LGotChar(ch), s') && s'.at.User? && s'.current == s.current
  {
    InTheSyscall(l, s);
    hide Inv, LoadWords, Store;
    s' := ReturnExists(l, s, Store(s.mem, s.regs[S1] + 4 * A0, ch));
  }

  /** What user mode makes of each call: putchar and getchar end one step and two steps after the `ecall`. */
  lemma CallsComplete(l: Layout, s: State, ch: nat) returns (run: seq<State>, events: seq<Event>)
    requires Inv(l, s) && s.at.User? && |s.regs| == REGS && (s.regs[13] == 1 || s.regs[13] == 2)
    ensures IsRun(l, run, events) && run[0] == s
    ensures events == if s.regs[13] == 1 then [LEcall, LDispatch] else [LEcall, LDispatch, LGotChar(ch)]
    ensures InUser(run[|events|], s.current) && run[|events|].at.pc == (s.at.pc + 4) % WORD
    ensures run[|events|].regs == if s.regs[13] == 1 then s.regs else s.regs[10 := ch]
  {
    hide Inv, Step;
    var s1 := EcallPossible(l, s);
    EcallLeads(l, s, s1);
    StepKeepsInv(l, s, LEcall, s1);
    var s2 := DispatchPossible(l, s1);
    DispatchLeads(l, s1, LDispatch, s2);
    if s.regs[13] == 1 {
      run, events := [s, s1, s2], [LEcall, LDispatch];
    } else {
      StepKeepsInv(l, s1, LDispatch, s2);
      var s3 := GotCharPossible(l, s2, ch);
      run, events := [s, s1, s2, s3], [LEcall, LDispatch, LGotChar(ch)];
      UserCurrent(l, s);
      SyscallTransparent(l, run, events, s.current, 0, 3);
    }
  }

  /** The other process, if there is one, that a yield moves to. */
  lemma ChoiceExists(procs: seq<Proc>, c: nat) returns (n: nat)
    requires |procs| == PROC_NO_MAX && c < PROC_NO_MAX
    ensures n < PROC_NO_MAX && Chosen(procs, c, n)
  {
    if j: nat :| j < PROC_NO_MAX && Eligible(procs[j]) {
      n := NearestEligible(procs, c, j);
    } else {
      n := 0;
    }
  }

  lemma NearestEligible(procs: seq<Proc>, c: nat, j: nat) returns (n: nat)
    requires |procs| == PROC_NO_MAX && c < PROC_NO_MAX && j < PROC_NO_MAX && Eligible(procs[j])
    ensures n < PROC_NO_MAX && Eligible(procs[n])
    ensures forall i :: 0 <= i < PROC_NO_MAX && Eligible(procs[i]) ==> Ahead(c, n) <= Ahead(c, i)
    decreases Ahead(c, j)
  {
    if i: nat :| i < PROC_NO_MAX && Eligible(procs[i]) && Ahead(c, i) < Ahead(c, j) {
      n := NearestEligible(procs, c, i);
    } else {
      n := j;
    }
  }

  /** The state a switch to another process leads to. */
  lemma SwitchExists(l: Layout, s: State, site: nat, n: nat) returns (s': State)
    requires |s.regs| == REGS && s.regs[SP] >= 52 && s.current < |s.procs| && n < |s.procs| && n < |s.last|
    requires l.depth + 176 <= STACK_BYTES
    ensures Switch(l, s, site, n, s')
  {
    var sp := s.regs[SP] - 52;
    var procs := s.procs[s.current := s.procs[s.current].(sp := sp)];
    var m := SaveWords(s.mem, sp, SavedRegs(site, s.regs));
    var nsp := procs[n].sp;
    var regs := Popped(LoadWords(m, nsp, 13), nsp);
    hide SaveWords, LoadWords, SavedRegs, SatpOf;
    var moved := s.(mem := m, procs := procs, current := n, sscratch := Top(l, n),
                    satp := SatpOf(s.procs[n].pageTable), regs := regs);
    s' := if regs[RA] == l.userEntry
          then moved.(sepc := USER_BASE, at := User(USER_BASE), last := s.last[n := Running])
          else moved.(at := if regs[RA] == l.getcharRet then Polling else Halted);
  }

  /** A process that polls or has exited can always yield. */
  lemma YieldPossible(l: Layout, s: State) returns (e: Event, s': State)
    requires Inv(l, s) && (s.at == Polling || s.at == Exiting)
    ensures Step(l, s, e, s') && (s.at == Polling ==> e.LPollYield?) && (s.at == Exiting ==> e.LExitYield?)
  {
    YielderEligible(l, s);
    YielderStack(l, s);
    YielderDeep(l, s);
    hide Inv, Switch;
    var n := ChoiceExists(s.procs, s.current);
    e := if s.at == Polling then LPollYield(n) else LExitYield(n);
    if n == s.current {
      s' := if s.at == Polling then s else s.(at := Halted);
    } else {
      s' := SwitchExists(l, s, if s.at == Polling then l.getcharRet else l.exitRet, n);
    }
  }

  /** An exit gives way: after its yield another runnable process is current, or the machine stops for want of one. */
  lemma ExitCompletes(l: Layout, s: State) returns (run: seq<State>, events: seq<Event>)
    requires Inv(l, s) && s.at.User? && |s.regs| == REGS && s.regs[13] == 3
    ensures IsRun(l, run, events) && run[0] == s
    ensures |events| == 3 && events[0] == LEcall && events[1] == LDispatch && events[2].LExitYield?
    ensures run[3].current != s.current
    ensures run[3].at == Halted <==>
            forall j :: 1 <= j < |s.procs| && j != s.current ==> s.procs[j].state != Runnable
  {
    hide Inv, Step;
    var s1 := EcallPossible(l, s);
    EcallLeads(l, s, s1);
    StepKeepsInv(l, s, LEcall, s1);
    var s2 := DispatchPossible(l, s1);
    DispatchLeads(l, s1, LDispatch, s2);
    StepKeepsInv(l, s1, LDispatch, s2);
    var e, s3 := YieldPossible(l, s2);
    run, events := [s, s1, s2, s3], [LEcall, LDispatch, e];
    YielderEligible(l, s);
    YielderEligible(l, s2);
    ExitYields(l, s2, e.n, s3);
    OthersRunnable(s.procs, s.current, s2.procs);
  }

  lemma OthersRunnable(procs: seq<Proc>, c: nat, procs': seq<Proc>)
    requires c < |procs| && procs' == procs[c := procs[c].(state := Exited)]
    ensures NobodyRunnable(procs') <==> forall j :: 1 <= j < |procs| && j != c ==> procs[j].state != Runnable
  {
    if NobodyRunnable(procs') {
      forall j | 1 <= j < |procs| && j != c
        ensures procs[j].state != Runnable
      {
        assert procs'[j].state != Runnable;
      }
    }
  }

  lemma ExitYields(l: Layout, s: State, n: nat, s': State)
    requires Inv(l, s) && Step(l, s, LExitYield(n), s')
    ensures s'.current != s.current && (s'.at == Halted <==> NobodyRunnable(s.procs))
  {
    hide SpaceInv, StackInv, SpacesPlaced, LoadWords, SaveWords, At;
    YielderEligible(l, s);
    assert n != s.current;
    SwitchKeepsInv(l, s, l.exitRet, n, s');
  }

  lemma YielderDeep(l: Layout, s: State)
    requires Inv(l, s) && (s.at == Polling || s.at == Exiting)
    ensures |s.last| == PROC_NO_MAX && |s.regs| == REGS && s.regs[SP] >= 52 && l.depth + 176 <= STACK_BYTES
  {
    hide SpaceInv, StackInv, SpacesPlaced;
  }

  // ---------------------------------------------------------- bounded waiting

  /** Number of calls of `yield` among the first k events from i on. */
  function Yields(events: seq<Event>, i: nat, k: nat): nat
    requires i <= k <= |events|
    decreases k - i
  {
    if i == k then 0
    else Yields(events, i, k - 1) + (if events[k - 1].LPollYield? || events[k - 1].LExitYield? then 1 else 0)
  }

  function YieldSteps(events: seq<Event>, i: nat, k: nat): set<nat>
    requires i <= k <= |events|
  {
    set x | i <= x < k && YieldsAt(events, x)
  }

  predicate YieldsAt(events: seq<Event>, x: nat)
  {
    x < |events| && (events[x].LPollYield? || events[x].LExitYield?)
  }

  /** They are the steps of the run that yield. */
  lemma {:induction false} YieldsCounted(events: seq<Event>, i: nat, k: nat)
    requires i <= k <= |events|
    ensures Yields(events, i, k) == |YieldSteps(events, i, k)|
    decreases k
  {
    if i < k {
      YieldsCounted(events, i, k - 1);
      var before := YieldSteps(events, i, k - 1);
      assert YieldSteps(events, i, k) == if YieldsAt(events, k - 1) then before + {k - 1} else before;
    } else {
      assert YieldSteps(events, i, k) == {};
    }
  }

  lemma UserCurrent(l: Layout, s: State)
    requires Inv(l, s) && s.at != Halted
    ensures 1 <= s.current < PROC_NO_MAX
  {
  }

  /** One step while p waits: a yield brings p strictly nearer, anything else leaves the current process. */
  lemma WaitStep(l: Layout, s: State, e: Event, s': State, p: nat)
    requires Inv(l, s) && Step(l, s, e, s') && s.at != Halted
    requires 1 <= p < PROC_NO_MAX && p != s.current && s.procs[p].state == Runnable
    ensures 1 <= s'.current < PROC_NO_MAX && s.current >= 1
    ensures Waiting(s'.current, p) + (if e.LPollYield? || e.LExitYield? then 1 else 0) <= Waiting(s.current, p)
  {
    hide SpaceInv, StackInv, SatpOf, SpacesPlaced, LoadWords, SaveWords, At, InCall, Chosen;
    match e
    case LPollYield(n) => NearerEachYield(s.procs, s.current, n, p);
    case LExitYield(n) => NearerEachYield(s.procs, s.current, n, p);
    case _ =>
  }

  /**
   Bounded waiting over every run: while a process stays runnable without getting its
   turn, fewer than PROC_NO_MAX - 2 yields can happen, whatever the others do.
   */
  lemma {:induction false} RunBoundedWaiting(l: Layout, run: seq<State>, events: seq<Event>, p: nat, i: nat, k: nat)
    requires IsRun(l, run, events) && 1 <= p < PROC_NO_MAX && i <= k < |run|
    requires forall x :: i <= x <= k ==> run[x].at != Halted && run[x].current != p
                                         && p < |run[x].procs| && run[x].procs[p].state == Runnable
    ensures 1 <= run[k].current < PROC_NO_MAX
    ensures Yields(events, i, k) + Waiting(run[k].current, p) <= PROC_NO_MAX - 2
    ensures Yields(events, i, k) < PROC_NO_MAX - 2
    decreases k
  {
    hide Inv, Step;
    RunKeepsInv(l, run, events, k);
    UserCurrent(l, run[k]);
    if k > i {
      RunKeepsInv(l, run, events, k - 1);
      RunBoundedWaiting(l, run, events, p, i, k - 1);
      WaitStep(l, run[k - 1], events[k - 1], run[k], p);
    }
  }

  // --------------------------------------------------------------------- boot

  /** `kernel_main` before its yield: slot 0 is current, the created processes are fresh, sp is in the boot stack. */
  ghost predicate BootState(l: Layout, s: State)
  {
    && ValidLayout(l) && TableOk(s.procs) && |s.last| == PROC_NO_MAX && s.current == 0
    && Shapes(l, s.mem) && RootsOk(l, s.procs)
    && |s.regs| == REGS && 52 <= s.regs[SP] <= l.freeRam
    && (s.regs[SP] <= l.base || s.regs[SP] >= 52 + Top(l, PROC_NO_MAX - 1))
    && forall i :: 1 <= i < PROC_NO_MAX ==>
         && s.procs[i].state != Exited
         && (s.procs[i].state == Runnable ==> s.last[i] == Fresh && Parked(l, s.mem, s.procs[i], i, Fresh))
  }

  /**
   The `yield` of `kernel_main`; `before` are the bytes before the process table.  Staying
   with the idle process reaches the panic behind it.
   */
  ghost predicate BootYieldStep(l: Layout, s: State, before: Proc, n: int, s': State)
  {
    && |s.procs| == PROC_NO_MAX && 0 <= n < PROC_NO_MAX && ChosenFromIdle(s.procs, before, n)
    && if n == 0 then s' == s.(at := Halted) else Switch(l, s, l.mainRet, n, s')
  }

  /**
   Unless the bytes before the table look like an eligible process, the first yield goes
   to the lowest created process, establishes the invariant and starts it at USER_BASE.
   It panics exactly when there is none below the last slot, at which it does not look.
   */
  lemma BootEstablishesInv(l: Layout, s: State, before: Proc, n: int, s': State)
    requires BootState(l, s) && !Eligible(before) && BootYieldStep(l, s, before, n, s')
    ensures s'.at == Halted <==> forall j :: 1 <= j < PROC_NO_MAX - 1 ==> s.procs[j].state != Runnable
    ensures s'.at != Halted ==>
              && n > 0 && Inv(l, s') && InUser(s', n) && s'.at.pc == USER_BASE
              && forall j :: 1 <= j < n ==> s.procs[j].state != Runnable
  {
    hide Shapes, RootsOk, SatpOf, SpacesPlaced, Parked, IdleParked, LoadWords, SaveWords, Shapes, RootsOk, Switch;
    assert forall j :: 1 <= j < PROC_NO_MAX ==> (Eligible(s.procs[j]) <==> s.procs[j].state == Runnable);
    IdleFindsIff(s.procs, before, n);
    if n > 0 { BootSwitch(l, s, n, s'); }
  }

  /** What the first switch pushes on the boot stack disturbs nothing. */
  lemma BootPush(l: Layout, s: State, m: Ram)
    requires BootState(l, s) && m == SaveWords(s.mem, s.regs[SP] - 52, SavedRegs(l.mainRet, s.regs))
    ensures Shapes(l, m) && IdleParked(l, m, s.procs[0].(sp := s.regs[SP] - 52))
    ensures forall i :: 1 <= i < PROC_NO_MAX && s.procs[i].state == Runnable ==> Parked(l, m, s.procs[i], i, Fresh)
  {
    var sp, saved := s.regs[SP] - 52, SavedRegs(l.mainRet, s.regs);
    SaveWordsEffect(s.mem, sp, saved);
    hide SaveWords, RootsOk;
    assert Load(m, sp + 4 * 0) == saved[0];
    ShapesBelowRam(l, s.mem, m);
    hide Shapes;
    forall i | 1 <= i < PROC_NO_MAX && s.procs[i].state == Runnable
      ensures Parked(l, m, s.procs[i], i, Fresh)
    {
      StacksApart(l, i, i + 1);
      TopsBelowRam(l, i);
    }
  }

  lemma BootSwitch(l: Layout, s: State, n: nat, s': State)
    requires BootState(l, s) && 1 <= n < PROC_NO_MAX && s.procs[n].state == Runnable
    requires Switch(l, s, l.mainRet, n, s')
    ensures Inv(l, s') && InUser(s', n) && s'.at.pc == USER_BASE
  {
    hide BootState, SaveWords, SatpOf, Load, Parked;
    InBoot(l, s);
    BootPush(l, s, s'.mem);
    SwitchRecords(l, s, l.mainRet, n, s');
    ResumesAs(l, s'.mem, s.procs[n], n, Fresh, s'.regs);
    BootInto(l, s, n, s');
  }

  lemma InBoot(l: Layout, s: State)
    requires BootState(l, s)
    ensures ValidLayout(l) && |s.procs| == |s.last| == PROC_NO_MAX && s.current == 0 && |s.regs| == REGS
    ensures s.regs[SP] >= 52
  {
  }

  /** The invariant on the far side of the first switch. */
  lemma BootInto(l: Layout, s: State, n: nat, s': State)
    requires BootState(l, s) && 1 <= n < PROC_NO_MAX && s.procs[n].state == Runnable
    requires Switch(l, s, l.mainRet, n, s') && s'.regs[RA] == l.userEntry
    requires Shapes(l, s'.mem) && IdleParked(l, s'.mem, s.procs[0].(sp := s.regs[SP] - 52))
    requires forall i :: 1 <= i < PROC_NO_MAX && s.procs[i].state == Runnable ==>
               Parked(l, s'.mem, s.procs[i], i, Fresh)
    ensures Inv(l, s') && InUser(s', n) && s'.at.pc == USER_BASE
  {
    hide SaveWords, LoadWords, SavedRegs, RootsOk, SatpOf, Shapes, SpacesPlaced, Parked, IdleParked, Load;
    SameRoots(l, s.procs, s'.procs);
  }

  /** `memset` of the stack and `sp[0] = user_entry` in `create_process` leave a process ready for its first switch. */
  lemma NewProcessParked(l: Layout, m: Ram, p: Proc, i: nat)
    requires ValidLayout(l) && p.sp == InitialSp(l.base, i)
    ensures Parked(l, InitStack(m, l.base, i, l.userEntry), p, i, Fresh)
  {
    InitStackEffect(m, l.base, i, l.userEntry);
  }

  /** Registers after popping the thirteen words w from sp. */
  lemma Popped(w: seq<nat>, sp: nat) returns (regs: seq<nat>)
    requires |w| == 13
    ensures |regs| == REGS && regs[RA] == w[0] && regs[SP] == sp + 52 && SavedRegs(regs[RA], regs) == w
  {
    regs := seq(REGS, k => if k == 0 then w[0] else if S0 <= k < SP then w[k - S0 + 1]
                           else if k == SP then sp + 52 else 0);
    assert SavedRegs(regs[RA], regs) == w;
  }

  /** What a switch to a fresh process pops. */
  lemma FreshPops(l: Layout, m: Ram, p: Proc, n: nat) returns (regs: seq<nat>)
    requires ValidLayout(l) && Parked(l, m, p, n, Fresh)
    ensures |regs| == REGS && regs[RA] == l.userEntry && regs[SP] == p.sp + 52
    ensures LoadWords(m, p.sp, 13) == SavedRegs(regs[RA], regs)
  {
    var w := LoadWords(m, p.sp, 13);
    assert w[0] == Load(m, p.sp + 4 * 0);
    regs := Popped(w, p.sp);
  }

  /** From a boot state with a created process the machine does start. */
  lemma BootIsPossible(l: Layout, s: State, n: nat) returns (s': State)
    requires BootState(l, s) && 1 <= n < PROC_NO_MAX && s.procs[n].state == Runnable
    ensures Switch(l, s, l.mainRet, n, s')
  {
    hide BootState, SaveWords, Shapes, IdleParked, Parked, LoadWords, SavedRegs, SatpOf;
    InBoot(l, s);
    var sp := s.regs[SP] - 52;
    var m := SaveWords(s.mem, sp, SavedRegs(l.mainRet, s.regs));
    BootPush(l, s, m);
    var regs' := FreshPops(l, m, s.procs[n], n);
    hide ValidLayout;
    s' := s.(mem := m, regs := regs', at := User(USER_BASE), sepc := USER_BASE, sscratch := Top(l, n),
             satp := SatpOf(s.procs[n].pageTable),
             procs := s.procs[0 := s.procs[0].(sp := sp)], current := n, last := s.last[n := Running]);
  }
}
