/**
 `kernel_main` of c/kernel.c: the processes it creates, and the machine state its first
 `yield` starts the trap machine from.
 */
module CBoot {
  import opened Bits
  import opened Results
  import opened Sv32
  import opened PageBytes
  import opened CSched
  import opened CProcess
  import opened StackWords
  import opened CTrap
  import opened CRuns
  import opened CIsolation

  /** The code addresses and the stack pointer of `kernel_main`; the process table and the boot stack do not overlap. */
  ghost predicate LinkOk(l: Layout, sp: nat)
  {
    && ValidLayout(l) && l.spaces == map[]
    && KERNEL_BASE <= l.freeRam && l.freeRam % PAGE_SIZE == 0
    && l.end == l.freeRam + FREE_RAM_SIZE && l.end + PAGE_SIZE < WORD
    && 52 <= sp <= l.freeRam && (sp <= l.base || sp >= 52 + Top(l, PROC_NO_MAX - 1))
  }

  /** A kernel right after its processes were created, before any has run. */
  ghost predicate Created(k: CKernel, l: Layout)
    reads k
  {
    && k.Valid() && TableOk(k.procs)
    && k.procsBase == l.base && k.userEntry == l.userEntry && k.freeRam == l.freeRam && k.freeRamEnd == l.end
    && forall i :: 1 <= i < PROC_NO_MAX ==> k.procs[i].state != Exited
  }

  /** The machine over such a kernel is ready for its first switch. */
  lemma CreatedBoots(k: CKernel, l: Layout, sp: nat) returns (m: Layout, s: State)
    requires Created(k, l) && LinkOk(l, sp)
    ensures m == l.(spaces := k.spaces) && BootState(m, s)
    ensures s.mem == k.ram && s.procs == k.procs && s.regs[SP] == sp
  {
    m := l.(spaces := k.spaces);
    var regs := seq(REGS, i => if i == SP then sp else 0);
    var last := seq(PROC_NO_MAX, _ => Fresh);
    s := State(k.ram, regs, Halted, sp, sp, sp, k.procs, 0, last);
    hide SpaceOk, Separate, SpaceShape, TableIn, Load;
    assert Shapes(m, s.mem) by { OkIsShaped(k, l); }
    assert SpacesPlaced(m) && RootsOk(m, s.procs);
    forall i | 1 <= i < PROC_NO_MAX && s.procs[i].state == Runnable
      ensures Parked(m, s.mem, s.procs[i], i, Fresh)
    {
      assert RecordOk(k.ram, k.procs[i], k.spaces[i], k.procsBase, i, k.userEntry);
    }
  }

  lemma OkIsShaped(k: CKernel, l: Layout)
    requires Created(k, l)
    ensures forall i :: i in k.spaces ==> SpaceShape(k.ram, k.spaces[i], l.end)
  {
    hide SpaceShape, Loaded;
  }

  /**
   `kernel_main`: it creates idle and the shell, which succeeds exactly when free RAM has
   the pages for both.  Unless the bytes before the process table look like an eligible
   process, its first `yield` then starts the shell, whose image is in place, at USER_BASE
   in a state from which every run keeps the invariant.
   */
  method KernelMain(shell: seq<nat>, ghost before: Proc, ghost l: Layout, ghost sp: nat,
                    userEntry: nat, procsBase: nat, freeRam: nat)
      returns (o: Outcome, k: CKernel, ghost m: Layout, ghost s: State, ghost s': State)
    requires LinkOk(l, sp) && l.base == procsBase && l.userEntry == userEntry && l.freeRam == freeRam
    requires forall i :: 0 <= i < |shell| ==> shell[i] < 256
    ensures o == Done <==> freeRam + (PagesNeeded(l.end, 0) + PagesNeeded(l.end, |shell|)) * PAGE_SIZE < l.end
    ensures o == Done ==>
              && m == l.(spaces := k.spaces) && BootState(m, s) && s.mem == k.ram && s.procs == k.procs
              && 1 in k.spaces && k.spaces[1].image == shell && SpaceOk(s.mem, k.spaces[1], l.end)
    ensures o == Done && !Eligible(before) ==>
              BootYieldStep(m, s, before, 1, s') && Inv(m, s') && InUser(s', 1) && s'.at.pc == USER_BASE
  {
    hide PagesNeeded, BootState, CTrap.Inv, BootYieldStep, SpaceOk, InitialSp;
    m, s := l, State(map[], [], Halted, sp, sp, sp, [], 0, []);
    s' := s;
    k := new CKernel(userEntry, procsBase, freeRam);
    o := CreateIdleAndShell(k, shell);
    if o == Panic { return; }
    hide CKernel.Valid;
    m, s := CreatedBoots(k, l, sp);
    if !Eligible(before) { s' := FirstYield(m, s, before); }
  }

  /** The two calls of `create_process`; idle gets the pid that keeps it from being scheduled. */
  method CreateIdleAndShell(k: CKernel, shell: seq<nat>) returns (o: Outcome)
    requires k.Valid() && forall i :: 0 <= i < PROC_NO_MAX ==> k.procs[i].state == Unused
    requires forall i :: 0 <= i < |shell| ==> shell[i] < 256
    modifies k
    ensures o == Done <==>
            old(k.nextAddr) + (PagesNeeded(k.freeRamEnd, 0) + PagesNeeded(k.freeRamEnd, |shell|)) * PAGE_SIZE
            < k.freeRamEnd
    ensures o == Done ==>
              && k.Valid() && TableOk(k.procs) && k.procs[1].state == Runnable
              && (forall i :: 0 <= i < PROC_NO_MAX ==> k.procs[i].state != Exited)
              && 1 in k.spaces && k.spaces[1].image == shell && SpaceOk(k.ram, k.spaces[1], k.freeRamEnd)
  {
    hide PagesNeeded, SpaceOk, InitialSp, RecordOk, Separate;
    var slot;
    assert k.procs[0].state == Unused;
    o, slot := k.CreateProcess([]);
    if o == Panic { return; }
    assert slot == 0;
    SetIdle(k);
    assert k.procs[1].state == Unused;
    o, slot := k.CreateProcess(shell);
    if o == Panic { return; }
    assert slot == 1;
  }

  /** `idle_proc->pid = -1` */
  method SetIdle(k: CKernel)
    requires k.Valid()
    modifies k`procs
    ensures k.Valid() && k.procs == old(k.procs)[0 := old(k.procs)[0].(pid := -1)]
  {
    hide SpacesOk, Separate, InitialSp, Load;
    k.procs := k.procs[0 := k.procs[0].(pid := -1)];
  }

  lemma FirstYield(l: Layout, s: State, before: Proc) returns (s': State)
    requires BootState(l, s) && s.procs[1].state == Runnable && !Eligible(before)
    ensures BootYieldStep(l, s, before, 1, s') && Inv(l, s') && InUser(s', 1) && s'.at.pc == USER_BASE
  {
    hide Parked, Shapes, RootsOk, Switch, CTrap.Inv;
    s' := BootIsPossible(l, s, 1);
    assert ChosenFromIdle(s.procs, before, 1);
    BootEstablishesInv(l, s, before, 1, s');
  }

  /** The first switch does not touch free RAM. */
  lemma FirstSwitchKeepsRam(l: Layout, s: State, n: nat, s': State)
    requires BootState(l, s) && Switch(l, s, l.mainRet, n, s')
    ensures SameRam(l, s.mem, s'.mem)
  {
    InBoot(l, s);
    SaveWordsEffect(s.mem, s.regs[SP] - 52, SavedRegs(l.mainRet, s.regs));
    hide SaveWords, Load, Shapes, RootsOk, Parked;
  }

  /** When a process starts, user mode sees the bytes of its image, zero padded, and nothing else. */
  lemma SeesImage(l: Layout, s: State, n: nat, s': State, va: nat)
    requires BootState(l, s) && 1 <= n < PROC_NO_MAX && Switch(l, s, l.mainRet, n, s')
    requires Inv(l, s') && InUser(s', n) && va < WORD
    requires n in l.spaces && SpaceOk(s.mem, l.spaces[n], l.end)
    ensures UserByte(s'.mem, SatpRoot(s'.satp), va) ==
            if InImage(va, l.spaces[n]) then Some(Padded(l.spaces[n].image, va - USER_BASE)) else None
  {
    hide BootState, SpaceOk, CTrap.Inv, Switch, UserByte, SatpRoot, ByteAt, Padded, SameRam;
    InBoot(l, s);
    EndOk(l);
    UserByteIs(l, s', n, va);
    FirstSwitchKeepsRam(l, s, n, s');
    SpaceMeaning(s.mem, l.spaces[n], l.end, va);
    if InImage(va, l.spaces[n]) {
      var off := va - USER_BASE;
      UserOffset(va, |l.spaces[n].frames|);
      FrameKept(l, s, s'.mem, n, off / PAGE_SIZE);
      SamePageBytes(s.mem, s'.mem, l.spaces[n].frames[off / PAGE_SIZE], off % PAGE_SIZE);
    }
  }

  lemma FrameKept(l: Layout, s: State, m: Ram, n: nat, k: nat)
    requires BootState(l, s) && n in l.spaces && k < |l.spaces[n].frames| && SameRam(l, s.mem, m)
    ensures SamePage(s.mem, m, l.spaces[n].frames[k])
  {
    FrameAbove(l, s.mem, n, k);
    hide Load, Shapes, RootsOk;
  }
}
