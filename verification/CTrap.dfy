/**
 Traps, system calls and context switches of c/kernel.c as a step relation.

 `kernel_entry` and `switch_context` save and restore registers as words on the kernel
 stacks, so a process's state survives only if nobody else writes there and everything
 is read back from where it was put.  The C code between them may clobber every
 register; the two values it needs after a switch, `user_pc` and the frame pointer `f`,
 live in the callee-saved registers s0 and s1, and its stack frames take `depth` bytes.

 User code computes and stores as it likes, but every store goes through the Sv32 walk
 from satp over the same memory that holds the page tables and the kernel stacks.
 */
module CTrap {
  import opened Bits
  import opened Orders
  import opened Sv32
  import opened PageBytes
  import opened CSched
  import opened CProcess
  import opened StackWords

  // Registers in the order of `struct trap_frame`.
  const RA: nat := 0
  const A0: nat := 10
  const A3: nat := 13
  const S0: nat := 18
  const S1: nat := 19
  const SP: nat := 30
  const REGS: nat := 31

  const SYS_PUTCHAR: nat := 1
  const SYS_GETCHAR: nat := 2
  const SYS_EXIT: nat := 3

  /**
   Where the process table lies, the stack depth of the C frames, the code addresses a
   switch can return to, the bounds of free RAM and the address spaces built there.
   */
  datatype Layout = Layout(
    base: nat, depth: nat, userEntry: nat, getcharRet: nat, exitRet: nat, mainRet: nat,
    freeRam: nat, end: nat, spaces: map<nat, Space>)

  ghost predicate ValidLayout(l: Layout)
  {
    && l.base % 4 == 0 && l.depth % 4 == 0 && l.depth + 176 <= STACK_BYTES
    && l.userEntry != l.getcharRet && l.userEntry != l.exitRet && l.userEntry != l.mainRet
    && l.getcharRet != l.exitRet && l.getcharRet != l.mainRet && l.exitRet != l.mainRet
    && l.base + PROC_NO_MAX * PROC_BYTES <= l.freeRam
    && KERNEL_BASE <= l.end < WORD && l.end % PAGE_SIZE == 0
    && SpacesPlaced(l)
  }

  /** The regions of the address spaces are apart, and above the kernel's own memory. */
  ghost predicate SpacesPlaced(l: Layout)
  {
    Separate(l.spaces) && forall i :: i in l.spaces ==> l.freeRam <= l.spaces[i].lo
  }

  datatype Where = User(pc: nat) | Dispatch | Polling | Exiting | Halted

  /** What a process last did; no step looks at it. */
  datatype Last = Fresh | Running | Trapped(regs: seq<nat>, pc: nat) | Gone

  datatype State = State(
    mem: Ram,
    regs: seq<nat>,
    at: Where,
    sepc: nat,
    sscratch: nat,
    satp: nat,
    procs: seq<Proc>,
    current: nat,
    last: seq<Last>)

  // -------------------------------------------------------------- stack layout

  function Top(l: Layout, i: nat): nat
  {
    StackTop(l.base, i)
  }

  /** The trap frame `kernel_entry` builds at the top of the stack. */
  function FrameAt(l: Layout, i: nat): nat
  {
    Top(l, i) - 4 * REGS
  }

  /** The thirteen words `switch_context` pushes below the C frames of a system call. */
  function SwitchAt(l: Layout, i: nat): nat
    requires l.depth + 176 <= STACK_BYTES
  {
    FrameAt(l, i) - l.depth - 52
  }

  /** The stacks of different slots do not overlap. */
  lemma StacksApart(l: Layout, i: nat, j: nat)
    requires ValidLayout(l) && i != j
    ensures Top(l, i) <= Top(l, j) - STACK_BYTES || Top(l, j) <= Top(l, i) - STACK_BYTES
    ensures SwitchAt(l, i) >= Top(l, i) - STACK_BYTES >= l.base
  {
    if i < j { assert (i + 1) * PROC_BYTES + PROC_BYTES <= (j + 1) * PROC_BYTES; }
    else { assert (j + 1) * PROC_BYTES + PROC_BYTES <= (i + 1) * PROC_BYTES; }
  }

  // ------------------------------------------------------ address translation

  const SATP_SV32: nat := 0x8000_0000

  /** `SATP_SV32 | (page_table / PAGE_SIZE)` */
  function SatpOf(root: nat): nat
  {
    Or(SATP_SV32, root / PAGE_SIZE)
  }

  /** The root table the hardware uses: satp holds its page number in the low 22 bits. */
  function SatpRoot(satp: nat): nat
  {
    satp % 0x40_0000 * PAGE_SIZE
  }

  lemma SatpNamesRoot(root: nat)
    requires PageAligned(root)
    ensures SatpRoot(SatpOf(root)) == root && SatpOf(root) / 0x8000_0000 == 1
  {
    var n := root / PAGE_SIZE;
    var k := ThirtyOne();
    OrDisjoint(1, n, k);
    assert SatpOf(root) == 0x8000_0000 + n;
    assert (0x8000_0000 + n) % 0x40_0000 == n;
  }

  lemma ThirtyOne() returns (k: nat)
    ensures Pow2(k) == SATP_SV32
  {
    k := 31;
    Pow2Constants();
  }

  // -------------------------------------------------------------------- steps

  /** User code computes: any registers, any pc; supervisor state is out of its reach. */
  ghost predicate UserStep(s: State, s': State)
  {
    && s.at.User? && s'.at.User? && |s'.regs| == REGS
    && s' == s.(regs := s'.regs, at := s'.at)
  }

  /** The walk for the current satp reaches the physical address pa with the user bit set. */
  ghost predicate UserReaches(s: State, va: nat, pa: nat, flags: nat)
  {
    va < WORD && Translate(s.mem, SatpRoot(s.satp), va) == Mapped(pa, flags) && IsU(flags)
  }

  /** User code stores: if the walk allows it, the word at the physical address takes any new value. */
  ghost predicate StoreStep(s: State, va: nat, word: nat, s': State)
  {
    && s.at.User? && s'.at.User? && |s'.regs| == REGS
    && exists pa: nat, flags: nat :: UserReaches(s, va, pa, flags) && IsW(flags)
                           && s' == s.(mem := Store(s.mem, pa - pa % 4, word), regs := s'.regs, at := s'.at)
  }

  /** Any other trap: the frame is saved and `handle_trap` panics. */
  ghost predicate FaultStep(s: State, s': State)
  {
    && s.at.User? && |s.regs| == REGS && s.sscratch >= 4 * REGS
    && s' == s.(mem := SaveWords(s.mem, s.sscratch - 4 * REGS, s.regs), at := Halted)
  }

  /**
   An `ecall`: `kernel_entry` swaps sp with sscratch, stores all registers and the user
   sp in a frame, resets sscratch and calls `handle_trap`, which reads sepc.
   */
  ghost predicate EcallStep(l: Layout, s: State, s': State)
  {
    && s.at.User? && |s.regs| == REGS && s.sscratch >= 4 * REGS
    && var f := s.sscratch - 4 * REGS;
       && s'.mem == SaveWords(s.mem, f, s.regs)
       && s'.sepc == s.at.pc
       && s'.sscratch == f + 4 * REGS
       && s'.at == Dispatch
       && |s'.regs| == REGS && s'.regs[S0] == s'.sepc && s'.regs[S1] == f && s'.regs[SP] + l.depth == f
       && s'.satp == s.satp && s'.procs == s.procs && s'.current == s.current
       && s.current < |s.last| && s'.last == s.last[s.current := Trapped(s.regs, s.at.pc)]
  }

  /** `handle_trap` returns: sepc becomes `user_pc + 4`, all registers are reloaded from the frame, `sret`. */
  ghost predicate Return(l: Layout, s: State, m: Ram, s': State)
  {
    && |s.regs| == REGS
    && s'.mem == m
    && s'.sepc == (s.regs[S0] + 4) % WORD
    && s'.regs == LoadWords(m, s.regs[SP] + l.depth, REGS)
    && s'.at == User(s'.sepc)
    && s'.sscratch == s.sscratch && s'.satp == s.satp && s'.procs == s.procs && s'.current == s.current
    && s.current < |s.last| && s'.last == s.last[s.current := Running]
  }

  function SyscallNumber(s: State): nat
    requires |s.regs| == REGS
  {
    Load(s.mem, s.regs[S1] + 4 * A3)
  }

  /** The switch in `handle_syscall`. */
  ghost predicate DispatchStep(l: Layout, s: State, s': State)
  {
    && s.at == Dispatch && |s.regs| == REGS && s.current < |s.procs| && s.current < |s.last|
    && if SyscallNumber(s) == SYS_PUTCHAR then Return(l, s, s.mem, s')
       else if SyscallNumber(s) == SYS_GETCHAR then s' == s.(at := Polling)
       else if SyscallNumber(s) == SYS_EXIT then
         s' == s.(at := Exiting, procs := s.procs[s.current := s.procs[s.current].(state := Exited)],
                  last := s.last[s.current := Gone])
       else s' == s.(at := Halted)
  }

  /** A character arrived: it becomes a0 of the frame and the call returns. */
  ghost predicate GotCharStep(l: Layout, s: State, ch: nat, s': State)
  {
    s.at == Polling && |s.regs| == REGS && Return(l, s, Store(s.mem, s.regs[S1] + 4 * A0, ch), s')
  }

  /** The registers `switch_context` pushes: the return address and s0 to s11. */
  function SavedRegs(site: nat, regs: seq<nat>): seq<nat>
    requires |regs| == REGS
  {
    [site] + regs[S0..SP]
  }

  /** That is ra and s0 to s11, which lie at 18 to 29 in `struct trap_frame`. */
  lemma SavedRegsAre(site: nat, regs: seq<nat>)
    requires |regs| == REGS
    ensures |SavedRegs(site, regs)| == 13 && SavedRegs(site, regs)[0] == site
    ensures forall k :: 1 <= k < 13 ==> SavedRegs(site, regs)[k] == regs[17 + k]
  {
  }

  /**
   `yield` to another process n, called from the code address `site`: satp and sscratch
   are set, `switch_context` pushes on the old stack and pops from the new one.
   */
  ghost predicate Switch(l: Layout, s: State, site: nat, n: nat, s': State)
  {
    && |s.regs| == REGS && s.regs[SP] >= 52 && s.current < |s.procs| && n < |s.procs| && n < |s.last|
    && var sp := s.regs[SP] - 52;
       var nsp := s.procs[s.current := s.procs[s.current].(sp := sp)][n].sp;
       && s'.mem == SaveWords(s.mem, sp, SavedRegs(site, s.regs))
       && s'.procs == s.procs[s.current := s.procs[s.current].(sp := sp)]
       && s'.current == n
       && s'.satp == SatpOf(s.procs[n].pageTable)
       && s'.sscratch == Top(l, n)
       && |s'.regs| == REGS
       && LoadWords(s'.mem, nsp, 13) == SavedRegs(s'.regs[RA], s'.regs)
       && s'.regs[SP] == nsp + 52
       && Resume(l, s, n, s'.regs[RA], s')
  }

  /** Where the popped return address leads. */
  ghost predicate Resume(l: Layout, s: State, n: nat, ra: nat, s': State)
    requires n < |s.last|
  {
    if ra == l.userEntry then
      s'.sepc == USER_BASE && s'.at == User(USER_BASE) && s'.last == s.last[n := Running]
    else
      && s'.sepc == s.sepc && s'.last == s.last
      && s'.at == if ra == l.getcharRet then Polling else Halted
  }

  /** `yield` in the getchar loop. */
  ghost predicate PollYieldStep(l: Layout, s: State, n: nat, s': State)
  {
    && s.at == Polling && |s.procs| == PROC_NO_MAX && s.current < PROC_NO_MAX && n < PROC_NO_MAX
    && Chosen(s.procs, s.current, n)
    && if n == s.current then s' == s else Switch(l, s, l.getcharRet, n, s')
  }

  /** `yield` after `exit`; coming back from it would reach the panic. */
  ghost predicate ExitYieldStep(l: Layout, s: State, n: nat, s': State)
  {
    && s.at == Exiting && |s.procs| == PROC_NO_MAX && s.current < PROC_NO_MAX && n < PROC_NO_MAX
    && Chosen(s.procs, s.current, n)
    && if n == s.current then s' == s.(at := Halted) else Switch(l, s, l.exitRet, n, s')
  }

  datatype Event =
    | LUser
    | LStore(va: nat, word: nat)
    | LFault
    | LEcall
    | LDispatch
    | LGotChar(ch: nat)
    | LPollYield(n: nat)
    | LExitYield(n: nat)

  ghost predicate Step(l: Layout, s: State, e: Event, s': State)
  {
    match e
    case LUser => UserStep(s, s')
    case LStore(va, word) => StoreStep(s, va, word, s')
    case LFault => FaultStep(s, s')
    case LEcall => EcallStep(l, s, s')
    case LDispatch => DispatchStep(l, s, s')
    case LGotChar(ch) => GotCharStep(l, s, ch, s')
    case LPollYield(n) => PollYieldStep(l, s, n, s')
    case LExitYield(n) => ExitYieldStep(l, s, n, s')
  }

  // ---------------------------------------------------------------- invariant

  /** A runnable process that is not current can be resumed correctly. */
  ghost predicate Parked(l: Layout, m: Ram, p: Proc, i: nat, last: Last)
    requires ValidLayout(l)
  {
    match last
    case Fresh =>
      p.sp == InitialSp(l.base, i) && Load(m, p.sp) == l.userEntry
    case Trapped(regs, pc) =>
      && p.sp == SwitchAt(l, i)
      && |regs| == REGS && regs[A3] == SYS_GETCHAR && At(m, FrameAt(l, i), regs)
      && Load(m, p.sp) == l.getcharRet && Load(m, p.sp + 4) == pc && Load(m, p.sp + 8) == FrameAt(l, i)
    case _ => false
  }

  /** The idle process waits in `kernel_main`, on the boot stack. */
  ghost predicate IdleParked(l: Layout, m: Ram, p: Proc)
  {
    && Load(m, p.sp) == l.mainRet && p.sp + 52 <= l.freeRam
    && (p.sp + 52 <= l.base || p.sp >= Top(l, PROC_NO_MAX - 1))
  }

  /** The current process inside a system call. */
  ghost predicate InCall(l: Layout, s: State)
    requires s.current < |s.last|
  {
    && s.last[s.current].Trapped?
    && var t := s.last[s.current];
       && |t.regs| == REGS && At(s.mem, FrameAt(l, s.current), t.regs)
       && |s.regs| == REGS && s.regs[S0] == t.pc && s.regs[S1] == FrameAt(l, s.current)
       && s.regs[SP] + l.depth == FrameAt(l, s.current)
  }

  ghost predicate CurrentOk(l: Layout, s: State)
    requires s.current < |s.last| && s.current < |s.procs|
  {
    match s.at
    case User(pc) => s.procs[s.current].state == Runnable && s.last[s.current] == Running && |s.regs| == REGS
    case Dispatch => s.procs[s.current].state == Runnable && InCall(l, s)
    case Polling => s.procs[s.current].state == Runnable && InCall(l, s) && s.last[s.current].regs[A3] == SYS_GETCHAR
    case Exiting =>
      && s.procs[s.current].state == Exited && s.last[s.current] == Gone
      && |s.regs| == REGS && s.regs[SP] + l.depth == FrameAt(l, s.current)
    case Halted => true
  }

  /** All address spaces are in place. */
  ghost predicate Shapes(l: Layout, m: Ram)
  {
    forall i :: i in l.spaces ==> SpaceShape(m, l.spaces[i], l.end)
  }

  /** Every process has an address space, and its record names the root table. */
  ghost predicate RootsOk(l: Layout, procs: seq<Proc>)
  {
    forall i :: 0 <= i < |procs| && procs[i].state != Unused ==>
      i in l.spaces && procs[i].pageTable == l.spaces[i].table.root
  }

  /** The address spaces are in place, and satp names that of the current process. */
  ghost predicate SpaceInv(l: Layout, s: State)
  {
    && Shapes(l, s.mem) && RootsOk(l, s.procs)
    && (s.at != Halted && s.current < |s.procs| ==> s.satp == SatpOf(s.procs[s.current].pageTable))
  }

  /** Everyone who can be switched to is parked. */
  ghost predicate StackInv(l: Layout, s: State)
    requires ValidLayout(l) && |s.procs| == |s.last| == PROC_NO_MAX
  {
    s.at != Halted ==>
      && IdleParked(l, s.mem, s.procs[0])
      && forall i :: 1 <= i < PROC_NO_MAX && i != s.current && s.procs[i].state == Runnable ==>
           Parked(l, s.mem, s.procs[i], i, s.last[i])
  }

  ghost predicate Inv(l: Layout, s: State)
  {
    && ValidLayout(l)
    && TableOk(s.procs) && |s.last| == PROC_NO_MAX
    && s.current < PROC_NO_MAX
    && (s.at != Halted ==> s.current >= 1 && s.sscratch == Top(l, s.current) && s.procs[s.current].state != Unused)
    && CurrentOk(l, s)
    && (forall i :: 1 <= i < PROC_NO_MAX && s.procs[i].state == Exited ==> s.last[i] == Gone)
    && StackInv(l, s)
    && SpaceInv(l, s)
  }

  // ------------------------------------------------------- every step keeps it

  lemma TopsBelowRam(l: Layout, i: nat)
    requires ValidLayout(l) && i < PROC_NO_MAX
    ensures Top(l, i) <= Top(l, PROC_NO_MAX - 1) <= l.freeRam
  {
  }

  /** Writes below free RAM leave the address spaces alone. */
  lemma ShapesBelowRam(l: Layout, m: Ram, m': Ram)
    requires ValidLayout(l) && Shapes(l, m) && forall a: nat :: a >= l.freeRam ==> Load(m', a) == Load(m, a)
    ensures Shapes(l, m')
  {
    hide Load;
    forall i | i in l.spaces
      ensures SpaceShape(m', l.spaces[i], l.end)
    {
      TableAbove(m, l.spaces[i], l.end);
      hide SpaceShape;
      assert forall p: nat :: l.freeRam <= p ==> SamePage(m, m', p);
      ShapeUnchanged(m, m', l.spaces[i], l.end);
    }
  }

  lemma TableAbove(m: Ram, s: Space, end: nat)
    requires SpaceShape(m, s, end)
    ensures forall p :: Owns(s.table, p) ==> s.lo <= p
  {
  }

  /** Writes to one process's stack leave the others parked. */
  lemma ParkedUnchanged(l: Layout, m: Ram, m': Ram, p: Proc, i: nat, last: Last, j: nat)
    requires ValidLayout(l) && Parked(l, m, p, i, last) && i != j
    requires forall b: nat :: b < Top(l, j) - STACK_BYTES || b >= Top(l, j) ==> Load(m', b) == Load(m, b)
    ensures Parked(l, m', p, i, last)
  {
    StacksApart(l, i, j);
    StacksApart(l, j, i);
    if last.Trapped? {
      AtUnchanged(m, m', FrameAt(l, i), last.regs, Top(l, j) - STACK_BYTES, Top(l, j));
    }
  }

  lemma IdleUnchanged(l: Layout, m: Ram, m': Ram, p: Proc, j: nat)
    requires ValidLayout(l) && IdleParked(l, m, p) && j < PROC_NO_MAX
    requires forall b: nat :: b < Top(l, j) - STACK_BYTES || b >= Top(l, j) ==> Load(m', b) == Load(m, b)
    ensures IdleParked(l, m', p)
  {
    StacksApart(l, j, j + 1);
    assert Top(l, j) <= Top(l, PROC_NO_MAX - 1);
  }

  lemma SameRoots(l: Layout, procs: seq<Proc>, procs': seq<Proc>)
    requires RootsOk(l, procs) && |procs'| == |procs|
    requires forall i :: 0 <= i < |procs| ==>
               procs'[i].pageTable == procs[i].pageTable && (procs'[i].state == Unused <==> procs[i].state == Unused)
    ensures RootsOk(l, procs')
  {
  }

  /** A step that moves no page table keeps the spaces, as long as satp follows the current process. */
  lemma SpaceInvStays(l: Layout, s: State, s': State)
    requires SpaceInv(l, s) && Shapes(l, s'.mem) && |s'.procs| == |s.procs|
    requires forall i :: 0 <= i < |s.procs| ==>
               && s'.procs[i].pageTable == s.procs[i].pageTable
               && (s'.procs[i].state == Unused <==> s.procs[i].state == Unused)
    requires s'.at == Halted || (s'.current < |s.procs| && s'.satp == SatpOf(s.procs[s'.current].pageTable))
             || (s.at != Halted && s'.current == s.current && s'.satp == s.satp)
    ensures SpaceInv(l, s')
  {
    hide Shapes, SatpOf;
    SameRoots(l, s.procs, s'.procs);
  }

  /** All the others, when only the current process's stack was written. */
  lemma OthersUnchanged(l: Layout, s: State, m': Ram)
    requires Inv(l, s) && s.at != Halted
    requires forall b: nat :: b < Top(l, s.current) - STACK_BYTES || b >= Top(l, s.current) ==>
               Load(m', b) == Load(s.mem, b)
    ensures Shapes(l, m')
    ensures IdleParked(l, m', s.procs[0])
    ensures forall i :: 1 <= i < PROC_NO_MAX && i != s.current && s.procs[i].state == Runnable ==>
              Parked(l, m', s.procs[i], i, s.last[i])
  {
    hide Shapes, RootsOk, SatpOf, SpacesPlaced, Parked, IdleParked, Load, CurrentOk;
    TopsBelowRam(l, s.current);
    ShapesBelowRam(l, s.mem, m');
    IdleUnchanged(l, s.mem, m', s.procs[0], s.current);
    forall i | 1 <= i < PROC_NO_MAX && i != s.current && s.procs[i].state == Runnable
      ensures Parked(l, m', s.procs[i], i, s.last[i])
    {
      ParkedUnchanged(l, s.mem, m', s.procs[i], i, s.last[i], s.current);
    }
  }

  /** In user mode satp names the process's own root table. */
  lemma OwnRoot(l: Layout, s: State)
    requires Inv(l, s) && s.at.User?
    ensures s.current in l.spaces && SpaceShape(s.mem, l.spaces[s.current], l.end)
    ensures SatpRoot(s.satp) == l.spaces[s.current].table.root
  {
    hide Parked, IdleParked, SatpOf, SatpRoot;
    var t := l.spaces[s.current].table;
    assert PageAligned(t.root);
    SatpNamesRoot(t.root);
  }

  /** Whatever user mode reaches is a byte of the process's own frames. */
  lemma UserReachesOwn(l: Layout, s: State, va: nat, pa: nat, flags: nat)
    requires Inv(l, s) && s.at.User? && UserReaches(s, va, pa, flags)
    ensures s.current in l.spaces && InImage(va, l.spaces[s.current]) && pa == FrameByte(l.spaces[s.current], va)
  {
    OwnRoot(l, s);
    EndOk(l);
    hide Inv, SpaceShape, Translate, SatpRoot, FrameByte, InImage, InKernel;
    WalkOfSpace(s.mem, l.spaces[s.current], l.end, va);
  }

  lemma EndOk(l: Layout)
    requires ValidLayout(l)
    ensures KERNEL_BASE <= l.end < WORD && l.end % PAGE_SIZE == 0
  {
  }

  /** The word a user store changes is word w of the process's frame k. */
  lemma StoredWord(s: Space, va: nat) returns (k: nat, w: nat)
    requires InImage(va, s) && forall i :: 0 <= i < |s.frames| ==> PageAligned(s.frames[i])
    ensures k < |s.frames| && w < 1024 && FrameByte(s, va) - FrameByte(s, va) % 4 == s.frames[k] + 4 * w
  {
    var off := va - USER_BASE;
    k, w := off / PAGE_SIZE, off % PAGE_SIZE / 4;
    UserOffset(va, |s.frames|);
    RoundToWord(s.frames[k], off % PAGE_SIZE);
  }

  lemma RoundToWord(page: nat, x: nat)
    requires page % PAGE_SIZE == 0 && x < PAGE_SIZE
    ensures page + x - (page + x) % 4 == page + 4 * (x / 4) && x / 4 < 1024
  {
    var n := page / PAGE_SIZE;
    assert page == 4 * (1024 * n);
  }

  /** A store into a frame of one process leaves all tables in place. */
  lemma ShapesAfterStore(l: Layout, m: Ram, p: nat, k: nat, w: nat, word: nat)
    requires ValidLayout(l) && Shapes(l, m) && p in l.spaces && k < |l.spaces[p].frames| && w < 1024
    ensures Shapes(l, Store(m, l.spaces[p].frames[k] + 4 * w, word))
  {
    var frame := l.spaces[p].frames[k];
    assert SpaceShape(m, l.spaces[p], l.end);
    assert PageAligned(frame);
    forall i | i in l.spaces
      ensures SpaceShape(Store(m, frame + 4 * w, word), l.spaces[i], l.end)
    {
      if i != p {
        assert frame in l.spaces[p].frames;
        NoSharedPages(m, l.spaces[i], l.spaces[p], l.end, frame);
      }
      hide Store, Owns, Separate, Mappings, FramesIn, Holds;
      TableAfterStore(m, l.spaces[i], frame, w, word);
    }
  }

  lemma TableAfterStore(m: Ram, s: Space, frame: nat, w: nat, word: nat)
    requires TableIn(m, s.table, s.leaves, s.lo, s.hi) && PageAligned(frame) && w < 1024 && !Owns(s.table, frame)
    ensures TableIn(Store(m, frame + 4 * w, word), s.table, s.leaves, s.lo, s.hi)
  {
    hide Holds, Owns, Store;
    WriteElsewhere(m, s.table, s.leaves, frame, w, word);
  }

  /** Frames lie in free RAM. */
  lemma FrameAbove(l: Layout, m: Ram, p: nat, k: nat)
    requires ValidLayout(l) && Shapes(l, m) && p in l.spaces && k < |l.spaces[p].frames|
    ensures l.freeRam <= l.spaces[p].frames[k] && PageAligned(l.spaces[p].frames[k])
  {
    assert SpaceShape(m, l.spaces[p], l.end);
  }

  /** A user store changes one word, in a frame of the process that runs. */
  lemma StoreHitsOwnFrame(l: Layout, s: State, va: nat, word: nat, s': State) returns (k: nat, w: nat)
    requires Inv(l, s) && StoreStep(s, va, word, s')
    ensures s.current in l.spaces && k < |l.spaces[s.current].frames| && w < 1024
    ensures l.freeRam <= l.spaces[s.current].frames[k] && PageAligned(l.spaces[s.current].frames[k])
    ensures s' == s.(mem := Store(s.mem, l.spaces[s.current].frames[k] + 4 * w, word), regs := s'.regs, at := s'.at)
  {
    hide Inv, UserReaches, FrameByte, InImage, Store;
    var pa: nat, flags: nat :| UserReaches(s, va, pa, flags) && IsW(flags)
                               && s' == s.(mem := Store(s.mem, pa - pa % 4, word), regs := s'.regs, at := s'.at);
    UserReachesOwn(l, s, va, pa, flags);
    FramesAligned(l, s, s.current);
    k, w := StoredWord(l.spaces[s.current], va);
    FrameAboveIn(l, s, k);
  }

  lemma FramesAligned(l: Layout, s: State, p: nat)
    requires Inv(l, s) && p in l.spaces
    ensures forall i :: 0 <= i < |l.spaces[p].frames| ==> PageAligned(l.spaces[p].frames[i])
  {
    hide Parked, IdleParked, CurrentOk;
    assert SpaceShape(s.mem, l.spaces[p], l.end);
  }

  lemma FrameAboveIn(l: Layout, s: State, k: nat)
    requires Inv(l, s) && s.current in l.spaces && k < |l.spaces[s.current].frames|
    ensures l.freeRam <= l.spaces[s.current].frames[k] && PageAligned(l.spaces[s.current].frames[k])
  {
    FrameAbove(l, s.mem, s.current, k);
  }

  /** A store into free RAM leaves what the kernel stacks hold. */
  lemma StacksAfterStore(l: Layout, s: State, s': State, a: nat, word: nat)
    requires Inv(l, s) && s.at != Halted && a >= l.freeRam
    requires s'.mem == Store(s.mem, a, word)
    requires s'.procs == s.procs && s'.last == s.last && s'.current == s.current
    ensures StackInv(l, s')
  {
    hide Shapes, RootsOk, SpacesPlaced, SatpOf, CurrentOk;
    forall i | 1 <= i < PROC_NO_MAX && i != s.current && s.procs[i].state == Runnable
      ensures Parked(l, Store(s.mem, a, word), s.procs[i], i, s.last[i])
    {
      assert Parked(l, s.mem, s.procs[i], i, s.last[i]);
      TopsBelowRam(l, i);
      StacksApart(l, i, i + 1);
      if s.last[i].Trapped? {
        AtUnchanged(s.mem, Store(s.mem, a, word), FrameAt(l, i), s.last[i].regs, a, a + 1);
      }
    }
  }

  lemma StoreKeepsInv(l: Layout, s: State, va: nat, word: nat, s': State)
    requires Inv(l, s) && StoreStep(s, va, word, s')
    ensures Inv(l, s')
  {
    hide Inv, Store, Shapes, IdleParked, Parked, ValidLayout, StackInv;
    ShapesOf(l, s);
    var k, w := StoreHitsOwnFrame(l, s, va, word, s');
    var a := l.spaces[s.current].frames[k] + 4 * w;
    ShapesAfterStore(l, s.mem, s.current, k, w, word);
    StacksAfterStore(l, s, s', a, word);
    UserMemoryKeepsInv(l, s, s');
  }

  /** New memory under a user process keeps the invariant if the kernel's data are still there. */
  lemma UserMemoryKeepsInv(l: Layout, s: State, s': State)
    requires Inv(l, s) && s.at.User? && s'.at.User? && |s'.regs| == REGS
    requires s' == s.(mem := s'.mem, regs := s'.regs, at := s'.at)
    requires Shapes(l, s'.mem) && StackInv(l, s')
    ensures Inv(l, s')
  {
    hide SpaceInv, StackInv, Shapes, SpacesPlaced;
    SpaceInvStays(l, s, s');
  }

  lemma ShapesOf(l: Layout, s: State)
    requires Inv(l, s)
    ensures ValidLayout(l) && Shapes(l, s.mem)
  {
  }

  lemma FaultKeepsInv(l: Layout, s: State, s': State)
    requires Inv(l, s) && FaultStep(s, s')
    ensures Inv(l, s')
  {
    SaveWordsEffect(s.mem, FrameAt(l, s.current), s.regs);
    hide SaveWords, SpaceInv, Shapes, SpacesPlaced, Parked, IdleParked, Load;
    StacksApart(l, s.current, s.current + 1);
    OthersUnchanged(l, s, s'.mem);
    SpaceInvStays(l, s, s');
  }

  lemma EcallKeepsInv(l: Layout, s: State, s': State)
    requires Inv(l, s) && EcallStep(l, s, s')
    ensures Inv(l, s')
  {
    SaveWordsEffect(s.mem, FrameAt(l, s.current), s.regs);
    hide SaveWords, SpaceInv, Shapes, SpacesPlaced, Parked, IdleParked, Load;
    StacksApart(l, s.current, s.current + 1);
    OthersUnchanged(l, s, s'.mem);
    SpaceInvStays(l, s, s');
  }

  /** Returning to user mode gives back the saved registers, with a0 replaced for getchar. */
  lemma ReturnRestores(l: Layout, s: State, m: Ram, regs: seq<nat>, s': State)
    requires Inv(l, s) && (s.at == Dispatch || s.at == Polling)
    requires |regs| == REGS && At(m, FrameAt(l, s.current), regs)
    requires Return(l, s, m, s')
    ensures s'.regs == regs && s'.at == User((s.last[s.current].pc + 4) % WORD) && s'.sscratch == Top(l, s.current)
  {
    LoadsBack(m, FrameAt(l, s.current), regs);
    hide LoadWords;
  }

  /** The system call number is the a3 the process had at its `ecall`. */
  lemma SyscallNumberSaved(l: Layout, s: State)
    requires Inv(l, s) && (s.at == Dispatch || s.at == Polling)
    ensures SyscallNumber(s) == s.last[s.current].regs[A3]
  {
    assert At(s.mem, FrameAt(l, s.current), s.last[s.current].regs);
  }

  lemma DispatchKeepsInv(l: Layout, s: State, s': State)
    requires Inv(l, s) && DispatchStep(l, s, s')
    ensures Inv(l, s')
  {
    DispatchKeepsParked(l, s, s');
    hide SpaceInv, StackInv, SpacesPlaced, LoadWords, At;
    SyscallNumberSaved(l, s);
    if SyscallNumber(s) == SYS_PUTCHAR {
      ReturnRestores(l, s, s.mem, s.last[s.current].regs, s');
      hide Inv;
      ReturnKeepsInv(l, s, s');
    } else if SyscallNumber(s) == SYS_EXIT {
      ExitKeepsInv(l, s, s');
    }
  }

  /** The exit system call marks the process, which keeps its stack until the yield. */
  lemma ExitKeepsInv(l: Layout, s: State, s': State)
    requires Inv(l, s) && s.at == Dispatch
    requires SpaceInv(l, s') && |s'.procs| == |s'.last| == PROC_NO_MAX && StackInv(l, s')
    requires s' == s.(at := Exiting, procs := s.procs[s.current := s.procs[s.current].(state := Exited)],
                      last := s.last[s.current := Gone])
    ensures Inv(l, s')
  {
    hide SpaceInv, StackInv, SpacesPlaced, At;
  }

  lemma DispatchKeepsParked(l: Layout, s: State, s': State)
    requires Inv(l, s) && DispatchStep(l, s, s')
    ensures SpaceInv(l, s') && |s'.procs| == |s'.last| == PROC_NO_MAX && StackInv(l, s')
  {
    ShapesOf(l, s);
    hide SpaceInv, Shapes, SpacesPlaced, Parked, IdleParked, LoadWords, CurrentOk;
    SpaceInvStays(l, s, s');
  }

  lemma A0Stored(m: Ram, a: nat, regs: seq<nat>, ch: nat)
    requires |regs| == REGS && At(m, a, regs)
    ensures At(Store(m, a + 4 * A0, ch), a, regs[A0 := ch])
    ensures forall b: nat :: b < a || b >= a + 4 * REGS ==> Load(Store(m, a + 4 * A0, ch), b) == Load(m, b)
  {
  }

  lemma GotCharKeepsInv(l: Layout, s: State, ch: nat, s': State)
    requires Inv(l, s) && GotCharStep(l, s, ch, s')
    ensures Inv(l, s')
  {
    hide Inv, Shapes, Parked, IdleParked, Store, Load;
    GotCharMemory(l, s, ch);
    SpacesOf(l, s);
    InTheCall(l, s);
    SpaceInvStays(l, s, s');
    ReturnRestores(l, s, s'.mem, s.last[s.current].regs[A0 := ch], s');
    ReturnKeepsInv(l, s, s');
  }

  lemma InTheCall(l: Layout, s: State)
    requires Inv(l, s) && s.at == Polling
    ensures ValidLayout(l) && |s.procs| == |s.last| == PROC_NO_MAX && s.current < PROC_NO_MAX && |s.regs| == REGS
    ensures InCall(l, s) && s.last[s.current].regs[A3] == SYS_GETCHAR && s.regs[S1] == FrameAt(l, s.current)
  {
    hide SpaceInv, StackInv, SpacesPlaced;
  }

  lemma GotCharMemory(l: Layout, s: State, ch: nat)
    requires Inv(l, s) && s.at == Polling
    ensures s.last[s.current].Trapped? && |s.last[s.current].regs| == REGS
    ensures var m := Store(s.mem, FrameAt(l, s.current) + 4 * A0, ch);
            && At(m, FrameAt(l, s.current), s.last[s.current].regs[A0 := ch])
            && Shapes(l, m) && StackInv(l, s.(mem := m))
  {
    var f := FrameAt(l, s.current);
    A0Stored(s.mem, f, s.last[s.current].regs, ch);
    hide SpaceInv, Shapes, SpacesPlaced, Parked, IdleParked, Store, Load;
    StacksApart(l, s.current, s.current + 1);
    OthersUnchanged(l, s, Store(s.mem, f + 4 * A0, ch));
  }

  /** Back in user mode with the kernel's data in place. */
  lemma ReturnKeepsInv(l: Layout, s: State, s': State)
    requires Inv(l, s) && (s.at == Dispatch || s.at == Polling) && s'.at.User? && |s'.regs| == REGS
    requires s'.procs == s.procs && s'.current == s.current && s'.last == s.last[s.current := Running]
    requires s'.sscratch == s.sscratch && StackInv(l, s.(mem := s'.mem)) && SpaceInv(l, s')
    ensures Inv(l, s')
  {
    hide SpaceInv, SpacesPlaced, Parked, IdleParked, InCall;
  }

  /** What `switch_context` pushed for the process that yields from the getchar loop is what it needs. */
  lemma YielderParked(l: Layout, s: State, m': Ram)
    requires Inv(l, s) && s.at == Polling
    requires m' == SaveWords(s.mem, SwitchAt(l, s.current), SavedRegs(l.getcharRet, s.regs))
    ensures Parked(l, m', s.procs[s.current].(sp := SwitchAt(l, s.current)), s.current, s.last[s.current])
  {
    hide Inv, Parked, SaveWords, Load, At;
    InTheCall(l, s);
    var sp, saved := SwitchAt(l, s.current), SavedRegs(l.getcharRet, s.regs);
    assert saved[0] == l.getcharRet && saved[1] == s.regs[S0] && saved[2] == s.regs[S1];
    PushedWords(l, s, m', sp, saved);
    hide SavedRegs, ValidLayout;
    ParkedFrom(l, m', s.procs[s.current].(sp := sp), s.current, s.last[s.current]);
  }

  lemma ParkedFrom(l: Layout, m: Ram, p: Proc, i: nat, last: Last)
    requires ValidLayout(l) && last.Trapped? && |last.regs| == REGS && last.regs[A3] == SYS_GETCHAR
    requires p.sp == SwitchAt(l, i) && At(m, FrameAt(l, i), last.regs)
    requires Load(m, p.sp) == l.getcharRet && Load(m, p.sp + 4) == last.pc && Load(m, p.sp + 8) == FrameAt(l, i)
    ensures Parked(l, m, p, i, last)
  {
  }

  lemma PushedWords(l: Layout, s: State, m': Ram, sp: nat, saved: seq<nat>)
    requires ValidLayout(l) && s.current < |s.last| && InCall(l, s)
    requires sp == SwitchAt(l, s.current) && |saved| == 13 && m' == SaveWords(s.mem, sp, saved)
    ensures Load(m', sp) == saved[0] && Load(m', sp + 4) == saved[1] && Load(m', sp + 8) == saved[2]
    ensures At(m', FrameAt(l, s.current), s.last[s.current].regs)
  {
    SaveWordsEffect(s.mem, sp, saved);
    hide SaveWords, Load;
    assert Load(m', sp + 4 * 0) == saved[0] && Load(m', sp + 4 * 1) == saved[1] && Load(m', sp + 4 * 2) == saved[2];
    AtUnchanged(s.mem, m', FrameAt(l, s.current), s.last[s.current].regs, sp, sp + 52);
  }

  /** Popping what is parked for n resumes n where its record says. */
  lemma ResumesAs(l: Layout, m: Ram, p: Proc, n: nat, last: Last, regs: seq<nat>)
    requires ValidLayout(l) && Parked(l, m, p, n, last) && |regs| == REGS
    requires LoadWords(m, p.sp, 13) == SavedRegs(regs[RA], regs)
    ensures last == Fresh ==> regs[RA] == l.userEntry
    ensures last.Trapped? ==> regs[RA] == l.getcharRet && regs[S0] == last.pc && regs[S1] == FrameAt(l, n)
  {
    var w := LoadWords(m, p.sp, 13);
    assert w[0] == regs[RA] && w[1] == regs[S0] && w[2] == regs[S1];
    assert w[0] == Load(m, p.sp + 4 * 0) && w[1] == Load(m, p.sp + 4 * 1) && w[2] == Load(m, p.sp + 4 * 2);
  }

  /** Memory after the push of a switch: address spaces in place, idle and all others parked, the yielder too. */
  ghost predicate Pushed(l: Layout, s: State, m: Ram)
    requires Inv(l, s)
  {
    && Shapes(l, m) && IdleParked(l, m, s.procs[0])
    && (forall i :: 1 <= i < PROC_NO_MAX && i != s.current && s.procs[i].state == Runnable ==>
          Parked(l, m, s.procs[i], i, s.last[i]))
    && (s.at == Polling ==>
          Parked(l, m, s.procs[s.current].(sp := SwitchAt(l, s.current)), s.current, s.last[s.current]))
  }

  lemma PushKeeps(l: Layout, s: State, site: nat)
    requires Inv(l, s) && |s.regs| == REGS && s.regs[SP] + l.depth == FrameAt(l, s.current)
    requires (s.at == Polling && site == l.getcharRet) || (s.at == Exiting && site == l.exitRet)
    ensures Pushed(l, s, SaveWords(s.mem, SwitchAt(l, s.current), SavedRegs(site, s.regs)))
  {
    var c, sp := s.current, SwitchAt(l, s.current);
    var m := SaveWords(s.mem, sp, SavedRegs(site, s.regs));
    SaveWordsEffect(s.mem, sp, SavedRegs(site, s.regs));
    StacksApart(l, c, c + 1);
    if s.at == Polling { YielderParked(l, s, m); }
    hide SpaceInv, StackInv, CurrentOk, Shapes, SpacesPlaced, SaveWords, Load, Parked, IdleParked;
    OthersUnchanged(l, s, m);
  }

  /** In a system call the stack pointer is below the trap frame and the C frames. */
  lemma YielderStack(l: Layout, s: State)
    requires Inv(l, s) && (s.at == Polling || s.at == Exiting)
    ensures |s.regs| == REGS && s.regs[SP] + l.depth == FrameAt(l, s.current)
    ensures s.regs[SP] - 52 == SwitchAt(l, s.current)
  {
    hide SpaceInv, StackInv, SpacesPlaced;
  }

  /** A switch changes no record but the yielder's stack pointer. */
  lemma SwitchRecords(l: Layout, s: State, site: nat, n: nat, s': State)
    requires n != s.current && Switch(l, s, site, n, s')
    ensures |s'.procs| == |s.procs| && s'.current == n < |s.procs| && |s'.regs| == REGS
    ensures forall i :: 0 <= i < |s.procs| ==>
              && s'.procs[i].pid == s.procs[i].pid && s'.procs[i].state == s.procs[i].state
              && s'.procs[i].pageTable == s.procs[i].pageTable
    ensures s'.satp == SatpOf(s.procs[n].pageTable)
    ensures LoadWords(s'.mem, s.procs[n].sp, 13) == SavedRegs(s'.regs[RA], s'.regs)
  {
    hide SatpOf, SaveWords, LoadWords, Resume, SavedRegs;
  }

  /** All stacks and spaces survive it. */
  lemma SwitchMoves(l: Layout, s: State, site: nat, n: nat, s': State)
    requires Inv(l, s) && n != s.current && Switch(l, s, site, n, s')
    requires (s.at == Polling && site == l.getcharRet) || (s.at == Exiting && site == l.exitRet)
    ensures Pushed(l, s, s'.mem) && SpaceInv(l, s')
  {
    hide Inv, Pushed, Shapes, SaveWords, Resume;
    YielderStack(l, s);
    PushKeeps(l, s, site);
    ShapesOf(l, s);
    assert s'.mem == SaveWords(s.mem, SwitchAt(l, s.current), SavedRegs(site, s.regs));
    SwitchRecords(l, s, site, n, s');
    hide Switch;
    PushedShapes(l, s, s'.mem);
    SpacesOf(l, s);
    SpaceInvStays(l, s, s');
  }

  lemma SpacesOf(l: Layout, s: State)
    requires Inv(l, s)
    ensures SpaceInv(l, s)
  {
  }

  lemma PushedShapes(l: Layout, s: State, m: Ram)
    requires Inv(l, s) && Pushed(l, s, m)
    ensures Shapes(l, m)
  {
  }

  lemma SwitchKeepsInv(l: Layout, s: State, site: nat, n: nat, s': State)
    requires Inv(l, s) && n < PROC_NO_MAX && n != s.current && Chosen(s.procs, s.current, n)
    requires (s.at == Polling && site == l.getcharRet) || (s.at == Exiting && site == l.exitRet)
    requires Switch(l, s, site, n, s')
    ensures Inv(l, s')
    ensures n == 0 <==> s'.at == Halted
    ensures n != 0 && s.last[n].Trapped? ==> s'.at == Polling
  {
    hide SpaceInv, StackInv, CurrentOk, Shapes, SatpOf, SpacesPlaced, SaveWords, Load, Parked, IdleParked, LoadWords;
    OnlyRunnableChosen(s.procs, s.current, n);
    SwitchMoves(l, s, site, n, s');
    SwitchRecords(l, s, site, n, s');
    hide Chosen, SavedRegs;
    if n == 0 {
      IdleResumes(l, s'.mem, s.procs[0], s'.regs);
      HaltedKeepsInv(l, s, s');
    } else {
      SwitchToUser(l, s, site, n, s');
    }
  }

  lemma SwitchToUser(l: Layout, s: State, site: nat, n: nat, s': State)
    requires Inv(l, s) && 1 <= n < PROC_NO_MAX && n != s.current && s.procs[n].state == Runnable
    requires (s.at == Polling && site == l.getcharRet) || (s.at == Exiting && site == l.exitRet)
    requires Switch(l, s, site, n, s') && Pushed(l, s, s'.mem) && SpaceInv(l, s') && |s'.regs| == REGS
    requires LoadWords(s'.mem, s.procs[n].sp, 13) == SavedRegs(s'.regs[RA], s'.regs)
    ensures Inv(l, s') && s'.at != Halted && (s.last[n].Trapped? ==> s'.at == Polling)
  {
    hide SpaceInv, StackInv, CurrentOk, Shapes, SatpOf, SpacesPlaced, SaveWords, Load, Parked, IdleParked, LoadWords;
    ResumesAs(l, s'.mem, s.procs[n], n, s.last[n], s'.regs);
    ParkedKind(l, s'.mem, s.procs[n], n, s.last[n]);
    SwitchedTo(l, s, site, n, s');
  }

  lemma HaltedKeepsInv(l: Layout, s: State, s': State)
    requires Inv(l, s) && s'.at == Halted && SpaceInv(l, s') && s'.current < PROC_NO_MAX && s'.last == s.last
    requires |s'.procs| == |s.procs| && forall i :: 0 <= i < |s.procs| ==>
               s'.procs[i].pid == s.procs[i].pid && s'.procs[i].state == s.procs[i].state
    ensures Inv(l, s')
  {
    hide SpaceInv, IdleParked, Parked, SpacesPlaced;
  }

  lemma IdleResumes(l: Layout, m: Ram, p: Proc, regs: seq<nat>)
    requires IdleParked(l, m, p) && |regs| == REGS
    requires LoadWords(m, p.sp, 13) == SavedRegs(regs[RA], regs)
    ensures regs[RA] == l.mainRet
  {
    var w := LoadWords(m, p.sp, 13);
    assert w[0] == Load(m, p.sp + 4 * 0);
  }

  lemma ParkedKind(l: Layout, m: Ram, p: Proc, i: nat, last: Last)
    requires ValidLayout(l) && Parked(l, m, p, i, last)
    ensures last == Fresh ||
            (last.Trapped? && p.sp == SwitchAt(l, i) && |last.regs| == REGS && last.regs[A3] == SYS_GETCHAR
             && At(m, FrameAt(l, i), last.regs))
  {
  }

  /** The invariant on the far side of a switch to a user process. */
  lemma SwitchedTo(l: Layout, s: State, site: nat, n: nat, s': State)
    requires Inv(l, s) && 1 <= n < PROC_NO_MAX && n != s.current
    requires (s.at == Polling && site == l.getcharRet) || (s.at == Exiting && site == l.exitRet)
    requires Switch(l, s, site, n, s')
    requires s.procs[n].state == Runnable
    requires s.last[n] == Fresh ==> s'.regs[RA] == l.userEntry
    requires s.last[n].Trapped? ==>
               s'.regs[RA] == l.getcharRet && s'.regs[S0] == s.last[n].pc && s'.regs[S1] == FrameAt(l, n)
    requires s.last[n] == Fresh ||
             (s.last[n].Trapped? && s.procs[n].sp == SwitchAt(l, n) && |s.last[n].regs| == REGS
              && s.last[n].regs[A3] == SYS_GETCHAR && At(s'.mem, FrameAt(l, n), s.last[n].regs))
    requires Pushed(l, s, s'.mem)
    requires SpaceInv(l, s')
    ensures Inv(l, s') && s'.at != Halted
  {
    hide SpaceInv, SatpOf, SpacesPlaced, SaveWords, Load, Parked, IdleParked, LoadWords, At;
    assert s.regs[SP] - 52 == SwitchAt(l, s.current);
  }

  lemma StepKeepsInv(l: Layout, s: State, e: Event, s': State)
    requires Inv(l, s) && Step(l, s, e, s')
    ensures Inv(l, s')
  {
    match e
    case LUser => hide Shapes, RootsOk, SatpOf, SpacesPlaced, Parked, IdleParked;
    case LStore(va, word) => StoreKeepsInv(l, s, va, word, s');
    case LFault => FaultKeepsInv(l, s, s');
    case LEcall => EcallKeepsInv(l, s, s');
    case LDispatch => DispatchKeepsInv(l, s, s');
    case LGotChar(ch) => GotCharKeepsInv(l, s, ch, s');
    case LPollYield(n) => if n != s.current { SwitchKeepsInv(l, s, l.getcharRet, n, s'); }
    case LExitYield(n) => if n != s.current { SwitchKeepsInv(l, s, l.exitRet, n, s'); }
  }
}
