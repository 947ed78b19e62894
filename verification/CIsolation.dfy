/**
 Isolation between processes in c/kernel.c: over every run of the trap machine a process
 in user mode reaches only its own frames, and nobody else, the kernel included, changes
 what they hold.
 */
module CIsolation {
  import opened Results
  import opened Bits
  import opened Sv32
  import opened PageBytes
  import opened CSched
  import opened CProcess
  import opened StackWords
  import opened CTrap
  import opened CRuns

  /** Only user stores write to free RAM. */
  ghost predicate SameRam(l: Layout, m: Ram, m': Ram)
  {
    forall a: nat :: a >= l.freeRam ==> Load(m', a) == Load(m, a)
  }

  lemma KernelWritesBelow(l: Layout, s: State, a: nat, ws: seq<nat>)
    requires ValidLayout(l) && s.current < PROC_NO_MAX && a + 4 * |ws| <= Top(l, s.current)
    ensures SameRam(l, s.mem, SaveWords(s.mem, a, ws))
  {
    TopsBelowRam(l, s.current);
    SaveWordsEffect(s.mem, a, ws);
    hide SaveWords, Load;
  }

  /** The kernel writes nothing but its stacks. */
  lemma KernelKeepsRam(l: Layout, s: State, e: Event, s': State)
    requires Inv(l, s) && Step(l, s, e, s') && !e.LStore?
    ensures SameRam(l, s.mem, s'.mem)
  {
    hide SpaceInv, StackInv, SpacesPlaced, SatpOf, LoadWords, SaveWords, Chosen, Resume, At;
    match e
    case LFault => KernelWritesBelow(l, s, s.sscratch - 4 * REGS, s.regs);
    case LEcall => KernelWritesBelow(l, s, s.sscratch - 4 * REGS, s.regs);
    case LGotChar(ch) => TopsBelowRam(l, s.current);
    case LPollYield(n) => if n != s.current { SwitchKeepsRam(l, s, l.getcharRet, n, s'); }
    case LExitYield(n) => if n != s.current { SwitchKeepsRam(l, s, l.exitRet, n, s'); }
    case _ =>
  }

  lemma SwitchKeepsRam(l: Layout, s: State, site: nat, n: nat, s': State)
    requires Inv(l, s) && (s.at == Polling || s.at == Exiting) && Switch(l, s, site, n, s')
    ensures SameRam(l, s.mem, s'.mem)
  {
    hide Inv, SaveWords, Resume, SatpOf, LoadWords, SameRam;
    YielderStack(l, s);
    ShapesOf(l, s);
    CurrentBelow(l, s);
    KernelWritesBelow(l, s, s.regs[SP] - 52, SavedRegs(site, s.regs));
  }

  lemma CurrentBelow(l: Layout, s: State)
    requires Inv(l, s)
    ensures s.current < PROC_NO_MAX && FrameAt(l, s.current) <= Top(l, s.current)
  {
  }

  /** The frames of p hold the same in both memories. */
  ghost predicate SameFrames(l: Layout, p: nat, m: Ram, m': Ram)
    requires p in l.spaces
  {
    forall k :: 0 <= k < |l.spaces[p].frames| ==> SamePage(m, m', l.spaces[p].frames[k])
  }

  lemma SameRamSameFrames(l: Layout, s: State, p: nat, m': Ram)
    requires Inv(l, s) && p in l.spaces && SameRam(l, s.mem, m')
    ensures SameFrames(l, p, s.mem, m')
  {
    hide Load, StackInv, CurrentOk;
    forall k | 0 <= k < |l.spaces[p].frames|
      ensures SamePage(s.mem, m', l.spaces[p].frames[k])
    {
      FrameAbove(l, s.mem, p, k);
    }
  }

  /** A step that p does not take in user mode leaves p's frames alone. */
  lemma FramesStep(l: Layout, s: State, e: Event, s': State, p: nat)
    requires Inv(l, s) && Step(l, s, e, s') && p in l.spaces && (!InUser(s, p) || !e.LStore?)
    ensures SameFrames(l, p, s.mem, s'.mem)
  {
    hide Inv, SameFrames, SameRam;
    if e.LStore? {
      var k, w := StoreHitsOwnFrame(l, s, e.va, e.word, s');
      OthersFramesKept(l, s, p, k, w, e.word);
    } else {
      KernelKeepsRam(l, s, e, s');
      SameRamSameFrames(l, s, p, s'.mem);
    }
  }

  lemma OthersFramesKept(l: Layout, s: State, p: nat, k: nat, w: nat, word: nat)
    requires Inv(l, s) && p in l.spaces && p != s.current
    requires s.current in l.spaces && k < |l.spaces[s.current].frames| && w < 1024
    ensures SameFrames(l, p, s.mem, Store(s.mem, l.spaces[s.current].frames[k] + 4 * w, word))
  {
    hide StackInv, CurrentOk, Store, Entry;
    var q, mine, theirs := l.spaces[s.current].frames[k], l.spaces[p], l.spaces[s.current];
    assert SpaceShape(s.mem, mine, l.end) && SpaceShape(s.mem, theirs, l.end);
    FrameAbove(l, s.mem, s.current, k);
    forall i, x | 0 <= i < |mine.frames| && 0 <= x < 1024
      ensures Entry(Store(s.mem, q + 4 * w, word), mine.frames[i], x) == Entry(s.mem, mine.frames[i], x)
    {
      FrameAbove(l, s.mem, p, i);
      NoSharedPages(s.mem, mine, theirs, l.end, mine.frames[i]);
      EntryAfterStore(s.mem, q, w, word, mine.frames[i], x);
    }
  }

  lemma SameFramesTransitive(l: Layout, p: nat, a: Ram, b: Ram, c: Ram)
    requires p in l.spaces && SameFrames(l, p, a, b) && SameFrames(l, p, b, c)
    ensures SameFrames(l, p, a, c)
  {
  }

  /** Over every run: what a process has in memory is changed by nobody else, kernel included. */
  lemma {:induction false} FramesPrivate(l: Layout, run: seq<State>, events: seq<Event>, p: nat, i: nat, k: nat)
    requires IsRun(l, run, events) && p in l.spaces && i <= k < |run|
    requires forall x :: i <= x < k ==> !InUser(run[x], p) || !events[x].LStore?
    ensures SameFrames(l, p, run[i].mem, run[k].mem)
    decreases k
  {
    hide Inv, Step, SameFrames;
    if i < k {
      FramesPrivate(l, run, events, p, i, k - 1);
      RunKeepsInv(l, run, events, k - 1);
      FramesStep(l, run[k - 1], events[k - 1], run[k], p);
      SameFramesTransitive(l, p, run[i].mem, run[k - 1].mem, run[k].mem);
    } else {
      SameFramesSelf(l, p, run[i].mem);
    }
  }

  lemma SameFramesSelf(l: Layout, p: nat, m: Ram)
    requires p in l.spaces
    ensures SameFrames(l, p, m, m)
  {
  }

  /** The byte user mode finds at a virtual address, if it may look. */
  function UserByte(m: Ram, root: nat, va: nat): Option<nat>
  {
    match Translate(m, root, va)
    case PageFault => None
    case Mapped(pa, flags) => if IsU(flags) then Some(ByteAt(m, pa - pa % PAGE_SIZE, pa % PAGE_SIZE)) else None
  }

  /** The byte behind a user address. */
  lemma UserByteIs(l: Layout, s: State, p: nat, va: nat)
    requires Inv(l, s) && InUser(s, p) && va < WORD
    ensures p in l.spaces
    ensures UserByte(s.mem, SatpRoot(s.satp), va) ==
            if InImage(va, l.spaces[p])
            then Some(ByteAt(s.mem, l.spaces[p].frames[(va - USER_BASE) / PAGE_SIZE], (va - USER_BASE) % PAGE_SIZE))
            else None
  {
    hide Inv, SpaceShape, Translate, SatpRoot, ByteAt, InKernel, ValidLayout;
    OwnRoot(l, s);
    ShapesOf(l, s);
    EndOk(l);
    FramesAligned(l, s, p);
    WalkOfSpace(s.mem, l.spaces[p], l.end, va);
    if InImage(va, l.spaces[p]) {
      UserOffset(va, |l.spaces[p].frames|);
      PageAndByte(l.spaces[p].frames[(va - USER_BASE) / PAGE_SIZE], (va - USER_BASE) % PAGE_SIZE);
    }
  }

  lemma PageAndByte(page: nat, x: nat)
    requires page % PAGE_SIZE == 0 && x < PAGE_SIZE
    ensures page + x - (page + x) % PAGE_SIZE == page && (page + x) % PAGE_SIZE == x
  {
  }

  /** Equal frames show user mode equal bytes. */
  lemma SameBytes(l: Layout, s: State, s': State, p: nat, va: nat)
    requires Inv(l, s) && Inv(l, s') && InUser(s, p) && InUser(s', p) && va < WORD
    requires p in l.spaces && SameFrames(l, p, s.mem, s'.mem)
    ensures UserByte(s'.mem, SatpRoot(s'.satp), va) == UserByte(s.mem, SatpRoot(s.satp), va)
  {
    UserByteIs(l, s, p, va);
    UserByteIs(l, s', p, va);
    hide Inv, UserByte, ByteAt, SatpRoot;
    if InImage(va, l.spaces[p]) {
      var off := va - USER_BASE;
      UserOffset(va, |l.spaces[p].frames|);
      SamePageBytes(s.mem, s'.mem, l.spaces[p].frames[off / PAGE_SIZE], off % PAGE_SIZE);
    }
  }

  /**
   Isolation over every run: from an `ecall` to the next time in user mode, whatever the
   others compute and store meanwhile, every virtual address shows a process the same
   byte, or the same refusal, as before.
   */
  lemma UserMemoryPreserved(l: Layout, run: seq<State>, events: seq<Event>, p: nat, i: nat, j: nat, va: nat)
    requires IsRun(l, run, events) && 1 <= p < PROC_NO_MAX && i < j < |run| && va < WORD
    requires InUser(run[i], p) && events[i] == LEcall && InUser(run[j], p)
    requires forall x :: i < x < j ==> !InUser(run[x], p)
    ensures UserByte(run[j].mem, SatpRoot(run[j].satp), va) == UserByte(run[i].mem, SatpRoot(run[i].satp), va)
  {
    hide Inv, Step, SameFrames, UserByte;
    RunKeepsInv(l, run, events, i);
    RunKeepsInv(l, run, events, j);
    OwnRoot(l, run[i]);
    FramesPrivate(l, run, events, p, i, j);
    SameBytes(l, run[i], run[j], p, va);
  }

  /**
   Over every run: in user mode satp names the process's own root table, and every
   physical address user mode can reach, for whatever access, is in its own frames.
   */
  lemma ConfinedToOwnFrames(l: Layout, run: seq<State>, events: seq<Event>, k: nat, va: nat, pa: nat, flags: nat)
    requires IsRun(l, run, events) && k < |run| && run[k].at.User? && UserReaches(run[k], va, pa, flags)
    ensures run[k].current in l.spaces && SatpRoot(run[k].satp) == l.spaces[run[k].current].table.root
    ensures InImage(va, l.spaces[run[k].current]) && pa == FrameByte(l.spaces[run[k].current], va)
  {
    RunKeepsInv(l, run, events, k);
    OwnRoot(l, run[k]);
    UserReachesOwn(l, run[k], va, pa, flags);
  }
}
