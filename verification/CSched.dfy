/**
 The scheduler of c/kernel.c: the scan in `yield`, and how long a runnable process can
 be kept waiting.
 */
module CSched {

  const PROC_NO_MAX: nat := 8

  datatype ProcState = Unused | Runnable | Exited

  datatype Proc = Proc(pid: int, state: ProcState, sp: nat, pageTable: nat)

  /** Bytes of a `struct process`, whose last 8192 bytes are the kernel stack. */
  const PROC_BYTES: nat := 8208
  const STACK_BYTES: nat := 8192

  /** The end of the kernel stack of a slot; the process table starts at `base`. */
  function StackTop(base: nat, slot: nat): nat
  {
    base + (slot + 1) * PROC_BYTES
  }

  /** The stack pointer of a new process: thirteen words for `switch_context` to pop. */
  function InitialSp(base: nat, slot: nat): nat
  {
    StackTop(base, slot) - 52
  }

  predicate Eligible(p: Proc)
  {
    p.state == Runnable && p.pid > 0
  }

  /** C's remainder, which takes the sign of the dividend. */
  function CMod(a: int, b: nat): int
    requires b > 0
  {
    if a >= 0 then a % b else -((-a) % b)
  }

  /** The index `(current_proc->pid + i) % PROC_NO_MAX` of round i of the scan. */
  function ScanIndex(pid: int, i: nat): int
  {
    CMod(pid + i, PROC_NO_MAX)
  }

  /**
   The scan stays inside the process table exactly when the current process is not the
   idle one: with pid -1 the first round reads the slot before the table.
   */
  lemma ScanInBoundsIff(pid: int)
    requires pid >= -1
    ensures (forall i :: 0 <= i < PROC_NO_MAX ==> 0 <= ScanIndex(pid, i) < PROC_NO_MAX) <==> pid >= 0
    ensures ScanIndex(-1, 0) == -1
  {
    if pid < 0 {
      assert ScanIndex(pid, 0) == -1;
    }
  }

  /** The process table as `create_process` leaves it: slot 0 is idle, the others carry slot + 1. */
  ghost predicate TableOk(procs: seq<Proc>)
  {
    && |procs| == PROC_NO_MAX
    && procs[0].pid == -1
    && forall i :: 1 <= i < PROC_NO_MAX && procs[i].state != Unused ==> procs[i].pid == i + 1
  }

  /** d is the number of table slots from c forward to j. */
  function Ahead(c: nat, j: nat): nat
    requires c < PROC_NO_MAX && j < PROC_NO_MAX
  {
    if j > c then j - c else j + PROC_NO_MAX - c
  }

  /** The slot `yield` moves to: the first eligible one after c, c itself last, else idle. */
  ghost predicate Chosen(procs: seq<Proc>, c: nat, n: nat)
    requires |procs| == PROC_NO_MAX && c < PROC_NO_MAX && n < PROC_NO_MAX
  {
    || (&& Eligible(procs[n])
        && forall j :: 0 <= j < PROC_NO_MAX && Eligible(procs[j]) ==> Ahead(c, n) <= Ahead(c, j))
    || (n == 0 && forall j :: 0 <= j < PROC_NO_MAX ==> !Eligible(procs[j]))
  }

  /** What the scan finds at an index; at -1 the bytes before the table, taken for a process. */
  function SlotAt(procs: seq<Proc>, before: Proc, k: int): Proc
    requires |procs| == PROC_NO_MAX && -1 <= k < PROC_NO_MAX
  {
    if k < 0 then before else procs[k]
  }

  /**
   What `yield` moves to from the idle process, whose scan looks at -1 to 6: what lies
   before the table if that looks eligible, else the lowest eligible slot below the last,
   else idle.
   */
  ghost predicate ChosenFromIdle(procs: seq<Proc>, before: Proc, n: int)
    requires |procs| == PROC_NO_MAX && -1 <= n < PROC_NO_MAX
  {
    if Eligible(before) then n == -1
    else if n > 0
      then n < PROC_NO_MAX - 1 && Eligible(procs[n]) && forall j :: 1 <= j < n ==> !Eligible(procs[j])
    else n == 0 && forall j :: 1 <= j < PROC_NO_MAX - 1 ==> !Eligible(procs[j])
  }

  /** The loop of `yield`. */
  method SelectNext(procs: seq<Proc>, before: Proc, current: nat) returns (next: int)
    requires TableOk(procs) && current < PROC_NO_MAX && (current >= 1 ==> procs[current].pid == current + 1)
    ensures -1 <= next < PROC_NO_MAX
    ensures current >= 1 ==> next >= 0 && Chosen(procs, current, next)
    ensures current == 0 ==> ChosenFromIdle(procs, before, next)
  {
    next := 0;
    var i := 0;
    while i < PROC_NO_MAX
      invariant 0 <= i <= PROC_NO_MAX && next == 0
      invariant current >= 1 ==> forall j :: 0 <= j < PROC_NO_MAX && Ahead(current, j) <= i ==> !Eligible(procs[j])
      invariant current == 0 && i > 0 ==> !Eligible(before)
      invariant current == 0 ==> forall j :: 0 <= j < i - 1 ==> !Eligible(procs[j])
    {
      var k := ScanIndex(procs[current].pid, i);
      if current >= 1 { ScanVisits(current, i); } else { ScanFromIdle(i); }
      if Eligible(SlotAt(procs, before, k)) {
        return k;
      }
      i := i + 1;
    }
  }

  /** From the idle process the scan looks at the slots -1 to 6 and never at the last one. */
  lemma ScanFromIdle(i: nat)
    requires i < PROC_NO_MAX
    ensures ScanIndex(-1, i) == i - 1
  {
  }

  /** From idle a user slot is found exactly when one below the last is eligible and the table is not overrun. */
  lemma IdleFindsIff(procs: seq<Proc>, before: Proc, n: int)
    requires |procs| == PROC_NO_MAX && -1 <= n < PROC_NO_MAX && ChosenFromIdle(procs, before, n)
    ensures n > 0 <==> !Eligible(before) && exists j :: 1 <= j < PROC_NO_MAX - 1 && Eligible(procs[j])
    ensures n >= 0 ==> n < PROC_NO_MAX - 1
  {
  }

  /** Round i looks at the slot i + 1 ahead of the current one. */
  lemma ScanVisits(c: nat, i: nat)
    requires 1 <= c < PROC_NO_MAX && i < PROC_NO_MAX
    ensures 0 <= ScanIndex(c + 1, i) < PROC_NO_MAX
    ensures Ahead(c, ScanIndex(c + 1, i)) == i + 1
    ensures forall j :: 0 <= j < PROC_NO_MAX && Ahead(c, j) == i + 1 ==> j == ScanIndex(c + 1, i)
  {
  }

  lemma ChosenUnique(procs: seq<Proc>, c: nat, n: nat, m: nat)
    requires |procs| == PROC_NO_MAX && c < PROC_NO_MAX && n < PROC_NO_MAX && m < PROC_NO_MAX
    requires Chosen(procs, c, n) && Chosen(procs, c, m)
    ensures n == m
  {
  }

  // ---------------------------------------------------------- bounded waiting

  /** How many of the seven user slots lie between c and j, j included. */
  function Waiting(c: nat, j: nat): nat
    requires 1 <= c < PROC_NO_MAX && 1 <= j < PROC_NO_MAX
  {
    if j >= c then j - c else j + (PROC_NO_MAX - 1) - c
  }

  /** Each switch brings a waiting process strictly nearer. */
  lemma NearerEachYield(procs: seq<Proc>, c: nat, n: nat, j: nat)
    requires TableOk(procs) && 1 <= c < PROC_NO_MAX && n < PROC_NO_MAX
    requires Chosen(procs, c, n)
    requires 1 <= j < PROC_NO_MAX && j != c && Eligible(procs[j])
    ensures n >= 1 && Waiting(n, j) < Waiting(c, j) <= PROC_NO_MAX - 2
  {
    assert n != 0;
  }

  /**
   A run of the scheduler: `tables[k]` is the process table when the k-th yield scans
   it.  Between yields processes may exit or be created in any way.
   */
  ghost predicate SchedRun(tables: seq<seq<Proc>>, current: seq<nat>)
  {
    && |current| == |tables| + 1
    && 1 <= current[0] < PROC_NO_MAX
    && (forall k :: 0 <= k < |current| ==> current[k] < PROC_NO_MAX)
    && (forall k :: 0 <= k < |tables| ==> TableOk(tables[k]) && Chosen(tables[k], current[k], current[k + 1]))
  }

  lemma {:induction false} WaitingShrinks(tables: seq<seq<Proc>>, current: seq<nat>, j: nat, k: nat)
    requires SchedRun(tables, current) && k <= |tables|
    requires 1 <= j < PROC_NO_MAX && forall i :: 0 <= i < k ==> Eligible(tables[i][j])
    requires forall i :: 0 <= i < k ==> current[i] != j
    ensures 1 <= current[k] && Waiting(current[k], j) + k <= PROC_NO_MAX - 2
  {
    if k > 0 {
      WaitingShrinks(tables, current, j, k - 1);
      NearerEachYield(tables[k - 1], current[k - 1], current[k], j);
    }
  }

  /**
   Bounded waiting: a process that stays runnable becomes current within
   PROC_NO_MAX - 2 yields, whatever the others do.
   */
  lemma BoundedWaiting(tables: seq<seq<Proc>>, current: seq<nat>, j: nat)
    requires SchedRun(tables, current) && |tables| >= PROC_NO_MAX - 2
    requires 1 <= j < PROC_NO_MAX
    requires forall i :: 0 <= i < PROC_NO_MAX - 2 ==> Eligible(tables[i][j])
    ensures exists k :: 0 <= k <= PROC_NO_MAX - 2 && current[k] == j
  {
    var m := PROC_NO_MAX - 2;
    if forall k :: 0 <= k <= m ==> current[k] != j {
      WaitingShrinks(tables, current, j, m);
      assert Waiting(current[m], j) == 0;
    }
  }

  /** The bound is the best possible: with all seven slots runnable the farthest one waits that long. */
  lemma BoundIsTight() returns (tables: seq<seq<Proc>>, current: seq<nat>)
    ensures SchedRun(tables, current) && |tables| == PROC_NO_MAX - 2
    ensures forall k :: 0 <= k < |tables| ==> Eligible(tables[k][7])
    ensures forall k :: 0 <= k < PROC_NO_MAX - 2 ==> current[k] != 7
  {
    var procs := seq(PROC_NO_MAX, i => Proc(if i == 0 then -1 else i + 1, Runnable, 0, 0));
    tables := seq(PROC_NO_MAX - 2, _ => procs);
    current := seq(PROC_NO_MAX - 1, k => k + 1);
  }

  /** A process that is not runnable is never switched to. */
  lemma OnlyRunnableChosen(procs: seq<Proc>, c: nat, n: nat)
    requires TableOk(procs) && c < PROC_NO_MAX && n < PROC_NO_MAX && Chosen(procs, c, n)
    ensures n == 0 || (procs[n].state == Runnable && procs[n].pid == n + 1)
  {
  }
}
