/**
 The allocator behind its global lock (rust/src/mem.rs): what the protocol of `Sync`
 means for concurrent callers of `buddy_alloc` and `buddy_free`.
 */
module ConcurrentAlloc {
  import opened Results
  import opened Bits
  import opened Orders
  import opened BuddyTree
  import opened Blocks
  import opened BuddySpec
  import BuddyRuns
  import opened Buddy
  import opened Sync
  import opened SyncCalls

  /** The protected allocator, with a record of which thread holds which block. */
  datatype Shared = Shared(meta: seq<BlockState>, live: set<Block>, held: map<nat, set<Block>>)

  function HeldBy(d: Shared, t: nat): set<Block>
  {
    if t in d.held then d.held[t] else {}
  }

  ghost predicate SharedOk(c: Config, d: Shared)
  {
    && ValidConfig(c) && LiveOk(c, d.live) && d.meta == Canonical(c, d.live)
    && (forall t :: t in d.held ==> d.held[t] <= d.live)
    && (forall t, u :: t in d.held && u in d.held && t != u ==> d.held[t] !! d.held[u])
  }

  /** Thread t allocates n bytes. */
  ghost predicate AllocCall(c: Config, t: nat, n: nat, r: Result<PhysAddr>, d: Shared, d': Shared)
  {
    && AllocStep(c, d.live, n, r, d'.live)
    && d'.held == if r.Ok? then d.held[t := HeldBy(d, t) + {Block(r.value.addr, Rounded(n))}] else d.held
  }

  /** Thread t frees a block it holds. */
  ghost predicate FreeCall(c: Config, t: nat, b: Block, d: Shared, d': Shared)
  {
    && b in HeldBy(d, t)
    && FreeStep(c, d.live, b, Done, d'.live)
    && d'.held == d.held[t := HeldBy(d, t) - {b}]
  }

  /**
   One whole allocator call of thread t, as `Memory.BuddyAlloc` and `Memory.BuddyFree`
   are proved to behave; freeing a handle without a size changes nothing.
   */
  ghost predicate CallBy(c: Config, t: nat, d: Shared, d': Shared)
    requires ValidConfig(c)
  {
    && (d' == d || (exists n, r :: AllocCall(c, t, n, r, d, d')) || (exists b :: FreeCall(c, t, b, d, d')))
    && LiveOk(c, d'.live) && d'.meta == Canonical(c, d'.live)
  }

  lemma CallKeepsShared(c: Config, t: nat, d: Shared, d': Shared)
    requires SharedOk(c, d) && CallBy(c, t, d, d')
    ensures SharedOk(c, d')
  {
    hide Canonical, ValidConfig, Rounded;
    if n, r :| AllocCall(c, t, n, r, d, d') {
      if r.Ok? {
        var b := Block(r.value.addr, Rounded(n));
        NewBlockIsNew(c, d.live, b, n, r, d'.live);
      }
    } else if d' != d {
      var b :| FreeCall(c, t, b, d, d');
    }
  }

  lemma NewBlockIsNew(c: Config, live: set<Block>, b: Block, n: nat, r: Result<PhysAddr>, after: set<Block>)
    requires r.Ok? && b == Block(r.value.addr, Rounded(n))
    requires AllocStep(c, live, n, r, after)
    ensures b !in live && after == live + {b}
  {
    assert b.size > 0;
  }

  /** `d` is the allocator `mem`, with a record of who holds what. */
  ghost predicate Guards(d: Shared, mem: Memory)
    reads mem, mem.meta, mem.stack
  {
    mem.Valid() && SharedOk(mem.cfg, d) && d.live == mem.live && d.meta == mem.meta[..]
  }

  /** `mem.lock().buddy_alloc(n)` on the class: one call of thread t, metadata included. */
  method LockedRequest(mem: Memory, ghost d: Shared, t: nat, n: nat) returns (r: Result<PhysAddr>, ghost d': Shared)
    requires Guards(d, mem) && n <= USIZE_MAX
    modifies mem, mem.meta, mem.stack
    ensures AllocCall(mem.cfg, t, n, r, d, d') && CallBy(mem.cfg, t, d, d') && Guards(d', mem)
  {
    hide LiveOk, Canonical, AllocStep, ValidConfig;
    r := mem.BuddyAlloc(n);
    d' := Shared(mem.meta[..], mem.live,
                 if r.Ok? then d.held[t := HeldBy(d, t) + {Block(r.value.addr, Rounded(n))}] else d.held);
    assert AllocCall(mem.cfg, t, n, r, d, d');
    CallKeepsShared(mem.cfg, t, d, d');
  }

  /** `mem.lock().buddy_free(addr)` on the class, for a block the thread holds: only the whole memory makes it panic. */
  method LockedRelease(mem: Memory, ghost d: Shared, t: nat, b: Block) returns (o: Outcome, ghost d': Shared)
    requires Guards(d, mem) && b in HeldBy(d, t)
    modifies mem, mem.meta
    ensures o == Done <==> b.size < mem.memSize
    ensures o == Done ==> FreeCall(mem.cfg, t, b, d, d') && CallBy(mem.cfg, t, d, d') && Guards(d', mem)
  {
    HeldNamesItself(mem.cfg, d, t, b);
    hide LiveOk, Canonical, ValidConfig, Named, HandleStep, NamesNothing;
    o := mem.BuddyFree(PhysAddr(b.addr, Some(b.size)));
    d' := Shared(mem.meta[..], mem.live, d.held[t := HeldBy(d, t) - {b}]);
    if o == Done {
      assert FreeCall(mem.cfg, t, b, d, d');
      CallKeepsShared(mem.cfg, t, d, d');
    }
  }

  lemma HeldNamesItself(c: Config, d: Shared, t: nat, b: Block)
    requires SharedOk(c, d) && b in HeldBy(d, t)
    ensures b in d.live && Named(c, b.addr, b.size) == Some(b)
    ensures b.addr < c.start + Pow2(c.high) && b.size <= USIZE_MAX
  {
    hide Pow2, Named, Canonical;
    RootIsWhole(c, b);
    PowerBelow31(c);
    NamesItselfIff(c, b);
  }

  /** The critical section of a job, when it ends, was an allocator call of its thread. */
  ghost predicate IsCall(c: Config, t: nat, body: seq<Shared -> Option<Shared>>)
    requires ValidConfig(c)
  {
    forall d :: SharedOk(c, d) && Apply(body, Some(d)).Some? ==> CallBy(c, t, d, Apply(body, Some(d)).value)
  }

  ghost predicate JobOk(c: Config, t: nat, job: Job<Shared>)
    requires ValidConfig(c)
  {
    && (job.closure.Some? ==> SharedOk(c, job.closure.value))
    && (job.body.Some? ==> IsCall(c, t, job.body.value))
  }

  ghost predicate PcOk(c: Config, t: nat, pc: Pc<Shared>)
    requires ValidConfig(c)
  {
    pc == Idle || pc == Panicked || JobOk(c, t, pc.job)
  }

  ghost predicate SomeCall(c: Config, body: seq<Shared -> Option<Shared>>)
    requires ValidConfig(c)
  {
    exists t :: IsCall(c, t, body)
  }

  /** Only allocator calls are ever logged. */
  ghost predicate Disciplined(c: Config, s: State<Shared>)
    requires ValidConfig(c)
  {
    && (forall t :: PcOk(c, t, PcOf(s, t)))
    && (s.initial.Some? ==> SharedOk(c, s.initial.value))
    && (forall i :: 0 <= i < |s.log| ==> SomeCall(c, s.log[i]))
  }

  lemma StepKeepsDiscipline(c: Config, s: State<Shared>, t: nat, e: Event<Shared>, s': State<Shared>)
    requires ValidConfig(c) && Disciplined(c, s) && Step(s, t, e, s')
    requires e.Call? ==> JobOk(c, t, e.job)
    ensures Disciplined(c, s')
  {
    StepMovesOne(s, t, e, s');
    assert PcOk(c, t, PcOf(s, t));
    hide SharedOk, IsCall, ValidConfig;
  }

  /** Nothing runs after a panic. */
  lemma {:induction false} ApplyNone(body: seq<Shared -> Option<Shared>>)
    ensures Apply(body, None) == None
    decreases |body|
  {
    if body != [] { ApplyNone(body[..|body| - 1]); }
  }

  /** Calls applied one after the other keep the allocator sound. */
  lemma {:induction false} CallsKeepShared(c: Config, log: seq<seq<Shared -> Option<Shared>>>, d: Shared)
    requires ValidConfig(c) && SharedOk(c, d) && ApplyAll(log, Some(d)).Some?
    requires forall i :: 0 <= i < |log| ==> SomeCall(c, log[i])
    ensures SharedOk(c, ApplyAll(log, Some(d)).value)
    decreases |log|
  {
    hide SharedOk, CallBy, ValidConfig, Apply;
    if log != [] {
      var body, rest := log[|log| - 1], log[..|log| - 1];
      ApplyNone(body);
      CallsKeepShared(c, rest, d);
      var t :| IsCall(c, t, body);
      CallKeepsShared(c, t, ApplyAll(rest, Some(d)).value, Apply(body, ApplyAll(rest, Some(d))).value);
    }
  }

  /** A run in which every job is an allocator call of its thread (or just initialises). */
  ghost predicate AllocRun(c: Config, run: seq<State<Shared>>, actions: seq<Action<Shared>>)
  {
    && ValidConfig(c) && IsRun(run, actions)
    && forall k :: 0 <= k < |actions| && actions[k].event.Call? ==> JobOk(c, actions[k].thread, actions[k].event.job)
  }

  lemma {:induction false} RunKeepsDiscipline(c: Config, run: seq<State<Shared>>, actions: seq<Action<Shared>>, k: nat)
    requires AllocRun(c, run, actions) && k < |run|
    ensures Disciplined(c, run[k])
  {
    hide ValidConfig, JobOk, Step;
    if k == 0 {
      assert forall t :: PcOf(run[0], t) == Idle;
    } else {
      RunKeepsDiscipline(c, run, actions, k - 1);
      StepKeepsDiscipline(c, run[k - 1], actions[k - 1].thread, actions[k - 1].event, run[k]);
    }
  }

  /** The allocator as the finished calls left it. */
  function Committed(s: State<Shared>): Option<Shared>
  {
    ApplyAll(Finished(s), s.initial)
  }

  /**
   For every interleaving of concurrent callers and at every moment, also while some
   caller is inside the allocator or has panicked there: the finished calls left metadata
   that is that of the live set, and blocks held by different threads do not overlap.
   With the lock free that is the protected value itself.
   */
  lemma ConcurrentCallersDisjoint(c: Config, run: seq<State<Shared>>, actions: seq<Action<Shared>>, k: nat)
    requires AllocRun(c, run, actions) && k < |run| && run[k].value.Some?
    ensures Committed(run[k]).Some? && SharedOk(c, Committed(run[k]).value)
    ensures !run[k].locked ==> run[k].value == Committed(run[k])
    ensures forall t, u, a, b ::
              t != u && a in HeldBy(Committed(run[k]).value, t) && b in HeldBy(Committed(run[k]).value, u) ==>
              Disjoint(a, b)
  {
    RunKeepsDiscipline(c, run, actions, k);
    Serialised(run, actions, k);
    hide PcOk, SomeCall, Step, ApplyAll, Apply;
    if run[k].locked {
      var t :| Holds(run[k], t);
      ApplyNone(run[k].log[|run[k].log| - 1][..PcOf(run[k], t).done]);
    }
    CallsKeepShared(c, Finished(run[k]), run[k].initial.value);
    HeldApart(c, Committed(run[k]).value);
  }

  lemma HeldApart(c: Config, d: Shared)
    requires SharedOk(c, d)
    ensures forall t, u, a, b :: t != u && a in HeldBy(d, t) && b in HeldBy(d, u) ==> Disjoint(a, b)
  {
    hide Canonical, ValidConfig;
  }

  // ------------------------------------------------- a job that allocates

  /** Some available block of the size starts lowest. */
  lemma FirstFitExists(c: Config, live: set<Block>, b: Block) returns (first: Block)
    requires Available(c, live, b)
    ensures FirstFit(c, live, b.size, first)
    decreases b.addr
  {
    hide Available;
    if a: Block :| a.size == b.size && Available(c, live, a) && a.addr < b.addr {
      first := FirstFitExists(c, live, a);
    } else {
      first := b;
    }
  }

  /** Every request on a sound live set has an outcome, which is sound again. */
  lemma RequestHasOutcome(c: Config, live: set<Block>, n: nat) returns (r: Result<PhysAddr>, after: set<Block>)
    requires ValidConfig(c) && LiveOk(c, live)
    ensures AllocStep(c, live, n, r, after) && LiveOk(c, after)
  {
    hide ValidConfig, Rounded;
    if n > Pow2(c.high) {
      r, after := Err(OutOfMemory), live;
    } else if n == 0 {
      r, after := Err(ZeroSize), live;
    } else if b: Block :| b.size == Rounded(n) && Available(c, live, b) {
      var first := FirstFitExists(c, live, b);
      r, after := Ok(PhysAddr(first.addr, Some(Rounded(n)))), live + {first};
    } else {
      r, after := Err(OutOfMemory), live;
    }
  }

  /** The allocator after thread t asked for n bytes. */
  ghost predicate Asked(c: Config, t: nat, n: nat, d: Shared, d': Shared)
    requires ValidConfig(c)
  {
    && LiveOk(c, d'.live) && d'.meta == Canonical(c, d'.live)
    && exists r :: AllocCall(c, t, n, r, d, d')
  }

  lemma AskedExists(c: Config, t: nat, n: nat, d: Shared)
    requires ValidConfig(c) && LiveOk(c, d.live)
    ensures exists d' :: Asked(c, t, n, d, d')
  {
    hide ValidConfig, Canonical, LiveOk, AllocStep;
    var r, after := RequestHasOutcome(c, d.live, n);
    var held := if r.Ok? then d.held[t := HeldBy(d, t) + {Block(r.value.addr, Rounded(n))}] else d.held;
    var d' := Shared(Canonical(c, after), after, held);
    assert AllocCall(c, t, n, r, d, d');
    assert Asked(c, t, n, d, d');
  }

  ghost function AfterAsking(c: Config, t: nat, n: nat, d: Shared): (d': Shared)
    requires ValidConfig(c)
    ensures LiveOk(c, d.live) ==> Asked(c, t, n, d, d')
  {
    if LiveOk(c, d.live) then
      AskedExists(c, t, n, d);
      var d' :| Asked(c, t, n, d, d'); d'
    else d
  }

  lemma AskedUnique(c: Config, t: nat, n: nat, d: Shared, d': Shared, e: Shared, e': Shared)
    requires ValidConfig(c) && Asked(c, t, n, d, d') && Asked(c, t, n, e, e')
    requires d.live == e.live && d.held == e.held
    ensures d' == e'
  {
    hide ValidConfig, Canonical, LiveOk, AllocStep;
    var r :| AllocCall(c, t, n, r, d, d');
    var q :| AllocCall(c, t, n, q, e, e');
    BuddyRuns.AllocDeterministic(c, d.live, n, r, d'.live, q, e'.live);
  }

  /** The critical section of a request: first the metadata is written, then the block changes hands. */
  ghost function RequestBody(c: Config, t: nat, n: nat): seq<Shared -> Option<Shared>>
    requires ValidConfig(c)
  {
    [(d: Shared) => Some(d.(meta := AfterAsking(c, t, n, d).meta)),
     (d: Shared) => Some(d.(live := AfterAsking(c, t, n, d).live, held := AfterAsking(c, t, n, d).held))]
  }

  /** Two writes one after the other. */
  lemma TwoWrites(body: seq<Shared -> Option<Shared>>, d: Shared)
    requires |body| == 2
    ensures Apply(body[..1], Some(d)) == body[0](d)
    ensures Apply(body, Some(d)) == match body[0](d) case None => None case Some(m) => body[1](m)
  {
    assert body[..1][..0] == [];
    assert Apply(body[..1], Some(d)) == body[0](d);
  }

  /** Its two writes together are one allocator call, although between them metadata and live set disagree. */
  lemma RequestEffect(c: Config, t: nat, n: nat, d: Shared)
    requires ValidConfig(c) && LiveOk(c, d.live)
    ensures Apply(RequestBody(c, t, n), Some(d)).Some?
    ensures Asked(c, t, n, d, Apply(RequestBody(c, t, n), Some(d)).value)
  {
    hide ValidConfig, AfterAsking, LiveOk, Asked, Apply;
    var d' := AfterAsking(c, t, n, d);
    var mid := d.(meta := d'.meta);
    AskedUnique(c, t, n, d, d', mid, AfterAsking(c, t, n, mid));
    TwoWrites(RequestBody(c, t, n), d);
  }

  /** So a request may be the critical section of a job. */
  lemma RequestIsCall(c: Config, t: nat, n: nat)
    requires ValidConfig(c)
    ensures IsCall(c, t, RequestBody(c, t, n))
  {
    hide ValidConfig, RequestBody, LiveOk, AllocCall, Canonical, Apply;
    forall d | SharedOk(c, d) && Apply(RequestBody(c, t, n), Some(d)).Some?
      ensures CallBy(c, t, d, Apply(RequestBody(c, t, n), Some(d)).value)
    {
      RequestEffect(c, t, n, d);
    }
  }

  // ------------------------------------------------- a job that releases

  /** The node of the block is marked free. */
  function Marked(c: Config, b: Block, d: Shared): Shared
  {
    match NamedNode(c, b.addr, b.size)
    case None => d
    case Some(i) => if i < |d.meta| then d.(meta := d.meta[i := Free]) else d
  }

  /** The allocator once the merging is done and the block has changed hands. */
  ghost function AfterRelease(c: Config, t: nat, b: Block, d: Shared): Shared
    requires ValidConfig(c)
  {
    if LiveOk(c, d.live - {b})
    then Shared(Canonical(c, d.live - {b}), d.live - {b}, d.held[t := HeldBy(d, t) - {b}])
    else d
  }

  /**
   The critical section of releasing a block the thread holds: its node is marked, then
   the rest is done, unless the block is the whole memory, where the merging panics.
   */
  ghost function ReleaseBody(c: Config, t: nat, b: Block): seq<Shared -> Option<Shared>>
    requires ValidConfig(c)
  {
    [(d: Shared) => Some(if b in HeldBy(d, t) then Marked(c, b, d) else d),
     (d: Shared) =>
       if b !in HeldBy(d, t) then Some(d)
       else if b.size >= Pow2(c.high) then None
       else Some(AfterRelease(c, t, b, d))]
  }

  lemma MarkedKeeps(c: Config, b: Block, d: Shared)
    ensures Marked(c, b, d).live == d.live && Marked(c, b, d).held == d.held
  {
  }

  /** It ends exactly when the block is not the whole memory, and then the block is released. */
  lemma ReleaseEffect(c: Config, t: nat, b: Block, d: Shared)
    requires SharedOk(c, d) && b in HeldBy(d, t)
    ensures Apply(ReleaseBody(c, t, b), Some(d)).Some? <==> b.size < Pow2(c.high)
    ensures b.size < Pow2(c.high) ==>
              var d' := Apply(ReleaseBody(c, t, b), Some(d)).value;
              && FreeCall(c, t, b, d, d') && d'.live == d.live - {b}
              && LiveOk(c, d'.live) && d'.meta == Canonical(c, d'.live)
  {
    hide ValidConfig, Apply, Canonical, WellPlaced, Pow2, Marked;
    TwoWrites(ReleaseBody(c, t, b), d);
    MarkedKeeps(c, b, d);
  }

  /** So a release may be the critical section of a job. */
  lemma ReleaseIsCall(c: Config, t: nat, b: Block)
    requires ValidConfig(c)
    ensures IsCall(c, t, ReleaseBody(c, t, b))
  {
    hide ValidConfig, LiveOk, FreeCall, Canonical, Apply, Pow2, Marked, AfterRelease;
    forall d | SharedOk(c, d) && Apply(ReleaseBody(c, t, b), Some(d)).Some?
      ensures CallBy(c, t, d, Apply(ReleaseBody(c, t, b), Some(d)).value)
    {
      if b in HeldBy(d, t) { ReleaseEffect(c, t, b, d); } else { TwoWrites(ReleaseBody(c, t, b), d); }
    }
  }

  /**
   In every interleaving: once a thread is inside the release of the whole memory, the
   step that panics leaves the lock taken for good, and no call of any thread ever gets
   into the allocator again.
   */
  lemma WholeReleaseWedges(c: Config, run: seq<State<Shared>>, actions: seq<Action<Shared>>, i: nat, k: nat,
                           t: nat, job: Job<Shared>, b: Block)
    requires AllocRun(c, run, actions) && i < |actions| && i < k < |run| && actions[i].thread == t
    requires job.body == Some(ReleaseBody(c, t, b)) && PcOf(run[i], t) == Critical(job, 1)
    requires Committed(run[i]).Some? && b in HeldBy(Committed(run[i]).value, t) && b.size >= Pow2(c.high)
    ensures run[k].locked && forall u :: Holds(run[k], u) ==> u == t && PcOf(run[k], u).Failed?
    ensures run[k].value == run[i].value
  {
    hide Disciplined, ApplyAll, Apply, Pow2, Marked, Inv, ValidConfig;
    WriteOnce(run, actions, i, t, job, ReleaseBody(c, t, b));
    var d := Committed(run[i]).value;
    TwoWrites(ReleaseBody(c, t, b), d);
    MarkedKeeps(c, b, d);
    assert PcOf(run[i + 1], t).Failed? && run[i + 1].value == run[i].value;
    PanicWedgesLock(run, actions, i + 1, k, t);
  }

  /** After the first of two writes the value is that write applied to what was committed. */
  lemma WriteOnce(run: seq<State<Shared>>, actions: seq<Action<Shared>>, i: nat, t: nat, job: Job<Shared>,
                  body: seq<Shared -> Option<Shared>>)
    requires IsRun(run, actions) && i < |actions| && |body| == 2 && job.body == Some(body)
    requires PcOf(run[i], t) == Critical(job, 1)
    ensures run[i].value == Apply(body[..1], Committed(run[i]))
  {
    RunKeepsInv(run, actions, i);
    assert Holds(run[i], t);
    hide Apply, ApplyAll;
  }

  /** At the moment a call takes the lock the allocator is sound. */
  lemma SoundWhenFree(c: Config, run: seq<State<Shared>>, actions: seq<Action<Shared>>, x: nat)
    requires AllocRun(c, run, actions) && x < |run| && !run[x].locked && run[x].value.Some?
    ensures SharedOk(c, run[x].value.value)
  {
    hide IsRun, SharedOk, JobOk;
    ConcurrentCallersDisjoint(c, run, actions, x);
  }

  /**
   In every interleaving: a request that returns was served, on the allocator as it was
   when the request took the lock, and its outcome is what the lock is released with.
   */
  lemma RequestServed(c: Config, run: seq<State<Shared>>, actions: seq<Action<Shared>>, t: nat, job: Job<Shared>,
                      i: nat, r: nat, n: nat) returns (x: nat)
    requires AllocRun(c, run, actions) && InCall(run, actions, t, job, i, r) && PcOf(run[r], t) == Idle
    requires job.body == Some(RequestBody(c, t, n))
    ensures i < x < r && !run[x].locked && run[x].value.Some? && run[r].value.Some?
    ensures SharedOk(c, run[x].value.value) && Asked(c, t, n, run[x].value.value, run[r].value.value)
    ensures exists res :: Served(c, t, n, res, run[x].value.value, run[r].value.value)
  {
    hide SharedOk, Asked, RequestBody, IsRun, Inv, Apply, JobOk, Served;
    x := ReturnAppliesBody(run, actions, t, job, i, r);
    SoundWhenFree(c, run, actions, x);
    SoundIsLive(c, run[x].value.value);
    RequestEffect(c, t, n, run[x].value.value);
    AskedIsServed(c, t, n, run[x].value.value, run[r].value.value);
  }

  /** Thread t's request had this result: a block granted is live and held by t, and nobody else's holdings changed. */
  ghost predicate Served(c: Config, t: nat, n: nat, res: Result<PhysAddr>, d: Shared, d': Shared)
  {
    && AllocStep(c, d.live, n, res, d'.live)
    && HeldBy(d', t) == HeldBy(d, t) + (if res.Ok? then {Block(res.value.addr, Rounded(n))} else {})
    && forall u :: u != t ==> HeldBy(d', u) == HeldBy(d, u)
  }

  lemma AskedIsServed(c: Config, t: nat, n: nat, d: Shared, d': Shared)
    requires ValidConfig(c) && Asked(c, t, n, d, d')
    ensures exists res :: Served(c, t, n, res, d, d')
  {
    hide AllocStep, ValidConfig, Canonical, LiveOk, Rounded;
    var res :| AllocCall(c, t, n, res, d, d');
    assert Served(c, t, n, res, d, d');
  }

  lemma SoundIsLive(c: Config, d: Shared)
    requires SharedOk(c, d)
    ensures ValidConfig(c) && LiveOk(c, d.live)
  {
  }

  /** In every interleaving: a release that returns has released the block, if the thread held it. */
  lemma ReleaseServed(c: Config, run: seq<State<Shared>>, actions: seq<Action<Shared>>, t: nat, job: Job<Shared>,
                      i: nat, r: nat, b: Block) returns (x: nat)
    requires AllocRun(c, run, actions) && InCall(run, actions, t, job, i, r) && PcOf(run[r], t) == Idle
    requires job.body == Some(ReleaseBody(c, t, b))
    ensures i < x < r && !run[x].locked && run[x].value.Some? && run[r].value.Some?
    ensures b in HeldBy(run[x].value.value, t) ==>
              && b.size < Pow2(c.high) && FreeCall(c, t, b, run[x].value.value, run[r].value.value)
              && run[r].value.value.live == run[x].value.value.live - {b}
              && HeldBy(run[r].value.value, t) == HeldBy(run[x].value.value, t) - {b}
  {
    hide SharedOk, FreeCall, ReleaseBody, IsRun, Inv, Apply, JobOk, Pow2;
    x := ReturnAppliesBody(run, actions, t, job, i, r);
    SoundWhenFree(c, run, actions, x);
    if b in HeldBy(run[x].value.value, t) {
      ReleaseEffect(c, t, b, run[x].value.value);
      FreedIsGone(c, t, b, run[x].value.value, run[r].value.value);
    }
  }

  lemma FreedIsGone(c: Config, t: nat, b: Block, d: Shared, d': Shared)
    requires FreeCall(c, t, b, d, d')
    ensures HeldBy(d', t) == HeldBy(d, t) - {b}
  {
  }
}
