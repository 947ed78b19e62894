/**
 Callers of the buddy allocator: sequences of calls on one `Memory`, tied to the runs of
 `BuddyRuns` and to what becomes of the metadata array.
 */
module BuddyClients {
  import opened Results
  import opened Orders
  import opened Bits
  import opened Blocks
  import opened BuddySpec
  import opened BuddyRuns
  import opened Buddy

  /** A request followed by the release of what it was granted puts every metadata entry back. */
  method RequestAndRelease(mem: Memory, n: nat) returns (r: Result<PhysAddr>, o: Outcome)
    requires mem.Valid() && n <= USIZE_MAX
    modifies mem, mem.meta, mem.stack
    ensures AllocStep(mem.cfg, old(mem.live), n, r,
                      if r.Ok? then old(mem.live) + {Block(r.value.addr, Rounded(n))} else old(mem.live))
    ensures o == Panic <==> r.Ok? && Rounded(n) == mem.memSize
    ensures o == Done ==> mem.Valid() && mem.live == old(mem.live) && mem.meta[..] == old(mem.meta[..])
  {
    hide WellPlaced, Named, Rounded, Pow2, Canonical, LiveOk, ValidConfig, AllocStep, HandleStep, NamesNothing;
    r := mem.BuddyAlloc(n);
    if r.Err? {
      RefusedKeepsLive(mem.cfg, old(mem.live), n, r, mem.live);
      return r, Done;
    }
    ghost var b := Block(r.value.addr, Rounded(n));
    GrantedIsPlaced(mem.cfg, old(mem.live), n, r.value, mem.live);
    NamesItselfIff(mem.cfg, b);
    o := mem.BuddyFree(r.value);
    assert old(mem.live) + {b} - {b} == old(mem.live);
  }

  lemma RefusedKeepsLive(c: Config, live: set<Block>, n: nat, r: Result<PhysAddr>, after: set<Block>)
    requires AllocStep(c, live, n, r, after) && r.Err?
    ensures after == live
  {
  }

  /** A granted block is placed in RAM, and no larger than RAM. */
  lemma GrantedIsPlaced(c: Config, live: set<Block>, n: nat, p: PhysAddr, after: set<Block>)
    requires ValidConfig(c) && AllocStep(c, live, n, Ok(p), after)
    ensures p.size == Some(Rounded(n)) && WellPlaced(c, Block(p.addr, Rounded(n)))
    ensures p.addr < c.start + Pow2(c.high) && Rounded(n) <= Pow2(c.high) <= USIZE_MAX
    ensures Block(p.addr, Rounded(n)) !in live && after == live + {Block(p.addr, Rounded(n))}
  {
    hide Rounded, Pow2;
    var b := Block(p.addr, Rounded(n));
    RootIsWhole(c, b);
    PowerBelow31(c);
    assert b in live ==> Disjoint(b, b);
  }

  /**
   Releasing live blocks one after the other: whatever the order, the array ends up as
   the one for the remaining blocks.
   */
  method ReleaseAll(mem: Memory, order: seq<Block>) returns (o: Outcome)
    requires mem.Valid()
    requires forall i :: 0 <= i < |order| ==> order[i] in mem.live && order[i].size < mem.memSize
    requires forall i, j :: 0 <= i < j < |order| ==> order[i] != order[j]
    modifies mem, mem.meta
    ensures o == Done && mem.Valid()
    ensures mem.live == old(mem.live) - set b | b in order
    ensures LiveOk(mem.cfg, mem.live) && mem.meta[..] == Canonical(mem.cfg, old(mem.live) - set b | b in order)
  {
    o := Done;
    for k := 0 to |order|
      invariant mem.Valid() && mem.live == old(mem.live) - set b | b in order[..k]
      invariant o == Done
    {
      var b := order[k];
      assert b !in order[..k];
      LiveNamesItself(mem.cfg, mem.live, b);
      assert order[..k + 1] == order[..k] + [b];
      o := mem.BuddyFree(PhysAddr(b.addr, Some(b.size)));
    }
    assert order[..|order|] == order;
  }

  lemma LiveNamesItself(c: Config, live: set<Block>, b: Block)
    requires ValidConfig(c) && LiveOk(c, live) && b in live
    ensures b.addr < c.start + Pow2(c.high) && b.size <= USIZE_MAX && Named(c, b.addr, b.size) == Some(b)
  {
    hide Pow2, Named;
    RootIsWhole(c, b);
    PowerBelow31(c);
    NamesItselfIff(c, b);
  }

  // ------------------------------------------------------------------ any calls

  datatype Op = Ask(n: nat) | GiveBack(addr: nat, size: nat)

  /** The arguments are machine words, and addresses do not lie above RAM. */
  ghost predicate OpOk(c: Config, op: Op)
  {
    match op
    case Ask(n) => n <= USIZE_MAX
    case GiveBack(addr, size) => addr < c.start + Pow2(c.high) && size <= USIZE_MAX
  }

  /** The event is the one this call gives rise to. */
  ghost predicate Answers(c: Config, op: Op, e: Event)
  {
    match op
    case Ask(n) => e.Request? && e.n == n
    case GiveBack(addr, size) => e.Release? && Named(c, addr, size) == Some(e.block)
  }

  /** The call panics: it gives back something that is not live, or the whole memory. */
  ghost predicate Refused(c: Config, live: set<Block>, op: Op)
  {
    && op.GiveBack?
    && match Named(c, op.addr, op.size)
       case None => true
       case Some(b) => b !in live || b.size >= Pow2(c.high)
  }

  lemma RunExtends(c: Config, events: seq<Event>, states: seq<set<Block>>, e: Event, after: set<Block>)
    requires IsRun(c, events, states) && Step(c, states[|events|], e, after)
    ensures IsRun(c, events + [e], states + [after])
  {
    hide Step;
  }

  /**
   Any sequence of calls on a fresh allocator is a run of the specification, up to the
   first call that must panic, and after each of them the array is that of the live set.
   */
  method Drive(mem: Memory, ops: seq<Op>) returns (o: Outcome, events: seq<Event>, ghost states: seq<set<Block>>)
    requires mem.Valid() && mem.live == {}
    requires forall i :: 0 <= i < |ops| ==> OpOk(mem.cfg, ops[i])
    modifies mem, mem.meta, mem.stack
    ensures IsRun(mem.cfg, events, states) && |events| <= |ops|
    ensures forall i :: 0 <= i < |events| ==> Answers(mem.cfg, ops[i], events[i])
    ensures o == Done ==>
              && |events| == |ops| && mem.Valid() && mem.live == states[|events|]
              && mem.meta[..] == Canonical(mem.cfg, states[|events|])
    ensures o == Panic ==> |events| < |ops| && Refused(mem.cfg, states[|events|], ops[|events|])
  {
    hide LiveOk, Canonical, AllocStep, Named, Pow2;
    events, states := [], [{}];
    for k := 0 to |ops|
      invariant mem.Valid() && |events| == k && IsRun(mem.cfg, events, states) && mem.live == states[k]
      invariant forall i :: 0 <= i < k ==> Answers(mem.cfg, ops[i], events[i])
    {
      assert OpOk(mem.cfg, ops[k]);
      ghost var before := mem.live;
      var e;
      match ops[k] {
        case Ask(n) =>
          var r := mem.BuddyAlloc(n);
          e := Request(n, r);
        case GiveBack(addr, size) =>
          o := mem.BuddyFree(PhysAddr(addr, Some(size)));
          if o == Panic { return; }
          e := Release(Named(mem.cfg, addr, size).value);
      }
      assert Step(mem.cfg, before, e, mem.live);
      RunExtends(mem.cfg, events, states, e, mem.live);
      events, states := events + [e], states + [mem.live];
    }
    o := Done;
  }
}
