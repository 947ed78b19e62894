/**
 Whole runs of the buddy allocator: any sequence of requests and releases, seen
 through the set of live blocks.  `Memory.BuddyAlloc` and `Memory.BuddyFree` are
 proved to take exactly these steps, with the metadata array always equal to
 `Canonical` of the live set.
 */
module BuddyRuns {
  import opened Bits
  import opened Orders
  import opened Results
  import opened BuddyTree
  import opened Blocks
  import opened BuddySearch
  import opened BuddySpec

  datatype Event = Request(n: nat, result: Result<PhysAddr>) | Release(block: Block)

  ghost predicate Step(c: Config, live: set<Block>, e: Event, after: set<Block>)
  {
    match e
    case Request(n, r) => AllocStep(c, live, n, r, after)
    case Release(b) => FreeStep(c, live, b, Done, after)
  }

  /** `states` are the live sets a fresh allocator goes through while `events` happen. */
  ghost predicate IsRun(c: Config, events: seq<Event>, states: seq<set<Block>>)
  {
    && |states| == |events| + 1
    && states[0] == {}
    && forall k :: 0 <= k < |events| ==> Step(c, states[k], events[k], states[k + 1])
  }

  predicate Grants(e: Event, b: Block)
  {
    && e.Request? && e.result.Ok?
    && e.result.value == PhysAddr(b.addr, Some(b.size))
  }

  lemma StepKeepsLiveOk(c: Config, live: set<Block>, e: Event, after: set<Block>)
    requires LiveOk(c, live) && Step(c, live, e, after)
    ensures LiveOk(c, after)
  {
  }

  /** In every run the live blocks stay pairwise disjoint, inside RAM and aligned. */
  lemma {:induction false} RunKeepsLiveOk(c: Config, events: seq<Event>, states: seq<set<Block>>, k: nat)
    requires IsRun(c, events, states) && k < |states|
    ensures LiveOk(c, states[k])
  {
    if k > 0 {
      RunKeepsLiveOk(c, events, states, k - 1);
      StepKeepsLiveOk(c, states[k - 1], events[k - 1], states[k]);
    }
  }

  /** Among the first k events some request was granted b, and no release of b came afterwards. */
  ghost predicate HeldAfter(events: seq<Event>, k: nat, b: Block)
    requires k <= |events|
  {
    exists j :: 0 <= j < k && Grants(events[j], b) && forall i :: j < i < k ==> events[i] != Release(b)
  }

  lemma HeldStep(events: seq<Event>, k: nat, b: Block)
    requires 0 < k <= |events|
    ensures HeldAfter(events, k, b) <==>
            Grants(events[k - 1], b) || (HeldAfter(events, k - 1, b) && events[k - 1] != Release(b))
  {
    hide Grants;
    if HeldAfter(events, k, b) && !Grants(events[k - 1], b) {
      var j :| 0 <= j < k && Grants(events[j], b) && forall i :: j < i < k ==> events[i] != Release(b);
      assert j < k - 1;
    }
    if HeldAfter(events, k - 1, b) && events[k - 1] != Release(b) {
      var j :| 0 <= j < k - 1 && Grants(events[j], b) && forall i :: j < i < k - 1 ==> events[i] != Release(b);
      assert forall i :: j < i < k ==> events[i] != Release(b);
    }
  }

  lemma LiveStep(c: Config, live: set<Block>, e: Event, after: set<Block>, b: Block)
    requires Step(c, live, e, after)
    ensures b in after <==> Grants(e, b) || (b in live && e != Release(b))
    ensures Grants(e, b) ==> 0 < e.n <= b.size
  {
    hide Rounded, FirstFit, Available, Pow2;
    if e.Request? { RoundedIsLeast(e.n); }
  }

  /**
   A block is live exactly when some request was granted it and no release of it came
   afterwards, and it is at least as large as that request asked for.
   */
  lemma {:induction false} LiveIffHeld(c: Config, events: seq<Event>, states: seq<set<Block>>, k: nat, b: Block)
    requires IsRun(c, events, states) && k < |states|
    ensures b in states[k] <==> HeldAfter(events, k, b)
    ensures forall j :: 0 <= j < k && Grants(events[j], b) ==> 0 < events[j].n <= b.size
    decreases k
  {
    hide Step, Grants;
    if k > 0 {
      LiveIffHeld(c, events, states, k - 1, b);
      LiveStep(c, states[k - 1], events[k - 1], states[k], b);
      HeldStep(events, k, b);
    }
  }

  /** The outcome of a request is determined by the live set. */
  lemma AllocDeterministic(c: Config, live: set<Block>, n: nat,
                           r1: Result<PhysAddr>, after1: set<Block>, r2: Result<PhysAddr>, after2: set<Block>)
    requires AllocStep(c, live, n, r1, after1) && AllocStep(c, live, n, r2, after2)
    ensures r1 == r2 && after1 == after2
  {
  }

  /**
   Canonical metadata: the array and the live set determine each other, so two
   histories that leave the same blocks live leave identical arrays.
   */
  lemma CanonicalDeterminesLive(c: Config, live1: set<Block>, live2: set<Block>)
    requires ValidConfig(c) && LiveOk(c, live1) && LiveOk(c, live2)
    ensures Canonical(c, live1) == Canonical(c, live2) <==> live1 == live2
  {
    if Canonical(c, live1) == Canonical(c, live2) {
      SameArraySameLive(c, live1, live2);
      SameArraySameLive(c, live2, live1);
    }
  }

  lemma SameArraySameLive(c: Config, live1: set<Block>, live2: set<Block>)
    requires ValidConfig(c) && LiveOk(c, live1) && LiveOk(c, live2)
    requires Canonical(c, live1) == Canonical(c, live2)
    ensures live1 <= live2
  {
    hide Canonical, LiveOk, WellPlaced;
    forall b | b in live1
      ensures b in live2
    {
      var i := AllocatedNode(c, live1, b);
      AllocatedIsLive(c, live2, b, i);
    }
  }

  /** A live block shows in the array as its node. */
  lemma AllocatedNode(c: Config, live: set<Block>, b: Block) returns (i: nat)
    requires ValidConfig(c) && LiveOk(c, live) && b in live
    ensures InTree(c, i) && BlockOf(c, i) == b
    ensures i < |Canonical(c, live)| && Canonical(c, live)[i] == Allocated
  {
    hide Pow2, Ilog2, TrailingZeros, NodeOf, NodesOf, Occupied, NodeCount, WellPlaced, BlockOf, InTree;
    CanonicalDescribes(c, live);
    hide Canonical;
    BlockRoundTrip(c, b);
    i := NodeOf(c, b);
    IndexInTree(c, i);
    NodeLiveIff(c, live, i);
  }

  lemma AllocatedIsLive(c: Config, live: set<Block>, b: Block, i: nat)
    requires ValidConfig(c) && LiveOk(c, live) && InTree(c, i) && BlockOf(c, i) == b
    requires i < |Canonical(c, live)| && Canonical(c, live)[i] == Allocated
    ensures b in live
  {
    hide Pow2, Ilog2, NodesOf, Occupied, NodeCount, WellPlaced, BlockOf, InTree;
    CanonicalDescribes(c, live);
    NodeLiveIff(c, live, i);
  }

  /** Releasing a block just granted restores the live set, except that the whole memory cannot be released. */
  lemma ReleaseUndoesRequest(c: Config, live: set<Block>, n: nat, p: PhysAddr, held: set<Block>,
                             o: Outcome, after: set<Block>)
    requires ValidConfig(c) && LiveOk(c, live)
    requires AllocStep(c, live, n, Ok(p), held)
    requires p.size.Some? && FreeStep(c, held, Block(p.addr, p.size.value), o, after)
    ensures o == Done <==> Rounded(n) < Pow2(c.high)
    ensures o == Done ==> after == live
  {
  }

  /**
   A request for the whole memory is granted by a fresh allocator, but releasing that
   block always panics: the buddy computation at level 0 names the root's own child.
   */
  lemma WholeMemoryCannotBeReleased(c: Config, o: Outcome, after: set<Block>)
    requires ValidConfig(c)
    requires FreeStep(c, {Block(c.start, Pow2(c.high))}, Block(c.start, Pow2(c.high)), o, after)
    ensures AllocStep(c, {}, Pow2(c.high), Ok(PhysAddr(c.start, Some(Pow2(c.high)))), {Block(c.start, Pow2(c.high))})
    ensures o == Panic
  {
    var b := Block(c.start, Pow2(c.high));
    PowerBelow31(c);
    RoundedIsLeast(b.size);
    assert Rounded(b.size) == b.size;
    assert 0 % b.size == 0;
    assert WellPlaced(c, b);
    assert {} + {b} == {b};
  }

  /** Blocks released one after the other. */
  ghost predicate Releases(c: Config, live: set<Block>, order: seq<Block>, after: set<Block>)
    decreases |order|
  {
    if order == [] then after == live
    else FreeStep(c, live, order[0], Done, live - {order[0]}) && Releases(c, live - {order[0]}, order[1..], after)
  }

  /**
   Releasing live blocks smaller than the whole memory succeeds in any order and
   always ends in the same state.
   */
  lemma {:induction false} ReleaseOrderIrrelevant(c: Config, live: set<Block>, order: seq<Block>)
    requires forall i :: 0 <= i < |order| ==> order[i] in live && order[i].size < Pow2(c.high)
    requires forall i, j :: 0 <= i < j < |order| ==> order[i] != order[j]
    ensures Releases(c, live, order, live - set b | b in order)
    decreases |order|
  {
    if order == [] {
      assert live - (set b | b in order) == live;
    } else {
      var less := live - {order[0]};
      ReleaseOrderIrrelevant(c, less, order[1..]);
      assert order == [order[0]] + order[1..];
      assert less - (set b | b in order[1..]) == live - set b | b in order;
    }
  }

  /** Once everything is released, in whatever order, every node is free again. */
  lemma ReleaseAllRestoresInitial(c: Config, live: set<Block>, order: seq<Block>, after: set<Block>)
    requires ValidConfig(c) && LiveOk(c, live)
    requires Releases(c, live, order, after) && live == set b | b in order
    ensures after == {}
    ensures LiveOk(c, after) && forall i :: 0 <= i < |Canonical(c, after)| ==> Canonical(c, after)[i] == Free
  {
    ReleasesRemove(c, live, order, after);
    CanonicalDescribes(c, {});
    assert NodesOf(c, {}) == {};
  }

  lemma {:induction false} ReleasesRemove(c: Config, live: set<Block>, order: seq<Block>, after: set<Block>)
    requires Releases(c, live, order, after)
    ensures after == live - set b | b in order
    decreases |order|
  {
    if order != [] {
      ReleasesRemove(c, live - {order[0]}, order[1..], after);
      assert order == [order[0]] + order[1..];
    }
  }

  // --------------------------------------- equal requests on a fresh allocator

  /** The p-th block of size 2^j. */
  function Cell(c: Config, j: nat, p: nat): Block
  {
    Block(c.start + Shl(p, j), Pow2(j))
  }

  /** The first k blocks of size 2^j of the memory. */
  ghost function Row(c: Config, j: nat, k: nat): set<Block>
  {
    set i | 0 <= i < k :: Cell(c, j, i)
  }

  /** `states` are the live sets when every request rounds to 2^j bytes. */
  ghost predicate EqualRequests(c: Config, j: nat, events: seq<Event>, states: seq<set<Block>>)
  {
    && IsRun(c, events, states)
    && forall k :: 0 <= k < |events| ==>
         events[k].Request? && 0 < events[k].n <= Pow2(c.high) && Rounded(events[k].n) == Pow2(j)
  }

  /**
   From a fresh allocator equal requests are served back to back from the start of
   memory, exactly 2^high / size of them, and all later ones fail.
   */
  lemma {:induction false} EqualRequestsFillMemory(c: Config, j: nat, events: seq<Event>,
                                                   states: seq<set<Block>>, k: nat)
    requires ValidConfig(c) && PAGE_ORDER <= j <= c.high
    requires EqualRequests(c, j, events, states) && k < |events|
    ensures events[k].result ==
            if k < Pow2(c.high - j) then Ok(PhysAddr(c.start + Shl(k, j), Some(Pow2(j)))) else Err(OutOfMemory)
    ensures states[k] == Row(c, j, if k < Pow2(c.high - j) then k else Pow2(c.high - j))
    decreases k
  {
    hide Shl, Pow2, Rounded, LiveOk, Available, WellPlaced, ValidConfig;
    var m := if k < Pow2(c.high - j) then k else Pow2(c.high - j);
    if k == 0 {
      assert Row(c, j, 0) == {};
    } else {
      EqualRequestsFillMemory(c, j, events, states, k - 1);
      assert Step(c, states[k - 1], events[k - 1], states[k]);
      if k - 1 < Pow2(c.high - j) { RowGrows(c, j, k - 1); }
    }
    RunKeepsLiveOk(c, events, states, k);
    assert Step(c, states[k], events[k], states[k + 1]);
    RowServes(c, j, m, events[k].n, events[k].result, states[k + 1]);
  }

  lemma RowGrows(c: Config, j: nat, k: nat)
    ensures Row(c, j, k + 1) == Row(c, j, k) + {Cell(c, j, k)}
  {
  }

  /** With the first m blocks taken, the next one is the only first fit. */
  lemma RowServes(c: Config, j: nat, m: nat, n: nat, r: Result<PhysAddr>, after: set<Block>)
    requires ValidConfig(c) && PAGE_ORDER <= j <= c.high && m <= Pow2(c.high - j)
    requires 0 < n <= Pow2(c.high) && Rounded(n) == Pow2(j)
    requires AllocStep(c, Row(c, j, m), n, r, after)
    ensures r == if m < Pow2(c.high - j) then Ok(PhysAddr(c.start + Shl(m, j), Some(Pow2(j)))) else Err(OutOfMemory)
  {
    hide Shl, Pow2, Rounded, Row, Available, WellPlaced;
    if m < Pow2(c.high - j) { CellAvailable(c, j, m, m); }
    if r.Ok? {
      FirstCell(c, j, m, Block(r.value.addr, Pow2(j)));
    } else {
      var b := Cell(c, j, m);
      assert b.size == Rounded(n);
    }
  }

  lemma FirstCell(c: Config, j: nat, m: nat, a: Block)
    requires ValidConfig(c) && PAGE_ORDER <= j <= c.high && m <= Pow2(c.high - j)
    requires FirstFit(c, Row(c, j, m), Pow2(j), a)
    ensures m < Pow2(c.high - j) && a == Cell(c, j, m)
  {
    var p := AvailableIsCell(c, j, m, a);
    CellAvailable(c, j, m, m);
    assert a.addr <= Cell(c, j, m).addr;
    if m < p { ShiftedApart(m, p, j); }
  }

  lemma AvailableIsCell(c: Config, j: nat, m: nat, a: Block) returns (p: nat)
    requires ValidConfig(c) && PAGE_ORDER <= j <= c.high
    requires a.size == Pow2(j) && Available(c, Row(c, j, m), a)
    ensures m <= p < Pow2(c.high - j) && a == Cell(c, j, p)
  {
    hide Pow2, Shl, WellPlaced, ValidConfig;
    var k;
    k, p := PartsOfBlock(c, a);
    Pow2Injective(k, j);
    assert a == Cell(c, j, p);
    assert p < m ==> Cell(c, j, p) in Row(c, j, m);
  }

  lemma CellAvailable(c: Config, j: nat, m: nat, p: nat)
    requires PAGE_ORDER <= j <= c.high && m <= p < Pow2(c.high - j)
    ensures Available(c, Row(c, j, m), Cell(c, j, p))
  {
    ShlDiv(p, j);
    CellInside(c.high - j, j, p);
    forall b | b in Row(c, j, m)
      ensures Disjoint(b, Cell(c, j, p))
    {
      var i :| 0 <= i < m && b == Cell(c, j, i);
      ShiftedApart(i, p, j);
    }
  }
}
