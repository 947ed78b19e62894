/**
 From tree nodes back to blocks: the metadata array as a function of the set of live
 blocks, and what the search results mean for the callers.
 */
module BuddySpec {
  import opened Bits
  import opened Orders
  import opened Results
  import opened BuddyTree
  import opened Blocks
  import opened BuddySearch
  import opened BuddyMerge

  /** The complete input-output relation of `buddy_free` on the live set. */
  ghost predicate FreeStep(c: Config, live: set<Block>, b: Block, o: Outcome, after: set<Block>)
  {
    && (o == Done <==> b in live && b.size < Pow2(c.high))
    && after == if o == Done then live - {b} else live
  }

  /** The metadata array is a function of the live set alone. */
  ghost function Canonical(c: Config, live: set<Block>): seq<BlockState>
    requires ValidConfig(c) && LiveOk(c, live)
  {
    seq(NodeCount(c.high - PAGE_ORDER), i requires i >= 0 => StateOf(NodesOf(c, live), i))
  }

  lemma CanonicalDescribes(c: Config, live: set<Block>)
    requires ValidConfig(c) && LiveOk(c, live)
    ensures |Canonical(c, live)| == NodeCount(c.high - PAGE_ORDER) <= USIZE_MAX
    ensures Describes(Canonical(c, live), NodesOf(c, live))
  {
    Pow2Monotone(c.high - PAGE_ORDER + 1, 20);
    Pow2Constants();
  }

  lemma CanonicalLength(c: Config, live: set<Block>)
    requires ValidConfig(c) && LiveOk(c, live)
    ensures |Canonical(c, live)| == NodeCount(c.high - PAGE_ORDER)
  {
  }

  lemma DescribedIsCanonical(c: Config, live: set<Block>, meta: seq<BlockState>)
    requires ValidConfig(c) && LiveOk(c, live)
    requires |meta| == NodeCount(c.high - PAGE_ORDER)
    requires Describes(meta, NodesOf(c, live))
    ensures meta == Canonical(c, live)
  {
  }

  lemma AllFree(c: Config, meta: seq<BlockState>)
    requires ValidConfig(c) && |meta| == NodeCount(c.high - PAGE_ORDER)
    requires forall i :: 0 <= i < |meta| ==> meta[i] == Free
    ensures LiveOk(c, {}) && meta == Canonical(c, {})
  {
    assert NodesOf(c, {}) == {};
    DescribedIsCanonical(c, {}, meta);
  }

  lemma OrderOfPage()
    ensures FindOrder(PAGE_SIZE) == PAGE_ORDER
  {
    Pow2Constants();
    FindOrderOfPower(PAGE_ORDER);
  }

  /** `2 * (mem_size / PAGE_SIZE) - 1` is the number of nodes of the tree. */
  lemma NodesFromPages(c: Config)
    requires ValidConfig(c)
    ensures 2 * (Pow2(c.high) / PAGE_SIZE) - 1 == NodeCount(c.high - PAGE_ORDER)
  {
    Pow2Constants();
    Pow2Sum(PAGE_ORDER, c.high - PAGE_ORDER);
    DivUnique(Pow2(c.high), PAGE_SIZE, Pow2(c.high - PAGE_ORDER), 0);
  }

  lemma PowerBelow31(c: Config)
    requires ValidConfig(c)
    ensures Pow2(c.high) <= 0x8000_0000 && PAGE_SIZE <= Pow2(c.high)
  {
    Pow2Monotone(c.high, 31);
    Pow2Monotone(PAGE_ORDER, c.high);
    Pow2Constants();
  }

  lemma LeastIsRounded(n: nat, s: nat)
    requires var m := if n < PAGE_SIZE then PAGE_SIZE else n;
             && IsPowerOfTwo(s) && m <= s
             && forall k: nat :: m <= Pow2(k) ==> s <= Pow2(k)
    ensures s == Rounded(n)
  {
    RoundedIsLeast(n);
    var k :| s == Pow2(k);
    var j :| Rounded(n) == Pow2(j);
  }

  lemma NodeAtLevel(c: Config, a: Block, req: nat) returns (j: nat)
    requires ValidConfig(c) && WellPlaced(c, a) && req <= c.high && a.size == Pow2(c.high - req)
    ensures InTree(c, j) && Level(j) == req && BlockOf(c, j) == a
  {
    hide Pow2, Ilog2, TrailingZeros, NodeOf, WellPlaced, BlockOf;
    BlockRoundTrip(c, a);
    TrailingZerosOfPower(c.high - req);
    j := NodeOf(c, a);
  }

  /** The node the search takes is the block a first-fit allocator must return. */
  lemma TakeNode(c: Config, live: set<Block>, req: nat, i: nat, meta: seq<BlockState>)
    requires ValidConfig(c) && LiveOk(c, live)
    requires InTree(c, i) && Level(i) == req
    requires Fits(NodesOf(c, live), i)
    requires NoFitBefore(c.high, NodesOf(c, live), req, Offset(c.high, i))
    requires |meta| == NodeCount(c.high - PAGE_ORDER) && Describes(meta, NodesOf(c, live) + {i})
    ensures FirstFit(c, live, Pow2(c.high - req), BlockOf(c, i))
    ensures LiveOk(c, live + {BlockOf(c, i)})
    ensures meta == Canonical(c, live + {BlockOf(c, i)})
  {
    hide Pow2, Ilog2, Shl, NodesOf, StateOf, WellPlaced;
    FitsIffAvailable(c, live, i);
    forall a: Block | a.size == Pow2(c.high - req) && Available(c, live, a)
      ensures BlockOf(c, i).addr <= a.addr
    {
      var j := NodeAtLevel(c, a, req);
      FitsIffAvailable(c, live, j);
    }
    NodesOfAdd(c, live, i);
    DescribedIsCanonical(c, live + {BlockOf(c, i)}, meta);
  }

  lemma NoneAvailable(c: Config, live: set<Block>, req: nat)
    requires ValidConfig(c) && LiveOk(c, live) && req <= c.high
    requires forall x :: Level(x) == req ==> !Fits(NodesOf(c, live), x)
    ensures forall b: Block :: b.size == Pow2(c.high - req) ==> !Available(c, live, b)
  {
    forall b: Block | b.size == Pow2(c.high - req) && Available(c, live, b)
      ensures false
    {
      var j := NodeAtLevel(c, b, req);
      FitsIffAvailable(c, live, j);
    }
  }

  /** Only the root's block is as large as the whole memory. */
  lemma RootIsWhole(c: Config, b: Block)
    requires ValidConfig(c) && WellPlaced(c, b)
    ensures b.size > 0 && c.start <= b.addr && TrailingZeros(b.size) <= c.high
    ensures NodeOf(c, b) == 0 <==> b.size == Pow2(c.high)
    ensures b.size <= Pow2(c.high)
  {
    hide Pow2, Ilog2, TrailingZeros, NodeOf, WellPlaced, Offset;
    BlockRoundTrip(c, b);
    var i := NodeOf(c, b);
    RootLevel(i);
    Pow2Monotone(c.high - Level(i), c.high);
  }

  lemma ZeroHasNoOrder(size: nat)
    requires TrailingZeros(size) <= 31
    ensures size > 0
  {
  }

  /** The index is inside the metadata array exactly when the node is in the tree. */
  lemma IndexInTree(c: Config, i: nat)
    requires ValidConfig(c)
    ensures InTree(c, i) <==> i < NodeCount(c.high - PAGE_ORDER)
    ensures InTree(c, i) ==> WellPlaced(c, BlockOf(c, i))
  {
    hide NodeCount, WellPlaced, BlockOf;
    TreeBound(c.high - PAGE_ORDER, i);
    if InTree(c, i) { NodeRoundTrip(c, i); }
  }

  /** The index arithmetic where nothing underflows ... */
  lemma IndexIs(c: Config, addr: nat, size: nat, level: nat, position: nat)
    requires c.start <= addr && size > 0 && level + TrailingZeros(size) == c.high
    requires position == (addr - c.start) / size
    ensures NamedNode(c, addr, size) ==
            if InTree(c, IndexAt(level, position)) then Some(IndexAt(level, position)) else None
  {
    hide TrailingZeros, InTree, IndexAt;
  }

  /** ... and where something does. */
  lemma IndexFails(c: Config, addr: nat, size: nat)
    ensures addr < c.start || c.high < TrailingZeros(size) ==> NamedNode(c, addr, size) == None
  {
    hide TrailingZeros, InTree, IndexAt;
  }

  lemma LevelAtLeast(level: nat, p: nat)
    ensures level <= Level(IndexAt(level, p))
  {
    if level > 0 {
      LevelBound(IndexAt(level, p), level - 1);
    }
  }

  lemma NodeLiveIff(c: Config, live: set<Block>, i: nat)
    requires ValidConfig(c) && LiveOk(c, live) && InTree(c, i)
    ensures StateOf(NodesOf(c, live), i) == Allocated <==> BlockOf(c, i) in live
  {
    hide TrailingZeros, NodeOf, WellPlaced, Occupied;
    NodeRoundTrip(c, i);
    NodeIsLive(c, live, BlockOf(c, i));
  }

  lemma DescribesIff(c: Config, live: set<Block>, meta: seq<BlockState>)
    requires ValidConfig(c) && LiveOk(c, live) && |meta| == NodeCount(c.high - PAGE_ORDER)
    ensures Describes(meta, NodesOf(c, live)) <==> meta == Canonical(c, live)
  {
    CanonicalDescribes(c, live);
  }

  /** Releasing the live node i when the level computed is `level`. */
  ghost predicate ReleaseStep(c: Config, live: set<Block>, i: nat, level: nat,
                              o: Outcome, after: set<Block>, sound: bool)
    requires ValidConfig(c) && LiveOk(c, live) && InTree(c, i)
  {
    if level == Level(i) then FreeStep(c, live, BlockOf(c, i), o, after) && (o == Done ==> sound)
    else
      && (o == Panic <==> StrayPanics(NodesOf(c, live), i, level, NodeCount(c.high - PAGE_ORDER)))
      && (o == Done ==> after == live - {BlockOf(c, i)} && (sound <==> StrayKeeps(NodesOf(c, live), i, level)))
  }

  /**
   The complete input-output relation of `buddy_free` for a handle with a size; `sound`
   says that the metadata is that of the live set afterwards.  When the level computed is
   the node's own, the block is released properly; when it is too small, which takes an
   address above RAM, merging may panic or leave a wrong array.
   */
  ghost predicate HandleStep(c: Config, live: set<Block>, addr: nat, size: nat,
                             o: Outcome, after: set<Block>, sound: bool)
    requires ValidConfig(c) && LiveOk(c, live)
  {
    match NamedNode(c, addr, size)
    case None => o == Panic && after == live
    case Some(i) =>
      if BlockOf(c, i) !in live then o == Panic && after == live
      else ReleaseStep(c, live, i, c.high - TrailingZeros(size), o, after, sound)
  }

  /** `HandleStep` by the cases of the code: the index, whether its node is live, and the release. */
  lemma HandleCases(c: Config, live: set<Block>, addr: nat, size: nat, i: nat, level: nat,
                    o: Outcome, after: set<Block>, sound: bool)
    requires ValidConfig(c) && LiveOk(c, live) && NamedNode(c, addr, size) == Some(i) && InTree(c, i)
    requires level + TrailingZeros(size) == c.high && level <= Level(i)
    requires BlockOf(c, i) !in live ==> o == Panic && after == live
    requires BlockOf(c, i) in live ==> ReleaseStep(c, live, i, level, o, after, sound)
    ensures HandleStep(c, live, addr, size, o, after, sound)
  {
    hide TrailingZeros, NamedNode, LiveOk, BlockOf, StrayPanics, StrayKeeps, FreeStep, NodesOf;
  }

  ghost predicate NamesNothing(c: Config, live: set<Block>, addr: nat, size: nat)
  {
    Named(c, addr, size).None? || Named(c, addr, size).value !in live
  }

  /** For a handle below the end of RAM that is a release of the block it names. */
  lemma HandleBelowRam(c: Config, live: set<Block>, addr: nat, size: nat, o: Outcome, after: set<Block>, sound: bool)
    requires ValidConfig(c) && LiveOk(c, live) && addr < c.start + Pow2(c.high)
    requires HandleStep(c, live, addr, size, o, after, sound)
    ensures o == Done ==> sound
    ensures match Named(c, addr, size)
            case None => o == Panic && after == live
            case Some(b) => FreeStep(c, live, b, o, after)
  {
    hide TrailingZeros, NamedNode, LiveOk, StrayPanics, StrayKeeps;
    NamedBelowRam(c, addr, size);
  }

  /** For a power-of-two size the level is the node's own exactly below the end of RAM. */
  lemma InStepIffBelowRam(c: Config, addr: nat, k: nat)
    requires ValidConfig(c) && k <= c.high && NamedNode(c, addr, Pow2(k)).Some?
    ensures InStep(c, addr, Pow2(k)) <==> addr < c.start + Pow2(c.high)
  {
    hide Pow2, Ilog2, InTree;
    TrailingZerosOfPower(k);
    if addr < c.start + Pow2(c.high) {
      NamedBelowRam(c, addr, Pow2(k));
    } else {
      var level, p := c.high - k, (addr - c.start) / Pow2(k);
      Pow2Sum(level, k);
      QuotientAtLeast(addr - c.start, Pow2(k), Pow2(level));
      LevelBound(IndexAt(level, p), level);
      Pow2Next(level);
    }
  }

  lemma QuotientAtLeast(d: nat, s: nat, a: nat)
    requires s > 0 && d >= a * s
    ensures d / s >= a
  {
    var q := d / s;
    assert d == q * s + d % s;
    assert q < a ==> (a - q - 1) * s >= 0;
  }

  /**
   On four pages with only page 0 live, the handle of two pages just above the end of RAM
   names page 0.  Releasing it ends without a panic, and the root still says `Split`
   although nothing is live.
   */
  lemma StrayHandle(c: Config, o: Outcome, after: set<Block>, sound: bool)
    requires ValidConfig(c) && c.high == 14
    requires LiveOk(c, {Block(c.start, PAGE_SIZE)})
    requires HandleStep(c, {Block(c.start, PAGE_SIZE)}, c.start + 4 * PAGE_SIZE, 2 * PAGE_SIZE, o, after, sound)
    ensures o == Done && after == {} && !sound
  {
    hide Pow2, Ilog2, TrailingZeros, Shl, NodesOf, ReleaseStep;
    var live, addr, size := {Block(c.start, PAGE_SIZE)}, c.start + 4 * PAGE_SIZE, 2 * PAGE_SIZE;
    var three := PageZeroOfFour(c, addr, size);
    FreeStrayPage(c, live, three, o, after, sound);
  }

  lemma PageZeroOfFour(c: Config, addr: nat, size: nat) returns (i: nat)
    requires c.high == 14 && addr == c.start + 4 * PAGE_SIZE && size == 2 * PAGE_SIZE
    ensures i == 3 && TrailingZeros(size) == 13 && Level(i) == 2
    ensures NamedNode(c, addr, size) == Some(i) && BlockOf(c, i) == Block(c.start, PAGE_SIZE)
  {
    i := 3;
    Pow2Constants();
    var k := 13;
    Pow2Next(k - 1);
    TrailingZerosOfPower(k);
    assert Pow2(c.high - k) == 2;
    Ilog2Unique(i + 1, 2);
  }

  lemma FreeStrayPage(c: Config, live: set<Block>, i: nat, o: Outcome, after: set<Block>, sound: bool)
    requires ValidConfig(c) && c.high == 14 && LiveOk(c, live) && i == 3 && InTree(c, i) && Level(i) == 2
    requires live == {BlockOf(c, i)} && ReleaseStep(c, live, i, 1, o, after, sound)
    ensures o == Done && after == {} && !sound
  {
    hide NodesOf, StrayPanics, StrayKeeps, Pow2, Ilog2, NodeCount, BlockOf;
    OnlyNode(c, i);
    StrayExample();
    SevenNodes(c.high - PAGE_ORDER);
  }

  lemma OnlyNode(c: Config, i: nat)
    requires ValidConfig(c) && InTree(c, i)
    ensures WellPlaced(c, BlockOf(c, i)) && NodesOf(c, {BlockOf(c, i)}) == {i}
  {
    hide WellPlaced, BlockOf, InTree;
    NodesOfAdd(c, {}, i);
    assert {} + {BlockOf(c, i)} == {BlockOf(c, i)};
    assert NodesOf(c, {}) + {i} == {i};
  }

  lemma SevenNodes(depth: nat)
    requires depth == 2
    ensures NodeCount(depth) == 7
  {
  }
}
