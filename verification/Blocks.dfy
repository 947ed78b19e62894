/**
 Physical memory as the callers of the buddy allocator see it: blocks of bytes and
 the plain set of blocks that are live.  Nothing here mentions the metadata tree
 except the translation between blocks and tree nodes at the end.
 */
module Blocks {
  import opened Bits
  import opened Orders
  import opened Results
  import opened BuddyTree

  const PAGE_ORDER: nat := 12

  /** RAM is the 2^high bytes from address `start` on. */
  datatype Config = Config(start: nat, high: nat)

  datatype Block = Block(addr: nat, size: nat)

  datatype PhysAddr = PhysAddr(addr: nat, size: Option<nat>)

  datatype Error = OutOfMemory | ZeroSize

  datatype Result<+T> = Ok(value: T) | Err(error: Error)

  ghost predicate ValidConfig(c: Config)
  {
    && PAGE_ORDER <= c.high <= 31
    && c.start % PAGE_SIZE == 0
    && c.start + Pow2(c.high) < WORD
  }

  ghost predicate Disjoint(a: Block, b: Block)
  {
    a.addr + a.size <= b.addr || b.addr + b.size <= a.addr
  }

  /** A power-of-two block of at least a page, inside RAM and aligned to its size. */
  ghost predicate WellPlaced(c: Config, b: Block)
  {
    && (exists k :: PAGE_ORDER <= k <= c.high && b.size == Pow2(k))
    && c.start <= b.addr
    && (b.addr - c.start) % b.size == 0
    && b.addr + b.size <= c.start + Pow2(c.high)
  }

  ghost predicate LiveOk(c: Config, live: set<Block>)
  {
    && (forall b :: b in live ==> WellPlaced(c, b))
    && (forall a, b :: a in live && b in live && a != b ==> Disjoint(a, b))
  }

  /** b could be handed out now: well placed and clear of everything live. */
  ghost predicate Available(c: Config, live: set<Block>, b: Block)
  {
    WellPlaced(c, b) && forall a :: a in live ==> Disjoint(a, b)
  }

  /** The block size a request of n bytes is served with. */
  function Rounded(n: nat): nat
  {
    Pow2(BitLength((if n < PAGE_SIZE then PAGE_SIZE else n) - 1))
  }

  /** b is available, has size s, and no available block of size s starts lower. */
  ghost predicate FirstFit(c: Config, live: set<Block>, s: nat, b: Block)
  {
    && b.size == s
    && Available(c, live, b)
    && forall a: Block :: a.size == s && Available(c, live, a) ==> b.addr <= a.addr
  }

  /** The complete input-output relation of `buddy_alloc` on the live set. */
  ghost predicate AllocStep(c: Config, live: set<Block>, n: nat, r: Result<PhysAddr>, after: set<Block>)
  {
    if n > Pow2(c.high) then r == Err(OutOfMemory) && after == live
    else if n == 0 then r == Err(ZeroSize) && after == live
    else match r
      case Ok(p) =>
        && p.size == Some(Rounded(n))
        && FirstFit(c, live, Rounded(n), Block(p.addr, Rounded(n)))
        && after == live + {Block(p.addr, Rounded(n))}
      case Err(e) =>
        && e == OutOfMemory
        && (forall b: Block :: b.size == Rounded(n) ==> !Available(c, live, b))
        && after == live
  }

  /** Rounding gives the least power of two that is at least n and at least a page. */
  lemma RoundedIsLeast(n: nat)
    ensures IsPowerOfTwo(Rounded(n))
    ensures n <= Rounded(n) && PAGE_SIZE <= Rounded(n)
    ensures forall k: nat :: n <= Pow2(k) && PAGE_SIZE <= Pow2(k) ==> Rounded(n) <= Pow2(k)
  {
    RoundsUpTo(if n < PAGE_SIZE then PAGE_SIZE else n, BitLength((if n < PAGE_SIZE then PAGE_SIZE else n) - 1));
  }

  lemma RoundedOrder(c: Config, n: nat) returns (k: nat)
    requires ValidConfig(c) && n <= Pow2(c.high)
    ensures PAGE_ORDER <= k <= c.high && Rounded(n) == Pow2(k)
  {
    k := BitLength((if n < PAGE_SIZE then PAGE_SIZE else n) - 1);
    RoundedIsLeast(n);
    Pow2Constants();
    Pow2Monotone(12, c.high);
    assert Pow2(k) <= Pow2(c.high);
    if k < 12 { Pow2Monotone(k, 12); }
    if k > c.high { Pow2Monotone(c.high, k); }
  }

  // ------------------------------------------------ blocks and tree nodes

  /** Every node of the metadata tree stands for at least a page. */
  predicate InTree(c: Config, i: nat)
  {
    PAGE_ORDER <= c.high && Level(i) <= c.high - PAGE_ORDER
  }

  function BlockOf(c: Config, i: nat): Block
    requires InTree(c, i)
  {
    Block(c.start + Offset(c.high, i), Size(c.high, i))
  }

  /** The index of the p-th node of a level. */
  function IndexAt(level: nat, p: nat): nat
  {
    Pow2(level) - 1 + p
  }

  /** The index `buddy_free` rebuilds from an address and a size. */
  function NodeOf(c: Config, b: Block): nat
    requires b.size > 0 && c.start <= b.addr && TrailingZeros(b.size) <= c.high
  {
    IndexAt(c.high - TrailingZeros(b.size), (b.addr - c.start) / b.size)
  }

  lemma WellPlacedHasNode(c: Config, b: Block)
    requires WellPlaced(c, b)
    ensures b.size > 0 && c.start <= b.addr && TrailingZeros(b.size) <= c.high
  {
    var k :| PAGE_ORDER <= k <= c.high && b.size == Pow2(k);
    TrailingZerosOfPower(k);
  }

  lemma {:induction false} ShlDiv(p: nat, k: nat)
    ensures Shl(p, k) / Pow2(k) == p && Shl(p, k) % Pow2(k) == 0
  {
    ShlIsMul(p, k);
    DivUnique(Shl(p, k), Pow2(k), p, 0);
  }

  /** The index of the p-th block of size 2^k. */
  lemma NodeOfParts(c: Config, k: nat, p: nat)
    requires k <= c.high
    ensures var b := Block(c.start + Shl(p, k), Pow2(k));
            && TrailingZeros(b.size) == k
            && NodeOf(c, b) == Pow2(c.high - k) - 1 + p
            && (b.addr - c.start) % b.size == 0
  {
    TrailingZerosOfPower(k);
    ShlDiv(p, k);
  }

  /** Freeing rebuilds exactly the node that allocating computed the address from. */
  lemma NodeRoundTrip(c: Config, i: nat)
    requires ValidConfig(c) && InTree(c, i)
    ensures WellPlaced(c, BlockOf(c, i))
    ensures TrailingZeros(BlockOf(c, i).size) == c.high - Level(i)
    ensures NodeOf(c, BlockOf(c, i)) == i
  {
    hide Pow2, Shl, Ilog2, TrailingZeros, NodeOf;
    NodeOfParts(c, c.high - Level(i), Position(i));
    RangeInside(c.high, i);
    NodeIndex(i);
  }

  /**
   The node whose index `buddy_free` computes for a handle: none where the arithmetic
   underflows or the index lies outside the tree.
   */
  function NamedNode(c: Config, addr: nat, size: nat): Option<nat>
  {
    if addr < c.start || size == 0 || c.high < TrailingZeros(size) then None
    else
      var i := IndexAt(c.high - TrailingZeros(size), (addr - c.start) / size);
      if InTree(c, i) then Some(i) else None
  }

  /** The block a handle names, which for a handle `buddy_alloc` returned is its own. */
  function Named(c: Config, addr: nat, size: nat): Option<Block>
  {
    match NamedNode(c, addr, size)
    case None => None
    case Some(i) => Some(BlockOf(c, i))
  }

  /** The level `buddy_free` computes is the one of the node. */
  predicate InStep(c: Config, addr: nat, size: nat)
  {
    NamedNode(c, addr, size).Some? && Level(NamedNode(c, addr, size).value) + TrailingZeros(size) == c.high
  }

  lemma {:induction false} PowerFactor(n: nat)
    requires n > 0
    ensures Pow2(TrailingZeros(n)) <= n
  {
    if n % 2 == 0 { PowerFactor(n / 2); }
  }

  lemma QuotientBound(d: nat, s: nat, a: nat, b: nat)
    requires s > 0 && b <= s && d < a * b
    ensures d / s < a
  {
    var q := d / s;
    assert q * s <= d;
    assert q >= a ==> (q - a) * s >= 0;
    assert a * (s - b) >= 0;
  }

  /** What a handle names is a well-placed block. */
  lemma NamedIsPlaced(c: Config, addr: nat, size: nat)
    requires ValidConfig(c) && Named(c, addr, size).Some?
    ensures WellPlaced(c, Named(c, addr, size).value)
  {
    NodeRoundTrip(c, NamedNode(c, addr, size).value);
  }

  lemma PositionBound(c: Config, addr: nat, size: nat)
    requires c.start <= addr < c.start + Pow2(c.high) && size > 0 && TrailingZeros(size) <= c.high
    ensures (addr - c.start) / size < Pow2(c.high - TrailingZeros(size))
  {
    hide Pow2, TrailingZeros;
    var k := TrailingZeros(size);
    PowerFactor(size);
    Pow2Sum(c.high - k, k);
    QuotientBound(addr - c.start, size, Pow2(c.high - k), Pow2(k));
  }

  /** The node with position p at a level. */
  lemma NodeAt(level: nat, p: nat)
    requires p < Pow2(level)
    ensures Level(IndexAt(level, p)) == level && Position(IndexAt(level, p)) == p
  {
    hide Ilog2;
    Ilog2Unique(Pow2(level) + p, level);
    hide Pow2;
  }

  /**
   A handle below the end of RAM names the block found by rounding the address down to a
   multiple of the size and the size to its largest power-of-two factor; there is none
   when that factor is less than a page.  The level computed is right.
   */
  lemma NamedBelowRam(c: Config, addr: nat, size: nat)
    requires ValidConfig(c) && addr < c.start + Pow2(c.high)
    ensures Named(c, addr, size) ==
            if addr < c.start || size == 0 || TrailingZeros(size) < PAGE_ORDER || c.high < TrailingZeros(size) then None
            else Some(Block(c.start + Shl((addr - c.start) / size, TrailingZeros(size)), Pow2(TrailingZeros(size))))
    ensures Named(c, addr, size).Some? ==> InStep(c, addr, size)
  {
    hide Pow2, Shl, TrailingZeros, Ilog2, Position;
    if c.start <= addr && size > 0 && TrailingZeros(size) <= c.high {
      PositionBound(c, addr, size);
      NodeAt(c.high - TrailingZeros(size), (addr - c.start) / size);
    }
  }

  /** The p-th block of size 2^j lies inside the memory. */
  lemma CellInside(l: nat, j: nat, p: nat)
    requires p < Pow2(l)
    ensures Shl(p, j) + Pow2(j) <= Pow2(l + j)
  {
    ShlIsMul(Pow2(l), j);
    Pow2Sum(l, j);
    ShiftedApart(p, Pow2(l), j);
  }

  lemma PartsArePlaced(c: Config, k: nat, p: nat)
    requires PAGE_ORDER <= k <= c.high && p < Pow2(c.high - k)
    ensures WellPlaced(c, Block(c.start + Shl(p, k), Pow2(k)))
  {
    hide Pow2, Shl;
    ShlDiv(p, k);
    CellInside(c.high - k, k, p);
  }

  lemma NodeIndex(i: nat)
    ensures Pow2(Level(i)) - 1 + Position(i) == i
  {
  }

  lemma PartsOfBlock(c: Config, b: Block) returns (k: nat, p: nat)
    requires WellPlaced(c, b)
    ensures PAGE_ORDER <= k <= c.high
    ensures b == Block(c.start + Shl(p, k), Pow2(k))
    ensures p < Pow2(c.high - k)
  {
    k :| PAGE_ORDER <= k <= c.high && b.size == Pow2(k);
    p := ExactQuotient(b.addr - c.start, b.size);
    ShlIsMul(p, k);
    ShlBound(p, k, c.high - k);
  }

  lemma ExactQuotient(d: nat, s: nat) returns (p: nat)
    requires s > 0 && d % s == 0
    ensures d == p * s
  {
    p := d / s;
  }

  lemma ShlBound(p: nat, k: nat, l: nat)
    ensures p >= Pow2(l) ==> Shl(p, k) >= Pow2(l + k)
  {
    if p >= Pow2(l) {
      ShlSum(Pow2(l), p - Pow2(l), k);
      ShlIsMul(Pow2(l), k);
      Pow2Sum(l, k);
    }
  }

  /** Conversely every well-placed block is the block of one node of the tree. */
  lemma BlockRoundTrip(c: Config, b: Block)
    requires ValidConfig(c) && WellPlaced(c, b)
    ensures b.size > 0 && c.start <= b.addr && TrailingZeros(b.size) <= c.high
    ensures InTree(c, NodeOf(c, b)) && BlockOf(c, NodeOf(c, b)) == b
    ensures Level(NodeOf(c, b)) == c.high - TrailingZeros(b.size)
  {
    hide Pow2, Shl, Ilog2, TrailingZeros, NodeOf, WellPlaced;
    var k, p := PartsOfBlock(c, b);
    NodeOfParts(c, k, p);
    Ilog2Unique(NodeOf(c, b) + 1, c.high - k);
  }

  /** A handle names itself exactly when it is a well-placed block. */
  lemma NamesItselfIff(c: Config, b: Block)
    requires ValidConfig(c)
    ensures Named(c, b.addr, b.size) == Some(b) <==> WellPlaced(c, b)
  {
    hide Pow2, TrailingZeros, WellPlaced, InTree, BlockOf;
    if Named(c, b.addr, b.size) == Some(b) { NamedIsPlaced(c, b.addr, b.size); }
    if WellPlaced(c, b) { BlockRoundTrip(c, b); }
  }

  /** The nodes of a set of blocks. */
  ghost function NodesOf(c: Config, live: set<Block>): set<nat>
    requires forall b :: b in live ==> WellPlaced(c, b)
  {
    set b | b in live :: (WellPlacedHasNode(c, b); NodeOf(c, b))
  }

  lemma BlocksApart(c: Config, i: nat, j: nat)
    requires InTree(c, i) && InTree(c, j)
    ensures Disjoint(BlockOf(c, i), BlockOf(c, j)) <==> !Under(i, j) && !Under(j, i)
  {
    ApartIffUnrelated(c.high, i, j);
  }

  /** Disjoint live blocks are an antichain of the tree. */
  lemma LiveIsAntichain(c: Config, live: set<Block>)
    requires ValidConfig(c) && LiveOk(c, live)
    ensures Antichain(NodesOf(c, live))
    ensures forall i :: i in NodesOf(c, live) ==> InTree(c, i) && BlockOf(c, i) in live
  {
    forall b | b in live
      ensures b.size > 0 && c.start <= b.addr && TrailingZeros(b.size) <= c.high
      ensures InTree(c, NodeOf(c, b)) && BlockOf(c, NodeOf(c, b)) == b
    {
      BlockRoundTrip(c, b);
    }
    forall i, j | i in NodesOf(c, live) && j in NodesOf(c, live) && i != j
      ensures !Under(i, j)
    {
      BlocksApart(c, i, j);
    }
  }

  lemma NodeIsLive(c: Config, live: set<Block>, b: Block)
    requires ValidConfig(c) && LiveOk(c, live) && WellPlaced(c, b)
    ensures b.size > 0 && c.start <= b.addr && TrailingZeros(b.size) <= c.high
    ensures NodeOf(c, b) in NodesOf(c, live) <==> b in live
  {
    BlockRoundTrip(c, b);
    LiveIsAntichain(c, live);
  }

  lemma NodesOfAdd(c: Config, live: set<Block>, i: nat)
    requires ValidConfig(c) && LiveOk(c, live) && InTree(c, i)
    ensures WellPlaced(c, BlockOf(c, i))
    ensures NodesOf(c, live + {BlockOf(c, i)}) == NodesOf(c, live) + {i}
  {
    NodeRoundTrip(c, i);
    var b := BlockOf(c, i);
    var more := live + {b};
    forall j | j in NodesOf(c, live) + {i}
      ensures j in NodesOf(c, more)
    {
      if j in NodesOf(c, live) {
        var a :| a in live && (WellPlacedHasNode(c, a); NodeOf(c, a)) == j;
        assert a in more;
      } else {
        assert b in more;
      }
    }
  }

  lemma NodesOfRemove(c: Config, live: set<Block>, b: Block)
    requires ValidConfig(c) && LiveOk(c, live) && b in live
    ensures b.size > 0 && c.start <= b.addr && TrailingZeros(b.size) <= c.high
    ensures NodesOf(c, live - {b}) == NodesOf(c, live) - {NodeOf(c, b)}
  {
    hide Pow2, Shl, Ilog2, TrailingZeros, Level, Offset, Size, Position;
    BlockRoundTrip(c, b);
    var less := live - {b};
    forall a | a in live
      ensures a.size > 0 && c.start <= a.addr && TrailingZeros(a.size) <= c.high
      ensures NodeOf(c, a) == NodeOf(c, b) ==> a == b
    {
      BlockRoundTrip(c, a);
    }
    forall j | j in NodesOf(c, live) - {NodeOf(c, b)}
      ensures j in NodesOf(c, less)
    {
      var a :| a in live && (WellPlacedHasNode(c, a); NodeOf(c, a)) == j;
      assert a in less;
    }
  }

  /** For a node of the tree, fitting and being available are the same thing. */
  lemma FitsIffAvailable(c: Config, live: set<Block>, i: nat)
    requires ValidConfig(c) && LiveOk(c, live) && InTree(c, i)
    ensures Fits(NodesOf(c, live), i) <==> Available(c, live, BlockOf(c, i))
  {
    NodeRoundTrip(c, i);
    LiveIsAntichain(c, live);
    var b := BlockOf(c, i);
    forall a | a in live
      ensures a.size > 0 && c.start <= a.addr && TrailingZeros(a.size) <= c.high
      ensures var j := NodeOf(c, a);
              j in NodesOf(c, live) && (Disjoint(a, b) <==> !Under(i, j) && !Under(j, i))
    {
      BlockRoundTrip(c, a);
      BlocksApart(c, NodeOf(c, a), i);
    }
  }
}
