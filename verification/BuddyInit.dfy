/**
 `Memory::new` with its `InitialAlloc`: where the metadata and the search stack of the
 buddy allocator are put, and when there is no room for them.
 */
module BuddyInit {
  import opened Bits
  import opened Orders
  import opened Results
  import opened Blocks
  import opened BuddySearch
  import opened BuddySpec
  import opened Buddy

  /** A bump allocator over the memory the linker script reserves. */
  class InitialAlloc {
    const start: nat
    const end: nat
    var next: nat

    ghost predicate Valid()
      reads this
    {
      start <= next <= end && start % PAGE_SIZE == 0 && next % PAGE_SIZE == 0
    }

    constructor (start: nat, end: nat)
      requires start <= end && start % PAGE_SIZE == 0
      ensures Valid() && next == start && this.start == start && this.end == end
    {
      this.start := start;
      this.end := end;
      next := start;
    }

    /** `page_alloc`: n pages above everything handed out, or a panic exactly when they do not fit. */
    method PageAlloc(n: nat) returns (o: Outcome, p: PhysAddr)
      requires Valid()
      modifies this
      ensures Valid()
      ensures o == Done <==> old(next) + n * PAGE_SIZE <= end
      ensures o == Done ==> p == PhysAddr(old(next), Some(n * PAGE_SIZE)) && next == old(next) + n * PAGE_SIZE
      ensures o == Panic ==> next == old(next)
    {
      var size := n * PAGE_SIZE;
      var addr := next;
      if addr + size > end { return Panic, PhysAddr(addr, None); }
      next := next + size;
      return Done, PhysAddr(addr, Some(size));
    }
  }

  /** `n.div_ceil(PAGE_SIZE)` */
  function PagesFor(n: nat): nat
  {
    (n + PAGE_SIZE - 1) / PAGE_SIZE
  }

  lemma PagesSuffice(n: nat)
    ensures n <= PagesFor(n) * PAGE_SIZE < n + PAGE_SIZE
  {
  }

  /** The number of tree nodes for a RAM of this size. */
  function NodesOfRam(size: nat): nat
  {
    if size < PAGE_SIZE then 0 else 2 * (size / PAGE_SIZE) - 1
  }

  /** Bytes `Memory::new` takes from the reserved memory for a tree with this many nodes. */
  function ReservedBytes(nodes: nat): nat
  {
    (PagesFor(nodes) + PagesFor(4 * nodes)) * PAGE_SIZE
  }

  /** That is the fewest pages for a byte per node and the fewest for a word per node. */
  lemma ReservedIs(nodes: nat, a: nat, b: nat)
    requires nodes <= a * PAGE_SIZE < nodes + PAGE_SIZE
    requires 4 * nodes <= b * PAGE_SIZE < 4 * nodes + PAGE_SIZE
    ensures ReservedBytes(nodes) == a * PAGE_SIZE + b * PAGE_SIZE
  {
    hide PagesFor;
    FewestPages(nodes, a);
    FewestPages(4 * nodes, b);
  }

  lemma FewestPages(n: nat, a: nat)
    requires n <= a * PAGE_SIZE < n + PAGE_SIZE
    ensures PagesFor(n) == a
  {
  }

  /** RAM of a size the allocator is made for, and reserved memory of any size. */
  ghost predicate ArgumentsOk(start: nat, end: nat, allocStart: nat, allocEnd: nat)
  {
    && start <= end <= USIZE_MAX && allocStart <= allocEnd <= USIZE_MAX && allocStart % PAGE_SIZE == 0
    && ValidConfig(Config(start, FindOrder(end - start)))
    && end - start == Pow2(FindOrder(end - start))
  }

  /** The tree of a memory has more nodes than levels: the search stack fits where it is put. */
  lemma {:induction false} StackBelowNodes(depth: nat)
    ensures depth + 1 <= NodeCount(depth)
  {
    if depth > 0 { StackBelowNodes(depth - 1); }
  }

  /** Room for the metadata, then for the stack, whose reservation and zeroing use the metadata size in words. */
  method PlaceMetadata(nodes: nat, start: nat, end: nat) returns (o: Outcome, metaAt: nat, stackAt: nat)
    requires start <= end && start % PAGE_SIZE == 0
    ensures o == Done <==> start + ReservedBytes(nodes) <= end
    ensures o == Done ==>
              metaAt == start && metaAt + nodes <= stackAt && stackAt % PAGE_SIZE == 0 && stackAt + 4 * nodes <= end
  {
    metaAt, stackAt := start, start;
    PagesSuffice(nodes);
    PagesSuffice(4 * nodes);
    hide PagesFor;
    var early := new InitialAlloc(start, end);
    var p;
    o, p := early.PageAlloc(PagesFor(nodes));
    if o == Panic { return; }
    metaAt := p.addr;
    o, p := early.PageAlloc(PagesFor(4 * nodes));
    if o == Panic { return; }
    stackAt := p.addr;
  }

  /**
   `Memory::new`: it panics exactly when an argument is missing or the reserved memory is
   too small.  Otherwise the allocator is fresh, and its metadata (a byte per node), its
   search stack and the words zeroed there lie in the reserved memory without overlap.
   */
  method NewMemory(ramStart: Option<nat>, ramEnd: Option<nat>, allocStart: Option<nat>, allocEnd: Option<nat>)
      returns (o: Outcome, m: Memory?, metaAt: nat, stackAt: nat)
    requires ramStart.Some? && ramEnd.Some? && allocStart.Some? && allocEnd.Some? ==>
               ArgumentsOk(ramStart.value, ramEnd.value, allocStart.value, allocEnd.value)
    requires allocStart.Some? && allocEnd.Some? ==>
               allocStart.value <= allocEnd.value && allocStart.value % PAGE_SIZE == 0
    ensures o == Done <==>
            && ramStart.Some? && ramEnd.Some? && allocStart.Some? && allocEnd.Some?
            && allocStart.value + ReservedBytes(NodesOfRam(ramEnd.value - ramStart.value)) <= allocEnd.value
    ensures o == Done ==>
              && m != null && fresh(m) && fresh(m.meta) && fresh(m.stack) && m.Valid() && m.live == {}
              && m.cfg.start == ramStart.value && m.memSize == ramEnd.value - ramStart.value
              && metaAt == allocStart.value && metaAt + m.meta.Length <= stackAt && stackAt % PAGE_SIZE == 0
              && m.stack.Length <= m.meta.Length && stackAt + 4 * m.meta.Length <= allocEnd.value
  {
    m, metaAt, stackAt := null, 0, 0;
    if allocStart.None? || allocEnd.None? { return Panic, m, metaAt, stackAt; }
    if ramStart.None? || ramEnd.None? { return Panic, m, metaAt, stackAt; }
    var size := ramEnd.value - ramStart.value;
    RamNodes(ramStart.value, size);
    hide ValidConfig, Pow2, NodeCount, LiveOk, Canonical, FindOrder, NodesOfRam, ReservedBytes;
    var nodes := NodesOfRam(size);
    o, metaAt, stackAt := PlaceMetadata(nodes, allocStart.value, allocEnd.value);
    if o == Panic { return; }
    m := new Memory(ramStart.value, ramEnd.value);
    MetaLength(m, nodes);
  }

  lemma RamNodes(start: nat, size: nat)
    requires size <= USIZE_MAX && ValidConfig(Config(start, FindOrder(size))) && size == Pow2(FindOrder(size))
    ensures NodesOfRam(size) == NodeCount(FindOrder(size) - PAGE_ORDER)
  {
    PowerBelow31(Config(start, FindOrder(size)));
    NodesFromPages(Config(start, FindOrder(size)));
  }

  lemma MetaLength(m: Memory, nodes: nat)
    requires m.Valid() && nodes == NodeCount(m.cfg.high - PAGE_ORDER)
    ensures m.meta.Length == nodes && m.stack.Length <= nodes
  {
    CanonicalLength(m.cfg, m.live);
    StackBelowNodes(m.cfg.high - PAGE_ORDER);
    hide Canonical, NodeCount, LiveOk, ValidConfig;
    assert m.meta.Length == |m.meta[..]|;
  }

  /** The shipped layout, 64 MB of RAM and 512 KB of reserved memory, is large enough: 40 pages are taken. */
  method ShippedMemory(ramStart: nat, allocStart: nat) returns (o: Outcome, m: Memory?)
    requires ramStart % PAGE_SIZE == 0 && ramStart + 0x400_0000 < WORD
    requires allocStart % PAGE_SIZE == 0 && allocStart + 0x8_0000 < WORD
    ensures o == Done && m != null && m.Valid() && m.live == {} && m.memSize == 0x400_0000
  {
    ShippedOrder(ramStart);
    ReservedIs(32767, 8, 32);
    hide FindOrder, ValidConfig, NodesOfRam, ReservedBytes;
    var metaAt, stackAt;
    o, m, metaAt, stackAt := NewMemory(Some(ramStart), Some(ramStart + 0x400_0000),
                                       Some(allocStart), Some(allocStart + 0x8_0000));
  }

  lemma ShippedOrder(ramStart: nat)
    requires ramStart % PAGE_SIZE == 0 && ramStart + 0x400_0000 < WORD
    ensures FindOrder(0x400_0000) == 26 && Pow2(26) == 0x400_0000
    ensures ValidConfig(Config(ramStart, FindOrder(0x400_0000))) && NodesOfRam(0x400_0000) == 32767
  {
    var k := TwentySix();
    FindOrderOfPower(k);
  }

  lemma TwentySix() returns (k: nat)
    ensures k == 26 && Pow2(k) == 0x400_0000
  {
    k := 26;
    Pow2Constants();
    Pow2Sum(22, 4);
    assert Pow2(4) == 16;
  }
}
