/**
 The buddy allocator of rust/src/mem.rs: `Memory` with its two in-place algorithms
 over the metadata array, `buddy_alloc` and `buddy_free`.
 */
module Buddy {
  import opened Bits
  import opened Orders
  import opened Results
  import opened BuddyTree
  import opened Blocks
  import opened BuddySearch
  import opened BuddySpec
  import opened BuddyMerge

  class Memory {
    const cfg: Config
    const memSize: nat
    const highOrder: nat
    const lowOrder: nat
    const meta: array<BlockState>
    const stack: array<nat>
    ghost var live: set<Block>

    ghost predicate Valid()
      reads this, meta, stack
    {
      && ValidConfig(cfg)
      && memSize == Pow2(cfg.high)
      && highOrder == cfg.high
      && lowOrder == PAGE_ORDER
      && stack.Length == highOrder - lowOrder + 1
      && LiveOk(cfg, live)
      && meta[..] == Canonical(cfg, live)
    }

    /** `Memory::new`: every node starts out free. */
    constructor (start: nat, end: nat)
      requires start <= end <= USIZE_MAX
      requires ValidConfig(Config(start, FindOrder(end - start)))
      requires end - start == Pow2(FindOrder(end - start))
      ensures Valid() && live == {} && fresh(meta) && fresh(stack)
      ensures cfg == Config(start, FindOrder(end - start))
    {
      var size := end - start;
      var nodes := 2 * (size / PAGE_SIZE) - 1;
      var high, low := FindOrder(size), FindOrder(PAGE_SIZE);
      OrderOfPage();
      NodesFromPages(Config(start, high));
      cfg := Config(start, high);
      memSize := size;
      highOrder := high;
      lowOrder := low;
      meta := new BlockState[nodes](_ => Free);
      stack := new nat[high - low + 1](_ => 0);
      live := {};
      new;
      AllFree(cfg, meta[..]);
    }

    /** `Memory::buddy_alloc`: round the request up, then search for a node of its level. */
    method BuddyAlloc(n: nat) returns (r: Result<PhysAddr>)
      requires Valid() && n <= USIZE_MAX
      modifies this, meta, stack
      ensures Valid()
      ensures AllocStep(cfg, old(live), n, r, live)
      ensures r.Err? ==> meta[..] == old(meta[..])
    {
      if n > memSize { return Err(OutOfMemory); }
      if n == 0 { return Err(ZeroSize); }
      var size, req := RequestLevel(n);
      r := Serve(req, size);
    }

    /** Search for a node of the level and turn it into an address. */
    method Serve(req: nat, size: nat) returns (r: Result<PhysAddr>)
      requires Valid()
      requires req <= highOrder - lowOrder && size == Pow2(highOrder - req)
      modifies this, meta, stack
      ensures Valid()
      ensures r.Ok? ==>
                && r.value.size == Some(size)
                && FirstFit(cfg, old(live), size, Block(r.value.addr, size))
                && live == old(live) + {Block(r.value.addr, size)}
      ensures r.Err? ==>
                && r.error == OutOfMemory
                && (forall b: Block :: b.size == size ==> !Available(cfg, old(live), b))
                && live == old(live) && meta[..] == old(meta[..])
    {
      CanonicalDescribes(cfg, live);
      ghost var depth := cfg.high - PAGE_ORDER;
      var found, i := Search(req, depth, NodesOf(cfg, live));
      if found {
        TreeBound(depth, i);
        TakeNode(cfg, live, req, i, meta[..]);
        var addr := AddressOf(i, req);
        live := live + {Block(addr, size)};
        return Ok(PhysAddr(addr, Some(size)));
      }
      NoneAvailable(cfg, live, req);
      return Err(OutOfMemory);
    }

    /** The size and the tree level that serve a request; `expect` and the subtraction never fail. */
    method RequestLevel(n: nat) returns (size: nat, req: nat)
      requires Valid() && 0 < n <= memSize
      ensures req <= highOrder - lowOrder
      ensures size == Rounded(n) == Pow2(highOrder - req)
    {
      hide LiveOk, Canonical, Pow2, Rounded, Ilog2;
      PowerBelow31(cfg);
      var rounded := NextPowerOfTwo(if n < PAGE_SIZE then PAGE_SIZE else n);
      size := rounded.value;
      LeastIsRounded(n, size);
      ghost var k := RoundedOrder(cfg, n);
      FindOrderOfPower(k);
      req := highOrder - FindOrder(size);
    }

    /** The address arithmetic on a node index. */
    method AddressOf(i: nat, level: nat) returns (addr: nat)
      requires InTree(cfg, i) && level == Level(i) && highOrder == cfg.high
      ensures Block(addr, Pow2(highOrder - level)) == BlockOf(cfg, i)
    {
      ShlIsMul(Position(i), highOrder - level);
      Ilog2Bounds(i + 1);
      addr := cfg.start + (1 + i - Pow2(level)) * Pow2(highOrder - level);
    }

    /**
     The depth-first search of `buddy_alloc` with its explicit stack of node indexes.
     It marks the first fitting node of level req allocated and splits the nodes above
     it, or finds that no node of that level fits and leaves the metadata as it was.
     */
    method Search(req: nat, ghost depth: nat, ghost nodes: set<nat>) returns (found: bool, i: nat)
      requires req <= depth <= highOrder
      requires stack.Length == depth + 1 && meta.Length == NodeCount(depth) <= USIZE_MAX
      requires Describes(meta[..], nodes)
      modifies meta, stack
      ensures found ==>
                && i < meta.Length && Level(i) == req
                && Fits(nodes, i)
                && NoFitBefore(highOrder, nodes, req, Offset(highOrder, i))
                && Describes(meta[..], nodes + {i})
      ensures !found ==>
                && (forall x :: Level(x) == req ==> !Fits(nodes, x))
                && meta[..] == old(meta[..])
    {
      hide Pow2, Ilog2, Offset, Fits, NoFitBefore, AtNode, StateOf, PathState, Pending, Searching;
      ghost var t := Task(highOrder, depth, nodes, req, meta[..]);
      var sp := 0;
      stack[sp] := 0;
      SearchStart(t, stack[sp]);
      ghost var s := SearchAt(t, stack[sp]);
      assert stack[..sp + 1] == [stack[sp]];
      while sp >= 0
        invariant -1 <= sp < stack.Length && s.task == t
        invariant sp >= 0 ==> Searching(s, meta[..], stack[..sp + 1])
        invariant sp < 0 ==> SearchOver(s, meta[..])
        decreases Remaining(s), if sp >= 0 then req + 1 - Level(s.top) else 0
      {
        i := stack[sp];
        ghost var m, st := meta[..], stack[..sp + 1];
        TopOfStack(s, m, st);
        sp := sp - 1;
        var level := FindOrder(i);
        if req == level {
          if meta[i] == Free {
            StepFound(s, m, st);
            meta[i] := Allocated;
            assert meta[..] == m[i := Allocated];
            return true, i;
          }
          s := StepSkip(s, m, st);
          assert stack[..sp + 1] == st[..sp + 1];
        } else if meta[i] == Allocated {
          s := StepSkip(s, m, st);
          assert stack[..sp + 1] == st[..sp + 1];
        } else {
          s := StepDown(s, m, st);
          TopOfStack(s, m[i := Split], st[..sp + 1] + [2 * i + 2, 2 * i + 1]);
          assert stack[..sp + 1] == st[..sp + 1];
          sp := PushChildren(i, sp);
        }
      }
      NothingFits(s, meta[..]);
      return false, 0;
    }

    /** Enter node i: a free node becomes split, and both children go on the stack, right one first. */
    method PushChildren(i: nat, sp0: int) returns (sp: int)
      requires -1 <= sp0 < stack.Length - 2
      requires i < meta.Length && meta[i] != Allocated
      modifies meta, stack
      ensures sp == sp0 + 2
      ensures meta[..] == old(meta[..])[i := Split]
      ensures stack[..sp + 1] == old(stack[..sp0 + 1]) + [2 * i + 2, 2 * i + 1]
    {
      sp := sp0;
      if meta[i] == Free {
        meta[i] := Split;
      }
      sp := sp + 1;
      stack[sp] := 2 * i + 2;
      sp := sp + 1;
      stack[sp] := 2 * i + 1;
    }

    /**
     `Memory::buddy_free`.  `HandleStep` says what becomes of any handle; below the end of
     RAM it releases the block the handle names exactly when that block is live and
     smaller than the whole memory, and otherwise the kernel panics.
     */
    method BuddyFree(p: PhysAddr) returns (o: Outcome)
      requires Valid()
      requires p.size.Some? ==> p.size.value <= USIZE_MAX
      modifies this, meta
      ensures p.size.None? ==> o == Done && live == old(live) && meta[..] == old(meta[..])
      ensures p.size.Some? ==> HandleStep(cfg, old(live), p.addr, p.size.value, o, live, Valid())
      ensures p.size.Some? && p.addr < cfg.start + memSize ==>
                match Named(cfg, p.addr, p.size.value)
                case None => o == Panic && live == old(live)
                case Some(b) => FreeStep(cfg, old(live), b, o, live)
      ensures p.size.Some? && NamesNothing(cfg, old(live), p.addr, p.size.value) ==> meta[..] == old(meta[..])
      ensures o == Done && (p.size.None? || p.addr < cfg.start + memSize) ==> Valid()
    {
      if p.size.None? { return Done; }
      hide LiveOk, Canonical, TrailingZeros, Pow2, BlockOf, WellPlaced, InTree, NodesOf, ReleaseStep;
      var i, level;
      o, i, level := IndexOf(p.addr, p.size.value);
      if o == Done {
        NodeLiveIff(cfg, live, i);
        MetaTells(i);
        if meta[i] == Allocated { o := FreeNode(i, level); } else { o := Panic; }
        HandleCases(cfg, old(live), p.addr, p.size.value, i, level, o, live, Valid());
      }
      hide NamedNode;
      if p.addr < cfg.start + memSize {
        HandleBelowRam(cfg, old(live), p.addr, p.size.value, o, live, Valid());
      }
    }

    lemma MetaTells(i: nat)
      requires Valid() && i < meta.Length
      ensures meta[i] == StateOf(NodesOf(cfg, live), i)
    {
      CanonicalDescribes(cfg, live);
    }

    /** The index arithmetic that recovers the node from an address and a size, and where it fails. */
    method IndexOf(addr: nat, size: nat) returns (o: Outcome, i: nat, level: nat)
      requires Valid() && size <= USIZE_MAX
      ensures o == Panic <==> NamedNode(cfg, addr, size).None?
      ensures o == Done ==>
                && NamedNode(cfg, addr, size) == Some(i) && i < meta.Length && InTree(cfg, i)
                && level + TrailingZeros(size) == cfg.high && level <= Level(i)
    {
      hide Pow2, Ilog2, TrailingZeros, LiveOk, WellPlaced, Canonical, NodeCount, InTree, Level;
      CanonicalLength(cfg, live);
      assert meta.Length == |meta[..]|;
      i, level := addr, addr;
      IndexFails(cfg, addr, size);
      if addr < cfg.start { return Panic, i, level; }  // the offset underflows
      if TrailingZeros(size) > highOrder { return Panic, i, level; }  // the level underflows
      ZeroHasNoOrder(size);
      level := highOrder - TrailingZeros(size);
      var position := (addr - cfg.start) / size;
      IndexIs(cfg, addr, size, level, position);
      hide NamedNode;
      i := IndexAt(level, position);
      IndexInTree(cfg, i);
      LevelAtLeast(level, position);
      o := if i < meta.Length then Done else Panic;
    }

    /** Releasing the live node i, merging from the given level up. */
    method FreeNode(i: nat, level: nat) returns (o: Outcome)
      requires Valid() && i < meta.Length && level <= Level(i) && InTree(cfg, i) && BlockOf(cfg, i) in live
      modifies this, meta
      ensures ReleaseStep(cfg, old(live), i, level, o, live, Valid())
    {
      hide Pow2, Ilog2, TrailingZeros, WellPlaced, NodeOf, NodesOf, StateOf, Under, Size, Offset, InTree;
      hide StrayPanics, StrayKeeps;
      ghost var b := BlockOf(cfg, i);
      LiveIsAntichain(cfg, live);
      CanonicalDescribes(cfg, live);
      NodeRoundTrip(cfg, i);
      NodeIsLive(cfg, live, b);
      RootIsWhole(cfg, b);
      o := Release(i, level, cfg.high - PAGE_ORDER, NodesOf(cfg, live));
      if o == Done {
        NodesOfRemove(cfg, live, b);
        live := live - {b};
        DescribesIff(cfg, live, meta[..]);
      }
    }

    /** Freeing node i and merging with free buddies upwards, counting the level down. */
    method Release(i0: nat, level0: nat, ghost depth: nat, ghost nodes: set<nat>) returns (o: Outcome)
      requires meta.Length == NodeCount(depth)
      requires Describes(meta[..], nodes) && Antichain(nodes)
      requires i0 in nodes && i0 < meta.Length && level0 <= Level(i0)
      modifies meta
      ensures level0 == Level(i0) ==>
                && (o == Done <==> i0 != 0)
                && (o == Done ==> Describes(meta[..], nodes - {i0}))
      ensures level0 < Level(i0) ==>
                && (o == Panic <==> StrayPanics(nodes, i0, level0, meta.Length))
                && (o == Done ==> (Describes(meta[..], nodes - {i0}) <==> StrayKeeps(nodes, i0, level0)))
    {
      hide Pow2, Ilog2, Under, StateOf, Level;
      ghost var less, short := nodes - {i0}, Level(i0) - level0;
      var i, level: nat := i0, level0;
      meta[i] := Free;
      ReleaseStart(nodes, i0, meta[..]);
      RootLevel(i);
      BuddyOf(i, level);
      if i > 0 { SiblingInside(depth, i); }
      var buddy: nat := BuddyIndex(i, level);
      if buddy >= meta.Length {
        return Panic;
      }
      while meta[buddy] == Free
        invariant i < meta.Length && buddy < meta.Length && level + short == Level(i)
        invariant i0 == 0 ==> i == 0 && short == 0 && meta[buddy] == Free
        invariant i0 != 0 ==> 0 < i && Sibling(i) < meta.Length && Merging(less, i0, i, meta[..])
        invariant i0 != 0 ==> buddy == if level > 0 then Sibling(i) else AtLevelZero(i)
        invariant i0 != 0 ==> Climb(i, level) == Climb(i0, level0) && (short == 0 ==> level > 0)
        decreases i
      {
        if i == 0 { return Panic; }  // i - 1 underflows
        ghost var m := meta[..];
        ParentSplit(less, i0, i, m);
        LevelOfParent(i);
        if level > 0 { MergeStep(nodes, i0, i, m); }
        ghost var from := i;
        i := (i - 1) / 2;
        if meta[i] != Split { return Panic; }
        meta[i] := Free;
        assert meta[..] == m[i := Free];
        RootLevel(i);
        if i == 0 {
          if level == 0 { StrayRoot(nodes, i0, from, m); } else { MergeEnd(nodes, i0, i, meta[..]); }
          return Done;
        }
        if level == 0 { return Panic; }  // level - 1 underflows
        level := level - 1;
        BuddyOf(i, level);
        SiblingInside(depth, i);
        buddy := BuddyIndex(i, level);
      }
      if level > 0 {
        MergeEnd(nodes, i0, i, meta[..]);
        if short > 0 { StopsBelow(less, i, level); }
      } else {
        assert meta[..][buddy] == FoundAtZero(less, i);
        StrayEnd(nodes, i0, i, meta[..]);
      }
      return Done;
    }
  }
}
