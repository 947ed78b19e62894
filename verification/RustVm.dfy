/**
 The page tables of rust/src/vm.rs and the identity map that rust/src/proc.rs builds
 with them, on pages handed out by the buddy allocator.

 Each `PageTable` keeps a software shadow of its second level (`second_pts`), through
 which it writes, while the hardware follows the page numbers in the root entries.
 The invariant says the two agree and that no two tables share a page, which comes
 from the disjointness of live blocks.
 */
module RustVm {
  import opened Bits
  import opened Orders
  import opened Results
  import opened Blocks
  import opened BuddySpec
  import opened Buddy
  import opened Sv32

  /** Bytes of a `FixedVec<usize>` value: pointer, capacity, address and optional size. */
  const FIXED_VEC_BYTES: nat := 20
  const ISIZE_MAX: nat := 0x7FFF_FFFF

  /** Pages a new table takes: one for the root and eight for the shadow vector. */
  const TABLE_PAGES: nat := 9

  ghost predicate Backed(live: set<Block>, t: Table)
  {
    forall page :: Owns(t, page) ==> Block(page, PAGE_SIZE) in live
  }

  ghost predicate NoSharedPage(t: Table, u: Table)
  {
    forall page :: !(Owns(t, page) && Owns(u, page))
  }

  predicate Covers(b: Block, a: nat)
  {
    b.addr <= a < b.addr + b.size
  }

  /** Only live blocks have ever been written, so whatever is handed out next is zero. */
  ghost predicate FreeIsZero(live: set<Block>, ram: Ram)
  {
    forall a :: Load(ram, a) != 0 ==> exists b :: b in live && Covers(b, a)
  }

  ghost predicate Coherent(live: set<Block>, ram: Ram, tables: seq<Table>, leaves: seq<map<nat, nat>>)
  {
    && |tables| == |leaves|
    && (forall t :: 0 <= t < |tables| ==> Holds(ram, tables[t], leaves[t]))
    && (forall t :: 0 <= t < |tables| ==> Backed(live, tables[t]))
    && (forall t, u :: 0 <= t < u < |tables| ==> NoSharedPage(tables[t], tables[u]))
    && FreeIsZero(live, ram)
  }

  /** What a successful request gives the virtual-memory code. */
  lemma FreshBlock(c: Config, live: set<Block>, n: nat, p: PhysAddr, after: set<Block>, ram: Ram)
    requires ValidConfig(c) && LiveOk(c, live) && FreeIsZero(live, ram)
    requires AllocStep(c, live, n, Ok(p), after)
    ensures PageAligned(p.addr) && live <= after
    ensures forall page :: Block(page, PAGE_SIZE) in live ==> page != p.addr
    ensures forall w :: 0 <= w < 1024 ==> Entry(ram, p.addr, w) == 0
    ensures FreeIsZero(after, ram)
  {
    var b := Block(p.addr, Rounded(n));
    BlockIsPaged(c, b);
    RoundedIsLeast(n);
    forall w | 0 <= w < 1024
      ensures Entry(ram, p.addr, w) == 0
    {
      var a := p.addr + 4 * w;
      assert Covers(b, a);
      assert forall d :: d in live ==> Disjoint(d, b);
    }
  }

  lemma BlockIsPaged(c: Config, b: Block)
    requires ValidConfig(c) && WellPlaced(c, b)
    ensures PageAligned(b.addr)
  {
    var k, p := PartsOfBlock(c, b);
    MultipleOfPage(p, k);
    SumAligned(c.start, Shl(p, k));
  }

  lemma SumAligned(a: nat, b: nat)
    requires a % PAGE_SIZE == 0 && b % PAGE_SIZE == 0
    ensures (a + b) % PAGE_SIZE == 0
  {
  }

  lemma MultipleOfPage(p: nat, k: nat)
    requires k >= PAGE_ORDER
    ensures Shl(p, k) % PAGE_SIZE == 0
  {
    hide Shl, Pow2;
    var twelve := TwelveIs();
    ShlSplit(p, k - twelve, twelve);
    ShlDiv(Shl(p, k - twelve), twelve);
  }

  lemma TwelveIs() returns (twelve: nat)
    ensures twelve == PAGE_ORDER && Pow2(twelve) == PAGE_SIZE
  {
    twelve := PAGE_ORDER;
    Pow2Constants();
  }

  lemma {:induction false} ShlSplit(p: nat, a: nat, b: nat)
    ensures Shl(p, a + b) == Shl(Shl(p, a), b)
    decreases b
  {
    if b > 0 { ShlSplit(p, a, b - 1); }
  }

  /** A page of size one page is granted at the size of a page. */
  lemma PageRounds()
    ensures Rounded(PAGE_SIZE) == PAGE_SIZE
  {
    Pow2Constants();
    RoundedIsLeast(PAGE_SIZE);
    assert PAGE_SIZE == Pow2(PAGE_ORDER);
  }

  lemma OneFirstFit(c: Config, live: set<Block>, s: nat, b: Block)
    requires FirstFit(c, live, s, b)
    ensures forall a: Block :: FirstFit(c, live, s, a) ==> a == b
  {
    hide Available;
  }

  // ------------------------------------------------------------ pages left over

  /** Page p of the memory. */
  function PageAt(c: Config, p: nat): Block
  {
    Block(c.start + p * PAGE_SIZE, PAGE_SIZE)
  }

  /** The pages clear of all live blocks. */
  ghost function FreePageSet(c: Config, live: set<Block>): set<nat>
  {
    if c.high < PAGE_ORDER then {}
    else set p | 0 <= p < Pow2(c.high - PAGE_ORDER) && Available(c, live, PageAt(c, p))
  }

  ghost function FreePages(c: Config, live: set<Block>): nat
  {
    |FreePageSet(c, live)|
  }

  lemma IsPageAt(c: Config, b: Block) returns (p: nat)
    requires ValidConfig(c) && WellPlaced(c, b) && b.size == PAGE_SIZE
    ensures p < Pow2(c.high - PAGE_ORDER) && b == PageAt(c, p)
  {
    hide Pow2, Shl, WellPlaced;
    var k;
    k, p := PartsOfBlock(c, b);
    var twelve := TwelveIs();
    Pow2Injective(k, twelve);
    ShlIsMul(p, k);
  }

  /** A page can be had exactly when one is left. */
  lemma PageLeftIff(c: Config, live: set<Block>)
    requires ValidConfig(c)
    ensures (forall b: Block :: b.size == PAGE_SIZE ==> !Available(c, live, b)) <==> FreePages(c, live) == 0
  {
    hide Pow2, WellPlaced;
    if b: Block :| b.size == PAGE_SIZE && Available(c, live, b) {
      var p := IsPageAt(c, b);
      assert p in FreePageSet(c, live);
    }
    if p :| p in FreePageSet(c, live) {
      assert PageAt(c, p).size == PAGE_SIZE;
    }
  }

  /** The block is the n pages from page q on. */
  ghost predicate Spans(c: Config, b: Block, q: nat, n: nat)
  {
    b == Block(c.start + q * PAGE_SIZE, n * PAGE_SIZE)
  }

  lemma BlockSpans(c: Config, b: Block) returns (q: nat, n: nat)
    requires ValidConfig(c) && WellPlaced(c, b)
    ensures Spans(c, b, q, n) && q + n <= Pow2(c.high - PAGE_ORDER)
  {
    hide Pow2, Shl, WellPlaced;
    var k, p := PartsOfBlock(c, b);
    var twelve := TwelveIs();
    q, n := Shl(p, k - twelve), Pow2(k - twelve);
    ShlSplit(p, k - twelve, twelve);
    ShlIsMul(q, twelve);
    Pow2Sum(k - twelve, twelve);
    CellInside(c.high - k, k - twelve, p);
  }

  lemma PagePlaced(c: Config, p: nat)
    requires ValidConfig(c) && p < Pow2(c.high - PAGE_ORDER)
    ensures WellPlaced(c, PageAt(c, p))
  {
    hide Pow2, Shl;
    var twelve := TwelveIs();
    ShlIsMul(p, twelve);
    PartsArePlaced(c, twelve, p);
  }

  lemma PageInSpan(c: Config, b: Block, q: nat, n: nat, p: nat)
    requires Spans(c, b, q, n) && n > 0
    ensures Disjoint(b, PageAt(c, p)) <==> !(q <= p < q + n)
  {
  }

  /** Handing out a block leaves its pages less. */
  lemma BlockTaken(c: Config, live: set<Block>, b: Block)
    requires ValidConfig(c) && Available(c, live, b)
    ensures FreePages(c, live + {b}) == FreePages(c, live) - b.size / PAGE_SIZE
  {
    var q, n := BlockSpans(c, b);
    SpanNotEmpty(c, b, n, q);
    hide Pow2, WellPlaced, ValidConfig;
    forall p | p in Interval(q, n)
      ensures p in FreePageSet(c, live)
    {
      PageInside(c, live, b, q, n, p);
    }
    forall p: nat
      ensures Disjoint(b, PageAt(c, p)) <==> p !in Interval(q, n)
    {
      PageInSpan(c, b, q, n, p);
    }
    assert FreePageSet(c, live + {b}) == FreePageSet(c, live) - Interval(q, n);
    IntervalSize(q, n);
  }

  lemma SpanNotEmpty(c: Config, b: Block, n: nat, q: nat)
    requires ValidConfig(c) && WellPlaced(c, b) && Spans(c, b, q, n)
    ensures n > 0 && b.size / PAGE_SIZE == n && c.high >= PAGE_ORDER
  {
    RootIsWhole(c, b);
  }

  lemma PageInside(c: Config, live: set<Block>, b: Block, q: nat, n: nat, p: nat)
    requires ValidConfig(c) && Available(c, live, b) && Spans(c, b, q, n) && q <= p < q + n <= Pow2(c.high - PAGE_ORDER)
    ensures p in FreePageSet(c, live)
  {
    hide Pow2, WellPlaced;
    PagePlaced(c, p);
    forall a | a in live
      ensures Disjoint(a, PageAt(c, p))
    {
      assert Disjoint(a, b);
    }
  }

  /** Handing out a page leaves one less. */
  lemma PageTaken(c: Config, live: set<Block>, b: Block)
    requires ValidConfig(c) && Available(c, live, b) && b.size == PAGE_SIZE
    ensures FreePages(c, live + {b}) == FreePages(c, live) - 1
  {
    BlockTaken(c, live, b);
  }

  /** The shadow vector is granted eight pages. */
  lemma ShadowRounds()
    ensures Rounded(1024 * FIXED_VEC_BYTES) == 8 * PAGE_SIZE
  {
    var n := 1024 * FIXED_VEC_BYTES;
    var k := FifteenIs();
    hide Pow2, Rounded;
    RoundedIsLeast(n);
    assert Rounded(n) <= Pow2(k);
    var j: nat :| Rounded(n) == Pow2(j);
    if j < k { Pow2Monotone(j, k - 1); }
    if j > k { Pow2Monotone(k, j); }
  }

  lemma FifteenIs() returns (k: nat)
    ensures k > 0 && Pow2(k) == 8 * PAGE_SIZE && Pow2(k - 1) == 4 * PAGE_SIZE
  {
    k := 15;
    Pow2Constants();
    Pow2Sum(12, 3);
    assert Pow2(3) == 8;
  }

  /** A zeroed live page no table owns can become the root of a new table. */
  lemma NewTableCoherent(live: set<Block>, ram: Ram, tables: seq<Table>, leaves: seq<map<nat, nat>>, root: nat)
    requires Coherent(live, ram, tables, leaves)
    requires Block(root, PAGE_SIZE) in live && PageAligned(root)
    requires forall u :: 0 <= u < |tables| ==> !Owns(tables[u], root)
    requires forall w :: 0 <= w < 1024 ==> Entry(ram, root, w) == 0
    ensures Coherent(live, ram, tables + [Table(root, map[])], leaves + [map[]])
  {
    EmptyTable(ram, root);
    var t := Table(root, map[]);
    assert forall page :: Owns(t, page) ==> page == root;
  }

  lemma LargerLive(live: set<Block>, after: set<Block>, ram: Ram, tables: seq<Table>, leaves: seq<map<nat, nat>>)
    requires Coherent(live, ram, tables, leaves) && live <= after && FreeIsZero(after, ram)
    ensures Coherent(after, ram, tables, leaves)
  {
  }

  lemma StoreInBlock(live: set<Block>, ram: Ram, page: nat, w: nat, word: nat)
    requires FreeIsZero(live, ram) && Block(page, PAGE_SIZE) in live && w < 1024
    ensures FreeIsZero(live, Store(ram, page + 4 * w, word))
  {
    var ram' := Store(ram, page + 4 * w, word);
    forall a | Load(ram', a) != 0
      ensures exists b :: b in live && Covers(b, a)
    {
      if a == page + 4 * w {
        assert Covers(Block(page, PAGE_SIZE), a);
      } else {
        assert Load(ram, a) != 0;
      }
    }
  }

  /** Hanging a fresh page into table t keeps everything coherent. */
  lemma SecondCoherent(live: set<Block>, ram: Ram, tables: seq<Table>, leaves: seq<map<nat, nat>>,
                       t: nat, v: nat, page: nat)
    requires Coherent(live, ram, tables, leaves) && t < |tables|
    requires v < 1024 && v !in tables[t].second
    requires PageAligned(page) && Block(page, PAGE_SIZE) in live
    requires forall u :: 0 <= u < |tables| ==> !Owns(tables[u], page)
    requires forall w :: 0 <= w < 1024 ==> Entry(ram, page, w) == 0
    ensures var more := tables[t].(second := tables[t].second[v := page]);
            Coherent(live, Store(ram, tables[t].root + 4 * v, PointerPte(page)), tables[t := more], leaves)
  {
    var root := tables[t].root;
    var more := tables[t].(second := tables[t].second[v := page]);
    assert Owns(tables[t], root);
    StoreInBlock(live, ram, root, v, PointerPte(page));
    SecondBacked(live, tables[t], v, page);
    SecondHolds(ram, tables, leaves, t, v, page);
    hide Holds, Owns, Backed, FreeIsZero, NoSharedPage;
    forall u | 0 <= u < |tables| && u != t
      ensures NoSharedPage(tables[u], more) && NoSharedPage(more, tables[u])
    {
      StillApart(tables, t, u, v, page);
    }
  }

  lemma SecondBacked(live: set<Block>, t: Table, v: nat, page: nat)
    requires Backed(live, t) && v !in t.second && Block(page, PAGE_SIZE) in live
    ensures Backed(live, t.(second := t.second[v := page]))
  {
    OwnsAfter(t, v, page);
    hide Owns;
  }

  lemma SecondHolds(ram: Ram, tables: seq<Table>, leaves: seq<map<nat, nat>>, t: nat, v: nat, page: nat)
    requires |tables| == |leaves| && t < |tables|
    requires forall u :: 0 <= u < |tables| ==> Holds(ram, tables[u], leaves[u])
    requires forall t, u :: 0 <= t < u < |tables| ==> NoSharedPage(tables[t], tables[u])
    requires v < 1024 && v !in tables[t].second
    requires PageAligned(page) && forall u :: 0 <= u < |tables| ==> !Owns(tables[u], page)
    requires forall w :: 0 <= w < 1024 ==> Entry(ram, page, w) == 0
    ensures var more := tables[t].(second := tables[t].second[v := page]);
            forall u :: 0 <= u < |tables| ==>
              Holds(Store(ram, tables[t].root + 4 * v, PointerPte(page)), tables[t := more][u], leaves[u])
  {
    var root := tables[t].root;
    var ram' := Store(ram, root + 4 * v, PointerPte(page));
    AddSecond(ram, tables[t], leaves[t], v, page);
    assert Owns(tables[t], root) && root % PAGE_SIZE == 0;
    hide Holds, Owns, Store, NoSharedPage, Entry, PointerPte;
    forall u | 0 <= u < |tables| && u != t
      ensures Holds(ram', tables[u], leaves[u])
    {
      OwnedByOne(tables, t, u, root);
      WriteElsewhere(ram, tables[u], leaves[u], root, v, PointerPte(page));
    }
  }

  lemma StillApart(tables: seq<Table>, t: nat, u: nat, v: nat, page: nat)
    requires forall t, u :: 0 <= t < u < |tables| ==> NoSharedPage(tables[t], tables[u])
    requires t < |tables| && u < |tables| && t != u
    requires v !in tables[t].second && !Owns(tables[u], page)
    ensures var more := tables[t].(second := tables[t].second[v := page]);
            NoSharedPage(tables[u], more) && NoSharedPage(more, tables[u])
  {
    OwnsAfter(tables[t], v, page);
    hide Owns;
    forall p | Owns(tables[t], p)
      ensures !Owns(tables[u], p)
    {
      OwnedByOne(tables, t, u, p);
    }
  }

  lemma OwnedByOne(tables: seq<Table>, t: nat, u: nat, page: nat)
    requires forall t, u :: 0 <= t < u < |tables| ==> NoSharedPage(tables[t], tables[u])
    requires t < |tables| && u < |tables| && t != u && Owns(tables[t], page)
    ensures !Owns(tables[u], page)
  {
    if u < t { assert NoSharedPage(tables[u], tables[t]); } else { assert NoSharedPage(tables[t], tables[u]); }
  }

  /** Writing a leaf entry of table t keeps everything coherent. */
  lemma LeafCoherent(live: set<Block>, ram: Ram, tables: seq<Table>, leaves: seq<map<nat, nat>>,
                     t: nat, v: nat, w: nat, pte: nat)
    requires Coherent(live, ram, tables, leaves) && t < |tables|
    requires v in tables[t].second && w < 1024
    ensures Coherent(live, Store(ram, tables[t].second[v] + 4 * w, pte), tables,
                     leaves[t := Put(leaves[t], v * 1024 + w, pte)])
  {
    var page := tables[t].second[v];
    assert Owns(tables[t], page);
    StoreInBlock(live, ram, page, w, pte);
    LeafHolds(ram, tables, leaves, t, v, w, pte);
    hide Holds, Owns, Backed, FreeIsZero, NoSharedPage, Put, Store;
  }

  lemma LeafHolds(ram: Ram, tables: seq<Table>, leaves: seq<map<nat, nat>>, t: nat, v: nat, w: nat, pte: nat)
    requires |tables| == |leaves| && t < |tables|
    requires forall u :: 0 <= u < |tables| ==> Holds(ram, tables[u], leaves[u])
    requires forall t, u :: 0 <= t < u < |tables| ==> NoSharedPage(tables[t], tables[u])
    requires v in tables[t].second && w < 1024
    ensures forall u :: 0 <= u < |tables| ==>
              Holds(Store(ram, tables[t].second[v] + 4 * w, pte), tables[u],
                    leaves[t := Put(leaves[t], v * 1024 + w, pte)][u])
  {
    var page := tables[t].second[v];
    var ram' := Store(ram, page + 4 * w, pte);
    SetLeaf(ram, tables[t], leaves[t], v, w, pte);
    assert Owns(tables[t], page) && page % PAGE_SIZE == 0;
    hide Holds, Owns, Store, NoSharedPage, Put;
    forall u | 0 <= u < |tables| && u != t
      ensures Holds(ram', tables[u], leaves[u])
    {
      OwnedByOne(tables, t, u, page);
      WriteElsewhere(ram, tables[u], leaves[u], page, w, pte);
    }
  }

  lemma TooLarge(c: Config, live: set<Block>, n: nat)
    requires ValidConfig(c) && n > Pow2(c.high)
    ensures forall b: Block :: b.size == Rounded(n) ==> !Available(c, live, b)
  {
    forall b: Block | b.size == Rounded(n) && Available(c, live, b)
      ensures false
    {
      RoundedIsLeast(n);
      RootIsWhole(c, b);
    }
  }

  /** `(addr / PAGE_SIZE) << 10 | PAGE_V` is the pointer entry of the page. */
  lemma PointerPteBits(page: nat)
    requires PageAligned(page)
    ensures Or(Shl(page / PAGE_SIZE, 10), PAGE_V) == PointerPte(page)
  {
    var ten := TenIs();
    ShlIsMul(page / PAGE_SIZE, ten);
    OrDisjoint(page / PAGE_SIZE, PAGE_V, ten);
  }

  /** The V bit of a root entry tells whether the second-level table exists. */
  lemma RootEntryIsValid(live: set<Block>, ram: Ram, tables: seq<Table>, leaves: seq<map<nat, nat>>, t: nat, v: nat)
    requires Coherent(live, ram, tables, leaves) && t < |tables| && v < 1024
    ensures |tables| == |leaves|
    ensures And(Entry(ram, tables[t].root, v), PAGE_V) == 0 <==> v !in tables[t].second
  {
    assert Holds(ram, tables[t], leaves[t]);
    var pte := Entry(ram, tables[t].root, v);
    AndOne(pte);
    if v in tables[t].second { PointerIsPointer(tables[t].second[v]); }
  }

  /** Table t has a second level under root index v, and nothing else was added. */
  ghost predicate SecondAdded(tables: seq<Table>, after: seq<Table>, t: nat, v: nat)
  {
    && t < |tables| == |after|
    && after[t].second.Keys == tables[t].second.Keys + {v}
    && forall u :: 0 <= u < |tables| && u != t ==> after[u] == tables[u]
  }

  /** One `map_page` call. */
  datatype Call = Call(table: nat, va: nat, pa: nat, flags: nat)

  /** The entry the last of the calls gave a page of a table, or what it had before. */
  function LastMapping(calls: seq<Call>, t: nat, vpn: nat, before: nat): nat
  {
    if calls == [] then before
    else
      var c := calls[|calls| - 1];
      if c.table == t && Vpn(c.va) == vpn then LeafPte(c.pa, c.flags)
      else LastMapping(calls[..|calls| - 1], t, vpn, before)
  }

  ghost predicate CallsOk(calls: seq<Call>, tables: seq<Table>)
  {
    forall i :: 0 <= i < |calls| ==>
      calls[i].table < |tables| && calls[i].va < WORD && calls[i].pa < WORD && calls[i].flags < WORD
  }

  predicate Aligned(call: Call)
  {
    call.va % PAGE_SIZE == 0 && call.pa % PAGE_SIZE == 0
  }

  /** The second levels, by table and root index, that the calls need and the tables lack. */
  ghost function NewSeconds(calls: seq<Call>, tables: seq<Table>): set<(nat, nat)>
    requires CallsOk(calls, tables)
  {
    set i | 0 <= i < |calls| && Vpn1(calls[i].va) !in tables[calls[i].table].second
          :: (calls[i].table, Vpn1(calls[i].va))
  }

  lemma NewSecondsStep(calls: seq<Call>, tables: seq<Table>, i: nat)
    requires CallsOk(calls, tables) && i < |calls|
    ensures CallsOk(calls[..i], tables) && CallsOk(calls[..i + 1], tables)
    ensures var key := (calls[i].table, Vpn1(calls[i].va));
            NewSeconds(calls[..i + 1], tables) == NewSeconds(calls[..i], tables)
              + if Vpn1(calls[i].va) in tables[calls[i].table].second then {} else {key}
    ensures NewSeconds(calls[..i + 1], tables) <= NewSeconds(calls, tables)
  {
    hide Vpn1;
    var more, less := NewSeconds(calls[..i + 1], tables), NewSeconds(calls[..i], tables);
    forall x | x in less
      ensures x in more
    {
      var k :| 0 <= k < i && Vpn1(calls[..i][k].va) !in tables[calls[..i][k].table].second
               && x == (calls[..i][k].table, Vpn1(calls[..i][k].va));
      assert calls[..i + 1][k] == calls[..i][k];
    }
    assert calls[..i + 1][i] == calls[i];
    forall x | x in more
      ensures x in NewSeconds(calls, tables)
      ensures x in less || x == (calls[i].table, Vpn1(calls[i].va))
    {
      var k :| 0 <= k <= i && Vpn1(calls[..i + 1][k].va) !in tables[calls[..i + 1][k].table].second
               && x == (calls[..i + 1][k].table, Vpn1(calls[..i + 1][k].va));
      assert calls[k] == calls[..i + 1][k];
      if k < i { assert calls[..i][k] == calls[k]; }
    }
  }

  lemma {:induction false} SubsetSmaller<T>(a: set<T>, b: set<T>)
    requires a <= b
    ensures |a| <= |b|
  {
    if x :| x in a {
      SubsetSmaller(a - {x}, b - {x});
    }
  }

  /** The second levels after some calls: those there were and those the calls needed. */
  ghost predicate SecondsAfter(tables: seq<Table>, added: set<(nat, nat)>, after: seq<Table>)
  {
    && |after| == |tables|
    && forall t, v :: 0 <= t < |tables| ==> (v in after[t].second <==> v in tables[t].second || (t, v) in added)
  }

  /** What one more call does to the second levels and the pages left. */
  lemma SecondsStep(tables: seq<Table>, calls: seq<Call>, i: nat, before: seq<Table>, after: seq<Table>)
    requires CallsOk(calls, tables) && i < |calls| && CallsOk(calls[..i], tables)
    requires SecondsAfter(tables, NewSeconds(calls[..i], tables), before)
    requires SecondAdded(before, after, calls[i].table, Vpn1(calls[i].va))
    ensures CallsOk(calls[..i + 1], tables) && SecondsAfter(tables, NewSeconds(calls[..i + 1], tables), after)
    ensures |NewSeconds(calls[..i + 1], tables)|
            == |NewSeconds(calls[..i], tables)| + if Vpn1(calls[i].va) in before[calls[i].table].second then 0 else 1
    ensures |NewSeconds(calls[..i + 1], tables)| <= |NewSeconds(calls, tables)|
  {
    NewSecondsStep(calls, tables, i);
    hide NewSeconds, Vpn1, SecondsAfter, SecondAdded, CallsOk;
    SubsetSmaller(NewSeconds(calls[..i + 1], tables), NewSeconds(calls, tables));
    OneMoreSecond(tables, NewSeconds(calls[..i], tables), before, after, calls[i].table, Vpn1(calls[i].va));
  }

  lemma OneMoreSecond(tables: seq<Table>, added: set<(nat, nat)>, before: seq<Table>, after: seq<Table>, t: nat, v: nat)
    requires SecondsAfter(tables, added, before) && SecondAdded(before, after, t, v)
    ensures t < |tables| == |before|
    ensures var more := added + if v in tables[t].second then {} else {(t, v)};
            SecondsAfter(tables, more, after) && |more| == |added| + if v in before[t].second then 0 else 1
  {
    assert added + {} == added;
    assert (t, v) in added ==> added + {(t, v)} == added;
    forall u, w | 0 <= u < |tables|
      ensures w in after[u].second <==> w in before[u].second || (u == t && w == v)
    {
      assert w in after[t].second <==> w in after[t].second.Keys;
    }
  }

  lemma NoCalls(calls: seq<Call>, tables: seq<Table>)
    ensures CallsOk(calls[..0], tables) && NewSeconds(calls[..0], tables) == {}
    ensures SecondsAfter(tables, NewSeconds(calls[..0], tables), tables)
  {
  }

  /** A call that needs a second level needs one more than the calls before it. */
  lemma NoneLeft(tables: seq<Table>, calls: seq<Call>, i: nat, before: seq<Table>)
    requires CallsOk(calls, tables) && i < |calls| && CallsOk(calls[..i], tables)
    requires SecondsAfter(tables, NewSeconds(calls[..i], tables), before)
    requires Vpn1(calls[i].va) !in before[calls[i].table].second
    ensures |NewSeconds(calls[..i], tables)| < |NewSeconds(calls, tables)|
  {
    NewSecondsStep(calls, tables, i);
    hide NewSeconds, Vpn1;
    SubsetSmaller(NewSeconds(calls[..i + 1], tables), NewSeconds(calls, tables));
  }

  /** How many second levels are missing for n bytes from base on. */
  ghost function Missing(base: nat, n: nat, had: set<nat>): nat
  {
    |RegionKeys(base, n) - had|
  }

  /** The root indexes once n bytes from base on are mapped. */
  ghost function KeysWith(had: set<nat>, base: nat, n: nat): set<nat>
  {
    had + RegionKeys(base, n)
  }

  /** An empty table lacks all of them. */
  lemma AllMissing(base: nat, n: nat, had: set<nat>)
    requires had == {}
    ensures Missing(base, n, had) == Regions(base, n)
  {
    RegionCount(base, n);
    hide RegionKeys, Regions;
    assert RegionKeys(base, n) - had == RegionKeys(base, n);
  }

  lemma NothingResolves()
    ensures forall va :: 0 <= va ==> Resolve(map[], va) == PageFault
  {
  }

  lemma NothingMissing(base: nat, had: set<nat>)
    ensures Missing(base, 0, had) == 0 && KeysWith(had, base, 0) == had
  {
    NoRegions(base);
    hide RegionKeys;
    assert {} - had == {};
  }

  /** How the number of missing second levels grows with the range. */
  lemma MissingStep(base: nat, n: nat, all: nat, had: set<nat>)
    requires base % PAGE_SIZE == 0 && n % PAGE_SIZE == 0 && n + PAGE_SIZE <= all
    ensures KeysWith(had, base, n) + {Vpn1(base + n)} == KeysWith(had, base, n + PAGE_SIZE)
    ensures Missing(base, n + PAGE_SIZE, had)
            == Missing(base, n, had) + if Vpn1(base + n) in KeysWith(had, base, n) then 0 else 1
    ensures Missing(base, n + PAGE_SIZE, had) <= Missing(base, all, had)
  {
    hide RegionKeys, Regions, Vpn1;
    RegionStep(base, n);
    KeysAre(base, n + PAGE_SIZE);
    KeysAre(base, all);
    RegionsGrow(base, n + PAGE_SIZE, all);
    var less, v := RegionKeys(base, n), Vpn1(base + n);
    if v in had + less {
      assert (less + {v}) - had == less - had;
    } else {
      assert (less + {v}) - had == (less - had) + {v};
    }
    assert RegionKeys(base, n + PAGE_SIZE) <= RegionKeys(base, all);
    SubsetSmaller(RegionKeys(base, n + PAGE_SIZE) - had, RegionKeys(base, all) - had);
  }

  class AddressSpaces {
    const mem: Memory
    var ram: Ram
    var tables: seq<Table>
    ghost var leaves: seq<map<nat, nat>>

    ghost predicate Valid()
      reads this, mem, mem.meta, mem.stack
    {
      mem.Valid() && Coherent(mem.live, ram, tables, leaves)
    }

    /** No table yet, on RAM that was zeroed at boot. */
    constructor (mem: Memory)
      requires mem.Valid()
      ensures Valid() && this.mem == mem && tables == [] && leaves == []
    {
      this.mem := mem;
      ram := map[];
      tables := [];
      leaves := [];
    }

    /** `FixedVec::new`: memory for the elements, or a panic when there is none. */
    method NewVec(bytes: nat) returns (o: Outcome, base: nat)
      requires Valid() && 0 < bytes <= USIZE_MAX
      modifies mem, mem.meta, mem.stack
      ensures Valid()
      ensures o == Panic <==>
              || bytes > ISIZE_MAX
              || forall b: Block :: b.size == Rounded(bytes) ==> !Available(mem.cfg, old(mem.live), b)
      ensures o == Panic ==> mem.live == old(mem.live)
      ensures o == Done ==>
                && FirstFit(mem.cfg, old(mem.live), Rounded(bytes), Block(base, Rounded(bytes)))
                && mem.live == old(mem.live) + {Block(base, Rounded(bytes))}
                && PageAligned(base)
                && (forall u :: 0 <= u < |tables| ==> !Owns(tables[u], base))
                && (forall w :: 0 <= w < 1024 ==> Entry(ram, base, w) == 0)
    {
      if bytes > ISIZE_MAX { return Panic, 0; }
      ghost var live := mem.live;
      var r := mem.BuddyAlloc(bytes);
      match r {
        case Err(_) =>
          if bytes > mem.memSize { TooLarge(mem.cfg, live, bytes); }
          return Panic, 0;
        case Ok(p) =>
          FreshBlock(mem.cfg, live, bytes, p, mem.live, ram);
          LargerLive(live, mem.live, ram, tables, leaves);
          return Done, p.addr;
      }
    }

    /** `PageTable::new`: a root page and the vector of second-level tables. */
    method NewTable() returns (o: Outcome, t: nat)
      requires Valid()
      modifies this, mem, mem.meta, mem.stack
      ensures Valid()
      ensures o == Done <==> exists b, v: Block ::
                && FirstFit(mem.cfg, old(mem.live), PAGE_SIZE, b)
                && v.size == 8 * PAGE_SIZE && Available(mem.cfg, old(mem.live) + {b}, v)
      ensures o == Done ==>
                && t == |old(tables)| && leaves == old(leaves) + [map[]]
                && |tables| == t + 1 && tables[..t] == old(tables) && tables[t].second == map[]
      ensures o == Done ==> FreePages(mem.cfg, mem.live) == FreePages(mem.cfg, old(mem.live)) - TABLE_PAGES
      ensures o == Panic ==> tables == old(tables) && leaves == old(leaves)
      ensures ram == old(ram)
    {
      hide LiveOk, Canonical, ValidConfig, Available, Rounded, Holds, Backed, NoSharedPage, FreeIsZero;
      PageRounds();
      ShadowRounds();
      ghost var live := mem.live;
      var root;
      o, root := NewVec(1024 * 4);
      if o == Panic { return o, 0; }
      OneFirstFit(mem.cfg, live, PAGE_SIZE, Block(root, PAGE_SIZE));
      BlockTaken(mem.cfg, live, Block(root, PAGE_SIZE));
      ghost var rooted := mem.live;
      var shadow;
      o, shadow := NewVec(1024 * FIXED_VEC_BYTES);
      if o == Panic { return o, 0; }
      BlockTaken(mem.cfg, rooted, Block(shadow, Rounded(1024 * FIXED_VEC_BYTES)));
      NewTableCoherent(mem.live, ram, tables, leaves, root);
      t := |tables|;
      tables := tables + [Table(root, map[])];
      leaves := leaves + [map[]];
    }

    /**
     `PageTable::map_page`: it panics exactly on an unaligned address or when a second
     level table is needed and no page is left; otherwise the virtual page now has this
     entry and every other page of every table is as before.
     */
    method MapPage(t: nat, va: nat, pa: nat, flags: nat) returns (o: Outcome)
      requires Valid() && t < |tables|
      requires va < WORD && pa < WORD && flags < WORD
      modifies this, mem, mem.meta, mem.stack
      ensures Valid() && |leaves| == |old(leaves)| == |tables|
      ensures o == Panic <==>
              || va % PAGE_SIZE != 0 || pa % PAGE_SIZE != 0
              || (Vpn1(va) !in old(tables)[t].second && FreePages(mem.cfg, old(mem.live)) == 0)
      ensures o == Panic ==> tables == old(tables) && leaves == old(leaves) && ram == old(ram)
      ensures o == Done ==> leaves == old(leaves)[t := Put(old(leaves)[t], Vpn(va), LeafPte(pa, flags))]
      ensures o == Done ==> SecondAdded(old(tables), tables, t, Vpn1(va))
      ensures o == Done ==> FreePages(mem.cfg, mem.live) == FreePages(mem.cfg, old(mem.live))
                              - if Vpn1(va) in old(tables)[t].second then 0 else 1
      ensures |tables| == |old(tables)|
      ensures forall u :: 0 <= u < |tables| ==> tables[u].root == old(tables)[u].root
      ensures old(mem.live) <= mem.live
    {
      hide LiveOk, Canonical, ValidConfig, Holds, Backed, NoSharedPage, FreeIsZero, Available, Vpn, Vpn1, Put, LeafPte;
      hide FreePages, SecondAdded;
      if va % PAGE_SIZE != 0 { return Panic; }
      if pa % PAGE_SIZE != 0 { return Panic; }
      o := MapAligned(t, va, LeafPte(pa, flags));
    }

    /** `map_page` after the alignment checks. */
    method MapAligned(t: nat, va: nat, pte: nat) returns (o: Outcome)
      requires Valid() && t < |tables| && va < WORD
      modifies this, mem, mem.meta, mem.stack
      ensures Valid()
      ensures o == Panic <==>
              Vpn1(va) !in old(tables)[t].second && FreePages(mem.cfg, old(mem.live)) == 0
      ensures o == Panic ==> tables == old(tables) && leaves == old(leaves) && ram == old(ram)
      ensures o == Done ==> leaves == old(leaves)[t := Put(old(leaves)[t], Vpn(va), pte)]
      ensures o == Done ==> SecondAdded(old(tables), tables, t, Vpn1(va))
      ensures o == Done ==> FreePages(mem.cfg, mem.live) == FreePages(mem.cfg, old(mem.live))
                              - if Vpn1(va) in old(tables)[t].second then 0 else 1
      ensures |tables| == |old(tables)| == |leaves|
      ensures forall u :: 0 <= u < |tables| ==> tables[u].root == old(tables)[u].root
      ensures old(mem.live) <= mem.live
    {
      hide LiveOk, Canonical, ValidConfig, Coherent, Available, Pow2;
      hide And, LeafPte, Put, Vpn, Vpn1, RootIndex, LeafIndex, Entry, FreePages;
      IndexesSplit(va);
      var v, w := RootIndex(va), LeafIndex(va);
      RootEntryIsValid(mem.live, ram, tables, leaves, t, v);
      o := Done;
      if And(Entry(ram, tables[t].root, v), PAGE_V) == 0 {
        o := AddSecondLevel(t, v);
      }
      if o == Done {
        WriteLeaf(t, v, w, pte);
      }
    }

    /** The write through the shadow that ends `map_page`. */
    method WriteLeaf(t: nat, v: nat, w: nat, pte: nat)
      requires Valid() && t < |tables| && v in tables[t].second && w < 1024
      modifies this`ram, this`leaves
      ensures Valid() && leaves == old(leaves)[t := Put(old(leaves)[t], v * 1024 + w, pte)]
    {
      hide LiveOk, Canonical, ValidConfig, Holds, Backed, NoSharedPage, FreeIsZero, Owns, Pow2, Store, Put;
      LeafCoherent(mem.live, ram, tables, leaves, t, v, w, pte);
      ram := Store(ram, tables[t].second[v] + 4 * w, pte);
      leaves := leaves[t := Put(leaves[t], v * 1024 + w, pte)];
    }

    /** The branch of `map_page` that creates the second-level table. */
    method AddSecondLevel(t: nat, v: nat) returns (o: Outcome)
      requires Valid() && t < |tables| && v < 1024 && v !in tables[t].second
      modifies this, mem, mem.meta, mem.stack
      ensures Valid() && leaves == old(leaves) && old(mem.live) <= mem.live
      ensures o == Panic <==> FreePages(mem.cfg, old(mem.live)) == 0
      ensures o == Panic ==> tables == old(tables) && ram == old(ram)
      ensures o == Done ==> SecondAdded(old(tables), tables, t, v)
      ensures o == Done ==> FreePages(mem.cfg, mem.live) == FreePages(mem.cfg, old(mem.live)) - 1
      ensures o == Done ==> forall u :: 0 <= u < |tables| ==> tables[u].root == old(tables)[u].root
    {
      PageRounds();
      PageLeftIff(mem.cfg, mem.live);
      var page;
      o, page := NewVec(1024 * 4);
      if o == Panic { return; }
      PageTaken(mem.cfg, old(mem.live), Block(page, PAGE_SIZE));
      // Assigning the slot drops the zeroed placeholder, whose size is None.
      var dropped := mem.BuddyFree(PhysAddr(0, None));
      HangSecond(t, v, page);
    }

    method HangSecond(t: nat, v: nat, page: nat)
      requires Valid() && t < |tables| && v < 1024 && v !in tables[t].second
      requires PageAligned(page) && Block(page, PAGE_SIZE) in mem.live
      requires forall u :: 0 <= u < |tables| ==> !Owns(tables[u], page)
      requires forall w :: 0 <= w < 1024 ==> Entry(ram, page, w) == 0
      modifies this`ram, this`tables
      ensures Valid() && tables == old(tables)[t := old(tables)[t].(second := old(tables)[t].second[v := page])]
    {
      hide LiveOk, Canonical, ValidConfig, Holds, Backed, NoSharedPage, FreeIsZero, Owns;
      hide Pow2, Store, Entry, Shl, Or, PointerPte;
      SecondCoherent(mem.live, ram, tables, leaves, t, v, page);
      var root := tables[t].root;
      tables := tables[t := tables[t].(second := tables[t].second[v := page])];
      PointerPteBits(page);
      ram := Store(ram, root + 4 * v, Or(Shl(page / PAGE_SIZE, 10), PAGE_V));
    }

    /**
     Any sequence of `map_page` calls on any of the tables.  None panics exactly when all
     addresses are aligned and there is a free page for every second level they need;
     then the hardware walk of every table sends every address where the last call for
     its page put it.
     */
    method MapAll(calls: seq<Call>) returns (o: Outcome)
      requires Valid() && CallsOk(calls, tables)
      modifies this, mem, mem.meta, mem.stack
      ensures Valid() && |tables| == |old(tables)|
      ensures o == Done <==>
              && (forall i :: 0 <= i < |calls| ==> Aligned(calls[i]))
              && |NewSeconds(calls, old(tables))| <= FreePages(mem.cfg, old(mem.live))
      ensures o == Done ==> forall t, va :: 0 <= t < |tables| && 0 <= va < WORD ==>
                Translate(ram, tables[t].root, va)
                == LeafWalk(LastMapping(calls, t, Vpn(va), Leaf(old(leaves)[t], Vpn(va))), va)
    {
      hide LiveOk, Canonical, ValidConfig, Holds, Backed, NoSharedPage, FreeIsZero, Available, Pow2, LeafPte, Translate;
      hide NewSeconds, SecondsAfter, SecondAdded, FreePages, Vpn1;
      ghost var before, start := leaves, tables;
      NoCalls(calls, start);
      for i := 0 to |calls|
        invariant Valid() && |tables| == |start| && |before| == |leaves| && CallsOk(calls[..i], start)
        invariant forall k :: 0 <= k < i ==> Aligned(calls[k])
        invariant SecondsAfter(start, NewSeconds(calls[..i], start), tables)
        invariant FreePages(mem.cfg, mem.live) == FreePages(mem.cfg, old(mem.live)) - |NewSeconds(calls[..i], start)|
        invariant forall t, vpn :: 0 <= t < |tables| && 0 <= vpn ==>
                    Leaf(leaves[t], vpn) == LastMapping(calls[..i], t, vpn, Leaf(before[t], vpn))
      {
        ghost var seconds := tables;
        o := MapPage(calls[i].table, calls[i].va, calls[i].pa, calls[i].flags);
        if o == Panic {
          if Aligned(calls[i]) { NoneLeft(start, calls, i, seconds); }
          return;
        }
        SecondsStep(start, calls, i, seconds, tables);
        assert calls[..i + 1][..i] == calls[..i];
      }
      assert calls[..|calls|] == calls;
      forall t, va | 0 <= t < |tables| && 0 <= va < WORD
        ensures Translate(ram, tables[t].root, va)
                == LeafWalk(LastMapping(calls, t, Vpn(va), Leaf(before[t], Vpn(va))), va)
      {
        WalkFindsMappings(ram, tables[t], leaves[t], va);
      }
      return Done;
    }

    /**
     The identity map of `create_process`.  It panics exactly when there are fewer free
     pages than second levels missing for the range; otherwise the walk takes every
     address from `base` to `end` to itself, readable, writable and executable but not
     for user mode, and no other page of any table has changed.
     */
    method IdentityMap(t: nat, base: nat, end: nat) returns (o: Outcome)
      requires Valid() && t < |tables|
      requires base % PAGE_SIZE == 0 && end % PAGE_SIZE == 0 && base <= end <= WORD - PAGE_SIZE
      modifies this, mem, mem.meta, mem.stack
      ensures Valid() && |tables| == |old(tables)|
      ensures o == Done <==>
              Missing(base, end - base, old(tables)[t].second.Keys) <= FreePages(mem.cfg, old(mem.live))
      ensures o == Done ==>
                forall va :: base <= va < end ==>
                  Translate(ram, tables[t].root, va) == Mapped(va, PAGE_V + PAGE_R + PAGE_W + PAGE_X)
      ensures o == Done ==> forall u, va :: 0 <= u < |tables| && 0 <= va < WORD && !(u == t && base <= va < end) ==>
                Translate(ram, tables[u].root, va) == Resolve(old(leaves)[u], va)
    {
      hide LiveOk, Canonical, ValidConfig, Holds, Backed, NoSharedPage, FreeIsZero, Available, Pow2;
      hide LeafPte, Translate, Resolve, IdentityBelow, Or, Put, FreePages, Missing;
      ghost var before := leaves;
      o := MapRange(t, base, end);
      if o == Panic { return; }
      forall u, va | 0 <= u < |tables| && 0 <= va < WORD
        ensures Translate(ram, tables[u].root, va)
                == if u == t && base <= va < end then Mapped(va, PAGE_V + PAGE_R + PAGE_W + PAGE_X)
                   else Resolve(before[u], va)
      {
        WalkFindsMappings(ram, tables[u], leaves[u], va);
        IdentityResolves(leaves[t], before[t], base, end, va);
      }
    }

    /**
     The page tables of `create_process`: a new table with the kernel range mapped to
     itself.  It panics exactly when a new table cannot be had or too few pages are left
     for its second levels.  Afterwards the walk of the new table takes the kernel range
     to itself without U and faults everywhere else, and all other tables are as before.
     */
    method CreateSpace(base: nat, end: nat) returns (o: Outcome, t: nat)
      requires Valid()
      requires base % PAGE_SIZE == 0 && end % PAGE_SIZE == 0 && base <= end <= WORD - PAGE_SIZE
      modifies this, mem, mem.meta, mem.stack
      ensures Valid()
      ensures o == Done <==>
              && (exists b, v: Block ::
                    && FirstFit(mem.cfg, old(mem.live), PAGE_SIZE, b)
                    && v.size == 8 * PAGE_SIZE && Available(mem.cfg, old(mem.live) + {b}, v))
              && TABLE_PAGES + Regions(base, end - base) <= FreePages(mem.cfg, old(mem.live))
      ensures o == Done ==> t == |old(tables)| && |tables| == t + 1
      ensures o == Done ==> forall va :: 0 <= va < WORD ==>
                Translate(ram, tables[t].root, va)
                == if base <= va < end then Mapped(va, PAGE_V + PAGE_R + PAGE_W + PAGE_X) else PageFault
      ensures o == Done ==> |old(leaves)| == |old(tables)| && forall u, va :: 0 <= u < t && 0 <= va < WORD ==>
                Translate(ram, tables[u].root, va) == Resolve(old(leaves)[u], va)
    {
      hide LiveOk, Canonical, ValidConfig, Holds, Backed, NoSharedPage, FreeIsZero, Available, Pow2;
      hide LeafPte, Translate, Resolve, FreePages, Missing, Regions, FirstFit;
      CoherentLengths(mem.live, ram, tables, leaves);
      o, t := NewTable();
      if o == Panic { return; }
      ghost var before := leaves;
      assert before[..t] == old(leaves);
      AllMissing(base, end - base, tables[t].second.Keys);
      o := IdentityMap(t, base, end);
      NothingResolves();
    }

    /** The loop of the identity map. */
    method MapRange(t: nat, base: nat, end: nat) returns (o: Outcome)
      requires Valid() && t < |tables|
      requires base % PAGE_SIZE == 0 && end % PAGE_SIZE == 0 && base <= end <= WORD - PAGE_SIZE
      modifies this, mem, mem.meta, mem.stack
      ensures Valid() && |tables| == |old(tables)| == |leaves| == |old(leaves)|
      ensures o == Done <==>
              Missing(base, end - base, old(tables)[t].second.Keys) <= FreePages(mem.cfg, old(mem.live))
      ensures o == Done ==> IdentityBelow(leaves[t], old(leaves)[t], base, end)
      ensures o == Done ==> forall u :: 0 <= u < |tables| && u != t ==> leaves[u] == old(leaves)[u]
    {
      hide LiveOk, Canonical, ValidConfig, Coherent, Available, Pow2, SecondAdded;
      hide LeafPte, IdentityBelow, Or, Put, FreePages, Missing, KeysWith, Vpn1, Vpn;
      CoherentLengths(mem.live, ram, tables, leaves);
      ghost var before, start := leaves, tables;
      ghost var had := tables[t].second.Keys;
      IdentityNone(leaves[t], base);
      NothingMissing(base, had);
      var at := base;
      ghost var n: nat := 0;
      while at < end
        invariant at == base + n <= end && n % PAGE_SIZE == 0
        invariant Valid() && |tables| == |start| == |before| == |leaves|
        invariant IdentityBelow(leaves[t], before[t], base, at)
        invariant forall u :: 0 <= u < |tables| && u != t ==> leaves[u] == before[u]
        invariant tables[t].second.Keys == KeysWith(had, base, n)
        invariant FreePages(mem.cfg, mem.live) == FreePages(mem.cfg, old(mem.live)) - Missing(base, n, had)
      {
        IdentityStep(leaves[t], before[t], base, at);
        MissingStep(base, n, end - base, had);
        ghost var seconds := tables;
        o := MapPage(t, at, at, Or(Or(PAGE_R, PAGE_W), PAGE_X));
        if o == Panic { return; }
        AddedKeys(seconds, tables, t, Vpn1(at));
        at, n := at + PAGE_SIZE, n + PAGE_SIZE;
      }
      return Done;
    }
  }

  lemma CoherentLengths(live: set<Block>, ram: Ram, tables: seq<Table>, leaves: seq<map<nat, nat>>)
    requires Coherent(live, ram, tables, leaves)
    ensures |tables| == |leaves|
  {
  }

  lemma AddedKeys(tables: seq<Table>, after: seq<Table>, t: nat, v: nat)
    requires SecondAdded(tables, after, t, v)
    ensures t < |tables| == |after| && after[t].second.Keys == tables[t].second.Keys + {v}
  {
  }
}
