/**
 Sv32 address translation, as section 4.3.2 of the RISC-V Privileged Architecture
 (version 1.12) specifies it, over a physical memory of 32-bit words, and what it
 takes for a pair of table levels in that memory to mean a given set of mappings.
 */
module Sv32 {
  import opened Bits
  import opened Orders

  // ---------------------------------------------------------- physical memory

  /** Words by address; an address never written holds zero. */
  type Ram = map<nat, nat>

  function Load(m: Ram, a: nat): nat
  {
    if a in m then m[a] else 0
  }

  function Store(m: Ram, a: nat, w: nat): Ram
  {
    m[a := w]
  }

  /** Word w of the page at physical address `page`. */
  function Entry(m: Ram, page: nat, w: nat): nat
  {
    Load(m, page + 4 * w)
  }

  // ------------------------------------------------- page-table entry encoding

  const PAGE_V: nat := 1
  const PAGE_R: nat := 2
  const PAGE_W: nat := 4
  const PAGE_X: nat := 8
  const PAGE_U: nat := 16

  predicate IsV(pte: nat) { pte % 2 == 1 }

  predicate IsR(pte: nat) { pte / 2 % 2 == 1 }

  predicate IsW(pte: nat) { pte / 4 % 2 == 1 }

  predicate IsX(pte: nat) { pte / 8 % 2 == 1 }

  predicate IsU(pte: nat) { pte / 16 % 2 == 1 }

  function Vpn1(va: nat): nat { va / 0x40_0000 }

  function Vpn0(va: nat): nat { va / PAGE_SIZE % 1024 }

  function Vpn(va: nat): nat { va / PAGE_SIZE }

  // --------------------------------------------------------------- translation

  /** A physical address with the PTE whose low ten bits give the permissions, or a page fault. */
  datatype Walk = PageFault | Mapped(pa: nat, flags: nat)

  /** A leaf entry of the last level, or a fault. */
  function LeafWalk(pte: nat, va: nat): Walk
  {
    if !IsV(pte) || (!IsR(pte) && IsW(pte)) then PageFault
    else if IsR(pte) || IsX(pte) then Mapped(pte / 1024 * PAGE_SIZE + va % PAGE_SIZE, pte % 1024)
    else PageFault
  }

  /** The two-level walk from the root table at physical address `root`. */
  function Translate(m: Ram, root: nat, va: nat): Walk
  {
    var pte := Entry(m, root, Vpn1(va));
    if !IsV(pte) || (!IsR(pte) && IsW(pte)) then PageFault
    else if IsR(pte) || IsX(pte) then
      if pte / 1024 % 1024 != 0 then PageFault
      else Mapped(pte / 1024 * PAGE_SIZE + va % 0x40_0000, pte % 1024)
    else LeafWalk(Entry(m, pte / 1024 * PAGE_SIZE, Vpn0(va)), va)
  }

  // -------------------------------------------------------- what the tables mean

  /** A root page and the second-level pages reached from it, by root index. */
  datatype Table = Table(root: nat, second: map<nat, nat>)

  predicate PageAligned(a: nat)
  {
    a % PAGE_SIZE == 0 && a < WORD
  }

  predicate Owns(t: Table, page: nat)
  {
    page == t.root || exists v :: v in t.second && t.second[v] == page
  }

  /** Distinct, aligned table pages. */
  ghost predicate Shape(t: Table)
  {
    && PageAligned(t.root)
    && (forall v :: v in t.second ==> v < 1024 && PageAligned(t.second[v]) && t.second[v] != t.root)
    && (forall v, w :: v in t.second && w in t.second && v != w ==> t.second[v] != t.second[w])
  }

  /** The PTE of a second-level page: its page number and V alone. */
  function PointerPte(page: nat): nat
  {
    page / PAGE_SIZE * 1024 + PAGE_V
  }

  function Leaf(leaves: map<nat, nat>, vpn: nat): nat
  {
    if vpn in leaves then leaves[vpn] else 0
  }

  /** The leaf entries after giving one virtual page an entry. */
  function Put(leaves: map<nat, nat>, vpn: nat, pte: nat): map<nat, nat>
  {
    leaves[vpn := pte]
  }

  /** The leaf entry under root index v and second-level index w. */
  function LeafAt(leaves: map<nat, nat>, v: nat, w: nat): nat
  {
    Leaf(leaves, v * 1024 + w)
  }

  /**
   The words of the table pages hold exactly the second-level pages of `t` and the
   leaf entries `leaves` (by virtual page number), and zero everywhere else.
   */
  ghost predicate Holds(m: Ram, t: Table, leaves: map<nat, nat>)
  {
    && Shape(t)
    && (forall v :: 0 <= v < 1024 ==>
          Entry(m, t.root, v) == if v in t.second then PointerPte(t.second[v]) else 0)
    && (forall v, w :: v in t.second && 0 <= w < 1024 ==>
          Entry(m, t.second[v], w) == LeafAt(leaves, v, w))
    && (forall p :: p in leaves ==> p / 1024 in t.second)
  }

  /** What a set of leaf entries makes of a virtual address. */
  function Resolve(leaves: map<nat, nat>, va: nat): Walk
  {
    LeafWalk(Leaf(leaves, Vpn(va)), va)
  }

  /** The hardware walk finds exactly the recorded mappings, at every virtual address. */
  lemma WalkFindsMappings(m: Ram, t: Table, leaves: map<nat, nat>, va: nat)
    requires Holds(m, t, leaves) && va < WORD
    ensures Translate(m, t.root, va) == Resolve(leaves, va)
  {
    var v, w := SplitVpn(va);
    if v in t.second {
      PointerIsPointer(t.second[v]);
      assert Entry(m, t.second[v], w) == LeafAt(leaves, v, w);
    } else {
      assert Vpn(va) !in leaves;
      assert Entry(m, t.root, v) == 0;
      assert !IsV(0);
    }
  }

  lemma SplitVpn(va: nat) returns (v: nat, w: nat)
    requires va < WORD
    ensures v == Vpn1(va) < 1024 && w == Vpn0(va) < 1024
    ensures Vpn(va) == v * 1024 + w && Vpn(va) / 1024 == v
  {
    v, w := Vpn1(va), Vpn0(va);
  }

  lemma VpnInjective(v: nat, w: nat, x: nat, y: nat)
    requires w < 1024 && y < 1024
    ensures v * 1024 + w == x * 1024 + y <==> v == x && w == y
    ensures (v * 1024 + w) / 1024 == v
  {
  }

  lemma PointerIsPointer(page: nat)
    requires PageAligned(page)
    ensures var pte := PointerPte(page);
            IsV(pte) && !IsR(pte) && !IsW(pte) && !IsX(pte) && pte / 1024 * PAGE_SIZE == page
  {
    var n := page / PAGE_SIZE;
    assert page == n * PAGE_SIZE;
    var pte := n * 1024 + 1;
    assert pte % 2 == 1 && pte / 2 == n * 512 && pte / 4 == n * 256 && pte / 8 == n * 128;
  }

  // ------------------------------------------------------------ changing tables

  /** Words of different aligned pages, or different words of one page, are apart. */
  lemma WordsApart(p: nat, v: nat, q: nat, w: nat)
    requires p % PAGE_SIZE == 0 && q % PAGE_SIZE == 0 && v < 1024 && w < 1024
    ensures p + 4 * v == q + 4 * w <==> p == q && v == w
  {
  }

  lemma EntryAfterStore(m: Ram, p: nat, v: nat, word: nat, q: nat, w: nat)
    requires p % PAGE_SIZE == 0 && q % PAGE_SIZE == 0 && v < 1024 && w < 1024
    ensures Entry(Store(m, p + 4 * v, word), q, w) == if p == q && v == w then word else Entry(m, q, w)
  {
    WordsApart(p, v, q, w);
  }

  /** Writing one leaf entry maps that page and no other. */
  lemma SetLeaf(m: Ram, t: Table, leaves: map<nat, nat>, v: nat, w: nat, pte: nat)
    requires Holds(m, t, leaves) && v in t.second && w < 1024
    ensures Holds(Store(m, t.second[v] + 4 * w, pte), t, Put(leaves, v * 1024 + w, pte))
  {
    var page := t.second[v];
    hide PointerPte, Store, Load, Entry;
    var m' := Store(m, page + 4 * w, pte);
    var leaves' := Put(leaves, v * 1024 + w, pte);
    forall x | 0 <= x < 1024
      ensures Entry(m', t.root, x) == Entry(m, t.root, x)
    {
      EntryAfterStore(m, page, w, pte, t.root, x);
    }
    forall x, y | x in t.second && 0 <= y < 1024
      ensures Entry(m', t.second[x], y) == LeafAt(leaves', x, y)
    {
      EntryAfterStore(m, page, w, pte, t.second[x], y);
      assert Entry(m, t.second[x], y) == LeafAt(leaves, x, y);
      VpnInjective(x, y, v, w);
    }
    VpnInjective(v, w, v, w);
  }

  lemma NoLeaf(t: Table, leaves: map<nat, nat>, v: nat, w: nat)
    requires forall p :: p in leaves ==> p / 1024 in t.second
    requires v !in t.second && w < 1024
    ensures LeafAt(leaves, v, w) == 0
  {
    VpnInjective(v, w, v, w);
  }

  /** Hanging a fresh zeroed page into the root changes no mapping. */
  lemma AddSecond(m: Ram, t: Table, leaves: map<nat, nat>, v: nat, page: nat)
    requires Holds(m, t, leaves) && v < 1024 && v !in t.second
    requires PageAligned(page) && !Owns(t, page)
    requires forall w :: 0 <= w < 1024 ==> Entry(m, page, w) == 0
    ensures Holds(Store(m, t.root + 4 * v, PointerPte(page)), t.(second := t.second[v := page]), leaves)
  {
    hide PointerPte, Store, Load, Entry, Leaf, LeafAt;
    var pte := PointerPte(page);
    var m' := Store(m, t.root + 4 * v, pte);
    var t' := t.(second := t.second[v := page]);
    forall x | 0 <= x < 1024
      ensures Entry(m', t.root, x) == if x in t'.second then PointerPte(t'.second[x]) else 0
    {
      EntryAfterStore(m, t.root, v, pte, t.root, x);
    }
    forall x, y | x in t'.second && 0 <= y < 1024
      ensures Entry(m', t'.second[x], y) == LeafAt(leaves, x, y)
    {
      EntryAfterStore(m, t.root, v, pte, t'.second[x], y);
      if x != v {
        assert Entry(m, t.second[x], y) == LeafAt(leaves, x, y);
      } else {
        NoLeaf(t, leaves, x, y);
      }
    }
  }

  lemma OwnsAfter(t: Table, v: nat, page: nat)
    requires v !in t.second
    ensures forall p :: Owns(t.(second := t.second[v := page]), p) <==> Owns(t, p) || p == page
  {
    var more := t.(second := t.second[v := page]);
    forall p
      ensures Owns(more, p) <==> Owns(t, p) || p == page
    {
      if Owns(t, p) && p != t.root {
        var x :| x in t.second && t.second[x] == p;
        assert x in more.second && more.second[x] == p;
      }
      if p == page { assert v in more.second && more.second[v] == p; }
    }
  }

  /** A write outside a table's own pages leaves the table as it is. */
  lemma WriteElsewhere(m: Ram, t: Table, leaves: map<nat, nat>, page: nat, w: nat, word: nat)
    requires Holds(m, t, leaves)
    requires page % PAGE_SIZE == 0 && w < 1024 && !Owns(t, page)
    ensures Holds(Store(m, page + 4 * w, word), t, leaves)
  {
    hide PointerPte, Store, Load, Entry, LeafAt;
    var m' := Store(m, page + 4 * w, word);
    forall x | 0 <= x < 1024
      ensures Entry(m', t.root, x) == Entry(m, t.root, x)
    {
      EntryAfterStore(m, page, w, word, t.root, x);
    }
    forall x, y | x in t.second && 0 <= y < 1024
      ensures Entry(m', t.second[x], y) == LeafAt(leaves, x, y)
    {
      EntryAfterStore(m, page, w, word, t.second[x], y);
      assert Entry(m, t.second[x], y) == LeafAt(leaves, x, y);
    }
  }

  /** A zeroed page is an empty table. */
  lemma EmptyTable(m: Ram, root: nat)
    requires PageAligned(root)
    requires forall w :: 0 <= w < 1024 ==> Entry(m, root, w) == 0
    ensures Holds(m, Table(root, map[]), map[])
  {
  }

  // ----------------------------------------------- the kernels' bit manipulation

  /** `vaddr >> 22 & 0x3ff` */
  function RootIndex(va: nat): nat
  {
    And(Shr(va, 22), 0x3ff)
  }

  /** `vaddr >> 12 & 0x3ff` */
  function LeafIndex(va: nat): nat
  {
    And(Shr(va, 12), 0x3ff)
  }

  /** `((paddr / PAGE_SIZE) << 10) | flags | PAGE_V` */
  function LeafPte(pa: nat, flags: nat): nat
  {
    Or(Or(Shl(pa / PAGE_SIZE, 10), flags), PAGE_V)
  }

  /** Ten bits from position k on. */
  lemma TenBits(va: nat, k: nat, p: nat)
    requires p == Pow2(k)
    ensures And(Shr(va, k), 0x3ff) == va / p % 1024
  {
    var ten := TenIs();
    ShrIsDiv(va, k);
    AndMask(Shr(va, k), ten);
    ShrIsDiv(Shr(va, k), ten);
  }

  lemma TenIs() returns (ten: nat)
    ensures Pow2(ten) == 1024 && ten == 10
  {
    ten := 10;
    Pow2Constants();
  }

  lemma IndexesAreVpns(va: nat)
    requires va < WORD
    ensures RootIndex(va) == Vpn1(va) < 1024
    ensures LeafIndex(va) == Vpn0(va) < 1024
  {
    Pow2Constants();
    TenBits(va, 22, 0x40_0000);
    TenBits(va, 12, PAGE_SIZE);
    SmallEnough(va);
  }

  lemma IndexesSplit(va: nat)
    requires va < WORD
    ensures RootIndex(va) == Vpn1(va) < 1024 && LeafIndex(va) < 1024
    ensures Vpn(va) == RootIndex(va) * 1024 + LeafIndex(va)
  {
    hide RootIndex, LeafIndex;
    IndexesAreVpns(va);
    var _, _ := SplitVpn(va);
  }

  lemma SmallEnough(va: nat)
    requires va < WORD
    ensures va / 0x40_0000 % 1024 == Vpn1(va) < 1024
  {
  }

  /** With flags confined to the ten low bits the entry is the page number beside them, V set. */
  lemma LeafPteParts(pa: nat, flags: nat)
    requires PageAligned(pa) && flags < 1024
    ensures LeafPte(pa, flags) == pa / PAGE_SIZE * 1024 + Or(flags, PAGE_V)
    ensures Or(flags, PAGE_V) == (if flags % 2 == 1 then flags else flags + 1) < 1024
  {
    hide Or, Shl, Pow2;
    var n := pa / PAGE_SIZE;
    var ten := TenIs();
    ShlIsMul(n, ten);
    OrDisjoint(n, flags, ten);
    OrOne(flags);
    OrOne(n * 1024 + flags);
  }

  /** A readable page maps each of its bytes to the given frame. */
  lemma LeafPteMaps(pa: nat, flags: nat, va: nat)
    requires PageAligned(pa) && flags < 1024
    requires IsR(flags)
    ensures LeafWalk(LeafPte(pa, flags), va) == Mapped(pa + va % PAGE_SIZE, Or(flags, PAGE_V))
  {
    LeafPteParts(pa, flags);
    ReadableWalk(pa / PAGE_SIZE, flags, Or(flags, PAGE_V), va);
  }

  lemma ReadableWalk(n: nat, flags: nat, f: nat, va: nat)
    requires f == (if flags % 2 == 1 then flags else flags + 1) < 1024
    requires IsR(flags)
    ensures LeafWalk(n * 1024 + f, va) == Mapped(n * PAGE_SIZE + va % PAGE_SIZE, f)
  {
    assert f / 2 == flags / 2;
    LowTen(n, f);
    hide IsW, IsX;
    OddAndReadable(n, f);
  }

  lemma LowTen(n: nat, f: nat)
    requires f < 1024
    ensures (n * 1024 + f) / 1024 == n && (n * 1024 + f) % 1024 == f
  {
  }

  /** V and R of an entry are those of its low bits. */
  lemma OddAndReadable(n: nat, f: nat)
    ensures IsV(n * 1024 + f) <==> IsV(f)
    ensures IsR(n * 1024 + f) <==> IsR(f)
  {
    assert n * 1024 + f == 2 * (n * 512) + f;
    assert (n * 1024 + f) / 2 == 2 * (n * 256) + f / 2;
  }

  // -------------------------------------------------- second levels of a range

  /** The number of second-level tables for n bytes of virtual memory from base on. */
  function Regions(base: nat, n: nat): nat
  {
    if n == 0 then 0 else Vpn1(base + n - 1) - Vpn1(base) + 1
  }

  predicate InRegions(v: nat, base: nat, n: nat)
  {
    Vpn1(base) <= v < Vpn1(base) + Regions(base, n)
  }

  /** Their indexes in the root table. */
  function RegionKeys(base: nat, n: nat): set<nat>
  {
    set v | 0 <= v <= Vpn1(base + n) && InRegions(v, base, n)
  }

  /** One more page needs a second-level table exactly when it opens a region. */
  lemma RegionStep(base: nat, n: nat)
    requires base % PAGE_SIZE == 0 && n % PAGE_SIZE == 0
    ensures RegionKeys(base, n + PAGE_SIZE) == RegionKeys(base, n) + {Vpn1(base + n)}
    ensures Regions(base, n + PAGE_SIZE) == Regions(base, n) + if Vpn1(base + n) in RegionKeys(base, n) then 0 else 1
  {
    SameRegion(base + n);
    if n > 0 { NextRegion(base + n); }
    KeysAre(base, n);
    KeysAre(base, n + PAGE_SIZE);
    hide RegionKeys, Vpn1;
  }

  lemma KeysAre(base: nat, n: nat)
    ensures forall v: nat :: v in RegionKeys(base, n) <==> InRegions(v, base, n)
  {
    if n > 0 { NextRegion(base + n); }
  }

  predicate AtLeast(p: nat, q: nat)
  {
    q <= p
  }

  /** The n numbers from q on. */
  function Interval(q: nat, n: nat): set<nat>
  {
    set p | 0 <= p < q + n && AtLeast(p, q)
  }

  lemma {:induction false} IntervalSize(q: nat, n: nat)
    ensures |Interval(q, n)| == n
  {
    if n > 0 {
      IntervalSize(q, n - 1);
      assert Interval(q, n) == Interval(q, n - 1) + {q + n - 1};
    }
  }

  lemma RegionCount(base: nat, n: nat)
    ensures |RegionKeys(base, n)| == Regions(base, n)
  {
    KeysAre(base, n);
    IntervalSize(Vpn1(base), Regions(base, n));
    hide RegionKeys, Regions;
    assert RegionKeys(base, n) == Interval(Vpn1(base), Regions(base, n));
  }

  lemma NoRegions(base: nat)
    ensures Regions(base, 0) == 0 && RegionKeys(base, 0) == {}
  {
  }

  lemma SameRegion(a: nat)
    requires a % PAGE_SIZE == 0
    ensures Vpn1(a + PAGE_SIZE - 1) == Vpn1(a)
  {
  }

  lemma NextRegion(a: nat)
    requires a > 0
    ensures Vpn1(a - 1) <= Vpn1(a) <= Vpn1(a - 1) + 1
  {
  }

  lemma RegionsGrow(base: nat, n: nat, more: nat)
    requires n <= more
    ensures Regions(base, n) <= Regions(base, more)
  {
  }

  // --------------------------------------------------------- identity mappings

  /** The pages from base up to `at` are mapped to themselves, the others as before. */
  ghost predicate IdentityBelow(leaves: map<nat, nat>, before: map<nat, nat>, base: nat, at: nat)
  {
    forall vpn: nat :: Leaf(leaves, vpn) ==
      if base <= vpn * PAGE_SIZE < at then LeafPte(vpn * PAGE_SIZE, PAGE_R + PAGE_W + PAGE_X) else Leaf(before, vpn)
  }

  lemma IdentityNone(leaves: map<nat, nat>, base: nat)
    ensures IdentityBelow(leaves, leaves, base, base)
  {
  }

  lemma IdentityStep(leaves: map<nat, nat>, before: map<nat, nat>, base: nat, at: nat)
    requires IdentityBelow(leaves, before, base, at) && at % PAGE_SIZE == 0 && base <= at
    ensures Or(Or(PAGE_R, PAGE_W), PAGE_X) == PAGE_R + PAGE_W + PAGE_X
    ensures IdentityBelow(Put(leaves, Vpn(at), LeafPte(at, PAGE_R + PAGE_W + PAGE_X)), before, base, at + PAGE_SIZE)
  {
    RwxBits();
    hide LeafPte, Or;
    var n, pte := at / PAGE_SIZE, LeafPte(at, PAGE_R + PAGE_W + PAGE_X);
    assert at == n * PAGE_SIZE && Vpn(at) == n;
    forall vpn: nat
      ensures Leaf(Put(leaves, n, pte), vpn) ==
        if base <= vpn * PAGE_SIZE < at + PAGE_SIZE then LeafPte(vpn * PAGE_SIZE, PAGE_R + PAGE_W + PAGE_X)
        else Leaf(before, vpn)
    {
      assert Leaf(Put(leaves, n, pte), vpn) == if vpn == n then pte else Leaf(leaves, vpn);
      assert vpn * PAGE_SIZE < at + PAGE_SIZE <==> vpn * PAGE_SIZE < at || vpn == n;
    }
  }

  lemma RwxBits()
    ensures Or(Or(PAGE_R, PAGE_W), PAGE_X) == PAGE_R + PAGE_W + PAGE_X
  {
    assert Or(PAGE_R, PAGE_W) == 6;
    assert Or(6, PAGE_X) == 14;
  }

  lemma IdentityResolves(leaves: map<nat, nat>, before: map<nat, nat>, base: nat, end: nat, va: nat)
    requires IdentityBelow(leaves, before, base, end)
    requires base % PAGE_SIZE == 0 && end % PAGE_SIZE == 0 && va < WORD
    ensures Resolve(leaves, va) ==
            if base <= va < end then Mapped(va, PAGE_V + PAGE_R + PAGE_W + PAGE_X) else Resolve(before, va)
  {
    var vpn := Vpn(va);
    PageOf(base, end, va);
    if base <= va < end {
      LeafPteMaps(vpn * PAGE_SIZE, PAGE_R + PAGE_W + PAGE_X, va);
      OrOne(PAGE_R + PAGE_W + PAGE_X);
    }
  }

  lemma PageOf(base: nat, end: nat, va: nat)
    requires base % PAGE_SIZE == 0 && end % PAGE_SIZE == 0
    ensures base <= Vpn(va) * PAGE_SIZE < end <==> base <= va < end
    ensures Vpn(va) * PAGE_SIZE + va % PAGE_SIZE == va && Vpn(va) * PAGE_SIZE % PAGE_SIZE == 0
  {
  }
}
