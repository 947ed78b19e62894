/**
 Process creation in c/kernel.c: the bump allocator, `map_page` writing page tables
 through physical addresses, and `create_process` with its kernel mapping and image
 loading.  What the new address space means is read off with the Sv32 walk.
 */
module CProcess {
  import opened Bits
  import opened Results
  import opened Sv32
  import opened PageBytes
  import opened CSched

  const KERNEL_BASE: nat := 0x8020_0000
  const FREE_RAM_SIZE: nat := 0x400_0000
  const USER_BASE: nat := 0x100_0000
  const KERNEL_FLAGS: nat := 14
  const USER_FLAGS: nat := 30

  // ------------------------------------------------------- the bump allocator

  /** `next_addr += n * PAGE_SIZE` in 32-bit arithmetic. */
  function Bump(next: nat, n: nat): nat
  {
    (next + n * PAGE_SIZE) % WORD
  }

  /**
   `alloc_pages` lets a request through when the bumped address is below the end of
   free RAM.  The pages it then returns lie in free RAM exactly when the addition did
   not wrap around.
   */
  lemma BumpSoundIffNoWrap(next: nat, n: nat, end: nat)
    requires next <= end < WORD && Bump(next, n) < end
    ensures next + n * PAGE_SIZE < end <==> next + n * PAGE_SIZE < WORD
  {
  }

  /** `memset` of a range to zero; past the last address it goes on at address zero. */
  function ZeroWrapped(m: Ram, start: nat, bytes: nat): Ram
  {
    if start + bytes <= WORD then ZeroRange(m, start, bytes)
    else ZeroRange(ZeroRange(m, start, bytes), 0, start + bytes - WORD)
  }

  /** Word by word: the addresses from start on, counted modulo 2^32, become zero. */
  lemma ZeroWrappedWords(m: Ram, start: nat, bytes: nat, a: nat)
    requires start < WORD && bytes < WORD && a < WORD
    ensures Load(ZeroWrapped(m, start, bytes), a) ==
            if (a + WORD - start) % WORD < bytes then 0 else Load(m, a)
  {
    if a < start { assert (a + WORD - start) % WORD == a + WORD - start; }
    else { assert (a + WORD - start) % WORD == a - start; }
  }

  /** A request large enough to wrap is let through. */
  lemma BumpWraps()
    ensures Bump(0x8040_0000, 0x8_0000) < 0x8440_0000
    ensures 0x8040_0000 + 0x8_0000 * PAGE_SIZE >= WORD
  {
  }

  // -------------------------------------------------- how many pages it takes

  function ImagePages(size: nat): nat
  {
    (size + PAGE_SIZE - 1) / PAGE_SIZE
  }

  function KernelTables(end: nat): nat
  {
    if end <= KERNEL_BASE then 0 else Regions(KERNEL_BASE, end - KERNEL_BASE)
  }

  function ImageTables(size: nat): nat
  {
    Regions(USER_BASE, ImagePages(size) * PAGE_SIZE)
  }

  /** Pages of free RAM a process takes: the root table, second levels for kernel and image, and the image. */
  function PagesNeeded(end: nat, size: nat): nat
  {
    1 + KernelTables(end) + ImagePages(size) + ImageTables(size)
  }

  // ------------------------------------------------------------ address spaces

  /**
   A finished address space: its pages lie between lo and hi; `frames` are the pages
   the image was loaded into.
   */
  datatype Space = Space(lo: nat, hi: nat, table: Table, leaves: map<nat, nat>, frames: seq<nat>, image: seq<nat>)

  ghost predicate Inside(p: nat, lo: nat, hi: nat)
  {
    lo <= p && p + PAGE_SIZE <= hi
  }

  /** Table pages lie in the region and the words of the table mean `leaves`. */
  ghost predicate TableIn(m: Ram, t: Table, leaves: map<nat, nat>, lo: nat, hi: nat)
  {
    Holds(m, t, leaves) && forall p :: Owns(t, p) ==> Inside(p, lo, hi)
  }

  /** The frames lie in the region, are distinct and are not table pages. */
  ghost predicate FramesIn(t: Table, frames: seq<nat>, lo: nat, hi: nat)
  {
    && (forall i :: 0 <= i < |frames| ==> PageAligned(frames[i]) && Inside(frames[i], lo, hi) && !Owns(t, frames[i]))
    && (forall i, j :: 0 <= i < j < |frames| ==> frames[i] != frames[j])
  }

  /** Every page of the region is a table page or a frame: none was taken for nothing. */
  ghost predicate AllUsed(t: Table, frames: seq<nat>, lo: nat, hi: nat)
  {
    forall p: nat :: PageAligned(p) && Inside(p, lo, hi) ==> Owns(t, p) || p in frames
  }

  /** Byte k of a zero-padded image. */
  function Padded(image: seq<nat>, k: nat): nat
  {
    if k < |image| then image[k] else 0
  }

  /** Frame i holds page i of the zero-padded image. */
  ghost predicate FrameLoaded(m: Ram, frames: seq<nat>, image: seq<nat>, i: nat)
    requires i < |frames|
  {
    forall x :: 0 <= x < PAGE_SIZE ==> ByteAt(m, frames[i], x) == Padded(image, i * PAGE_SIZE + x)
  }

  ghost predicate Loaded(m: Ram, frames: seq<nat>, image: seq<nat>)
  {
    forall i :: 0 <= i < |frames| ==> FrameLoaded(m, frames, image, i)
  }

  /** Kernel pages map to themselves, user page i to frame i, and nothing else is mapped. */
  ghost predicate Mappings(leaves: map<nat, nat>, frames: seq<nat>, end: nat)
  {
    forall vpn: nat :: Leaf(leaves, vpn) ==
      if KERNEL_BASE <= vpn * PAGE_SIZE < end then LeafPte(vpn * PAGE_SIZE, KERNEL_FLAGS)
      else if USER_BASE <= vpn * PAGE_SIZE < USER_BASE + |frames| * PAGE_SIZE
        then LeafPte(frames[vpn - USER_BASE / PAGE_SIZE], USER_FLAGS)
      else 0
  }

  /** The tables are in place; what the frames hold is left open. */
  ghost predicate SpaceShape(m: Ram, s: Space, end: nat)
  {
    && TableIn(m, s.table, s.leaves, s.lo, s.hi)
    && FramesIn(s.table, s.frames, s.lo, s.hi)
    && Mappings(s.leaves, s.frames, end)
    && USER_BASE + |s.frames| * PAGE_SIZE <= KERNEL_BASE
  }

  /** A complete address space, with the image loaded. */
  ghost predicate SpaceOk(m: Ram, s: Space, end: nat)
  {
    && SpaceShape(m, s, end)
    && Loaded(m, s.frames, s.image)
    && (|s.frames| - 1) * PAGE_SIZE < |s.image| <= |s.frames| * PAGE_SIZE
  }

  /** What `Mappings` says about the page of an address. */
  lemma MappingOf(leaves: map<nat, nat>, frames: seq<nat>, end: nat, va: nat)
    requires Mappings(leaves, frames, end) && end % PAGE_SIZE == 0
    ensures KERNEL_BASE <= va < end ==> Leaf(leaves, Vpn(va)) == LeafPte(Vpn(va) * PAGE_SIZE, KERNEL_FLAGS)
    ensures !(KERNEL_BASE <= va < end) && USER_BASE <= va < USER_BASE + |frames| * PAGE_SIZE ==>
              && 0 <= Vpn(va) - USER_BASE / PAGE_SIZE < |frames|
              && Leaf(leaves, Vpn(va)) == LeafPte(frames[Vpn(va) - USER_BASE / PAGE_SIZE], USER_FLAGS)
    ensures !(KERNEL_BASE <= va < end) && !(USER_BASE <= va < USER_BASE + |frames| * PAGE_SIZE) ==>
              Leaf(leaves, Vpn(va)) == 0
  {
    hide LeafPte, Leaf;
    PageOf(KERNEL_BASE, end, va);
    PageOf(USER_BASE, USER_BASE + |frames| * PAGE_SIZE, va);
  }

  predicate InKernel(va: nat, end: nat)
  {
    KERNEL_BASE <= va < end
  }

  predicate InImage(va: nat, s: Space)
  {
    USER_BASE <= va < USER_BASE + |s.frames| * PAGE_SIZE
  }

  /** The physical address behind a user address. */
  function FrameByte(s: Space, va: nat): nat
    requires InImage(va, s)
  {
    var off := va - USER_BASE;
    s.frames[off / PAGE_SIZE] + off % PAGE_SIZE
  }

  /**
   Where the walk leads, whatever has been stored in the frames: kernel addresses
   translate to themselves and are not open to user mode, user addresses to the
   process's frames, and every other address faults.
   */
  lemma WalkOfSpace(m: Ram, s: Space, end: nat, va: nat)
    requires SpaceShape(m, s, end) && KERNEL_BASE <= end < WORD && end % PAGE_SIZE == 0 && va < WORD
    ensures InKernel(va, end) ==> Translate(m, s.table.root, va) == Mapped(va, KERNEL_FLAGS + PAGE_V)
    ensures InImage(va, s) ==> Translate(m, s.table.root, va) == Mapped(FrameByte(s, va), USER_FLAGS + PAGE_V)
    ensures !InKernel(va, end) && !InImage(va, s) ==> Translate(m, s.table.root, va) == PageFault
    ensures !IsU(KERNEL_FLAGS + PAGE_V) && IsU(USER_FLAGS + PAGE_V)
  {
    hide Translate, Resolve, Holds, Owns, Mappings, FramesIn, InKernel, InImage, FrameByte;
    WalkFindsMappings(m, s.table, s.leaves, va);
    ResolveOfSpace(s, end, va);
    FlagsOfSpace();
  }

  lemma FlagsOfSpace()
    ensures !IsU(KERNEL_FLAGS + PAGE_V) && IsU(USER_FLAGS + PAGE_V)
  {
  }

  /** What the recorded entries make of an address. */
  lemma ResolveOfSpace(s: Space, end: nat, va: nat)
    requires Mappings(s.leaves, s.frames, end) && FramesIn(s.table, s.frames, s.lo, s.hi)
    requires USER_BASE + |s.frames| * PAGE_SIZE <= KERNEL_BASE && end % PAGE_SIZE == 0 && va < WORD
    ensures InKernel(va, end) ==> Resolve(s.leaves, va) == Mapped(va, KERNEL_FLAGS + PAGE_V)
    ensures InImage(va, s) ==> Resolve(s.leaves, va) == Mapped(FrameByte(s, va), USER_FLAGS + PAGE_V)
    ensures !InKernel(va, end) && !InImage(va, s) ==> Resolve(s.leaves, va) == PageFault
  {
    hide LeafPte, LeafWalk, Leaf, Vpn;
    MappingOf(s.leaves, s.frames, end, va);
    hide Mappings, FramesIn;
    if InKernel(va, end) {
      KernelLeaf(va);
    } else if InImage(va, s) {
      UserLeaf(s, va);
    } else {
      ZeroLeaf(va);
    }
  }

  /**
   What a process sees when it starts: the user address at offset `off` of the image
   translates to a user page holding byte `off` of the image, zero-padded to the end of
   its last page.
   */
  lemma SpaceMeaning(m: Ram, s: Space, end: nat, va: nat)
    requires SpaceOk(m, s, end) && KERNEL_BASE <= end < WORD && end % PAGE_SIZE == 0 && va < WORD
    ensures InKernel(va, end) ==> Translate(m, s.table.root, va) == Mapped(va, KERNEL_FLAGS + PAGE_V)
    ensures InImage(va, s) ==>
              var off := va - USER_BASE;
              && Translate(m, s.table.root, va) == Mapped(FrameByte(s, va), USER_FLAGS + PAGE_V)
              && ByteAt(m, s.frames[off / PAGE_SIZE], off % PAGE_SIZE) == Padded(s.image, off)
    ensures !InKernel(va, end) && !InImage(va, s) ==> Translate(m, s.table.root, va) == PageFault
    ensures !IsU(KERNEL_FLAGS + PAGE_V) && IsU(USER_FLAGS + PAGE_V)
  {
    hide Translate, SpaceShape, ByteAt, Padded, FrameByte, InKernel;
    WalkOfSpace(m, s, end, va);
    if InImage(va, s) {
      UserOffset(va, |s.frames|);
      assert FrameLoaded(m, s.frames, s.image, (va - USER_BASE) / PAGE_SIZE);
    }
  }

  lemma ZeroLeaf(va: nat)
    ensures LeafWalk(0, va) == PageFault
  {
  }

  lemma KernelLeaf(va: nat)
    requires va < WORD
    ensures LeafWalk(LeafPte(Vpn(va) * PAGE_SIZE, KERNEL_FLAGS), va) == Mapped(va, KERNEL_FLAGS + PAGE_V)
  {
    LeafPteMaps(Vpn(va) * PAGE_SIZE, KERNEL_FLAGS, va);
    OrOne(KERNEL_FLAGS);
  }

  lemma UserOffset(va: nat, n: nat)
    requires USER_BASE <= va < USER_BASE + n * PAGE_SIZE
    ensures var off := va - USER_BASE;
            && off / PAGE_SIZE == Vpn(va) - USER_BASE / PAGE_SIZE < n
            && off == off / PAGE_SIZE * PAGE_SIZE + off % PAGE_SIZE && off % PAGE_SIZE == va % PAGE_SIZE
  {
  }

  lemma UserLeaf(s: Space, va: nat)
    requires FramesIn(s.table, s.frames, s.lo, s.hi) && InImage(va, s)
    ensures var i := (va - USER_BASE) / PAGE_SIZE;
            && i == Vpn(va) - USER_BASE / PAGE_SIZE
            && LeafWalk(LeafPte(s.frames[i], USER_FLAGS), va) == Mapped(FrameByte(s, va), USER_FLAGS + PAGE_V)
  {
    UserOffset(va, |s.frames|);
    hide LeafPte, LeafWalk, Or, Owns, Vpn;
    LeafPteMaps(s.frames[(va - USER_BASE) / PAGE_SIZE], USER_FLAGS, va);
    OrOne(USER_FLAGS);
  }

  /** The tables stay in place as long as nobody writes them. */
  lemma ShapeUnchanged(m: Ram, m': Ram, s: Space, end: nat)
    requires SpaceShape(m, s, end) && forall p :: Owns(s.table, p) ==> SamePage(m, m', p)
    ensures SpaceShape(m', s, end)
  {
    hide Mappings, Entry, FramesIn;
    HoldsUnchanged(m, m', s.table, s.leaves);
  }

  /** Changes outside an address space's region leave it as it is. */
  lemma SpaceUnchanged(m: Ram, m': Ram, s: Space, end: nat)
    requires SpaceOk(m, s, end)
    requires forall p: nat :: PageAligned(p) && Inside(p, s.lo, s.hi) ==> SamePage(m, m', p)
    ensures SpaceOk(m', s, end)
  {
    hide Mappings, Padded, ByteAt, Entry;
    assert forall p :: Owns(s.table, p) ==> PageAligned(p);
    HoldsUnchanged(m, m', s.table, s.leaves);
    hide Holds;
    forall i | 0 <= i < |s.frames|
      ensures FrameLoaded(m', s.frames, s.image, i)
    {
      assert FrameLoaded(m, s.frames, s.image, i);
      forall x | 0 <= x < PAGE_SIZE
        ensures ByteAt(m', s.frames[i], x) == Padded(s.image, i * PAGE_SIZE + x)
      {
        SamePageBytes(m, m', s.frames[i], x);
      }
    }
  }

  // ------------------------------------------------------------- bit patterns

  /** `((paddr / PAGE_SIZE) << 10) | PAGE_V | flags` is the same entry as with the masks swapped. */
  lemma EntryWord(pa: nat, flags: nat)
    ensures Or(Or(Shl(pa / PAGE_SIZE, 10), PAGE_V), flags) == LeafPte(pa, flags)
  {
    OrSwap(Shl(pa / PAGE_SIZE, 10), PAGE_V, flags);
  }

  lemma UserFlagBits()
    ensures Or(Or(Or(PAGE_U, PAGE_R), PAGE_W), PAGE_X) == USER_FLAGS
  {
    assert Or(PAGE_U, PAGE_R) == 18;
    assert Or(18, PAGE_W) == 22;
    assert Or(22, PAGE_X) == 30;
  }

  /** `(table1[vpn1] >> 10) * PAGE_SIZE` follows the pointer entry. */
  lemma FollowPointer(page: nat)
    requires PageAligned(page)
    ensures Shr(PointerPte(page), 10) * PAGE_SIZE == page
    ensures And(PointerPte(page), PAGE_V) != 0
    ensures Or(Shl(page / PAGE_SIZE, 10), PAGE_V) == PointerPte(page)
  {
    PointerIsPointer(page);
    var pte := PointerPte(page);
    var ten := TenIs();
    ShrIsDiv(pte, ten);
    AndOne(pte);
    ShlIsMul(page / PAGE_SIZE, ten);
    OrDisjoint(page / PAGE_SIZE, PAGE_V, ten);
  }

  // ------------------------------------------------------ steps of the loops

  /** After the kernel loop and before any image page. */
  lemma MappingsStart(leaves: map<nat, nat>, end: nat)
    requires IdentityBelow(leaves, map[], KERNEL_BASE, end)
    ensures Mappings(leaves, [], end)
  {
    hide LeafPte;
  }

  /** Mapping the next image page. */
  lemma MappingsStep(leaves: map<nat, nat>, frames: seq<nat>, end: nat, page: nat)
    requires Mappings(leaves, frames, end)
    requires USER_BASE + |frames| * PAGE_SIZE < KERNEL_BASE
    ensures Mappings(Put(leaves, Vpn(USER_BASE + |frames| * PAGE_SIZE), LeafPte(page, USER_FLAGS)),
                     frames + [page], end)
  {
    hide LeafPte;
    var at := USER_BASE / PAGE_SIZE + |frames|;
    var more := frames + [page];
    var leaves' := Put(leaves, at, LeafPte(page, USER_FLAGS));
    assert Vpn(USER_BASE + |frames| * PAGE_SIZE) == at;
    forall vpn: nat
      ensures Leaf(leaves', vpn) ==
        if KERNEL_BASE <= vpn * PAGE_SIZE < end then LeafPte(vpn * PAGE_SIZE, KERNEL_FLAGS)
        else if USER_BASE <= vpn * PAGE_SIZE < USER_BASE + |more| * PAGE_SIZE
          then LeafPte(more[vpn - USER_BASE / PAGE_SIZE], USER_FLAGS)
        else 0
    {
      assert Leaf(leaves', vpn) == if vpn == at then LeafPte(page, USER_FLAGS) else Leaf(leaves, vpn);
      assert USER_BASE <= vpn * PAGE_SIZE < USER_BASE + |more| * PAGE_SIZE <==>
             vpn == at || USER_BASE <= vpn * PAGE_SIZE < USER_BASE + |frames| * PAGE_SIZE;
    }
  }

  /** The page just copied holds its part of the zero-padded image. */
  lemma LoadedStep(m: Ram, m': Ram, frames: seq<nat>, image: seq<nat>, page: nat)
    requires Loaded(m, frames, image)
    requires forall i :: 0 <= i < |frames| ==> SamePage(m, m', frames[i])
    requires forall x :: 0 <= x < PAGE_SIZE ==> ByteAt(m', page, x) == Padded(image, |frames| * PAGE_SIZE + x)
    ensures Loaded(m', frames + [page], image)
  {
    hide ByteAt, Padded, Entry;
    forall i | 0 <= i < |frames + [page]|
      ensures FrameLoaded(m', frames + [page], image, i)
    {
      if i < |frames| {
        assert FrameLoaded(m, frames, image, i);
        forall x | 0 <= x < PAGE_SIZE
          ensures ByteAt(m', frames[i], x) == Padded(image, i * PAGE_SIZE + x)
        {
          SamePageBytes(m, m', frames[i], x);
        }
      }
    }
  }

  lemma LoadedSame(m: Ram, m': Ram, frames: seq<nat>, image: seq<nat>)
    requires Loaded(m, frames, image)
    requires forall i :: 0 <= i < |frames| ==> SamePage(m, m', frames[i])
    ensures Loaded(m', frames, image)
  {
    hide ByteAt, Padded, Entry;
    forall i | 0 <= i < |frames|
      ensures FrameLoaded(m', frames, image, i)
    {
      assert FrameLoaded(m, frames, image, i);
      forall x | 0 <= x < PAGE_SIZE
        ensures ByteAt(m', frames[i], x) == Padded(image, i * PAGE_SIZE + x)
      {
        SamePageBytes(m, m', frames[i], x);
      }
    }
  }

  /** The V bit of a root entry tells whether there is a second-level page; if so the entry leads to it. */
  lemma RootEntry(m: Ram, t: Table, leaves: map<nat, nat>, v: nat)
    requires Holds(m, t, leaves) && v < 1024
    ensures And(Entry(m, t.root, v), PAGE_V) == 0 <==> v !in t.second
    ensures v in t.second ==> Shr(Entry(m, t.root, v), 10) * PAGE_SIZE == t.second[v]
  {
    hide And, Shr, Shl, Or, PointerPte, LeafAt;
    if v in t.second {
      FollowPointer(t.second[v]);
    } else {
      AndOne(0);
    }
  }

  /** Pages below a bound are untouched. */
  ghost predicate SameBelow(m: Ram, m': Ram, bound: nat)
  {
    forall p: nat :: PageAligned(p) && p + PAGE_SIZE <= bound ==> SamePage(m, m', p)
  }

  lemma SameBelowTransitive(a: Ram, b: Ram, c: Ram, bound: nat, bound': nat)
    requires SameBelow(a, b, bound) && SameBelow(b, c, bound') && bound <= bound'
    ensures SameBelow(a, c, bound)
  {
  }

  /** A table keeps its meaning when only pages from `bound` on changed. */
  lemma TableBelow(m: Ram, m': Ram, t: Table, leaves: map<nat, nat>, lo: nat, bound: nat, hi: nat)
    requires TableIn(m, t, leaves, lo, bound) && SameBelow(m, m', bound) && bound <= hi
    ensures TableIn(m', t, leaves, lo, hi)
  {
    assert forall p :: Owns(t, p) ==> PageAligned(p);
    HoldsUnchanged(m, m', t, leaves);
  }

  /** The regions of different processes do not overlap. */
  ghost predicate Separate(spaces: map<nat, Space>)
  {
    forall i, j :: i in spaces && j in spaces && i != j ==> spaces[i].hi <= spaces[j].lo || spaces[j].hi <= spaces[i].lo
  }

  /** Every address space is complete and lies in free RAM below `next`. */
  ghost predicate SpacesOk(m: Ram, spaces: map<nat, Space>, freeRam: nat, next: nat, end: nat)
  {
    forall i :: i in spaces ==> SpaceOk(m, spaces[i], end) && freeRam <= spaces[i].lo && spaces[i].hi <= next
  }

  /** Building a space above everything else keeps the others. */
  lemma SpacesGrow(m: Ram, m': Ram, spaces: map<nat, Space>, slot: nat, s: Space,
                   freeRam: nat, bound: nat, next: nat, end: nat)
    requires SpacesOk(m, spaces, freeRam, bound, end) && Separate(spaces)
    requires SameBelow(m, m', bound) && s.lo == bound && s.hi == next && freeRam <= bound <= next
    requires SpaceOk(m', s, end)
    ensures SpacesOk(m', spaces[slot := s], freeRam, next, end) && Separate(spaces[slot := s])
  {
    hide SpaceOk, SamePage;
    forall i | i in spaces
      ensures SpaceOk(m', spaces[i], end)
    {
      SpaceUnchanged(m, m', spaces[i], end);
    }
  }

  lemma FreshTable(m: Ram, root: nat)
    requires PageAligned(root) && forall w :: 0 <= w < 1024 ==> Entry(m, root, w) == 0
    ensures TableIn(m, Table(root, map[]), map[], root, root + PAGE_SIZE)
  {
    EmptyTable(m, root);
    hide Holds;
    assert forall p :: Owns(Table(root, map[]), p) ==> p == root;
  }

  /** No page, table or frame, of one process belongs to another. */
  lemma NoSharedPages(m: Ram, s: Space, u: Space, end: nat, page: nat)
    requires SpaceShape(m, s, end) && SpaceShape(m, u, end)
    requires s.hi <= u.lo || u.hi <= s.lo
    ensures !((Owns(s.table, page) || page in s.frames) && (Owns(u.table, page) || page in u.frames))
  {
    hide Holds, Mappings, Owns;
  }

  // --------------------------------------------------------- the kernel stack

  /** `create_process` clears the kernel stack and puts `user_entry` where `switch_context` pops ra. */
  function InitStack(m: Ram, base: nat, slot: nat, entry: nat): Ram
  {
    Store(ZeroRange(m, StackTop(base, slot) - STACK_BYTES, STACK_BYTES), InitialSp(base, slot), entry)
  }

  lemma InitStackEffect(m: Ram, base: nat, slot: nat, entry: nat)
    ensures Load(InitStack(m, base, slot, entry), StackTop(base, slot) - 52) == entry
    ensures forall a: nat ::
              StackTop(base, slot) - 8192 <= a < StackTop(base, slot) && a != StackTop(base, slot) - 52 ==>
              Load(InitStack(m, base, slot, entry), a) == 0
    ensures forall a: nat :: a < StackTop(base, slot) - STACK_BYTES || a >= StackTop(base, slot) ==>
              Load(InitStack(m, base, slot, entry), a) == Load(m, a)
  {
  }

  lemma InitialSpIs(base: nat, slot: nat)
    ensures InitialSp(base, slot) == base + (slot + 1) * 8208 - 52
  {
  }

  /** The process table lies in the kernel's own memory, below free RAM. */
  lemma StackBelowRam(base: nat, slot: nat, freeRam: nat)
    requires base + PROC_NO_MAX * PROC_BYTES <= freeRam && slot < PROC_NO_MAX
    ensures StackTop(base, slot) <= freeRam
  {
  }

  /** The initial stack words of the other slots are not touched. */
  lemma OtherStacksKept(m: Ram, base: nat, slot: nat, entry: nat, i: nat)
    requires i != slot
    ensures Load(InitStack(m, base, slot, entry), InitialSp(base, i)) == Load(m, InitialSp(base, i))
  {
    InitStackEffect(m, base, slot, entry);
    hide InitStack;
    if i < slot { assert (i + 1) * PROC_BYTES + PROC_BYTES <= (slot + 1) * PROC_BYTES; }
    else { assert (slot + 1) * PROC_BYTES + PROC_BYTES <= (i + 1) * PROC_BYTES; }
  }

  /** What happens below free RAM does not concern the address spaces. */
  lemma SpacesKept(m: Ram, m': Ram, spaces: map<nat, Space>, freeRam: nat, next: nat, end: nat)
    requires SpacesOk(m, spaces, freeRam, next, end)
    requires forall a: nat :: a >= freeRam ==> Load(m', a) == Load(m, a)
    ensures SpacesOk(m', spaces, freeRam, next, end)
  {
    hide SpaceOk, Load;
    forall i | i in spaces
      ensures SpaceOk(m', spaces[i], end)
    {
      assert forall p: nat :: Inside(p, spaces[i].lo, spaces[i].hi) ==> SamePage(m, m', p);
      SpaceUnchanged(m, m', spaces[i], end);
    }
  }

  /** Words below a bound are in pages below it. */
  lemma WordBelow(m: Ram, m': Ram, bound: nat, a: nat)
    requires SameBelow(m, m', bound) && bound % PAGE_SIZE == 0 && bound < WORD && a < bound && a % 4 == 0
    ensures Load(m', a) == Load(m, a)
  {
    hide Load, SamePage;
    var page, w := WordInPage(a, bound);
    assert SamePage(m, m', page);
    SameWord(m, m', page, w);
  }

  lemma SameWord(m: Ram, m': Ram, page: nat, w: nat)
    requires SamePage(m, m', page) && w < 1024
    ensures Load(m', page + 4 * w) == Load(m, page + 4 * w)
  {
    assert Entry(m', page, w) == Entry(m, page, w);
  }

  lemma WordInPage(a: nat, bound: nat) returns (page: nat, w: nat)
    requires bound % PAGE_SIZE == 0 && bound < WORD && a < bound && a % 4 == 0
    ensures PageAligned(page) && page + PAGE_SIZE <= bound && page + 4 * w == a && w < 1024
  {
    var n, q := a / PAGE_SIZE, a / 4;
    page, w := n * PAGE_SIZE, q - 1024 * n;
    NextPage(n, a, bound);
  }

  lemma NextPage(n: nat, a: nat, bound: nat)
    requires n == a / PAGE_SIZE && a < bound && bound % PAGE_SIZE == 0
    ensures n * PAGE_SIZE % PAGE_SIZE == 0 && n * PAGE_SIZE <= a < n * PAGE_SIZE + PAGE_SIZE <= bound
  {
    var b := bound / PAGE_SIZE;
    assert bound == b * PAGE_SIZE && n < b;
  }

  /** The record of a process, and the word its first switch pops as ra. */
  ghost predicate RecordOk(m: Ram, p: Proc, s: Space, base: nat, slot: nat, entry: nat)
  {
    p.pageTable == s.table.root && p.sp == InitialSp(base, slot) && Load(m, InitialSp(base, slot)) == entry
  }

  class CKernel {
    const userEntry: nat
    const procsBase: nat
    const freeRam: nat
    const freeRamEnd: nat
    var nextAddr: nat
    var ram: Ram
    var procs: seq<Proc>
    ghost var spaces: map<nat, Space>

    ghost predicate MemOk()
      reads this
    {
      && KERNEL_BASE <= freeRam && freeRam % PAGE_SIZE == 0
      && freeRamEnd == freeRam + FREE_RAM_SIZE && freeRamEnd + PAGE_SIZE < WORD
      && freeRam <= nextAddr <= freeRamEnd && nextAddr % PAGE_SIZE == 0
      && procsBase % 4 == 0 && procsBase + PROC_NO_MAX * PROC_BYTES <= freeRam
    }

    /** Every process has an address space of its own, in a region it shares with no other. */
    ghost predicate Valid()
      reads this
    {
      && MemOk()
      && |procs| == PROC_NO_MAX
      && (forall i :: i in spaces ==> i < PROC_NO_MAX)
      && (forall i :: 0 <= i < PROC_NO_MAX ==> (i in spaces <==> procs[i].state != Unused))
      && (forall i :: i in spaces ==> RecordOk(ram, procs[i], spaces[i], procsBase, i, userEntry))
      && SpacesOk(ram, spaces, freeRam, nextAddr, freeRamEnd)
      && Separate(spaces)
    }

    /** At boot: no process, all of free RAM unused. */
    constructor (userEntry: nat, procsBase: nat, freeRam: nat)
      requires KERNEL_BASE <= freeRam && freeRam % PAGE_SIZE == 0 && freeRam + FREE_RAM_SIZE + PAGE_SIZE < WORD
      requires procsBase % 4 == 0 && procsBase + PROC_NO_MAX * PROC_BYTES <= freeRam
      ensures Valid() && spaces == map[] && nextAddr == this.freeRam == freeRam
      ensures this.userEntry == userEntry && this.procsBase == procsBase
      ensures forall i :: 0 <= i < PROC_NO_MAX ==> procs[i].state == Unused
    {
      this.userEntry := userEntry;
      this.procsBase := procsBase;
      this.freeRam := freeRam;
      freeRamEnd := freeRam + FREE_RAM_SIZE;
      nextAddr := freeRam;
      ram := map[];
      procs := seq(PROC_NO_MAX, _ => Proc(0, Unused, 0, 0));
      spaces := map[];
    }

    /**
     `create_process`: the first unused slot becomes a runnable process whose address
     space is complete and shares no page with any earlier one; every earlier process
     keeps its record and its address space.
     */
    method CreateProcess(image: seq<nat>) returns (o: Outcome, slot: nat)
      requires Valid()
      requires forall i :: 0 <= i < |image| ==> image[i] < 256
      modifies this
      ensures o == Done <==>
              && (exists i :: 0 <= i < PROC_NO_MAX && old(procs)[i].state == Unused)
              && old(nextAddr) + PagesNeeded(freeRamEnd, |image|) * PAGE_SIZE < freeRamEnd
      ensures o == Done ==>
                && Valid()
                && slot < PROC_NO_MAX && old(procs)[slot].state == Unused
                && (forall i :: 0 <= i < slot ==> old(procs)[i].state != Unused)
                && slot in spaces && spaces[slot].image == image && spaces[slot].lo == old(nextAddr)
                && procs == old(procs)[slot := Proc(slot + 1, Runnable, InitialSp(procsBase, slot),
                                                    spaces[slot].table.root)]
                && spaces == old(spaces)[slot := spaces[slot]]
                && nextAddr == old(nextAddr) + PagesNeeded(freeRamEnd, |image|) * PAGE_SIZE
                && spaces[slot].hi == nextAddr
                && procs[slot].sp == procsBase + (slot + 1) * 8208 - 52 && Load(ram, procs[slot].sp) == userEntry
                && AllUsed(spaces[slot].table, spaces[slot].frames, old(nextAddr), nextAddr)
    {
      hide AllUsed;
      hide SpaceOk, SpacesOk, SameBelow, Separate, InitStack, Load, PagesNeeded, InitialSp;
      slot := FirstUnused();
      if slot == PROC_NO_MAX { return Panic, 0; }
      StackReady(slot);
      ram := InitStack(ram, procsBase, slot, userEntry);
      ghost var cleared := ram;
      ghost var s;
      var root;
      o, root, s := BuildSpace(image);
      if o == Panic { return; }
      SpacesGrow(cleared, ram, old(spaces), slot, s, freeRam, old(nextAddr), nextAddr, freeRamEnd);
      StacksKept(cleared, ram, procsBase, freeRam, old(nextAddr));
      InitialSpIs(procsBase, slot);
      procs := procs[slot := Proc(slot + 1, Runnable, InitialSp(procsBase, slot), root)];
      spaces := spaces[slot := s];
    }

    /** Preparing an unused slot's kernel stack disturbs no process. */
    lemma StackReady(slot: nat)
      requires Valid() && slot < PROC_NO_MAX && slot !in spaces
      ensures SpacesOk(InitStack(ram, procsBase, slot, userEntry), spaces, freeRam, nextAddr, freeRamEnd)
      ensures forall i :: i in spaces ==>
                RecordOk(InitStack(ram, procsBase, slot, userEntry), procs[i], spaces[i], procsBase, i, userEntry)
      ensures Load(InitStack(ram, procsBase, slot, userEntry), InitialSp(procsBase, slot)) == userEntry
    {
      hide SpacesOk, Separate, Load;
      InitStackEffect(ram, procsBase, slot, userEntry);
      StackBelowRam(procsBase, slot, freeRam);
      hide InitStack;
      SpacesKept(ram, InitStack(ram, procsBase, slot, userEntry), spaces, freeRam, nextAddr, freeRamEnd);
      forall i | i in spaces
        ensures RecordOk(InitStack(ram, procsBase, slot, userEntry), procs[i], spaces[i], procsBase, i, userEntry)
      {
        OtherStacksKept(ram, procsBase, slot, userEntry, i);
      }
    }

    /** The slot search that starts `create_process`. */
    method FirstUnused() returns (slot: nat)
      requires |procs| == PROC_NO_MAX
      ensures slot <= PROC_NO_MAX
      ensures forall i :: 0 <= i < slot ==> procs[i].state != Unused
      ensures slot < PROC_NO_MAX ==> procs[slot].state == Unused
    {
      slot := 0;
      while slot < PROC_NO_MAX && procs[slot].state != Unused
        invariant slot <= PROC_NO_MAX
        invariant forall i :: 0 <= i < slot ==> procs[i].state != Unused
      {
        slot := slot + 1;
      }
    }

    /** The page-table and image part of `create_process`. */
    method BuildSpace(image: seq<nat>) returns (o: Outcome, root: nat, ghost s: Space)
      requires MemOk()
      requires forall i :: 0 <= i < |image| ==> image[i] < 256
      modifies this`nextAddr, this`ram
      ensures o == Done <==> old(nextAddr) + PagesNeeded(freeRamEnd, |image|) * PAGE_SIZE < freeRamEnd
      ensures o == Done ==>
                && MemOk() && SpaceOk(ram, s, freeRamEnd) && s.table.root == root
                && s.image == image && s.lo == old(nextAddr) && s.hi == nextAddr
                && nextAddr == old(nextAddr) + PagesNeeded(freeRamEnd, |image|) * PAGE_SIZE
                && AllUsed(s.table, s.frames, s.lo, s.hi)
                && SameBelow(old(ram), ram, old(nextAddr))
    {
      hide AllUsed;
      hide SpaceOk, TableIn, Holds, SameBelow, IdentityBelow, Mappings, RegionKeys, Regions, ImagePages;
      SomeKernelTable(freeRamEnd);
      ghost var lo := nextAddr;
      s := Space(lo, lo, Table(0, map[]), map[], [], []);
      o, root := AllocPages(1);
      if o == Panic { return; }
      FreshTable(ram, root);
      RootUsed(root);
      ghost var t, leaves, frames;
      ghost var m1 := ram;
      o, t, leaves := MapKernel(root, Table(root, map[]), lo);
      if o == Panic { return; }
      ghost var m2 := ram;
      MappingsStart(leaves, freeRamEnd);
      o, t, leaves, frames := LoadImage(root, image, t, leaves, lo);
      if o == Panic { return; }
      SameBelowTransitive(old(ram), m1, m2, lo, lo);
      SameBelowTransitive(old(ram), m2, ram, lo, lo);
      s := Space(lo, nextAddr, t, leaves, frames, image);
    }

    /** `alloc_pages`: the pages just above everything handed out so far, zeroed. */
    method AllocPages(n: nat) returns (o: Outcome, paddr: nat)
      requires MemOk()
      modifies this`nextAddr, this`ram
      ensures nextAddr == Bump(old(nextAddr), n) && (o == Done <==> nextAddr < freeRamEnd)
      ensures o == Done ==> paddr == old(nextAddr) && ram == ZeroWrapped(old(ram), paddr, n * PAGE_SIZE % WORD)
      ensures old(nextAddr) + n * PAGE_SIZE < WORD ==> (o == Done <==> old(nextAddr) + n * PAGE_SIZE < freeRamEnd)
      ensures o == Done && old(nextAddr) + n * PAGE_SIZE < WORD ==>
                && MemOk() && paddr == old(nextAddr) && nextAddr == paddr + n * PAGE_SIZE
                && (forall q: nat, w :: q % PAGE_SIZE == 0 && paddr <= q < nextAddr && 0 <= w < 1024 ==>
                      Entry(ram, q, w) == 0)
                && SameBelow(old(ram), ram, paddr)
    {
      paddr := nextAddr;
      nextAddr := Bump(nextAddr, n);
      if nextAddr >= freeRamEnd { return Panic, 0; }
      ghost var fits := paddr + n * PAGE_SIZE < WORD;
      if fits {
        BumpSoundIffNoWrap(paddr, n, freeRamEnd);
        ZeroRangeEffect(ram, paddr, n * PAGE_SIZE);
      }
      ram := ZeroWrapped(ram, paddr, n * PAGE_SIZE % WORD);
      return Done, paddr;
    }

    /**
     `map_page` on the table at physical address `table1`.  It panics exactly on an
     unaligned address or when it needs a second-level page and free RAM is used up.
     */
    method MapPage(table1: nat, va: nat, pa: nat, flags: nat,
                   ghost t: Table, ghost leaves: map<nat, nat>, ghost lo: nat)
        returns (o: Outcome, ghost t': Table)
      requires MemOk() && TableIn(ram, t, leaves, lo, nextAddr) && t.root == table1
      requires va < WORD && pa < WORD
      modifies this`nextAddr, this`ram
      ensures o == Panic <==>
              || va % PAGE_SIZE != 0 || pa % PAGE_SIZE != 0
              || (Vpn1(va) !in t.second && old(nextAddr) + PAGE_SIZE >= freeRamEnd)
      ensures o == Done ==>
                && MemOk() && nextAddr == old(nextAddr) + (if Vpn1(va) in t.second then 0 else PAGE_SIZE)
                && t'.second.Keys == t.second.Keys + {Vpn1(va)}
                && TableIn(ram, t', Put(leaves, Vpn(va), LeafPte(pa, flags)), lo, nextAddr) && t'.root == table1
                && (forall p :: Owns(t', p) ==> Owns(t, p) || old(nextAddr) <= p)
                && (forall p :: Owns(t, p) ==> Owns(t', p))
                && (nextAddr > old(nextAddr) ==> Owns(t', old(nextAddr)))
                && (forall p: nat :: PageAligned(p) && p + PAGE_SIZE <= old(nextAddr) && !Owns(t, p) ==>
                      SamePage(old(ram), ram, p))
    {
      hide Holds, Owns, Put, LeafPte, And, Shr, Shl, Or, Entry, RootIndex, LeafIndex, Vpn, Vpn1;
      t' := t;
      if va % PAGE_SIZE != 0 { return Panic, t; }
      if pa % PAGE_SIZE != 0 { return Panic, t; }
      o := Done;
      IndexesSplit(va);
      var vpn1 := RootIndex(va);
      RootEntry(ram, t, leaves, vpn1);
      if And(Entry(ram, table1, vpn1), PAGE_V) == 0 {
        o, t' := AddTable(table1, vpn1, t, leaves, lo);
        if o == Panic { return; }
      }
      RootEntry(ram, t', leaves, vpn1);
      var vpn0 := LeafIndex(va);
      var table0 := Shr(Entry(ram, table1, vpn1), 10) * PAGE_SIZE;
      EntryWord(pa, flags);
      WriteEntry(table0, vpn0, Or(Or(Shl(pa / PAGE_SIZE, 10), PAGE_V), flags), t', leaves, lo, vpn1);
    }

    /** The branch of `map_page` that creates the second-level table. */
    method AddTable(table1: nat, v: nat, ghost t: Table, ghost leaves: map<nat, nat>, ghost lo: nat)
        returns (o: Outcome, ghost t': Table)
      requires MemOk() && TableIn(ram, t, leaves, lo, nextAddr) && t.root == table1
      requires v < 1024 && v !in t.second
      modifies this`nextAddr, this`ram
      ensures o == Panic <==> old(nextAddr) + PAGE_SIZE >= freeRamEnd
      ensures o == Done ==>
                && MemOk() && nextAddr == old(nextAddr) + PAGE_SIZE
                && t' == t.(second := t.second[v := old(nextAddr)])
                && TableIn(ram, t', leaves, lo, nextAddr)
                && (forall p :: Owns(t', p) <==> Owns(t, p) || p == old(nextAddr))
                && (forall p: nat :: PageAligned(p) && p + PAGE_SIZE <= old(nextAddr) && !Owns(t, p) ==>
                      SamePage(old(ram), ram, p))
    {
      hide TableIn, Owns, Shl, Or, PointerPte, SamePage, SameBelow, Store, ZeroWrapped;
      RootOfTable(ram, t, leaves, lo, nextAddr);
      t' := t;
      var page;
      o, page := AllocPages(1);
      if o == Panic { return; }
      TableBelow(old(ram), ram, t, leaves, lo, page, page);
      FollowPointer(page);
      HangTable(ram, t, leaves, lo, v, page, nextAddr);
      ghost var zeroed := ram;
      ram := Store(ram, table1 + 4 * v, Or(Shl(page / PAGE_SIZE, 10), PAGE_V));
      t' := t.(second := t.second[v := page]);
      OwnsMore(t, t', v, page);
      SameOutside(old(ram), zeroed, t, page, table1, v, PointerPte(page));
    }

    /** The write that ends `map_page`. */
    method WriteEntry(table0: nat, w: nat, word: nat,
                      ghost t: Table, ghost leaves: map<nat, nat>, ghost lo: nat, ghost v: nat)
      requires TableIn(ram, t, leaves, lo, nextAddr) && w < 1024
      requires v in t.second && t.second[v] == table0
      modifies this`ram
      ensures TableIn(ram, t, Put(leaves, v * 1024 + w, word), lo, nextAddr)
      ensures forall p: nat :: PageAligned(p) && !Owns(t, p) ==> SamePage(old(ram), ram, p)
    {
      SetLeaf(ram, t, leaves, v, w, word);
      SamePageAfterStore(ram, t, table0, w, word);
      ram := Store(ram, table0 + 4 * w, word);
    }

    /** The loop of `create_process` over the kernel's own pages. */
    method MapKernel(table1: nat, ghost t0: Table, ghost lo: nat)
        returns (o: Outcome, ghost t: Table, ghost leaves: map<nat, nat>)
      requires MemOk() && lo <= nextAddr && TableIn(ram, t0, map[], lo, nextAddr) && t0 == Table(table1, map[])
      requires AllUsed(t0, [], lo, nextAddr)
      modifies this`nextAddr, this`ram
      ensures o == Done <==> old(nextAddr) + KernelTables(freeRamEnd) * PAGE_SIZE < freeRamEnd
      ensures o == Done ==>
                && MemOk() && nextAddr == old(nextAddr) + KernelTables(freeRamEnd) * PAGE_SIZE
                && t.second.Keys == RegionKeys(KERNEL_BASE, freeRamEnd - KERNEL_BASE)
                && AllUsed(t, [], lo, nextAddr)
                && TableIn(ram, t, leaves, lo, nextAddr) && t.root == table1
                && IdentityBelow(leaves, map[], KERNEL_BASE, freeRamEnd)
                && SameBelow(old(ram), ram, lo)
    {
      hide Holds, Owns, IdentityBelow, Put, LeafPte, Or, Vpn, Vpn1, SamePage, RegionKeys, Regions, AllUsed;
      t, leaves := t0, map[];
      NoRegions(KERNEL_BASE);
      IdentityNone(leaves, KERNEL_BASE);
      SameBelowRefl(ram, lo);
      var paddr := KERNEL_BASE;
      while paddr < freeRamEnd
        invariant KERNEL_BASE <= paddr <= freeRamEnd && paddr % PAGE_SIZE == 0
        invariant MemOk() && nextAddr == old(nextAddr) + Regions(KERNEL_BASE, paddr - KERNEL_BASE) * PAGE_SIZE
        invariant t.second.Keys == RegionKeys(KERNEL_BASE, paddr - KERNEL_BASE)
        invariant AllUsed(t, [], lo, nextAddr)
        invariant paddr > KERNEL_BASE ==> nextAddr < freeRamEnd
        invariant TableIn(ram, t, leaves, lo, nextAddr) && t.root == table1
        invariant IdentityBelow(leaves, map[], KERNEL_BASE, paddr)
        invariant SameBelow(old(ram), ram, lo)
      {
        ghost var before := ram;
        IdentityStep(leaves, map[], KERNEL_BASE, paddr);
        RegionStep(KERNEL_BASE, paddr - KERNEL_BASE);
        RegionsGrow(KERNEL_BASE, paddr - KERNEL_BASE + PAGE_SIZE, freeRamEnd - KERNEL_BASE);
        ghost var t' := t;
        ghost var next := nextAddr;
        o, t' := MapPage(table1, paddr, paddr, Or(Or(PAGE_R, PAGE_W), PAGE_X), t, leaves, lo);
        if o == Panic { return; }
        BelowAfterMap(old(ram), before, ram, t, lo, next);
        UsedAfterMap(t, t', [], lo, next, nextAddr);
        t, leaves := t', Put(leaves, Vpn(paddr), LeafPte(paddr, PAGE_R + PAGE_W + PAGE_X));
        paddr := paddr + PAGE_SIZE;
      }
      o := Done;
    }

    /** The loop of `create_process` over the pages of the image. */
    method LoadImage(table1: nat, image: seq<nat>, ghost t0: Table, ghost leaves0: map<nat, nat>, ghost lo: nat)
        returns (o: Outcome, ghost t: Table, ghost leaves: map<nat, nat>, ghost frames: seq<nat>)
      requires MemOk() && freeRam <= lo <= nextAddr && TableIn(ram, t0, leaves0, lo, nextAddr) && t0.root == table1
      requires Mappings(leaves0, [], freeRamEnd)
      requires forall i :: 0 <= i < |image| ==> image[i] < 256
      requires t0.second.Keys == RegionKeys(KERNEL_BASE, freeRamEnd - KERNEL_BASE) && nextAddr < freeRamEnd
      requires AllUsed(t0, [], lo, nextAddr)
      modifies this`nextAddr, this`ram
      ensures o == Done <==>
              old(nextAddr) + (ImagePages(|image|) + ImageTables(|image|)) * PAGE_SIZE < freeRamEnd
      ensures o == Done ==>
                && MemOk() && nextAddr == old(nextAddr) + (ImagePages(|image|) + ImageTables(|image|)) * PAGE_SIZE
                && SpaceOk(ram, Space(lo, nextAddr, t, leaves, frames, image), freeRamEnd) && t.root == table1
                && AllUsed(t, frames, lo, nextAddr)
                && SameBelow(old(ram), ram, lo)
    {
      hide Holds, Owns, Mappings, Put, LeafPte, Or, Vpn, Vpn1, SamePage, Loaded, FramesIn, SameBelow;
      hide RegionKeys, Regions, AllUsed;
      t, leaves, frames := t0, leaves0, [];
      NoRegions(USER_BASE);
      NothingLoaded(ram, t, image, lo, nextAddr);
      SameBelowRefl(ram, lo);
      var off := 0;
      while off < |image|
        invariant off == |frames| * PAGE_SIZE && (|frames| - 1) * PAGE_SIZE < |image|
        invariant |frames| * PAGE_SIZE <= nextAddr - freeRam
        invariant MemOk() && lo <= nextAddr < freeRamEnd
        invariant nextAddr == old(nextAddr) + (|frames| + Regions(USER_BASE, off)) * PAGE_SIZE
        invariant t.second.Keys == RegionKeys(KERNEL_BASE, freeRamEnd - KERNEL_BASE) + RegionKeys(USER_BASE, off)
        invariant TableIn(ram, t, leaves, lo, nextAddr) && t.root == table1
        invariant FramesIn(t, frames, lo, nextAddr) && Loaded(ram, frames, image)
        invariant AllUsed(t, frames, lo, nextAddr)
        invariant Mappings(leaves, frames, freeRamEnd)
        invariant SameBelow(old(ram), ram, lo)
        decreases |image| - off
      {
        ghost var before := ram;
        NotInKernel(off, freeRamEnd);
        RegionStep(USER_BASE, off);
        MorePages(off, |image|);
        o, t, leaves, frames := LoadPage(table1, image, off, t, leaves, frames, lo);
        if o == Panic { return; }
        SameBelowTransitive(old(ram), before, ram, lo, lo);
        off := off + PAGE_SIZE;
      }
      LastPage(|frames|, |image|);
      o := Done;
    }

    /** One round of that loop: a fresh page, filled from the image and mapped for the user. */
    method LoadPage(table1: nat, image: seq<nat>, off: nat,
                    ghost t0: Table, ghost leaves0: map<nat, nat>, ghost frames0: seq<nat>, ghost lo: nat)
        returns (o: Outcome, ghost t: Table, ghost leaves: map<nat, nat>, ghost frames: seq<nat>)
      requires MemOk() && freeRam <= lo <= nextAddr && TableIn(ram, t0, leaves0, lo, nextAddr) && t0.root == table1
      requires FramesIn(t0, frames0, lo, nextAddr) && Loaded(ram, frames0, image)
      requires Mappings(leaves0, frames0, freeRamEnd)
      requires off < |image| && off == |frames0| * PAGE_SIZE <= nextAddr - freeRam
      requires AllUsed(t0, frames0, lo, nextAddr)
      requires forall i :: 0 <= i < |image| ==> image[i] < 256
      modifies this`nextAddr, this`ram
      ensures o == Done <==>
              old(nextAddr) + (if Vpn1(USER_BASE + off) in t0.second then 1 else 2) * PAGE_SIZE < freeRamEnd
      ensures o == Done ==>
                && MemOk()
                && nextAddr == old(nextAddr) + (if Vpn1(USER_BASE + off) in t0.second then 1 else 2) * PAGE_SIZE
                && t.second.Keys == t0.second.Keys + {Vpn1(USER_BASE + off)}
                && TableIn(ram, t, leaves, lo, nextAddr) && t.root == table1
                && |frames| == |frames0| + 1 && AllUsed(t, frames, lo, nextAddr)
                && FramesIn(t, frames, lo, nextAddr) && Loaded(ram, frames, image)
                && Mappings(leaves, frames, freeRamEnd)
                && SameBelow(old(ram), ram, lo)
    {
      hide Holds, Owns, Mappings, Put, LeafPte, Or, Vpn, Vpn1, SamePage, Loaded, FramesIn, SameBelow, AllUsed;
      t, leaves, frames := t0, leaves0, frames0;
      var page;
      o, page := FillPage(image, off, t, leaves, frames, lo);
      if o == Panic { return; }
      UsedAfterFill(t, frames, lo, page);
      ghost var before := ram;
      ghost var next := nextAddr;
      MappingsStep(leaves, frames, freeRamEnd, page);
      UserFlagBits();
      o, t := MapPage(table1, USER_BASE + off, page, Or(Or(Or(PAGE_U, PAGE_R), PAGE_W), PAGE_X), t0, leaves, lo);
      if o == Panic { return; }
      leaves := Put(leaves, Vpn(USER_BASE + off), LeafPte(page, USER_FLAGS));
      frames := frames + [page];
      FramesAfterMap(before, ram, t0, t, frames, image, lo, next, nextAddr);
      UsedAfterMap(t0, t, frames, lo, next, nextAddr);
      SameBelowWeaken(old(ram), before, page, lo);
      BelowAfterMap(old(ram), before, ram, t0, lo, next);
    }

    /** `alloc_pages(1)` and `memcpy` of at most a page of the image. */
    method FillPage(image: seq<nat>, off: nat,
                    ghost t: Table, ghost leaves: map<nat, nat>, ghost frames: seq<nat>, ghost lo: nat)
        returns (o: Outcome, page: nat)
      requires MemOk() && lo <= nextAddr && TableIn(ram, t, leaves, lo, nextAddr)
      requires FramesIn(t, frames, lo, nextAddr) && Loaded(ram, frames, image)
      requires off < |image| && off == |frames| * PAGE_SIZE
      requires forall i :: 0 <= i < |image| ==> image[i] < 256
      modifies this`nextAddr, this`ram
      ensures o == Panic <==> old(nextAddr) + PAGE_SIZE >= freeRamEnd
      ensures o == Done ==>
                && MemOk() && page == old(nextAddr) && nextAddr == page + PAGE_SIZE
                && TableIn(ram, t, leaves, lo, nextAddr)
                && FramesIn(t, frames + [page], lo, nextAddr) && Loaded(ram, frames + [page], image)
                && SameBelow(old(ram), ram, page)
    {
      hide Holds, Owns, SamePage, Loaded, FramesIn, SameBelow, CopyBytes;
      o, page := AllocPages(1);
      if o == Panic { return; }
      var remaining := |image| - off;
      var copySize := if PAGE_SIZE <= remaining then PAGE_SIZE else remaining;
      ghost var zeroed := ram;
      var data := image[off..off + copySize];
      ram := CopyBytes(ram, page, data);
      ImagePart(image, off, data);
      BytesFilled(zeroed, page, off, image, data);
      PageFilled(old(ram), zeroed, ram, t, leaves, frames, image, page, lo);
    }
  }

  /** Image pages lie far below the kernel. */
  lemma NotInKernel(off: nat, end: nat)
    requires off <= FREE_RAM_SIZE && KERNEL_BASE <= end
    ensures Vpn1(USER_BASE + off) !in RegionKeys(KERNEL_BASE, end - KERNEL_BASE)
  {
    KeysAre(KERNEL_BASE, end - KERNEL_BASE);
  }

  lemma SomeKernelTable(end: nat)
    requires KERNEL_BASE < end
    ensures KernelTables(end) >= 1
  {
  }

  /** With bytes left to load, the image has another page. */
  lemma MorePages(off: nat, size: nat)
    requires off < size && off % PAGE_SIZE == 0
    ensures off / PAGE_SIZE + 1 <= ImagePages(size)
    ensures Regions(USER_BASE, off + PAGE_SIZE) <= ImageTables(size)
  {
    RegionsGrow(USER_BASE, off + PAGE_SIZE, ImagePages(size) * PAGE_SIZE);
  }

  lemma LastPage(n: nat, size: nat)
    requires (n - 1) * PAGE_SIZE < size <= n * PAGE_SIZE
    ensures ImagePages(size) == n && ImageTables(size) == Regions(USER_BASE, n * PAGE_SIZE)
  {
  }

  /** Building an address space leaves all initial stacks alone. */
  lemma StacksKept(m: Ram, m': Ram, base: nat, freeRam: nat, bound: nat)
    requires SameBelow(m, m', bound) && bound % PAGE_SIZE == 0 && freeRam <= bound < WORD
    requires base % 4 == 0 && base + PROC_NO_MAX * PROC_BYTES <= freeRam
    ensures forall i :: 0 <= i < PROC_NO_MAX ==> Load(m', InitialSp(base, i)) == Load(m, InitialSp(base, i))
  {
    hide SameBelow, Load;
    forall i | 0 <= i < PROC_NO_MAX
      ensures Load(m', InitialSp(base, i)) == Load(m, InitialSp(base, i))
    {
      WordBelow(m, m', bound, InitialSp(base, i));
    }
  }

  lemma OwnsMore(t: Table, t': Table, v: nat, page: nat)
    requires v !in t.second && t' == t.(second := t.second[v := page])
    ensures forall p :: Owns(t', p) <==> Owns(t, p) || p == page
  {
    OwnsAfter(t, v, page);
    hide Owns;
  }

  lemma RootOfTable(m: Ram, t: Table, leaves: map<nat, nat>, lo: nat, hi: nat)
    requires TableIn(m, t, leaves, lo, hi)
    ensures Owns(t, t.root) && PageAligned(t.root) && lo + PAGE_SIZE <= hi
  {
    assert Owns(t, t.root);
    hide Owns;
  }

  lemma RootUsed(root: nat)
    requires PageAligned(root)
    ensures AllUsed(Table(root, map[]), [], root, root + PAGE_SIZE)
  {
  }

  lemma AlignedBelow(p: nat, q: nat)
    requires p % PAGE_SIZE == 0 && q % PAGE_SIZE == 0 && p < q
    ensures p + PAGE_SIZE <= q
  {
  }

  /** A page taken by `map_page` is a table page. */
  lemma UsedAfterMap(t: Table, t': Table, frames: seq<nat>, lo: nat, next: nat, next': nat)
    requires AllUsed(t, frames, lo, next) && next % PAGE_SIZE == 0
    requires next' == next || next' == next + PAGE_SIZE
    requires forall p :: Owns(t, p) ==> Owns(t', p)
    requires next' > next ==> Owns(t', next)
    ensures AllUsed(t', frames, lo, next')
  {
    hide Owns;
    forall p: nat | PageAligned(p) && Inside(p, lo, next')
      ensures Owns(t', p) || p in frames
    {
      if p < next { AlignedBelow(p, next); }
    }
  }

  /** A page taken for the image is a frame. */
  lemma UsedAfterFill(t: Table, frames: seq<nat>, lo: nat, page: nat)
    requires AllUsed(t, frames, lo, page) && page % PAGE_SIZE == 0
    ensures AllUsed(t, frames + [page], lo, page + PAGE_SIZE)
  {
    hide Owns;
    forall p: nat | PageAligned(p) && Inside(p, lo, page + PAGE_SIZE)
      ensures Owns(t, p) || p in frames + [page]
    {
      if p < page { AlignedBelow(p, page); }
    }
  }

  lemma SameBelowWeaken(m: Ram, m': Ram, bound: nat, lo: nat)
    requires SameBelow(m, m', bound) && lo <= bound
    ensures SameBelow(m, m', lo)
  {
  }

  lemma SameBelowRefl(m: Ram, bound: nat)
    ensures SameBelow(m, m, bound)
  {
  }

  /** A `map_page` on a table above lo leaves what lies below lo alone. */
  lemma BelowAfterMap(m: Ram, before: Ram, after: Ram, t: Table, lo: nat, next: nat)
    requires SameBelow(m, before, lo) && lo <= next
    requires forall p :: Owns(t, p) ==> lo <= p
    requires forall p: nat :: PageAligned(p) && p + PAGE_SIZE <= next && !Owns(t, p) ==> SamePage(before, after, p)
    ensures SameBelow(m, after, lo)
  {
    hide Owns, Entry;
    forall p: nat | PageAligned(p) && p + PAGE_SIZE <= lo
      ensures SamePage(m, after, p)
    {
      assert SamePage(m, before, p) && SamePage(before, after, p);
    }
  }

  lemma NothingLoaded(m: Ram, t: Table, image: seq<nat>, lo: nat, hi: nat)
    ensures FramesIn(t, [], lo, hi) && Loaded(m, [], image)
  {
  }

  /** The frames survive a `map_page`, which only writes table pages. */
  lemma FramesAfterMap(before: Ram, after: Ram, t: Table, t': Table, frames: seq<nat>, image: seq<nat>,
                       lo: nat, next: nat, hi: nat)
    requires FramesIn(t, frames, lo, next) && Loaded(before, frames, image) && next <= hi
    requires forall p :: Owns(t', p) ==> Owns(t, p) || next <= p
    requires forall p: nat :: PageAligned(p) && p + PAGE_SIZE <= next && !Owns(t, p) ==> SamePage(before, after, p)
    ensures FramesIn(t', frames, lo, hi) && Loaded(after, frames, image)
  {
    hide Owns;
    LoadedSame(before, after, frames, image);
  }

  /** A fresh page filled from the image joins the frames. */
  lemma PageFilled(m: Ram, zeroed: Ram, filled: Ram, t: Table, leaves: map<nat, nat>, frames: seq<nat>, image: seq<nat>,
                   page: nat, lo: nat)
    requires PageAligned(page) && lo <= page && TableIn(m, t, leaves, lo, page)
    requires FramesIn(t, frames, lo, page) && Loaded(m, frames, image)
    requires SameBelow(m, zeroed, page)
    requires forall x :: 0 <= x < PAGE_SIZE ==> ByteAt(filled, page, x) == Padded(image, |frames| * PAGE_SIZE + x)
    requires forall q: nat :: q % PAGE_SIZE == 0 && q != page ==> SamePage(zeroed, filled, q)
    ensures TableIn(filled, t, leaves, lo, page + PAGE_SIZE)
    ensures FramesIn(t, frames + [page], lo, page + PAGE_SIZE) && Loaded(filled, frames + [page], image)
    ensures SameBelow(m, filled, page)
  {
    hide CopyBytes, ByteAt, Entry;
    SameBelowOther(m, zeroed, filled, page);
    TableBelow(m, filled, t, leaves, lo, page, page + PAGE_SIZE);
    FrameNew(t, frames, lo, page);
    FramesBelow(m, filled, t, frames, lo, page);
    hide TableIn, Owns, SamePage, SameBelow, FramesIn;
    LoadedStep(m, filled, frames, image, page);
  }

  lemma FramesBelow(m: Ram, m': Ram, t: Table, frames: seq<nat>, lo: nat, bound: nat)
    requires FramesIn(t, frames, lo, bound) && SameBelow(m, m', bound)
    ensures forall i :: 0 <= i < |frames| ==> SamePage(m, m', frames[i])
  {
    hide Owns, SamePage;
  }

  /** What is copied to a page is its part of the zero-padded image. */
  lemma ImagePart(image: seq<nat>, off: nat, data: seq<nat>)
    requires off < |image|
    requires data == image[off..off + (if PAGE_SIZE <= |image| - off then PAGE_SIZE else |image| - off)]
    ensures |data| <= PAGE_SIZE
    ensures forall x :: 0 <= x < PAGE_SIZE ==> Padded(data, x) == Padded(image, off + x)
  {
  }

  lemma BytesFilled(zeroed: Ram, page: nat, off: nat, image: seq<nat>, data: seq<nat>)
    requires PageAligned(page) && forall w :: 0 <= w < 1024 ==> Entry(zeroed, page, w) == 0
    requires |data| <= PAGE_SIZE && forall i :: 0 <= i < |data| ==> data[i] < 256
    requires forall x :: 0 <= x < PAGE_SIZE ==> Padded(data, x) == Padded(image, off + x)
    ensures forall x :: 0 <= x < PAGE_SIZE ==> ByteAt(CopyBytes(zeroed, page, data), page, x) == Padded(image, off + x)
    ensures forall q: nat :: q % PAGE_SIZE == 0 && q != page ==> SamePage(zeroed, CopyBytes(zeroed, page, data), q)
  {
    hide CopyBytes, ByteAt, Entry, SamePage;
    CopyBytesEffect(zeroed, page, data);
    ZeroBytes(zeroed, page);
    forall x | 0 <= x < PAGE_SIZE
      ensures ByteAt(CopyBytes(zeroed, page, data), page, x) == Padded(image, off + x)
    {
      assert Padded(data, x) == Padded(image, off + x);
    }
  }

  lemma SameBelowOther(m: Ram, zeroed: Ram, filled: Ram, page: nat)
    requires SameBelow(m, zeroed, page)
    requires forall q: nat :: q % PAGE_SIZE == 0 && q != page ==> SamePage(zeroed, filled, q)
    ensures SameBelow(m, filled, page)
  {
    hide Entry;
    forall p: nat | PageAligned(p) && p + PAGE_SIZE <= page
      ensures SamePage(m, filled, p)
    {
      assert SamePage(m, zeroed, p) && SamePage(zeroed, filled, p);
    }
  }

  lemma FrameNew(t: Table, frames: seq<nat>, lo: nat, page: nat)
    requires FramesIn(t, frames, lo, page) && PageAligned(page) && lo <= page
    requires forall p: nat :: Owns(t, p) ==> p + PAGE_SIZE <= page
    ensures FramesIn(t, frames + [page], lo, page + PAGE_SIZE)
  {
    hide Owns;
  }

  lemma SamePageAfterStore(m: Ram, t: Table, page: nat, w: nat, word: nat)
    requires page % PAGE_SIZE == 0 && w < 1024 && Owns(t, page)
    ensures forall p: nat :: PageAligned(p) && !Owns(t, p) ==> SamePage(m, Store(m, page + 4 * w, word), p)
  {
    hide Owns, Store, Entry;
    forall p: nat, x: nat | PageAligned(p) && !Owns(t, p) && 0 <= x < 1024
      ensures Entry(Store(m, page + 4 * w, word), p, x) == Entry(m, p, x)
    {
      EntryAfterStore(m, page, w, word, p, x);
    }
  }

  lemma SameOutside(m: Ram, zeroed: Ram, t: Table, bound: nat, root: nat, v: nat, word: nat)
    requires SameBelow(m, zeroed, bound) && root == t.root && root % PAGE_SIZE == 0 && v < 1024
    ensures forall p: nat :: PageAligned(p) && p + PAGE_SIZE <= bound && !Owns(t, p) ==>
              SamePage(m, Store(zeroed, root + 4 * v, word), p)
  {
    SamePageAfterStore(zeroed, t, root, v, word);
    hide Store, Owns, Entry;
    var m' := Store(zeroed, root + 4 * v, word);
    forall p: nat | PageAligned(p) && p + PAGE_SIZE <= bound && !Owns(t, p)
      ensures SamePage(m, m', p)
    {
      assert SamePage(m, zeroed, p) && SamePage(zeroed, m', p);
    }
  }

  lemma HangTable(m: Ram, t: Table, leaves: map<nat, nat>, lo: nat, v: nat, page: nat, hi: nat)
    requires TableIn(m, t, leaves, lo, page) && lo <= page && page + PAGE_SIZE <= hi
    requires PageAligned(page) && v < 1024 && v !in t.second
    requires forall w :: 0 <= w < 1024 ==> Entry(m, page, w) == 0
    ensures TableIn(Store(m, t.root + 4 * v, PointerPte(page)), t.(second := t.second[v := page]), leaves, lo, hi)
    ensures forall p :: Owns(t.(second := t.second[v := page]), p) ==> Owns(t, p) || p == page
  {
    AddSecond(m, t, leaves, v, page);
    OwnsAfter(t, v, page);
    hide Owns, Holds;
    var more := t.(second := t.second[v := page]);
    forall p | Owns(more, p)
      ensures Inside(p, lo, hi)
    {
      assert Owns(t, p) || p == page;
    }
  }
}
