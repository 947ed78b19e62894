/**
 Bytes inside pages of the word memory (little endian), and the effect of `memset` to
 zero and `memcpy` on a page.
 */
module PageBytes {
  import opened Bits
  import opened Sv32

  function Scale(j: nat): nat
    requires j < 4
  {
    if j == 0 then 1 else if j == 1 then 0x100 else if j == 2 then 0x1_0000 else 0x100_0000
  }

  /** Byte j of a word. */
  function Lane(w: nat, j: nat): nat
    requires j < 4
  {
    w / Scale(j) % 256
  }

  function SetLane(w: nat, j: nat, b: nat): nat
    requires j < 4 && b < 256
  {
    w - Lane(w, j) * Scale(j) + b * Scale(j)
  }

  lemma LaneParts(w: nat) returns (h: nat)
    ensures Lane(w, 0) < 256 && Lane(w, 1) < 256 && Lane(w, 2) < 256 && Lane(w, 3) < 256
    ensures w == Lane(w, 0) + 0x100 * Lane(w, 1) + 0x1_0000 * Lane(w, 2) + 0x100_0000 * Lane(w, 3) + 0x1_0000_0000 * h
  {
    h := w / 0x1_0000_0000;
    var a, b, c := w / 0x100, w / 0x1_0000, w / 0x100_0000;
    assert a / 0x100 == b && b / 0x100 == c && c / 0x100 == h;
  }

  lemma LaneUnique(b0: nat, b1: nat, b2: nat, b3: nat, h: nat)
    requires b0 < 256 && b1 < 256 && b2 < 256 && b3 < 256
    ensures var w := b0 + 0x100 * b1 + 0x1_0000 * b2 + 0x100_0000 * b3 + 0x1_0000_0000 * h;
            Lane(w, 0) == b0 && Lane(w, 1) == b1 && Lane(w, 2) == b2 && Lane(w, 3) == b3
  {
    var w := b0 + 0x100 * b1 + 0x1_0000 * b2 + 0x100_0000 * b3 + 0x1_0000_0000 * h;
    assert w / 0x100 == b1 + 0x100 * b2 + 0x1_0000 * b3 + 0x100_0000 * h;
    assert w / 0x1_0000 == b2 + 0x100 * b3 + 0x1_0000 * h;
    assert w / 0x100_0000 == b3 + 0x100 * h;
  }

  lemma LaneAfterSet(w: nat, j: nat, b: nat, i: nat)
    requires j < 4 && i < 4 && b < 256
    ensures SetLane(w, j, b) >= 0
    ensures Lane(SetLane(w, j, b), i) == if i == j then b else Lane(w, i)
  {
    hide Lane;
    var h := LaneParts(w);
    var b0, b1, b2, b3 := Lane(w, 0), Lane(w, 1), Lane(w, 2), Lane(w, 3);
    if j == 0 { LaneUnique(b, b1, b2, b3, h); }
    else if j == 1 { LaneUnique(b0, b, b2, b3, h); }
    else if j == 2 { LaneUnique(b0, b1, b, b3, h); }
    else { LaneUnique(b0, b1, b2, b, h); }
  }

  /** Byte x of the page. */
  function ByteAt(m: Ram, page: nat, x: nat): nat
  {
    Lane(Entry(m, page, x / 4), x % 4)
  }

  function StoreByte(m: Ram, page: nat, x: nat, b: nat): Ram
    requires b < 256
  {
    LaneAfterSet(Entry(m, page, x / 4), x % 4, b, 0);
    Store(m, page + 4 * (x / 4), SetLane(Entry(m, page, x / 4), x % 4, b))
  }

  /** Two memories agree on a page. */
  ghost predicate SamePage(m: Ram, m': Ram, page: nat)
  {
    forall w :: 0 <= w < 1024 ==> Entry(m', page, w) == Entry(m, page, w)
  }

  lemma SamePageBytes(m: Ram, m': Ram, page: nat, x: nat)
    requires SamePage(m, m', page) && x < PAGE_SIZE
    ensures ByteAt(m', page, x) == ByteAt(m, page, x)
  {
  }

  lemma StoreByteEffect(m: Ram, page: nat, x: nat, b: nat)
    requires page % PAGE_SIZE == 0 && x < PAGE_SIZE && b < 256
    ensures forall y :: 0 <= y < PAGE_SIZE ==>
              ByteAt(StoreByte(m, page, x, b), page, y) == if y == x then b else ByteAt(m, page, y)
    ensures forall q: nat :: q % PAGE_SIZE == 0 && q != page ==> SamePage(m, StoreByte(m, page, x, b), q)
  {
    var was := Entry(m, page, x / 4);
    LaneAfterSet(was, x % 4, b, 0);
    var word := SetLane(was, x % 4, b);
    var m' := StoreByte(m, page, x, b);
    hide SetLane, Lane, Load, Store, Entry;
    forall y | 0 <= y < PAGE_SIZE
      ensures ByteAt(m', page, y) == if y == x then b else ByteAt(m, page, y)
    {
      EntryAfterStore(m, page, x / 4, word, page, y / 4);
      LaneAfterSet(was, x % 4, b, y % 4);
      SameByte(x, y);
    }
    forall q: nat, w: nat | q % PAGE_SIZE == 0 && q != page && 0 <= w < 1024
      ensures Entry(m', q, w) == Entry(m, q, w)
    {
      EntryAfterStore(m, page, x / 4, word, q, w);
    }
  }

  lemma SameByte(x: nat, y: nat)
    ensures x == y <==> x / 4 == y / 4 && x % 4 == y % 4
  {
  }

  /** `memcpy` of the bytes to the start of the page. */
  function CopyBytes(m: Ram, page: nat, data: seq<nat>): Ram
    requires forall i :: 0 <= i < |data| ==> data[i] < 256
    decreases |data|
  {
    if data == [] then m
    else
      var n := |data| - 1;
      StoreByte(CopyBytes(m, page, data[..n]), page, n, data[n])
  }

  lemma {:induction false} CopyBytesEffect(m: Ram, page: nat, data: seq<nat>)
    requires forall i :: 0 <= i < |data| ==> data[i] < 256
    requires page % PAGE_SIZE == 0 && |data| <= PAGE_SIZE
    ensures forall y :: 0 <= y < PAGE_SIZE ==>
              ByteAt(CopyBytes(m, page, data), page, y) == if y < |data| then data[y] else ByteAt(m, page, y)
    ensures forall q: nat :: q % PAGE_SIZE == 0 && q != page ==> SamePage(m, CopyBytes(m, page, data), q)
    decreases |data|
  {
    hide ByteAt, StoreByte, Entry;
    if data != [] {
      var n := |data| - 1;
      CopyBytesEffect(m, page, data[..n]);
      var mid := CopyBytes(m, page, data[..n]);
      StoreByteEffect(mid, page, n, data[n]);
      forall q: nat | q % PAGE_SIZE == 0 && q != page
        ensures SamePage(m, CopyBytes(m, page, data), q)
      {
        assert SamePage(m, mid, q) && SamePage(mid, CopyBytes(m, page, data), q);
      }
    }
  }

  /** `memset` of a range to zero. */
  function ZeroRange(m: Ram, start: nat, bytes: nat): Ram
  {
    map a | a in m && !(start <= a < start + bytes) :: m[a]
  }

  lemma ZeroRangeEffect(m: Ram, start: nat, bytes: nat)
    requires start % PAGE_SIZE == 0 && bytes % PAGE_SIZE == 0
    ensures forall q: nat, w :: q % PAGE_SIZE == 0 && start <= q < start + bytes && 0 <= w < 1024 ==>
              Entry(ZeroRange(m, start, bytes), q, w) == 0
    ensures forall q: nat :: q % PAGE_SIZE == 0 && !(start <= q < start + bytes) ==>
              SamePage(m, ZeroRange(m, start, bytes), q)
  {
    forall q: nat, w: nat | q % PAGE_SIZE == 0 && 0 <= w < 1024
      ensures start <= q + 4 * w < start + bytes <==> start <= q < start + bytes
    {
      WordInRange(start, bytes, q, w);
    }
  }

  lemma WordInRange(start: nat, bytes: nat, q: nat, w: nat)
    requires start % PAGE_SIZE == 0 && bytes % PAGE_SIZE == 0 && q % PAGE_SIZE == 0 && w < 1024
    ensures start <= q + 4 * w < start + bytes <==> start <= q < start + bytes
  {
  }

  lemma ZeroBytes(m: Ram, page: nat)
    requires forall w :: 0 <= w < 1024 ==> Entry(m, page, w) == 0
    ensures forall y :: 0 <= y < PAGE_SIZE ==> ByteAt(m, page, y) == 0
  {
  }

  /** A table whose pages did not change still holds the same mappings. */
  lemma HoldsUnchanged(m: Ram, m': Ram, t: Table, leaves: map<nat, nat>)
    requires Holds(m, t, leaves)
    requires forall p :: Owns(t, p) ==> SamePage(m, m', p)
    ensures Holds(m', t, leaves)
  {
    hide Entry, LeafAt, PointerPte;
    assert Owns(t, t.root);
    forall v, w | v in t.second && 0 <= w < 1024
      ensures Entry(m', t.second[v], w) == LeafAt(leaves, v, w)
    {
      assert Owns(t, t.second[v]);
      assert Entry(m, t.second[v], w) == LeafAt(leaves, v, w);
    }
  }
}
