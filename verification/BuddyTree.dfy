/**
 The complete binary tree that rust/src/mem.rs flattens into `buddy_meta`.

 Nodes are heap indexes: the root is 0 and the children of i are 2i+1 and 2i+2.
 A set of nodes stands for the live blocks.  `StateOf` says what the metadata of
 each node must be for a given live set, so the whole array is a function of the
 live set.
 */
module BuddyTree {
  import opened Bits
  import opened Orders

  datatype BlockState = Free | Allocated | Split

  /** The node above i; the root has none and is mapped to itself. */
  function Parent(i: nat): nat
  {
    if i == 0 then 0 else (i - 1) / 2
  }

  function Level(i: nat): nat
  {
    Ilog2(i + 1)
  }

  /** Position of i among the nodes of its level, counted from the left. */
  function Position(i: nat): nat
  {
    Ilog2Bounds(i + 1);
    i + 1 - Pow2(Level(i))
  }

  /** x is a or lies in the subtree below a. */
  predicate Under(x: nat, a: nat)
  {
    x == a || (x > a && Under(Parent(x), a))
  }

  predicate StrictlyUnder(x: nat, a: nat)
  {
    x != a && Under(x, a)
  }

  ghost predicate Antichain(live: set<nat>)
  {
    forall a, b :: a in live && b in live && a != b ==> !Under(a, b)
  }

  /** Some live node lies at or below i. */
  ghost predicate Occupied(live: set<nat>, i: nat)
  {
    exists b :: b in live && Under(b, i)
  }

  /** What the metadata of node i must be when `live` are the live blocks. */
  ghost function StateOf(live: set<nat>, i: nat): BlockState
  {
    if i in live then Allocated else if Occupied(live, i) then Split else Free
  }

  /** Node x neither contains nor is contained in a live block. */
  ghost predicate Fits(live: set<nat>, x: nat)
  {
    forall b :: b in live ==> !Under(b, x) && !Under(x, b)
  }

  /** Byte size of the block of a node, in a memory of 2^high bytes. */
  function Size(high: nat, i: nat): nat
    requires Level(i) <= high
  {
    Pow2(high - Level(i))
  }

  /** Byte offset of the block of a node. */
  function Offset(high: nat, i: nat): nat
    requires Level(i) <= high
  {
    Shl(Position(i), high - Level(i))
  }

  // ------------------------------------------------------------ level facts

  lemma LevelOfChild(i: nat)
    ensures Level(2 * i + 1) == Level(2 * i + 2) == Level(i) + 1
    ensures Parent(2 * i + 1) == Parent(2 * i + 2) == i
    ensures Position(2 * i + 1) == 2 * Position(i)
    ensures Position(2 * i + 2) == 2 * Position(i) + 1
  {
  }

  lemma LevelOfParent(i: nat)
    requires i > 0
    ensures Level(i) == Level(Parent(i)) + 1
    ensures i == 2 * Parent(i) + 1 || i == 2 * Parent(i) + 2
  {
  }

  lemma LevelBound(i: nat, k: nat)
    ensures Level(i) <= k <==> i < Pow2(k + 1) - 1
    ensures Position(i) < Pow2(Level(i))
  {
    Ilog2Bounds(i + 1);
    if Level(i) <= k {
      Pow2Monotone(Level(i) + 1, k + 1);
    } else {
      Pow2Monotone(k + 1, Level(i));
    }
  }

  lemma {:induction false} UnderLevel(x: nat, a: nat)
    requires Under(x, a)
    ensures Level(a) <= Level(x)
    ensures Level(a) == Level(x) ==> x == a
  {
    if x != a {
      LevelOfParent(x);
      UnderLevel(Parent(x), a);
    }
  }

  lemma {:induction false} UnderTransitive(x: nat, y: nat, a: nat)
    requires Under(x, y) && Under(y, a)
    ensures Under(x, a)
  {
    if x != y { UnderTransitive(Parent(x), y, a); }
  }

  lemma {:induction false} UnderRoot(x: nat)
    ensures Under(x, 0)
  {
    if x > 0 { UnderRoot(Parent(x)); }
  }

  /** A node below i is i itself or below one of its children. */
  lemma {:induction false} UnderSplit(x: nat, i: nat)
    ensures Under(x, i) <==> x == i || Under(x, 2 * i + 1) || Under(x, 2 * i + 2)
  {
    if x > i {
      LevelOfParent(x);
      UnderSplit(Parent(x), i);
    }
  }

  lemma StrictlyUnderChild(i: nat, x: nat)
    ensures StrictlyUnder(2 * i + 1, x) <==> Under(i, x)
    ensures StrictlyUnder(2 * i + 2, x) <==> Under(i, x)
  {
    assert Parent(2 * i + 1) == i && Parent(2 * i + 2) == i;
    assert Under(i, x) ==> x <= i;
  }

  // ------------------------------------------------------------ byte ranges

  lemma RangeOfChild(high: nat, i: nat)
    requires Level(i) < high
    ensures Level(2 * i + 1) == Level(2 * i + 2) == Level(i) + 1
    ensures 2 * Size(high, 2 * i + 1) == Size(high, i)
    ensures Size(high, 2 * i + 2) == Size(high, 2 * i + 1)
    ensures Offset(high, 2 * i + 1) == Offset(high, i)
    ensures Offset(high, 2 * i + 2) == Offset(high, i) + Size(high, 2 * i + 2)
  {
    LevelOfChild(i);
    var p, k := Position(i), high - (Level(i) + 1);
    ShlSum(p, p, k);
    ShlSum(2 * p, 1, k);
    ShlOne(k);
  }

  lemma {:induction false} UnderRange(high: nat, x: nat, a: nat)
    requires Under(x, a) && Level(x) <= high
    ensures Level(a) <= high
    ensures Offset(high, a) <= Offset(high, x)
    ensures Offset(high, x) + Size(high, x) <= Offset(high, a) + Size(high, a)
  {
    if x != a {
      LevelOfParent(x);
      UnderRange(high, Parent(x), a);
      RangeOfChild(high, Parent(x));
    }
  }

  ghost predicate RangesApart(high: nat, x: nat, a: nat)
    requires Level(x) <= high && Level(a) <= high
  {
    || Offset(high, x) + Size(high, x) <= Offset(high, a)
    || Offset(high, a) + Size(high, a) <= Offset(high, x)
  }

  lemma ShiftedApart(p: nat, q: nat, k: nat)
    requires p < q
    ensures Shl(p, k) + Pow2(k) <= Shl(q, k)
  {
    ShlSum(p, 1, k);
    ShlSum(p + 1, q - p - 1, k);
    ShlOne(k);
  }

  lemma {:induction false} ApartIfUnrelated(high: nat, x: nat, a: nat)
    requires Level(x) <= high && Level(a) <= Level(x)
    requires !Under(x, a)
    ensures RangesApart(high, x, a)
    decreases x
  {
    if Level(x) == Level(a) {
      var k := high - Level(x);
      if Position(x) < Position(a) {
        ShiftedApart(Position(x), Position(a), k);
      } else {
        ShiftedApart(Position(a), Position(x), k);
      }
    } else {
      LevelOfParent(x);
      assert x > a by {
        if x < a { Ilog2Monotone(x + 1, a + 1); }
      }
      ApartIfUnrelated(high, Parent(x), a);
      assert Under(x, Parent(x));
      UnderRange(high, x, Parent(x));
    }
  }

  lemma {:induction false} Ilog2Monotone(a: nat, b: nat)
    requires 0 < a <= b
    ensures Ilog2(a) <= Ilog2(b)
  {
    if a > 1 { Ilog2Monotone(a / 2, b / 2); }
  }

  /** Overlap of byte ranges and the tree order are the same thing. */
  lemma ApartIffUnrelated(high: nat, x: nat, a: nat)
    requires Level(x) <= high && Level(a) <= high
    ensures RangesApart(high, x, a) <==> !Under(x, a) && !Under(a, x)
  {
    if Under(x, a) { UnderRange(high, x, a); }
    else if Under(a, x) { UnderRange(high, a, x); }
    else if Level(a) <= Level(x) { ApartIfUnrelated(high, x, a); }
    else { ApartIfUnrelated(high, a, x); }
  }

  lemma RangeInside(high: nat, i: nat)
    requires Level(i) <= high
    ensures Offset(high, i) + Size(high, i) <= Pow2(high)
  {
    UnderRoot(i);
    UnderRange(high, i, 0);
    RootRange(high);
  }

  lemma RootRange(high: nat)
    ensures Level(0) == 0 && Offset(high, 0) == 0 && Size(high, 0) == Pow2(high)
  {
    ShlOne(high);
  }

  // ------------------------------------------------------- the search stack

  /**
   What the depth-first search still has on its stack, from bottom to top, when it
   looks at node i: the right siblings of those nodes on the path from the root to
   i that are left children.
   */
  function Pending(i: nat): seq<nat>
  {
    if i == 0 then []
    else if i % 2 == 1 then Pending(Parent(i)) + [i + 1]
    else Pending(Parent(i))
  }

  lemma {:induction false} PendingLength(i: nat)
    ensures |Pending(i)| <= Level(i)
  {
    if i > 0 {
      LevelOfParent(i);
      PendingLength(Parent(i));
    }
  }

  /** Taking the next entry off the stack moves to the block right after i's block. */
  lemma {:induction false} PendingNext(high: nat, i: nat)
    requires Level(i) <= high
    requires Pending(i) != []
    ensures var t := Pending(i)[|Pending(i)| - 1];
            && t > 0
            && Level(t) <= Level(i)
            && Pending(i) == Pending(t) + [t]
            && Offset(high, t) == Offset(high, i) + Size(high, i)
            && StrictlyUnder(i, Parent(t))
  {
    hide Shl, Pow2, Ilog2, Offset, Size, Position;
    assert i > 0;
    PendingStep(i);
    LevelOfParent(i);
    var p := Parent(i);
    RangeOfChild(high, p);
    assert Under(i, p) && p < i;
    if i == 2 * p + 1 {
      LevelOfChild(p);
    } else {
      PendingNext(high, p);
      var a := Parent(Pending(p)[|Pending(p)| - 1]);
      assert a <= p < i;
      assert Under(i, a);
    }
  }

  lemma PendingOfLeft(i: nat)
    ensures Pending(2 * i + 1) == Pending(i) + [2 * i + 2]
  {
    var left := 2 * i + 1;
    assert left % 2 == 1 && Parent(left) == i;
  }

  /** The stack below a node in terms of the stack below its parent. */
  lemma PendingStep(i: nat)
    requires i > 0
    ensures var p := Parent(i);
            || (i == 2 * p + 1 && Pending(i) == Pending(p) + [i + 1]
                && Pending(i + 1) == Pending(p) && Parent(i + 1) == p)
            || (i == 2 * p + 2 && Pending(i) == Pending(p))
  {
    var p := Parent(i);
    hide Ilog2;
    LevelOfParent(i);
    if i == 2 * p + 1 { assert Parent(i + 1) == p; }
  }

  lemma PendingEmptyAbove(i: nat)
    requires i > 0 && Pending(i) == []
    ensures i == 2 * Parent(i) + 2 && Pending(Parent(i)) == []
  {
    PendingStep(i);
    hide Pending, Parent;
  }

  lemma {:induction false} PendingEmpty(high: nat, i: nat)
    requires Level(i) <= high
    requires Pending(i) == []
    ensures Offset(high, i) + Size(high, i) == Pow2(high)
  {
    hide Shl, Pow2, Ilog2, Offset, Size, Position, Pending;
    if i > 0 {
      PendingEmptyAbove(i);
      LevelOfParent(i);
      var p := Parent(i);
      RangeOfChild(high, p);
      PendingEmpty(high, p);
    } else {
      RootRange(high);
    }
  }

  // ------------------------------------------------ the path being descended

  /** The metadata while the search is at `top`: every node above it is `Split`. */
  ghost function PathState(live: set<nat>, top: nat, x: nat): BlockState
  {
    if StrictlyUnder(top, x) then Split else StateOf(live, x)
  }

  /** No fitting node of the requested level starts before byte `bound`. */
  ghost predicate NoFitBefore(high: nat, live: set<nat>, level: nat, bound: nat)
    requires level <= high
  {
    forall x :: Level(x) == level && Fits(live, x) ==> bound <= Offset(high, x)
  }

  /** If nothing below i fits, the search may move past i's block. */
  lemma SkipBlock(high: nat, live: set<nat>, level: nat, i: nat)
    requires Level(i) <= level <= high
    requires NoFitBefore(high, live, level, Offset(high, i))
    requires forall x :: Level(x) == level && Under(x, i) ==> !Fits(live, x)
    ensures NoFitBefore(high, live, level, Offset(high, i) + Size(high, i))
  {
    forall x | Level(x) == level && Fits(live, x)
      ensures Offset(high, i) + Size(high, i) <= Offset(high, x)
    {
      if Under(i, x) { UnderLevel(i, x); }
      ApartIffUnrelated(high, x, i);
    }
  }

  /** A node that is not free does not fit. */
  lemma NotFreeBlocks(live: set<nat>, i: nat)
    requires StateOf(live, i) != Free
    ensures !Fits(live, i)
  {
  }

  /** A node with nothing live below it or above it fits. */
  lemma FreeFits(live: set<nat>, i: nat)
    requires StateOf(live, i) == Free
    requires forall x :: StrictlyUnder(i, x) ==> x !in live
    ensures Fits(live, i)
  {
  }

  /** Everything below a free node is free. */
  lemma FreeBelow(live: set<nat>, i: nat, x: nat)
    requires StateOf(live, i) == Free && Under(x, i)
    ensures StateOf(live, x) == Free
  {
    forall b | b in live && Under(b, x)
      ensures false
    {
      UnderTransitive(b, x, i);
    }
    if x in live { assert Under(x, x); }
  }

  /** Marking the fitting node `top` allocated yields the metadata of the larger live set. */
  lemma AllocState(live: set<nat>, top: nat, x: nat)
    requires forall a :: StrictlyUnder(top, a) ==> a !in live
    ensures StateOf(live + {top}, x) == if x == top then Allocated else PathState(live, top, x)
  {
  }

  // -------------------------------------------------------------- releasing

  /** The other child of i's parent. */
  function Sibling(i: nat): nat
    requires i > 0
  {
    if i % 2 == 1 then i + 1 else i - 1
  }

  /** Removing i0 changes the required state only of i0 and the nodes above it. */
  lemma ReleaseState(live: set<nat>, i0: nat, x: nat)
    requires i0 in live && Antichain(live)
    ensures x == i0 ==> StateOf(live - {i0}, x) == Free
    ensures !Under(i0, x) ==> StateOf(live - {i0}, x) == StateOf(live, x)
    ensures StrictlyUnder(i0, x) ==> StateOf(live, x) == Split
  {
  }

  /** With both children free and the node itself not live, the parent is free. */
  lemma MergeUp(live: set<nat>, i: nat)
    requires i > 0 && Parent(i) !in live
    requires StateOf(live, i) == Free && StateOf(live, Sibling(i)) == Free
    ensures StateOf(live, Parent(i)) == Free
  {
    var p := Parent(i);
    LevelOfParent(i);
    forall b | b in live && Under(b, p)
      ensures false
    {
      UnderSplit(b, p);
      assert Under(b, i) || Under(b, Sibling(i));
    }
  }

  /** A sibling that is not free keeps every node above it split. */
  lemma MergeStops(live: set<nat>, i: nat, x: nat)
    requires i > 0 && StateOf(live, Sibling(i)) != Free
    requires StrictlyUnder(i, x)
    requires x !in live
    ensures StateOf(live, x) == Split
  {
    var s := Sibling(i);
    LevelOfParent(i);
    assert Parent(s) == Parent(i);
    assert Under(s, x);
    if s in live {
      assert Occupied(live, x);
    } else {
      var b :| b in live && Under(b, s);
      UnderTransitive(b, s, x);
    }
  }
}
