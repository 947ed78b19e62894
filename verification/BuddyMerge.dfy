/**
 The merging loop of `buddy_free`, as values.
 */
module BuddyMerge {
  import opened Bits
  import opened Orders
  import opened BuddyTree
  import opened BuddySearch

  /** The position arithmetic with XOR names the sibling. */
  lemma SiblingByXor(i: nat)
    requires i > 0
    ensures Xor(Position(i), 1) + Pow2(Level(i)) - 1 == Sibling(i)
    ensures Level(Sibling(i)) == Level(i) && Sibling(i) > 0 && Parent(Sibling(i)) == Parent(i)
  {
    XorOne(Position(i));
    LevelOfParent(i);
    var h := Pow2(Level(i) - 1);
    assert Pow2(Level(i)) == 2 * h;
    LevelOfChild(Parent(i));
  }

  /** The index arithmetic of `buddy_free` for the buddy of node i of the given level. */
  function BuddyIndex(i: nat, level: nat): nat
    requires Pow2(level) <= i + 1
  {
    Xor(1 + i - Pow2(level), 1) + Pow2(level) - 1
  }

  /** What the index arithmetic names when it is done at level 0, whatever the node. */
  function AtLevelZero(i: nat): nat
  {
    if i % 2 == 1 then i - 1 else i + 1
  }

  /**
   The buddy of a node is its sibling as long as the level is positive, even if it is not
   the node's own level ...
   */
  lemma BuddyOf(i: nat, level: nat)
    requires level <= Level(i)
    ensures Pow2(level) <= i + 1
    ensures BuddyIndex(i, level) == if level > 0 then Sibling(i) else AtLevelZero(i)
  {
    hide Pow2, Xor, Ilog2;
    RootLevel(i);
    Ilog2Bounds(i + 1);
    Pow2Monotone(level, Level(i));
    if level > 0 {
      Pow2Next(level - 1);
      FlipAbove(i, Pow2(level - 1));
    } else {
      XorOne(i);
      PowerZero(level);
    }
  }

  lemma PowerZero(k: nat)
    requires k == 0
    ensures Pow2(k) == 1
  {
  }

  /** Taking away an even number does not change which neighbour the XOR picks. */
  lemma FlipAbove(i: nat, h: nat)
    requires 0 < 2 * h <= i + 1
    ensures Xor(1 + i - 2 * h, 1) + 2 * h - 1 == if i % 2 == 1 then i + 1 else i - 1
  {
    hide Xor;
    var p := 1 + i - 2 * h;
    SameParity(p, i, h);
    XorOne(p);
  }

  lemma SameParity(p: nat, i: nat, h: nat)
    requires p + 2 * h == i + 1
    ensures p % 2 == 0 <==> i % 2 == 1
  {
  }

  lemma SiblingInside(depth: nat, i: nat)
    requires 0 < i < NodeCount(depth)
    ensures Sibling(i) < NodeCount(depth) && Level(Sibling(i)) == Level(i)
    ensures i % 2 == 0 && AtLevelZero(i) >= NodeCount(depth) ==> Level(i) == depth
  {
    SiblingByXor(i);
    TreeBound(depth, i);
    TreeBound(depth, Sibling(i));
    if Level(i) < depth { ParentInside(depth, i); }
  }

  /** Above the last level even the next index exists. */
  lemma ParentInside(depth: nat, i: nat)
    requires Level(i) < depth
    ensures i + 1 < NodeCount(depth)
  {
    LevelBound(i, depth - 1);
    assert Pow2(depth + 1) == 2 * Pow2(depth);
  }

  /** ... but for the root the arithmetic names node 1, its own child. */
  lemma BuddyOfRoot()
    ensures Level(0) == 0 && BuddyIndex(0, 0) == 1
  {
    XorOne(0);
  }

  /**
   i is the node just made free on behalf of i0: it has nothing live below it, the
   nodes above it still say `Split`, and everything else is as the smaller live set
   requires.
   */
  ghost predicate Merging(less: set<nat>, i0: nat, i: nat, meta: seq<BlockState>)
  {
    Under(i0, i) && StateOf(less, i) == Free && OnPath(meta, less, i)
  }

  lemma RootLevel(i: nat)
    ensures Level(i) == 0 <==> i == 0
  {
    if i > 0 { LevelOfParent(i); }
  }

  /** The parent of the node reached still says `Split`. */
  lemma ParentSplit(less: set<nat>, i0: nat, i: nat, meta: seq<BlockState>)
    requires 0 < i < |meta| && Merging(less, i0, i, meta)
    ensures Parent(i) < |meta| && meta[Parent(i)] == Split
  {
    LevelOfParent(i);
    assert Under(i, Parent(i));
  }

  lemma ReleaseStart(nodes: set<nat>, i0: nat, meta: seq<BlockState>)
    requires Antichain(nodes) && i0 in nodes && i0 < |meta|
    requires meta[i0] == Free
    requires forall x :: 0 <= x < |meta| && x != i0 ==> meta[x] == StateOf(nodes, x)
    ensures Merging(nodes - {i0}, i0, i0, meta)
    ensures i0 == 0 && |meta| > 1 ==> meta[1] == Free
  {
    forall x | 0 <= x < |meta|
      ensures meta[x] == PathState(nodes - {i0}, i0, x)
    {
      ReleaseState(nodes, i0, x);
    }
    ReleaseState(nodes, i0, i0);
    if i0 == 0 && |meta| > 1 {
      assert Under(1, 0);
      FreeBelow(nodes - {i0}, 0, 1);
    }
  }

  /** The parent of a free pair is split in the array and free in the smaller live set. */
  lemma MergeStep(nodes: set<nat>, i0: nat, i: nat, meta: seq<BlockState>)
    requires Antichain(nodes) && i0 in nodes && 0 < i < |meta|
    requires Merging(nodes - {i0}, i0, i, meta)
    requires Sibling(i) < |meta| && meta[Sibling(i)] == Free
    ensures Parent(i) < |meta| && meta[Parent(i)] == Split
    ensures Level(Parent(i)) == Level(i) - 1
    ensures Merging(nodes - {i0}, i0, Parent(i), meta[Parent(i) := Free])
  {
    var less, p := nodes - {i0}, Parent(i);
    SiblingByXor(i);
    LevelOfParent(i);
    assert Under(i, p) && StrictlyUnder(i, p);
    UnderTransitive(i0, i, p);
    assert p != i0 by { UnderLevel(i0, i); }
    assert p !in nodes;
    assert !StrictlyUnder(i, Sibling(i)) by {
      if StrictlyUnder(i, Sibling(i)) { UnderLevel(i, Sibling(i)); }
    }
    MergeUp(less, i);
    forall x | 0 <= x < |meta|
      ensures meta[p := Free][x] == PathState(less, p, x)
    {
      StrictlyUnderChild(p, x);
    }
  }

  /** At the root, or next to a buddy that is not free, the array is right everywhere. */
  lemma MergeEnd(nodes: set<nat>, i0: nat, i: nat, meta: seq<BlockState>)
    requires Antichain(nodes) && i0 in nodes && i < |meta|
    requires Merging(nodes - {i0}, i0, i, meta)
    requires i == 0 || (Sibling(i) < |meta| && meta[Sibling(i)] != Free)
    ensures Describes(meta, nodes - {i0})
  {
    var less := nodes - {i0};
    if i > 0 { SiblingByXor(i); }
    forall x | 0 <= x < |meta|
      ensures meta[x] == StateOf(less, x)
    {
      if StrictlyUnder(i, x) {
        assert !StrictlyUnder(i, Sibling(i)) by {
          if StrictlyUnder(i, Sibling(i)) { UnderLevel(i, Sibling(i)); }
        }
        UnderTransitive(i0, i, x);
        assert x !in less;
        MergeStops(less, i, x);
      }
    }
  }

  // -------------------------------------------- when the level is not the node's own

  /** The node `steps` levels above i. */
  function Climb(i: nat, steps: nat): nat
    decreases steps
  {
    if steps == 0 then i else Climb(Parent(i), steps - 1)
  }

  lemma {:induction false} ClimbLevel(i: nat, steps: nat)
    requires steps <= Level(i)
    ensures Level(Climb(i, steps)) == Level(i) - steps && Under(i, Climb(i, steps))
    decreases steps
  {
    if steps > 0 {
      LevelOfParent(i);
      ClimbLevel(Parent(i), steps - 1);
      assert Under(i, Parent(i));
      UnderTransitive(i, Parent(i), Climb(i, steps));
    }
  }

  /** The state the search for a buddy finds at level 0, next to the node j it has reached. */
  ghost function FoundAtZero(less: set<nat>, j: nat): BlockState
  {
    PathState(less, j, AtLevelZero(j))
  }

  /**
   Node i is released with a level that is too small.  The merging climbs to node j, where
   the level is used up, if nothing else is live there; it then panics when the index it
   looks at lies outside the array, or is free and j is not right below the root.
   */
  ghost predicate StrayPanics(nodes: set<nat>, i: nat, level: nat, count: nat)
  {
    var less, j := nodes - {i}, Climb(i, level);
    && StateOf(less, j) == Free
    && (AtLevelZero(j) >= count || (FoundAtZero(less, j) == Free && Parent(j) != 0))
  }

  /**
   When it does not panic, the array is that of the remaining nodes exactly when something
   else is live below j, or the index it looked at happens to be as free as j's sibling.
   */
  ghost predicate StrayKeeps(nodes: set<nat>, i: nat, level: nat)
  {
    var less, j := nodes - {i}, Climb(i, level);
    j > 0 && (StateOf(less, j) != Free || (FoundAtZero(less, j) == Free <==> StateOf(less, Sibling(j)) == Free))
  }

  /** Merging that stops below j leaves something live below j. */
  lemma StopsBelow(less: set<nat>, i: nat, steps: nat)
    requires 0 < steps < Level(i) && StateOf(less, Sibling(i)) != Free
    ensures StateOf(less, Climb(i, steps)) != Free && Climb(i, steps) > 0
  {
    LevelOfParent(i);
    ClimbLevel(i, steps);
    var j, s := Climb(i, steps), Sibling(i);
    ClimbLevel(Parent(i), steps - 1);
    assert Parent(s) == Parent(i);
    assert Under(s, Parent(s));
    UnderTransitive(s, Parent(s), j);
    if StateOf(less, j) == Free { FreeBelow(less, j, s); }
  }

  /** No remaining node lies above one that was reached. */
  lemma NothingAbove(nodes: set<nat>, i0: nat, j: nat)
    requires Antichain(nodes) && i0 in nodes && Under(i0, j)
    ensures forall x :: StrictlyUnder(j, x) ==> x !in nodes - {i0}
  {
    forall x | StrictlyUnder(j, x)
      ensures x !in nodes - {i0}
    {
      UnderTransitive(i0, j, x);
    }
  }

  /** At j, next to an index that is not free: the array is right exactly if the sibling is not free either. */
  lemma StrayEnd(nodes: set<nat>, i0: nat, j: nat, meta: seq<BlockState>)
    requires 0 < j < |meta| && Sibling(j) < |meta| && Merging(nodes - {i0}, i0, j, meta)
    requires Antichain(nodes) && i0 in nodes
    ensures Describes(meta, nodes - {i0}) <==> StateOf(nodes - {i0}, Sibling(j)) != Free
  {
    var less := nodes - {i0};
    NothingAbove(nodes, i0, j);
    var p := Parent(j);
    LevelOfParent(j);
    assert StrictlyUnder(j, p);
    if StateOf(less, Sibling(j)) == Free {
      MergeUp(less, j);
      assert meta[p] == Split;
    } else {
      forall x | 0 <= x < |meta|
        ensures meta[x] == StateOf(less, x)
      {
        if StrictlyUnder(j, x) { MergeStops(less, j, x); }
      }
    }
  }

  /** Right below the root: freeing the root is right exactly if the other half is free. */
  lemma StrayRoot(nodes: set<nat>, i0: nat, j: nat, meta: seq<BlockState>)
    requires 0 < j < |meta| && Sibling(j) < |meta| && Parent(j) == 0 && Merging(nodes - {i0}, i0, j, meta)
    requires Antichain(nodes) && i0 in nodes
    ensures Describes(meta[0 := Free], nodes - {i0}) <==> StateOf(nodes - {i0}, Sibling(j)) == Free
  {
    var less := nodes - {i0};
    NothingAbove(nodes, i0, j);
    var after := meta[0 := Free];
    LevelOfParent(j);
    assert StrictlyUnder(j, 0);
    if StateOf(less, Sibling(j)) == Free {
      MergeUp(less, j);
      forall x | 0 <= x < |meta|
        ensures after[x] == StateOf(less, x)
      {
        if StrictlyUnder(j, x) { StrictlyUnderChild(0, x); }
      }
    } else {
      MergeStops(less, j, 0);
      assert after[0] == Free;
    }
  }

  /**
   On four pages with only page 0 live, node 3 is page 0; released with level 1 it leaves
   the root split although nothing is live.
   */
  lemma StrayExample()
    ensures !StrayPanics({3}, 3, 1, 7) && !StrayKeeps({3}, 3, 1)
  {
    var three := 3;
    assert {three} - {three} == {};
    assert Climb(three, 1) == 1;
    assert StrictlyUnder(1, 0);
    assert forall x :: !Occupied({}, x);
  }
}
