/**
 The state of the depth-first search of `buddy_alloc`, as values: what is true each
 time the loop is about to pop a node, and what each of the three things it can do
 with that node (descend, pass over, take it) makes of it.
 */
module BuddySearch {
  import opened Bits
  import opened BuddyTree

  /** Number of nodes of a tree with levels 0 to depth. */
  function NodeCount(depth: nat): nat
  {
    Pow2(depth + 1) - 1
  }

  /** The metadata array describes exactly the given live nodes. */
  ghost predicate Describes(meta: seq<BlockState>, nodes: set<nat>)
  {
    forall x :: 0 <= x < |meta| ==> meta[x] == StateOf(nodes, x)
  }

  /**
   `top` is the node about to be popped, `frontier` the byte offset up to which the
   search has excluded every block, and `descending` says that a free block has been
   found and is being split.
   */
  datatype Search = Search(task: Task, top: nat, frontier: nat, descending: bool)

  /** The task of one search: the tree, the live nodes and the level asked for. */
  datatype Task = Task(high: nat, depth: nat, nodes: set<nat>, req: nat, before: seq<BlockState>)

  ghost predicate ValidTask(t: Task)
  {
    && t.req <= t.depth <= t.high
    && |t.before| == NodeCount(t.depth)
    && Describes(t.before, t.nodes)
  }

  /**
   No node above the current one is live, and either nothing has been written (every
   node above it was split already) or it is the leftmost part of a free block that is
   being split.
   */
  ghost predicate AtNode(nodes: set<nat>, top: nat, descending: bool)
  {
    && (forall x :: StrictlyUnder(top, x) ==> x !in nodes)
    && (!descending ==> forall x :: StrictlyUnder(top, x) ==> StateOf(nodes, x) == Split)
    && (descending ==> StateOf(nodes, top) == Free)
  }

  /** The metadata while the search is at `top`. */
  ghost predicate OnPath(meta: seq<BlockState>, nodes: set<nat>, top: nat)
  {
    forall x :: 0 <= x < |meta| ==> meta[x] == PathState(nodes, top, x)
  }

  /** The loop invariant while the stack is not empty. */
  ghost predicate Searching(s: Search, meta: seq<BlockState>, stack: seq<nat>)
  {
    var t := s.task;
    && ValidTask(t)
    && Level(s.top) <= t.req
    && s.frontier == Offset(t.high, s.top)
    && NoFitBefore(t.high, t.nodes, t.req, s.frontier)
    && AtNode(t.nodes, s.top, s.descending)
    && stack == Pending(s.top) + [s.top]
    && |meta| == |t.before|
    && OnPath(meta, t.nodes, s.top)
    && (!s.descending ==> meta == t.before)
  }

  /** The loop invariant once the stack is empty. */
  ghost predicate SearchOver(s: Search, meta: seq<BlockState>)
  {
    var t := s.task;
    && ValidTask(t)
    && s.frontier == Pow2(t.high)
    && NoFitBefore(t.high, t.nodes, t.req, s.frontier)
    && meta == t.before
  }

  /** The bytes the search has still to look at. */
  function Remaining(s: Search): nat
  {
    if s.frontier <= Pow2(s.task.high) then Pow2(s.task.high) - s.frontier else 0
  }

  lemma TreeBound(depth: nat, i: nat)
    ensures i < NodeCount(depth) <==> Level(i) <= depth
  {
    LevelBound(i, depth);
  }

  lemma RootAtTop(root: nat)
    requires root == 0
    ensures Level(root) < 1 && Position(root) < 1 && Pending(root) == []
  {
  }

  /** A search about to look at node i, with nothing written. */
  ghost function SearchAt(t: Task, i: nat): Search
    requires Level(i) <= t.high
  {
    Search(t, i, Offset(t.high, i), false)
  }

  /** The search begins at the root, with nothing excluded yet. */
  lemma SearchStart(t: Task, root: nat)
    requires ValidTask(t) && root == 0
    ensures Level(root) <= t.high && Searching(SearchAt(t, root), t.before, [root])
  {
    RootAtTop(root);
    hide Level, Position, Pending, Offset;
    NothingAboveRoot(t.nodes, root);
    NothingBeforeRoot(t.high, t.nodes, t.req, root);
    assert [] + [root] == [root];
  }

  lemma NothingAboveRoot(nodes: set<nat>, root: nat)
    requires root == 0
    ensures AtNode(nodes, root, false)
    ensures forall x :: PathState(nodes, root, x) == StateOf(nodes, x)
  {
    assert forall x :: !StrictlyUnder(root, x);
  }

  lemma NothingBeforeRoot(high: nat, nodes: set<nat>, level: nat, root: nat)
    requires level <= high && Position(root) < 1 && Level(root) < 1
    ensures NoFitBefore(high, nodes, level, Offset(high, root))
  {
    ShlOne(high - Level(root));
  }

  /** The popped node is a valid index, and the stack never outgrows its array. */
  lemma TopOfStack(s: Search, meta: seq<BlockState>, stack: seq<nat>)
    requires Searching(s, meta, stack)
    ensures |stack| >= 1 && stack[|stack| - 1] == s.top
    ensures |stack| <= Level(s.top) + 1 <= s.task.req + 1
    ensures s.top < |meta|
  {
    PendingLength(s.top);
    TreeBound(s.task.depth, s.top);
  }

  /** Splitting a free node, or entering a split one: both children go on the stack. */
  lemma StepDown(s: Search, meta: seq<BlockState>, stack: seq<nat>) returns (s': Search)
    requires Searching(s, meta, stack)
    requires s.top < |meta| && Level(s.top) < s.task.req && meta[s.top] != Allocated
    ensures s'.task == s.task
    ensures Level(s'.top) == Level(s.top) + 1 && s'.frontier == s.frontier
    ensures Searching(s', meta[s.top := Split], stack[..|stack| - 1] + [2 * s.top + 2, 2 * s.top + 1])
  {
    hide ValidTask, Level, Offset, NoFitBefore, AtNode, OnPath, Pending;
    var i, free := s.top, meta[s.top] == Free;
    s' := s.(top := 2 * i + 1, descending := free);
    ReqInTree(s.task);
    RangeOfChild(s.task.high, i);
    DownPath(s.task.nodes, i, meta, s.descending);
    DownStack(i, stack);
  }

  lemma ReqInTree(t: Task)
    requires ValidTask(t)
    ensures t.req <= t.depth <= t.high
  {
  }

  /** The stack after entering a node. */
  lemma DownStack(i: nat, stack: seq<nat>)
    requires stack == Pending(i) + [i]
    ensures stack[..|stack| - 1] + [2 * i + 2, 2 * i + 1] == Pending(2 * i + 1) + [2 * i + 1]
  {
    hide Pending;
    PendingOfLeft(i);
    assert stack[..|stack| - 1] == Pending(i);
  }

  /** The metadata after entering a node. */
  lemma DownPath(nodes: set<nat>, i: nat, meta: seq<BlockState>, descending: bool)
    requires AtNode(nodes, i, descending) && OnPath(meta, nodes, i) && i < |meta| && meta[i] != Allocated
    ensures AtNode(nodes, 2 * i + 1, meta[i] == Free) && OnPath(meta[i := Split], nodes, 2 * i + 1)
    ensures meta[i] != Free ==> !descending && meta[i := Split] == meta
  {
    assert !StrictlyUnder(i, i);
    DownLeft(nodes, i, meta[i] == Free);
    hide AtNode, PathState, StateOf;
  }

  lemma DownLeft(nodes: set<nat>, i: nat, free: bool)
    requires forall x :: StrictlyUnder(i, x) ==> x !in nodes
    requires !free ==> forall x :: StrictlyUnder(i, x) ==> StateOf(nodes, x) == Split
    requires StateOf(nodes, i) == if free then Free else Split
    ensures AtNode(nodes, 2 * i + 1, free)
    ensures forall x :: PathState(nodes, 2 * i + 1, x) == if x == i then Split else PathState(nodes, i, x)
  {
    forall x
      ensures StrictlyUnder(2 * i + 1, x) <==> x == i || StrictlyUnder(i, x)
      ensures PathState(nodes, 2 * i + 1, x) == if x == i then Split else PathState(nodes, i, x)
    {
      StrictlyUnderChild(i, x);
    }
    if free {
      assert Parent(2 * i + 1) == i && Under(2 * i + 1, i);
      FreeBelow(nodes, i, 2 * i + 1);
    }
  }

  /** Passing over a node: it hides no fit, and it happens only before any write. */
  lemma StepSkip(s: Search, meta: seq<BlockState>, stack: seq<nat>) returns (s': Search)
    requires Searching(s, meta, stack)
    requires s.top < |meta|
    requires if Level(s.top) == s.task.req then meta[s.top] != Free else meta[s.top] == Allocated
    ensures s'.task == s.task
    ensures Remaining(s') < Remaining(s)
    ensures |stack| > 1 ==> Searching(s', meta, stack[..|stack| - 1])
    ensures |stack| == 1 ==> SearchOver(s', meta)
  {
    var i := s.top;
    assert !StrictlyUnder(i, i);
    NothingBelow(s.task.nodes, s.task.req, i);
    SkipBlock(s.task.high, s.task.nodes, s.task.req, i);
    RangeInside(s.task.high, i);
    var next := Offset(s.task.high, i) + Size(s.task.high, i);
    if |stack| == 1 {
      PendingEmpty(s.task.high, i);
      s' := s.(frontier := next);
    } else {
      PendingNext(s.task.high, i);
      var top := Pending(i)[|Pending(i)| - 1];
      Resume(s.task.nodes, i, top);
      s' := s.(top := top, frontier := next);
      assert stack[..|stack| - 1] == Pending(i);
    }
  }

  lemma NothingBelow(nodes: set<nat>, req: nat, i: nat)
    requires Level(i) <= req
    requires if Level(i) == req then StateOf(nodes, i) != Free else i in nodes
    ensures forall x :: Level(x) == req && Under(x, i) ==> !Fits(nodes, x)
  {
    forall x | Level(x) == req && Under(x, i)
      ensures !Fits(nodes, x)
    {
      if Level(i) == req {
        UnderLevel(x, i);
        NotFreeBlocks(nodes, i);
      }
    }
  }

  /** Every node above the next stack entry was already above the node just passed over. */
  lemma Resume(nodes: set<nat>, i: nat, t: nat)
    requires AtNode(nodes, i, false)
    requires t > 0 && StrictlyUnder(i, Parent(t))
    ensures AtNode(nodes, t, false)
    ensures forall x :: PathState(nodes, t, x) == PathState(nodes, i, x)
  {
    forall x: nat | StrictlyUnder(t, x)
      ensures StrictlyUnder(i, x)
    {
      UnderTransitive(i, Parent(t), x);
      assert x <= Parent(t) < i;
    }
  }

  /** Taking a free node of the requested level: it fits, nothing before it does. */
  lemma StepFound(s: Search, meta: seq<BlockState>, stack: seq<nat>)
    requires Searching(s, meta, stack)
    requires s.top < |meta| && Level(s.top) == s.task.req && meta[s.top] == Free
    ensures Fits(s.task.nodes, s.top)
    ensures NoFitBefore(s.task.high, s.task.nodes, s.task.req, Offset(s.task.high, s.top))
    ensures Describes(meta[s.top := Allocated], s.task.nodes + {s.top})
  {
    assert !StrictlyUnder(s.top, s.top);
    FreeFits(s.task.nodes, s.top);
    forall x | 0 <= x < |meta|
      ensures meta[s.top := Allocated][x] == StateOf(s.task.nodes + {s.top}, x)
    {
      AllocState(s.task.nodes, s.top, x);
    }
  }

  /** When the search ends empty-handed nothing of the level fits. */
  lemma NothingFits(s: Search, meta: seq<BlockState>)
    requires SearchOver(s, meta)
    ensures forall x :: Level(x) == s.task.req ==> !Fits(s.task.nodes, x)
  {
    forall x | Level(x) == s.task.req && Fits(s.task.nodes, x)
      ensures false
    {
      RangeInside(s.task.high, x);
    }
  }
}
