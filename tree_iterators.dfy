/**
  The traversal iterators of org.zlzh.ds.tree: BreadthFirstIterator,
  DepthFirstIterator and ReverseDepthFirstIterator. Each keeps a list of
  pending nodes and the node it returned last; `next` takes the front and,
  for the first two, puts the node's children at the back (breadth first)
  or at the front (depth first). The nodes are subtree snapshots, as in
  Trees.

  The full runs are stated against reference orders: the concatenation of
  the levels TreesAtDepth(t, 0), TreesAtDepth(t, 1), ... for breadth first,
  and root-then-children preorder for depth first.
*/
module TreeIterators {
  import opened Trees
  import Options

  /** A call that succeeds, or the NoSuchElementException of an empty list. */
  datatype Result<T> = Ok(value: T) | NoSuchElement

  // ----- Reference orders -----

  /** A node, then each child's subtree, left to right. */
  function Preorder<E>(t: Tree<E>): seq<Tree<E>>
    decreases t, 1
  {
    [t] + ForestPreorder(t.children)
  }

  function ForestPreorder<E>(ts: seq<Tree<E>>): seq<Tree<E>>
    decreases ts, 0
  {
    if |ts| == 0 then [] else ForestPreorder(ts[..|ts| - 1]) + Preorder(ts[|ts| - 1])
  }

  /** All children of the trees of a forest, in order. */
  function Children<E>(ts: seq<Tree<E>>): seq<Tree<E>>
  {
    if |ts| == 0 then [] else Children(ts[..|ts| - 1]) + ts[|ts| - 1].children
  }

  /** TreesAtDepth(t, d) + TreesAtDepth(t, d + 1) + ... + TreesAtDepth(t, n - 1). */
  function LevelOrder<E>(t: Tree<E>, d: nat, n: nat): seq<Tree<E>>
    decreases n - d
  {
    if d >= n then [] else TreesAtDepth(t, d) + LevelOrder(t, d + 1, n)
  }

  function ForestLevels<E>(ts: seq<Tree<E>>, d: nat, n: nat): seq<Tree<E>>
    decreases n - d
  {
    if d >= n then [] else ForestAtDepth(ts, d) + ForestLevels(ts, d + 1, n)
  }

  /** The trees of `s` that have no children, in order. */
  function LeavesOf<E>(s: seq<Tree<E>>): seq<Tree<E>>
  {
    if |s| == 0 then []
    else LeavesOf(s[..|s| - 1]) + (if IsLeaf(s[|s| - 1]) then [s[|s| - 1]] else [])
  }

  // ----- Runs to exhaustion -----

  /** What the breadth-first iterator returns from a pending queue until it is empty. */
  function BfsRun<E>(queue: seq<Tree<E>>): seq<Tree<E>>
    decreases ForestSize(queue)
  {
    if |queue| == 0 then []
    else
      BfsStepSmaller(queue);
      [queue[0]] + BfsRun(queue[1..] + queue[0].children)
  }

  /** What the depth-first iterator returns from a pending queue until it is empty. */
  function DfsRun<E>(queue: seq<Tree<E>>): seq<Tree<E>>
    decreases ForestSize(queue)
  {
    if |queue| == 0 then []
    else
      DfsStepSmaller(queue);
      [queue[0]] + DfsRun(queue[0].children + queue[1..])
  }

  /** Replacing the front of the queue by its children shrinks the pending nodes by one. */
  lemma BfsStepSmaller<E>(queue: seq<Tree<E>>)
    requires |queue| > 0
    ensures ForestSize(queue[1..] + queue[0].children) == ForestSize(queue) - 1
  {
    ForestSizeAppend(queue[1..], queue[0].children);
    ForestSizeCons(queue[0], queue[1..]);
    assert queue == [queue[0]] + queue[1..];
  }

  lemma DfsStepSmaller<E>(queue: seq<Tree<E>>)
    requires |queue| > 0
    ensures ForestSize(queue[0].children + queue[1..]) == ForestSize(queue) - 1
  {
    ForestSizeAppend(queue[0].children, queue[1..]);
    ForestSizeCons(queue[0], queue[1..]);
    assert queue == [queue[0]] + queue[1..];
  }

  // ----- Breadth first is level order -----

  lemma {:induction false} ChildrenAppend<E>(a: seq<Tree<E>>, b: seq<Tree<E>>)
    ensures Children(a + b) == Children(a) + Children(b)
    decreases |b|
  {
    if |b| == 0 {
      assert a + b == a;
    } else {
      var b' := b[..|b| - 1];
      assert (a + b)[..|a + b| - 1] == a + b';
      assert (a + b)[|a + b| - 1] == b[|b| - 1];
      ChildrenAppend(a, b');
    }
  }

  lemma ChildrenCons<E>(t: Tree<E>, ts: seq<Tree<E>>)
    ensures Children([t] + ts) == t.children + Children(ts)
  {
    ChildrenAppend([t], ts);
    assert [t][..0] == [];
  }

  /**
    Taking the whole current queue first: the run of `ts + extra` returns
    `ts`, then continues with `extra` followed by all children of `ts`.
  */
  lemma {:induction false} BfsRunSplit<E>(ts: seq<Tree<E>>, extra: seq<Tree<E>>)
    ensures BfsRun(ts + extra) == ts + BfsRun(extra + Children(ts))
    decreases |ts|
  {
    if |ts| == 0 {
      assert ts + extra == extra;
      assert extra + Children(ts) == extra;
    } else {
      var t, r := ts[0], ts[1..];
      var q := ts + extra;
      assert q[0] == t && q[1..] == r + extra;
      assert BfsRun(q) == [t] + BfsRun((r + extra) + t.children);
      BfsRunSplit(r, extra + t.children);
      assert (r + extra) + t.children == r + (extra + t.children);
      assert ts == [t] + r;
      ChildrenCons(t, r);
      assert (extra + t.children) + Children(r) == extra + Children(ts);
    }
  }

  lemma {:induction false} LevelZero<E>(ts: seq<Tree<E>>)
    ensures ForestAtDepth(ts, 0) == ts
    decreases |ts|
  {
    if |ts| > 0 {
      LevelZero(ts[..|ts| - 1]);
      assert ts[..|ts| - 1] + [ts[|ts| - 1]] == ts;
    }
  }

  /** Level d + 1 of a forest is level d of all its children. */
  lemma {:induction false} LevelShift<E>(ts: seq<Tree<E>>, d: nat)
    ensures ForestAtDepth(ts, d + 1) == ForestAtDepth(Children(ts), d)
    decreases |ts|
  {
    if |ts| > 0 {
      var init, last := ts[..|ts| - 1], ts[|ts| - 1];
      LevelShift(init, d);
      ForestAtDepthAppend(Children(init), last.children, d);
    }
  }

  lemma {:induction false} LevelsShift<E>(ts: seq<Tree<E>>, d: nat, n: nat)
    ensures ForestLevels(ts, d + 1, n + 1) == ForestLevels(Children(ts), d, n)
    decreases n - d
  {
    if d < n {
      LevelShift(ts, d);
      LevelsShift(ts, d + 1, n);
    }
  }

  /** The children of a non-empty forest reach one level less deep. */
  lemma {:induction false} ChildrenHeight<E>(ts: seq<Tree<E>>)
    requires |ts| > 0
    ensures ForestHeight(Children(ts)) + 1 <= ForestHeight(ts)
    decreases |ts|
  {
    var init, last := ts[..|ts| - 1], ts[|ts| - 1];
    ForestHeightAppend(Children(init), last.children);
    if |init| > 0 {
      ChildrenHeight(init);
    }
  }

  lemma {:induction false} LevelsVanish<E>(ts: seq<Tree<E>>, d: nat, n: nat)
    requires d >= ForestHeight(ts)
    ensures ForestLevels(ts, d, n) == []
    decreases n - d
  {
    if d < n {
      ForestEmptyLevel(ts, d);
      LevelsVanish(ts, d + 1, n);
    }
  }

  lemma BfsRunUnfold<E>(ts: seq<Tree<E>>)
    ensures BfsRun(ts) == ts + BfsRun(Children(ts))
  {
    BfsRunSplit(ts, []);
    assert ts + [] == ts;
    assert [] + Children(ts) == Children(ts);
  }

  lemma {:induction false} BfsRunLevels<E>(ts: seq<Tree<E>>, n: nat)
    requires n >= ForestHeight(ts)
    ensures BfsRun(ts) == ForestLevels(ts, 0, n)
    decreases n
  {
    if |ts| == 0 {
      LevelsVanish(ts, 0, n);
    } else {
      assert ForestHeight(ts) >= MaxDepth(ts[|ts| - 1]) >= 1;
      var c := Children(ts);
      calc {
        BfsRun(ts);
      == { BfsRunUnfold(ts); }
        ts + BfsRun(c);
      == { ChildrenHeight(ts); BfsRunLevels(c, n - 1); }
        ts + ForestLevels(c, 0, n - 1);
      == { LevelsShift(ts, 0, n - 1); }
        ts + ForestLevels(ts, 1, n);
      == { LevelZero(ts); }
        ForestLevels(ts, 0, n);
      }
    }
  }

  lemma {:induction false} LevelOrderOfOne<E>(t: Tree<E>, d: nat, n: nat)
    ensures LevelOrder(t, d, n) == ForestLevels([t], d, n)
    decreases n - d
  {
    if d < n {
      assert [t][..0] == [];
      assert ForestAtDepth([t], d) == TreesAtDepth(t, d);
      LevelOrderOfOne(t, d + 1, n);
    }
  }

  /**
    Run to exhaustion from `t`, the breadth-first iterator returns
    TreesAtDepth(t, 0) + TreesAtDepth(t, 1) + ... ; every later level is
    empty (EmptyLevel).
  */
  lemma BreadthFirstIsLevelOrder<E>(t: Tree<E>)
    ensures BfsRun([t]) == LevelOrder(t, 0, MaxDepth(t))
    ensures forall d :: d >= MaxDepth(t) ==> TreesAtDepth(t, d) == []
  {
    assert [t][..0] == [];
    assert ForestHeight([t]) == MaxDepth(t);
    BfsRunLevels([t], MaxDepth(t));
    LevelOrderOfOne(t, 0, MaxDepth(t));
    forall d | d >= MaxDepth(t)
      ensures TreesAtDepth(t, d) == []
    {
      EmptyLevel(t, d);
    }
  }

  // ----- Depth first is preorder -----

  lemma {:induction false} ForestPreorderAppend<E>(a: seq<Tree<E>>, b: seq<Tree<E>>)
    ensures ForestPreorder(a + b) == ForestPreorder(a) + ForestPreorder(b)
    decreases |b|
  {
    if |b| == 0 {
      assert a + b == a;
    } else {
      var b' := b[..|b| - 1];
      assert (a + b)[..|a + b| - 1] == a + b';
      assert (a + b)[|a + b| - 1] == b[|b| - 1];
      ForestPreorderAppend(a, b');
    }
  }

  /** The run of `ts + rest` is the preorder of every tree in `ts`, then the run of `rest`. */
  lemma DfsRunCons<E>(t: Tree<E>, q: seq<Tree<E>>)
    ensures DfsRun([t] + q) == [t] + DfsRun(t.children + q)
  {
    assert ([t] + q)[0] == t && ([t] + q)[1..] == q;
  }

  lemma PreorderCons<E>(t: Tree<E>, r: seq<Tree<E>>)
    ensures ForestPreorder([t] + r) == [t] + ForestPreorder(t.children + r)
  {
    ForestPreorderAppend([t], r);
    ForestPreorderAppend(t.children, r);
    assert [t][..0] == [];
  }

  lemma {:induction false} DfsRunSplit<E>(ts: seq<Tree<E>>, rest: seq<Tree<E>>)
    ensures DfsRun(ts + rest) == ForestPreorder(ts) + DfsRun(rest)
    decreases ForestSize(ts)
  {
    if |ts| == 0 {
      assert ts + rest == rest;
    } else {
      var t, r := ts[0], ts[1..];
      assert ts == [t] + r;
      ForestSizeCons(t, r);
      ForestSizeAppend(t.children, r);
      calc {
        DfsRun(ts + rest);
      == { assert ts + rest == [t] + (r + rest); DfsRunCons(t, r + rest); }
        [t] + DfsRun(t.children + (r + rest));
      == { assert t.children + (r + rest) == (t.children + r) + rest; DfsRunSplit(t.children + r, rest); }
        [t] + (ForestPreorder(t.children + r) + DfsRun(rest));
      == { assert [t] + (ForestPreorder(t.children + r) + DfsRun(rest)) == ([t] + ForestPreorder(t.children + r)) + DfsRun(rest); PreorderCons(t, r); }
        ForestPreorder(ts) + DfsRun(rest);
      }
    }
  }

  /** Run to exhaustion from `t`, the depth-first iterator returns the preorder of `t`. */
  lemma DepthFirstIsPreorder<E>(t: Tree<E>)
    ensures DfsRun([t]) == Preorder(t)
  {
    DfsRunSplit([t], []);
    assert [t] + [] == [t];
    assert [t][..0] == [];
  }

  lemma {:induction false} LeavesOfAppend<E>(a: seq<Tree<E>>, b: seq<Tree<E>>)
    ensures LeavesOf(a + b) == LeavesOf(a) + LeavesOf(b)
    decreases |b|
  {
    if |b| == 0 {
      assert a + b == a;
    } else {
      var b' := b[..|b| - 1];
      assert (a + b)[..|a + b| - 1] == a + b';
      assert (a + b)[|a + b| - 1] == b[|b| - 1];
      LeavesOfAppend(a, b');
    }
  }

  /** The leaves of a preorder run come in gatherLeaves order. */
  lemma {:induction false} PreorderLeaves<E>(t: Tree<E>)
    ensures LeavesOf(Preorder(t)) == GatherLeaves(t)
    decreases t, 1
  {
    LeavesOfAppend([t], ForestPreorder(t.children));
    assert [t][..0] == [];
    if |t.children| > 0 {
      ForestPreorderLeaves(t.children);
    }
  }

  lemma {:induction false} ForestPreorderLeaves<E>(ts: seq<Tree<E>>)
    ensures LeavesOf(ForestPreorder(ts)) == ForestLeaves(ts)
    decreases ts, 0
  {
    if |ts| > 0 {
      var init, last := ts[..|ts| - 1], ts[|ts| - 1];
      LeavesOfAppend(ForestPreorder(init), Preorder(last));
      ForestPreorderLeaves(init);
      PreorderLeaves(last);
    }
  }

  // ----- BreadthFirstIterator -----

  class BreadthFirstIterator<E> {
    var queue: seq<Tree<E>>
    var lastNode: Options.Option<Tree<E>>

    constructor(node: Tree<E>)
      ensures queue == [node] && lastNode == Options.None
    {
      queue := [node];
      lastNode := Options.None;
    }

    /** hasNext(): exactly when the rest of the run still has a node. */
    predicate HasNext()
      reads this
      ensures HasNext() <==> BfsRun(queue) != []
    {
      |queue| > 0
    }

    /** Removes the front node, appends its children at the back and returns it. */
    method Next() returns (r: Result<Tree<E>>)
      modifies this
      ensures old(queue) == [] ==> r == NoSuchElement && queue == old(queue) && lastNode == old(lastNode)
      ensures old(queue) != [] ==>
        && r == Ok(old(queue)[0])
        && queue == old(queue)[1..] + old(queue)[0].children
        && lastNode == Options.Some(old(queue)[0])
      ensures old(queue) != [] ==> BfsRun(old(queue)) == [r.value] + BfsRun(queue)
      ensures ForestSize(queue) <= ForestSize(old(queue)) && (old(queue) != [] ==> ForestSize(queue) < ForestSize(old(queue)))
    {
      if !HasNext() {
        return NoSuchElement;
      }
      var result := queue[0];
      BfsStepSmaller(queue);
      queue := queue[1..] + result.children;
      lastNode := Options.Some(result);
      r := Ok(result);
    }

    /**
      Drops from the back as many nodes as the last returned node has
      children; the removal of one more than the queue holds fails.
    */
    method Skip() returns (r: Result<()>)
      modifies this`queue
      ensures lastNode.None? ==> r == Ok(()) && queue == old(queue)
      ensures lastNode.Some? && |lastNode.value.children| <= |old(queue)| ==>
        r == Ok(()) && queue == old(queue)[..|old(queue)| - |lastNode.value.children|]
      ensures lastNode.Some? && |lastNode.value.children| > |old(queue)| ==>
        r == NoSuchElement && queue == []
    {
      r := Ok(());
      if lastNode.Some? {
        var children := lastNode.value.children;
        for k := 0 to |children|
          invariant k <= |old(queue)| && queue == old(queue)[..|old(queue)| - k]
        {
          if |queue| == 0 {
            return NoSuchElement;
          }
          queue := queue[..|queue| - 1];
        }
      }
    }
  }

  /** skip() right after next() removes exactly the children next() appended. */
  method BreadthFirstNextThenSkip<E>(it: BreadthFirstIterator<E>) returns (r: Result<Tree<E>>)
    requires it.queue != []
    modifies it
    ensures r == Ok(old(it.queue)[0]) && it.queue == old(it.queue)[1..]
  {
    r := it.Next();
    var s := it.Skip();
    assert it.queue == old(it.queue)[1..];
  }

  /** The breadth-first iterator, asked for nodes until hasNext() fails, yields the level order. */
  method BreadthFirstTraversal<E>(t: Tree<E>) returns (visited: seq<Tree<E>>)
    ensures visited == LevelOrder(t, 0, MaxDepth(t))
  {
    var it := new BreadthFirstIterator(t);
    visited := [];
    while it.HasNext()
      invariant visited + BfsRun(it.queue) == BfsRun([t])
      decreases ForestSize(it.queue)
    {
      var r := it.Next();
      visited := visited + [r.value];
    }
    BreadthFirstIsLevelOrder(t);
  }

  // ----- DepthFirstIterator -----

  class DepthFirstIterator<E> {
    var queue: seq<Tree<E>>
    var lastNode: Options.Option<Tree<E>>

    constructor(node: Tree<E>)
      ensures queue == [node] && lastNode == Options.None
    {
      queue := [node];
      lastNode := Options.None;
    }

    /** hasNext(): exactly when the rest of the run still has a node. */
    predicate HasNext()
      reads this
      ensures HasNext() <==> DfsRun(queue) != []
    {
      |queue| > 0
    }

    /** Removes the front node, puts its children in order at the front and returns it. */
    method Next() returns (r: Result<Tree<E>>)
      modifies this
      ensures old(queue) == [] ==> r == NoSuchElement && queue == old(queue) && lastNode == old(lastNode)
      ensures old(queue) != [] ==>
        && r == Ok(old(queue)[0])
        && queue == old(queue)[0].children + old(queue)[1..]
        && lastNode == Options.Some(old(queue)[0])
      ensures old(queue) != [] ==> DfsRun(old(queue)) == [r.value] + DfsRun(queue)
      ensures ForestSize(queue) <= ForestSize(old(queue)) && (old(queue) != [] ==> ForestSize(queue) < ForestSize(old(queue)))
    {
      if !HasNext() {
        return NoSuchElement;
      }
      var result := queue[0];
      DfsStepSmaller(queue);
      queue := result.children + queue[1..];
      lastNode := Options.Some(result);
      r := Ok(result);
    }

    /**
      Drops from the front as many nodes as the last returned node has
      children; the removal of one more than the queue holds fails.
    */
    method Skip() returns (r: Result<()>)
      modifies this`queue
      ensures lastNode.None? ==> r == Ok(()) && queue == old(queue)
      ensures lastNode.Some? && |lastNode.value.children| <= |old(queue)| ==>
        r == Ok(()) && queue == old(queue)[|lastNode.value.children|..]
      ensures lastNode.Some? && |lastNode.value.children| > |old(queue)| ==>
        r == NoSuchElement && queue == []
    {
      r := Ok(());
      if lastNode.Some? {
        var children := lastNode.value.children;
        for k := 0 to |children|
          invariant k <= |old(queue)| && queue == old(queue)[k..]
        {
          if |queue| == 0 {
            return NoSuchElement;
          }
          queue := queue[1..];
        }
      }
    }
  }

  /** skip() right after next() removes exactly the children next() put in front. */
  method DepthFirstNextThenSkip<E>(it: DepthFirstIterator<E>) returns (r: Result<Tree<E>>)
    requires it.queue != []
    modifies it
    ensures r == Ok(old(it.queue)[0]) && it.queue == old(it.queue)[1..]
  {
    r := it.Next();
    var s := it.Skip();
    assert it.queue == old(it.queue)[1..];
  }

  /** The depth-first iterator, asked for nodes until hasNext() fails, yields the preorder. */
  method DepthFirstTraversal<E>(t: Tree<E>) returns (visited: seq<Tree<E>>)
    ensures visited == Preorder(t)
    ensures LeavesOf(visited) == GatherLeaves(t)
  {
    var it := new DepthFirstIterator(t);
    visited := [];
    while it.HasNext()
      invariant visited + DfsRun(it.queue) == DfsRun([t])
      decreases ForestSize(it.queue)
    {
      var r := it.Next();
      visited := visited + [r.value];
    }
    DepthFirstIsPreorder(t);
    PreorderLeaves(t);
  }

  // ----- ReverseDepthFirstIterator -----

  lemma DrainStep<T>(seen: seq<T>, x: T, rest: seq<T>, pending: seq<T>, whole: seq<T>)
    requires seen + pending == whole && pending == [x] + rest
    ensures (seen + [x]) + rest == whole
  {
  }

  lemma ReverseSnoc<T>(s: seq<T>, x: T)
    ensures Reverse(s + [x]) == [x] + Reverse(s)
  {
    assert (s + [x])[..|s|] == s;
  }

  class ReverseDepthFirstIterator<E> {
    var stack: seq<Tree<E>>
    var lastNode: Options.Option<Tree<E>>

    /** Drains a depth-first iterator, pushing each node on the front of the stack. */
    constructor(node: Tree<E>)
      ensures stack == Reverse(Preorder(node)) && lastNode == Options.None
    {
      var pending: seq<Tree<E>> := [];
      ghost var seen: seq<Tree<E>> := [];
      var i := new DepthFirstIterator(node);
      while i.HasNext()
        invariant seen + DfsRun(i.queue) == DfsRun([node])
        invariant pending == Reverse(seen)
        decreases ForestSize(i.queue)
      {
        ghost var before := i.queue;
        var tree := i.Next();
        pending := [tree.value] + pending;
        DrainStep(seen, tree.value, DfsRun(i.queue), DfsRun(before), DfsRun([node]));
        ReverseSnoc(seen, tree.value);
        seen := seen + [tree.value];
      }
      DepthFirstIsPreorder(node);
      stack := pending;
      lastNode := Options.None;
    }

    predicate HasNext()
      reads this
    {
      |stack| > 0
    }

    /** Removes and returns the front of the stack, recording it as the last node. */
    method Next() returns (r: Result<Tree<E>>)
      modifies this
      ensures old(stack) == [] ==> r == NoSuchElement && stack == old(stack) && lastNode == old(lastNode)
      ensures old(stack) != [] ==>
        r == Ok(old(stack)[0]) && stack == old(stack)[1..] && lastNode == Options.Some(old(stack)[0])
    {
      if !HasNext() {
        return NoSuchElement;
      }
      var result := stack[0];
      stack := stack[1..];
      lastNode := Options.Some(result);
      r := Ok(result);
    }

    /** Drops exactly one pending node, whatever the last node was; fails on an empty stack. */
    method Skip() returns (r: Result<()>)
      modifies this`stack
      ensures old(stack) == [] ==> r == NoSuchElement && stack == old(stack)
      ensures old(stack) != [] ==> r == Ok(()) && stack == old(stack)[1..]
    {
      if |stack| == 0 {
        return NoSuchElement;
      }
      stack := stack[1..];
      r := Ok(());
    }
  }

  /** The reverse iterator, asked for nodes until hasNext() fails, yields the preorder backwards. */
  method ReverseDepthFirstTraversal<E>(t: Tree<E>) returns (visited: seq<Tree<E>>)
    ensures visited == Reverse(Preorder(t))
  {
    var it := new ReverseDepthFirstIterator(t);
    visited := [];
    while it.HasNext()
      invariant visited + it.stack == Reverse(Preorder(t))
      decreases |it.stack|
    {
      ghost var before := it.stack;
      var r := it.Next();
      assert before == [r.value] + it.stack;
      visited := visited + [r.value];
    }
  }
}
