/**
  org.zlzh.ds.tree.BinaryTree over BTNode: search, the three traversals and
  the preorder iterator. A BTNode is folded into the value `BNode(data,
  left, right)`, a null node is `Nil`. The visitor callback of the
  traversals is modelled by the sequence of nodes handed to it.
*/
module BinaryTrees {
  import Options

  datatype BTree<E> = Nil | BNode(data: E, left: BTree<E>, right: BTree<E>)

  /** A call that succeeds, or the EmptyStackException of popping an empty stack. */
  datatype Result<T> = Ok(value: T) | EmptyStack

  function Size<E>(t: BTree<E>): nat
  {
    if t.Nil? then 0 else 1 + Size(t.left) + Size(t.right)
  }

  // ----- The three orders -----

  /** Root, then left subtree, then right subtree. */
  function Pre<E>(t: BTree<E>): seq<BTree<E>>
  {
    if t.Nil? then [] else [t] + Pre(t.left) + Pre(t.right)
  }

  /** Left subtree, root, right subtree. */
  function In<E>(t: BTree<E>): seq<BTree<E>>
  {
    if t.Nil? then [] else In(t.left) + [t] + In(t.right)
  }

  /** postorder: left subtree, right subtree, then the node itself. */
  function Post<E>(t: BTree<E>): (r: seq<BTree<E>>)
    ensures |r| == Size(t)
    ensures forall x :: x in r ==> x.BNode?
    ensures t.BNode? ==> r[|r| - 1] == t
  {
    if t.Nil? then [] else Post(t.left) + Post(t.right) + [t]
  }

  /** A preorder visits every node of the tree once: Size(t) nodes, none of them null. */
  lemma {:induction false} PreCountsNodes<E>(t: BTree<E>)
    ensures |Pre(t)| == Size(t)
    ensures forall x :: x in Pre(t) ==> x.BNode?
  {
    if t.BNode? {
      PreCountsNodes(t.left);
      PreCountsNodes(t.right);
    }
  }

  /** The three orders visit the same nodes, the same number of times. */
  lemma {:induction false} OrdersArePermutations<E>(t: BTree<E>)
    ensures multiset(In(t)) == multiset(Pre(t))
    ensures multiset(Post(t)) == multiset(Pre(t))
  {
    if t.BNode? {
      OrdersArePermutations(t.left);
      OrdersArePermutations(t.right);
    }
  }

  /** isEmpty: the root is null, that is, there is nothing to visit. */
  predicate IsEmpty<E>(root: BTree<E>): (b: bool)
    ensures b <==> Size(root) == 0
  {
    root.Nil?
  }

  lemma EmptyHasNothingToVisit<E>(root: BTree<E>)
    ensures IsEmpty(root) <==> Pre(root) == []
  {
  }

  // ----- find -----

  /**
    find(node, e): null for a null node, the node itself when its data
    equals `e`, otherwise the hit in the left subtree, else in the right.
  */
  function Find<E(==)>(t: BTree<E>, e: E): (r: BTree<E>)
    ensures r.Nil? || r.data == e
    ensures r == FirstHit(Pre(t), e)
  {
    if t.Nil? then Nil
    else
      FirstHitAppend([t] + Pre(t.left), Pre(t.right), e);
      FirstHitAppend([t], Pre(t.left), e);
      assert ([t] + Pre(t.left))[1..] == Pre(t.left);
      if e == t.data then t
      else
        var n := Find(t.left, e);
        if n.Nil? then Find(t.right, e) else n
  }

  /** The first node of `s` holding `e`, Nil when there is none. */
  function FirstHit<E(==)>(s: seq<BTree<E>>, e: E): (r: BTree<E>)
    ensures r.Nil? <==> forall i :: 0 <= i < |s| ==> !(s[i].BNode? && s[i].data == e)
  {
    if |s| == 0 then Nil
    else if s[0].BNode? && s[0].data == e then s[0]
    else FirstHit(s[1..], e)
  }

  lemma {:induction false} FirstHitAppend<E>(a: seq<BTree<E>>, b: seq<BTree<E>>, e: E)
    ensures FirstHit(a + b, e) == if FirstHit(a, e).Nil? then FirstHit(b, e) else FirstHit(a, e)
    decreases |a|
  {
    if |a| == 0 {
      assert a + b == b;
    } else {
      assert (a + b)[1..] == a[1..] + b;
      FirstHitAppend(a[1..], b, e);
    }
  }

  // ----- Regrouping concatenations, proved apart from the recursive orders -----

  /**
    Next to the recursive definitions of the orders, the solver spends its
    budget on sequence regrouping; these two are therefore proved on their own.
  */
  lemma Regroup5<T>(a: seq<T>, b: seq<T>, c: seq<T>, d: seq<T>, e: seq<T>)
    ensures a + (b + c + d) + e == a + b + (c + d + e)
    ensures a + (b + c + d) + e == (a + b) + c + (d + e)
  {
  }

  lemma Regroup3<T>(a: seq<T>, b: seq<T>, c: seq<T>)
    ensures a + (b + c) == a + b + c
  {
  }

  // ----- preorder with an explicit stack -----

  /** What the stacked nodes still owe the preorder: their right subtrees, top of the stack first. */
  function PendingPre<E>(stack: seq<BTree<E>>): seq<BTree<E>>
  {
    if |stack| == 0 then []
    else
      var top := stack[|stack| - 1];
      (if top.BNode? then Pre(top.right) else []) + PendingPre(stack[..|stack| - 1])
  }

  /**
    preorder(p): visit and push while going left; at a null node pop and go
    right. The nodes are handed to the visitor in preorder.
  */
  method Preorder<E>(root: BTree<E>) returns (visited: seq<BTree<E>>)
    ensures visited == Pre(root)
  {
    var p := root;
    var stack: seq<BTree<E>> := [];
    visited := [];
    while p.BNode? || |stack| > 0
      invariant visited + Pre(p) + PendingPre(stack) == Pre(root)
      invariant forall x :: x in stack ==> x.BNode?
      decreases |Pre(root)| - |visited|, |stack|
    {
      if p.BNode? {
        PreorderPush(visited, p, stack);
        visited := visited + [p];
        stack := stack + [p];
        p := p.left;
      } else {
        var top := stack[|stack| - 1];
        PreorderPop(visited, p, stack);
        stack := stack[..|stack| - 1];
        p := top.right;
      }
    }
  }

  /** Visiting `p` and pushing it leaves the preorder still owed unchanged. */
  lemma PreorderPush<E>(visited: seq<BTree<E>>, p: BTree<E>, stack: seq<BTree<E>>)
    requires p.BNode?
    ensures visited + Pre(p) + PendingPre(stack)
         == (visited + [p]) + Pre(p.left) + PendingPre(stack + [p])
  {
    var l, r, rest := Pre(p.left), Pre(p.right), PendingPre(stack);
    assert (stack + [p])[..|stack|] == stack;
    assert PendingPre(stack + [p]) == r + rest;
    assert Pre(p) == [p] + l + r;
    Regroup5(visited, [p], l, r, rest);
  }

  /** Popping a visited node leaves its right subtree as the next preorder owed. */
  lemma PreorderPop<E>(visited: seq<BTree<E>>, p: BTree<E>, stack: seq<BTree<E>>)
    requires p.Nil? && |stack| > 0 && forall x :: x in stack ==> x.BNode?
    ensures var top, rest := stack[|stack| - 1], stack[..|stack| - 1];
      && visited + Pre(p) + PendingPre(stack) == visited + Pre(top.right) + PendingPre(rest)
      && (forall x :: x in rest ==> x.BNode?)
      && |rest| < |stack|
  {
    var top, rest := stack[|stack| - 1], stack[..|stack| - 1];
    assert top in stack;
    assert Pre(p) == [];
    assert visited + [] == visited;
    Regroup3(visited, Pre(top.right), PendingPre(rest));
    forall x | x in rest
      ensures x.BNode?
    {
      assert x in stack;
    }
  }

  // ----- inorder with an explicit stack -----

  /** What the stacked nodes still owe the inorder: each node, then its right subtree, top first. */
  function PendingIn<E>(stack: seq<BTree<E>>): seq<BTree<E>>
  {
    if |stack| == 0 then []
    else
      var top := stack[|stack| - 1];
      (if top.BNode? then [top] + In(top.right) else []) + PendingIn(stack[..|stack| - 1])
  }

  /**
    inorder(p): push while going left; at a null node pop, visit and go
    right. The nodes are handed to the visitor in inorder.
  */
  method Inorder<E>(root: BTree<E>) returns (visited: seq<BTree<E>>)
    ensures visited == In(root)
  {
    var p := root;
    var stack: seq<BTree<E>> := [];
    visited := [];
    while p.BNode? || |stack| > 0
      invariant visited + In(p) + PendingIn(stack) == In(root)
      invariant forall x :: x in stack ==> x.BNode?
      decreases |In(root)| - |visited|, p
    {
      if p.BNode? {
        InorderPush(visited, p, stack);
        stack := stack + [p];
        p := p.left;
      } else {
        var top := stack[|stack| - 1];
        InorderPop(visited, p, stack);
        stack := stack[..|stack| - 1];
        visited := visited + [top];
        p := top.right;
      }
    }
  }

  /** Pushing `p` defers it and its right subtree until its left subtree is done. */
  lemma InorderPush<E>(visited: seq<BTree<E>>, p: BTree<E>, stack: seq<BTree<E>>)
    requires p.BNode?
    ensures visited + In(p) + PendingIn(stack)
         == visited + In(p.left) + PendingIn(stack + [p])
  {
    var l, r, rest := In(p.left), In(p.right), PendingIn(stack);
    assert (stack + [p])[..|stack|] == stack;
    assert PendingIn(stack + [p]) == ([p] + r) + rest;
    assert In(p) == l + [p] + r;
    Regroup5(visited, l, [p], r, rest);
    Regroup3([p], r, rest);
  }

  /** Popping a node visits it and leaves its right subtree as the next inorder owed. */
  lemma InorderPop<E>(visited: seq<BTree<E>>, p: BTree<E>, stack: seq<BTree<E>>)
    requires p.Nil? && |stack| > 0 && forall x :: x in stack ==> x.BNode?
    ensures var top, rest := stack[|stack| - 1], stack[..|stack| - 1];
      && visited + In(p) + PendingIn(stack) == (visited + [top]) + In(top.right) + PendingIn(rest)
      && (forall x :: x in rest ==> x.BNode?)
  {
    var top, rest := stack[|stack| - 1], stack[..|stack| - 1];
    assert top in stack;
    assert In(p) == [];
    assert visited + [] == visited;
    Regroup5(visited, [], [top], In(top.right), PendingIn(rest));
    forall x | x in rest
      ensures x.BNode?
    {
      assert x in stack;
    }
  }

  // ----- PreItr -----

  /** The data of the non-null nodes of `s`, in order. */
  function DataOf<E>(s: seq<BTree<E>>): (r: seq<E>)
    ensures (forall i :: 0 <= i < |s| ==> s[i].BNode?) ==>
      |r| == |s| && forall i :: 0 <= i < |s| ==> r[i] == s[i].data
  {
    if |s| == 0 then []
    else (if s[0].BNode? then [s[0].data] else []) + DataOf(s[1..])
  }

  /** A non-null child is pushed, a null one is not. */
  function Push<E>(t: BTree<E>): seq<BTree<E>>
  {
    if t.Nil? then [] else [t]
  }

  function StackSize<E>(stack: seq<BTree<E>>): nat
  {
    if |stack| == 0 then 0 else StackSize(stack[..|stack| - 1]) + Size(stack[|stack| - 1])
  }

  lemma {:induction false} StackSizeAppend<E>(a: seq<BTree<E>>, b: seq<BTree<E>>)
    ensures StackSize(a + b) == StackSize(a) + StackSize(b)
    decreases |b|
  {
    if |b| == 0 {
      assert a + b == a;
    } else {
      assert (a + b)[..|a + b| - 1] == a + b[..|b| - 1];
      assert (a + b)[|a + b| - 1] == b[|b| - 1];
      StackSizeAppend(a, b[..|b| - 1]);
    }
  }

  lemma PopSmaller<E>(stack: seq<BTree<E>>)
    requires |stack| > 0 && stack[|stack| - 1].BNode?
    ensures
      var top := stack[|stack| - 1];
      StackSize(stack[..|stack| - 1] + Push(top.right) + Push(top.left)) < StackSize(stack)
  {
    var top := stack[|stack| - 1];
    StackSizeAppend(stack[..|stack| - 1] + Push(top.right), Push(top.left));
    StackSizeAppend(stack[..|stack| - 1], Push(top.right));
    assert Push(top.left) == [] || Push(top.left)[..0] == [];
    assert Push(top.right) == [] || Push(top.right)[..0] == [];
  }

  /** The data PreItr returns from a stack until it is empty (top of the stack at the end). */
  function ItrRun<E>(stack: seq<BTree<E>>): seq<E>
    decreases StackSize(stack), |stack|
  {
    if |stack| == 0 then []
    else if stack[|stack| - 1].Nil? then ItrRun(stack[..|stack| - 1])
    else
      var top := stack[|stack| - 1];
      PopSmaller(stack);
      [top.data] + ItrRun(stack[..|stack| - 1] + Push(top.right) + Push(top.left))
  }

  /** Pushing `t` on a stack makes the run return t's preorder data first. */
  lemma {:induction false} ItrRunPush<E>(stack: seq<BTree<E>>, t: BTree<E>)
    ensures ItrRun(stack + Push(t)) == DataOf(Pre(t)) + ItrRun(stack)
    decreases Size(t)
  {
    if t.BNode? {
      var s := stack + [t];
      assert s[..|s| - 1] == stack;
      var s1 := stack + Push(t.right);
      assert ItrRun(s) == [t.data] + ItrRun(s1 + Push(t.left));
      ItrRunPush(s1, t.left);
      ItrRunPush(stack, t.right);
      var l, r := Pre(t.left), Pre(t.right);
      DataOfAppend(l, r);
      DataOfAppend([t], l + r);
      Regroup3([t], l, r);
      Regroup3([t.data], DataOf(l), DataOf(r) + ItrRun(stack));
      Regroup3(DataOf(l), DataOf(r), ItrRun(stack));
      assert DataOf([t]) == [t.data];
    } else {
      assert stack + Push(t) == stack;
    }
  }

  lemma {:induction false} DataOfAppend<E>(a: seq<BTree<E>>, b: seq<BTree<E>>)
    ensures DataOf(a + b) == DataOf(a) + DataOf(b)
    decreases |a|
  {
    if |a| == 0 {
      assert a + b == b;
    } else {
      var head := if a[0].BNode? then [a[0].data] else [];
      assert (a + b)[0] == a[0] && (a + b)[1..] == a[1..] + b;
      calc {
        DataOf(a + b);
        head + DataOf(a[1..] + b);
      == { DataOfAppend(a[1..], b); }
        head + (DataOf(a[1..]) + DataOf(b));
      == { Regroup3(head, DataOf(a[1..]), DataOf(b)); }
        DataOf(a) + DataOf(b);
      }
    }
  }

  /** The preorder iterator: a stack of non-null nodes, the next one on top. */
  class PreItr<E> {
    var stack: seq<BTree<E>>

    ghost predicate Valid()
      reads this
    {
      forall x :: x in stack ==> x.BNode?
    }

    /** Starts with the root on the stack, or with an empty stack for an empty tree. */
    constructor(root: BTree<E>)
      ensures Valid()
      ensures stack == Push(root)
      ensures ItrRun(stack) == DataOf(Pre(root))
    {
      stack := Push(root);
      new;
      ItrRunPush([], root);
      assert [] + Push(root) == Push(root);
    }

    /** hasNext(): exactly when the rest of the run still has an element. */
    predicate HasNext()
      reads this
      ensures Valid() ==> (HasNext() <==> ItrRun(stack) != [])
    {
      assert |stack| > 0 ==> stack[|stack| - 1] in stack;
      |stack| > 0
    }

    /** Pops a node, pushes its right then its left child when present, and returns its data. */
    method Next() returns (r: Result<E>)
      requires Valid()
      modifies this
      ensures Valid()
      ensures old(stack) == [] ==> r == EmptyStack && stack == []
      ensures old(stack) != [] ==>
        var top := old(stack)[|old(stack)| - 1];
        && r == Ok(top.data)
        && stack == old(stack)[..|old(stack)| - 1] + Push(top.right) + Push(top.left)
      ensures old(stack) != [] ==> old(ItrRun(stack)) == [r.value] + ItrRun(stack)
      ensures StackSize(stack) <= StackSize(old(stack)) && (old(stack) != [] ==> StackSize(stack) < StackSize(old(stack)))
    {
      if |stack| == 0 {
        return EmptyStack;
      }
      var node := stack[|stack| - 1];
      PopSmaller(stack);
      stack := stack[..|stack| - 1];
      if node.right.BNode? {
        stack := stack + [node.right];
      }
      if node.left.BNode? {
        stack := stack + [node.left];
      }
      r := Ok(node.data);
    }
  }

  /** The preorder iterator, asked for elements until hasNext() fails, yields the data in preorder. */
  method PreIteration<E>(root: BTree<E>) returns (out: seq<E>)
    ensures out == DataOf(Pre(root))
  {
    var it := new PreItr(root);
    out := [];
    while it.HasNext()
      invariant it.Valid()
      invariant out + ItrRun(it.stack) == DataOf(Pre(root))
      decreases StackSize(it.stack)
    {
      var r := it.Next();
      out := out + [r.value];
    }
  }

  /** inIterator() and postIterator(): stubs that never have a next element and return null. */
  class UnimplementedIterator<E> {
    constructor()
    {
    }

    method HasNext() returns (b: bool)
      ensures !b
    {
      b := false;
    }

    method Next() returns (r: Options.Option<E>)
      ensures r == Options.None
    {
      r := Options.None;
    }
  }
}
