/**
  The mutable side of org.zlzh.ds.tree.Tree: a node with its data, its
  children list (null until the first child is added) and its parent.
  addChild, prune, pruneChildren and clear change these fields in place;
  depth, getRoot, isAncestor, getPath and getDeepestCommonAncestor walk
  the parent pointers in a loop.

  A parent walk ends only when it reaches a node whose parent is null. The
  walks here therefore take, as a ghost argument, the chain of ancestors
  from the parent up to the root (IsParentChain); that the chain exists is
  what the source relies on for its loops to end.
*/
module TreeNodes {
  import Options
  import opened Trees

  // ----- Sequence helpers -----

  /** The position of the first `x` in `s`, or |s| when there is none. */
  function FirstIndex<T(==)>(s: seq<T>, x: T): (i: nat)
    ensures i <= |s|
    ensures i < |s| ==> s[i] == x
    ensures x !in s[..i]
  {
    if |s| == 0 then 0
    else if s[0] == x then 0
    else
      assert forall y :: y in s[1..][..FirstIndex(s[1..], x)] ==> y in s[..1 + FirstIndex(s[1..], x)];
      1 + FirstIndex(s[1..], x)
  }

  /** The list without its first `x`, as the source's list remove(Object). */
  function RemoveFirst<T(==)>(s: seq<T>, x: T): (r: seq<T>)
    ensures x in s ==> |r| == |s| - 1 && multiset(r) == multiset(s) - multiset{x}
    ensures x !in s ==> r == s
  {
    var i := FirstIndex(s, x);
    if i < |s| then
      assert s == s[..i] + [s[i]] + s[i + 1..];
      s[..i] + s[i + 1..]
    else
      assert s[..i] == s;
      s
  }

  /** The length of the longest common prefix of `a` and `b`. */
  function CommonPrefix<T(==)>(a: seq<T>, b: seq<T>): (k: nat)
    ensures k <= |a| && k <= |b| && a[..k] == b[..k]
    ensures k < |a| && k < |b| ==> a[k] != b[k]
  {
    if |a| == 0 || |b| == 0 || a[0] != b[0] then 0
    else
      var k := CommonPrefix(a[1..], b[1..]);
      assert a[..k + 1] == [a[0]] + a[1..][..k];
      assert b[..k + 1] == [b[0]] + b[1..][..k];
      1 + k
  }

  /** The last node of the longest common prefix of two paths, null when they share none. */
  function LastShared<E>(a: seq<TreeNode<E>>, b: seq<TreeNode<E>>): (r: TreeNode?<E>)
    ensures r != null ==> r in a && r in b
  {
    var k := CommonPrefix(a, b);
    if k == 0 then null else
      assert a[k - 1] == a[..k][k - 1] == b[..k][k - 1] == b[k - 1];
      a[k - 1]
  }

  /** A prefix length at which `a` and `b` stop agreeing is their common prefix. */
  lemma {:induction false} CommonPrefixUnique<T>(a: seq<T>, b: seq<T>, i: nat)
    requires i <= |a| && i <= |b| && a[..i] == b[..i]
    requires i < |a| && i < |b| ==> a[i] != b[i]
    ensures CommonPrefix(a, b) == i
    decreases i
  {
    if i > 0 {
      assert a[0] == a[..i][0] && b[0] == b[..i][0];
      assert a[1..][..i - 1] == a[..i][1..];
      assert b[1..][..i - 1] == b[..i][1..];
      CommonPrefixUnique(a[1..], b[1..], i - 1);
    }
  }

  // ----- The node -----

  class TreeNode<E> {
    var data: E
    /** None is the source's null list. */
    var children: Options.Option<seq<TreeNode<E>>>
    var parent: TreeNode?<E>

    /** Under the class's own mutators the children list is null or non-empty. */
    predicate ChildrenOk()
      reads this
    {
      children.None? || |children.value| > 0
    }

    function Kids(): seq<TreeNode<E>>
      reads this
    {
      if children.None? then [] else children.value
    }

    function NumChildren(): nat
      reads this
    {
      if children.None? then 0 else |children.value|
    }

    predicate HasChildren()
      reads this
    {
      children.Some? && |children.value| > 0
    }

    /** A new node: no children list and no parent. */
    constructor(data: E)
      ensures this.data == data && children.None? && parent == null
      ensures ChildrenOk()
    {
      this.data := data;
      children := Options.None;
      parent := null;
    }

    /** Where the invariant holds, having children and having a children list agree. */
    lemma HasChildrenIffList()
      requires ChildrenOk()
      ensures HasChildren() <==> children.Some?
      ensures NumChildren() == |Kids()|
    {
    }

    /** addChild(child): creates the list on demand, appends `child` and makes this its parent. */
    method AddChild(child: TreeNode<E>)
      modifies this`children, child`parent
      ensures children == Options.Some(old(Kids()) + [child])
      ensures child.parent == this
      ensures NumChildren() == old(NumChildren()) + 1
      ensures ChildrenOk()
    {
      if children.None? {
        children := Options.Some([]);
      }
      children := Options.Some(children.value + [child]);
      child.parent := this;
    }

    /** addChild(childData): a new node for the data, added as the last child. */
    method AddChildData(childData: E) returns (result: TreeNode<E>)
      modifies this`children
      ensures fresh(result)
      ensures result.data == childData && result.children.None? && result.parent == this
      ensures children == Options.Some(old(Kids()) + [result])
      ensures ChildrenOk()
    {
      result := new TreeNode(childData);
      AddChild(result);
    }

    /** prune(): forgets the parent; the parent still lists this node. */
    method Prune()
      modifies this`parent
      ensures parent == null
    {
      parent := null;
    }

    /**
      prune(disconnectParent, disconnectAsChild): optionally removes this
      node from its parent's list, dropping a list that becomes empty, and
      optionally forgets the parent.
    */
    method PruneFrom(disconnectParent: bool, disconnectAsChild: bool)
      modifies this`parent, (if parent == null then {} else {parent})`children
      ensures disconnectParent ==> parent == null
      ensures !disconnectParent ==> parent == old(parent)
      ensures old(parent) != null && disconnectAsChild && old(parent.children).Some? ==>
        var rest := RemoveFirst(old(parent.children).value, this);
        old(parent).children == (if |rest| == 0 then Options.None else Options.Some(rest))
      ensures old(parent) != null && !(disconnectAsChild && old(parent.children).Some?) ==>
        old(parent).children == old(parent.children)
      ensures old(parent) != null && disconnectAsChild ==> old(parent).ChildrenOk()
    {
      var p := parent;
      if disconnectAsChild && p != null && p.children.Some? {
        var rest := RemoveFirst(p.children.value, this);
        p.children := Options.Some(rest);
        if |rest| == 0 {
          p.children := Options.None;
        }
      }
      if disconnectParent {
        parent := null;
      }
    }

    /**
      pruneChildren(): returns the children list and sets it to null; the
      children keep pointing to this node as their parent.
    */
    method PruneChildren() returns (result: Options.Option<seq<TreeNode<E>>>)
      modifies this`children
      ensures result == old(children)
      ensures children.None? && ChildrenOk()
    {
      result := children;
      children := Options.None;
    }

    /** clear(): empties and drops the children list. */
    method Clear()
      modifies this`children
      ensures children.None? && ChildrenOk()
    {
      if children.Some? {
        children := Options.Some([]);
        children := Options.None;
      }
    }

    // ----- Walks over the parent pointers -----

    /** depth(): the number of parent hops to the root, 0 for the root. */
    method Depth(ghost chain: seq<TreeNode<E>>) returns (result: int)
      requires IsParentChain(this, chain)
      ensures result == |chain|
      ensures result == 0 <==> parent == null
    {
      result := 0;
      var p := parent;
      while p != null
        invariant 0 <= result <= |chain|
        invariant p == (if result < |chain| then chain[result] else null)
        decreases |chain| - result
      {
        p := p.parent;
        result := result + 1;
      }
    }

    /** depth(ancestor): the hops until `ancestor` or the root is reached. */
    method DepthFrom(ancestor: TreeNode?<E>, ghost chain: seq<TreeNode<E>>) returns (result: int)
      requires IsParentChain(this, chain)
      ensures result == FirstIndex(chain, ancestor)
      ensures ancestor !in chain ==> result == |chain|
    {
      result := 0;
      var p := parent;
      while p != ancestor && p != null
        invariant 0 <= result <= |chain|
        invariant p == (if result < |chain| then chain[result] else null)
        invariant ancestor !in chain[..result]
        decreases |chain| - result
      {
        assert chain[..result + 1] == chain[..result] + [chain[result]];
        p := p.parent;
        result := result + 1;
      }
      if result < |chain| {
        FirstIndexAt(chain, ancestor, result);
      } else {
        assert chain[..result] == chain;
      }
    }

    /** getRoot(): the last node of the parent walk, itself parentless. */
    method GetRoot(ghost chain: seq<TreeNode<E>>) returns (root: TreeNode<E>)
      requires IsParentChain(this, chain)
      ensures root == if |chain| == 0 then this else chain[|chain| - 1]
      ensures root.parent == null
    {
      root := this;
      ghost var k := 0;
      while root.parent != null
        invariant 0 <= k <= |chain|
        invariant root == if k == 0 then this else chain[k - 1]
        invariant root.parent == if k < |chain| then chain[k] else null
        decreases |chain| - k
      {
        root := root.parent;
        k := k + 1;
      }
      assert k == |chain|;
    }

    /** isAncestor(other): whether this node is met on the walk up from other's parent. */
    method IsAncestor(other: TreeNode<E>, ghost chain: seq<TreeNode<E>>) returns (b: bool)
      requires IsParentChain(other, chain)
      ensures b <==> this in chain
      ensures other == this ==> !b
    {
      NotOwnAncestor(other, chain);
      var p := other.parent;
      ghost var k := 0;
      while p != null
        invariant 0 <= k <= |chain|
        invariant p == (if k < |chain| then chain[k] else null)
        invariant this !in chain[..k]
        decreases |chain| - k
      {
        if p == this {
          return true;
        }
        assert chain[..k + 1] == chain[..k] + [chain[k]];
        p := p.parent;
        k := k + 1;
      }
      assert chain[..k] == chain;
      return false;
    }

    /** isDescendant(other): other.isAncestor(this); no node is its own descendant. */
    method IsDescendant(other: TreeNode<E>, ghost chain: seq<TreeNode<E>>) returns (b: bool)
      requires IsParentChain(this, chain)
      ensures b <==> other in chain
      ensures other == this ==> !b
    {
      b := other.IsAncestor(this, chain);
    }

    /** getPath(): the nodes from the root down to this node. */
    method GetPath(ghost chain: seq<TreeNode<E>>) returns (path: seq<TreeNode<E>>)
      requires IsParentChain(this, chain)
      ensures path == Reverse([this] + chain)
      ensures |path| == |chain| + 1 && path[|path| - 1] == this
    {
      path := [];
      var cur: TreeNode?<E> := this;
      ghost var full := [this] + chain;
      ghost var k := 0;
      while cur != null
        invariant 0 <= k <= |full|
        invariant cur == (if k < |full| then full[k] else null)
        invariant path == Reverse(full[..k])
        decreases |full| - k
      {
        assert full[..k + 1][..k] == full[..k];
        path := [cur] + path;
        cur := cur.parent;
        k := k + 1;
      }
      assert full[..k] == full;
    }

    /**
      getDeepestCommonAncestor(other): null for a null `other`, otherwise
      the last node of the longest common prefix of the two root paths
      (null when the roots differ).
    */
    method DeepestCommonAncestor(other: TreeNode?<E>, ghost chain: seq<TreeNode<E>>, ghost otherChain: seq<TreeNode<E>>)
      returns (result: TreeNode?<E>)
      requires IsParentChain(this, chain)
      requires other != null ==> IsParentChain(other, otherChain)
      ensures other == null ==> result == null
      ensures other != null ==>
        result == LastShared(Reverse([this] + chain), Reverse([other] + otherChain))
    {
      if other == null {
        return null;
      }
      if this == other {
        ParentChainUnique(this, chain, otherChain);
        SelfCommonPrefix(this, chain);
        return this;
      }
      var myPath := GetPath(chain);
      var otherPath := other.GetPath(otherChain);
      assert myPath == Reverse([this] + chain);
      assert otherPath == Reverse([other] + otherChain);
      result := WalkPaths(myPath, otherPath);
    }
  }

  /**
    The loop of getDeepestCommonAncestor: walks both root paths together and
    keeps the last node they agree on.
  */
  method WalkPaths<E>(myPath: seq<TreeNode<E>>, otherPath: seq<TreeNode<E>>) returns (result: TreeNode?<E>)
    ensures result == LastShared(myPath, otherPath)
  {
    result := null;
    var i := 0;
    while i < |myPath| && i < |otherPath|
      invariant 0 <= i <= |myPath| && i <= |otherPath|
      invariant myPath[..i] == otherPath[..i]
      invariant result == (if i == 0 then null else myPath[i - 1])
    {
      if myPath[i] != otherPath[i] {
        break;
      }
      assert myPath[..i + 1] == myPath[..i] + [myPath[i]];
      assert otherPath[..i + 1] == otherPath[..i] + [otherPath[i]];
      result := myPath[i];
      i := i + 1;
    }
    CommonPrefixUnique(myPath, otherPath, i);
  }

  // ----- Parent chains -----

  /**
    `chain` lists n's ancestors from its parent up to a root: each one is the
    parent of the one before, and the last has no parent.
  */
  ghost predicate IsParentChain<E>(n: TreeNode<E>, chain: seq<TreeNode<E>>)
    reads n, set x | x in chain
  {
    && (|chain| == 0 ==> n.parent == null)
    && (|chain| > 0 ==> n.parent == chain[0] && chain[|chain| - 1].parent == null)
    && (forall i :: 0 <= i < |chain| - 1 ==> chain[i].parent == chain[i + 1])
  }

  lemma {:induction false} FirstIndexAt<T>(s: seq<T>, x: T, i: nat)
    requires i < |s| && s[i] == x && x !in s[..i]
    ensures FirstIndex(s, x) == i
    decreases i
  {
    if i > 0 {
      assert s[0] == s[..i][0];
      assert s[1..][..i - 1] == s[..i][1..];
      FirstIndexAt(s[1..], x, i - 1);
    }
  }

  /** A root path shares all of itself with itself, ending at its own node. */
  lemma SelfCommonPrefix<E>(n: TreeNode<E>, chain: seq<TreeNode<E>>)
    ensures LastShared(Reverse([n] + chain), Reverse([n] + chain)) == n
  {
    var a := Reverse([n] + chain);
    CommonPrefixUnique(a, a, |a|);
  }

  lemma ChainTail<E>(n: TreeNode<E>, chain: seq<TreeNode<E>>)
    requires IsParentChain(n, chain) && |chain| > 0
    ensures IsParentChain(chain[0], chain[1..])
  {
  }

  /** No node is its own ancestor: a parent chain never comes back to its start. */
  lemma {:induction false} NotOwnAncestor<E>(n: TreeNode<E>, chain: seq<TreeNode<E>>)
    requires IsParentChain(n, chain)
    ensures n !in chain
    decreases |chain|
  {
    if |chain| > 0 {
      ChainTail(n, chain);
      NotOwnAncestor(chain[0], chain[1..]);
      forall j | 0 <= j < |chain|
        ensures chain[j] != n
      {
        if j == |chain| - 1 {
          assert chain[j].parent == null && n.parent != null;
        } else {
          assert chain[j + 1] == chain[1..][j];
          assert chain[j].parent == chain[j + 1] != chain[0] == n.parent;
        }
      }
    }
  }

  /** The chain of a node is determined by the node: the parent pointers fix it. */
  lemma {:induction false} ParentChainUnique<E>(n: TreeNode<E>, c1: seq<TreeNode<E>>, c2: seq<TreeNode<E>>)
    requires IsParentChain(n, c1) && IsParentChain(n, c2)
    ensures c1 == c2
    decreases |c1|
  {
    assert |c1| > 0 <==> n.parent != null;
    assert |c2| > 0 <==> n.parent != null;
    if |c1| > 0 {
      ChainTail(n, c1);
      ChainTail(n, c2);
      ParentChainUnique(c1[0], c1[1..], c2[1..]);
      assert c1 == [c1[0]] + c1[1..];
      assert c2 == [c2[0]] + c2[1..];
    }
  }

  /** After addChild, the child's ancestors are the new parent and the parent's ancestors. */
  method AddChildThenDepth<E>(p: TreeNode<E>, child: TreeNode<E>, ghost chain: seq<TreeNode<E>>) returns (d: int)
    requires IsParentChain(p, chain) && child != p && child !in chain
    modifies p`children, child`parent
    ensures IsParentChain(child, [p] + chain)
    ensures d == |chain| + 1
  {
    p.AddChild(child);
    assert IsParentChain(p, chain);
    d := child.Depth([p] + chain);
  }
}
