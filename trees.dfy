/**
  The recursive queries of org.zlzh.ds.tree.Tree: trees at a depth, the
  maximum depth, the leaves, the data paths to the leaves and the printed
  form. They read a node and everything below it and change nothing, so
  they are modelled over an immutable snapshot of that subtree. A node
  whose `children` list is null is a node with no children here: the
  mutators of the class never leave a non-null empty list behind (see
  TreeNodes.TreeNode.ChildrenOk).

  Each query is a specification function, recursing over a forest from its
  last tree so that it follows the source's left-to-right loop, and a
  method with that loop proved equal to it.
*/
module Trees {
  import Options
  import Escaping

  datatype Tree<E> = Node(data: E, children: seq<Tree<E>>)

  predicate IsLeaf<E>(t: Tree<E>)
  {
    |t.children| == 0
  }

  function Max(a: int, b: int): int
  {
    if a < b then b else a
  }

  /** The elements of `s` from last to first. */
  function Reverse<T>(s: seq<T>): (r: seq<T>)
    ensures |r| == |s|
    ensures forall i :: 0 <= i < |s| ==> r[i] == s[|s| - 1 - i]
  {
    if |s| == 0 then [] else [s[|s| - 1]] + Reverse(s[..|s| - 1])
  }

  // ----- Sizes, for termination of the traversals -----

  function Size<E>(t: Tree<E>): (n: nat)
    ensures n >= 1
    decreases t, 1
  {
    1 + ForestSize(t.children)
  }

  function ForestSize<E>(ts: seq<Tree<E>>): nat
    decreases ts, 0
  {
    if |ts| == 0 then 0 else ForestSize(ts[..|ts| - 1]) + Size(ts[|ts| - 1])
  }

  /** The tree at position `i` of a forest is counted in the forest's size. */
  lemma {:induction false} ForestSizeAppend<E>(a: seq<Tree<E>>, b: seq<Tree<E>>)
    ensures ForestSize(a + b) == ForestSize(a) + ForestSize(b)
    decreases |b|
  {
    if |b| == 0 {
      assert a + b == a;
    } else {
      var b' := b[..|b| - 1];
      assert (a + b)[..|a + b| - 1] == a + b';
      assert (a + b)[|a + b| - 1] == b[|b| - 1];
      ForestSizeAppend(a, b');
    }
  }

  lemma ForestSizeCons<E>(t: Tree<E>, ts: seq<Tree<E>>)
    ensures ForestSize([t] + ts) == Size(t) + ForestSize(ts)
  {
    ForestSizeAppend([t], ts);
    assert [t][..0] == [];
  }

  // ----- treesAtDepth -----

  /**
    The trees `d` levels below `t`: `t` itself at depth 0, nothing at a
    negative depth, otherwise the children's trees at depth d-1, left to right.
  */
  function TreesAtDepth<E>(t: Tree<E>, d: int): seq<Tree<E>>
    decreases t, 1
  {
    if d == 0 then [t]
    else if d < 0 then []
    else ForestAtDepth(t.children, d - 1)
  }

  function ForestAtDepth<E>(ts: seq<Tree<E>>, d: int): seq<Tree<E>>
    decreases ts, 0
  {
    if |ts| == 0 then [] else ForestAtDepth(ts[..|ts| - 1], d) + TreesAtDepth(ts[|ts| - 1], d)
  }

  /** treesAtDepth's loop over the children, one recursive call per child. */
  method CollectTreesAtDepth<E>(t: Tree<E>, d: int) returns (result: seq<Tree<E>>)
    ensures result == TreesAtDepth(t, d)
    decreases t
  {
    result := [];
    if d == 0 {
      result := result + [t];
    } else if d > 0 {
      for i := 0 to |t.children|
        invariant result == ForestAtDepth(t.children[..i], d - 1)
      {
        var sub := CollectTreesAtDepth(t.children[i], d - 1);
        assert t.children[..i + 1][..i] == t.children[..i];
        result := result + sub;
      }
      assert t.children[..|t.children|] == t.children;
    }
  }

  lemma {:induction false} ForestAtDepthAppend<E>(a: seq<Tree<E>>, b: seq<Tree<E>>, d: int)
    ensures ForestAtDepth(a + b, d) == ForestAtDepth(a, d) + ForestAtDepth(b, d)
    decreases |b|
  {
    if |b| == 0 {
      assert a + b == a;
    } else {
      var b' := b[..|b| - 1];
      assert (a + b)[..|a + b| - 1] == a + b';
      assert (a + b)[|a + b| - 1] == b[|b| - 1];
      ForestAtDepthAppend(a, b', d);
    }
  }

  // ----- maxDepth -----

  /** One more than the deepest level below `t`: 1 for a node without children. */
  function MaxDepth<E>(t: Tree<E>): int
    decreases t, 1
  {
    1 + ForestHeight(t.children)
  }

  /** The largest MaxDepth among the trees of a forest, 0 for no trees. */
  function ForestHeight<E>(ts: seq<Tree<E>>): (h: int)
    ensures h >= 0
    decreases ts, 0
  {
    if |ts| == 0 then 0 else Max(ForestHeight(ts[..|ts| - 1]), MaxDepth(ts[|ts| - 1]))
  }

  /** ForestHeight is the maximum: it bounds every tree's depth and is reached by one of them. */
  lemma {:induction false} ForestHeightIsMax<E>(ts: seq<Tree<E>>)
    ensures forall i :: 0 <= i < |ts| ==> MaxDepth(ts[i]) <= ForestHeight(ts)
    ensures |ts| == 0 ==> ForestHeight(ts) == 0
    ensures |ts| > 0 ==> exists i :: 0 <= i < |ts| && MaxDepth(ts[i]) == ForestHeight(ts)
    decreases |ts|
  {
    if |ts| > 0 {
      var init := ts[..|ts| - 1];
      ForestHeightIsMax(init);
      assert forall i :: 0 <= i < |init| ==> ts[i] == init[i];
      if ForestHeight(init) <= MaxDepth(ts[|ts| - 1]) {
        assert MaxDepth(ts[|ts| - 1]) == ForestHeight(ts);
      } else {
        var j :| 0 <= j < |init| && MaxDepth(init[j]) == ForestHeight(init);
        assert MaxDepth(ts[j]) == ForestHeight(ts);
      }
    }
  }

  /** A tree is at least one level deep. */
  lemma MaxDepthPositive<E>(t: Tree<E>)
    ensures MaxDepth(t) >= 1
    ensures IsLeaf(t) ==> MaxDepth(t) == 1
  {
  }

  /** maxDepth's loop keeps the largest child depth seen so far. */
  method ComputeMaxDepth<E>(t: Tree<E>) returns (depth: int)
    ensures depth == MaxDepth(t)
    decreases t
  {
    depth := 1;
    if |t.children| > 0 {
      var maxChildDepth := 0;
      for i := 0 to |t.children|
        invariant maxChildDepth == ForestHeight(t.children[..i])
      {
        var childDepth := ComputeMaxDepth(t.children[i]);
        assert t.children[..i + 1][..i] == t.children[..i];
        if childDepth > maxChildDepth {
          maxChildDepth := childDepth;
        }
      }
      assert t.children[..|t.children|] == t.children;
      depth := depth + maxChildDepth;
    }
  }

  lemma {:induction false} ForestHeightAppend<E>(a: seq<Tree<E>>, b: seq<Tree<E>>)
    ensures ForestHeight(a + b) == Max(ForestHeight(a), ForestHeight(b))
    decreases |b|
  {
    if |b| == 0 {
      assert a + b == a;
    } else {
      var b' := b[..|b| - 1];
      assert (a + b)[..|a + b| - 1] == a + b';
      assert (a + b)[|a + b| - 1] == b[|b| - 1];
      ForestHeightAppend(a, b');
    }
  }

  /** The levels of `t` are non-empty exactly from depth 0 up to MaxDepth(t) - 1. */
  lemma {:induction false} EmptyLevel<E>(t: Tree<E>, d: int)
    ensures TreesAtDepth(t, d) == [] <==> d < 0 || d >= MaxDepth(t)
    decreases t, 1
  {
    if d > 0 {
      ForestEmptyLevel(t.children, d - 1);
    }
  }

  lemma {:induction false} ForestEmptyLevel<E>(ts: seq<Tree<E>>, d: int)
    ensures ForestAtDepth(ts, d) == [] <==> d < 0 || d >= ForestHeight(ts)
    decreases ts, 0
  {
    if |ts| > 0 {
      ForestEmptyLevel(ts[..|ts| - 1], d);
      EmptyLevel(ts[|ts| - 1], d);
    }
  }

  // ----- gatherLeaves -----

  /** The leaves below `t`, left to right; `t` itself when it has no children. */
  function GatherLeaves<E>(t: Tree<E>): seq<Tree<E>>
    decreases t, 1
  {
    if |t.children| == 0 then [t] else ForestLeaves(t.children)
  }

  function ForestLeaves<E>(ts: seq<Tree<E>>): seq<Tree<E>>
    decreases ts, 0
  {
    if |ts| == 0 then [] else ForestLeaves(ts[..|ts| - 1]) + GatherLeaves(ts[|ts| - 1])
  }

  /** _gatherLeaves appends the leaves to the list it is given. */
  method GatherLeavesInto<E>(t: Tree<E>, result: seq<Tree<E>>) returns (out: seq<Tree<E>>)
    ensures out == result + GatherLeaves(t)
    decreases t
  {
    if |t.children| == 0 {
      out := result + [t];
    } else {
      out := result;
      for i := 0 to |t.children|
        invariant out == result + ForestLeaves(t.children[..i])
      {
        assert t.children[..i + 1][..i] == t.children[..i];
        out := GatherLeavesInto(t.children[i], out);
      }
      assert t.children[..|t.children|] == t.children;
    }
  }

  /** Every gathered tree is a leaf, and there is at least one. */
  lemma {:induction false} LeavesAreLeaves<E>(t: Tree<E>)
    ensures |GatherLeaves(t)| >= 1
    ensures forall i :: 0 <= i < |GatherLeaves(t)| ==> IsLeaf(GatherLeaves(t)[i])
    decreases t, 1
  {
    if |t.children| > 0 {
      ForestLeavesAreLeaves(t.children);
    }
  }

  lemma {:induction false} ForestLeavesAreLeaves<E>(ts: seq<Tree<E>>)
    ensures |ForestLeaves(ts)| >= |ts|
    ensures forall i :: 0 <= i < |ForestLeaves(ts)| ==> IsLeaf(ForestLeaves(ts)[i])
    decreases ts, 0
  {
    if |ts| > 0 {
      var a, b := ForestLeaves(ts[..|ts| - 1]), GatherLeaves(ts[|ts| - 1]);
      ForestLeavesAreLeaves(ts[..|ts| - 1]);
      LeavesAreLeaves(ts[|ts| - 1]);
      assert forall i :: |a| <= i < |a + b| ==> (a + b)[i] == b[i - |a|];
    }
  }

  lemma {:induction false} ForestLeavesAppend<E>(a: seq<Tree<E>>, b: seq<Tree<E>>)
    ensures ForestLeaves(a + b) == ForestLeaves(a) + ForestLeaves(b)
    decreases |b|
  {
    if |b| == 0 {
      assert a + b == a;
    } else {
      var b' := b[..|b| - 1];
      assert (a + b)[..|a + b| - 1] == a + b';
      assert (a + b)[|a + b| - 1] == b[|b| - 1];
      ForestLeavesAppend(a, b');
    }
  }

  // ----- getPaths -----

  /**
    getPathsAux: the data path to every leaf below `t`, each extending
    `basePath` by `t`'s data.
  */
  function PathsAux<E>(t: Tree<E>, basePath: seq<E>): seq<seq<E>>
    decreases t, 1
  {
    if |t.children| == 0 then [basePath + [t.data]]
    else ForestPaths(t.children, basePath + [t.data])
  }

  function ForestPaths<E>(ts: seq<Tree<E>>, basePath: seq<E>): seq<seq<E>>
    decreases ts, 0
  {
    if |ts| == 0 then []
    else ForestPaths(ts[..|ts| - 1], basePath) + PathsAux(ts[|ts| - 1], basePath)
  }

  function GetPaths<E>(t: Tree<E>): seq<seq<E>>
  {
    PathsAux(t, [])
  }

  /** getPathsAux's loop over the children with the extended path. */
  method ComputePathsAux<E>(t: Tree<E>, basePath: seq<E>) returns (result: seq<seq<E>>)
    ensures result == PathsAux(t, basePath)
    decreases t
  {
    result := [];
    var path := basePath + [t.data];
    if |t.children| > 0 {
      for i := 0 to |t.children|
        invariant result == ForestPaths(t.children[..i], path)
      {
        var sub := ComputePathsAux(t.children[i], path);
        assert t.children[..i + 1][..i] == t.children[..i];
        result := result + sub;
      }
      assert t.children[..|t.children|] == t.children;
    } else {
      result := result + [path];
    }
  }

  /**
    The paths line up with the leaves: one path per gathered leaf, in the
    same order, each starting with `basePath` and `t`'s data and ending
    with that leaf's data.
  */
  lemma {:induction false} PathsMatchLeaves<E>(t: Tree<E>, basePath: seq<E>)
    ensures |PathsAux(t, basePath)| == |GatherLeaves(t)|
    ensures forall i :: 0 <= i < |PathsAux(t, basePath)| ==>
      |PathsAux(t, basePath)[i]| > |basePath|
      && PathsAux(t, basePath)[i][..|basePath| + 1] == basePath + [t.data]
      && PathsAux(t, basePath)[i][|PathsAux(t, basePath)[i]| - 1] == GatherLeaves(t)[i].data
    decreases t, 1
  {
    if |t.children| > 0 {
      var path := basePath + [t.data];
      ForestPathsMatchLeaves(t.children, path);
      forall i | 0 <= i < |PathsAux(t, basePath)|
        ensures PathsAux(t, basePath)[i][..|basePath| + 1] == path
      {
        var p := PathsAux(t, basePath)[i];
        assert p[..|path|] == path;
      }
    }
  }

  lemma {:induction false} ForestPathsMatchLeaves<E>(ts: seq<Tree<E>>, basePath: seq<E>)
    ensures |ForestPaths(ts, basePath)| == |ForestLeaves(ts)|
    ensures forall i :: 0 <= i < |ForestPaths(ts, basePath)| ==>
      |ForestPaths(ts, basePath)[i]| > |basePath|
      && ForestPaths(ts, basePath)[i][..|basePath|] == basePath
      && ForestPaths(ts, basePath)[i][|ForestPaths(ts, basePath)[i]| - 1] == ForestLeaves(ts)[i].data
    decreases ts, 0
  {
    if |ts| > 0 {
      var init, last := ts[..|ts| - 1], ts[|ts| - 1];
      ForestPathsMatchLeaves(init, basePath);
      PathsMatchLeaves(last, basePath);
      var pa, pb := ForestPaths(init, basePath), PathsAux(last, basePath);
      var la, lb := ForestLeaves(init), GatherLeaves(last);
      assert ForestPaths(ts, basePath) == pa + pb;
      assert ForestLeaves(ts) == la + lb;
      forall i | |pa| <= i < |pa + pb|
        ensures (pa + pb)[i] == pb[i - |pa|] && (la + lb)[i] == lb[i - |pa|]
      {
      }
      forall i | |pa| <= i < |pa + pb|
        ensures (pa + pb)[i][..|basePath|] == basePath
      {
        var p := pb[i - |pa|];
        assert p[..|basePath| + 1] == basePath + [last.data];
        assert p[..|basePath|] == (basePath + [last.data])[..|basePath|];
      }
    }
  }

  /** getPaths: one path per leaf, from this node's data to the leaf's data. */
  lemma GetPathsMatchLeaves<E>(t: Tree<E>)
    ensures |GetPaths(t)| == |GatherLeaves(t)|
    ensures forall i :: 0 <= i < |GetPaths(t)| ==>
      |GetPaths(t)[i]| >= 1 && GetPaths(t)[i][0] == t.data
      && GetPaths(t)[i][|GetPaths(t)[i]| - 1] == GatherLeaves(t)[i].data
  {
    PathsMatchLeaves(t, []);
    forall i | 0 <= i < |GetPaths(t)|
      ensures GetPaths(t)[i][0] == t.data
    {
      assert GetPaths(t)[i][..1] == [t.data];
    }
  }

  // ----- toString(Escaper) -----

  /** The text printed for a node's data: "<null>" for null data. */
  function Label(shown: Options.Option<string>): string
  {
    match shown
    case None => "<null>"
    case Some(s) => s
  }

  /**
    toString(esc): the escaped data for a node without children, otherwise
    "(" + escaped data + (" " + child)* + ")". `show` stands for the data's
    own toString, None for null data.
  */
  function ToString<E>(t: Tree<E>, show: E -> Options.Option<string>, esc: Escaping.Escaper): string
    requires Escaping.SourcesNonEmpty(esc.forward)
    decreases t, 1
  {
    var text := Escaping.Escape(esc, Label(show(t.data)));
    if |t.children| == 0 then text
    else "(" + text + ChildStrings(t.children, show, esc) + ")"
  }

  function ChildStrings<E>(ts: seq<Tree<E>>, show: E -> Options.Option<string>, esc: Escaping.Escaper): string
    requires Escaping.SourcesNonEmpty(esc.forward)
    decreases ts, 0
  {
    if |ts| == 0 then ""
    else ChildStrings(ts[..|ts| - 1], show, esc) + " " + ToString(ts[|ts| - 1], show, esc)
  }

  /** toString's loop: the escaped data, then a space and each child's string. */
  method Print<E>(t: Tree<E>, show: E -> Options.Option<string>, esc: Escaping.Escaper) returns (result: string)
    requires Escaping.SourcesNonEmpty(esc.forward)
    ensures result == ToString(t, show, esc)
    decreases t
  {
    var text := Escaping.ApplyMappings(esc.forward, Options.Some(Label(show(t.data))));
    if |t.children| == 0 {
      result := text;
    } else {
      var buffer := "(" + text;
      ghost var head := buffer;
      for i := 0 to |t.children|
        invariant buffer == head + ChildStrings(t.children[..i], show, esc)
      {
        var child := Print(t.children[i], show, esc);
        ChildStringsStep(t.children, i, show, esc);
        buffer := buffer + (" " + child);
      }
      assert t.children[..|t.children|] == t.children;
      result := buffer + ")";
    }
  }

  lemma ChildStringsStep<E>(ts: seq<Tree<E>>, i: nat, show: E -> Options.Option<string>, esc: Escaping.Escaper)
    requires Escaping.SourcesNonEmpty(esc.forward) && i < |ts|
    ensures ChildStrings(ts[..i + 1], show, esc) == ChildStrings(ts[..i], show, esc) + (" " + ToString(ts[i], show, esc))
  {
    assert ts[..i + 1][..i] == ts[..i];
  }

  /** With the tree table a label holds no parenthesis. */
  lemma LabelHasNoParen(s: string)
    ensures Escaping.SourcesNonEmpty(Escaping.TreeEscaper.forward)
    ensures multiset(Escaping.Escape(Escaping.TreeEscaper, s))['('] == 0
    ensures multiset(Escaping.Escape(Escaping.TreeEscaper, s))[')'] == 0
  {
    Escaping.TreeEscapeHasNoDelimiter(s);
    var e := Escaping.Escape(Escaping.TreeEscaper, s);
    assert !Escaping.Delimiter('(') ==> false;
    assert '(' !in e && ')' !in e;
  }

  /**
    With the tree table the printed form is balanced: as many "(" as ")".
    Only the wrapping of a node with children writes them, since the
    escaped labels hold none.
  */
  lemma {:induction false} PrintedBalanced<E>(t: Tree<E>, show: E -> Options.Option<string>)
    ensures Escaping.SourcesNonEmpty(Escaping.TreeEscaper.forward)
    ensures multiset(ToString(t, show, Escaping.TreeEscaper))['(']
         == multiset(ToString(t, show, Escaping.TreeEscaper))[')']
    decreases t, 1
  {
    LabelHasNoParen(Label(show(t.data)));
    if |t.children| > 0 {
      ChildStringsBalanced(t.children, show);
    }
  }

  lemma {:induction false} ChildStringsBalanced<E>(ts: seq<Tree<E>>, show: E -> Options.Option<string>)
    ensures Escaping.SourcesNonEmpty(Escaping.TreeEscaper.forward)
    ensures multiset(ChildStrings(ts, show, Escaping.TreeEscaper))['(']
         == multiset(ChildStrings(ts, show, Escaping.TreeEscaper))[')']
    decreases ts, 0
  {
    Escaping.TreeEscapeHasNoDelimiter([]);
    if |ts| > 0 {
      ChildStringsBalanced(ts[..|ts| - 1], show);
      PrintedBalanced(ts[|ts| - 1], show);
    }
  }

  /** A node without children prints as a single token: no space, quote, parenthesis or bracket. */
  lemma LeafPrintsOneToken<E>(t: Tree<E>, show: E -> Options.Option<string>)
    requires IsLeaf(t)
    ensures Escaping.SourcesNonEmpty(Escaping.TreeEscaper.forward)
    ensures forall i :: 0 <= i < |ToString(t, show, Escaping.TreeEscaper)| ==>
      !Escaping.Delimiter(ToString(t, show, Escaping.TreeEscaper)[i])
  {
    Escaping.TreeEscapeHasNoDelimiter(Label(show(t.data)));
  }
}
