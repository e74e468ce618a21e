/**
 * `traverse`: the post-order fold of `nonBinaryTree`, and `parseToJSON`,
 * the callback that folds a tree into its `{data, key, children}` form.
 */
module Fold {
  import opened Wrappers
  import opened Store
  import Search
  import Links

  /** `{ onlyThisRoot, depth }`. */
  datatype Params = Params(onlyThisRoot: bool, depth: int)

  /** The default of `traverse`'s second argument. */
  const DefaultParams := Params(true, 0)

  /** `(data, firstChild, neighborChild, key, depth) => Z`. */
  type Callback<!T, !Z> = (Option<T>, Option<Z>, Option<Z>, string, int) -> Z

  /**
   * `traverse(callback, params)` on node `id`: fold the child subtree one
   * level deeper, fold the right siblings at the same depth unless
   * `onlyThisRoot`, then hand both to the callback.
   */
  function Traverse<T, Z>(h: Nodes<T>, ghost rank: seq<nat>, id: NodeId, callback: Callback<T, Z>, params: Params): Z
    requires Ranked(h, rank) && id < |h|
    decreases rank[id]
  {
    assert Below(h, rank, id, h[id].leftChild) && Below(h, rank, id, h[id].rightSibling);
    var lChild :=
      if h[id].leftChild.Some?
      then Some(Traverse(h, rank, h[id].leftChild.value, callback, Params(false, params.depth + 1)))
      else None;
    var rSibling :=
      if h[id].rightSibling.Some? && !params.onlyThisRoot
      then Some(Traverse(h, rank, h[id].rightSibling.value, callback, Params(false, params.depth)))
      else None;
    callback(h[id].data, lChild, rSibling, h[id].code, params.depth)
  }

  /** `Traverse<T>`: the external representation of one node. */
  datatype Json<T> = Json(data: Option<T>, key: string, children: seq<Json<T>>)

  /**
   * `parseToJSON`: this node's entry, holding the folded children, followed
   * by the entries of the folded later siblings.
   */
  function ParseToJSON<T>(data: Option<T>, firstChild: Option<seq<Json<T>>>,
                          neighborChild: Option<seq<Json<T>>>, key: string): (r: seq<Json<T>>)
    ensures |r| == 1 + |neighborChild.GetOr([])|
    ensures r[0].data == data && r[0].key == key && r[0].children == firstChild.GetOr([])
    ensures r[1..] == neighborChild.GetOr([])
  {
    var arr := if neighborChild.Some? then neighborChild.value else [];
    var arrChildren := if firstChild.Some? then firstChild.value else [];
    [Json(data, key, arrChildren)] + arr
  }

  /** `parseToJSON` as the callback of `traverse`, which also passes the depth. */
  function JsonStep<T>(data: Option<T>, firstChild: Option<seq<Json<T>>>, neighborChild: Option<seq<Json<T>>>,
                       key: string, depth: int): seq<Json<T>>
  {
    ParseToJSON(data, firstChild, neighborChild, key)
  }

  // ---------------------------------------------------------------------
  // The N-ary tree that the links encode, as a reference for the fold.

  /** Node `id` with its children, taken from its child chain. */
  ghost function Rep<T>(h: Nodes<T>, rank: seq<nat>, id: NodeId): Json<T>
    requires Ranked(h, rank) && id < |h|
    decreases rank[id] + 1, 1
  {
    assert Below(h, rank, id, h[id].leftChild);
    Json(h[id].data, h[id].code, RepChain(h, rank, h[id].leftChild))
  }

  /** The nodes of the sibling chain from `start`, each with its children. */
  ghost function RepChain<T>(h: Nodes<T>, rank: seq<nat>, start: Option<NodeId>): seq<Json<T>>
    requires Ranked(h, rank) && Ref(h, start)
    decreases if start.Some? then rank[start.value] + 1 else 0, 2
  {
    match start
    case None => []
    case Some(x) =>
      assert Below(h, rank, x, h[x].rightSibling);
      [Rep(h, rank, x)] + RepChain(h, rank, h[x].rightSibling)
  }

  /** Entry `i` of the representation of a chain is the `i`-th member's tree. */
  lemma {:induction false} RepChainFollowsChain<T>(h: Nodes<T>, rank: seq<nat>, start: Option<NodeId>, cs: seq<NodeId>)
    requires Ranked(h, rank) && Ref(h, start) && IsChain(h, start, cs)
    ensures forall i | 0 <= i < |cs| :: cs[i] < |h|
    ensures |RepChain(h, rank, start)| == |cs|
    ensures forall i | 0 <= i < |cs| :: RepChain(h, rank, start)[i] == Rep(h, rank, cs[i])
    decreases |cs|
  {
    ChainMembersAreNodes(h, start, cs);
    if start.Some? {
      var x := start.value;
      assert Below(h, rank, x, h[x].rightSibling);
      RepChainFollowsChain(h, rank, h[x].rightSibling, cs[1..]);
      assert forall i | 1 <= i < |cs| :: cs[i] == cs[1..][i - 1];
    }
  }

  /** A node without children is represented by a childless entry. */
  lemma RepOfLeaf<T>(h: Nodes<T>, rank: seq<nat>, n: NodeId)
    requires Ranked(h, rank) && n < |h| && h[n].leftChild.None?
    ensures Rep(h, rank, n) == Json(h[n].data, h[n].code, [])
  {
  }

  /** The `children` of a node's representation are its child chain, in order. */
  lemma RepChildrenFollowChain<T>(h: Nodes<T>, rank: seq<nat>, id: NodeId, cs: seq<NodeId>)
    requires Ranked(h, rank) && id < |h| && IsChain(h, h[id].leftChild, cs)
    ensures forall i | 0 <= i < |cs| :: cs[i] < |h|
    ensures Rep(h, rank, id).key == h[id].code && Rep(h, rank, id).data == h[id].data
    ensures |Rep(h, rank, id).children| == |cs|
    ensures forall i | 0 <= i < |cs| :: Rep(h, rank, id).children[i] == Rep(h, rank, cs[i])
  {
    assert Below(h, rank, id, h[id].leftChild);
    RepChainFollowsChain(h, rank, h[id].leftChild, cs);
  }

  /** `traverse` without `onlyThisRoot`, one step unfolded. */
  lemma TraverseStep<T, Z>(h: Nodes<T>, rank: seq<nat>, x: NodeId, callback: Callback<T, Z>, depth: int)
    requires Ranked(h, rank) && x < |h|
    ensures Below(h, rank, x, h[x].leftChild) && Below(h, rank, x, h[x].rightSibling)
    ensures Traverse(h, rank, x, callback, Params(false, depth)) ==
      callback(h[x].data,
               if h[x].leftChild.Some? then Some(Traverse(h, rank, h[x].leftChild.value, callback, Params(false, depth + 1))) else None,
               if h[x].rightSibling.Some? then Some(Traverse(h, rank, h[x].rightSibling.value, callback, Params(false, depth))) else None,
               h[x].code, depth)
  {
    assert Below(h, rank, x, h[x].leftChild) && Below(h, rank, x, h[x].rightSibling);
  }

  /** Folding a node and its later siblings with `parseToJSON` gives their trees, in chain order. */
  lemma {:induction false} TraverseChainToJson<T>(h: Nodes<T>, rank: seq<nat>, x: NodeId, depth: int)
    requires Ranked(h, rank) && x < |h|
    ensures Traverse(h, rank, x, JsonStep, Params(false, depth)) == RepChain(h, rank, Some(x))
    decreases rank[x]
  {
    TraverseStep(h, rank, x, JsonStep, depth);
    var lc, rs := h[x].leftChild, h[x].rightSibling;
    var children := RepChain(h, rank, lc);
    var rest := RepChain(h, rank, rs);
    if lc.Some? {
      TraverseChainToJson(h, rank, lc.value, depth + 1);
    }
    if rs.Some? {
      TraverseChainToJson(h, rank, rs.value, depth);
    }
    assert RepChain(h, rank, Some(x)) == [Json(h[x].data, h[x].code, children)] + rest;
  }

  /**
   * `traverse(parseToJSON)` with `onlyThisRoot` yields exactly one entry:
   * the node's tree, whatever siblings it has.
   */
  lemma TraverseToJson<T>(h: Nodes<T>, rank: seq<nat>, id: NodeId, depth: int)
    requires Ranked(h, rank) && id < |h|
    ensures Traverse(h, rank, id, JsonStep, Params(true, depth)) == [Rep(h, rank, id)]
  {
    assert Below(h, rank, id, h[id].leftChild);
    if h[id].leftChild.Some? {
      TraverseChainToJson(h, rank, h[id].leftChild.value, depth + 1);
    }
  }

  // ---------------------------------------------------------------------
  // How often and at which depth the callback runs.

  /** A callback counting its own invocations. */
  function CountStep<T>(data: Option<T>, firstChild: Option<int>, neighborChild: Option<int>, key: string, depth: int): int {
    1 + firstChild.GetOr(0) + neighborChild.GetOr(0)
  }

  /** Without `onlyThisRoot` the callback runs once per node `find` can reach. */
  lemma {:induction false} TraverseVisitsPreOrder<T>(h: Nodes<T>, rank: seq<nat>, x: NodeId, depth: int)
    requires Ranked(h, rank) && x < |h|
    ensures Traverse(h, rank, x, CountStep, Params(false, depth)) == |Search.PreOrder(h, rank, x)|
    decreases rank[x]
  {
    assert Below(h, rank, x, h[x].leftChild) && Below(h, rank, x, h[x].rightSibling);
    if h[x].leftChild.Some? {
      TraverseVisitsPreOrder(h, rank, h[x].leftChild.value, depth + 1);
    }
    if h[x].rightSibling.Some? {
      TraverseVisitsPreOrder(h, rank, h[x].rightSibling.value, depth);
    }
  }

  /** With `onlyThisRoot` the callback runs once for the node and once per node below it. */
  lemma TraverseVisitsSubtree<T>(h: Nodes<T>, rank: seq<nat>, id: NodeId, depth: int)
    requires Ranked(h, rank) && id < |h|
    ensures Traverse(h, rank, id, CountStep, Params(true, depth)) ==
      1 + if h[id].leftChild.Some? then |Search.PreOrder(h, rank, h[id].leftChild.value)| else 0
  {
    assert Below(h, rank, id, h[id].leftChild);
    if h[id].leftChild.Some? {
      TraverseVisitsPreOrder(h, rank, h[id].leftChild.value, depth + 1);
    }
  }

  /** The keys of the nodes `xs`, in the same order. */
  ghost function Keys<T>(h: Nodes<T>, xs: seq<NodeId>): (r: seq<string>)
    requires forall k | 0 <= k < |xs| :: xs[k] < |h|
    ensures |r| == |xs| && forall k | 0 <= k < |xs| :: r[k] == h[xs[k]].code
    decreases |xs|
  {
    if xs == [] then [] else [h[xs[0]].code] + Keys(h, xs[1..])
  }

  lemma KeysConcat<T>(h: Nodes<T>, a: seq<NodeId>, b: seq<NodeId>)
    requires forall k | 0 <= k < |a| :: a[k] < |h|
    requires forall k | 0 <= k < |b| :: b[k] < |h|
    ensures forall k | 0 <= k < |a + b| :: (a + b)[k] < |h|
    ensures Keys(h, a + b) == Keys(h, a) + Keys(h, b)
  {
    assert forall k | 0 <= k < |a + b| :: (a + b)[k] == if k < |a| then a[k] else b[k - |a|];
  }

  /** A callback listing the keys node first, then the child subtree, then the later siblings. */
  function KeyStep<T>(data: Option<T>, firstChild: Option<seq<string>>, neighborChild: Option<seq<string>>, key: string, depth: int): seq<string> {
    [key] + firstChild.GetOr([]) + neighborChild.GetOr([])
  }

  /** Without `onlyThisRoot` the callback sees exactly the nodes `find` visits, in the same order. */
  lemma {:induction false} TraverseListsPreOrder<T>(h: Nodes<T>, rank: seq<nat>, x: NodeId, depth: int)
    requires Ranked(h, rank) && x < |h|
    ensures Traverse(h, rank, x, KeyStep, Params(false, depth)) == Keys(h, Search.PreOrder(h, rank, x))
    decreases rank[x]
  {
    TraverseStep(h, rank, x, KeyStep, depth);
    var lc, rs := h[x].leftChild, h[x].rightSibling;
    var left := if lc.Some? then Search.PreOrder(h, rank, lc.value) else [];
    var right := if rs.Some? then Search.PreOrder(h, rank, rs.value) else [];
    if lc.Some? {
      TraverseListsPreOrder(h, rank, lc.value, depth + 1);
    }
    if rs.Some? {
      TraverseListsPreOrder(h, rank, rs.value, depth);
    }
    assert Search.PreOrder(h, rank, x) == [x] + left + right;
    KeysConcat(h, [x], left);
    KeysConcat(h, [x] + left, right);
  }

  /**
   * A callback logging its own calls: every call made while folding the
   * child subtree, then every call for the later siblings, then this one.
   */
  function CallLog<T>(data: Option<T>, firstChild: Option<seq<string>>, neighborChild: Option<seq<string>>, key: string, depth: int): seq<string> {
    firstChild.GetOr([]) + neighborChild.GetOr([]) + [key]
  }

  /**
   * The order in which `traverse` calls back: a node's child subtree, then
   * its later siblings, then the node itself.
   */
  ghost function PostOrder<T>(h: Nodes<T>, rank: seq<nat>, id: NodeId): (r: seq<NodeId>)
    requires Ranked(h, rank) && id < |h|
    ensures |r| > 0 && r[|r| - 1] == id
    ensures forall k | 0 <= k < |r| :: r[k] < |h|
    decreases rank[id]
  {
    assert Below(h, rank, id, h[id].leftChild) && Below(h, rank, id, h[id].rightSibling);
    (if h[id].leftChild.Some? then PostOrder(h, rank, h[id].leftChild.value) else [])
    + (if h[id].rightSibling.Some? then PostOrder(h, rank, h[id].rightSibling.value) else [])
    + [id]
  }

  /** Without `onlyThisRoot` the callback is called once per node, in post-order. */
  lemma {:induction false} TraverseCallOrder<T>(h: Nodes<T>, rank: seq<nat>, x: NodeId, depth: int)
    requires Ranked(h, rank) && x < |h|
    ensures Traverse(h, rank, x, CallLog, Params(false, depth)) == Keys(h, PostOrder(h, rank, x))
    decreases rank[x]
  {
    TraverseStep(h, rank, x, CallLog, depth);
    var lc, rs := h[x].leftChild, h[x].rightSibling;
    var left := if lc.Some? then PostOrder(h, rank, lc.value) else [];
    var right := if rs.Some? then PostOrder(h, rank, rs.value) else [];
    if lc.Some? {
      TraverseCallOrder(h, rank, lc.value, depth + 1);
    }
    if rs.Some? {
      TraverseCallOrder(h, rank, rs.value, depth);
    }
    var lChild := if lc.Some? then Some(Traverse(h, rank, lc.value, CallLog, Params(false, depth + 1))) else None;
    var rSibling := if rs.Some? then Some(Traverse(h, rank, rs.value, CallLog, Params(false, depth))) else None;
    assert lChild.GetOr([]) == Keys(h, left);
    assert rSibling.GetOr([]) == Keys(h, right);
    assert PostOrder(h, rank, x) == left + right + [x];
    KeysConcat(h, left, right);
    KeysConcat(h, left + right, [x]);
    assert Keys(h, [x]) == [h[x].code];
  }

  /** With `onlyThisRoot` the calls are those for the child subtree, in post-order, then the node's. */
  lemma TraverseCallOrderOnlyThisRoot<T>(h: Nodes<T>, rank: seq<nat>, id: NodeId, depth: int)
    requires Ranked(h, rank) && id < |h|
    ensures Below(h, rank, id, h[id].leftChild)
    ensures Traverse(h, rank, id, CallLog, Params(true, depth)) ==
      (if h[id].leftChild.Some? then Keys(h, PostOrder(h, rank, h[id].leftChild.value)) else []) + [h[id].code]
  {
    assert Below(h, rank, id, h[id].leftChild) && Below(h, rank, id, h[id].rightSibling);
    var lc := h[id].leftChild;
    var lChild := if lc.Some? then Some(Traverse(h, rank, lc.value, CallLog, Params(false, depth + 1))) else None;
    assert Traverse(h, rank, id, CallLog, Params(true, depth)) == CallLog(h[id].data, lChild, None, h[id].code, depth);
    if lc.Some? {
      TraverseCallOrder(h, rank, lc.value, depth + 1);
    }
  }

  /** A callback listing the depths it is called at, node before descendants. */
  function DepthStep<T>(data: Option<T>, firstChild: Option<seq<int>>, neighborChild: Option<seq<int>>, key: string, depth: int): seq<int> {
    [depth] + firstChild.GetOr([]) + neighborChild.GetOr([])
  }

  /** The levels of a tree whose root is at `depth`: the root, then each child's levels one deeper. */
  ghost function Levels<T>(j: Json<T>, depth: int): seq<int>
    decreases j, 1
  {
    [depth] + ForestLevels(j.children, depth + 1)
  }

  ghost function ForestLevels<T>(js: seq<Json<T>>, depth: int): seq<int>
    decreases js, 0
  {
    if js == [] then [] else Levels(js[0], depth) + ForestLevels(js[1..], depth)
  }

  lemma {:induction false} ForestLevelsConcat<T>(a: seq<Json<T>>, b: seq<Json<T>>, depth: int)
    ensures ForestLevels(a + b, depth) == ForestLevels(a, depth) + ForestLevels(b, depth)
    decreases |a|
  {
    if a != [] {
      ForestLevelsConcat(a[1..], b, depth);
      assert (a + b)[1..] == a[1..] + b;
    } else {
      assert a + b == b;
    }
  }

  lemma {:induction false} TraverseChainDepths<T>(h: Nodes<T>, rank: seq<nat>, x: NodeId, depth: int)
    requires Ranked(h, rank) && x < |h|
    ensures Traverse(h, rank, x, DepthStep, Params(false, depth)) == ForestLevels(RepChain(h, rank, Some(x)), depth)
    decreases rank[x]
  {
    assert Below(h, rank, x, h[x].leftChild) && Below(h, rank, x, h[x].rightSibling);
    var lc, rs := h[x].leftChild, h[x].rightSibling;
    var lChild := if lc.Some? then Some(Traverse(h, rank, lc.value, DepthStep, Params(false, depth + 1))) else None;
    var rSibling := if rs.Some? then Some(Traverse(h, rank, rs.value, DepthStep, Params(false, depth))) else None;
    if lc.Some? {
      TraverseChainDepths(h, rank, lc.value, depth + 1);
    }
    if rs.Some? {
      TraverseChainDepths(h, rank, rs.value, depth);
    }
    assert lChild.GetOr([]) == ForestLevels(RepChain(h, rank, lc), depth + 1);
    assert rSibling.GetOr([]) == ForestLevels(RepChain(h, rank, rs), depth);
    var rest := RepChain(h, rank, rs);
    ForestLevelsConcat([Rep(h, rank, x)], rest, depth);
    assert ForestLevels([Rep(h, rank, x)], depth) == Levels(Rep(h, rank, x), depth) by {
      assert [Rep(h, rank, x)][1..] == [];
    }
    calc {
      Traverse(h, rank, x, DepthStep, Params(false, depth));
      DepthStep(h[x].data, lChild, rSibling, h[x].code, depth);
      [depth] + ForestLevels(RepChain(h, rank, lc), depth + 1) + ForestLevels(rest, depth);
      Levels(Rep(h, rank, x), depth) + ForestLevels(rest, depth);
      ForestLevels([Rep(h, rank, x)] + rest, depth);
    }
  }

  /**
   * The depths `traverse` passes to the callback from node `id` are the
   * levels of its tree: children one deeper than their parent, siblings at
   * the same depth.
   */
  lemma TraverseDepths<T>(h: Nodes<T>, rank: seq<nat>, id: NodeId, depth: int)
    requires Ranked(h, rank) && id < |h|
    ensures Traverse(h, rank, id, DepthStep, Params(true, depth)) == Levels(Rep(h, rank, id), depth)
  {
    assert Below(h, rank, id, h[id].leftChild);
    if h[id].leftChild.Some? {
      TraverseChainDepths(h, rank, h[id].leftChild.value, depth + 1);
    }
  }

  // ---------------------------------------------------------------------
  // `onlyThisRoot` for any callback.

  /** The fold below `x` reads only nodes of rank at most `rank[x]`. */
  lemma {:induction false} TraverseFrame<T, Z>(h: Nodes<T>, h': Nodes<T>, rank: seq<nat>, x: NodeId,
                                               callback: Callback<T, Z>, params: Params, bound: nat)
    requires Ranked(h, rank) && Ranked(h', rank) && x < |h|
    requires rank[x] <= bound
    requires forall i | 0 <= i < |h| && rank[i] <= bound :: h'[i] == h[i]
    ensures Traverse(h, rank, x, callback, params) == Traverse(h', rank, x, callback, params)
    decreases rank[x]
  {
    assert Below(h, rank, x, h[x].leftChild) && Below(h, rank, x, h[x].rightSibling);
    if h[x].leftChild.Some? {
      TraverseFrame(h, h', rank, h[x].leftChild.value, callback, Params(false, params.depth + 1), bound);
    }
    if h[x].rightSibling.Some? {
      TraverseFrame(h, h', rank, h[x].rightSibling.value, callback, Params(false, params.depth), bound);
    }
  }

  /**
   * With `onlyThisRoot` the fold from `id` is the fold, without it, of the
   * store in which `id` has no right sibling: later siblings never reach
   * the callback.
   */
  lemma OnlyThisRootIgnoresSiblings<T, Z>(h: Nodes<T>, rank: seq<nat>, id: NodeId, callback: Callback<T, Z>, depth: int)
    requires Ranked(h, rank) && id < |h|
    ensures Ranked(WithRightSibling(h, id, None), rank)
    ensures Traverse(h, rank, id, callback, Params(true, depth)) ==
            Traverse(WithRightSibling(h, id, None), rank, id, callback, Params(false, depth))
  {
    var h' := WithRightSibling(h, id, None);
    assert Ranked(h', rank) by {
      forall i | 0 <= i < |h'|
        ensures Below(h', rank, i, h'[i].leftChild) && Below(h', rank, i, h'[i].rightSibling)
      {
        assert Below(h, rank, i, h[i].leftChild) && Below(h, rank, i, h[i].rightSibling);
      }
    }
    assert Below(h, rank, id, h[id].leftChild);
    if h[id].leftChild.Some? {
      var c := h[id].leftChild.value;
      TraverseFrame(h, h', rank, c, callback, Params(false, depth + 1), rank[c]);
    }
  }

  // ---------------------------------------------------------------------
  // What the attach operations do to the fold.

  /**
   * After `pushChild(n)` of a fresh leaf, `traverse(parseToJSON)` from `x`
   * lists the old children, unchanged in order, then `n`.
   */
  lemma PushChildFoldsInOrder<T>(h: Nodes<T>, rank: seq<nat>, x: NodeId, n: NodeId, cs: seq<NodeId>) returns (rank': seq<nat>)
    requires Ranked(h, rank) && x < |h| && Isolated(h, n) && n != x && IsChain(h, h[x].leftChild, cs)
    ensures Ranked(ChildPushed(h, x, n, cs), rank')
    ensures forall i | 0 <= i < |cs| :: cs[i] < |h|
    ensures var out := Traverse(ChildPushed(h, x, n, cs), rank', x, JsonStep, DefaultParams);
      && |out| == 1 && out[0].key == h[x].code
      && |out[0].children| == |cs| + 1
      && (forall i | 0 <= i < |cs| :: out[0].children[i].key == h[cs[i]].code)
      && out[0].children[|cs|] == Json(h[n].data, h[n].code, [])
  {
    Links.DetachedNotInOwnedChain(h, x, n, cs);
    ChainMembersAreNodes(h, h[x].leftChild, cs);
    rank' := Links.ChildPushedRanked(h, rank, x, n, cs);
    var h' := ChildPushed(h, x, n, cs);
    Links.ChildPushedAppendsChild(h, x, n, cs);
    TraverseToJson(h', rank', x, 0);
    RepChildrenFollowChain(h', rank', x, cs + [n]);
    assert (cs + [n])[|cs|] == n;
    assert forall i | 0 <= i < |cs| :: (cs + [n])[i] == cs[i];
    assert h'[n].leftChild == None;
    assert Rep(h', rank', n) == Json(h[n].data, h[n].code, []);
  }

  /**
   * `traverse(parseToJSON)` from `p` yields one entry for `p` whose
   * children are the trees of `p`'s child chain, in order.
   */
  lemma FoldListsChildren<T>(h: Nodes<T>, rank: seq<nat>, p: NodeId, cs: seq<NodeId>)
    requires Ranked(h, rank) && p < |h| && IsChain(h, h[p].leftChild, cs)
    ensures forall i | 0 <= i < |cs| :: cs[i] < |h|
    ensures var out := Traverse(h, rank, p, JsonStep, DefaultParams);
      && |out| == 1 && out[0].key == h[p].code && out[0].data == h[p].data
      && |out[0].children| == |cs|
      && forall i | 0 <= i < |cs| :: out[0].children[i] == Rep(h, rank, cs[i])
  {
    TraverseToJson(h, rank, p, 0);
    RepChildrenFollowChain(h, rank, p, cs);
  }

  /**
   * After `pushNodeAfter(n)` of a fresh leaf on the `k`-th child of `p`,
   * `traverse(parseToJSON)` from `p` lists `n` right after that child, and
   * the next child points back to `n`.
   */
  lemma PushNodeAfterFoldsInOrder<T>(h: Nodes<T>, rank: seq<nat>, p: NodeId, cs: seq<NodeId>, k: nat, n: NodeId)
    returns (rank': seq<nat>)
    requires Ranked(h, rank) && p < |h| && IsChain(h, h[p].leftChild, cs) && k < |cs| - 1
    requires Isolated(h, n)
    ensures forall i | 0 <= i < |cs| :: cs[i] < |h|
    ensures h[cs[k]].rightSibling == Some(cs[k + 1])
    ensures Ranked(InsertedAfter(h, cs[k], n), rank')
    ensures InsertedAfter(h, cs[k], n)[cs[k + 1]].leftSibling == Some(n)
    ensures var out := Traverse(InsertedAfter(h, cs[k], n), rank', p, JsonStep, DefaultParams);
      && |out| == 1 && |out[0].children| == |cs| + 1
      && (forall i | 0 <= i <= k :: out[0].children[i].key == h[cs[i]].code)
      && out[0].children[k + 1] == Json(h[n].data, h[n].code, [])
      && (forall i | k + 1 <= i < |cs| :: out[0].children[i + 1].key == h[cs[i]].code)
  {
    Links.DetachedNotInOwnedChain(h, p, n, cs);
    ChainMembersAreNodes(h, h[p].leftChild, cs);
    Links.ChainDistinct(h, h[p].leftChild, cs);
    Links.InsertedAfterSplicesChain(h, h[p].leftChild, cs, k, n);
    var x := cs[k];
    assert n != x && n != cs[k + 1] && x != cs[k + 1];
    rank' := Links.InsertedAfterRanked(h, rank, x, n);
    var h' := InsertedAfter(h, x, n);
    var cs' := cs[..k + 1] + [n] + cs[k + 1..];
    assert h'[p].leftChild == h[p].leftChild;
    FoldListsChildren(h', rank', p, cs');
    var out := Traverse(h', rank', p, JsonStep, DefaultParams);
    assert cs'[k + 1] == n;
    assert h'[n].leftChild == None && h'[n].data == h[n].data && h'[n].code == h[n].code;
    RepOfLeaf(h', rank', n);
    SpliceIndices(cs, k, n);
    forall i | 0 <= i <= k
      ensures out[0].children[i].key == h[cs[i]].code
    {
      assert out[0].children[i] == Rep(h', rank', cs'[i]);
    }
    forall i | k + 1 <= i < |cs|
      ensures out[0].children[i + 1].key == h[cs[i]].code
    {
      assert out[0].children[i + 1] == Rep(h', rank', cs'[i + 1]);
    }
  }

  /** Where the members of a chain end up once `n` is spliced in after position `k`. */
  lemma SpliceIndices(cs: seq<NodeId>, k: nat, n: NodeId)
    requires k < |cs|
    ensures var cs' := cs[..k + 1] + [n] + cs[k + 1..];
      && |cs'| == |cs| + 1 && cs'[k + 1] == n
      && (forall i | 0 <= i <= k :: cs'[i] == cs[i])
      && (forall i | k + 1 <= i < |cs| :: cs'[i + 1] == cs[i])
  {
  }
}
