/**
 * `find(code)`: the keyed search of `nonBinaryTree`, and the pre-order
 * walk it follows.
 */
module Search {
  import opened Wrappers
  import opened Store

  /**
   * `find(code)` on node `id`: the node itself if its key matches; nothing
   * for a leaf without right sibling; otherwise the result of the child
   * subtree if it found something, else that of the right sibling.
   */
  function Find<T>(h: Nodes<T>, ghost rank: seq<nat>, id: NodeId, code: string): (r: Option<NodeId>)
    requires Ranked(h, rank) && id < |h|
    ensures r.Some? ==> r.value < |h| && h[r.value].code == code
    ensures h[id].code == code ==> r == Some(id)
    decreases rank[id]
  {
    if h[id].code == code then Some(id)
    else if h[id].leftChild.None? && h[id].rightSibling.None? then None
    else
      assert Below(h, rank, id, h[id].leftChild) && Below(h, rank, id, h[id].rightSibling);
      var lChild := if h[id].leftChild.Some? then Find(h, rank, h[id].leftChild.value, code) else None;
      var rSibling := if h[id].rightSibling.Some? then Find(h, rank, h[id].rightSibling.value, code) else None;
      if lChild.Some? then lChild else rSibling
  }

  /**
   * The nodes reachable from `id` through `leftChild` and `rightSibling`
   * links, in pre-order: the node, its child subtree, then its later
   * siblings' subtrees.
   */
  ghost function PreOrder<T>(h: Nodes<T>, rank: seq<nat>, id: NodeId): (r: seq<NodeId>)
    requires Ranked(h, rank) && id < |h|
    ensures |r| > 0 && r[0] == id
    ensures forall k | 0 <= k < |r| :: r[k] < |h|
    decreases rank[id]
  {
    assert Below(h, rank, id, h[id].leftChild) && Below(h, rank, id, h[id].rightSibling);
    [id]
    + (if h[id].leftChild.Some? then PreOrder(h, rank, h[id].leftChild.value) else [])
    + (if h[id].rightSibling.Some? then PreOrder(h, rank, h[id].rightSibling.value) else [])
  }

  /** The first node of `xs` whose key is `code`. */
  ghost function FirstWithCode<T>(h: Nodes<T>, xs: seq<NodeId>, code: string): (r: Option<NodeId>)
    requires forall k | 0 <= k < |xs| :: xs[k] < |h|
    ensures r.None? <==> forall k | 0 <= k < |xs| :: h[xs[k]].code != code
    ensures r.Some? ==> exists k | 0 <= k < |xs| :: xs[k] == r.value && h[xs[k]].code == code &&
                          forall j | 0 <= j < k :: h[xs[j]].code != code
  {
    if xs == [] then None
    else if h[xs[0]].code == code then Some(xs[0])
    else
      var r := FirstWithCode(h, xs[1..], code);
      assert forall k | 1 <= k < |xs| :: xs[k] == xs[1..][k - 1];
      r
  }

  lemma {:induction false} FirstWithCodeConcat<T>(h: Nodes<T>, a: seq<NodeId>, b: seq<NodeId>, code: string)
    requires forall k | 0 <= k < |a| :: a[k] < |h|
    requires forall k | 0 <= k < |b| :: b[k] < |h|
    ensures forall k | 0 <= k < |a + b| :: (a + b)[k] < |h|
    ensures FirstWithCode(h, a + b, code) ==
      if FirstWithCode(h, a, code).Some? then FirstWithCode(h, a, code) else FirstWithCode(h, b, code)
    decreases |a|
  {
    if a != [] {
      FirstWithCodeConcat(h, a[1..], b, code);
      assert (a + b)[1..] == a[1..] + b;
    } else {
      assert a + b == b;
    }
  }

  /**
   * `find` returns the first node in pre-order whose key matches, and
   * nothing when no reachable node has that key.
   */
  lemma {:induction false} FindIsFirstInPreOrder<T>(h: Nodes<T>, rank: seq<nat>, id: NodeId, code: string)
    requires Ranked(h, rank) && id < |h|
    ensures Find(h, rank, id, code) == FirstWithCode(h, PreOrder(h, rank, id), code)
    decreases rank[id]
  {
    assert Below(h, rank, id, h[id].leftChild) && Below(h, rank, id, h[id].rightSibling);
    var left := if h[id].leftChild.Some? then PreOrder(h, rank, h[id].leftChild.value) else [];
    var right := if h[id].rightSibling.Some? then PreOrder(h, rank, h[id].rightSibling.value) else [];
    assert PreOrder(h, rank, id) == [id] + (left + right);
    if h[id].code != code {
      if h[id].leftChild.Some? {
        FindIsFirstInPreOrder(h, rank, h[id].leftChild.value, code);
      }
      if h[id].rightSibling.Some? {
        FindIsFirstInPreOrder(h, rank, h[id].rightSibling.value, code);
      }
      FirstWithCodeConcat(h, left, right, code);
      assert ([id] + (left + right))[1..] == left + right;
    }
  }

  /** `find` yields nothing exactly when no node reachable from `id` has the key. */
  lemma FindNoneIffAbsent<T>(h: Nodes<T>, rank: seq<nat>, id: NodeId, code: string)
    requires Ranked(h, rank) && id < |h|
    ensures Find(h, rank, id, code).None? <==> forall x | x in PreOrder(h, rank, id) :: h[x].code != code
  {
    FindIsFirstInPreOrder(h, rank, id, code);
    var xs := PreOrder(h, rank, id);
    assert forall x | x in xs :: exists k | 0 <= k < |xs| :: xs[k] == x;
  }

  /** With keys unique among the reachable nodes, `find` returns the node that has the key. */
  lemma FindUniqueKey<T>(h: Nodes<T>, rank: seq<nat>, id: NodeId, x: NodeId)
    requires Ranked(h, rank) && id < |h| && x in PreOrder(h, rank, id)
    requires forall y | y in PreOrder(h, rank, id) && h[y].code == h[x].code :: y == x
    ensures Find(h, rank, id, h[x].code) == Some(x)
  {
    FindIsFirstInPreOrder(h, rank, id, h[x].code);
    var xs := PreOrder(h, rank, id);
    var k :| 0 <= k < |xs| && xs[k] == x;
    assert h[xs[k]].code == h[x].code;
  }
}
