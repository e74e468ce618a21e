/** Option, as the source's `T | undefined`. */
module Wrappers {
  datatype Option<T> = None | Some(value: T) {
    function GetOr(otherwise: T): T {
      if Some? then value else otherwise
    }
  }
}

/**
 * The nodes of `nonBinaryTree<T>` and the effects of its field writes.
 * Every object the program allocates lives in one arena (a sequence of
 * node records); a reference to a node is its index in the arena, and
 * `undefined` is `None`.
 */
module Store {
  import opened Wrappers

  type NodeId = nat

  /** One `nonBinaryTree` object: payload, four links and its key. */
  datatype Node<T> = Node(
    data: Option<T>,
    parent: Option<NodeId>,
    leftChild: Option<NodeId>,
    rightSibling: Option<NodeId>,
    leftSibling: Option<NodeId>,
    code: string)

  type Nodes<T> = seq<Node<T>>

  /** How a mutating call ends: normally, or by throwing `Error(message)`. */
  datatype Outcome = Done | Throw(message: string)

  const ChildIsNull := "child cannon be a null"
  const SiblingIsNull := "sibling cannon be a null"

  /** `r` is undefined or refers to an allocated node. */
  predicate Ref<T>(h: Nodes<T>, r: Option<NodeId>) {
    r.Some? ==> r.value < |h|
  }

  predicate NodeClosed<T>(h: Nodes<T>, n: Node<T>) {
    Ref(h, n.parent) && Ref(h, n.leftChild) && Ref(h, n.rightSibling) && Ref(h, n.leftSibling)
  }

  /** Every link of every node refers to an allocated node. */
  predicate Closed<T>(h: Nodes<T>) {
    forall i | 0 <= i < |h| :: NodeClosed(h, h[i])
  }

  // ---------------------------------------------------------------------
  // Plain field writes `x._f = v`.

  function WithParent<T>(h: Nodes<T>, x: NodeId, v: Option<NodeId>): Nodes<T>
    requires x < |h|
  {
    h[x := h[x].(parent := v)]
  }

  function WithLeftChild<T>(h: Nodes<T>, x: NodeId, v: Option<NodeId>): Nodes<T>
    requires x < |h|
  {
    h[x := h[x].(leftChild := v)]
  }

  function WithRightSibling<T>(h: Nodes<T>, x: NodeId, v: Option<NodeId>): Nodes<T>
    requires x < |h|
  {
    h[x := h[x].(rightSibling := v)]
  }

  function WithLeftSibling<T>(h: Nodes<T>, x: NodeId, v: Option<NodeId>): Nodes<T>
    requires x < |h|
  {
    h[x := h[x].(leftSibling := v)]
  }

  /** `x` and `y` agree on every field except possibly those named false. */
  predicate SameBut<T(==)>(x: Node<T>, y: Node<T>, parent: bool, leftChild: bool, rightSibling: bool, leftSibling: bool) {
    && x.data == y.data && x.code == y.code
    && (parent ==> x.parent == y.parent)
    && (leftChild ==> x.leftChild == y.leftChild)
    && (rightSibling ==> x.rightSibling == y.rightSibling)
    && (leftSibling ==> x.leftSibling == y.leftSibling)
  }

  /** No write of the tree touches a payload or a key. */
  predicate SamePayload<T(==)>(h: Nodes<T>, h': Nodes<T>) {
    |h'| == |h| && forall i | 0 <= i < |h| :: h'[i].data == h[i].data && h'[i].code == h[i].code
  }

  /** The `leftChild` fields are the same in both stores. */
  predicate SameLeftChildren<T>(h: Nodes<T>, h': Nodes<T>) {
    |h'| == |h| && forall i | 0 <= i < |h| :: h'[i].leftChild == h[i].leftChild
  }

  // ---------------------------------------------------------------------
  // The setters and the attach steps, as the writes they perform in order.

  /**
   * `x.leftSibling = y` for a defined `y`: the ARGUMENT `y` takes `x`'s
   * parent, then `x` points back to `y`.
   */
  function LeftSiblingSet<T(==)>(h: Nodes<T>, x: NodeId, y: NodeId): (h': Nodes<T>)
    requires x < |h| && y < |h|
    ensures |h'| == |h| && SamePayload(h, h')
    ensures SameLeftChildren(h, h')
    ensures h'[x].leftSibling == Some(y) && h'[y].parent == h[x].parent
    ensures x != y ==> SameBut(h'[x], h[x], true, true, true, false) && SameBut(h'[y], h[y], false, true, true, true)
    ensures x == y ==> SameBut(h'[x], h[x], true, true, true, false)
    ensures forall i | 0 <= i < |h| && i != x && i != y :: h'[i] == h[i]
  {
    WithLeftSibling(WithParent(h, y, h[x].parent), x, Some(y))
  }

  /**
   * `x.rightSibling = y` for a defined `y`: first `y.leftSibling = x`, which
   * gives `x` the parent of `y`; then `y.parent = x._parent`, which by then
   * is `y`'s own parent again; then the forward link.
   */
  function RightSiblingSet<T(==)>(h: Nodes<T>, x: NodeId, y: NodeId): (h': Nodes<T>)
    requires x < |h| && y < |h|
    ensures |h'| == |h| && SamePayload(h, h')
    ensures SameLeftChildren(h, h')
    ensures h'[x].rightSibling == Some(y)
    ensures x != y ==> h'[y].leftSibling == Some(x) && h'[x].parent == h[y].parent && h'[y].parent == h[y].parent
    ensures x != y ==> SameBut(h'[x], h[x], false, true, false, true) && SameBut(h'[y], h[y], true, true, true, false)
    ensures x == y ==> h'[x].leftSibling == Some(x) && SameBut(h'[x], h[x], true, true, false, false)
    ensures forall i | 0 <= i < |h| && i != x && i != y :: h'[i] == h[i]
  {
    var h1 := LeftSiblingSet(h, y, x);
    var h2 := WithParent(h1, y, h1[x].parent);
    WithRightSibling(h2, x, Some(y))
  }

  /** `x.child = y` for a defined `y`: `y`'s parent becomes `x`, `x`'s first child `y`. */
  function ChildSet<T(==)>(h: Nodes<T>, x: NodeId, y: NodeId): (h': Nodes<T>)
    requires x < |h| && y < |h|
    ensures |h'| == |h| && SamePayload(h, h')
    ensures h'[x].leftChild == Some(y) && h'[y].parent == Some(x)
    ensures x != y ==> SameBut(h'[x], h[x], true, false, true, true) && SameBut(h'[y], h[y], false, true, true, true)
    ensures x == y ==> SameBut(h'[x], h[x], false, false, true, true)
    ensures forall i | 0 <= i < |h| && i != x && i != y :: h'[i] == h[i]
  {
    WithLeftChild(WithParent(h, y, Some(x)), x, Some(y))
  }

  /**
   * What `pushRightSibling(n)` does once it reached the chain tail `t`:
   * copy the tail's parent to `n`, set `n.leftSibling = t` through the
   * setter, then link `t` forward to `n`.
   */
  function Appended<T(==)>(h: Nodes<T>, t: NodeId, n: NodeId): (h': Nodes<T>)
    requires t < |h| && n < |h|
    ensures |h'| == |h| && SamePayload(h, h')
    ensures SameLeftChildren(h, h')
    ensures t != n ==> h'[t].rightSibling == Some(n) && h'[n].leftSibling == Some(t)
    ensures t != n ==> h'[n].parent == h[t].parent && h'[t].parent == h[t].parent
    ensures t != n ==> SameBut(h'[t], h[t], true, true, false, true) && SameBut(h'[n], h[n], false, true, true, false)
    ensures forall i | 0 <= i < |h| && i != t && i != n :: h'[i] == h[i]
  {
    var h1 := WithParent(h, n, h[t].parent);
    var h2 := LeftSiblingSet(h1, n, t);
    WithRightSibling(h2, t, Some(n))
  }

  /** The last element of a non-empty sequence. */
  function Last(cs: seq<NodeId>): NodeId
    requires cs != []
  {
    cs[|cs| - 1]
  }

  /**
   * What `pushChild(n)` does on `x` whose child chain is `cs`: `n`'s parent
   * becomes `x`; then `n` is either the first child or appended after the
   * last one.
   */
  function ChildPushed<T(==)>(h: Nodes<T>, x: NodeId, n: NodeId, cs: seq<NodeId>): (h': Nodes<T>)
    requires x < |h| && n < |h|
    requires IsChain(h, h[x].leftChild, cs)
    ensures |h'| == |h| && SamePayload(h, h')
    ensures cs == [] ==> h'[x].leftChild == Some(n) && h'[n].parent == Some(x)
    ensures cs != [] && Last(cs) < |h| && n != Last(cs) ==>
      h'[Last(cs)].rightSibling == Some(n) && h'[n].leftSibling == Some(Last(cs)) && h'[n].parent == h[Last(cs)].parent
    ensures forall i | 0 <= i < |h| && i != x && i != n && (cs != [] ==> i != Last(cs)) :: h'[i] == h[i]
    ensures forall i | 0 <= i < |h| && i != x :: h'[i].leftChild == h[i].leftChild
    ensures cs == [] && x != n ==>
      SameBut(h'[x], h[x], true, false, true, true) && SameBut(h'[n], h[n], false, true, true, true)
    ensures cs != [] && Last(cs) < |h| && n != Last(cs) ==>
      && SameBut(h'[Last(cs)], h[Last(cs)], true, true, false, true)
      && SameBut(h'[n], h[n], false, true, true, false)
      && (x != n && x != Last(cs) ==> h'[x] == h[x])
  {
    ChainMembersAreNodes(h, h[x].leftChild, cs);
    var h1 := WithParent(h, n, Some(x));
    if cs == [] then WithLeftChild(h1, x, Some(n))
    else Appended(h1, Last(cs), n)
  }

  /**
   * What `pushNodeAfter(n)` does on `x` with right sibling `s`:
   * `n.rightSibling = s` through the setter, `n.parent = x._parent`,
   * `n.leftSibling = x` through the setter, and finally `x._rightSibling = n`.
   */
  function InsertedAfter<T(==)>(h: Nodes<T>, x: NodeId, n: NodeId): (h': Nodes<T>)
    requires x < |h| && n < |h| && h[x].rightSibling.Some? && h[x].rightSibling.value < |h|
    ensures |h'| == |h| && SamePayload(h, h')
    ensures SameLeftChildren(h, h')
    ensures var s := h[x].rightSibling.value;
      n != x && n != s && x != s ==>
        && h'[x].rightSibling == Some(n) && h'[n].rightSibling == Some(s)
        && h'[s].leftSibling == Some(n) && h'[n].leftSibling == Some(x)
        && h'[n].parent == h[x].parent && h'[x].parent == h[x].parent && h'[s].parent == h[s].parent
        && SameBut(h'[x], h[x], true, true, false, true)
        && SameBut(h'[n], h[n], false, true, false, false)
        && SameBut(h'[s], h[s], true, true, true, false)
    ensures forall i | 0 <= i < |h| && i != x && i != n && Some(i) != h[x].rightSibling :: h'[i] == h[i]
  {
    var s := h[x].rightSibling.value;
    var h1 := RightSiblingSet(h, n, s);
    var h2 := WithParent(h1, n, h1[x].parent);
    var h3 := LeftSiblingSet(h2, n, x);
    WithRightSibling(h3, x, Some(n))
  }

  // ---------------------------------------------------------------------
  // Sibling chains and the structural invariants.

  /**
   * `cs` is the chain of nodes reached from `start` by following
   * `rightSibling` until it is undefined (so the chain is finite).
   */
  predicate IsChain<T>(h: Nodes<T>, start: Option<NodeId>, cs: seq<NodeId>)
    decreases |cs|
  {
    match start
    case None => cs == []
    case Some(x) => |cs| > 0 && cs[0] == x && x < |h| && IsChain(h, h[x].rightSibling, cs[1..])
  }

  /** A chain depends only on the `rightSibling` fields of its own members. */
  lemma {:induction false} ChainFrame<T>(h: Nodes<T>, h': Nodes<T>, start: Option<NodeId>, cs: seq<NodeId>)
    requires IsChain(h, start, cs)
    requires forall i | 0 <= i < |cs| :: cs[i] < |h| && cs[i] < |h'| && h'[cs[i]].rightSibling == h[cs[i]].rightSibling
    ensures IsChain(h', start, cs)
    decreases |cs|
  {
    if start.Some? {
      assert cs[0] < |h'|;
      ChainFrame(h, h', h[start.value].rightSibling, cs[1..]);
    }
  }

  lemma UpdateClosed<T>(h: Nodes<T>, x: NodeId, n: Node<T>)
    requires Closed(h) && x < |h| && NodeClosed(h, n)
    ensures Closed(h[x := n])
  {
  }

  lemma {:induction false} ChainMembersAreNodes<T>(h: Nodes<T>, start: Option<NodeId>, cs: seq<NodeId>)
    requires IsChain(h, start, cs)
    ensures forall i | 0 <= i < |cs| :: cs[i] < |h|
    ensures start.None? <==> cs == []
    ensures cs != [] ==> start == Some(cs[0]) && h[Last(cs)].rightSibling.None?
    decreases |cs|
  {
    if cs != [] {
      ChainMembersAreNodes(h, h[cs[0]].rightSibling, cs[1..]);
    }
  }

  /** `rank` strictly decreases along every `leftChild` and `rightSibling` link. */
  predicate Below<T>(h: Nodes<T>, rank: seq<nat>, i: NodeId, r: Option<NodeId>)
    requires i < |rank|
  {
    r.Some? ==> r.value < |h| && r.value < |rank| && rank[r.value] < rank[i]
  }

  /** The owning links form no cycle, witnessed by `rank`. */
  ghost predicate Ranked<T>(h: Nodes<T>, rank: seq<nat>) {
    && |rank| == |h|
    && forall i | 0 <= i < |h| :: Below(h, rank, i, h[i].leftChild) && Below(h, rank, i, h[i].rightSibling)
  }

  /** A first child knows its parent and has no left sibling. */
  predicate FirstChildLinked<T>(h: Nodes<T>, i: NodeId)
    requires i < |h|
  {
    h[i].leftChild.Some? ==>
      var c := h[i].leftChild.value;
      c < |h| && h[c].parent == Some(i) && h[c].leftSibling.None?
  }

  /** If `i.rightSibling = s` then `s.leftSibling = i` and `s.parent = i.parent`. */
  predicate SiblingLinked<T>(h: Nodes<T>, i: NodeId)
    requires i < |h|
  {
    h[i].rightSibling.Some? ==>
      var s := h[i].rightSibling.value;
      s < |h| && h[s].leftSibling == Some(i) && h[s].parent == h[i].parent
  }

  /** The back pointers agree with the owning links everywhere. */
  predicate WellLinked<T>(h: Nodes<T>) {
    forall i | 0 <= i < |h| :: FirstChildLinked(h, i) && SiblingLinked(h, i)
  }

  /**
   * `n` is not attached anywhere: no node owns it, and it has no siblings.
   * It may carry a subtree of its own.
   */
  predicate Detached<T>(h: Nodes<T>, n: NodeId) {
    && n < |h|
    && h[n].rightSibling.None? && h[n].leftSibling.None?
    && forall i | 0 <= i < |h| :: h[i].leftChild != Some(n) && h[i].rightSibling != Some(n)
  }

  /** A detached node without children, as the constructor makes one. */
  predicate Isolated<T>(h: Nodes<T>, n: NodeId) {
    Detached(h, n) && h[n].leftChild.None?
  }
}
