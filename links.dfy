/**
 * What the attach operations do to the structure: sibling chains, the
 * back-pointer invariant, and acyclicity of the owning links.
 */
module Links {
  import opened Wrappers
  import opened Store

  // ---------------------------------------------------------------------
  // Facts about sibling chains.

  /** Every suffix of a chain is the chain of its first node. */
  lemma {:induction false} ChainSuffix<T>(h: Nodes<T>, start: Option<NodeId>, cs: seq<NodeId>, i: nat)
    requires IsChain(h, start, cs) && i < |cs|
    ensures IsChain(h, Some(cs[i]), cs[i..])
    ensures i < |cs| - 1 ==> cs[i] < |h| && h[cs[i]].rightSibling == Some(cs[i + 1])
    decreases i
  {
    if i > 0 {
      ChainSuffix(h, h[cs[0]].rightSibling, cs[1..], i - 1);
      assert cs[1..][i - 1..] == cs[i..];
    } else if i < |cs| - 1 {
      ChainMembersAreNodes(h, h[cs[0]].rightSibling, cs[1..]);
    }
  }

  /** A start node has at most one finite chain. */
  lemma {:induction false} ChainUnique<T>(h: Nodes<T>, start: Option<NodeId>, a: seq<NodeId>, b: seq<NodeId>)
    requires IsChain(h, start, a) && IsChain(h, start, b)
    ensures a == b
    decreases |a|
  {
    if start.Some? {
      ChainUnique(h, h[start.value].rightSibling, a[1..], b[1..]);
      assert a == [a[0]] + a[1..] && b == [b[0]] + b[1..];
    }
  }

  /** A finite chain never visits a node twice. */
  lemma ChainDistinct<T>(h: Nodes<T>, start: Option<NodeId>, cs: seq<NodeId>)
    requires IsChain(h, start, cs)
    ensures forall i, j | 0 <= i < j < |cs| :: cs[i] != cs[j]
  {
    forall i, j | 0 <= i < j < |cs|
      ensures cs[i] != cs[j]
    {
      if cs[i] == cs[j] {
        ChainSuffix(h, start, cs, i);
        ChainSuffix(h, start, cs, j);
        ChainUnique(h, Some(cs[i]), cs[i..], cs[j..]);
      }
    }
  }

  /** A detached node is in no chain that starts at an owned node. */
  lemma DetachedNotInOwnedChain<T>(h: Nodes<T>, x: NodeId, n: NodeId, cs: seq<NodeId>)
    requires x < |h| && Detached(h, n)
    requires IsChain(h, h[x].leftChild, cs) || IsChain(h, h[x].rightSibling, cs)
    ensures n !in cs
  {
    var start := if IsChain(h, h[x].leftChild, cs) then h[x].leftChild else h[x].rightSibling;
    if k :| 0 <= k < |cs| && cs[k] == n {
      if k == 0 {
        ChainMembersAreNodes(h, start, cs);
      } else {
        ChainSuffix(h, start, cs, k - 1);
      }
    }
  }

  // ---------------------------------------------------------------------
  // The attach operations and the child / sibling order.

  /** `pushRightSibling(n)` on any member of a chain appends `n` to it. */
  lemma {:induction false} AppendedExtendsChain<T>(h: Nodes<T>, start: Option<NodeId>, cs: seq<NodeId>, n: NodeId)
    requires IsChain(h, start, cs) && cs != []
    requires n < |h| && n !in cs && h[n].rightSibling.None?
    ensures Last(cs) < |h| && IsChain(Appended(h, Last(cs), n), start, cs + [n])
    decreases |cs|
  {
    ChainMembersAreNodes(h, start, cs);
    var h' := Appended(h, Last(cs), n);
    var x := cs[0];
    if |cs| == 1 {
      assert IsChain(h', h'[n].rightSibling, []);
      assert (cs + [n])[1..] == [n];
    } else {
      ChainDistinct(h, start, cs);
      assert x != Last(cs);
      AppendedExtendsChain(h, h[x].rightSibling, cs[1..], n);
      assert Last(cs[1..]) == Last(cs);
      assert (cs + [n])[1..] == cs[1..] + [n];
    }
  }

  /** `pushChild(n)` makes the child chain of `x` its old chain followed by `n`. */
  lemma ChildPushedAppendsChild<T>(h: Nodes<T>, x: NodeId, n: NodeId, cs: seq<NodeId>)
    requires x < |h| && n < |h| && IsChain(h, h[x].leftChild, cs)
    requires n !in cs && h[n].rightSibling.None?
    ensures var h' := ChildPushed(h, x, n, cs); IsChain(h', h'[x].leftChild, cs + [n])
  {
    ChainMembersAreNodes(h, h[x].leftChild, cs);
    var h1 := WithParent(h, n, Some(x));
    var h' := ChildPushed(h, x, n, cs);
    if cs == [] {
      assert IsChain(h', h'[n].rightSibling, []);
    } else {
      ChainFrame(h, h1, h[x].leftChild, cs);
      AppendedExtendsChain(h1, h1[x].leftChild, cs, n);
      assert h'[x].leftChild == h1[x].leftChild;
    }
  }

  /**
   * `pushChild` of each node of `ns` in turn on `x`, whose children are
   * `cs`: the children become `cs + ns`, in call order.
   */
  function ChildrenPushed<T(==)>(h: Nodes<T>, x: NodeId, ns: seq<NodeId>, cs: seq<NodeId>): (h': Nodes<T>)
    requires x < |h| && IsChain(h, h[x].leftChild, cs)
    requires forall k | 0 <= k < |ns| :: ns[k] < |h| && ns[k] != x && ns[k] !in cs && h[ns[k]].rightSibling.None?
    requires forall i, j | 0 <= i < j < |ns| :: ns[i] != ns[j]
    ensures |h'| == |h| && IsChain(h', h'[x].leftChild, cs + ns)
    decreases |ns|
  {
    if ns == [] then
      assert cs + ns == cs;
      h
    else
      var n := ns[0];
      ChainMembersAreNodes(h, h[x].leftChild, cs);
      ChildPushedAppendsChild(h, x, n, cs);
      var h1 := ChildPushed(h, x, n, cs);
      var rest := ns[1..];
      assert forall k | 0 <= k < |rest| :: rest[k] == ns[k + 1] && rest[k] != n && rest[k] != x;
      assert cs != [] ==> Last(cs) in cs;
      assert forall k | 0 <= k < |rest| :: h1[rest[k]] == h[rest[k]];
      assert (cs + [n]) + rest == cs + ns;
      ChildrenPushed(h1, x, rest, cs + [n])
  }

  /** Redirecting the head of a chain to `n`, which leads on to the second member, inserts `n`. */
  lemma ChainRedirect<T>(h: Nodes<T>, h': Nodes<T>, cs: seq<NodeId>, n: NodeId)
    requires |cs| > 1 && IsChain(h, Some(cs[1]), cs[1..]) && cs[0] < |h'| && n < |h'|
    requires h'[cs[0]].rightSibling == Some(n) && h'[n].rightSibling == Some(cs[1])
    requires forall i | 1 <= i < |cs| :: cs[i] < |h| && cs[i] < |h'| && h'[cs[i]].rightSibling == h[cs[i]].rightSibling
    ensures IsChain(h', Some(cs[0]), [cs[0], n] + cs[1..])
  {
    var rest := cs[1..];
    assert forall i | 0 <= i < |rest| :: rest[i] == cs[i + 1];
    ChainFrame(h, h', Some(cs[1]), rest);
    assert ([n] + rest)[1..] == rest;
    assert ([cs[0], n] + rest)[1..] == [n] + rest;
  }

  /** `pushNodeAfter(n)` on the head `x` of a chain gives the chain `[x, n] + cs[1..]`. */
  lemma InsertedAfterHead<T>(h: Nodes<T>, cs: seq<NodeId>, n: NodeId)
    requires |cs| > 1 && IsChain(h, Some(cs[0]), cs)
    requires n < |h| && n !in cs
    ensures cs[0] < |h| && cs[1] < |h| && h[cs[0]].rightSibling == Some(cs[1])
    ensures IsChain(InsertedAfter(h, cs[0], n), Some(cs[0]), [cs[0], n] + cs[1..])
  {
    ChainSuffix(h, Some(cs[0]), cs, 0);
    ChainSuffix(h, Some(cs[0]), cs, 1);
    ChainMembersAreNodes(h, Some(cs[0]), cs);
    ChainDistinct(h, Some(cs[0]), cs);
    var h' := InsertedAfter(h, cs[0], n);
    assert n != cs[0] && n != cs[1] && cs[0] != cs[1];
    forall i | 1 <= i < |cs|
      ensures cs[i] < |h| && cs[i] < |h'| && h'[cs[i]].rightSibling == h[cs[i]].rightSibling
    {
      assert cs[i] != cs[0] && cs[i] != n;
    }
    ChainRedirect(h, h', cs, n);
  }

  /** A chain whose first `k` members keep their links is still a chain up to its `k`-th member. */
  lemma {:induction false} ChainPrefixFrame<T>(h: Nodes<T>, h': Nodes<T>, start: Option<NodeId>, cs: seq<NodeId>,
                                               k: nat, tail: seq<NodeId>)
    requires IsChain(h, start, cs) && k < |cs|
    requires forall i | 0 <= i < k :: cs[i] < |h| && cs[i] < |h'| && h'[cs[i]].rightSibling == h[cs[i]].rightSibling
    requires IsChain(h', Some(cs[k]), tail)
    ensures IsChain(h', start, cs[..k] + tail)
    decreases k
  {
    if k == 0 {
      assert cs[..0] + tail == tail;
    } else {
      assert forall i | 0 <= i < k - 1 :: cs[1..][i] == cs[i + 1];
      ChainPrefixFrame(h, h', h[cs[0]].rightSibling, cs[1..], k - 1, tail);
      assert (cs[..k] + tail)[1..] == cs[1..][..k - 1] + tail;
    }
  }

  /**
   * `pushNodeAfter(n)` on the `k`-th member of a chain puts `n` right
   * after it: `[.., cs[k], n, cs[k+1], ..]`.
   */
  lemma InsertedAfterSplicesChain<T>(h: Nodes<T>, start: Option<NodeId>, cs: seq<NodeId>, k: nat, n: NodeId)
    requires IsChain(h, start, cs) && k < |cs| - 1
    requires n < |h| && n !in cs
    ensures cs[k] < |h| && cs[k + 1] < |h| && h[cs[k]].rightSibling == Some(cs[k + 1])
    ensures IsChain(InsertedAfter(h, cs[k], n), start, cs[..k + 1] + [n] + cs[k + 1..])
  {
    ChainSuffix(h, start, cs, k);
    ChainMembersAreNodes(h, start, cs);
    ChainDistinct(h, start, cs);
    var tail := cs[k..];
    assert tail[0] == cs[k] && tail[1] == cs[k + 1] && tail[1..] == cs[k + 1..];
    assert n !in tail;
    InsertedAfterHead(h, tail, n);
    var h' := InsertedAfter(h, cs[k], n);
    forall i | 0 <= i < k
      ensures cs[i] < |h'| && h'[cs[i]].rightSibling == h[cs[i]].rightSibling
    {
      assert cs[i] != cs[k] && cs[i] != cs[k + 1] && cs[i] != n;
    }
    ChainPrefixFrame(h, h', start, cs, k, [cs[k], n] + cs[k + 1..]);
    SpliceRegroup(cs, k, n);
  }

  /** The spliced chain, regrouped around its `k`-th member. */
  lemma SpliceRegroup(cs: seq<NodeId>, k: nat, n: NodeId)
    requires k < |cs|
    ensures cs[..k] + ([cs[k], n] + cs[k + 1..]) == cs[..k + 1] + [n] + cs[k + 1..]
  {
    assert cs[..k + 1] == cs[..k] + [cs[k]];
  }

  // ---------------------------------------------------------------------
  // The back-pointer invariant.

  /** In a well-linked store, a whole sibling chain shares one parent and points back. */
  lemma {:induction false} ChainSharesParent<T>(h: Nodes<T>, start: Option<NodeId>, cs: seq<NodeId>)
    requires WellLinked(h) && IsChain(h, start, cs) && cs != []
    ensures forall i | 0 <= i < |cs| :: cs[i] < |h| && h[cs[i]].parent == h[cs[0]].parent
    ensures forall i | 0 <= i < |cs| - 1 :: h[cs[i + 1]].leftSibling == Some(cs[i])
    decreases |cs|
  {
    ChainMembersAreNodes(h, start, cs);
    if |cs| > 1 {
      ChainSharesParent(h, h[cs[0]].rightSibling, cs[1..]);
      assert SiblingLinked(h, cs[0]);
    }
  }

  /** Every child of `p` has `p` as its parent. */
  lemma ChildrenKnowParent<T>(h: Nodes<T>, p: NodeId, cs: seq<NodeId>)
    requires WellLinked(h) && p < |h| && IsChain(h, h[p].leftChild, cs)
    ensures forall y | y in cs :: y < |h| && h[y].parent == Some(p)
  {
    if cs != [] {
      ChainSharesParent(h, h[p].leftChild, cs);
      assert FirstChildLinked(h, p);
    }
  }

  /** Appending a detached node at a chain tail keeps the store well linked. */
  lemma AppendedWellLinked<T>(h: Nodes<T>, t: NodeId, n: NodeId)
    requires WellLinked(h) && t < |h| && h[t].rightSibling.None? && Detached(h, n) && t != n
    ensures WellLinked(Appended(h, t, n))
  {
    var h' := Appended(h, t, n);
    forall i | 0 <= i < |h'|
      ensures FirstChildLinked(h', i) && SiblingLinked(h', i)
    {
      assert FirstChildLinked(h, i) && SiblingLinked(h, i);
    }
  }

  /** `pushChild` of a detached node keeps the store well linked and makes `x` its parent. */
  lemma ChildPushedWellLinked<T>(h: Nodes<T>, x: NodeId, n: NodeId, cs: seq<NodeId>)
    requires WellLinked(h) && x < |h| && Detached(h, n) && IsChain(h, h[x].leftChild, cs)
    ensures WellLinked(ChildPushed(h, x, n, cs))
    ensures ChildPushed(h, x, n, cs)[n].parent == Some(x)
  {
    ChainMembersAreNodes(h, h[x].leftChild, cs);
    var h1 := WithParent(h, n, Some(x));
    var h' := ChildPushed(h, x, n, cs);
    forall i | 0 <= i < |h1|
      ensures FirstChildLinked(h1, i) && SiblingLinked(h1, i)
    {
      assert FirstChildLinked(h, i) && SiblingLinked(h, i);
    }
    if cs == [] {
      forall i | 0 <= i < |h'|
        ensures FirstChildLinked(h', i) && SiblingLinked(h', i)
      {
        assert FirstChildLinked(h1, i) && SiblingLinked(h1, i);
      }
    } else {
      DetachedNotInOwnedChain(h, x, n, cs);
      AppendedWellLinked(h1, Last(cs), n);
      ChildrenKnowParent(h, x, cs);
      assert Last(cs) in cs;
    }
  }

  /** `pushNodeAfter` of a detached node keeps the store well linked. */
  lemma InsertedAfterWellLinked<T>(h: Nodes<T>, x: NodeId, n: NodeId, cs: seq<NodeId>)
    requires WellLinked(h) && x < |h| && Detached(h, n) && n != x
    requires IsChain(h, Some(x), cs) && h[x].rightSibling.Some?
    ensures h[x].rightSibling.value < |h| && WellLinked(InsertedAfter(h, x, n))
  {
    ChainSuffix(h, Some(x), cs, 0);
    ChainDistinct(h, Some(x), cs);
    ChainMembersAreNodes(h, Some(x), cs);
    var s := h[x].rightSibling.value;
    assert |cs| > 1 && cs[1] == s;
    var h' := InsertedAfter(h, x, n);
    assert SiblingLinked(h, x);
    forall i | 0 <= i < |h'|
      ensures FirstChildLinked(h', i) && SiblingLinked(h', i)
    {
      assert FirstChildLinked(h, i) && SiblingLinked(h, i);
    }
  }

  // ---------------------------------------------------------------------
  // Acyclicity: the attach operations keep a rank for the owning links
  // when the attached node is a fresh leaf.

  /** `rank` lifted by one everywhere except at `n`, which gets 0. */
  function LiftExcept(rank: seq<nat>, n: NodeId): (r: seq<nat>)
    ensures |r| == |rank|
    ensures forall i | 0 <= i < |rank| :: r[i] == if i == n then 0 else rank[i] + 1
  {
    seq(|rank|, i requires 0 <= i < |rank| => if i == n then 0 else rank[i] + 1)
  }

  lemma AppendedRanked<T>(h: Nodes<T>, rank: seq<nat>, t: NodeId, n: NodeId) returns (rank': seq<nat>)
    requires Ranked(h, rank) && t < |h| && n < |h| && t != n
    requires h[n].leftChild.None? && h[n].rightSibling.None?
    ensures Ranked(Appended(h, t, n), rank')
  {
    rank' := LiftExcept(rank, n);
    var h' := Appended(h, t, n);
    forall i | 0 <= i < |h'|
      ensures Below(h', rank', i, h'[i].leftChild) && Below(h', rank', i, h'[i].rightSibling)
    {
      assert Below(h, rank, i, h[i].leftChild) && Below(h, rank, i, h[i].rightSibling);
    }
  }

  /** `pushChild` of a fresh leaf keeps the owning links acyclic. */
  lemma ChildPushedRanked<T>(h: Nodes<T>, rank: seq<nat>, x: NodeId, n: NodeId, cs: seq<NodeId>) returns (rank': seq<nat>)
    requires Ranked(h, rank) && x < |h| && n < |h| && n != x && IsChain(h, h[x].leftChild, cs) && n !in cs
    requires h[n].leftChild.None? && h[n].rightSibling.None?
    ensures Ranked(ChildPushed(h, x, n, cs), rank')
  {
    ChainMembersAreNodes(h, h[x].leftChild, cs);
    var h1 := WithParent(h, n, Some(x));
    assert Ranked(h1, rank) by {
      forall i | 0 <= i < |h1|
        ensures Below(h1, rank, i, h1[i].leftChild) && Below(h1, rank, i, h1[i].rightSibling)
      {
        assert Below(h, rank, i, h[i].leftChild) && Below(h, rank, i, h[i].rightSibling);
      }
    }
    if cs == [] {
      rank' := LiftExcept(rank, n);
      var h' := ChildPushed(h, x, n, cs);
      forall i | 0 <= i < |h'|
        ensures Below(h', rank', i, h'[i].leftChild) && Below(h', rank', i, h'[i].rightSibling)
      {
        assert Below(h1, rank, i, h1[i].leftChild) && Below(h1, rank, i, h1[i].rightSibling);
      }
    } else {
      assert Last(cs) in cs;
      rank' := AppendedRanked(h1, rank, Last(cs), n);
    }
  }

  /** `rank` doubled, with `n` placed just above `s`. */
  function DoubleWith(rank: seq<nat>, n: NodeId, s: NodeId): (r: seq<nat>)
    requires s < |rank|
    ensures |r| == |rank|
    ensures forall i | 0 <= i < |rank| :: r[i] == if i == n then 2 * rank[s] + 1 else 2 * rank[i]
  {
    seq(|rank|, i requires 0 <= i < |rank| => if i == n then 2 * rank[s] + 1 else 2 * rank[i])
  }

  /** `pushNodeAfter` of an isolated node keeps the owning links acyclic. */
  lemma InsertedAfterRanked<T>(h: Nodes<T>, rank: seq<nat>, x: NodeId, n: NodeId) returns (rank': seq<nat>)
    requires Ranked(h, rank) && x < |h| && Isolated(h, n) && n != x && h[x].rightSibling.Some?
    ensures h[x].rightSibling.value < |h| && Ranked(InsertedAfter(h, x, n), rank')
  {
    assert Below(h, rank, x, h[x].rightSibling);
    var s := h[x].rightSibling.value;
    assert s != x;
    rank' := DoubleWith(rank, n, s);
    var h' := InsertedAfter(h, x, n);
    forall i | 0 <= i < |h'|
      ensures Below(h', rank', i, h'[i].leftChild) && Below(h', rank', i, h'[i].rightSibling)
    {
      assert Below(h, rank, i, h[i].leftChild) && Below(h, rank, i, h[i].rightSibling);
    }
  }
}
