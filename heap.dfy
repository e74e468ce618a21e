/**
 * The mutating members of `nonBinaryTree<T>`: the constructor, the guarded
 * setters `child`, `rightSibling` and `leftSibling`, and the attach
 * operations. Each method performs the field writes of the source in the
 * source's order on the arena `nodes`, and states its new state with the
 * matching function of module Store.
 */
module Mutation {
  import opened Wrappers
  import opened Store

  class Heap<T(==)> {
    /** Every node allocated so far; a `NodeId` is an index into it. */
    var nodes: Nodes<T>

    ghost predicate Valid()
      reads this
    {
      Closed(nodes)
    }

    /** An arena with no nodes yet. */
    constructor ()
      ensures Valid() && nodes == []
    {
      nodes := [];
    }

    /**
     * `new nonBinaryTree(data, parent, leftChild, rightSibling, leftSibling, code)`.
     * `generated` is the value `uuidv4()` would return.
     */
    method Construct(data: Option<T>, parent: Option<NodeId>, leftChild: Option<NodeId>,
                     rightSibling: Option<NodeId>, leftSibling: Option<NodeId>,
                     code: Option<string>, generated: string) returns (id: NodeId)
      requires Valid()
      requires Ref(nodes, parent) && Ref(nodes, leftChild) && Ref(nodes, rightSibling) && Ref(nodes, leftSibling)
      modifies this
      ensures Valid()
      ensures id == |old(nodes)|
      ensures nodes == old(nodes) + [Node(data, parent, leftChild, rightSibling, leftSibling,
                                          if code.Some? then code.value else generated)]
      ensures nodes[id].code == (if code.Some? then code.value else generated)
      ensures parent.None? && leftChild.None? && rightSibling.None? && leftSibling.None? ==>
        nodes[id].parent.None? && Isolated(nodes, id)
    {
      id := |nodes|;
      var key := if code.Some? then code.value else generated;
      nodes := nodes + [Node(data, parent, leftChild, rightSibling, leftSibling, key)];
    }

    /** The `child` setter. */
    method SetChild(self: NodeId, newChild: Option<NodeId>) returns (r: Outcome)
      requires Valid() && self < |nodes| && Ref(nodes, newChild)
      modifies this
      ensures Valid()
      ensures newChild.None? ==> r == Throw(ChildIsNull) && nodes == old(nodes)
      ensures newChild.Some? ==> r == Done && nodes == ChildSet(old(nodes), self, newChild.value)
    {
      if newChild.Some? {
        var c := newChild.value;
        UpdateClosed(nodes, c, nodes[c].(parent := Some(self)));
        nodes := WithParent(nodes, c, Some(self));
        UpdateClosed(nodes, self, nodes[self].(leftChild := newChild));
        nodes := WithLeftChild(nodes, self, newChild);
        r := Done;
      } else {
        r := Throw(ChildIsNull);
      }
    }

    /** The `leftSibling` setter: note that it writes the ARGUMENT's parent. */
    method SetLeftSibling(self: NodeId, leftSibling: Option<NodeId>) returns (r: Outcome)
      requires Valid() && self < |nodes| && Ref(nodes, leftSibling)
      modifies this
      ensures Valid()
      ensures leftSibling.None? ==> r == Throw(SiblingIsNull) && nodes == old(nodes)
      ensures leftSibling.Some? ==> r == Done && nodes == LeftSiblingSet(old(nodes), self, leftSibling.value)
    {
      if leftSibling.Some? {
        var y := leftSibling.value;
        UpdateClosed(nodes, y, nodes[y].(parent := nodes[self].parent));
        nodes := WithParent(nodes, y, nodes[self].parent);
        UpdateClosed(nodes, self, nodes[self].(leftSibling := leftSibling));
        nodes := WithLeftSibling(nodes, self, leftSibling);
        r := Done;
      } else {
        r := Throw(SiblingIsNull);
      }
    }

    /** The `rightSibling` setter. */
    method SetRightSibling(self: NodeId, rightSibling: Option<NodeId>) returns (r: Outcome)
      requires Valid() && self < |nodes| && Ref(nodes, rightSibling)
      modifies this
      ensures Valid()
      ensures rightSibling.None? ==> r == Throw(SiblingIsNull) && nodes == old(nodes)
      ensures rightSibling.Some? ==> r == Done && nodes == RightSiblingSet(old(nodes), self, rightSibling.value)
    {
      if rightSibling.Some? {
        var y := rightSibling.value;
        r := SetLeftSibling(y, Some(self));
        UpdateClosed(nodes, y, nodes[y].(parent := nodes[self].parent));
        nodes := WithParent(nodes, y, nodes[self].parent);
        UpdateClosed(nodes, self, nodes[self].(rightSibling := rightSibling));
        nodes := WithRightSibling(nodes, self, rightSibling);
      } else {
        r := Throw(SiblingIsNull);
      }
    }

    /**
     * `pushRightSibling`: delegates along the sibling chain `chain` of
     * `self` and links `newNeighbour` after its last node.
     */
    method PushRightSibling(self: NodeId, newNeighbour: Option<NodeId>, ghost chain: seq<NodeId>) returns (r: Outcome)
      requires Valid() && self < |nodes| && Ref(nodes, newNeighbour)
      requires newNeighbour.Some? ==> IsChain(nodes, Some(self), chain)
      modifies this
      decreases |chain|
      ensures Valid()
      ensures newNeighbour.None? ==> r == Throw(SiblingIsNull) && nodes == old(nodes)
      ensures newNeighbour.Some? ==>
        r == Done && Last(chain) < |old(nodes)| && nodes == Appended(old(nodes), Last(chain), newNeighbour.value)
    {
      if newNeighbour.Some? {
        ChainMembersAreNodes(nodes, Some(self), chain);
        if nodes[self].rightSibling.Some? {
          r := PushRightSibling(nodes[self].rightSibling.value, newNeighbour, chain[1..]);
        } else {
          var n := newNeighbour.value;
          UpdateClosed(nodes, n, nodes[n].(parent := nodes[self].parent));
          nodes := WithParent(nodes, n, nodes[self].parent);
          r := SetLeftSibling(n, Some(self));
          UpdateClosed(nodes, self, nodes[self].(rightSibling := newNeighbour));
          nodes := WithRightSibling(nodes, self, newNeighbour);
        }
      } else {
        r := Throw(SiblingIsNull);
      }
    }

    /**
     * `pushChild`: `newChild` gets `self` as parent and becomes the first
     * child, or is pushed as right sibling onto the first child, whose
     * sibling chain is `children`.
     */
    method PushChild(self: NodeId, newChild: Option<NodeId>, ghost children: seq<NodeId>) returns (r: Outcome)
      requires Valid() && self < |nodes| && Ref(nodes, newChild)
      requires newChild.Some? ==> IsChain(nodes, nodes[self].leftChild, children)
      modifies this
      ensures Valid()
      ensures newChild.None? ==> r == Throw(ChildIsNull) && nodes == old(nodes)
      ensures newChild.Some? ==> r == Done && nodes == ChildPushed(old(nodes), self, newChild.value, children)
    {
      if newChild.Some? {
        var n := newChild.value;
        UpdateClosed(nodes, n, nodes[n].(parent := Some(self)));
        ghost var before := nodes;
        nodes := WithParent(nodes, n, Some(self));
        if nodes[self].leftChild.Some? {
          ChainMembersAreNodes(before, before[self].leftChild, children);
          ChainFrame(before, nodes, nodes[self].leftChild, children);
          r := PushRightSibling(nodes[self].leftChild.value, newChild, children);
        } else {
          UpdateClosed(nodes, self, nodes[self].(leftChild := newChild));
          nodes := WithLeftChild(nodes, self, newChild);
          r := Done;
        }
      } else {
        r := Throw(ChildIsNull);
      }
    }

    /**
     * `pushNodeAfter`: splices `newNeighbour` in after `self` through the
     * `rightSibling` and `leftSibling` setters. An undefined argument is
     * ignored; on the chain tail the `rightSibling` setter throws first.
     */
    method PushNodeAfter(self: NodeId, newNeighbour: Option<NodeId>) returns (r: Outcome)
      requires Valid() && self < |nodes| && Ref(nodes, newNeighbour)
      modifies this
      ensures Valid()
      ensures newNeighbour.None? ==> r == Done && nodes == old(nodes)
      ensures newNeighbour.Some? && old(nodes)[self].rightSibling.None? ==>
        r == Throw(SiblingIsNull) && nodes == old(nodes)
      ensures newNeighbour.Some? && old(nodes)[self].rightSibling.Some? ==>
        r == Done && nodes == InsertedAfter(old(nodes), self, newNeighbour.value)
    {
      if newNeighbour.Some? {
        var n := newNeighbour.value;
        r := SetRightSibling(n, nodes[self].rightSibling);
        if r.Done? {
          UpdateClosed(nodes, n, nodes[n].(parent := nodes[self].parent));
          nodes := WithParent(nodes, n, nodes[self].parent);
          r := SetLeftSibling(n, Some(self));
          UpdateClosed(nodes, self, nodes[self].(rightSibling := newNeighbour));
          nodes := WithRightSibling(nodes, self, newNeighbour);
        }
      } else {
        r := Done;
      }
    }

    /** `pushNodeBefore`: the source inspects `leftSibling` and changes nothing. */
    method PushNodeBefore(self: NodeId, newNeighbour: Option<NodeId>)
      requires Valid() && self < |nodes|
      ensures nodes == old(nodes)
    {
    }

    /** `removeNode`: an empty body in the source. */
    method RemoveNode(self: NodeId)
      requires Valid() && self < |nodes|
      ensures nodes == old(nodes)
    {
    }
  }
}
