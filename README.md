# nonBinaryTree in Dafny

A model of `nonBinaryTree<T>`, an N-ary tree written as a doubly linked
first-child / right-sibling structure. Each node has a `data` payload,
a string key `code`, and four links: `parent`, `leftChild` (the first
child), `rightSibling` and `leftSibling`. The model covers:

- the constructor;
- the checked setters `child`, `rightSibling` and `leftSibling`;
- the attach operations `pushChild`, `pushRightSibling` and `pushNodeAfter`;
- the keyed search `find`;
- the post-order fold `traverse`;
- the exported callback `parseToJSON`.

Layout:

- `store.dfy` (modules `Wrappers`, `Store`). Nodes live in one store, a
  `seq<Node<T>>`, and a reference is an index (`NodeId`); `None` plays
  `undefined`. Each setter and attach step is a pure function listing the
  field writes the source makes, in the source's order.
  - `IsChain` names the finite sibling chain from a node.
  - `Ranked` witnesses that the owning links (`leftChild`, `rightSibling`)
    have no cycle.
  - `WellLinked` is the back-pointer invariant. A first child knows its
    parent and has no left sibling. A right sibling points back and shares
    the parent.
- `heap.dfy` (module `Mutation`). The class `Heap` holds the store in a
  mutable field `nodes`. Its methods perform the writes one at a time, as
  the TypeScript methods do, and each `ensures` gives the new `nodes` as the
  matching `Store` function of the old one. A thrown `Error` becomes an
  `Outcome.Throw` carrying the source's message, with the store unchanged.
- `links.dfy` (module `Links`). What the attach operations do to the
  structure:
  - the new child order, and the splice;
  - preserving the back-pointer invariant;
  - preserving acyclicity, with an explicit new rank.
- `search.dfy` (module `Search`). `find`, proved equal to "the first node
  with the key in pre-order" (`PreOrder`, `FirstWithCode`).
- `fold.dfy` (module `Fold`). `traverse` and `parseToJSON`.
  - `Rep` gives the N-ary tree that the links encode, used as the reference.
  - With `parseToJSON`, `traverse` builds exactly that tree.
  - It calls back once per visit of the pre-order walk `find` follows, at
    the depth of that visit, in post-order (child subtree, later siblings,
    then the node). A node reachable along two links is called back once per
    path, as in the source.
  - `onlyThisRoot` cuts off exactly the later siblings.
  - `pushChild` and `pushNodeAfter` show up in the folded children in the
    expected order.

Behaviour of the code worth knowing, which the model keeps:

- **`pushNodeAfter` at the tail of a chain.** It first calls the
  `rightSibling` setter with the node's `rightSibling`. At the tail that
  value is `undefined`, so the setter throws "sibling cannon be a null" and
  nothing is written. `pushNodeAfter` therefore cannot append after the
  last node of a chain.
- **`pushNodeAfter(undefined)` does nothing.** The guard at
  nonBinaryTree.ts:140 skips the body and no error is raised, while
  `pushChild`, `pushRightSibling` and the three setters all throw on
  `undefined`.
- **The `rightSibling` setter and the parent.** `x.rightSibling = y` first
  runs `y.leftSibling = x`, and the `leftSibling` setter writes its
  argument's parent. So `x` takes `y`'s parent. The next line copies that
  same value back into `y`. The net effect is that `x` adopts `y`'s parent,
  not the other way round (`Store.RightSiblingSet` states this).
  `pushNodeAfter` relies on this order: it overwrites the new node's parent
  straight afterwards.
- **`pushNodeBefore` and `removeNode`.** Both are empty in the code, so
  they change nothing.
- **The constructor's links.** The constructor takes optional initial
  links as well as data and key. With all links left out, the node is
  isolated.

## Model

| member | source | states |
|---|---|---|
| Mutation.Heap.Construct | nonBinaryTree.ts:46-60 | appends one node holding exactly the given data and links; its key is the given code, or the generated id when none is given; with default links the node has no parent, no siblings, no children, and no other node refers to it |
| Mutation.Heap.SetChild | nonBinaryTree.ts:73-80 | an undefined argument throws "child cannon be a null" and leaves the store unchanged; otherwise the store becomes `ChildSet` of the old one |
| Mutation.Heap.SetLeftSibling | nonBinaryTree.ts:121-128 | an undefined argument throws "sibling cannon be a null" with the store unchanged; otherwise the store becomes `LeftSiblingSet` of the old one |
| Mutation.Heap.SetRightSibling | nonBinaryTree.ts:96-104 | an undefined argument throws "sibling cannon be a null" with the store unchanged; otherwise the store becomes `RightSiblingSet` of the old one |
| Mutation.Heap.PushRightSibling | nonBinaryTree.ts:108-120 | an undefined argument throws; otherwise the delegation reaches the last node of the sibling chain and the store becomes `Appended` at that tail |
| Mutation.Heap.PushChild | nonBinaryTree.ts:84-95 | an undefined argument throws "child cannon be a null"; otherwise the store becomes `ChildPushed`: the node becomes the first child, or is appended after the last child |
| Mutation.Heap.PushNodeAfter | nonBinaryTree.ts:139-146 | an undefined argument is ignored; on a node without right sibling it throws "sibling cannon be a null" and writes nothing; otherwise the store becomes `InsertedAfter` |
| Mutation.Heap.PushNodeBefore | nonBinaryTree.ts:135-138 | the store is unchanged |
| Mutation.Heap.RemoveNode | nonBinaryTree.ts:158 | the store is unchanged |
| Store.ChildSet | nonBinaryTree.ts:73-77 | the child's parent is this node and this node's first child is the argument; nothing else changes, also when a node is made its own child |
| Store.LeftSiblingSet | nonBinaryTree.ts:121-124 | this node's left sibling is the argument, and the argument takes this node's parent; nothing else changes, also when a node is made its own left sibling |
| Store.RightSiblingSet | nonBinaryTree.ts:96-100 | this node's right sibling is `y` and `y` points back to it; this node takes `y`'s parent and `y` keeps its own; when `y` is this node itself, it ends linked to itself both ways with its parent kept; every other field and node is untouched |
| Store.Appended | nonBinaryTree.ts:113-115 | tail `t` points forward to `n` and `n` back to `t`; `n` gets `t`'s parent; `t`'s parent is unchanged; no other node changes |
| Store.ChildPushed | nonBinaryTree.ts:84-91 | with no children, `n` becomes the first child with parent `x`; otherwise `n` is linked after the last child with that child's parent, and `x` is left exactly as it was; in each case the touched nodes keep every field the source does not write, only `x`, `n` and the last child change, and only `x`'s first child can change |
| Store.InsertedAfter | nonBinaryTree.ts:139-145 | for distinct `x`, `n` and `s` (the old right sibling of `x`): `x -> n -> s` forward, `s -> n -> x` backward; `n` gets `x`'s parent; `x` and `s` keep their parents; only these three nodes change |
| Links.AppendedExtendsChain | nonBinaryTree.ts:108-116 | appending a node that is not in the chain and has no right sibling, at the chain's tail, makes the chain the old chain followed by that node |
| Links.ChildPushedAppendsChild | nonBinaryTree.ts:84-91 | after `pushChild(n)` of a node `n` that is not a child of `x` and has no right sibling, the children of `x` are the old children in their old order, followed by `n` |
| Links.ChildrenPushed | nonBinaryTree.ts:84-91 | `pushChild` of distinct nodes `ns` that have no right sibling and are neither `x` nor already children of `x`, one after another, leaves the children of `x` as the old children followed by `ns`, in call order |
| Links.InsertedAfterSplicesChain | nonBinaryTree.ts:139-145 | `pushNodeAfter(n)` on the `k`-th member of a chain gives the chain `cs[..k+1] + [n] + cs[k+1..]` |
| Links.ChainDistinct | nonBinaryTree.ts:108-116 | the nodes of a finite sibling chain are pairwise distinct |
| Links.ChainSharesParent | nonBinaryTree.ts:113-115 | in a well-linked store, every member of a sibling chain has the first member's parent and points back to its predecessor |
| Links.ChildrenKnowParent | nonBinaryTree.ts:84-91 | in a well-linked store, every node in the child chain of `p` has parent `p` |
| Links.AppendedWellLinked | nonBinaryTree.ts:113-115 | appending a detached node at a chain tail keeps the store well linked |
| Links.ChildPushedWellLinked | nonBinaryTree.ts:84-91 | `pushChild` of a detached node keeps the store well linked and gives the node parent `x` |
| Links.InsertedAfterWellLinked | nonBinaryTree.ts:139-145 | `pushNodeAfter` of a detached node on a node that has a right sibling keeps the store well linked |
| Links.AppendedRanked | nonBinaryTree.ts:113-115 | appending a leaf keeps the owning links acyclic, with an explicit new rank |
| Links.ChildPushedRanked | nonBinaryTree.ts:84-91 | `pushChild` of a leaf keeps the owning links acyclic |
| Links.InsertedAfterRanked | nonBinaryTree.ts:139-145 | `pushNodeAfter` of an isolated node keeps the owning links acyclic |
| Search.Find | nonBinaryTree.ts:147-157 | a result is a node whose key equals the searched code; a node whose own key matches returns itself |
| Search.FindIsFirstInPreOrder | nonBinaryTree.ts:147-157 | `find` returns the first node, in pre-order (node, child subtree, then later siblings), whose key matches, and nothing when there is none |
| Search.FindNoneIffAbsent | nonBinaryTree.ts:151-156 | `find` returns nothing if and only if no node reachable through child and sibling links has the key |
| Search.FindUniqueKey | nonBinaryTree.ts:147-157 | when keys are unique among the reachable nodes, `find` of a node's key returns exactly that node |
| Fold.Traverse | nonBinaryTree.ts:168-193 | no contract of its own (the callback's result type is arbitrary); its behaviour is stated by Fold.TraverseToJson, Fold.TraverseListsPreOrder, Fold.TraverseCallOrder, Fold.TraverseVisitsPreOrder, Fold.TraverseVisitsSubtree, Fold.TraverseDepths and Fold.OnlyThisRootIgnoresSiblings |
| Fold.ParseToJSON | nonBinaryTree.ts:199-217 | the result is this node's entry (given data and key, children = folded first child or `[]`) followed by exactly the folded neighbours (or nothing) |
| Fold.TraverseChainToJson | nonBinaryTree.ts:180-192 | folding a node and its later siblings with `parseToJSON` gives the tree of each, in chain order |
| Fold.TraverseToJson | nonBinaryTree.ts:176-192 | with the default `onlyThisRoot`, `traverse(parseToJSON)` gives a one-element list holding exactly the node's tree |
| Fold.FoldListsChildren | nonBinaryTree.ts:180-192 | `traverse(parseToJSON)` gives one entry with the node's key and data whose children are the trees of its child chain, in order |
| Fold.TraverseListsPreOrder | nonBinaryTree.ts:180-192 | without `onlyThisRoot`, a callback listing `[key] + firstChild + neighborChild` yields exactly the keys of the nodes `find` visits, in `find`'s pre-order |
| Fold.TraverseCallOrder | nonBinaryTree.ts:180-192 | without `onlyThisRoot`, a callback logging its calls yields one key per visit (a node reachable along two links appears once per path) in the order the calls happen: the child subtree, then the later siblings, then the node (post-order) |
| Fold.TraverseCallOrderOnlyThisRoot | nonBinaryTree.ts:176-192 | with `onlyThisRoot`, the logged calls are those of the child subtree in post-order followed by the node's own call, and none for its siblings |
| Fold.TraverseVisitsPreOrder | nonBinaryTree.ts:180-192 | without `onlyThisRoot`, the callback runs once per visit of the pre-order walk `find` follows (once per path to a shared node) |
| Fold.TraverseVisitsSubtree | nonBinaryTree.ts:176-192 | with `onlyThisRoot`, the callback runs once for the node and once per visit of the pre-order walk of its child subtree |
| Fold.TraverseChainDepths | nonBinaryTree.ts:181-190 | for a chain, the depths passed to the callback are the levels of each member's tree, siblings at the same depth |
| Fold.TraverseDepths | nonBinaryTree.ts:176-192 | the depths passed to the callback are the node's tree levels: the root at the start depth, each child one deeper than its parent |
| Fold.TraverseFrame | nonBinaryTree.ts:168-193 | the fold from a node reads only nodes of no higher rank |
| Fold.OnlyThisRootIgnoresSiblings | nonBinaryTree.ts:186-191 | for any callback, folding with `onlyThisRoot` equals folding, without it, the store in which the node has no right sibling |
| Fold.PushChildFoldsInOrder | nonBinaryTree.ts:84-91 | after `pushChild(n)` of a fresh leaf, `traverse(parseToJSON)` lists the old children's keys in order, then `n` as a childless entry |
| Fold.PushNodeAfterFoldsInOrder | nonBinaryTree.ts:139-145 | after `pushNodeAfter(n)` on the `k`-th child, `traverse(parseToJSON)` of the parent lists children `0..k`, then `n`, then the rest, and child `k+1` points back to `n` |

## Left out

- The `uuid` package (nonBinaryTree.ts:1-2, 59) is a foreign call. The id it would return is the `generated` parameter of `Heap.Construct`.
- `parseFromJSON` (nonBinaryTree.ts:194-196) returns its receiver unchanged and reads nothing, so there is nothing to model.
- The plain accessors are not modelled as members: the `data`, `parent` and `code` setters and getters, the link getters, and `info`. Each of them reads or writes one `Node` field.
- The `code` setter accepts `undefined`. The model's key is always a string, because the constructor never stores `undefined`.
- The truthiness test of `||` in `find` (nonBinaryTree.ts:156) is "first defined result": a node object is always truthy.
- Object identity becomes an index into one store. The model keeps the source's aliasing and its write order, but not garbage collection.
- Search.Find: proved only for a store with no cycle of `leftChild`/`rightSibling` links anywhere, witnessed by a ghost `rank` over the whole store. So a cycle the search never reaches also rules the store out, although the source's `find` returns there. On a cycle it does reach, the source still returns when every path around the cycle meets a node with the key (lines 148-149 return before recursing), and otherwise recurses until the JavaScript call stack overflows and a `RangeError` is thrown. The model covers neither case.
- Fold.Traverse: proved only for a store with no cycle of `leftChild`/`rightSibling` links anywhere, for the same reason as `find`, including cycles the fold never reaches. On a cycle it does reach, the source ends in a `RangeError` from stack overflow, which the model does not represent.
- Mutation.Heap.PushRightSibling: for a defined argument, requires a finite sibling chain from the node, given as a ghost argument (an undefined argument needs no chain and throws the source's null error, lines 109 and 118). On a cyclic chain, the source's delegation overflows the call stack and throws a `RangeError`; the model does not represent that case.
- Mutation.Heap.PushChild: for a defined argument, requires a finite child chain, given as a ghost argument (an undefined argument needs no chain and throws the source's null error, lines 85 and 93). On a cyclic chain, the source throws a `RangeError` from stack overflow inside `pushRightSibling`, after line 86 has already written `newChild.parent`; the model does not represent that partial write or the error.
- Mutation.Heap.Construct: requires that the initial links refer to nodes already in the store, since a reference can only name an existing object.
- Fold.PushChildFoldsInOrder: stated only for a fresh leaf (isolated, no children). The writes of lines 86-88 are the same for a detached node with a subtree, but the new acyclicity rank is built only for a leaf: a subtree could contain `x`, and then attaching it closes a cycle.
- Fold.PushNodeAfterFoldsInOrder: stated only for a fresh leaf (isolated, no children). The writes of lines 141-144 are the same for a detached node with a subtree, but the new acyclicity rank is built only for a leaf: a subtree could contain the node it is attached after, and then the splice closes a cycle.
- Links.ChildPushedWellLinked: stated only for a detached node. The source does not unlink a node that is still attached elsewhere.
- Links.AppendedWellLinked: stated only for a detached node, for the same reason.
- Links.InsertedAfterWellLinked: stated only for a detached node, for the same reason.
- Fold.Traverse: `depth` is a JavaScript `number`; the model uses an unbounded integer.
- Fold.Callback: the callback of `traverse` is a pure, total Dafny function. Any effect of a JavaScript callback (writing to the tree or to outside state, I/O, throwing) is not modelled. The order in which the source makes the calls is kept only as data: Fold.TraverseCallOrder shows, with a callback that logs its calls, that they happen in post-order.
- Fold.Callback: the child and sibling results reach the callback as `Option<Z>`. In the source, `lChild` and `rSibling` stay `undefined` when the recursive fold itself returns `undefined`, so a callback cannot tell that from a missing link (nonBinaryTree.ts:178-192); the model keeps the two apart. No proved property depends on this, because every callback used here returns a defined value.
