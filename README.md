# Container blot

A model of the container blot of parchment's document tree
(`src/blot/abstract/container.ts`). A container blot owns an ordered list of
child blots. Leaves report their own length. A container's length is the sum
of its children's lengths. A linear index into the container is translated
to a child plus an offset inside that child. The container edits its list in
place: it builds the list from its host node, inserts, splits, unwraps,
moves children and heals itself when it becomes empty. It also reconciles
the list with its host node's child nodes after outside edits (`update`).

The model has these parts:

- The blot tree is a value: `Blots.Blot` is a leaf with a length or a nested
  container with its children.
- The container being operated on is the class `Container.ContainerBlot`.
  Its methods reassign its `children`. The effects on the parent's list are
  functions in `ParentList`.
- The child collection's `find`, `forEachAt` and `offset` are defined over
  cumulative lengths in `ChildList`.
- The registry is an oracle (`Registry.Oracle`) that answers `None` where
  creation throws.
- The cursor merge of `update` is the recursive function `Reconcile.Merge`.
  `Reconcile.Rebuilt` is an independent reference result. The merge is proved
  equal to it when the host nodes are distinct, the children own distinct
  host nodes, and the registry finds each child by its own host node.
- The general path of `split` is `Splitting.SplitOff`. A child's own split is
  a parameter of type `Splitting.Cutter`.

## Model

| member | source | states |
|---|---|---|
| Blots.Sum | src/blot/abstract/container.ts:88-92 | the fold of child lengths is 0 for no children and no child is longer than the total |
| Blots.SumAppend | src/blot/abstract/container.ts:88-92 | the length of two runs of children put together is the sum of their lengths |
| Container.ContainerBlot.Length | src/blot/abstract/container.ts:88-92 | `length()` is 0 with no children, and every child ends (its start plus its length) within it |
| Container.ContainerBlot.constructor | src/blot/abstract/container.ts:22-31 | the reverse walk that inserts at the head leaves the children equal to `Adopt` of the host child nodes, in host order |
| Registry.AdoptFollowsHost | src/blot/abstract/container.ts:22-31 | the built children own exactly the host nodes the registry resolves, in host order: failed nodes skipped, all others kept |
| Registry.AdoptableAll | src/blot/abstract/container.ts:22-31 | when every host child resolves, none is skipped |
| ChildList.FindSpec | src/blot/abstract/container.ts:75 | `find` answers the first child that holds the index, with the local offset that brings its start back to the index; none when no child holds it |
| ChildList.FindNone | src/blot/abstract/container.ts:75-81 | `find` finds nothing exactly when the index is at or past the length (non-inclusive), or past it or the list is empty (inclusive) |
| Container.ContainerBlot.InsertAt | src/blot/abstract/container.ts:74-82 | an index inside the length is delegated to the child `find` answers, with the list unchanged; otherwise the blot the registry creates (text holding `value` without `def`, the blot named `value` with `def`) is appended and nothing else changes, or nothing at all when creation fails |
| ChildList.ForEachAtIsIntersecting | src/blot/abstract/container.ts:37-39 | the children `forEachAt` visits for a non-empty range are exactly the reference list of children the range meets, each with its part of the range |
| ChildList.IntersectingWithin | src/blot/abstract/container.ts:37-39 | every visited part lies inside its child and inside the range, and the children come in list order |
| ChildList.IntersectingComplete | src/blot/abstract/container.ts:37-39 | every child whose span meets the range is visited |
| Container.ContainerBlot.DeleteAt | src/blot/abstract/container.ts:33-41 | deleting from 0 over the whole length removes the container from its parent and touches no child; any other range is handed to exactly the children it meets, each with its local offset and sub-length |
| ParentList.RemovedLength | src/blot/abstract/container.ts:34-35 | removing the container shortens its parent by the container's length |
| Container.ContainerBlot.FormatAt | src/blot/abstract/container.ts:68-72 | the `formatAt` calls go to exactly the children the range meets, each with its part of the range |
| ParentList.Next | src/blot/abstract/container.ts:134 | `this.next` is the following sibling, and none exactly for the last child |
| Container.ContainerBlot.Split | src/blot/abstract/container.ts:131-143 | given the parent, without force, index 0 answers the container and its length answers the next sibling, both changing nothing; otherwise the container keeps `SplitOff(...).0`, a clone holding `SplitOff(...).1` is placed right after it in the parent, and the clone is returned |
| Container.ContainerBlot.SplitRun | src/blot/abstract/container.ts:138-141 | the loop cuts the visited children in place, in order, leaving what stays where the child was and collecting what moves |
| Splitting.SplitPartition | src/blot/abstract/container.ts:131-143 | strictly inside, without force: children before the one holding the index stay, the ones after it move in order, that child moves whole at its start and is cut in two otherwise; the halves are `index` and `length - index` long |
| Container.SplitKeepsLength | src/blot/abstract/container.ts:136-141 | such a split leaves the container `index` long and its parent as long as before |
| Container.ContainerBlot.MoveChildren | src/blot/abstract/container.ts:94-98 | every child is inserted into the target before the reference position, in the original order, and this container keeps none |
| Container.ContainerBlot.Unwrap | src/blot/abstract/container.ts:145-148 | the children take the container's place in its parent, in order, and the container is gone |
| ParentList.PromotedLength | src/blot/abstract/container.ts:145-148 | unwrapping keeps the parent's length |
| Container.ContainerBlot.Replace | src/blot/abstract/container.ts:126-129 | the target's children are appended to this container, the target is left empty, and, when the target has a parent, this container takes its place there; a target without a parent only gives up its children |
| Container.ContainerBlot.Optimize | src/blot/abstract/container.ts:100-112 | a container with children is left as it is; an empty one with a default child gets exactly that child (nothing when creation fails), and an empty one without a default is removed from its parent |
| Traversal.Path | src/blot/abstract/container.ts:114-124 | the path starts at the container it was asked of |
| Traversal.PathTotal | src/blot/abstract/container.ts:114-124 | the numbers along a path add up to the index |
| Traversal.PathShape | src/blot/abstract/container.ts:114-124 | the path is exactly `[[this, index]]` when no child holds the index; otherwise each entry's blot is the child `find` answers for what is left of the index at the entry before, that entry's number is where the child starts, and the path ends at a leaf with its offset inside the leaf, or at a container none of whose children holds the rest |
| Traversal.PathFollows | src/blot/abstract/container.ts:114-124 | each entry of the path leads to the child `find` answers for the index left at that entry, and its number is where that child starts |
| Traversal.PathUnique | src/blot/abstract/container.ts:114-124 | any list of entries that starts at the container, adds up to the index, follows `find` at every entry and ends as above is the path |
| Traversal.FindNodeEndsPath | src/blot/abstract/container.ts:56-59 | `findNode` succeeds exactly when the path ends at a leaf and then answers that leaf's host node and offset |
| Traversal.FindOffset | src/blot/abstract/container.ts:61-66 | 0 for the container's own host node; for another node, -1 exactly when the registry has no blot for it or that blot is not a child, and otherwise the offset at which the first child equal to that blot starts, within the length |
| Traversal.FindOffsetRoundTrip | src/blot/abstract/container.ts:61-66 | looking the offset of a non-empty child up with `find` gives back that child at local offset 0 |
| Reconcile.Triggered | src/blot/abstract/container.ts:151-153 | true exactly when some mutation is a child-list change of this host node |
| Container.ContainerBlot.Update | src/blot/abstract/container.ts:150-179 | nothing changes unless triggered; when triggered it succeeds exactly when the merge does and then the children are the merge result |
| Container.ContainerBlot.Settle | src/blot/abstract/container.ts:156-172 | one turn of the walk over the children visits the first unvisited child, leaves fewer unvisited children, and advances the merge: the blots placed so far followed by the merge of what is left stay the same; a re-adopted later child leaves the unvisited children |
| Reconcile.WithoutMembers | src/blot/abstract/container.ts:160-163 | taking the re-adopted blot out of its old place keeps exactly the children that do not own that host node |
| Reconcile.TrailingFollowsHost | src/blot/abstract/container.ts:173-177 | the trailing loop appends blots for the remaining host nodes in host order |
| Reconcile.MergeFollowsHost | src/blot/abstract/container.ts:155-177 | a successful merge yields children that own exactly the host nodes from the cursor on, in host order |
| Reconcile.MergeIdempotent | src/blot/abstract/container.ts:155-177 | children that already mirror the host nodes survive the merge unchanged |
| Reconcile.MergeTwice | src/blot/abstract/container.ts:150-179 | a second update against the same host nodes changes nothing |
| Reconcile.MergeIsRebuilt | src/blot/abstract/container.ts:155-177 | from any point of the walk where host nodes and children's nodes are distinct, every attached unvisited child's node is still ahead of the cursor and the registry finds each child, the merge equals the reference result |
| Reconcile.UpdateIsRebuilt | src/blot/abstract/container.ts:150-179 | with distinct host nodes, children that own distinct nodes and a registry that finds each child, the update's merge equals the reference result, whether nodes were inserted, removed or reordered: one blot per host node in host order, the existing child for a node that has one and a new blot for a new node |

## Left out

- `descendants` (lines 43-54) is not modelled. It depends on run-time `instanceof` tests of blot classes, and its recursion passes the outer `index` and `length` on instead of child-relative ones.
- The commented-out `wrap` (lines 181-187) is not live code.
- `appendChild` and `insertBefore` (lines 18-20, 84-86) are written inline as an append or an insertion at a position.
- The host tree is not modelled as objects. A container's host child nodes are a sequence of node ids, and a mutation is a target and a kind. The observer that delivers mutations is not modelled.
- The registry's internals are not modelled. It is an oracle; `None` stands for `Registry.create` throwing. Creation from a name and a value (`Registry.create(input, value)`) is the oracle's `make`, which takes the arguments as a list of strings; so the `def` of `insertAt` is modelled as a string, and a default child as the list of its creation arguments.
- The collection's `find`, `forEachAt` and `offset` are defined here over cumulative lengths. A child holds an index when the index is below the child's length, or, when inclusive, equal to it. Any further tie-break of the collection's own inclusive lookup is not part of this model. Indices are natural numbers, so negative indices are not modelled.
- Leaf behaviour is not modelled:
  - The children's own `insertAt`, `deleteAt` and `formatAt` appear as the calls made (child position, local offset, sub-length).
  - A child's `split` is the `cut` parameter; `Splitting.Honest` states what the lemmas require of it.
  - A leaf's `findNode` answers its own host node and the offset.
- Blots are values, so blot identity and aliasing are not modelled:
  - The parent's entry for the container is recognised by its host node, and it is not refreshed when the container's children change.
  - A blot that is placed somewhere is not detached from a previous parent other than this container (in `build`, and `blot.parent.children.remove` in `update`). In `update` a re-adopted blot that was a later child of this container is taken out of its old place; the child that owns the host node stands for the blot the registry finds.
  - The collection's `forEach` is taken to visit the children as they stand at each turn, so a child that `update` takes out of its old place is not visited again. The collection's iterator is not part of this model. Take children A, B and C that own host nodes 1, 2 and 3, with the host order now [2, 1, 3]. The model merges them into [B, A, C]. An iterator that reads a child's successor before running the callback would visit B a second time after B is moved in front of A. The reordered case of `Reconcile.UpdateIsRebuilt` and `Reconcile.MergeIsRebuilt` therefore holds only under this assumption.
  - `findOffset` compares blots by value and takes the first equal child.
- `clone()` is not modelled; the clone's new host node is the parameter `cloneDom`. The clone is placed in the parent after its children are collected rather than before, which gives the same final state.
- Inherited behaviour is not modelled: `super.optimize()` and the `optimize()` of a newly created default child. `remove()` is modelled only as leaving the parent's list.
- Container.ContainerBlot.Split: every path requires the parent, the two fast paths included. In the source those work without a parent: `split(0)` answers the container, and at the full length a root's `next` is null. The general path dereferences `this.parent`. The root case is not modelled.
- Container.ContainerBlot.Unwrap: requires the parent, for the same reason.
- Container.ContainerBlot.Update: when the source throws part way, the contract does not state which children were already inserted or removed.
- Container.ContainerBlot.InsertAt: when creation fails, the exception becomes the `Refused` answer.
- Container.ContainerBlot.Optimize: when creation fails, the exception becomes the `Unfilled` answer.
