# Boost.Intrusive: trees and lists

A Dafny model of the algorithms behind the intrusive associative containers and the intrusive list that the
repository vendors under `beast/boost/intrusive`: the red-black tree over a threaded binary search tree with a header
node (`rbtree_algorithms.hpp`, `bstree_algorithms.hpp`, `bstree.hpp`) and the circular doubly linked list with its
merge sort (`circular_list_algorithms.hpp`, `list.hpp`). `dafny verify dfyconfig.toml` checks all of it.

## How the code is modelled

Nodes are objects (`NodeTraits.Node`, `ListNodes.ListNode`) whose links the methods overwrite in place, in the order
in which the C++ code overwrites them. Every write goes through one object of class `Traits` (`ListTraits`), as in the
source every write goes through the node traits; its ghost map `cells` (`links`) is the value of all links and colours,
tied to the real fields by `Valid()`. A second ghost field, `turns`, counts the rotations. So each method is specified
by what it makes of that map, and the facts behind it are lemmas about maps and trees.

* `Trees`, `TreeGraph`: a map represents a tree. `Linked` says that the links below a node represent a tree with all
  parent links right; a `Ctx` is the path to a position, so that `Zip(m, h, c, t)` says that the map holds the whole
  tree below the header `h` with the attention on the subtree `t`; `IsTree` adds that the header knows the two ends.
  `InOrder` is the meaning of a tree: the sequence of its nodes.
* `Powers`, `RedBlack`, `RbTree`: `IsRb` is a red-black tree below its red header: black root, no red node with a red
  child, the same number of black nodes on every path.
* `Rotations`, `RbInsertion`, `RbErasure`, `BstLinks`, `BstErase`, `Transfer`, `SelfMerge`: rotations, linking in,
  unlinking by relinking the successor, the two repair loops, and both of them at once.
* `TreeBase`, `Order`, `Search`, `InsertChecks`, `Merging`, `Container`: iteration, searches, insertion checks, and the
  container with its cached size, over an arbitrary strict weak order.
* `Vines`, `Rebalance`, `Disposal`, `Copies`, `Clone`, `SwapNodes`, `SwapTrees`, `Checker`: the loops that have no
  stack, the exchange of nodes, and the integrity check.
* `Rings`, `CircularList`, `ListMoves`, `ListSwap`, `ListPartition`, `Splicing`, `Lists`, `ListOrder`, `Ladder`,
  `ListPool`, `ListSort`: rings of nodes, what the list operations make of them, and the sort.

A ghost parameter of a method (a context, a tree, a sequence, a position) names what the links represent at the call;
it is not computed with. A loop whose body does much has the body in a method of its own.

## What came out

These statements of the sources, or expectations of their readers, do not hold for all inputs. The model keeps the
code as it is and says when it meets them.

* Exchanging two nodes of trees works if and only if the two have different parents (`SwapTrees.SwapOutcome`,
  `SwapTrees.BstSwapNodes`, `SwapTrees.RbSwapNodes`). For siblings both child links of the parent end at the second
  node, and no tree is left below the header (`SwapTrees.SiblingsExample` has the smallest case).
* Moving a range within its own list works if and only if the place to go to is not the end of the range
  (`CircularList.TransferExact`, `Lists.List.SpliceRangeWithin`). The documentation at
  `beast/boost/intrusive/circular_list_algorithms.hpp:245-247` only excludes places inside the range, so it allows the
  end; the range then drops out of the list while the cached size still counts it.
* The header of a clone has the right rightmost node if and only if no node in the left subtree of the source's
  rightmost node has a right child (`Clone.CloneTree`, `Copies.LastRightIsEnd`); a tree of three nodes violates that
  (`Copies.LastRightNotEnd`). Every red-black tree meets it (`Copies.RbLastRight`).
* Cloning an empty tree leaves a header that is not one of an empty tree: its parent is itself and its ends are null
  (`Clone.CloneTree`). The container does not do it (`Container.BsTree.CloneFrom`).
* The documentation at `beast/boost/intrusive/bstree.hpp:987-990` says that cloning copies the predicate of the source;
  the code does so if and only if the source has elements (`Container.BsTree.CloneFrom`).
* Merging a container into itself is not excluded by the documentation. With unique keys nothing moves
  (`Container.BsTree.MergeUniqueItself`). With equal keys, a run in which the container keeps its nodes reaches the end
  if and only if the container is empty (`SelfMerge.SelfMergeExact`): the only way to the end is the visit of the last
  element, and that visit loses it while the size still counts it (`SelfMerge.TransferLast`,
  `Container.BsTree.MergeEqualLast`). If the element is the only one, the visit paints a null root. A container of one
  element is the smallest case (`SelfMerge.OneElement`).
* A graph in which a node has the same child on both sides passes the integrity check (`Checker.TwinsPass`), and
  apart from that the check passes exactly on red-black trees (`Checker.CheckedTree`).
* The documentation at `beast/boost/intrusive/bstree.hpp:1763-1765` says that for equal bounds one of the two flags of
  `bounded_range` must be false; the code asserts that one must be true
  (`beast/boost/intrusive/bstree_algorithms.hpp:808`). The model has the latter.

## Model

| member | source | states |
|---|---|---|
| TreeBase.Minimum | beast/boost/intrusive/detail/bstree_algorithms_base.hpp:96-104 | Following left links from the root of a subtree ends at the first node of its order. |
| TreeBase.Maximum | beast/boost/intrusive/detail/bstree_algorithms_base.hpp:113-121 | Following right links ends at the last node of its order. |
| TreeBase.NextNode | beast/boost/intrusive/detail/bstree_algorithms_base.hpp:45-61 | The successor in the order, and the header after the last node, also when the climb runs through the header, whose right link is the last node. |
| TreeBase.PrevNode | beast/boost/intrusive/detail/bstree_algorithms_base.hpp:69-88 | The predecessor in the order; from the header, the last node. Asked of every node but the first one. |
| TreeBase.IsHeader | beast/boost/intrusive/detail/bstree_algorithms_base.hpp:130-146 | Told from links alone, exactly the header is taken for the header, for every size of the tree. |
| TreeBase.GetHeader | beast/boost/intrusive/detail/bstree_algorithms_base.hpp:154-178 | From any node, or from the header itself, the climb ends at the header. |
| Rotations.RotatedLeftTree | beast/boost/intrusive/bstree_algorithms.hpp:1787-1817 | The link writes of a left rotation turn the represented tree left: whole tree, parent links and outer link included. |
| Rotations.RotatedRightTree | beast/boost/intrusive/bstree_algorithms.hpp:1787-1839 | The same for a right rotation. |
| Rotations.TurnLKeeps | beast/boost/intrusive/bstree_algorithms.hpp:1796-1817 | A left rotation changes neither the order nor the set of nodes. |
| Rotations.InnerLeftTurn | beast/boost/intrusive/rbtree_algorithms.hpp:566-577 | The inner rotation of an insertion, which skips the parent link of the node it raises, leaves exactly one loose link, which the outer rotation is about to write. |
| Rotations.OuterRightTurn | beast/boost/intrusive/rbtree_algorithms.hpp:566-577 | The outer rotation after such an inner one yields a tree with all parent links right. |
| BstLinks.InsertCommit | beast/boost/intrusive/bstree_algorithms.hpp:1760-1784 | Linking in a node at a checked hole: the tree with the new leaf there, its order, both ends in the header, and no other node touched. |
| BstLinks.CommitTree | beast/boost/intrusive/bstree_algorithms.hpp:1760-1784 | The link writes alone, whatever the hole, represent that tree; colours stay. |
| BstErase.EraseTwoTree | beast/boost/intrusive/bstree_algorithms.hpp:1499-1579 | Relinking the successor into the place of a node with two children, whether or not it is the right child, represents the tree without that node. |
| BstErase.ErasedInOrder | beast/boost/intrusive/bstree_algorithms.hpp:1499-1579 | The order of the tree after the unlinking is the old order without the node. |
| BstErase.ErasedEnds | beast/boost/intrusive/bstree_algorithms.hpp:1546-1571 | What the two ends become when the node with at most one child goes: its parent, or the end of its only subtree. |
| BstErase.Erase | beast/boost/intrusive/bstree_algorithms.hpp:1499-1579 | Unlinking any node: the hole and what fills it, right ends in the header, the node itself untouched, and the reported `x`, `x_parent` and `y` are the ones to rebalance with. |
| RbInsertion.FlipRedRed | beast/boost/intrusive/rbtree_algorithms.hpp:557-564 | With a red uncle, recolouring moves the red-red pair two levels up and nothing else is wrong. |
| RbInsertion.TurnedBalanced | beast/boost/intrusive/rbtree_algorithms.hpp:565-590 | With a black uncle, one or two rotations and recolouring give a balanced tree with a black root. |
| RbInsertion.RebalanceAfterInsertion | beast/boost/intrusive/rbtree_algorithms.hpp:548-597 | After a red node was linked into a red-black tree the repair gives a red-black tree of the same order, terminates, makes at most two rotations, as the rotations themselves count them, and keeps the header's ends. |
| RbErasure.SiblingUpShort | beast/boost/intrusive/rbtree_algorithms.hpp:474-484 | Rotating a red sibling up keeps the tree short of just one black node at the same place, now below a red parent. |
| RbErasure.SiblingRedShort | beast/boost/intrusive/rbtree_algorithms.hpp:485-490 | Painting a black sibling with no red child red moves the shortage up to the parent. |
| RbErasure.FarUpOver | beast/boost/intrusive/rbtree_algorithms.hpp:491-508 | With a red far nephew one rotation and recolouring end the shortage: the tree is red-black. |
| RbErasure.RestoreInvariants | beast/boost/intrusive/rbtree_algorithms.hpp:464-546 | From a tree short of one black node on one path the repair gives a red-black tree of the same order with at most three rotations, as counted by the rotations, and terminates by depth and then colour. |
| RbTree.AfterErasure | beast/boost/intrusive/rbtree_algorithms.hpp:447-462 | After the unlinking and the exchange of colours the tree is either still red-black, if a red node left its place, or short of one black node at the reported place. |
| RbTree.RbErase | beast/boost/intrusive/rbtree_algorithms.hpp:283-289 | From any red-black tree and any of its nodes: a red-black tree whose order is the old one without the node, right header, at most three rotations counted where they are made, nothing else touched, the erased node included. |
| RbTree.RbInsertCommit | beast/boost/intrusive/rbtree_algorithms.hpp:426-432 | Linking in and repairing keeps all red-black and header invariants and puts the node at the checked position, with at most two rotations counted where they are made. |
| RedBlack.PlugBalanced | beast/boost/intrusive/rbtree_algorithms.hpp:447-546 | A tree is balanced if and only if the subtree in focus is and the path to it takes a subtree of that colour and black height. |
| RedBlack.HeightBound | beast/boost/intrusive/rbtree_algorithms.hpp:93-107 | A red-black tree of n nodes has height at most 2 floor(log2(n+1)). |
| Search.Arrived | beast/boost/intrusive/bstree_algorithms.hpp:2023-2052 | Where a descent by any prefix property ends is the first position of the order that lacks the property. |
| Search.FindLowerBound | beast/boost/intrusive/bstree_algorithms.hpp:915-919 | The first element not less than the key, or the header. The comparisons made are as many as the hole at that position is deep, so at most as many as the tree is high. |
| Search.FindUpperBound | beast/boost/intrusive/bstree_algorithms.hpp:933-937 | The first element greater than the key, or the header, with comparisons in the same way. |
| Search.SplitRange | beast/boost/intrusive/bstree_algorithms.hpp:808-829 | At the node where the descent for both bounds splits, two independent descents finish it, with the node looked at again when the range is open. |
| Search.BoundedRange | beast/boost/intrusive/bstree_algorithms.hpp:778-837 | For all four combinations of open and closed ends the single descent returns exactly the two independent lower and upper bounds. |
| Search.EqualRangeExact | beast/boost/intrusive/bstree_algorithms.hpp:870-874 | Between lower and upper bound of a key lie exactly the equivalent elements. |
| Search.EqualRange | beast/boost/intrusive/bstree_algorithms.hpp:870-874 | The range is from lower bound to upper bound. |
| Search.Count | beast/boost/intrusive/bstree_algorithms.hpp:845-855 | Walking the equal range counts the equivalent elements, counted independently by recursion over the order. |
| Search.LowerBoundRange | beast/boost/intrusive/bstree_algorithms.hpp:891-900 | The lower bound and, if it is equivalent, the element after it. |
| Search.LowerBoundRangeUnique | beast/boost/intrusive/set.hpp:353-355 | With unique keys that range is the equal range, as `set` assumes. |
| Search.Find | beast/boost/intrusive/bstree_algorithms.hpp:748-754 | The header if and only if no element is equivalent; otherwise the first equivalent one. |
| Search.Next | beast/boost/intrusive/detail/bstree_algorithms_base.hpp:45-61 | Stepping an iterator goes to the next position of the order. |
| InsertChecks.InsertUniqueCheck | beast/boost/intrusive/bstree_algorithms.hpp:995-1033 | Says whether an equivalent key is absent, both ways; then the commit data name the hole at the upper bound, otherwise the data are left alone. Returns the node before the upper bound, which then is the last equivalent one. |
| InsertChecks.InsertUniqueCheckHint | beast/boost/intrusive/bstree_algorithms.hpp:1073-1096 | For every hint, the header included, the same answer and the same position as without it; the hint is used, which the returned null pointer tells, if and only if the key is absent and the hint is at its upper bound. |
| InsertChecks.InsertEqualUpperBoundCheck | beast/boost/intrusive/bstree_algorithms.hpp:1723-1740 | The hole at the upper bound. |
| InsertChecks.InsertEqualLowerBoundCheck | beast/boost/intrusive/bstree_algorithms.hpp:1742-1758 | The hole at the lower bound. |
| InsertChecks.InsertEqualCheck | beast/boost/intrusive/bstree_algorithms.hpp:1694-1721 | For every hint, the hole just before it if that lies between the two bounds, and otherwise the bound that is closer to it. |
| InsertChecks.InsertBeforeCheck | beast/boost/intrusive/bstree_algorithms.hpp:1644-1660 | The hole just before any given position. |
| InsertChecks.HoleBefore | beast/boost/intrusive/bstree_algorithms.hpp:1652-1659 | Just before a position the tree has its hole left of that node if it has no left child, and otherwise right of the node before. |
| InsertChecks.InsertedSorted | beast/boost/intrusive/bstree_algorithms.hpp:1694-1758 | Anywhere between its bounds a new element keeps the order sorted. |
| InsertChecks.InsertedStrictly | beast/boost/intrusive/bstree_algorithms.hpp:995-1033 | An absent key keeps the order strictly sorted. |
| InsertChecks.InsertAt | beast/boost/intrusive/rbtree_algorithms.hpp:426-432 | Linking in at a checked hole: a red-black tree, sorted, with just this node inserted at that position. |
| Transfer.TransferUnique | beast/boost/intrusive/rbtree_algorithms.hpp:291-303 | Between two trees, with both repairs on links the other step has just written: both trees are red-black, the node moved if and only if its key was absent, and no other node is touched. |
| Transfer.TransferEqual | beast/boost/intrusive/rbtree_algorithms.hpp:305-314 | The same without the condition, to the upper bound. |
| Transfer.OfferToItself | beast/boost/intrusive/bstree_algorithms.hpp:1477-1487 | Offered to its own tree a node is found to be there, and stays. |
| SelfMerge.LastChecked | beast/boost/intrusive/bstree_algorithms.hpp:1723-1740 | Checked for a place in its own tree, the last node is given the place on the right below itself. |
| SelfMerge.RelinkLast | beast/boost/intrusive/rbtree_algorithms.hpp:305-314 | Checked, unlinked, linked in there, and the loss repaired: a red-black tree with right ends and the order without that node, which is its own parent. |
| SelfMerge.RepairItself | beast/boost/intrusive/rbtree_algorithms.hpp:548-597 | The repair for a node that is its own parent turns it around itself and touches nothing else; its last write, the colour of the root, can be made if and only if there is a root. |
| SelfMerge.TransferLast | beast/boost/intrusive/rbtree_algorithms.hpp:305-314 | The whole transfer of the last node into its own tree: the tree is the red-black tree without it, and it is its own parent and child; the transfer fails if and only if it was the only node. |
| SelfMerge.NotTheEnd | beast/boost/intrusive/bstree.hpp:2026-2041 | A turn of the merge before and after which the links are a container of the same nodes does not bring the iterator to the end. |
| SelfMerge.SelfMergeExact | beast/boost/intrusive/bstree.hpp:2026-2041 | A run to the end, with the links a sorted red-black tree of the same nodes at every turn, exists if and only if the container is empty. |
| SelfMerge.OneElement | beast/boost/intrusive/bstree.hpp:2026-2041 | The smallest container without such a run has one element. |
| Merging.UniqueTargetCovers | beast/boost/intrusive/bstree.hpp:1990-2006 | A key is in the merged target if and only if it was in the target or in the source. |
| Merging.RestIsRepeats | beast/boost/intrusive/bstree.hpp:1990-2006 | What stays in the source, in its order, is what repeats a key of the target or of an earlier source element. |
| Merging.UniqueConserves | beast/boost/intrusive/bstree.hpp:1990-2006 | No node is lost or doubled by a merge. |
| Merging.UniqueTargetSorted | beast/boost/intrusive/bstree.hpp:1990-2006 | The target's keys stay strictly increasing. |
| Merging.EqualTargetStable | beast/boost/intrusive/bstree.hpp:2026-2041 | In the merged target the elements of every equivalence class are those of the target and then those of the source, each in their order; it is sorted and has all elements. |
| Merging.ClassMembers | beast/boost/intrusive/bstree.hpp:2026-2041 | Those classes have exactly the equivalent elements. |
| Container.BsTree.FindLower | beast/boost/intrusive/bstree_algorithms.hpp:2023-2036 | The lower bound with as many comparisons as its hole is deep, which are at most 2 floor(log2(n+1)). |
| Container.BsTree.FindUpper | beast/boost/intrusive/bstree_algorithms.hpp:2039-2052 | The upper bound, likewise. |
| Container.BsTree.InsertUniqueCommit | beast/boost/intrusive/bstree.hpp:1315-1336 | Commits a check; the cached size agrees with the tree again, and the iterator returned is at the element. |
| Container.BsTree.InsertUnique | beast/boost/intrusive/bstree.hpp:1130-1140 | Inserted at its sorted place if and only if the key was absent; otherwise nothing at all is written, and the last equivalent element is returned. |
| Container.BsTree.InsertUniqueHint | beast/boost/intrusive/bstree.hpp:1156-1164 | The same outcome for every hint, refusals without any write included. |
| Container.BsTree.InsertEqual | beast/boost/intrusive/bstree.hpp:1062-1071 | Behind all equivalent elements; returns its place. |
| Container.BsTree.InsertEqualHint | beast/boost/intrusive/bstree.hpp:1086-1095 | The element goes just before the hint, or as close to it as the order allows: to the lower bound if the hint is before that, to the upper bound if it is behind that. |
| Container.BsTree.Erase | beast/boost/intrusive/bstree.hpp:1413-1424 | Without just that element; its links are reset; the element after it is returned. |
| Container.BsTree.EraseRange | beast/boost/intrusive/bstree.hpp:2107-2112 | A range is erased while the iterator runs through the tree that is being relinked; every erased node is reset, and their number is returned. |
| Container.BsTree.EraseKey | beast/boost/intrusive/bstree.hpp:1469-1475 | Exactly the equivalent elements go, each is reset, and their number is returned. |
| Container.BsTree.MergeUnique | beast/boost/intrusive/bstree.hpp:1990-2006 | Every source element is offered once, in order, although the source is relinked under the iterator; both containers are valid, sizes included, and have the orders that `Merging` is about. |
| Container.BsTree.MergeEqual | beast/boost/intrusive/bstree.hpp:2026-2041 | Every source element moves, behind the equivalent ones; the source is empty. |
| Container.BsTree.MergeUniqueItself | beast/boost/intrusive/bstree.hpp:1990-2006 | A container merged into itself stays as it is, size included. |
| Container.BsTree.MergeEqualLast | beast/boost/intrusive/bstree.hpp:2026-2041 | With equal keys, the visit of the last element of a container merged into itself ends with a red-black tree of the other elements, while the size still counts it; the visit of the only element fails. |
| Container.VisitItself | beast/boost/intrusive/bstree.hpp:1990-2006 | In that merge the iterator visits every element, and none moves. |
| Container.BsTree.ClearAndDisposeAll | beast/boost/intrusive/bstree.hpp:1594-1600 | All elements disposed of once, in order, and reset; the container is empty, size included. |
| Container.BsTree.CloneFrom | beast/boost/intrusive/bstree.hpp:999-1015 | The old elements are disposed of in order and reset, and nothing else that was there changes; the new ones are a copy, shape and colours, of the source, with its size; the order is copied if and only if the source has elements. |
| Container.BsTree.UnlinkLeftmost | beast/boost/intrusive/bstree.hpp:1900-1910 | One element comes out of a container that is being taken apart, reset, with the size of what is left; null when nothing is left. |
| Container.BsTree.UnlinkAll | beast/boost/intrusive/bstree.hpp:1900-1910 | From any container, repeated calls return every element exactly once, in order, reset, and then null; the container is empty, size included. |
| Vines.CompressKeeps | beast/boost/intrusive/bstree_algorithms.hpp:1868-1883 | A pass of k left rotations along the right spine keeps the order and shortens the spine by k. |
| Vines.CompressSpine | beast/boost/intrusive/bstree_algorithms.hpp:1885-1903 | A halving pass makes everything off the spine perfect trees one level higher. |
| Vines.PackedHeight | beast/boost/intrusive/bstree_algorithms.hpp:1885-1903 | The packed tree has the least height for its size, ceil(log2(n+1)): one more than it would need would be too much, both ways. |
| Vines.LeastHeight | beast/boost/intrusive/bstree_algorithms.hpp:1385-1399 | No tree of the same size is lower. |
| Rebalance.VineRotated | beast/boost/intrusive/bstree_algorithms.hpp:1841-1866 | One rotation of the tree-to-vine loop, which leaves parent links stale, keeps the children's links right. |
| Rebalance.SubtreeToVine | beast/boost/intrusive/bstree_algorithms.hpp:1841-1866 | The result is a vine of the same order, with its length counted; termination for every shape. |
| Rebalance.LineCompressed | beast/boost/intrusive/bstree_algorithms.hpp:1868-1883 | One compression step gives the folded node right parent links below and on the line. |
| Rebalance.CompressSubtree | beast/boost/intrusive/bstree_algorithms.hpp:1868-1883 | A pass on the nodes is the pass on trees, `Compress`. |
| Rebalance.VineToSubtree | beast/boost/intrusive/bstree_algorithms.hpp:1885-1903 | From a vine: a tree with all parent links right, of the same order and the least height. |
| Rebalance.RebalanceSubtree | beast/boost/intrusive/bstree_algorithms.hpp:1402-1440 | Any subtree of any tree, as left child, right child or root: same order, least height, all parent links and the outer links of its parent restored, no colour changed. |
| Rebalance.RebalanceTree | beast/boost/intrusive/bstree_algorithms.hpp:1385-1399 | The whole tree, if there is one, in the same way. |
| Disposal.DisposeLifted | beast/boost/intrusive/bstree_algorithms.hpp:2004-2020 | The rotation in the loop keeps what is left to dispose of in order and makes the left side smaller. |
| Disposal.DisposeSubtree | beast/boost/intrusive/bstree_algorithms.hpp:2004-2020 | For every shape the disposer is called exactly once per node, in order, without a stack. |
| Disposal.ClearAndDispose | beast/boost/intrusive/bstree_algorithms.hpp:608-615 | All nodes disposed of in order, and the header is that of an empty tree. |
| Disposal.UnlinkAbove | beast/boost/intrusive/bstree_algorithms.hpp:640-646 | Relinking the right subtree under the root instead of under the parent still leaves the remaining nodes in order for parent and right links. |
| Disposal.UnlinkLeftmost | beast/boost/intrusive/bstree_algorithms.hpp:630-658 | Whatever is left after earlier calls: the first remaining node comes out, or null if there is none. |
| Copies.LastRightIsEnd | beast/boost/intrusive/bstree_algorithms.hpp:1978-1986 | The end of the last right link taken is the rightmost node if and only if nothing in the left subtree of the rightmost node has a right child. |
| Copies.RbLastRight | beast/boost/intrusive/bstree_algorithms.hpp:1978-1986 | Every tree of equal black counts meets that condition. |
| Copies.LastRightNotEnd | beast/boost/intrusive/bstree_algorithms.hpp:1978-1986 | A tree of three nodes that does not. |
| Copies.CopyOrder | beast/boost/intrusive/rbtree_algorithms.hpp:57-62 | A copy has the keys in the same order, the same black heights and colours. |
| Clone.CloneSubtree | beast/boost/intrusive/bstree_algorithms.hpp:1928-2001 | New nodes only, the same shape, keys and colours, parent links right, and the ends that are returned; the loop without a stack terminates. |
| Clone.CloneTree | beast/boost/intrusive/bstree_algorithms.hpp:1293-1308 | The target's nodes are disposed of in order and reset; the clone is a well-formed tree if and only if the condition on the source holds; an empty source leaves a header below which there is no tree, not even an empty one. |
| Clone.RbClone | beast/boost/intrusive/rbtree_algorithms.hpp:316-323 | From a non-empty red-black tree: a disjoint red-black tree of the same shape and colours with the right ends. |
| SwapNodes.AdjustedTwice | beast/boost/intrusive/bstree_algorithms.hpp:397-432 | The two fix-ups of the neighbours' links together exchange the nodes in every neighbour, if the two are not siblings. |
| SwapNodes.SwappedSiblings | beast/boost/intrusive/bstree_algorithms.hpp:406-432 | For siblings both child links of the parent end at the second node. |
| SwapNodes.SwapPlaces | beast/boost/intrusive/bstree_algorithms.hpp:302-433 | Nodes of one tree or of two, parent and child included: all links, the headers' too, are the old ones with the two nodes exchanged; for siblings those of all but their parent. No colour and no other node changes. |
| SwapTrees.SwappedTree | beast/boost/intrusive/bstree_algorithms.hpp:302-433 | Links exchanged like that represent the search tree of the same shape with the two nodes exchanged, each with its own colour, and with the right ends. |
| SwapTrees.MovedOrder | beast/boost/intrusive/bstree_algorithms.hpp:302-433 | Its shape is the old one, and its order is the old one with just the two nodes exchanged. |
| SwapTrees.SiblingsLost | beast/boost/intrusive/bstree_algorithms.hpp:406-432 | With one child on both sides of the parent of siblings no tree whatever is left below the header. |
| SwapTrees.SwapOutcome | beast/boost/intrusive/bstree_algorithms.hpp:302-433 | For nodes of different parents the result is the tree, or the two trees, with the nodes exchanged; for siblings there is no tree. |
| SwapTrees.SiblingsExample | beast/boost/intrusive/bstree_algorithms.hpp:406-432 | The smallest tree in which the exchange fails, a root with two children. |
| SwapTrees.BstSwapNodes | beast/boost/intrusive/bstree_algorithms.hpp:302-433 | The method comes to that for any search trees; a node swapped with itself changes nothing. |
| SwapTrees.BstSwap | beast/boost/intrusive/bstree_algorithms.hpp:278-285 | The same with the headers found by climbing. |
| SwapTrees.RenamedBalanced | beast/boost/intrusive/rbtree_algorithms.hpp:218-227 | With the colours left at their places the tree is balanced if it was. |
| SwapTrees.RenamedMoved | beast/boost/intrusive/rbtree_algorithms.hpp:218-227 | That is so if each of the two nodes takes the colour of the other. |
| SwapTrees.RbSwapNodes | beast/boost/intrusive/rbtree_algorithms.hpp:218-227 | With the exchange of colours: red-black trees with the nodes exchanged if they have different parents; no tree, and the second node on both sides of the parent, if they are siblings. |
| SwapTrees.RbSwap | beast/boost/intrusive/rbtree_algorithms.hpp:208-215 | The same with the headers found by climbing. |
| Checker.SameUnfolding | beast/boost/intrusive/bstree_algorithms.hpp:2055-2072 | Links lead to at most one finite tree. |
| Checker.RbNodeCheck | beast/boost/intrusive/rbtree_algorithms.hpp:88-108 | Given what is true of its two subtrees, the check at one node passes if and only if it is true of the subtree, and returns its summary. |
| Checker.CheckSubtree | beast/boost/intrusive/bstree_algorithms.hpp:2055-2072 | Passes if and only if parent links, order and colours are right; then returns the first and the last node of the order, its length, and the black height. |
| Checker.Check | beast/boost/intrusive/bstree_algorithms.hpp:1451-1472 | Of a whole container: if and only if moreover the header's links are right and the root is black; returns the same, and for an empty container null nodes and zeros. |
| Checker.LinkedDistinct | beast/boost/intrusive/bstree_algorithms.hpp:2065-2068 | With consistent parent links nodes are shared if and only if some node has the same child on both sides. |
| Checker.CheckedTree | beast/boost/intrusive/bstree_algorithms.hpp:1451-1472 | So, such nodes excluded, the check passes exactly on sorted red-black trees. |
| Container.BsTree.Check | beast/boost/intrusive/bstree.hpp:2048-2058 | With the comparison of the cached size: a container is valid if and only if it passes, its header is red, and no node has the same child on both sides. |
| Container.BsTree.ValidReaching | beast/boost/intrusive/bstree.hpp:2048-2058 | So the check can be made of every valid container. |
| Checker.TwinsPass | beast/boost/intrusive/bstree_algorithms.hpp:82-92 | And such a node can pass. |
| Rings.RingByLinks | beast/boost/intrusive/circular_list_algorithms.hpp:255-274 | Nodes are a ring if and only if they are distinct and each one's next and previous links are its neighbours. |
| CircularList.TransferWithin | beast/boost/intrusive/circular_list_algorithms.hpp:255-274 | Within one ring a range moves before `p`, which lies outside it and is not its end. |
| CircularList.TransferToEnd | beast/boost/intrusive/circular_list_algorithms.hpp:255-274 | If `p` is the end of the range, the ring falls apart into the range and the rest. |
| CircularList.TransferExact | beast/boost/intrusive/circular_list_algorithms.hpp:245-274 | For every range of a ring and every `p` of the ring outside of it: the result is a ring of all the nodes if and only if `p` is not the end of the range. |
| Splicing.MovedInList | beast/boost/intrusive/list.hpp:974-989 | In terms of one list: a range goes to any position outside of it but its end. |
| Splicing.DroppedOut | beast/boost/intrusive/list.hpp:974-989 | Sent to its end, the range drops out of the list. |
| CircularList.TransferAcross | beast/boost/intrusive/circular_list_algorithms.hpp:255-274 | From one ring to another: both are rings, and the range is in its place. |
| CircularList.OneIsRange | beast/boost/intrusive/circular_list_algorithms.hpp:280-292 | Transferring one node writes the same links as transferring it as a range. |
| CircularList.UnlinkPiece | beast/boost/intrusive/circular_list_algorithms.hpp:157-165 | Unlinking a range leaves the ring without it. |
| CircularList.LinkHead | beast/boost/intrusive/circular_list_algorithms.hpp:173-199 | Linking a node after a head makes it the first element, before a head the last. |
| ListMoves.Reverse | beast/boost/intrusive/circular_list_algorithms.hpp:301-313 | Moving each node in turn to the front reverses the list. |
| ListMoves.ReversedTwice | beast/boost/intrusive/list.hpp:1105-1106 | Reversing twice is the identity. |
| ListMoves.ReversedAt | beast/boost/intrusive/list.hpp:1105-1106 | The element at a position of the reversed list is the one at the mirrored position. |
| ListMoves.MoveBackwards | beast/boost/intrusive/circular_list_algorithms.hpp:319-334 | Moves every element n positions towards the beginning and around it, as `ShiftedAt` has it, also when n walks around the ring several times and over the root. |
| ListMoves.MoveForward | beast/boost/intrusive/circular_list_algorithms.hpp:339-354 | The same towards the end. |
| ListMoves.ShiftedAt | beast/boost/intrusive/list.hpp:564-577 | Position by position: after a shift forward by n, position k has the element of position k + n modulo the length; after a shift backwards it is the other way round. |
| ListMoves.ShiftsInverse | beast/boost/intrusive/list.hpp:564-577 | The two undo each other for every n and every list. |
| ListSwap.CrossedAt | beast/boost/intrusive/circular_list_algorithms.hpp:229-234 | Exchanging the previous and the next links of two nodes and of their neighbours, in that order, is right for neighbours, for rings of one and two nodes, and for nodes of different rings. |
| ListSwap.SwapNodes | beast/boost/intrusive/circular_list_algorithms.hpp:214-243 | The links are the old ones with the two nodes exchanged in every configuration, unlinked nodes included. |
| ListSwap.SwappedRing | beast/boost/intrusive/circular_list_algorithms.hpp:214-243 | A ring becomes the ring with the two nodes exchanged. |
| ListPartition.PartingHolds | beast/boost/intrusive/circular_list_algorithms.hpp:405-418 | Moving one satisfying node, with the links between the parts left stale, keeps the state between the two parts. |
| ListPartition.StablePartition | beast/boost/intrusive/circular_list_algorithms.hpp:381-435 | Satisfying nodes in their order, then the others in theirs, with both numbers and the boundary; if the predicate throws at any node, a ring of the same nodes, those before it partitioned and those from it on untouched. |
| ListPartition.ChosenNext | beast/boost/intrusive/circular_list_algorithms.hpp:405-418 | A node that gets a verdict is appended to those that got it before, and to no others. |
| ListPartition.PartitionMembers | beast/boost/intrusive/circular_list_algorithms.hpp:385-395 | The nodes of the ring are the same whether or not the predicate throws. |
| ListOrder.MergeStable | beast/boost/intrusive/list.hpp:1074-1096 | Merging sorted parts, the earlier one first, sorts the whole stably. |
| ListOrder.SortedOnce | beast/boost/intrusive/list.hpp:1007-1010 | There is only one stable sorting of a list. |
| Lists.List.Splice | beast/boost/intrusive/list.hpp:908-919 | All elements of another list go before a position; both lists valid, sizes included. |
| Lists.List.SpliceOne | beast/boost/intrusive/list.hpp:933-940 | One element does. |
| Lists.List.SpliceRange | beast/boost/intrusive/list.hpp:974-989 | A range does. |
| Lists.List.SpliceRangeWithin | beast/boost/intrusive/list.hpp:974-989 | A range of the list itself, to any position outside of it: the list is valid afterwards if and only if the position is not the end of the range or the range is empty, and then has the range there. |
| Lists.List.SpliceOneWithin | beast/boost/intrusive/list.hpp:926-938 | One element of the list itself, to any position: it is there, and where it is there already nothing changes. |
| Lists.List.SpliceAllWithin | beast/boost/intrusive/list.hpp:908-919 | The whole list spliced into itself at its end: the list is empty, and its elements are a ring of their own. |
| Lists.List.MergeWith | beast/boost/intrusive/list.hpp:1074-1096 | The loop that splices runs of smaller elements gives the stable merge, for any predicate and any two lists; the other list is empty. |
| Lists.List.EraseRange | beast/boost/intrusive/list.hpp:699-716 | A range is unlinked at once and then reset node by node; the end of the range is returned. |
| Lists.List.RemoveIf | beast/boost/intrusive/list.hpp:1145-1156 | Leaves exactly the elements for which the predicate fails, in order, and resets the others; if it throws, a valid list of the same elements. |
| Lists.List.Swap | beast/boost/intrusive/list.hpp:549-553 | Exchanging the two roots exchanges the elements and sizes. |
| Lists.List.ReverseElements | beast/boost/intrusive/list.hpp:1105-1106 | Reverses, list valid. |
| Lists.List.ShiftForward | beast/boost/intrusive/list.hpp:576-577 | The element at position k is the one that was at position k + n modulo the size; list valid. |
| Lists.List.ShiftBackwards | beast/boost/intrusive/list.hpp:564-565 | The element that was at position k is at position k + n modulo the size; list valid. |
| Ladder.CarryOn | beast/boost/intrusive/list.hpp:1031-1034 | A carry of 2^i elements merged into slot i is a stable sorting of the 2^(i+1) elements that came before, with the earlier run first. |
| Ladder.CarryIn | beast/boost/intrusive/list.hpp:1035-1037 | The carry put into an empty slot leaves every slot empty or with 2^i elements, all earlier than those of lower slots. |
| Ladder.SlotFound | beast/boost/intrusive/list.hpp:1025-1037 | Fewer than 2^64 elements never need more than 64 slots. |
| Ladder.Collected | beast/boost/intrusive/list.hpp:1038-1040 | Merging the slots upwards sorts what they hold. |
| ListSort.Sort | beast/boost/intrusive/list.hpp:1021-1043 | A stable sorting by any strict weak order, of every list of fewer than 2^64 elements, on the nodes themselves; other lists are left alone. |

## Left out

- Rebalance.RebalanceSubtree: colours are kept node by node but the result is not red-black; the routine ignores colours, so the result is stated for plain search trees.
- Checker.Check: takes child links that form a finite tree without the header for granted, as the recursion of the code does; a cycle of child links makes that recursion endless.
- ListSort.Sort: lists of 2^64 or more elements, which the size type cannot count, are not covered: the code has 64 slots.
- Container.BsTree.MergeUnique: takes two containers; a container merged into itself is `Container.BsTree.MergeUniqueItself`.
- Container.BsTree.MergeEqual: takes two containers; for a container merged into itself there are `SelfMerge.SelfMergeExact` and `Container.BsTree.MergeEqualLast`. What the visits before the last one do to its links is not stated.
- Lists.List.SpliceRange: takes two lists; for a range of the list itself there is `Lists.List.SpliceRangeWithin`, and likewise for `Splice` and `SpliceOne`.
- CircularList.TransferWithin: takes a place that is not the end of the range; for the end there are `CircularList.TransferToEnd` and `CircularList.TransferExact`.
- Keys: a node carries an integer key and the order is an arbitrary strict weak order on integers; key extraction, value traits and hooks are type-level.
- Exceptions thrown by comparison objects and cloners; only the throw of the predicate of `stable_partition` is modelled. With it the rollback of a clone is left out.
- Safe-link assertions and automatic unlinking; the resetting of links on erasure is modelled as in safe-link mode.
- Colour bits packed into pointers: the colour is a field.
- The depth that insertion checks can report (`pdepth`), which only other tree kinds use.
- Wrap-around of the size type, apart from the bound on the sort.
- The bit-twiddling of `floor_log2`: it is the mathematical function here.
- The comparison bound that the documentation gives for `list::merge`: a failed comparison is repeated after each splice, so the bound is not met, and no other is stated.
- `push_front`, `push_back`, `replace_node`, `swap_tree`, range insertion and assignment: they would only add easy members.
- Other containers (splay, scapegoat, treap and AVL trees, hash tables, singly linked lists) and everything outside `beast/boost/intrusive`: Beast's streams, asio, certificates, endian buffers.
