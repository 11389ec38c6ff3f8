# B-tree with parent links, modelled in Dafny

This project models the in-memory B-tree of `BTree/BTree/Node.cs` and
`BTree/BTree/BTree.cs`. Each node holds a sorted list of keys and, when it
is internal, a list of children. Each node also keeps a settable `Parent`
link. The tree object holds the minimum degree `_amount` (written `t` below)
and a nullable `_root`.

The model keeps what the C# code does: the same branches, the same checks
and the same exceptions. Where the code departs from the usual B-tree
algorithm, the model departs with it.

**Nodes and references** (module `Node`). Node objects live in an arena, a
map from node ids to `NodeRec(isLeaf, keys, children, parent)`. A reference
is an id; `null` is `None`. A leaf has an empty child list, and reaching for
the children of a leaf is a `NullReference` fault.

- **Building and reshaping nodes.** The three constructors, `Split`, `Merge`
  and `MergeWithRoot` are functions from an arena to a new arena plus a
  result (`Built`). Their writes to `Parent`, including the internal
  constructor's adoption of its children, are map updates. The internal
  constructor adopts its children before it checks its capacity, so a node
  it rejects is still in the arena.
- **Loops.** `Find` and `AddKey` are methods, with the loops of the source.
  Each is proved equal to a function (`Descend` and `InsertSorted`).

**The tree** (modules `TreeState`, `Insertion`, `Removal`, `ShallowInsertion`,
`ShallowRemoval` and `BTrees`).

- **The class.** `BTree` is a class whose fields are `amount`, the arena and
  `root`. Its methods follow the C# statements in order, editing the arena
  in place.
- **Specification functions.** Each method is proved to leave exactly the
  state, and the exception if any, that a function of `State(arena, root)`
  describes: `FindIn`, `ContainsIn`, `InsertInto`, `RemoveFrom` and one
  function per branch. The properties of the tree are lemmas about those
  functions.
- **Shallow trees.** Modules `ShallowInsertion` and `ShallowRemoval` follow
  `Insert` and `Remove` on a search tree of height 1, a root over ordered
  leaves. There they prove order and the stored keys for:
  - an insertion into a leaf with room;
  - an insertion that splits a full leaf under a root with room;
  - a removal from a leaf with keys to spare;
  - a borrow from the left or the right sibling;
  - the predecessor and successor replacements at the root;
  - the internal merge that collapses the root.
- **Exceptions.** An exception is a `Fault`:
  - `KeyNotFound` for removing a key that is not there;
  - `InvariantViolation` for the `throw new Exception()` guards;
  - `IndexOutOfRange` and `NullReference` for a list index or a `!` that
    fails;
  - `NoTermination` for a loop or recursion that would never end.

  The changes made before a throw stay in the state, as they do in C#.

**Behaviour kept as the code has it**, where it differs from the textbook
B-tree algorithm:

- **Cascading split.** The split loop splits a full internal node whatever
  its child count. The node has received one more child just before, so the
  halves can hold `t` and `t+1` children.
- **Predecessor and successor.** The internal-node branch uses the last or
  first key of the child itself, not the largest or smallest key of the
  child's subtree.
- **Leaf merges.** The merged node overwrites the leaf (BTree.cs:151) or the
  sibling (BTree.cs:165) in the parent's child list, so the other of the two
  stays beside it; `Removal.MergeLeftRecords` and
  `Removal.MergeRightRecords` state the records up to the nested `Remove`.
  The final `Children.Remove(node)` (BTree.cs:154) and
  `Children.Remove(neighbour)` (BTree.cs:168) then name the node that was
  overwritten. When that node is no longer among the parent's children the
  call changes nothing, as `Removal.DropChild` states. That the nested
  `Remove` leaves it so is an observation, not a proved fact.
- **Internal merge.** It concatenates the two children without a separator
  key. It also removes `value` from the node without repairing underflow.
- **Collapse through an internal merge.** When the merged children replace
  a root that had two children, the method returns at once.
- **Faults rather than exceptions.** `Find` reaching a missing child, a
  split whose halves exceed the capacity checks, and a merge of nodes with
  different parents all end in the fault the C# code would raise.

**Termination.** `Find` is given as much fuel as the arena has nodes. A
longer descent repeats a node, so the C# recursion would never end. The
split loop of `Insert` gets the same bound, which a climb along an acyclic
`Parent` chain never exceeds. The nested calls of `Remove` take an explicit
`fuel` argument.

## Model

| member | source | states |
|---|---|---|
| Lists.IndexOf | BTree/BTree/BTree.cs:54-56 | the first position holding `x`: every earlier entry differs, and the result is the list length exactly when `x` is absent |
| Lists.RemoveFirst | BTree/BTree/BTree.cs:105 | `List.Remove`: the list is unchanged when `x` is absent; otherwise it is the list with the entry at the first `x` cut out, the rest in order, so one shorter with exactly one `x` fewer |
| Lists.ReplaceThenDrop | BTree/BTree/BTree.cs:204-205 | in a child list without repeats, overwriting child i with a new node and then removing the old child i+1 leaves the new node in place of the two, the rest in order |
| Lists.GetRange | BTree/BTree/Node.cs:83 | `List.GetRange` succeeds exactly when index and count are in bounds, and then returns the `count` entries from `index` |
| Lists.SetAt | BTree/BTree/BTree.cs:58 | an indexed write succeeds exactly for a position inside the list, changing that entry only |
| Lists.InsertAt | BTree/BTree/BTree.cs:59 | `List.Insert`: one longer, `x` at `index`, earlier entries in place, later ones shifted by one |
| Keys.FirstNotLess | BTree/BTree/Node.cs:152-154 | where the `AddKey` scan stops: every earlier key is smaller than `value`, and the key there (if any) is not |
| Keys.InsertSorted | BTree/BTree/Node.cs:150-156 | the list after `AddKey` is one longer and its multiset gains exactly `value` |
| Keys.InsertSortedKeepsOrder | BTree/BTree/Node.cs:150-156 | adding a key that is not present to a strictly ascending list keeps it strictly ascending |
| Keys.InsertSortedMembers | BTree/BTree/Node.cs:150-156 | after `AddKey` the list holds exactly the old keys and `value` |
| Keys.RemoveSortedKey | BTree/BTree/BTree.cs:105 | `Keys.Remove` on a strictly ascending list keeps it ascending and leaves exactly the other keys |
| Keys.BorrowFromLeft | BTree/BTree/BTree.cs:116-123 | the rotation through the parent keeps the three key lists ascending and separated, and their combined multiset loses exactly `value` |
| Keys.BorrowFromRight | BTree/BTree/BTree.cs:130-137 | the mirror rotation: same order, separation and multiset facts |
| Keys.HalvesWithKey | BTree/BTree/BTree.cs:52-64 | splitting an ascending list at a key and adding `value` to the side its comparison picks gives two ascending halves on either side of the key that together hold the old keys and `value` |
| Keys.JoinWithout | BTree/BTree/BTree.cs:192-197 | two ascending lists on either side of a key join without it into an ascending list holding the keys of both |
| Keys.ReplacedKeySet | BTree/BTree/BTree.cs:181 | overwriting a key of an ascending list trades exactly that key for the new one |
| Keys.DropAndJoin | BTree/BTree/Node.cs:141-145 | two ascending lists on either side of a key, one of them without `value`, join around the key into an ascending list holding every key but `value` |
| Node.Adopt | BTree/BTree/Node.cs:47-48 | every listed child's parent becomes the new node; every other node is untouched |
| Node.NewNode | BTree/BTree/Node.cs:13-21 | a fresh node with keys `[value]`, no children, no parent and the given leaf flag; the old nodes are untouched |
| Node.NewLeaf | BTree/BTree/Node.cs:23-34 | succeeds exactly when there are fewer than 2t keys, giving a fresh parentless leaf with those keys; else `InvariantViolation` and no change |
| Node.NewInternal | BTree/BTree/Node.cs:36-52 | the fresh node with those keys and children is created and adopts the children in every case; the result is an error exactly when there are 2t or more keys or 2t+1 or more children |
| Node.Half | BTree/BTree/Node.cs:93-102 | one half of a split: a fresh node with the given keys (and children when internal), the original's leaf flag and parent, and its children adopted |
| Node.Split | BTree/BTree/Node.cs:76-105 | both halves exist in the new arena, and only `Parent` links of existing nodes change |
| Node.SplitFullLeaf | BTree/BTree/Node.cs:80-90 | a leaf of 2t-1 keys splits into two fresh leaves `Keys[0,t-1)` and `Keys[t,2t-1)` with the original parent, the middle `Keys[t-1]`, and `left ++ [middle] ++ right == Keys`; no old node changes |
| Node.SplitFullInternal | BTree/BTree/Node.cs:91-104 | an internal node of 2t-1 keys splits into two fresh internal nodes with those key ranges, the first t children and the rest (which concatenate back), the original parent, and the middle key |
| Node.SplitMovesChildren | BTree/BTree/Node.cs:93-102 | after an internal split, each of the first t children has the left half as parent and each later child the right half |
| Node.Merge | BTree/BTree/Node.cs:107-127 | throws `InvariantViolation`, changing nothing, unless both nodes have the same non-null parent and leaf flag; succeeds exactly when they do and hold fewer than 2t keys (and, when internal, 2t+1 children) in all; then a fresh node with keys `left ++ right`, children `left ++ right` when internal, each of which it adopts, and the left node's parent; no other node changes |
| Node.MergeWithRoot | BTree/BTree/Node.cs:129-148 | succeeds exactly when the root has no parent, two leaf children and fewer than 2t keys in all, giving a fresh parentless leaf with keys `left ++ root ++ right` |
| Node.Descend | BTree/BTree/Node.cs:54-74 | a node that `Find` returns is a node of the arena |
| Node.Find | BTree/BTree/Node.cs:54-74 | the scanning method returns what `Descend` describes |
| Node.AddKey | BTree/BTree/Node.cs:150-156 | the scanning method returns the sorted insertion `InsertSorted` |
| Node.SplitRanges | BTree/BTree/Node.cs:83-100 | the four `GetRange` calls of `Split` on 2t-1 keys are in range and return the expected slices |
| Node.FindOnLeaf | BTree/BTree/Node.cs:57-73 | on a leaf `Find` returns the leaf itself |
| Node.FindOnMatch | BTree/BTree/Node.cs:59-62 | on a node holding `value` among ascending keys, `Find` returns that node |
| Node.FindDescends | BTree/BTree/Node.cs:64-70 | on an internal node without `value`, `Find` descends into the child before the first larger key, or into the last child, and faults when that child is missing |
| Search.FindInSearchTree | BTree/BTree/Node.cs:54-74 | in a search-ordered subtree `Find` succeeds, and `value` is in the subtree exactly when it is in the keys of the node found |
| Search.ContentThroughChild | BTree/BTree/Node.cs:64-70 | in a search tree, a key absent from the node is in its subtree exactly when it is in the subtree of the child `Find` enters |
| Search.HeightBelowSize | BTree/BTree/Node.cs:54-74 | a search tree of height d has more than d nodes, so the descent's fuel never runs out on it |
| TreeState.Empty | BTree/BTree/BTree.cs:8-11 | a new tree has no root |
| TreeState.FindIn | BTree/BTree/BTree.cs:13-16 | `Find` gives null exactly on an empty tree, and otherwise a node of the tree when it succeeds |
| TreeState.ContainsIn | BTree/BTree/BTree.cs:18-23 | `Contains` is false on an empty tree, fails exactly when `Find` fails, and is true only with a root |
| TreeState.ContainsIsMembership | BTree/BTree/BTree.cs:18-23 | on a search-ordered tree `Contains` never fails and answers whether `value` is stored anywhere in the tree |
| Insertion.AddKeyTo | BTree/BTree/BTree.cs:40 | `node.AddKey` in the arena: that node's keys become the sorted insertion; no other node changes |
| Insertion.SplitStep | BTree/BTree/BTree.cs:52-67 | one pass of the split loop keeps every reference valid, only adds nodes, and yields a node of the tree to continue from |
| Insertion.Hang | BTree/BTree/BTree.cs:54-67 | hanging the halves adds no nodes and yields the parent to continue from |
| Insertion.HangHalves | BTree/BTree/BTree.cs:58-59 | the parent's child `node` is replaced by the left half, with the right half just after it; no other node changes |
| Insertion.RebuildRoot | BTree/BTree/BTree.cs:73-92 | throws, changing nothing, exactly on an empty tree; otherwise keeps every reference valid |
| Insertion.Attach | BTree/BTree/BTree.cs:82-89 | the new root takes the middle key in its first slot and the two halves as its last two children, `value` goes into the half its comparison picks, and no other node changes |
| Insertion.Climb | BTree/BTree/BTree.cs:44-70 | the split loop keeps every reference valid and only adds nodes |
| Insertion.InsertInto | BTree/BTree/BTree.cs:25-71 | `Insert` keeps every reference valid and only adds nodes |
| Insertion.ClimbExits | BTree/BTree/BTree.cs:44-70 | the loop's exits: a node with room takes `value`, a full root is rebuilt, exhausted fuel is `NoTermination`, and a failing split ends with its fault |
| Insertion.ClimbPass | BTree/BTree/BTree.cs:52-67 | after one successful pass, the loop continues from the parent with the middle key |
| Insertion.ClimbSplits | BTree/BTree/BTree.cs:52-67 | a full node with a parent is split and the loop goes on one level up |
| Insertion.InsertIntoEmpty | BTree/BTree/BTree.cs:29-33 | on an empty tree the root becomes a fresh single-key leaf, and the tree is search-ordered and holds exactly `{value}` |
| Insertion.InsertPresent | BTree/BTree/BTree.cs:35-36 | inserting a key that `Contains` reports present changes nothing |
| Insertion.InsertStored | BTree/BTree/BTree.cs:35-36 | on a search-ordered tree, inserting a stored key changes nothing |
| Insertion.InsertWithRoom | BTree/BTree/BTree.cs:38-42 | a found node with fewer than 2t-1 keys gets `value` before its first larger key, its multiset gains exactly `value`, ascending order is kept, and no other node changes |
| Insertion.InsertSplitsRoot | BTree/BTree/BTree.cs:46-49 | inserting into a full parentless leaf root gives a fresh internal root over two leaf halves with `value` on its side |
| Insertion.RebuildLeafRoot | BTree/BTree/BTree.cs:73-92 | `RebuildRoot` on a full leaf root: the new root holds only the middle key above the two halves, and `value` is on the side its comparison picks |
| Insertion.AttachLeaves | BTree/BTree/BTree.cs:82-89 | attaching two leaf halves to the new root gives that grown shape |
| Insertion.InsertSplitsRootOrdered | BTree/BTree/BTree.cs:46-49 | from an ascending full leaf root, the tree grows to a search tree of height 1 that holds exactly the old keys and `value` |
| Insertion.GrownRoot | BTree/BTree/BTree.cs:82-89 | the grown root is a search tree of height 1 holding the old keys and `value` |
| Insertion.SplitStepOnLeaf | BTree/BTree/BTree.cs:52-64 | splitting a full non-root leaf replaces it in its parent by two fresh halves at its position, with `value` added on its side; no other old node changes |
| Insertion.HangOnParent | BTree/BTree/BTree.cs:54-64 | the halves take the node's place among the parent's children, `value` goes to its side, and no other node changes |
| Insertion.InsertSplitsLeaf | BTree/BTree/BTree.cs:52-70 | a full leaf whose parent has room is replaced by two halves, the middle key goes up, the root is kept, and the three nodes together gain exactly `value`; on a tree of height 1 `ShallowInsertion.InsertSplitsLeafOrdered` gives the whole-tree effect |
| Insertion.InsertThroughLeafSplit | BTree/BTree/BTree.cs:44-70 | that case of `Insert` is one split pass followed by `AddKey` of the middle key on the parent |
| Insertion.LeafSplitRecords | BTree/BTree/BTree.cs:52-70 | the records a leaf split and the promoted key leave behind |
| Insertion.SplitLeafKeys | BTree/BTree/BTree.cs:52-64 | the halves and the middle key hold the old keys and `value` |
| Insertion.FirstLeafRoot | BTree/BTree/BTree.cs:29-33 | the first key makes a parentless leaf root of its own |
| Insertion.AppendToLeafRoot | BTree/BTree/BTree.cs:38-42 | a key above every key of a leaf root with room is appended to it |
| Insertion.InsertTwoThree | BTree/BTree/BTree.cs:38-42 | with t = 2, inserting 2 and 3 into the leaf root [1] gives the leaf root [1, 2, 3] |
| Insertion.InsertOneToThree | BTree/BTree/BTree.cs:25-42 | with t = 2, inserting 1, 2 and 3 gives the leaf root [1, 2, 3] |
| Insertion.InsertFourIntoFullRoot | BTree/BTree/BTree.cs:46-49 | with t = 2, inserting 4 into the leaf root [1, 2, 3] gives a root [2] above [1] and [3, 4] |
| Insertion.GrownFromOneToThree | BTree/BTree/BTree.cs:81-89 | the grown root for [1, 2, 3] and 4 has keys [2] and children holding [1] and [3, 4] |
| Insertion.InsertOneToFour | BTree/BTree/BTree.cs:25-92 | with t = 2, inserting 1, 2, 3 and 4 into an empty tree gives a root [2] above the leaves [1] and [3, 4] |
| Removal.RemoveKeyFrom | BTree/BTree/BTree.cs:105 | `node.Keys.Remove(value)` in the arena: that node's keys lose the first `value`; no other node changes |
| Removal.RemoveFrom | BTree/BTree/BTree.cs:94-210 | `Remove` keeps every reference valid and only adds nodes |
| Removal.RemoveFromLeaf | BTree/BTree/BTree.cs:101-170 | the leaf branch keeps every reference valid |
| Removal.Rebalance | BTree/BTree/BTree.cs:112-169 | the choice among borrow, collapse and merge keeps every reference valid |
| Removal.BorrowLeft | BTree/BTree/BTree.cs:112-124 | the borrow from the left adds no node and keeps the root |
| Removal.BorrowRight | BTree/BTree/BTree.cs:125-138 | the borrow from the right adds no node and keeps the root |
| Removal.CollapseRoot | BTree/BTree/BTree.cs:139-143 | the collapse keeps every reference valid |
| Removal.MergeLeft | BTree/BTree/BTree.cs:144-156 | the merge with the left sibling keeps every reference valid; its records and its continuation are stated by `Removal.MergeLeftRecords` |
| Removal.MergeLeftRest | BTree/BTree/BTree.cs:149-154 | the rest of that merge keeps every reference valid; its steps are stated by `Removal.MergeLeftRestCall` |
| Removal.MergeRight | BTree/BTree/BTree.cs:157-169 | the merge with the right sibling keeps every reference valid; its records and its continuation are stated by `Removal.MergeRightRecords` |
| Removal.MergeRightRest | BTree/BTree/BTree.cs:162-168 | the rest of that merge keeps every reference valid; its steps are stated by `Removal.MergeRightRestCall` |
| Removal.MergeRightTail | BTree/BTree/BTree.cs:164-168 | the end of that merge keeps every reference valid; its steps are stated by `Removal.MergeRightRestCall` |
| Removal.DropChild | BTree/BTree/BTree.cs:154 | `Parent.Children.Remove(c)`: a missing or leaf parent throws `NullReference` and changes nothing; otherwise the parent's children lose the first `c` and no other node changes, so nothing changes when `c` is not among them |
| Removal.InternalChoice | BTree/BTree/BTree.cs:173-192 | at the position i of `value` among the keys: key i is replaced by the last key of child i when that child has more than t-1 keys, else by the first key of child i+1 when that one has, and children i and i+1 are merged when both have at most t-1; an empty or missing child read is `IndexOutOfRange` |
| Removal.RemoveFromInternal | BTree/BTree/BTree.cs:171-209 | the internal branch keeps every reference valid; its choice is stated by `Removal.InternalChoice`, and at height 1 its effect by the `ShallowRemoval` lemmas |
| Removal.ReplaceKey | BTree/BTree/BTree.cs:179-181 | the predecessor or successor replacement keeps every reference valid; `ShallowRemoval.ReplaceKeyCall` states that key i becomes the replacement after the nested removal |
| Removal.MergeChildren | BTree/BTree/BTree.cs:190-208 | the merge of two children keeps every reference valid; `ShallowRemoval.MergeChildrenCall` states the step after the merge, `Removal.MergeChildrenRest` the root short-cut and `Removal.PutMerged` the records |
| Removal.MergeChildrenRest | BTree/BTree/BTree.cs:194-207 | when the node is the root with two children, the merged node becomes the parentless root without a fault and no other node changes |
| Removal.PutMerged | BTree/BTree/BTree.cs:201-205 | the merged node gains `value` in order, the node drops it, the merged node overwrites child i and the old child i+1 is removed (with distinct children: the merged node in place of the two); no other node changes |
| Removal.RemoveNotStored | BTree/BTree/BTree.cs:96-99 | removing a key the tree does not store throws `KeyNotFound` and changes nothing |
| Removal.RemoveDirectStep | BTree/BTree/BTree.cs:103-107 | removal from the root leaf or from a leaf above the minimum is a single `Keys.Remove` |
| Removal.RemoveDirect | BTree/BTree/BTree.cs:103-107 | that removal leaves the leaf one key shorter with exactly `value` gone, keeps it ascending, and changes no other node |
| Removal.RemoveFromLeafRoot | BTree/BTree/BTree.cs:103-107 | removing a stored key from a search-ordered leaf root keeps it search-ordered and leaves exactly the other keys |
| Removal.LeafCall | BTree/BTree/BTree.cs:101 | a key held by the leaf that `Find` returns is removed by the leaf branch |
| Removal.RebalanceCall | BTree/BTree/BTree.cs:109-111 | an underflowing leaf is rebalanced at its position among its parent's children |
| Removal.BorrowLeftCall | BTree/BTree/BTree.cs:112 | with a left sibling above the minimum, `Remove` borrows from it |
| Removal.BorrowLeftRecords | BTree/BTree/BTree.cs:112-124 | the borrow changes exactly three nodes: the leaf drops `value` and takes the separator, the separator becomes the sibling's last key, and the sibling drops it |
| Removal.BorrowLeftOrder | BTree/BTree/BTree.cs:116-123 | those three key lists stay ascending and separated and lose exactly `value` |
| Removal.BorrowLeftEffect | BTree/BTree/BTree.cs:112-124 | the borrow from the left: those records, order, separation, and a combined multiset that loses exactly `value` |
| Removal.BorrowRightCall | BTree/BTree/BTree.cs:125-126 | with no left sibling above the minimum and a right one above it, `Remove` borrows from the right |
| Removal.BorrowRightRecords | BTree/BTree/BTree.cs:125-138 | the mirror of the left borrow's records, with the sibling's first key |
| Removal.BorrowRightOrder | BTree/BTree/BTree.cs:130-137 | the mirror of the left borrow's order facts |
| Removal.BorrowRightEffect | BTree/BTree/BTree.cs:125-138 | the borrow from the right: records, order, separation and a combined multiset that loses exactly `value` |
| Removal.MergeLeftChosen | BTree/BTree/BTree.cs:144 | with no sibling above the minimum, a left sibling, and no two-child root as the parent, `Remove` merges with the left sibling |
| Removal.MergeRightChosen | BTree/BTree/BTree.cs:157 | with no sibling above the minimum, the leaf first, and no two-child root as the parent, `Remove` merges with the right sibling |
| Removal.MergeLeftRecords | BTree/BTree/BTree.cs:144-154 | before the nested `Remove`: a fresh leaf holding the sibling's keys, the leaf's keys without `value` and the separator `Keys[i-1]` replaces the leaf at position i, the sibling stays at i-1, the leaf drops `value`, and nothing else changes; then the nested `Remove` of the separator and `Children.Remove(node)` |
| Removal.MergeLeftCall | BTree/BTree/BTree.cs:146-148 | two sibling leaves of one parent with at most 2t keys in all merge, and the branch goes on with the merged node |
| Removal.MergeLeftRestCall | BTree/BTree/BTree.cs:149-154 | the merged node takes the separator and replaces the leaf, then the separator is removed by a nested `Remove` and the parent drops the leaf |
| Removal.MergeRightRecords | BTree/BTree/BTree.cs:157-168 | before the nested `Remove`: a fresh leaf holding the leaf's keys without `value` and the sibling's keys replaces the sibling at position i+1, the leaf stays at i and drops `value`, and nothing else changes; then the nested `Remove` of `Keys[i]`, the merged node takes it, and `Children.Remove(neighbour)` |
| Removal.MergeRightCall | BTree/BTree/BTree.cs:159-161 | the leaf and its right sibling with at most 2t keys in all merge, and the branch goes on with the merged node |
| Removal.MergeRightRestCall | BTree/BTree/BTree.cs:162-168 | the merged node replaces the sibling, the separator is removed by a nested `Remove`, the merged node takes it and the parent drops the sibling |
| Removal.CollapseRootCall | BTree/BTree/BTree.cs:139 | with no sibling above the minimum and the root as a parent of two children, `Remove` collapses the root |
| Removal.CollapseRootEffect | BTree/BTree/BTree.cs:139-143 | collapsing a search-ordered root of height 1 gives a fresh leaf root: the tree is one level lower, still search-ordered, and holds every key but `value` |
| TreeState.FindLeafChild | BTree/BTree/Node.cs:64-73 | on a search tree of height 1, `Find` for a key that is not in the root returns the leaf at the first root key not smaller than it |
| ShallowRemoval.FoundInRoot | BTree/BTree/BTree.cs:173-175 | `Find` stops at the root for a root key, and the scan finds its position |
| ShallowRemoval.LeafChildLosesKey | BTree/BTree/BTree.cs:105 | deleting a key from a leaf below a root of height 1 keeps a search tree of height 1 holding the other keys, and `Find` goes to that leaf for it |
| ShallowRemoval.RemoveFromLeafChild | BTree/BTree/BTree.cs:103-107 | removing a key from a leaf of a tree of height 1 that has more than t-1 keys keeps the tree search-ordered and stores exactly the other keys |
| ShallowRemoval.InternalCall | BTree/BTree/BTree.cs:171 | a key of an internal node that `Find` returns is removed by the internal branch |
| ShallowRemoval.ReplaceKeyCall | BTree/BTree/BTree.cs:179-181 | after a nested `Remove` that succeeds, the replacement writes the key over key i |
| ShallowRemoval.ReplaceStep | BTree/BTree/BTree.cs:177-188 | the replacement branch at the root is the nested `Remove` of the new key followed by that write |
| ShallowRemoval.ReplaceWithLast | BTree/BTree/BTree.cs:179-181 | moving the last key of leaf i over root key i keeps a search tree of height 1 holding the old keys but the old key i |
| ShallowRemoval.ReplaceWithFirst | BTree/BTree/BTree.cs:186-188 | moving the first key of leaf i+1 over root key i keeps a search tree of height 1 holding the old keys but the old key i |
| ShallowRemoval.RemoveByPredecessor | BTree/BTree/BTree.cs:177-181 | removing root key i of a tree of height 1 whose leaf i has more than t-1 keys: key i becomes that leaf's last key, the tree stays search-ordered and stores exactly the other keys |
| ShallowRemoval.RemoveBySuccessor | BTree/BTree/BTree.cs:183-188 | the same with leaf i at the minimum and leaf i+1 above it: key i becomes the first key of leaf i+1 |
| ShallowRemoval.MergeStep | BTree/BTree/BTree.cs:190-192 | when the choice at the root is a merge that succeeds, `Remove` goes on with the merged node |
| ShallowRemoval.MergeAtCall | BTree/BTree/BTree.cs:190-192 | the merge choice runs the merge of children i and i+1 |
| ShallowRemoval.MergeChildrenCall | BTree/BTree/BTree.cs:192 | a merge that succeeds goes on with the merged node |
| ShallowRemoval.MergedLeaves | BTree/BTree/BTree.cs:192-197 | the two leaves of a one-key root of height 1, joined, are ascending and hold every key of the tree but that one |
| ShallowRemoval.RemoveByRootMerge | BTree/BTree/BTree.cs:190-198 | removing the only key of a root of height 1 whose two leaves are at the minimum makes a fresh parentless leaf root; the tree is search-ordered one level lower and stores exactly the other keys |
| ShallowRemoval.Underflowing | BTree/BTree/BTree.cs:101-111 | a key of a leaf below a root of height 1 whose leaf is at the minimum: `Find` returns that leaf, the leaf-branch test fails, and the scan finds the leaf's own position i, which no other child shares |
| ShallowRemoval.BorrowLeftTaken | BTree/BTree/BTree.cs:109-124 | on a tree of height 1, with leaf i at the minimum and leaf i-1 above it, `Remove` is the borrow from the left, and the two leaves are ordered and lie in their gaps |
| ShallowRemoval.BorrowLeftOrdered | BTree/BTree/BTree.cs:112-124 | the borrow from the left under a root of height 1 keeps the root, makes root key i-1 the sibling's last key, keeps the tree search-ordered and stores exactly the other keys |
| ShallowRemoval.BorrowedLeft | BTree/BTree/BTree.cs:116-123 | the records the left borrow leaves keep a search tree of height 1 whose keys lose exactly `value` |
| ShallowRemoval.Borrowed | BTree/BTree/BTree.cs:116-137 | moving a sibling's key up through the separator and the separator down into the neighbouring leaf, in either direction, keeps the children ordered leaves and the keys of the subtree |
| ShallowRemoval.Rotated | BTree/BTree/BTree.cs:120-123 | a rotation through key j that keeps leaves j and j+1 ascending, in their gaps and holding the same keys as before together with the separator keeps the children ordered and the subtree's keys |
| ShallowRemoval.RemoveByBorrowLeft | BTree/BTree/BTree.cs:109-124 | removing a key from a leaf at the minimum of a tree of height 1 whose left sibling has keys to spare: root key i-1 becomes the sibling's last key, the tree stays search-ordered and stores exactly the other keys |
| ShallowRemoval.BorrowRightTaken | BTree/BTree/BTree.cs:109-138 | with leaf i at the minimum, no left sibling above it and leaf i+1 above it, `Remove` is the borrow from the right, and the two leaves are ordered and lie in their gaps |
| ShallowRemoval.BorrowRightOrdered | BTree/BTree/BTree.cs:125-138 | the borrow from the right under a root of height 1 keeps the root, makes root key i the sibling's first key, keeps the tree search-ordered and stores exactly the other keys |
| ShallowRemoval.BorrowedRight | BTree/BTree/BTree.cs:130-137 | the records the right borrow leaves keep a search tree of height 1 whose keys lose exactly `value` |
| ShallowRemoval.RemoveByBorrowRight | BTree/BTree/BTree.cs:109-138 | the mirror for a right sibling with keys to spare: root key i becomes the sibling's first key, the tree stays search-ordered and stores exactly the other keys |
| ShallowInsertion.AbsentInGap | BTree/BTree/BTree.cs:27 | on a search tree of height 1, a key stored nowhere lies strictly inside the gap of the root's keys at its first key not smaller than it, and `Find` returns the leaf below that gap |
| ShallowInsertion.InsertIntoLeafOrdered | BTree/BTree/BTree.cs:38-42 | inserting an absent key whose leaf below a root of height 1 has room: the leaf's keys become the sorted insert, the tree stays search-ordered and stores exactly the old keys and `value` |
| ShallowInsertion.LeafGainsKey | BTree/BTree/BTree.cs:40 | a leaf that gains a key from its own gap and stays ascending keeps the children ordered and adds exactly that key below the node |
| ShallowInsertion.SplitChildAt | BTree/BTree/BTree.cs:44-59 | on a tree of height 1, an absent key whose leaf is full and whose root has room goes through one split of the leaf at its position j among the root's children |
| ShallowInsertion.InsertSplitsLeafOrdered | BTree/BTree/BTree.cs:44-70 | inserting an absent key whose leaf below a root of height 1 is full, with room in the root: the leaf's middle key joins the root's keys, the tree stays search-ordered with height 1 and stores exactly the old keys and `value` |
| ShallowInsertion.SplitAtGap | BTree/BTree/BTree.cs:52-70 | replacing the full leaf j by its two halves, with `value` added to one, and putting the middle key into the parent keeps a search tree of height 1 whose keys gain exactly `value` |
| ShallowInsertion.SplitGapOrdered | BTree/BTree/BTree.cs:58-70 | the middle key goes into the parent at position j, and the children stay ordered leaves |
| ShallowInsertion.SplitGapContent | BTree/BTree/BTree.cs:58-70 | the keys of the subtree after the split are the old ones and `value` |
| ShallowInsertion.SplitUnderOrder | BTree/BTree/BTree.cs:58-59 | two fresh ordered halves in gap j, on either side of the middle key, put at positions j and j+1 keep the children ordered |
| ShallowInsertion.SplitUnderContent | BTree/BTree/BTree.cs:58-59 | the keys of the subtree after the split are the node's keys with the middle key, the untouched leaves and the two halves |
| BTrees.IndexIn | BTree/BTree/BTree.cs:54-56 | the scanning loop returns `IndexOf` |
| BTrees.BTree.constructor | BTree/BTree/BTree.cs:8-11 | a new tree with the given minimum degree and no root |
| BTrees.BTree.AddKeyAt | BTree/BTree/Node.cs:150-156 | `AddKey` on a node leaves the arena `AddKeyTo` describes |
| BTrees.BTree.SetKeyAt | BTree/BTree/BTree.cs:122 | a key write changes that one key |
| BTrees.BTree.SetChildAt | BTree/BTree/BTree.cs:58 | a child write changes that one child |
| BTrees.BTree.RemoveChildAt | BTree/BTree/BTree.cs:205 | `Children.Remove` drops the first occurrence |
| BTrees.BTree.MergeNodesAt | BTree/BTree/Node.cs:107-127 | `Node.Merge` leaves the arena and result `Merge` describes |
| BTrees.BTree.RemoveKeyAt | BTree/BTree/BTree.cs:105 | `Keys.Remove` leaves the arena `RemoveKeyFrom` describes |
| BTrees.BTree.Find | BTree/BTree/BTree.cs:13-16 | returns `FindIn` of the current tree |
| BTrees.BTree.Contains | BTree/BTree/BTree.cs:18-23 | returns `ContainsIn` of the current tree |
| BTrees.BTree.Insert | BTree/BTree/BTree.cs:25-71 | leaves the state and fault `InsertInto` describes |
| BTrees.BTree.SplitLoop | BTree/BTree/BTree.cs:44-70 | leaves the state and fault `Climb` describes |
| BTrees.BTree.SplitPass | BTree/BTree/BTree.cs:52-67 | leaves the arena and result `SplitStep` describes |
| BTrees.BTree.HangPass | BTree/BTree/BTree.cs:54-67 | leaves the arena and result `Hang` describes |
| BTrees.BTree.RebuildRootAt | BTree/BTree/BTree.cs:73-92 | leaves the state and fault `RebuildRoot` describes |
| BTrees.BTree.AttachAt | BTree/BTree/BTree.cs:82-89 | leaves the arena `Attach` describes |
| BTrees.BTree.Remove | BTree/BTree/BTree.cs:94-210 | leaves the state and fault `RemoveFrom` describes |
| BTrees.BTree.RemoveAtLeaf | BTree/BTree/BTree.cs:101-170 | leaves the state and fault `RemoveFromLeaf` describes |
| BTrees.BTree.RebalanceAt | BTree/BTree/BTree.cs:112-169 | leaves the state and fault `Rebalance` describes |
| BTrees.BTree.BorrowLeftAt | BTree/BTree/BTree.cs:112-124 | leaves the state `BorrowLeft` describes; on a tree of height 1 `ShallowRemoval.RemoveByBorrowLeft` states its effect |
| BTrees.BTree.BorrowRightAt | BTree/BTree/BTree.cs:125-138 | leaves the state `BorrowRight` describes; on a tree of height 1 `ShallowRemoval.RemoveByBorrowRight` states its effect |
| BTrees.BTree.CollapseRootAt | BTree/BTree/BTree.cs:139-143 | leaves the state and fault `CollapseRoot` describes |
| BTrees.BTree.MergeLeftAt | BTree/BTree/BTree.cs:144-148 | leaves the state and fault `MergeLeft` describes, whose records and continuation `Removal.MergeLeftRecords` states |
| BTrees.BTree.MergeLeftRestAt | BTree/BTree/BTree.cs:149-154 | leaves the state and fault `MergeLeftRest` describes, which `Removal.MergeLeftRestCall` spells out |
| BTrees.BTree.MergeRightAt | BTree/BTree/BTree.cs:157-161 | leaves the state and fault `MergeRight` describes, whose records and continuation `Removal.MergeRightRecords` states |
| BTrees.BTree.MergeRightRestAt | BTree/BTree/BTree.cs:162-168 | leaves the state and fault `MergeRightRest` describes, which `Removal.MergeRightRestCall` spells out |
| BTrees.BTree.MergeRightTailAt | BTree/BTree/BTree.cs:164-168 | leaves the state and fault `MergeRightTail` describes, the end of the continuation `Removal.MergeRightRestCall` states |
| BTrees.BTree.FinishRightMergeAt | BTree/BTree/BTree.cs:167-168 | the merged node takes the separator, then the parent's `Children.Remove(neighbour)` runs |
| BTrees.BTree.DropChildAt | BTree/BTree/BTree.cs:154 | leaves the state and fault `DropChild` describes |
| BTrees.BTree.RemoveAtInternal | BTree/BTree/BTree.cs:171-209 | leaves the state and fault `RemoveFromInternal` describes, which takes the step `Removal.InternalChoice` states; on a tree of height 1 the `ShallowRemoval` lemmas give the whole-tree effect |
| BTrees.BTree.ReplaceKeyAt | BTree/BTree/BTree.cs:179-181 | leaves the state and fault `ReplaceKey` describes; on a tree of height 1 `ShallowRemoval.RemoveByPredecessor` and `ShallowRemoval.RemoveBySuccessor` state its effect |
| BTrees.BTree.MergeChildrenAt | BTree/BTree/BTree.cs:190-192 | leaves the state and fault `MergeChildren` describes; on a one-key root of height 1 `ShallowRemoval.RemoveByRootMerge` states its effect |
| BTrees.BTree.MergeChildrenRestAt | BTree/BTree/BTree.cs:194-207 | leaves the state and fault `MergeChildrenRest` describes, including the root short-cut that function states |
| BTrees.BTree.PutMergedAt | BTree/BTree/BTree.cs:201-205 | leaves the arena `PutMerged` describes: the merged node takes `value` and the place of the two children, the node drops `value` |

## Left out

- `PrintTree` (BTree.cs:212-229) and `Node.ToString` (Node.cs:158-161) only write to the console or format text.
- `IBTree<T>` is an interface declaration with no behaviour.
- The null check on `value` in `Node.Find` (Node.cs:56) is left out, because model keys are never null.
- List capacity arguments (Node.cs:18, 20, 28, 41-42) are allocation hints with no behaviour.
- Keys are `int`, not a generic `IComparable<T>`. `CompareTo` and `Equals` become `<` and `==`.
- C# `int` overflow of `2 * _amount` is not modelled, and neither is a negative or zero `_amount`. The source does not check `_amount`, and the model takes it as an unbounded integer.
- C# exception types are not distinguished beyond `Fault`.
- Recursion depth is not modelled: the C# stack could overflow where the model runs out of fuel or does not.
- Removal.RemoveFrom: the `fuel` argument bounds the depth of the nested `Remove` calls. When it runs out the result is `NoTermination`, where C# would go on recursing.
- Removal.RemoveFrom: the stored keys and the search order are followed through `Remove` only on trees of height at most 1. At height 1 the `ShallowRemoval` lemmas cover a direct removal from a leaf, the predecessor and successor replacements at the root, and the internal merge that collapses the root. The leaf merges (`MergeLeft`, `MergeRight`) and an internal merge below the root are stated by their node records and by the nested `Remove` they continue with, not by their effect on the whole tree.
- ShallowInsertion.InsertIntoLeafOrdered: requires the root's children to be distinct nodes. The children of a C# node are distinct objects; in the arena, a search tree of height 1 only rules out a repeated leaf that holds keys, and an empty leaf could be listed twice.
- Whole-tree invariants (uniform leaf depth, global ordering, `|children| = |keys| + 1`) and the stored key set are proved only for these cases: insertion into an empty tree, of a present key, and into a full leaf root; removal of a missing key, from a leaf root, from a leaf with keys to spare below a root of height 1, by predecessor or successor at a root of height 1, and the two collapses of a root of height 1 (the leaf-branch collapse and the internal merge). At height 1 they are also proved for an insertion into a leaf with room, for an insertion that splits a full leaf under a root with room, and for a borrow from either side (modules `ShallowInsertion` and `ShallowRemoval`). In taller trees only node-local facts are proved for those operations: the changed nodes stay ascending and separated, and their combined keys gain or lose exactly `value`.
- Node.Split: its own contract says only that the halves exist and that only `Parent` links change. The exact halves are stated by `Node.SplitFullLeaf`, `Node.SplitFullInternal` and `Node.SplitMovesChildren` for a node of 2t-1 keys, the only size the source splits.
- Insertion.InsertInto: no lemma follows a split that cascades above a leaf's parent. The halves of a full internal node can break the capacity bounds (see above), so only the first level of splitting is stated.
