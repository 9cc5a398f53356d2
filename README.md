# DataStructuresLib containers in Dafny

This project models six containers of the `util` C++ header library and
proves what each one promises:

- `ternary_search_tree` (modules `TernarySearchTree`, `TernarySearchTreeOps`,
  with the string-order theory in `LexOrder` and `TrieOrder`): a set of
  strings stored as a trie of heap nodes. Each node has a letter, a parent
  pointer, a word flag and an ordered map of children. The iterator is the
  stack of nodes from the root plus the string it spells.
- `hash_map` (module `HashMap`): separate chaining over a vector of lists,
  with a cached size. Lookup goes through bucket `hash(k) % bucket_count`,
  and iterators walk the buckets in order.
- `two_three_heap` (module `TwoThreeHeap`): a max-heap stored in an array.
  Its branching factor alternates 2, 3, 3, 3 by level, and a table of
  row-start indices drives it.
- `min_stack` (module `MinStack`): a stack whose entries carry the index of
  the minimum at or below them.
- `min_queue` (module `MinQueue`): a FIFO queue built from two `min_stack`s,
  with a lazy transfer between them.
- `BoundedPQueue` (module `BoundedPriorityQueue`): a priority queue of
  bounded size over a multimap sorted by priority.

How the source maps to Dafny:

- Objects that the code updates in place are classes. Their fields are
  reassigned by methods with `modifies` clauses: the trie's nodes and tree,
  the hash map, the heap, both stacks, the queue and the bounded queue.
- Containers the code mutates are `seq` or `map` fields.
- Each method is specified against an abstract value, such as:
  - the set of strings `Contents`;
  - the multiset `multiset(elems)`;
  - the map `Mapping()`;
  - the sequence `Elements()` or `Contents()`.
- Lemmas prove the properties of those abstract values.

## Model

| member | source | states |
|---|---|---|
| TernarySearchTree.Node.constructor | source/ternary_search_tree.h:195-212 | a node starts with the given letter, parent and word flag and no children |
| TernarySearchTree.FirstKey | source/ternary_search_tree.h:390-393 | `map::begin` of a non-empty child map is its smallest letter |
| TernarySearchTree.NextKey | source/ternary_search_tree.h:426-436 | `map::upper_bound(c)` is the least letter above `c`, or none when every letter is at most `c` |
| TernarySearchTree.Tree.constructor | source/ternary_search_tree.h:479-482 | a new tree is valid and holds no string, with size 0 |
| TernarySearchTree.Tree.ChildlessNodesAreWords | source/ternary_search_tree.h:620-623 | under the invariant, every node without children ends a word |
| TernarySearchTree.Tree.RootIffNonEmpty | source/ternary_search_tree.h:620-623 | the root is null exactly when the set is empty |
| TernarySearchTree.Tree.ChildrenAreTrieChildren | source/ternary_search_tree.h:195-212 | a node has a child for letter `c` exactly when `t + [c]` prefixes some member |
| TernarySearchTree.Tree.FirstChildInTrie | source/ternary_search_tree.h:452-461 | a node that is not a word has children, and its first child leads to the least member below it |
| TernarySearchTree.Tree.NextChildInTrie | source/ternary_search_tree.h:426-436 | the next sibling letter starts the next subtree holding members, or no later subtree holds any |
| TernarySearchTree.Tree.ClimbLevel | source/ternary_search_tree.h:402-445 | with no later sibling at a level, no member after `s` lies below the level above |
| TernarySearchTree.Tree.TraceUnique | source/ternary_search_tree.h:323-338 | the node stack of a string is unique |
| TernarySearchTree.Tree.TraceExtend | source/ternary_search_tree.h:390-397 | pushing the child node extends the stack to the longer string |
| TernarySearchTree.Tree.TracePop | source/ternary_search_tree.h:413-420 | popping the top node leaves the stack of the shorter string |
| TernarySearchTree.Tree.EqualsEndIffEnd | source/ternary_search_tree.h:341-344 | iterator `==` with `end()` holds exactly for the end iterator |
| TernarySearchTree.Tree.IteratorEqualsIffSamePosition | source/ternary_search_tree.h:341-344 | two valid iterators compare equal exactly when they name the same position |
| TernarySearchTree.Tree.IteratorEquals | source/ternary_search_tree.h:341-344 | `==` compares the tree and the node stack |
| TernarySearchTree.Tree.Deref | source/ternary_search_tree.h:355-359 | dereferencing yields the string whose node is the top of the stack |
| TernarySearchTree.Tree.IteratorFrom | source/ternary_search_tree.h:323-338 | the iterator built from a node is positioned at that node's string, and from null it is `end()` |
| TernarySearchTree.Tree.TraceTo | source/ternary_search_tree.h:330-331 | walking the parent pointers up builds the node stack of the string |
| TernarySearchTree.Tree.Spell | source/ternary_search_tree.h:336-337 | concatenating the letters below the root spells the string |
| TernarySearchTree.Tree.FirstWordIn | source/ternary_search_tree.h:610-626 | the descent through first children from a node of `t` ends at the least member with prefix `t`; from null it returns null |
| TernarySearchTree.Tree.Begin | source/ternary_search_tree.h:601-605 | `begin()` is `end()` exactly when the set is empty, and otherwise names the least member |
| TernarySearchTree.Tree.Increment | source/ternary_search_tree.h:369-465 | `++` moves to the least member strictly after the current one, or to `end()` when there is none |
| TernarySearchTree.Tree.ClimbToSibling | source/ternary_search_tree.h:402-445 | the climbing loop finds the next subtree that holds a successor, or empties the stack when none exists |
| TernarySearchTree.Tree.DescendToWord | source/ternary_search_tree.h:452-461 | the descending loop stops at the least member below the current node |
| TernarySearchTree.Tree.End | source/ternary_search_tree.h:629-633 | `end()` is the empty stack over this tree |
| TernarySearchTree.Tree.Size | source/ternary_search_tree.h:636-639 | the cached size is the number of members |
| TernarySearchTree.Tree.Empty | source/ternary_search_tree.h:642-645 | `empty()` holds exactly when the set is empty |
| TernarySearchTree.Tree.Find | source/ternary_search_tree.h:570-596 | `find(s)` names `s` when it is a member, and is `end()` otherwise, whether a child is missing or the node is not a word |
| TernarySearchTree.Tree.LowerBound | source/ternary_search_tree.h:776-837 | `lower_bound(s)` is the least member at or above `s`, or `end()` when there is none |
| TernarySearchTree.Tree.WalkDown | source/ternary_search_tree.h:788-798 | the descent follows `s` as far as the trie has it, and the next prefix is in no member |
| TernarySearchTree.Tree.Backtrack | source/ternary_search_tree.h:803-828 | the backtracking loop finds the least member above `s`, or `end()` |
| TernarySearchTree.Tree.FirstAfterSibling | source/ternary_search_tree.h:811-817 | the first word below the successor letter is the least member above `s` |
| TernarySearchTree.Tree.UpperBound | source/ternary_search_tree.h:842-858 | `upper_bound(s)` is the least member strictly above `s`, or `end()` |
| TernarySearchTree.Tree.EqualRange | source/ternary_search_tree.h:861-866 | `equal_range(s)` is the pair of the lower and upper bound, which differ exactly when `s` is a member |
| TernarySearchTree.Tree.AddChild | source/ternary_search_tree.h:538-544 | a fresh childless non-word node is linked under its parent's letter |
| TernarySearchTree.Tree.StepDown | source/ternary_search_tree.h:534-549 | one step of the insert loop follows or creates the child for the next letter |
| TernarySearchTree.Tree.FollowOrGrow | source/ternary_search_tree.h:534-549 | the insert loop reaches the node of `s`, changing nothing when `s` is already a member |
| TernarySearchTree.Tree.MarkWord | source/ternary_search_tree.h:558-562 | setting the flag and incrementing the size adds `s` to the set |
| TernarySearchTree.Tree.MakeRoot | source/ternary_search_tree.h:522-523 | an empty tree gets a fresh root node |
| TernarySearchTree.Tree.Insert | source/ternary_search_tree.h:514-564 | `insert` adds `s` and returns true exactly when `s` was absent; a present `s` changes nothing; the iterator names `s` |
| TernarySearchTree.Tree.DeadLeaf | source/ternary_search_tree.h:701 | a childless non-word node prefixes no member |
| TernarySearchTree.Tree.DetachLeaf | source/ternary_search_tree.h:701-717 | one round of the cleanup loop removes the dead node and keeps the path of its parent |
| TernarySearchTree.Tree.Unhook | source/ternary_search_tree.h:708-711 | the root is cleared, or the node is removed from its parent's child map |
| TernarySearchTree.Tree.UnhookRoot | source/ternary_search_tree.h:708-709 | removing the childless root empties the tree |
| TernarySearchTree.Tree.UnhookChild | source/ternary_search_tree.h:710-711 | erasing the letter from the parent's map drops exactly that node |
| TernarySearchTree.Tree.PathInsideTrie | source/ternary_search_tree.h:701-717 | once the loop stops at a node that must stay, the tree is exactly the trie of the remaining set |
| TernarySearchTree.Tree.PruneStops | source/ternary_search_tree.h:701 | the node where the loop stops has children or ends a word, and the tree is then exactly the trie of the remaining set |
| TernarySearchTree.Tree.UnmarkWord | source/ternary_search_tree.h:680-683 | clearing the flag and decrementing the size removes `s` and leaves its path |
| TernarySearchTree.Tree.PruneFrom | source/ternary_search_tree.h:701-717 | the cleanup loop leaves exactly the nodes that prefix a remaining member, with their flags, and restores the invariant |
| TernarySearchTree.Tree.PruneStep | source/ternary_search_tree.h:708-716 | one round detaches the dead node and moves to its parent, which is null after the root |
| TernarySearchTree.Tree.RemoveWord | source/ternary_search_tree.h:680-717 | unflagging and pruning removes exactly `s` and keeps the tree valid |
| TernarySearchTree.Tree.EraseAt | source/ternary_search_tree.h:666-721 | `erase(iterator)` removes the member and returns its successor in the old set, or `end()`; every surviving node is the one it was, so every iterator to another member stays valid |
| TernarySearchTree.Tree.Erase | source/ternary_search_tree.h:650-661 | `erase(key)` removes `key` and returns true exactly when it was a member, otherwise the set, nodes and node map stay as they were; all iterators to other members stay valid |
| TernarySearchTree.Tree.IteratorSurvives | source/ternary_search_tree.h:74-77 | an iterator at a member that is still stored stays valid when every remaining node is the one it was |
| TernarySearchTree.Tree.Swap | source/ternary_search_tree.h:765-769 | `swap` exchanges the two sets and their nodes |
| TernarySearchTree.Tree.Take | source/ternary_search_tree.h:767-768 | installing a root, size and node map makes a valid tree of that set |
| TernarySearchTreeOps.Members | source/ternary_search_tree.h:369-465 | iterating from `begin()` to `end()` lists the members in strictly increasing order, each once |
| TernarySearchTreeOps.BeginAtZero | source/ternary_search_tree.h:601-605 | `begin()` stands at index 0 of the sorted members |
| TernarySearchTreeOps.IncrementAtNext | source/ternary_search_tree.h:369-465 | `++` moves from index `k` of the sorted members to index `k + 1` |
| TernarySearchTreeOps.FromSeq | source/ternary_search_tree.h:514-564 | inserting a sequence of strings builds the set of its elements |
| TernarySearchTreeOps.Clone | source/ternary_search_tree.h:724-753 | the copy is a fresh tree with the same set |
| TernarySearchTreeOps.Assign | source/ternary_search_tree.h:756-762 | assignment gives the left tree the right tree's set in fresh nodes |
| TernarySearchTreeOps.SortedMembersInjective | source/ternary_search_tree.h:875-880 | two sets have equal member sequences exactly when they are equal |
| TernarySearchTreeOps.CompareTrichotomy | source/ternary_search_tree.h:869-874 | the lexicographic order on member sequences is a strict total order |
| TernarySearchTreeOps.First | source/ternary_search_tree.h:601-605 | `begin()` stands at index 0 of the sorted members |
| TernarySearchTreeOps.Advance | source/ternary_search_tree.h:369-465 | `++` moves from index `k` to index `k + 1` |
| TernarySearchTreeOps.AtEnd | source/ternary_search_tree.h:341-349 | comparing with `end()` tells whether all members have been visited |
| TernarySearchTreeOps.CompareStep | source/ternary_search_tree.h:869-874 | one step of `lexicographical_compare` decides, or moves both iterators on without changing the answer |
| TernarySearchTreeOps.Less | source/ternary_search_tree.h:869-874 | `<` is the lexicographic order of the member sequences |
| TernarySearchTreeOps.EqualStep | source/ternary_search_tree.h:875-880 | one step of `std::equal` extends the common prefix or reports a difference |
| TernarySearchTreeOps.Equal | source/ternary_search_tree.h:875-880 | `==` holds exactly when the sets are equal |
| TernarySearchTreeOps.LessEq | source/ternary_search_tree.h:883-888 | `<=` is "equal or less" |
| TernarySearchTreeOps.NotEqual | source/ternary_search_tree.h:889-893 | `!=` negates set equality |
| TernarySearchTreeOps.GreaterEq | source/ternary_search_tree.h:894-899 | `>=` is "equal or greater" |
| TernarySearchTreeOps.Greater | source/ternary_search_tree.h:900-906 | `>` is the reversed lexicographic order |
| LexOrder.LtIrreflexive | source/ternary_search_tree.h:869-874 | no string is below itself in the string order |
| LexOrder.LtTransitive | source/ternary_search_tree.h:869-874 | the string order is transitive |
| LexOrder.LtTotal | source/ternary_search_tree.h:869-874 | any two different strings are ordered |
| LexOrder.LeastExists | source/ternary_search_tree.h:601-605 | a non-empty set of strings has a least member |
| LexOrder.LeastCharExists | source/ternary_search_tree.h:390-393 | a non-empty set of letters has a smallest letter |
| LexOrder.SeqLtTrichotomy | source/ternary_search_tree.h:869-874 | the lexicographic order on string sequences is a strict total order |
| TrieOrder.PrefixOfSomeClosed | source/ternary_search_tree.h:701-717 | a prefix of a prefix of a member is a prefix of a member |
| TrieOrder.SuccessorBelow | source/ternary_search_tree.h:390-397 | the successor of a word that has children is the least member below its first child |
| TrieOrder.LeastAfterUnique | source/ternary_search_tree.h:776-858 | the least member after a string is unique |
| HashMap.StringHash | source/hash_map.h:259-267 | `hash<std::string>` is a `size_t`, below 2^64, and equals the plain byte sum while that sum fits |
| HashMap.HashString | source/hash_map.h:259-267 | the string hash loop computes the sum of the byte codes modulo 2^64 |
| HashMap.WrapAdd | source/hash_map.h:263-265 | adding to a wrapped `size_t` sum agrees with wrapping the full sum |
| HashMap.ByteSumAppend | source/hash_map.h:259-267 | the byte sum of a concatenation is the sum of the parts |
| HashMap.ByteSumPermutation | source/hash_map.h:259-267 | reordering the bytes leaves the byte sum unchanged |
| HashMap.AnagramsCollide | source/hash_map.h:259-267 | strings with the same bytes in any order hash alike |
| HashMap.FindIn | source/hash_map.h:541-542 | `find_if` returns the first position holding the key, or the end of the list |
| HashMap.FindInUnique | source/hash_map.h:541-542 | a position holding the key with no earlier occurrence is the one `find_if` returns |
| HashMap.BucketOf | source/hash_map.h:538 | the bucket of a key is `hash(k) % bucket_count`, a valid index |
| HashMap.KeyInBucket | source/hash_map.h:538-545 | a key is stored exactly when the search of its bucket finds it |
| HashMap.StoredIsFound | source/hash_map.h:538-545 | a stored pair lies in its key's bucket and is the only pair there with that key |
| HashMap.MappingDomain | source/hash_map.h:538-545 | the abstract map's domain is the set of stored keys |
| HashMap.EmptyWellFormed | source/hash_map.h:473-480 | buckets that are all empty satisfy the invariant with size 0 and no keys |
| HashMap.FlattenAt | source/hash_map.h:347-371 | the pair an iterator names sits at the iterator's rank in the iteration order |
| HashMap.RankEnd | source/hash_map.h:773-780 | `end()` ranks after every pair |
| HashMap.RankInjective | source/hash_map.h:329-337 | two iterators of the same rank are the same position |
| HashMap.PositionOf | source/hash_map.h:347-398 | every rank below the size is the rank of some stored pair |
| HashMap.EraseShift | source/hash_map.h:668-680 | erasing a pair keeps every later iterator valid and lowers its rank by one |
| HashMap.EraseFlatten | source/hash_map.h:676 | erasing a pair removes exactly that pair from the iteration order |
| HashMap.AppendWellFormed | source/hash_map.h:616-623 | appending a pair with an absent key keeps the invariant with one more pair |
| HashMap.AppendValue | source/hash_map.h:616-623 | after the append, the new key maps to its value and every other key keeps its value |
| HashMap.EraseWellFormed | source/hash_map.h:656-661 | erasing a stored pair keeps the invariant with one pair fewer |
| HashMap.EraseValue | source/hash_map.h:656-661 | after the erasure, the erased key is absent and every other key keeps its value |
| HashMap.ChainErase | source/hash_map.h:659 | removing a position from a list whose key occurs only there hides that key and keeps every other lookup |
| HashMap.AppendMapping | source/hash_map.h:611-625 | appending adds exactly the new key to the map |
| HashMap.EraseMapping | source/hash_map.h:651-680 | erasing removes exactly the erased key from the map |
| HashMap.IterationKeysDistinct | source/hash_map.h:347-371 | the iteration order lists every stored key exactly once |
| HashMap.EmptyIffNoKeys | source/hash_map.h:704-708 | the iteration order is empty exactly when no key is stored |
| HashMap.RankAtMost | source/hash_map.h:347-398 | an iterator names a pair exactly when its rank is below the size |
| HashMap.RankStrict | source/hash_map.h:684-690 | in a range, an iterator before `last` names a pair |
| HashMap.EraseRangeStep | source/hash_map.h:684-690 | one erasure in the range loop keeps `last` valid, lowers its rank and removes the next pair of the range |
| HashMap.PutAllKeys | source/hash_map.h:635-643 | inserting a sequence adds exactly its keys and keeps the existing values |
| HashMap.PutAllFirst | source/hash_map.h:635-643 | a new key takes the value of its first occurrence in the sequence |
| HashMap.HashMap.Mapping | source/hash_map.h:533-546 | the abstract map has exactly the stored keys |
| HashMap.HashMap.constructor | source/hash_map.h:473-480 | a map made with a positive bucket count has that many empty buckets, size 0 and no keys |
| HashMap.NewDefault | source/hash_map.h:153 | a map made without a bucket count is valid and empty with 101 buckets |
| HashMap.New | source/hash_map.h:473-480 | zero buckets is an `invalid_argument` failure; otherwise the map is valid and empty |
| HashMap.NewFrom | source/hash_map.h:482-497 | the range constructor fails on zero buckets and otherwise inserts the sequence |
| HashMap.HashMap.Size | source/hash_map.h:710-715 | the cached size is the number of pairs in all buckets |
| HashMap.HashMap.Empty | source/hash_map.h:704-708 | `empty()` holds exactly when no key is stored |
| HashMap.HashMap.BucketCount | source/hash_map.h:813-818 | `bucket_count()` is the number of buckets, which is positive |
| HashMap.HashMap.BucketSize | source/hash_map.h:834-839 | `bucket_size(n)` is the length of bucket `n`, at most the size |
| HashMap.HashMap.Bucket | source/hash_map.h:827-832 | `bucket(k)` is `hash(k) % bucket_count()` for every key, where `k` lives when stored, and every pair there hashes to it |
| HashMap.HashMap.End | source/hash_map.h:773-780 | `end()` is the end of the last bucket, which names no pair and ranks after all pairs |
| HashMap.HashMap.FindElement | source/hash_map.h:533-546 | the lookup returns bucket `hash(k) % bucket_count` and a position that holds `(k, value)` exactly when `k` is stored |
| HashMap.HashMap.Find | source/hash_map.h:548-567 | `find(k)` names the pair of `k` when stored, and is `end()` exactly when `k` is absent |
| HashMap.HashMap.Count | source/hash_map.h:587-598 | `count(k)` is 1 when `k` is stored and 0 otherwise |
| HashMap.HashMap.EqualRange | source/hash_map.h:569-585 | `equal_range(k)` is `(find(k), find(k))` |
| HashMap.HashMap.Begin | source/hash_map.h:738-764 | `begin()` has rank 0, so it is the first pair of the first non-empty bucket, and it is `end()` exactly when the size is 0 |
| HashMap.HashMap.Increment | source/hash_map.h:347-371 | `++` moves to the next rank: along the bucket, then to the next non-empty bucket, else to `end()` |
| HashMap.HashMap.Decrement | source/hash_map.h:375-398 | `--` moves to the previous rank, and from rank 0 it yields `end()` |
| HashMap.HashMap.Insert | source/hash_map.h:611-625 | a present key changes nothing and returns false; an absent one is appended to its bucket, size grows by one; the iterator names the key's pair |
| HashMap.HashMap.InsertHint | source/hash_map.h:627-633 | the hint is ignored; the map gains the pair only when its key is absent |
| HashMap.HashMap.InsertRange | source/hash_map.h:635-649 | inserting a sequence puts each pair in order, the first occurrence of a key winning |
| HashMap.HashMap.Get | source/hash_map.h:600-609 | `operator[]` returns the stored value, inserting `(k, T())` first when `k` is absent |
| HashMap.OverwriteMapping | source/hash_map.h:600-609 | writing a value through the reference keeps the invariant, the size and the keys, and changes only that key's value |
| HashMap.HashMap.Set | source/hash_map.h:600-609 | `m[k] = v` maps `k` to `v` and leaves every other key as it was; the size grows by one exactly when `k` was absent |
| HashMap.HashMap.EraseKey | source/hash_map.h:651-666 | `erase(k)` removes only that pair and returns 1, or returns 0 and changes nothing |
| HashMap.HashMap.EraseAt | source/hash_map.h:668-680 | `erase(iterator)` removes exactly that pair from the iteration order and returns the iterator to the next pair |
| HashMap.HashMap.EraseRange | source/hash_map.h:682-692 | `erase(first, last)` removes exactly the pairs ranked between them and returns `last`, now at the rank of `first` |
| HashMap.HashMap.EraseRound | source/hash_map.h:687-689 | one round of the range loop erases the next pair and keeps `last` valid |
| HashMap.HashMap.Clear | source/hash_map.h:694-702 | `clear()` empties every bucket, keeps the bucket count and sets the size to 0 |
| HashMap.HashMap.Swap | source/hash_map.h:727-736 | `swap` exchanges the buckets, sizes and hash functions |
| HashMap.HashMap.Assign | source/hash_map.h:499-520 | assignment copies the buckets, size and hash of the right-hand side |
| HashMap.HashMap.AssignList | source/hash_map.h:522-531 | assigning a list rebuilds the map from it with the same bucket count |
| TwoThreeHeap.RowTable | source/two_three_heap.h:97-108 | the literal row-start table agrees with the row widths of branching factors 2, 3, 3, 3 |
| TwoThreeHeap.RowValues | source/two_three_heap.h:97-108 | the computed row starts are the table's 23 literals |
| TwoThreeHeap.TableEntry | source/two_three_heap.h:97-108 | each table entry is the computed row start |
| TwoThreeHeap.BranchingFactorForLevel | source/two_three_heap.h:120-128 | a row branches in two when its level is a multiple of four, and in three otherwise |
| TwoThreeHeap.RowStart | source/two_three_heap.h:97-108 | the start of row `l` stands for `kRowIndices[l]`, and it is at least `l` |
| TwoThreeHeap.ParentIndex | source/two_three_heap.h:136-152 | `ParentIndex` has no contract of its own: `TwoThreeHeap.Parent` states that its value precedes the index, and `TwoThreeHeap.ParentTile` that it lies in the row above and its children range holds the index |
| TwoThreeHeap.ChildrenOf | source/two_three_heap.h:162-183 | the children range starts in the next row, after the index, and has `BranchingFactorForLevel(level)` entries |
| TwoThreeHeap.RowWidth | source/two_three_heap.h:97-108 | every row is non-empty |
| TwoThreeHeap.RowsMonotone | source/two_three_heap.h:97-108 | row starts strictly increase |
| TwoThreeHeap.RowUnique | source/two_three_heap.h:97-108 | an index lies in at most one row |
| TwoThreeHeap.RowExists | source/two_three_heap.h:97-113 | every index up to `kMaxSize` lies in some row |
| TwoThreeHeap.RowReachable | source/two_three_heap.h:113 | a row starting at or below `kMaxSize` is one of the table's rows |
| TwoThreeHeap.ChildTile | source/two_three_heap.h:162-183 | the `ChildrenOf` range has `BranchingFactorForLevel` entries, all in the next row, and `ParentIndex` maps each back |
| TwoThreeHeap.ParentTile | source/two_three_heap.h:136-152 | the parent of an index lies in the row above, and its `ChildrenOf` range holds the index |
| TwoThreeHeap.Parent | source/two_three_heap.h:136-152 | the parent of an index precedes it and is `ParentIndex` at the index's own row |
| TwoThreeHeap.ChildOfParent | source/two_three_heap.h:162-183 | every child of `k` lies in `ChildrenOf(k)` |
| TwoThreeHeap.NoChildren | source/two_three_heap.h:300-301 | a node whose first child is past the end has no children |
| TwoThreeHeap.LargestChild | source/two_three_heap.h:304-309 | `max_element` over the clipped children range picks the largest child |
| TwoThreeHeap.MaxElement | source/two_three_heap.h:307-309 | `max_element` returns the first maximum of the range |
| TwoThreeHeap.LeafLevelAfterPush | source/two_three_heap.h:240-242 | after `push_back` the leaf level is the row of the new last index |
| TwoThreeHeap.LeafLevelAfterPop | source/two_three_heap.h:288-289 | after `pop_back` the leaf level is the row of the new last index |
| TwoThreeHeap.Swapped | source/two_three_heap.h:256 | `std::swap` of two slots exchanges them, keeps the rest and keeps the multiset |
| TwoThreeHeap.TopIsMax | source/two_three_heap.h:216-222 | in a heap no element exceeds the root |
| TwoThreeHeap.SiftUpStep | source/two_three_heap.h:252-258 | swapping a larger child with its parent moves the one violation up |
| TwoThreeHeap.SiftDownStep | source/two_three_heap.h:312-317 | swapping a node with its largest child moves the one violation down |
| TwoThreeHeap.SiftDownDone | source/two_three_heap.h:312-313 | when no child exceeds the node, the heap order holds |
| TwoThreeHeap.SiftDownAt | source/two_three_heap.h:297-317 | one round of the sift-down loop either finishes with a heap or swaps with the largest child |
| TwoThreeHeap.RootToLast | source/two_three_heap.h:273-274 | moving the last element to the root removes one copy of the maximum, with the one violation at the root |
| TwoThreeHeap.TwoThreeHeap.constructor | source/two_three_heap.h:189-193 | a new heap is empty with leaf level -1 |
| TwoThreeHeap.TwoThreeHeap.Size | source/two_three_heap.h:207-210 | `size()` is the number of elements |
| TwoThreeHeap.TwoThreeHeap.Empty | source/two_three_heap.h:211-214 | `empty()` holds exactly when there are no elements |
| TwoThreeHeap.TwoThreeHeap.MaxSizeOf | source/two_three_heap.h:199-202 | `max_size()` is `kMaxSize` |
| TwoThreeHeap.TwoThreeHeap.Top | source/two_three_heap.h:219-222 | `top()` is an element no smaller than any other |
| TwoThreeHeap.TwoThreeHeap.Push | source/two_three_heap.h:227-260 | a full heap fails with `length_error` and stays unchanged; otherwise the value joins the multiset and the heap stays valid |
| TwoThreeHeap.TwoThreeHeap.GrowLeaf | source/two_three_heap.h:240-242 | `push_back` appends the value and updates the leaf level |
| TwoThreeHeap.TwoThreeHeap.SiftUp | source/two_three_heap.h:247-259 | the sift-up loop restores the heap order and keeps the multiset |
| TwoThreeHeap.TwoThreeHeap.Pop | source/two_three_heap.h:266-319 | `pop` removes one copy of a maximum and keeps the heap valid |
| TwoThreeHeap.TwoThreeHeap.ShrinkLeaf | source/two_three_heap.h:273-289 | swapping root and last, dropping the last and fixing the leaf level removes the maximum, with -1 when empty |
| TwoThreeHeap.TwoThreeHeap.SiftDown | source/two_three_heap.h:292-318 | the sift-down loop restores the heap order and keeps the multiset |
| TwoThreeHeap.TwoThreeHeap.TopIsMaxAll | source/two_three_heap.h:219-222 | the front of a valid heap is a maximum |
| MinStack.EldestMinUnique | source/min_stack.h:80-83 | a range has one eldest minimum |
| MinStack.EldestMinOfPrefix | source/min_stack.h:80-83 | the eldest minimum of a prefix ignores what lies above |
| MinStack.EldestMinExtend | source/min_stack.h:136-142 | pushing a value moves the eldest minimum to the top exactly when the value is strictly smaller |
| MinStack.ValidCanonical | source/min_stack.h:80-83 | valid entries are determined by their values |
| MinStack.EntryValidPrefix | source/min_stack.h:80-83 | the validity of an entry depends only on the entries up to it |
| MinStack.ValidPrefix | source/min_stack.h:152-155 | removing top entries keeps the rest valid |
| MinStack.ValidSnoc | source/min_stack.h:129-146 | an entry naming the eldest minimum of all values keeps the stack valid |
| MinStack.MinStack.constructor | source/min_stack.h:92-96 | a new stack is empty |
| MinStack.MinStack.Size | source/min_stack.h:99-102 | `size()` is the number of values |
| MinStack.MinStack.Empty | source/min_stack.h:103-106 | `empty()` holds exactly when there are no values |
| MinStack.MinStack.Top | source/min_stack.h:109-112 | `top()` is the last pushed value |
| MinStack.MinStack.Min | source/min_stack.h:116-119 | `min()` is a stored value no larger than any, and it is the eldest such value |
| MinStack.MinStack.Push | source/min_stack.h:124-147 | `push` appends the value, keeps every entry below untouched and keeps the stack valid |
| MinStack.MinStack.Pop | source/min_stack.h:152-155 | `pop` removes exactly the top entry |
| MinQueue.Reverse | source/min_queue.h:174-177 | the transfer loop reverses: position `i` receives the element from the other end |
| MinQueue.ReverseElems | source/min_queue.h:174-177 | reversal keeps the same elements |
| MinQueue.ReverseSnoc | source/min_queue.h:174-177 | reversing after an append puts the new element first |
| MinQueue.ReverseTwice | source/min_queue.h:174-177 | reversing twice gives back the sequence |
| MinQueue.MinQueue.constructor | source/min_queue.h:96-100 | a new queue is empty |
| MinQueue.MinQueue.Size | source/min_queue.h:105-108 | `size()` is the sum of the two stacks' sizes, the queue's length |
| MinQueue.MinQueue.Empty | source/min_queue.h:109-112 | `empty()` holds exactly when both stacks are empty |
| MinQueue.MinQueue.Min | source/min_queue.h:141-161 | `min()` is a queued element no larger than any |
| MinQueue.MinQueue.MoveIfNecessary | source/min_queue.h:166-178 | with a non-empty old stack nothing changes; otherwise the new stack moves over reversed; the queue order is kept |
| MinQueue.MinQueue.Front | source/min_queue.h:117-121 | `front()` is the eldest queued element, and the queue is unchanged |
| MinQueue.MinQueue.Dequeue | source/min_queue.h:126-130 | `dequeue()` removes exactly the eldest element |
| MinQueue.MinQueue.Enqueue | source/min_queue.h:133-136 | `enqueue` appends the element at the back |
| BoundedPriorityQueue.Insert | source/bounded_pq.h:104 | `multimap::insert` puts the new entry at the upper bound of its priority, entries before it in place and entries after it one slot later |
| BoundedPriorityQueue.UpperBound | source/bounded_pq.h:104 | the insertion point follows every entry of equal or smaller priority |
| BoundedPriorityQueue.InsertSpec | source/bounded_pq.h:104 | multimap insertion keeps the order, adds exactly the new entry and places it after its equals |
| BoundedPriorityQueue.InsertAtEnd | source/bounded_pq.h:104 | an entry no smaller than the last goes at the end |
| BoundedPriorityQueue.LastIsWorst | source/bounded_pq.h:107-110 | the last entry has a largest priority |
| BoundedPriorityQueue.BoundedPQueue.constructor | source/bounded_pq.h:88-92 | a new queue is empty with the given bound |
| BoundedPriorityQueue.BoundedPQueue.Size | source/bounded_pq.h:129-132 | `size()` is the number of entries |
| BoundedPriorityQueue.BoundedPQueue.Empty | source/bounded_pq.h:133-136 | `empty()` holds exactly when there are no entries |
| BoundedPriorityQueue.BoundedPQueue.MaxSize | source/bounded_pq.h:139-142 | `maxSize()` is the constructor argument |
| BoundedPriorityQueue.BoundedPQueue.Best | source/bounded_pq.h:147-151 | `best()` is +infinity when empty, else the smallest stored priority |
| BoundedPriorityQueue.BoundedPQueue.Worst | source/bounded_pq.h:152-156 | `worst()` is +infinity when empty, else the largest stored priority |
| BoundedPriorityQueue.BoundedPQueue.Enqueue | source/bounded_pq.h:97-112 | a full queue ignores a priority strictly worse than the worst; otherwise the entry is inserted after its equals and an overflow drops the last entry; the bound is kept |
| BoundedPriorityQueue.BoundedPQueue.DequeueMin | source/bounded_pq.h:117-126 | `dequeueMin` returns the element of the first entry, which has the smallest priority, and removes exactly that entry |

## Left out

Each line names what the model does not cover and why.

- Memory management: `new`, `delete`, `deleteTree` and the destructors. Dafny's heap is garbage-collected, so node lifetimes after pruning are not modelled.
- Allocation failure: the trie's `insert` leaves a null child entry when `new` throws. Exceptions other than the two explicit errors (`invalid_argument`, `length_error`) are not modelled.
- Character traits: the child maps order letters by their `char` code, as `std::char_traits<char>::lt` does for the default traits. Other `Traits` are not modelled.
- Comparators: elements of the heap, the stacks and the queue are integers compared with `<`, which stands for the `Comparator` parameter.
- Priorities: `BoundedPQueue` priorities are integers, with +infinity as an explicit `Infinity` value for `best`/`worst`. Floating-point NaN and the multimap's `Comparator` applied to `double` keys are not modelled.
- Container-size limits: `max_size` and `max_bucket_count` of `hash_map` depend on the standard library.
- TwoThreeHeap.TwoThreeHeap.MaxSizeOf: returns `kMaxSize`; `min(vector::max_size(), kMaxSize)` is not modelled because the vector's limit depends on the library.
- The generic hash: `hash<T>` sums the bytes of the object representation through `reinterpret_cast`, which depends on memory layout. The map takes its hash as a function parameter `K -> nat`. Only `hash<std::string>` is modelled concretely, on strings of bytes.
- `KeyEqual`: keys are compared with `==`. The `key_eq()` and `hash_function()` getters are not modelled.
- Duplicated interfaces: the const and non-const pairs of iterators and methods, `->`, postfix `++`/`--`, `cbegin`/`cend` and the local-iterator accessors (`begin(n)`, `end(n)` and their const forms).
- List iterators: a hash-map iterator is a (bucket, position) pair, and a trie iterator is its node stack and string. An iterator that `erase(iterator)` keeps is moved down one place when it sits later in the same bucket, since a list iterator follows its node. Iterators into a tree after `swap` are not modelled.
- HashMap.HashMap.Begin: the fallback `return end()` after the bucket loop is not modelled; the invariant makes it unreachable, since a positive size means some bucket holds a pair.
- HashMap.HashMap.constructor: requires a positive bucket count. The `invalid_argument` path is the `Failure(InvalidArgument)` result of `HashMap.New` and `HashMap.NewFrom`.
- HashMap.HashMap.Assign: copy assignment is modelled as copying the buckets, size and hash. The self-assignment test and copy-and-swap have no separate effect on values. Move assignment is `Swap`.
- TernarySearchTreeOps.Clone: the copy constructor clones the nodes recursively (`cloneTree`). The model builds the copy by inserting the members in order, so the new tree holds the same set in fresh nodes with the same shape, because a trie's shape is fixed by its set.
- TwoThreeHeap.ParentIndex and TwoThreeHeap.ChildrenOf: the product `rowIndex * branchingFactor` and the quotient `rowIndex / branchingFactor` are written out for each branching factor. The values are the same; this keeps the arithmetic linear.
- TwoThreeHeap.RowStart: the row-start table is computed from the row widths. TwoThreeHeap.RowTable proves it equal to the literal `kRowIndices`.
- TwoThreeHeap: the element vector is a `seq` field updated by whole-value swaps (TwoThreeHeap.Swapped), not an `array`. There is no aliasing to model.
- MinQueue.MinQueue.Min: proved to return a minimal element only. The header promises the eldest of tied minima (min_queue.h:61-62), which the code does not deliver in two ways. When both stacks' minima are equal, `min()` returns the new stack's, the younger one (min_queue.h:148). Within the old stack alone, the transfer pushes the youngest element first (min_queue.h:174-175) and `min_stack` keeps the first pushed of equal values, so after enqueue 1, enqueue 1 and `front()`, `min()` refers to the second 1.
- The containers `splay_tree`, `treap`, `van_emde_boas_tree` and `BinomialHeap` are outside this model. The remaining test files only check that a new container has size 0, which the constructors' contracts state.
- HashMap.HashMap.Get: returns the value, not a reference. A write through the reference is the separate method `HashMap.HashMap.Set`; holding the reference across other operations is not modelled.
