# bintrees: the shared ordered-map layer

This project models `bintrees/abctree.py`, the layer that every concrete
tree of the `bintrees` package (BinaryTree, AVLTree and RBTree) inherits.
A tree object holds a root node and a node count. Each node holds a key, a
value and two children. On this shape the layer builds several groups of
operations:

- the navigating searches: `get_value`, `min_item`/`max_item`,
  `succ_item`/`prev_item` through `_next_item`, and `floor_item`/`ceiling_item`;
- the stack-driven in-order walk `_iter_items` in either direction, with a
  half-open `[start_key, end_key)` filter, and the key, value and slice views
  built on it;
- the derived map operations, which go through `insert`, `remove` and
  `get_value`:
  - `__contains__`, `get`, `discard`, `pop` and `set_default`;
  - `pop_min`, `pop_max` and `pop_item`;
  - `nsmallest`, `nlargest` and `remove_items`;
  - `update`, `from_keys` and `copy`;
- the set algebra over key sets:
  - `intersection`, `union`, `difference` and `symmetric_difference`;
  - `is_subset`, `is_superset` and `is_disjoint`;
  - the helpers `_build_sets` and `_multi_tree_get`.

The model is laid out in these files:

- `nodes.dfy`:
  - Nodes are the datatype `Tree<V>`, and keys are integers.
  - `Bst` is the search-tree order.
  - `ToMap` gives the key->value map a tree denotes, and `Walk` its in-order
    item sequence.
  - A `Direction` (Forward/Backward) stands for the pair of child selectors and
    the comparison (`lt`/`gt`) that the source passes around.
- `node_store.dfy`: `insert`, `remove` and `clear` belong to the concrete trees,
  so an unbalanced search-tree insertion and deletion stands in for them. The
  layer only relies on their map-level contracts.
- `search.dfy`: the descents as recursive specification functions, each
  characterised on the map.
- `ranges.dfy`: the key window and the explicit stack of the non-recursive walk.
- `traversal.dfy`: `foreach` as the sequence of items the callback receives.
- `key_sets.dfy`: the frozenset algebra, the first-holder lookup of
  `_multi_tree_get`, and the map left behind by a run of insertions.
- `abctree.dfy`:
  - The class `ABCTree<V>` has the fields `root` and `count`, with
    `Valid() = Bst(root) && count == Size(root)` and `Map() = ToMap(root)`.
  - The source's loops are methods with loop invariants, proved against the
    specification functions above.
  - A Python exception is the `Err` case of a `Result`. `KeyError`,
    `ValueError`, `TypeError` and `AttributeError` are kept apart.

## Model

| member | source | states |
|---|---|---|
| AbcTree.ABCTree.constructor | bintrees/abctree.py:329-338 | a new tree is valid and holds the empty map (the `cls()` that `from_keys` and the set operations start from) |
| AbcTree.ABCTree.Insert | bintrees/abctree.py:252-256 | `T[k] = v` (`insert`): the map becomes `old[k := v]`, and the search-tree order and the count stay correct |
| AbcTree.ABCTree.Remove | bintrees/abctree.py:258-263 | `del T[k]` (`remove`): succeeds exactly when `k` was bound and then the map loses exactly `k`; otherwise `KeyError` and nothing changes |
| AbcTree.ABCTree.Clear | bintrees/abctree.py:38-39 | `clear()` leaves a valid empty tree |
| AbcTree.ABCTree.Len | bintrees/abctree.py:179-181 | the node count is the number of keys of the map |
| AbcTree.ABCTree.IsEmpty | bintrees/abctree.py:217-219 | `count == 0` exactly when the map is empty |
| AbcTree.ABCTree.GetValue | bintrees/abctree.py:535-544 | succeeds exactly when the key is bound and returns its value; otherwise `KeyError` |
| AbcTree.ABCTree.Contains | bintrees/abctree.py:171-177 | true exactly when the key is bound |
| AbcTree.ABCTree.Get | bintrees/abctree.py:341-346 | the bound value, or `default` when the key is absent |
| AbcTree.ABCTree.Discard | bintrees/abctree.py:207-212 | the map loses the key whether or not it was bound; no error |
| AbcTree.ABCTree.Pop | bintrees/abctree.py:348-362 | `TypeError` with more than one default; a bound key is removed and its value returned; an absent key gives the default, or `KeyError` without one, and leaves the map unchanged |
| AbcTree.ABCTree.SetDefault | bintrees/abctree.py:309-315 | returns the bound value and changes nothing, or binds and returns `default` |
| AbcTree.ABCTree.MinItem | bintrees/abctree.py:586-593 | `ValueError` exactly on an empty tree; otherwise the binding of the least key, which is the first item of the ascending walk |
| AbcTree.ABCTree.MaxItem | bintrees/abctree.py:595-602 | `ValueError` exactly on an empty tree; otherwise the binding of the greatest key, which is the first item of the descending walk |
| AbcTree.ABCTree.NextItem | bintrees/abctree.py:604-631 | succeeds exactly when the key is bound and some key lies after it in the direction; the result is the binding of the nearest such key; otherwise `KeyError` |
| AbcTree.ABCTree.SuccItem | bintrees/abctree.py:633-644 | the binding of the least key greater than `key`; `KeyError` on an empty tree, for an absent key and for the greatest key |
| AbcTree.ABCTree.PrevItem | bintrees/abctree.py:646-657 | the binding of the greatest key less than `key`; `KeyError` on an empty tree, for an absent key and for the least key |
| AbcTree.ABCTree.FloorItem | bintrees/abctree.py:659-677 | succeeds exactly when some key is `<= key`, with the binding of the greatest such key (an exact match is that key); otherwise `KeyError` |
| AbcTree.ABCTree.CeilingItem | bintrees/abctree.py:679-697 | succeeds exactly when some key is `>= key`, with the binding of the least such key; otherwise `KeyError` |
| AbcTree.ABCTree.FarthestNear | bintrees/abctree.py:622-624 | the inner descent of `_next_item` reaches the extreme item of the subtree |
| AbcTree.ABCTree.PopItem | bintrees/abctree.py:546-563 | `KeyError` exactly on an empty tree; otherwise removes exactly the first item of the postorder visit (a childless node), which was a binding of the map |
| AbcTree.ABCTree.PopMin | bintrees/abctree.py:388-394 | `ValueError` exactly on an empty tree; otherwise removes exactly the least key and returns its binding; the ascending walk loses its head and nothing else |
| AbcTree.ABCTree.PopMax | bintrees/abctree.py:396-402 | the mirror of `PopMin` for the greatest key and the descending walk |
| AbcTree.ABCTree.WalkItems | bintrees/abctree.py:717-735 | `_iter_items`: the items of the walk in the direction whose keys are in `[start, end)`. A missing start with an end given is replaced by `min_key()`, which selects the same items. An empty tree yields nothing |
| AbcTree.ABCTree.StackWalk | bintrees/abctree.py:737-754 | the loop with an explicit stack and a `go_left` flag yields exactly the in-range items of the in-order walk, in walk order, and terminates |
| AbcTree.ABCTree.IterItems | bintrees/abctree.py:699-715 | the result is an enumeration, strictly ascending (or strictly descending with `reverse`), of exactly the bindings whose keys are in `[start, end)` |
| AbcTree.ABCTree.KeySlice | bintrees/abctree.py:273-279 | the keys of the result are exactly the bound keys in `[start, end)`, strictly ascending or descending |
| AbcTree.ABCTree.ValueSlice | bintrees/abctree.py:282-288 | the values of the in-range bindings, in the order of their keys |
| AbcTree.ABCTree.NSmallest | bintrees/abctree.py:412-420 | the first `min(len, n)` items of the ascending walk; without `pop` the tree is untouched; with `pop` exactly their keys are removed |
| AbcTree.ABCTree.NLargest | bintrees/abctree.py:422-430 | the first `min(len, n)` items of the descending walk; without `pop` the tree is untouched; with `pop` exactly their keys are removed |
| AbcTree.ABCTree.PopRun | bintrees/abctree.py:416-417 | `m` calls of `pop_min` (or of `pop_max`, lines 426-427) return the first `m` items of the walk and remove exactly their keys |
| AbcTree.ABCTree.FirstItems | bintrees/abctree.py:418-420 | `m` calls of `next` on `items(reverse)` give the first `m` items of the walk |
| AbcTree.ABCTree.Take | bintrees/abctree.py:420 | `m` calls of `next` on an iterator give the first `m` elements |
| AbcTree.ABCTree.RemoveItems | bintrees/abctree.py:265-271 | succeeds exactly when every key was bound and then removes exactly those keys; otherwise `KeyError`, having removed some of them and nothing else |
| AbcTree.ABCTree.DeleteSlice | bintrees/abctree.py:258-263 | `del T[start:end]` removes exactly the keys in `[start, end)` |
| AbcTree.ABCTree.Update | bintrees/abctree.py:318-327 | the map is the old map with the pairs of every argument inserted in order (see `KeySets.AssignSpec`) |
| AbcTree.ABCTree.FromKeys | bintrees/abctree.py:329-338 | a new tree whose keys are exactly those of `keys`, each bound to `value` |
| AbcTree.ABCTree.Copy | bintrees/abctree.py:164-168 | a new tree that holds the same map, built by inserting the preorder visit |
| AbcTree.ABCTree.KeySet | bintrees/abctree.py:485-486 | `frozenset(T.keys())` is the key set of the map |
| AbcTree.ABCTree.IsSubset | bintrees/abctree.py:466-470 | true exactly when every key of this tree is a key of the other |
| AbcTree.ABCTree.IsSuperset | bintrees/abctree.py:472-476 | true exactly when every key of the other tree is a key of this one |
| AbcTree.ABCTree.IsDisjoint | bintrees/abctree.py:478-482 | true exactly when no key is in both trees |
| AbcTree.ABCTree.Intersection | bintrees/abctree.py:432-438 | a new tree whose keys are those of this tree held by every operand, with this tree's values |
| AbcTree.ABCTree.Union | bintrees/abctree.py:440-447 | a new tree whose keys are those of this tree or of any operand, each with the value of the first of `[self, t1, ...]` that holds it |
| AbcTree.ABCTree.Difference | bintrees/abctree.py:449-455 | a new tree whose keys are those of this tree held by no operand, with this tree's values |
| AbcTree.ABCTree.SymmetricDifference | bintrees/abctree.py:457-464 | a new tree whose keys are those held by exactly one of the two trees, each with its value there |
| AbcTree.UnionKeys | bintrees/abctree.py:440-447 | the keys of `A.union(B)` are exactly `A`'s keys together with `B`'s |
| AbcTree.UnionPrefersSelf | bintrees/abctree.py:440-447 | in `A.union(B)` a key of `A` has its value in `A`, a key only of `B` its value in `B`, and any other key is absent (`KeyError`) |
| AbcTree.IntersectionIsSubset | bintrees/abctree.py:432-438 | `A.intersection(B).is_subset(A)` and `.is_subset(B)` both hold |
| AbcTree.SymmetricDifferenceShares | bintrees/abctree.py:457-464 | no key of `A.symmetric_difference(B)` is a key of both `A` and `B` |
| AbcTree.BuildSets | bintrees/abctree.py:485-486 | `_build_sets`: one key set per tree, in order |
| AbcTree.MultiTreeGet | bintrees/abctree.py:489-495 | `_multi_tree_get`: the value in the first tree that holds the key; `KeyError` exactly when none does |
| AbcTree.Collect | bintrees/abctree.py:438 | a new tree built from `(key, _multi_tree_get(trees, key))` for the chosen keys holds exactly those keys with their first bindings |
| AbcTree.Lookups | bintrees/abctree.py:446-447 | the generator of pairs visits every chosen key once, each with its first binding |
| AbcTree.AssignFromLookups | bintrees/abctree.py:318-327 | inserting such pairs into an empty tree binds exactly their keys to their first bindings |
| NodeStore.InsertNodeSpec | bintrees/abctree.py:252-256 | the insertion stand-in keeps the search-tree order and denotes `old[k := v]`; it adds a node exactly when `k` was absent |
| NodeStore.InsertNodeSize | bintrees/abctree.py:179-181 | the node count grows by one exactly when a node is added |
| NodeStore.RemoveNodeSpec | bintrees/abctree.py:258-263 | the deletion stand-in fails exactly when `k` is absent; otherwise it keeps the order and denotes `old - {k}` |
| NodeStore.RemoveNodeSize | bintrees/abctree.py:179-181 | a deletion removes exactly one node |
| NodeStore.RemoveMinSpec | bintrees/abctree.py:258-263 | taking out the least node of a subtree (the successor used by the deletion stand-in) gives its least binding and the rest of the map |
| Nodes.WalkSpec | bintrees/abctree.py:717-754 | the in-order walk is a strictly ordered enumeration of exactly the map's bindings |
| Nodes.WalkSize | bintrees/abctree.py:179-181 | the walk has one item per node |
| Nodes.SizeIsKeys | bintrees/abctree.py:179-181 | in a search tree the node count is the number of distinct keys |
| Nodes.OrderedEnumerationUnique | bintrees/abctree.py:221-243 | two strictly ordered enumerations of one map are the same sequence |
| Nodes.BackwardMirrorsForward | bintrees/abctree.py:707-715 | the backward walk is the forward walk read from the back |
| Nodes.WalkHead | bintrees/abctree.py:586-602 | the first item of the walk is the binding of the extreme key |
| Nodes.WalkAfterRemovingHead | bintrees/abctree.py:388-402 | after removing the walk's first key, the walk is the old walk without its head |
| Search.ExtremeSpec | bintrees/abctree.py:586-602 | following near children to the end reaches the binding of the least (greatest) key |
| Search.ExtremeIsWalkHead | bintrees/abctree.py:586-602 | that binding is the first item of the walk |
| Search.NextStep | bintrees/abctree.py:607-615 | one step of the `_next_item` search keeps the key, the answer and the candidate's bound |
| Search.NextAtKey | bintrees/abctree.py:620-630 | at the key's node the answer is the extreme of its far subtree, if there is one |
| Search.NextSpec | bintrees/abctree.py:604-631 | the `_next_item` answer exists exactly when a key lies after `key`, and it is the nearest such key with its value |
| Search.ClosestStep | bintrees/abctree.py:665-673 | one step of the `floor_item`/`ceiling_item` search keeps the answer and the candidate's bound |
| Search.ClosestSpec | bintrees/abctree.py:659-697 | the floor (ceiling) answer exists exactly when a key is at or before `key`, and it is the closest such key with its value |
| Search.FloorExists | bintrees/abctree.py:659-677 | a floor exists exactly when some key is `<= key` |
| Search.CeilingExists | bintrees/abctree.py:679-697 | a ceiling exists exactly when some key is `>= key` |
| Search.Descend | bintrees/abctree.py:535-544 | one step of `get_value` keeps the key's presence and binding |
| Ranges.WindowSpec | bintrees/abctree.py:273-297 | cutting an ordered enumeration to `[start, end)` enumerates exactly the in-range bindings, in the same order |
| Ranges.LowerBoundAgrees | bintrees/abctree.py:730-731 | putting `min_key()` for a missing start selects the same items |
| Ranges.WindowEverything | bintrees/abctree.py:727-728 | with neither bound every item is kept |
| Ranges.EmitKeeps | bintrees/abctree.py:745-746 | emitting a node keeps the walk's invariant: what was yielded, followed by the rest, is the whole window |
| Ranges.EmitNext | bintrees/abctree.py:747-754 | moving to the far child or popping the stack continues the walk where it left off, and an empty stack means the walk is done |
| Ranges.PushStep | bintrees/abctree.py:741-743 | pushing a node and descending leaves the rest of the walk unchanged |
| Ranges.KeysOf | bintrees/abctree.py:273-279 | the keys of the items, position by position |
| Ranges.ValuesOf | bintrees/abctree.py:282-288 | the values of the items, position by position |
| Traversal.TraverseVisitsAll | bintrees/abctree.py:566-584 | each of the three orders calls the callback once per node, with the node's item |
| Traversal.InorderIsWalk | bintrees/abctree.py:566-584 | order 0 visits in ascending key order |
| Traversal.OtherOrderVisitsNothing | bintrees/abctree.py:566-584 | an order other than -1, 0 and +1 never calls the callback |
| Traversal.TraversalCovers | bintrees/abctree.py:566-584 | every visited item is a binding of the map, and every key is visited |
| Traversal.FirstPostorderIsHead | bintrees/abctree.py:546-563 | the node `pop_item` settles on is the first one the postorder visit reaches |
| Traversal.ForeachAsWritten | bintrees/abctree.py:566-584 | `foreach` as written fails with `AttributeError` exactly on an empty tree; otherwise each of the orders -1, 0, +1 hands over every item once, and any other order hands over nothing |
| Traversal.EmptyForeachFails | bintrees/abctree.py:164-168 | on an empty tree `foreach` (so `copy`) fails with `AttributeError`, although there is nothing to visit |
| KeySets.IntersectAll | bintrees/abctree.py:432-438 | `frozenset.intersection(*sets)`: the members of `s` found in every set |
| KeySets.UnionAll | bintrees/abctree.py:440-447 | `frozenset.union(*sets)`: the members of `s` or of any set |
| KeySets.DifferenceAll | bintrees/abctree.py:449-455 | `frozenset.difference(*sets)`: the members of `s` found in no set |
| KeySets.FirstBindingSpec | bintrees/abctree.py:489-495 | there is no binding exactly when no map holds the key; otherwise the binding comes from a map holding it with none before it |
| KeySets.FirstBindingAt | bintrees/abctree.py:489-495 | the first map that holds the key supplies the value |
| KeySets.AssignSpec | bintrees/abctree.py:318-327 | after inserting a run of pairs, a key is bound exactly when it was bound before or some pair carries it; the last such pair wins; other keys keep their values |
| KeySets.AssignAllFlat | bintrees/abctree.py:318-327 | several arguments act as their concatenation, so a later argument overrides an earlier one |
| KeySets.AssignAppend | bintrees/abctree.py:325-327 | inserting `a + b` is inserting `a`, then `b` |
| KeySets.AssignCovering | bintrees/abctree.py:164-168 | inserting, into an empty tree, bindings of a map that reach all its keys rebuilds the map, in whatever order they come |

## Left out

- `TreeSlice`, the bounded view that `T[start:end]` returns, lives in
  `bintrees/treeslice.py`. That file is not part of this model. The slice
  form of `__setitem__`, which raises `ValueError`, is left out too.
- Pickling (`__getstate__`/`__setstate__`), `__repr__` and `__del__` are
  Python object plumbing.
- The operator and naming aliases are not separate members: `__min__`,
  `__max__`, `__and__`, `__or__`, `__sub__`, `__xor__`, `__iter__`,
  `__reversed__`, `keys`, `values`, `items`, `item_slice`, `popitem`,
  `setdefault`, `fromkeys` and similar names. The same holds for the
  key-only projections `min_key`, `max_key`, `prev_key`, `succ_key`,
  `floor_key` and `ceiling_key`. Each is the member it forwards to, or its
  first component.
- `update` takes a sequence of sequences of pairs. The duck-typed choice
  between `items()` and `iter()` is Python runtime reflection.
- Generators are not lazy here: `iter_items` and the slices return sequences.
  Mutating a tree while one of its generators is suspended is not modelled.
- `foreach` hands its items to a callback. Here it is the sequence of items
  the callback would receive, and `copy` inserts that sequence.
- The balancing of the concrete trees is not modelled. `insert`, `remove` and
  `clear` are defined by the concrete trees, not in this file. Here an
  unbalanced search-tree insertion and deletion stands in for them. Callers
  rely only on their map-level contracts.
- Keys are integers under their usual order, in place of arbitrary
  comparable Python values. Values are of any type.
- `floor_item` and `ceiling_item` test `if prev:` on a node. This is read as
  "a node was found", because nodes do not define truthiness.
- `remove_items` and the set operations iterate a frozenset in an unspecified
  order. The model picks keys in no particular order. The results stated do
  not depend on that order, except which keys `remove_items` already removed
  when it fails.
- `pop(key, *args)` takes its extra arguments as a sequence of defaults. The
  `TypeError` that `pop` raises itself for more than one of them is kept.
- AbcTree.ABCTree.Intersection: takes `self`'s value through the
  first-binding lookup on `[self]` rather than `self.get(key)`. The value is
  the same, because every chosen key is bound in `self`.
- AbcTree.ABCTree.Difference: takes `self`'s value through the same lookup,
  for the same reason.
- Python's `frozenset` hashing is not modelled; Dafny sets replace it.

## Findings

| source | as written | input that shows it | evidently intended | confidence | as-written member | corrected member |
|---|---|---|---|---|---|---|
| bintrees/abctree.py:566-584 | `foreach` calls `_traverse(self._root)` without checking for an empty tree, so `_traverse` reads `key` or `left` of `None` | an empty tree, then `copy()` or `foreach(f)` with any order | an empty tree visits nothing, and `copy()` returns an empty tree | not executed | Traversal.EmptyForeachFails | AbcTree.ABCTree.Copy |
