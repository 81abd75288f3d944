/** The shared ordered-map layer: a tree object holding a root node and a
    node count, whose methods navigate, iterate and edit the nodes, and the
    set algebra built on top of them. */
module AbcTree {
  import opened Wrappers
  import opened Nodes
  import opened NodeStore
  import opened Search
  import opened Ranges
  import opened KeySets
  import opened Traversal

  class ABCTree<V> {
    var root: Tree<V>
    var count: nat

    /** The nodes form a search tree and `count` is their number. */
    ghost predicate Valid()
      reads this
    {
      Bst(root) && count == Size(root)
    }

    /** The key->value map the tree holds. */
    ghost function Map(): map<int, V>
      reads this
    {
      ToMap(root)
    }

    /** An empty tree (the concrete trees' `__init__` without items). */
    constructor ()
      ensures Valid() && Map() == map[]
    {
      root := Leaf;
      count := 0;
    }

    /** `insert(key, value)`, as the concrete trees provide it. */
    method Insert(key: int, value: V)
      requires Valid()
      modifies this
      ensures Valid() && Map() == old(Map())[key := value]
    {
      InsertNodeSpec(root, key, value);
      var (t, added) := InsertNode(root, key, value);
      InsertNodeSize(root, key, value);
      root := t;
      if added {
        count := count + 1;
      }
    }

    /** `remove(key)`, as the concrete trees provide it: `KeyError` when absent. */
    method Remove(key: int) returns (r: Result<()>)
      requires Valid()
      modifies this
      ensures Valid()
      ensures r.Ok? <==> key in old(Map())
      ensures r.Ok? ==> Map() == old(Map()) - {key}
      ensures r.Err? ==> r.error == KeyError && Map() == old(Map())
    {
      RemoveNodeSpec(root, key);
      RemoveNodeSize(root, key);
      match RemoveNode(root, key)
      case None =>
        r := Err(KeyError);
      case Some(t) =>
        root := t;
        count := count - 1;
        r := Ok(());
    }

    /** `clear()`, as the concrete trees provide it. */
    method Clear()
      modifies this
      ensures Valid() && Map() == map[]
    {
      root := Leaf;
      count := 0;
    }

    /** `__len__()`: the node count is the number of keys. */
    function Len(): (n: nat)
      reads this
      requires Valid()
      ensures n == |Map()|
    {
      SizeIsKeys(root);
      count
    }

    /** `is_empty()`. */
    function IsEmpty(): (b: bool)
      reads this
      requires Valid()
      ensures b <==> Map() == map[]
    {
      assert root.Node? ==> root.key in Map();
      count == 0
    }

    /** `get_value(key)`: a search from the root. */
    method GetValue(key: int) returns (r: Result<V>)
      requires Valid()
      ensures r.Ok? <==> key in Map()
      ensures r.Ok? ==> r.value == Map()[key]
      ensures r.Err? ==> r.error == KeyError
    {
      var node := root;
      while node.Node?
        invariant Bst(node)
        invariant key in Map() <==> key in ToMap(node)
        invariant key in ToMap(node) ==> Map()[key] == ToMap(node)[key]
        decreases node
      {
        if key == node.key {
          ChildrenWithin(node, Forward);
          return Ok(node.value);
        }
        Descend(node, key, Forward);
        if key < node.key {
          node := node.left;
        } else {
          node := node.right;
        }
      }
      return Err(KeyError);
    }

    /** `key in T`. */
    method Contains(key: int) returns (b: bool)
      requires Valid()
      ensures b <==> key in Map()
    {
      var r := GetValue(key);
      b := r.Ok?;
    }

    /** `get(key, default)`. */
    method Get(key: int, default: V) returns (v: V)
      requires Valid()
      ensures key in Map() ==> v == Map()[key]
      ensures key !in Map() ==> v == default
    {
      var r := GetValue(key);
      if r.Ok? {
        v := r.value;
      } else {
        v := default;
      }
    }

    /** `discard(key)`: `remove` with the `KeyError` swallowed. */
    method Discard(key: int)
      requires Valid()
      modifies this
      ensures Valid() && Map() == old(Map()) - {key}
    {
      var r := Remove(key);
      if r.Err? {
        assert old(Map()) - {key} == old(Map());
      }
    }

    /** `pop(key, *args)`: at most one default may follow the key. */
    method Pop(key: int, defaults: seq<V>) returns (r: Result<V>)
      requires Valid()
      modifies this
      ensures Valid()
      ensures |defaults| > 1 ==> r == Err(TypeError) && Map() == old(Map())
      ensures |defaults| <= 1 && key in old(Map()) ==>
        r == Ok(old(Map())[key]) && Map() == old(Map()) - {key}
      ensures |defaults| <= 1 && key !in old(Map()) ==>
        Map() == old(Map()) && r == (if |defaults| == 0 then Err(KeyError) else Ok(defaults[0]))
    {
      if |defaults| > 1 {
        return Err(TypeError);
      }
      var value := GetValue(key);
      if value.Ok? {
        var _ := Remove(key);
        return value;
      }
      if |defaults| == 0 {
        return Err(KeyError);
      }
      return Ok(defaults[0]);
    }

    /** `set_default(key, default)`: the bound value, or `default` newly bound. */
    method SetDefault(key: int, default: V) returns (v: V)
      requires Valid()
      modifies this
      ensures Valid()
      ensures key in old(Map()) ==> v == old(Map())[key] && Map() == old(Map())
      ensures key !in old(Map()) ==> v == default && Map() == old(Map())[key := default]
    {
      var r := GetValue(key);
      if r.Ok? {
        return r.value;
      }
      Insert(key, default);
      return default;
    }

    /** `min_item()`: the leftmost node; `ValueError` on an empty tree. */
    method MinItem() returns (r: Result<Item<V>>)
      requires Valid()
      ensures r.Err? <==> Map() == map[]
      ensures r.Err? ==> r.error == ValueError
      ensures r.Ok? ==> IsExtreme(Map(), Forward, r.value.0) && Map()[r.value.0] == r.value.1
      ensures r.Ok? ==> r.value == Walk(root, Forward)[0]
    {
      if count == 0 {
        return Err(ValueError);
      }
      var node := root;
      while node.left.Node?
        invariant node.Node? && Extreme(node, Forward) == Extreme(root, Forward)
        decreases node
      {
        node := node.left;
      }
      ExtremeSpec(root, Forward);
      ExtremeIsWalkHead(root, Forward);
      return Ok((node.key, node.value));
    }

    /** `max_item()`: the rightmost node; `ValueError` on an empty tree. */
    method MaxItem() returns (r: Result<Item<V>>)
      requires Valid()
      ensures r.Err? <==> Map() == map[]
      ensures r.Err? ==> r.error == ValueError
      ensures r.Ok? ==> IsExtreme(Map(), Backward, r.value.0) && Map()[r.value.0] == r.value.1
      ensures r.Ok? ==> r.value == Walk(root, Backward)[0]
    {
      if count == 0 {
        return Err(ValueError);
      }
      var node := root;
      while node.right.Node?
        invariant node.Node? && Extreme(node, Backward) == Extreme(root, Backward)
        decreases node
      {
        node := node.right;
      }
      ExtremeSpec(root, Backward);
      ExtremeIsWalkHead(root, Backward);
      return Ok((node.key, node.value));
    }

    /** `_next_item(key, left, right, less_than)`, the direction standing for
        the child selectors and the comparison. */
    method NextItem(key: int, d: Direction) returns (r: Result<Item<V>>)
      requires Valid()
      ensures r.Ok? <==> key in Map() && exists y :: y in Map() && Before(d, key, y)
      ensures r.Ok? ==> IsNext(Map(), key, d, r.value.0) && Map()[r.value.0] == r.value.1
      ensures r.Err? ==> r.error == KeyError
    {
      var node := root;
      var succ: Option<Item<V>> := None;
      while node.Node?
        invariant Bst(node)
        invariant key in Keys(root) <==> key in Keys(node)
        invariant key in Keys(node) ==> Next(root, key, d) == Pick(Next(node, key, d), succ)
        invariant succ.Some? ==> forall y :: y in Keys(node) ==> Before(d, y, succ.value.0)
        decreases node
      {
        if key == node.key {
          break;
        }
        NextStep(node, key, d);
        if Before(d, key, node.key) {
          if succ.None? || Before(d, node.key, succ.value.0) {
            succ := Some(ItemOf(node));
          }
          node := Near(node, d);
        } else {
          node := Far(node, d);
        }
      }
      if node.Leaf? {
        return Err(KeyError);
      }
      NextAtKey(node, d);
      if Far(node, d).Node? {
        node := FarthestNear(Far(node, d), d);
        if succ.None? {
          succ := Some(ItemOf(node));
        } else if Before(d, node.key, succ.value.0) {
          succ := Some(ItemOf(node));
        }
      } else if succ.None? {
        NextSpec(root, key, d);
        return Err(KeyError);
      }
      NextSpec(root, key, d);
      return Ok(succ.value);
    }

    /** `succ_item(key)`: `KeyError` on an empty tree, for an absent key and for the greatest key. */
    method SuccItem(key: int) returns (r: Result<Item<V>>)
      requires Valid()
      ensures r.Ok? <==> key in Map() && exists y :: y in Map() && key < y
      ensures r.Ok? ==> IsNext(Map(), key, Forward, r.value.0) && Map()[r.value.0] == r.value.1
      ensures r.Err? ==> r.error == KeyError
    {
      if count == 0 {
        return Err(KeyError);
      }
      r := NextItem(key, Forward);
    }

    /** `prev_item(key)`: `KeyError` on an empty tree, for an absent key and for the least key. */
    method PrevItem(key: int) returns (r: Result<Item<V>>)
      requires Valid()
      ensures r.Ok? <==> key in Map() && exists y :: y in Map() && y < key
      ensures r.Ok? ==> IsNext(Map(), key, Backward, r.value.0) && Map()[r.value.0] == r.value.1
      ensures r.Err? ==> r.error == KeyError
    {
      if count == 0 {
        return Err(KeyError);
      }
      r := NextItem(key, Backward);
    }

    /** `floor_item(key)`: the greatest key at most `key`. */
    method FloorItem(key: int) returns (r: Result<Item<V>>)
      requires Valid()
      ensures r.Ok? <==> exists y :: y in Map() && y <= key
      ensures r.Ok? ==> IsClosest(Map(), key, Forward, r.value.0) && Map()[r.value.0] == r.value.1
      ensures r.Err? ==> r.error == KeyError
    {
      var node := root;
      var prev: Option<Item<V>> := None;
      while node.Node?
        invariant Bst(node)
        invariant Closest(root, key, Forward) == Pick(Closest(node, key, Forward), prev)
        invariant prev.Some? ==> forall y :: y in Keys(node) ==> prev.value.0 < y
        decreases node
      {
        if key == node.key {
          break;
        }
        ClosestStep(node, key, Forward);
        if key < node.key {
          node := node.left;
        } else {
          if prev.None? || node.key > prev.value.0 {
            prev := Some(ItemOf(node));
          }
          node := node.right;
        }
      }
      var found := if node.Node? then Some(ItemOf(node)) else prev;
      assert found == Closest(root, key, Forward);
      ClosestSpec(root, key, Forward);
      FloorExists(root, key);
      assert Map() == ToMap(root);
      if found.Some? {
        return Ok(found.value);
      }
      return Err(KeyError);
    }

    /** `ceiling_item(key)`: the least key at least `key`. */
    method CeilingItem(key: int) returns (r: Result<Item<V>>)
      requires Valid()
      ensures r.Ok? <==> exists y :: y in Map() && y >= key
      ensures r.Ok? ==> IsClosest(Map(), key, Backward, r.value.0) && Map()[r.value.0] == r.value.1
      ensures r.Err? ==> r.error == KeyError
    {
      var node := root;
      var succ: Option<Item<V>> := None;
      while node.Node?
        invariant Bst(node)
        invariant Closest(root, key, Backward) == Pick(Closest(node, key, Backward), succ)
        invariant succ.Some? ==> forall y :: y in Keys(node) ==> y < succ.value.0
        decreases node
      {
        if key == node.key {
          break;
        }
        ClosestStep(node, key, Backward);
        if key > node.key {
          node := node.right;
        } else {
          if succ.None? || node.key < succ.value.0 {
            succ := Some(ItemOf(node));
          }
          node := node.left;
        }
      }
      var found := if node.Node? then Some(ItemOf(node)) else succ;
      assert found == Closest(root, key, Backward);
      ClosestSpec(root, key, Backward);
      CeilingExists(root, key);
      assert Map() == ToMap(root);
      if found.Some? {
        return Ok(found.value);
      }
      return Err(KeyError);
    }

    /** `pop_item()`: removes and returns the item of the node a postorder
        visit reaches first, a node without children; `KeyError` on an
        empty tree. */
    method PopItem() returns (r: Result<Item<V>>)
      requires Valid()
      modifies this
      ensures Valid()
      ensures r.Err? <==> old(Map()) == map[]
      ensures r.Err? ==> r.error == KeyError && Map() == old(Map())
      ensures r.Ok? ==> old(Traverse(root, 1)) != [] && r.value == old(Traverse(root, 1))[0]
      ensures r.Ok? ==> r.value.0 in old(Map()) && old(Map())[r.value.0] == r.value.1
      ensures r.Ok? ==> Map() == old(Map()) - {r.value.0}
    {
      if IsEmpty() {
        return Err(KeyError);
      }
      var node := root;
      while true
        invariant node.Node? && FirstPostorder(node) == FirstPostorder(root)
        decreases node
      {
        if node.left.Node? {
          node := node.left;
        } else if node.right.Node? {
          node := node.right;
        } else {
          break;
        }
      }
      var key, value := node.key, node.value;
      FirstPostorderIsHead(root);
      TraversalCovers(root, 1);
      var _ := Remove(key);
      return Ok((key, value));
    }

    /** `pop_min()`: `min_item()`, then `remove` of its key. */
    method PopMin() returns (r: Result<Item<V>>)
      requires Valid()
      modifies this
      ensures Valid()
      ensures r.Err? <==> old(Map()) == map[]
      ensures r.Err? ==> r.error == ValueError && Map() == old(Map())
      ensures r.Ok? ==> IsExtreme(old(Map()), Forward, r.value.0) && old(Map())[r.value.0] == r.value.1
      ensures r.Ok? ==> Map() == old(Map()) - {r.value.0}
      ensures r.Ok? ==> && old(Walk(root, Forward)) != [] && r.value == old(Walk(root, Forward))[0]
                        && Walk(root, Forward) == old(Walk(root, Forward))[1..]
    {
      r := MinItem();
      if r.Ok? {
        ghost var before := root;
        var _ := Remove(r.value.0);
        WalkAfterRemovingHead(before, root, Forward);
      }
    }

    /** `pop_max()`: `max_item()`, then `remove` of its key. */
    method PopMax() returns (r: Result<Item<V>>)
      requires Valid()
      modifies this
      ensures Valid()
      ensures r.Err? <==> old(Map()) == map[]
      ensures r.Err? ==> r.error == ValueError && Map() == old(Map())
      ensures r.Ok? ==> IsExtreme(old(Map()), Backward, r.value.0) && old(Map())[r.value.0] == r.value.1
      ensures r.Ok? ==> Map() == old(Map()) - {r.value.0}
      ensures r.Ok? ==> && old(Walk(root, Backward)) != [] && r.value == old(Walk(root, Backward))[0]
                        && Walk(root, Backward) == old(Walk(root, Backward))[1..]
    {
      r := MaxItem();
      if r.Ok? {
        ghost var before := root;
        var _ := Remove(r.value.0);
        WalkAfterRemovingHead(before, root, Backward);
      }
    }

    /** `_iter_items(left, right, start_key, end_key)`: nothing for an empty
        tree; otherwise the range test is settled (a missing start becomes
        `min_key()` when an end is given) and the tree is walked in direction
        `d`, keeping the items whose keys are in range. */
    method WalkItems(d: Direction, startKey: Option<int>, endKey: Option<int>) returns (items: seq<Item<V>>)
      requires Valid()
      ensures items == Window(Walk(root, d), startKey, endKey)
    {
      if IsEmpty() {
        return [];
      }
      // `in_range` is `InRange(_, lo, hi)` in each of the three cases.
      var lo, hi := startKey, endKey;
      if startKey.None? && endKey.Some? {
        var least := MinItem();
        lo := Some(least.value.0);
        WalkSpec(root, d);
        LowerBoundAgrees(Walk(root, d), Map(), least.value.0, hi);
      }
      assert Window(Walk(root, d), lo, hi) == Window(Walk(root, d), startKey, endKey);
      items := StackWalk(root, d, lo, hi);
    }

    /** The loop of `_iter_items`: an in-order walk in direction `d` from `t`
        with an explicit stack of nodes still to be emitted and a flag telling
        whether to descend into the near child, yielding the items in range. */
    static method StackWalk(t: Tree<V>, d: Direction, lo: Option<int>, hi: Option<int>) returns (items: seq<Item<V>>)
      requires t.Node?
      ensures items == Window(Walk(t, d), lo, hi)
    {
      ghost var all := Walk(t, d);
      var node := t;
      var stack: seq<Tree<V>> := [];
      var goLeft := true;
      items := [];
      StartWalk(t, d, lo, hi);
      while true
        invariant node.Node? && forall i :: 0 <= i < |stack| ==> stack[i].Node?
        invariant items + Window(Remaining(node, goLeft, stack, d), lo, hi) == Window(all, lo, hi)
        decreases |Remaining(node, goLeft, stack, d)|, if goLeft then |Walk(node, d)| else 0
      {
        if Near(node, d).Node? && goLeft {
          PushStep(node, stack, d);
          stack := stack + [node];
          node := Near(node, d);
        } else {
          ghost var before := items;
          if InRange(node.key, lo, hi) {
            items := items + [ItemOf(node)];
          }
          EmitKeeps(before, items, node, goLeft, stack, d, lo, hi, Window(all, lo, hi));
          EmitNext(items, node, stack, d, lo, hi, Window(all, lo, hi));
          if Far(node, d).Node? {
            node := Far(node, d);
            goLeft := true;
          } else {
            if |stack| == 0 {
              return;
            }
            PopStep(stack, d);
            node := stack[|stack| - 1];
            stack := stack[..|stack| - 1];
            goLeft := false;
          }
        }
      }
    }

    /** `iter_items(start_key, end_key, reverse)`: nothing for an empty tree,
        otherwise the walk of `_iter_items` in the direction `reverse` asks for. */
    method IterItems(startKey: Option<int>, endKey: Option<int>, reverse: bool) returns (items: seq<Item<V>>)
      requires Valid()
      ensures items == Window(Walk(root, DirectionOf(reverse)), startKey, endKey)
      ensures Enumerates(items, Restrict(Map(), startKey, endKey))
      ensures Ordered(items, DirectionOf(reverse))
    {
      var d := DirectionOf(reverse);
      WalkSpec(root, d);
      WindowSpec(Walk(root, d), Map(), d, startKey, endKey);
      if IsEmpty() {
        return [];
      }
      items := WalkItems(d, startKey, endKey);
    }

    /** `key_slice(start_key, end_key, reverse)`: the keys `k` with
        `start_key <= k < end_key`, each once, ascending or descending. */
    method KeySlice(startKey: Option<int>, endKey: Option<int>, reverse: bool) returns (ks: seq<int>)
      requires Valid()
      ensures forall k :: k in ks <==> k in Map() && InRange(k, startKey, endKey)
      ensures forall i, j :: 0 <= i < j < |ks| ==> Before(DirectionOf(reverse), ks[i], ks[j])
    {
      var items := IterItems(startKey, endKey, reverse);
      ks := KeysOf(items);
      forall k | k in Map() && InRange(k, startKey, endKey)
        ensures k in ks
      {
        var m := Restrict(Map(), startKey, endKey);
        assert k in m && (k, m[k]) in items;
      }
    }

    /** `value_slice(start_key, end_key, reverse)`: the values of the keys in
        range, in the order of their keys. */
    method ValueSlice(startKey: Option<int>, endKey: Option<int>, reverse: bool) returns (vs: seq<V>)
      requires Valid()
      ensures exists items :: Enumerates(items, Restrict(Map(), startKey, endKey))
                              && Ordered(items, DirectionOf(reverse)) && vs == ValuesOf(items)
    {
      var items := IterItems(startKey, endKey, reverse);
      vs := ValuesOf(items);
    }

    /** `nsmallest(n, pop)`: the first `min(len(T), n)` items in ascending
        key order, each taken off with `pop_min()` when `pop` is set. */
    method NSmallest(n: int, pop: bool) returns (items: seq<Item<V>>)
      requires Valid()
      modifies this
      ensures Valid()
      ensures |old(Walk(root, Forward))| == old(count)
              && items == old(Walk(root, Forward))[..RangeCount(n, old(count))]
      ensures !pop ==> root == old(root)
      ensures pop ==> Map() == old(Map()) - KeysIn(items)
    {
      WalkSize(root, Forward);
      var m := RangeCount(n, count);
      if pop {
        items := PopRun(m, Forward);
      } else {
        items := FirstItems(m, false);
      }
    }

    /** `nlargest(n, pop)`: the first `min(len(T), n)` items in descending
        key order, each taken off with `pop_max()` when `pop` is set. */
    method NLargest(n: int, pop: bool) returns (items: seq<Item<V>>)
      requires Valid()
      modifies this
      ensures Valid()
      ensures |old(Walk(root, Backward))| == old(count)
              && items == old(Walk(root, Backward))[..RangeCount(n, old(count))]
      ensures !pop ==> root == old(root)
      ensures pop ==> Map() == old(Map()) - KeysIn(items)
    {
      WalkSize(root, Backward);
      var m := RangeCount(n, count);
      if pop {
        items := PopRun(m, Backward);
      } else {
        items := FirstItems(m, true);
      }
    }

    /** The popping branch of `nsmallest` (`pop_min()`, forward) and
        `nlargest` (`pop_max()`, backward), `m` times. */
    method PopRun(m: nat, d: Direction) returns (items: seq<Item<V>>)
      requires Valid() && m <= count
      modifies this
      ensures Valid()
      ensures m <= |old(Walk(root, d))| && items == old(Walk(root, d))[..m]
      ensures Map() == old(Map()) - KeysIn(items)
    {
      WalkSize(root, d);
      ghost var w := Walk(root, d);
      items := [];
      var i := 0;
      while i < m
        invariant Valid()
        invariant 0 <= i <= m <= |w| && |w| == i + count
        invariant items == w[..i] && Walk(root, d) == w[i..]
        invariant Map() == old(Map()) - KeysIn(items)
      {
        assert root.Node? && root.key in Map();
        ghost var before := Map();
        var r;
        if d == Forward {
          r := PopMin();
        } else {
          r := PopMax();
        }
        WalkSize(root, d);
        PrefixStep(w, i);
        TakeOneMore(old(Map()), items, r.value, before, Map());
        items := items + [r.value];
        i := i + 1;
      }
    }

    /** The other branch: the first `m` items of `items(reverse)`. */
    method FirstItems(m: nat, reverse: bool) returns (items: seq<Item<V>>)
      requires Valid() && m <= count
      ensures m <= |Walk(root, DirectionOf(reverse))|
      ensures items == Walk(root, DirectionOf(reverse))[..m]
    {
      WalkSize(root, DirectionOf(reverse));
      var all := IterItems(None, None, reverse);
      WindowEverything(Walk(root, DirectionOf(reverse)));
      items := Take(all, m);
    }

    /** `[next(it) for _ in range(m)]` over an iterator of `s`. */
    static method Take<T>(s: seq<T>, m: nat) returns (items: seq<T>)
      requires m <= |s|
      ensures items == s[..m]
    {
      items := [];
      var i := 0;
      while i < m
        invariant 0 <= i <= m
        invariant items == s[..i]
      {
        items := items + [s[i]];
        i := i + 1;
      }
    }

    /** `remove_items(keys)`: `remove` of each key of `frozenset(keys)`, in
        no particular order; the first absent key stops it with `KeyError`. */
    method RemoveItems(keys: seq<int>) returns (r: Result<()>)
      requires Valid()
      modifies this
      ensures Valid()
      ensures r.Ok? <==> forall k :: k in keys ==> k in old(Map())
      ensures r.Ok? ==> Map() == old(Map()) - (set k | k in keys)
      ensures r.Err? ==> r.error == KeyError
      ensures r.Err? ==> exists removed :: removed <= (set k | k in keys) && Map() == old(Map()) - removed
    {
      var pending := set k | k in keys;
      ghost var all := pending;
      while pending != {}
        invariant Valid()
        invariant pending <= all
        invariant Map() == old(Map()) - (all - pending)
        invariant forall k :: k in all - pending ==> k in old(Map())
        decreases pending
      {
        HasMember(pending);
        var k :| k in pending;
        var res := Remove(k);
        if res.Err? {
          assert k in keys && k !in old(Map());
          assert all - pending <= all;
          return Err(KeyError);
        }
        RemoveOneMore(old(Map()), all - pending, k);
        assert all - (pending - {k}) == (all - pending) + {k};
        pending := pending - {k};
      }
      assert all - pending == all;
      return Ok(());
    }

    /** `del T[start_key:end_key]`: `remove_items` of the keys of `key_slice`. */
    method DeleteSlice(startKey: Option<int>, endKey: Option<int>)
      requires Valid()
      modifies this
      ensures Valid()
      ensures Map() == old(Map()) - Restrict(old(Map()), startKey, endKey).Keys
    {
      var ks := KeySlice(startKey, endKey, false);
      forall k
        ensures k in (set k | k in ks) <==> k in Restrict(Map(), startKey, endKey)
      {
      }
      assert (set k | k in ks) == Restrict(Map(), startKey, endKey).Keys;
      var r := RemoveItems(ks);
    }

    /** `update(*args)`: `insert` of every pair of every argument, in order. */
    method Update(args: seq<seq<Item<V>>>)
      requires Valid()
      modifies this
      ensures Valid() && Map() == AssignAll(old(Map()), args)
    {
      for i := 0 to |args|
        invariant Valid() && Map() == AssignAll(old(Map()), args[..i])
      {
        var items := args[i];
        for j := 0 to |items|
          invariant Valid() && Map() == Assign(AssignAll(old(Map()), args[..i]), items[..j])
        {
          Insert(items[j].0, items[j].1);
          assert items[..j + 1][..j] == items[..j];
        }
        assert items[..|items|] == items;
        assert args[..i + 1][..i] == args[..i];
      }
      assert args[..|args|] == args;
    }

    /** `from_keys(keys, value)`: a new tree binding every key of `keys` to `value`. */
    static method FromKeys(keys: seq<int>, value: V) returns (t: ABCTree<V>)
      ensures fresh(t) && t.Valid()
      ensures forall k :: k in t.Map() <==> k in keys
      ensures forall k :: k in t.Map() ==> t.Map()[k] == value
    {
      t := new ABCTree();
      for i := 0 to |keys|
        invariant fresh(t) && t.Valid()
        invariant forall k :: k in t.Map() <==> k in keys[..i]
        invariant forall k :: k in t.Map() ==> t.Map()[k] == value
      {
        t.Insert(keys[i], value);
        assert keys[..i + 1] == keys[..i] + [keys[i]];
      }
      assert keys[..|keys|] == keys;
    }

    /** `copy()`: a new tree into which every item is inserted in preorder;
        whatever the order, the copy holds the same map, and an empty tree
        gives an empty copy. */
    method Copy() returns (c: ABCTree<V>)
      requires Valid()
      ensures fresh(c) && c.Valid() && c.Map() == Map()
    {
      c := new ABCTree();
      var items := Traverse(root, -1);
      for i := 0 to |items|
        invariant fresh(c) && c.Valid()
        invariant c.Map() == Assign(map[], items[..i])
      {
        c.Insert(items[i].0, items[i].1);
        assert items[..i + 1][..i] == items[..i];
      }
      assert items[..|items|] == items;
      TraversalCovers(root, -1);
      AssignCovering(items, Map());
    }

    /** `frozenset(T.keys())`: the keys of the nodes. */
    function KeySet(): (s: set<int>)
      reads this
      requires Valid()
      ensures s == Map().Keys
    {
      Keys(root)
    }

    /** `is_subset(tree)`: every key of this tree is a key of `other`. */
    function IsSubset(other: ABCTree<V>): (b: bool)
      reads this, other
      requires Valid() && other.Valid()
      ensures b <==> forall k :: k in Map() ==> k in other.Map()
    {
      SubsetMeans(KeySet(), other.KeySet());
      KeySet() <= other.KeySet()
    }

    /** `is_superset(tree)`: every key of `other` is a key of this tree. */
    function IsSuperset(other: ABCTree<V>): (b: bool)
      reads this, other
      requires Valid() && other.Valid()
      ensures b <==> forall k :: k in other.Map() ==> k in Map()
    {
      SubsetMeans(other.KeySet(), KeySet());
      KeySet() >= other.KeySet()
    }

    /** `is_disjoint(tree)`: no key is in both trees. */
    function IsDisjoint(other: ABCTree<V>): (b: bool)
      reads this, other
      requires Valid() && other.Valid()
      ensures b <==> forall k :: k in Map() ==> k !in other.Map()
    {
      DisjointMeans(KeySet(), other.KeySet());
      KeySet() !! other.KeySet()
    }

    /** `intersection(*trees)`: the keys common to this tree and every tree
        of `trees`, each with its value in this tree. */
    method Intersection(trees: seq<ABCTree<V>>) returns (t: ABCTree<V>)
      requires Valid() && AllValid(trees)
      ensures fresh(t) && t.Valid()
      ensures forall k :: k in t.Map() <==> k in Map() && forall i :: 0 <= i < |trees| ==> k in trees[i].Map()
      ensures forall k :: k in t.Map() ==> t.Map()[k] == Map()[k]
    {
      var sets := BuildSets(trees);
      var rkeys := IntersectAll(KeySet(), sets);
      t := Collect(rkeys, [this], [Map()]);
    }

    /** `union(*trees)`: the keys of this tree or of any tree of `trees`, each
        with its value in the first of this tree and `trees` that holds it. */
    method Union(trees: seq<ABCTree<V>>) returns (t: ABCTree<V>)
      requires Valid() && AllValid(trees)
      ensures fresh(t) && t.Valid()
      ensures forall k :: k in t.Map() <==> k in Map() || exists i :: 0 <= i < |trees| && k in trees[i].Map()
      ensures forall k :: k in t.Map() ==> Some(t.Map()[k]) == FirstBinding(Maps([this] + trees), k)
    {
      var sets := BuildSets(trees);
      var rkeys := UnionAll(KeySet(), sets);
      ghost var ms := Maps([this] + trees);
      forall k | k in rkeys
        ensures FirstBinding(ms, k).Some?
      {
        FirstBindingSpec(ms, k);
        if k !in Map() {
          var i :| 0 <= i < |trees| && k in sets[i];
          assert ms[i + 1] == trees[i].Map();
        }
      }
      t := Collect(rkeys, [this] + trees, ms);
    }

    /** `difference(*trees)`: the keys of this tree that no tree of `trees`
        holds, each with its value in this tree. */
    method Difference(trees: seq<ABCTree<V>>) returns (t: ABCTree<V>)
      requires Valid() && AllValid(trees)
      ensures fresh(t) && t.Valid()
      ensures forall k :: k in t.Map() <==> k in Map() && forall i :: 0 <= i < |trees| ==> k !in trees[i].Map()
      ensures forall k :: k in t.Map() ==> t.Map()[k] == Map()[k]
    {
      var sets := BuildSets(trees);
      var rkeys := DifferenceAll(KeySet(), sets);
      t := Collect(rkeys, [this], [Map()]);
    }

    /** `symmetric_difference(tree)`: the keys held by exactly one of the two
        trees, each with its value there. */
    method SymmetricDifference(other: ABCTree<V>) returns (t: ABCTree<V>)
      requires Valid() && other.Valid()
      ensures fresh(t) && t.Valid()
      ensures forall k :: k in t.Map() <==> (k in Map() <==> k !in other.Map())
      ensures forall k :: k in t.Map() && k in Map() ==> t.Map()[k] == Map()[k]
      ensures forall k :: k in t.Map() && k in other.Map() ==> t.Map()[k] == other.Map()[k]
    {
      var a, b := KeySet(), other.KeySet();
      var rkeys := (a - b) + (b - a);
      t := Collect(rkeys, [this, other], [Map(), other.Map()]);
    }

    /** The `while left(node) is not None: node = left(node)` descent of `_next_item`. */
    static method FarthestNear(t: Tree<V>, d: Direction) returns (node: Tree<V>)
      requires t.Node?
      ensures node.Node? && ItemOf(node) == Extreme(t, d)
    {
      node := t;
      while Near(node, d).Node?
        invariant node.Node? && Extreme(node, d) == Extreme(t, d)
        decreases node
      {
        node := Near(node, d);
      }
    }
  }

  /** `A.union(B).keys()` is `A.keys() | B.keys()`. */
  method UnionKeys<V>(a: ABCTree<V>, b: ABCTree<V>) returns (ks: set<int>)
    requires a.Valid() && b.Valid()
    ensures ks == a.Map().Keys + b.Map().Keys
  {
    var u := a.Union([b]);
    ks := u.KeySet();
    assert [b][0] == b;
    forall k | k in a.Map() || k in b.Map()
      ensures k in ks
    {
    }
    assert forall k :: k in ks ==> k in a.Map().Keys + b.Map().Keys;
    assert forall k :: k in a.Map().Keys + b.Map().Keys ==> k in ks;
  }

  /** In `A.union(B)` a key of `A` keeps its value in `A`. */
  method UnionPrefersSelf<V>(a: ABCTree<V>, b: ABCTree<V>, key: int) returns (r: Result<V>)
    requires a.Valid() && b.Valid()
    ensures key in a.Map() ==> r == Ok(a.Map()[key])
    ensures key !in a.Map() && key in b.Map() ==> r == Ok(b.Map()[key])
    ensures key !in a.Map() && key !in b.Map() ==> r == Err(KeyError)
  {
    var u := a.Union([b]);
    ghost var ms := Maps([a] + [b]);
    assert ms[0] == a.Map() && ms[1] == b.Map();
    assert [a] + [b] == [a, b];
    if key !in a.Map() && key in b.Map() {
      assert [b][0] == b;
      FirstBindingAt(ms, key, 1);
    }
    r := u.GetValue(key);
  }

  /** `A.intersection(B)` is a subset of both `A` and `B`. */
  method IntersectionIsSubset<V>(a: ABCTree<V>, b: ABCTree<V>) returns (ofA: bool, ofB: bool)
    requires a.Valid() && b.Valid()
    ensures ofA && ofB
  {
    var t := a.Intersection([b]);
    ofA := t.IsSubset(a);
    ofB := t.IsSubset(b);
    assert [b][0] == b;
  }

  /** `A.symmetric_difference(B)` holds no key present in both. */
  method SymmetricDifferenceShares<V>(a: ABCTree<V>, b: ABCTree<V>) returns (shared: set<int>)
    requires a.Valid() && b.Valid()
    ensures shared == {}
  {
    var t := a.SymmetricDifference(b);
    shared := t.KeySet() * a.KeySet() * b.KeySet();
    assert forall k :: k in shared ==> false;
  }

  /** How often `for _ in range(min(length, n))` runs. */
  function RangeCount(n: int, length: nat): (k: nat)
    ensures k <= length
  {
    var m := if length < n then length else n;
    if m < 0 then 0 else m
  }

  /** Every tree of `trees` is well formed. */
  ghost predicate AllValid<V>(trees: seq<ABCTree<V>>)
    reads trees
  {
    forall i :: 0 <= i < |trees| ==> trees[i].Valid()
  }

  /** The maps held by `trees`, in order. */
  ghost function Maps<V>(trees: seq<ABCTree<V>>): (ms: seq<map<int, V>>)
    reads trees
    ensures |ms| == |trees| && forall i :: 0 <= i < |trees| ==> ms[i] == trees[i].Map()
  {
    if trees == [] then []
    else [trees[0].Map()] + Maps(trees[1..])
  }

  /** `_build_sets(trees)`: the key set of each tree. */
  function BuildSets<V>(trees: seq<ABCTree<V>>): (sets: seq<set<int>>)
    reads trees
    requires AllValid(trees)
    ensures |sets| == |trees| && forall i :: 0 <= i < |trees| ==> sets[i] == trees[i].Map().Keys
  {
    if trees == [] then []
    else [trees[0].KeySet()] + BuildSets(trees[1..])
  }

  /** `_multi_tree_get(trees, key)`: the value of `key` in the first tree
      that holds it; `KeyError` when none does. */
  method MultiTreeGet<V>(trees: seq<ABCTree<V>>, key: int) returns (r: Result<V>)
    requires AllValid(trees)
    ensures r.Ok? <==> FirstBinding(Maps(trees), key).Some?
    ensures r.Ok? ==> FirstBinding(Maps(trees), key) == Some(r.value)
    ensures r.Err? ==> r.error == KeyError
  {
    for i := 0 to |trees|
      invariant forall j :: 0 <= j < i ==> key !in trees[j].Map()
    {
      var g := trees[i].GetValue(key);
      if g.Ok? {
        FirstBindingAt(Maps(trees), key, i);
        return Ok(g.value);
      }
    }
    FirstBindingSpec(Maps(trees), key);
    return Err(KeyError);
  }

  /** The constructor call `cls((key, _multi_tree_get(trees, key)) for key in
      rkeys)` shared by the set operations: the pairs are looked up, in no
      particular order, and a new tree is updated with them. */
  method Collect<V>(rkeys: set<int>, trees: seq<ABCTree<V>>, ghost ms: seq<map<int, V>>) returns (t: ABCTree<V>)
    requires AllValid(trees) && ms == Maps(trees)
    requires forall k :: k in rkeys ==> FirstBinding(ms, k).Some?
    ensures fresh(t) && t.Valid()
    ensures t.Map().Keys == rkeys
    ensures forall k :: k in t.Map() ==> Some(t.Map()[k]) == FirstBinding(ms, k)
  {
    var items := Lookups(rkeys, trees, ms);
    t := new ABCTree();
    t.Update([items]);
    AssignFromLookups(items, ms);
  }

  /** The pairs `(key, _multi_tree_get(trees, key))` for the keys of `rkeys`. */
  method Lookups<V>(rkeys: set<int>, trees: seq<ABCTree<V>>, ghost ms: seq<map<int, V>>) returns (items: seq<Item<V>>)
    requires AllValid(trees) && ms == Maps(trees)
    requires forall k :: k in rkeys ==> FirstBinding(ms, k).Some?
    ensures KeysIn(items) == rkeys
    ensures forall i, j :: 0 <= i < j < |items| ==> items[i].0 != items[j].0
    ensures forall i :: 0 <= i < |items| ==> Some(items[i].1) == FirstBinding(ms, items[i].0)
  {
    items := [];
    var pending := rkeys;
    while pending != {}
      invariant pending <= rkeys && KeysIn(items) == rkeys - pending
      invariant forall i, j :: 0 <= i < j < |items| ==> items[i].0 != items[j].0
      invariant forall i :: 0 <= i < |items| ==> Some(items[i].1) == FirstBinding(ms, items[i].0)
      decreases |pending|
    {
      HasMember(pending);
      var k :| k in pending;
      var r := MultiTreeGet(trees, k);
      LookupStep(items, (k, r.value), ms, rkeys, pending, items + [(k, r.value)], pending - {k});
      items := items + [(k, r.value)];
      pending := pending - {k};
    }
  }

  /** One lookup of `Lookups` keeps its invariant and shrinks `pending`. */
  lemma LookupStep<V>(items: seq<Item<V>>, x: Item<V>, ms: seq<map<int, V>>, rkeys: set<int>, pending: set<int>,
                      items': seq<Item<V>>, pending': set<int>)
    requires pending <= rkeys && KeysIn(items) == rkeys - pending
    requires forall i :: 0 <= i < |items| ==> Some(items[i].1) == FirstBinding(ms, items[i].0)
    requires forall i, j :: 0 <= i < j < |items| ==> items[i].0 != items[j].0
    requires x.0 in pending && Some(x.1) == FirstBinding(ms, x.0)
    requires items' == items + [x] && pending' == pending - {x.0}
    ensures pending' <= rkeys && KeysIn(items') == rkeys - pending'
    ensures forall i :: 0 <= i < |items'| ==> Some(items'[i].1) == FirstBinding(ms, items'[i].0)
    ensures forall i, j :: 0 <= i < j < |items'| ==> items'[i].0 != items'[j].0
    ensures |pending'| < |pending|
  {
    KeysInSnoc(items, x);
    assert forall i :: 0 <= i < |items| ==> items[i].0 in KeysIn(items);
  }

  /** Inserting pairs that each carry a key's first binding in `ms` binds
      exactly their keys, each to that binding. */
  lemma AssignFromLookups<V>(items: seq<Item<V>>, ms: seq<map<int, V>>)
    requires forall i :: 0 <= i < |items| ==> Some(items[i].1) == FirstBinding(ms, items[i].0)
    ensures AssignAll(map[], [items]).Keys == KeysIn(items)
    ensures forall k :: k in AssignAll(map[], [items]) ==> Some(AssignAll(map[], [items])[k]) == FirstBinding(ms, k)
  {
    var e: map<int, V> := map[];
    var a := AssignAll(e, [items]);
    assert [items][..0] == [];
    assert AssignAll(e, []) == e;
    assert a == Assign(e, items);
    forall k
      ensures k in a.Keys <==> k in KeysIn(items)
      ensures k in a ==> Some(a[k]) == FirstBinding(ms, k)
    {
      AssignSpec(e, items, k);
      if k in a {
        var i :| 0 <= i < |items| && items[i].0 == k;
        LastCarrier(items, k, i);
      }
    }
    assert forall k :: k in a.Keys ==> k in KeysIn(items);
    assert a.Keys == KeysIn(items);
  }
}
