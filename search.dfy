/** What the navigating descents of the tree compute: the extreme item
    (`min_item`/`max_item`), the next item after a key (`succ_item`/`prev_item`)
    and the closest item at or before a key (`floor_item`/`ceiling_item`).
    Each is defined by recursion on the nodes, the way the loops descend,
    and then characterised on the tree's map. */
module Search {
  import opened Wrappers
  import opened Nodes

  /** `a` if it holds an item, otherwise `b`. */
  function Pick<T>(a: Option<T>, b: Option<T>): Option<T> {
    if a.Some? then a else b
  }

  /** `k` is bound in `m` and comes first among `m`'s keys in direction `d`. */
  ghost predicate IsExtreme<V>(m: map<int, V>, d: Direction, k: int) {
    k in m && forall y :: y in m && y != k ==> Before(d, k, y)
  }

  /** `k` is bound in `m`, comes after `key` in direction `d`, and no key of
      `m` lies strictly between them. */
  ghost predicate IsNext<V>(m: map<int, V>, key: int, d: Direction, k: int) {
    && k in m && Before(d, key, k)
    && forall y :: y in m && Before(d, key, y) ==> y == k || Before(d, k, y)
  }

  /** `k` is bound in `m`, is `key` or comes before it in direction `d`, and no
      key of `m` lies strictly between them: the floor (forward) or the
      ceiling (backward). */
  ghost predicate IsClosest<V>(m: map<int, V>, key: int, d: Direction, k: int) {
    && k in m && (k == key || Before(d, k, key))
    && forall y :: y in m && (y == key || Before(d, y, key)) ==> y == k || Before(d, y, k)
  }

  /** The item reached by following `Near` children as far as they go. */
  function Extreme<V>(t: Tree<V>, d: Direction): Item<V>
    requires t.Node?
  {
    if Near(t, d).Leaf? then ItemOf(t) else Extreme(Near(t, d), d)
  }

  lemma {:induction false} ExtremeSpec<V>(t: Tree<V>, d: Direction)
    requires Bst(t) && t.Node?
    ensures IsExtreme(ToMap(t), d, Extreme(t, d).0)
    ensures ToMap(t)[Extreme(t, d).0] == Extreme(t, d).1
  {
    Oriented(t, d);
    ChildrenWithin(t, d);
    if Near(t, d).Node? {
      ExtremeSpec(Near(t, d), d);
      var e := Extreme(t, d).0;
      forall y | y in Keys(t) && y != e
        ensures Before(d, e, y)
      {
        if y != t.key && y !in Keys(Near(t, d)) {
          assert Before(d, e, t.key);
        }
      }
    }
  }

  /** The extreme item is the first item of the walk in that direction. */
  lemma {:induction false} ExtremeIsWalkHead<V>(t: Tree<V>, d: Direction)
    requires t.Node?
    ensures |Walk(t, d)| > 0 && Walk(t, d)[0] == Extreme(t, d)
  {
    if Near(t, d).Node? {
      ExtremeIsWalkHead(Near(t, d), d);
    }
  }

  /** One step of a search for `key` below `t`: the child the key must be in,
      if anywhere, keeps the key's binding and only loses keys. */
  lemma Descend<V>(t: Tree<V>, key: int, d: Direction)
    requires Bst(t) && t.Node? && key != t.key
    ensures var c := if Before(d, key, t.key) then Near(t, d) else Far(t, d);
      && Bst(c)
      && Keys(c) <= Keys(t)
      && (key in ToMap(t) <==> key in ToMap(c))
      && (key in ToMap(c) ==> ToMap(t)[key] == ToMap(c)[key])
  {
    Oriented(t, d);
    ChildrenWithin(t, d);
  }

  /** The item after `key` in direction `d`, following `_next_item`: the
      extreme of the far subtree of `key`'s node, or else the last node on
      the way down at which the search turned to the near side. */
  ghost function Next<V>(t: Tree<V>, key: int, d: Direction): Option<Item<V>>
    requires Bst(t) && key in Keys(t)
    decreases t
  {
    var Node(_, _, _, _) := t;
    Oriented(t, d);
    if key == t.key then
      if Far(t, d).Node? then Some(Extreme(Far(t, d), d)) else None
    else if Before(d, key, t.key) then
      Pick(Next(Near(t, d), key, d), Some(ItemOf(t)))
    else
      Next(Far(t, d), key, d)
  }

  /** One step of the search in `_next_item`: the child to follow keeps `key`
      and `Next`; when the search turns to the near side, the node becomes the
      candidate and bounds every key below it. */
  lemma NextStep<V>(t: Tree<V>, key: int, d: Direction)
    requires Bst(t) && t.Node? && key != t.key
    ensures var c := if Before(d, key, t.key) then Near(t, d) else Far(t, d);
      && Bst(c) && Keys(c) <= Keys(t)
      && (key in Keys(t) <==> key in Keys(c))
      && (key in Keys(c) ==>
            Next(t, key, d) == (if Before(d, key, t.key) then Pick(Next(c, key, d), Some(ItemOf(t))) else Next(c, key, d)))
      && (Before(d, key, t.key) ==> forall y :: y in Keys(c) ==> Before(d, y, t.key))
  {
    Oriented(t, d);
  }

  /** Where `_next_item` finds `key`: the answer is the extreme of the far
      subtree, which precedes every other key below the node. */
  lemma NextAtKey<V>(t: Tree<V>, d: Direction)
    requires Bst(t) && t.Node?
    ensures Next(t, t.key, d) == if Far(t, d).Node? then Some(Extreme(Far(t, d), d)) else None
    ensures Far(t, d).Node? ==> Extreme(Far(t, d), d).0 in Keys(t)
  {
    Oriented(t, d);
    if Far(t, d).Node? {
      ExtremeSpec(Far(t, d), d);
    }
  }

  lemma {:induction false} NextSpec<V>(t: Tree<V>, key: int, d: Direction)
    requires Bst(t) && key in Keys(t)
    ensures Next(t, key, d).Some? <==> exists y :: y in Keys(t) && Before(d, key, y)
    ensures Next(t, key, d).Some? ==>
      var x := Next(t, key, d).value;
      IsNext(ToMap(t), key, d, x.0) && ToMap(t)[x.0] == x.1
    decreases t
  {
    Oriented(t, d);
    ChildrenWithin(t, d);
    var n, f := Near(t, d), Far(t, d);
    var m := ToMap(t);
    if key == t.key {
      if f.Node? {
        ExtremeSpec(f, d);
        var e := Extreme(f, d).0;
        assert e in Keys(t) && Before(d, key, e);
        forall y | y in m && Before(d, key, y)
          ensures y == e || Before(d, e, y)
        {
          assert y in Keys(f);
        }
      } else {
        forall y | y in Keys(t) ensures !Before(d, key, y) {
          assert y == key || y in Keys(n);
        }
      }
    } else if Before(d, key, t.key) {
      NextSpec(n, key, d);
      var x := Next(t, key, d).value;
      assert Before(d, key, t.key) && t.key in Keys(t);
      if Next(n, key, d).Some? {
        forall y | y in m && Before(d, key, y)
          ensures y == x.0 || Before(d, x.0, y)
        {
          if y !in Keys(n) {
            assert Before(d, x.0, t.key);
          }
        }
      } else {
        forall y | y in m && Before(d, key, y)
          ensures y == t.key || Before(d, t.key, y)
        {
          if y in Keys(n) {
            assert false;
          }
        }
      }
    } else {
      NextSpec(f, key, d);
      forall y | y in Keys(t) && Before(d, key, y)
        ensures y in Keys(f)
      {
        assert Before(d, t.key, key);
      }
    }
  }

  /** The item at or before `key` in direction `d`, following `floor_item`
      (forward) and `ceiling_item` (backward): `key`'s own node, or else the
      last node on the way down at which the search turned to the far side. */
  ghost function Closest<V>(t: Tree<V>, key: int, d: Direction): Option<Item<V>>
    decreases t
  {
    match t
    case Leaf => None
    case Node(_, _, _, _) =>
      if key == t.key then Some(ItemOf(t))
      else if Before(d, key, t.key) then Closest(Near(t, d), key, d)
      else Pick(Closest(Far(t, d), key, d), Some(ItemOf(t)))
  }

  /** One step of the search in `floor_item` and `ceiling_item`: when the
      search turns to the far side, the node becomes the candidate and every
      key below the far child comes after it. */
  lemma ClosestStep<V>(t: Tree<V>, key: int, d: Direction)
    requires Bst(t) && t.Node? && key != t.key
    ensures var c := if Before(d, key, t.key) then Near(t, d) else Far(t, d);
      && Bst(c) && Keys(c) <= Keys(t)
      && Closest(t, key, d) ==
           (if Before(d, key, t.key) then Closest(c, key, d) else Pick(Closest(c, key, d), Some(ItemOf(t))))
      && (!Before(d, key, t.key) ==> forall y :: y in Keys(c) ==> Before(d, t.key, y))
  {
    Oriented(t, d);
  }

  lemma {:induction false} ClosestSpec<V>(t: Tree<V>, key: int, d: Direction)
    requires Bst(t)
    ensures Closest(t, key, d).Some? <==> exists y :: y in Keys(t) && (y == key || Before(d, y, key))
    ensures Closest(t, key, d).Some? ==>
      var x := Closest(t, key, d).value;
      IsClosest(ToMap(t), key, d, x.0) && ToMap(t)[x.0] == x.1
    decreases t
  {
    if t.Node? {
      Oriented(t, d);
      ChildrenWithin(t, d);
      var n, f := Near(t, d), Far(t, d);
      var m := ToMap(t);
      if key == t.key {
      } else if Before(d, key, t.key) {
        ClosestSpec(n, key, d);
        forall y | y in Keys(t) && (y == key || Before(d, y, key))
          ensures y in Keys(n)
        {
          if y !in Keys(n) {
            assert false;
          }
        }
      } else {
        ClosestSpec(f, key, d);
        assert t.key in Keys(t) && Before(d, t.key, key);
        var x := Closest(t, key, d).value;
        if Closest(f, key, d).Some? {
          forall y | y in m && (y == key || Before(d, y, key))
            ensures y == x.0 || Before(d, y, x.0)
          {
            if y !in Keys(f) {
              assert Before(d, t.key, x.0);
            }
          }
        } else {
          forall y | y in m && (y == key || Before(d, y, key))
            ensures y == t.key || Before(d, y, t.key)
          {
            if y in Keys(f) {
              assert false;
            }
          }
        }
      }
    }
  }

  /** The floor exists exactly when some key is at most `key`. */
  lemma FloorExists<V>(t: Tree<V>, key: int)
    requires Bst(t)
    ensures Closest(t, key, Forward).Some? <==> exists y :: y in ToMap(t) && y <= key
  {
    ClosestSpec(t, key, Forward);
    if Closest(t, key, Forward).Some? {
      var y :| y in Keys(t) && (y == key || Before(Forward, y, key));
      assert y in ToMap(t) && y <= key;
    } else {
      forall y | y in ToMap(t)
        ensures key < y
      {
        assert y in Keys(t);
        assert !(y == key || Before(Forward, y, key));
      }
    }
  }

  /** The ceiling exists exactly when some key is at least `key`. */
  lemma CeilingExists<V>(t: Tree<V>, key: int)
    requires Bst(t)
    ensures Closest(t, key, Backward).Some? <==> exists y :: y in ToMap(t) && y >= key
  {
    ClosestSpec(t, key, Backward);
    if Closest(t, key, Backward).Some? {
      var y :| y in Keys(t) && (y == key || Before(Backward, y, key));
      assert y in ToMap(t) && y >= key;
    } else {
      forall y | y in ToMap(t)
        ensures y < key
      {
        assert y in Keys(t);
        assert !(y == key || Before(Backward, y, key));
      }
    }
  }
}
