/** The half-open key range `[start, end)` that `iter_items`, `key_slice`,
    `value_slice` and `del T[start:end]` select, where a missing bound is no
    bound, and the explicit stack of the non-recursive in-order walk. */
module Ranges {
  import opened Wrappers
  import opened Nodes

  /** `start <= x < end`, a `None` bound being no bound. */
  predicate InRange(x: int, start: Option<int>, end: Option<int>) {
    (start.None? || start.value <= x) && (end.None? || x < end.value)
  }

  /** The items of `s` whose keys are in range, in the order of `s`. */
  function Window<V>(s: seq<Item<V>>, start: Option<int>, end: Option<int>): seq<Item<V>> {
    if s == [] then []
    else (if InRange(s[0].0, start, end) then [s[0]] else []) + Window(s[1..], start, end)
  }

  /** The bindings of `m` whose keys are in range. */
  ghost function Restrict<V>(m: map<int, V>, start: Option<int>, end: Option<int>): map<int, V> {
    map k | k in m && InRange(k, start, end) :: m[k]
  }

  /** Bounds that agree on every key of `s` select the same items. */
  lemma {:induction false} WindowAgree<V>(s: seq<Item<V>>, start: Option<int>, end: Option<int>, start': Option<int>, end': Option<int>)
    requires forall i :: 0 <= i < |s| ==> (InRange(s[i].0, start, end) <==> InRange(s[i].0, start', end'))
    ensures Window(s, start, end) == Window(s, start', end')
  {
    if s != [] {
      assert InRange(s[0].0, start, end) <==> InRange(s[0].0, start', end');
      WindowAgree(s[1..], start, end, start', end');
    }
  }

  /** Cutting an ordered enumeration of `m` to the range gives an ordered
      enumeration of the in-range part of `m`. */
  lemma {:induction false} WindowSpec<V>(s: seq<Item<V>>, m: map<int, V>, d: Direction, start: Option<int>, end: Option<int>)
    requires Enumerates(s, m) && Ordered(s, d)
    ensures Enumerates(Window(s, start, end), Restrict(m, start, end))
    ensures Ordered(Window(s, start, end), d)
    decreases |s|
  {
    if s != [] {
      TailEnumerates(s, m, d);
      var m' := m - {s[0].0};
      WindowSpec(s[1..], m', d, start, end);
      WindowStep(s, m, d, start, end);
    } else {
      EmptyEnumeration(s, m);
    }
  }

  /** The induction step of `WindowSpec`: putting the first item back. */
  lemma WindowStep<V>(s: seq<Item<V>>, m: map<int, V>, d: Direction, start: Option<int>, end: Option<int>)
    requires Enumerates(s, m) && Ordered(s, d) && s != []
    requires Enumerates(Window(s[1..], start, end), Restrict(m - {s[0].0}, start, end))
    requires Ordered(Window(s[1..], start, end), d)
    ensures Enumerates(Window(s, start, end), Restrict(m, start, end))
    ensures Ordered(Window(s, start, end), d)
  {
    var x, w' := s[0], Window(s[1..], start, end);
    var r, r' := Restrict(m, start, end), Restrict(m - {x.0}, start, end);
    assert r' == r - {x.0};
    if InRange(x.0, start, end) {
      TailAfterHead(s, m, d, w', r');
      ConsOrdered(x, w', d);
      ConsEnumerates(x, w', r', r);
    } else {
      assert r' == r;
    }
  }

  /** Every key enumerated by a part of the map without the head's key comes after the head. */
  lemma TailAfterHead<V>(s: seq<Item<V>>, m: map<int, V>, d: Direction, w: seq<Item<V>>, mw: map<int, V>)
    requires Enumerates(s, m) && Ordered(s, d) && s != []
    requires Enumerates(w, mw)
    requires forall k :: k in mw ==> k in m && k != s[0].0
    ensures forall i :: 0 <= i < |w| ==> Before(d, s[0].0, w[i].0)
  {
    forall i | 0 <= i < |w|
      ensures Before(d, s[0].0, w[i].0)
    {
      var k := w[i].0;
      assert k in mw;
      var p :| 0 <= p < |s| && s[p] == (k, m[k]);
    }
  }

  lemma ConsOrdered<V>(x: Item<V>, w: seq<Item<V>>, d: Direction)
    requires Ordered(w, d)
    requires forall i :: 0 <= i < |w| ==> Before(d, x.0, w[i].0)
    ensures Ordered([x] + w, d)
  {
    var c := [x] + w;
    forall i, j | 0 <= i < j < |c|
      ensures Before(d, c[i].0, c[j].0)
    {
      assert c[j] == w[j - 1];
      if i > 0 {
        assert c[i] == w[i - 1];
      }
    }
  }

  lemma ConsEnumerates<V>(x: Item<V>, w: seq<Item<V>>, mw: map<int, V>, m: map<int, V>)
    requires Enumerates(w, mw) && mw == m - {x.0}
    requires x.0 in m && m[x.0] == x.1
    ensures Enumerates([x] + w, m)
  {
    var c := [x] + w;
    forall i | 0 < i < |c|
      ensures c[i].0 in m && m[c[i].0] == c[i].1
    {
      assert c[i] == w[i - 1];
    }
    forall k | k in m
      ensures (k, m[k]) in c
    {
      if k != x.0 {
        assert k in mw;
      }
    }
  }

  /** The items of a stack of pending nodes, from the top down: each node
      followed by the walk of its far subtree. */
  function Pending<V>(stack: seq<Tree<V>>, d: Direction): seq<Item<V>>
    requires forall i :: 0 <= i < |stack| ==> stack[i].Node?
  {
    if stack == [] then []
    else
      var top := stack[|stack| - 1];
      [ItemOf(top)] + Walk(Far(top, d), d) + Pending(stack[..|stack| - 1], d)
  }

  /** What the walk has still to visit: the current node's subtree (about to
      descend) or the node itself and its far subtree (coming back up), then
      whatever the stack holds. */
  function Remaining<V>(node: Tree<V>, goLeft: bool, stack: seq<Tree<V>>, d: Direction): seq<Item<V>>
    requires node.Node? && forall i :: 0 <= i < |stack| ==> stack[i].Node?
  {
    (if goLeft then Walk(node, d) else [ItemOf(node)] + Walk(Far(node, d), d)) + Pending(stack, d)
  }

  /** Pushing the node and descending to its near child leaves the same items to visit. */
  lemma PushStep<V>(node: Tree<V>, stack: seq<Tree<V>>, d: Direction)
    requires node.Node? && Near(node, d).Node? && forall i :: 0 <= i < |stack| ==> stack[i].Node?
    ensures forall i :: 0 <= i < |stack + [node]| ==> (stack + [node])[i].Node?
    ensures Remaining(Near(node, d), true, stack + [node], d) == Remaining(node, true, stack, d)
    ensures |Walk(Near(node, d), d)| < |Walk(node, d)|
  {
    var s' := stack + [node];
    assert s'[..|s'| - 1] == stack;
    assert Pending(s', d) == [ItemOf(node)] + Walk(Far(node, d), d) + Pending(stack, d);
    assert Walk(node, d) == Walk(Near(node, d), d) + [ItemOf(node)] + Walk(Far(node, d), d);
  }

  /** Emitting the current node: the rest is its far subtree, then the stack. */
  lemma EmitStep<V>(node: Tree<V>, goLeft: bool, stack: seq<Tree<V>>, d: Direction, start: Option<int>, end: Option<int>)
    requires node.Node? && forall i :: 0 <= i < |stack| ==> stack[i].Node?
    requires goLeft ==> Near(node, d).Leaf?
    ensures var rest := Walk(Far(node, d), d) + Pending(stack, d);
      && Remaining(node, goLeft, stack, d) == [ItemOf(node)] + rest
      && Window(Remaining(node, goLeft, stack, d), start, end)
         == (if InRange(node.key, start, end) then [ItemOf(node)] else []) + Window(rest, start, end)
  {
    var rest := Walk(Far(node, d), d) + Pending(stack, d);
    if goLeft {
      assert Walk(node, d) == [ItemOf(node)] + Walk(Far(node, d), d);
    }
    assert Remaining(node, goLeft, stack, d) == [ItemOf(node)] + rest;
    assert ([ItemOf(node)] + rest)[1..] == rest;
  }

  /** The walk starts at the root with nothing pending. */
  lemma StartWalk<V>(t: Tree<V>, d: Direction, start: Option<int>, end: Option<int>)
    requires t.Node?
    ensures [] + Window(Remaining(t, true, [], d), start, end) == Window(Walk(t, d), start, end)
  {
    assert Remaining(t, true, [], d) == Walk(t, d) + [];
    assert Walk(t, d) + [] == Walk(t, d);
  }

  /** Emitting keeps what has been yielded (`items` before, `items'` after
      the node's item is added if in range), followed by what is still to be
      yielded, equal to the window of the whole walk. */
  lemma EmitKeeps<V>(items: seq<Item<V>>, items': seq<Item<V>>, node: Tree<V>, goLeft: bool, stack: seq<Tree<V>>,
                     d: Direction, start: Option<int>, end: Option<int>, target: seq<Item<V>>)
    requires node.Node? && forall i :: 0 <= i < |stack| ==> stack[i].Node?
    requires goLeft ==> Near(node, d).Leaf?
    requires items + Window(Remaining(node, goLeft, stack, d), start, end) == target
    requires items' == if InRange(node.key, start, end) then items + [ItemOf(node)] else items
    ensures |Walk(Far(node, d), d) + Pending(stack, d)| < |Remaining(node, goLeft, stack, d)|
    ensures items' + Window(Walk(Far(node, d), d) + Pending(stack, d), start, end) == target
  {
    EmitStep(node, goLeft, stack, d, start, end);
    var w := Window(Walk(Far(node, d), d) + Pending(stack, d), start, end);
    var kept := if InRange(node.key, start, end) then [ItemOf(node)] else [];
    assert items' == items + kept;
    assert target == items + (kept + w);
    assert items + (kept + w) == (items + kept) + w;
  }

  /** After emitting, the walk goes on at the far child, or else at the
      stack, which when empty means the window is complete. */
  lemma EmitNext<V>(items': seq<Item<V>>, node: Tree<V>, stack: seq<Tree<V>>,
                    d: Direction, start: Option<int>, end: Option<int>, target: seq<Item<V>>)
    requires node.Node? && forall i :: 0 <= i < |stack| ==> stack[i].Node?
    requires items' + Window(Walk(Far(node, d), d) + Pending(stack, d), start, end) == target
    ensures Far(node, d).Node? ==> items' + Window(Remaining(Far(node, d), true, stack, d), start, end) == target
    ensures Far(node, d).Leaf? ==> items' + Window(Pending(stack, d), start, end) == target
    ensures Far(node, d).Leaf? && stack == [] ==> items' == target
  {
    if Far(node, d).Leaf? {
      assert Walk(Far(node, d), d) + Pending(stack, d) == Pending(stack, d);
      if stack == [] {
        assert items' + [] == items';
      }
    }
  }

  /** Popping the stack: the popped node is revisited from its far side. */
  lemma PopStep<V>(stack: seq<Tree<V>>, d: Direction)
    requires stack != [] && forall i :: 0 <= i < |stack| ==> stack[i].Node?
    ensures Remaining(stack[|stack| - 1], false, stack[..|stack| - 1], d) == Pending(stack, d)
  {
  }

  /** The keys of a sequence of items. */
  function KeysOf<V>(s: seq<Item<V>>): (ks: seq<int>)
    ensures |ks| == |s| && forall i :: 0 <= i < |s| ==> ks[i] == s[i].0
  {
    if s == [] then [] else [s[0].0] + KeysOf(s[1..])
  }

  /** The values of a sequence of items. */
  function ValuesOf<V>(s: seq<Item<V>>): (vs: seq<V>)
    ensures |vs| == |s| && forall i :: 0 <= i < |s| ==> vs[i] == s[i].1
  {
    if s == [] then [] else [s[0].1] + ValuesOf(s[1..])
  }

  /** A lower bound at or below every key of an enumeration selects what no
      lower bound does: `_iter_items` puts `min_key()` for a missing start. */
  lemma LowerBoundAgrees<V>(s: seq<Item<V>>, m: map<int, V>, lo: int, end: Option<int>)
    requires Enumerates(s, m)
    requires forall k :: k in m ==> lo <= k
    ensures Window(s, Some(lo), end) == Window(s, None, end)
  {
    forall i | 0 <= i < |s|
      ensures InRange(s[i].0, Some(lo), end) <==> InRange(s[i].0, None, end)
    {
      assert s[i].0 in m;
    }
    WindowAgree(s, Some(lo), end, None, end);
  }

  /** The set of keys carried by the items of `s`. */
  ghost function KeysIn<V>(s: seq<Item<V>>): set<int> {
    set i | 0 <= i < |s| :: s[i].0
  }

  /** Adding an item adds its key. */
  lemma KeysInSnoc<V>(s: seq<Item<V>>, x: Item<V>)
    ensures KeysIn(s + [x]) == KeysIn(s) + {x.0}
  {
    var t := s + [x];
    assert t[|s|] == x;
    forall k | k in KeysIn(s)
      ensures k in KeysIn(t)
    {
      var i :| 0 <= i < |s| && s[i].0 == k;
      assert t[i] == s[i];
    }
    forall k | k in KeysIn(t)
      ensures k in KeysIn(s) + {x.0}
    {
      var i :| 0 <= i < |t| && t[i].0 == k;
      if i < |s| {
        assert t[i] == s[i];
      }
    }
  }

  /** Taking one more item off a map whose taken keys are `KeysIn(items)`. */
  lemma TakeOneMore<V>(m0: map<int, V>, items: seq<Item<V>>, x: Item<V>, cur: map<int, V>, next: map<int, V>)
    requires cur == m0 - KeysIn(items) && next == cur - {x.0}
    ensures next == m0 - KeysIn(items + [x])
  {
    KeysInSnoc(items, x);
  }

  /** The prefix grows by the next element and the rest loses it. */
  lemma PrefixStep<T>(w: seq<T>, i: int)
    requires 0 <= i < |w|
    ensures w[..i] + [w[i]] == w[..i + 1] && w[i..][1..] == w[i + 1..]
  {
  }

  /** With neither bound every item is kept. */
  lemma {:induction false} WindowEverything<V>(s: seq<Item<V>>)
    ensures Window(s, None, None) == s
  {
    if s != [] {
      WindowEverything(s[1..]);
      assert s == [s[0]] + s[1..];
    }
  }
}
