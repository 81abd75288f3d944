/** The node layout every concrete tree shares: a node holds `key`, `value`,
    `left` and `right`.  Keys are integers under their usual strict order.
    This module gives the structure its meaning: the key set, the binary
    search tree ordering, the key->value map the nodes denote, and the
    in-order walk in either direction. */
module Nodes {
  import opened Wrappers

  datatype Tree<V> = Leaf | Node(left: Tree<V>, key: int, value: V, right: Tree<V>)

  /** A `(key, value)` pair as the tree hands it out. */
  type Item<V> = (int, V)

  /** Forward walks the natural `left`/`right` children and compares with `<`;
      Backward swaps the children and compares with `>`. */
  datatype Direction = Forward | Backward

  /** The direction a `reverse` flag asks for. */
  function DirectionOf(reverse: bool): Direction {
    if reverse then Backward else Forward
  }

  /** The child the walk descends into first (`left` forward, `right` backward). */
  function Near<V>(t: Tree<V>, d: Direction): Tree<V>
    requires t.Node?
  {
    if d == Forward then t.left else t.right
  }

  /** The other child. */
  function Far<V>(t: Tree<V>, d: Direction): Tree<V>
    requires t.Node?
  {
    if d == Forward then t.right else t.left
  }

  /** The comparison of the direction: `a < b` forward, `a > b` backward. */
  predicate Before(d: Direction, a: int, b: int) {
    if d == Forward then a < b else a > b
  }

  function ItemOf<V>(t: Tree<V>): Item<V>
    requires t.Node?
  {
    (t.key, t.value)
  }

  function Keys<V>(t: Tree<V>): set<int> {
    match t
    case Leaf => {}
    case Node(l, k, _, r) => Keys(l) + {k} + Keys(r)
  }

  /** The number of nodes. */
  function Size<V>(t: Tree<V>): nat {
    match t
    case Leaf => 0
    case Node(l, _, _, r) => Size(l) + 1 + Size(r)
  }

  /** Every key of the left subtree is smaller than the node's key, every key
      of the right subtree larger; hence no key occurs twice. */
  predicate Bst<V>(t: Tree<V>) {
    match t
    case Leaf => true
    case Node(l, k, _, r) =>
      && Bst(l) && Bst(r)
      && (forall x :: x in Keys(l) ==> x < k)
      && (forall x :: x in Keys(r) ==> k < x)
  }

  /** The key->value map the nodes denote. */
  ghost function ToMap<V>(t: Tree<V>): (m: map<int, V>)
    ensures m.Keys == Keys(t)
  {
    match t
    case Leaf => map[]
    case Node(l, k, v, r) => (ToMap(l) + ToMap(r))[k := v]
  }

  /** `sub`'s bindings are bindings of `t`. */
  ghost predicate Within<V>(sub: Tree<V>, t: Tree<V>) {
    forall x :: x in ToMap(sub) ==> x in ToMap(t) && ToMap(t)[x] == ToMap(sub)[x]
  }

  /** The search-tree ordering seen from a direction. */
  lemma Oriented<V>(t: Tree<V>, d: Direction)
    requires Bst(t) && t.Node?
    ensures Bst(Near(t, d)) && Bst(Far(t, d))
    ensures forall x :: x in Keys(Near(t, d)) ==> Before(d, x, t.key)
    ensures forall x :: x in Keys(Far(t, d)) ==> Before(d, t.key, x)
    ensures Keys(t) == Keys(Near(t, d)) + {t.key} + Keys(Far(t, d))
  {
  }

  /** Both children's bindings are bindings of the node, and the node binds its own key. */
  lemma ChildrenWithin<V>(t: Tree<V>, d: Direction)
    requires Bst(t) && t.Node?
    ensures Within(Near(t, d), t) && Within(Far(t, d), t)
    ensures t.key in ToMap(t) && ToMap(t)[t.key] == t.value
  {
    Oriented(t, d);
  }

  /** The in-order walk: `Near` subtree, the node, `Far` subtree. */
  function Walk<V>(t: Tree<V>, d: Direction): seq<Item<V>> {
    match t
    case Leaf => []
    case Node(l, k, v, r) =>
      if d == Forward then Walk(l, d) + [(k, v)] + Walk(r, d)
      else Walk(r, d) + [(k, v)] + Walk(l, d)
  }

  /** Keys strictly increase (forward) or strictly decrease (backward). */
  ghost predicate Ordered<V>(s: seq<Item<V>>, d: Direction) {
    forall i, j :: 0 <= i < j < |s| ==> Before(d, s[i].0, s[j].0)
  }

  /** `s` holds exactly the bindings of `m`. */
  ghost predicate Enumerates<V>(s: seq<Item<V>>, m: map<int, V>) {
    && (forall i :: 0 <= i < |s| ==> s[i].0 in m && m[s[i].0] == s[i].1)
    && (forall k :: k in m ==> (k, m[k]) in s)
  }

  /** The walk lists the tree's map in strictly ascending (forward) or
      strictly descending (backward) key order. */
  lemma {:induction false} WalkSpec<V>(t: Tree<V>, d: Direction)
    requires Bst(t)
    ensures Enumerates(Walk(t, d), ToMap(t))
    ensures Ordered(Walk(t, d), d)
  {
    match t
    case Leaf =>
    case Node(l, k, v, r) =>
      Oriented(t, d);
      WalkSpec(Near(t, d), d);
      WalkSpec(Far(t, d), d);
      JoinEnumerates(t, d);
      JoinOrdered(Walk(Near(t, d), d), (k, v), Walk(Far(t, d), d), d);
  }

  /** The walk visits each key once. */
  lemma {:induction false} WalkLength<V>(t: Tree<V>, d: Direction)
    requires Bst(t)
    ensures |Walk(t, d)| == |Keys(t)|
  {
    match t
    case Leaf =>
    case Node(l, k, v, r) =>
      WalkLength(l, d);
      WalkLength(r, d);
      var kl, kr := Keys(l), Keys(r);
      assert kl !! kr by {
        forall x | x in kl ensures x !in kr {}
      }
      assert |kl + kr| == |kl| + |kr|;
      assert k !in kl + kr;
      assert Keys(t) == (kl + kr) + {k};
  }

  /** The walk visits each node once. */
  lemma {:induction false} WalkSize<V>(t: Tree<V>, d: Direction)
    ensures |Walk(t, d)| == Size(t)
  {
    match t
    case Leaf =>
    case Node(l, k, v, r) =>
      WalkSize(l, d);
      WalkSize(r, d);
  }

  /** In a search tree the node count is the number of distinct keys. */
  lemma SizeIsKeys<V>(t: Tree<V>)
    requires Bst(t)
    ensures Size(t) == |Keys(t)|
  {
    WalkLength(t, Forward);
    WalkSize(t, Forward);
  }

  /** An ordered walk of the near side, the node, then an ordered walk of the far side is ordered. */
  lemma JoinOrdered<V>(a: seq<Item<V>>, x: Item<V>, b: seq<Item<V>>, d: Direction)
    requires Ordered(a, d) && Ordered(b, d)
    requires forall i :: 0 <= i < |a| ==> Before(d, a[i].0, x.0)
    requires forall j :: 0 <= j < |b| ==> Before(d, x.0, b[j].0)
    ensures Ordered(a + [x] + b, d)
  {
    var w := a + [x] + b;
    forall i, j | 0 <= i < j < |w|
      ensures Before(d, w[i].0, w[j].0)
    {
      if j > |a| {
        assert w[j] == b[j - |a| - 1];
        if i > |a| {
          assert w[i] == b[i - |a| - 1];
        }
      }
    }
  }

  /** The node's walk enumerates the node's map, given that its children's walks enumerate theirs. */
  lemma JoinEnumerates<V>(t: Tree<V>, d: Direction)
    requires Bst(t) && t.Node?
    requires Enumerates(Walk(Near(t, d), d), ToMap(Near(t, d)))
    requires Enumerates(Walk(Far(t, d), d), ToMap(Far(t, d)))
    ensures Enumerates(Walk(t, d), ToMap(t))
    ensures forall i :: 0 <= i < |Walk(Near(t, d), d)| ==> Before(d, Walk(Near(t, d), d)[i].0, t.key)
    ensures forall j :: 0 <= j < |Walk(Far(t, d), d)| ==> Before(d, t.key, Walk(Far(t, d), d)[j].0)
  {
    Oriented(t, d);
    var a, b := Walk(Near(t, d), d), Walk(Far(t, d), d);
    var ma, mb := ToMap(Near(t, d)), ToMap(Far(t, d));
    forall x | x in ma.Keys
      ensures x !in mb.Keys
    {
      assert Before(d, x, t.key);
    }
    assert ToMap(t) == (ma + mb)[t.key := t.value];
    assert Walk(t, d) == a + [ItemOf(t)] + b;
    JoinSound(a, ItemOf(t), b, ma, mb);
    JoinComplete(a, ItemOf(t), b, ma, mb);
  }

  /** Every item of the joined walk is a binding of the joined map. */
  lemma JoinSound<V>(a: seq<Item<V>>, x: Item<V>, b: seq<Item<V>>, ma: map<int, V>, mb: map<int, V>)
    requires Enumerates(a, ma) && Enumerates(b, mb)
    requires ma.Keys !! mb.Keys && x.0 !in ma && x.0 !in mb
    ensures var w, m := a + [x] + b, (ma + mb)[x.0 := x.1];
      forall i :: 0 <= i < |w| ==> w[i].0 in m && m[w[i].0] == w[i].1
  {
    var w, m := a + [x] + b, (ma + mb)[x.0 := x.1];
    forall i | 0 <= i < |w|
      ensures w[i].0 in m && m[w[i].0] == w[i].1
    {
      if i < |a| {
        assert w[i] == a[i];
      } else if i > |a| {
        assert w[i] == b[i - |a| - 1];
      }
    }
  }

  /** Every binding of the joined map is an item of the joined walk. */
  lemma JoinComplete<V>(a: seq<Item<V>>, x: Item<V>, b: seq<Item<V>>, ma: map<int, V>, mb: map<int, V>)
    requires Enumerates(a, ma) && Enumerates(b, mb)
    requires ma.Keys !! mb.Keys && x.0 !in ma && x.0 !in mb
    ensures var w, m := a + [x] + b, (ma + mb)[x.0 := x.1];
      forall k :: k in m ==> (k, m[k]) in w
  {
    var w, m := a + [x] + b, (ma + mb)[x.0 := x.1];
    forall k | k in m
      ensures (k, m[k]) in w
    {
      if k == x.0 {
        assert w[|a|] == x;
      } else if k in ma {
        var p :| 0 <= p < |a| && a[p] == (k, ma[k]);
        assert w[p] == a[p];
      } else {
        var p :| 0 <= p < |b| && b[p] == (k, mb[k]);
        assert w[|a| + 1 + p] == b[p];
      }
    }
  }

  /** An enumeration is empty exactly when its map is. */
  lemma EmptyEnumeration<V>(a: seq<Item<V>>, m: map<int, V>)
    requires Enumerates(a, m)
    ensures a == [] <==> m == map[]
  {
    if a != [] {
      assert a[0].0 in m;
    }
    if a == [] {
      assert forall k :: k !in m;
      assert m == map[];
    }
  }

  /** Two strictly ordered enumerations of one map are the same sequence. */
  lemma {:induction false} OrderedEnumerationUnique<V>(a: seq<Item<V>>, b: seq<Item<V>>, m: map<int, V>, d: Direction)
    requires Enumerates(a, m) && Enumerates(b, m)
    requires Ordered(a, d) && Ordered(b, d)
    ensures a == b
    decreases |a|
  {
    EmptyEnumeration(a, m);
    EmptyEnumeration(b, m);
    if a != [] {
      SameHead(a, b, m, d);
      TailEnumerates(a, m, d);
      TailEnumerates(b, m, d);
      OrderedEnumerationUnique(a[1..], b[1..], m - {a[0].0}, d);
      assert a == [a[0]] + a[1..];
      assert b == [b[0]] + b[1..];
    }
  }

  /** Two ordered enumerations of one map start with the same item. */
  lemma SameHead<V>(a: seq<Item<V>>, b: seq<Item<V>>, m: map<int, V>, d: Direction)
    requires Enumerates(a, m) && Enumerates(b, m) && a != [] && b != []
    requires Ordered(a, d) && Ordered(b, d)
    ensures a[0] == b[0]
  {
    var ka, kb := a[0].0, b[0].0;
    assert (ka, m[ka]) in b;
    assert (kb, m[kb]) in a;
    var i :| 0 <= i < |b| && b[i] == a[0];
    var j :| 0 <= j < |a| && a[j] == b[0];
    assert i != 0 ==> Before(d, b[0].0, a[0].0);
    assert j != 0 ==> Before(d, a[0].0, b[0].0);
  }

  /** Dropping the first item of an ordered enumeration enumerates the rest of the map. */
  lemma TailEnumerates<V>(a: seq<Item<V>>, m: map<int, V>, d: Direction)
    requires Enumerates(a, m) && Ordered(a, d) && a != []
    ensures Enumerates(a[1..], m - {a[0].0}) && Ordered(a[1..], d)
  {
    var m' := m - {a[0].0};
    forall i | 0 <= i < |a[1..]|
      ensures a[1..][i].0 in m' && m'[a[1..][i].0] == a[1..][i].1
    {
      assert a[1..][i] == a[i + 1];
      assert Before(d, a[0].0, a[i + 1].0);
    }
    forall x | x in m'
      ensures (x, m'[x]) in a[1..]
    {
      var p :| 0 <= p < |a| && a[p] == (x, m[x]);
      assert a[1..][p - 1] == a[p];
    }
  }

  /** Reading an ascending enumeration from the back gives a descending one. */
  lemma ReverseEnumerates<V>(f: seq<Item<V>>, r: seq<Item<V>>, m: map<int, V>)
    requires Enumerates(f, m) && Ordered(f, Forward)
    requires |r| == |f| && forall i :: 0 <= i < |r| ==> r[i] == f[|f| - 1 - i]
    ensures Enumerates(r, m) && Ordered(r, Backward)
  {
    forall x | x in m
      ensures (x, m[x]) in r
    {
      var p :| 0 <= p < |f| && f[p] == (x, m[x]);
      assert r[|f| - 1 - p] == f[p];
    }
  }

  /** An ascending and a descending enumeration of one map mirror each other. */
  lemma MirroredEnumerations<V>(f: seq<Item<V>>, b: seq<Item<V>>, m: map<int, V>)
    requires Enumerates(f, m) && Ordered(f, Forward)
    requires Enumerates(b, m) && Ordered(b, Backward)
    ensures |b| == |f| && forall i :: 0 <= i < |b| ==> b[i] == f[|f| - 1 - i]
  {
    var r := seq(|f|, i requires 0 <= i < |f| => f[|f| - 1 - i]);
    ReverseEnumerates(f, r, m);
    OrderedEnumerationUnique(b, r, m, Backward);
  }

  /** The backward walk is the forward walk read from the back. */
  lemma BackwardMirrorsForward<V>(t: Tree<V>)
    requires Bst(t)
    ensures |Walk(t, Backward)| == |Walk(t, Forward)|
    ensures forall i :: 0 <= i < |Walk(t, Backward)| ==>
      Walk(t, Backward)[i] == Walk(t, Forward)[|Walk(t, Forward)| - 1 - i]
  {
    WalkSpec(t, Forward);
    WalkSpec(t, Backward);
    MirroredEnumerations(Walk(t, Forward), Walk(t, Backward), ToMap(t));
  }

  /** The first item of a walk is the extreme of the tree in that direction. */
  lemma WalkHead<V>(t: Tree<V>, d: Direction)
    requires Bst(t) && t.Node?
    ensures |Walk(t, d)| > 0
    ensures Walk(t, d)[0].0 in ToMap(t) && ToMap(t)[Walk(t, d)[0].0] == Walk(t, d)[0].1
    ensures forall y :: y in Keys(t) && y != Walk(t, d)[0].0 ==> Before(d, Walk(t, d)[0].0, y)
  {
    WalkSpec(t, d);
    var w := Walk(t, d);
    var m := ToMap(t);
    assert t.key in m;
    assert (t.key, m[t.key]) in w;
    forall y | y in m && y != w[0].0
      ensures Before(d, w[0].0, y)
    {
      var p :| 0 <= p < |w| && w[p] == (y, m[y]);
    }
  }

  /** Removing the walk's first key from the map leaves the rest of the walk. */
  lemma WalkAfterRemovingHead<V>(t: Tree<V>, t': Tree<V>, d: Direction)
    requires Bst(t) && Bst(t') && t.Node?
    requires ToMap(t') == ToMap(t) - {Walk(t, d)[0].0}
    ensures Walk(t', d) == Walk(t, d)[1..]
  {
    WalkSpec(t, d);
    WalkSpec(t', d);
    WalkHead(t, d);
    TailEnumerates(Walk(t, d), ToMap(t), d);
    OrderedEnumerationUnique(Walk(t', d), Walk(t, d)[1..], ToMap(t'), d);
  }
}
