/** `insert` and `remove` belong to the concrete trees (plain, AVL, red-black),
    not to the shared layer.  This module gives them as a plain unbalanced
    binary search tree: all the shared layer relies on is the map-level
    effect and that the search-tree ordering survives. */
module NodeStore {
  import opened Wrappers
  import opened Nodes

  /** Binds `k` to `v`, replacing the value of an existing node in place or
      hanging a new leaf; the flag says whether a node was added. */
  function InsertNode<V>(t: Tree<V>, k: int, v: V): (Tree<V>, bool) {
    match t
    case Leaf => (Node(Leaf, k, v, Leaf), true)
    case Node(l, x, w, rt) =>
      if k == x then (Node(l, x, v, rt), false)
      else if k < x then
        var (l', added) := InsertNode(l, k, v);
        (Node(l', x, w, rt), added)
      else
        var (r', added) := InsertNode(rt, k, v);
        (Node(l, x, w, r'), added)
  }

  lemma {:induction false} InsertNodeSpec<V>(t: Tree<V>, k: int, v: V)
    requires Bst(t)
    ensures Bst(InsertNode(t, k, v).0)
    ensures ToMap(InsertNode(t, k, v).0) == ToMap(t)[k := v]
    ensures InsertNode(t, k, v).1 <==> k !in Keys(t)
  {
    match t
    case Leaf =>
    case Node(l, x, w, rt) =>
      if k == x {
        assert ToMap(Node(l, x, v, rt)) == ToMap(t)[k := v];
      } else if k < x {
        InsertNodeSpec(l, k, v);
        var l' := InsertNode(l, k, v).0;
        assert Keys(l') == Keys(l) + {k};
        assert k !in Keys(rt);
        UpdateBelow(ToMap(l), ToMap(rt), x, w, k, v);
      } else {
        InsertNodeSpec(rt, k, v);
        var r' := InsertNode(rt, k, v).0;
        assert Keys(r') == Keys(rt) + {k};
        UpdateAbove(ToMap(l), ToMap(rt), x, w, k, v);
      }
  }

  /** A node is added exactly when the flag says so. */
  lemma {:induction false} InsertNodeSize<V>(t: Tree<V>, k: int, v: V)
    ensures Size(InsertNode(t, k, v).0) == Size(t) + if InsertNode(t, k, v).1 then 1 else 0
  {
    match t
    case Leaf =>
    case Node(l, x, w, rt) =>
      if k < x {
        InsertNodeSize(l, k, v);
      } else if x < k {
        InsertNodeSize(rt, k, v);
      }
  }

  /** Rebinding a key of the left part commutes with building the node's map. */
  lemma UpdateBelow<V>(ml: map<int, V>, mr: map<int, V>, x: int, w: V, k: int, v: V)
    requires k != x && k !in mr
    ensures (ml[k := v] + mr)[x := w] == ((ml + mr)[x := w])[k := v]
  {
  }

  /** Rebinding a key of the right part commutes with building the node's map. */
  lemma UpdateAbove<V>(ml: map<int, V>, mr: map<int, V>, x: int, w: V, k: int, v: V)
    requires k != x
    ensures (ml + mr[k := v])[x := w] == ((ml + mr)[x := w])[k := v]
  {
  }

  /** Detaches the node with the smallest key, returning its item and the rest. */
  function RemoveMin<V>(t: Tree<V>): (Item<V>, Tree<V>)
    requires t.Node?
  {
    match t
    case Node(l, x, w, rt) =>
      if l.Leaf? then ((x, w), rt)
      else
        var (m, l') := RemoveMin(l);
        (m, Node(l', x, w, rt))
  }

  lemma {:induction false} RemoveMinSpec<V>(t: Tree<V>)
    requires Bst(t) && t.Node?
    ensures var (m, rest) := RemoveMin(t);
      && m.0 in ToMap(t) && ToMap(t)[m.0] == m.1
      && (forall y :: y in Keys(t) && y != m.0 ==> m.0 < y)
      && Bst(rest) && ToMap(rest) == ToMap(t) - {m.0}
  {
    match t
    case Node(l, x, w, rt) =>
      if l.Leaf? {
        assert ToMap(t) - {x} == ToMap(rt);
      } else {
        RemoveMinSpec(l);
        var (m, l') := RemoveMin(l);
        assert Keys(l') == Keys(l) - {m.0};
        DeleteBelow(ToMap(l), ToMap(rt), x, w, m.0);
      }
  }

  /** Detaching the least node leaves one node fewer. */
  lemma {:induction false} RemoveMinSize<V>(t: Tree<V>)
    requires t.Node?
    ensures Size(RemoveMin(t).1) == Size(t) - 1
  {
    if t.left.Node? {
      RemoveMinSize(t.left);
    }
  }

  /** Deleting a key of the left part commutes with building the node's map. */
  lemma DeleteBelow<V>(ml: map<int, V>, mr: map<int, V>, x: int, w: V, k: int)
    requires k != x && k !in mr
    ensures ((ml - {k}) + mr)[x := w] == (ml + mr)[x := w] - {k}
  {
  }

  /** Deleting a key of the right part commutes with building the node's map. */
  lemma DeleteAbove<V>(ml: map<int, V>, mr: map<int, V>, x: int, w: V, k: int)
    requires k != x && k !in ml
    ensures (ml + (mr - {k}))[x := w] == (ml + mr)[x := w] - {k}
  {
  }

  /** Deletes the node of `k`; a node with two children takes its successor's
      item.  `None` when `k` is absent (the concrete trees raise `KeyError`). */
  function RemoveNode<V>(t: Tree<V>, k: int): Option<Tree<V>> {
    match t
    case Leaf => None
    case Node(l, x, w, rt) =>
      if k < x then
        match RemoveNode(l, k)
        case None => None
        case Some(l') => Some(Node(l', x, w, rt))
      else if x < k then
        match RemoveNode(rt, k)
        case None => None
        case Some(r') => Some(Node(l, x, w, r'))
      else if l.Leaf? then Some(rt)
      else if rt.Leaf? then Some(l)
      else
        var (m, r') := RemoveMin(rt);
        Some(Node(l, m.0, m.1, r'))
  }

  lemma {:induction false} RemoveNodeSpec<V>(t: Tree<V>, k: int)
    requires Bst(t)
    ensures RemoveNode(t, k).None? <==> k !in Keys(t)
    ensures RemoveNode(t, k).Some? ==>
      Bst(RemoveNode(t, k).value) && ToMap(RemoveNode(t, k).value) == ToMap(t) - {k}
  {
    match t
    case Leaf =>
    case Node(l, x, w, rt) =>
      if k < x {
        RemoveNodeSpec(l, k);
        assert k !in Keys(rt);
        if k in Keys(l) {
          var l' := RemoveNode(l, k).value;
          assert Keys(l') == Keys(l) - {k};
          DeleteBelow(ToMap(l), ToMap(rt), x, w, k);
        }
      } else if x < k {
        RemoveNodeSpec(rt, k);
        assert k !in Keys(l);
        if k in Keys(rt) {
          var r' := RemoveNode(rt, k).value;
          assert Keys(r') == Keys(rt) - {k};
          DeleteAbove(ToMap(l), ToMap(rt), x, w, k);
        }
      } else {
        RemoveRootSpec(t);
      }
  }

  /** A successful deletion leaves one node fewer. */
  lemma {:induction false} RemoveNodeSize<V>(t: Tree<V>, k: int)
    ensures RemoveNode(t, k).Some? ==> Size(RemoveNode(t, k).value) == Size(t) - 1
  {
    match t
    case Leaf =>
    case Node(l, x, w, rt) =>
      if k < x {
        RemoveNodeSize(l, k);
      } else if x < k {
        RemoveNodeSize(rt, k);
      } else if l.Node? && rt.Node? {
        RemoveMinSize(rt);
      }
  }

  /** Deleting the key held at the root. */
  lemma RemoveRootSpec<V>(t: Tree<V>)
    requires Bst(t) && t.Node?
    ensures RemoveNode(t, t.key).Some?
    ensures Bst(RemoveNode(t, t.key).value) && ToMap(RemoveNode(t, t.key).value) == ToMap(t) - {t.key}
  {
    var Node(l, x, w, rt) := t;
    if l.Leaf? {
      assert x !in Keys(rt);
      DropRootOf(map[], ToMap(rt), x, w);
    } else if rt.Leaf? {
      assert x !in Keys(l);
      DropRootOf(ToMap(l), map[], x, w);
    } else {
      RemoveTwoChildren(t);
    }
  }

  /** Deleting a node's own key leaves the union of its parts. */
  lemma DropRootOf<V>(ml: map<int, V>, mr: map<int, V>, x: int, w: V)
    requires x !in ml && x !in mr
    ensures (ml + mr)[x := w] - {x} == ml + mr
  {
  }

  /** Deleting the root of a node with two children: its successor, the
      least item on the right, takes its place. */
  lemma RemoveTwoChildren<V>(t: Tree<V>)
    requires Bst(t) && t.Node? && t.left.Node? && t.right.Node?
    ensures RemoveNode(t, t.key) == Some(Node(t.left, RemoveMin(t.right).0.0, RemoveMin(t.right).0.1, RemoveMin(t.right).1))
    ensures Bst(RemoveNode(t, t.key).value) && ToMap(RemoveNode(t, t.key).value) == ToMap(t) - {t.key}
  {
    var Node(l, x, w, rt) := t;
    RemoveMinSpec(rt);
    var (m, r') := RemoveMin(rt);
    assert Keys(r') == Keys(rt) - {m.0};
    ReplaceBySuccessor(ToMap(l), ToMap(rt), x, w, m.0, m.1);
  }

  /** Replacing a node's item by the least item of its right part removes the node's key. */
  lemma ReplaceBySuccessor<V>(ml: map<int, V>, mr: map<int, V>, x: int, w: V, s: int, sv: V)
    requires s in mr && mr[s] == sv && s != x && x !in ml && x !in mr && s !in ml
    ensures (ml + (mr - {s}))[s := sv] == (ml + mr)[x := w] - {x}
  {
  }
}
