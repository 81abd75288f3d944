/** `foreach`: a recursive visit of every node in preorder (`order == -1`),
    inorder (`0`) or postorder (`+1`), given here as the sequence of items
    the callback receives. */
module Traversal {
  import opened Wrappers
  import opened Nodes

  /** The items handed to the callback, in call order; an order other than
      -1, 0 and +1 visits every node without calling it. */
  function Traverse<V>(t: Tree<V>, order: int): seq<Item<V>> {
    match t
    case Leaf => []
    case Node(l, k, v, r) =>
      (if order == -1 then [(k, v)] else [])
      + Traverse(l, order)
      + (if order == 0 then [(k, v)] else [])
      + Traverse(r, order)
      + (if order == 1 then [(k, v)] else [])
  }

  /** Each of the three orders hands over every item exactly once. */
  lemma {:induction false} TraverseVisitsAll<V>(t: Tree<V>, order: int)
    requires order in {-1, 0, 1}
    ensures multiset(Traverse(t, order)) == multiset(Walk(t, Forward))
  {
    if t.Node? {
      var Node(l, k, v, r) := t;
      TraverseVisitsAll(l, order);
      TraverseVisitsAll(r, order);
      assert multiset(Traverse(t, order)) == multiset(Traverse(l, order)) + multiset{(k, v)} + multiset(Traverse(r, order));
    }
  }

  /** Inorder is the forward walk. */
  lemma {:induction false} InorderIsWalk<V>(t: Tree<V>)
    ensures Traverse(t, 0) == Walk(t, Forward)
  {
    if t.Node? {
      InorderIsWalk(t.left);
      InorderIsWalk(t.right);
    }
  }

  /** Any other order calls nothing. */
  lemma {:induction false} OtherOrderVisitsNothing<V>(t: Tree<V>, order: int)
    requires order !in {-1, 0, 1}
    ensures Traverse(t, order) == []
  {
    if t.Node? {
      OtherOrderVisitsNothing(t.left, order);
      OtherOrderVisitsNothing(t.right, order);
    }
  }

  /** Each of the three orders lists bindings of a search tree's map and
      reaches every key. */
  lemma TraversalCovers<V>(t: Tree<V>, order: int)
    requires Bst(t) && order in {-1, 0, 1}
    ensures forall i :: 0 <= i < |Traverse(t, order)| ==>
      Traverse(t, order)[i].0 in ToMap(t) && ToMap(t)[Traverse(t, order)[i].0] == Traverse(t, order)[i].1
    ensures forall k :: k in ToMap(t) ==> exists i :: 0 <= i < |Traverse(t, order)| && Traverse(t, order)[i].0 == k
  {
    TraverseVisitsAll(t, order);
    WalkSpec(t, Forward);
    SameItemsCover(Traverse(t, order), Walk(t, Forward), ToMap(t));
  }

  /** The node `pop_item` settles on: left while possible, else right, until
      a node without children. */
  function FirstPostorder<V>(t: Tree<V>): Item<V>
    requires t.Node?
  {
    if t.left.Node? then FirstPostorder(t.left)
    else if t.right.Node? then FirstPostorder(t.right)
    else ItemOf(t)
  }

  /** That node is the first one a postorder visit hands to the callback. */
  lemma {:induction false} FirstPostorderIsHead<V>(t: Tree<V>)
    requires t.Node?
    ensures Traverse(t, 1) != [] && Traverse(t, 1)[0] == FirstPostorder(t)
  {
    if t.left.Node? {
      FirstPostorderIsHead(t.left);
    } else if t.right.Node? {
      FirstPostorderIsHead(t.right);
    }
  }

  /** A rearrangement of an enumeration of `m` lists bindings of `m` and reaches every key. */
  lemma SameItemsCover<V>(p: seq<Item<V>>, w: seq<Item<V>>, m: map<int, V>)
    requires multiset(p) == multiset(w) && Enumerates(w, m)
    ensures forall i :: 0 <= i < |p| ==> p[i].0 in m && m[p[i].0] == p[i].1
    ensures forall k :: k in m ==> exists i :: 0 <= i < |p| && p[i].0 == k
  {
    forall i | 0 <= i < |p|
      ensures p[i].0 in m && m[p[i].0] == p[i].1
    {
      assert p[i] in multiset(w);
      var j :| 0 <= j < |w| && w[j] == p[i];
    }
    forall k | k in m
      ensures exists i :: 0 <= i < |p| && p[i].0 == k
    {
      assert (k, m[k]) in multiset(p);
      var i :| 0 <= i < |p| && p[i] == (k, m[k]);
    }
  }

  /** `foreach` as written: `_traverse` is first applied to the root without a
      `None` check, so on an empty tree it reads `key` (preorder) or `left`
      (every other order) of `None`. */
  function ForeachAsWritten<V>(t: Tree<V>, order: int): (r: Result<seq<Item<V>>>)
    ensures r.Err? <==> t.Leaf?
    ensures r.Err? ==> r.error == AttributeError
    ensures r.Ok? && order in {-1, 0, 1} ==> multiset(r.value) == multiset(Walk(t, Forward))
    ensures r.Ok? && order !in {-1, 0, 1} ==> r.value == []
  {
    if t.Leaf? then Err(AttributeError)
    else if order in {-1, 0, 1} then
      TraverseVisitsAll(t, order);
      Ok(Traverse(t, order))
    else
      OtherOrderVisitsNothing(t, order);
      Ok(Traverse(t, order))
  }

  /** The empty tree, which holds nothing to visit, makes `foreach` — and so
      `copy`, which is `foreach(insert, order=-1)` — fail. */
  lemma EmptyForeachFails<V>()
    ensures ToMap<V>(Leaf) == map[]
    ensures ForeachAsWritten<V>(Leaf, -1) == Err(AttributeError)
    ensures Traverse<V>(Leaf, -1) == []
  {
  }
}
