/** The key-set algebra behind `intersection`, `union` and `difference`
    (Python's `frozenset.intersection(*sets)` and friends), the first-holder
    lookup of `_multi_tree_get`, and the map a run of insertions leaves
    behind (`update`, `copy`). */
module KeySets {
  import opened Wrappers
  import opened Nodes

  /** `s` intersected with each set of `sets` in turn. */
  function IntersectAll(s: set<int>, sets: seq<set<int>>): (r: set<int>)
    ensures forall k :: k in r <==> k in s && forall i :: 0 <= i < |sets| ==> k in sets[i]
    decreases |sets|
  {
    if sets == [] then s
    else
      var r := IntersectAll(s * sets[0], sets[1..]);
      assert forall i :: 0 < i < |sets| ==> sets[i] == sets[1..][i - 1];
      r
  }

  /** `s` joined with each set of `sets` in turn. */
  function UnionAll(s: set<int>, sets: seq<set<int>>): (r: set<int>)
    ensures forall k :: k in r <==> k in s || exists i :: 0 <= i < |sets| && k in sets[i]
    decreases |sets|
  {
    if sets == [] then s
    else
      var r := UnionAll(s + sets[0], sets[1..]);
      assert forall i :: 0 < i < |sets| ==> sets[i] == sets[1..][i - 1];
      r
  }

  /** `s` without the members of each set of `sets` in turn. */
  function DifferenceAll(s: set<int>, sets: seq<set<int>>): (r: set<int>)
    ensures forall k :: k in r <==> k in s && forall i :: 0 <= i < |sets| ==> k !in sets[i]
    decreases |sets|
  {
    if sets == [] then s
    else
      var r := DifferenceAll(s - sets[0], sets[1..]);
      assert forall i :: 0 < i < |sets| ==> sets[i] == sets[1..][i - 1];
      r
  }

  /** `a.issubset(b)` is the inclusion of members. */
  lemma SubsetMeans(a: set<int>, b: set<int>)
    ensures a <= b <==> forall k :: k in a ==> k in b
  {
    if forall k :: k in a ==> k in b {
      assert a <= b;
    }
  }

  /** `a.isdisjoint(b)` is the absence of a common member. */
  lemma DisjointMeans(a: set<int>, b: set<int>)
    ensures a !! b <==> forall k :: k in a ==> k !in b
  {
    if forall k :: k in a ==> k !in b {
      assert a !! b;
    }
  }

  /** A non-empty set has a member to pick. */
  lemma HasMember(s: set<int>)
    requires s != {}
    ensures exists k :: k in s
  {
    if forall k :: k !in s {
      assert false;
    }
  }

  /** The value bound to `k` in the first map that binds it. */
  function FirstBinding<V>(maps: seq<map<int, V>>, k: int): Option<V> {
    if maps == [] then None
    else if k in maps[0] then Some(maps[0][k])
    else FirstBinding(maps[1..], k)
  }

  /** There is no binding when no map holds `k`; otherwise the binding comes
      from a map holding `k` with none before it. */
  lemma {:induction false} FirstBindingSpec<V>(maps: seq<map<int, V>>, k: int)
    ensures FirstBinding(maps, k).None? <==> forall i :: 0 <= i < |maps| ==> k !in maps[i]
    ensures FirstBinding(maps, k).Some? ==>
      exists i :: 0 <= i < |maps| && k in maps[i] && maps[i][k] == FirstBinding(maps, k).value
                  && forall j :: 0 <= j < i ==> k !in maps[j]
  {
    if maps != [] && k !in maps[0] {
      FirstBindingSpec(maps[1..], k);
      assert forall i :: 0 < i < |maps| ==> maps[i] == maps[1..][i - 1];
      var r := FirstBinding(maps, k);
      if r.Some? {
        var i :| 0 <= i < |maps[1..]| && k in maps[1..][i] && maps[1..][i][k] == r.value
                 && forall j :: 0 <= j < i ==> k !in maps[1..][j];
        assert k in maps[i + 1] && maps[i + 1][k] == r.value;
      }
    }
  }

  /** A map holding `k` with none before it supplies the value. */
  lemma FirstBindingAt<V>(maps: seq<map<int, V>>, k: int, i: int)
    requires 0 <= i < |maps| && k in maps[i]
    requires forall j :: 0 <= j < i ==> k !in maps[j]
    ensures FirstBinding(maps, k) == Some(maps[i][k])
  {
    FirstBindingSpec(maps, k);
    var r := FirstBinding(maps, k);
    assert r.Some?;
    var p :| 0 <= p < |maps| && k in maps[p] && maps[p][k] == r.value
             && forall j :: 0 <= j < p ==> k !in maps[j];
    assert p == i;
  }

  /** The map left by inserting the items of `s` into `m` one after another. */
  function Assign<V>(m: map<int, V>, s: seq<Item<V>>): map<int, V> {
    if s == [] then m
    else Assign(m, s[..|s| - 1])[s[|s| - 1].0 := s[|s| - 1].1]
  }

  /** A key is bound after the insertions when it was bound before or some
      item carries it; the last item carrying it wins, and keys no item
      carries keep their old value. */
  lemma AssignSpec<V>(m: map<int, V>, s: seq<Item<V>>, k: int)
    ensures k in Assign(m, s) <==> k in m || exists i :: 0 <= i < |s| && s[i].0 == k
    ensures forall i :: 0 <= i < |s| && s[i].0 == k && (forall j :: i < j < |s| ==> s[j].0 != k) ==>
      k in Assign(m, s) && Assign(m, s)[k] == s[i].1
    ensures k in m && (forall i :: 0 <= i < |s| ==> s[i].0 != k) ==> Assign(m, s)[k] == m[k]
  {
    AssignKeys(m, s, k);
    AssignValues(m, s, k);
  }

  /** Which keys are bound after the insertions. */
  lemma {:induction false} AssignKeys<V>(m: map<int, V>, s: seq<Item<V>>, k: int)
    ensures k in Assign(m, s) <==> k in m || exists i :: 0 <= i < |s| && s[i].0 == k
  {
    if s != [] {
      var p, n := s[..|s| - 1], |s| - 1;
      AssignKeys(m, p, k);
      assert forall i :: 0 <= i < n ==> s[i] == p[i];
    }
  }

  /** The values bound after the insertions. */
  lemma {:induction false} AssignValues<V>(m: map<int, V>, s: seq<Item<V>>, k: int)
    ensures forall i :: 0 <= i < |s| && s[i].0 == k && (forall j :: i < j < |s| ==> s[j].0 != k) ==>
      k in Assign(m, s) && Assign(m, s)[k] == s[i].1
    ensures k in m && (forall i :: 0 <= i < |s| ==> s[i].0 != k) ==> k in Assign(m, s) && Assign(m, s)[k] == m[k]
  {
    AssignKeys(m, s, k);
    if s != [] {
      var p, n := s[..|s| - 1], |s| - 1;
      AssignValues(m, p, k);
      AssignKeys(m, p, k);
      assert forall i :: 0 <= i < n ==> s[i] == p[i];
      if s[n].0 != k {
        forall i | 0 <= i < |s| && s[i].0 == k && (forall j :: i < j < |s| ==> s[j].0 != k)
          ensures Assign(m, s)[k] == s[i].1
        {
          assert i < n && p[i] == s[i];
        }
      }
    }
  }

  /** The map left by inserting the items of each sequence of `args` in turn. */
  function AssignAll<V>(m: map<int, V>, args: seq<seq<Item<V>>>): map<int, V> {
    if args == [] then m
    else Assign(AssignAll(m, args[..|args| - 1]), args[|args| - 1])
  }

  /** All the sequences of `args`, one after another. */
  function Flatten<T>(args: seq<seq<T>>): seq<T> {
    if args == [] then [] else Flatten(args[..|args| - 1]) + args[|args| - 1]
  }

  /** Inserting `a + b` is inserting `a`, then `b`. */
  lemma {:induction false} AssignAppend<V>(m: map<int, V>, a: seq<Item<V>>, b: seq<Item<V>>)
    ensures Assign(m, a + b) == Assign(Assign(m, a), b)
    decreases |b|
  {
    if b == [] {
      assert a + b == a;
    } else {
      var n := |b| - 1;
      assert (a + b)[..|a + b| - 1] == a + b[..n];
      AssignAppend(m, a, b[..n]);
    }
  }

  /** Several argument sequences act as their concatenation, so a later
      binding of a key overrides an earlier one across sequences too. */
  lemma {:induction false} AssignAllFlat<V>(m: map<int, V>, args: seq<seq<Item<V>>>)
    ensures AssignAll(m, args) == Assign(m, Flatten(args))
  {
    if args != [] {
      var n := |args| - 1;
      AssignAllFlat(m, args[..n]);
      AssignAppend(m, Flatten(args[..n]), args[n]);
    }
  }

  /** Inserting items that are all bindings of `m` and that cover its keys,
      into an empty map, rebuilds `m`, whatever their order. */
  lemma AssignCovering<V>(s: seq<Item<V>>, m: map<int, V>)
    requires forall i :: 0 <= i < |s| ==> s[i].0 in m && m[s[i].0] == s[i].1
    requires forall k :: k in m ==> exists i :: 0 <= i < |s| && s[i].0 == k
    ensures Assign(map[], s) == m
  {
    var a := Assign(map[], s);
    forall k | k in a || k in m
      ensures k in a && k in m && a[k] == m[k]
    {
      AssignSpec(map[], s, k);
      assert k in a;
      var i :| 0 <= i < |s| && s[i].0 == k;
      LastCarrier(s, k, i);
    }
  }

  /** If some item carries `k`, a last one does. */
  lemma LastCarrier<V>(s: seq<Item<V>>, k: int, i: int)
    requires 0 <= i < |s| && s[i].0 == k
    ensures exists p :: i <= p < |s| && s[p].0 == k && forall j :: p < j < |s| ==> s[j].0 != k
    decreases |s| - i
  {
    if exists q :: i < q < |s| && s[q].0 == k {
      var q :| i < q < |s| && s[q].0 == k;
      LastCarrier(s, k, q);
    }
  }

  /** Removing one more key. */
  lemma RemoveOneMore<V>(m: map<int, V>, gone: set<int>, k: int)
    ensures (m - gone) - {k} == m - (gone + {k})
  {
  }
}
