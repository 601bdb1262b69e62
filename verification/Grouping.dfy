// The `$group` / `$match count > 1` aggregation and the audit count built on it.
module Grouping {
  import opened Documents
  import opened Ordering

  datatype Group<K> = Group(key: K, ids: seq<Id>, count: nat)

  ghost predicate IsGroup<T, K>(collection: map<Id, T>, key: T -> K, g: Group<K>) {
    && g.count == |g.ids| > 1 && NoRepeats(g.ids)
    && forall i :: i in g.ids <==> i in collection && key(collection[i]) == g.key
  }

  /** The groups are the keys carried by several documents, each once, with all their documents. */
  ghost predicate IsGrouping<T, K>(collection: map<Id, T>, key: T -> K, groups: seq<Group<K>>) {
    && (forall n :: 0 <= n < |groups| ==> IsGroup(collection, key, groups[n]))
    && (forall n, m :: 0 <= n < m < |groups| ==> groups[n].key != groups[m].key)
    && (forall i, j :: i in collection && j in collection && i != j && key(collection[i]) == key(collection[j]) ==>
          HasGroup(groups, key(collection[i])))
  }

  ghost predicate HasGroup<K>(groups: seq<Group<K>>, key: K) {
    exists n :: 0 <= n < |groups| && groups[n].key == key
  }

  // The groups found among the documents outside `rest`, which no key straddles.
  ghost predicate Partial<T, K>(collection: map<Id, T>, key: T -> K, rest: set<Id>, groups: seq<Group<K>>) {
    && rest <= collection.Keys
    && (forall i, j :: i in rest && j in collection && key(collection[i]) == key(collection[j]) ==> j in rest)
    && (forall n :: 0 <= n < |groups| ==> IsGroup(collection, key, groups[n]))
    && (forall n, i :: 0 <= n < |groups| && i in rest ==> groups[n].key != key(collection[i]))
    && (forall n, m :: 0 <= n < m < |groups| ==> groups[n].key != groups[m].key)
    && (forall i, j :: i in collection && j in collection && i != j && key(collection[i]) == key(collection[j]) ==>
          i in rest || HasGroup(groups, key(collection[i])))
  }

  method DuplicateGroups<T, K(==)>(collection: map<Id, T>, key: T -> K) returns (groups: seq<Group<K>>)
    ensures IsGrouping(collection, key, groups)
  {
    groups := [];
    var rest := collection.Keys;
    assert Partial(collection, key, rest, groups);
    while rest != {}
      invariant rest <= collection.Keys
      invariant Partial(collection, key, rest, groups)
    {
      hide Partial;
      var first :| first in rest;
      var k := key(collection[first]);
      var members := set i | i in rest && key(collection[i]) == k;
      var ids := Listing(members);
      if |ids| > 1 {
        GroupAdded(collection, key, rest, groups, first, ids);
        groups := groups + [Group(k, ids, |ids|)];
      } else {
        SingleSkipped(collection, key, rest, groups, first, ids);
      }
      rest := rest - members;
    }
  }

  lemma GroupAdded<T, K>(collection: map<Id, T>, key: T -> K, rest: set<Id>, groups: seq<Group<K>>, first: Id, ids: seq<Id>)
    requires first in rest && Partial(collection, key, rest, groups)
    requires NoRepeats(ids) && |ids| > 1
    requires Elements(ids) == set i | i in rest && key(collection[i]) == key(collection[first])
    ensures Partial(collection, key, rest - Elements(ids), groups + [Group(key(collection[first]), ids, |ids|)])
  {
    var k := key(collection[first]);
    var more := groups + [Group(k, ids, |ids|)];
    assert forall i :: i in ids <==> i in Elements(ids);
    assert IsGroup(collection, key, more[|groups|]);
    forall i, j | i in collection && j in collection && i != j && key(collection[i]) == key(collection[j])
      ensures i in rest - Elements(ids) || HasGroup(more, key(collection[i]))
    {
      GroupsGrow(groups, more[|groups|], key(collection[i]));
    }
  }

  lemma GroupsGrow<K>(groups: seq<Group<K>>, g: Group<K>, k: K)
    ensures HasGroup(groups, k) || g.key == k ==> HasGroup(groups + [g], k)
  {
    if HasGroup(groups, k) {
      var n :| 0 <= n < |groups| && groups[n].key == k;
      assert (groups + [g])[n].key == k;
    } else {
      assert (groups + [g])[|groups|] == g;
    }
  }

  lemma SingleSkipped<T, K>(collection: map<Id, T>, key: T -> K, rest: set<Id>, groups: seq<Group<K>>, first: Id, ids: seq<Id>)
    requires first in rest && Partial(collection, key, rest, groups)
    requires |ids| <= 1
    requires Elements(ids) == set i | i in rest && key(collection[i]) == key(collection[first])
    ensures Partial(collection, key, rest - Elements(ids), groups)
  {
    assert first in Elements(ids);
    assert Elements(ids) == {first};
  }

  function ExtraDocuments<K>(groups: seq<Group<K>>): int {
    if groups == [] then 0 else ExtraDocuments(groups[..|groups| - 1]) + groups[|groups| - 1].count - 1
  }

  ghost function KeysOf<T, K>(collection: map<Id, T>, key: T -> K): set<K> {
    set i | i in collection :: key(collection[i])
  }

  /** The audit counts the documents beyond the first of each key. */
  lemma {:induction false} ExtraDocumentsCount<T, K>(collection: map<Id, T>, key: T -> K, groups: seq<Group<K>>)
    requires IsGrouping(collection, key, groups)
    ensures ExtraDocuments(groups) == |collection| - |KeysOf(collection, key)|
    ensures ExtraDocuments(groups) >= 0
    decreases |groups|
  {
    if groups == [] {
      DistinctKeys(collection, key);
    } else {
      var n := |groups| - 1;
      var fewer := collection - Elements(groups[n].ids[1..]);
      GroupRemoved(collection, key, groups);
      ExtraDocumentsCount(fewer, key, groups[..n]);
      ExtrasOfGroup(collection, key, groups[n]);
    }
  }

  lemma ExtrasOfGroup<T, K>(collection: map<Id, T>, key: T -> K, g: Group<K>)
    requires IsGroup(collection, key, g)
    ensures |collection - Elements(g.ids[1..])| == |collection| - (g.count - 1)
  {
    var extra := Elements(g.ids[1..]);
    assert g.ids == [g.ids[0]] + g.ids[1..];
    NoRepeatsSize(g.ids[1..]);
    assert forall i :: i in extra ==> i in g.ids;
    assert (collection - extra).Keys == collection.Keys - extra;
  }

  lemma DistinctKeys<T, K>(collection: map<Id, T>, key: T -> K)
    requires IsGrouping(collection, key, [])
    ensures |collection| == |KeysOf(collection, key)|
    decreases |collection|
  {
    if collection != map[] {
      var i :| i in collection;
      var fewer := collection - {i};
      assert !HasGroup<K>([], key(collection[i]));
      assert forall a, b :: a in collection && b in collection && a != b ==> key(collection[a]) != key(collection[b])
      by {
        if a, b :| a in collection && b in collection && a != b && key(collection[a]) == key(collection[b]) {
          assert false;
        }
      }
      DistinctKeys(fewer, key);
      forall k | k in KeysOf(collection, key) ensures k in KeysOf(fewer, key) + {key(collection[i])} {
        var j :| j in collection && key(collection[j]) == k;
        assert j == i || j in fewer;
      }
      assert KeysOf(collection, key) == KeysOf(fewer, key) + {key(collection[i])};
      assert key(collection[i]) !in KeysOf(fewer, key);
      assert fewer.Keys == collection.Keys - {i};
    } else {
      assert KeysOf(collection, key) == {};
    }
  }

  // Keeping one document of the last group leaves the other groups and all keys as they are.
  lemma GroupRemoved<T, K>(collection: map<Id, T>, key: T -> K, groups: seq<Group<K>>)
    requires groups != [] && IsGrouping(collection, key, groups)
    ensures var fewer := collection - Elements(groups[|groups| - 1].ids[1..]);
            && IsGrouping(fewer, key, groups[..|groups| - 1])
            && KeysOf(fewer, key) == KeysOf(collection, key)
  {
    var n := |groups| - 1;
    var g := groups[n];
    var extra := Elements(g.ids[1..]);
    var fewer := collection - extra;
    assert g.ids[0] in g.ids && g.ids[0] !in extra;
    assert forall i :: i in extra ==> i in g.ids;
    forall i | i in g.ids && i !in extra ensures i == g.ids[0] {
      assert g.ids == [g.ids[0]] + g.ids[1..];
    }
    forall m | 0 <= m < n ensures IsGroup(fewer, key, groups[m]) {
      assert groups[m].key != g.key;
    }
    forall i, j | i in fewer && j in fewer && i != j && key(fewer[i]) == key(fewer[j])
      ensures HasGroup(groups[..n], key(fewer[i]))
    {
      assert HasGroup(groups, key(collection[i]));
      var m :| 0 <= m < |groups| && groups[m].key == key(collection[i]);
      if m == n {
        assert false;
      } else {
        assert groups[..n][m].key == key(fewer[i]);
      }
    }
    assert KeysOf(fewer, key) == KeysOf(collection, key) by {
      forall k | k in KeysOf(collection, key) ensures k in KeysOf(fewer, key) {
        var i :| i in collection && key(collection[i]) == k;
        if i in extra {
          assert g.ids[0] in fewer && key(fewer[g.ids[0]]) == k;
        } else {
          assert i in fewer;
        }
      }
    }
  }
}
