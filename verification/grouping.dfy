/**
 * Python's `defaultdict(list)` filled by `d[key].append(value)` in a loop,
 * read back with `d.items()`.  The dictionary keeps insertion order, so it is
 * modelled as an association list of groups in first-appearance order.
 */
module Grouping {

  datatype Group<K, V> = Group(key: K, members: seq<V>)

  /** `d[k].append(v)`: extend the group of `k`, or open a new group at the end. */
  function Append<K(==), V>(gs: seq<Group<K, V>>, k: K, v: V): seq<Group<K, V>> {
    if |gs| == 0 then [Group(k, [v])]
    else if gs[0].key == k then [Group(k, gs[0].members + [v])] + gs[1..]
    else [gs[0]] + Append(gs[1..], k, v)
  }

  /** The dictionary built by appending every pair of `ps` in order. */
  function GroupBy<K(==), V>(ps: seq<(K, V)>): seq<Group<K, V>> {
    if |ps| == 0 then []
    else Append(GroupBy(ps[..|ps| - 1]), ps[|ps| - 1].0, ps[|ps| - 1].1)
  }

  /** Appending one more pair to the input is one more `append`. */
  lemma GroupBySnoc<K, V>(ps: seq<(K, V)>, q: (K, V))
    ensures GroupBy(ps + [q]) == Append(GroupBy(ps), q.0, q.1)
  {
    assert (ps + [q])[..|ps|] == ps;
  }

  /** `d.get(k, [])`. */
  function Lookup<K(==), V>(gs: seq<Group<K, V>>, k: K): seq<V> {
    if |gs| == 0 then []
    else if gs[0].key == k then gs[0].members
    else Lookup(gs[1..], k)
  }

  function Keys<K(==), V>(gs: seq<Group<K, V>>): set<K> {
    if |gs| == 0 then {} else {gs[0].key} + Keys(gs[1..])
  }

  /** No key opens two groups. */
  predicate DistinctKeys<K(==), V>(gs: seq<Group<K, V>>) {
    forall i, j :: 0 <= i < j < |gs| ==> gs[i].key != gs[j].key
  }

  /** Reference definition: the values paired with `k`, in order. */
  function MembersOf<K(==), V>(ps: seq<(K, V)>, k: K): seq<V> {
    if |ps| == 0 then []
    else MembersOf(ps[..|ps| - 1], k) + (if ps[|ps| - 1].0 == k then [ps[|ps| - 1].1] else [])
  }

  /** The keys that occur in `ps`. */
  function KeysOf<K(==), V>(ps: seq<(K, V)>): set<K> {
    set i | 0 <= i < |ps| :: ps[i].0
  }

  /** The total number of values held by the groups. */
  function TotalSize<K(==), V>(gs: seq<Group<K, V>>): nat {
    if |gs| == 0 then 0 else |gs[0].members| + TotalSize(gs[1..])
  }

  lemma {:induction false} KeysIndex<K, V>(gs: seq<Group<K, V>>, k: K)
    ensures k in Keys(gs) <==> exists i :: 0 <= i < |gs| && gs[i].key == k
  {
    if |gs| > 0 {
      KeysIndex(gs[1..], k);
      if k in Keys(gs[1..]) {
        var i :| 0 <= i < |gs[1..]| && gs[1..][i].key == k;
        assert gs[i + 1].key == k;
      }
      if exists i :: 0 <= i < |gs| && gs[i].key == k {
        var i :| 0 <= i < |gs| && gs[i].key == k;
        if i > 0 {
          assert gs[1..][i - 1].key == k;
        }
      }
    }
  }

  lemma {:induction false} AppendLookup<K, V>(gs: seq<Group<K, V>>, k: K, v: V, q: K)
    ensures Lookup(Append(gs, k, v), q) == Lookup(gs, q) + (if q == k then [v] else [])
  {
    if |gs| > 0 && gs[0].key != k {
      AppendLookup(gs[1..], k, v, q);
    }
  }

  lemma {:induction false} AppendKeys<K, V>(gs: seq<Group<K, V>>, k: K, v: V)
    ensures Keys(Append(gs, k, v)) == Keys(gs) + {k}
  {
    if |gs| > 0 && gs[0].key != k {
      AppendKeys(gs[1..], k, v);
    }
  }

  lemma {:induction false} AppendDistinct<K, V>(gs: seq<Group<K, V>>, k: K, v: V)
    requires DistinctKeys(gs)
    ensures DistinctKeys(Append(gs, k, v))
  {
    if |gs| > 0 && gs[0].key != k {
      var rest := Append(gs[1..], k, v);
      AppendDistinct(gs[1..], k, v);
      AppendKeys(gs[1..], k, v);
      KeysIndex(gs[1..], gs[0].key);
      KeysIndex(rest, gs[0].key);
      forall j | 0 < j < |Append(gs, k, v)|
        ensures Append(gs, k, v)[j].key != gs[0].key
      {
        assert Append(gs, k, v)[j] == rest[j - 1];
      }
    }
  }

  lemma {:induction false} AppendSize<K, V>(gs: seq<Group<K, V>>, k: K, v: V)
    ensures TotalSize(Append(gs, k, v)) == TotalSize(gs) + 1
  {
    if |gs| > 0 && gs[0].key != k {
      AppendSize(gs[1..], k, v);
    }
  }

  /** Every group opened by `Append` holds at least one value. */
  lemma {:induction false} AppendNonEmpty<K, V>(gs: seq<Group<K, V>>, k: K, v: V)
    requires forall i :: 0 <= i < |gs| ==> |gs[i].members| > 0
    ensures forall i :: 0 <= i < |Append(gs, k, v)| ==> |Append(gs, k, v)[i].members| > 0
  {
    if |gs| > 0 && gs[0].key != k {
      AppendNonEmpty(gs[1..], k, v);
    }
  }

  /**
   * The grouped dictionary is faithful to the pairs: each key's group holds
   * exactly its values in order, the keys are distinct and are exactly the
   * keys that occur, no group is empty, and nothing is lost or duplicated.
   */
  lemma {:induction false} GroupByCorrect<K, V>(ps: seq<(K, V)>)
    ensures forall k :: Lookup(GroupBy(ps), k) == MembersOf(ps, k)
    ensures DistinctKeys(GroupBy(ps))
    ensures Keys(GroupBy(ps)) == KeysOf(ps)
    ensures forall i :: 0 <= i < |GroupBy(ps)| ==> |GroupBy(ps)[i].members| > 0
    ensures TotalSize(GroupBy(ps)) == |ps|
  {
    if |ps| > 0 {
      var p, x := ps[..|ps| - 1], ps[|ps| - 1];
      GroupByCorrect(p);
      forall k ensures Lookup(GroupBy(ps), k) == MembersOf(ps, k) {
        AppendLookup(GroupBy(p), x.0, x.1, k);
      }
      AppendDistinct(GroupBy(p), x.0, x.1);
      AppendKeys(GroupBy(p), x.0, x.1);
      AppendNonEmpty(GroupBy(p), x.0, x.1);
      AppendSize(GroupBy(p), x.0, x.1);
      assert KeysOf(ps) == KeysOf(p) + {x.0} by {
        forall q | q in KeysOf(ps) ensures q in KeysOf(p) + {x.0} {
          var i :| 0 <= i < |ps| && ps[i].0 == q;
          if i < |p| {
            assert p[i].0 == q;
          }
        }
        forall q | q in KeysOf(p) ensures q in KeysOf(ps) {
          var i :| 0 <= i < |p| && p[i].0 == q;
          assert ps[i].0 == q;
        }
      }
    }
  }

  /** The members of a group are the values of the pairs carrying its key. */
  lemma {:induction false} MembersOfIndex<K, V>(ps: seq<(K, V)>, k: K, v: V)
    ensures v in MembersOf(ps, k) <==> exists i :: 0 <= i < |ps| && ps[i] == (k, v)
  {
    if |ps| > 0 {
      var p := ps[..|ps| - 1];
      MembersOfIndex(p, k, v);
      if exists i :: 0 <= i < |p| && p[i] == (k, v) {
        var i :| 0 <= i < |p| && p[i] == (k, v);
        assert ps[i] == (k, v);
      }
      if exists i :: 0 <= i < |ps| && ps[i] == (k, v) {
        var i :| 0 <= i < |ps| && ps[i] == (k, v);
        if i < |p| {
          assert p[i] == (k, v);
        }
      }
    }
  }

  lemma {:induction false} MembersOfAppend<K, V>(a: seq<(K, V)>, b: seq<(K, V)>, k: K)
    ensures MembersOf(a + b, k) == MembersOf(a, k) + MembersOf(b, k)
    decreases |b|
  {
    if |b| == 0 {
      assert a + b == a;
    } else {
      assert (a + b)[..|a + b| - 1] == a + b[..|b| - 1];
      MembersOfAppend(a, b[..|b| - 1], k);
    }
  }
  /** With distinct keys, looking up a group's key returns that group. */
  lemma LookupMember<K, V>(gs: seq<Group<K, V>>, i: nat)
    requires DistinctKeys(gs) && i < |gs|
    ensures Lookup(gs, gs[i].key) == gs[i].members
    decreases i
  {
    if i > 0 {
      assert DistinctKeys(gs[1..]) by {
        forall a, b | 0 <= a < b < |gs[1..]| ensures gs[1..][a].key != gs[1..][b].key {
          assert gs[1..][a] == gs[a + 1] && gs[1..][b] == gs[b + 1];
        }
      }
      assert gs[0].key != gs[i].key;
      LookupMember(gs[1..], i - 1);
    }
  }

  /** A lookup returns one of the groups, or nothing. */
  lemma {:induction false} LookupBound<K, V>(gs: seq<Group<K, V>>, k: K)
    ensures Lookup(gs, k) == [] || exists i :: 0 <= i < |gs| && Lookup(gs, k) == gs[i].members
  {
    if |gs| > 0 && gs[0].key != k {
      LookupBound(gs[1..], k);
      if Lookup(gs[1..], k) != [] {
        var i :| 0 <= i < |gs[1..]| && Lookup(gs[1..], k) == gs[1..][i].members;
        assert gs[i + 1] == gs[1..][i];
      }
    }
  }

  /** The groups holding at least two values, in order: the collisions of a key. */
  function Crowded<K, V>(gs: seq<Group<K, V>>): (r: seq<Group<K, V>>)
    ensures |r| <= |gs|
    ensures forall i :: 0 <= i < |r| ==> |r[i].members| >= 2
  {
    if |gs| == 0 then []
    else (if |gs[0].members| >= 2 then [gs[0]] else []) + Crowded(gs[1..])
  }

  lemma {:induction false} CrowdedIndex<K, V>(gs: seq<Group<K, V>>, g: Group<K, V>)
    ensures g in Crowded(gs) <==> g in gs && |g.members| >= 2
  {
    if |gs| > 0 {
      CrowdedIndex(gs[1..], g);
      assert g in gs <==> g == gs[0] || g in gs[1..];
    }
  }

  /** The number of pairs carrying key `k`. */
  function KeyCount<K(==), V>(ps: seq<(K, V)>, k: K): nat {
    if |ps| == 0 then 0 else KeyCount(ps[..|ps| - 1], k) + (if ps[|ps| - 1].0 == k then 1 else 0)
  }

  lemma {:induction false} MembersOfCount<K, V>(ps: seq<(K, V)>, k: K)
    ensures |MembersOf(ps, k)| == KeyCount(ps, k)
  {
    if |ps| > 0 {
      MembersOfCount(ps[..|ps| - 1], k);
    }
  }

  /** A key is counted at least once exactly when some pair carries it. */
  lemma {:induction false} KeyCountOne<K, V>(ps: seq<(K, V)>, k: K)
    ensures KeyCount(ps, k) >= 1 <==> exists i :: 0 <= i < |ps| && ps[i].0 == k
  {
    if |ps| > 0 {
      var p := ps[..|ps| - 1];
      KeyCountOne(p, k);
      if exists i :: 0 <= i < |p| && p[i].0 == k {
        var i :| 0 <= i < |p| && p[i].0 == k;
        assert ps[i].0 == k;
      }
      if exists i :: 0 <= i < |ps| && ps[i].0 == k {
        var i :| 0 <= i < |ps| && ps[i].0 == k;
        if i < |p| {
          assert p[i].0 == k;
        }
      }
    }
  }

  /** A key is counted at least twice exactly when two distinct positions carry it. */
  lemma {:induction false} KeyCountTwo<K, V>(ps: seq<(K, V)>, k: K)
    ensures KeyCount(ps, k) >= 2 <==> exists i, j :: 0 <= i < j < |ps| && ps[i].0 == k && ps[j].0 == k
  {
    if |ps| > 0 {
      var p := ps[..|ps| - 1];
      KeyCountTwo(p, k);
      KeyCountOne(p, k);
      if KeyCount(ps, k) >= 2 {
        if KeyCount(p, k) < 2 {
          var i :| 0 <= i < |p| && p[i].0 == k;
          assert ps[i].0 == k && ps[|ps| - 1].0 == k;
        } else {
          var i, j :| 0 <= i < j < |p| && p[i].0 == k && p[j].0 == k;
          assert ps[i].0 == k && ps[j].0 == k;
        }
      }
      if exists i, j :: 0 <= i < j < |ps| && ps[i].0 == k && ps[j].0 == k {
        var i, j :| 0 <= i < j < |ps| && ps[i].0 == k && ps[j].0 == k;
        assert p[i].0 == k;
        if j < |p| {
          assert p[j].0 == k;
        }
      }
    }
  }

  /**
   * The collisions of a grouping: one entry per key carried by at least two
   * pairs, listing all of that key's values; there are none exactly when no
   * two pairs share a key.
   */
  lemma CrowdedCorrect<K, V>(ps: seq<(K, V)>)
    ensures var c := Crowded(GroupBy(ps));
      (forall i :: 0 <= i < |c| ==> c[i].members == MembersOf(ps, c[i].key) && |c[i].members| >= 2) &&
      (forall k :: k in Keys(c) <==> KeyCount(ps, k) >= 2)
    ensures Crowded(GroupBy(ps)) == [] <==> forall i, j :: 0 <= i < j < |ps| ==> ps[i].0 != ps[j].0
  {
    var c := Crowded(GroupBy(ps));
    CrowdedMembers(ps);
    forall k ensures k in Keys(c) <==> KeyCount(ps, k) >= 2 {
      CrowdedKey(ps, k);
    }
    if c != [] {
      MembersOfCount(ps, c[0].key);
      KeyCountTwo(ps, c[0].key);
    } else {
      forall i, j | 0 <= i < j < |ps| ensures ps[i].0 != ps[j].0 {
        KeyCountTwo(ps, ps[i].0);
        CrowdedKey(ps, ps[i].0);
      }
    }
  }

  lemma CrowdedMembers<K, V>(ps: seq<(K, V)>)
    ensures var c := Crowded(GroupBy(ps));
      forall i :: 0 <= i < |c| ==> c[i].members == MembersOf(ps, c[i].key) && |c[i].members| >= 2
  {
    var gs := GroupBy(ps);
    var c := Crowded(gs);
    GroupByCorrect(ps);
    forall i | 0 <= i < |c| ensures c[i].members == MembersOf(ps, c[i].key) && |c[i].members| >= 2 {
      assert c[i] in c;
      CrowdedIndex(gs, c[i]);
      var j :| 0 <= j < |gs| && gs[j] == c[i];
      LookupMember(gs, j);
    }
  }

  lemma CrowdedKey<K, V>(ps: seq<(K, V)>, k: K)
    ensures k in Keys(Crowded(GroupBy(ps))) <==> KeyCount(ps, k) >= 2
  {
    var gs := GroupBy(ps);
    var c := Crowded(gs);
    CrowdedMembers(ps);
    MembersOfCount(ps, k);
    KeysIndex(c, k);
    if KeyCount(ps, k) >= 2 {
      GroupByCorrect(ps);
      KeyCountOne(ps, k);
      var i :| 0 <= i < |ps| && ps[i].0 == k;
      assert k in KeysOf(ps);
      KeysIndex(gs, k);
      var m :| 0 <= m < |gs| && gs[m].key == k;
      LookupMember(gs, m);
      CrowdedIndex(gs, gs[m]);
      var n :| 0 <= n < |c| && c[n] == gs[m];
    }
  }
}
