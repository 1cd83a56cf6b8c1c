/**
 * A Python `dict` as an association list in insertion order: assigning to
 * an existing key replaces its value in place, assigning to a new key
 * appends it.
 */
module Dict {
  import opened Util

  function Keys<K, V>(d: seq<(K, V)>): (r: seq<K>)
    ensures |r| == |d| && forall i :: 0 <= i < |d| ==> r[i] == d[i].0
  {
    if |d| == 0 then [] else [d[0].0] + Keys(d[1..])
  }

  predicate Distinct<K(==), V>(d: seq<(K, V)>) {
    forall i, j :: 0 <= i < j < |d| ==> d[i].0 != d[j].0
  }

  /** `d.get(k)`. */
  function Get<K(==), V>(d: seq<(K, V)>, k: K): (r: Option<V>)
    ensures r.None? <==> k !in Keys(d)
  {
    if |d| == 0 then None else if d[0].0 == k then Some(d[0].1) else Get(d[1..], k)
  }

  /** `d[k] = v`. */
  function Put<K(==), V>(d: seq<(K, V)>, k: K, v: V): (r: seq<(K, V)>)
    ensures |r| == |d| + (if k in Keys(d) then 0 else 1)
  {
    if |d| == 0 then [(k, v)]
    else if d[0].0 == k then [(k, v)] + d[1..]
    else [d[0]] + Put(d[1..], k, v)
  }

  /** Assignment keeps the key order, appending a key only when it is new, and changes only the value under `k`. */
  lemma {:induction false} PutFacts<K, V>(d: seq<(K, V)>, k: K, v: V)
    ensures k in Keys(d) ==> Keys(Put(d, k, v)) == Keys(d)
    ensures k !in Keys(d) ==> Keys(Put(d, k, v)) == Keys(d) + [k]
    ensures Get(Put(d, k, v), k) == Some(v)
    ensures forall k' :: k' != k ==> Get(Put(d, k, v), k') == Get(d, k')
  {
    if |d| > 0 && d[0].0 != k {
      PutFacts(d[1..], k, v);
      assert Put(d, k, v)[1..] == Put(d[1..], k, v);
    }
  }

  lemma {:induction false} DistinctKeys<K, V>(d: seq<(K, V)>)
    requires Distinct(d)
    ensures forall i :: 0 <= i < |d| ==> Get(d, d[i].0) == Some(d[i].1)
  {
    if |d| > 0 {
      assert Distinct(d[1..]);
      DistinctKeys(d[1..]);
      forall i | 1 <= i < |d| ensures Get(d, d[i].0) == Some(d[i].1) {
        assert d[i] == d[1..][i - 1];
      }
    }
  }

  /** Assignment keeps the keys pairwise distinct. */
  lemma {:induction false} PutDistinct<K, V>(d: seq<(K, V)>, k: K, v: V)
    requires Distinct(d)
    ensures Distinct(Put(d, k, v))
  {
    if |d| > 0 {
      HeadDistinct(d);
      if d[0].0 != k {
        PutDistinct(d[1..], k, v);
        PutFacts(d[1..], k, v);
        assert d[0].0 !in Keys(Put(d[1..], k, v));
        ConsDistinct(d[0], Put(d[1..], k, v));
      } else {
        ConsDistinct((k, v), d[1..]);
      }
    }
  }

  /** The first key of a distinct dictionary does not recur, and the rest stays distinct. */
  lemma HeadDistinct<K, V>(d: seq<(K, V)>)
    requires Distinct(d) && |d| > 0
    ensures Distinct(d[1..]) && d[0].0 !in Keys(d[1..])
  {
  }

  /** A new key in front of a distinct dictionary keeps it distinct. */
  lemma ConsDistinct<K, V>(x: (K, V), t: seq<(K, V)>)
    requires Distinct(t) && x.0 !in Keys(t)
    ensures Distinct([x] + t)
  {
    forall j | 0 <= j < |t| ensures x.0 != t[j].0 {
      assert Keys(t)[j] == t[j].0;
    }
  }

  /** Assigning a key the value it already has leaves the dictionary as it is. */
  lemma {:induction false} PutSame<K, V>(d: seq<(K, V)>, k: K, v: V)
    requires Get(d, k) == Some(v)
    ensures Put(d, k, v) == d
  {
    if d[0].0 != k {
      PutSame(d[1..], k, v);
    }
  }

  /** A second assignment to the same key overrides the first without moving it. */
  lemma {:induction false} PutPut<K, V>(d: seq<(K, V)>, k: K, a: V, b: V)
    ensures Put(Put(d, k, a), k, b) == Put(d, k, b)
  {
    if |d| > 0 && d[0].0 != k {
      PutPut(d[1..], k, a, b);
    }
  }

  /** With distinct keys, every entry after an assignment is the new one or an old entry under another key. */
  lemma {:induction false} PutEntries<K, V>(d: seq<(K, V)>, k: K, v: V)
    requires Distinct(d)
    ensures (k, v) in Put(d, k, v)
    ensures forall e :: e in Put(d, k, v) ==> e == (k, v) || (e in d && e.0 != k)
  {
    if |d| > 0 && d[0].0 != k {
      assert Distinct(d[1..]);
      PutEntries(d[1..], k, v);
      var r := Put(d, k, v);
      assert r == [d[0]] + Put(d[1..], k, v);
      forall e | e in r ensures e == (k, v) || (e in d && e.0 != k) {
        if e != d[0] {
          assert e in Put(d[1..], k, v);
          if e != (k, v) {
            assert e in d[1..];
          }
        }
      }
    }
  }
}
