/**
 * Python's `list.sort` / `sorted`: a stable sort under a comparator.
 * `sorted(xs, key=k)` is `Sort(xs, ByKey(k))`, and
 * `sorted(xs, key=k, reverse=True)` is `Sort(xs, ByKeyDesc(k))` — Python's
 * reverse sort keeps equal elements in their original order too, so both are
 * the same stable insertion sort with a different comparator.
 */
module Sorting {

  /** `le` is total and transitive: the comparators a key function induces. */
  ghost predicate TotalPreorder<T(!new)>(le: (T, T) -> bool) {
    (forall a, b :: le(a, b) || le(b, a)) &&
    (forall a, b, c :: le(a, b) && le(b, c) ==> le(a, c))
  }

  predicate SortedBy<T>(s: seq<T>, le: (T, T) -> bool) {
    forall i, j :: 0 <= i < j < |s| ==> le(s[i], s[j])
  }

  /** Ascending by an integer key. */
  function ByKey<T>(key: T -> int): (T, T) -> bool {
    (a: T, b: T) => key(a) <= key(b)
  }

  /** Descending by an integer key (`reverse=True`). */
  function ByKeyDesc<T>(key: T -> int): (T, T) -> bool {
    (a: T, b: T) => key(a) >= key(b)
  }

  /** Ascending by a real-valued key. */
  function ByRealKey<T>(key: T -> real): (T, T) -> bool {
    (a: T, b: T) => key(a) <= key(b)
  }

  /** Descending by a real-valued key (`reverse=True`). */
  function ByRealKeyDesc<T>(key: T -> real): (T, T) -> bool {
    (a: T, b: T) => key(a) >= key(b)
  }

  lemma ByKeyPreorder<T(!new)>(key: T -> int)
    ensures TotalPreorder(ByKey(key))
  {
  }

  lemma ByKeyDescPreorder<T(!new)>(key: T -> int)
    ensures TotalPreorder(ByKeyDesc(key))
  {
  }

  lemma ByRealKeyPreorder<T(!new)>(key: T -> real)
    ensures TotalPreorder(ByRealKey(key))
  {
  }

  lemma ByRealKeyDescPreorder<T(!new)>(key: T -> real)
    ensures TotalPreorder(ByRealKeyDesc(key))
  {
  }

  /** `a` and `b` rank equally. */
  predicate Tied<T>(le: (T, T) -> bool, a: T, b: T) {
    le(a, b) && le(b, a)
  }

  /** Puts `x` after every element of `s` that does not rank above it. */
  function Insert<T>(x: T, s: seq<T>, le: (T, T) -> bool): (r: seq<T>)
    ensures |r| == |s| + 1
  {
    if |s| == 0 then [x]
    else if le(s[0], x) then [s[0]] + Insert(x, s[1..], le)
    else [x] + s
  }

  /** The stable sort: each element in turn is inserted after its equals. */
  function Sort<T>(s: seq<T>, le: (T, T) -> bool): (r: seq<T>)
    ensures |r| == |s|
  {
    if |s| == 0 then []
    else Insert(s[|s| - 1], Sort(s[..|s| - 1], le), le)
  }

  /** The elements of `s` that tie with `y`, in their order in `s`. */
  function Peers<T>(s: seq<T>, y: T, le: (T, T) -> bool): seq<T> {
    if |s| == 0 then []
    else (if Tied(le, s[0], y) then [s[0]] else []) + Peers(s[1..], y, le)
  }

  lemma {:induction false} InsertPermutes<T>(x: T, s: seq<T>, le: (T, T) -> bool)
    ensures multiset(Insert(x, s, le)) == multiset(s) + multiset{x}
    ensures |Insert(x, s, le)| == |s| + 1
  {
    if |s| > 0 {
      assert s == [s[0]] + s[1..];
      if le(s[0], x) {
        InsertPermutes(x, s[1..], le);
      }
    }
  }

  lemma {:induction false} InsertSorted<T(!new)>(x: T, s: seq<T>, le: (T, T) -> bool)
    requires TotalPreorder(le) && SortedBy(s, le)
    ensures SortedBy(Insert(x, s, le), le)
  {
    if |s| > 0 {
      if le(s[0], x) {
        var rest := Insert(x, s[1..], le);
        InsertSorted(x, s[1..], le);
        InsertPermutes(x, s[1..], le);
        forall j | 0 <= j < |rest|
          ensures le(s[0], rest[j])
        {
          assert rest[j] in multiset(s[1..]) + multiset{x};
          if rest[j] != x {
            assert rest[j] in s[1..];
          }
        }
      } else {
        assert le(x, s[0]);
      }
    }
  }

  /** The sort is an ordered permutation of its input. */
  lemma {:induction false} SortCorrect<T(!new)>(s: seq<T>, le: (T, T) -> bool)
    requires TotalPreorder(le)
    ensures SortedBy(Sort(s, le), le)
    ensures multiset(Sort(s, le)) == multiset(s)
    ensures |Sort(s, le)| == |s|
  {
    if |s| > 0 {
      var p := s[..|s| - 1];
      SortCorrect(p, le);
      InsertSorted(s[|s| - 1], Sort(p, le), le);
      InsertPermutes(s[|s| - 1], Sort(p, le), le);
      assert s == p + [s[|s| - 1]];
    }
  }

  lemma {:induction false} PeersAppend<T>(a: seq<T>, b: seq<T>, y: T, le: (T, T) -> bool)
    ensures Peers(a + b, y, le) == Peers(a, y, le) + Peers(b, y, le)
  {
    if |a| > 0 {
      assert (a + b)[1..] == a[1..] + b;
      PeersAppend(a[1..], b, y, le);
    } else {
      assert a + b == b;
    }
  }

  lemma {:induction false} NoPeers<T>(s: seq<T>, y: T, le: (T, T) -> bool)
    requires forall i :: 0 <= i < |s| ==> !Tied(le, s[i], y)
    ensures Peers(s, y, le) == []
  {
    if |s| > 0 {
      NoPeers(s[1..], y, le);
    }
  }

  lemma {:induction false} InsertPeers<T(!new)>(x: T, s: seq<T>, y: T, le: (T, T) -> bool)
    requires TotalPreorder(le) && SortedBy(s, le)
    ensures Peers(Insert(x, s, le), y, le) == Peers(s, y, le) + (if Tied(le, x, y) then [x] else [])
  {
    if |s| > 0 {
      if le(s[0], x) {
        assert SortedBy(s[1..], le);
        InsertPeers(x, s[1..], y, le);
        PeersCons(s[0], Insert(x, s[1..], le), y, le);
        PeersCons(s[0], s[1..], y, le);
        assert [s[0]] + s[1..] == s;
      } else {
        PeersCons(x, s, y, le);
        if Tied(le, x, y) {
          AboveHasNoPeers(x, s, y, le);
        }
      }
    }
  }

  lemma PeersCons<T>(a: T, s: seq<T>, y: T, le: (T, T) -> bool)
    ensures Peers([a] + s, y, le) == (if Tied(le, a, y) then [a] else []) + Peers(s, y, le)
  {
    assert ([a] + s)[1..] == s;
  }

  /** When even the first element of a sorted `s` ranks above `x`, nothing in `s` ties with a peer of `x`. */
  lemma AboveHasNoPeers<T(!new)>(x: T, s: seq<T>, y: T, le: (T, T) -> bool)
    requires TotalPreorder(le) && SortedBy(s, le) && |s| > 0 && !le(s[0], x) && Tied(le, x, y)
    ensures Peers(s, y, le) == []
  {
    forall i | 0 <= i < |s| ensures !Tied(le, s[i], y) {
      if i > 0 {
        assert le(s[0], s[i]);
      }
    }
    NoPeers(s, y, le);
  }

  /** Stability: elements that tie keep their input order. */
  lemma {:induction false} SortStable<T(!new)>(s: seq<T>, y: T, le: (T, T) -> bool)
    requires TotalPreorder(le)
    ensures Peers(Sort(s, le), y, le) == Peers(s, y, le)
  {
    if |s| > 0 {
      var p, x := s[..|s| - 1], s[|s| - 1];
      SortStable(p, y, le);
      SortCorrect(p, le);
      InsertPeers(x, Sort(p, le), y, le);
      PeersAppend(p, [x], y, le);
      assert s == p + [x];
    }
  }

  lemma {:induction false} InsertAtEnd<T>(x: T, s: seq<T>, le: (T, T) -> bool)
    requires forall i :: 0 <= i < |s| ==> le(s[i], x)
    ensures Insert(x, s, le) == s + [x]
  {
    if |s| > 0 {
      InsertAtEnd(x, s[1..], le);
      assert s == [s[0]] + s[1..];
    }
  }

  /** Sorting an already ordered sequence leaves it as it is. */
  lemma {:induction false} SortSortedIdentity<T>(s: seq<T>, le: (T, T) -> bool)
    requires SortedBy(s, le)
    ensures Sort(s, le) == s
  {
    if |s| > 0 {
      var p := s[..|s| - 1];
      assert SortedBy(p, le);
      SortSortedIdentity(p, le);
      InsertAtEnd(s[|s| - 1], p, le);
      assert s == p + [s[|s| - 1]];
    }
  }

  /** The first element of `s` that ties with `y` comes before every other such element. */
  lemma {:induction false} FirstPeer<T>(s: seq<T>, y: T, le: (T, T) -> bool)
    requires Peers(s, y, le) != []
    ensures exists k ::
              0 <= k < |s| && s[k] == Peers(s, y, le)[0] && Tied(le, s[k], y) &&
              forall q :: 0 <= q < k ==> !Tied(le, s[q], y)
  {
    if !Tied(le, s[0], y) {
      FirstPeer(s[1..], y, le);
      var k :| 0 <= k < |s[1..]| && s[1..][k] == Peers(s[1..], y, le)[0] && Tied(le, s[1..][k], y) &&
        forall q :: 0 <= q < k ==> !Tied(le, s[1..][q], y);
      assert s[k + 1] == s[1..][k];
      forall q | 0 <= q < k + 1 ensures !Tied(le, s[q], y) {
        if q > 0 {
          assert s[q] == s[1..][q - 1];
        }
      }
    }
  }

  /**
   * `sorted(s)[0]`: the sort puts first the earliest element of `s` that no
   * other element ranks strictly before.
   */
  lemma SortHead<T(!new)>(s: seq<T>, le: (T, T) -> bool)
    requires TotalPreorder(le) && |s| > 0
    ensures exists k ::
              0 <= k < |s| && Sort(s, le)[0] == s[k] &&
              (forall j :: 0 <= j < |s| ==> le(s[k], s[j])) &&
              (forall q :: 0 <= q < k ==> !le(s[q], s[k]))
  {
    var h := Sort(s, le)[0];
    SortHeadMin(s, le);
    SortHeadPeer(s, le);
    FirstPeer(s, h, le);
    var k :| 0 <= k < |s| && s[k] == Peers(s, h, le)[0] && Tied(le, s[k], h) &&
      forall q :: 0 <= q < k ==> !Tied(le, s[q], h);
    assert s[k] == h;
    forall q | 0 <= q < k ensures !le(s[q], s[k]) {
      assert le(h, s[q]) && !Tied(le, s[q], h);
    }
  }

  /** The head of the sort ranks no later than any element. */
  lemma SortHeadMin<T(!new)>(s: seq<T>, le: (T, T) -> bool)
    requires TotalPreorder(le) && |s| > 0
    ensures forall j :: 0 <= j < |s| ==> le(Sort(s, le)[0], s[j])
  {
    var r := Sort(s, le);
    SortCorrect(s, le);
    forall j | 0 <= j < |s| ensures le(r[0], s[j]) {
      assert s[j] in multiset(r);
      var m :| 0 <= m < |r| && r[m] == s[j];
      if m > 0 {
        assert le(r[0], r[m]);
      }
    }
  }

  /** By stability the head of the sort is the first of its peers in the input. */
  lemma SortHeadPeer<T(!new)>(s: seq<T>, le: (T, T) -> bool)
    requires TotalPreorder(le) && |s| > 0
    ensures Peers(s, Sort(s, le)[0], le) != [] && Peers(s, Sort(s, le)[0], le)[0] == Sort(s, le)[0]
  {
    var r := Sort(s, le);
    var h := r[0];
    assert Tied(le, h, h);
    assert Peers(r, h, le) == [h] + Peers(r[1..], h, le);
    SortStable(s, h, le);
  }
}
