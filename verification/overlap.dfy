/**
 * Time overlap between two scheduled entries and the counting of
 * overlapping pairs inside conflict groups (the core of the hard
 * constraints).
 */
module Overlap {
  import opened Util
  import opened Grouping

  /** One entry of a conflict group: a Monday-first day mask and the half-open interval [start, end). */
  datatype Slot = Slot(days: string, start: int, end: int)

  /** Some position below both lengths is '1' in both masks. */
  predicate SharesDay(d1: string, d2: string) {
    exists i :: 0 <= i < |d1| && i < |d2| && d1[i] == '1' && d2[i] == '1'
  }

  /** Reference meaning of `_times_overlap`: a common day and intersecting intervals. */
  predicate Overlaps(a: Slot, b: Slot) {
    SharesDay(a.days, b.days) && !(a.end <= b.start || b.end <= a.start)
  }

  /** `_times_overlap`: scans the common prefix of the masks, stopping at the first shared day. */
  method TimesOverlap(a: Slot, b: Slot) returns (r: bool)
    ensures r == Overlaps(a, b)
    ensures r == Overlaps(b, a)
  {
    var shareDay := false;
    var n := Min(|a.days|, |b.days|);
    var i := 0;
    while i < n
      invariant 0 <= i <= n
      invariant !shareDay ==> forall k :: 0 <= k < i ==> !(a.days[k] == '1' && b.days[k] == '1')
      invariant shareDay ==> SharesDay(a.days, b.days)
    {
      if a.days[i] == '1' && b.days[i] == '1' {
        shareDay := true;
        break;
      }
      i := i + 1;
    }
    if !shareDay {
      return false;
    }
    r := !(a.end <= b.start || b.end <= a.start);
  }

  /** Instant `t` lies in the half-open interval [start, end). */
  predicate Within(t: int, start: int, end: int) {
    start <= t < end
  }

  lemma OverlapsSymmetric(a: Slot, b: Slot)
    ensures Overlaps(a, b) <==> Overlaps(b, a)
  {
  }

  /**
   * With a day in common, two non-empty slots overlap exactly when some
   * instant lies in both half-open intervals; slots that only touch
   * (one ends where the other starts) never overlap.
   */
  lemma OverlapsIffCommonInstant(a: Slot, b: Slot)
    requires SharesDay(a.days, b.days)
    requires a.start < a.end && b.start < b.end
    ensures Overlaps(a, b) <==> exists t :: Within(t, a.start, a.end) && Within(t, b.start, b.end)
    ensures a.end == b.start ==> !Overlaps(a, b)
  {
    if Overlaps(a, b) {
      var t := Max(a.start, b.start);
      assert Within(t, a.start, a.end) && Within(t, b.start, b.end);
    }
  }

  /** The entries of `t` that overlap `x`. */
  function CountWith(x: Slot, t: seq<Slot>): (n: nat)
    ensures n <= |t|
  {
    if |t| == 0 then 0 else (if Overlaps(x, t[0]) then 1 else 0) + CountWith(x, t[1..])
  }

  /** The overlapping pairs i < j of a group, counted as the double loop of the constraint checks does. */
  function PairCount(s: seq<Slot>): nat {
    if |s| == 0 then 0 else CountWith(s[0], s[1..]) + PairCount(s[1..])
  }

  /** The double loop `for i: for j > i: if overlap: conflicts += 1` over one group. */
  method CountPairs(s: seq<Slot>) returns (conflicts: nat)
    ensures conflicts == PairCount(s)
  {
    conflicts := 0;
    var i := 0;
    while i < |s|
      invariant 0 <= i <= |s|
      invariant conflicts + PairCount(s[i..]) == PairCount(s)
    {
      assert s[i..][1..] == s[i + 1..];
      var j := i + 1;
      while j < |s|
        invariant i + 1 <= j <= |s|
        invariant conflicts + CountWith(s[i], s[j..]) + PairCount(s[i + 1..]) == PairCount(s)
      {
        assert s[j..][1..] == s[j + 1..];
        var o := TimesOverlap(s[i], s[j]);
        if o {
          conflicts := conflicts + 1;
        }
        j := j + 1;
      }
      i := i + 1;
    }
  }

  lemma {:induction false} CountWithAppend(y: Slot, t: seq<Slot>, x: Slot)
    ensures CountWith(y, t + [x]) == CountWith(y, t) + (if Overlaps(y, x) then 1 else 0)
  {
    if |t| > 0 {
      assert (t + [x])[1..] == t[1..] + [x];
      CountWithAppend(y, t[1..], x);
    }
  }

  /** Appending an entry adds exactly the pairs it forms with the earlier ones. */
  lemma {:induction false} PairCountAppend(s: seq<Slot>, x: Slot)
    ensures PairCount(s + [x]) == PairCount(s) + CountWith(x, s)
  {
    if |s| > 0 {
      assert (s + [x])[1..] == s[1..] + [x];
      PairCountAppend(s[1..], x);
      CountWithAppend(s[0], s[1..], x);
      OverlapsSymmetric(s[0], x);
    }
  }

  lemma {:induction false} CountWithZeroIff(x: Slot, t: seq<Slot>)
    ensures CountWith(x, t) == 0 <==> forall j :: 0 <= j < |t| ==> !Overlaps(x, t[j])
  {
    if |t| > 0 {
      CountWithZeroIff(x, t[1..]);
      assert forall j :: 1 <= j < |t| ==> t[j] == t[1..][j - 1];
    }
  }

  /** A group contributes nothing exactly when none of its pairs overlap. */
  lemma {:induction false} PairCountZeroIff(s: seq<Slot>)
    ensures PairCount(s) == 0 <==> forall i, j :: 0 <= i < j < |s| ==> !Overlaps(s[i], s[j])
  {
    if |s| > 0 {
      PairCountZeroIff(s[1..]);
      CountWithZeroIff(s[0], s[1..]);
      assert forall j :: 1 <= j < |s| ==> s[j] == s[1..][j - 1];
      if PairCount(s) == 0 {
        forall i, j | 0 <= i < j < |s| ensures !Overlaps(s[i], s[j]) {
          if i > 0 {
            assert s[i] == s[1..][i - 1];
          }
        }
      }
    }
  }

  /** At most n·(n−1)/2 pairs, so a single entry never conflicts. */
  lemma {:induction false} PairCountBound(s: seq<Slot>)
    ensures 2 * PairCount(s) <= |s| * (|s| - 1)
  {
    if |s| > 0 {
      PairCountBound(s[1..]);
      PairBudgetStep(|s|, CountWith(s[0], s[1..]), PairCount(s[1..]));
    }
  }

  /** One more entry adds at most n − 1 pairs to the n − 1 entries after it. */
  lemma PairBudgetStep(n: int, c: int, p: int)
    requires n >= 1 && c <= n - 1 && 2 * p <= (n - 1) * (n - 2)
    ensures 2 * (c + p) <= n * (n - 1)
  {
    assert 2 * (n - 1) + (n - 1) * (n - 2) == n * (n - 1);
  }

  /** Conflicts of a whole grouped dictionary: the sum of its groups' pair counts. */
  function ConflictsIn<K>(gs: seq<Group<K, Slot>>): nat {
    if |gs| == 0 then 0 else PairCount(gs[0].members) + ConflictsIn(gs[1..])
  }

  /** Twice the largest possible number of pairs, group by group. */
  function PairBudget<K>(gs: seq<Group<K, Slot>>): nat {
    if |gs| == 0 then 0 else |gs[0].members| * (|gs[0].members| - 1) + PairBudget(gs[1..])
  }

  /** The entries before the last that carry key `k` and overlap `y`. */
  function KeyedWith<K(==)>(ps: seq<(K, Slot)>, k: K, y: Slot): nat {
    if |ps| == 0 then 0
    else
      var last := ps[|ps| - 1];
      KeyedWith(ps[..|ps| - 1], k, y) + (if last.0 == k && Overlaps(last.1, y) then 1 else 0)
  }

  /** Reference count without grouping: positions i < j with equal keys whose slots overlap. */
  function KeyedPairs<K(==)>(ps: seq<(K, Slot)>): nat {
    if |ps| == 0 then 0
    else KeyedPairs(ps[..|ps| - 1]) + KeyedWith(ps[..|ps| - 1], ps[|ps| - 1].0, ps[|ps| - 1].1)
  }

  lemma {:induction false} AppendConflicts<K>(gs: seq<Group<K, Slot>>, k: K, x: Slot)
    ensures ConflictsIn(Append(gs, k, x)) == ConflictsIn(gs) + CountWith(x, Lookup(gs, k))
  {
    if |gs| == 0 {
      var single := Append(gs, k, x);
      assert single == [Group(k, [x])];
      assert single[1..] == [];
      assert [x][1..] == [];
      assert PairCount([x]) == 0;
      assert ConflictsIn(single) == PairCount([x]) + ConflictsIn(single[1..]);
    } else if gs[0].key == k {
      assert Append(gs, k, x)[1..] == gs[1..];
      PairCountAppend(gs[0].members, x);
    } else {
      assert Append(gs, k, x)[1..] == Append(gs[1..], k, x);
      AppendConflicts(gs[1..], k, x);
    }
  }

  lemma {:induction false} CountWithMembers<K>(ps: seq<(K, Slot)>, k: K, y: Slot)
    ensures CountWith(y, MembersOf(ps, k)) == KeyedWith(ps, k, y)
  {
    if |ps| > 0 {
      var p, x := ps[..|ps| - 1], ps[|ps| - 1];
      CountWithMembers(p, k, y);
      if x.0 == k {
        CountWithAppend(y, MembersOf(p, k), x.1);
        OverlapsSymmetric(y, x.1);
      } else {
        assert MembersOf(ps, k) == MembersOf(p, k);
      }
    }
  }

  /**
   * Grouping then counting pairs per group, as the constraint checks do,
   * counts exactly the overlapping pairs of entries that share a key.
   */
  lemma {:induction false} GroupedConflicts<K>(ps: seq<(K, Slot)>)
    ensures ConflictsIn(GroupBy(ps)) == KeyedPairs(ps)
  {
    if |ps| > 0 {
      var p, x := ps[..|ps| - 1], ps[|ps| - 1];
      GroupedConflicts(p);
      AppendConflicts(GroupBy(p), x.0, x.1);
      GroupByCorrect(p);
      CountWithMembers(p, x.0, x.1);
    }
  }

  lemma {:induction false} KeyedWithZeroIff<K>(ps: seq<(K, Slot)>, k: K, y: Slot)
    ensures KeyedWith(ps, k, y) == 0 <==> forall i :: 0 <= i < |ps| && ps[i].0 == k ==> !Overlaps(ps[i].1, y)
  {
    if |ps| > 0 {
      var p := ps[..|ps| - 1];
      KeyedWithZeroIff(p, k, y);
      assert forall i :: 0 <= i < |p| ==> p[i] == ps[i];
    }
  }

  /** No conflicts exactly when no two entries with the same key overlap. */
  lemma {:induction false} KeyedPairsZeroIff<K>(ps: seq<(K, Slot)>)
    ensures KeyedPairs(ps) == 0 <==>
      forall i, j :: 0 <= i < j < |ps| && ps[i].0 == ps[j].0 ==> !Overlaps(ps[i].1, ps[j].1)
  {
    if |ps| > 0 {
      var p, x := ps[..|ps| - 1], ps[|ps| - 1];
      KeyedPairsZeroIff(p);
      KeyedWithZeroIff(p, x.0, x.1);
      assert forall i :: 0 <= i < |p| ==> p[i] == ps[i];
      if KeyedPairs(ps) == 0 {
        forall i, j | 0 <= i < j < |ps| && ps[i].0 == ps[j].0 ensures !Overlaps(ps[i].1, ps[j].1) {
          if j == |ps| - 1 {
            assert !Overlaps(p[i].1, x.1);
          }
        }
      }
    }
  }

  /** Grouped conflicts never exceed the number of pairs; singleton groups contribute none. */
  lemma {:induction false} ConflictsBound<K>(gs: seq<Group<K, Slot>>)
    ensures 2 * ConflictsIn(gs) <= PairBudget(gs)
    ensures (forall i :: 0 <= i < |gs| ==> |gs[i].members| <= 1) ==> ConflictsIn(gs) == 0
  {
    if |gs| > 0 {
      ConflictsBound(gs[1..]);
      PairCountBound(gs[0].members);
      if |gs[0].members| <= 1 {
        PairCountZeroIff(gs[0].members);
      }
      assert forall i :: 1 <= i < |gs| ==> gs[i] == gs[1..][i - 1];
    }
  }
}
