/**
 * Small shared vocabulary: optional values and Python truthiness of ids.
 */
module Util {

  /** Python's `None` or a present value. */
  datatype Option<T> = None | Some(value: T)

  /** Python truthiness of an optional integer id: both `None` and `0` are falsy. */
  predicate Truthy(o: Option<int>) {
    o.Some? && o.value != 0
  }

  function Min(a: int, b: int): int {
    if a <= b then a else b
  }

  function Max(a: int, b: int): int {
    if a >= b then a else b
  }

  /** The number of positions of `s` holding `c`. */
  function Occurrences(s: string, c: char): (n: nat)
    ensures n <= |s|
  {
    if |s| == 0 then 0
    else Occurrences(s[..|s| - 1], c) + (if s[|s| - 1] == c then 1 else 0)
  }

  /** The number of true entries. */
  function CountTrue(bs: seq<bool>): (n: nat)
    ensures n <= |bs|
  {
    if |bs| == 0 then 0
    else CountTrue(bs[..|bs| - 1]) + (if bs[|bs| - 1] then 1 else 0)
  }

  /** `a` is `b` with some elements dropped, order kept. */
  predicate Subsequence<T(==)>(a: seq<T>, b: seq<T>)
    decreases |b|
  {
    |a| == 0 || (|b| > 0 && ((a[0] == b[0] && Subsequence(a[1..], b[1..])) || Subsequence(a, b[1..])))
  }

  /** Taking the last element off `a` and a matching occurrence off `b` keeps two equal multisets equal. */
  lemma RemoveMatching<T>(a: seq<T>, b: seq<T>, i: nat)
    requires |a| > 0 && i < |b| && b[i] == a[|a| - 1]
    requires multiset(a) == multiset(b)
    ensures multiset(a[..|a| - 1]) == multiset(b[..i] + b[i + 1..])
  {
    var x := a[|a| - 1];
    var p := a[..|a| - 1];
    var q := b[..i] + b[i + 1..];
    assert a == p + [x];
    assert b == b[..i] + [x] + b[i + 1..];
    assert multiset(a) == multiset(p) + multiset{x};
    assert multiset(b) == multiset(q) + multiset{x};
    forall y ensures multiset(p)[y] == multiset(q)[y] {
      assert multiset(p)[y] + multiset{x}[y] == multiset(a)[y];
      assert multiset(q)[y] + multiset{x}[y] == multiset(b)[y];
    }
  }
}
