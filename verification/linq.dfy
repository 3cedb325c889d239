/**
 * The few LINQ-to-objects operators the automapper relies on, over sequences:
 * `Any(predicate)`, `Where(predicate).First…`, counting, and `Except` with an
 * equality comparer. An `IEqualityComparer<T>` is modelled by a key function:
 * two elements are equal under the comparer exactly when their keys are equal.
 */
module Linq {
  import opened Wrappers

  /** `Enumerable.Any(s, p)`: some element satisfies `p`. */
  function Any<T>(s: seq<T>, p: T -> bool): (r: bool)
    ensures r <==> exists i :: 0 <= i < |s| && p(s[i])
  {
    if |s| == 0 then false
    else if p(s[0]) then true
    else
      var rest := Any(s[1..], p);
      assert forall i :: 1 <= i < |s| ==> s[i] == s[1..][i - 1];
      rest
  }

  /** Position of the first element satisfying `p`, the element that
      `Where(p).FirstOrDefault()` yields. */
  function FirstIndex<T>(s: seq<T>, p: T -> bool): (r: Option<nat>)
    ensures r.None? <==> forall i :: 0 <= i < |s| ==> !p(s[i])
    ensures r.Some? ==> r.value < |s| && p(s[r.value])
    ensures r.Some? ==> forall j :: 0 <= j < r.value ==> !p(s[j])
  {
    if |s| == 0 then None
    else if p(s[0]) then Some(0)
    else
      match FirstIndex(s[1..], p)
      case None =>
        assert forall i :: 1 <= i < |s| ==> s[i] == s[1..][i - 1];
        None
      case Some(k) => Some(k + 1)
  }

  /** The first match in `a + b` is the first match in `a` if there is one,
      and otherwise the first match in `b`, shifted past `a`. */
  lemma {:induction false} FirstIndexAppend<T>(a: seq<T>, b: seq<T>, p: T -> bool)
    ensures FirstIndex(a + b, p) ==
              match FirstIndex(a, p)
              case Some(i) => Some(i)
              case None =>
                match FirstIndex(b, p)
                case Some(j) => Some(|a| + j)
                case None => None
  {
    var ab := a + b;
    match FirstIndex(a, p)
    case Some(i) =>
      assert ab[i] == a[i];
      forall j | 0 <= j < i ensures !p(ab[j]) { assert ab[j] == a[j]; }
      FirstIndexUnique(ab, p, i);
    case None =>
      forall j | 0 <= j < |a| ensures !p(ab[j]) { assert ab[j] == a[j]; }
      match FirstIndex(b, p)
      case Some(j) =>
        assert ab[|a| + j] == b[j];
        forall k | |a| <= k < |a| + j ensures !p(ab[k]) { assert ab[k] == b[k - |a|]; }
        FirstIndexUnique(ab, p, |a| + j);
      case None =>
        forall k | |a| <= k < |ab| ensures !p(ab[k]) { assert ab[k] == b[k - |a|]; }
  }

  /** An index that satisfies `p` and has no earlier match is the one `FirstIndex` finds. */
  lemma FirstIndexUnique<T>(s: seq<T>, p: T -> bool, i: nat)
    requires i < |s| && p(s[i])
    requires forall j :: 0 <= j < i ==> !p(s[j])
    ensures FirstIndex(s, p) == Some(i)
  {
  }

  /** `Enumerable.Count(s, p)`. */
  function Count<T>(s: seq<T>, p: T -> bool): (n: nat)
    ensures n <= |s|
    ensures n == 0 <==> forall i :: 0 <= i < |s| ==> !p(s[i])
  {
    if |s| == 0 then 0
    else
      var rest := Count(s[1..], p);
      assert forall i :: 1 <= i < |s| ==> s[i] == s[1..][i - 1];
      (if p(s[0]) then 1 else 0) + rest
  }

  /** Counting distributes over concatenation. */
  lemma {:induction false} CountAppend<T>(a: seq<T>, b: seq<T>, p: T -> bool)
    ensures Count(a + b, p) == Count(a, p) + Count(b, p)
  {
    if |a| == 0 {
      assert a + b == b;
    } else {
      assert (a + b)[1..] == a[1..] + b;
      CountAppend(a[1..], b, p);
    }
  }

  /** The keys an element sequence covers. */
  function KeySet<T(==), K(==)>(s: seq<T>, key: T -> K): set<K>
  {
    set x | x in s :: key(x)
  }

  /**
   * `first.Except(second, comparer)`: the elements of `first`, in order, whose
   * key occurs neither in `second` nor in an element already yielded. The
   * comparer's hash set is `seen`, seeded with the keys of `second`.
   */
  function ExceptBy<T(==), K(==)>(first: seq<T>, second: seq<T>, key: T -> K): (r: seq<T>)
    ensures forall x :: x in r ==> x in first
    ensures KeySet(r, key) == KeySet(first, key) - KeySet(second, key)
    ensures forall i, j :: 0 <= i < j < |r| ==> key(r[i]) != key(r[j])
  {
    ExceptFrom(first, KeySet(second, key), key)
  }

  /** The iteration behind `ExceptBy`, with the comparer's hash set made explicit. */
  function ExceptFrom<T(==), K(==)>(first: seq<T>, seen: set<K>, key: T -> K): (r: seq<T>)
    ensures forall x :: x in r ==> x in first
    ensures KeySet(r, key) == KeySet(first, key) - seen
    ensures forall i, j :: 0 <= i < j < |r| ==> key(r[i]) != key(r[j])
    decreases |first|
  {
    if |first| == 0 then []
    else
      var x := first[0];
      assert first == [x] + first[1..];
      assert KeySet(first, key) == {key(x)} + KeySet(first[1..], key);
      if key(x) in seen then
        ExceptFrom(first[1..], seen, key)
      else
        var rest := ExceptFrom(first[1..], seen + {key(x)}, key);
        assert key(x) !in KeySet(rest, key);
        assert forall j :: 0 <= j < |rest| ==> key(rest[j]) in KeySet(rest, key);
        assert KeySet([x] + rest, key) == {key(x)} + KeySet(rest, key);
        [x] + rest
  }

  /** A sequence whose elements have pairwise distinct keys has as many keys as elements. */
  lemma {:induction false} DistinctKeysCount<T, K>(s: seq<T>, key: T -> K)
    requires forall i, j :: 0 <= i < j < |s| ==> key(s[i]) != key(s[j])
    ensures |KeySet(s, key)| == |s|
  {
    if |s| > 0 {
      var rest := s[1..];
      assert s == [s[0]] + rest;
      assert KeySet(s, key) == {key(s[0])} + KeySet(rest, key);
      assert key(s[0]) !in KeySet(rest, key) by {
        forall x | x in rest ensures key(x) != key(s[0]) {
          var j :| 0 <= j < |rest| && rest[j] == x;
          assert s[j + 1] == x;
        }
      }
      DistinctKeysCount(rest, key);
    }
  }

  /** A sequence of copies of `x` with distinct keys that covers a key is `[x]`. */
  lemma SingleKeyIsSingleton<T, K>(s: seq<T>, key: T -> K, x: T)
    requires forall i, j :: 0 <= i < j < |s| ==> key(s[i]) != key(s[j])
    requires KeySet(s, key) != {}
    requires forall y :: y in s ==> y == x
    ensures s == [x]
  {
    assert KeySet(s, key) == {key(x)};
    DistinctKeysCount(s, key);
    assert s[0] in s;
  }

  /** A non-empty sequence covers at least one key. */
  lemma NonEmptyCoversKey<T, K>(s: seq<T>, key: T -> K)
    requires |s| > 0
    ensures KeySet(s, key) != {}
  {
    assert key(s[0]) in KeySet(s, key);
  }
}
