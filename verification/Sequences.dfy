/** Facts about lists that several parts of the model share. */
module Sequences {
  datatype Option<+T> = None | Some(value: T) {
    function GetOr(default: T): T {
      match this
      case Some(v) => v
      case None => default
    }
  }

  datatype Result<+T, +E> = Success(value: T) | Failure(error: E)

  /** No element occurs twice. */
  ghost predicate Distinct<T>(s: seq<T>) {
    forall i, j :: 0 <= i < j < |s| ==> s[i] != s[j]
  }

  ghost function Elements<T>(s: seq<T>): set<T> {
    set x | x in s
  }

  function Max(a: int, b: int): int {
    if a < b then b else a
  }

  function Min(a: int, b: int): int {
    if a < b then a else b
  }

  /** The position of the first `x`, or -1. */
  function IndexOf<T(==)>(s: seq<T>, x: T): (k: int)
    ensures -1 <= k < |s|
    ensures 0 <= k ==> s[k] == x && x !in s[..k]
    ensures k < 0 ==> x !in s
  {
    if s == [] then -1
    else if s[0] == x then 0
    else
      var k := IndexOf(s[1..], x);
      assert 0 <= k ==> s[..k + 1] == [s[0]] + s[1..][..k];
      if k < 0 then -1 else k + 1
  }

  /** `s` with every `x` filtered out. */
  function Without<T(==, !new)>(s: seq<T>, x: T): (r: seq<T>)
    ensures forall y :: y in r <==> y in s && y != x
    ensures |r| <= |s|
    ensures x !in s ==> r == s
  {
    if s == [] then []
    else if s[0] == x then Without(s[1..], x)
    else [s[0]] + Without(s[1..], x)
  }

  lemma {:induction false} WithoutDistinct<T(!new)>(s: seq<T>, x: T)
    requires Distinct(s)
    ensures Distinct(Without(s, x))
  {
    if s != [] {
      WithoutDistinct(s[1..], x);
      assert s[0] !in s[1..];
    }
  }

  /** The elements of `s` stand in `order`, and in the same order there. */
  ghost predicate Follows<T>(order: seq<T>, s: seq<T>) {
    && (forall i :: 0 <= i < |s| ==> s[i] in order)
    && forall i, j :: 0 <= i < j < |s| ==> IndexOf(order, s[i]) < IndexOf(order, s[j])
  }

  lemma {:induction false} IndexOfDistinct<T>(s: seq<T>, k: nat)
    requires Distinct(s) && k < |s|
    ensures IndexOf(s, s[k]) == k
  {
    var i := IndexOf(s, s[k]);
    assert s[k] in s;
  }

  lemma FollowsItself<T>(s: seq<T>)
    requires Distinct(s)
    ensures Follows(s, s)
  {
    forall i, j | 0 <= i < j < |s| ensures IndexOf(s, s[i]) < IndexOf(s, s[j]) {
      IndexOfDistinct(s, i);
      IndexOfDistinct(s, j);
    }
  }

  lemma {:induction false} WithoutFollows<T(!new)>(order: seq<T>, s: seq<T>, x: T)
    requires Follows(order, s)
    ensures Follows(order, Without(s, x))
  {
    hide Follows;
    if s == [] {
      NothingFollows(order);
    } else {
      RestFollows(order, s);
      WithoutFollows(order, s[1..], x);
      var r := Without(s[1..], x);
      forall i | 0 <= i < |r| ensures IndexOf(order, s[0]) < IndexOf(order, r[i]) {
        assert r[i] in r;
        LaterFollows(order, s, r[i]);
      }
      FirstIn(order, s);
      FollowsCons(order, s[0], r);
    }
  }

  lemma RestFollows<T>(order: seq<T>, s: seq<T>)
    requires Follows(order, s) && s != []
    ensures Follows(order, s[1..])
  {
    hide IndexOf;
    assert forall i :: 0 <= i < |s| - 1 ==> s[1..][i] == s[i + 1];
  }

  lemma LaterFollows<T>(order: seq<T>, s: seq<T>, x: T)
    requires Follows(order, s) && s != [] && x in s[1..]
    ensures IndexOf(order, s[0]) < IndexOf(order, x)
  {
    hide IndexOf;
    var k :| 0 <= k < |s| - 1 && s[1..][k] == x;
    assert s[k + 1] == x;
  }

  lemma FirstIn<T>(order: seq<T>, s: seq<T>)
    requires Follows(order, s) && s != []
    ensures s[0] in order
  {
  }

  /** One more element of a list that follows the order still does behind earlier ones. */
  lemma FollowsSnoc<T>(order: seq<T>, s: seq<T>, picked: seq<T>, k: nat)
    requires Follows(order, s) && Follows(order, picked) && k < |s|
    requires forall i :: 0 <= i < |picked| ==> picked[i] in s[..k]
    ensures Follows(order, picked + [s[k]])
  {
    forall i | 0 <= i < |picked| ensures IndexOf(order, picked[i]) < IndexOf(order, s[k]) {
      var first := s[..k];
      assert picked[i] in first;
      var j :| 0 <= j < k && first[j] == picked[i];
      assert s[j] == picked[i];
    }
  }

  lemma FollowsCons<T>(order: seq<T>, x: T, picked: seq<T>)
    requires Follows(order, picked) && x in order
    requires forall i :: 0 <= i < |picked| ==> IndexOf(order, x) < IndexOf(order, picked[i])
    ensures Follows(order, [x] + picked)
  {
    hide IndexOf;
    var longer := [x] + picked;
    assert forall i :: 0 < i < |longer| ==> longer[i] == picked[i - 1];
  }

  lemma NothingFollows<T>(order: seq<T>)
    ensures Follows(order, [])
  {
  }

  /** The first occurrence of an element comes after everything picked before it. */
  lemma FirstFollows<T>(order: seq<T>, picked: seq<T>, k: nat)
    requires Follows(order, picked) && k < |order| && order[k] !in order[..k]
    requires forall i :: 0 <= i < |picked| ==> picked[i] in order[..k]
    ensures Follows(order, picked + [order[k]])
  {
    FirstIndex(order, k);
    forall i | 0 <= i < |picked| ensures IndexOf(order, picked[i]) < k {
      var j :| 0 <= j < k && order[j] == picked[i];
      IndexAtMost(order, j);
    }
  }

  lemma IndexAtMost<T>(s: seq<T>, j: nat)
    requires j < |s|
    ensures 0 <= IndexOf(s, s[j]) <= j
  {
    assert s[j] in s;
    var k := IndexOf(s, s[j]);
    assert forall i :: 0 <= i < k ==> s[i] in s[..k];
  }

  lemma FirstIndex<T>(s: seq<T>, k: nat)
    requires k < |s| && s[k] !in s[..k]
    ensures IndexOf(s, s[k]) == k
  {
    IndexAtMost(s, k);
    assert forall i :: 0 <= i < k ==> s[i] in s[..k];
  }

  lemma FollowsTransitive<T>(order: seq<T>, s: seq<T>, r: seq<T>)
    requires Follows(order, s) && Follows(s, r)
    ensures Follows(order, r)
  {
    forall i, j | 0 <= i < j < |r| ensures IndexOf(order, r[i]) < IndexOf(order, r[j]) {
      assert s[IndexOf(s, r[i])] == r[i] && s[IndexOf(s, r[j])] == r[j];
    }
  }

  lemma SetOfElements<T>(s: seq<T>)
    ensures Elements(s) == set x | x in s
    ensures forall x :: x in s <==> x in Elements(s)
  {
  }

  lemma SomeMember<T(!new)>(s: seq<T>)
    ensures s == [] || exists x :: x in s
  {
    if s != [] {
      assert s[0] in s;
    }
  }

  lemma TwoMembers<T(!new)>(s: seq<T>)
    requires Distinct(s)
    ensures s == [] || s[0] in s
    ensures |s| <= 1 || exists x, y :: x in s && y in s && x != y
  {
    if |s| > 1 {
      assert s[0] in s && s[1] in s;
    }
  }

  lemma InSlice<T>(s: seq<T>, lo: nat, hi: nat, k: nat)
    requires Distinct(s) && lo <= hi <= |s| && k < |s|
    ensures s[k] in s[lo..hi] <==> lo <= k < hi
  {
    if lo <= k < hi {
      assert s[lo..hi][k - lo] == s[k];
    }
  }

  lemma {:induction false} DistinctLength<T>(s: seq<T>)
    requires Distinct(s)
    ensures |Elements(s)| == |s|
  {
    if s != [] {
      var front, last := s[..|s| - 1], s[|s| - 1];
      DistinctLength(front);
      assert s == front + [last];
      assert last !in Elements(front);
      assert Elements(s) == Elements(front) + {last};
    }
  }

  /** A list as long as the set of its elements repeats nothing. */
  lemma {:induction false} CountDistinct<T>(s: seq<T>)
    ensures |Elements(s)| <= |s|
    ensures |Elements(s)| == |s| ==> Distinct(s)
  {
    if s != [] {
      var front, last := s[..|s| - 1], s[|s| - 1];
      CountDistinct(front);
      assert s == front + [last];
      assert Elements(s) == Elements(front) + {last};
      if |Elements(s)| == |s| {
        assert last !in Elements(front);
      }
    }
  }

  /** A list longer than a repetition-free one with the same elements repeats something. */
  lemma LongerRepeats<T>(s: seq<T>, t: seq<T>)
    requires Distinct(s) && Elements(s) == Elements(t) && |s| < |t|
    ensures !Distinct(t)
  {
    DistinctLength(s);
    if Distinct(t) {
      DistinctLength(t);
    }
  }

  lemma DistinctConcat<T>(s: seq<T>, t: seq<T>)
    requires Distinct(s) && Distinct(t) && forall x :: x in t ==> x !in s
    ensures Distinct(s + t)
  {
    forall i, j | 0 <= i < j < |s + t| ensures (s + t)[i] != (s + t)[j] {
      if i < |s| <= j {
        assert t[j - |s|] in t;
      }
    }
  }

  lemma SliceDistinct<T>(s: seq<T>, lo: nat, hi: nat)
    requires Distinct(s) && lo <= hi <= |s|
    ensures Distinct(s[lo..hi])
  {
  }

  /** A repetition-free list of elements of another that is no shorter holds all of them. */
  lemma FillsAll<T>(s: seq<T>, t: seq<T>)
    requires Distinct(s) && Distinct(t) && |s| == |t| && forall k :: 0 <= k < |s| ==> s[k] in t
    ensures forall k :: 0 <= k < |t| ==> t[k] in s
  {
    DistinctLength(s);
    DistinctLength(t);
    var rest := Elements(t) - Elements(s);
    assert Elements(s) <= Elements(t);
    assert Elements(t) == Elements(s) + rest;
    forall k | 0 <= k < |t| ensures t[k] in s {
      assert t[k] in Elements(t);
    }
  }

  lemma NoLonger<T>(s: seq<T>, t: seq<T>)
    requires Distinct(s) && forall k :: 0 <= k < |s| ==> s[k] in t
    ensures |s| <= |t|
  {
    DistinctLength(s);
    CountDistinct(t);
    assert Elements(t) == Elements(s) + (Elements(t) - Elements(s));
  }

  // ----- intervals -----

  function Interval(lo: int, hi: int): (r: set<int>)
    requires lo <= hi
    ensures |r| == hi - lo
    ensures forall j :: j in r <==> lo <= j < hi
    decreases hi - lo
  {
    if lo == hi then {} else Interval(lo, hi - 1) + {hi - 1}
  }

  /** A set that is an interval has its length. */
  lemma IntervalSize(s: set<int>, lo: int, hi: int)
    requires lo <= hi && forall j :: j in s <==> lo <= j < hi
    ensures |s| == hi - lo
  {
    assert s == Interval(lo, hi);
  }

  /** A set within an interval that is as large as it is all of it. */
  lemma FillsInterval(s: set<int>, lo: int, hi: int)
    requires lo <= hi && |s| == hi - lo && forall j :: j in s ==> lo <= j < hi
    ensures forall j :: j in s <==> lo <= j < hi
  {
    assert Interval(lo, hi) == s + (Interval(lo, hi) - s);
  }
}
