/** Order-preserving filters of sequences, and when they amount to taking a suffix. */
module Filters {

  function Filter<T>(s: seq<T>, f: T -> bool): (r: seq<T>)
    ensures |r| <= |s|
  {
    if s == [] then []
    else
      var front := Filter(s[..|s| - 1], f);
      if f(s[|s| - 1]) then front + [s[|s| - 1]] else front
  }

  lemma {:induction false} FilterMembers<T>(s: seq<T>, f: T -> bool)
    ensures forall x :: x in Filter(s, f) <==> x in s && f(x)
  {
    if s != [] {
      var front, last := s[..|s| - 1], s[|s| - 1];
      FilterMembers(front, f);
      assert s == front + [last];
    }
  }

  lemma FilterPush<T>(s: seq<T>, x: T, f: T -> bool)
    ensures Filter(s + [x], f) == if f(x) then Filter(s, f) + [x] else Filter(s, f)
  {
    assert (s + [x])[..|s|] == s;
  }

  /** Two successive filters are the filter by the conjunction. */
  lemma {:induction false} FilterTwice<T>(s: seq<T>, first: T -> bool, second: T -> bool, both: T -> bool)
    requires forall x :: x in s ==> (both(x) <==> first(x) && second(x))
    ensures Filter(Filter(s, first), second) == Filter(s, both)
  {
    if s != [] {
      var front, last := s[..|s| - 1], s[|s| - 1];
      FilterTwice(front, first, second, both);
      assert last in s;
      if first(last) {
        FilterPush(Filter(front, first), last, second);
      }
    }
  }

  /** Filters that agree on the elements agree. */
  lemma {:induction false} FilterAgrees<T>(s: seq<T>, f: T -> bool, g: T -> bool)
    requires forall x :: x in s ==> (f(x) <==> g(x))
    ensures Filter(s, f) == Filter(s, g)
  {
    if s != [] {
      assert s[|s| - 1] in s;
      FilterAgrees(s[..|s| - 1], f, g);
    }
  }

  lemma {:induction false} FilterNothing<T>(s: seq<T>, f: T -> bool)
    requires forall i :: 0 <= i < |s| ==> !f(s[i])
    ensures Filter(s, f) == []
  {
    if s != [] {
      FilterNothing(s[..|s| - 1], f);
    }
  }

  /** A test that fails on the first `k` elements and holds on the others drops `k` elements. */
  lemma {:induction false} FilterSuffix<T>(s: seq<T>, f: T -> bool, k: nat)
    requires k <= |s|
    requires forall i :: 0 <= i < k ==> !f(s[i])
    requires forall i :: k <= i < |s| ==> f(s[i])
    ensures Filter(s, f) == s[k..]
  {
    if k == |s| {
      FilterNothing(s, f);
    } else {
      var front := s[..|s| - 1];
      FilterSuffix(front, f, k);
      assert s[k..] == front[k..] + [s[|s| - 1]];
    }
  }

  /** The first index from which on a test that never turns false again holds. */
  lemma {:induction false} Threshold<T>(s: seq<T>, f: T -> bool) returns (k: nat)
    requires forall i, j :: 0 <= i < j < |s| && f(s[i]) ==> f(s[j])
    ensures k <= |s|
    ensures forall i :: 0 <= i < k ==> !f(s[i])
    ensures forall i :: k <= i < |s| ==> f(s[i])
  {
    k := 0;
    while k < |s| && !f(s[k])
      invariant k <= |s|
      invariant forall i :: 0 <= i < k ==> !f(s[i])
    {
      k := k + 1;
    }
  }

  /** Index `i` is the only place where a test holds. */
  ghost predicate OnlyAt<T(!new)>(s: seq<T>, f: T -> bool, i: nat) {
    i < |s| && f(s[i]) && forall j :: 0 <= j < |s| && j != i ==> !f(s[j])
  }

  lemma OnlyAtPush<T(!new)>(s: seq<T>, f: T -> bool, i: nat)
    requires s != []
    ensures OnlyAt(s, f, i) <==>
              if f(s[|s| - 1]) then i == |s| - 1 && forall j :: 0 <= j < |s| - 1 ==> !f(s[j])
              else OnlyAt(s[..|s| - 1], f, i)
  {
    var front := s[..|s| - 1];
    assert forall j :: 0 <= j < |front| ==> front[j] == s[j];
  }

  /** A filter finds one element exactly when the test holds in one place. */
  lemma {:induction false} FilterOne<T(!new)>(s: seq<T>, f: T -> bool, i: nat)
    ensures OnlyAt(s, f, i) ==> Filter(s, f) == [s[i]]
  {
    if s != [] {
      OnlyAtPush(s, f, i);
      if f(s[|s| - 1]) {
        if OnlyAt(s, f, i) {
          FilterNothing(s[..|s| - 1], f);
        }
      } else {
        FilterOne(s[..|s| - 1], f, i);
      }
    }
  }

  lemma {:induction false} FilterOneAt<T(!new)>(s: seq<T>, f: T -> bool) returns (i: nat)
    requires |Filter(s, f)| == 1
    ensures OnlyAt(s, f, i) && Filter(s, f) == [s[i]]
  {
    var front := s[..|s| - 1];
    if f(s[|s| - 1]) {
      i := |s| - 1;
      FilterMembers(front, f);
      forall j | 0 <= j < |front| ensures !f(front[j]) {
        assert front[j] !in Filter(front, f);
        assert front[j] in front;
      }
    } else {
      i := FilterOneAt(front, f);
    }
    OnlyAtPush(s, f, i);
  }

  function Max(a: int, b: int): int {
    if a > b then a else b
  }

  /** Filtering a suffix by a test that holds from index `k` of the whole on. */
  lemma FilterTail<T>(s: seq<T>, from: nat, f: T -> bool, k: nat)
    requires from <= |s| && k <= |s|
    requires forall i :: 0 <= i < k ==> !f(s[i])
    requires forall i :: k <= i < |s| ==> f(s[i])
    ensures Filter(s[from..], f) == s[Max(from, k)..]
  {
    FilterSuffix(s[from..], f, Max(from, k) - from);
    assert s[from..][Max(from, k) - from..] == s[Max(from, k)..];
  }
}
