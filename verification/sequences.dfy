/** Generic sequence helpers used by the roster model: duplicate-freedom,
    first occurrences, pandas-style `unique()` and removal of one value. */
module Sequences {

  /** True when no element occurs twice in `s`. */
  predicate NoDuplicates<T(==)>(s: seq<T>) {
    forall i, j :: 0 <= i < j < |s| ==> s[i] != s[j]
  }

  /** The position of the first occurrence of `x` in `s`. */
  function FirstIndex<T(==)>(s: seq<T>, x: T): (k: nat)
    requires x in s
    ensures k < |s| && s[k] == x
    ensures forall j :: 0 <= j < k ==> s[j] != x
  {
    if s[0] == x then 0 else 1 + FirstIndex(s[1..], x)
  }

  /** A prefix that already holds `x` sees its first occurrence where the whole sequence does. */
  lemma FirstIndexInPrefix<T>(s: seq<T>, m: nat, x: T)
    requires m <= |s| && x in s[..m]
    ensures FirstIndex(s, x) == FirstIndex(s[..m], x)
  {
    var k1 := FirstIndex(s, x);
    var k2 := FirstIndex(s[..m], x);
    assert s[k2] == x;
    assert k1 <= k2;
    assert s[..m][k1] == x;
  }

  /** The distinct values of `s` in order of first appearance, as pandas'
      `Series.unique()` returns them. */
  function Unique<T(==,!new)>(s: seq<T>): (u: seq<T>)
    ensures NoDuplicates(u)
    ensures forall x :: x in u <==> x in s
  {
    if |s| == 0 then []
    else
      var u := Unique(s[..|s| - 1]);
      assert s == s[..|s| - 1] + [s[|s| - 1]];
      if s[|s| - 1] in u then u else u + [s[|s| - 1]]
  }

  /** `Unique` lists values in the order in which each first occurs. */
  lemma {:induction false} UniqueFirstSeenOrder<T(!new)>(s: seq<T>, i: nat, j: nat)
    requires i < j < |Unique(s)|
    ensures FirstIndex(s, Unique(s)[i]) < FirstIndex(s, Unique(s)[j])
  {
    var n := |s|;
    var p := s[..n - 1];
    var u := Unique(p);
    assert s == p + [s[n - 1]];
    assert Unique(s)[i] == u[i];
    FirstIndexInPrefix(s, n - 1, u[i]);
    if j < |u| {
      assert Unique(s)[j] == u[j];
      UniqueFirstSeenOrder(p, i, j);
      FirstIndexInPrefix(s, n - 1, u[j]);
    } else {
      assert Unique(s)[j] == s[n - 1] && s[n - 1] !in p;
      assert FirstIndex(s, s[n - 1]) == n - 1;
    }
  }

  /** `s` with every occurrence of `x` removed, the rest in order. */
  function Without<T(==,!new)>(s: seq<T>, x: T): (r: seq<T>)
    ensures forall y :: y in r <==> y in s && y != x
    ensures NoDuplicates(s) ==> NoDuplicates(r)
    ensures x !in s ==> r == s
  {
    if |s| == 0 then []
    else
      var w := Without(s[..|s| - 1], x);
      assert s == s[..|s| - 1] + [s[|s| - 1]];
      if s[|s| - 1] == x then w
      else
        assert NoDuplicates(s) ==> s[|s| - 1] !in s[..|s| - 1];
        w + [s[|s| - 1]]
  }

  /** A duplicate-free sequence holds each of its values exactly once. */
  lemma {:induction false} NoDuplicatesOccurrence<T>(s: seq<T>, x: T)
    requires NoDuplicates(s)
    ensures multiset(s)[x] <= 1
  {
    if |s| > 0 {
      var p := s[..|s| - 1];
      assert s == p + [s[|s| - 1]];
      NoDuplicatesOccurrence(p, x);
      if x == s[|s| - 1] {
        assert x !in p;
      }
    }
  }

  /** Two positions holding the same value make that value occur at least twice. */
  lemma TwoPositions<T>(s: seq<T>, i: nat, j: nat)
    requires i < j < |s| && s[i] == s[j]
    ensures multiset(s)[s[i]] >= 2
  {
    assert s == s[..j] + s[j..];
    assert s[i] in s[..j];
    assert s[j] in s[j..];
  }
}
