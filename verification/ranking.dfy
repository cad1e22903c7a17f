/** Ranking the overlap table by count, highest first, as
    `sort_values(by='Overlap Count', ascending=False)` does. The order among
    equal counts is not promised. */
module Ranking {
  import opened Sequences
  import opened Roster
  import opened Overlaps

  /** Counts never increase from one entry to a later one. */
  predicate NonIncreasing(entries: seq<Entry>) {
    forall i, j :: 0 <= i < j < |entries| ==> entries[i].count >= entries[j].count
  }

  /** Places `e` into a non-increasing table after the entries whose count is
      at least its own, keeping the table non-increasing. */
  function InsertByCount(e: Entry, sorted: seq<Entry>): (r: seq<Entry>)
    requires NonIncreasing(sorted)
    ensures NonIncreasing(r)
    ensures multiset(r) == multiset(sorted) + multiset{e}
  {
    if |sorted| == 0 then [e]
    else if e.count > sorted[0].count then [e] + sorted
    else
      var rest := InsertByCount(e, sorted[1..]);
      assert sorted == [sorted[0]] + sorted[1..];
      assert forall k :: 0 <= k < |rest| ==> rest[k].count <= sorted[0].count by {
        forall k | 0 <= k < |rest| ensures rest[k].count <= sorted[0].count {
          assert rest[k] in multiset(rest);
        }
      }
      [sorted[0]] + rest
  }

  /** Sorts an overlap table by count, highest first: the result holds exactly
      the same entries and its counts never increase. */
  method SortByCountDescending(entries: seq<Entry>) returns (sorted: seq<Entry>)
    ensures multiset(sorted) == multiset(entries)
    ensures NonIncreasing(sorted)
  {
    sorted := [];
    for i := 0 to |entries|
      invariant NonIncreasing(sorted)
      invariant multiset(sorted) == multiset(entries[..i])
    {
      assert entries[..i + 1] == entries[..i] + [entries[i]];
      sorted := InsertByCount(entries[i], sorted);
    }
    assert entries[..|entries|] == entries;
  }

  /** Removing one entry from a non-increasing table leaves it non-increasing. */
  lemma RemoveKeepsNonIncreasing(s: seq<Entry>, k: nat)
    requires k < |s| && NonIncreasing(s)
    ensures NonIncreasing(s[..k] + s[k + 1..])
  {
    var r := s[..k] + s[k + 1..];
    forall i, j | 0 <= i < j < |r| ensures r[i].count >= r[j].count {
      var i' := if i < k then i else i + 1;
      var j' := if j < k then j else j + 1;
      assert r[i] == s[i'] && r[j] == s[j'];
    }
  }

  /** Dropping the head of `a` and a matching entry of `b` keeps the two
      tables reorderings of each other. */
  lemma DropMatching(a: seq<Entry>, b: seq<Entry>, k: nat)
    requires multiset(a) == multiset(b) && |a| > 0
    requires k < |b| && b[k] == a[0]
    ensures multiset(a[1..]) == multiset(b[..k] + b[k + 1..])
  {
    assert a == [a[0]] + a[1..];
    assert multiset(a) == multiset{a[0]} + multiset(a[1..]);
    assert b == b[..k] + [b[k]] + b[k + 1..];
    assert multiset(b) == multiset(b[..k]) + multiset{b[k]} + multiset(b[k + 1..]);
    assert multiset(b[..k] + b[k + 1..]) == multiset(b[..k]) + multiset(b[k + 1..]);
    assert multiset(a[1..]) == multiset(a) - multiset{a[0]};
    assert multiset(b[..k]) + multiset(b[k + 1..]) == multiset(b) - multiset{b[k]};
  }

  /** A position at which `x` occurs in `s`. */
  lemma PositionOf(s: seq<Entry>, x: Entry) returns (k: nat)
    requires x in multiset(s)
    ensures k < |s| && s[k] == x
  {
    k :| 0 <= k < |s| && s[k] == x;
  }

  /** Two non-increasing reorderings of the same entries start with the same count. */
  lemma FirstCountsAgree(a: seq<Entry>, b: seq<Entry>)
    requires multiset(a) == multiset(b) && |a| > 0
    requires NonIncreasing(a) && NonIncreasing(b)
    ensures |b| > 0 && a[0].count == b[0].count
  {
    assert a[0] in multiset(b);
    assert b[0] in multiset(a);
  }

  /** In a non-increasing table whose entry `k` has the first entry's count,
      dropping entry `k` shifts the counts after the head by one place. */
  lemma DropShiftsCounts(b: seq<Entry>, k: nat, i: nat)
    requires k < |b| && NonIncreasing(b) && b[k].count == b[0].count
    requires 0 < i < |b|
    ensures (b[..k] + b[k + 1..])[i - 1].count == b[i].count
  {
    var b' := b[..k] + b[k + 1..];
    if i - 1 < k {
      assert b'[i - 1] == b[i - 1];
    } else {
      assert b'[i - 1] == b[i];
    }
  }

  /** Whatever order a sort gives entries with equal counts, the count column
      of a non-increasing reordering is always the same. */
  lemma {:induction false} RankingCountsDetermined(a: seq<Entry>, b: seq<Entry>)
    requires multiset(a) == multiset(b)
    requires NonIncreasing(a) && NonIncreasing(b)
    ensures |a| == |b|
    ensures forall i :: 0 <= i < |a| ==> a[i].count == b[i].count
    decreases |a|
  {
    assert |a| == |multiset(a)| == |multiset(b)| == |b|;
    if |a| > 0 {
      FirstCountsAgree(a, b);
      var k := PositionOf(b, a[0]);
      var b' := b[..k] + b[k + 1..];
      DropMatching(a, b, k);
      RemoveKeepsNonIncreasing(b, k);
      RankingCountsDetermined(a[1..], b');
      forall i | 0 < i < |a| ensures a[i].count == b[i].count {
        assert a[i] == a[1..][i - 1];
        DropShiftsCounts(b, k, i);
      }
    }
  }

  /** A reordering of a table with distinct classes still has distinct classes. */
  lemma PermutationKeepsDistinctKeys(a: seq<Entry>, b: seq<Entry>)
    requires multiset(a) == multiset(b)
    requires NoDuplicates(Keys(a))
    ensures NoDuplicates(Keys(b))
  {
    forall i, j | 0 <= i < j < |b|
      ensures Keys(b)[i] != Keys(b)[j]
    {
      if Keys(b)[i] == Keys(b)[j] {
        var p := PositionOf(a, b[i]);
        var q := PositionOf(a, b[j]);
        if p == q {
          TwoPositions(b, i, j);
          assert NoDuplicates(a) by {
            forall x, y | 0 <= x < y < |a| ensures a[x] != a[y] {
              assert Keys(a)[x] != Keys(a)[y];
            }
          }
          NoDuplicatesOccurrence(a, b[i]);
        }
      }
    }
  }

  /** A reordering of a table lists the same classes. */
  lemma PermutationKeepsClasses(a: seq<Entry>, b: seq<Entry>)
    requires multiset(a) == multiset(b)
    ensures forall c :: c in Keys(a) <==> c in Keys(b)
  {
    forall c | c in Keys(a) ensures c in Keys(b) {
      var k :| 0 <= k < |a| && Keys(a)[k] == c;
      assert a[k] in multiset(b);
      var m :| 0 <= m < |b| && b[m] == a[k];
      assert Keys(b)[m] == c;
    }
    forall c | c in Keys(b) ensures c in Keys(a) {
      var k :| 0 <= k < |b| && Keys(b)[k] == c;
      assert b[k] in multiset(a);
      var m :| 0 <= m < |a| && a[m] == b[k];
      assert Keys(a)[m] == c;
    }
  }

  /** The whole script: count every other class's overlap with `target`, then
      rank the classes by that count, highest first. Every class of the table
      except the target appears exactly once, with its own overlap count. */
  method RankBySimilarity(rows: seq<Row>, target: Class) returns (ranked: seq<Entry>)
    ensures multiset(ranked) == multiset(Similarity(rows, target))
    ensures NonIncreasing(ranked)
    ensures NoDuplicates(Keys(ranked))
    ensures forall c :: c in Keys(ranked) <==> HasClass(rows, c) && c != target
    ensures forall i :: 0 <= i < |ranked| ==> ranked[i].count == Overlap(rows, target, ranked[i].classId)
  {
    var counts := CountOverlaps(rows, target);
    ranked := SortByCountDescending(counts);
    SimilarityClasses(rows, target);
    PermutationKeepsDistinctKeys(counts, ranked);
    PermutationKeepsClasses(counts, ranked);
    forall i | 0 <= i < |ranked|
      ensures ranked[i].count == Overlap(rows, target, ranked[i].classId)
    {
      assert ranked[i] in multiset(counts);
    }
  }
}
