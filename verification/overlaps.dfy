/** The per-class overlap count against one target class: how many distinct
    instructors each other class shares with the target. */
module Overlaps {
  import opened Sequences
  import opened Roster

  /** One entry of the overlap table: a class and its overlap count with the target. */
  datatype Entry = Entry(classId: Class, count: nat)

  /** The class column of an overlap table. */
  function Keys(entries: seq<Entry>): (ks: seq<Class>)
    ensures |ks| == |entries|
    ensures forall i :: 0 <= i < |entries| ==> ks[i] == entries[i].classId
  {
    if |entries| == 0 then []
    else Keys(entries[..|entries| - 1]) + [entries[|entries| - 1].classId]
  }

  /** The number of distinct instructors classes `a` and `b` share:
      `len(set(dosen_a) & set(dosen_b))`. It never exceeds either class's own count. */
  function Overlap(rows: seq<Row>, a: Class, b: Class): (n: nat)
    ensures n <= |InstructorsOf(rows, a)|
    ensures n <= |InstructorsOf(rows, b)|
  {
    var sa := InstructorsOf(rows, a);
    var sb := InstructorsOf(rows, b);
    assert sa * sb <= sa && sa * sb <= sb;
    SubsetCardinality(sa * sb, sa);
    SubsetCardinality(sa * sb, sb);
    |sa * sb|
  }

  /** A subset is never larger than the set that contains it. */
  lemma {:induction false} SubsetCardinality<T>(small: set<T>, big: set<T>)
    requires small <= big
    ensures |small| <= |big|
  {
    if small != {} {
      var x :| x in small;
      SubsetCardinality(small - {x}, big - {x});
    }
  }

  /** The overlap entries for the classes `cs` in order, skipping `target`. */
  function EntriesFor(rows: seq<Row>, target: Class, cs: seq<Class>): (r: seq<Entry>)
    ensures Keys(r) == Without(cs, target)
    ensures forall i :: 0 <= i < |r| ==> r[i].count == Overlap(rows, target, r[i].classId)
  {
    if |cs| == 0 then []
    else
      var p := cs[..|cs| - 1];
      var c := cs[|cs| - 1];
      assert cs == p + [c];
      var r := EntriesFor(rows, target, p);
      if c == target then r
      else
        KeysAppend(r, Entry(c, Overlap(rows, target, c)));
        r + [Entry(c, Overlap(rows, target, c))]
  }

  /** The overlap table before sorting: every class of the table other than
      `target`, in first-seen order, with its overlap count against `target`. */
  function Similarity(rows: seq<Row>, target: Class): (r: seq<Entry>)
    ensures Keys(r) == Without(DistinctClasses(rows), target)
    ensures forall i :: 0 <= i < |r| ==> r[i].count == Overlap(rows, target, r[i].classId)
  {
    EntriesFor(rows, target, DistinctClasses(rows))
  }

  /** The overlap table names every class of the table except the target,
      each exactly once. */
  lemma SimilarityClasses(rows: seq<Row>, target: Class)
    ensures NoDuplicates(Keys(Similarity(rows, target)))
    ensures forall c :: c in Keys(Similarity(rows, target)) <==> HasClass(rows, c) && c != target
    ensures forall e :: e in Similarity(rows, target) ==> e.classId != target
  {
    var r := Similarity(rows, target);
    forall e | e in r ensures e.classId != target {
      var k :| 0 <= k < |r| && r[k] == e;
      assert Keys(r)[k] == e.classId;
    }
  }

  /** The loop of the script: walk the distinct classes, skip the target, and
      record each remaining class with its overlap count. */
  method CountOverlaps(rows: seq<Row>, target: Class) returns (counts: seq<Entry>)
    ensures counts == Similarity(rows, target)
  {
    var targetInstructors := InstructorsOf(rows, target);
    var classes := DistinctClasses(rows);
    counts := [];
    for i := 0 to |classes|
      invariant counts == EntriesFor(rows, target, classes[..i])
    {
      EntriesForStep(rows, target, classes, i);
      if classes[i] == target {
        continue;
      }
      var other := InstructorsOf(rows, classes[i]);
      var overlap := |targetInstructors * other|;
      counts := counts + [Entry(classes[i], overlap)];
    }
    assert classes[..|classes|] == classes;
  }

  /** One more class extends the table by that class's entry, unless it is the target. */
  lemma EntriesForStep(rows: seq<Row>, target: Class, cs: seq<Class>, i: nat)
    requires i < |cs|
    ensures EntriesFor(rows, target, cs[..i + 1]) ==
              EntriesFor(rows, target, cs[..i])
              + (if cs[i] == target then [] else [Entry(cs[i], Overlap(rows, target, cs[i]))])
  {
    assert cs[..i + 1][..i] == cs[..i];
  }

  /** Appending an entry appends its class to the class column. */
  lemma KeysAppend(entries: seq<Entry>, e: Entry)
    ensures Keys(entries + [e]) == Keys(entries) + [e.classId]
  {
  }

  /** Overlap is symmetric: which of the two classes is the target does not matter. */
  lemma OverlapSymmetric(rows: seq<Row>, a: Class, b: Class)
    ensures Overlap(rows, a, b) == Overlap(rows, b, a)
  {
    assert InstructorsOf(rows, a) * InstructorsOf(rows, b)
        == InstructorsOf(rows, b) * InstructorsOf(rows, a);
  }

  /** An instructor is shared exactly when rows pair them with both classes. */
  lemma SharedInstructorsAreCommonRows(rows: seq<Row>, a: Class, b: Class, d: Instructor)
    ensures d in InstructorsOf(rows, a) * InstructorsOf(rows, b) <==> Row(a, d) in rows && Row(b, d) in rows
  {
  }

  /** The table lists a class with its overlap count exactly when the class
      occurs in the table and is not the target. */
  lemma SimilarityEntries(rows: seq<Row>, target: Class, e: Entry)
    ensures e in Similarity(rows, target) <==>
              HasClass(rows, e.classId) && e.classId != target && e.count == Overlap(rows, target, e.classId)
  {
    SimilarityClasses(rows, target);
    if e in Similarity(rows, target) {
      ListedEntryIsCounted(Similarity(rows, target), e, rows, target);
    }
    if HasClass(rows, e.classId) && e.classId != target && e.count == Overlap(rows, target, e.classId) {
      CountedClassIsListed(Similarity(rows, target), e, rows, target);
    }
  }

  /** An entry of a table with correct counts carries its class's overlap count. */
  lemma ListedEntryIsCounted(r: seq<Entry>, e: Entry, rows: seq<Row>, target: Class)
    requires e in r
    requires forall i :: 0 <= i < |r| ==> r[i].count == Overlap(rows, target, r[i].classId)
    ensures e.classId in Keys(r) && e.count == Overlap(rows, target, e.classId)
  {
    var k :| 0 <= k < |r| && r[k] == e;
    assert Keys(r)[k] == e.classId;
  }

  /** A table with correct counts that names a class holds that class's entry. */
  lemma CountedClassIsListed(r: seq<Entry>, e: Entry, rows: seq<Row>, target: Class)
    requires e.classId in Keys(r) && e.count == Overlap(rows, target, e.classId)
    requires forall i :: 0 <= i < |r| ==> r[i].count == Overlap(rows, target, r[i].classId)
    ensures e in r
  {
    var k :| 0 <= k < |r| && Keys(r)[k] == e.classId;
    assert r[k] == e;
  }

  /** Swapping target and compared class gives the same pair count: `b` is
      listed against target `a` with the count `a` has against target `b`. */
  lemma SwapTargetSameCount(rows: seq<Row>, a: Class, b: Class)
    requires HasClass(rows, a) && HasClass(rows, b) && a != b
    ensures Entry(b, Overlap(rows, a, b)) in Similarity(rows, a)
    ensures Entry(a, Overlap(rows, a, b)) in Similarity(rows, b)
  {
    SimilarityEntries(rows, a, Entry(b, Overlap(rows, a, b)));
    OverlapSymmetric(rows, a, b);
    SimilarityEntries(rows, b, Entry(a, Overlap(rows, a, b)));
  }

  /** A target with no rows shares nothing: every class is listed, in
      first-seen order, with count 0. */
  lemma AbsentTargetAllZero(rows: seq<Row>, target: Class)
    requires !HasClass(rows, target)
    ensures Keys(Similarity(rows, target)) == DistinctClasses(rows)
    ensures forall e :: e in Similarity(rows, target) ==> e.count == 0
  {
    assert InstructorsOf(rows, target) == {};
  }

  /** Appending a copy of an existing row changes nothing: same classes, same
      order, same counts. */
  lemma DuplicateRowIrrelevant(rows: seq<Row>, target: Class, k: nat)
    requires k < |rows|
    ensures Similarity(rows + [rows[k]], target) == Similarity(rows, target)
  {
    var more := rows + [rows[k]];
    assert ClassColumn(more)[..|rows|] == ClassColumn(rows);
    assert ClassColumn(more)[|rows|] in ClassColumn(rows);
    assert DistinctClasses(more) == DistinctClasses(rows);
    forall c
      ensures InstructorsOf(more, c) == InstructorsOf(rows, c)
    {
    }
  }

  /** Only which rows occur matters, not their order or multiplicity: two
      tables with the same rows give every class the same count and list the
      same entries. */
  lemma SameRowsSameEntries(rows1: seq<Row>, rows2: seq<Row>, target: Class)
    requires forall r :: r in rows1 <==> r in rows2
    ensures forall c :: Overlap(rows1, target, c) == Overlap(rows2, target, c)
    ensures forall e :: e in Similarity(rows1, target) <==> e in Similarity(rows2, target)
  {
    forall c
      ensures Overlap(rows1, target, c) == Overlap(rows2, target, c)
    {
      assert InstructorsOf(rows1, c) == InstructorsOf(rows2, c);
      assert InstructorsOf(rows1, target) == InstructorsOf(rows2, target);
    }
    forall e
      ensures e in Similarity(rows1, target) <==> e in Similarity(rows2, target)
    {
      SimilarityEntries(rows1, target, e);
      SimilarityEntries(rows2, target, e);
      assert HasClass(rows1, e.classId) <==> HasClass(rows2, e.classId);
    }
  }

  /** A small table used by the worked example below. */
  function ExampleRows(): seq<Row> {
    [Row("X", "Alice"), Row("X", "Bob"), Row("Y", "Alice"), Row("Y", "Carol")]
  }

  /** The example table lists class X first, then Y. */
  lemma ExampleDistinctClasses(rows: seq<Row>)
    requires rows == ExampleRows()
    ensures DistinctClasses(rows) == ["X", "Y"]
  {
    var column := ClassColumn(rows);
    assert column == ["X", "X", "Y", "Y"];
    assert column[..3][..2] == column[..2] && column[..2][..1] == column[..1];
    assert Unique(column[..1]) == ["X"];
    assert Unique(column[..2]) == ["X"];
    assert Unique(column[..3]) == ["X", "Y"];
  }

  /** The rows of the example table, spelled out. */
  lemma ExampleMembership(rows: seq<Row>, c: Class, d: Instructor)
    requires rows == ExampleRows()
    ensures Row(c, d) in rows <==>
              (c == "X" && (d == "Alice" || d == "Bob")) || (c == "Y" && (d == "Alice" || d == "Carol"))
  {
  }

  /** A class's instructor set is the set of names its rows pair it with. */
  lemma InstructorsFromRows(rows: seq<Row>, c: Class, s: set<Instructor>)
    requires forall d :: Row(c, d) in rows <==> d in s
    ensures InstructorsOf(rows, c) == s
  {
  }

  /** Alice is the only name in both {Alice, Bob} and {Alice, Carol}. */
  lemma ExampleIntersection(a: set<Instructor>, b: set<Instructor>)
    requires a == {"Alice", "Bob"} && b == {"Alice", "Carol"}
    ensures a * b == {"Alice"} && b * a == {"Alice"}
  {
    assert "Bob" != "Carol" && "Alice" != "Carol" && "Alice" != "Bob";
  }

  /** A table whose class X is taught by Alice and Bob and whose class Y by
      Alice and Carol gives X and Y one shared instructor. */
  lemma ExampleOverlap(rows: seq<Row>)
    requires InstructorsOf(rows, "X") == {"Alice", "Bob"}
    requires InstructorsOf(rows, "Y") == {"Alice", "Carol"}
    ensures Overlap(rows, "X", "Y") == 1
  {
    ExampleIntersection(InstructorsOf(rows, "X"), InstructorsOf(rows, "Y"));
  }

  /** When the target leaves exactly one other class, the table is that class
      alone with its overlap count. */
  lemma OneOtherClass(rows: seq<Row>, target: Class, c: Class)
    requires Without(DistinctClasses(rows), target) == [c]
    ensures Similarity(rows, target) == [Entry(c, Overlap(rows, target, c))]
  {
    var r := Similarity(rows, target);
    assert Keys(r) == [c];
    assert r[0] == Entry(c, Overlap(rows, target, c));
  }

  /** In a table of exactly two classes, each is listed against the other,
      alone, with the same overlap count. */
  lemma TwoClassTable(rows: seq<Row>, a: Class, b: Class)
    requires DistinctClasses(rows) == [a, b]
    ensures Similarity(rows, a) == [Entry(b, Overlap(rows, a, b))]
    ensures Similarity(rows, b) == [Entry(a, Overlap(rows, a, b))]
  {
    assert DistinctClasses(rows)[0] != DistinctClasses(rows)[1];
    assert [a, b][..1] == [a];
    assert Without([a, b], a) == [b];
    assert Without([a, b], b) == [a];
    OneOtherClass(rows, a, b);
    OneOtherClass(rows, b, a);
    OverlapSymmetric(rows, a, b);
  }

  /** Classes X and Y of the example table share exactly one instructor
      (Alice), so Y is listed against X with count 1 and X against Y with
      count 1. */
  lemma SmallTableExample(rows: seq<Row>)
    requires rows == ExampleRows()
    ensures Similarity(rows, "X") == [Entry("Y", 1)]
    ensures Similarity(rows, "Y") == [Entry("X", 1)]
  {
    ExampleDistinctClasses(rows);
    ExampleInstructors(rows);
    ExampleOverlap(rows);
    TwoClassTable(rows, "X", "Y");
  }

  /** Class X of the example table is taught by Alice and Bob, class Y by Alice and Carol. */
  lemma ExampleInstructors(rows: seq<Row>)
    requires rows == ExampleRows()
    ensures InstructorsOf(rows, "X") == {"Alice", "Bob"}
    ensures InstructorsOf(rows, "Y") == {"Alice", "Carol"}
  {
    forall d ensures Row("X", d) in rows <==> d in {"Alice", "Bob"} {
      ExampleMembership(rows, "X", d);
    }
    forall d ensures Row("Y", d) in rows <==> d in {"Alice", "Carol"} {
      ExampleMembership(rows, "Y", d);
    }
    InstructorsFromRows(rows, "X", {"Alice", "Bob"});
    InstructorsFromRows(rows, "Y", {"Alice", "Carol"});
  }
}
