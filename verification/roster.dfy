/** The schedule table: one row per (class, instructor) line of the CSV file,
    with the column selections and `unique()` calls the ranking script makes. */
module Roster {
  import opened Sequences

  /** A class section code, such as "3KA19" (the KELAS column). */
  type Class = string

  /** An instructor name (the DOSEN column). */
  type Instructor = string

  /** One line of the table. The course column exists in the file but is never read. */
  datatype Row = Row(classId: Class, instructor: Instructor)

  /** True when some row belongs to class `c`. */
  predicate HasClass(rows: seq<Row>, c: Class) {
    exists r :: r in rows && r.classId == c
  }

  /** The KELAS column, row by row. */
  function ClassColumn(rows: seq<Row>): (cs: seq<Class>)
    ensures |cs| == |rows|
    ensures forall i :: 0 <= i < |rows| ==> cs[i] == rows[i].classId
  {
    if |rows| == 0 then []
    else ClassColumn(rows[..|rows| - 1]) + [rows[|rows| - 1].classId]
  }

  /** The DOSEN column, row by row. */
  function InstructorColumn(rows: seq<Row>): (ds: seq<Instructor>)
    ensures |ds| == |rows|
    ensures forall i :: 0 <= i < |rows| ==> ds[i] == rows[i].instructor
  {
    if |rows| == 0 then []
    else InstructorColumn(rows[..|rows| - 1]) + [rows[|rows| - 1].instructor]
  }

  /** The rows whose class is `c`, in table order (the boolean mask `df['KELAS'] == c`). */
  function RowsOfClass(rows: seq<Row>, c: Class): (rs: seq<Row>)
    ensures forall r :: r in rs <==> r in rows && r.classId == c
    ensures |rs| <= |rows|
  {
    if |rows| == 0 then []
    else
      var p := rows[..|rows| - 1];
      var last := rows[|rows| - 1];
      assert rows == p + [last];
      RowsOfClass(p, c) + (if last.classId == c then [last] else [])
  }

  /** The distinct instructors of class `c`: `set(df[df['KELAS'] == c]['DOSEN'].unique())`.
      An instructor belongs to it exactly when some row pairs them with `c`. */
  function InstructorsOf(rows: seq<Row>, c: Class): (s: set<Instructor>)
    ensures forall d :: d in s <==> Row(c, d) in rows
  {
    var column := InstructorColumn(RowsOfClass(rows, c));
    var unique := Unique(column);
    assert forall d :: Row(c, d) in rows ==> d in column by {
      forall d | Row(c, d) in rows ensures d in column {
        var rs := RowsOfClass(rows, c);
        var k :| 0 <= k < |rs| && rs[k] == Row(c, d);
        assert column[k] == d;
      }
    }
    set d | d in unique
  }

  /** The distinct classes of the table in order of first appearance: `df['KELAS'].unique()`. */
  function DistinctClasses(rows: seq<Row>): (cs: seq<Class>)
    ensures NoDuplicates(cs)
    ensures forall c :: c in cs <==> HasClass(rows, c)
    ensures forall c :: c in cs <==> c in ClassColumn(rows)
  {
    var column := ClassColumn(rows);
    assert forall c :: c in column ==> HasClass(rows, c) by {
      forall c | c in column ensures HasClass(rows, c) {
        var k :| 0 <= k < |column| && column[k] == c;
        assert rows[k] in rows;
      }
    }
    assert forall c :: HasClass(rows, c) ==> c in column by {
      forall c | HasClass(rows, c) ensures c in column {
        var r :| r in rows && r.classId == c;
        var k :| 0 <= k < |rows| && rows[k] == r;
        assert column[k] == c;
      }
    }
    Unique(column)
  }

  /** The distinct classes come in the order in which each first appears in the table. */
  lemma DistinctClassesFirstSeenOrder(rows: seq<Row>, i: nat, j: nat)
    requires i < j < |DistinctClasses(rows)|
    ensures FirstIndex(ClassColumn(rows), DistinctClasses(rows)[i])
          < FirstIndex(ClassColumn(rows), DistinctClasses(rows)[j])
  {
    UniqueFirstSeenOrder(ClassColumn(rows), i, j);
  }
}
