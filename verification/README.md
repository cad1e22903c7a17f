# Instructor-overlap ranking of class sections

This project is a Dafny model of the ranking script of the `dm3ka` repository. The script reads a
schedule table with one row per class section (KELAS), instructor (DOSEN) and course. It fixes one
target class, collects the target's distinct instructors, and then walks every other distinct class
in first-seen order. For each one it counts how many distinct instructors the class shares with
the target. Finally it orders the classes by that count, highest first.

The model is functional. The table is a `seq<Row>`, where a `Row` holds a class and an instructor.
Instructor sets are Dafny `set`s. pandas' `unique()` is a duplicate-free sequence in
first-occurrence order. The hard-coded class `'3KA19'` is a parameter `target`.

Modules, following the script's steps:

- `Sequences` (`sequences.dfy`): `NoDuplicates`, `FirstIndex`, `Unique` (pandas `unique()`),
  `Without` (removes every occurrence of one value), and small multiset facts.
- `Roster` (`roster.dfy`): the `Row` datatype, the KELAS and DOSEN columns, the class mask
  `df['KELAS'] == c`, the set of a class's instructors, and the distinct classes.
- `Overlaps` (`overlaps.dfy`): the overlap count of two classes, the unsorted overlap table
  (`Similarity`, the reference definition), the loop that builds it (`CountOverlaps`), and the
  lemmas about it. These cover symmetry, an absent target, duplicate rows, row order, and a worked
  two-class example.
- `Ranking` (`ranking.dfy`): insertion into a non-increasing table, the sort, the fact that the
  count column does not depend on tie order, and the whole script (`RankBySimilarity`).

## Model

| member | source | states |
|---|---|---|
| `Roster.RowsOfClass` | main.py:16 | The mask `df['KELAS'] == c` keeps exactly the rows of class `c` and no others. |
| `Roster.InstructorsOf` | main.py:8 | The set built from `unique()` of a class's DOSEN column contains an instructor exactly when some row pairs that instructor with the class. |
| `Sequences.Unique` | main.py:16 | `unique()` returns each value of the column exactly once, with no duplicates, and no value that is not in the column. |
| `Sequences.UniqueFirstSeenOrder` | main.py:12 | `unique()` lists values in the order of their first occurrence in the column. |
| `Roster.DistinctClasses` | main.py:12 | The classes the loop walks are duplicate-free, and they are exactly the classes that occur in some row. |
| `Roster.DistinctClassesFirstSeenOrder` | main.py:12 | The loop visits the classes in the order in which each first appears in the table. |
| `Overlaps.Overlap` | main.py:18 | The overlap count of two classes is at most the number of distinct instructors of either class. |
| `Overlaps.SharedInstructorsAreCommonRows` | main.py:18 | An instructor is counted exactly when rows pair them with both classes. |
| `Overlaps.OverlapSymmetric` | main.py:18 | The overlap measure is symmetric in its two classes. |
| `Overlaps.Similarity` | main.py:11-19 | The unsorted table lists the distinct classes in first-seen order with the target removed. Each class carries its overlap count with the target. |
| `Overlaps.SimilarityClasses` | main.py:12-14 | The unsorted table names every class of the data except the target, each exactly once. The target never appears. |
| `Overlaps.SimilarityEntries` | main.py:12-19 | An entry (c, n) is in the table if and only if c occurs in the data, c is not the target, and n is the overlap of c with the target. |
| `Overlaps.CountOverlaps` | main.py:11-19 | The loop that skips the target and records each other class's overlap builds exactly the reference table `Similarity`. |
| `Overlaps.SwapTargetSameCount` | main.py:18 | Take two distinct classes that both occur. Each is listed against the other with the same pair count, so swapping the target gives the same count. |
| `Overlaps.AbsentTargetAllZero` | main.py:8-18 | If the target has no rows, every class of the data is listed in first-seen order, and every count is 0. |
| `Overlaps.DuplicateRowIrrelevant` | main.py:8-19 | Appending a copy of an existing row leaves the whole unsorted table unchanged: the same classes, in the same order, with the same counts. |
| `Overlaps.SameRowsSameEntries` | main.py:8-19 | Two tables containing the same rows give every class the same count and hold the same entries. Reordering or repeating rows does not matter. |
| `Overlaps.TwoClassTable` | main.py:11-19 | In a table of exactly two classes, each class is listed alone against the other, and both entries have the same count. |
| `Overlaps.SmallTableExample` | main.py:11-19 | Rows (X, Alice), (X, Bob), (Y, Alice), (Y, Carol) give Y count 1 against X and X count 1 against Y. |
| `Ranking.InsertByCount` | main.py:23 | Inserting an entry into a non-increasing table keeps the table non-increasing and adds exactly that entry. |
| `Ranking.SortByCountDescending` | main.py:23 | The descending sort returns a permutation of its input, and the counts never increase along it. |
| `Ranking.RankingCountsDetermined` | main.py:23 | Any two non-increasing permutations of the same entries have the same count column. Only the order of equal-count classes can differ. |
| `Ranking.RankBySimilarity` | main.py:8-23 | The ranked result is a non-increasing permutation of the unsorted table. Every class except the target appears exactly once, with its overlap count. |

## Left out

- Loading the CSV file (`pd.read_csv` on `baak.csv`, main.py:4-5) is file I/O. The rows are an input sequence instead.
- Printing the result (main.py:26-27) is console output and is not modelled.
- The course (MATKUL) column is never read by the script, so `Row` has no course field.
- Missing or NaN cells in KELAS or DOSEN follow pandas' floating-point semantics. The model assumes every row has a class and an instructor.
- The DataFrame built by `from_dict` (main.py:22) is modelled as a sequence of (class, count) entries. The dictionary's keys never collide, because they come from `unique()`.
- `Ranking.SortByCountDescending`: the model promises only a non-increasing permutation, not the order among equal counts. `sort_values` (main.py:23) uses pandas' default quicksort, which is not stable, so the script fixes no tie order. `Ranking.RankingCountsDetermined` shows that only the order of equal counts can vary. The model's own insertion sort places an entry after those with an equal count, so it keeps first-seen order among ties. That is one admissible order, and the contract does not rely on it.
- Counts are unbounded `nat`s. pandas stores them as 64-bit integers, but a count never exceeds the number of rows, so no wrap-around can occur.
- An absent target is not rejected: every class gets count 0, as `Overlaps.AbsentTargetAllZero` states.
- main.py has no loader that drops incomplete or duplicate rows, no pairwise shared-instructor or shared-course report, and no per-instructor cross-class listing, so none is modelled.
