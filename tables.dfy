/**
 * The data frame `CSVPrimaryKeyFinder` inspects, and the pandas queries it
 * asks of it (`duplicated`, `isnull`, `nunique`), stated directly over rows.
 */
module Tables {
  import opened Wrappers
  import opened Fractions

  /** Column names and rows of cells; `None` is a null (NaN) cell. */
  datatype Table<V> = Table(columns: seq<string>, rows: seq<seq<Option<V>>>)

  /** Every row has one cell per column, and column names are distinct, as in a frame read by pandas. */
  predicate WellFormed<V>(t: Table<V>) {
    && (forall r | 0 <= r < |t.rows| :: |t.rows[r]| == |t.columns|)
    && (forall i, j | 0 <= i < j < |t.columns| :: t.columns[i] != t.columns[j])
  }

  /** A selection of columns, by position. */
  predicate InRange<V>(t: Table<V>, combo: seq<nat>) {
    forall k | 0 <= k < |combo| :: combo[k] < |t.columns|
  }

  /** The cells of `row` in the selected columns: one row of `df[list(combo)]`. */
  function Project<V>(row: seq<Option<V>>, combo: seq<nat>): (p: seq<Option<V>>)
    requires forall k | 0 <= k < |combo| :: combo[k] < |row|
    ensures |p| == |combo| && forall k | 0 <= k < |combo| :: p[k] == row[combo[k]]
  {
    seq(|combo|, k requires 0 <= k < |combo| => row[combo[k]])
  }

  /** `not df[list(combo)].isnull().any().any()`. */
  predicate NoNulls<V>(t: Table<V>, combo: seq<nat>)
    requires WellFormed(t) && InRange(t, combo)
  {
    forall r, k | 0 <= r < |t.rows| && 0 <= k < |combo| :: t.rows[r][combo[k]].Some?
  }

  /** `not df[list(combo)].duplicated().any()`: no two rows agree on every selected column. */
  predicate NoDuplicates<V(==)>(t: Table<V>, combo: seq<nat>)
    requires WellFormed(t) && InRange(t, combo)
  {
    forall i, j | 0 <= i < j < |t.rows| :: Project(t.rows[i], combo) != Project(t.rows[j], combo)
  }

  /** The selected columns exist, identify every row, and hold no null. */
  predicate IsKey<V(==)>(t: Table<V>, combo: seq<nat>)
    requires WellFormed(t)
  {
    InRange(t, combo) && NoDuplicates(t, combo) && NoNulls(t, combo)
  }

  /** The names of the selected columns, in the order selected. */
  function Names<V>(t: Table<V>, combo: seq<nat>): (names: seq<string>)
    requires InRange(t, combo)
    ensures |names| == |combo| && forall k | 0 <= k < |combo| :: names[k] == t.columns[combo[k]]
  {
    seq(|combo|, k requires 0 <= k < |combo| => t.columns[combo[k]])
  }

  /** The position of a column name. */
  function IndexOf(columns: seq<string>, name: string): (i: nat)
    requires name in columns
    ensures i < |columns| && columns[i] == name
    ensures forall j | 0 <= j < i :: columns[j] != name
  {
    if columns[0] == name then 0 else 1 + IndexOf(columns[1..], name)
  }

  /** `df[column]`. */
  function Column<V>(t: Table<V>, c: nat): (col: seq<Option<V>>)
    requires WellFormed(t) && c < |t.columns|
    ensures |col| == |t.rows| && forall r | 0 <= r < |t.rows| :: col[r] == t.rows[r][c]
  {
    seq(|t.rows|, r requires 0 <= r < |t.rows| => t.rows[r][c])
  }

  // ---------------------------------------------------------------------------
  // Column statistics

  /** `column.isnull().sum()`. */
  function NullCount<V>(col: seq<Option<V>>): nat {
    if col == [] then 0 else NullCount(col[..|col| - 1]) + (if col[|col| - 1].None? then 1 else 0)
  }

  /** `column.duplicated().sum()`: the cells equal to an earlier cell (two nulls count as equal). */
  function DuplicateCount<V(==)>(col: seq<Option<V>>): nat {
    if col == [] then 0 else DuplicateCount(col[..|col| - 1]) + (if col[|col| - 1] in col[..|col| - 1] then 1 else 0)
  }

  /** The distinct non-null values of a column. */
  function NonNullValues<V(==,!new)>(col: seq<Option<V>>): (s: set<V>)
    ensures forall v :: v in s <==> Some(v) in col
  {
    if col == [] then {}
    else
      var init := col[..|col| - 1];
      assert col == init + [col[|col| - 1]];
      NonNullValues(init) + (if col[|col| - 1].Some? then {col[|col| - 1].value} else {})
  }

  /** `column.nunique()`: nulls are not counted. */
  function UniqueCount<V(==,!new)>(col: seq<Option<V>>): nat {
    |NonNullValues(col)|
  }

  /** The statistics `analyze_uniqueness` records for one column. */
  datatype ColumnStats = ColumnStats(totalRows: nat, uniqueCount: nat, nullCount: nat, duplicateCount: nat, uniquenessRatio: real)

  function StatsOf<V(==,!new)>(t: Table<V>, c: nat): ColumnStats
    requires WellFormed(t) && c < |t.columns|
  {
    var col := Column(t, c);
    var total := |t.rows|;
    var unique := UniqueCount(col);
    ColumnStats(total, unique, NullCount(col), DuplicateCount(col),
                if total > 0 then unique as real / total as real else 0.0)
  }

  // ---------------------------------------------------------------------------
  // Lemmas

  lemma {:induction false} NullCountPositive<V>(col: seq<Option<V>>)
    ensures NullCount(col) > 0 <==> None in col
  {
    if col != [] {
      var init := col[..|col| - 1];
      NullCountPositive(init);
      assert col == init + [col[|col| - 1]];
    }
  }

  lemma {:induction false} DuplicateCountZero<V>(col: seq<Option<V>>)
    ensures DuplicateCount(col) == 0 <==> forall i, j | 0 <= i < j < |col| :: col[i] != col[j]
  {
    if col != [] {
      var last := |col| - 1;
      var init := col[..last];
      DuplicateCountZero(init);
      if DuplicateCount(col) == 0 {
        forall i, j | 0 <= i < j < |col| ensures col[i] != col[j] {
          if j < last {
            assert init[i] == col[i] && init[j] == col[j];
          } else {
            assert col[i] == init[i];
          }
        }
      }
    }
  }

  /**
   * Every row of a column is either a distinct non-null value, a repeat of an
   * earlier cell, or the first null: `total_rows == unique_count +
   * duplicate_count + (1 if the column has a null else 0)`.
   */
  lemma {:induction false} CountsAddUp<V(!new)>(col: seq<Option<V>>)
    ensures |col| == UniqueCount(col) + DuplicateCount(col) + (if None in col then 1 else 0)
  {
    if col != [] {
      var last := |col| - 1;
      var init := col[..last];
      var x := col[last];
      CountsAddUp(init);
      assert col == init + [x];
      if x in init {
        assert NonNullValues(col) == NonNullValues(init);
        assert (None in col) == (None in init);
      } else if x.None? {
        assert NonNullValues(col) == NonNullValues(init);
      } else {
        assert x.value !in NonNullValues(init);
        assert NonNullValues(col) == NonNullValues(init) + {x.value};
        assert (None in col) == (None in init);
      }
    }
  }

  /** `unique_count <= total_rows`, so the uniqueness ratio lies in [0, 1]. */
  lemma RatioInUnitInterval<V(!new)>(t: Table<V>, c: nat)
    requires WellFormed(t) && c < |t.columns|
    ensures StatsOf(t, c).uniqueCount <= StatsOf(t, c).totalRows
    ensures 0.0 <= StatsOf(t, c).uniquenessRatio <= 1.0
  {
    var col := Column(t, c);
    CountsAddUp(col);
    if |t.rows| > 0 {
      Fraction(UniqueCount(col), |t.rows|);
    }
  }

  /** A single column is a key exactly when it has no duplicate and no null. */
  lemma SingleKeyByCounts<V(!new)>(t: Table<V>, c: nat)
    requires WellFormed(t) && c < |t.columns|
    ensures IsKey(t, [c]) <==> StatsOf(t, c).duplicateCount == 0 && StatsOf(t, c).nullCount == 0
  {
    var col := Column(t, c);
    assert InRange(t, [c]);
    DuplicateCountZero(col);
    NullCountPositive(col);
    forall i, j | 0 <= i < j < |t.rows|
      ensures Project(t.rows[i], [c]) == Project(t.rows[j], [c]) <==> col[i] == col[j]
    {
      assert Project(t.rows[i], [c]) == [col[i]];
      assert Project(t.rows[j], [c]) == [col[j]];
    }
    if None in col {
      var r :| 0 <= r < |col| && col[r] == None;
      assert t.rows[r][[c][0]].None?;
    }
  }

  /**
   * On a table with rows, a column's uniqueness ratio is 1 exactly when the
   * column is a single-column key. (On an empty table the ratio is 0 while
   * every column is a key.)
   */
  lemma RatioOneIffKey<V(!new)>(t: Table<V>, c: nat)
    requires WellFormed(t) && c < |t.columns|
    requires |t.rows| > 0
    ensures StatsOf(t, c).uniquenessRatio == 1.0 <==> IsKey(t, [c])
  {
    var col := Column(t, c);
    CountsAddUp(col);
    NullCountPositive(col);
    SingleKeyByCounts(t, c);
    Fraction(UniqueCount(col), |t.rows|);
  }
}
