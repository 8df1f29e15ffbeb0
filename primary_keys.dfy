/**
 * `CSVPrimaryKeyFinder`: which columns, alone or in combination, identify the
 * rows of a loaded table, and per-column uniqueness statistics.
 */
module PrimaryKeys {
  import opened Wrappers
  import opened Tables
  import opened Combinations

  /** Default of `max_columns` and `max_composite_columns`. */
  const DefaultMaxColumns: int := 3

  /** The positions among the first `n` columns that are single-column keys, in column order. */
  function SingleKeyColumns<V(==)>(t: Table<V>, n: nat): (r: seq<nat>)
    requires WellFormed(t) && n <= |t.columns|
    ensures forall c: nat :: c in r <==> c < n && IsKey(t, [c])
    ensures StrictlyIncreasing(r)
    ensures Within(r, 0, n)
  {
    if n == 0 then []
    else
      var prev := SingleKeyColumns(t, n - 1);
      prev + (if IsKey(t, [n - 1]) then [n - 1] else [])
  }

  /** The selections of `cs` that are keys, in the order of `cs`. */
  function KeysAmong<V(==)>(t: Table<V>, cs: seq<seq<nat>>): (r: seq<seq<nat>>)
    requires WellFormed(t)
    ensures forall c :: c in r <==> c in cs && IsKey(t, c)
  {
    if cs == [] then []
    else
      var last := cs[|cs| - 1];
      assert forall c | c in cs[..|cs| - 1] :: c in cs;
      KeysAmong(t, cs[..|cs| - 1]) + (if IsKey(t, last) then [last] else [])
  }

  /** The combinations of 2 .. `upper` - 1 columns that are keys: size by size, each size in itertools order. */
  function CompositeUpTo<V(==)>(t: Table<V>, upper: int): (r: seq<seq<nat>>)
    requires WellFormed(t)
    ensures forall c | c in r :: InRange(t, c)
    decreases upper
  {
    if upper <= 2 then []
    else
      CompositeUpTo(t, upper - 1) + KeysAmong(t, Choose(0, |t.columns|, upper - 1))
  }

  /** `min(max_columns + 1, len(columns) + 1)`, the end of the size range. */
  function SizeBound(maxColumns: int, n: nat): (b: int)
    ensures b <= n + 1
  {
    if maxColumns + 1 < n + 1 then maxColumns + 1 else n + 1
  }

  /** What `find_composite_keys(max_columns)` lists, as column positions. */
  function CompositeKeyCombos<V(==)>(t: Table<V>, maxColumns: int): (r: seq<seq<nat>>)
    requires WellFormed(t)
    ensures forall c | c in r :: InRange(t, c)
  {
    CompositeUpTo(t, SizeBound(maxColumns, |t.columns|))
  }

  /** The column names of each selection. */
  function AllNames<V>(t: Table<V>, cs: seq<seq<nat>>): (r: seq<seq<string>>)
    requires forall c | c in cs :: InRange(t, c)
    ensures |r| == |cs| && forall i | 0 <= i < |cs| :: r[i] == Names(t, cs[i])
  {
    seq(|cs|, i requires 0 <= i < |cs| => Names(t, cs[i]))
  }

  /** Size first, then lexicographic: the order in which combinations are tried. */
  predicate ComboLess(a: seq<nat>, b: seq<nat>) {
    |a| < |b| || (|a| == |b| && LexLess(a, b))
  }

  // ---------------------------------------------------------------------------
  // Lemmas

  /** A combination is listed exactly when it has an admissible size, is a selection of columns, and is a key. */
  lemma {:induction false} CompositeUpToExactly<V>(t: Table<V>, upper: int, c: seq<nat>)
    requires WellFormed(t)
    ensures c in CompositeUpTo(t, upper) <==>
      2 <= |c| < upper && StrictlyIncreasing(c) && Within(c, 0, |t.columns|) && IsKey(t, c)
    decreases upper
  {
    if upper > 2 {
      CompositeUpToExactly(t, upper - 1, c);
      ChooseExactly(0, |t.columns|, upper - 1, c);
      ChooseSound(0, |t.columns|, upper - 1);
    }
  }

  /**
   * Soundness and completeness of `find_composite_keys`: a combination is
   * listed exactly when it is a strictly increasing selection of 2 to
   * `min(max_columns, number of columns)` columns that is a key.
   */
  lemma CompositeKeysExactly<V>(t: Table<V>, maxColumns: int, c: seq<nat>)
    requires WellFormed(t)
    ensures c in CompositeKeyCombos(t, maxColumns) <==>
      && 2 <= |c| && |c| <= maxColumns && |c| <= |t.columns|
      && StrictlyIncreasing(c) && Within(c, 0, |t.columns|) && IsKey(t, c)
  {
    CompositeUpToExactly(t, SizeBound(maxColumns, |t.columns|), c);
  }

  /** Filtering keeps a pairwise order. */
  lemma {:induction false} KeysAmongSorted<V>(t: Table<V>, cs: seq<seq<nat>>)
    requires WellFormed(t)
    requires forall i, j | 0 <= i < j < |cs| :: LexLess(cs[i], cs[j])
    ensures forall i, j | 0 <= i < j < |KeysAmong(t, cs)| :: LexLess(KeysAmong(t, cs)[i], KeysAmong(t, cs)[j])
  {
    if cs != [] {
      var init := cs[..|cs| - 1];
      var last := cs[|cs| - 1];
      assert forall i, j | 0 <= i < j < |init| :: LexLess(init[i], init[j]) by {
        forall i, j | 0 <= i < j < |init| ensures LexLess(init[i], init[j]) {
          assert init[i] == cs[i] && init[j] == cs[j];
        }
      }
      KeysAmongSorted(t, init);
      var prev := KeysAmong(t, init);
      assert forall i, j | 0 <= i < j < |prev| :: LexLess(prev[i], prev[j]);
      var r := KeysAmong(t, cs);
      assert r == prev + (if IsKey(t, last) then [last] else []);
      forall i, j | 0 <= i < j < |r| ensures LexLess(r[i], r[j]) {
        if j < |prev| {
          assert r[i] == prev[i] && r[j] == prev[j];
          assert LexLess(prev[i], prev[j]);
        } else {
          assert r[i] == prev[i] && r[j] == last;
          assert prev[i] in init;
          var k :| 0 <= k < |init| && init[k] == prev[i];
          assert init[k] == cs[k];
          assert LexLess(cs[k], cs[|cs| - 1]);
        }
      }
    }
  }

  /** The keys of one size, in lexicographic order. */
  lemma KeysOfSizeSorted<V>(t: Table<V>, k: nat)
    requires WellFormed(t)
    ensures var r := KeysAmong(t, Choose(0, |t.columns|, k));
      (forall c | c in r :: |c| == k) && forall i, j | 0 <= i < j < |r| :: LexLess(r[i], r[j])
  {
    ChooseSorted(0, |t.columns|, k);
    ChooseSound(0, |t.columns|, k);
    KeysAmongSorted(t, Choose(0, |t.columns|, k));
  }

  /** Combinations are listed by size ascending, and in lexicographic order within a size. */
  lemma {:induction false} CompositeUpToSorted<V>(t: Table<V>, upper: int)
    requires WellFormed(t)
    ensures var r := CompositeUpTo(t, upper);
      (forall c | c in r :: |c| < upper) && forall i, j | 0 <= i < j < |r| :: ComboLess(r[i], r[j])
    decreases upper
  {
    if upper > 2 {
      var n := |t.columns|;
      CompositeUpToSorted(t, upper - 1);
      KeysOfSizeSorted(t, upper - 1);
      var prev := CompositeUpTo(t, upper - 1);
      var next := KeysAmong(t, Choose(0, n, upper - 1));
      var r := CompositeUpTo(t, upper);
      assert r == prev + next;
      CrossSorted(prev, next, upper - 1);
    }
  }

  /** Shorter selections, sorted, followed by sorted selections of one longer size, are sorted. */
  lemma CrossSorted(prev: seq<seq<nat>>, next: seq<seq<nat>>, k: nat)
    requires forall c | c in prev :: |c| < k
    requires forall c | c in next :: |c| == k
    requires forall i, j | 0 <= i < j < |prev| :: ComboLess(prev[i], prev[j])
    requires forall i, j | 0 <= i < j < |next| :: LexLess(next[i], next[j])
    ensures forall c | c in prev + next :: |c| < k + 1
    ensures var r := prev + next; forall i, j | 0 <= i < j < |r| :: ComboLess(r[i], r[j])
  {
    var r := prev + next;
    forall i, j | 0 <= i < j < |r| ensures ComboLess(r[i], r[j]) {
      if j < |prev| {
        assert r[i] == prev[i] && r[j] == prev[j];
      } else if i < |prev| {
        assert r[i] == prev[i] && prev[i] in prev;
        assert r[j] == next[j - |prev|] && next[j - |prev|] in next;
      } else {
        assert r[i] == next[i - |prev|] && r[j] == next[j - |prev|];
      }
    }
  }

  /** The order of `find_composite_keys`' result: by size, then lexicographic. */
  lemma CompositeKeysSorted<V>(t: Table<V>, maxColumns: int)
    requires WellFormed(t)
    ensures var r := CompositeKeyCombos(t, maxColumns); forall i, j | 0 <= i < j < |r| :: ComboLess(r[i], r[j])
  {
    assert CompositeKeyCombos(t, maxColumns) == CompositeUpTo(t, SizeBound(maxColumns, |t.columns|));
    CompositeUpToSorted(t, SizeBound(maxColumns, |t.columns|));
  }

  /**
   * Composite keys need not be minimal: a single-column key together with any
   * later null-free column is listed as a composite key too, whenever
   * combinations of two columns are searched.
   */
  lemma CompositeKeysNotMinimal<V>(t: Table<V>, maxColumns: int, x: nat, y: nat)
    requires WellFormed(t) && x < y < |t.columns| && 2 <= maxColumns
    requires IsKey(t, [x]) && NoNulls(t, [y])
    ensures [x, y] in CompositeKeyCombos(t, maxColumns)
  {
    var c := [x, y];
    forall i, j | 0 <= i < j < |t.rows| ensures Project(t.rows[i], c) != Project(t.rows[j], c) {
      assert Project(t.rows[i], [x]) != Project(t.rows[j], [x]);
      assert Project(t.rows[i], [x])[0] == Project(t.rows[i], c)[0];
      assert Project(t.rows[j], [x])[0] == Project(t.rows[j], c)[0];
    }
    forall r, k | 0 <= r < |t.rows| && 0 <= k < 2 ensures t.rows[r][c[k]].Some? {
      if k == 0 { assert t.rows[r][[x][0]].Some?; } else { assert t.rows[r][[y][0]].Some?; }
    }
    CompositeKeysExactly(t, maxColumns, c);
  }

  /** By name: a column is listed exactly when it is a single-column key. */
  lemma SingleKeysByName<V>(t: Table<V>)
    requires WellFormed(t)
    ensures forall name :: name in Names(t, SingleKeyColumns(t, |t.columns|)) <==>
      exists c | 0 <= c < |t.columns| :: t.columns[c] == name && IsKey(t, [c])
  {
    var cols := SingleKeyColumns(t, |t.columns|);
    var keys := Names(t, cols);
    forall name ensures name in keys <==> exists c | 0 <= c < |t.columns| :: t.columns[c] == name && IsKey(t, [c]) {
      if name in keys {
        var k :| 0 <= k < |keys| && keys[k] == name;
        assert cols[k] in cols;
      }
      if exists c | 0 <= c < |t.columns| :: t.columns[c] == name && IsKey(t, [c]) {
        var c :| 0 <= c < |t.columns| && t.columns[c] == name && IsKey(t, [c]);
        assert c in cols;
        var k :| 0 <= k < |cols| && cols[k] == c;
        assert keys[k] == name;
      }
    }
  }

  lemma KeysAmongStep<V>(t: Table<V>, cs: seq<seq<nat>>, j: nat)
    requires WellFormed(t) && j < |cs|
    ensures KeysAmong(t, cs[..j + 1]) == KeysAmong(t, cs[..j]) + (if IsKey(t, cs[j]) then [cs[j]] else [])
  {
    assert cs[..j + 1][..j] == cs[..j];
  }

  lemma NamesAppend<V>(t: Table<V>, s: seq<nat>, c: nat)
    requires InRange(t, s) && c < |t.columns|
    ensures InRange(t, s + [c]) && Names(t, s + [c]) == Names(t, s) + [t.columns[c]]
  {
  }

  lemma AllNamesAppend<V>(t: Table<V>, cs: seq<seq<nat>>, c: seq<nat>)
    requires (forall d | d in cs :: InRange(t, d)) && InRange(t, c)
    ensures (forall d | d in cs + [c] :: InRange(t, d)) && AllNames(t, cs + [c]) == AllNames(t, cs) + [Names(t, c)]
  {
  }

  /**
   * The inner loop of `find_composite_keys`: append the names of each
   * combination of `combos` that is a key, in order, to those of `found`.
   */
  method CollectKeys<V(==)>(t: Table<V>, combos: seq<seq<nat>>, keys: seq<seq<string>>, ghost found: seq<seq<nat>>)
    returns (keys': seq<seq<string>>)
    requires WellFormed(t) && forall c | c in found :: InRange(t, c)
    requires keys == AllNames(t, found)
    ensures forall c | c in found + KeysAmong(t, combos) :: InRange(t, c)
    ensures keys' == AllNames(t, found + KeysAmong(t, combos))
  {
    keys' := keys;
    ghost var listed := found;
    for j := 0 to |combos|
      invariant forall c | c in listed :: InRange(t, c)
      invariant listed == found + KeysAmong(t, combos[..j])
      invariant keys' == AllNames(t, listed)
    {
      KeysAmongStep(t, combos, j);
      if IsKey(t, combos[j]) {
        AllNamesAppend(t, listed, combos[j]);
        keys' := keys' + [Names(t, combos[j])];
        listed := listed + [combos[j]];
      }
    }
    assert combos[..|combos|] == combos;
  }

  /**
   * The outer loop of `find_composite_keys`: the names of every key of each
   * size from 2 up to, but excluding, `upper`, smaller sizes first.
   */
  method CompositeKeyNames<V(==)>(t: Table<V>, upper: int) returns (keys: seq<seq<string>>)
    requires WellFormed(t)
    ensures keys == AllNames(t, CompositeUpTo(t, upper))
  {
    keys := [];
    if upper <= 2 {
      return;
    }
    var r := 2;
    while r < upper
      invariant 2 <= r <= upper
      invariant keys == AllNames(t, CompositeUpTo(t, r))
      decreases upper - r
    {
      keys := CollectKeys(t, Choose(0, |t.columns|, r), keys, CompositeUpTo(t, r));
      r := r + 1;
    }
  }

  /** The analysis bundle `find_all_primary_keys` returns. */
  datatype KeyReport = KeyReport(singleColumnKeys: seq<string>, compositeKeys: seq<seq<string>>, columnStats: map<string, ColumnStats>)

  /** `CSVPrimaryKeyFinder`: `df` is the loaded frame, or `None` when loading failed. */
  class PrimaryKeyFinder<V(==,!new)> {
    var df: Option<Table<V>>

    ghost predicate Valid()
      reads this
    {
      df.Some? ==> WellFormed(df.value)
    }

    /** The outcome of `load_csv` is given: the frame read, or `None` when reading failed. */
    constructor (loaded: Option<Table<V>>)
      requires loaded.Some? ==> WellFormed(loaded.value)
      ensures df == loaded && Valid()
    {
      df := loaded;
    }

    /** `find_single_column_keys`: the columns with no duplicate and no null, in column order. */
    method FindSingleColumnKeys() returns (keys: seq<string>)
      requires Valid()
      ensures df.None? ==> keys == []
      ensures df.Some? ==> keys == Names(df.value, SingleKeyColumns(df.value, |df.value.columns|))
      ensures df.Some? ==> forall name :: name in keys <==>
        exists c | 0 <= c < |df.value.columns| :: df.value.columns[c] == name && IsKey(df.value, [c])
    {
      if df.None? {
        return [];
      }
      var t := df.value;
      keys := [];
      for c := 0 to |t.columns|
        invariant InRange(t, SingleKeyColumns(t, c))
        invariant keys == Names(t, SingleKeyColumns(t, c))
      {
        ghost var cols := SingleKeyColumns(t, c);
        NamesAppend(t, cols, c);
        assert SingleKeyColumns(t, c + 1) == cols + (if IsKey(t, [c]) then [c] else []);
        if IsKey(t, [c]) {
          keys := keys + [t.columns[c]];
        }
      }
      SingleKeysByName(t);
    }

    /**
     * `find_composite_keys(max_columns)`: for each size from 2 up to
     * `min(max_columns, number of columns)`, each combination of that many
     * columns, in itertools order, that is a key.
     */
    method FindCompositeKeys(maxColumns: int := DefaultMaxColumns) returns (keys: seq<seq<string>>)
      requires Valid()
      ensures df.None? ==> keys == []
      ensures df.Some? ==> keys == AllNames(df.value, CompositeKeyCombos(df.value, maxColumns))
      ensures maxColumns < 2 || (df.Some? && |df.value.columns| < 2) ==> keys == []
    {
      if df.None? {
        return [];
      }
      var t := df.value;
      keys := CompositeKeyNames(t, SizeBound(maxColumns, |t.columns|));
    }

    /**
     * `analyze_uniqueness(columns)`: the statistics of each requested column
     * that exists; requested names that are not columns are skipped.
     */
    method AnalyzeUniqueness(columns: seq<string>) returns (stats: map<string, ColumnStats>)
      requires Valid()
      ensures df.None? ==> stats == map[]
      ensures df.Some? ==> stats.Keys == set name | name in columns && name in df.value.columns
      ensures df.Some? ==> forall name | name in stats ::
        && name in df.value.columns
        && stats[name] == StatsOf(df.value, IndexOf(df.value.columns, name))
        && stats[name].totalRows == |df.value.rows|
        && 0.0 <= stats[name].uniquenessRatio <= 1.0
    {
      if df.None? {
        return map[];
      }
      var t := df.value;
      stats := map[];
      for i := 0 to |columns|
        invariant stats.Keys == set name | name in columns[..i] && name in t.columns
        invariant forall name | name in stats ::
          && name in t.columns
          && stats[name] == StatsOf(t, IndexOf(t.columns, name))
          && 0.0 <= stats[name].uniquenessRatio <= 1.0
      {
        assert columns[..i + 1] == columns[..i] + [columns[i]];
        var column := columns[i];
        if column in t.columns {
          var c := IndexOf(t.columns, column);
          RatioInUnitInterval(t, c);
          stats := stats[column := StatsOf(t, c)];
        }
      }
      assert columns[..|columns|] == columns;
    }

    /**
     * `find_all_primary_keys(max_composite_columns)`: the single-column keys,
     * the composite keys and the statistics of every column, unfiltered;
     * `None` (the empty dict) when no frame is loaded.
     */
    method FindAllPrimaryKeys(maxCompositeColumns: int := DefaultMaxColumns) returns (result: Option<KeyReport>)
      requires Valid()
      ensures df.None? <==> result.None?
      ensures result.Some? ==> (df.Some? && (
        var t := df.value;
        && result.value.singleColumnKeys == Names(t, SingleKeyColumns(t, |t.columns|))
        && result.value.compositeKeys == AllNames(t, CompositeKeyCombos(t, maxCompositeColumns))
        && result.value.columnStats.Keys == (set name | name in t.columns)
        && forall name | name in result.value.columnStats ::
             name in t.columns && result.value.columnStats[name] == StatsOf(t, IndexOf(t.columns, name))))
    {
      if df.None? {
        return None;
      }
      var singleKeys := FindSingleColumnKeys();
      var compositeKeys := FindCompositeKeys(maxCompositeColumns);
      var columnStats := AnalyzeUniqueness(df.value.columns);
      result := Some(KeyReport(singleKeys, compositeKeys, columnStats));
    }
  }
}
