/**
 * The field-name matcher and the value-overlap analysis of `CSVComparator`:
 * a greedy, order-dependent, one-to-one assignment of the columns of one file
 * to the columns of another, and the set algebra on two columns' values.
 */
module Comparison {
  import opened Wrappers
  import opened FieldNames
  import Tables

  /** Default of `similarity_threshold`. */
  const DefaultThreshold: real := 0.6

  /**
   * The scores of the candidates against one `fields1` name: `score(f2)` is
   * `calculate_similarity(field1, f2)`.
   */
  function ScoresAgainst(ratio: RatioFn, field1: Label): Label -> real {
    f2 => CalculateSimilarity(ratio, field1, f2)
  }

  /** A candidate the inner loop may settle on: unclaimed, at the threshold and above 0. */
  predicate Eligible(score: Label -> real, threshold: real, field2: Label, used: set<Label>) {
    field2 !in used && score(field2) >= threshold && score(field2) > 0.0
  }

  /** The score of the current best candidate; 0 while there is none (`best_score = 0`). */
  function BestScore(score: Label -> real, candidates: seq<Label>, best: Option<nat>): real
    requires best.Some? ==> best.value < |candidates|
  {
    match best
    case None => 0.0
    case Some(i) => score(candidates[i])
  }

  /**
   * The position in `candidates` of the name the inner loop of
   * `find_field_mappings` leaves in `best_match`: scanning left to right, a
   * candidate replaces the current best only when it is unclaimed, scores
   * strictly more than the best so far, and reaches the threshold.
   */
  function BestMatch(score: Label -> real, threshold: real, candidates: seq<Label>, used: set<Label>): (r: Option<nat>)
    ensures r.Some? ==> r.value < |candidates|
    decreases |candidates|
  {
    if candidates == [] then None
    else
      var last := |candidates| - 1;
      var prev := BestMatch(score, threshold, candidates[..last], used);
      var s := score(candidates[last]);
      if candidates[last] !in used && s > BestScore(score, candidates, prev) && s >= threshold
      then Some(last)
      else prev
  }

  /**
   * `BestMatch` picks the earliest eligible candidate of maximal score, and
   * nothing exactly when no candidate is eligible: ties go to the first name,
   * because the loop replaces its best only on a strictly greater score.
   */
  lemma {:induction false} BestMatchChoice(score: Label -> real, threshold: real, candidates: seq<Label>, used: set<Label>)
    ensures var r := BestMatch(score, threshold, candidates, used);
      && (r.None? <==> forall j | 0 <= j < |candidates| :: !Eligible(score, threshold, candidates[j], used))
      && (r.Some? ==> Eligible(score, threshold, candidates[r.value], used))
      && (r.Some? ==> forall j | 0 <= j < |candidates| && Eligible(score, threshold, candidates[j], used) ::
            score(candidates[j]) <= score(candidates[r.value]))
      && (r.Some? ==> forall j | 0 <= j < r.value && Eligible(score, threshold, candidates[j], used) ::
            score(candidates[j]) < score(candidates[r.value]))
    decreases |candidates|
  {
    if candidates != [] {
      var last := |candidates| - 1;
      var init := candidates[..last];
      BestMatchChoice(score, threshold, init, used);
      assert forall j | 0 <= j < last :: init[j] == candidates[j];
    }
  }

  /** The two variables `find_field_mappings` updates: `mappings` and `used_fields2`. */
  datatype Assignment = Assignment(mappings: map<Label, Label>, used: set<Label>)

  /** One pass of the outer loop: assign `field1` its best match, if any, and claim it. */
  function Step(ratio: RatioFn, threshold: real, a: Assignment, field1: Label, fields2: seq<Label>): Assignment {
    match BestMatch(ScoresAgainst(ratio, field1), threshold, fields2, a.used)
    case None => a
    case Some(i) => Assignment(a.mappings[field1 := fields2[i]], a.used + {fields2[i]})
  }

  /** The state after the outer loop has visited every name of `fields1`, in order. */
  function Greedy(ratio: RatioFn, threshold: real, fields1: seq<Label>, fields2: seq<Label>): Assignment
    decreases |fields1|
  {
    if fields1 == [] then Assignment(map[], {})
    else Step(ratio, threshold, Greedy(ratio, threshold, fields1[..|fields1| - 1], fields2), fields1[|fields1| - 1], fields2)
  }

  predicate Injective(m: map<Label, Label>) {
    forall a, b | a in m && b in m && a != b :: m[a] != m[b]
  }

  /** What every state of the outer loop satisfies. */
  predicate Consistent(ratio: RatioFn, threshold: real, a: Assignment, fields1: seq<Label>, fields2: seq<Label>) {
    && Injective(a.mappings)
    && (forall f | f in a.mappings :: a.mappings[f] in a.used)
    && (forall f | f in a.used :: f in fields2)
    && (forall f | f in a.mappings :: f in fields1)
    && (forall f | f in a.mappings ::
          && CalculateSimilarity(ratio, f, a.mappings[f]) >= threshold
          && CalculateSimilarity(ratio, f, a.mappings[f]) > 0.0)
  }

  /**
   * The greedy assignment is one-to-one, maps names of `fields1` to names of
   * `fields2`, and only to names that score at least the threshold and above 0.
   */
  lemma {:induction false} GreedyConsistent(ratio: RatioFn, threshold: real, fields1: seq<Label>, fields2: seq<Label>)
    ensures Consistent(ratio, threshold, Greedy(ratio, threshold, fields1, fields2), fields1, fields2)
    decreases |fields1|
  {
    if fields1 != [] {
      var init := fields1[..|fields1| - 1];
      GreedyConsistent(ratio, threshold, init, fields2);
      var prev := Greedy(ratio, threshold, init, fields2);
      var field1 := fields1[|fields1| - 1];
      assert forall f | f in init :: f in fields1;
      BestMatchChoice(ScoresAgainst(ratio, field1), threshold, fields2, prev.used);
      match BestMatch(ScoresAgainst(ratio, field1), threshold, fields2, prev.used)
      case None =>
      case Some(i) =>
        var next := Greedy(ratio, threshold, fields1, fields2);
        assert next.mappings == prev.mappings[field1 := fields2[i]];
        assert fields2[i] !in prev.used;
        forall a, b | a in next.mappings && b in next.mappings && a != b
          ensures next.mappings[a] != next.mappings[b]
        {
          if a != field1 && b != field1 {
            assert next.mappings[a] == prev.mappings[a] && next.mappings[b] == prev.mappings[b];
          }
        }
    }
  }

  /** A name is truthy in `if best_match:` and survives normalisation: a present, non-empty label with a non-empty normal form. */
  predicate Named(f: Label) {
    f.Some? && f.value != "" && NormalizeFieldName(f) != ""
  }

  /**
   * Every name ever claimed in `used_fields2`, including the target of an entry
   * a repeated `fields1` name later overwrites, is `Named`: the `if best_match:`
   * test never discards a real match.
   */
  lemma {:induction false} GreedyTargetsAreNamed(ratio: RatioFn, threshold: real, fields1: seq<Label>, fields2: seq<Label>)
    ensures forall f | f in Greedy(ratio, threshold, fields1, fields2).used :: Named(f)
    ensures forall f | f in Greedy(ratio, threshold, fields1, fields2).mappings ::
      Named(Greedy(ratio, threshold, fields1, fields2).mappings[f])
    decreases |fields1|
  {
    if fields1 != [] {
      var init := fields1[..|fields1| - 1];
      var field1 := fields1[|fields1| - 1];
      GreedyTargetsAreNamed(ratio, threshold, init, fields2);
      var prev := Greedy(ratio, threshold, init, fields2);
      BestMatchChoice(ScoresAgainst(ratio, field1), threshold, fields2, prev.used);
      match BestMatch(ScoresAgainst(ratio, field1), threshold, fields2, prev.used)
      case None =>
      case Some(i) =>
        PositiveScoreNeedsNames(ratio, field1, fields2[i]);
    }
    GreedyConsistent(ratio, threshold, fields1, fields2);
  }

  predicate Distinct(s: seq<Label>) {
    forall i, j | 0 <= i < j < |s| :: s[i] != s[j]
  }

  /** A step touches only the entry of the name it visits. */
  lemma StepFrame(ratio: RatioFn, threshold: real, a: Assignment, field1: Label, fields2: seq<Label>, g: Label)
    requires g != field1
    ensures var b := Step(ratio, threshold, a, field1, fields2).mappings;
      (g in b <==> g in a.mappings) && (g in b ==> b[g] == a.mappings[g])
  {
  }

  /** Once `fields1[k]` has been visited, later (different) names never touch its entry. */
  lemma {:induction false} EntryStable(ratio: RatioFn, threshold: real, fields1: seq<Label>, fields2: seq<Label>, k: nat, n: nat)
    requires Distinct(fields1)
    requires k < n <= |fields1|
    ensures var before := Greedy(ratio, threshold, fields1[..k + 1], fields2).mappings;
            var after := Greedy(ratio, threshold, fields1[..n], fields2).mappings;
            (fields1[k] in after <==> fields1[k] in before)
            && (fields1[k] in after ==> after[fields1[k]] == before[fields1[k]])
    decreases n
  {
    if n > k + 1 {
      EntryStable(ratio, threshold, fields1, fields2, k, n - 1);
      var prefix := fields1[..n];
      assert prefix[..n - 1] == fields1[..n - 1];
      assert prefix[n - 1] == fields1[n - 1];
      var prev := Greedy(ratio, threshold, fields1[..n - 1], fields2);
      assert Greedy(ratio, threshold, prefix, fields2) == Step(ratio, threshold, prev, fields1[n - 1], fields2);
      StepFrame(ratio, threshold, prev, fields1[n - 1], fields2, fields1[k]);
    }
  }

  /**
   * For distinct `fields1` names: `fields1[k]` ends up unmapped exactly when no
   * name still unclaimed at its turn is eligible, and otherwise it is mapped to
   * the name `BestMatch` picks against the names claimed before it.
   */
  lemma GreedyDecision(ratio: RatioFn, threshold: real, fields1: seq<Label>, fields2: seq<Label>, k: nat)
    requires Distinct(fields1)
    requires k < |fields1|
    ensures var usedBefore := Greedy(ratio, threshold, fields1[..k], fields2).used;
            var m := Greedy(ratio, threshold, fields1, fields2).mappings;
            var score := ScoresAgainst(ratio, fields1[k]);
            var best := BestMatch(score, threshold, fields2, usedBefore);
            && (fields1[k] !in m <==> forall j | 0 <= j < |fields2| :: !Eligible(score, threshold, fields2[j], usedBefore))
            && (best.Some? ==> fields1[k] in m && m[fields1[k]] == fields2[best.value])
  {
    var prev := Greedy(ratio, threshold, fields1[..k], fields2);
    var prefix := fields1[..k + 1];
    assert prefix[..k] == fields1[..k] && prefix[k] == fields1[k];
    assert Greedy(ratio, threshold, prefix, fields2) == Step(ratio, threshold, prev, fields1[k], fields2);
    EntryStable(ratio, threshold, fields1, fields2, k, |fields1|);
    assert fields1[..|fields1|] == fields1;
    GreedyKeys(ratio, threshold, fields1[..k], fields2);
    assert fields1[k] !in fields1[..k];
    StepDecision(ratio, threshold, prev, fields1[k], fields2);
  }

  /** A step on a name without an entry gives it exactly its best match, if it has one. */
  lemma StepDecision(ratio: RatioFn, threshold: real, a: Assignment, field1: Label, fields2: seq<Label>)
    requires field1 !in a.mappings
    ensures var m := Step(ratio, threshold, a, field1, fields2).mappings;
            var score := ScoresAgainst(ratio, field1);
            var best := BestMatch(score, threshold, fields2, a.used);
            && (field1 !in m <==> forall j | 0 <= j < |fields2| :: !Eligible(score, threshold, fields2[j], a.used))
            && (best.Some? ==> field1 in m && m[field1] == fields2[best.value])
  {
    BestMatchChoice(ScoresAgainst(ratio, field1), threshold, fields2, a.used);
  }

  /** Only visited names get an entry. */
  lemma {:induction false} GreedyKeys(ratio: RatioFn, threshold: real, fields1: seq<Label>, fields2: seq<Label>)
    ensures forall f | f in Greedy(ratio, threshold, fields1, fields2).mappings :: f in fields1
    decreases |fields1|
  {
    if fields1 != [] {
      var init := fields1[..|fields1| - 1];
      GreedyKeys(ratio, threshold, init, fields2);
      assert forall f | f in init :: f in fields1;
    }
  }

  /** The names the mapping assigns to. */
  function Targets(m: map<Label, Label>): set<Label> {
    set f | f in m :: m[f]
  }

  /**
   * With distinct `fields1` names, `used_fields2` is exactly the set of names
   * the mapping assigns to: "unclaimed" means "not yet the target of an earlier name".
   */
  lemma {:induction false} GreedyUsedIsTargets(ratio: RatioFn, threshold: real, fields1: seq<Label>, fields2: seq<Label>)
    requires Distinct(fields1)
    ensures Greedy(ratio, threshold, fields1, fields2).used == Targets(Greedy(ratio, threshold, fields1, fields2).mappings)
    decreases |fields1|
  {
    if fields1 != [] {
      var last := |fields1| - 1;
      var init := fields1[..last];
      var field1 := fields1[last];
      assert forall i | 0 <= i < last :: init[i] == fields1[i];
      GreedyUsedIsTargets(ratio, threshold, init, fields2);
      GreedyKeys(ratio, threshold, init, fields2);
      var prev := Greedy(ratio, threshold, init, fields2);
      assert field1 !in prev.mappings by {
        assert forall i | 0 <= i < last :: init[i] != field1;
      }
      assert fields1[..last] == init;
      assert Greedy(ratio, threshold, fields1, fields2) == Step(ratio, threshold, prev, field1, fields2);
      match BestMatch(ScoresAgainst(ratio, field1), threshold, fields2, prev.used)
      case None =>
      case Some(i) =>
        TargetsAdd(prev.mappings, field1, fields2[i]);
    }
  }

  /** Adding an entry for a new key adds its value to the targets. */
  lemma TargetsAdd(m: map<Label, Label>, k: Label, v: Label)
    requires k !in m
    ensures Targets(m[k := v]) == Targets(m) + {v}
  {
    forall g ensures g in Targets(m[k := v]) <==> g in Targets(m) + {v} {
      if g == v {
        assert k in m[k := v] && m[k := v][k] == v;
      }
      if g in Targets(m) {
        var f :| f in m && m[f] == g;
        assert f != k && m[k := v][f] == g;
      }
      if g in Targets(m[k := v]) && g != v {
        var f :| f in m[k := v] && m[k := v][f] == g;
        assert f != k;
      }
    }
  }

  /** The four entries of the dict `find_common_values` returns. */
  datatype CommonValues<V> = CommonValues(commonValues: set<V>, file1Unique: set<V>, file2Unique: set<V>, totalCommon: nat)

  /** The columns of a data frame, by label; each column a sequence of cells, `None` for a null. */
  type Frame<V> = map<Label, seq<Option<V>>>

  /**
   * The part of `compare_csvs`' result `find_common_values` reads: the rows of
   * both files restricted to the common keys, or the two column-filtered frames.
   */
  datatype ComparisonResult<V> =
    | KeyedResult(commonData1: Frame<V>, commonData2: Frame<V>)
    | FieldResult(data1: Frame<V>, data2: Frame<V>)

  /** The two frames `find_common_values` reads from, by the kind of result. */
  function Frames<V>(result: ComparisonResult<V>): (Frame<V>, Frame<V>) {
    match result
    case KeyedResult(common1, common2) => (common1, common2)
    case FieldResult(data1, data2) => (data1, data2)
  }

  /** A set splits into its part shared with `b` and its part outside `b`. */
  lemma Partition<V>(a: set<V>, b: set<V>)
    ensures |a| == |a * b| + |a - b|
  {
    assert a == (a * b) + (a - b) && (a * b) * (a - b) == {};
  }

  /**
   * `find_common_values`: the set algebra on the non-null values of one column
   * in each file, or `None` when either frame has no such column (a `KeyError`).
   * A value is common exactly when it occurs non-null in both columns, unique
   * to a file exactly when it occurs non-null there and not in the other; the
   * common and unique parts split each file's values, and the count is the
   * number of common values.
   */
  function FindCommonValues<V(==,!new)>(result: ComparisonResult<V>, fieldName: Label): (r: Option<CommonValues<V>>)
    ensures r.None? <==> fieldName !in Frames(result).0 || fieldName !in Frames(result).1
    ensures r.Some? ==>
      var column1 := Frames(result).0[fieldName];
      var column2 := Frames(result).1[fieldName];
      && (forall v :: v in r.value.commonValues <==> Some(v) in column1 && Some(v) in column2)
      && (forall v :: v in r.value.file1Unique <==> Some(v) in column1 && Some(v) !in column2)
      && (forall v :: v in r.value.file2Unique <==> Some(v) in column2 && Some(v) !in column1)
      && r.value.totalCommon == |r.value.commonValues|
      && |Tables.NonNullValues(column1)| == r.value.totalCommon + |r.value.file1Unique|
      && |Tables.NonNullValues(column2)| == r.value.totalCommon + |r.value.file2Unique|
  {
    var (frame1, frame2) := Frames(result);
    if fieldName !in frame1 || fieldName !in frame2 then None
    else
      var values1 := Tables.NonNullValues(frame1[fieldName]);
      var values2 := Tables.NonNullValues(frame2[fieldName]);
      var common := values1 * values2;
      Partition(values1, values2);
      Partition(values2, values1);
      assert values2 * values1 == common;
      Some(CommonValues(common, values1 - values2, values2 - values1, |common|))
  }

  /**
   * `CSVComparator`: the similarity threshold it was built with, the ratio it
   * scores names by, and the field mapping the last comparison found.
   */
  class CsvComparator {
    const similarityThreshold: real
    const ratio: RatioFn
    var fieldMapping: map<Label, Label>

    /** `__init__`: the ratio scores names; the threshold defaults to 0.6. */
    constructor (ratio: RatioFn, similarityThreshold: real := DefaultThreshold)
      ensures this.similarityThreshold == similarityThreshold && this.ratio == ratio
      ensures fieldMapping == map[]
    {
      this.similarityThreshold := similarityThreshold;
      this.ratio := ratio;
      fieldMapping := map[];
    }

    /**
     * `find_field_mappings`: for each name of `fields1` in turn, the best
     * unclaimed name of `fields2` that reaches the threshold, claimed so that no
     * later name can take it.
     */
    method FindFieldMappings(fields1: seq<Label>, fields2: seq<Label>) returns (mappings: map<Label, Label>)
      ensures mappings == Greedy(ratio, similarityThreshold, fields1, fields2).mappings
      ensures Injective(mappings)
      ensures forall f | f in mappings :: f in fields1 && mappings[f] in fields2
      ensures forall f | f in mappings ::
        && CalculateSimilarity(ratio, f, mappings[f]) >= similarityThreshold
        && CalculateSimilarity(ratio, f, mappings[f]) > 0.0
    {
      mappings := map[];
      var used: set<Label> := {};
      for i := 0 to |fields1|
        invariant Assignment(mappings, used) == Greedy(ratio, similarityThreshold, fields1[..i], fields2)
      {
        var field1 := fields1[i];
        ghost var score := ScoresAgainst(ratio, field1);
        var bestMatch: Option<Label> := None;
        var bestScore: real := 0.0;
        ghost var best: Option<nat> := None;
        for j := 0 to |fields2|
          invariant best == BestMatch(score, similarityThreshold, fields2[..j], used)
          invariant best.Some? ==> best.value < j
          invariant bestMatch == (if best.Some? then Some(fields2[best.value]) else None)
          invariant bestScore == BestScore(score, fields2, best)
        {
          assert fields2[..j + 1][..j] == fields2[..j];
          var field2 := fields2[j];
          if field2 in used {
            continue;
          }
          var similarity := CalculateSimilarity(ratio, field1, field2);
          if similarity > bestScore && similarity >= similarityThreshold {
            bestScore := similarity;
            bestMatch := Some(field2);
            best := Some(j);
          }
        }
        assert fields2[..|fields2|] == fields2;
        assert fields1[..i + 1][..i] == fields1[..i];
        if bestMatch.Some? {
          mappings := mappings[field1 := bestMatch.value];
          used := used + {bestMatch.value};
        }
      }
      assert fields1[..|fields1|] == fields1;
      GreedyConsistent(ratio, similarityThreshold, fields1, fields2);
    }

    /**
     * The schema-alignment part of `compare_csvs`: find the mapping between the
     * two files' columns, keep it in `field_mapping`, and report whether any
     * field matched (without one, the comparison stops with `None`).
     */
    method CompareColumns(columns1: seq<Label>, columns2: seq<Label>) returns (found: bool)
      modifies this
      ensures fieldMapping == Greedy(ratio, similarityThreshold, columns1, columns2).mappings
      ensures found <==> fieldMapping != map[]
    {
      var mappings := FindFieldMappings(columns1, columns2);
      fieldMapping := mappings;
      found := mappings != map[];
    }
  }
}
