/**
 * Column-name canonicalisation and the similarity score of two column names,
 * as `CSVComparator.normalize_field_name` and `calculate_similarity` compute them.
 */
module FieldNames {
  import opened Wrappers

  /** A column label; `None` is a missing (NaN) label. */
  type Label = Option<string>

  /**
   * The string-similarity ratio of difflib's `SequenceMatcher`, kept abstract:
   * any total function on two strings whose value lies in [0, 1].
   */
  type RatioFn = f: (string, string) -> real | forall a, b :: 0.0 <= f(a, b) <= 1.0
    witness (a: string, b: string) => 0.0

  /** The characters `re.sub(r'[^a-z0-9_]', '', ...)` keeps. */
  predicate IsKept(c: char) {
    'a' <= c <= 'z' || '0' <= c <= '9' || c == '_'
  }

  predicate AllKept(s: string) {
    forall k | 0 <= k < |s| :: IsKept(s[k])
  }

  /** The characters Python's `str.strip()` removes (`str.isspace`). */
  predicate IsSpace(c: char) {
    c == ' ' || '\t' <= c <= '\r' || '\U{1C}' <= c <= '\U{1F}' || c == '\U{85}' || c == '\U{A0}'
    || c == '\U{1680}' || '\U{2000}' <= c <= '\U{200A}' || c == '\U{2028}' || c == '\U{2029}'
    || c == '\U{202F}' || c == '\U{205F}' || c == '\U{3000}'
  }

  function TrimStart(s: string): (r: string)
    ensures |r| <= |s|
  {
    if |s| > 0 && IsSpace(s[0]) then TrimStart(s[1..]) else s
  }

  function TrimEnd(s: string): (r: string)
    ensures |r| <= |s|
  {
    if |s| > 0 && IsSpace(s[|s| - 1]) then TrimEnd(s[..|s| - 1]) else s
  }

  /** `str.strip()`. */
  function Strip(s: string): string {
    TrimEnd(TrimStart(s))
  }

  /**
   * `str.lower()` of one character, as far as it can matter after the filter:
   * ASCII capitals, and the two other characters whose lower-case form holds a
   * kept character (KELVIN SIGN, and LATIN CAPITAL LETTER I WITH DOT ABOVE,
   * which lower-cases to "i" and a combining dot). Every other character is left
   * as it is; its lower-case form holds no kept character either way.
   */
  function LowerChar(c: char): string {
    if 'A' <= c <= 'Z' then [(c as int + 32) as char]
    else if c == '\U{212A}' then "k"
    else if c == '\U{130}' then "i\U{307}"
    else [c]
  }

  /** `str.lower()`. */
  function Lower(s: string): string {
    if s == [] then [] else LowerChar(s[0]) + Lower(s[1..])
  }

  /** `re.sub(r'[^a-z0-9_]', '', s)`: the kept characters of `s`, in order. */
  function KeepOnly(s: string): (r: string)
    ensures AllKept(r)
    ensures |r| <= |s|
  {
    if s == [] then [] else (if IsKept(s[0]) then [s[0]] else []) + KeepOnly(s[1..])
  }

  /**
   * `normalize_field_name`: a missing label becomes the empty name; any other
   * label is stripped, lower-cased and cut down to `[a-z0-9_]`.
   */
  function NormalizeFieldName(name: Label): (r: string)
    ensures name.None? ==> r == ""
    ensures AllKept(r)
  {
    match name
    case None => ""
    case Some(s) => KeepOnly(Lower(Strip(s)))
  }

  /**
   * `calculate_similarity`: 0 when either normalised name is empty, otherwise
   * the ratio of the two normalised names.
   */
  function CalculateSimilarity(ratio: RatioFn, field1: Label, field2: Label): (r: real)
    ensures 0.0 <= r <= 1.0
    ensures NormalizeFieldName(field1) == "" || NormalizeFieldName(field2) == "" ==> r == 0.0
    ensures NormalizeFieldName(field1) != "" && NormalizeFieldName(field2) != ""
      ==> r == ratio(NormalizeFieldName(field1), NormalizeFieldName(field2))
  {
    var norm1 := NormalizeFieldName(field1);
    var norm2 := NormalizeFieldName(field2);
    if norm1 == "" || norm2 == "" then 0.0 else ratio(norm1, norm2)
  }

  // ---------------------------------------------------------------------------
  // Lemmas

  lemma {:induction false} KeepOnlyConcat(a: string, b: string)
    ensures KeepOnly(a + b) == KeepOnly(a) + KeepOnly(b)
  {
    if a == [] {
      assert a + b == b;
    } else {
      var head := if IsKept(a[0]) then [a[0]] else [];
      assert (a + b)[0] == a[0];
      assert (a + b)[1..] == a[1..] + b;
      assert KeepOnly(a + b) == head + KeepOnly(a[1..] + b);
      KeepOnlyConcat(a[1..], b);
      assert KeepOnly(a) == head + KeepOnly(a[1..]);
    }
  }

  lemma {:induction false} LowerConcat(a: string, b: string)
    ensures Lower(a + b) == Lower(a) + Lower(b)
  {
    if a == [] {
      assert a + b == b;
    } else {
      assert (a + b)[1..] == a[1..] + b;
      LowerConcat(a[1..], b);
    }
  }

  /** Whitespace contributes nothing once lower-cased and filtered. */
  lemma SpaceVanishes(c: char)
    requires IsSpace(c)
    ensures KeepOnly(Lower([c])) == []
  {
    assert Lower([c]) == LowerChar(c) + Lower([]);
    assert LowerChar(c) == [c];
    assert KeepOnly([c]) == [] + KeepOnly([]);
  }

  lemma {:induction false} TrimStartVanishes(s: string)
    ensures KeepOnly(Lower(TrimStart(s))) == KeepOnly(Lower(s))
  {
    if |s| > 0 && IsSpace(s[0]) {
      TrimStartVanishes(s[1..]);
      assert s == [s[0]] + s[1..];
      LowerConcat([s[0]], s[1..]);
      KeepOnlyConcat(Lower([s[0]]), Lower(s[1..]));
      SpaceVanishes(s[0]);
    }
  }

  lemma {:induction false} TrimEndVanishes(s: string)
    ensures KeepOnly(Lower(TrimEnd(s))) == KeepOnly(Lower(s))
  {
    if |s| > 0 && IsSpace(s[|s| - 1]) {
      var init := s[..|s| - 1];
      TrimEndVanishes(init);
      assert s == init + [s[|s| - 1]];
      LowerConcat(init, [s[|s| - 1]]);
      KeepOnlyConcat(Lower(init), Lower([s[|s| - 1]]));
      SpaceVanishes(s[|s| - 1]);
    }
  }

  /** Stripping never changes the normalised name: the filter drops whitespace anyway. */
  lemma StripIsRedundant(s: string)
    ensures NormalizeFieldName(Some(s)) == KeepOnly(Lower(s))
  {
    TrimEndVanishes(TrimStart(s));
    TrimStartVanishes(s);
  }

  /** Normalisation works character by character: it distributes over concatenation. */
  lemma NormalizeConcat(a: string, b: string)
    ensures NormalizeFieldName(Some(a + b)) == NormalizeFieldName(Some(a)) + NormalizeFieldName(Some(b))
  {
    StripIsRedundant(a + b);
    StripIsRedundant(a);
    StripIsRedundant(b);
    LowerConcat(a, b);
    KeepOnlyConcat(Lower(a), Lower(b));
  }

  lemma {:induction false} LowerFixesKept(s: string)
    requires AllKept(s)
    ensures Lower(s) == s
  {
    if s != [] {
      LowerFixesKept(s[1..]);
    }
  }

  lemma {:induction false} KeepOnlyFixesKept(s: string)
    requires AllKept(s)
    ensures KeepOnly(s) == s
  {
    if s != [] {
      KeepOnlyFixesKept(s[1..]);
    }
  }

  /** A name already made of `[a-z0-9_]` is its own normal form. */
  lemma NormalizeFixesCanonical(s: string)
    requires AllKept(s)
    ensures NormalizeFieldName(Some(s)) == s
  {
    StripIsRedundant(s);
    LowerFixesKept(s);
    KeepOnlyFixesKept(s);
  }

  /** `normalize_field_name` is idempotent. */
  lemma NormalizeIdempotent(name: Label)
    ensures NormalizeFieldName(Some(NormalizeFieldName(name))) == NormalizeFieldName(name)
  {
    NormalizeFixesCanonical(NormalizeFieldName(name));
  }

  /** The score depends on the two names only through their normal forms. */
  lemma SimilarityOfNormalized(ratio: RatioFn, field1: Label, field2: Label)
    ensures CalculateSimilarity(ratio, Some(NormalizeFieldName(field1)), Some(NormalizeFieldName(field2)))
         == CalculateSimilarity(ratio, field1, field2)
  {
    NormalizeIdempotent(field1);
    NormalizeIdempotent(field2);
  }

  /** A name that scores above 0 against anything is a present label with a non-empty normal form. */
  lemma PositiveScoreNeedsNames(ratio: RatioFn, field1: Label, field2: Label)
    requires CalculateSimilarity(ratio, field1, field2) > 0.0
    ensures field1.Some? && field1.value != "" && NormalizeFieldName(field1) != ""
    ensures field2.Some? && field2.value != "" && NormalizeFieldName(field2) != ""
  {
  }
}
