/**
 * `itertools.combinations(range(n), r)`: the strictly increasing selections of
 * `r` column positions, in the lexicographic order itertools emits them.
 */
module Combinations {

  predicate StrictlyIncreasing(c: seq<nat>) {
    forall i, j | 0 <= i < j < |c| :: c[i] < c[j]
  }

  predicate Within(c: seq<nat>, lo: nat, n: nat) {
    forall k | 0 <= k < |c| :: lo <= c[k] < n
  }

  /** Lexicographic order on position sequences. */
  predicate LexLess(a: seq<nat>, b: seq<nat>) {
    |a| > 0 && |b| > 0 && (a[0] < b[0] || (a[0] == b[0] && LexLess(a[1..], b[1..])))
  }

  /** Every sequence of `cs` with `x` in front. */
  function Prepend(x: nat, cs: seq<seq<nat>>): (r: seq<seq<nat>>)
    ensures |r| == |cs| && forall i | 0 <= i < |cs| :: r[i] == [x] + cs[i]
  {
    seq(|cs|, i requires 0 <= i < |cs| => [x] + cs[i])
  }

  /**
   * The `r`-element selections of positions `lo .. n-1`: first those that
   * start with `lo`, then those that do not, which is itertools' order.
   */
  function Choose(lo: nat, n: nat, r: nat): seq<seq<nat>>
    decreases n - lo
  {
    if r == 0 then [[]]
    else if lo >= n then []
    else Prepend(lo, Choose(lo + 1, n, r - 1)) + Choose(lo + 1, n, r)
  }

  /** An increasing selection above `x`, with `x` put in front. */
  lemma Cons(x: nat, n: nat, t: seq<nat>)
    requires x < n && StrictlyIncreasing(t) && Within(t, x + 1, n)
    ensures StrictlyIncreasing([x] + t) && Within([x] + t, x, n)
  {
    var c := [x] + t;
    forall i, j | 0 <= i < j < |c| ensures c[i] < c[j] {
      assert c[j] == t[j - 1];
      if i > 0 { assert c[i] == t[i - 1]; }
    }
  }

  /** A selection from `lo+1 .. n-1` is one from `lo .. n-1`. */
  lemma Widen(c: seq<nat>, lo: nat, n: nat)
    requires StrictlyIncreasing(c) && Within(c, lo + 1, n)
    ensures StrictlyIncreasing(c) && Within(c, lo, n)
  {
  }

  /** The `i`-th selection `Choose` lists, read off its two parts. */
  lemma UnfoldAt(lo: nat, n: nat, r: nat, i: nat)
    requires r > 0 && i < |Choose(lo, n, r)|
    ensures lo < n
    ensures |Choose(lo, n, r)| == |Choose(lo + 1, n, r - 1)| + |Choose(lo + 1, n, r)|
    ensures i < |Choose(lo + 1, n, r - 1)| ==> Choose(lo, n, r)[i] == [lo] + Choose(lo + 1, n, r - 1)[i]
    ensures i >= |Choose(lo + 1, n, r - 1)| ==>
      Choose(lo, n, r)[i] == Choose(lo + 1, n, r)[i - |Choose(lo + 1, n, r - 1)|]
  {
  }

  /** The `i`-th selection `Choose` lists is strictly increasing, of `r` positions from `lo .. n-1`. */
  lemma {:induction false} ChosenAt(lo: nat, n: nat, r: nat, i: nat)
    requires i < |Choose(lo, n, r)|
    ensures |Choose(lo, n, r)[i]| == r
    ensures StrictlyIncreasing(Choose(lo, n, r)[i]) && Within(Choose(lo, n, r)[i], lo, n)
    decreases n - lo
  {
    if r > 0 {
      UnfoldAt(lo, n, r, i);
      var k := |Choose(lo + 1, n, r - 1)|;
      if i < k {
        ChosenAt(lo + 1, n, r - 1, i);
        Cons(lo, n, Choose(lo + 1, n, r - 1)[i]);
      } else {
        ChosenAt(lo + 1, n, r, i - k);
        Widen(Choose(lo + 1, n, r)[i - k], lo, n);
      }
    }
  }

  /** Both ways of forming a selection are listed by `Choose`. */
  lemma Fold(lo: nat, n: nat, r: nat, c: seq<nat>)
    requires r > 0 && lo < n
    requires c in Choose(lo + 1, n, r) || (|c| > 0 && c[0] == lo && c[1..] in Choose(lo + 1, n, r - 1))
    ensures c in Choose(lo, n, r)
  {
    var k := |Choose(lo + 1, n, r - 1)|;
    assert |Choose(lo, n, r)| == k + |Choose(lo + 1, n, r)|;
    if c in Choose(lo + 1, n, r) {
      var j :| 0 <= j < |Choose(lo + 1, n, r)| && Choose(lo + 1, n, r)[j] == c;
      UnfoldAt(lo, n, r, k + j);
      assert Choose(lo, n, r)[k + j] == c;
    } else {
      var j :| 0 <= j < k && Choose(lo + 1, n, r - 1)[j] == c[1..];
      UnfoldAt(lo, n, r, j);
      assert Choose(lo, n, r)[j] == [lo] + c[1..] == c;
    }
  }

  /** Everything `Choose` lists is a strictly increasing selection of `r` positions from `lo .. n-1`. */
  lemma ChooseSound(lo: nat, n: nat, r: nat)
    ensures forall c | c in Choose(lo, n, r) :: |c| == r && StrictlyIncreasing(c) && Within(c, lo, n)
  {
    forall c | c in Choose(lo, n, r) ensures |c| == r && StrictlyIncreasing(c) && Within(c, lo, n) {
      var i :| 0 <= i < |Choose(lo, n, r)| && Choose(lo, n, r)[i] == c;
      ChosenAt(lo, n, r, i);
    }
  }

  /** The rest of an increasing selection lies above its first position. */
  lemma Rest(c: seq<nat>, n: nat)
    requires |c| > 0 && StrictlyIncreasing(c) && Within(c, c[0], n)
    ensures StrictlyIncreasing(c[1..]) && Within(c[1..], c[0] + 1, n)
  {
    forall k | 0 <= k < |c[1..]| ensures c[0] + 1 <= c[1..][k] < n {
      assert c[0] < c[k + 1];
    }
  }

  /** An increasing selection from `lo .. n-1` that avoids `lo` is one from `lo+1 .. n-1`. */
  lemma Above(c: seq<nat>, lo: nat, n: nat)
    requires |c| > 0 && StrictlyIncreasing(c) && Within(c, lo, n) && c[0] != lo
    ensures Within(c, lo + 1, n)
  {
    forall k | 0 <= k < |c| ensures lo + 1 <= c[k] < n {
      if k > 0 { assert c[0] < c[k]; }
    }
  }

  /** Every strictly increasing selection of `r` positions from `lo .. n-1` is listed by `Choose`. */
  lemma {:induction false} ChooseComplete(lo: nat, n: nat, r: nat, c: seq<nat>)
    requires |c| == r && StrictlyIncreasing(c) && Within(c, lo, n)
    ensures c in Choose(lo, n, r)
    decreases n - lo
  {
    if r > 0 {
      assert lo <= c[0] < n;
      if c[0] == lo {
        Rest(c, n);
        ChooseComplete(lo + 1, n, r - 1, c[1..]);
      } else {
        Above(c, lo, n);
        ChooseComplete(lo + 1, n, r, c);
      }
      Fold(lo, n, r, c);
    }
  }

  /**
   * `Choose` lists exactly the strictly increasing selections of `r`
   * positions from `lo .. n-1`.
   */
  lemma ChooseExactly(lo: nat, n: nat, r: nat, c: seq<nat>)
    ensures c in Choose(lo, n, r) <==> |c| == r && StrictlyIncreasing(c) && Within(c, lo, n)
  {
    ChooseSound(lo, n, r);
    if |c| == r && StrictlyIncreasing(c) && Within(c, lo, n) {
      ChooseComplete(lo, n, r, c);
    }
  }

  /** `Choose` lists its selections in strictly increasing lexicographic order. */
  lemma {:induction false} ChooseSorted(lo: nat, n: nat, r: nat)
    ensures forall i, j | 0 <= i < j < |Choose(lo, n, r)| :: LexLess(Choose(lo, n, r)[i], Choose(lo, n, r)[j])
    decreases n - lo
  {
    if r > 0 && lo < n {
      var tail := Choose(lo + 1, n, r - 1);
      var first := Prepend(lo, tail);
      var rest := Choose(lo + 1, n, r);
      var all := first + rest;
      ChooseSorted(lo + 1, n, r - 1);
      ChooseSorted(lo + 1, n, r);
      ChooseSound(lo + 1, n, r);
      forall i, j | 0 <= i < j < |all| ensures LexLess(all[i], all[j]) {
        if j < |first| {
          assert all[i] == [lo] + tail[i] && all[j] == [lo] + tail[j];
          assert ([lo] + tail[i])[1..] == tail[i] && ([lo] + tail[j])[1..] == tail[j];
        } else if i < |first| {
          assert all[i] == [lo] + tail[i];
          assert all[j] == rest[j - |first|];
          assert all[j] in rest;
          assert lo + 1 <= all[j][0];
        } else {
          assert all[i] == rest[i - |first|] && all[j] == rest[j - |first|];
        }
      }
    }
  }
}
