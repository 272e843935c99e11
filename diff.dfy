/**
 * The diff engine (`compare_badge_numbers`): column-by-column differences of
 * two rows after the timestamp column. Like Python's `zip`, it stops at the
 * shorter row instead of reporting a shape mismatch.
 */
module Diff {
  import opened Decimal

  function Min(a: int, b: int): int { if a < b then a else b }

  /** Both rows hold integer text in every column they share after the timestamp. */
  predicate Comparable(last: seq<string>, current: seq<string>) {
    forall k :: 1 <= k < |last| && k < |current| ==> IsDecimal(last[k]) && IsDecimal(current[k])
  }

  /** `[int(c) - int(l) for l, c in zip(ls, cs)]`. */
  function ZipDiff(ls: seq<string>, cs: seq<string>): (d: seq<int>)
    requires forall k :: 0 <= k < |ls| && k < |cs| ==> IsDecimal(ls[k]) && IsDecimal(cs[k])
    ensures |d| == Min(|ls|, |cs|)
    ensures forall k :: 0 <= k < |d| ==> d[k] == ParseInt(cs[k]) - ParseInt(ls[k])
    decreases |ls|
  {
    if ls == [] || cs == [] then []
    else [ParseInt(cs[0]) - ParseInt(ls[0])] + ZipDiff(ls[1..], cs[1..])
  }

  /** `compare_badge_numbers(last, current)`. */
  function Compare(last: seq<string>, current: seq<string>): (d: seq<int>)
    requires Comparable(last, current)
    ensures |d| == if last == [] || current == [] then 0 else Min(|last|, |current|) - 1
    ensures forall k :: 0 <= k < |d| ==> d[k] == ParseInt(current[k + 1]) - ParseInt(last[k + 1])
  {
    if last == [] || current == [] then []
    else ZipDiff(last[1..], current[1..])
  }

  /** `any(differences)`: some column moved. */
  predicate AnyChanged(d: seq<int>) { exists k :: 0 <= k < |d| && d[k] != 0 }

  /** Comparing a row with itself (or with a row holding the same counts) shows no change. */
  lemma SameCountsNoChange(last: seq<string>, current: seq<string>)
    requires |last| == |current| > 0 && last[1..] == current[1..]
    requires Comparable(last, current)
    ensures !AnyChanged(Compare(last, current))
  {
    var d := Compare(last, current);
    forall k | 0 <= k < |d| ensures d[k] == 0 {
      assert current[k + 1] == current[1..][k] == last[1..][k] == last[k + 1];
    }
  }

  /** Adding the differences to the last counts gives the current counts back. */
  lemma DeltaRestoresCurrent(last: seq<string>, current: seq<string>, k: nat)
    requires Comparable(last, current)
    requires 1 <= k < Min(|last|, |current|)
    ensures ParseInt(last[k]) + Compare(last, current)[k - 1] == ParseInt(current[k])
  {
  }

  /** Rows of different widths are compared on their common columns, without an error. */
  lemma ShapeMismatchTruncates()
    ensures Compare(["t0", "1", "2", "3"], ["t1", "5", "7"]) == [4, 5]
  {
    ParseSingleDigit('1'); ParseSingleDigit('2'); ParseSingleDigit('5'); ParseSingleDigit('7');
    var d := Compare(["t0", "1", "2", "3"], ["t1", "5", "7"]);
    assert |d| == 2 && d[0] == 4 && d[1] == 5;
  }
}
