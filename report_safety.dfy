/**
 * Report safety: a report is a line of integer levels; it is safe when it
 * is monotone with every step between 1 and 3. `is_ok` checks this
 * recursively, optionally tolerating one bad level; the three counts
 * classify each report of the input.
 */
module ReportSafety {

  function Abs(x: int): nat {
    if x < 0 then -x else x
  }

  /** `is_ok`: walks `rest` from `previous`, checking each step's order
      and size. With `allowError`, the first bad step is retried once
      without `current` and once without `previous`, with `hasError` set. */
  function IsOk(previous: int, rest: seq<int>, ascending: bool, allowError: bool, hasError: bool): bool
    decreases |rest|
  {
    if |rest| == 0 then true
    else
      var current := rest[0];
      var orderOk := if ascending then previous <= current else previous >= current;
      var jumpOk := 1 <= Abs(current - previous) <= 3;
      if !orderOk || !jumpOk then
        if allowError then
          if hasError then false
          else IsOk(previous, rest[1..], ascending, allowError, true) ||
               IsOk(current, rest[1..], ascending, allowError, true)
        else false
      else IsOk(current, rest[1..], ascending, allowError, hasError)
  }

  // ---------------------------------------------------------------------
  // Reference meaning
  // ---------------------------------------------------------------------

  /** A step strictly in the given direction, by at most 3. */
  predicate GoodStep(a: int, b: int, ascending: bool) {
    (if ascending then a < b else b < a) && Abs(b - a) <= 3
  }

  /** Every adjacent pair of `levels` is a good step. */
  predicate Safe(levels: seq<int>, ascending: bool) {
    forall i :: 0 <= i < |levels| - 1 ==> GoodStep(levels[i], levels[i + 1], ascending)
  }

  function RemoveAt(levels: seq<int>, k: nat): (r: seq<int>)
    requires k < |levels|
    ensures |r| == |levels| - 1
    ensures forall i :: 0 <= i < k ==> r[i] == levels[i]
    ensures forall i :: k <= i < |r| ==> r[i] == levels[i + 1]
  {
    levels[..k] + levels[k + 1..]
  }

  /** Safe in one direction or the other. */
  predicate SafeEither(levels: seq<int>) {
    Safe(levels, true) || Safe(levels, false)
  }

  /** Removing exactly one level leaves a report safe in some direction. */
  predicate DampenedSafe(levels: seq<int>) {
    exists k :: 0 <= k < |levels| && SafeEither(RemoveAt(levels, k))
  }

  /** `is_ok`'s step test (non-strict order, jump in 1..=3) is the strict
      good step. */
  lemma StepTestIsGoodStep(previous: int, current: int, ascending: bool)
    ensures ((if ascending then previous <= current else previous >= current) &&
             1 <= Abs(current - previous) <= 3) <==> GoodStep(previous, current, ascending)
  {
  }

  lemma SafeCons(x: int, t: seq<int>, ascending: bool)
    ensures Safe([x] + t, ascending) <==> (|t| == 0 || GoodStep(x, t[0], ascending)) && Safe(t, ascending)
  {
    var s := [x] + t;
    if Safe(s, ascending) {
      if |t| > 0 {
        assert s[0] == x && s[1] == t[0];
      }
      forall i | 0 <= i < |t| - 1 ensures GoodStep(t[i], t[i + 1], ascending) {
        assert s[i + 1] == t[i] && s[i + 2] == t[i + 1];
      }
    }
  }

  // ---------------------------------------------------------------------
  // `is_ok`
  // ---------------------------------------------------------------------

  /** Without a skip left to use (strict mode, or the skip already spent),
      `is_ok` holds exactly when every adjacent pair of `[previous] + rest`
      is a good step; in particular it holds for an empty `rest`, and the
      first bad step makes it false. */
  lemma {:induction false} IsOkStrict(previous: int, rest: seq<int>, ascending: bool, allowError: bool, hasError: bool)
    requires !allowError || hasError
    ensures IsOk(previous, rest, ascending, allowError, hasError) <==> Safe([previous] + rest, ascending)
    decreases |rest|
  {
    SafeCons(previous, rest, ascending);
    if |rest| > 0 {
      IsOkStrict(rest[0], rest[1..], ascending, allowError, hasError);
      assert [rest[0]] + rest[1..] == rest;
    }
  }

  /** How the skip budget is spent: at the first bad step, between
      `s[i]` and `s[i + 1]`, the walk either drops `s[i + 1]` and goes on
      from `s[i]`, or drops `s[i]` and goes on from `s[i + 1]` — without
      checking `s[i + 1]` against the level before `s[i]`. */
  ghost predicate SkipAccepts(s: seq<int>, ascending: bool) {
    exists i :: SkipAt(s, i, ascending)
  }

  /** The first bad step is between `s[i]` and `s[i + 1]`, and one of the
      two retries from there succeeds. */
  predicate SkipAt(s: seq<int>, i: int, ascending: bool) {
    0 <= i < |s| - 1 && Safe(s[..i + 1], ascending) && !GoodStep(s[i], s[i + 1], ascending) &&
    (Safe(s[..i + 1] + s[i + 2..], ascending) || Safe(s[i + 1..], ascending))
  }

  /** With the skip budget unspent, `is_ok` holds exactly when the report
      is safe, or its first bad step is survived by one of the two retries. */
  lemma {:induction false} IsOkOneSkip(previous: int, rest: seq<int>, ascending: bool)
    ensures IsOk(previous, rest, ascending, true, false) <==>
      Safe([previous] + rest, ascending) || SkipAccepts([previous] + rest, ascending)
    decreases |rest|
  {
    var s := [previous] + rest;
    SafeCons(previous, rest, ascending);
    if |rest| == 0 {
    } else if !GoodStep(previous, rest[0], ascending) {
      IsOkStrict(previous, rest[1..], ascending, true, true);
      IsOkStrict(rest[0], rest[1..], ascending, true, true);
      assert [rest[0]] + rest[1..] == rest;
      assert s[..1] + s[2..] == [previous] + rest[1..];
      assert s[1..] == rest;
      assert Safe(s[..1], ascending);
      assert SkipAt(s, 0, ascending) <==> IsOk(previous, rest, ascending, true, false);
      if SkipAccepts(s, ascending) {
        var i :| SkipAt(s, i, ascending);
        if i > 0 {
          assert s[..i + 1][0] == s[0] && s[..i + 1][1] == s[1];
        }
      }
    } else {
      IsOkOneSkip(rest[0], rest[1..], ascending);
      assert [rest[0]] + rest[1..] == rest;
      SkipAcceptsCons(previous, rest, ascending);
    }
  }

  /** Prepending a level that makes a good first step changes nothing
      about where the first bad step is or how it is survived. */
  lemma SkipAcceptsCons(x: int, t: seq<int>, ascending: bool)
    requires |t| > 0 && GoodStep(x, t[0], ascending)
    ensures SkipAccepts([x] + t, ascending) <==> SkipAccepts(t, ascending)
  {
    var s := [x] + t;
    if SkipAccepts(s, ascending) {
      var i :| SkipAt(s, i, ascending);
      assert i != 0;
      SkipAtCons(x, t, i - 1, ascending);
    }
    if SkipAccepts(t, ascending) {
      var j :| SkipAt(t, j, ascending);
      SkipAtCons(x, t, j, ascending);
    }
  }

  lemma SkipAtCons(x: int, t: seq<int>, j: nat, ascending: bool)
    requires |t| > 0 && GoodStep(x, t[0], ascending)
    requires j < |t| - 1
    ensures SkipAt([x] + t, j + 1, ascending) <==> SkipAt(t, j, ascending)
  {
    ConsSlices(x, t, j);
    SafeCons(x, t[..j + 1], ascending);
    SafeCons(x, t[..j + 1] + t[j + 2..], ascending);
  }

  lemma ConsSlices(x: int, t: seq<int>, j: nat)
    requires j < |t| - 1
    ensures ([x] + t)[..j + 2] == [x] + t[..j + 1]
    ensures ([x] + t)[..j + 2] + ([x] + t)[j + 3..] == [x] + (t[..j + 1] + t[j + 2..])
    ensures ([x] + t)[j + 2..] == t[j + 1..]
    ensures ([x] + t)[j + 1] == t[j] && ([x] + t)[j + 2] == t[j + 1]
  {
  }

  /** The "drop `previous`" retry does not check the new step, so the
      skip budget lets through a report that no single removal makes safe. */
  lemma IsOkSkipAcceptsUnsafe()
    ensures IsOk(1, [4, 10, 11], true, true, false)
    ensures !DampenedSafe([1, 4, 10, 11])
  {
    var s := [1, 4, 10, 11];
    forall k | 0 <= k < |s| ensures !SafeEither(RemoveAt(s, k)) {
      var r := RemoveAt(s, k);
      if k == 0 { assert r == [4, 10, 11] && !GoodStep(r[0], r[1], true) && !GoodStep(r[0], r[1], false); }
      else if k == 1 { assert r == [1, 10, 11] && !GoodStep(r[0], r[1], true) && !GoodStep(r[0], r[1], false); }
      else if k == 2 { assert r == [1, 4, 11] && !GoodStep(r[1], r[2], true) && !GoodStep(r[0], r[1], false); }
      else { assert r == [1, 4, 10] && !GoodStep(r[1], r[2], true) && !GoodStep(r[0], r[1], false); }
    }
  }

  // ---------------------------------------------------------------------
  // Per-report classification
  // ---------------------------------------------------------------------

  /** `part_1`'s test of one report: strict `is_ok` in either direction.
      `levels[0]` is read, so the report must not be empty. */
  function Part1Line(levels: seq<int>): bool
    requires |levels| >= 1
  {
    IsOk(levels[0], levels[1..], true, false, false) || IsOk(levels[0], levels[1..], false, false, false)
  }

  /** `part_1` counts a report exactly when it is safe ascending or
      descending. */
  lemma Part1LineSpec(levels: seq<int>)
    requires |levels| >= 1
    ensures Part1Line(levels) <==> SafeEither(levels)
  {
    IsOkStrict(levels[0], levels[1..], true, false, false);
    IsOkStrict(levels[0], levels[1..], false, false, false);
    assert [levels[0]] + levels[1..] == levels;
  }

  /** `part_2`'s test of one report: in the same direction, `is_ok` with
      the skip budget on the whole report, and `is_ok` with the budget
      already spent on the report without its second level. The descending
      pair is only evaluated when the ascending pair fails.
      `levels[2..]` is read, so the report needs two levels. */
  function Part2Line(levels: seq<int>): bool
    requires |levels| >= 2
  {
    var asc := IsOk(levels[0], levels[1..], true, true, false);
    var asc2 := IsOk(levels[0], levels[2..], true, true, true);
    if asc && asc2 then true
    else
      var dsc := IsOk(levels[0], levels[1..], false, true, false);
      var dsc2 := IsOk(levels[0], levels[2..], false, true, true);
      dsc && dsc2
  }

  /** The second call of each pair asks for the report without its second
      level to be strictly safe in that direction. */
  lemma Part2LineSpec(levels: seq<int>)
    requires |levels| >= 2
    ensures Part2Line(levels) <==>
      (IsOk(levels[0], levels[1..], true, true, false) && Safe(RemoveAt(levels, 1), true)) ||
      (IsOk(levels[0], levels[1..], false, true, false) && Safe(RemoveAt(levels, 1), false))
  {
    IsOkStrict(levels[0], levels[2..], true, true, true);
    IsOkStrict(levels[0], levels[2..], false, true, true);
    assert [levels[0]] + levels[2..] == RemoveAt(levels, 1);
  }

  /** Every report `part_2` counts is safe after one removal. */
  lemma Part2LineSound(levels: seq<int>)
    requires |levels| >= 2
    ensures Part2Line(levels) ==> DampenedSafe(levels)
  {
    Part2LineSpec(levels);
    if Part2Line(levels) {
      assert SafeEither(RemoveAt(levels, 1));
    }
  }

  /** `part_2` rejects a report that is safe as it stands, because its
      second level cannot be dropped. */
  lemma Part2RejectsSafe()
    ensures SafeEither([1, 2, 5]) && DampenedSafe([1, 2, 5])
    ensures !Part2Line([1, 2, 5])
  {
    assert RemoveAt([1, 2, 5], 2) == [1, 2];
    assert RemoveAt([1, 2, 5], 1) == [1, 5];
    Part2LineSpec([1, 2, 5]);
    assert !GoodStep(1, 5, true) && !GoodStep(1, 5, false);
  }

  /** A safe report stays safe without its last level. */
  lemma SafeDropLast(levels: seq<int>, ascending: bool)
    requires |levels| >= 1 && Safe(levels, ascending)
    ensures Safe(RemoveAt(levels, |levels| - 1), ascending)
  {
    assert RemoveAt(levels, |levels| - 1) == levels[..|levels| - 1];
  }

  /** The dampener only widens what counts as safe. */
  lemma SafeIsDampenedSafe(levels: seq<int>)
    requires |levels| >= 1 && SafeEither(levels)
    ensures DampenedSafe(levels)
  {
    var ascending := Safe(levels, true);
    SafeDropLast(levels, ascending);
    assert SafeEither(RemoveAt(levels, |levels| - 1));
  }

  /** `part_2_brute`'s test of one report: try every removal in order,
      stopping at the first that leaves a report `part_1` would count.
      Each copy `skipped` has its first element read, so a report of a
      single level would panic; an empty report is never examined and is
      unsafe. */
  method DampenedSafeLine(levels: seq<int>) returns (safe: bool)
    requires |levels| != 1
    ensures safe <==> DampenedSafe(levels)
  {
    safe := false;
    for skip := 0 to |levels|
      invariant !safe
      invariant forall k :: 0 <= k < skip ==> !SafeEither(RemoveAt(levels, k))
    {
      var skipped := levels[0..skip] + levels[skip + 1..];
      assert skipped == RemoveAt(levels, skip);
      Part1LineSpec(skipped);
      if Part1Line(skipped) {
        safe := true;
        break;
      }
    }
  }

  // ---------------------------------------------------------------------
  // Counting reports
  // ---------------------------------------------------------------------

  /** `.filter(..).count()`: how many entries are true. */
  function CountTrue(bs: seq<bool>): (n: nat)
    ensures n == |set i | 0 <= i < |bs| && bs[i]|
    decreases |bs|
  {
    if |bs| == 0 then 0
    else
      TrueIndicesSplit(bs, bs[..|bs| - 1]);
      CountTrue(bs[..|bs| - 1]) + (if bs[|bs| - 1] then 1 else 0)
  }

  /** The true entries of `bs` are those of `front`, all of `bs` but its
      last entry, plus the last entry when it is true. */
  lemma TrueIndicesSplit(bs: seq<bool>, front: seq<bool>)
    requires |bs| > 0 && front == bs[..|bs| - 1]
    ensures |set i | 0 <= i < |bs| && bs[i]| ==
      |set i | 0 <= i < |front| && front[i]| + (if bs[|bs| - 1] then 1 else 0)
  {
    var earlier := set i | 0 <= i < |front| && front[i];
    var last: set<int> := if bs[|bs| - 1] then {|bs| - 1} else {};
    assert (set i | 0 <= i < |bs| && bs[i]) == earlier + last;
    assert |bs| - 1 !in earlier;
    assert |earlier + last| == |earlier| + |last|;
  }

  /** Every report has a first level (`part_1` reads `levels[0]`). */
  ghost predicate NonEmpty(reports: seq<seq<int>>) {
    forall i :: 0 <= i < |reports| ==> |reports[i]| >= 1
  }

  /** Every report has two levels (`part_2` reads `levels[2..]`). */
  ghost predicate AtLeastTwo(reports: seq<seq<int>>) {
    forall i :: 0 <= i < |reports| ==> |reports[i]| >= 2
  }

  /** No report has exactly one level (`part_2_brute` reads `skipped[0]`). */
  ghost predicate NoSingleton(reports: seq<seq<int>>) {
    forall i :: 0 <= i < |reports| ==> |reports[i]| != 1
  }

  function Part1(reports: seq<seq<int>>): nat
    requires NonEmpty(reports)
  {
    CountTrue(seq(|reports|, i requires 0 <= i < |reports| => Part1Line(reports[i])))
  }

  function Part2(reports: seq<seq<int>>): nat
    requires AtLeastTwo(reports)
  {
    CountTrue(seq(|reports|, i requires 0 <= i < |reports| => Part2Line(reports[i])))
  }

  /** `part_1` is the number of reports safe in either direction. */
  lemma Part1Counts(reports: seq<seq<int>>)
    requires NonEmpty(reports)
    ensures Part1(reports) == |set i | 0 <= i < |reports| && SafeEither(reports[i])|
  {
    var bs := seq(|reports|, i requires 0 <= i < |reports| => Part1Line(reports[i]));
    forall i | 0 <= i < |reports| ensures bs[i] <==> SafeEither(reports[i]) {
      Part1LineSpec(reports[i]);
    }
    assert (set i | 0 <= i < |bs| && bs[i]) == (set i | 0 <= i < |reports| && SafeEither(reports[i]));
  }

  /** `part_2` never counts more reports than `part_2_brute`. */
  lemma Part2AtMostBrute(reports: seq<seq<int>>)
    requires AtLeastTwo(reports)
    ensures Part2(reports) <= |set i | 0 <= i < |reports| && DampenedSafe(reports[i])|
  {
    var bs := seq(|reports|, i requires 0 <= i < |reports| => Part2Line(reports[i]));
    forall i | 0 <= i < |reports| ensures bs[i] ==> DampenedSafe(reports[i]) {
      Part2LineSound(reports[i]);
    }
    assert (set i | 0 <= i < |bs| && bs[i]) <= (set i | 0 <= i < |reports| && DampenedSafe(reports[i]));
    SubsetSize(set i | 0 <= i < |bs| && bs[i], set i | 0 <= i < |reports| && DampenedSafe(reports[i]));
  }

  lemma SubsetSize(a: set<int>, b: set<int>)
    requires a <= b
    ensures |a| <= |b|
  {
    assert b == a + (b - a);
  }

  /** `part_2_brute`: the number of reports that one removal makes safe. */
  method Part2Brute(reports: seq<seq<int>>) returns (count: nat)
    requires NoSingleton(reports)
    ensures count == |set i | 0 <= i < |reports| && DampenedSafe(reports[i])|
  {
    ghost var bs := seq(|reports|, i requires 0 <= i < |reports| => DampenedSafe(reports[i]));
    count := 0;
    for i := 0 to |reports|
      invariant count == CountTrue(bs[..i])
    {
      var safe := DampenedSafeLine(reports[i]);
      assert bs[..i + 1][..i] == bs[..i];
      if safe {
        count := count + 1;
      }
    }
    assert bs[..|reports|] == bs;
    assert (set i | 0 <= i < |bs| && bs[i]) == (set i | 0 <= i < |reports| && DampenedSafe(reports[i]));
  }
}
