/**
 * The report-safety test data of src/bin/02.rs and the counts its tests
 * expect.
 */
module ReportSafetyExamples {
  import opened ReportSafety

  const TEST: seq<seq<int>> := [
    [7, 6, 4, 2, 1], [1, 2, 7, 8, 9], [9, 7, 6, 2, 1],
    [1, 3, 2, 4, 5], [8, 6, 4, 4, 1], [1, 3, 6, 7, 9]]

  /** The first and last TEST reports are safe as they stand. */
  lemma SafeTestLines()
    ensures Part1Line(TEST[0]) && Part1Line(TEST[5])
  {
    Part1LineSpec(TEST[0]);
    Part1LineSpec(TEST[5]);
  }

  /** The four middle TEST reports are not. */
  lemma UnsafeTestLine1()
    ensures !Part1Line(TEST[1])
  {
    Part1LineSpec(TEST[1]);
    UnsafeAt(TEST[1], 1, 0);
  }

  lemma UnsafeTestLine2()
    ensures !Part1Line(TEST[2])
  {
    Part1LineSpec(TEST[2]);
    UnsafeAt(TEST[2], 0, 2);
  }

  lemma UnsafeTestLine3()
    ensures !Part1Line(TEST[3])
  {
    Part1LineSpec(TEST[3]);
    UnsafeAt(TEST[3], 1, 0);
  }

  lemma UnsafeTestLine4()
    ensures !Part1Line(TEST[4])
  {
    Part1LineSpec(TEST[4]);
    UnsafeAt(TEST[4], 2, 2);
  }

  /** `part_1(TEST) == 2`, as the source's `test1` expects. */
  lemma Part1OnTest()
    ensures Part1(TEST) == 2
  {
    SafeTestLines();
    UnsafeTestLine1();
    UnsafeTestLine2();
    UnsafeTestLine3();
    UnsafeTestLine4();
    var bs := seq(|TEST|, i requires 0 <= i < |TEST| => Part1Line(TEST[i]));
    assert bs == [true, false, false, false, false, true];
    assert (set i | 0 <= i < |bs| && bs[i]) == {0, 5};
  }

  /** A five-level report none of whose removals is safe. */
  lemma NotDampened(levels: seq<int>)
    requires |levels| == 5
    requires forall k :: 0 <= k < 5 ==> !SafeEither(RemoveAt(levels, k))
    ensures !DampenedSafe(levels)
  {
  }

  /** A report with a bad ascending step and a bad descending step is
      safe in neither direction. */
  lemma UnsafeAt(s: seq<int>, i: nat, j: nat)
    requires i < |s| - 1 && j < |s| - 1
    requires !GoodStep(s[i], s[i + 1], true) && !GoodStep(s[j], s[j + 1], false)
    ensures !SafeEither(s)
  {
  }

  /** The second and third TEST reports stay unsafe after any removal. */
  lemma Line1NotDampened()
    ensures !DampenedSafe([1, 2, 7, 8, 9])
  {
    var l := [1, 2, 7, 8, 9];
    forall k | 0 <= k < 5 ensures !SafeEither(RemoveAt(l, k)) {
      var a := RemoveAt(l, k);
      if k == 0 { assert a == [2, 7, 8, 9]; UnsafeAt(a, 0, 0); }
      else if k == 1 { assert a == [1, 7, 8, 9]; UnsafeAt(a, 0, 0); }
      else if k == 2 { assert a == [1, 2, 8, 9]; UnsafeAt(a, 1, 0); }
      else if k == 3 { assert a == [1, 2, 7, 9]; UnsafeAt(a, 1, 0); }
      else { assert a == [1, 2, 7, 8]; UnsafeAt(a, 1, 0); }
    }
    NotDampened(l);
  }

  lemma Line2NotDampened()
    ensures !DampenedSafe([9, 7, 6, 2, 1])
  {
    var l := [9, 7, 6, 2, 1];
    forall k | 0 <= k < 5 ensures !SafeEither(RemoveAt(l, k)) {
      var b := RemoveAt(l, k);
      if k == 0 { assert b == [7, 6, 2, 1]; UnsafeAt(b, 0, 1); }
      else if k == 1 { assert b == [9, 6, 2, 1]; UnsafeAt(b, 0, 1); }
      else if k == 2 { assert b == [9, 7, 2, 1]; UnsafeAt(b, 0, 1); }
      else if k == 3 { assert b == [9, 7, 6, 1]; UnsafeAt(b, 0, 2); }
      else { assert b == [9, 7, 6, 2]; UnsafeAt(b, 0, 2); }
    }
    NotDampened(l);
  }

  /** The other four TEST reports are safe after one removal. */
  lemma OthersDampened()
    ensures DampenedSafe(TEST[0]) && DampenedSafe(TEST[3]) && DampenedSafe(TEST[4]) && DampenedSafe(TEST[5])
  {
    assert RemoveAt(TEST[0], 4) == [7, 6, 4, 2];
    assert RemoveAt(TEST[3], 1) == [1, 2, 4, 5];
    assert RemoveAt(TEST[4], 2) == [8, 6, 4, 1];
    assert RemoveAt(TEST[5], 4) == [1, 3, 6, 7];
  }

  /** Through `Part2Brute`'s contract, `part_2_brute(TEST) == 4`, as the
      source's `test2` expects. */
  lemma BruteOnTest()
    ensures |set i | 0 <= i < |TEST| && DampenedSafe(TEST[i])| == 4
  {
    Line1NotDampened();
    Line2NotDampened();
    OthersDampened();
    assert TEST[1] == [1, 2, 7, 8, 9] && TEST[2] == [9, 7, 6, 2, 1];
    assert (set i | 0 <= i < |TEST| && DampenedSafe(TEST[i])) == {0, 3, 4, 5};
  }

  const PROBLEMS: seq<seq<int>> := [
    [40, 41, 42, 43, 44, 48, 51, 52],
    [15, 16, 23, 25, 26, 28, 29],
    [53, 52, 51, 52, 51, 49, 47, 44],
    [26, 24, 22, 21, 17, 14, 13],
    [23, 21, 18, 15, 13, 8, 6, 5],
    [89, 91, 93, 96, 93, 94, 96, 99],
    [62, 63, 67, 70, 71, 74, 76, 77],
    [20, 23, 25, 32, 34],
    [74, 73, 71, 73, 71],
    [83, 80, 76, 74, 72],
    [49, 47, 45, 40, 38, 35],
    [23, 24, 22, 23, 24],
    [60, 61, 63, 67, 69],
    [17, 20, 22, 24, 26, 32, 34, 35],
    [65, 63, 66, 65, 63, 61, 59, 58],
    [75, 74, 73, 69, 67, 66, 63],
    [76, 75, 73, 71, 65, 62],
    [59, 56, 52, 49, 47]]

  // One lemma per line of PROBLEMS: none passes `part_2`'s test.

  lemma ProblemLine0()
    ensures !Part2Line(PROBLEMS[0])
  {
    assert PROBLEMS[0] == [40, 41, 42, 43, 44, 48, 51, 52];
  }

  lemma ProblemLine1()
    ensures !Part2Line(PROBLEMS[1])
  {
    assert PROBLEMS[1] == [15, 16, 23, 25, 26, 28, 29];
  }

  lemma ProblemLine2()
    ensures !Part2Line(PROBLEMS[2])
  {
    assert PROBLEMS[2] == [53, 52, 51, 52, 51, 49, 47, 44];
  }

  lemma ProblemLine3()
    ensures !Part2Line(PROBLEMS[3])
  {
    assert PROBLEMS[3] == [26, 24, 22, 21, 17, 14, 13];
  }

  lemma ProblemLine4()
    ensures !Part2Line(PROBLEMS[4])
  {
    assert PROBLEMS[4] == [23, 21, 18, 15, 13, 8, 6, 5];
  }

  lemma ProblemLine5()
    ensures !Part2Line(PROBLEMS[5])
  {
    assert PROBLEMS[5] == [89, 91, 93, 96, 93, 94, 96, 99];
  }

  lemma ProblemLine6()
    ensures !Part2Line(PROBLEMS[6])
  {
    assert PROBLEMS[6] == [62, 63, 67, 70, 71, 74, 76, 77];
  }

  lemma ProblemLine7()
    ensures !Part2Line(PROBLEMS[7])
  {
    assert PROBLEMS[7] == [20, 23, 25, 32, 34];
  }

  lemma ProblemLine8()
    ensures !Part2Line(PROBLEMS[8])
  {
    assert PROBLEMS[8] == [74, 73, 71, 73, 71];
  }

  lemma ProblemLine9()
    ensures !Part2Line(PROBLEMS[9])
  {
    assert PROBLEMS[9] == [83, 80, 76, 74, 72];
  }

  lemma ProblemLine10()
    ensures !Part2Line(PROBLEMS[10])
  {
    assert PROBLEMS[10] == [49, 47, 45, 40, 38, 35];
  }

  lemma ProblemLine11()
    ensures !Part2Line(PROBLEMS[11])
  {
    assert PROBLEMS[11] == [23, 24, 22, 23, 24];
  }

  lemma ProblemLine12()
    ensures !Part2Line(PROBLEMS[12])
  {
    assert PROBLEMS[12] == [60, 61, 63, 67, 69];
  }

  lemma ProblemLine13()
    ensures !Part2Line(PROBLEMS[13])
  {
    assert PROBLEMS[13] == [17, 20, 22, 24, 26, 32, 34, 35];
  }

  lemma ProblemLine14()
    ensures !Part2Line(PROBLEMS[14])
  {
    assert PROBLEMS[14] == [65, 63, 66, 65, 63, 61, 59, 58];
  }

  lemma ProblemLine15()
    ensures !Part2Line(PROBLEMS[15])
  {
    assert PROBLEMS[15] == [75, 74, 73, 69, 67, 66, 63];
  }

  lemma ProblemLine16()
    ensures !Part2Line(PROBLEMS[16])
  {
    assert PROBLEMS[16] == [76, 75, 73, 71, 65, 62];
  }

  lemma ProblemLine17()
    ensures !Part2Line(PROBLEMS[17])
  {
    assert PROBLEMS[17] == [59, 56, 52, 49, 47];
  }

  /** `part_2(PROBLEMS) == 0`, as the source's `problems` test expects. */
  lemma Part2OnProblems()
    ensures Part2(PROBLEMS) == 0
  {
    var bs := seq(|PROBLEMS|, i requires 0 <= i < |PROBLEMS| => Part2Line(PROBLEMS[i]));
    forall i | 0 <= i < |bs| ensures !bs[i] {
      if i == 0 { ProblemLine0(); }
      else if i == 1 { ProblemLine1(); }
      else if i == 2 { ProblemLine2(); }
      else if i == 3 { ProblemLine3(); }
      else if i == 4 { ProblemLine4(); }
      else if i == 5 { ProblemLine5(); }
      else if i == 6 { ProblemLine6(); }
      else if i == 7 { ProblemLine7(); }
      else if i == 8 { ProblemLine8(); }
      else if i == 9 { ProblemLine9(); }
      else if i == 10 { ProblemLine10(); }
      else if i == 11 { ProblemLine11(); }
      else if i == 12 { ProblemLine12(); }
      else if i == 13 { ProblemLine13(); }
      else if i == 14 { ProblemLine14(); }
      else if i == 15 { ProblemLine15(); }
      else if i == 16 { ProblemLine16(); }
      else { ProblemLine17(); }
    }
    assert (set i | 0 <= i < |bs| && bs[i]) == {};
  }
}
