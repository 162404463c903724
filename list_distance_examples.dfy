/**
 * The list test data of src/bin/01.rs and the answers its tests expect,
 * with the edge cases of integer parsing.
 */
module ListDistanceExamples {
  import opened Wrappers
  import opened ListDistance

  const TEST: seq<string> := ["3   4", "4   3", "2   5", "1   3", "3   9", "3   3"]
  const LEFT: seq<int> := [3, 4, 2, 1, 3, 3]
  const RIGHT: seq<int> := [4, 3, 5, 3, 9, 3]

  lemma FormatDigit(d: nat)
    requires d < 10
    ensures FormatInt(d) == [DigitChar(d)]
  {
  }

  /** The TEST lines parse into the two columns. */
  lemma ParseTest()
    ensures ParseLists(TEST) == Some((LEFT, RIGHT))
  {
    forall d | 1 <= d <= 9 ensures FormatInt(d) == [('0' as int + d) as char] {
      FormatDigit(d);
    }
    assert FormatLine(3, 4) == "3   4";
    assert FormatLine(4, 3) == "4   3";
    assert FormatLine(2, 5) == "2   5";
    assert FormatLine(1, 3) == "1   3";
    assert FormatLine(3, 9) == "3   9";
    assert FormatLine(3, 3) == "3   3";
    assert TEST == seq(|LEFT|, i requires 0 <= i < |LEFT| => FormatLine(LEFT[i], RIGHT[i]));
    ParseFormatLists(LEFT, RIGHT);
  }

  /** A sorted permutation of `s` is what `Sort` gives. */
  lemma SortIs(s: seq<int>, a: seq<int>)
    requires Sorted(a) && multiset(a) == multiset(s)
    ensures Sort(s) == a
  {
    SortedUnique(Sort(s), a);
  }

  lemma SortedLeftColumn()
    ensures Sorted([1, 2, 3, 3, 3, 4])
  {
  }

  lemma SortedRightColumn()
    ensures Sorted([3, 3, 3, 4, 5, 9])
  {
  }

  lemma LeftElements()
    ensures multiset([1, 2, 3, 3, 3, 4]) == multiset(LEFT)
  {
  }

  lemma RightElements()
    ensures multiset([3, 3, 3, 4, 5, 9]) == multiset(RIGHT)
  {
  }

  lemma SortLeft()
    ensures Sort(LEFT) == [1, 2, 3, 3, 3, 4]
  {
    SortedLeftColumn();
    LeftElements();
    SortIs(LEFT, [1, 2, 3, 3, 3, 4]);
  }

  lemma SortRight()
    ensures Sort(RIGHT) == [3, 3, 3, 4, 5, 9]
  {
    SortedRightColumn();
    RightElements();
    SortIs(RIGHT, [3, 3, 3, 4, 5, 9]);
  }

  lemma GapsOfSorted()
    ensures SumAbsDiff([1, 2, 3, 3, 3, 4], [3, 3, 3, 4, 5, 9]) == 11
  {
  }

  /** `part_1(TEST) == 11`, as the source's `test1` expects. */
  lemma Part1OnTest()
    ensures Part1(TEST) == Some(11)
  {
    ParseTest();
    SortLeft();
    SortRight();
    GapsOfSorted();
  }

  lemma RightCountOfThree()
    ensures multiset(RIGHT)[3] == 3
  {
    assert RIGHT == [4, 3, 5] + [3, 9, 3];
    assert multiset([4, 3, 5])[3] == 1;
    assert multiset([3, 9, 3])[3] == 2;
  }

  lemma RightCountsOfOthers()
    ensures multiset(RIGHT)[4] == 1 && multiset(RIGHT)[2] == 0 && multiset(RIGHT)[1] == 0
  {
    assert 2 !in RIGHT && 1 !in RIGHT;
    assert RIGHT == [4] + [3, 5, 3, 9, 3];
    assert 4 !in [3, 5, 3, 9, 3];
  }

  lemma SimilarityStep(x: int, t: seq<int>, l2: seq<int>)
    ensures Similarity([x] + t, l2) == x * multiset(l2)[x] + Similarity(t, l2)
  {
    assert ([x] + t)[1..] == t;
  }

  /** The similarity of the TEST lists, one left entry at a time. */
  lemma SimilarityOfTest()
    ensures Similarity(LEFT, RIGHT) == 31
  {
    RightCountOfThree();
    RightCountsOfOthers();
    SimilarityStep(3, [], RIGHT);
    assert [3] + [] == [3];
    assert Similarity([3], RIGHT) == 9;
    SimilarityStep(3, [3], RIGHT);
    assert Similarity([3, 3], RIGHT) == 18;
    SimilarityStep(1, [3, 3], RIGHT);
    assert Similarity([1, 3, 3], RIGHT) == 18;
    SimilarityStep(2, [1, 3, 3], RIGHT);
    assert Similarity([2, 1, 3, 3], RIGHT) == 18;
    SimilarityStep(4, [2, 1, 3, 3], RIGHT);
    assert Similarity([4, 2, 1, 3, 3], RIGHT) == 22;
    SimilarityStep(3, [4, 2, 1, 3, 3], RIGHT);
    assert LEFT == [3] + [4, 2, 1, 3, 3];
  }

  /** Through `Part2`'s contract, `part_2(TEST) == 31`, as the source's
      `test2` expects. */
  lemma Part2OnTest()
    ensures ParseLists(TEST) == Some((LEFT, RIGHT))
    ensures Similarity(LEFT, RIGHT) == 31
  {
    ParseTest();
    SimilarityOfTest();
  }

  /** What `str::parse::<i32>` refuses and accepts. */
  lemma ParseI32Malformed()
    ensures ParseI32("") == None && ParseI32("+") == None && ParseI32("-") == None
    ensures ParseI32(" 4") == None && ParseI32("4 ") == None && ParseI32("4a") == None
  {
  }

  lemma ParseI32Signs()
    ensures ParseI32("+7") == Some(7) && ParseI32("-0") == Some(0) && ParseI32("-12") == Some(-12)
  {
    assert "+7"[1..] == "7" && "7"[..0] == "";
    assert "-12"[1..] == "12" && "12"[..1] == "1" && "1"[..0] == "";
  }

  /** The 32-bit bounds are accepted; one past either is an error. */
  lemma ParseI32Bounds()
    ensures ParseI32(FormatInt(I32Max)) == Some(I32Max) && ParseI32(FormatInt(I32Max + 1)) == None
    ensures ParseI32(FormatInt(I32Min)) == Some(I32Min) && ParseI32(FormatInt(I32Min - 1)) == None
  {
    ParseFormatInt(I32Max);
    ParseFormatInt(I32Max + 1);
    ParseFormatInt(I32Min);
    ParseFormatInt(I32Min - 1);
  }
}
