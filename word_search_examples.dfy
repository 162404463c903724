/**
 * Small grids for the probes of src/bin/04.rs, and the first test grid
 * with the count its test expects.
 */
module WordSearchExamples {
  import opened Wrappers
  import opened WordSearch

  /** A grid two columns wide: a Right diagonal from (3, 0) already
      crosses the bottom, so `check_diag` answers false before it
      computes `width - len`, which would underflow. */
  lemma NarrowGridRightDiagonal()
    ensures DiagFits(Grid(["XX", "XX", "XX", "XX", "XX"], 2, 5), 3, 0, Right, "XMAS")
    ensures CheckDiag(Grid(["XX", "XX", "XX", "XX", "XX"], 2, 5), 3, 0, Right, "XMAS") == Success(false)
  {
    WordLengths();
  }

  /** `check_diag` measures the word in bytes: "\U{C9}A" is three bytes
      long, so three cells are read and compared against a word of two
      characters, and the probe answers false although the diagonal does
      spell the word. */
  lemma NonAsciiWord()
    ensures Utf8Len("\U{C9}A") == 3
    ensures Spells(Grid(["\U{C9}BCD", "DACD", "ABCD", "ABCD"], 4, 4), 0, 0, SouthEast, "\U{C9}A")
    ensures CheckDiag(Grid(["\U{C9}BCD", "DACD", "ABCD", "ABCD"], 4, 4), 0, 0, Right, "\U{C9}A") == Success(false)
  {
    var g := Grid(["\U{C9}BCD", "DACD", "ABCD", "ABCD"], 4, 4);
    assert "\U{C9}A"[1..] == "A";
    assert Utf8Len("\U{C9}A") == 3;
    assert CellAt(g, 0, 0) == Some('\U{C9}') && CellAt(g, 1, 1) == Some('A');
  }

  /** `TEST_1` of the source's tests. */
  const TEST_1: Grid := Grid(["..X...", ".SAMX.", ".A..A.", "XMAS.S", ".X...."], 6, 5)

  lemma Test1Fits()
    ensures Valid(TEST_1) && XmasSafe(TEST_1)
  {
  }

  /** An 'X' or 'S' cell contributes its four probe results. */
  lemma EndCell(g: Grid, row: nat, col: nat, down: bool, right: bool, left: bool, diag: bool)
    requires Valid(g) && XmasSafe(g)
    requires row < |g.grid| && col < |g.grid[row]|
    requires g.grid[row][col] == 'X' || g.grid[row][col] == 'S'
    requires CheckDown(g, row, col) == Success(down) && CheckRight(g, row, col) == Success(right)
    requires CheckDiag(g, row, col, Left, "XMAS") == Success(left)
    requires CheckDiag(g, row, col, Right, "XMAS") == Success(diag)
    ensures AllSuccess(CellProbes(g, row, col))
    ensures Hits(CellProbes(g, row, col)) == Bit(down) + Bit(right) + Bit(left) + Bit(diag)
  {
    var ps := CellProbes(g, row, col);
    assert ps == [Success(down), Success(right), Success(left), Success(diag)];
    HitsOfFour(ps, down, right, left, diag);
  }

  /** Any other cell contributes nothing. */
  lemma OtherCell(g: Grid, row: nat, col: nat)
    requires Valid(g) && XmasSafe(g)
    requires row < |g.grid| && col < |g.grid[row]|
    requires g.grid[row][col] != 'X' && g.grid[row][col] != 'S'
    ensures CellProbes(g, row, col) == []
    ensures AllSuccess(CellProbes(g, row, col)) && Hits(CellProbes(g, row, col)) == 0
  {
  }

  /** The sum of the per-row (or per-cell) hit counts `h`. */
  function Sum(h: seq<nat>): nat {
    if |h| == 0 then 0 else h[0] + Sum(h[1..])
  }

  lemma SumFrom(h: seq<nat>, i: nat)
    requires i < |h|
    ensures Sum(h[i..]) == h[i] + Sum(h[i + 1..])
  {
    assert h[i..][1..] == h[i + 1..];
  }

  /** Two runs of successful results with known hits, one after the other. */
  lemma AppendHits<E>(a: seq<Result<bool, E>>, b: seq<Result<bool, E>>, ka: nat, kb: nat)
    requires AllSuccess(a) && Hits(a) == ka && AllSuccess(b) && Hits(b) == kb
    ensures AllSuccess(a + b) && Hits(a + b) == ka + kb
  {
    AllSuccessAppend(a, b);
    HitsAppend(a, b);
  }

  /** One step along a row: the cell's results, then the rest of the row. */
  lemma RowCons(g: Grid, row: nat, col: nat, k: nat, m: nat)
    requires Valid(g) && XmasSafe(g)
    requires row < |g.grid| && col < |g.grid[row]|
    requires AllSuccess(CellProbes(g, row, col)) && Hits(CellProbes(g, row, col)) == k
    requires AllSuccess(RowProbes(g, row, col + 1)) && Hits(RowProbes(g, row, col + 1)) == m
    ensures AllSuccess(RowProbes(g, row, col)) && Hits(RowProbes(g, row, col)) == k + m
  {
    var here, rest := CellProbes(g, row, col), RowProbes(g, row, col + 1);
    assert RowProbes(g, row, col) == here + rest;
    AppendHits(here, rest, k, m);
  }

  /** A grid whose rows from `row` on have known results: `h[r]` hits in
      row `r`. */
  lemma {:induction false} GridFrom(g: Grid, row: nat, h: seq<nat>)
    requires Valid(g) && XmasSafe(g)
    requires |h| == |g.grid| && row <= |h|
    requires forall r :: row <= r < |h| ==> AllSuccess(RowProbes(g, r, 0)) && Hits(RowProbes(g, r, 0)) == h[r]
    ensures AllSuccess(GridProbes(g, row)) && Hits(GridProbes(g, row)) == Sum(h[row..])
    decreases |h| - row
  {
    if row == |h| {
      assert GridProbes(g, row) == [];
    } else {
      var here, below := RowProbes(g, row, 0), GridProbes(g, row + 1);
      assert GridProbes(g, row) == here + below;
      GridFrom(g, row + 1, h);
      SumFrom(h, row);
      AppendHits(here, below, h[row], Sum(h[row + 1..]));
    }
  }

  lemma Test1Cell02Straight()
    ensures Valid(TEST_1) && XmasSafe(TEST_1)
    ensures CheckDown(TEST_1, 0, 2) == Success(false) && CheckRight(TEST_1, 0, 2) == Success(false)
  {
    assert [TEST_1.grid[0][2], TEST_1.grid[1][2], TEST_1.grid[2][2], TEST_1.grid[3][2]] == "XA.A";
    assert TEST_1.grid[0][2..6] == "X...";
  }

  lemma Test1Cell02Diagonals()
    ensures Valid(TEST_1) && XmasSafe(TEST_1)
    ensures CheckDiag(TEST_1, 0, 2, Left, "XMAS") == Success(false)
    ensures CheckDiag(TEST_1, 0, 2, Right, "XMAS") == Success(true)
  {
    WordLengths();
    ReverseXmas();
    assert DiagCells(TEST_1, 0, 2, Right, 4) == "XMAS";
  }

  lemma Test1Cell11Straight()
    ensures Valid(TEST_1) && XmasSafe(TEST_1)
    ensures CheckDown(TEST_1, 1, 1) == Success(true) && CheckRight(TEST_1, 1, 1) == Success(true)
  {
    assert [TEST_1.grid[1][1], TEST_1.grid[2][1], TEST_1.grid[3][1], TEST_1.grid[4][1]] == "SAMX";
    assert TEST_1.grid[1][1..5] == "SAMX";
  }

  lemma Test1Cell11Diagonals()
    ensures Valid(TEST_1) && XmasSafe(TEST_1)
    ensures CheckDiag(TEST_1, 1, 1, Left, "XMAS") == Success(false)
    ensures CheckDiag(TEST_1, 1, 1, Right, "XMAS") == Success(false)
  {
    WordLengths();
    ReverseXmas();
    assert DiagCells(TEST_1, 1, 1, Right, 4) == "S.S.";
  }

  lemma Test1Cell14Straight()
    ensures Valid(TEST_1) && XmasSafe(TEST_1)
    ensures CheckDown(TEST_1, 1, 4) == Success(false) && CheckRight(TEST_1, 1, 4) == Success(false)
  {
    assert [TEST_1.grid[1][4], TEST_1.grid[2][4], TEST_1.grid[3][4], TEST_1.grid[4][4]] == "XA..";
  }

  lemma Test1Cell14Diagonals()
    ensures Valid(TEST_1) && XmasSafe(TEST_1)
    ensures CheckDiag(TEST_1, 1, 4, Left, "XMAS") == Success(false)
    ensures CheckDiag(TEST_1, 1, 4, Right, "XMAS") == Success(false)
  {
    WordLengths();
    ReverseXmas();
    assert DiagCells(TEST_1, 1, 4, Left, 4) == "X.AX";
  }

  lemma Test1Cell30Straight()
    ensures Valid(TEST_1) && XmasSafe(TEST_1)
    ensures CheckDown(TEST_1, 3, 0) == Success(false) && CheckRight(TEST_1, 3, 0) == Success(true)
  {
    assert TEST_1.grid[3][0..4] == "XMAS";
  }

  lemma Test1Cell30Diagonals()
    ensures Valid(TEST_1) && XmasSafe(TEST_1)
    ensures CheckDiag(TEST_1, 3, 0, Left, "XMAS") == Success(false)
    ensures CheckDiag(TEST_1, 3, 0, Right, "XMAS") == Success(false)
  {
    WordLengths();
    ReverseXmas();

  }

  lemma Test1Cell33Straight()
    ensures Valid(TEST_1) && XmasSafe(TEST_1)
    ensures CheckDown(TEST_1, 3, 3) == Success(false) && CheckRight(TEST_1, 3, 3) == Success(false)
  {

  }

  lemma Test1Cell33Diagonals()
    ensures Valid(TEST_1) && XmasSafe(TEST_1)
    ensures CheckDiag(TEST_1, 3, 3, Left, "XMAS") == Success(false)
    ensures CheckDiag(TEST_1, 3, 3, Right, "XMAS") == Success(false)
  {
    WordLengths();
    ReverseXmas();

  }

  lemma Test1Cell35Straight()
    ensures Valid(TEST_1) && XmasSafe(TEST_1)
    ensures CheckDown(TEST_1, 3, 5) == Success(false) && CheckRight(TEST_1, 3, 5) == Success(false)
  {

  }

  lemma Test1Cell35Diagonals()
    ensures Valid(TEST_1) && XmasSafe(TEST_1)
    ensures CheckDiag(TEST_1, 3, 5, Left, "XMAS") == Success(false)
    ensures CheckDiag(TEST_1, 3, 5, Right, "XMAS") == Success(false)
  {
    WordLengths();
    ReverseXmas();

  }

  lemma Test1Cell41Straight()
    ensures Valid(TEST_1) && XmasSafe(TEST_1)
    ensures CheckDown(TEST_1, 4, 1) == Success(false) && CheckRight(TEST_1, 4, 1) == Success(false)
  {
    assert TEST_1.grid[4][1..5] == "X...";
  }

  lemma Test1Cell41Diagonals()
    ensures Valid(TEST_1) && XmasSafe(TEST_1)
    ensures CheckDiag(TEST_1, 4, 1, Left, "XMAS") == Success(false)
    ensures CheckDiag(TEST_1, 4, 1, Right, "XMAS") == Success(false)
  {
    WordLengths();
    ReverseXmas();

  }

  lemma Test1Cell02()
    ensures Valid(TEST_1) && XmasSafe(TEST_1)
    ensures AllSuccess(CellProbes(TEST_1, 0, 2)) && Hits(CellProbes(TEST_1, 0, 2)) == 1
  {
    Test1Cell02Straight();
    Test1Cell02Diagonals();
    EndCell(TEST_1, 0, 2, false, false, false, true);
  }

  lemma Test1Cell11()
    ensures Valid(TEST_1) && XmasSafe(TEST_1)
    ensures AllSuccess(CellProbes(TEST_1, 1, 1)) && Hits(CellProbes(TEST_1, 1, 1)) == 2
  {
    Test1Cell11Straight();
    Test1Cell11Diagonals();
    EndCell(TEST_1, 1, 1, true, true, false, false);
  }

  lemma Test1Cell14()
    ensures Valid(TEST_1) && XmasSafe(TEST_1)
    ensures AllSuccess(CellProbes(TEST_1, 1, 4)) && Hits(CellProbes(TEST_1, 1, 4)) == 0
  {
    Test1Cell14Straight();
    Test1Cell14Diagonals();
    EndCell(TEST_1, 1, 4, false, false, false, false);
  }

  lemma Test1Cell30()
    ensures Valid(TEST_1) && XmasSafe(TEST_1)
    ensures AllSuccess(CellProbes(TEST_1, 3, 0)) && Hits(CellProbes(TEST_1, 3, 0)) == 1
  {
    Test1Cell30Straight();
    Test1Cell30Diagonals();
    EndCell(TEST_1, 3, 0, false, true, false, false);
  }

  lemma Test1Cell33()
    ensures Valid(TEST_1) && XmasSafe(TEST_1)
    ensures AllSuccess(CellProbes(TEST_1, 3, 3)) && Hits(CellProbes(TEST_1, 3, 3)) == 0
  {
    Test1Cell33Straight();
    Test1Cell33Diagonals();
    EndCell(TEST_1, 3, 3, false, false, false, false);
  }

  lemma Test1Cell35()
    ensures Valid(TEST_1) && XmasSafe(TEST_1)
    ensures AllSuccess(CellProbes(TEST_1, 3, 5)) && Hits(CellProbes(TEST_1, 3, 5)) == 0
  {
    Test1Cell35Straight();
    Test1Cell35Diagonals();
    EndCell(TEST_1, 3, 5, false, false, false, false);
  }

  lemma Test1Cell41()
    ensures Valid(TEST_1) && XmasSafe(TEST_1)
    ensures AllSuccess(CellProbes(TEST_1, 4, 1)) && Hits(CellProbes(TEST_1, 4, 1)) == 0
  {
    Test1Cell41Straight();
    Test1Cell41Diagonals();
    EndCell(TEST_1, 4, 1, false, false, false, false);
  }

  /** The last three cells of a row of six. */
  lemma RowEndOfSix(g: Grid, row: nat, k3: nat, k4: nat, k5: nat)
    requires Valid(g) && XmasSafe(g)
    requires row < |g.grid| && |g.grid[row]| == 6
    requires AllSuccess(CellProbes(g, row, 3)) && Hits(CellProbes(g, row, 3)) == k3
    requires AllSuccess(CellProbes(g, row, 4)) && Hits(CellProbes(g, row, 4)) == k4
    requires AllSuccess(CellProbes(g, row, 5)) && Hits(CellProbes(g, row, 5)) == k5
    ensures AllSuccess(RowProbes(g, row, 3)) && Hits(RowProbes(g, row, 3)) == k3 + k4 + k5
  {
    assert RowProbes(g, row, 6) == [];
    RowCons(g, row, 5, k5, 0);
    RowCons(g, row, 4, k4, k5);
    RowCons(g, row, 3, k3, k4 + k5);
  }

  /** The first three cells of a row of six, before the rest of the row. */
  lemma RowStartOfSix(g: Grid, row: nat, k0: nat, k1: nat, k2: nat, m: nat)
    requires Valid(g) && XmasSafe(g)
    requires row < |g.grid| && |g.grid[row]| == 6
    requires AllSuccess(CellProbes(g, row, 0)) && Hits(CellProbes(g, row, 0)) == k0
    requires AllSuccess(CellProbes(g, row, 1)) && Hits(CellProbes(g, row, 1)) == k1
    requires AllSuccess(CellProbes(g, row, 2)) && Hits(CellProbes(g, row, 2)) == k2
    requires AllSuccess(RowProbes(g, row, 3)) && Hits(RowProbes(g, row, 3)) == m
    ensures AllSuccess(RowProbes(g, row, 0)) && Hits(RowProbes(g, row, 0)) == k0 + k1 + k2 + m
  {
    RowCons(g, row, 2, k2, m);
    RowCons(g, row, 1, k1, k2 + m);
    RowCons(g, row, 0, k0, k1 + k2 + m);
  }

  /** A row of six cells whose results are known cell by cell. */
  lemma RowOfSix(g: Grid, row: nat, k0: nat, k1: nat, k2: nat, k3: nat, k4: nat, k5: nat)
    requires Valid(g) && XmasSafe(g)
    requires row < |g.grid| && |g.grid[row]| == 6
    requires AllSuccess(CellProbes(g, row, 0)) && Hits(CellProbes(g, row, 0)) == k0
    requires AllSuccess(CellProbes(g, row, 1)) && Hits(CellProbes(g, row, 1)) == k1
    requires AllSuccess(CellProbes(g, row, 2)) && Hits(CellProbes(g, row, 2)) == k2
    requires AllSuccess(CellProbes(g, row, 3)) && Hits(CellProbes(g, row, 3)) == k3
    requires AllSuccess(CellProbes(g, row, 4)) && Hits(CellProbes(g, row, 4)) == k4
    requires AllSuccess(CellProbes(g, row, 5)) && Hits(CellProbes(g, row, 5)) == k5
    ensures AllSuccess(RowProbes(g, row, 0)) && Hits(RowProbes(g, row, 0)) == k0 + k1 + k2 + k3 + k4 + k5
  {
    RowEndOfSix(g, row, k3, k4, k5);
    RowStartOfSix(g, row, k0, k1, k2, k3 + k4 + k5);
  }

  lemma Test1Row0()
    ensures Valid(TEST_1) && XmasSafe(TEST_1)
    ensures AllSuccess(RowProbes(TEST_1, 0, 0)) && Hits(RowProbes(TEST_1, 0, 0)) == 1
  {
    OtherCell(TEST_1, 0, 0);
    OtherCell(TEST_1, 0, 1);
    Test1Cell02();
    OtherCell(TEST_1, 0, 3);
    OtherCell(TEST_1, 0, 4);
    OtherCell(TEST_1, 0, 5);
    RowOfSix(TEST_1, 0, 0, 0, 1, 0, 0, 0);
  }

  lemma Test1Row1()
    ensures Valid(TEST_1) && XmasSafe(TEST_1)
    ensures AllSuccess(RowProbes(TEST_1, 1, 0)) && Hits(RowProbes(TEST_1, 1, 0)) == 2
  {
    OtherCell(TEST_1, 1, 0);
    Test1Cell11();
    OtherCell(TEST_1, 1, 2);
    OtherCell(TEST_1, 1, 3);
    Test1Cell14();
    OtherCell(TEST_1, 1, 5);
    RowOfSix(TEST_1, 1, 0, 2, 0, 0, 0, 0);
  }

  lemma Test1Row2()
    ensures Valid(TEST_1) && XmasSafe(TEST_1)
    ensures AllSuccess(RowProbes(TEST_1, 2, 0)) && Hits(RowProbes(TEST_1, 2, 0)) == 0
  {
    OtherCell(TEST_1, 2, 0);
    OtherCell(TEST_1, 2, 1);
    OtherCell(TEST_1, 2, 2);
    OtherCell(TEST_1, 2, 3);
    OtherCell(TEST_1, 2, 4);
    OtherCell(TEST_1, 2, 5);
    RowOfSix(TEST_1, 2, 0, 0, 0, 0, 0, 0);
  }

  lemma Test1Row3()
    ensures Valid(TEST_1) && XmasSafe(TEST_1)
    ensures AllSuccess(RowProbes(TEST_1, 3, 0)) && Hits(RowProbes(TEST_1, 3, 0)) == 1
  {
    Test1Cell30();
    OtherCell(TEST_1, 3, 1);
    OtherCell(TEST_1, 3, 2);
    Test1Cell33();
    OtherCell(TEST_1, 3, 4);
    Test1Cell35();
    RowOfSix(TEST_1, 3, 1, 0, 0, 0, 0, 0);
  }

  lemma Test1Row4()
    ensures Valid(TEST_1) && XmasSafe(TEST_1)
    ensures AllSuccess(RowProbes(TEST_1, 4, 0)) && Hits(RowProbes(TEST_1, 4, 0)) == 0
  {
    OtherCell(TEST_1, 4, 0);
    Test1Cell41();
    OtherCell(TEST_1, 4, 2);
    OtherCell(TEST_1, 4, 3);
    OtherCell(TEST_1, 4, 4);
    OtherCell(TEST_1, 4, 5);
    RowOfSix(TEST_1, 4, 0, 0, 0, 0, 0, 0);
  }

  const TEST_1_ROW_HITS: seq<nat> := [1, 2, 0, 1, 0]

  lemma Test1Rows()
    ensures Valid(TEST_1) && XmasSafe(TEST_1)
    ensures forall r :: 0 <= r < 5 ==>
      AllSuccess(RowProbes(TEST_1, r, 0)) && Hits(RowProbes(TEST_1, r, 0)) == TEST_1_ROW_HITS[r]
  {
    forall r | 0 <= r < 5
      ensures AllSuccess(RowProbes(TEST_1, r, 0)) && Hits(RowProbes(TEST_1, r, 0)) == TEST_1_ROW_HITS[r]
    {
      if r == 0 { Test1Row0(); }
      else if r == 1 { Test1Row1(); }
      else if r == 2 { Test1Row2(); }
      else if r == 3 { Test1Row3(); }
      else { Test1Row4(); }
    }
  }

  /** `find_xmas` on a grid whose rows have known results counts their sum. */
  lemma FindXmasOfRows(g: Grid, h: seq<nat>)
    requires Valid(g) && XmasSafe(g) && |h| == |g.grid|
    requires forall r :: 0 <= r < |h| ==> AllSuccess(RowProbes(g, r, 0)) && Hits(RowProbes(g, r, 0)) == h[r]
    ensures FindXmas(g) == Success(Sum(h))
  {
    var ps := GridProbes(g, 0);
    GridFrom(g, 0, h);
    assert h[0..] == h;
    assert AllSuccess(ps) && Hits(ps) == Sum(h);
    TryCountSpec(ps, 0);
    assert FindXmas(g) == TryCount(ps, 0);
  }

  lemma Test1Count()
    ensures Valid(TEST_1) && XmasSafe(TEST_1)
    ensures FindXmas(TEST_1) == Success(4)
  {
    Test1Rows();
    assert Sum(TEST_1_ROW_HITS) == 4;
    FindXmasOfRows(TEST_1, TEST_1_ROW_HITS);
  }

  /** `part_1(TEST_1) == 4`, as the source's `test1` expects: `from_str`
      accepts the five lines of six cells, and `find_xmas` counts four
      windows, which are all the windows of the grid spelling XMAS or SAMX. */
  lemma Part1OnTest1()
    ensures FromStr(TEST_1.grid) == Success(TEST_1)
    ensures Valid(TEST_1) && XmasSafe(TEST_1)
    ensures FindXmas(TEST_1) == Success(4)
    ensures |XmasWindows(TEST_1)| == 4
  {
    FromStrSpec(TEST_1.grid);
    Test1Count();
    FindXmasCountsWindows(TEST_1);
  }
}
