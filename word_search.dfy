/**
 * The grid word search: a rectangular grid of characters, bounds-checked
 * probes that read a short word along a row, a column or a downward
 * diagonal, and two whole-grid counts built on them (straight "XMAS"
 * occurrences and "MAS" crosses).
 */
module WordSearch {
  import opened Wrappers

  /** The two downward diagonals a diagonal probe can follow. */
  datatype Direction = Left | Right

  datatype Error =
    | CellNotInGrid      // a probe started outside the grid
    | UnequalWidths      // the lines could not be given a common width

  /** The parsed puzzle: the rows of characters and the two dimensions. */
  datatype Grid = Grid(grid: seq<seq<char>>, width: nat, height: nat)

  /** The grid is rectangular and its dimensions describe its rows. */
  ghost predicate Valid(g: Grid) {
    |g.grid| == g.height && forall r :: 0 <= r < |g.grid| ==> |g.grid[r]| == g.width
  }

  predicate InGrid(g: Grid, row: nat, col: nat) {
    row < g.height && col < g.width
  }

  /** Every line has the same length. */
  ghost predicate Rectangular(lines: seq<seq<char>>) {
    forall i :: 0 <= i < |lines| ==> |lines[i]| == |lines[0]|
  }

  // ---------------------------------------------------------------------
  // Sequence reversal (`word.chars().rev()`)
  // ---------------------------------------------------------------------

  function Reverse<T>(s: seq<T>): (r: seq<T>)
    ensures |r| == |s|
    ensures forall i :: 0 <= i < |s| ==> r[i] == s[|s| - 1 - i]
  {
    if |s| == 0 then [] else Reverse(s[1..]) + [s[0]]
  }

  lemma ReverseReverse<T>(s: seq<T>)
    ensures Reverse(Reverse(s)) == s
  {
    assert forall i :: 0 <= i < |s| ==> Reverse(Reverse(s))[i] == s[i];
  }

  /** The number of bytes `c` takes in UTF-8. */
  function Utf8Width(c: char): nat {
    if c as int < 0x80 then 1 else if c as int < 0x800 then 2 else if c as int < 0x1_0000 then 3 else 4
  }

  /** Every character is ASCII, one byte in UTF-8. */
  predicate Ascii(s: seq<char>) {
    forall i :: 0 <= i < |s| ==> s[i] as int < 0x80
  }

  /** `str::len()`: the length of `s` in UTF-8 bytes, never less than its
      number of characters. */
  function Utf8Len(s: seq<char>): (n: nat)
    ensures n >= |s|
    decreases |s|
  {
    if |s| == 0 then 0 else Utf8Width(s[0]) + Utf8Len(s[1..])
  }

  /** The byte length equals the number of characters exactly when `s` is
      ASCII. */
  lemma {:induction false} Utf8LenAscii(s: seq<char>)
    ensures Utf8Len(s) == |s| <==> Ascii(s)
    decreases |s|
  {
    if |s| > 0 {
      Utf8LenAscii(s[1..]);
      assert Ascii(s) <==> s[0] as int < 0x80 && Ascii(s[1..]) by {
        assert forall i :: 1 <= i < |s| ==> s[i] == s[1..][i - 1];
      }
    }
  }

  lemma {:induction false} Utf8LenAppend(a: seq<char>, b: seq<char>)
    ensures Utf8Len(a + b) == Utf8Len(a) + Utf8Len(b)
    decreases |a|
  {
    if |a| == 0 {
      assert a + b == b;
    } else {
      assert (a + b)[1..] == a[1..] + b;
      Utf8LenAppend(a[1..], b);
    }
  }

  /** Reversing the characters keeps the byte length. */
  lemma {:induction false} Utf8LenReverse(s: seq<char>)
    ensures Utf8Len(Reverse(s)) == Utf8Len(s)
    decreases |s|
  {
    if |s| > 0 {
      Utf8LenReverse(s[1..]);
      Utf8LenAppend(Reverse(s[1..]), [s[0]]);
      assert [s[0]][1..] == [];
    }
  }

  /** The words the solvers pass are ASCII: their byte lengths are their
      character counts. */
  lemma WordLengths()
    ensures Ascii("XMAS") && Utf8Len("XMAS") == 4
    ensures Ascii("MAS") && Utf8Len("MAS") == 3
  {
    assert Ascii("XMAS");
    assert Ascii("MAS");
  }

  /** `usize::saturating_sub`. */
  function SaturatingSub(a: nat, b: nat): nat {
    if a >= b then a - b else 0
  }

  // ---------------------------------------------------------------------
  // Parsing (`FromStr for WordSearch`)
  // ---------------------------------------------------------------------

  /** One step of the width fold: a mismatch turns the accumulator into
      `None`, and a `None` accumulator is restarted by the next line. */
  function WidthStep(acc: Option<nat>, line: seq<char>): Option<nat> {
    match acc
    case Some(prevLen) => if |line| == prevLen then Some(prevLen) else None
    case None => Some(|line|)
  }

  function FoldWidth(acc: Option<nat>, lines: seq<seq<char>>): Option<nat>
    decreases |lines|
  {
    if |lines| == 0 then acc else FoldWidth(WidthStep(acc, lines[0]), lines[1..])
  }

  /** `from_str` as written: the grid is the lines themselves, the width
      the result of the fold. */
  function FromStr(lines: seq<seq<char>>): Result<Grid, Error> {
    match FoldWidth(None, lines)
    case None => Failure(UnequalWidths)
    case Some(width) => Success(Grid(lines, width, |lines|))
  }

  /** Once the accumulator holds a width, it is the length of the line
      last folded in. */
  lemma {:induction false} FoldWidthIsLastLength(acc: Option<nat>, lines: seq<seq<char>>)
    requires |lines| > 0
    requires FoldWidth(acc, lines).Some?
    ensures FoldWidth(acc, lines).value == |lines[|lines| - 1]|
    decreases |lines|
  {
    if |lines| > 1 {
      FoldWidthIsLastLength(WidthStep(acc, lines[0]), lines[1..]);
    }
  }

  lemma {:induction false} FoldWidthUniform(acc: Option<nat>, lines: seq<seq<char>>, w: nat)
    requires acc == None || acc == Some(w)
    requires acc == None ==> |lines| > 0
    requires forall i :: 0 <= i < |lines| ==> |lines[i]| == w
    ensures FoldWidth(acc, lines) == Some(w)
    decreases |lines|
  {
    if |lines| > 0 {
      FoldWidthUniform(WidthStep(acc, lines[0]), lines[1..], w);
    }
  }

  /** What `from_str` promises: no lines is an error; lines of one common
      length are accepted with that width and the line count as height;
      whatever is accepted has the width of the last line. */
  lemma FromStrSpec(lines: seq<seq<char>>)
    ensures |lines| == 0 ==> FromStr(lines) == Failure(UnequalWidths)
    ensures |lines| > 0 && Rectangular(lines) ==>
      FromStr(lines) == Success(Grid(lines, |lines[0]|, |lines|)) && Valid(FromStr(lines).value)
    ensures FromStr(lines).Success? ==>
      |lines| > 0 && FromStr(lines).value.height == |lines| &&
      FromStr(lines).value.width == |lines[|lines| - 1]|
  {
    if |lines| > 0 && Rectangular(lines) {
      FoldWidthUniform(None, lines, |lines[0]|);
    }
    if FromStr(lines).Success? {
      FoldWidthIsLastLength(None, lines);
    }
  }

  /** The fold restarts after a mismatch, so these ragged lines are accepted. */
  lemma FromStrAcceptsRagged()
    ensures FromStr(["A", "BB", "CCC"]) == Success(Grid(["A", "BB", "CCC"], 3, 3))
    ensures !Valid(FromStr(["A", "BB", "CCC"]).value)
  {
    var g := Grid(["A", "BB", "CCC"], 3, 3);
    assert |g.grid[0]| != g.width;
  }

  /** Accumulator of the corrected width fold: a mismatch is final. */
  datatype WidthState = Unset | Width(w: nat) | Mismatch

  function StrictWidthStep(acc: WidthState, line: seq<char>): WidthState {
    match acc
    case Unset => Width(|line|)
    case Width(prevLen) => if |line| == prevLen then Width(prevLen) else Mismatch
    case Mismatch => Mismatch
  }

  function StrictFoldWidth(acc: WidthState, lines: seq<seq<char>>): WidthState
    decreases |lines|
  {
    if |lines| == 0 then acc else StrictFoldWidth(StrictWidthStep(acc, lines[0]), lines[1..])
  }

  /** The width fold as intended: every line must have the first line's length. */
  function ParseGrid(lines: seq<seq<char>>): (r: Result<Grid, Error>)
  {
    match StrictFoldWidth(Unset, lines)
    case Width(width) => Success(Grid(lines, width, |lines|))
    case _ => Failure(UnequalWidths)
  }

  lemma {:induction false} StrictFoldWidthSpec(acc: WidthState, lines: seq<seq<char>>)
    requires acc.Width?
    ensures StrictFoldWidth(acc, lines) ==
      (if forall i :: 0 <= i < |lines| ==> |lines[i]| == acc.w then acc else Mismatch)
  {
    if |lines| > 0 {
      var next := StrictWidthStep(acc, lines[0]);
      if next.Width? {
        StrictFoldWidthSpec(next, lines[1..]);
        assert forall i :: 1 <= i < |lines| ==> lines[i] == lines[1..][i - 1];
      } else {
        MismatchIsFinal(lines[1..]);
      }
    }
  }

  lemma {:induction false} MismatchIsFinal(lines: seq<seq<char>>)
    ensures StrictFoldWidth(Mismatch, lines) == Mismatch
  {
    if |lines| > 0 {
      MismatchIsFinal(lines[1..]);
    }
  }

  /** The corrected parser accepts exactly the non-empty rectangular inputs,
      and what it accepts is a valid grid of their dimensions. */
  lemma ParseGridSpec(lines: seq<seq<char>>)
    ensures ParseGrid(lines).Success? <==> |lines| > 0 && Rectangular(lines)
    ensures ParseGrid(lines).Success? ==>
      ParseGrid(lines).value == Grid(lines, |lines[0]|, |lines|) && Valid(ParseGrid(lines).value)
  {
    if |lines| > 0 {
      StrictFoldWidthSpec(Width(|lines[0]|), lines[1..]);
      assert forall i :: 1 <= i < |lines| ==> lines[i] == lines[1..][i - 1];
    }
  }

  /** On every input the corrected parser accepts, `from_str` as written
      builds the same grid. */
  lemma FromStrAgreesWithParseGrid(lines: seq<seq<char>>)
    requires ParseGrid(lines).Success?
    ensures FromStr(lines) == ParseGrid(lines)
  {
    ParseGridSpec(lines);
    FromStrSpec(lines);
  }

  // ---------------------------------------------------------------------
  // Reference meaning of a probe: a word read along a ray of cells
  // ---------------------------------------------------------------------

  /** The four rays a probe can read along, all moving down or right. */
  datatype Ray = East | South | SouthEast | SouthWest

  const Rays: set<Ray> := {East, South, SouthEast, SouthWest}

  function RayOf(dir: Direction): Ray {
    match dir
    case Left => SouthWest
    case Right => SouthEast
  }

  /** Row and column of the `k`-th cell along `ray` from (`row`, `col`). */
  function RowAt(row: int, ray: Ray, k: int): int {
    if ray == East then row else row + k
  }

  function ColAt(col: int, ray: Ray, k: int): int {
    match ray
    case East => col + k
    case South => col
    case SouthEast => col + k
    case SouthWest => col - k
  }

  /** The character at (`r`, `c`), or `None` off the grid. */
  function CellAt(g: Grid, r: int, c: int): Option<char> {
    if 0 <= r < |g.grid| && 0 <= c < |g.grid[r]| then Some(g.grid[r][c]) else None
  }

  /** The cells from (`row`, `col`) along `ray` all lie in the grid and
      spell `word`. */
  ghost predicate Spells(g: Grid, row: int, col: int, ray: Ray, word: seq<char>) {
    forall k :: 0 <= k < |word| ==> CellAt(g, RowAt(row, ray, k), ColAt(col, ray, k)) == Some(word[k])
  }

  /** A window read from the grid spells `word` exactly when it equals `word`. */
  lemma SpellsWindow(g: Grid, row: int, col: int, ray: Ray, word: seq<char>, w: seq<char>)
    requires |w| == |word|
    requires forall k :: 0 <= k < |w| ==> CellAt(g, RowAt(row, ray, k), ColAt(col, ray, k)) == Some(w[k])
    ensures Spells(g, row, col, ray, word) <==> w == word
  {
    if Spells(g, row, col, ray, word) {
      assert forall k :: 0 <= k < |w| ==> w[k] == word[k];
    }
  }

  // ---------------------------------------------------------------------
  // Probes
  // ---------------------------------------------------------------------

  /** `check_index`: the cell is inside the grid. */
  function CheckIndex(g: Grid, row: nat, col: nat): (r: Outcome<Error>)
    ensures r == Pass || r == Fail(CellNotInGrid)
    ensures r == Pass <==> InGrid(g, row, col)
    ensures Valid(g) ==> (r == Pass <==> row < |g.grid| && col < |g.grid[row]|)
  {
    if !(row < g.height && col < g.width) then Fail(CellNotInGrid) else Pass
  }

  /** `check_right`: the four cells from (`row`, `col`) rightwards spell
      XMAS or SAMX. `width - 4` is a `usize` subtraction, reached only
      once the cell is known to be in the grid. */
  function CheckRight(g: Grid, row: nat, col: nat): Result<bool, Error>
    requires Valid(g)
    requires InGrid(g, row, col) ==> g.width >= 4
  {
    match CheckIndex(g, row, col)
    case Fail(e) => Failure(e)
    case Pass =>
      if col > g.width - 4 then Success(false)
      else
        var w := [g.grid[row][col], g.grid[row][col + 1], g.grid[row][col + 2], g.grid[row][col + 3]];
        Success(w == "XMAS" || w == "SAMX")
  }

  /** `check_down`: the four cells from (`row`, `col`) downwards spell
      XMAS or SAMX. */
  function CheckDown(g: Grid, row: nat, col: nat): Result<bool, Error>
    requires Valid(g)
    requires InGrid(g, row, col) ==> g.height >= 4
  {
    match CheckIndex(g, row, col)
    case Fail(e) => Failure(e)
    case Pass =>
      if row > g.height - 4 then Success(false)
      else
        var w := [g.grid[row][col], g.grid[row + 1][col], g.grid[row + 2][col], g.grid[row + 3][col]];
        Success(w == "XMAS" || w == "SAMX")
  }

  /** What `check_diag` needs of its caller, with `n` the byte length of
      the word: once the cell is known to be in the grid, `height - n` does
      not underflow, and once the diagonal is known not to cross the bottom,
      neither does `n - 1` (Left) or `width - n` (Right). */
  predicate DiagFits(g: Grid, row: nat, col: nat, dir: Direction, word: seq<char>) {
    var n := Utf8Len(word);
    InGrid(g, row, col) ==>
      n <= g.height && (row + n <= g.height ==> (dir == Left ==> n >= 1) && (dir == Right ==> n <= g.width))
  }

  /** `check_diag`: the cells from (`row`, `col`) down the `dir` diagonal
      spell `word` or its reverse. As in the source, the guards and the
      number of cells read use the word's length in bytes. */
  function CheckDiag(g: Grid, row: nat, col: nat, dir: Direction, word: seq<char>): Result<bool, Error>
    requires Valid(g)
    requires DiagFits(g, row, col, dir, word)
  {
    match CheckIndex(g, row, col)
    case Fail(e) => Failure(e)
    case Pass =>
      var n := Utf8Len(word);
      var rev := Reverse(word);
      if row > g.height - n then Success(false)
      else if dir == Left && col < n - 1 then Success(false)
      else if dir == Right && col > g.width - n then Success(false)
      else
        var diag := DiagCells(g, row, col, dir, n);
        Success(diag == word || diag == rev)
  }

  /** The `(0..n).map(..)` of `check_diag`: the `n` cells down the `dir`
      diagonal, the Left column computed with a saturating subtraction. */
  function DiagCells(g: Grid, row: nat, col: nat, dir: Direction, n: nat): (diag: seq<char>)
    requires Valid(g) && InGrid(g, row, col) && DiagInside(g, row, col, dir, n)
    ensures |diag| == n
    ensures forall k :: 0 <= k < n ==>
      CellAt(g, RowAt(row, RayOf(dir), k), ColAt(col, RayOf(dir), k)) == Some(diag[k])
  {
    seq(n, d requires 0 <= d < n =>
      match dir
      case Right => g.grid[row + d][col + d]
      case Left => g.grid[row + d][SaturatingSub(col, d)])
  }

  /** `check_right` fails exactly off the grid, answers false when fewer
      than four columns remain, and otherwise answers whether the row
      spells XMAS or SAMX from the cell. */
  lemma CheckRightSpec(g: Grid, row: nat, col: nat)
    requires Valid(g)
    requires InGrid(g, row, col) ==> g.width >= 4
    ensures CheckRight(g, row, col).Failure? <==> !InGrid(g, row, col)
    ensures InGrid(g, row, col) && col + 4 > g.width ==> CheckRight(g, row, col) == Success(false)
    ensures InGrid(g, row, col) && col + 4 <= g.width ==>
      CheckRight(g, row, col) == Success(g.grid[row][col..col + 4] in {"XMAS", "SAMX"})
    ensures CheckRight(g, row, col).Success? ==>
      (CheckRight(g, row, col).value <==> Spells(g, row, col, East, "XMAS") || Spells(g, row, col, East, "SAMX"))
  {
    if InGrid(g, row, col) {
      if col + 4 > g.width {
        var k := g.width - col;
        assert CellAt(g, RowAt(row, East, k), ColAt(col, East, k)) == None;
      } else {
        var w := [g.grid[row][col], g.grid[row][col + 1], g.grid[row][col + 2], g.grid[row][col + 3]];
        assert w == g.grid[row][col..col + 4];
        SpellsWindow(g, row, col, East, "XMAS", w);
        SpellsWindow(g, row, col, East, "SAMX", w);
      }
    }
  }

  /** `check_down`, likewise down the column. */
  lemma CheckDownSpec(g: Grid, row: nat, col: nat)
    requires Valid(g)
    requires InGrid(g, row, col) ==> g.height >= 4
    ensures CheckDown(g, row, col).Failure? <==> !InGrid(g, row, col)
    ensures InGrid(g, row, col) && row + 4 > g.height ==> CheckDown(g, row, col) == Success(false)
    ensures CheckDown(g, row, col).Success? ==>
      (CheckDown(g, row, col).value <==> Spells(g, row, col, South, "XMAS") || Spells(g, row, col, South, "SAMX"))
  {
    if InGrid(g, row, col) {
      if row + 4 > g.height {
        var k := g.height - row;
        assert CellAt(g, RowAt(row, South, k), ColAt(col, South, k)) == None;
      } else {
        var w := [g.grid[row][col], g.grid[row + 1][col], g.grid[row + 2][col], g.grid[row + 3][col]];
        SpellsWindow(g, row, col, South, "XMAS", w);
        SpellsWindow(g, row, col, South, "SAMX", w);
      }
    }
  }

  /** A ray that leaves the grid within `|word|` cells spells nothing. */
  lemma OffGridSpellsNothing(g: Grid, row: int, col: int, ray: Ray, word: seq<char>, k: int)
    requires 0 <= k < |word|
    requires CellAt(g, RowAt(row, ray, k), ColAt(col, ray, k)) == None
    ensures !Spells(g, row, col, ray, word) && !Spells(g, row, col, ray, Reverse(word))
  {
  }

  /** `check_diag` fails exactly off the grid; answers false when the
      diagonal would leave the grid at the bottom, the left edge (Left) or
      the right edge (Right); and otherwise reads cells that are all in the
      grid (so the saturating subtraction never saturates). It answers
      true exactly for an ASCII word whose cells along the diagonal spell
      it or its reverse: for any other word it reads more cells than the
      word has characters, so the comparison fails. */
  lemma CheckDiagSpec(g: Grid, row: nat, col: nat, dir: Direction, word: seq<char>)
    requires Valid(g)
    requires DiagFits(g, row, col, dir, word)
    ensures CheckDiag(g, row, col, dir, word).Failure? <==> !InGrid(g, row, col)
    ensures InGrid(g, row, col) && !DiagInside(g, row, col, dir, Utf8Len(word)) ==>
      CheckDiag(g, row, col, dir, word) == Success(false)
    ensures CheckDiag(g, row, col, dir, word).Success? ==>
      (CheckDiag(g, row, col, dir, word).value <==>
        Ascii(word) && (Spells(g, row, col, RayOf(dir), word) || Spells(g, row, col, RayOf(dir), Reverse(word))))
  {
    if InGrid(g, row, col) {
      var n := Utf8Len(word);
      var ray := RayOf(dir);
      if !DiagInside(g, row, col, dir, n) {
        if Ascii(word) {
          Utf8LenAscii(word);
          if row + n > g.height {
            OffGridSpellsNothing(g, row, col, ray, word, g.height - row);
          } else if dir == Left && col + 1 < n {
            OffGridSpellsNothing(g, row, col, ray, word, col + 1);
          } else {
            OffGridSpellsNothing(g, row, col, ray, word, g.width - col);
          }
        }
      } else {
        CheckDiagInside(g, row, col, dir, word);
      }
    }
  }

  /** The `n` cells down the `dir` diagonal from (`row`, `col`) stay in
      the grid. */
  predicate DiagInside(g: Grid, row: nat, col: nat, dir: Direction, n: nat) {
    row + n <= g.height && (dir == Left ==> col + 1 >= n) && (dir == Right ==> col + n <= g.width)
  }

  lemma CheckDiagInside(g: Grid, row: nat, col: nat, dir: Direction, word: seq<char>)
    requires Valid(g) && InGrid(g, row, col)
    requires DiagFits(g, row, col, dir, word)
    requires DiagInside(g, row, col, dir, Utf8Len(word))
    ensures CheckDiag(g, row, col, dir, word).Success?
    ensures CheckDiag(g, row, col, dir, word).value <==>
      Ascii(word) && (Spells(g, row, col, RayOf(dir), word) || Spells(g, row, col, RayOf(dir), Reverse(word)))
  {
    var n := Utf8Len(word);
    var ray := RayOf(dir);
    var diag := DiagCells(g, row, col, dir, n);
    Utf8LenAscii(word);
    if Ascii(word) {
      SpellsWindow(g, row, col, ray, word, diag);
      SpellsWindow(g, row, col, ray, Reverse(word), diag);
    } else {
      assert |diag| != |word| && |diag| != |Reverse(word)|;
    }
  }

  /** For an ASCII word whose diagonal stays in the grid, `check_diag`
      answers exactly whether the diagonal spells the word or `rev`, its
      reverse. */
  lemma CheckDiagAscii(g: Grid, row: nat, col: nat, dir: Direction, word: seq<char>, rev: seq<char>)
    requires Valid(g) && InGrid(g, row, col) && Ascii(word) && rev == Reverse(word)
    requires DiagInside(g, row, col, dir, |word|) && (dir == Left ==> |word| >= 1)
    ensures DiagFits(g, row, col, dir, word)
    ensures CheckDiag(g, row, col, dir, word) ==
      Success(Spells(g, row, col, RayOf(dir), word) || Spells(g, row, col, RayOf(dir), rev))
  {
    Utf8LenAscii(word);
    assert Utf8Len(word) == |word|;
    CheckDiagInside(g, row, col, dir, word);
    var r := CheckDiag(g, row, col, dir, word);
    assert r.Success? && (r.value <==> Spells(g, row, col, RayOf(dir), word) || Spells(g, row, col, RayOf(dir), rev));
  }

  /** `check_diag` compares against the word and its reverse, so it gives
      the same answer for either. */
  lemma CheckDiagReverse(g: Grid, row: nat, col: nat, dir: Direction, word: seq<char>)
    requires Valid(g)
    requires DiagFits(g, row, col, dir, word)
    ensures DiagFits(g, row, col, dir, Reverse(word))
    ensures CheckDiag(g, row, col, dir, Reverse(word)) == CheckDiag(g, row, col, dir, word)
  {
    var rev := Reverse(word);
    ReverseReverse(word);
    Utf8LenReverse(word);
    var n := Utf8Len(word);
    assert Reverse(rev) == word && Utf8Len(rev) == n;
    if InGrid(g, row, col) && DiagInside(g, row, col, dir, n) {
      var diag := DiagCells(g, row, col, dir, n);
      assert CheckDiag(g, row, col, dir, word) == Success(diag == word || diag == rev);
      assert CheckDiag(g, row, col, dir, rev) == Success(diag == rev || diag == word);
    }
  }

  // ---------------------------------------------------------------------
  // Counting probe results (`try_fold`)
  // ---------------------------------------------------------------------

  /** `try_fold(0, |acc, res| res.map(|v| if v { acc + 1 } else { acc }))`:
      adds one for every `Ok(true)` and stops at the first error. */
  function TryCount<E>(results: seq<Result<bool, E>>, acc: nat): Result<nat, E>
    decreases |results|
  {
    if |results| == 0 then Success(acc)
    else
      match results[0]
      case Failure(e) => Failure(e)
      case Success(hit) => TryCount(results[1..], if hit then acc + 1 else acc)
  }

  /** The number of `Ok(true)` results. */
  function Hits<E>(results: seq<Result<bool, E>>): nat
    decreases |results|
  {
    if |results| == 0 then 0
    else (if results[0].Success? && results[0].value then 1 else 0) + Hits(results[1..])
  }

  ghost predicate AllSuccess<E>(results: seq<Result<bool, E>>) {
    forall i :: 0 <= i < |results| ==> results[i].Success?
  }

  /** The fold fails exactly when some result is an error, and otherwise
      adds the number of `Ok(true)` results to the accumulator. */
  lemma {:induction false} TryCountSpec<E>(results: seq<Result<bool, E>>, acc: nat)
    ensures TryCount(results, acc).Success? <==> AllSuccess(results)
    ensures AllSuccess(results) ==> TryCount(results, acc) == Success(acc + Hits(results))
    decreases |results|
  {
    if |results| > 0 {
      if results[0].Success? {
        TryCountSpec(results[1..], if results[0].value then acc + 1 else acc);
        assert forall i :: 1 <= i < |results| ==> results[i] == results[1..][i - 1];
      }
    }
  }

  lemma {:induction false} HitsAppend<E>(a: seq<Result<bool, E>>, b: seq<Result<bool, E>>)
    ensures Hits(a + b) == Hits(a) + Hits(b)
    decreases |a|
  {
    if |a| > 0 {
      assert (a + b)[1..] == a[1..] + b;
      HitsAppend(a[1..], b);
    } else {
      assert a + b == b;
    }
  }

  lemma AllSuccessAppend<E>(a: seq<Result<bool, E>>, b: seq<Result<bool, E>>)
    requires AllSuccess(a) && AllSuccess(b)
    ensures AllSuccess(a + b)
  {
  }

  /** Two runs of successful results, each counting a set of its own,
      together count the union of two disjoint sets. */
  lemma CountedAppend<E, T>(a: seq<Result<bool, E>>, b: seq<Result<bool, E>>, sa: set<T>, sb: set<T>)
    requires AllSuccess(a) && AllSuccess(b)
    requires Hits(a) == |sa| && Hits(b) == |sb| && sa !! sb
    ensures AllSuccess(a + b)
    ensures Hits(a + b) == |sa + sb|
  {
    AllSuccessAppend(a, b);
    HitsAppend(a, b);
    DisjointUnionSize(sa, sb);
  }

  // ---------------------------------------------------------------------
  // `find_xmas`
  // ---------------------------------------------------------------------

  /** The window from (`r`, `c`) along `ray` spells XMAS forwards or backwards. */
  ghost predicate XmasAt(g: Grid, r: int, c: int, ray: Ray) {
    Spells(g, r, c, ray, "XMAS") || Spells(g, r, c, ray, "SAMX")
  }

  /** What `find_xmas` needs to avoid a `usize` underflow: the grid has
      room for four cells both ways, or no cell where probes start. */
  ghost predicate XmasSafe(g: Grid) {
    (g.height >= 4 && g.width >= 4) ||
    forall r, c :: 0 <= r < |g.grid| && 0 <= c < |g.grid[r]| ==> g.grid[r][c] != 'S' && g.grid[r][c] != 'X'
  }

  /** The probe results contributed by one cell (the innermost closure). */
  function CellProbes(g: Grid, row: nat, col: nat): seq<Result<bool, Error>>
    requires Valid(g) && XmasSafe(g)
    requires row < |g.grid| && col < |g.grid[row]|
  {
    WordLengths();
    var c := g.grid[row][col];
    if c == 'S' || c == 'X' then
      [ CheckDown(g, row, col),
        CheckRight(g, row, col),
        CheckDiag(g, row, col, Left, "XMAS"),
        CheckDiag(g, row, col, Right, "XMAS") ]
    else []
  }

  /** The results of the cells of `row` from `col` on, in order. */
  function RowProbes(g: Grid, row: nat, col: nat): seq<Result<bool, Error>>
    requires Valid(g) && XmasSafe(g)
    requires row < |g.grid| && col <= |g.grid[row]|
    decreases |g.grid[row]| - col
  {
    if col == |g.grid[row]| then [] else CellProbes(g, row, col) + RowProbes(g, row, col + 1)
  }

  /** The results of the rows from `row` on, in order. */
  function GridProbes(g: Grid, row: nat): seq<Result<bool, Error>>
    requires Valid(g) && XmasSafe(g)
    requires row <= |g.grid|
    decreases |g.grid| - row
  {
    if row == |g.grid| then [] else RowProbes(g, row, 0) + GridProbes(g, row + 1)
  }

  /** `find_xmas`. */
  function FindXmas(g: Grid): Result<nat, Error>
    requires Valid(g) && XmasSafe(g)
  {
    TryCount(GridProbes(g, 0), 0)
  }

  /** The windows (first cell and ray) satisfying `hit`, in the rows from
      `row` on. */
  ghost function WindowsFrom(height: int, width: int, row: int, hit: (int, int, Ray) -> bool): set<(int, int, Ray)> {
    set r: int, c: int, ray: Ray | row <= r < height && 0 <= c < width && ray in Rays && hit(r, c, ray)
      :: (r, c, ray)
  }

  /** ... in row `row`, from column `col` on. */
  ghost function RowWindowsFrom(width: int, row: int, col: int, hit: (int, int, Ray) -> bool): set<(int, int, Ray)> {
    set c: int, ray: Ray | col <= c < width && ray in Rays && hit(row, c, ray) :: (row, c, ray)
  }

  /** ... starting at the one cell (`row`, `col`). */
  ghost function CellWindows(row: int, col: int, hit: (int, int, Ray) -> bool): set<(int, int, Ray)> {
    set ray: Ray | ray in Rays && hit(row, col, ray) :: (row, col, ray)
  }

  ghost function XmasHit(g: Grid): (int, int, Ray) -> bool {
    (r, c, ray) => XmasAt(g, r, c, ray)
  }

  /** Every window of the grid spelling XMAS or SAMX, by its first cell and ray. */
  ghost function XmasWindows(g: Grid): set<(int, int, Ray)> {
    WindowsFrom(g.height, g.width, 0, XmasHit(g))
  }

  lemma ReverseXmas()
    ensures Reverse("XMAS") == "SAMX"
  {
    assert Reverse("XMAS")[0] == 'S';
  }

  lemma DisjointUnionSize<T>(a: set<T>, b: set<T>)
    requires a !! b
    ensures |a + b| == |a| + |b|
  {
  }

  /** A window spelling XMAS or SAMX starts at an 'X' or an 'S'. */
  lemma XmasStartsWithEnd(g: Grid, row: int, col: int, ray: Ray)
    requires XmasAt(g, row, col, ray)
    ensures CellAt(g, row, col) == Some('X') || CellAt(g, row, col) == Some('S')
  {
    assert RowAt(row, ray, 0) == row && ColAt(col, ray, 0) == col;
  }

  /** From an 'X' or 'S' cell the four probes answer, in order, whether
      the windows down, right, down-left and down-right spell XMAS or SAMX. */
  lemma CellProbesValues(g: Grid, row: nat, col: nat)
    requires Valid(g) && XmasSafe(g)
    requires row < |g.grid| && col < |g.grid[row]|
    requires g.grid[row][col] == 'S' || g.grid[row][col] == 'X'
    ensures CellProbes(g, row, col) ==
      [ Success(XmasAt(g, row, col, South)), Success(XmasAt(g, row, col, East)),
        Success(XmasAt(g, row, col, SouthWest)), Success(XmasAt(g, row, col, SouthEast)) ]
  {
    CheckDownSpec(g, row, col);
    CheckRightSpec(g, row, col);
    WordLengths();
    CheckDiagSpec(g, row, col, Left, "XMAS");
    CheckDiagSpec(g, row, col, Right, "XMAS");
    ReverseXmas();
  }

  function Bit(b: bool): nat {
    if b then 1 else 0
  }

  lemma HitsOfFour<E>(ps: seq<Result<bool, E>>, a: bool, b: bool, c: bool, d: bool)
    requires ps == [Success(a), Success(b), Success(c), Success(d)]
    ensures Hits(ps) == Bit(a) + Bit(b) + Bit(c) + Bit(d)
  {
    assert ps[1..][1..][1..] == [Success(d)];
    assert Hits(ps[1..][1..][1..]) == Bit(d);
    assert ps[1..][1..] == [Success(c), Success(d)];
    assert Hits(ps[1..][1..]) == Bit(c) + Bit(d);
    assert ps[1..] == [Success(b), Success(c), Success(d)];
  }

  lemma SizeOfFour<T>(a: T, b: T, c: T, d: T, ha: bool, hb: bool, hc: bool, hd: bool)
    requires a != b && a != c && a != d && b != c && b != d && c != d
    ensures |(if ha then {a} else {}) + (if hb then {b} else {}) + (if hc then {c} else {}) + (if hd then {d} else {})|
      == Bit(ha) + Bit(hb) + Bit(hc) + Bit(hd)
  {
    var s1: set<T> := if ha then {a} else {};
    var s2: set<T> := if hb then {b} else {};
    var s3: set<T> := if hc then {c} else {};
    var s4: set<T> := if hd then {d} else {};
    assert s1 !! s2;
    assert |s1 + s2| == Bit(ha) + Bit(hb);
    assert (s1 + s2) !! s3;
    assert |s1 + s2 + s3| == Bit(ha) + Bit(hb) + Bit(hc);
    assert (s1 + s2 + s3) !! s4;
  }

  lemma CellWindowsAsFour(row: int, col: int, hit: (int, int, Ray) -> bool)
    ensures CellWindows(row, col, hit) ==
      (if hit(row, col, South) then {(row, col, South)} else {}) +
      (if hit(row, col, East) then {(row, col, East)} else {}) +
      (if hit(row, col, SouthWest) then {(row, col, SouthWest)} else {}) +
      (if hit(row, col, SouthEast) then {(row, col, SouthEast)} else {})
  {
  }

  lemma CellWindowsSize(row: int, col: int, hit: (int, int, Ray) -> bool)
    ensures |CellWindows(row, col, hit)| ==
      Bit(hit(row, col, South)) + Bit(hit(row, col, East)) + Bit(hit(row, col, SouthWest)) + Bit(hit(row, col, SouthEast))
  {
    CellWindowsAsFour(row, col, hit);
    SizeOfFour((row, col, South), (row, col, East), (row, col, SouthWest), (row, col, SouthEast),
      hit(row, col, South), hit(row, col, East), hit(row, col, SouthWest), hit(row, col, SouthEast));
  }

  /** A cell holding neither 'X' nor 'S' is probed by nothing and starts
      no window. */
  lemma OtherCellCount(g: Grid, row: nat, col: nat)
    requires Valid(g) && XmasSafe(g)
    requires row < |g.grid| && col < |g.grid[row]|
    requires g.grid[row][col] != 'S' && g.grid[row][col] != 'X'
    ensures CellProbes(g, row, col) == []
    ensures |CellWindows(row, col, XmasHit(g))| == 0
  {
    var hit := XmasHit(g);
    NoXmasFrom(g, row, col, South);
    NoXmasFrom(g, row, col, East);
    NoXmasFrom(g, row, col, SouthWest);
    NoXmasFrom(g, row, col, SouthEast);
    NoCellWindows(row, col, hit);
  }

  lemma NoXmasFrom(g: Grid, row: int, col: int, ray: Ray)
    requires CellAt(g, row, col) != Some('X') && CellAt(g, row, col) != Some('S')
    ensures !XmasAt(g, row, col, ray)
  {
    if XmasAt(g, row, col, ray) {
      XmasStartsWithEnd(g, row, col, ray);
    }
  }

  lemma NoCellWindows(row: int, col: int, hit: (int, int, Ray) -> bool)
    requires !hit(row, col, South) && !hit(row, col, East)
    requires !hit(row, col, SouthWest) && !hit(row, col, SouthEast)
    ensures CellWindows(row, col, hit) == {}
  {
  }

  /** Four successful probe results, one per ray, count the windows of one cell. */
  lemma FourProbesCount(ps: seq<Result<bool, Error>>, row: int, col: int, hit: (int, int, Ray) -> bool)
    requires ps == [ Success(hit(row, col, South)), Success(hit(row, col, East)),
                     Success(hit(row, col, SouthWest)), Success(hit(row, col, SouthEast)) ]
    ensures AllSuccess(ps)
    ensures Hits(ps) == |CellWindows(row, col, hit)|
  {
    CellWindowsSize(row, col, hit);
    HitsOfFour(ps, hit(row, col, South), hit(row, col, East), hit(row, col, SouthWest), hit(row, col, SouthEast));
  }

  lemma EndCellCount(g: Grid, row: nat, col: nat)
    requires Valid(g) && XmasSafe(g)
    requires row < |g.grid| && col < |g.grid[row]|
    requires g.grid[row][col] == 'S' || g.grid[row][col] == 'X'
    ensures AllSuccess(CellProbes(g, row, col))
    ensures Hits(CellProbes(g, row, col)) == |CellWindows(row, col, XmasHit(g))|
  {
    var hit := XmasHit(g);
    var ps := CellProbes(g, row, col);
    CellProbesValues(g, row, col);
    assert ps == [ Success(hit(row, col, South)), Success(hit(row, col, East)),
                   Success(hit(row, col, SouthWest)), Success(hit(row, col, SouthEast)) ];
    FourProbesCount(ps, row, col, hit);
  }

  /** One cell's probes never fail, and their hits are the windows from it. */
  lemma CellProbesCount(g: Grid, row: nat, col: nat)
    requires Valid(g) && XmasSafe(g)
    requires row < |g.grid| && col < |g.grid[row]|
    ensures AllSuccess(CellProbes(g, row, col))
    ensures Hits(CellProbes(g, row, col)) == |CellWindows(row, col, XmasHit(g))|
  {
    if g.grid[row][col] == 'S' || g.grid[row][col] == 'X' {
      EndCellCount(g, row, col);
    } else {
      OtherCellCount(g, row, col);
    }
  }

  lemma RowWindowsSplit(width: int, row: int, col: int, hit: (int, int, Ray) -> bool)
    requires col < width
    ensures RowWindowsFrom(width, row, col, hit) == CellWindows(row, col, hit) + RowWindowsFrom(width, row, col + 1, hit)
    ensures CellWindows(row, col, hit) !! RowWindowsFrom(width, row, col + 1, hit)
  {
  }

  lemma WindowsSplit(height: int, width: int, row: int, hit: (int, int, Ray) -> bool)
    requires row < height
    ensures WindowsFrom(height, width, row, hit) == RowWindowsFrom(width, row, 0, hit) + WindowsFrom(height, width, row + 1, hit)
    ensures RowWindowsFrom(width, row, 0, hit) !! WindowsFrom(height, width, row + 1, hit)
  {
  }

  lemma {:induction false} RowProbesCount(g: Grid, row: nat, col: nat)
    requires Valid(g) && XmasSafe(g)
    requires row < |g.grid| && col <= |g.grid[row]|
    ensures AllSuccess(RowProbes(g, row, col))
    ensures Hits(RowProbes(g, row, col)) == |RowWindowsFrom(g.width, row, col, XmasHit(g))|
    decreases |g.grid[row]| - col
  {
    if col == |g.grid[row]| {
      assert RowWindowsFrom(g.width, row, col, XmasHit(g)) == {};
    } else {
      CellProbesCount(g, row, col);
      RowProbesCount(g, row, col + 1);
      RowWindowsSplit(g.width, row, col, XmasHit(g));
      CountedAppend(CellProbes(g, row, col), RowProbes(g, row, col + 1),
        CellWindows(row, col, XmasHit(g)), RowWindowsFrom(g.width, row, col + 1, XmasHit(g)));
    }
  }

  lemma {:induction false} GridProbesCount(g: Grid, row: nat)
    requires Valid(g) && XmasSafe(g)
    requires row <= |g.grid|
    ensures AllSuccess(GridProbes(g, row))
    ensures Hits(GridProbes(g, row)) == |WindowsFrom(g.height, g.width, row, XmasHit(g))|
    decreases |g.grid| - row
  {
    var hit := XmasHit(g);
    if row == |g.grid| {
      assert WindowsFrom(g.height, g.width, row, hit) == {};
    } else {
      var here, below := RowProbes(g, row, 0), GridProbes(g, row + 1);
      assert GridProbes(g, row) == here + below;
      RowProbesCount(g, row, 0);
      GridProbesCount(g, row + 1);
      WindowsSplit(g.height, g.width, row, hit);
      CountedAppend(here, below, RowWindowsFrom(g.width, row, 0, hit), WindowsFrom(g.height, g.width, row + 1, hit));
    }
  }

  /** `find_xmas` never fails, and its count is the number of (cell, ray)
      windows of the grid that spell XMAS or SAMX: every straight
      occurrence in any of the eight directions is counted once, from
      whichever end comes first in reading order. */
  lemma FindXmasCountsWindows(g: Grid)
    requires Valid(g) && XmasSafe(g)
    ensures FindXmas(g) == Success(|XmasWindows(g)|)
  {
    var ps := GridProbes(g, 0);
    GridProbesCount(g, 0);
    TryCountSpec(ps, 0);
    assert TryCount(ps, 0) == Success(Hits(ps));
  }

  // ---------------------------------------------------------------------
  // `find_mas_xs`
  // ---------------------------------------------------------------------

  /** The window from (`r`, `c`) along `ray` spells MAS forwards or backwards. */
  ghost predicate MasAt(g: Grid, r: int, c: int, ray: Ray) {
    Spells(g, r, c, ray, "MAS") || Spells(g, r, c, ray, "SAM")
  }

  /** (`r`, `c`) is the centre 'A' of two crossing diagonal MAS words. */
  ghost predicate CrossAt(g: Grid, r: int, c: int) {
    CellAt(g, r, c) == Some('A') && MasAt(g, r - 1, c + 1, SouthWest) && MasAt(g, r - 1, c - 1, SouthEast)
  }

  /** What `find_mas_xs` needs to avoid a `usize` underflow: `height - 1`
      always, and `width - 1` once some row is scanned. */
  predicate MasSafe(g: Grid) {
    g.height >= 1 && (g.height >= 3 ==> g.width >= 1)
  }

  /** The result for one interior cell (the innermost closure). */
  function CrossProbe(g: Grid, row: nat, col: nat): Result<bool, Error>
    requires Valid(g) && 1 <= row && row + 1 < g.height && 1 <= col && col + 1 < g.width
  {
    WordLengths();
    if g.grid[row][col] == 'A' then
      match (CheckDiag(g, row - 1, col + 1, Left, "MAS"), CheckDiag(g, row - 1, col - 1, Right, "MAS"))
      case (Success(left), Success(right)) => Success(left && right)
      case (Failure(el), _) => Failure(el)
      case (_, Failure(er)) => Failure(er)
    else Success(false)
  }

  /** The cells of `row` from `col` up to, not including, the last column
      (`skip(1)` after `take(width - 1)`). */
  function CrossRow(g: Grid, row: nat, col: nat): (rs: seq<Result<bool, Error>>)
    requires Valid(g) && 1 <= row && row + 1 < g.height && 1 <= col
    ensures |rs| == if col + 1 <= g.width then g.width - 1 - col else 0
    decreases g.width - col
  {
    if col + 1 >= g.width then [] else [CrossProbe(g, row, col)] + CrossRow(g, row, col + 1)
  }

  /** The rows from `row` up to, not including, the last row (`skip(1)`
      after `take(height - 1)`). */
  function CrossRows(g: Grid, row: nat): seq<Result<bool, Error>>
    requires Valid(g) && MasSafe(g) && 1 <= row
    decreases g.height - row
  {
    if row + 1 >= g.height then [] else CrossRow(g, row, 1) + CrossRows(g, row + 1)
  }

  /** `find_mas_xs`. */
  function FindMasXs(g: Grid): Result<nat, Error>
    requires Valid(g) && MasSafe(g)
  {
    TryCount(CrossRows(g, 1), 0)
  }

  /** Every cell of the grid that is the centre of a MAS cross. */
  ghost function CrossCenters(g: Grid): set<(int, int)> {
    set r: int, c: int | 0 <= r < g.height && 0 <= c < g.width && CrossAt(g, r, c) :: (r, c)
  }

  ghost function CrossHit(g: Grid): (int, int) -> bool {
    (r, c) => CrossAt(g, r, c)
  }

  /** The interior cells satisfying `hit` in the rows from `row` on. */
  ghost function CentersFrom(height: int, width: int, row: int, hit: (int, int) -> bool): set<(int, int)> {
    set r: int, c: int | row <= r < height - 1 && 1 <= c < width - 1 && hit(r, c) :: (r, c)
  }

  /** ... in row `row`, from column `col` on. */
  ghost function RowCentersFrom(width: int, row: int, col: int, hit: (int, int) -> bool): set<(int, int)> {
    set c: int | col <= c < width - 1 && hit(row, c) :: (row, c)
  }

  lemma RowCentersSplit(width: int, row: int, col: int, hit: (int, int) -> bool)
    requires col < width - 1
    ensures RowCentersFrom(width, row, col, hit) ==
      (if hit(row, col) then {(row, col)} else {}) + RowCentersFrom(width, row, col + 1, hit)
    ensures (if hit(row, col) then {(row, col)} else {}) !! RowCentersFrom(width, row, col + 1, hit)
  {
  }

  lemma CentersSplit(height: int, width: int, row: int, hit: (int, int) -> bool)
    requires row < height - 1
    ensures CentersFrom(height, width, row, hit) == RowCentersFrom(width, row, 1, hit) + CentersFrom(height, width, row + 1, hit)
    ensures RowCentersFrom(width, row, 1, hit) !! CentersFrom(height, width, row + 1, hit)
  {
  }

  lemma ReverseMas()
    ensures Reverse("MAS") == "SAM"
  {
    assert Reverse("MAS")[0] == 'S';
  }

  /** An arm probe whose diagonal stays in the grid answers whether that
      diagonal spells MAS or SAM. */
  lemma CrossArm(g: Grid, row: nat, col: nat, dir: Direction, ray: Ray)
    requires Valid(g) && InGrid(g, row, col) && DiagInside(g, row, col, dir, 3) && ray == RayOf(dir)
    ensures DiagFits(g, row, col, dir, "MAS")
    ensures CheckDiag(g, row, col, dir, "MAS") == Success(MasAt(g, row, col, ray))
  {
    assert Ascii("MAS") && Reverse("MAS") == "SAM" by { WordLengths(); ReverseMas(); }
    CheckDiagAscii(g, row, col, dir, "MAS", "SAM");
  }

  /** The arm probes of an interior cell start inside the grid and reach
      the full comparison. */
  lemma CrossArmLeft(g: Grid, row: nat, col: nat)
    requires Valid(g) && 1 <= row && row + 1 < g.height && 1 <= col && col + 1 < g.width
    ensures CheckDiag(g, row - 1, col + 1, Left, "MAS") == Success(MasAt(g, row - 1, col + 1, SouthWest))
  {
    var r, c := row - 1, col + 1;
    assert InGrid(g, r, c) && DiagInside(g, r, c, Left, 3);
    CrossArm(g, r, c, Left, SouthWest);
  }

  lemma CrossArmRight(g: Grid, row: nat, col: nat)
    requires Valid(g) && 1 <= row && row + 1 < g.height && 1 <= col && col + 1 < g.width
    ensures CheckDiag(g, row - 1, col - 1, Right, "MAS") == Success(MasAt(g, row - 1, col - 1, SouthEast))
  {
    var r, c := row - 1, col - 1;
    assert InGrid(g, r, c) && DiagInside(g, r, c, Right, 3);
    CrossArm(g, r, c, Right, SouthEast);
  }

  /** So the result of an interior cell is never an error, and it is
      whether the cell is a cross centre. */
  lemma CrossProbeValue(g: Grid, row: nat, col: nat)
    requires Valid(g) && 1 <= row && row + 1 < g.height && 1 <= col && col + 1 < g.width
    ensures CrossProbe(g, row, col) == Success(CrossAt(g, row, col))
  {
    if g.grid[row][col] == 'A' {
      CrossArmLeft(g, row, col);
      CrossArmRight(g, row, col);
    }
  }

  lemma {:induction false} CrossRowCount(g: Grid, row: nat, col: nat)
    requires Valid(g) && 1 <= row && row + 1 < g.height && 1 <= col
    ensures AllSuccess(CrossRow(g, row, col))
    ensures Hits(CrossRow(g, row, col)) == |RowCentersFrom(g.width, row, col, CrossHit(g))|
    decreases g.width - col
  {
    var hit := CrossHit(g);
    if col + 1 >= g.width {
      assert RowCentersFrom(g.width, row, col, hit) == {};
    } else {
      var here, rest := [CrossProbe(g, row, col)], CrossRow(g, row, col + 1);
      assert CrossRow(g, row, col) == here + rest;
      CrossProbeValue(g, row, col);
      assert hit(row, col) == CrossAt(g, row, col);
      CrossRowCount(g, row, col + 1);
      assert Hits(here) == Bit(hit(row, col)) by {
        assert here[1..] == [];
      }
      RowCentersSplit(g.width, row, col, hit);
      CountedAppend(here, rest, if hit(row, col) then {(row, col)} else {}, RowCentersFrom(g.width, row, col + 1, hit));
    }
  }

  lemma {:induction false} CrossRowsCount(g: Grid, row: nat)
    requires Valid(g) && MasSafe(g) && 1 <= row
    ensures AllSuccess(CrossRows(g, row))
    ensures Hits(CrossRows(g, row)) == |CentersFrom(g.height, g.width, row, CrossHit(g))|
    decreases g.height - row
  {
    var hit := CrossHit(g);
    if row + 1 >= g.height {
      assert CentersFrom(g.height, g.width, row, hit) == {};
    } else {
      var here, below := CrossRow(g, row, 1), CrossRows(g, row + 1);
      assert CrossRows(g, row) == here + below;
      CrossRowCount(g, row, 1);
      CrossRowsCount(g, row + 1);
      CentersSplit(g.height, g.width, row, hit);
      CountedAppend(here, below, RowCentersFrom(g.width, row, 1, hit), CentersFrom(g.height, g.width, row + 1, hit));
    }
  }

  /** A cross needs a cell on every side of its centre, so only interior
      cells can be centres: the scan of the interior misses none. */
  lemma CentersAreInterior(g: Grid)
    requires Valid(g)
    ensures CrossCenters(g) == CentersFrom(g.height, g.width, 1, CrossHit(g))
  {
    forall r: int, c: int | 0 <= r < g.height && 0 <= c < g.width && CrossAt(g, r, c)
      ensures 1 <= r < g.height - 1 && 1 <= c < g.width - 1
    {
      assert Spells(g, r - 1, c + 1, SouthWest, "MAS") || Spells(g, r - 1, c + 1, SouthWest, "SAM");
      assert Spells(g, r - 1, c - 1, SouthEast, "MAS") || Spells(g, r - 1, c - 1, SouthEast, "SAM");
      assert CellAt(g, RowAt(r - 1, SouthWest, 0), ColAt(c + 1, SouthWest, 0)).Some?;
      assert CellAt(g, RowAt(r - 1, SouthWest, 2), ColAt(c + 1, SouthWest, 2)).Some?;
      assert CellAt(g, RowAt(r - 1, SouthEast, 0), ColAt(c - 1, SouthEast, 0)).Some?;
    }
  }

  /** `find_mas_xs` never fails, and its count is the number of cells of
      the grid that are centres of a MAS cross. */
  lemma FindMasXsCountsCrosses(g: Grid)
    requires Valid(g) && MasSafe(g)
    ensures FindMasXs(g) == Success(|CrossCenters(g)|)
  {
    CrossRowsCount(g, 1);
    TryCountSpec(CrossRows(g, 1), 0);
    CentersAreInterior(g);
  }

  lemma {:induction false} HitsAtMostLength<E>(results: seq<Result<bool, E>>)
    ensures Hits(results) <= |results|
    decreases |results|
  {
    if |results| > 0 {
      HitsAtMostLength(results[1..]);
    }
  }

  /** The number of interior columns. */
  function InnerWidth(g: Grid): nat {
    if g.width >= 2 then g.width - 2 else 0
  }

  lemma {:induction false} CrossRowsLength(g: Grid, row: nat)
    requires Valid(g) && MasSafe(g) && 1 <= row
    ensures |CrossRows(g, row)| == if row + 1 <= g.height then (g.height - 1 - row) * InnerWidth(g) else 0
    decreases g.height - row
  {
    if row + 1 < g.height {
      CrossRowsLength(g, row + 1);
      calc {
        |CrossRows(g, row)|;
        |CrossRow(g, row, 1)| + |CrossRows(g, row + 1)|;
        InnerWidth(g) + (g.height - 2 - row) * InnerWidth(g);
        (g.height - 1 - row) * InnerWidth(g);
      }
    }
  }

  /** The number of interior cells of the grid. */
  function InteriorSize(g: Grid): nat {
    if g.height >= 2 && g.width >= 2 then (g.height - 2) * (g.width - 2) else 0
  }

  /** `find_mas_xs` counts at most one per interior cell. */
  lemma FindMasXsBound(g: Grid)
    requires Valid(g) && MasSafe(g)
    ensures FindMasXs(g).Success? && FindMasXs(g).value <= InteriorSize(g)
  {
    CrossRowsCount(g, 1);
    TryCountSpec(CrossRows(g, 1), 0);
    CrossRowsLength(g, 1);
    HitsAtMostLength(CrossRows(g, 1));
    if g.height >= 2 {
      assert |CrossRows(g, 1)| == (g.height - 2) * InnerWidth(g);
      if g.width < 2 {
        assert InnerWidth(g) == 0;
      }
    }
  }

  // ---------------------------------------------------------------------
  // `part_1` and `part_2`: parse, then count
  // ---------------------------------------------------------------------

  /** `part_1`, on the corrected parser: fails exactly on empty or ragged
      input, and otherwise counts the XMAS windows of the grid. */
  function SolvePart1(lines: seq<seq<char>>): (r: Result<nat, Error>)
    requires ParseGrid(lines).Success? ==> XmasSafe(ParseGrid(lines).value)
    ensures r.Failure? <==> |lines| == 0 || !Rectangular(lines)
    ensures r.Success? ==> r.value == |XmasWindows(Grid(lines, |lines[0]|, |lines|))|
  {
    ParseGridSpec(lines);
    match ParseGrid(lines)
    case Failure(e) => Failure(e)
    case Success(g) => FindXmasCountsWindows(g); FindXmas(g)
  }

  /** `part_2`, on the corrected parser: fails exactly on empty or ragged
      input, and otherwise counts the MAS crosses of the grid. */
  function SolvePart2(lines: seq<seq<char>>): (r: Result<nat, Error>)
    requires ParseGrid(lines).Success? ==> MasSafe(ParseGrid(lines).value)
    ensures r.Failure? <==> |lines| == 0 || !Rectangular(lines)
    ensures r.Success? ==>
      r.value == |CrossCenters(Grid(lines, |lines[0]|, |lines|))| &&
      r.value <= InteriorSize(Grid(lines, |lines[0]|, |lines|))
  {
    ParseGridSpec(lines);
    match ParseGrid(lines)
    case Failure(e) => Failure(e)
    case Success(g) => FindMasXsCountsCrosses(g); FindMasXsBound(g); FindMasXs(g)
  }
}
