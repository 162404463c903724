# Advent of Code 2024, days 1, 2 and 4: a verified model

This project models three small puzzle solvers of the `AoC_2024` repository in Dafny and proves what they compute.

- **Grid word search** (`src/bin/04.rs`, module `WordSearch`, file `word_search.dfy`).
  - `WordSearch::from_str` turns lines of text into a character grid with a width and a height.
  - `check_index`, `check_right`, `check_down` and `check_diag` are bounds-checked probes. Each reads a short word along a row, a column or a downward diagonal.
  - `find_xmas` counts the "XMAS"/"SAMX" windows.
  - `find_mas_xs` counts the "MAS" crosses.
  - Both counts are modelled as the source writes them: a flat sequence of probe results reduced by `try_fold`. Each is proved equal to a set cardinality over the grid's windows or cells.
- **Report safety** (`src/bin/02.rs`, module `ReportSafety`, file `report_safety.dfy`, test data in `report_safety_examples.dfy`).
  - `is_ok` walks a report of levels recursively, with an optional budget of one skipped level.
  - The per-report tests of `part_1`, `part_2` and `part_2_brute` are modelled, and so are the three counts. `part_2_brute`'s removal loop is a method with a loop invariant.
- **List distance and similarity** (`src/bin/01.rs`, module `ListDistance`, file `list_distance.dfy`, test data in `list_distance_examples.dfy`).
  - `parse_lists` splits each line at its first three-space separator and parses two `i32`s.
  - `part_1` sums the gaps between the two sorted lists.
  - `part_2` counts the right list into a map in a loop, then sums every left value times its count. The loop is a method whose invariant says the map holds the multiplicities of the prefix seen so far.

`wrappers.dfy` holds the `Option`, `Result` and `Outcome` datatypes.

Inputs are taken already split into lines: a grid is `seq<seq<char>>`, a report is `seq<int>`, and the list input is `seq<string>`. A Rust panic on a path the model covers (`unwrap` on a bad number, a `usize` subtraction that would underflow, `levels[0]` of an empty report) becomes one of two things:
- an error value (`None`), where the panic comes from malformed input text;
- a precondition that applies only on the path where the source evaluates the failing expression.

Two behaviours of `from_str` are kept as the code has them:
- `from_str` rejects an input with no lines: the width fold over no lines yields `None`, and `.context(..)?` turns that into an error.
- `from_str` does not reject every input whose lines differ in length (see Findings).

`check_diag` measures its word with `str::len()`, which counts UTF-8 bytes, not characters. The model does the same (`Utf8Len`): for a non-ASCII word the guards and the number of cells read use the byte length, so such a word is never found.

## Model

| member | source | states |
|---|---|---|
| WordSearch.FromStrSpec | src/bin/04.rs:162-178 | No lines is an error; lines of one common length are accepted with that width and the line count as height, as a valid grid; anything accepted has the line count as height and the last line's length as width |
| WordSearch.FoldWidthIsLastLength | src/bin/04.rs:165-171 | Whenever the width fold ends with a width, it is the length of the last line folded |
| WordSearch.FoldWidthUniform | src/bin/04.rs:165-171 | Folding lines of one common length yields that length |
| WordSearch.FromStrAcceptsRagged | src/bin/04.rs:165-171 | The fold restarts after a mismatch, so `["A","BB","CCC"]` is accepted as a 3×3 grid that is not rectangular |
| WordSearch.StrictFoldWidthSpec | src/bin/04.rs:165-171 | The corrected fold keeps the width iff every remaining line has it, otherwise ends in a final mismatch |
| WordSearch.MismatchIsFinal | src/bin/04.rs:165-171 | In the corrected fold a mismatch is never undone |
| WordSearch.ParseGridSpec | src/bin/04.rs:162-178 | The corrected parser succeeds iff there is at least one line and all lines have the same length; its grid is valid with the first line's length as width and the line count as height |
| WordSearch.FromStrAgreesWithParseGrid | src/bin/04.rs:162-178 | On every input the corrected parser accepts, `from_str` builds the same grid |
| WordSearch.CheckIndex | src/bin/04.rs:92-98 | Passes iff `row < height && col < width`, and otherwise fails with the not-in-grid error; on a valid grid, passing means both indices are in range of the actual rows |
| WordSearch.CheckRightSpec | src/bin/04.rs:100-108 | Fails exactly off the grid; false when fewer than four columns remain; otherwise true iff `grid[row][col..col+4]` is "XMAS" or "SAMX", i.e. iff the cells eastward spell one of them |
| WordSearch.CheckDownSpec | src/bin/04.rs:111-120 | Fails exactly off the grid; false when fewer than four rows remain; otherwise true iff the four cells downward spell "XMAS" or "SAMX" |
| WordSearch.DiagCells | src/bin/04.rs:148-153 | When the diagonal fits, the `n` cells read, including the Left column's `saturating_sub`, are exactly the grid cells along the down-left or down-right ray; no index saturates or leaves the grid |
| WordSearch.OffGridSpellsNothing | src/bin/04.rs:129-146 | A ray that leaves the grid within the word's length spells neither the word nor its reverse, which justifies the three early `Ok(false)` returns |
| WordSearch.CheckDiagSpec | src/bin/04.rs:124-156 | Fails exactly off the grid; false when a diagonal of the word's byte length would cross the bottom, the left edge (Left) or the right edge (Right); otherwise true iff the word is ASCII and the cells along the diagonal spell it or its reverse |
| WordSearch.CheckDiagInside | src/bin/04.rs:148-155 | When a diagonal of the word's byte length fits, the probe succeeds, and it answers true iff the word is ASCII and the cells spell it or its reverse |
| WordSearch.CheckDiagAscii | src/bin/04.rs:124-156 | For an ASCII word (non-empty when going Left) whose diagonal stays in the grid, the probe's precondition holds and it succeeds with whether the cells spell the word or its reverse |
| WordSearch.CheckDiagReverse | src/bin/04.rs:127-155 | Probing for the reversed word gives the same result as probing for the word |
| WordSearch.Reverse | src/bin/04.rs:127 | `word.chars().rev()`: the same length, with element `i` taken from position `len-1-i` |
| WordSearch.Utf8Len | src/bin/04.rs:130 | `word.len()` is the UTF-8 byte length, never less than the number of characters |
| WordSearch.Utf8LenAscii | src/bin/04.rs:130 | The byte length equals the number of characters iff every character is ASCII |
| WordSearch.Utf8LenReverse | src/bin/04.rs:127-130 | The reversed word has the same byte length as the word |
| WordSearch.WordLengths | src/bin/04.rs:81-82 | The words the solvers pass, "XMAS" here and "MAS" at lines 56-57, are ASCII, with byte lengths 4 and 3 |
| WordSearch.TryCountSpec | src/bin/04.rs:89 | The `try_fold` fails iff some result is an error, and otherwise adds the number of `Ok(true)` results to the initial count |
| WordSearch.XmasStartsWithEnd | src/bin/04.rs:77 | A window spelling XMAS or SAMX starts at an 'X' or 'S' cell, so probing only those cells misses none |
| WordSearch.CellProbesValues | src/bin/04.rs:76-86 | From an 'X' or 'S' cell the four probes (down, right, diag Left, diag Right) succeed and answer whether the window along each ray spells XMAS or SAMX |
| WordSearch.OtherCellCount | src/bin/04.rs:84-86 | Any other cell contributes no probe and starts no window |
| WordSearch.EndCellCount | src/bin/04.rs:77-83 | An 'X'/'S' cell's probes all succeed, and their hits are the windows starting there |
| WordSearch.CellProbesCount | src/bin/04.rs:76-87 | For every cell, the probes succeed and their hits equal the windows starting at that cell |
| WordSearch.RowProbesCount | src/bin/04.rs:76-88 | The probes of a row from a column on succeed and hit exactly that row's windows from that column on |
| WordSearch.GridProbesCount | src/bin/04.rs:72-88 | The probes of the rows from a row on succeed and hit exactly the windows of those rows |
| WordSearch.FindXmasCountsWindows | src/bin/04.rs:71-90 | On a valid grid where no underflow is reached, `find_xmas` never fails and returns the number of (first cell, ray) windows spelling XMAS or SAMX |
| WordSearch.CrossRow | src/bin/04.rs:47-51 | `take(width-1).skip(1)` visits the columns `col..width-2`, so there are `width-1-col` results (none if `width-1 < col`) |
| WordSearch.CrossArm | src/bin/04.rs:56-57 | An arm probe whose diagonal stays in the grid meets the probe's precondition and answers whether that diagonal spells MAS or SAM |
| WordSearch.CrossArmLeft | src/bin/04.rs:56 | For an interior cell the left arm probe starts in the grid, fits, and answers whether that diagonal spells MAS or SAM |
| WordSearch.CrossArmRight | src/bin/04.rs:57 | The same for the right arm |
| WordSearch.CrossProbeValue | src/bin/04.rs:52-65 | The result for an interior cell is never an error, and is true iff the cell is an 'A' centring two crossing MAS/SAM diagonals |
| WordSearch.CrossRowCount | src/bin/04.rs:47-66 | One row's interior results succeed and count that row's cross centres |
| WordSearch.CrossRowsCount | src/bin/04.rs:41-67 | The interior rows' results succeed and count their cross centres |
| WordSearch.CentersAreInterior | src/bin/04.rs:44-51 | Cross centres can only be interior cells, so skipping the border rows and columns misses none |
| WordSearch.FindMasXsCountsCrosses | src/bin/04.rs:40-69 | `find_mas_xs` never fails and returns the number of cross centres of the grid |
| WordSearch.CrossRowsLength | src/bin/04.rs:44-51 | The interior scan yields `(height-2)*(width-2)` results, or none on a grid without interior |
| WordSearch.FindMasXsBound | src/bin/04.rs:40-69 | `find_mas_xs` succeeds with at most `(height-2)*(width-2)` |
| WordSearch.SolvePart1 | src/bin/04.rs:18-21 | With the corrected parser: fails iff there are no lines or they differ in length, and otherwise returns the number of XMAS windows |
| WordSearch.SolvePart2 | src/bin/04.rs:23-26 | With the corrected parser: fails iff there are no lines or they differ in length, and otherwise returns the number of MAS crosses, which is at most the interior size |
| WordSearchExamples.NarrowGridRightDiagonal | src/bin/04.rs:129-144 | On a grid two columns wide, a Right probe for XMAS from row 3 meets the model's precondition and answers false at the row guard, before the underflowing `width - len` is reached |
| WordSearchExamples.NonAsciiWord | src/bin/04.rs:130-155 | "ÉA" (É is U+00C9) is 3 bytes long; the diagonal spells it, yet the probe reads three cells and answers false |
| WordSearchExamples.Test1Count | src/bin/04.rs:209-213 | TEST_1 is a valid grid on which no underflow is reached, and `find_xmas` on it succeeds with 4 |
| WordSearchExamples.Part1OnTest1 | src/bin/04.rs:237-240 | `from_str` accepts TEST_1 as six columns by five rows, and `part_1(TEST_1)` is 4, the number of its XMAS/SAMX windows, as `test1` expects |
| ReportSafety.StepTestIsGoodStep | src/bin/02.rs:22-28 | The non-strict order test combined with a jump in `1..=3` is a strict step of at most 3 in that direction |
| ReportSafety.IsOkStrict | src/bin/02.rs:15-54 | With no skip available (strict, or the skip already used), `is_ok` is true iff every adjacent pair of `[previous]+rest` is a good step; an empty `rest` is accepted, and the first bad pair makes it false |
| ReportSafety.IsOkOneSkip | src/bin/02.rs:15-54 | With the skip available, `is_ok` is true iff the report is safe, or, at its first bad step, dropping the later level or drop-and-restart from the later level succeeds strictly |
| ReportSafety.IsOkSkipAcceptsUnsafe | src/bin/02.rs:35-39 | The drop-previous retry is not checked against the level before it, so `[1,4,10,11]` is accepted although no single removal makes it safe |
| ReportSafety.Part1LineSpec | src/bin/02.rs:65-68 | A report passes `part_1`'s test iff it is strictly safe ascending or strictly safe descending |
| ReportSafety.Part1Counts | src/bin/02.rs:56-72 | `part_1` is the number of reports safe in either direction |
| ReportSafety.Part2LineSpec | src/bin/02.rs:83-90 | A report passes `part_2`'s test iff, in one direction, `is_ok` with the skip budget accepts it and the report without its second level is strictly safe |
| ReportSafety.Part2LineSound | src/bin/02.rs:83-90 | Every report `part_2` accepts is safe after one removal |
| ReportSafety.Part2RejectsSafe | src/bin/02.rs:83-90 | `[1,2,5]` is safe, and safe after a removal, yet `part_2` rejects it |
| ReportSafety.Part2AtMostBrute | src/bin/02.rs:74-95 | `part_2` never counts more reports than there are reports safe after one removal |
| ReportSafety.SafeIsDampenedSafe | src/bin/02.rs:106-116 | A report that is safe as it stands is also safe after one removal |
| ReportSafety.DampenedSafeLine | src/bin/02.rs:106-118 | The removal loop with its early `break` answers true iff removing some one level leaves a report safe in some direction; an empty report is unsafe |
| ReportSafety.CountTrue | src/bin/02.rs:70-71 | `.filter(..).count()` is the number of indices whose entry is true |
| ReportSafety.Part2Brute | src/bin/02.rs:97-122 | `part_2_brute` returns the number of reports made safe by removing one level |
| ReportSafetyExamples.Part1OnTest | src/bin/02.rs:128-156 | `part_1(TEST)` is 2 |
| ReportSafetyExamples.BruteOnTest | src/bin/02.rs:128-161 | Four TEST reports are safe after one removal, so `part_2_brute(TEST)` is 4 |
| ReportSafetyExamples.Part2OnProblems | src/bin/02.rs:135-166 | `part_2(PROBLEMS)` is 0 |
| ListDistance.FindFrom | src/bin/01.rs:22 | Finds the first occurrence of the separator at or after an index, or reports that there is none |
| ListDistance.SplitOnce | src/bin/01.rs:22 | `split_once`: the two parts put back together with the separator give the line, and the separator does not occur earlier; nothing when it does not occur at all |
| ListDistance.ParseI32 | src/bin/01.rs:23 | `parse::<i32>` only ever yields values in the 32-bit range |
| ListDistance.ParseFormatInt | src/bin/01.rs:23 | Parsing the decimal form of an integer gives it back when it fits in 32 bits, and fails otherwise |
| ListDistance.ParseFormatLine | src/bin/01.rs:21-24 | A line written as `a` + three spaces + `b` parses back to `(a, b)` |
| ListDistance.ParseLists | src/bin/01.rs:18-26 | Succeeds iff every line parses; the two lists both have one entry per line, and entry `i` of each is the pair parsed from line `i` |
| ListDistance.ParseFormatLists | src/bin/01.rs:18-26 | Parsing the written lines of two equally long lists of 32-bit integers gives back both lists |
| ListDistance.Insert | src/bin/01.rs:32-33 | Inserting into an ascending list keeps it ascending and adds exactly the one element |
| ListDistance.Sort | src/bin/01.rs:32-33 | `.sorted()` yields an ascending permutation |
| ListDistance.SortedUnique | src/bin/01.rs:32-33 | Two ascending lists with the same elements are equal, so the sorted list depends only on the contents |
| ListDistance.SumAbsDiffZero | src/bin/01.rs:33-34 | For equally long lists the summed gaps are 0 iff the lists are equal |
| ListDistance.TotalDistanceOfSorted | src/bin/01.rs:28-35 | `part_1` is the sum of the absolute gaps between any ascending arrangements of the two lists, paired index by index |
| ListDistance.TotalDistancePermutation | src/bin/01.rs:32-34 | Permuting either input list leaves `part_1` unchanged |
| ListDistance.TotalDistanceZero | src/bin/01.rs:28-35 | For lists of equal length, `part_1` is 0 iff one list is a permutation of the other |
| ListDistance.CountOccurrences | src/bin/01.rs:39-42 | After the loop, the map's keys are exactly the values of `l2`, and each value's count is its number of occurrences |
| ListDistance.SimilarityWithCounts | src/bin/01.rs:44-47 | With such a map, `v * counts.get(&v).unwrap_or(&0)` summed over `l1` is the sum of `v * (occurrences of v in l2)`; missing keys contribute 0 |
| ListDistance.Part2 | src/bin/01.rs:37-48 | `part_2` fails iff some line does not parse, and otherwise returns the similarity of the two parsed lists |
| ListDistance.SimilarityConsRight | src/bin/01.rs:44-47 | Adding a value `y` to the right list raises the similarity by `y` times its occurrences on the left |
| ListDistance.SimilaritySymmetric | src/bin/01.rs:44-47 | The similarity is the same with the two lists swapped |
| ListDistanceExamples.ParseTest | src/bin/01.rs:54-59 | The TEST text parses into the left list `[3,4,2,1,3,3]` and the right list `[4,3,5,3,9,3]` |
| ListDistanceExamples.Part1OnTest | src/bin/01.rs:54-64 | `part_1(TEST)` is 11 |
| ListDistanceExamples.Part2OnTest | src/bin/01.rs:54-74 | TEST parses and its similarity is 31, which `Part2`'s contract makes `part_2(TEST)` |
| ListDistanceExamples.ParseI32Malformed | src/bin/01.rs:23 | The empty string, a bare sign, surrounding spaces and a trailing letter are parse errors |
| ListDistanceExamples.ParseI32Signs | src/bin/01.rs:23 | A leading `+` or `-` is accepted |
| ListDistanceExamples.ParseI32Bounds | src/bin/01.rs:23 | `i32::MIN` and `i32::MAX` parse; one beyond either end is an error |

## Left out

- `src/bin/03.rs` is not part of this model. Its parsing is done by the `regex` crate, whose behaviour is not visible here.
- All `main` functions, the `include_str!` inputs, and the `answer*`/`input*` tests. These are I/O: the puzzle inputs are data files that are not part of the repository text.
- The `Debug` and `Display` impls of `WordSearch` (src/bin/04.rs:181-203). They only format output.
- `str::lines()`, including its carriage-return handling. Every input is given already split into lines.
- `split_whitespace` and `parse::<i32>` of the report text in src/bin/02.rs. Reports are given as sequences of integers.
- `i32` arithmetic. Levels, gaps, sums and products are unbounded integers: `current - previous` in `is_ok`, the `part_1` fold of src/bin/01.rs, and the `part_2` sum of products. The source would overflow on extreme inputs; the model does not.
- ListDistance.Part2: returns the mathematical similarity. It does not model `i32` overflow of the products and the sum.
- `usize` underflow is modelled as preconditions. They apply only on the path where the subtraction is reached:
  - `width - 4` and `height - 4` in `check_right`/`check_down`;
  - `height - len` in `check_diag` once the cell is in the grid, and `len - 1` (Left) or `width - len` (Right) only once the row guard has passed (`DiagFits`);
  - `height - 1` and `width - 1` in `find_mas_xs`;
  - the preconditions `XmasSafe` and `MasSafe`.
- Other panics are also preconditions:
  - `levels[0]` on an empty report in `part_1`;
  - `levels[2..]` on a report of fewer than two levels in `part_2`;
  - `skipped[0]` on a report of one level in `part_2_brute`.
- The `unwrap` panics of `parse_lists` are modelled as a `None` result.
- Indexing panics that `from_str`'s ragged grids could cause later in `find_xmas`/`find_mas_xs`. The probes are modelled on rectangular grids (`Valid`), and `SolvePart1`/`SolvePart2` use the corrected parser `ParseGrid`. `from_str` as written is modelled separately (`FromStr`).
- The expected counts of the 10×10 test grids TEST_2 and TEST_3 of src/bin/04.rs (18 and 18 for `find_xmas`, 9 for `find_mas_xs`). The counts are proved in general (`FindXmasCountsWindows`, `FindMasXsCountsCrosses`), but evaluating every probe of a 10×10 grid is beyond the verifier's resource bound. The 5×6 grid TEST_1 is evaluated (`Part1OnTest1`).
- `HashMap` hashing is modelled as a Dafny `map`.
- `.sorted()` is stable. The model sorts with an insertion sort, and `SortedUnique` shows that the result does not depend on the algorithm.

## Findings

| source | as written | input that shows it | evidently intended | confidence | as-written member | corrected member |
|---|---|---|---|---|---|---|
| src/bin/04.rs:165-171 | after a width mismatch the fold's accumulator becomes `None`, and the next line restarts it with its own length, so the mismatch is forgotten | `["A", "BB", "CCC"]` is accepted as a grid of width 3 and height 3 | reject every input whose lines differ in length ("All lines must have the same width") | not executed | WordSearch.FromStrAcceptsRagged | WordSearch.ParseGridSpec |
| src/bin/02.rs:35-39 | the retry that drops `previous` carries on from `current` without checking `current` against the level before `previous` | `is_ok(1, [4, 10, 11], true, true, false)` is true, yet no single removal makes `[1, 4, 10, 11]` safe | accept exactly the reports that removing one level makes safe | not executed | ReportSafety.IsOkSkipAcceptsUnsafe | ReportSafety.DampenedSafeLine |
| src/bin/02.rs:83-90 | `part_2` also demands that the report without its second level be strictly safe | `[1, 2, 5]` is safe, but `[1, 5]` is not, so `part_2` rejects it | count every report that is safe after at most one removal, as `part_2_brute` (the one `main` uses) does | not executed | ReportSafety.Part2RejectsSafe | ReportSafety.Part2Brute |
