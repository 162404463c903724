/**
 * List distance and similarity: each input line holds two integers
 * separated by three spaces, giving a left and a right list. The distance
 * pairs the two lists after sorting each and sums the gaps; the
 * similarity weighs every left value by how often it occurs on the right.
 */
module ListDistance {
  import opened Wrappers

  // ---------------------------------------------------------------------
  // Parsing
  // ---------------------------------------------------------------------

  const Separator: string := "   "
  const I32Min: int := -0x8000_0000
  const I32Max: int := 0x7fff_ffff

  predicate InI32(n: int) {
    I32Min <= n <= I32Max
  }

  /** `sep` occurs in `s` starting at index `i`. */
  predicate OccursAt(s: string, sep: string, i: int) {
    0 <= i && i + |sep| <= |s| && s[i..i + |sep|] == sep
  }

  /** The first occurrence of `sep` in `s` at or after `i`. */
  function FindFrom(s: string, sep: string, i: nat): (r: Option<nat>)
    requires i <= |s|
    ensures r.Some? ==> i <= r.value && OccursAt(s, sep, r.value)
    ensures r.Some? ==> forall j :: i <= j < r.value ==> !OccursAt(s, sep, j)
    ensures r.None? ==> forall j :: i <= j <= |s| ==> !OccursAt(s, sep, j)
    decreases |s| - i
  {
    if OccursAt(s, sep, i) then Some(i)
    else if i == |s| then None
    else FindFrom(s, sep, i + 1)
  }

  /** `str::split_once`: the text before and after the first occurrence
      of `sep`, or nothing when `sep` does not occur. */
  function SplitOnce(s: string, sep: string): (r: Option<(string, string)>)
    ensures r.Some? ==> s == r.value.0 + sep + r.value.1
    ensures r.Some? ==> forall j :: 0 <= j < |r.value.0| ==> !OccursAt(s, sep, j)
    ensures r.None? <==> forall j :: 0 <= j <= |s| ==> !OccursAt(s, sep, j)
  {
    match FindFrom(s, sep, 0)
    case None => None
    case Some(i) =>
      assert s == s[..i] + sep + s[i + |sep|..] by {
        assert s[i..i + |sep|] == sep;
        assert s == s[..i] + s[i..i + |sep|] + s[i + |sep|..];
      }
      Some((s[..i], s[i + |sep|..]))
  }

  predicate IsDigit(c: char) {
    '0' <= c <= '9'
  }

  predicate AllDigits(s: string) {
    forall i :: 0 <= i < |s| ==> IsDigit(s[i])
  }

  function DigitValue(c: char): nat
    requires IsDigit(c)
  {
    (c as int) - ('0' as int)
  }

  /** The value of a string of decimal digits, most significant first. */
  function DigitsValue(s: string): nat
    requires AllDigits(s)
    decreases |s|
  {
    if |s| == 0 then 0 else DigitsValue(s[..|s| - 1]) * 10 + DigitValue(s[|s| - 1])
  }

  /** `str::parse::<i32>`: an optional `+` or `-`, then one or more decimal
      digits, whose value must fit in 32 bits; anything else is an error. */
  function ParseI32(s: string): (r: Option<int>)
    ensures r.Some? ==> InI32(r.value)
  {
    if |s| == 0 then None
    else
      var negative := s[0] == '-';
      var digits := if s[0] == '-' || s[0] == '+' then s[1..] else s;
      if |digits| == 0 || !AllDigits(digits) then None
      else
        var v: int := if negative then 0 - DigitsValue(digits) else DigitsValue(digits);
        if InI32(v) then Some(v) else None
  }

  /** One input line: split at the first three-space separator, parse
      both halves. `None` where the source's `unwrap` panics. */
  function ParseLine(line: string): Option<(int, int)> {
    match SplitOnce(line, Separator)
    case None => None
    case Some((d1, d2)) =>
      match (ParseI32(d1), ParseI32(d2))
      case (Some(a), Some(b)) => Some((a, b))
      case _ => None
  }

  /** `parse_lists`: every line parsed, the pairs unzipped into the two
      lists. `None` when any line does not parse. */
  function ParseLists(lines: seq<string>): (r: Option<(seq<int>, seq<int>)>)
    ensures r.Some? <==> forall i :: 0 <= i < |lines| ==> ParseLine(lines[i]).Some?
    ensures r.Some? ==> |r.value.0| == |lines| && |r.value.1| == |lines|
    ensures r.Some? ==> forall i :: 0 <= i < |lines| ==> ParseLine(lines[i]) == Some((r.value.0[i], r.value.1[i]))
    decreases |lines|
  {
    if |lines| == 0 then Some(([], []))
    else
      var head := ParseLine(lines[0]);
      var tail := ParseLists(lines[1..]);
      if head.None? || tail.None? then None
      else Some(([head.value.0] + tail.value.0, [head.value.1] + tail.value.1))
  }

  // ---------------------------------------------------------------------
  // Formatting, the inverse of parsing
  // ---------------------------------------------------------------------

  function DigitChar(d: nat): (c: char)
    requires d < 10
    ensures IsDigit(c) && DigitValue(c) == d
  {
    ('0' as int + d) as char
  }

  /** The decimal digits of `n`, most significant first, no leading zero. */
  function FormatNat(n: nat): (s: string)
    ensures |s| > 0 && AllDigits(s)
    decreases n
  {
    if n < 10 then [DigitChar(n)] else FormatNat(n / 10) + [DigitChar(n % 10)]
  }

  function FormatInt(n: int): (s: string)
    ensures |s| > 0 && forall i :: 0 <= i < |s| ==> s[i] != ' '
  {
    if n < 0 then "-" + FormatNat(-n) else FormatNat(n)
  }

  /** A line as the input writes it. */
  function FormatLine(a: int, b: int): string {
    FormatInt(a) + Separator + FormatInt(b)
  }

  lemma {:induction false} DigitsValueFormatNat(n: nat)
    ensures DigitsValue(FormatNat(n)) == n
    decreases n
  {
    if n >= 10 {
      var s := FormatNat(n);
      DigitsValueFormatNat(n / 10);
      assert s[..|s| - 1] == FormatNat(n / 10);
    }
  }

  /** Parsing a formatted integer gives it back when it fits in 32 bits,
      and is an error otherwise. */
  lemma ParseFormatInt(n: int)
    ensures ParseI32(FormatInt(n)) == if InI32(n) then Some(n) else None
  {
    if n < 0 {
      DigitsValueFormatNat(-n);
      var s := FormatInt(n);
      assert s[1..] == FormatNat(-n);
    } else {
      DigitsValueFormatNat(n);
      var s := FormatNat(n);
      assert s[0] != '-' && s[0] != '+' by { assert IsDigit(s[0]); }
    }
  }

  /** Parsing a formatted line gives back both numbers. */
  lemma ParseFormatLine(a: int, b: int)
    requires InI32(a) && InI32(b)
    ensures ParseLine(FormatLine(a, b)) == Some((a, b))
  {
    var fa, fb := FormatInt(a), FormatInt(b);
    var s := FormatLine(a, b);
    assert OccursAt(s, Separator, |fa|) by {
      assert s[|fa|..|fa| + 3] == Separator;
    }
    var r := SplitOnce(s, Separator);
    var d1 := r.value.0;
    forall j | 0 <= j < |fa| ensures !OccursAt(s, Separator, j) {
      assert s[j] == fa[j] != ' ';
      assert s[j..j + 3][0] == s[j];
    }
    assert OccursAt(s, Separator, |d1|) by {
      assert s == d1 + Separator + r.value.1;
      assert s[|d1|..|d1| + 3] == Separator;
    }
    assert d1 == s[..|fa|] == fa;
    assert r.value.1 == s[|fa| + 3..] == fb;
    ParseFormatInt(a);
    ParseFormatInt(b);
  }

  /** Parsing the formatted lines of two equally long lists of 32-bit
      integers gives back both lists. */
  lemma ParseFormatLists(l1: seq<int>, l2: seq<int>)
    requires |l1| == |l2|
    requires forall i :: 0 <= i < |l1| ==> InI32(l1[i]) && InI32(l2[i])
    ensures ParseLists(seq(|l1|, i requires 0 <= i < |l1| => FormatLine(l1[i], l2[i]))) == Some((l1, l2))
  {
    var lines := seq(|l1|, i requires 0 <= i < |l1| => FormatLine(l1[i], l2[i]));
    forall i | 0 <= i < |lines| ensures ParseLine(lines[i]) == Some((l1[i], l2[i])) {
      ParseFormatLine(l1[i], l2[i]);
    }
    var r := ParseLists(lines);
    assert r.value.0 == l1;
    assert r.value.1 == l2;
  }

  // ---------------------------------------------------------------------
  // Sorting
  // ---------------------------------------------------------------------

  predicate Sorted(s: seq<int>) {
    forall i, j :: 0 <= i < j < |s| ==> s[i] <= s[j]
  }

  function Insert(x: int, s: seq<int>): (r: seq<int>)
    requires Sorted(s)
    ensures Sorted(r)
    ensures multiset(r) == multiset(s) + multiset{x}
    ensures forall i :: 0 <= i < |r| ==> r[i] == x || r[i] in s
    decreases |s|
  {
    if |s| == 0 || x <= s[0] then
      SortedCons(x, s);
      [x] + s
    else
      SortedTail(s);
      var rest := Insert(x, s[1..]);
      InsertAfterHead(x, s, rest);
      [s[0]] + rest
  }

  lemma SortedTail(s: seq<int>)
    requires Sorted(s) && |s| > 0
    ensures Sorted(s[1..])
  {
  }

  /** Putting the head back in front of an insertion into the tail. */
  lemma InsertAfterHead(x: int, s: seq<int>, rest: seq<int>)
    requires Sorted(s) && |s| > 0 && s[0] < x
    requires Sorted(rest)
    requires multiset(rest) == multiset(s[1..]) + multiset{x}
    requires forall i :: 0 <= i < |rest| ==> rest[i] == x || rest[i] in s[1..]
    ensures Sorted([s[0]] + rest)
    ensures multiset([s[0]] + rest) == multiset(s) + multiset{x}
    ensures forall i :: 0 <= i < |[s[0]] + rest| ==> ([s[0]] + rest)[i] == x || ([s[0]] + rest)[i] in s
  {
    assert s == [s[0]] + s[1..];
    forall k | 0 <= k < |rest| ensures s[0] <= rest[k] {
      if rest[k] != x {
        var j :| 0 <= j < |s[1..]| && s[1..][j] == rest[k];
        assert s[0] <= s[j + 1];
      }
    }
    SortedCons(s[0], rest);
  }

  lemma SortedCons(h: int, t: seq<int>)
    requires Sorted(t)
    requires forall k :: 0 <= k < |t| ==> h <= t[k]
    ensures Sorted([h] + t)
  {
    var r := [h] + t;
    forall i, j | 0 <= i < j < |r| ensures r[i] <= r[j] {
      if i == 0 { assert r[j] == t[j - 1]; } else { assert r[i] == t[i - 1] && r[j] == t[j - 1]; }
    }
  }

  /** `.sorted()`: an ascending permutation. */
  function Sort(s: seq<int>): (r: seq<int>)
    ensures Sorted(r)
    ensures multiset(r) == multiset(s)
    decreases |s|
  {
    if |s| == 0 then []
    else
      assert s == [s[0]] + s[1..];
      Insert(s[0], Sort(s[1..]))
  }

  /** Two ascending sequences with the same elements are equal: the
      sorted list does not depend on the sorting algorithm. */
  lemma {:induction false} SortedUnique(a: seq<int>, b: seq<int>)
    requires Sorted(a) && Sorted(b) && multiset(a) == multiset(b)
    ensures a == b
    decreases |a|
  {
    assert |a| == |multiset(a)| == |b|;
    if |a| > 0 {
      SortedHeads(a, b);
      DropHead(a);
      DropHead(b);
      SortedUnique(a[1..], b[1..]);
      assert a == [a[0]] + a[1..];
      assert b == [b[0]] + b[1..];
    }
  }

  /** Ascending sequences with the same elements start alike. */
  lemma SortedHeads(a: seq<int>, b: seq<int>)
    requires Sorted(a) && Sorted(b) && multiset(a) == multiset(b) && |a| > 0 && |b| > 0
    ensures a[0] == b[0]
  {
    assert a[0] in multiset(b);
    assert b[0] in multiset(a);
    var i :| 0 <= i < |b| && b[i] == a[0];
    var j :| 0 <= j < |a| && a[j] == b[0];
    assert b[0] <= b[i] && a[0] <= a[j];
  }

  lemma DropHead(a: seq<int>)
    requires Sorted(a) && |a| > 0
    ensures Sorted(a[1..])
    ensures multiset(a[1..]) == multiset(a) - multiset{a[0]}
  {
    assert a == [a[0]] + a[1..];
  }

  // ---------------------------------------------------------------------
  // Part 1: distance
  // ---------------------------------------------------------------------

  function Abs(x: int): nat {
    if x < 0 then -x else x
  }

  /** `zip` then fold: the sum of the gaps between paired entries, as far
      as the shorter sequence goes. */
  function SumAbsDiff(a: seq<int>, b: seq<int>): nat
    decreases |a|
  {
    if |a| == 0 || |b| == 0 then 0 else Abs(a[0] - b[0]) + SumAbsDiff(a[1..], b[1..])
  }

  /** `part_1` on the parsed lists. */
  function TotalDistance(l1: seq<int>, l2: seq<int>): nat {
    SumAbsDiff(Sort(l1), Sort(l2))
  }

  function Part1(lines: seq<string>): Option<int> {
    match ParseLists(lines)
    case None => None
    case Some((l1, l2)) => Some(TotalDistance(l1, l2))
  }

  /** The gaps sum to zero exactly when the paired prefixes agree. */
  lemma {:induction false} SumAbsDiffZero(a: seq<int>, b: seq<int>)
    requires |a| == |b|
    ensures SumAbsDiff(a, b) == 0 <==> a == b
    decreases |a|
  {
    if |a| > 0 {
      SumAbsDiffZero(a[1..], b[1..]);
      assert a == [a[0]] + a[1..];
      assert b == [b[0]] + b[1..];
    }
  }

  /** The distance is the gap sum over ANY ascending arrangement of each
      list: it depends on the lists' contents only. */
  lemma TotalDistanceOfSorted(l1: seq<int>, l2: seq<int>, a: seq<int>, b: seq<int>)
    requires Sorted(a) && multiset(a) == multiset(l1)
    requires Sorted(b) && multiset(b) == multiset(l2)
    ensures TotalDistance(l1, l2) == SumAbsDiff(a, b)
  {
    SortedUnique(Sort(l1), a);
    SortedUnique(Sort(l2), b);
  }

  /** Reordering either input list does not change the distance. */
  lemma TotalDistancePermutation(l1: seq<int>, l2: seq<int>, m1: seq<int>, m2: seq<int>)
    requires multiset(l1) == multiset(m1) && multiset(l2) == multiset(m2)
    ensures TotalDistance(l1, l2) == TotalDistance(m1, m2)
  {
    TotalDistanceOfSorted(m1, m2, Sort(l1), Sort(l2));
  }

  /** Two lists of equal length are at distance zero exactly when one is
      a permutation of the other. */
  lemma TotalDistanceZero(l1: seq<int>, l2: seq<int>)
    requires |l1| == |l2|
    ensures TotalDistance(l1, l2) == 0 <==> multiset(l1) == multiset(l2)
  {
    var a, b := Sort(l1), Sort(l2);
    assert |a| == |multiset(a)| == |l1|;
    assert |b| == |multiset(b)| == |l2|;
    SumAbsDiffZero(a, b);
    if multiset(l1) == multiset(l2) {
      SortedUnique(a, b);
    }
  }

  // ---------------------------------------------------------------------
  // Part 2: similarity
  // ---------------------------------------------------------------------

  /** Every value's occurrence count in `l`; nothing else is a key. */
  ghost predicate CountsOf(counts: map<int, nat>, l: seq<int>) {
    (forall v :: v in counts <==> v in l) &&
    forall v :: v in counts ==> counts[v] == multiset(l)[v]
  }

  /** The counting loop of `part_2`: `*counts.entry(c).or_insert(0) += 1`
      for every `c` of `l2`, in order. */
  method CountOccurrences(l2: seq<int>) returns (counts: map<int, nat>)
    ensures CountsOf(counts, l2)
  {
    counts := map[];
    for i := 0 to |l2|
      invariant CountsOf(counts, l2[..i])
    {
      var c := l2[i];
      var current := if c in counts then counts[c] else 0;
      counts := counts[c := current + 1];
      assert l2[..i + 1] == l2[..i] + [c];
    }
    assert l2[..|l2|] == l2;
  }

  /** `l1.map(|v| v * counts.get(&v).unwrap_or(&0)).sum()`. */
  function SimilarityWith(l1: seq<int>, counts: map<int, nat>): int
    decreases |l1|
  {
    if |l1| == 0 then 0
    else
      var v := l1[0];
      v * (if v in counts then counts[v] else 0) + SimilarityWith(l1[1..], counts)
  }

  /** Reference similarity: every left value times its number of
      occurrences on the right. */
  function Similarity(l1: seq<int>, l2: seq<int>): int
    decreases |l1|
  {
    if |l1| == 0 then 0 else l1[0] * multiset(l2)[l1[0]] + Similarity(l1[1..], l2)
  }

  /** A value that does not occur contributes nothing, so the counted sum is
      the reference similarity. */
  lemma {:induction false} SimilarityWithCounts(l1: seq<int>, l2: seq<int>, counts: map<int, nat>)
    requires CountsOf(counts, l2)
    ensures SimilarityWith(l1, counts) == Similarity(l1, l2)
    decreases |l1|
  {
    if |l1| > 0 {
      SimilarityWithCounts(l1[1..], l2, counts);
      var v := l1[0];
      if v !in counts {
        assert v in counts <==> v in l2;
        assert v !in multiset(l2);
      }
    }
  }

  /** `part_2`: parse, count the right list, sum the weighted left list. */
  method Part2(lines: seq<string>) returns (r: Option<int>)
    ensures r.Some? <==> forall i :: 0 <= i < |lines| ==> ParseLine(lines[i]).Some?
    ensures r.Some? ==> r.value == Similarity(ParseLists(lines).value.0, ParseLists(lines).value.1)
  {
    match ParseLists(lines)
    case None =>
      r := None;
    case Some((l1, l2)) =>
      var counts := CountOccurrences(l2);
      SimilarityWithCounts(l1, l2, counts);
      r := Some(SimilarityWith(l1, counts));
  }

  lemma Distribute(x: int, p: int, q: int)
    ensures x * (p + q) == x * p + x * q
  {
  }

  /** Adding a value `y` to the right list adds `y` once for each of its
      occurrences on the left. */
  lemma {:induction false} SimilarityConsRight(a: seq<int>, y: int, b: seq<int>)
    ensures Similarity(a, [y] + b) == Similarity(a, b) + y * multiset(a)[y]
    decreases |a|
  {
    if |a| > 0 {
      var x, t := a[0], a[1..];
      var e := if x == y then 1 else 0;
      SimilarityConsRight(t, y, b);
      assert a == [x] + t;
      assert multiset([y] + b)[x] == multiset(b)[x] + e;
      assert multiset(a)[y] == multiset(t)[y] + e;
      Distribute(x, multiset(b)[x], e);
      Distribute(y, multiset(t)[y], e);
      assert x * e == y * e;
    }
  }

  lemma {:induction false} SimilarityEmptyRight(a: seq<int>)
    ensures Similarity(a, []) == 0
    decreases |a|
  {
    if |a| > 0 {
      SimilarityEmptyRight(a[1..]);
    }
  }

  /** The similarity treats the two lists alike: it is the sum, over all
      values, of the value times both occurrence counts. */
  lemma {:induction false} SimilaritySymmetric(a: seq<int>, b: seq<int>)
    ensures Similarity(a, b) == Similarity(b, a)
    decreases |b|
  {
    if |b| == 0 {
      SimilarityEmptyRight(a);
    } else {
      assert b == [b[0]] + b[1..];
      SimilaritySymmetric(a, b[1..]);
      SimilarityConsRight(a, b[0], b[1..]);
      assert Similarity(b, a) == b[0] * multiset(a)[b[0]] + Similarity(b[1..], a);
      assert Similarity(a, b) == Similarity(a, b[1..]) + b[0] * multiset(a)[b[0]];
    }
  }
}
