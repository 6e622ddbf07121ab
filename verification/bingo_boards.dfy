/**
 * Board parsing (day-04). Every non-empty line after the draw line is
 * cut into numbers: the character at each index `i` with `(i + 1) % 3 == 0`
 * (the column separators of the fixed-width layout) is dropped, the rest
 * is taken two characters at a time, and each pair is trimmed and parsed
 * as an `i8`, panicking on a lone last character or a pair that does not
 * parse. The numbers of every five consecutive non-empty lines are
 * appended, in order, to one flat table.
 */
module BingoBoards {
  import opened Outcome
  import opened Sequences

  /** The characters kept from a board line: those at `i` with `(i + 1) % 3 != 0`. */
  function KeptChars(line: string): (r: string)
  {
    if |line| == 0 then []
    else KeptChars(line[..|line| - 1]) + (if |line| % 3 == 0 then [] else [line[|line| - 1]])
  }

  /** Two of every three characters survive, and the `k`-th kept one sits at `k + k / 2`. */
  lemma {:induction false} KeptCharsIndex(line: string)
    ensures |KeptChars(line)| == |line| - |line| / 3
    ensures forall k :: 0 <= k < |KeptChars(line)| ==> KeptChars(line)[k] == line[k + k / 2]
  {
    if |line| > 0 {
      var prefix := line[..|line| - 1];
      KeptCharsIndex(prefix);
      forall k | 0 <= k < |KeptChars(prefix)|
        ensures KeptChars(line)[k] == line[k + k / 2]
      {
        assert KeptChars(line)[k] == KeptChars(prefix)[k];
      }
    }
  }

  /** The Unicode White_Space code points. */
  const WhiteSpace: set<int> :=
    {0x09, 0x0A, 0x0B, 0x0C, 0x0D, 0x20, 0x85, 0xA0, 0x1680,
     0x2000, 0x2001, 0x2002, 0x2003, 0x2004, 0x2005, 0x2006, 0x2007, 0x2008, 0x2009, 0x200A,
     0x2028, 0x2029, 0x202F, 0x205F, 0x3000}

  /** Rust's `char::is_whitespace`. */
  predicate IsWhitespace(c: char)
  {
    c as int in WhiteSpace
  }

  /**
   * `r` is a slice of `s` with only whitespace before and after it in
   * `s`.
   */
  ghost predicate Stripped(s: string, r: string)
  {
    exists i, j :: 0 <= i <= j <= |s| && r == s[i..j]
      && (forall k :: 0 <= k < i ==> IsWhitespace(s[k])) && (forall k :: j <= k < |s| ==> IsWhitespace(s[k]))
  }

  /**
   * `str::trim`: leading and trailing whitespace removed. The result lies
   * between whitespace in `s` and neither starts nor ends with whitespace,
   * so no more could have been removed.
   */
  function Trim(s: string): (r: string)
    ensures |r| <= |s|
    ensures |r| > 0 ==> !IsWhitespace(r[0]) && !IsWhitespace(r[|r| - 1])
    ensures Stripped(s, r)
  {
    if |s| == 0 then assert s == s[0..0]; s
    else if IsWhitespace(s[0]) then TrimFront(s, Trim(s[1..])); Trim(s[1..])
    else if IsWhitespace(s[|s| - 1]) then TrimBack(s, Trim(s[..|s| - 1])); Trim(s[..|s| - 1])
    else assert s == s[0..|s|]; s
  }

  lemma TrimFront(s: string, r: string)
    requires |s| > 0 && IsWhitespace(s[0]) && Stripped(s[1..], r)
    ensures Stripped(s, r)
  {
    var t := s[1..];
    var i, j :| 0 <= i <= j <= |t| && r == t[i..j]
      && (forall k :: 0 <= k < i ==> IsWhitespace(t[k])) && (forall k :: j <= k < |t| ==> IsWhitespace(t[k]));
    assert r == s[i + 1..j + 1];
    assert forall k :: 0 < k < |s| ==> s[k] == t[k - 1];
  }

  lemma TrimBack(s: string, r: string)
    requires |s| > 0 && IsWhitespace(s[|s| - 1]) && Stripped(s[..|s| - 1], r)
    ensures Stripped(s, r)
  {
    var t := s[..|s| - 1];
    var i, j :| 0 <= i <= j <= |t| && r == t[i..j]
      && (forall k :: 0 <= k < i ==> IsWhitespace(t[k])) && (forall k :: j <= k < |t| ==> IsWhitespace(t[k]));
    assert r == s[i..j];
  }

  predicate IsDigit(c: char)
  {
    '0' <= c <= '9'
  }

  predicate AllDigits(s: string)
  {
    forall k :: 0 <= k < |s| ==> IsDigit(s[k])
  }

  /** The value of a string of decimal digits. */
  function DigitsValue(s: string): (v: nat)
    requires AllDigits(s)
  {
    if |s| == 0 then 0 else 10 * DigitsValue(s[..|s| - 1]) + (s[|s| - 1] as int - '0' as int)
  }

  /**
   * `str::parse::<i8>`: an optional `+` or `-`, then at least one decimal
   * digit, within -128 ..= 127; anything else is an error.
   */
  function ParseI8(s: string): (r: Option<int>)
    ensures r.Some? ==> -128 <= r.value <= 127
  {
    if |s| == 0 then None
    else if s[0] == '-' then
      if |s| > 1 && AllDigits(s[1..]) && DigitsValue(s[1..]) <= 128 then Some(-(DigitsValue(s[1..]) as int)) else None
    else if s[0] == '+' then
      if |s| > 1 && AllDigits(s[1..]) && DigitsValue(s[1..]) <= 127 then Some(DigitsValue(s[1..])) else None
    else if AllDigits(s) && DigitsValue(s) <= 127 then Some(DigitsValue(s))
    else None
  }

  /** The decimal digits of `n`, most significant first, without leading zeros. */
  function Digits(n: nat): (r: string)
    ensures |r| > 0 && AllDigits(r)
  {
    if n < 10 then [('0' as int + n) as char] else Digits(n / 10) + [('0' as int + n % 10) as char]
  }

  /** How an integer is written: a `-` for a negative one, then its digits. */
  function Decimal(n: int): string
  {
    if n < 0 then "-" + Digits(-n) else Digits(n)
  }

  lemma {:induction false} DigitsValueOf(n: nat)
    ensures DigitsValue(Digits(n)) == n
  {
    if n >= 10 {
      DigitsValueOf(n / 10);
    }
  }

  /**
   * `parse::<i8>` reads back every written integer that fits an `i8`, with
   * or without a leading `+` on a non-negative one, and rejects every
   * written integer that does not fit.
   */
  lemma ParseI8RoundTrip(n: int)
    ensures ParseI8(Decimal(n)) == if -128 <= n <= 127 then Some(n) else None
    ensures 0 <= n ==> ParseI8("+" + Decimal(n)) == if n <= 127 then Some(n) else None
  {
    var d := Digits(if n < 0 then -n else n);
    DigitsValueOf(if n < 0 then -n else n);
    if n < 0 {
      assert Decimal(n)[1..] == d;
    } else {
      assert IsDigit(d[0]);
      assert ("+" + Decimal(n))[1..] == d;
    }
  }

  /** Pair `j` of `chars`: the `j`-th chunk of two. */
  function Pair(chars: string, j: nat): string
    requires 2 * j + 2 <= |chars|
  {
    chars[2 * j..2 * j + 2]
  }

  /** The pairs after the first two characters are the pairs of `chars` from the second on. */
  lemma PairsOfRest(chars: string)
    requires |chars| >= 2
    ensures Pair(chars, 0) == chars[..2]
    ensures forall j :: 0 <= j < |chars| / 2 - 1 ==> Pair(chars[2..], j) == Pair(chars, j + 1)
  {
  }

  /**
   * `chunks(2)` over the kept characters, each pair trimmed and parsed;
   * a lone last character (`chars[1]` out of bounds) or a failed parse
   * (`unwrap`) panics.
   */
  function PairNumbers(chars: string): (r: Result<seq<int>>)
    ensures r.Ok? ==> |chars| % 2 == 0 && |r.value| == |chars| / 2
    ensures r.Ok? <==> |chars| % 2 == 0 && forall j :: 0 <= j < |chars| / 2 ==> ParseI8(Trim(Pair(chars, j))).Some?
    ensures r.Ok? ==> forall j :: 0 <= j < |r.value| ==> ParseI8(Trim(Pair(chars, j))) == Some(r.value[j])
    decreases |chars|
  {
    if |chars| == 0 then Ok([])
    else if |chars| == 1 then Panic
    else
      PairsOfRest(chars);
      match ParseI8(Trim(chars[..2]))
      case None => Panic
      case Some(v) =>
        match PairNumbers(chars[2..])
        case Panic => Panic
        case Ok(rest) =>
          assert forall j :: 1 <= j < |chars| / 2 ==> Pair(chars, j) == Pair(chars[2..], j - 1);
          Ok([v] + rest)
  }

  /** The numbers on one board line. */
  function LineNumbers(line: string): Result<seq<int>>
  {
    PairNumbers(KeptChars(line))
  }

  /** The non-empty lines, in order. */
  function NonEmpty(lines: seq<string>): (r: seq<string>)
    ensures |r| <= |lines|
  {
    if |lines| == 0 then []
    else NonEmpty(lines[..|lines| - 1]) + (if |lines[|lines| - 1]| == 0 then [] else [lines[|lines| - 1]])
  }

  /** The numbers of each line, in order; the first line that panics makes it all panic. */
  function ParseRows(lines: seq<string>): (r: Result<seq<seq<int>>>)
    ensures r.Ok? ==> |r.value| == |lines|
  {
    if |lines| == 0 then Ok([])
    else
      match ParseRows(lines[..|lines| - 1])
      case Panic => Panic
      case Ok(rows) =>
        match LineNumbers(lines[|lines| - 1])
        case Panic => Panic
        case Ok(v) => Ok(rows + [v])
  }

  /** Each run of five rows appended into one table; a last short run makes a short table. */
  function Group(rows: seq<seq<int>>): (r: seq<seq<int>>)
    ensures |r| == (|rows| + 4) / 5
  {
    if |rows| == 0 then []
    else
      var g := Group(rows[..|rows| - 1]);
      if (|rows| - 1) % 5 == 0 then g + [rows[|rows| - 1]]
      else g[..|g| - 1] + [g[|g| - 1] + rows[|rows| - 1]]
  }

  /** The tables read from the lines after the draw line. */
  function TablesOf(boardLines: seq<string>): Result<seq<seq<int>>>
  {
    match ParseRows(NonEmpty(boardLines))
    case Panic => Panic
    case Ok(rows) => Ok(Group(rows))
  }

  /** The filter keeps exactly the non-empty lines. */
  lemma {:induction false} NonEmptyMembers(lines: seq<string>)
    ensures forall l :: l in NonEmpty(lines) <==> l in lines && |l| > 0
  {
    if |lines| > 0 {
      var prefix := lines[..|lines| - 1];
      NonEmptyMembers(prefix);
      assert lines == prefix + [lines[|lines| - 1]];
    }
  }

  /** The filter keeps the non-empty lines in their original order. */
  lemma {:induction false} NonEmptyInOrder(lines: seq<string>)
    ensures IsSubsequence(NonEmpty(lines), lines)
  {
    if |lines| > 0 {
      var prefix := lines[..|lines| - 1];
      var last := lines[|lines| - 1];
      var kept := NonEmpty(prefix);
      NonEmptyInOrder(prefix);
      SubsequenceExtend(kept, prefix, last);
      assert lines == prefix + [last];
      if |last| == 0 {
        assert NonEmpty(lines) == kept + [] == kept;
      } else {
        assert NonEmpty(lines) == kept + [last];
      }
    }
  }

  /**
   * The filter keeps every copy of a non-empty line, so repeated board
   * lines still count toward the grouping into fives.
   */
  lemma {:induction false} NonEmptyCopies(lines: seq<string>)
    ensures forall l :: multiset(NonEmpty(lines))[l] == if |l| > 0 then multiset(lines)[l] else 0
  {
    if |lines| > 0 {
      var prefix := lines[..|lines| - 1];
      var last := lines[|lines| - 1];
      var kept := NonEmpty(prefix);
      NonEmptyCopies(prefix);
      assert lines == prefix + [last];
      var added := if |last| == 0 then multiset{} else multiset{last};
      assert NonEmpty(lines) == kept + (if |last| == 0 then [] else [last]);
      assert multiset(NonEmpty(lines)) == multiset(kept) + added;
      assert multiset(lines) == multiset(prefix) + multiset{last};
      forall l
        ensures multiset(NonEmpty(lines))[l] == if |l| > 0 then multiset(lines)[l] else 0
      {
        assert multiset(NonEmpty(lines))[l] == multiset(kept)[l] + added[l];
      }
    }
  }

  lemma GroupStep(rows: seq<seq<int>>, v: seq<int>)
    ensures var g := Group(rows);
      Group(rows + [v]) == if |rows| % 5 == 0 then g + [v] else g[..|g| - 1] + [g[|g| - 1] + v]
  {
    assert (rows + [v])[..|rows|] == rows;
  }

  lemma DivFive(f: nat)
    ensures (f + 4) / 5 == if f % 5 == 0 then f / 5 else f / 5 + 1
    ensures (f + 1) / 5 == if (f + 1) % 5 == 0 then f / 5 + 1 else f / 5
  {
  }

  lemma AppendToNew(tables: seq<seq<int>>, v: seq<int>)
    ensures (tables + [[]])[|tables| := [] + v] == tables + [v]
  {
    assert [] + v == v;
  }

  lemma AppendToLast(tables: seq<seq<int>>, v: seq<int>)
    requires |tables| > 0
    ensures tables[|tables| - 1 := tables[|tables| - 1] + v] == tables[..|tables| - 1] + [tables[|tables| - 1] + v]
  {
  }

  /** Once a prefix of the lines panics, every longer prefix panics too. */
  lemma {:induction false} PanicPersists(lines: seq<string>, n: nat, k: nat)
    requires n <= k <= |lines| && ParseRows(lines[..n]) == Panic
    ensures ParseRows(lines[..k]) == Panic
    decreases k - n
  {
    if n < k {
      assert lines[..n + 1][..n] == lines[..n];
      PanicPersists(lines, n + 1, k);
    }
  }

  /** A line that parses adds its numbers as the next row. */
  lemma ReadLine(lines: seq<string>, i: nat, rows: seq<seq<int>>)
    requires i < |lines| && ParseRows(lines[..i]) == Ok(rows) && LineNumbers(lines[i]).Ok?
    ensures ParseRows(lines[..i + 1]) == Ok(rows + [LineNumbers(lines[i]).value])
  {
    assert lines[..i + 1][..i] == lines[..i];
  }

  /** A line that does not parse makes the whole parse panic. */
  lemma PanicOnLine(lines: seq<string>, i: nat, rows: seq<seq<int>>)
    requires i < |lines| && ParseRows(lines[..i]) == Ok(rows) && LineNumbers(lines[i]).Panic?
    ensures ParseRows(lines) == Panic
  {
    assert lines[..i + 1][..i] == lines[..i];
    PanicPersists(lines, i + 1, |lines|);
    assert lines[..|lines|] == lines;
  }

  /**
   * One more row appended the way `main` does it: open a table when
   * `table_index` has run past the last one, then append to table
   * `table_index`.
   */
  lemma AppendInPlace(tables: seq<seq<int>>, tableIndex: nat, count: nat, v: seq<int>)
    requires |tables| == (count + 4) / 5 && tableIndex == count / 5
    ensures var grown := if |tables| < tableIndex + 1 then tables + [[]] else tables;
      && tableIndex < |grown|
      && grown[tableIndex := grown[tableIndex] + v]
         == if count % 5 == 0 then tables + [v] else tables[..|tables| - 1] + [tables[|tables| - 1] + v]
    ensures (if (count + 1) % 5 == 0 then tableIndex + 1 else tableIndex) == (count + 1) / 5
  {
    DivFive(count);
    if count % 5 == 0 {
      AppendToNew(tables, v);
    } else {
      AppendToLast(tables, v);
    }
  }

  /**
   * The body of the parsing loop for a parsed line: open a table when
   * `table_index` has run past the last one, append the numbers to table
   * `table_index`, and move to the next table after every fifth line.
   */
  method AddRow(tables: seq<seq<int>>, tableIndex: nat, filteredLineIndex: nat, ghost rows: seq<seq<int>>, digits: seq<int>)
    returns (tables': seq<seq<int>>, tableIndex': nat)
    requires filteredLineIndex == |rows| && tables == Group(rows) && tableIndex == filteredLineIndex / 5
    ensures tables' == Group(rows + [digits])
    ensures tableIndex' == (filteredLineIndex + 1) / 5
  {
    GroupStep(rows, digits);
    AppendInPlace(tables, tableIndex, |rows|, digits);
    tables' := tables;
    if |tables'| < tableIndex + 1 {
      tables' := tables' + [[]];
    }
    tables' := tables'[tableIndex := tables'[tableIndex] + digits];
    tableIndex' := tableIndex;
    if (filteredLineIndex + 1) % 5 == 0 {
      tableIndex' := tableIndex' + 1;
    }
  }

  /**
   * The parsing loop of `main`: over the non-empty lines, numbered by
   * `enumerate` after the filter, parse each line's numbers, open a new
   * table when `table_index` has run past the last one, append the numbers
   * to table `table_index`, and move to the next table after every fifth
   * line.
   */
  method ParseTables(boardLines: seq<string>) returns (r: Result<seq<seq<int>>>)
    ensures r == TablesOf(boardLines)
  {
    var lines := NonEmpty(boardLines);
    var tables: seq<seq<int>> := [];
    var tableIndex := 0;
    ghost var rows: seq<seq<int>> := [];
    for filteredLineIndex := 0 to |lines|
      invariant ParseRows(lines[..filteredLineIndex]) == Ok(rows)
      invariant |rows| == filteredLineIndex && tables == Group(rows) && tableIndex == filteredLineIndex / 5
    {
      var digits := LineNumbers(lines[filteredLineIndex]);
      if digits.Panic? {
        PanicOnLine(lines, filteredLineIndex, rows);
        return Panic;
      }
      ReadLine(lines, filteredLineIndex, rows);
      tables, tableIndex := AddRow(tables, tableIndex, filteredLineIndex, rows, digits.value);
      rows := rows + [digits.value];
    }
    assert lines[..|lines|] == lines;
    r := Ok(tables);
  }

  /** The rows laid end to end. */
  function Flatten(rows: seq<seq<int>>): (r: seq<int>)
  {
    if |rows| == 0 then [] else Flatten(rows[..|rows| - 1]) + rows[|rows| - 1]
  }

  lemma FlattenAppend(rows: seq<seq<int>>, v: seq<int>)
    ensures Flatten(rows + [v]) == Flatten(rows) + v
  {
    assert (rows + [v])[..|rows|] == rows;
  }

  lemma {:induction false} FlattenLength(rows: seq<seq<int>>, width: nat)
    requires forall k :: 0 <= k < |rows| ==> |rows[k]| == width
    ensures |Flatten(rows)| == width * |rows|
  {
    if |rows| > 0 {
      FlattenLength(rows[..|rows| - 1], width);
    }
  }

  lemma {:induction false} FlattenBounds(rows: seq<seq<int>>, lo: int, hi: int)
    requires forall k, i :: 0 <= k < |rows| && 0 <= i < |rows[k]| ==> lo <= rows[k][i] <= hi
    ensures forall i :: 0 <= i < |Flatten(rows)| ==> lo <= Flatten(rows)[i] <= hi
  {
    if |rows| > 0 {
      FlattenBounds(rows[..|rows| - 1], lo, hi);
    }
  }

  function Min(a: int, b: int): int
  {
    if a < b then a else b
  }

  /** Table `j` holds rows `5 j` up to `5 j + 5` (or the last row). */
  ghost predicate GroupedAt(rows: seq<seq<int>>, tables: seq<seq<int>>, j: nat)
  {
    j < |tables| && 5 * j < |rows| && tables[j] == Flatten(rows[5 * j .. Min(5 * j + 5, |rows|)])
  }

  lemma SliceInside(prefix: seq<seq<int>>, v: seq<int>, lo: nat, hi: nat)
    requires lo <= hi <= |prefix|
    ensures (prefix + [v])[lo .. hi] == prefix[lo .. hi]
  {
  }

  lemma SliceToEnd(prefix: seq<seq<int>>, v: seq<int>, lo: nat)
    requires lo <= |prefix|
    ensures (prefix + [v])[lo .. |prefix| + 1] == prefix[lo .. |prefix|] + [v]
  {
  }

  lemma GroupIndexNew(prefix: seq<seq<int>>, g: seq<seq<int>>, v: seq<int>, j: nat)
    requires |g| == (|prefix| + 4) / 5 && forall i :: 0 <= i < |g| ==> GroupedAt(prefix, g, i)
    requires |prefix| % 5 == 0 && j <= |g|
    ensures GroupedAt(prefix + [v], g + [v], j)
  {
    DivFive(|prefix|);
    if j == |g| {
      assert 5 * j == |prefix| && Min(5 * j + 5, |prefix| + 1) == |prefix| + 1;
      SliceToEnd(prefix, v, 5 * j);
      FlattenAppend([], v);
    } else {
      assert GroupedAt(prefix, g, j);
      assert Min(5 * j + 5, |prefix| + 1) == 5 * j + 5 == Min(5 * j + 5, |prefix|);
      SliceInside(prefix, v, 5 * j, 5 * j + 5);
    }
  }

  lemma GroupIndexLast(prefix: seq<seq<int>>, g: seq<seq<int>>, v: seq<int>, j: nat)
    requires |g| == (|prefix| + 4) / 5 && forall i :: 0 <= i < |g| ==> GroupedAt(prefix, g, i)
    requires |prefix| % 5 != 0 && j < |g|
    ensures GroupedAt(prefix + [v], g[..|g| - 1] + [g[|g| - 1] + v], j)
  {
    DivFive(|prefix|);
    assert GroupedAt(prefix, g, j);
    if j == |g| - 1 {
      assert Min(5 * j + 5, |prefix| + 1) == |prefix| + 1 && Min(5 * j + 5, |prefix|) == |prefix|;
      SliceToEnd(prefix, v, 5 * j);
      FlattenAppend(prefix[5 * j .. |prefix|], v);
    } else {
      assert Min(5 * j + 5, |prefix| + 1) == 5 * j + 5 == Min(5 * j + 5, |prefix|);
      SliceInside(prefix, v, 5 * j, 5 * j + 5);
    }
  }

  lemma GroupIndexStep(prefix: seq<seq<int>>, v: seq<int>, j: nat)
    requires forall i :: 0 <= i < |Group(prefix)| ==> GroupedAt(prefix, Group(prefix), i)
    requires j < |Group(prefix + [v])|
    ensures GroupedAt(prefix + [v], Group(prefix + [v]), j)
  {
    GroupStep(prefix, v);
    DivFive(|prefix|);
    if |prefix| % 5 == 0 {
      GroupIndexNew(prefix, Group(prefix), v, j);
    } else {
      GroupIndexLast(prefix, Group(prefix), v, j);
    }
  }

  /**
   * Table `j` is rows `5 j` up to `5 j + 5` (or the last row), appended in
   * order.
   */
  lemma {:induction false} GroupIndex(rows: seq<seq<int>>)
    ensures forall j :: 0 <= j < |Group(rows)| ==> GroupedAt(rows, Group(rows), j)
  {
    if |rows| > 0 {
      var prefix := rows[..|rows| - 1];
      var v := rows[|rows| - 1];
      GroupIndex(prefix);
      assert rows == prefix + [v];
      forall j | 0 <= j < |Group(rows)|
        ensures GroupedAt(rows, Group(rows), j)
      {
        GroupIndexStep(prefix, v, j);
      }
    }
  }

  lemma FlattenExtendLast(init: seq<seq<int>>, last: seq<int>, v: seq<int>)
    ensures Flatten(init + [last + v]) == Flatten(init + [last]) + v
  {
    FlattenAppend(init, last + v);
    FlattenAppend(init, last);
    assert Flatten(init) + (last + v) == (Flatten(init) + last) + v;
  }

  lemma GroupKeepsNumbersStep(prefix: seq<seq<int>>, v: seq<int>)
    requires Flatten(Group(prefix)) == Flatten(prefix)
    ensures Flatten(Group(prefix + [v])) == Flatten(prefix + [v])
  {
    GroupStep(prefix, v);
    FlattenAppend(prefix, v);
    if |prefix| % 5 == 0 {
      FlattenAppend(Group(prefix), v);
    } else {
      var g := Group(prefix);
      assert g == g[..|g| - 1] + [g[|g| - 1]];
      FlattenExtendLast(g[..|g| - 1], g[|g| - 1], v);
    }
  }

  /** Grouping neither drops nor reorders numbers. */
  lemma {:induction false} GroupKeepsNumbers(rows: seq<seq<int>>)
    ensures Flatten(Group(rows)) == Flatten(rows)
  {
    if |rows| > 0 {
      var prefix := rows[..|rows| - 1];
      GroupKeepsNumbers(prefix);
      GroupKeepsNumbersStep(prefix, rows[|rows| - 1]);
      assert rows == prefix + [rows[|rows| - 1]];
    }
  }

  /** All lines parse exactly when each does on its own. */
  lemma {:induction false} ParseRowsOk(lines: seq<string>)
    ensures ParseRows(lines).Ok? <==> forall k :: 0 <= k < |lines| ==> LineNumbers(lines[k]).Ok?
  {
    if |lines| > 0 {
      var prefix := lines[..|lines| - 1];
      ParseRowsOk(prefix);
      assert forall k :: 0 <= k < |prefix| ==> prefix[k] == lines[k];
    }
  }

  /** Row `k` holds the numbers of line `k`. */
  lemma {:induction false} ParseRowsValues(lines: seq<string>)
    requires ParseRows(lines).Ok?
    ensures forall k :: 0 <= k < |lines| ==>
      LineNumbers(lines[k]).Ok? && ParseRows(lines).value[k] == LineNumbers(lines[k]).value
  {
    if |lines| > 0 {
      var prefix := lines[..|lines| - 1];
      ParseRowsValues(prefix);
      assert forall k :: 0 <= k < |prefix| ==> prefix[k] == lines[k];
    }
  }

  /** A two-character field of a board line: a digit, or a space then a digit. */
  predicate Field(a: char, b: char)
  {
    (a == ' ' || IsDigit(a)) && IsDigit(b)
  }

  function FieldValue(a: char, b: char): nat
    requires Field(a, b)
  {
    (if a == ' ' then 0 else 10 * (a as int - '0' as int)) + (b as int - '0' as int)
  }

  /** A board line as laid out: five two-character fields, one separator after each of the first four. */
  predicate WellFormedLine(line: string)
  {
    |line| == 14 && forall j :: 0 <= j < 5 ==> Field(line[3 * j], line[3 * j + 1])
  }

  lemma DigitIsNotWhitespace(c: char)
    requires IsDigit(c)
    ensures !IsWhitespace(c)
  {
  }

  lemma FieldParses(a: char, b: char)
    requires Field(a, b)
    ensures ParseI8(Trim([a, b])) == Some(FieldValue(a, b))
    ensures FieldValue(a, b) <= 99
  {
    DigitIsNotWhitespace(b);
    if a == ' ' {
      assert IsWhitespace(a);
      assert Trim([a, b]) == Trim([b]) == [b];
      assert DigitsValue([b]) == 10 * DigitsValue([]) + (b as int - '0' as int);
    } else {
      DigitIsNotWhitespace(a);
      assert Trim([a, b]) == [a, b];
      assert [a, b][..1] == [a];
      assert DigitsValue([a, b]) == 10 * DigitsValue([a]) + (b as int - '0' as int);
      assert DigitsValue([a]) == 10 * DigitsValue([]) + (a as int - '0' as int);
    }
  }

  /** `chunks(2)` on two or more characters: the first pair's number, then those of the rest. */
  lemma PairNumbersStep(chars: string, v: int)
    requires |chars| >= 2 && ParseI8(Trim(chars[..2])) == Some(v) && PairNumbers(chars[2..]).Ok?
    ensures PairNumbers(chars) == Ok([v] + PairNumbers(chars[2..]).value)
  {
  }

  /** Every pair of `chars` is a field. */
  predicate FieldPairs(chars: string)
  {
    forall j :: 0 <= j < |chars| / 2 ==> Field(chars[2 * j], chars[2 * j + 1])
  }

  /** `numbers` holds the value of each pair of `chars`, each in 0 ..= 99. */
  predicate PairValues(chars: string, numbers: seq<int>)
    requires FieldPairs(chars)
  {
    |numbers| == |chars| / 2
    && forall j :: 0 <= j < |chars| / 2 ==> numbers[j] == FieldValue(chars[2 * j], chars[2 * j + 1]) <= 99
  }

  lemma FieldPairsRest(chars: string)
    requires |chars| >= 2 && FieldPairs(chars)
    ensures Field(chars[0], chars[1]) && FieldPairs(chars[2..])
  {
    assert Field(chars[2 * 0], chars[2 * 0 + 1]);
    var rest := chars[2..];
    forall j | 0 <= j < |rest| / 2
      ensures Field(rest[2 * j], rest[2 * j + 1])
    {
      assert rest[2 * j] == chars[2 * (j + 1)] && rest[2 * j + 1] == chars[2 * (j + 1) + 1];
    }
  }

  lemma PairValuesCons(chars: string, v: int, numbers: seq<int>)
    requires |chars| >= 2 && FieldPairs(chars) && Field(chars[0], chars[1]) && FieldPairs(chars[2..])
    requires v == FieldValue(chars[0], chars[1]) <= 99 && PairValues(chars[2..], numbers)
    ensures PairValues(chars, [v] + numbers)
  {
    var rest := chars[2..];
    forall j | 1 <= j < |chars| / 2
      ensures ([v] + numbers)[j] == FieldValue(chars[2 * j], chars[2 * j + 1])
    {
      assert chars[2 * j] == rest[2 * (j - 1)] && chars[2 * j + 1] == rest[2 * (j - 1) + 1];
    }
  }

  /** Pairs that are all fields parse, pair by pair, to their field values. */
  lemma {:induction false} FieldsParse(chars: string)
    requires |chars| % 2 == 0 && FieldPairs(chars)
    ensures PairNumbers(chars).Ok? && PairValues(chars, PairNumbers(chars).value)
    decreases |chars|
  {
    if |chars| > 0 {
      FieldPairsRest(chars);
      FieldsParse(chars[2..]);
      assert chars[..2] == [chars[0], chars[1]];
      FieldParses(chars[0], chars[1]);
      PairNumbersStep(chars, FieldValue(chars[0], chars[1]));
      PairValuesCons(chars, FieldValue(chars[0], chars[1]), PairNumbers(chars[2..]).value);
    }
  }

  /** A well-formed board line gives its five field values, each in 0 ..= 99. */
  lemma WellFormedLineParses(line: string)
    requires WellFormedLine(line)
    ensures LineNumbers(line).Ok? && |LineNumbers(line).value| == 5
    ensures forall j :: 0 <= j < 5 ==> LineNumbers(line).value[j] == FieldValue(line[3 * j], line[3 * j + 1])
    ensures forall j :: 0 <= j < 5 ==> 0 <= LineNumbers(line).value[j] <= 99
  {
    var kept := KeptChars(line);
    KeptCharsIndex(line);
    forall j | 0 <= j < 5
      ensures kept[2 * j] == line[3 * j] && kept[2 * j + 1] == line[3 * j + 1]
    {
      assert 2 * j + (2 * j) / 2 == 3 * j;
      assert 2 * j + 1 + (2 * j + 1) / 2 == 3 * j + 1;
    }
    FieldsParse(kept);
  }

  /** Rows of five numbers in 0 ..= 99. */
  predicate FiveSmallNumbers(row: seq<int>)
  {
    |row| == 5 && forall i :: 0 <= i < 5 ==> 0 <= row[i] <= 99
  }

  lemma WellFormedRows(lines: seq<string>)
    requires forall k :: 0 <= k < |lines| ==> WellFormedLine(lines[k])
    ensures ParseRows(lines).Ok?
    ensures forall k :: 0 <= k < |lines| ==> FiveSmallNumbers(ParseRows(lines).value[k])
  {
    forall k | 0 <= k < |lines|
      ensures LineNumbers(lines[k]).Ok? && FiveSmallNumbers(LineNumbers(lines[k]).value)
    {
      WellFormedLineParses(lines[k]);
    }
    ParseRowsOk(lines);
    ParseRowsValues(lines);
  }

  lemma GroupOfFives(rows: seq<seq<int>>)
    requires forall k :: 0 <= k < |rows| ==> FiveSmallNumbers(rows[k])
    requires |rows| % 5 == 0
    ensures |Group(rows)| == |rows| / 5
    ensures forall j :: 0 <= j < |Group(rows)| ==> |Group(rows)[j]| == 25
    ensures forall j, i :: 0 <= j < |Group(rows)| && 0 <= i < |Group(rows)[j]| ==> 0 <= Group(rows)[j][i] <= 99
  {
    GroupIndex(rows);
    DivFive(|rows|);
    forall j | 0 <= j < |Group(rows)|
      ensures |Group(rows)[j]| == 25
      ensures forall i :: 0 <= i < |Group(rows)[j]| ==> 0 <= Group(rows)[j][i] <= 99
    {
      assert GroupedAt(rows, Group(rows), j);
      var slice := rows[5 * j .. 5 * j + 5];
      assert Min(5 * j + 5, |rows|) == 5 * j + 5;
      FlattenLength(slice, 5);
      FlattenBounds(slice, 0, 99);
    }
  }

  /**
   * Well-formed board lines, five per table, give one 25-number table per
   * five non-empty lines, each number in 0 ..= 99.
   */
  lemma WellFormedTables(boardLines: seq<string>)
    requires forall k :: 0 <= k < |boardLines| ==> |boardLines[k]| == 0 || WellFormedLine(boardLines[k])
    requires |NonEmpty(boardLines)| % 5 == 0
    ensures TablesOf(boardLines).Ok?
    ensures |TablesOf(boardLines).value| == |NonEmpty(boardLines)| / 5
    ensures forall j :: 0 <= j < |TablesOf(boardLines).value| ==> |TablesOf(boardLines).value[j]| == 25
    ensures forall j, i :: 0 <= j < |TablesOf(boardLines).value| && 0 <= i < |TablesOf(boardLines).value[j]| ==>
      0 <= TablesOf(boardLines).value[j][i] <= 99
  {
    var lines := NonEmpty(boardLines);
    NonEmptyMembers(boardLines);
    forall k | 0 <= k < |lines|
      ensures WellFormedLine(lines[k])
    {
      assert lines[k] in lines;
    }
    WellFormedRows(lines);
    GroupOfFives(ParseRows(lines).value);
  }
}
