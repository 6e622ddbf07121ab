/**
 * `parse_gamma` (day-03): for every character position up to the longest
 * line, the most common bit among the lines that reach that position.
 */
module Gamma {
  import opened BinaryStrings

  function Max(a: nat, b: nat): nat
  {
    if a < b then b else a
  }

  /** Length of the longest line. */
  function Width(lines: seq<string>): nat
  {
    if |lines| == 0 then 0 else Max(Width(lines[..|lines| - 1]), |lines[|lines| - 1]|)
  }

  /** The characters at position `k` of the lines long enough to have one, in line order. */
  function Column(lines: seq<string>, k: nat): seq<char>
  {
    if |lines| == 0 then []
    else
      var last := lines[|lines| - 1];
      Column(lines[..|lines| - 1], k) + (if k < |last| then [last[k]] else [])
  }

  /** How many entries are '1' (`count1`); every other entry counts as `count0`. */
  function Ones(entries: seq<char>): nat
  {
    if |entries| == 0 then 0
    else Ones(entries[..|entries| - 1]) + (if entries[|entries| - 1] == '1' then 1 else 0)
  }

  /** The gamma rate: per position below the width, '1' when the '1's outnumber the other chars. */
  function GammaRate(content: seq<string>): string
  {
    seq(Width(content), k requires 0 <= k < Width(content) =>
      var column := Column(content, k);
      if Ones(column) > |column| - Ones(column) then '1' else '0')
  }

  lemma {:induction false} ColumnBeyondWidth(lines: seq<string>, k: nat)
    requires k >= Width(lines)
    ensures Column(lines, k) == []
  {
    if |lines| > 0 {
      ColumnBeyondWidth(lines[..|lines| - 1], k);
    }
  }

  /** Every position below the width is reached by at least one line. */
  lemma {:induction false} ColumnNonEmpty(lines: seq<string>, k: nat)
    requires k < Width(lines)
    ensures |Column(lines, k)| >= 1
  {
    var p := lines[..|lines| - 1];
    if k >= |lines[|lines| - 1]| {
      ColumnNonEmpty(p, k);
    }
  }

  /**
   * `parse_gamma`. The first loop gathers, per position, the characters of
   * all lines that reach it (`position_holder`); the second counts the '1's
   * of each position and emits "1" when they outnumber the rest, "0"
   * otherwise (so a tie gives "0").
   */
  method ParseGamma(content: seq<string>) returns (gamma: string)
    ensures gamma == GammaRate(content)
    ensures |gamma| == Width(content) && IsBinary(gamma)
    ensures forall k :: 0 <= k < |gamma| ==>
      (gamma[k] == '1' <==> Ones(Column(content, k)) > |Column(content, k)| - Ones(Column(content, k)))
  {
    var positionHolder: seq<seq<char>> := [];
    var i := 0;
    while i < |content|
      invariant 0 <= i <= |content|
      invariant |positionHolder| == Width(content[..i])
      invariant forall k :: 0 <= k < |positionHolder| ==> positionHolder[k] == Column(content[..i], k)
    {
      var line := content[i];
      var j := 0;
      while j < |line|
        invariant 0 <= j <= |line|
        invariant |positionHolder| == Max(Width(content[..i]), j)
        invariant forall k :: 0 <= k < |positionHolder| ==>
          positionHolder[k] == Column(content[..i], k) + (if k < j then [line[k]] else [])
      {
        var character := line[j];
        if j < |positionHolder| {
          positionHolder := positionHolder[j := positionHolder[j] + [character]];
        } else {
          ColumnBeyondWidth(content[..i], j);
          positionHolder := positionHolder[..j] + [[character]] + positionHolder[j..];
        }
        j := j + 1;
      }
      assert content[..i + 1][..i] == content[..i];
      i := i + 1;
    }
    assert content[..i] == content;

    gamma := "";
    var p := 0;
    while p < |positionHolder|
      invariant 0 <= p <= |positionHolder|
      invariant |gamma| == p && IsBinary(gamma)
      invariant forall k :: 0 <= k < p ==>
        (gamma[k] == '1' <==> Ones(positionHolder[k]) > |positionHolder[k]| - Ones(positionHolder[k]))
    {
      var position := positionHolder[p];
      var count1 := 0;
      var count0 := 0;
      var e := 0;
      while e < |position|
        invariant 0 <= e <= |position|
        invariant count1 == Ones(position[..e]) && count0 == e - count1
      {
        if position[e] == '1' {
          count1 := count1 + 1;
        } else {
          count0 := count0 + 1;
        }
        assert position[..e + 1][..e] == position[..e];
        e := e + 1;
      }
      assert position[..e] == position;
      gamma := gamma + (if count1 > count0 then "1" else "0");
      p := p + 1;
    }
  }
}
