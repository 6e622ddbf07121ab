/**
 * The bingo draw loop and score (day-04). `main` keeps one flag vector per
 * table (`table_marks`, grown to 25 `false` flags the first time a table
 * is visited) and three latches, `winner`, `winner_index` and
 * `last_drawn`. For every draw it visits the tables in index order; while
 * no winner is latched it marks each cell equal to the draw and checks the
 * table straight after each mark, latching the first table that passes
 * and leaving the digit loop. Once a winner is latched, each table's digit
 * loop leaves at the first match without marking, and the draw loop keeps
 * running to the end. The score is the winning table's unmarked sum times
 * the last draw; unwrapping the latches panics when no table won.
 */
module BingoGame {
  import opened Outcome
  import opened BingoWin

  /** The flags of a table not yet marked: `vec![false; 25]`. */
  function Unmarked(): seq<bool>
  {
    seq(25, i => false)
  }

  /** Every table fits its 25 flags (a parsed 5 x 5 table has 25 numbers). */
  predicate TablesFit(tables: seq<seq<int>>)
  {
    forall t :: 0 <= t < |tables| ==> |tables[t]| <= 25
  }

  /** At most one flag vector per table, each of 25 flags. */
  predicate Shaped(tables: seq<seq<int>>, marks: seq<seq<bool>>)
  {
    |marks| <= |tables| && forall t :: 0 <= t < |marks| ==> |marks[t]| == 25
  }

  /** The flags of table `t`, or those it gets when first visited. */
  function RowOr(marks: seq<seq<bool>>, t: nat): seq<bool>
  {
    if t < |marks| then marks[t] else Unmarked()
  }

  /** The state `main` carries across draws: `table_marks` and the three latches. */
  datatype Game = Game(
    marks: seq<seq<bool>>,
    winner: Option<seq<int>>,
    winnerIndex: Option<nat>,
    lastDrawn: Option<int>)

  /**
   * The digit loop over one table while no winner is latched, from digit
   * `d` on: mark each cell equal to `number` and stop, reporting a win, at
   * the first mark after which the table passes the win check.
   */
  function ScanTable(table: seq<int>, row: seq<bool>, number: int, d: nat): (r: (seq<bool>, bool))
    requires |table| <= |row| && d <= |table|
    ensures |r.0| == |row|
    decreases |table| - d
  {
    if d == |table| then (row, false)
    else if table[d] == number then
      var marked := row[d := true];
      if Won(marked) then (marked, true) else ScanTable(table, marked, number, d + 1)
    else ScanTable(table, row, number, d + 1)
  }

  /** One pass of the table loop: table `t` under draw `number`. */
  function TableStep(tables: seq<seq<int>>, g: Game, number: int, t: nat): (h: Game)
    requires TablesFit(tables) && Shaped(tables, g.marks) && t < |tables| && t <= |g.marks|
    ensures Shaped(tables, h.marks)
    ensures |h.marks| == if |g.marks| < t + 1 then t + 1 else |g.marks|
  {
    var marks := if |g.marks| < t + 1 then g.marks + [Unmarked()] else g.marks;
    if g.winner.Some? then g.(marks := marks)
    else
      var scan := ScanTable(tables[t], marks[t], number, 0);
      if scan.1 then Game(marks[t := scan.0], Some(tables[t]), Some(t), Some(number))
      else g.(marks := marks[t := scan.0])
  }

  /** The table loop of one draw, over tables `0 .. t`. */
  function DrawUpTo(tables: seq<seq<int>>, g: Game, number: int, t: nat): (h: Game)
    requires TablesFit(tables) && Shaped(tables, g.marks) && t <= |tables|
    ensures Shaped(tables, h.marks)
    ensures |h.marks| == if |g.marks| < t then t else |g.marks|
  {
    if t == 0 then g else TableStep(tables, DrawUpTo(tables, g, number, t - 1), number, t - 1)
  }

  /** The draw loop over all draws, from no marks and no winner. */
  function Play(tables: seq<seq<int>>, draws: seq<int>): (g: Game)
    requires TablesFit(tables)
    ensures Shaped(tables, g.marks)
    ensures |g.marks| == if |draws| == 0 then 0 else |tables|
  {
    if |draws| == 0 then Game([], None, None, None)
    else DrawUpTo(tables, Play(tables, draws[..|draws| - 1]), draws[|draws| - 1], |tables|)
  }

  /**
   * `main`'s draw loop: for each draw, for each table (growing
   * `table_marks` on first visit), for each digit equal to the draw, the
   * `match winner` that either marks and checks, latching on a win, or
   * leaves the digit loop.
   */
  method PlayBingo(tables: seq<seq<int>>, drawnNumbers: seq<int>) returns (game: Game)
    requires TablesFit(tables)
    ensures game == Play(tables, drawnNumbers)
  {
    var tableMarks: seq<seq<bool>> := [];
    var winner: Option<seq<int>> := None;
    var winnerIndex: Option<nat> := None;
    var lastDrawn: Option<int> := None;
    for n := 0 to |drawnNumbers|
      invariant Game(tableMarks, winner, winnerIndex, lastDrawn) == Play(tables, drawnNumbers[..n])
    {
      var number := drawnNumbers[n];
      ghost var atDraw := Game(tableMarks, winner, winnerIndex, lastDrawn);
      for tableIndex := 0 to |tables|
        invariant Game(tableMarks, winner, winnerIndex, lastDrawn) == DrawUpTo(tables, atDraw, number, tableIndex)
      {
        var table := tables[tableIndex];
        ghost var before := Game(tableMarks, winner, winnerIndex, lastDrawn);
        if |tableMarks| < tableIndex + 1 {
          tableMarks := tableMarks + [seq(25, i => false)];
        }
        ghost var atTable := Game(tableMarks, winner, winnerIndex, lastDrawn);
        ghost var startRow := tableMarks[tableIndex];
        var digitIndex := 0;
        while digitIndex < |table|
          invariant 0 <= digitIndex <= |table|
          invariant winner == atTable.winner && winnerIndex == atTable.winnerIndex && lastDrawn == atTable.lastDrawn
          invariant |tableMarks| == |atTable.marks| && |tableMarks[tableIndex]| == 25
          invariant tableMarks == atTable.marks[tableIndex := tableMarks[tableIndex]]
          invariant winner.Some? ==> tableMarks == atTable.marks
          invariant winner.None? ==>
            ScanTable(table, tableMarks[tableIndex], number, digitIndex) == ScanTable(table, startRow, number, 0)
        {
          var digit := table[digitIndex];
          if digit == number {
            match winner {
              case None =>
                tableMarks := tableMarks[tableIndex := tableMarks[tableIndex][digitIndex := true]];
                var won := CheckIfATableWon(tableMarks[tableIndex]);
                if won {
                  lastDrawn := Some(digit);
                  winner := Some(table);
                  winnerIndex := Some(tableIndex);
                  break;
                }
              case Some(_) =>
                break;
            }
          }
          digitIndex := digitIndex + 1;
        }
        assert Game(tableMarks, winner, winnerIndex, lastDrawn) == TableStep(tables, before, number, tableIndex);
      }
      assert drawnNumbers[..n + 1][..n] == drawnNumbers[..n];
    }
    assert drawnNumbers[..|drawnNumbers|] == drawnNumbers;
    game := Game(tableMarks, winner, winnerIndex, lastDrawn);
  }

  /** Every flag set in `a` is still set in `b`. */
  ghost predicate Grows(a: seq<seq<bool>>, b: seq<seq<bool>>)
  {
    |a| <= |b| && forall t, i :: 0 <= t < |a| && 0 <= i < |a[t]| && a[t][i] ==> i < |b[t]| && b[t][i]
  }

  /**
   * What the draw loop keeps true: the three latches are set together; a
   * latched winner is the table at the latched index, its flags pass the
   * win check and it holds the latched draw; no other table passes it.
   */
  ghost predicate Consistent(tables: seq<seq<int>>, g: Game)
  {
    && Shaped(tables, g.marks)
    && g.winner.Some? == g.winnerIndex.Some?
    && g.winner.Some? == g.lastDrawn.Some?
    && (g.winnerIndex.Some? ==>
          && g.winnerIndex.value < |g.marks|
          && g.winner == Some(tables[g.winnerIndex.value])
          && Won(g.marks[g.winnerIndex.value])
          && g.lastDrawn.value in tables[g.winnerIndex.value])
    && forall t :: 0 <= t < |g.marks| && g.winnerIndex != Some(t) ==> !Won(g.marks[t])
  }

  lemma GrowsTransitive(a: seq<seq<bool>>, b: seq<seq<bool>>, c: seq<seq<bool>>)
    requires Grows(a, b) && Grows(b, c)
    ensures Grows(a, c)
  {
  }

  /** The digit loop sets flags only, and only at cells holding the draw. */
  lemma {:induction false} ScanChangesOnlyMatches(table: seq<int>, row: seq<bool>, number: int, d: nat)
    requires |table| <= |row| && d <= |table|
    ensures forall i :: 0 <= i < |row| && ScanTable(table, row, number, d).0[i] != row[i] ==>
      d <= i < |table| && table[i] == number && ScanTable(table, row, number, d).0[i]
    decreases |table| - d
  {
    if d < |table| {
      if table[d] == number {
        var marked := row[d := true];
        if !Won(marked) {
          ScanChangesOnlyMatches(table, marked, number, d + 1);
        }
      } else {
        ScanChangesOnlyMatches(table, row, number, d + 1);
      }
    }
  }

  /**
   * The digit loop reports a win only with winning flags and a table that
   * holds the draw; when it reports none, every cell holding the draw is
   * marked and a table that had not won still has not.
   */
  lemma {:induction false} ScanOutcome(table: seq<int>, row: seq<bool>, number: int, d: nat)
    requires |table| <= |row| && d <= |table|
    ensures ScanTable(table, row, number, d).1 ==> Won(ScanTable(table, row, number, d).0) && number in table
    ensures !ScanTable(table, row, number, d).1 ==>
      forall i :: d <= i < |table| && table[i] == number ==> ScanTable(table, row, number, d).0[i]
    ensures !ScanTable(table, row, number, d).1 && !Won(row) ==> !Won(ScanTable(table, row, number, d).0)
    decreases |table| - d
  {
    if d < |table| {
      if table[d] == number {
        var marked := row[d := true];
        if !Won(marked) {
          ScanOutcome(table, marked, number, d + 1);
          ScanChangesOnlyMatches(table, marked, number, d + 1);
        }
      } else {
        ScanOutcome(table, row, number, d + 1);
      }
    }
  }

  /**
   * One pass of the table loop touches no flag vector but table `t`'s and,
   * with a winner latched, neither that one nor the latches.
   */
  lemma TableStepFrame(tables: seq<seq<int>>, g: Game, number: int, t: nat)
    requires TablesFit(tables) && Shaped(tables, g.marks) && t < |tables| && t <= |g.marks|
    ensures forall s :: 0 <= s < |g.marks| && s != t ==> TableStep(tables, g, number, t).marks[s] == g.marks[s]
    ensures g.winner.Some? ==>
      var h := TableStep(tables, g, number, t);
      && h.winner == g.winner && h.winnerIndex == g.winnerIndex && h.lastDrawn == g.lastDrawn
      && h.marks[t] == RowOr(g.marks, t)
  {
  }

  /** One pass of the table loop keeps the draw loop's invariant and sets flags only. */
  lemma TableStepConsistent(tables: seq<seq<int>>, g: Game, number: int, t: nat)
    requires TablesFit(tables) && Consistent(tables, g) && t < |tables| && t <= |g.marks|
    ensures Consistent(tables, TableStep(tables, g, number, t))
    ensures Grows(g.marks, TableStep(tables, g, number, t).marks)
  {
    var marks := if |g.marks| < t + 1 then g.marks + [Unmarked()] else g.marks;
    assert marks[t] == RowOr(g.marks, t);
    UnmarkedDoesNotWin();
    if g.winner.None? {
      ScanOutcome(tables[t], marks[t], number, 0);
      ScanChangesOnlyMatches(tables[t], marks[t], number, 0);
    }
  }

  /**
   * A draw's table loop up to table `t` leaves the tables from `t` on as
   * they were and, once a winner is latched, leaves the latches and every
   * existing flag vector as they were.
   */
  lemma {:induction false} DrawFrame(tables: seq<seq<int>>, g: Game, number: int, t: nat)
    requires TablesFit(tables) && Shaped(tables, g.marks) && t <= |tables|
    ensures forall s :: t <= s < |g.marks| ==> DrawUpTo(tables, g, number, t).marks[s] == g.marks[s]
    ensures g.winner.Some? ==>
      var h := DrawUpTo(tables, g, number, t);
      && h.winner == g.winner && h.winnerIndex == g.winnerIndex && h.lastDrawn == g.lastDrawn
      && forall s :: 0 <= s < |g.marks| ==> h.marks[s] == g.marks[s]
  {
    if t > 0 {
      DrawFrame(tables, g, number, t - 1);
      TableStepFrame(tables, DrawUpTo(tables, g, number, t - 1), number, t - 1);
    }
  }

  /** One draw keeps the draw loop's invariant and only sets flags. */
  lemma {:induction false} DrawConsistent(tables: seq<seq<int>>, g: Game, number: int, t: nat)
    requires TablesFit(tables) && Consistent(tables, g) && t <= |tables|
    ensures Consistent(tables, DrawUpTo(tables, g, number, t))
    ensures Grows(g.marks, DrawUpTo(tables, g, number, t).marks)
  {
    if t > 0 {
      var p := DrawUpTo(tables, g, number, t - 1);
      DrawConsistent(tables, g, number, t - 1);
      TableStepConsistent(tables, p, number, t - 1);
      GrowsTransitive(g.marks, p.marks, DrawUpTo(tables, g, number, t).marks);
    }
  }

  /**
   * When a draw latches a winner, the latched draw is this one, and every
   * table after the winner keeps the flags it had before the draw: tables
   * after the winner are not marked.
   */
  lemma {:induction false} DrawLatch(tables: seq<seq<int>>, g: Game, number: int, t: nat)
    requires TablesFit(tables) && Shaped(tables, g.marks) && t <= |tables|
    requires g.winner.None? && g.winnerIndex.None?
    ensures var h := DrawUpTo(tables, g, number, t); h.winner.Some? == h.winnerIndex.Some?
    ensures var h := DrawUpTo(tables, g, number, t);
      h.winnerIndex.Some? ==>
        && h.lastDrawn == Some(number)
        && forall s :: h.winnerIndex.value < s < |h.marks| ==> h.marks[s] == RowOr(g.marks, s)
  {
    if t > 0 {
      var p := DrawUpTo(tables, g, number, t - 1);
      DrawLatch(tables, g, number, t - 1);
      DrawFrame(tables, g, number, t - 1);
      TableStepFrame(tables, p, number, t - 1);
      var h := DrawUpTo(tables, g, number, t);
      if h.winnerIndex.Some? {
        forall s | h.winnerIndex.value < s < |h.marks|
          ensures h.marks[s] == RowOr(g.marks, s)
        {
          if s < t - 1 {
            assert h.marks[s] == p.marks[s];
          } else if s == t - 1 {
            assert RowOr(p.marks, s) == RowOr(g.marks, s);
          }
        }
      }
    }
  }

  /**
   * One pass of the table loop changes a flag of table `t` only at a cell
   * holding the draw, and only to set it; without a latched winner after
   * it, every cell of table `t` holding the draw is marked.
   */
  lemma TableStepMarks(tables: seq<seq<int>>, g: Game, number: int, t: nat)
    requires TablesFit(tables) && Shaped(tables, g.marks) && t < |tables| && t <= |g.marks|
    ensures var h := TableStep(tables, g, number, t);
      forall i :: 0 <= i < 25 && h.marks[t][i] != RowOr(g.marks, t)[i] ==>
        i < |tables[t]| && tables[t][i] == number && h.marks[t][i]
    ensures var h := TableStep(tables, g, number, t);
      h.winner.None? ==> forall i :: 0 <= i < |tables[t]| && tables[t][i] == number ==> h.marks[t][i]
  {
    var marks := if |g.marks| < t + 1 then g.marks + [Unmarked()] else g.marks;
    assert marks[t] == RowOr(g.marks, t);
    if g.winner.None? {
      ScanChangesOnlyMatches(tables[t], marks[t], number, 0);
      ScanOutcome(tables[t], marks[t], number, 0);
    }
  }

  /** A draw changes a flag only at a cell holding the draw, and only to set it. */
  lemma {:induction false} DrawSetsOnlyMatches(tables: seq<seq<int>>, g: Game, number: int, t: nat)
    requires TablesFit(tables) && Shaped(tables, g.marks) && t <= |tables|
    ensures var h := DrawUpTo(tables, g, number, t);
      forall s, i :: 0 <= s < |h.marks| && 0 <= i < 25 && h.marks[s][i] != RowOr(g.marks, s)[i] ==>
        i < |tables[s]| && tables[s][i] == number && h.marks[s][i]
  {
    if t > 0 {
      var p := DrawUpTo(tables, g, number, t - 1);
      DrawSetsOnlyMatches(tables, g, number, t - 1);
      DrawFrame(tables, g, number, t - 1);
      TableStepFrame(tables, p, number, t - 1);
      TableStepMarks(tables, p, number, t - 1);
      assert RowOr(p.marks, t - 1) == RowOr(g.marks, t - 1);
    }
  }

  /**
   * While no winner is latched, every cell holding the draw in a table the
   * draw has passed is marked.
   */
  lemma {:induction false} DrawMarksEveryMatch(tables: seq<seq<int>>, g: Game, number: int, t: nat)
    requires TablesFit(tables) && Shaped(tables, g.marks) && t <= |tables|
    ensures var h := DrawUpTo(tables, g, number, t);
      h.winner.None? ==>
        forall s, i :: 0 <= s < t && 0 <= i < |tables[s]| && tables[s][i] == number ==> h.marks[s][i]
  {
    if t > 0 {
      var p := DrawUpTo(tables, g, number, t - 1);
      DrawMarksEveryMatch(tables, g, number, t - 1);
      TableStepFrame(tables, p, number, t - 1);
      TableStepMarks(tables, p, number, t - 1);
    }
  }

  /**
   * When a draw latches a winner, the winner is one of the tables the draw
   * has passed, and every table before it had each cell holding the draw
   * marked: the lower tables were marked and checked first, and none of
   * them completed.
   */
  lemma {:induction false} DrawMarksBelowWinner(tables: seq<seq<int>>, g: Game, number: int, t: nat)
    requires TablesFit(tables) && Shaped(tables, g.marks) && t <= |tables|
    requires g.winner.None? && g.winnerIndex.None?
    ensures var h := DrawUpTo(tables, g, number, t);
      h.winnerIndex.Some? ==>
        && h.winnerIndex.value < t
        && forall s, i :: 0 <= s < h.winnerIndex.value && 0 <= i < |tables[s]| && tables[s][i] == number ==> h.marks[s][i]
  {
    if t > 0 {
      var p := DrawUpTo(tables, g, number, t - 1);
      DrawMarksBelowWinner(tables, g, number, t - 1);
      DrawLatch(tables, g, number, t - 1);
      TableStepFrame(tables, p, number, t - 1);
      if p.winnerIndex.None? {
        DrawMarksEveryMatch(tables, g, number, t - 1);
      }
    }
  }

  /** The draw loop keeps its invariant, and a latched draw is one of the draws. */
  lemma {:induction false} PlayConsistent(tables: seq<seq<int>>, draws: seq<int>)
    requires TablesFit(tables)
    ensures Consistent(tables, Play(tables, draws))
    ensures Play(tables, draws).lastDrawn.Some? ==> Play(tables, draws).lastDrawn.value in draws
  {
    if |draws| > 0 {
      var prefix := draws[..|draws| - 1];
      PlayConsistent(tables, prefix);
      var g := Play(tables, prefix);
      DrawConsistent(tables, g, draws[|draws| - 1], |tables|);
      DrawFrame(tables, g, draws[|draws| - 1], |tables|);
      if g.winner.None? {
        DrawLatch(tables, g, draws[|draws| - 1], |tables|);
      }
    }
  }

  /** Flags are never cleared: every flag set after `k` draws is still set after all of them. */
  lemma {:induction false} PlayMarksGrow(tables: seq<seq<int>>, draws: seq<int>, k: nat)
    requires TablesFit(tables) && k <= |draws|
    ensures Grows(Play(tables, draws[..k]).marks, Play(tables, draws).marks)
  {
    if k < |draws| {
      var prefix := draws[..|draws| - 1];
      assert prefix[..k] == draws[..k];
      PlayMarksGrow(tables, prefix, k);
      PlayConsistent(tables, prefix);
      DrawConsistent(tables, Play(tables, prefix), draws[|draws| - 1], |tables|);
      GrowsTransitive(Play(tables, draws[..k]).marks, Play(tables, prefix).marks, Play(tables, draws).marks);
    } else {
      assert draws[..k] == draws;
    }
  }

  /** A table that has passed the win check after `k` draws still passes it after all of them. */
  lemma WonStaysWon(tables: seq<seq<int>>, draws: seq<int>, k: nat, t: nat)
    requires TablesFit(tables) && k <= |draws|
    requires t < |Play(tables, draws[..k]).marks| && Won(Play(tables, draws[..k]).marks[t])
    ensures t < |Play(tables, draws).marks| && Won(Play(tables, draws).marks[t])
  {
    PlayMarksGrow(tables, draws, k);
    WonMonotone(Play(tables, draws[..k]).marks[t], Play(tables, draws).marks[t]);
  }

  lemma {:induction false} LatchedTablesStay(tables: seq<seq<int>>, g: Game, number: int, t: nat)
    requires TablesFit(tables) && Shaped(tables, g.marks) && |g.marks| == |tables| && g.winner.Some?
    requires t <= |tables|
    ensures DrawUpTo(tables, g, number, t) == g
  {
    if t > 0 {
      LatchedTablesStay(tables, g, number, t - 1);
    }
  }

  /**
   * Once a winner is latched, later draws change nothing: neither the
   * latches nor any flag.
   */
  lemma {:induction false} PlayStableAfterWin(tables: seq<seq<int>>, draws: seq<int>, k: nat)
    requires TablesFit(tables) && 1 <= k <= |draws| && Play(tables, draws[..k]).winner.Some?
    ensures Play(tables, draws) == Play(tables, draws[..k])
  {
    if k < |draws| {
      var prefix := draws[..|draws| - 1];
      assert prefix[..k] == draws[..k];
      PlayStableAfterWin(tables, prefix, k);
      LatchedTablesStay(tables, Play(tables, prefix), draws[|draws| - 1], |tables|);
    } else {
      assert draws[..k] == draws;
    }
  }

  /**
   * On the draw that latches the winner: the latched draw is that draw,
   * the winning table passes the win check, no other table does, every
   * table before the winner has each cell holding that draw marked, and
   * every table after the winner has the flags it had before that draw.
   * So when several tables complete on one draw, the lowest index wins.
   */
  lemma WinningDraw(tables: seq<seq<int>>, draws: seq<int>)
    requires TablesFit(tables) && |draws| >= 1
    requires Play(tables, draws[..|draws| - 1]).winner.None? && Play(tables, draws).winner.Some?
    ensures var g := Play(tables, draws);
      && g.winnerIndex.Some? && g.winnerIndex.value < |tables|
      && g.winner == Some(tables[g.winnerIndex.value])
      && g.lastDrawn == Some(draws[|draws| - 1])
      && Won(g.marks[g.winnerIndex.value])
      && (forall t :: 0 <= t < |tables| && t != g.winnerIndex.value ==> !Won(g.marks[t]))
      && (forall s, i :: 0 <= s < g.winnerIndex.value && 0 <= i < |tables[s]| && tables[s][i] == draws[|draws| - 1] ==>
            g.marks[s][i])
      && (forall t :: g.winnerIndex.value < t < |tables| ==>
            g.marks[t] == RowOr(Play(tables, draws[..|draws| - 1]).marks, t))
  {
    var prefix := draws[..|draws| - 1];
    PlayConsistent(tables, prefix);
    PlayConsistent(tables, draws);
    DrawLatch(tables, Play(tables, prefix), draws[|draws| - 1], |tables|);
    DrawMarksBelowWinner(tables, Play(tables, prefix), draws[|draws| - 1], |tables|);
  }

  /**
   * On a row that has not won and has every cell holding the draw marked
   * from digit `d` on, the digit loop changes nothing and reports no win.
   */
  lemma {:induction false} ScanSettled(table: seq<int>, row: seq<bool>, number: int, d: nat)
    requires |table| <= |row| && d <= |table| && !Won(row)
    requires forall i :: d <= i < |table| && table[i] == number ==> row[i]
    ensures ScanTable(table, row, number, d) == (row, false)
    decreases |table| - d
  {
    if d < |table| {
      if table[d] == number {
        assert row[d := true] == row;
      }
      ScanSettled(table, row, number, d + 1);
    }
  }

  /**
   * Without a winner, a draw whose every cell is already marked, on tables
   * none of which has won, changes nothing.
   */
  lemma {:induction false} DrawSettled(tables: seq<seq<int>>, g: Game, number: int, t: nat)
    requires TablesFit(tables) && Shaped(tables, g.marks) && |g.marks| == |tables| && g.winner.None?
    requires forall s :: 0 <= s < |tables| ==> !Won(g.marks[s])
    requires forall s, i :: 0 <= s < |tables| && 0 <= i < |tables[s]| && tables[s][i] == number ==> g.marks[s][i]
    requires t <= |tables|
    ensures DrawUpTo(tables, g, number, t) == g
  {
    if t > 0 {
      DrawSettled(tables, g, number, t - 1);
      ScanSettled(tables[t - 1], g.marks[t - 1], number, 0);
      assert g.marks[t - 1 := g.marks[t - 1]] == g.marks;
    }
  }

  /**
   * While no table has won, drawing again a number already drawn changes
   * nothing: marking is idempotent.
   */
  lemma RedrawChangesNothing(tables: seq<seq<int>>, draws: seq<int>, k: nat)
    requires TablesFit(tables) && k < |draws| && Play(tables, draws).winner.None?
    ensures Play(tables, draws + [draws[k]]) == Play(tables, draws)
  {
    var g := Play(tables, draws);
    var number := draws[k];
    var upTo := draws[..k + 1];
    assert upTo[..k + 1] == upTo && upTo[k] == number;
    if Play(tables, upTo).winner.Some? {
      PlayStableAfterWin(tables, draws, k + 1);
      assert false;
    }
    NoWinnerMarksEveryMatch(tables, upTo);
    PlayMarksGrow(tables, draws, k + 1);
    PlayConsistent(tables, draws);
    DrawSettled(tables, g, number, |tables|);
    assert (draws + [number])[..|draws|] == draws;
  }

  /**
   * Without a latched winner, after each draw every cell holding that draw
   * is marked (the digit loop does not stop after a mark that does not win).
   */
  lemma NoWinnerMarksEveryMatch(tables: seq<seq<int>>, draws: seq<int>)
    requires TablesFit(tables) && |draws| >= 1 && Play(tables, draws).winner.None?
    ensures var g := Play(tables, draws);
      forall t, i :: 0 <= t < |tables| && 0 <= i < |tables[t]| && tables[t][i] == draws[|draws| - 1] ==> g.marks[t][i]
  {
    var prefix := draws[..|draws| - 1];
    PlayConsistent(tables, prefix);
    DrawMarksEveryMatch(tables, Play(tables, prefix), draws[|draws| - 1], |tables|);
  }

  /** A flag changed by a draw is a cell holding that draw, and it was set, not cleared. */
  lemma DrawChangesOnlyMatches(tables: seq<seq<int>>, draws: seq<int>)
    requires TablesFit(tables) && |draws| >= 1
    ensures var before := Play(tables, draws[..|draws| - 1]);
      var after := Play(tables, draws);
      forall t, i :: 0 <= t < |tables| && 0 <= i < 25 && after.marks[t][i] != RowOr(before.marks, t)[i] ==>
        i < |tables[t]| && tables[t][i] == draws[|draws| - 1] && after.marks[t][i]
  {
    var prefix := draws[..|draws| - 1];
    PlayConsistent(tables, prefix);
    DrawSetsOnlyMatches(tables, Play(tables, prefix), draws[|draws| - 1], |tables|);
  }

  /** The sum of a table's numbers at unmarked cells, in index order. */
  function UnmarkedSum(table: seq<int>, row: seq<bool>): int
    requires |table| <= |row|
  {
    if |table| == 0 then 0
    else UnmarkedSum(table[..|table| - 1], row) + (if row[|table| - 1] then 0 else table[|table| - 1])
  }

  /** The sum of a table's numbers at marked cells. */
  function MarkedSum(table: seq<int>, row: seq<bool>): int
    requires |table| <= |row|
  {
    if |table| == 0 then 0
    else MarkedSum(table[..|table| - 1], row) + (if row[|table| - 1] then table[|table| - 1] else 0)
  }

  /** The sum of all of a table's numbers. */
  function Total(table: seq<int>): int
  {
    if |table| == 0 then 0 else Total(table[..|table| - 1]) + table[|table| - 1]
  }

  /**
   * The score: the winner's unmarked sum times the latched draw. Unwrapping
   * `winner` or `last_drawn` when no table won, or reading a flag past the
   * winner's flag vector, panics.
   */
  function Score(g: Game): Result<int>
  {
    if g.winner.None? || g.winnerIndex.None? || g.lastDrawn.None? then Panic
    else if g.winnerIndex.value < |g.marks| && |g.winner.value| <= |g.marks[g.winnerIndex.value]| then
      Ok(UnmarkedSum(g.winner.value, g.marks[g.winnerIndex.value]) * g.lastDrawn.value)
    else Panic
  }

  /** The unmarked and the marked numbers together make up the whole table. */
  lemma {:induction false} UnmarkedPlusMarked(table: seq<int>, row: seq<bool>)
    requires |table| <= |row|
    ensures UnmarkedSum(table, row) + MarkedSum(table, row) == Total(table)
  {
    if |table| > 0 {
      UnmarkedPlusMarked(table[..|table| - 1], row);
    }
  }

  /**
   * Under the draw loop's invariant the score panics exactly when no
   * table won, and otherwise is the winner's total less its marked
   * numbers, times the latched draw.
   */
  lemma ScoreOfConsistent(tables: seq<seq<int>>, g: Game)
    requires TablesFit(tables) && Consistent(tables, g)
    ensures Score(g).Ok? <==> g.winner.Some?
    ensures Score(g).Ok? ==>
      var w := g.winnerIndex.value;
      Score(g).value == (Total(tables[w]) - MarkedSum(tables[w], g.marks[w])) * g.lastDrawn.value
  {
    if g.winner.Some? {
      var w := g.winnerIndex.value;
      UnmarkedPlusMarked(tables[w], g.marks[w]);
    }
  }

  /**
   * If no draw appears on any table, no flag is ever set, no table wins,
   * and unwrapping the winner panics.
   */
  lemma {:induction false} NoMatchNoWinner(tables: seq<seq<int>>, draws: seq<int>)
    requires TablesFit(tables)
    requires forall k, t :: 0 <= k < |draws| && 0 <= t < |tables| ==> draws[k] !in tables[t]
    ensures Play(tables, draws).winner.None?
    ensures forall t :: 0 <= t < |Play(tables, draws).marks| ==> Play(tables, draws).marks[t] == Unmarked()
    ensures Score(Play(tables, draws)) == Panic
  {
    if |draws| > 0 {
      var prefix := draws[..|draws| - 1];
      var number := draws[|draws| - 1];
      NoMatchNoWinner(tables, prefix);
      var g := Play(tables, prefix);
      var h := Play(tables, draws);
      PlayConsistent(tables, prefix);
      PlayConsistent(tables, draws);
      DrawSetsOnlyMatches(tables, g, number, |tables|);
      forall t | 0 <= t < |h.marks|
        ensures h.marks[t] == Unmarked()
      {
        assert RowOr(g.marks, t) == Unmarked();
        forall i | 0 <= i < 25
          ensures h.marks[t][i] == Unmarked()[i]
        {
          assert number !in tables[t];
        }
      }
      UnmarkedDoesNotWin();
    }
  }

  const I8_MIN: int := -128
  const I8_MAX: int := 127
  const I32_MIN: int := -0x8000_0000
  const I32_MAX: int := 0x7FFF_FFFF

  predicate AllI8(s: seq<int>)
  {
    forall k :: 0 <= k < |s| ==> I8_MIN <= s[k] <= I8_MAX
  }

  lemma {:induction false} UnmarkedSumBound(table: seq<int>, row: seq<bool>)
    requires |table| <= |row| && AllI8(table)
    ensures I8_MIN * |table| <= UnmarkedSum(table, row) <= I8_MAX * |table|
  {
    if |table| > 0 {
      UnmarkedSumBound(table[..|table| - 1], row);
    }
  }

  lemma ProductBound(a: int, b: int)
    requires -3200 <= a <= 3200 && -128 <= b <= 128
    ensures -409600 <= a * b <= 409600
  {
    var x := if a < 0 then -a else a;
    var y := if b < 0 then -b else b;
    assert a * b == x * y || a * b == -(x * y);
    MagnitudeBound(x, y);
  }

  lemma MagnitudeBound(x: nat, y: nat)
    requires x <= 3200 && y <= 128
    ensures x * y <= 409600
  {
    assert x * y <= 3200 * y;
  }

  /**
   * With `i8` tables and draws, the score (and each partial sum of at most
   * 25 numbers before it) fits the `i32` it is computed in.
   */
  lemma ScoreFitsI32(tables: seq<seq<int>>, draws: seq<int>)
    requires TablesFit(tables) && AllI8(draws)
    requires forall t :: 0 <= t < |tables| ==> AllI8(tables[t])
    ensures Score(Play(tables, draws)).Ok? ==> I32_MIN <= Score(Play(tables, draws)).value <= I32_MAX
  {
    var g := Play(tables, draws);
    PlayConsistent(tables, draws);
    if Score(g).Ok? {
      var w := g.winnerIndex.value;
      UnmarkedSumBound(tables[w], g.marks[w]);
      ProductBound(UnmarkedSum(tables[w], g.marks[w]), g.lastDrawn.value);
    }
  }

  /** `main` after parsing: play every draw, then score the latched winner. */
  method Bingo(tables: seq<seq<int>>, drawnNumbers: seq<int>) returns (result: Result<int>)
    requires TablesFit(tables)
    ensures result == Score(Play(tables, drawnNumbers))
    ensures result.Ok? <==> Play(tables, drawnNumbers).winner.Some?
  {
    var game := PlayBingo(tables, drawnNumbers);
    PlayConsistent(tables, drawnNumbers);
    ScoreOfConsistent(tables, game);
    result := Score(game);
  }
}
