/**
 * Win detection of the bingo engine (day-04), `check_if_a_table_won`.
 * A table's marks are 25 flags in row-major order (index = row * 5 + column).
 * The check accepts any fully marked chunk of five (a row), but its column
 * loop runs `column_n` over 1..5 and tests `column_n - 1`, so only columns
 * 0 to 3 are ever checked: a fully marked fifth column does not win.
 */
module BingoWin {

  /** Every flag is set (`iter().all(|b| *b)`). */
  predicate AllMarked(s: seq<bool>)
  {
    forall i :: 0 <= i < |s| ==> s[i]
  }

  /** Chunk `r` of `chunks(5)`: flags `5r .. 5r + 5`, cut at the end. */
  predicate RowMarked(marks: seq<bool>, r: nat)
  {
    forall i :: 5 * r <= i < 5 * r + 5 && i < |marks| ==> marks[i]
  }

  /** Every flag whose index is `c` modulo 5. */
  predicate ColumnMarked(marks: seq<bool>, c: nat)
  {
    forall i :: 0 <= i < |marks| && i % 5 == c ==> marks[i]
  }

  /** The win condition as the source checks it: some row chunk, or one of columns 0 to 3. */
  predicate Won(marks: seq<bool>)
  {
    (exists r: nat :: r < |marks| && 5 * r < |marks| && RowMarked(marks, r))
    || (exists c: nat :: c < 4 && ColumnMarked(marks, c))
  }

  /** `skip(start).step_by(5)`: the flags at `start`, `start + 5`, `start + 10`, ... */
  function StepBy5(s: seq<bool>, start: nat): (r: seq<bool>)
    ensures start + 5 * |r| >= |s|
    ensures forall k :: 0 <= k < |r| ==> start + 5 * k < |s| && r[k] == s[start + 5 * k]
    decreases |s| - start
  {
    if start >= |s| then [] else [s[start]] + StepBy5(s, start + 5)
  }

  lemma ColumnIndex(i: int, c: nat)
    requires 0 <= i && c < 5 && i % 5 == c
    ensures i == c + 5 * (i / 5)
  {
  }

  lemma ColumnOfIndex(c: nat, k: nat)
    requires c < 5
    ensures (c + 5 * k) % 5 == c
  {
    if k > 0 {
      ColumnOfIndex(c, k - 1);
      assert c + 5 * k == (c + 5 * (k - 1)) + 5;
    }
  }

  /** Stepping from column `c` visits exactly the flags of column `c`. */
  lemma ColumnIsStep(s: seq<bool>, c: nat)
    requires c < 5
    ensures AllMarked(StepBy5(s, c)) <==> ColumnMarked(s, c)
  {
    var r := StepBy5(s, c);
    if AllMarked(r) {
      forall i | 0 <= i < |s| && i % 5 == c ensures s[i] {
        var k := i / 5;
        ColumnIndex(i, c);
        assert k < |r|;
        assert r[k] == s[i];
      }
    }
    if ColumnMarked(s, c) {
      forall k | 0 <= k < |r| ensures r[k] {
        ColumnOfIndex(c, k);
      }
    }
  }

  /**
   * `check_if_a_table_won`: a loop over the row chunks and a loop over
   * `column_n` in 1..5, each setting `did_it_win` on an all-marked run.
   */
  method CheckIfATableWon(marks: seq<bool>) returns (didItWin: bool)
    ensures didItWin == Won(marks)
  {
    didItWin := false;
    var r := 0;
    while 5 * r < |marks|
      invariant r == 0 || 5 * (r - 1) < |marks|
      invariant didItWin == exists q: nat :: q < r && RowMarked(marks, q)
      decreases |marks| - 5 * r
    {
      var horizontal := marks[5 * r .. if 5 * r + 5 < |marks| then 5 * r + 5 else |marks|];
      assert AllMarked(horizontal) <==> RowMarked(marks, r) by {
        assert forall i :: 5 * r <= i < 5 * r + |horizontal| ==> horizontal[i - 5 * r] == marks[i];
      }
      if AllMarked(horizontal) {
        didItWin := true;
      }
      r := r + 1;
    }
    assert (exists q: nat :: q < r && RowMarked(marks, q))
       <==> (exists q: nat :: q < |marks| && 5 * q < |marks| && RowMarked(marks, q));
    ghost var rowWin := didItWin;

    for columnN := 1 to 5
      invariant didItWin == (rowWin || exists c: nat :: c < columnN - 1 && ColumnMarked(marks, c))
    {
      ColumnIsStep(marks, columnN - 1);
      if AllMarked(StepBy5(marks, columnN - 1)) {
        didItWin := true;
      }
    }
  }

  /** Marks only ever get set, and a won table stays won when more marks are set. */
  lemma WonMonotone(before: seq<bool>, after: seq<bool>)
    requires |before| == |after|
    requires forall i :: 0 <= i < |before| && before[i] ==> after[i]
    requires Won(before)
    ensures Won(after)
  {
    if r: nat :| r < |before| && 5 * r < |before| && RowMarked(before, r) {
      assert RowMarked(after, r);
    } else {
      var c: nat :| c < 4 && ColumnMarked(before, c);
      assert ColumnMarked(after, c);
    }
  }

  /** A table whose only marks are the fifth column has not won. */
  lemma FifthColumnAloneDoesNotWin()
    ensures !Won(seq(25, i => i % 5 == 4))
  {
    var marks := seq(25, i => i % 5 == 4);
    forall r: nat | 5 * r < 25 ensures !RowMarked(marks, r) {
      assert !marks[5 * r];
    }
    forall c: nat | c < 4 ensures !ColumnMarked(marks, c) {
      assert !marks[c];
    }
  }

  /** Any single full row of a 5 x 5 table wins, with every other cell unmarked. */
  lemma SingleRowWins(r: nat)
    requires r < 5
    ensures Won(seq(25, i => i / 5 == r))
  {
    assert RowMarked(seq(25, i => i / 5 == r), r);
  }

  /** Any single full column among the first four wins, with every other cell unmarked. */
  lemma SingleColumnWins(c: nat)
    requires c < 4
    ensures Won(seq(25, i => i % 5 == c))
  {
    assert ColumnMarked(seq(25, i => i % 5 == c), c);
  }

  /** A 5 x 5 table with no marks has not won. */
  lemma UnmarkedDoesNotWin()
    ensures !Won(seq(25, i => false))
  {
    var marks := seq(25, i => false);
    assert !RowMarked(marks, 0) by { assert !marks[0]; }
    forall r: nat | 5 * r < 25 ensures !RowMarked(marks, r) {
      assert !marks[5 * r];
    }
    forall c: nat | c < 4 ensures !ColumnMarked(marks, c) {
      assert !marks[c];
    }
  }
}
