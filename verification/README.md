# Advent of Code 2021, days 1–4, in Dafny

This project models the four Rust solvers in `day-01` … `day-04` and proves
properties of the model:

- **Sonar sweep (day-01)** (`sonar_sweep.dfy`, module `SonarSweep`). Part I
  counts the depth readings that are deeper than the reading before them.
  Part II counts the three-reading sliding windows whose sum exceeds the
  previous window's sum. It uses the source's `previous`, `before_previous`
  and `previous_window` variables and its saturating `buffer` counter.
- **Dive (day-02)** (`dive.dfy`, module `Dive`). A `Position { x, y, aim }`
  object is updated in place by two loops over the commands. Part I applies
  forward/up/down directly. Part II resets `x` and `y` and steers through
  `aim`.
- **Binary diagnostic (day-03)**, in three files:
  - `diagnostic_bits.dfy`, module `BinaryStrings`: the three bit inverters
    and `calc_result`, with base-2 values and `u8` rendering;
  - `diagnostic_gamma.dfy`, module `Gamma`: the most-common-bit string;
  - `diagnostic_rating.dfy`, module `Rating`: `filter_values`,
    `get_meter_reading` and `main`.
- **Giant squid bingo (day-04)**, in three files:
  - `bingo_boards.dfy`, module `BingoBoards`: the fixed-width board-line
    tokenizer and the grouping into flat tables;
  - `bingo_win.dfy`, module `BingoWin`: `check_if_a_table_won`;
  - `bingo_game.dfy`, module `BingoGame`: the draw/mark/latch loop and the
    score.

`sequences.dfy` (module `Sequences`) defines what it means for one
sequence to be an order-preserving selection of another. Both line filters
use it.

`outcome.dfy` holds two shared datatypes:

- `Result<T> = Ok | Panic`, where `Panic` stands for a Rust `unwrap` failure
  or an out-of-range index;
- `Option<T>`.

The loops of the source become methods. Each method is proved equal to a
specification function that is defined over prefixes of the input. The
properties the code promises are then lemmas about those functions.

The bingo model follows the code where a prose description of the game
would differ:

- Tables are marked and checked one at a time, in index order, within each
  draw. The first table to pass the check is latched, and later tables are
  not marked for that draw.
- Once a winner is latched, every later draw changes nothing.
- The win check tests all five rows but only columns 0–3.
- With no winner, the score is a panic.

## Model

| member | source | states |
|---|---|---|
| SonarSweep.CountIncreases | day-01/src/main.rs:14-29 | The Part I loop returns the number of positions `i >= 1` with `a[i] > a[i-1]`. The first reading is never counted, because `init` is still false on it. |
| SonarSweep.CountWindowIncreases | day-01/src/main.rs:35-55 | The Part II loop, with its saturating `buffer` and the dead `!init` disjunct, returns the number of positions `i >= 3` whose window sum exceeds the previous window sum. It requires every window sum to fit a `u32`. |
| SonarSweep.IncreasesBound | day-01/src/main.rs:21-29 | The Part I count is at most `n - 1`, and 0 for an empty report. |
| SonarSweep.IncreasesZeroIffNonIncreasing | day-01/src/main.rs:23-26 | The Part I count is 0 exactly when no reading is deeper than the one before it. |
| SonarSweep.WindowIncreasesIsShift | day-01/src/main.rs:42-50 | For `i >= 3`, comparing the window `a[i]+a[i-1]+a[i-2]` with the previous window is the same as comparing `a[i]` with `a[i-3]`. The Part II count equals the count of those positions. |
| SonarSweep.WindowIncreasesBound | day-01/src/main.rs:40-54 | The Part II count is at most `max(n - 3, 0)`. |
| Dive.Position.constructor | day-02/src/main.rs:11-15 | A position starts with the given `x`, `y` and `aim`. |
| Dive.Position.PartOne | day-02/src/main.rs:21-34 | The Part I loop leaves the position equal to the Part I fold of the commands over the old position: `forward` adds to `y`, `up` subtracts from `x`, `down` adds to `x`, and anything else changes nothing. `aim` is never written. |
| Dive.Position.PartTwo | day-02/src/main.rs:42-56 | The Part II loop leaves the position equal to the Part II fold of the commands over the old position: `forward` adds to `y` and adds unit × aim to `x`, and `up`/`down` change `aim`. |
| Dive.RunOneClosedForm | day-02/src/main.rs:21-34 | After Part I, `y` has gained the sum of the forward units and `x` the downs minus the ups. `aim` is unchanged. |
| Dive.RunTwoClosedForm | day-02/src/main.rs:42-56 | After Part II, `y` has again gained the sum of the forward units and `aim` the downs minus the ups. `x` has gained, for each forward command, its unit times the aim at that moment. |
| Dive.ClassifyIgnoresCase | day-02/src/main.rs:26-33 | Command words that are equal ignoring ASCII case take the same branch. |
| Dive.Navigate | day-02/src/main.rs:17-58 | `main` reports `(downs - ups) × forwards` for Part I. For Part II it reports `(Σ forward unit × aim so far) × forwards`, because aim is still 0 on entry to Part II. |
| BinaryStrings.InvertBinaryString | day-03/src/main.rs:140-151 | The loop returns the input with '1' mapped to '0' and '0' mapped to '1', in order, and every other character dropped. |
| BinaryStrings.ComplementOfBinary | day-03/src/main.rs:140-151 | On a 0/1 string the inversion keeps the length, flips every position and yields a 0/1 string. |
| BinaryStrings.ComplementLength | day-03/src/main.rs:143-148 | The inversion is never longer than its input. It has the same length exactly when the input is all 0/1. |
| BinaryStrings.ComplementInvolution | day-03/src/main.rs:140-151 | Inverting a 0/1 string twice gives it back. |
| BinaryStrings.InvertAnother | day-03/src/main.rs:158-168 | XOR-ing every byte with 1 keeps the length. Each output code is the input code plus one when it is even and minus one when it is odd. This flips the lowest bit, stated without XOR. |
| BinaryStrings.AnotherAgreesOnBinary | day-03/src/main.rs:158-168 | On a 0/1 string the byte XOR agrees with `invert_binary_string`. |
| BinaryStrings.AnotherDiffersOffBinary | day-03/src/main.rs:143-148 | Off 0/1 input the two inverters differ: "2" becomes "3" under XOR but is dropped by `invert_binary_string`. |
| BinaryStrings.ParseBinary | day-03/src/main.rs:55-56 | `from_str_radix(_, 2)` succeeds exactly on non-empty 0/1 strings. The value of an `n`-digit string is below `2^n`. |
| BinaryStrings.ParseBinaryRoundTrip | day-03/src/main.rs:55-56 | Parsing the `{:b}` rendering of any number gives that number back. |
| BinaryStrings.RenderingOfParse | day-03/src/main.rs:55-56 | Rendering the parsed value of a 0/1 string with no leading zero gives the string back. |
| BinaryStrings.ParseU8 | day-03/src/main.rs:154 | A successful `u8` parse is at most 255 and equals the wide parse. On 0/1 strings of one to eight digits it always agrees with the wide parse. |
| BinaryStrings.ToBinary | day-03/src/main.rs:155 | `{:b}` renders at least one digit and only 0/1 digits. |
| BinaryStrings.CalcResult | day-03/src/main.rs:54-58 | `calc_result` succeeds exactly when both strings parse in base 2. It then returns the product of the two base-2 values, which is below 2 to the power of the two strings' lengths added. |
| BinaryStrings.CalcResultOfBinary | day-03/src/main.rs:54-58 | On two non-empty 0/1 strings the result is the product of their base-2 values. |
| BinaryStrings.ComplementValue | day-03/src/main.rs:21-24 | A 0/1 string of length `n` and its inversion have values that add up to `2^n - 1`. |
| BinaryStrings.PowerConsumption | day-03/src/main.rs:21-24 | Part I's result is `γ × (2^n - 1 - γ)`, where `γ` is the gamma value. |
| BinaryStrings.BinaryValueBound | day-03/src/main.rs:55-56 | A string of `n` digits has a value below `2^n`. |
| BinaryStrings.ToBinaryShifted | day-03/src/main.rs:155 | Rendering `p` shifted left past the digits `t` renders `p` followed by `t`. |
| BinaryStrings.ToBinaryLengthAtMost | day-03/src/main.rs:155 | A value below `2^k` renders in at most `k` digits. |
| BinaryStrings.ToBinaryLengthAtLeast | day-03/src/main.rs:155 | A value of at least `2^(k-1)` renders in at least `k` digits. |
| BinaryStrings.AlternativeAgreesOnFiveBits | day-03/src/main.rs:153-156 | On a 5-digit 0/1 string the `u8` complement minus its three leading digits equals the inversion. |
| BinaryStrings.AlternativeShortInput | day-03/src/main.rs:153-156 | On a shorter 0/1 string it still returns 5 digits, so it pads. |
| BinaryStrings.AlternativeLongInput | day-03/src/main.rs:153-156 | On a longer 0/1 string any result has at most 5 digits. |
| BinaryStrings.AlternativeAgreesIffFiveBits | day-03/src/main.rs:153-156 | On a non-empty 0/1 string it agrees with the inversion exactly when the input has 5 digits. |
| BinaryStrings.InvertsMcbLcb | day-03/src/main.rs:174-182 | All three inverters map "10110" to "01001". |
| BinaryStrings.ValueOfTwentyTwo | day-03/src/main.rs:189-190 | "10110" has base-2 value 22. |
| BinaryStrings.CalculatesResult | day-03/src/main.rs:193-199 | "10110" parses to 22, and `calc_result("10110", "01001")` is 198. |
| Gamma.ParseGamma | day-03/src/main.rs:60-92 | The loops return one 0/1 character per position up to the longest line. A position is '1' exactly when more lines hold '1' there than hold anything else, so a tie gives '0'. |
| Gamma.ColumnNonEmpty | day-03/src/main.rs:64-74 | Every position below the longest line's length collects at least one character. |
| Gamma.ColumnBeyondWidth | day-03/src/main.rs:64-74 | No character is collected past the longest line. |
| Rating.FilterValues | day-03/src/main.rs:94-138 | `filter_values` panics exactly when some entry is shorter than `index + 1`. Otherwise it returns an order-preserving subsequence. That subsequence holds every copy of each entry whose character at `index` is the chosen bit, and nothing else. |
| Rating.KeepCounts | day-03/src/main.rs:129-137 | The filter keeps as many copies of an entry as the input has when the entry holds the kept bit, and none otherwise. |
| Rating.KeepIsSubsequence | day-03/src/main.rs:129-137 | The filter keeps entries in their original order. |
| Rating.KeepMembers | day-03/src/main.rs:129-137 | An entry survives exactly when its character at `index` is the kept bit. |
| Rating.KeepSplit | day-03/src/main.rs:100-110 | On 0/1 entries the '1' group and the '0' group together account for every entry. |
| Rating.O2RoundKeepsSome | day-03/src/main.rs:113-119 | An O2 round over at least one 0/1 entry keeps at least one entry. |
| Rating.CO2RoundWithoutZeroEmpties | day-03/src/main.rs:120-126 | A CO2 round where no entry has '0' at `index` keeps nothing. |
| Rating.CO2PanicsWithoutLeadingZero | day-03/src/main.rs:41-52 | With two or more entries that all start with '1', the CO2 reading panics on `values[0]`. |
| Rating.IdenticalEntriesPanic | day-03/src/main.rs:46-51 | Two or more identical entries make either rating panic. The rounds run past the end of the line, or the list empties. |
| Rating.O2ReadingExists | day-03/src/main.rs:41-52 | With distinct 0/1 entries of one width, the O2 rounds end with exactly one entry, so no panic. |
| Rating.O2Settles | day-03/src/main.rs:46-49 | From any round where the survivors share a prefix up to `index`, the O2 rounds end with exactly one entry. |
| Rating.MeterReadingIsEntry | day-03/src/main.rs:41-52 | A reading that does not panic is one of the input lines. |
| Rating.SettleSelects | day-03/src/main.rs:46-49 | Every entry that survives the rounds was in the input. |
| Rating.MeterReadings.constructor | day-03/src/main.rs:36-45 | The readings start with the given values and index. |
| Rating.GetMeterReading | day-03/src/main.rs:41-52 | The `while` loop returns the first survivor of the refiltering rounds with `index`, `index + 1`, and so on. It panics when a round panics or leaves nothing. A result is always an input line. |
| Rating.Diagnose | day-03/src/main.rs:16-34 | Part I is `calc_result(γ, invert(γ))` and succeeds exactly when some line is non-empty. Part II is `calc_result(o2, co2)` of the two readings and panics when either reading panics. |
| BingoWin.CheckIfATableWon | day-04/src/main.rs:109-126 | The flag loops return true exactly when some 5-flag row is fully marked or one of columns 0–3 is fully marked. |
| BingoWin.ColumnIsStep | day-04/src/main.rs:120 | `skip(c).step_by(5)` visits exactly the flags of column `c`. |
| BingoWin.FifthColumnAloneDoesNotWin | day-04/src/main.rs:119-123 | A fully marked fifth column alone does not win. |
| BingoWin.SingleRowWins | day-04/src/main.rs:112-116 | Any one fully marked row wins. |
| BingoWin.SingleColumnWins | day-04/src/main.rs:119-123 | Any one fully marked column among 0–3 wins. |
| BingoWin.WonMonotone | day-04/src/main.rs:65-72 | Setting more flags never undoes a win. |
| BingoWin.UnmarkedDoesNotWin | day-04/src/main.rs:65 | A table with no flags set does not win. |
| BingoBoards.KeptCharsIndex | day-04/src/main.rs:27-32 | Dropping every character at `i` with `(i+1) % 3 == 0` keeps `n - n/3` characters. The k-th kept character is `line[k + k/2]`. |
| BingoBoards.Trim | day-04/src/main.rs:39 | The trimmed pair is a slice of the pair with only whitespace before and after it, and it neither starts nor ends with whitespace. So exactly the leading and trailing whitespace is removed. |
| BingoBoards.ParseI8 | day-04/src/main.rs:40 | A parsed number lies in `-128..=127`. |
| BingoBoards.ParseI8RoundTrip | day-04/src/main.rs:40 | `parse::<i8>` reads back the decimal writing of every integer in `-128..=127`, also with a leading `+` on a non-negative one, and rejects the writing of every integer outside that range. |
| BingoBoards.PairNumbers | day-04/src/main.rs:35-43 | The line parses exactly when the kept characters are of even length and every trimmed pair parses as an `i8`. Number `j` is then the parse of trimmed pair `j`, one number per pair. |
| BingoBoards.NonEmptyMembers | day-04/src/main.rs:26 | The filtered lines are exactly the non-empty board lines. |
| BingoBoards.NonEmptyInOrder | day-04/src/main.rs:26 | The filtered lines keep their original order. |
| BingoBoards.NonEmptyCopies | day-04/src/main.rs:26 | The filter keeps every copy of a non-empty line and drops every empty one. |
| BingoBoards.AddRow | day-04/src/main.rs:45-53 | Pushing a new table when needed and appending the row's numbers to `tables[table_index]` gives the grouping of the rows read so far. `table_index` advances after every fifth line. |
| BingoBoards.ParseTables | day-04/src/main.rs:23-54 | The board loop returns, for each run of five consecutive non-empty lines, one table holding their numbers in order. It panics when any line has a pair that does not parse. |
| BingoBoards.ParseRowsOk | day-04/src/main.rs:26-43 | The board lines parse exactly when every line parses. |
| BingoBoards.ParseRowsValues | day-04/src/main.rs:26-43 | The k-th parsed row is the numbers of the k-th line. |
| BingoBoards.GroupIndex | day-04/src/main.rs:45-53 | Table `j` is the concatenation of rows `5j` to `5j+4`. |
| BingoBoards.GroupKeepsNumbers | day-04/src/main.rs:45-53 | The tables, laid end to end, hold exactly the numbers of all rows in order. |
| BingoBoards.FieldParses | day-04/src/main.rs:38-41 | A space-or-digit then digit field parses to its two-digit value, which is at most 99. |
| BingoBoards.WellFormedLineParses | day-04/src/main.rs:27-43 | A fixed-width line of five fields gives exactly those five numbers, each in `0..=99`. |
| BingoBoards.WellFormedTables | day-04/src/main.rs:23-54 | Well-formed boards, five lines each, parse into tables of exactly 25 numbers in `0..=99`. |
| BingoGame.PlayBingo | day-04/src/main.rs:56-89 | The draw loop's final marks and latches equal the game obtained by applying each draw to the tables in index order. |
| BingoGame.PlayConsistent | day-04/src/main.rs:62-89 | After any draws the three latches are all set or all unset. A latched winner is the table at the latched index, its flags pass the win check, and it contains the latched draw, which is one of the draws. No other table passes the check. |
| BingoGame.PlayMarksGrow | day-04/src/main.rs:65-72 | Flags are only ever set: every flag set after `k` draws is still set after all draws. |
| BingoGame.WonStaysWon | day-04/src/main.rs:65-74 | A table that passes the win check keeps passing it after later draws. |
| BingoGame.PlayStableAfterWin | day-04/src/main.rs:82-84 | Once a winner is latched, later draws change no flag and no latch. |
| BingoGame.WinningDraw | day-04/src/main.rs:63-85 | On the draw that sets the latches, the winner is the latched table, its flags pass the check, and the last draw is that draw. It is the only table that passes the check. Every lower table has each cell equal to the draw marked, and every higher table keeps its flags from before the draw. So when several tables complete on one draw, the lowest index wins. |
| BingoGame.NoWinnerMarksEveryMatch | day-04/src/main.rs:68-74 | While no winner exists, a draw sets the flag of every cell equal to it, in every table. |
| BingoGame.RedrawChangesNothing | day-04/src/main.rs:63-85 | While no table has won, drawing again a number that was already drawn changes no flag and no latch. |
| BingoGame.DrawChangesOnlyMatches | day-04/src/main.rs:68-74 | A draw changes only flags of cells equal to the draw, and only from false to true. |
| BingoGame.ScanOutcome | day-04/src/main.rs:68-80 | A table's digit loop reports a win only when its flags pass the check and it holds the draw. Otherwise it has marked every matching cell from where it started. |
| BingoGame.NoMatchNoWinner | day-04/src/main.rs:62-104 | When no draw occurs on any table, nothing is marked, no table wins, and unwrapping the winner panics. |
| BingoGame.UnmarkedPlusMarked | day-04/src/main.rs:96-103 | A table's unmarked sum and marked sum together make its total. |
| BingoGame.ScoreOfConsistent | day-04/src/main.rs:92-104 | The score exists exactly when a winner is latched. It is then (the winner's total minus its marked sum) × the last draw. |
| BingoGame.UnmarkedSumBound | day-04/src/main.rs:96-103 | For `i8` numbers the unmarked sum lies between `-128·n` and `127·n`. |
| BingoGame.ScoreFitsI32 | day-04/src/main.rs:92-104 | With `i8` draws and table numbers, the score fits in an `i32`. |
| BingoGame.Bingo | day-04/src/main.rs:55-104 | `main` after parsing returns the winning table's unmarked sum × the last draw. It succeeds exactly when some table won. |

## Left out

- Command-line parsing (`structopt`), reading the input file, splitting it into lines, and `println!` are not modelled. Every model takes the lines or the parsed values as parameters.
- Number parsing is not modelled in these places. The inputs are taken as already-parsed values:
  - day-01: the per-line `u32` parse (day-01/src/main.rs:22, 42);
  - day-02: the command split and `isize` parse (day-02/src/main.rs:22-24, 43-45);
  - day-04: the draw line's `i8` parse (day-04/src/main.rs:18-21).
- BinaryStrings.ParseBinary: does not model the leading `+` or `-` that `isize::from_str_radix` accepts. It takes plain 0/1 strings. The board `i8` parse, BingoBoards.ParseI8, does model both signs.
- BinaryStrings.ParseU8: does not model the leading `+` that `u8::from_str_radix` accepts.
- Machine-integer overflow is modelled with mathematical integers. These cases are not modelled:
  - `isize` overflow of `x`, `y`, `aim` and the products in day-02;
  - `isize` overflow in `from_str_radix`, which fails on a string whose value is at least `2^63`, whatever its length;
  - `isize` overflow of the product in `calc_result`. BinaryStrings.CalcResult bounds the product by 2 to the power of the two lengths added, so it cannot overflow while the two lengths add up to at most 63;
  - the `i32` counters in `parse_gamma`;
  - the `u32` counts of both parts of day-01. They would overflow only after more than `2^32 - 1` counted increases, which takes an input of about 16 GiB.
- SonarSweep.CountWindowIncreases: requires every window sum to fit a `u32`. The debug-build overflow panic on a larger sum is not modelled.
- BinaryStrings.InvertAnother: requires ASCII input. It models the byte XOR per character, so the `from_utf8` failure and multi-byte characters are not modelled.
- Gamma.ParseGamma: treats `char_indices` byte offsets as character positions, which holds for ASCII lines. The `insert` panic a multi-byte character could cause is not modelled.
- BingoGame.PlayBingo: requires every table to hold at most 25 numbers. The index panic on `table_marks[table_index][digit_index]` for a longer table is not modelled. BingoBoards.WellFormedTables shows that well-formed boards meet this bound.
- BingoGame.Bingo: has the same 25-number precondition as BingoGame.PlayBingo.
- The `Iterator::filter` over board lines runs lazily. The model filters the non-empty lines first and then loops over them, which gives the same tables.
- The test `processes_input_correctly` reads a fixture file that is not part of this model. Only its literal assertion that "10110" has value 22 is modelled, in BinaryStrings.ValueOfTwentyTwo and BinaryStrings.CalculatesResult.
- `day-03/benches/bench.rs` is not part of this model. Its inverters are copies of the ones modelled in `BinaryStrings`.
