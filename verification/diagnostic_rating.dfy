/**
 * Life-support ratings (day-03): `filter_values` keeps the entries whose
 * bit at `index` is the one the instrument selects, and
 * `get_meter_reading` refilters with the next index until at most one
 * entry is left. `main` combines them with the gamma rate.
 */
module Rating {
  import opened Outcome
  import opened BinaryStrings
  import opened Gamma
  import opened Sequences

  /** Which bit criterion a rating uses. */
  datatype Instrument = O2Meter | CO2Meter

  /** Every entry has a character at `index` (otherwise `nth(index).unwrap()` panics). */
  predicate AllReach(values: seq<string>, index: nat)
  {
    forall v :: v in values ==> index < |v|
  }

  predicate Distinct<T(==)>(s: seq<T>)
  {
    forall i, j :: 0 <= i < j < |s| ==> s[i] != s[j]
  }

  /** The entries whose character at `index` is `c`, in order. */
  function Keep(values: seq<string>, index: nat, c: char): seq<string>
    requires AllReach(values, index)
  {
    if |values| == 0 then []
    else (if values[0][index] == c then [values[0]] else []) + Keep(values[1..], index, c)
  }

  /**
   * The selection rule of `filter_values`. O2: count the '1's; keep '1'
   * when they are at least as many as the rest (a tie keeps '1'), else '0'.
   * CO2: count the '0's; keep '0' when they are at most as many as the rest
   * (a tie keeps '0'), else '1'. "The rest" includes entries holding
   * neither bit.
   */
  function Chosen(values: seq<string>, index: nat, instrument: Instrument): char
    requires AllReach(values, index)
  {
    match instrument
    case O2Meter =>
      var digitLength := |Keep(values, index, '1')|;
      if digitLength >= |values| - digitLength then '1' else '0'
    case CO2Meter =>
      var digitLength := |Keep(values, index, '0')|;
      if digitLength <= |values| - digitLength then '0' else '1'
  }

  /**
   * `filter_values`: panics when some entry is too short for `index`;
   * otherwise an order-preserving selection of the entries that hold the
   * chosen bit at `index`, and all of them.
   */
  function FilterValues(values: seq<string>, index: nat, instrument: Instrument): (r: Result<seq<string>>)
    ensures r.Ok? <==> AllReach(values, index)
    ensures r.Ok? ==> IsSubsequence(r.value, values)
    ensures r.Ok? ==> forall v :: v in r.value <==> v in values && v[index] == Chosen(values, index, instrument)
    ensures r.Ok? ==>
      forall v :: multiset(r.value)[v] == if |v| > index && v[index] == Chosen(values, index, instrument) then multiset(values)[v] else 0
  {
    if !AllReach(values, index) then Panic
    else
      var c := Chosen(values, index, instrument);
      KeepIsSubsequence(values, index, c);
      KeepMembers(values, index, c);
      KeepCounts(values, index, c);
      Ok(Keep(values, index, c))
  }

  lemma {:induction false} KeepIsSubsequence(values: seq<string>, index: nat, c: char)
    requires AllReach(values, index)
    ensures IsSubsequence(Keep(values, index, c), values)
  {
    if |values| > 0 {
      var rest := values[1..];
      KeepIsSubsequence(rest, index, c);
      var kept := Keep(values, index, c);
      if values[0][index] == c {
        assert kept[0] == values[0] && kept[1..] == Keep(rest, index, c);
      } else {
        assert kept == Keep(rest, index, c);
      }
    }
  }

  lemma {:induction false} KeepMembers(values: seq<string>, index: nat, c: char)
    requires AllReach(values, index)
    ensures forall v :: v in Keep(values, index, c) <==> v in values && v[index] == c
  {
    if |values| > 0 {
      KeepMembers(values[1..], index, c);
      assert values == [values[0]] + values[1..];
    }
  }

  /** Every copy of a kept entry is kept, and no copy of any other entry. */
  lemma {:induction false} KeepCounts(values: seq<string>, index: nat, c: char)
    requires AllReach(values, index)
    ensures forall v :: multiset(Keep(values, index, c))[v] == if |v| > index && v[index] == c then multiset(values)[v] else 0
  {
    if |values| > 0 {
      var rest := values[1..];
      KeepCounts(rest, index, c);
      assert values == [values[0]] + rest;
      forall v
        ensures multiset(Keep(values, index, c))[v] ==
          (if |v| > index && v[index] == c then multiset(values)[v] else 0)
      {
        assert multiset(values)[v] == multiset([values[0]])[v] + multiset(rest)[v];
        if v !in values {
          assert multiset(values)[v] == 0;
          KeepMembers(values, index, c);
        }
      }
    }
  }

  /** When every entry holds a bit at `index`, the '1' group and the '0' group split the entries. */
  lemma {:induction false} KeepSplit(values: seq<string>, index: nat)
    requires AllReach(values, index)
    requires forall v :: v in values ==> IsBit(v[index])
    ensures |Keep(values, index, '1')| + |Keep(values, index, '0')| == |values|
  {
    if |values| > 0 {
      assert values[0] in values;
      assert forall v :: v in values[1..] ==> v in values;
      KeepSplit(values[1..], index);
    }
  }

  lemma {:induction false} KeepDistinct(values: seq<string>, index: nat, c: char)
    requires AllReach(values, index) && Distinct(values)
    ensures Distinct(Keep(values, index, c))
  {
    if |values| > 0 {
      var rest := values[1..];
      assert Distinct(rest) by {
        forall i, j | 0 <= i < j < |rest| ensures rest[i] != rest[j] {
          assert rest[i] == values[i + 1] && rest[j] == values[j + 1];
        }
      }
      KeepDistinct(rest, index, c);
      KeepMembers(rest, index, c);
      var tail := Keep(rest, index, c);
      if values[0][index] == c {
        assert values[0] !in rest by {
          forall j | 0 <= j < |rest| ensures rest[j] != values[0] {
            assert rest[j] == values[j + 1];
          }
        }
        var all := [values[0]] + tail;
        forall i, j | 0 <= i < j < |all| ensures all[i] != all[j] {
          if i == 0 {
            assert all[j] == tail[j - 1] && tail[j - 1] in tail;
          } else {
            assert all[i] == tail[i - 1] && all[j] == tail[j - 1];
          }
        }
      }
    }
  }

  lemma {:induction false} WidthAtLeast(lines: seq<string>, v: string)
    requires v in lines
    ensures |v| <= Width(lines)
  {
    var p := lines[..|lines| - 1];
    if v != lines[|lines| - 1] {
      assert v in p;
      WidthAtLeast(p, v);
    }
  }

  /** Keeping only entries of `b` cannot make the longest entry longer. */
  lemma {:induction false} WidthOfSelection(a: seq<string>, b: seq<string>)
    requires forall v :: v in a ==> v in b
    ensures Width(a) <= Width(b)
  {
    if |a| > 0 {
      var p := a[..|a| - 1];
      assert forall v :: v in p ==> v in a;
      WidthOfSelection(p, b);
      WidthAtLeast(b, a[|a| - 1]);
    }
  }

  /**
   * The rounds of `get_meter_reading` as a function: while more than one
   * entry is left, refilter at `index` and move to `index + 1`. Every round
   * that does not panic has an entry longer than `index`, so the rounds end.
   */
  function Settle(values: seq<string>, index: nat, instrument: Instrument): Result<seq<string>>
    decreases Width(values) - index
  {
    if |values| <= 1 then Ok(values)
    else match FilterValues(values, index, instrument)
      case Panic => Panic
      case Ok(next) =>
        WidthAtLeast(values, values[0]);
        WidthOfSelection(next, values);
        Settle(next, index + 1, instrument)
  }

  /** A round that panics ends the rounds with a panic. */
  lemma SettlePanics(values: seq<string>, index: nat, instrument: Instrument)
    requires |values| > 1 && FilterValues(values, index, instrument).Panic?
    ensures Settle(values, index, instrument) == Panic
  {
  }

  /** A round that does not panic reaches into the first entry and hands its survivors to the next round. */
  lemma SettleRound(values: seq<string>, index: nat, instrument: Instrument)
    requires |values| > 1 && FilterValues(values, index, instrument).Ok?
    ensures index < |values[0]|
    ensures Settle(values, index, instrument) == Settle(FilterValues(values, index, instrument).value, index + 1, instrument)
  {
    assert values[0] in values;
  }

  /** What `get_meter_reading` returns: `values[0]` of the settled list, which panics when it is empty. */
  function MeterReading(content: seq<string>, instrument: Instrument): Result<string>
  {
    match Settle(content, 0, instrument)
    case Panic => Panic
    case Ok(values) => if |values| == 0 then Panic else Ok(values[0])
  }

  /** The source's `MeterReadings`: the surviving entries and the index of the next round. */
  class MeterReadings {
    var values: seq<string>
    var index: nat

    constructor (values0: seq<string>, index0: nat)
      ensures values == values0 && index == index0
    {
      values, index := values0, index0;
    }
  }

  /** `get_meter_reading`: the `while` loop reassigning `readings.values` and `readings.index`. */
  method GetMeterReading(content: seq<string>, instrument: Instrument) returns (r: Result<string>)
    ensures r == MeterReading(content, instrument)
    ensures r.Ok? ==> r.value in content
  {
    var readings := new MeterReadings(content, 0);
    while |readings.values| > 1
      invariant Settle(readings.values, readings.index, instrument) == Settle(content, 0, instrument)
      invariant forall v :: v in readings.values ==> v in content
      invariant readings.index <= Width(content)
      decreases Width(content) - readings.index
    {
      var values, index := readings.values, readings.index;
      var filtered := FilterValues(values, index, instrument);
      if filtered.Panic? {
        SettlePanics(values, index, instrument);
        return Panic;
      }
      SettleRound(values, index, instrument);
      WidthAtLeast(content, values[0]);
      assert forall v :: v in filtered.value ==> v in values;
      readings.values := filtered.value;
      readings.index := index + 1;
    }
    if |readings.values| == 0 {
      return Panic;
    }
    r := Ok(readings.values[0]);
  }

  /** An O2 round on entries that all hold a bit at `index` never empties a non-empty list. */
  lemma O2RoundKeepsSome(values: seq<string>, index: nat)
    requires |values| >= 1 && AllReach(values, index)
    requires forall v :: v in values ==> IsBit(v[index])
    ensures FilterValues(values, index, O2Meter).Ok?
    ensures |FilterValues(values, index, O2Meter).value| >= 1
  {
    KeepSplit(values, index);
  }

  lemma {:induction false} KeepNone(values: seq<string>, index: nat, c: char)
    requires AllReach(values, index)
    requires forall v :: v in values ==> v[index] != c
    ensures Keep(values, index, c) == []
  {
    if |values| > 0 {
      assert values[0] in values;
      assert forall v :: v in values[1..] ==> v in values;
      KeepNone(values[1..], index, c);
    }
  }

  /** A CO2 round where no entry holds '0' at `index` keeps nothing. */
  lemma CO2RoundWithoutZeroEmpties(values: seq<string>, index: nat)
    requires AllReach(values, index)
    requires forall v :: v in values ==> v[index] != '0'
    ensures FilterValues(values, index, CO2Meter) == Ok([])
  {
    KeepNone(values, index, '0');
  }

  /**
   * So the CO2 rating panics (`values[0]` of an empty list) whenever it
   * starts from two or more entries that all begin with '1'.
   */
  lemma CO2PanicsWithoutLeadingZero(content: seq<string>)
    requires |content| >= 2
    requires forall v :: v in content ==> |v| >= 1 && v[0] == '1'
    ensures MeterReading(content, CO2Meter) == Panic
  {
    CO2RoundWithoutZeroEmpties(content, 0);
    assert Settle(content, 0, CO2Meter) == Settle([], 1, CO2Meter);
  }

  /**
   * Two or more identical entries are never told apart: every round keeps
   * all of them or none, until the index runs past their end.
   */
  lemma {:induction false} SettleIdentical(values: seq<string>, index: nat, instrument: Instrument)
    requires |values| >= 2
    requires forall v :: v in values ==> v == values[0]
    ensures Settle(values, index, instrument) == Panic || Settle(values, index, instrument) == Ok([])
    decreases Width(values) - index
  {
    var filtered := FilterValues(values, index, instrument);
    if filtered.Panic? {
      SettlePanics(values, index, instrument);
    } else {
      var next := filtered.value;
      SettleRound(values, index, instrument);
      if next != [] {
        var c := Chosen(values, index, instrument);
        assert next[0] in next;
        assert values[0][index] == c;
        KeepAll(values, index, c);
        WidthAtLeast(values, values[0]);
        SettleIdentical(next, index + 1, instrument);
      }
    }
  }

  lemma {:induction false} KeepAll(values: seq<string>, index: nat, c: char)
    requires AllReach(values, index)
    requires forall v :: v in values ==> v[index] == c
    ensures Keep(values, index, c) == values
  {
    if |values| > 0 {
      assert forall v :: v in values[1..] ==> v in values;
      KeepAll(values[1..], index, c);
    }
  }

  /** Identical entries make either rating panic. */
  lemma IdenticalEntriesPanic(content: seq<string>, instrument: Instrument)
    requires |content| >= 2
    requires forall v :: v in content ==> v == content[0]
    ensures MeterReading(content, instrument) == Panic
  {
    SettleIdentical(content, 0, instrument);
  }

  /** Entries that agree on their first `index` characters. */
  predicate SharePrefix(values: seq<string>, index: nat)
  {
    forall v, w :: v in values && w in values ==> index <= |v| && index <= |w| && v[..index] == w[..index]
  }

  /**
   * O2 rounds on distinct binary entries of one width end with exactly one
   * entry: each round keeps at least one, the survivors share one more
   * leading bit, and distinct entries cannot share all of them.
   */
  lemma {:induction false} O2Settles(values: seq<string>, index: nat, width: nat)
    requires |values| >= 1 && Distinct(values) && index <= width
    requires forall v :: v in values ==> |v| == width && IsBinary(v)
    requires SharePrefix(values, index)
    ensures Settle(values, index, O2Meter).Ok?
    ensures |Settle(values, index, O2Meter).value| == 1
    decreases width - index
  {
    if |values| >= 2 {
      DistinctOutlastPrefix(values[0], values[1], index);
      assert AllReach(values, index);
      var c := Chosen(values, index, O2Meter);
      var next := Keep(values, index, c);
      O2RoundKeepsSome(values, index);
      KeepDistinct(values, index, c);
      KeepSharesPrefix(values, index, c);
      assert Settle(values, index, O2Meter) == Settle(next, index + 1, O2Meter);
      O2Settles(next, index + 1, width);
    }
  }

  /** Two different strings of one width that share a prefix are longer than it. */
  lemma DistinctOutlastPrefix(v: string, w: string, k: nat)
    requires v != w && |v| == |w| && k <= |v| && v[..k] == w[..k]
    ensures k < |v|
  {
  }

  /** The entries kept for bit `c` at `index` share one more leading character. */
  lemma KeepSharesPrefix(values: seq<string>, index: nat, c: char)
    requires AllReach(values, index) && SharePrefix(values, index)
    ensures SharePrefix(Keep(values, index, c), index + 1)
  {
    KeepMembers(values, index, c);
    var next := Keep(values, index, c);
    forall v, w | v in next && w in next
      ensures index + 1 <= |v| && index + 1 <= |w| && v[..index + 1] == w[..index + 1]
    {
      assert v[..index + 1] == v[..index] + [c];
      assert w[..index + 1] == w[..index] + [c];
    }
  }

  /** The O2 rating of distinct binary entries of one width never panics. */
  lemma O2ReadingExists(content: seq<string>, width: nat)
    requires |content| >= 1 && Distinct(content)
    requires forall v :: v in content ==> |v| == width && IsBinary(v)
    ensures MeterReading(content, O2Meter).Ok?
  {
    O2Settles(content, 0, width);
  }

  /** The reading, when there is one, is one of the report's entries. */
  lemma MeterReadingIsEntry(content: seq<string>, instrument: Instrument)
    ensures MeterReading(content, instrument).Ok? ==> MeterReading(content, instrument).value in content
  {
    SettleSelects(content, 0, instrument);
  }

  lemma {:induction false} SettleSelects(values: seq<string>, index: nat, instrument: Instrument)
    ensures Settle(values, index, instrument).Ok? ==>
      forall v :: v in Settle(values, index, instrument).value ==> v in values
    decreases Width(values) - index
  {
    if |values| > 1 {
      var filtered := FilterValues(values, index, instrument);
      if filtered.Ok? {
        var next := filtered.value;
        SettleRound(values, index, instrument);
        assert forall v :: v in next ==> v in values;
        WidthAtLeast(values, values[0]);
        WidthOfSelection(next, values);
        SettleSelects(next, index + 1, instrument);
      }
    }
  }

  /**
   * `main` of day-03. Part I multiplies the gamma rate by its inversion;
   * Part II multiplies the O2 and CO2 readings. A panic in Part I ends the
   * program before Part II runs.
   */
  method Diagnose(content: seq<string>) returns (partOne: Result<int>, partTwo: Result<int>)
    ensures partOne == CalcResult(GammaRate(content), Complement(GammaRate(content)))
    ensures partOne.Ok? <==> Width(content) > 0
    ensures partOne.Panic? ==> partTwo.Panic?
    ensures partOne.Ok? ==> (partTwo ==
      match (MeterReading(content, O2Meter), MeterReading(content, CO2Meter))
      case (Ok(o2), Ok(co2)) => CalcResult(o2, co2)
      case _ => Panic)
  {
    var gamma := ParseGamma(content);
    var epsilon := InvertBinaryString(gamma);
    partOne := CalcResult(gamma, epsilon);
    ComplementOfBinary(gamma);
    if partOne.Panic? {
      return partOne, Panic;
    }
    var o2 := GetMeterReading(content, O2Meter);
    if o2.Panic? {
      return partOne, Panic;
    }
    var co2 := GetMeterReading(content, CO2Meter);
    if co2.Panic? {
      return partOne, Panic;
    }
    partTwo := CalcResult(o2.value, co2.value);
  }
}
