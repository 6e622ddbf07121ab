/**
 * Submarine command fold (day-02). Each line is a command word and a unit;
 * Part I moves the submarine directly, Part II steers through an aim.
 * The source updates the fields of one `Position` record in place, first
 * in the Part I loop, then (after resetting `x` and `y` only) in the
 * Part II loop, and reports `x * y` after each.
 */
module Dive {

  /** One input line after `split_whitespace`: the first word and the parsed unit. */
  datatype Command = Command(instruction: string, unit: int)

  /** Which branch of the `if` chain a command takes. */
  datatype Kind = Forward | Up | Down | Other

  /** ASCII lower-casing, the folding `eq_ignore_ascii_case` applies to each char. */
  function AsciiLower(c: char): char
  {
    if 'A' <= c <= 'Z' then (c as int + 32) as char else c
  }

  /** `str::eq_ignore_ascii_case`. */
  predicate EqIgnoreAsciiCase(s: string, t: string)
  {
    |s| == |t| && forall i :: 0 <= i < |s| ==> AsciiLower(s[i]) == AsciiLower(t[i])
  }

  /** The `if` / `else if` chain on the command word; anything else is `Other`. */
  function Classify(instruction: string): Kind
  {
    if EqIgnoreAsciiCase(instruction, "forward") then Forward
    else if EqIgnoreAsciiCase(instruction, "up") then Up
    else if EqIgnoreAsciiCase(instruction, "down") then Down
    else Other
  }

  /** Sum of the units of the commands of one kind. */
  function Total(cmds: seq<Command>, k: Kind): int
  {
    if |cmds| == 0 then 0
    else Total(cmds[..|cmds| - 1], k)
         + (if Classify(cmds[|cmds| - 1].instruction) == k then cmds[|cmds| - 1].unit else 0)
  }

  /** Net aim after some commands: downs minus ups. */
  function Aim(cmds: seq<Command>): int
  {
    Total(cmds, Down) - Total(cmds, Up)
  }

  /** Sum over the forward commands of unit times the aim reached just before it. */
  function AimedDepth(cmds: seq<Command>): int
  {
    if |cmds| == 0 then 0
    else
      var before := cmds[..|cmds| - 1];
      var c := cmds[|cmds| - 1];
      AimedDepth(before) + (if Classify(c.instruction) == Forward then c.unit * Aim(before) else 0)
  }

  /** The three fields of `Position` as a value. */
  datatype State = State(x: int, y: int, aim: int)

  /** One iteration of the Part I loop. */
  function StepOne(s: State, c: Command): State
  {
    match Classify(c.instruction)
    case Forward => s.(y := s.y + c.unit)
    case Up => s.(x := s.x - c.unit)
    case Down => s.(x := s.x + c.unit)
    case Other => s
  }

  /** One iteration of the Part II loop. */
  function StepTwo(s: State, c: Command): State
  {
    match Classify(c.instruction)
    case Forward => s.(y := s.y + c.unit, x := s.x + c.unit * s.aim)
    case Up => s.(aim := s.aim - c.unit)
    case Down => s.(aim := s.aim + c.unit)
    case Other => s
  }

  /** The Part I loop run over all commands from state `s`. */
  function RunOne(s: State, cmds: seq<Command>): State
  {
    if |cmds| == 0 then s else StepOne(RunOne(s, cmds[..|cmds| - 1]), cmds[|cmds| - 1])
  }

  /** The Part II loop run over all commands from state `s`. */
  function RunTwo(s: State, cmds: seq<Command>): State
  {
    if |cmds| == 0 then s else StepTwo(RunTwo(s, cmds[..|cmds| - 1]), cmds[|cmds| - 1])
  }

  /** The source's `Position` record, updated in place by both loops. */
  class Position {
    var x: int
    var y: int
    var aim: int

    constructor (x0: int, y0: int, aim0: int)
      ensures x == x0 && y == y0 && aim == aim0
    {
      x, y, aim := x0, y0, aim0;
    }

    function Value(): State
      reads this
    {
      State(x, y, aim)
    }

    /** The Part I loop: forward moves `y`, up and down move `x`; `aim` is never written. */
    method PartOne(cmds: seq<Command>)
      modifies this
      ensures Value() == RunOne(old(Value()), cmds)
      ensures aim == old(aim)
    {
      var i := 0;
      while i < |cmds|
        invariant 0 <= i <= |cmds|
        invariant Value() == RunOne(old(Value()), cmds[..i])
        invariant aim == old(aim)
      {
        var instruction := cmds[i].instruction;
        var unit := cmds[i].unit;
        if EqIgnoreAsciiCase(instruction, "forward") {
          y := y + unit;
        } else if EqIgnoreAsciiCase(instruction, "up") {
          x := x - unit;
        } else if EqIgnoreAsciiCase(instruction, "down") {
          x := x + unit;
        }
        assert cmds[..i + 1][..i] == cmds[..i];
        i := i + 1;
      }
      assert cmds[..i] == cmds;
    }

    /** The Part II loop: forward moves `y` and moves `x` by unit times aim; up and down steer. */
    method PartTwo(cmds: seq<Command>)
      modifies this
      ensures Value() == RunTwo(old(Value()), cmds)
    {
      var i := 0;
      while i < |cmds|
        invariant 0 <= i <= |cmds|
        invariant Value() == RunTwo(old(Value()), cmds[..i])
      {
        var instruction := cmds[i].instruction;
        var unit := cmds[i].unit;
        if EqIgnoreAsciiCase(instruction, "forward") {
          y := y + unit;
          x := x + unit * aim;
        } else if EqIgnoreAsciiCase(instruction, "up") {
          aim := aim - unit;
        } else if EqIgnoreAsciiCase(instruction, "down") {
          aim := aim + unit;
        }
        assert cmds[..i + 1][..i] == cmds[..i];
        i := i + 1;
      }
      assert cmds[..i] == cmds;
    }
  }

  /** Part I in closed form: `y` gains every forward unit, `x` the downs minus the ups. */
  lemma {:induction false} RunOneClosedForm(s: State, cmds: seq<Command>)
    ensures RunOne(s, cmds) == State(s.x + Aim(cmds), s.y + Total(cmds, Forward), s.aim)
  {
    if |cmds| > 0 {
      RunOneClosedForm(s, cmds[..|cmds| - 1]);
    }
  }

  /**
   * Part II in closed form: `y` again gains every forward unit, `aim` the
   * downs minus the ups, and `x` each forward unit times the aim at that
   * moment (the starting aim included).
   */
  lemma {:induction false} RunTwoClosedForm(s: State, cmds: seq<Command>)
    ensures RunTwo(s, cmds)
         == State(s.x + AimedDepth(cmds) + s.aim * Total(cmds, Forward),
                  s.y + Total(cmds, Forward),
                  s.aim + Aim(cmds))
  {
    if |cmds| > 0 {
      var before := cmds[..|cmds| - 1];
      var c := cmds[|cmds| - 1];
      RunTwoClosedForm(s, before);
      if Classify(c.instruction) == Forward {
        ForwardArithmetic(s.x, AimedDepth(before), s.aim, Total(before, Forward), c.unit, Aim(before));
      }
    }
  }

  /** The rearrangement behind a forward step of Part II. */
  lemma ForwardArithmetic(x: int, depth: int, aim0: int, forward: int, unit: int, aimed: int)
    ensures x + depth + aim0 * forward + unit * (aim0 + aimed)
         == x + (depth + unit * aimed) + aim0 * (forward + unit)
  {
    calc {
      unit * (aim0 + aimed);
      unit * aim0 + unit * aimed;
    }
    calc {
      aim0 * (forward + unit);
      aim0 * forward + aim0 * unit;
    }
  }

  /** Command words are recognised regardless of ASCII case. */
  lemma ClassifyIgnoresCase(w: string, w': string)
    requires EqIgnoreAsciiCase(w, w')
    ensures Classify(w) == Classify(w')
  {
  }

  /** `main`: both loops on one `Position`, reporting `x * y` after each. */
  method Navigate(cmds: seq<Command>) returns (partOne: int, partTwo: int)
    ensures partOne == Aim(cmds) * Total(cmds, Forward)
    ensures partTwo == AimedDepth(cmds) * Total(cmds, Forward)
  {
    var position := new Position(0, 0, 0);
    position.PartOne(cmds);
    RunOneClosedForm(State(0, 0, 0), cmds);
    partOne := position.x * position.y;

    // Part II resets x and y only; aim is still 0 because Part I never wrote it.
    position.x := 0;
    position.y := 0;
    position.PartTwo(cmds);
    RunTwoClosedForm(State(0, 0, 0), cmds);
    partTwo := position.x * position.y;
  }
}
