/**
 * Binary strings of the diagnostic report (day-03): the three inverters of
 * a most-common-bit string and `calc_result`, which multiplies the base-2
 * values of two strings. Strings are ASCII, one char per byte.
 */
module BinaryStrings {
  import opened Outcome

  predicate IsBit(c: char)
  {
    c == '0' || c == '1'
  }

  predicate IsBinary(s: string)
  {
    forall i :: 0 <= i < |s| ==> IsBit(s[i])
  }

  /** The other bit. */
  function Flip(c: char): char
  {
    if c == '1' then '0' else '1'
  }

  /**
   * What `invert_binary_string` builds: '1' becomes '0', '0' becomes '1',
   * and any other char contributes nothing (neither `if` arm fires).
   * ('0' and '1' have no ASCII case, so `eq_ignore_ascii_case` is `==` here.)
   */
  function Complement(s: string): string
  {
    if |s| == 0 then []
    else
      var c := s[|s| - 1];
      Complement(s[..|s| - 1]) + (if c == '1' then "0" else if c == '0' then "1" else "")
  }

  /** The loop of `invert_binary_string`, appending to `result` char by char. */
  method InvertBinaryString(input: string) returns (result: string)
    ensures result == Complement(input)
  {
    result := "";
    var i := 0;
    while i < |input|
      invariant 0 <= i <= |input|
      invariant result == Complement(input[..i])
    {
      var c := input[i];
      if c == '1' {
        result := result + "0";
      } else if c == '0' {
        result := result + "1";
      }
      assert input[..i + 1][..i] == input[..i];
      i := i + 1;
    }
    assert input[..i] == input;
  }

  /** On a binary string the complement flips every position and keeps the length. */
  lemma {:induction false} ComplementOfBinary(s: string)
    requires IsBinary(s)
    ensures |Complement(s)| == |s|
    ensures forall i :: 0 <= i < |s| ==> Complement(s)[i] == Flip(s[i])
    ensures IsBinary(Complement(s))
  {
    if |s| > 0 {
      ComplementOfBinary(s[..|s| - 1]);
    }
  }

  /** The complement keeps the length exactly when every char is a bit; otherwise it is shorter. */
  lemma {:induction false} ComplementLength(s: string)
    ensures |Complement(s)| <= |s|
    ensures |Complement(s)| == |s| <==> IsBinary(s)
  {
    if |s| > 0 {
      var p := s[..|s| - 1];
      ComplementLength(p);
      assert forall i :: 0 <= i < |p| ==> p[i] == s[i];
    }
  }

  /** Inverting a binary string twice gives it back. */
  lemma ComplementInvolution(s: string)
    requires IsBinary(s)
    ensures Complement(Complement(s)) == s
  {
    ComplementOfBinary(s);
    ComplementOfBinary(Complement(s));
  }

  /** `invert_binary_string_another` XORs each byte with 1: it flips the lowest bit. */
  function XorOne(c: char): (r: char)
    requires c as int < 128
    ensures r as int < 128
    ensures r as int == if c as int % 2 == 0 then c as int + 1 else c as int - 1
  {
    var n := c as int;
    ByteRoundTrip(n);
    var b := n as bv8;
    XorFlipsLowBit(b);
    var m := (b ^ 1) as int;
    assert m == if n % 2 == 0 then n + 1 else n - 1;
    m as char
  }

  /** An ASCII code survives the trip through a byte. */
  lemma ByteRoundTrip(n: int)
    requires 0 <= n < 128
    ensures (n as bv8) as int == n
  {
    assert n % 256 == n;
  }

  /** XOR with 1 adds one to an even byte and takes one from an odd byte. */
  lemma XorFlipsLowBit(b: bv8)
    ensures (b ^ 1) as int == if b as int % 2 == 0 then b as int + 1 else b as int - 1
  {
    assert (b ^ 1) == if b & 1 == 0 then b + 1 else b - 1;
    assert (b & 1 == 0) == (b as int % 2 == 0);
    if b & 1 == 0 {
      assert b < 255;
      assert (b + 1) as int == b as int + 1;
    } else {
      assert b > 0;
      assert (b - 1) as int == b as int - 1;
    }
  }

  predicate IsAscii(s: string)
  {
    forall i :: 0 <= i < |s| ==> s[i] as int < 128
  }

  /** `invert_binary_string_another`: every byte XOR 1 (ASCII input, so `from_utf8` succeeds). */
  function InvertAnother(s: string): (r: string)
    requires IsAscii(s)
    ensures |r| == |s|
    ensures forall i :: 0 <= i < |s| ==>
      r[i] as int == if s[i] as int % 2 == 0 then s[i] as int + 1 else s[i] as int - 1
  {
    seq(|s|, i requires 0 <= i < |s| => XorOne(s[i]))
  }

  /** On binary input the XOR inverter and `invert_binary_string` agree. */
  lemma AnotherAgreesOnBinary(s: string)
    requires IsBinary(s)
    ensures IsAscii(s) && InvertAnother(s) == Complement(s)
  {
    ComplementOfBinary(s);
    XorOneOnBits();
    var r := InvertAnother(s);
    forall i | 0 <= i < |s|
      ensures r[i] == Complement(s)[i]
    {
      assert r[i] == XorOne(s[i]);
    }
  }

  lemma XorOneOnBits()
    ensures XorOne('0') == '1' && XorOne('1') == '0'
  {
  }

  /** Off binary input they part: the XOR inverter maps '2' to '3', the other drops it. */
  lemma AnotherDiffersOffBinary()
    ensures InvertAnother("2") == "3" && Complement("2") == ""
  {
    assert XorOne('2') == '3';
  }

  function Bit(c: char): nat
  {
    if c == '1' then 1 else 0
  }

  function Pow2(k: nat): (r: nat)
    ensures r >= 1
  {
    if k == 0 then 1 else 2 * Pow2(k - 1)
  }

  /** Base-2 value of a string of bits, most significant first. */
  function BinaryValue(s: string): nat
  {
    if |s| == 0 then 0 else 2 * BinaryValue(s[..|s| - 1]) + Bit(s[|s| - 1])
  }

  /**
   * `from_str_radix(s, 2).unwrap()` for the wide target types: fails on the
   * empty or a non-binary string; a string of `n` digits has a value below
   * `2^n` (see `ParseBinaryRoundTrip` for the value itself).
   */
  function ParseBinary(s: string): (r: Result<nat>)
    ensures r.Ok? <==> |s| > 0 && IsBinary(s)
    ensures r.Ok? ==> r.value < Pow2(|s|)
  {
    if |s| == 0 || !IsBinary(s) then Panic
    else
      BinaryValueBound(s);
      Ok(BinaryValue(s))
  }

  /**
   * `u8::from_str_radix(s, 2).unwrap()`: also fails when the value exceeds
   * 255, which a binary string of at most eight digits never does.
   */
  function ParseU8(s: string): (r: Result<nat>)
    ensures r.Ok? ==> r.value <= 255 && ParseBinary(s) == r
    ensures 0 < |s| <= 8 && IsBinary(s) ==> r == ParseBinary(s)
  {
    ByteValueBound(s);
    match ParseBinary(s)
    case Ok(v) => if v <= 255 then Ok(v) else Panic
    case Panic => Panic
  }

  /** At most eight binary digits have a value of at most 255. */
  lemma ByteValueBound(s: string)
    ensures |s| <= 8 ==> BinaryValue(s) <= 255
  {
    if |s| <= 8 {
      BinaryValueBound(s);
      Pow2Monotone(|s|, 8);
      assert Pow2(8) == 256;
    }
  }

  /** `format!("{:b}", n)`: binary digits without leading zeros ("0" for zero). */
  function ToBinary(n: nat): (r: string)
    ensures |r| >= 1 && IsBinary(r)
  {
    if n < 2 then (if n == 0 then "0" else "1")
    else ToBinary(n / 2) + (if n % 2 == 0 then "0" else "1")
  }

  /**
   * `invert_binary_string_alternative`: parse as `u8`, take the bitwise
   * complement `255 - v`, render it in binary and drop the first three
   * digits (a slice that fails on a rendering shorter than three).
   */
  function InvertAlternative(s: string): Result<string>
  {
    match ParseU8(s)
    case Panic => Panic
    case Ok(v) =>
      var t := ToBinary(255 - v);
      if |t| < 3 then Panic else Ok(t[3..])
  }

  /**
   * `calc_result`: the product of the base-2 values; fails if either string
   * does not parse. The product stays below `2^(|gamma| + |epsilon|)`, so it
   * fits an `isize` when the two lengths add up to at most 63.
   */
  function CalcResult(gamma: string, epsilon: string): (r: Result<int>)
    ensures r.Ok? <==> ParseBinary(gamma).Ok? && ParseBinary(epsilon).Ok?
    ensures r.Ok? ==> r.value == BinaryValue(gamma) * BinaryValue(epsilon)
    ensures r.Ok? ==> 0 <= r.value < Pow2(|gamma| + |epsilon|)
  {
    var a, b := ParseBinary(gamma), ParseBinary(epsilon);
    if a.Ok? && b.Ok? then
      var x, y := a.value, b.value;
      assert x == BinaryValue(gamma) && y == BinaryValue(epsilon);
      Pow2Sum(|gamma|, |epsilon|);
      ProductBelow(x, y, Pow2(|gamma|), Pow2(|epsilon|));
      Ok(x * y)
    else Panic
  }

  lemma {:induction false} Pow2Sum(i: nat, j: nat)
    ensures Pow2(i + j) == Pow2(i) * Pow2(j)
  {
    if i > 0 {
      Pow2Sum(i - 1, j);
      assert Pow2(i + j) == 2 * Pow2(i - 1 + j);
    }
  }

  lemma ProductBelow(a: nat, b: nat, x: nat, y: nat)
    requires a < x && b < y
    ensures a * b < x * y
  {
    assert a * b <= a * y by {
      assert a * y - a * b == a * (y - b);
    }
    assert a * y < x * y by {
      assert x * y - a * y == (x - a) * y;
    }
  }

  /** Parsing the rendering of a number gives the number back. */
  lemma ParseBinaryRoundTrip(n: nat)
    ensures ParseBinary(ToBinary(n)) == Ok(n)
  {
    ValueOfRendering(n);
  }

  lemma {:induction false} ValueOfRendering(n: nat)
    ensures BinaryValue(ToBinary(n)) == n
  {
    if n >= 2 {
      ValueOfRendering(n / 2);
      var t := ToBinary(n);
      assert t[..|t| - 1] == ToBinary(n / 2);
    }
  }

  /**
   * Rendering the parsed value of a binary string without leading zeros
   * gives the string back.
   */
  lemma RenderingOfParse(s: string)
    requires |s| > 0 && IsBinary(s) && (s[0] == '1' || s == "0")
    ensures ParseBinary(s).Ok? && ToBinary(ParseBinary(s).value) == s
  {
    if s != "0" {
      var t := s[1..];
      assert IsBinary(t);
      ShiftedConcat("1", t);
      assert "1" + t == s;
      assert BinaryValue("1") == 1 by {
        assert "1"[..0] == "";
      }
      ToBinaryShifted(1, t);
    }
  }

  /** Shifting the value of `u` past the digits `t` gives the value of `u + t`. */
  lemma {:induction false} ShiftedConcat(u: string, t: string)
    ensures Shifted(BinaryValue(u), t) == BinaryValue(u + t)
  {
    if |t| == 0 {
      assert u + t == u;
    } else {
      var p := t[..|t| - 1];
      ShiftedConcat(u, p);
      assert (u + t)[..|u + t| - 1] == u + p;
    }
  }

  lemma {:induction false} BinaryValueBound(s: string)
    ensures BinaryValue(s) < Pow2(|s|)
  {
    if |s| > 0 {
      BinaryValueBound(s[..|s| - 1]);
    }
  }

  /** A binary string and its complement add up to all ones. */
  lemma {:induction false} ComplementValue(s: string)
    requires IsBinary(s)
    ensures BinaryValue(s) + BinaryValue(Complement(s)) == Pow2(|s|) - 1
  {
    if |s| > 0 {
      var p := s[..|s| - 1];
      ComplementValue(p);
      ComplementOfBinary(s);
      ComplementOfBinary(p);
      var cs := Complement(s);
      assert cs[..|cs| - 1] == Complement(p);
    }
  }

  /**
   * Part I's answer: `calc_result(gamma, invert(gamma))` multiplies the value
   * `g` of a non-empty binary gamma by the value of its complement, which is
   * `2^w - 1 - g` for width `w`.
   */
  lemma PowerConsumption(gamma: string)
    requires |gamma| > 0 && IsBinary(gamma)
    ensures CalcResult(gamma, Complement(gamma))
         == Ok(BinaryValue(gamma) * BinaryValue(Complement(gamma)))
    ensures BinaryValue(Complement(gamma)) == Pow2(|gamma|) - 1 - BinaryValue(gamma)
  {
    ComplementOfBinary(gamma);
    ComplementValue(gamma);
    CalcResultOfBinary(gamma, Complement(gamma));
  }

  lemma CalcResultOfBinary(gamma: string, epsilon: string)
    requires |gamma| > 0 && IsBinary(gamma) && |epsilon| > 0 && IsBinary(epsilon)
    ensures CalcResult(gamma, epsilon) == Ok(BinaryValue(gamma) * BinaryValue(epsilon))
  {
  }

  /** The value of the bits of `p` followed by the bits of `t`. */
  function Shifted(p: nat, t: string): nat
  {
    if |t| == 0 then p else 2 * Shifted(p, t[..|t| - 1]) + Bit(t[|t| - 1])
  }

  lemma {:induction false} ShiftedValue(p: nat, t: string)
    ensures Shifted(p, t) == p * Pow2(|t|) + BinaryValue(t)
  {
    if |t| > 0 {
      ShiftedValue(p, t[..|t| - 1]);
      AppendedValue(p, t);
    }
  }

  lemma {:induction false} ToBinaryShifted(p: nat, t: string)
    requires p >= 1 && IsBinary(t)
    ensures Shifted(p, t) >= 1
    ensures ToBinary(Shifted(p, t)) == ToBinary(p) + t
  {
    if |t| > 0 {
      var u := t[..|t| - 1];
      ToBinaryShifted(p, u);
      ToBinaryDouble(Shifted(p, u), t[|t| - 1]);
      assert t == u + [t[|t| - 1]];
    }
  }

  /** Rendering `p` followed by the bits of `t` renders as `ToBinary(p) + t`, for `p >= 1`. */
  lemma ToBinaryAppend(p: nat, t: string)
    requires p >= 1 && IsBinary(t)
    ensures ToBinary(p * Pow2(|t|) + BinaryValue(t)) == ToBinary(p) + t
  {
    ShiftedValue(p, t);
    ToBinaryShifted(p, t);
  }

  /** Appending a bit doubles the value and adds the bit. */
  lemma AppendedValue(p: nat, t: string)
    requires |t| > 0
    ensures p * Pow2(|t|) + BinaryValue(t)
         == 2 * (p * Pow2(|t| - 1) + BinaryValue(t[..|t| - 1])) + Bit(t[|t| - 1])
  {
    assert Pow2(|t|) == 2 * Pow2(|t| - 1);
    DoubleProduct(p, Pow2(|t| - 1));
  }

  /** Rendering `2 m + b` appends the bit `b` to the rendering of `m`. */
  lemma ToBinaryDouble(m: nat, c: char)
    requires m >= 1 && IsBit(c)
    ensures ToBinary(2 * m + Bit(c)) == ToBinary(m) + [c]
  {
    var n := 2 * m + Bit(c);
    assert n / 2 == m && n % 2 == Bit(c);
  }

  lemma DoubleProduct(p: nat, x: nat)
    ensures p * (2 * x) == 2 * (p * x)
  {
  }

  lemma {:induction false} ToBinaryLengthAtMost(n: nat, k: nat)
    requires k >= 1 && n < Pow2(k)
    ensures |ToBinary(n)| <= k
  {
    if n >= 2 {
      ToBinaryLengthAtMost(n / 2, k - 1);
    }
  }

  lemma {:induction false} ToBinaryLengthAtLeast(n: nat, k: nat)
    requires k >= 1 && n >= Pow2(k - 1)
    ensures |ToBinary(n)| >= k
  {
    if k >= 2 {
      ToBinaryLengthAtLeast(n / 2, k - 1);
    }
  }

  /** On a five-bit string the alternative inverter agrees with `invert_binary_string`. */
  lemma AlternativeAgreesOnFiveBits(s: string)
    requires IsBinary(s) && |s| == 5
    ensures InvertAlternative(s) == Ok(Complement(s))
  {
    ComplementOfBinary(s);
    ComplementValue(s);
    var cs := Complement(s);
    assert Pow2(5) == 32;
    assert ParseU8(s) == Ok(BinaryValue(s));
    assert 255 - BinaryValue(s) == 7 * Pow2(|cs|) + BinaryValue(cs);
    ToBinaryAppend(7, cs);
    assert ToBinary(7) == "111";
    assert (ToBinary(7) + cs)[3..] == cs;
  }

  /** A binary string shorter than five chars renders, inverted, as five chars. */
  lemma AlternativeShortInput(s: string)
    requires IsBinary(s) && 0 < |s| < 5
    ensures InvertAlternative(s).Ok? && |InvertAlternative(s).value| == 5
  {
    BinaryValueBound(s);
    Pow2Monotone(|s|, 4);
    assert Pow2(4) == 16 && Pow2(7) == 128 && Pow2(8) == 256;
    var n := 255 - BinaryValue(s);
    ToBinaryLengthAtLeast(n, 8);
    ToBinaryLengthAtMost(n, 8);
  }

  /** A `u8`-sized binary string longer than five chars renders, inverted, as at most five chars. */
  lemma AlternativeLongInput(s: string)
    requires IsBinary(s) && |s| > 5
    ensures InvertAlternative(s).Ok? ==> |InvertAlternative(s).value| <= 5
  {
    if BinaryValue(s) <= 255 {
      assert Pow2(8) == 256;
      ToBinaryLengthAtMost(255 - BinaryValue(s), 8);
    }
  }

  /**
   * The alternative inverter matches `invert_binary_string` on a non-empty
   * binary string exactly when the string has five characters.
   */
  lemma AlternativeAgreesIffFiveBits(s: string)
    requires IsBinary(s) && |s| > 0
    ensures InvertAlternative(s) == Ok(Complement(s)) <==> |s| == 5
  {
    ComplementOfBinary(s);
    if |s| == 5 {
      AlternativeAgreesOnFiveBits(s);
    } else if |s| < 5 {
      AlternativeShortInput(s);
    } else {
      AlternativeLongInput(s);
    }
  }

  lemma {:induction false} Pow2Monotone(i: nat, j: nat)
    requires i <= j
    ensures Pow2(i) <= Pow2(j)
  {
    if i < j {
      Pow2Monotone(i, j - 1);
    }
  }

  /** The unit test `inverts_mcb_lcb`: all three inverters take "10110" to "01001". */
  lemma InvertsMcbLcb()
    ensures Complement("10110") == "01001"
    ensures InvertAlternative("10110") == Ok("01001")
    ensures InvertAnother("10110") == "01001"
  {
    assert IsBinary("10110");
    AlternativeAgreesOnFiveBits("10110");
    AnotherAgreesOnBinary("10110");
  }

  lemma ValueOfNine()
    ensures BinaryValue("01001") == 9
  {
    var e := "01001";
    assert e[..4] == "0100" && "0100"[..3] == "010" && "010"[..2] == "01" && "01"[..1] == "0";
    assert "0"[..0] == "";
  }

  lemma ValueOfTwentyTwo()
    ensures BinaryValue("10110") == 22
  {
    var g := "10110";
    assert g[..4] == "1011" && "1011"[..3] == "101" && "101"[..2] == "10" && "10"[..1] == "1";
    assert "1"[..0] == "";
  }

  /** The unit tests `processes_input_correctly` (value of "10110") and `calculates_result`. */
  lemma CalculatesResult()
    ensures ParseBinary("10110") == Ok(22)
    ensures CalcResult("10110", "01001") == Ok(198)
  {
    ValueOfTwentyTwo();
    ValueOfNine();
    assert IsBinary("10110") && IsBinary("01001");
  }
}
