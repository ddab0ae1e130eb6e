/**
 * The token grammars of the library's regular expressions (`regexpHex`,
 * `regexpInteger`, `regexpNumber`, `regexpPercent`) as recognisers over
 * strings, and the `captureAll` / `captureFirst` helpers.
 */
module Regexps {
  import opened Wrappers
  import opened Text

  predicate IsSign(c: char) { c == '+' || c == '-' }

  /** The exponent marker `e`, matched case-insensitively. */
  predicate IsExponentMark(c: char) { c == 'e' || c == 'E' }

  /** The characters a number token can contain. */
  predicate IsNumberChar(c: char) { IsDigit(c) || c == '.' || IsSign(c) || IsExponentMark(c) }

  /** The number of leading decimal digits of `s`. */
  function LeadingDigits(s: string): (n: nat)
    ensures n <= |s| && AllDigits(s[..n])
    ensures n < |s| ==> !IsDigit(s[n])
  {
    if |s| == 0 || !IsDigit(s[0]) then 0
    else
      var n := 1 + LeadingDigits(s[1..]);
      assert s[..n] == [s[0]] + s[1..][..n - 1];
      n
  }

  /** `\d*\.?\d+`: a run of digits, or digits, a point and at least one digit. */
  predicate IsMantissa(s: string)
  {
    var n := LeadingDigits(s);
    (n == |s| && n > 0) || (n < |s| && s[n] == '.' && IsDigits(s[n + 1..]))
  }

  /** `s` without its leading sign, if it has one (`[+-]?`). */
  function Unsigned(s: string): (u: string)
    ensures u == s || (|s| > 0 && IsSign(s[0]) && u == s[1..])
  {
    if |s| > 0 && IsSign(s[0]) then s[1..] else s
  }

  /** `regexpInteger`, `^[+-]?\d+$`. */
  predicate IsInteger(s: string) { IsDigits(Unsigned(s)) }

  /** The index of the first exponent marker of `s` (`|s|` when there is none). */
  function FirstExponentMark(s: string): (k: nat)
    ensures k <= |s|
    ensures forall i | 0 <= i < k :: !IsExponentMark(s[i])
    ensures k < |s| ==> IsExponentMark(s[k])
  {
    if |s| == 0 || IsExponentMark(s[0]) then 0 else 1 + FirstExponentMark(s[1..])
  }

  /**
   * `regexpNumber`, `^(?!e)[+-]?(?![+-])\d*\.?\d+(?:e[+-]?\d+)?$` with the `i`
   * flag: an optional sign, a mantissa and an optional exponent.  The two
   * look-aheads only exclude strings the rest of the pattern excludes too.
   */
  predicate IsNumber(s: string)
  {
    var u := Unsigned(s);
    var k := FirstExponentMark(u);
    IsMantissa(u[..k]) && (k == |u| || IsInteger(u[k + 1..]))
  }

  /** `regexpPercent`, `^[+-]?\d*\.?\d+%$`. */
  predicate IsPercent(s: string)
  {
    |s| > 0 && s[|s| - 1] == '%' && IsMantissa(Unsigned(s[..|s| - 1]))
  }

  /** `\d*\.?\d+%`, the unsigned percentage accepted inside `regexpRGBFunc`. */
  predicate IsUnsignedPercent(s: string)
  {
    |s| > 0 && s[|s| - 1] == '%' && IsMantissa(s[..|s| - 1])
  }

  /**
   * `regexpHex`, `^#?([A-F0-9]{3,8})$` with the `i` flag: the captured digit
   * run, or `None` when the string does not match.
   */
  function HexMatch(s: string): (r: Option<string>)
    ensures r.Some? ==> 3 <= |r.value| <= 8 && AllHex(r.value) && (s == r.value || s == "#" + r.value)
  {
    var t := if |s| > 0 && s[0] == '#' then s[1..] else s;
    if 3 <= |t| <= 8 && AllHex(t) then Some(t) else None
  }

  /** Every run of 3 to 8 hexadecimal digits matches, with or without a leading `#`. */
  lemma HexMatchAccepts(t: string, hash: bool)
    requires 3 <= |t| <= 8 && AllHex(t)
    ensures HexMatch(if hash then "#" + t else t) == Some(t)
  {
    if hash {
      assert ("#" + t)[1..] == t;
    }
  }

  /** One match of a regular expression: the matched text and its capture groups (`undefined` is `None`). */
  datatype Match = Match(text: string, groups: seq<Option<string>>)

  /** `captureAll`: the capture groups of every match, in the order the matches were found. */
  function CaptureAll(matches: seq<Match>): (r: seq<seq<Option<string>>>)
    ensures |r| == |matches|
    ensures forall i | 0 <= i < |r| :: r[i] == matches[i].groups
  {
    if |matches| == 0 then [] else [matches[0].groups] + CaptureAll(matches[1..])
  }

  /** `captureFirst`: the capture groups of the first match, or `None` (`null`) when nothing matched. */
  function CaptureFirst(matches: seq<Match>): (r: Option<seq<Option<string>>>)
    ensures r.None? <==> |matches| == 0
    ensures r.Some? ==> r.value == matches[0].groups
  {
    var all := CaptureAll(matches);
    if |all| == 0 then None else Some(all[0])
  }

  lemma MantissaChars(s: string)
    requires IsMantissa(s)
    ensures |s| > 0 && IsDigit(s[|s| - 1])
    ensures forall i | 0 <= i < |s| :: IsDigit(s[i]) || s[i] == '.'
  {
    var n := LeadingDigits(s);
    assert forall i | 0 <= i < n :: IsDigit(s[..n][i]);
    if n < |s| {
      forall i | n + 1 <= i < |s| ensures IsDigit(s[i]) {
        assert s[i] == s[n + 1..][i - n - 1];
      }
    }
  }

  /** Every character of a number is a digit, a point, a sign or an exponent marker, and the last is a digit. */
  lemma NumberChars(s: string)
    requires IsNumber(s)
    ensures |s| > 0 && IsDigit(s[|s| - 1])
    ensures forall i | 0 <= i < |s| :: IsNumberChar(s[i])
  {
    var u := Unsigned(s);
    var k := FirstExponentMark(u);
    MantissaPart(u, k);
    if k < |u| {
      ExponentPart(u, k);
    }
    SignedChars(s, u);
  }

  /** The characters before the exponent marker. */
  lemma MantissaPart(u: string, k: nat)
    requires k <= |u| && IsMantissa(u[..k])
    ensures forall i | 0 <= i < k :: IsNumberChar(u[i])
    ensures k == |u| ==> |u| > 0 && IsDigit(u[|u| - 1])
  {
    MantissaChars(u[..k]);
    forall i | 0 <= i < k ensures IsNumberChar(u[i]) {
      assert u[i] == u[..k][i];
    }
    if k == |u| {
      assert u[..k] == u;
    }
  }

  /** The exponent marker and the integer after it. */
  lemma ExponentPart(u: string, k: nat)
    requires k < |u| && IsExponentMark(u[k]) && IsInteger(u[k + 1..])
    ensures forall i | k <= i < |u| :: IsNumberChar(u[i])
    ensures IsDigit(u[|u| - 1])
  {
    var e := u[k + 1..];
    var x := Unsigned(e);
    forall i | k + 1 <= i < |u| ensures IsNumberChar(u[i]) {
      if x == e {
        assert u[i] == x[i - k - 1];
      } else if i > k + 1 {
        assert u[i] == x[i - k - 2];
      }
    }
    assert u[|u| - 1] == x[|x| - 1];
  }

  /** A sign in front of a run of number characters keeps it one. */
  lemma SignedChars(s: string, u: string)
    requires u == Unsigned(s) && |u| > 0 && IsDigit(u[|u| - 1])
    requires forall i | 0 <= i < |u| :: IsNumberChar(u[i])
    ensures |s| > 0 && IsDigit(s[|s| - 1])
    ensures forall i | 0 <= i < |s| :: IsNumberChar(s[i])
  {
    if u != s {
      assert forall i | 1 <= i < |s| :: s[i] == u[i - 1];
    }
  }

  /** An integer is also a number, so only the order of the classifier's tests tells them apart. */
  lemma IntegerIsNumber(s: string)
    requires IsInteger(s)
    ensures IsNumber(s)
  {
    var u := Unsigned(s);
    var k := FirstExponentMark(u);
    assert forall i | 0 <= i < |u| :: IsDigit(u[i]);
    assert k == |u|;
    assert u[..k] == u;
    assert LeadingDigits(u) == |u|;
  }

  /** A percentage ends in `%`, which no number or integer does. */
  lemma PercentIsNotNumber(s: string)
    requires IsPercent(s)
    ensures !IsNumber(s) && !IsInteger(s)
  {
    if IsNumber(s) {
      NumberChars(s);
    }
    if IsInteger(s) {
      IntegerIsNumber(s);
      NumberChars(s);
    }
  }

  /** Integers exercised by the library's tests. */
  lemma IntegerScenarios()
    ensures IsInteger("50") && IsInteger("-5") && !IsInteger("3.14")
  {
    assert "3.14"[1] == '.';
  }

  /** A decimal fraction and a bare fraction with a sign are numbers (tests of the classifier). */
  lemma FractionScenarios()
    ensures IsNumber("3.14") && IsNumber("-.5")
  {
    DecimalFraction();
    SignedBareFraction();
  }

  lemma DecimalFraction()
    ensures IsNumber("3.14")
  {
    var u := "3.14";
    assert Unsigned(u) == u;
    assert !IsExponentMark(u[0]) && !IsExponentMark(u[1]) && !IsExponentMark(u[2]) && !IsExponentMark(u[3]);
    assert FirstExponentMark(u) == 4 && u[..4] == u;
    assert LeadingDigits(u) == 1 && u[2..] == "14";
  }

  lemma SignedBareFraction()
    ensures IsNumber("-.5")
  {
    var u := ".5";
    assert Unsigned("-.5") == u;
    assert !IsExponentMark(u[0]) && !IsExponentMark(u[1]);
    assert FirstExponentMark(u) == 2 && u[..2] == u;
    assert LeadingDigits(u) == 0 && u[1..] == "5";
  }

  /** Exponent forms in either case are numbers (tests of the classifier and of `ColorRGB`). */
  lemma ExponentScenarios()
    ensures IsNumber("2e2") && IsNumber("6.4E1")
  {
    LowerExponent();
    UpperExponent();
  }

  lemma LowerExponent()
    ensures IsNumber("2e2")
  {
    var u := "2e2";
    assert Unsigned(u) == u && !IsExponentMark(u[0]) && IsExponentMark(u[1]);
    assert FirstExponentMark(u) == 1 && u[..1] == "2" && u[2..] == "2";
  }

  lemma UpperExponent()
    ensures IsNumber("6.4E1")
  {
    var u := "6.4E1";
    assert Unsigned(u) == u;
    assert !IsExponentMark(u[0]) && !IsExponentMark(u[1]) && !IsExponentMark(u[2]) && IsExponentMark(u[3]);
    assert FirstExponentMark(u) == 3 && u[..3] == "6.4" && u[4..] == "1";
    assert LeadingDigits("6.4") == 1 && "6.4"[2..] == "4";
  }

  /** Strings `regexpNumber` rejects: a dangling exponent, a leading `e`, two signs, a keyword. */
  lemma NumberRejections()
    ensures !IsNumber("1e") && !IsNumber("e5") && !IsNumber("+-1") && !IsNumber("none")
  {
  }

  /** Percentages exercised by the library's tests. */
  lemma PercentScenarios()
    ensures IsPercent("50%") && IsPercent("50.0%") && IsPercent("-20%")
    ensures !IsPercent("50%0") && !IsPercent("none")
  {
  }
}
