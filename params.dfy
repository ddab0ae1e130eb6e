/**
 * The parameter classifier of functional notation: `detectParamType` decides
 * the kind of one token by a first-match-wins list of tests, and
 * `convertParam` gives the token its value.  JavaScript numbers are modelled as
 * exact reals; `parseInt` and `parseFloat` are modelled on the cleaned token
 * (both skip the same leading white space, stop before the trailing white
 * space, and read an exponent marker in either case).
 */
module Params {
  import opened Text
  import opened Regexps

  /** `ParameterType`: exactly five kinds. */
  datatype ParameterType = Unknown | NoneKind | Integer | Float | Percentage

  /** An argument of `convertParam`: a string or a JavaScript number. */
  datatype Param = Str(s: string) | Num(x: real)

  /** `ParamConvertResults` */
  datatype ParamConvertResults = ParamConvertResults(original: Param, kind: ParameterType, value: real)

  /** `param.trim().toLowerCase()` */
  function Clean(s: string): string
  {
    ToLower(Trim(s))
  }

  /** The decision list on a cleaned token: `none`, then integer, then percentage, then number, else unknown. */
  function Classify(clean: string): ParameterType
  {
    if clean == "none" then NoneKind
    else if IsInteger(clean) then Integer
    else if IsPercent(clean) then Percentage
    else if IsNumber(clean) then Float
    else Unknown
  }

  /** `detectParamType` */
  function DetectParamType(param: string): ParameterType
  {
    Classify(Clean(param))
  }

  /** -1 when `s` starts with `-`, else 1. */
  function Sign(s: string): (r: int)
    ensures r == 1 || r == -1
  {
    if |s| > 0 && s[0] == '-' then -1 else 1
  }

  /** `10^e` for any integer exponent. */
  function Pow10(e: int): (r: real)
    ensures r > 0.0
    decreases if e < 0 then -e else e
  {
    if e == 0 then 1.0 else if e > 0 then 10.0 * Pow10(e - 1) else Pow10(e + 1) / 10.0
  }

  /** The value of `\d*\.?\d+`: the whole digits plus the fraction digits over their power of ten. */
  function MantissaValue(m: string): (v: real)
    requires IsMantissa(m)
    ensures v >= 0.0
  {
    var n := LeadingDigits(m);
    var whole := DigitsValue(m[..n]) as real;
    if n == |m| then whole
    else whole + DigitsValue(m[n + 1..]) as real / Pow(10, |m| - n - 1) as real
  }

  /** `parseInt` on an integer token. */
  function IntegerValue(s: string): int
    requires IsInteger(s)
  {
    Sign(s) * DigitsValue(Unsigned(s))
  }

  /** `parseFloat` on a number token: sign, mantissa and power of ten. */
  function NumberValue(s: string): real
    requires IsNumber(s)
  {
    var u := Unsigned(s);
    var k := FirstExponentMark(u);
    var exp := if k == |u| then 0 else IntegerValue(u[k + 1..]);
    Sign(s) as real * MantissaValue(u[..k]) * Pow10(exp)
  }

  /** `parseFloat(s.substring(0, s.indexOf('%'))) / 100` on a percentage token. */
  function PercentValue(s: string): real
    requires IsPercent(s)
  {
    var m := s[..|s| - 1];
    Sign(m) as real * MantissaValue(Unsigned(m)) / 100.0
  }

  /** The `switch` of `convertParam`: the value each kind reads from the cleaned token; 0 for the others. */
  function KindValue(kind: ParameterType, clean: string): real
    requires kind == Classify(clean)
  {
    match kind
    case Integer => IntegerValue(clean) as real
    case Float => NumberValue(clean)
    case Percentage => PercentValue(clean)
    case _ => 0.0
  }

  /** `convertParam` on a string: the detected kind and the value its case computes; 0 otherwise. */
  function ConvertString(s: string): ParamConvertResults
  {
    var clean := Clean(s);
    var kind := Classify(clean);
    ParamConvertResults(Str(s), kind, KindValue(kind, clean))
  }

  /** `x` has no fractional part. */
  predicate IsIntegral(x: real) { x == x.Floor as real }

  /**
   * `convertParam`: a number goes through `toString`.  An integral number below
   * 1e21 in magnitude prints as its decimal digits; any other finite number
   * prints as a decimal fraction or in exponent form, which classifies as FLOAT
   * and reads back as the same number.
   */
  function ConvertParam(p: Param): (r: ParamConvertResults)
    ensures r.original == p
  {
    match p
    case Str(s) => ConvertString(s)
    case Num(x) =>
      if IsIntegral(x) && -1e21 < x < 1e21 then
        var t := ConvertString(IntText(x.Floor));
        ParamConvertResults(p, t.kind, t.value)
      else ParamConvertResults(p, Float, x)
  }

  // ----- Properties of the decision list -----

  /**
   * The kinds are consistent with the recognisers whatever their order: an
   * INTEGER is also a number, a PERCENTAGE is no number, a FLOAT is a number
   * but no integer, and UNKNOWN is exactly what no recogniser accepts.
   */
  lemma KindsInOrder(s: string)
    ensures var c := Clean(s);
      && (DetectParamType(s) == NoneKind <==> c == "none")
      && (DetectParamType(s) == Integer <==> c != "none" && IsInteger(c))
      && (DetectParamType(s) == Integer ==> IsNumber(c))
      && (DetectParamType(s) == Percentage <==> c != "none" && IsPercent(c))
      && (DetectParamType(s) == Float <==> c != "none" && IsNumber(c) && !IsInteger(c))
      && (DetectParamType(s) == Unknown <==> c != "none" && !IsNumber(c) && !IsPercent(c))
  {
    var c := Clean(s);
    if IsInteger(c) {
      IntegerIsNumber(c);
    }
    if IsPercent(c) {
      PercentIsNotNumber(c);
    }
  }

  /** White space around a token and the case of its letters do not change its kind or value. */
  lemma CleanIdempotent(s: string)
    ensures Clean(Clean(s)) == Clean(s)
    ensures DetectParamType(Clean(s)) == DetectParamType(s)
    ensures ConvertString(Clean(s)).value == ConvertString(s).value
  {
    var t := Trim(s);
    var c := ToLower(t);
    if |c| > 0 {
      assert c[0] == Lower(t[0]) && c[|c| - 1] == Lower(t[|t| - 1]);
    }
    TrimNoSpaces(c);
    assert ToLower(c) == c by {
      forall i | 0 <= i < |c| ensures Lower(c[i]) == c[i] { }
    }
    assert Clean(c) == c;
  }

  lemma TrimNoSpaces(s: string)
    requires |s| == 0 || (!IsSpace(s[0]) && !IsSpace(s[|s| - 1]))
    ensures Trim(s) == s
  {
    var i, j :| 0 <= i <= j <= |s| && Trim(s) == s[i..j] && AllSpaces(s[..i]) && AllSpaces(s[j..]);
    if i > 0 {
      assert s[..i][0] == s[0];
    }
    if j < |s| {
      assert s[j..][|s| - j - 1] == s[|s| - 1];
    }
  }

  /** The characters of a token that trimming and lower-casing leave alone. */
  predicate IsPlainChar(c: char)
  {
    IsDigit(c) || 'a' <= c <= 'z' || c == '.' || c == '%' || IsSign(c)
  }

  /** A token made of plain characters is its own cleaned form. */
  lemma CleanPlain(s: string)
    requires forall i | 0 <= i < |s| :: IsPlainChar(s[i])
    ensures Clean(s) == s
  {
    assert |s| == 0 || (!IsSpace(s[0]) && !IsSpace(s[|s| - 1]));
    TrimNoSpaces(s);
    assert ToLower(s) == s;
  }

  /** A token made of plain characters is classified and converted as it stands. */
  lemma ConvertPlain(t: string)
    requires forall i | 0 <= i < |t| :: IsPlainChar(t[i])
    ensures DetectParamType(t) == Classify(t)
    ensures ConvertString(t) == ParamConvertResults(Str(t), Classify(t), KindValue(Classify(t), t))
  {
    CleanPlain(t);
  }

  /** `parseInt` and `parseFloat` agree on an integer token, so INTEGER loses nothing by reading it as an integer. */
  lemma IntegerValueIsNumberValue(s: string)
    requires IsInteger(s)
    ensures IsNumber(s) && NumberValue(s) == IntegerValue(s) as real
  {
    IntegerIsNumber(s);
    var u := Unsigned(s);
    assert forall i | 0 <= i < |u| :: IsDigit(u[i]);
    assert FirstExponentMark(u) == |u| && u[..|u|] == u;
    assert LeadingDigits(u) == |u| && u[..LeadingDigits(u)] == u;
  }

  /** A mantissa has no exponent marker, so as a number it reads as itself. */
  lemma MantissaIsNumber(m: string)
    requires IsMantissa(m)
    ensures IsNumber(m) && NumberValue(m) == Sign(m) as real * MantissaValue(Unsigned(m))
  {
    MantissaChars(m);
    assert Unsigned(m) == m;
    assert FirstExponentMark(m) == |m| && m[..|m|] == m;
  }

  /**
   * A percentage's value is the number written before its `%`, divided by 100:
   * `parseFloat` of the text before `%` reads exactly that number.
   */
  lemma PercentIsNumberOver100(s: string)
    requires IsPercent(s)
    ensures IsNumber(s[..|s| - 1])
    ensures PercentValue(s) == NumberValue(s[..|s| - 1]) / 100.0
  {
    var m := s[..|s| - 1];
    var u := Unsigned(m);
    MantissaChars(u);
    assert Unsigned(u) == u;
    assert FirstExponentMark(u) == |u| && u[..|u|] == u;
    if u != m {
      assert Unsigned(m) == m[1..] && FirstExponentMark(Unsigned(m)) == |u|;
    }
  }

  /** The decimal text of an integer: an integer token, made of plain characters, whose value is that integer. */
  lemma {:induction false} IntTextShape(n: int)
    ensures IsInteger(IntText(n)) && IntegerValue(IntText(n)) == n
    ensures forall i | 0 <= i < |IntText(n)| :: IsPlainChar(IntText(n)[i]) && IntText(n)[i] != 'n'
  {
    var m := if n < 0 then -n else n;
    var d := NatText(m);
    NatTextValue(m);
    assert forall i | 0 <= i < |d| :: IsDigit(d[i]);
    var t := IntText(n);
    if n < 0 {
      assert t == "-" + d;
      assert Unsigned(t) == d;
      assert forall i | 1 <= i < |t| :: t[i] == d[i - 1];
    } else {
      assert Unsigned(t) == d;
    }
  }

  /** The decimal text of an integer classifies as INTEGER and converts to that integer. */
  lemma IntTextIsInteger(n: int)
    ensures ConvertString(IntText(n)).kind == Integer
    ensures ConvertString(IntText(n)).value == n as real
  {
    var t := IntText(n);
    IntTextShape(n);
    ConvertPlain(t);
    assert t != "none" by {
      assert t[0] != 'n';
    }
  }

  /**
   * `convertParam` on a number: the number comes back as the value, classified
   * as INTEGER when it prints as a plain integer and as FLOAT otherwise.
   */
  lemma ConvertNumber(x: real)
    ensures ConvertParam(Num(x)).value == x
    ensures ConvertParam(Num(x)).kind == if IsIntegral(x) && -1e21 < x < 1e21 then Integer else Float
  {
    if IsIntegral(x) && -1e21 < x < 1e21 {
      IntTextIsInteger(x.Floor);
    }
  }

  /** White space around a token does not change its cleaned form, hence neither its kind nor its value. */
  lemma CleanAround(a: string, t: string, b: string)
    requires AllSpaces(a) && AllSpaces(b) && |t| > 0
    requires !IsSpace(t[0]) && !IsSpace(t[|t| - 1])
    ensures Clean(a + t + b) == Clean(t) == ToLower(t)
  {
    TrimAround(a, t, b);
    TrimAround("", t, "");
    assert "" + t + "" == t;
  }

  // ----- The library's test cases (tokens made of plain characters: see ConvertPlain) -----

  /** `none` in any case, surrounded by any white space, is the keyword NONE, with value 0. */
  lemma NoneKeyword(a: string, t: string, b: string)
    requires AllSpaces(a) && AllSpaces(b) && ToLower(t) == "none"
    ensures DetectParamType(a + t + b) == NoneKind
    ensures ConvertString(a + t + b).value == 0.0
  {
    assert Lower(t[0]) == 'n' && Lower(t[3]) == 'e';
    CleanAround(a, t, b);
  }

  /** `50.0%` is a percentage. */
  lemma DecimalPercentScenario()
    ensures Classify("50.0%") == Percentage
  {
    assert "50.0%"[..4] == "50.0" && LeadingDigits("50.0") == 2 && "50.0"[3..] == "0";
    assert !IsInteger("50.0%") by { assert "50.0%"[2] == '.'; }
  }

  /** `50%0` is no percentage: the `%` must come last. */
  lemma PercentNotLastScenario()
    ensures Classify("50%0") == Unknown
  {
    assert LeadingDigits("50%0") == 2 && FirstExponentMark("50%0") == 4 && "50%0"[..4] == "50%0";
    assert "50%0"[..3] == "50%";
  }

  /** `50.0` is a FLOAT, not an INTEGER. */
  lemma DecimalScenario()
    ensures Classify("50.0") == Float
  {
    assert FirstExponentMark("50.0") == 4 && "50.0"[..4] == "50.0" && "50.0"[3..] == "0";
  }

  /** `1.5e2` is a FLOAT. */
  lemma ExponentScenario()
    ensures Classify("1.5e2") == Float
  {
    assert FirstExponentMark("1.5e2") == 3 && "1.5e2"[..3] == "1.5" && "1.5e2"[4..] == "2";
    assert "1.5"[2..] == "5";
  }

  /** `-5` is an INTEGER of value -5 and `50` one of value 50. */
  lemma IntegerScenarios()
    ensures Classify("-5") == Integer
    ensures KindValue(Integer, "50") == 50.0 && KindValue(Integer, "-5") == -5.0
  {
    assert DigitsValue("50") == 50;
  }

  /** `50%` is 0.5. */
  lemma PercentScenario()
    ensures Classify("50%") == Percentage && KindValue(Percentage, "50%") == 0.5
  {
    var s := "50%";
    assert Unsigned(s) == s && !IsDigit(s[2]);
    assert !IsInteger(s);
    assert s[..|s| - 1] == "50" && Unsigned("50") == "50";
    assert LeadingDigits("50") == 2 by {
      assert "50"[1..] == "0" && "0"[1..] == "";
    }
    assert IsPercent(s);
    assert Classify(s) == Percentage;
    assert DigitsValue("50") == 50 by {
      assert "50"[..1] == "5" && "5"[..0] == "";
    }
    assert "50"[..2] == "50";
    assert MantissaValue("50") == 50.0;
    assert Sign("50") == 1;
    assert PercentValue(s) == 50.0 / 100.0;
  }

  /** `150%` is 1.5: a percentage is not clamped here. */
  lemma OverPercentScenario()
    ensures Classify("150%") == Percentage && KindValue(Percentage, "150%") == 1.5
  {
    var s := "150%";
    assert Unsigned(s) == s && !IsDigit(s[3]);
    assert !IsInteger(s);
    assert s[..|s| - 1] == "150" && Unsigned("150") == "150";
    assert LeadingDigits("150") == 3 by {
      assert "150"[1..] == "50" && "50"[1..] == "0" && "0"[1..] == "";
    }
    assert IsPercent(s);
    assert Classify(s) == Percentage;
    assert DigitsValue("150") == 150 by {
      assert "150"[..2] == "15" && "15"[..1] == "1" && "1"[..0] == "";
    }
    assert "150"[..3] == "150";
    assert MantissaValue("150") == 150.0;
    assert Sign("150") == 1;
    assert PercentValue(s) == 150.0 / 100.0;
  }

  /** `-20%` is -0.2. */
  lemma NegativePercentScenario()
    ensures Classify("-20%") == Percentage && KindValue(Percentage, "-20%") == -0.2
  {
    var s := "-20%";
    assert Unsigned(s) == "20%" && !IsDigit("20%"[2]);
    assert !IsInteger(s);
    assert s[..|s| - 1] == "-20" && Unsigned("-20") == "20";
    assert LeadingDigits("20") == 2 by {
      assert "20"[1..] == "0" && "0"[1..] == "";
    }
    assert IsPercent(s);
    assert Classify(s) == Percentage;
    assert DigitsValue("20") == 20 by {
      assert "20"[..1] == "2" && "2"[..0] == "";
    }
    assert "20"[..2] == "20";
    assert MantissaValue("20") == 20.0;
    assert Sign("-20") == -1;
    assert PercentValue(s) == -20.0 / 100.0;
  }

  /** `3.14` is the FLOAT 3.14. */
  lemma FloatScenario()
    ensures Classify("3.14") == Float && KindValue(Float, "3.14") == 3.14
  {
    assert FirstExponentMark("3.14") == 4 && "3.14"[..4] == "3.14" && "3.14"[..1] == "3" && "3.14"[2..] == "14";
    assert DigitsValue("14") == 14;
  }

  /** `2e2` is the FLOAT 200. */
  lemma ExponentValueScenario()
    ensures Classify("2e2") == Float && KindValue(Float, "2e2") == 200.0
  {
    assert FirstExponentMark("2e2") == 1 && "2e2"[..1] == "2" && "2e2"[2..] == "2";
    assert Pow10(2) == 100.0;
  }

  /** Numbers classify through their printed form: 3.14 is a FLOAT and 50 an INTEGER. */
  lemma NumberParamScenarios()
    ensures ConvertParam(Num(3.14)) == ParamConvertResults(Num(3.14), Float, 3.14)
    ensures ConvertParam(Num(50.0)) == ParamConvertResults(Num(50.0), Integer, 50.0)
  {
    ConvertNumber(3.14);
    ConvertNumber(50.0);
  }

  /** `bad` and `some` are UNKNOWN with value 0. */
  lemma UnknownScenarios()
    ensures Classify("bad") == Unknown && Classify("some") == Unknown
    ensures KindValue(Unknown, "bad") == 0.0
  {
  }

  /** `1e`, an exponent marker without digits, is UNKNOWN. */
  lemma DanglingExponentScenario()
    ensures Classify("1e") == Unknown
  {
    assert FirstExponentMark("1e") == 1 && "1e"[..1] == "1" && "1e"[2..] == "";
  }
}
