/**
 * What the serialisers and the parsers of `ColorRGB` promise about each other:
 * the integer, hexadecimal, functional, array and object forms read back as
 * the colour they were written from (the alpha quantised to a byte where the
 * form stores a byte), and the cases of the library's tests.
 */
module RGBLaws {
  import opened Wrappers
  import opened Text
  import opened MathUtils
  import opened Regexps
  import opened Params
  import RGBFuncRegexp
  import RGBFuncRoundTrip
  import opened RGB

  // ---------------------------------------------------------------------------
  // The alpha byte.

  /** The byte the alpha is stored as is within 1/255 below the alpha, and reads back as itself. */
  lemma AlphaQuantised(c: RGBA)
    requires c.Valid()
    ensures var q := c.AlphaByte() as real / 255.0;
      && q <= c.alpha < q + 1.0 / 255.0
      && c.(alpha := q).Valid() && c.(alpha := q).AlphaByte() == c.AlphaByte()
  {
    var a := c.AlphaByte();
    var q := a as real / 255.0;
    assert q * 255.0 == a as real;
  }

  // ---------------------------------------------------------------------------
  // The integer form.

  /**
   * `fromInteger(toInteger(true, msb), true, msb)` restores the channels and
   * the alpha byte, whatever the colour it is applied to.
   */
  lemma IntegerRoundTrip(c: RGBA, d: RGBA, alphaMSB: bool)
    requires c.Valid()
    ensures AfterFromInteger(d, c.IntegerOf(true, alphaMSB) as real, true, alphaMSB)
      == RGBA(c.red, c.green, c.blue, c.AlphaByte() as real / 255.0)
  {
    var n := c.IntegerOf(true, alphaMSB);
    IntegralUint32(n);
    if alphaMSB {
      Bytes4(c.AlphaByte(), c.red, c.green, c.blue, n);
    } else {
      Bytes4(c.red, c.green, c.blue, c.AlphaByte(), n);
    }
  }

  /** Without alpha, `fromInteger(toInteger())` of an opaque colour restores the channels and keeps the alpha. */
  lemma OpaqueIntegerRoundTrip(c: RGBA, d: RGBA, alphaMSB: bool)
    requires c.Valid() && c.alpha == 1.0
    ensures AfterFromInteger(d, c.IntegerOf(false, alphaMSB) as real, false, alphaMSB)
      == RGBA(c.red, c.green, c.blue, d.alpha)
  {
    var n := c.IntegerOf(false, alphaMSB);
    IntegralUint32(n);
    Bytes3(c.red, c.green, c.blue, n);
  }

  /** Writing, reading and writing again gives the first integer: the round trip loses nothing a second time. */
  lemma IntegerStable(c: RGBA, d: RGBA, alphaMSB: bool)
    requires c.Valid()
    ensures var back := AfterFromInteger(d, c.IntegerOf(true, alphaMSB) as real, true, alphaMSB);
      back.Valid() && back.IntegerOf(true, alphaMSB) == c.IntegerOf(true, alphaMSB)
  {
    IntegerRoundTrip(c, d, alphaMSB);
    AlphaQuantised(c);
  }

  // ---------------------------------------------------------------------------
  // The hexadecimal form.

  /** The digits of `toHexString`: a pair per channel, the alpha's pair first or last when shown. */
  lemma HexDigitsLayout(c: RGBA, forceAlpha: bool, alphaMSB: bool)
    requires c.Valid()
    ensures var r, g, b, a := Enc(c.red as real), Enc(c.green as real), Enc(c.blue as real), Enc(c.alpha * 255.0);
      c.ToHexString(forceAlpha, alphaMSB)[1..]
        == if !c.ShowsAlpha(forceAlpha) then r + g + b else if alphaMSB then a + r + g + b else r + g + b + a
  {
    var r, g, b, a := Enc(c.red as real), Enc(c.green as real), Enc(c.blue as real), Enc(c.alpha * 255.0);
    var str := "#" + r + g + b;
    assert str[1..] == r + g + b;
    if c.ShowsAlpha(forceAlpha) {
      if alphaMSB {
        assert ("#" + a + str[1..])[1..] == a + r + g + b;
      } else {
        assert (str + a)[1..] == r + g + b + a;
      }
    }
  }

  /** The pair `enc` writes for a byte reads back as that byte. */
  lemma EncByte(n: int)
    requires IsByte(n)
    ensures HexValue(Enc(n as real)) == n
  {
  }

  /** The pair `enc` writes for the scaled alpha reads back as the alpha byte. */
  lemma EncAlpha(c: RGBA)
    requires c.Valid()
    ensures HexValue(Enc(c.alpha * 255.0)) == c.AlphaByte()
  {
    var k := c.AlphaByte();
    assert Trunc(c.alpha * 255.0) == k;
    ByteRemainder(k);
  }

  lemma ByteRemainder(k: int)
    requires 0 <= k < 256
    ensures k % 256 == k
  {
  }

  /** The four pairs of `toHexString` read back as the channels and the alpha byte. */
  lemma EncChannels(c: RGBA)
    requires c.Valid()
    ensures HexValue(Enc(c.red as real)) == c.red && HexValue(Enc(c.green as real)) == c.green
    ensures HexValue(Enc(c.blue as real)) == c.blue && HexValue(Enc(c.alpha * 255.0)) == c.AlphaByte()
  {
    EncByte(c.red);
    EncByte(c.green);
    EncByte(c.blue);
    EncAlpha(c);
  }

  /** The digits of `toHexString` spell the number `toInteger` returns, with the same flags. */
  lemma HexIsInteger(c: RGBA, forceAlpha: bool, alphaMSB: bool)
    requires c.Valid()
    ensures HexValue(c.ToHexString(forceAlpha, alphaMSB)[1..]) == c.IntegerOf(forceAlpha, alphaMSB)
  {
    HexDigitsLayout(c, forceAlpha, alphaMSB);
    var r, g, b, a := Enc(c.red as real), Enc(c.green as real), Enc(c.blue as real), Enc(c.alpha * 255.0);
    EncChannels(c);
    if !c.ShowsAlpha(forceAlpha) {
      Join3(r, g, b);
    } else if alphaMSB {
      Join4(a, r, g, b);
    } else {
      Join4(r, g, b, a);
    }
  }

  /** Six digits made of three pairs read as the three pairs; the alpha is kept. */
  lemma LongHexOf3(c: RGBA, hex: string, r: string, g: string, b: string)
    requires |r| == |g| == |b| == 2 && AllHex(r) && AllHex(g) && AllHex(b) && hex == r + g + b
    ensures AllHex(hex) && LongHex(c, hex) == RGBA(HexValue(r), HexValue(g), HexValue(b), c.alpha)
  {
    assert hex[0..2] == r && hex[2..4] == g && hex[4..6] == b;
  }

  /** Eight digits made of four pairs read as the four pairs, the last the alpha byte. */
  lemma LongHexOf4(c: RGBA, hex: string, r: string, g: string, b: string, a: string)
    requires |r| == |g| == |b| == |a| == 2 && AllHex(r) && AllHex(g) && AllHex(b) && AllHex(a)
    requires hex == r + g + b + a
    ensures AllHex(hex) && LongHex(c, hex) == RGBA(HexValue(r), HexValue(g), HexValue(b), HexValue(a) as real / 255.0)
  {
    Cut4(hex, r, g, b, a);
  }

  /** Four digit pairs written one after another are the pairs of the whole. */
  lemma Cut4(hex: string, r: string, g: string, b: string, a: string)
    requires |r| == |g| == |b| == |a| == 2 && AllHex(r) && AllHex(g) && AllHex(b) && AllHex(a)
    requires hex == r + g + b + a
    ensures |hex| == 8 && AllHex(hex)
    ensures hex[0..2] == r && hex[2..4] == g && hex[4..6] == b && hex[6..8] == a
  {
    var p := r + g + b;
    assert hex == p + a;
    assert hex[6..8] == a;
    assert hex[0..2] == p[0..2] == r;
    assert hex[2..4] == p[2..4] == g;
    assert hex[4..6] == p[4..6] == b;
    assert AllHex(hex) by {
      forall i | 0 <= i < 8 ensures IsHexDigit(hex[i]) {
        if i < 2 { assert hex[i] == r[i]; }
        else if i < 4 { assert hex[i] == g[i - 2]; }
        else if i < 6 { assert hex[i] == b[i - 4]; }
        else { assert hex[i] == a[i - 6]; }
      }
    }
  }

  /**
   * `fromHexString(toHexString(force))` restores the channels, and the alpha
   * byte when the alpha was written; otherwise the alpha is kept.  (With the
   * alpha written first, `alphaMSB`, the parser would read it as red.)
   */
  lemma HexRoundTrip(c: RGBA, d: RGBA, forceAlpha: bool)
    requires c.Valid()
    ensures AfterFromHex(d, c.ToHexString(forceAlpha, false))
      == Success(RGBA(c.red, c.green, c.blue, if c.ShowsAlpha(forceAlpha) then c.AlphaByte() as real / 255.0 else d.alpha))
  {
    var s := c.ToHexString(forceAlpha, false);
    var r, g, b, a := Enc(c.red as real), Enc(c.green as real), Enc(c.blue as real), Enc(c.alpha * 255.0);
    var shows := c.ShowsAlpha(forceAlpha);
    assert s == "#" + (if shows then r + g + b + a else r + g + b) by {
      HexDigitsLayout(c, forceAlpha, false);
    }
    EncChannels(c);
    ReadHexPairs(d, s, r, g, b, a, shows, c.red, c.green, c.blue, c.AlphaByte());
  }

  /** `#` and three or four pairs of digits parse as those pairs. */
  lemma ReadHexPairs(d: RGBA, s: string, r: string, g: string, b: string, a: string, shows: bool,
                     red: int, green: int, blue: int, alpha: int)
    requires |r| == |g| == |b| == |a| == 2 && AllHex(r) && AllHex(g) && AllHex(b) && AllHex(a)
    requires HexValue(r) == red && HexValue(g) == green && HexValue(b) == blue && HexValue(a) == alpha
    requires s == "#" + (if shows then r + g + b + a else r + g + b)
    ensures AfterFromHex(d, s)
      == Success(RGBA(red, green, blue, if shows then alpha as real / 255.0 else d.alpha))
  {
    if shows {
      ReadLongHex4(d, r + g + b + a, r, g, b, a);
    } else {
      ReadLongHex3(d, r + g + b, r, g, b);
    }
  }

  /** `#` and six digits parse as the three pairs; the alpha is kept. */
  lemma ReadLongHex3(d: RGBA, hex: string, r: string, g: string, b: string)
    requires |r| == |g| == |b| == 2 && AllHex(r) && AllHex(g) && AllHex(b) && hex == r + g + b
    ensures AfterFromHex(d, "#" + hex) == Success(RGBA(HexValue(r), HexValue(g), HexValue(b), d.alpha))
  {
    LongHexOf3(d, hex, r, g, b);
    HexMatchAccepts(hex, true);
  }

  /** `#` and eight digits parse as the four pairs, the last the alpha byte. */
  lemma ReadLongHex4(d: RGBA, hex: string, r: string, g: string, b: string, a: string)
    requires |r| == |g| == |b| == |a| == 2 && AllHex(r) && AllHex(g) && AllHex(b) && AllHex(a)
    requires hex == r + g + b + a
    ensures AfterFromHex(d, "#" + hex) == Success(RGBA(HexValue(r), HexValue(g), HexValue(b), HexValue(a) as real / 255.0))
  {
    LongHexOf4(d, hex, r, g, b, a);
    HexMatchAccepts(hex, true);
  }

  // ---------------------------------------------------------------------------
  // The functional notation.

  /** `s` has no upper-case letter. */
  predicate NoUpper(s: string)
  {
    forall i | 0 <= i < |s| :: !('A' <= s[i] <= 'Z')
  }

  lemma NoUpperConcat(a: string, b: string)
    requires NoUpper(a) && NoUpper(b)
    ensures NoUpper(a + b)
  {
    assert forall i | |a| <= i < |a + b| :: (a + b)[i] == b[i - |a|];
  }

  /** No upper-case letter: lower-casing changes nothing. */
  lemma LowerCaseFixed(s: string)
    requires NoUpper(s)
    ensures ToLower(s) == s
  {
  }

  /** The decimal text of a byte, as an argument of `set`, sets the channel to that byte. */
  lemma ByteTextChannel(current: int, n: int)
    requires IsByte(n)
    ensures SetChannel(current, Some(Str(NatText(n)))) == n
  {
    IntTextIsInteger(n);
  }

  /** The notation `toFuncString` writes for an opaque colour, as a value of the grammar. */
  function OpaqueNotation(c: RGBA): (n: RGBFuncRegexp.Notation)
    requires c.Valid()
    ensures n.Valid()
  {
    RGBFuncRegexp.DigitsAreNumber(NatText(c.red));
    RGBFuncRegexp.DigitsAreNumber(NatText(c.green));
    RGBFuncRegexp.DigitsAreNumber(NatText(c.blue));
    var sep := RGBFuncRegexp.ListSep("", true, " ");
    RGBFuncRegexp.Notation(false, "", NatText(c.red), sep, NatText(c.green), sep, NatText(c.blue), None, "")
  }

  /** The opaque form of `toFuncString` is the text of `OpaqueNotation`. */
  lemma OpaqueFuncText(c: RGBA, cleanFloatStr: real -> string)
    requires c.Valid() && c.alpha == 1.0
    ensures c.ToFuncString(false, cleanFloatStr) == OpaqueNotation(c).Text()
  {
    var n := OpaqueNotation(c);
    assert n.sep1.Text() == ", " && n.sep2.Text() == ", ";
    assert n.Tail() == ")";
    assert ("rgb(" + "") == "rgb(";
  }

  lemma DigitsNoUpper(s: string)
    requires IsDigits(s)
    ensures NoUpper(s)
  {
    assert forall i | 0 <= i < |s| :: IsDigit(s[i]);
  }

  /** The string `toFuncString` writes for an opaque colour has no upper-case letter. */
  lemma OpaqueFuncNoUpper(c: RGBA, cleanFloatStr: real -> string)
    requires c.Valid() && c.alpha == 1.0
    ensures NoUpper(c.ToFuncString(false, cleanFloatStr))
  {
    var r, g, b := NatText(c.red), NatText(c.green), NatText(c.blue);
    DigitsNoUpper(r);
    DigitsNoUpper(g);
    DigitsNoUpper(b);
    var sep := ", ";
    assert NoUpper("rgb(") && NoUpper(sep) && NoUpper(")");
    NoUpperConcat("rgb(", r);
    NoUpperConcat("rgb(" + r, sep);
    NoUpperConcat("rgb(" + r + sep, g);
    NoUpperConcat("rgb(" + r + sep + g, sep);
    NoUpperConcat("rgb(" + r + sep + g + sep, b);
    NoUpperConcat("rgb(" + r + sep + g + sep + b, ")");
  }

  /** The string `toFuncString` writes for an opaque colour is its own trimmed, lower-cased form. */
  lemma OpaqueFuncClean(c: RGBA, cleanFloatStr: real -> string)
    requires c.Valid() && c.alpha == 1.0
    ensures Clean(c.ToFuncString(false, cleanFloatStr)) == c.ToFuncString(false, cleanFloatStr)
  {
    var s := c.ToFuncString(false, cleanFloatStr);
    OpaqueFuncNoUpper(c, cleanFloatStr);
    LowerCaseFixed(s);
    assert s[0] == 'r' && s[|s| - 1] == ')';
    CleanAround("", s, "");
    assert "" + s + "" == s;
  }

  /**
   * `fromFuncString(toFuncString())` of an opaque colour restores its channels
   * and keeps the alpha of the colour it is applied to.
   */
  lemma FuncRoundTrip(c: RGBA, d: RGBA, cleanFloatStr: real -> string)
    requires c.Valid() && c.alpha == 1.0
    ensures AfterFromFunc(d, c.ToFuncString(false, cleanFloatStr)) == Success(RGBA(c.red, c.green, c.blue, d.alpha))
  {
    var n := OpaqueNotation(c);
    var s := c.ToFuncString(false, cleanFloatStr);
    assert RGBFuncRegexp.WrittenMatch(Clean(s)) == Some(n.Groups()) by {
      OpaqueFuncClean(c, cleanFloatStr);
      OpaqueFuncText(c, cleanFloatStr);
      RGBFuncRoundTrip.ReadBack(n, false);
    }
    OpaqueTokens(c, d);
  }

  /** The groups of `OpaqueNotation`, passed to `set`, set the three channels and keep the alpha. */
  lemma OpaqueTokens(c: RGBA, d: RGBA)
    requires c.Valid()
    ensures AfterSet(d, GroupTokens(OpaqueNotation(c).Groups())) == RGBA(c.red, c.green, c.blue, d.alpha)
  {
    var n := OpaqueNotation(c);
    var tokens := GroupTokens(n.Groups());
    assert Slot(tokens, 0) == Some(Str(NatText(c.red)));
    assert Slot(tokens, 1) == Some(Str(NatText(c.green)));
    assert Slot(tokens, 2) == Some(Str(NatText(c.blue)));
    assert Slot(tokens, 3) == None;
    ByteTextChannel(d.red, c.red);
    ByteTextChannel(d.green, c.green);
    ByteTextChannel(d.blue, c.blue);
  }

  // ---------------------------------------------------------------------------
  // Arrays, objects and strings.

  /** A number argument of `set` sets a channel to the number clamped to a byte, fraction dropped. */
  lemma NumberChannel(current: int, x: real)
    ensures SetChannel(current, Some(Num(x))) == ClampByte(x)
  {
    ConvertNumber(x);
  }

  /** The elements of an array as arguments of `set`. */
  function NumberTokens(xs: seq<real>): (ts: seq<Option<Param>>)
    ensures |ts| == |xs| && forall i | 0 <= i < |xs| :: ts[i] == Some(Num(xs[i]))
  {
    seq(|xs|, i requires 0 <= i < |xs| => Some(Num(xs[i])))
  }

  /** `fromArray(toArray())` restores the colour exactly, whatever it is applied to. */
  lemma ArrayRoundTrip(c: RGBA, d: RGBA)
    requires c.Valid()
    ensures AfterSet(d, NumberTokens(c.ToArray())) == c
  {
    var ts := NumberTokens(c.ToArray());
    NumberChannel(d.red, c.red as real);
    NumberChannel(d.green, c.green as real);
    NumberChannel(d.blue, c.blue as real);
    ConvertNumber(c.alpha);
    assert Slot(ts, 3) == Some(Num(c.alpha));
  }

  /** The object `{ r, g, b, a }` of a colour gives the colour back. */
  lemma ObjectRoundTrip(c: RGBA)
    requires c.Valid()
    ensures AfterFromObject(ColorObject(Some(c.red as real), None, Some(c.green as real), None,
                                        Some(c.blue as real), None, Some(c.alpha), None, None)) == c
  {
  }

  /** The full names are read when the one-letter names are missing, and `opacity` after `alpha`. */
  lemma ObjectLongNames(red: real, green: real, blue: real, opacity: real)
    ensures AfterFromObject(ColorObject(None, Some(red), None, Some(green), None, Some(blue), None, None, Some(opacity)))
      == RGBA(ClampByte(red), ClampByte(green), ClampByte(blue), ClampUnit(opacity))
  {
  }

  /** The keys of a table of colour names are words: they start with a letter. */
  predicate NamesAreWords(named: map<string, string>)
  {
    forall k | k in named :: |k| > 0 && IsLetter(k[0])
  }

  /** A cleaned string that is neither `transparent` nor a colour name, and reads as hexadecimal, is read as such. */
  lemma FromStringHexFirst(c: RGBA, str: string, named: map<string, string>)
    requires Clean(str) != "transparent" && Clean(str) !in named && AfterFromHex(c, Clean(str)).Success?
    ensures AfterFromString(c, str, named) == AfterFromHex(c, Clean(str))
  {
  }

  /** The text `toHexString` writes is already trimmed and lower-case. */
  lemma HexClean(c: RGBA, forceAlpha: bool)
    requires c.Valid()
    ensures Clean(c.ToHexString(forceAlpha, false)) == c.ToHexString(forceAlpha, false)
  {
    var s := c.ToHexString(forceAlpha, false);
    assert NoUpper(s);
    LowerCaseFixed(s);
    CleanAround("", s, "");
    assert "" + s + "" == s;
  }

  /**
   * `fromString(toHexString(force))` is `fromHexString` of it: the hexadecimal
   * text is no colour name and is already trimmed and lower-case.
   */
  lemma HexStringRoundTrip(c: RGBA, d: RGBA, forceAlpha: bool, named: map<string, string>)
    requires c.Valid() && NamesAreWords(named)
    ensures AfterFromString(d, c.ToHexString(forceAlpha, false), named)
      == Success(RGBA(c.red, c.green, c.blue, if c.ShowsAlpha(forceAlpha) then c.AlphaByte() as real / 255.0 else d.alpha))
  {
    var s := c.ToHexString(forceAlpha, false);
    HexClean(c, forceAlpha);
    assert s !in named;
    assert s != "transparent" by { assert s[0] == '#'; }
    HexRoundTrip(c, d, forceAlpha);
    FromStringHexFirst(d, s, named);
  }

  /** A colour name, in any case and with any white space around it, is read as the hexadecimal text the table gives it. */
  lemma NamedColour(c: RGBA, a: string, name: string, b: string, named: map<string, string>)
    requires AllSpaces(a) && AllSpaces(b) && |name| > 0 && !IsSpace(name[0]) && !IsSpace(name[|name| - 1])
    requires ToLower(name) in named && named[ToLower(name)] != "" && ToLower(name) != "transparent"
    requires AfterFromHex(c, named[ToLower(name)]).Success?
    ensures AfterFromString(c, a + name + b, named) == AfterFromHex(c, named[ToLower(name)])
  {
    CleanAround(a, name, b);
  }

  // ---------------------------------------------------------------------------
  // The cases of the library's tests.

  /** `toInteger` of (255, 127, 64): opaque, half transparent, forced alpha, and alpha first. */
  lemma ToIntegerScenarios()
    ensures RGBA(255, 127, 64, 1.0).IntegerOf(false, false) == 0xFF7F40
    ensures RGBA(255, 127, 64, 0.5).IntegerOf(false, false) == 0xFF7F407F
    ensures RGBA(255, 127, 64, 1.0).IntegerOf(true, false) == 0xFF7F40FF
    ensures RGBA(255, 127, 64, 0.5).IntegerOf(true, true) == 0x7FFF7F40
  {
  }

  /** `fromInteger` of 0xFF8840, and of 0xFF884080 with the alpha in the low byte or 0x80FF8840 with it on top. */
  lemma FromIntegerScenarios(c: RGBA)
    ensures AfterFromInteger(c, 0xFF8840 as real, false, false) == RGBA(255, 136, 64, c.alpha)
    ensures AfterFromInteger(c, 0xFF884080 as real, true, false) == RGBA(255, 136, 64, 128.0 / 255.0)
    ensures AfterFromInteger(c, 0x80FF8840 as real, true, true) == RGBA(255, 136, 64, 128.0 / 255.0)
  {
    IntegralUint32(0xFF8840);
    IntegralUint32(0xFF884080);
    IntegralUint32(0x80FF8840);
  }

  /** The fraction of the number is dropped before its bytes are read. */
  lemma FromFractionScenario(c: RGBA)
    ensures AfterFromInteger(c, 0xFF8840 as real + 0.5, false, false) == RGBA(255, 136, 64, c.alpha)
  {
    IntegralUint32(0xFF8840);
  }

  /** `#F83` and `#F83A` in the short form; five digits are an error, and so is a string of other characters. */
  lemma FromHexScenarios(c: RGBA)
    ensures AfterFromHex(c, "#F83") == Success(RGBA(255, 136, 51, c.alpha))
    ensures AfterFromHex(c, "#F83A") == Success(RGBA(255, 136, 51, 170.0 / 255.0))
    ensures AfterFromHex(c, "#01234") == Failure(HexLength(5))
    ensures AfterFromHex(c, "bad string").Failure?
  {
    assert "#F83"[1..] == "F83";
    assert "#F83A"[1..] == "F83A";
    assert "#01234"[1..] == "01234";
    assert !AllHex("bad string") by { assert !IsHexDigit("bad string"[3]); }
  }

  /** `set(512, -52)` clamps, `set(255.5, 32.6)` truncates, and the alpha is clamped to 0..1. */
  lemma SetNumberScenarios(c: RGBA)
    ensures AfterSet(c, [Some(Num(512.0)), Some(Num(-52.0))]) == c.(red := 255, green := 0)
    ensures AfterSet(c, [Some(Num(255.5)), Some(Num(32.6))]) == c.(red := 255, green := 32)
    ensures AfterSet(c, [None, None, None, Some(Num(2.0))]) == c.(alpha := 1.0)
    ensures AfterSet(c, [None, None, None, Some(Num(-0.5))]) == c.(alpha := 0.0)
  {
    NumberChannel(c.red, 512.0);
    NumberChannel(c.green, -52.0);
    NumberChannel(c.red, 255.5);
    NumberChannel(c.green, 32.6);
    ConvertNumber(2.0);
    ConvertNumber(-0.5);
  }

  /** `set` stops after four arguments, and skips `null` ones. */
  lemma SetSkipsScenario(c: RGBA)
    ensures AfterSet(c, [Some(Num(255.0)), None, Some(Num(64.0)), None, Some(Num(7.0))]) == c.(red := 255, blue := 64)
  {
    NumberChannel(c.red, 255.0);
    NumberChannel(c.blue, 64.0);
  }

  /** `parse` of a falsy value changes nothing, while `fromInteger(0)` makes the colour black. */
  lemma ParseFalsyScenario(c: RGBA, named: map<string, string>)
    ensures AfterParse(c, Number(0.0), named) == Success(c)
    ensures AfterParse(c, Text(""), named) == Success(c)
    ensures AfterFromInteger(c, 0.0, false, false) == RGBA(0, 0, 0, c.alpha)
    ensures AfterParse(c, Other(true), named) == Failure(UnsupportedType)
  {
    IntegralUint32(0);
  }
}
