/**
 * `ColorRGB`: an RGB colour with alpha.  The three channels are bytes held in a
 * three-slot array, the alpha is a unit number; the `from*` methods parse the
 * library's input formats into that state and the `to*` members serialise it.
 *
 * Each state-changing method is proved against a function that says what the
 * colour becomes (`AfterSet`, `AfterFromInteger`, ...), written in terms of
 * what the input means (digits, bytes, tokens) rather than the bit
 * operations the method performs; the lemmas at the end relate the
 * serialisers to the parsers.
 */
module RGB {
  import opened Wrappers
  import opened Text
  import opened MathUtils
  import opened Regexps
  import opened Params
  import RGBFuncRegexp

  // ---------------------------------------------------------------------------
  // JavaScript's 32-bit integer conversions, on integers.

  const TWO8: int := 0x100
  const TWO16: int := 0x1_0000
  const TWO24: int := 0x100_0000
  const TWO32: int := 0x1_0000_0000

  /** `ToUint32`, what `x >>> 0` does to an integer. */
  function ToUint32(x: int): (n: int)
    ensures 0 <= n < TWO32 && (0 <= x < TWO32 ==> n == x)
  {
    x % TWO32
  }

  /** `ToInt32`, what the signed bit operators (`<<`, `>>`, `&`, `|`) first do to an integer. */
  function ToInt32(x: int): (n: int)
    ensures -0x8000_0000 <= n < 0x8000_0000
    ensures n == x % TWO32 || n == x % TWO32 - TWO32
  {
    var u := x % TWO32;
    if u >= 0x8000_0000 then u - TWO32 else u
  }

  /** Byte `k` (0 the least significant) of a non-negative integer. */
  function ByteAt(n: int, k: nat): (b: int)
    requires 0 <= n && k < 4
    ensures IsByte(b)
  {
    (if k == 0 then n else if k == 1 then n / TWO8 else if k == 2 then n / TWO16 else n / TWO24) % 256
  }

  // ---------------------------------------------------------------------------
  // The state as a value.

  /** The channels and the alpha of a colour. */
  datatype RGBA = RGBA(red: int, green: int, blue: int, alpha: real)
  {
    /** Channels are bytes and the alpha a unit number. */
    predicate Valid() { IsByte(red) && IsByte(green) && IsByte(blue) && 0.0 <= alpha <= 1.0 }

    /** Whether the serialisers include the alpha: when forced, or when the colour is not fully opaque. */
    predicate ShowsAlpha(forceAlpha: bool) { forceAlpha || alpha != 1.0 }

    /** `Math.trunc(alpha * 255)`: the alpha as a byte. */
    function AlphaByte(): (a: int)
      requires Valid()
      ensures IsByte(a)
      ensures a as real <= alpha * 255.0 < a as real + 1.0
    {
      Trunc(alpha * 255.0)
    }

    /**
     * The number `toInteger` returns, as a layout of bytes: red, green and blue
     * from the most significant down, the alpha byte (when shown) above them
     * or below them.
     */
    function IntegerOf(forceAlpha: bool, alphaMSB: bool): (n: int)
      requires Valid()
      ensures 0 <= n < TWO32
      ensures !ShowsAlpha(forceAlpha) ==> n < TWO24
    {
      var rgb := red * TWO16 + green * TWO8 + blue;
      if ShowsAlpha(forceAlpha) then
        if alphaMSB then AlphaByte() * TWO24 + rgb else rgb * TWO8 + AlphaByte()
      else rgb
    }

    /** `toHexString`: `#`, then two lower-case digits per channel, with the alpha's pair first or last when shown. */
    function ToHexString(forceAlpha: bool, alphaMSB: bool): (s: string)
      requires Valid()
      ensures |s| == (if ShowsAlpha(forceAlpha) then 9 else 7)
      ensures s[0] == '#' && AllHex(s[1..])
      ensures forall i | 0 <= i < |s| :: !('A' <= s[i] <= 'Z')
    {
      var str := "#" + Enc(red as real) + Enc(green as real) + Enc(blue as real);
      if ShowsAlpha(forceAlpha) then
        if alphaMSB then "#" + Enc(alpha * 255.0) + str[1..] else str + Enc(alpha * 255.0)
      else str
    }

    /** `toFuncString`; the printing of the alpha (`cleanFloatStr`) is a parameter. */
    function ToFuncString(forceAlpha: bool, cleanFloatStr: real -> string): string
      requires Valid()
    {
      if ShowsAlpha(forceAlpha) then
        "rgba(" + NatText(red) + ", " + NatText(green) + ", " + NatText(blue) + ", " + cleanFloatStr(alpha) + ")"
      else "rgb(" + NatText(red) + ", " + NatText(green) + ", " + NatText(blue) + ")"
    }

    /** What `toString(format)` prints. */
    function Formatted(format: Format, cleanFloatStr: real -> string): string
      requires Valid()
    {
      match format
      case IntegerFormat => NatText(IntegerOf(false, false))
      case IntegerAlpha => NatText(IntegerOf(true, false))
      case Hex => ToHexString(false, false)
      case HexAlpha => ToHexString(true, false)
      case Functional => ToFuncString(false, cleanFloatStr)
      case FunctionalAlpha => ToFuncString(true, cleanFloatStr)
      case Invalid => ToHexString(false, false)
    }

    /** `toArray`: the channels, then the alpha. */
    function ToArray(): seq<real>
    {
      [red as real, green as real, blue as real, alpha]
    }
  }

  /** `(val & 0xFF).toString(16).padStart(2, '0')` */
  function Enc(x: real): (s: string)
    ensures |s| == 2 && AllHex(s) && HexValue(s) == Trunc(x) % 256
    ensures forall i | 0 <= i < 2 :: !('A' <= s[i] <= 'Z')
  {
    HexPair(Trunc(x) % 256)
  }

  /** The failures of the parsing methods (the messages of the errors they throw are left out). */
  datatype RGBError =
    | MalformedHex(input: string)       // TypeError: the string is no hexadecimal colour
    | HexLength(length: nat)            // Error: 3 to 8 digits, but not 3, 4, 6 or 8
    | MalformedFunc(input: string)      // TypeError: the string is no functional notation
    | Unparsable(input: string)         // TypeError: no format of `fromString` accepts the string
    | UnsupportedType                   // TypeError: `parse` of a value of another type

  // ---------------------------------------------------------------------------
  // What each parsing method makes of the colour.

  /** The channel a converted token sets: INTEGER is clamped, FLOAT clamped and truncated, PERCENTAGE scaled first; else 0. */
  function ChannelValue(p: ParamConvertResults): (b: int)
    ensures IsByte(b)
  {
    match p.kind
    case Integer => Clamp(p.value, 0.0, 255.0).Floor
    case Float => ClampByte(p.value)
    case Percentage => ClampByte(p.value * 255.0)
    case _ => 0
  }

  /** The `i`th argument of `set`, `None` when missing, `null` or `undefined`. */
  function Slot(tokens: seq<Option<Param>>, i: nat): Option<Param>
  {
    if i < |tokens| then tokens[i] else None
  }

  function SetChannel(current: int, token: Option<Param>): int
  {
    match token
    case None => current
    case Some(p) => ChannelValue(ConvertParam(p))
  }

  /**
   * `set(...components)`: each of the first three present arguments sets its
   * channel, a fourth sets the alpha, clamped whatever its kind; missing
   * arguments leave their slot alone and arguments past the fourth are ignored.
   */
  function AfterSet(c: RGBA, tokens: seq<Option<Param>>): (r: RGBA)
    ensures c.Valid() ==> r.Valid()
    ensures |tokens| > 4 ==> r == AfterSet(c, tokens[..4])
  {
    RGBA(SetChannel(c.red, Slot(tokens, 0)), SetChannel(c.green, Slot(tokens, 1)),
         SetChannel(c.blue, Slot(tokens, 2)),
         match Slot(tokens, 3) case None => c.alpha case Some(p) => ClampUnit(ConvertParam(p).value))
  }

  /**
   * `fromInteger(value, useAlpha, alphaMSB)`: the bytes of `value >>> 0`, from
   * the most significant down, are red, green and blue, unless the alpha takes
   * the top byte (`alphaMSB`) or the bottom one, shifting the channels up.
   */
  function AfterFromInteger(c: RGBA, value: real, useAlpha: bool, alphaMSB: bool): (r: RGBA)
    ensures c.Valid() ==> r.Valid()
    ensures !useAlpha ==> r.alpha == c.alpha
  {
    var n := ToUint32(Trunc(value));
    if !useAlpha then RGBA(ByteAt(n, 2), ByteAt(n, 1), ByteAt(n, 0), c.alpha)
    else if alphaMSB then RGBA(ByteAt(n, 2), ByteAt(n, 1), ByteAt(n, 0), ByteAt(n, 3) as real / 255.0)
    else RGBA(ByteAt(n, 3), ByteAt(n, 2), ByteAt(n, 1), ByteAt(n, 0) as real / 255.0)
  }

  /**
   * The short hexadecimal forms `RGB` and `RGBA`: each digit stands for itself
   * twice (17 times its value); without an alpha digit the alpha is kept.
   */
  function ShortHex(c: RGBA, hex: string): (r: RGBA)
    requires (|hex| == 3 || |hex| == 4) && AllHex(hex)
    ensures c.Valid() ==> r.Valid()
  {
    RGBA(17 * HexDigitValue(hex[0]), 17 * HexDigitValue(hex[1]), 17 * HexDigitValue(hex[2]),
         if |hex| == 4 then (17 * HexDigitValue(hex[3])) as real / 255.0 else c.alpha)
  }

  /** The long hexadecimal forms `RRGGBB` and `RRGGBBAA`: a pair of digits per channel. */
  function LongHex(c: RGBA, hex: string): (r: RGBA)
    requires (|hex| == 6 || |hex| == 8) && AllHex(hex)
    ensures c.Valid() ==> r.Valid()
  {
    RGBA(HexValue(hex[0..2]), HexValue(hex[2..4]), HexValue(hex[4..6]),
         if |hex| == 8 then HexValue(hex[6..8]) as real / 255.0 else c.alpha)
  }

  /**
   * `fromHexString(str)`: the digits after an optional `#`, in the short or
   * the long form; 5 or 7 digits are an error, and so is anything else.
   */
  function AfterFromHex(c: RGBA, str: string): (r: Result<RGBA, RGBError>)
    ensures r.Failure? <==> HexMatch(str).None? || |HexMatch(str).value| in {5, 7}
    ensures r.Success? && c.Valid() ==> r.value.Valid()
  {
    match HexMatch(str)
    case None => Failure(MalformedHex(str))
    case Some(hex) =>
      if |hex| == 3 || |hex| == 4 then Success(ShortHex(c, hex))
      else if |hex| == 6 || |hex| == 8 then Success(LongHex(c, hex))
      else Failure(HexLength(|hex|))
  }

  /** The captured groups as arguments of `set`: a group that took no part is `undefined`. */
  function GroupTokens(g: RGBFuncRegexp.Groups): (ts: seq<Option<Param>>)
    ensures |ts| == |g|
    ensures forall i | 0 <= i < |g| :: ts[i] == if g[i].Some? then Some(Str(g[i].value)) else None
  {
    seq(|g|, i requires 0 <= i < |g| => if g[i].Some? then Some(Str(g[i].value)) else None)
  }

  /**
   * `fromFuncString(str)`: the trimmed, lower-cased string matched against
   * `regexpRGBFunc` as written (numbers tried before percentages), and its
   * components passed to `set`.
   */
  function AfterFromFunc(c: RGBA, str: string): (r: Result<RGBA, RGBError>)
    ensures r.Failure? <==> RGBFuncRegexp.WrittenMatch(Clean(str)).None?
    ensures r.Success? && c.Valid() ==> r.value.Valid()
  {
    match RGBFuncRegexp.WrittenMatch(Clean(str))
    case None => Failure(MalformedFunc(str))
    case Some(g) => Success(AfterSet(c, GroupTokens(g)))
  }

  /**
   * `fromString(str)`: `transparent` is transparent black; a colour name of the
   * table stands for its hexadecimal text; then the hexadecimal form is tried,
   * then the functional notation.
   */
  function AfterFromString(c: RGBA, str: string, named: map<string, string>): (r: Result<RGBA, RGBError>)
    ensures Clean(str) == "transparent" ==> r == Success(RGBA(0, 0, 0, 0.0))
    ensures r.Success? && c.Valid() ==> r.value.Valid()
  {
    var clean := Clean(str);
    if clean == "transparent" then Success(RGBA(0, 0, 0, 0.0))
    else
      var text := if clean in named && named[clean] != "" then named[clean] else clean;
      match AfterFromHex(c, text)
      case Success(h) => Success(h)
      case Failure(_) =>
        match AfterFromFunc(c, text)
        case Success(f) => Success(f)
        case Failure(_) => Failure(Unparsable(str))
  }

  /** The properties `fromObject` reads; a missing, `null` or `undefined` one is `None`. */
  datatype ColorObject = ColorObject(
    r: Option<real>, red: Option<real>, g: Option<real>, green: Option<real>, b: Option<real>, blue: Option<real>,
    a: Option<real>, alpha: Option<real>, opacity: Option<real>)

  /** `x ?? y` */
  function Coalesce(x: Option<real>, y: real): real
  {
    if x.Some? then x.value else y
  }

  /**
   * `fromObject(obj)`: each channel from its one-letter or its full name,
   * defaulting to 0; the alpha from `a`, `alpha` or `opacity`, defaulting to 1.
   * All four are set, so nothing of the previous colour survives.
   */
  function AfterFromObject(obj: ColorObject): (r: RGBA)
    ensures r.Valid()
    ensures obj.r.None? && obj.red.None? ==> r.red == 0
    ensures obj.a.None? && obj.alpha.None? && obj.opacity.None? ==> r.alpha == 1.0
  {
    RGBA(ClampByte(Coalesce(obj.r, Coalesce(obj.red, 0.0))),
         ClampByte(Coalesce(obj.g, Coalesce(obj.green, 0.0))),
         ClampByte(Coalesce(obj.b, Coalesce(obj.blue, 0.0))),
         ClampUnit(Coalesce(obj.a, Coalesce(obj.alpha, Coalesce(obj.opacity, 1.0)))))
  }

  /** An argument of `parse`, by its `typeof`; `Other` carries whether the value is truthy. */
  datatype Arg =
    | Nullish
    | Number(x: real)
    | Text(s: string)
    | Array(items: seq<Option<Param>>)
    | Object(obj: ColorObject)
    | Other(truthy: bool)
  {
    /** `if (arg)`: zero, the empty string, `null` and `undefined` are falsy; arrays and objects never are. */
    predicate Truthy()
    {
      match this
      case Nullish => false
      case Number(x) => x != 0.0
      case Text(s) => s != ""
      case Other(truthy) => truthy
      case _ => true
    }
  }

  /** `parse(arg)`: a falsy argument (`0`, `""`, `null`, ...) changes nothing; otherwise by type. */
  function AfterParse(c: RGBA, arg: Arg, named: map<string, string>): (r: Result<RGBA, RGBError>)
    ensures r.Failure? ==> arg.Other? || arg.Text?
    ensures r.Success? && c.Valid() ==> r.value.Valid()
  {
    if !arg.Truthy() then Success(c)
    else
      match arg
      case Number(x) => Success(AfterFromInteger(c, x, false, false))
      case Text(s) => AfterFromString(c, s, named)
      case Array(items) => Success(AfterSet(c, items))
      case Object(obj) => Success(AfterFromObject(obj))
      case _ => Failure(UnsupportedType)
  }

  /** `hb | (hb << 4)` for a half-byte: the digit in both halves of the byte. */
  function Htf(hb: int): int
  {
    hb * 16 + hb
  }

  // ---------------------------------------------------------------------------
  // The class.

  /** The output formats of `toString`; `Invalid` is any other format name. */
  datatype Format = IntegerFormat | IntegerAlpha | Hex | HexAlpha | Functional | FunctionalAlpha | Invalid

  class ColorRGB {
    /** The channels red, green and blue. */
    var components: array<int>
    /** The opacity, a unit number. */
    var alpha: real

    function Model(): RGBA
      reads this, components
      requires components.Length == 3
    {
      RGBA(components[0], components[1], components[2], alpha)
    }

    predicate Valid()
      reads this, components
    {
      components.Length == 3 && Model().Valid()
    }

    /** Opaque black. */
    constructor()
      ensures Valid() && Model() == RGBA(0, 0, 0, 1.0)
    {
      components := new int[3](_ => 0);
      alpha := 1.0;
    }

    /** `set red(byteValue)` */
    method SetRed(byteValue: real)
      requires Valid()
      modifies components
      ensures Valid() && Model() == old(Model()).(red := ClampByte(byteValue))
    {
      components[0] := ClampByte(byteValue);
    }

    /** `set green(byteValue)` */
    method SetGreen(byteValue: real)
      requires Valid()
      modifies components
      ensures Valid() && Model() == old(Model()).(green := ClampByte(byteValue))
    {
      components[1] := ClampByte(byteValue);
    }

    /** `set blue(byteValue)` */
    method SetBlue(byteValue: real)
      requires Valid()
      modifies components
      ensures Valid() && Model() == old(Model()).(blue := ClampByte(byteValue))
    {
      components[2] := ClampByte(byteValue);
    }

    /** `set alpha(value)` */
    method SetAlpha(value: real)
      requires Valid()
      modifies this
      ensures components == old(components)
      ensures Valid() && Model() == old(Model()).(alpha := ClampUnit(value))
    {
      alpha := ClampUnit(value);
    }

    /**
     * The `switch (ind)` in the loop of `set`: a converted argument sets the
     * channel at `ind` to its byte, or the alpha, clamped whatever its kind.
     */
    method SetSlot(ind: nat, r: ParamConvertResults)
      requires Valid() && ind < 4
      modifies this, components
      ensures components == old(components)
      ensures Valid()
      ensures ind == 0 ==> Model() == old(Model()).(red := ChannelValue(r))
      ensures ind == 1 ==> Model() == old(Model()).(green := ChannelValue(r))
      ensures ind == 2 ==> Model() == old(Model()).(blue := ChannelValue(r))
      ensures ind == 3 ==> Model() == old(Model()).(alpha := ClampUnit(r.value))
    {
      if ind <= 2 {
        if r.kind == Integer {
          components[ind] := Clamp(r.value, 0.0, 255.0).Floor;
        } else if r.kind == Float {
          components[ind] := ClampByte(r.value);
        } else if r.kind == Percentage {
          components[ind] := ClampByte(r.value * 255.0);
        } else {
          components[ind] := 0;
        }
      } else {
        alpha := ClampUnit(r.value);
      }
    }

    /** `set(...components)` */
    method Set(tokens: seq<Option<Param>>)
      requires Valid()
      modifies this, components
      ensures components == old(components)
      ensures Valid() && Model() == AfterSet(old(Model()), tokens)
    {
      var ind := 0;
      while ind < |tokens|
        invariant 0 <= ind <= |tokens| && ind <= 4
        invariant components == old(components)
        invariant Valid() && Model() == AfterSet(old(Model()), tokens[..ind])
      {
        if ind >= 4 {
          break;
        }
        SetPrefix(old(Model()), tokens, ind);
        var comp := tokens[ind];
        if comp.Some? {
          SetSlot(ind, ConvertParam(comp.value));
        }
        ind := ind + 1;
      }
      if ind < |tokens| {
        assert AfterSet(old(Model()), tokens[..ind]) == AfterSet(old(Model()), tokens) by {
          assert tokens[..ind] == tokens[..4];
        }
      } else {
        assert tokens[..ind] == tokens;
      }
    }

    /** `fromInteger(value, useAlpha, alphaMSB)`, with the signed shifts of JavaScript. */
    method FromInteger(value: real, useAlpha: bool, alphaMSB: bool)
      requires Valid()
      modifies this, components
      ensures components == old(components)
      ensures Valid() && Model() == AfterFromInteger(old(Model()), value, useAlpha, alphaMSB)
    {
      var bits := ToUint32(Trunc(value));
      ghost var n := bits;
      if useAlpha {
        var alphaByte := if alphaMSB then (ToInt32(bits) / TWO24) % 256 else ToInt32(bits) % 256;
        assert alphaByte == if alphaMSB then ByteAt(n, 3) else ByteAt(n, 0) by { SignedBytes(n); }
        alpha := alphaByte as real / 255.0;
        if alphaMSB {
          bits := ToInt32(bits) % TWO24;
          assert (ToInt32(bits) / TWO16) % 256 == ByteAt(n, 2) && (ToInt32(bits) / TWO8) % 256 == ByteAt(n, 1)
            && ToInt32(bits) % 256 == ByteAt(n, 0) by { MaskedBytes(n); }
        } else {
          bits := ToInt32(bits) / TWO8;
          assert (ToInt32(bits) / TWO16) % 256 == ByteAt(n, 3) && (ToInt32(bits) / TWO8) % 256 == ByteAt(n, 2)
            && ToInt32(bits) % 256 == ByteAt(n, 1) by { ShiftedBytes(n); }
        }
      } else {
        assert (ToInt32(bits) / TWO16) % 256 == ByteAt(n, 2) && (ToInt32(bits) / TWO8) % 256 == ByteAt(n, 1)
          && ToInt32(bits) % 256 == ByteAt(n, 0) by { SignedBytes(n); }
      }
      components[0] := (ToInt32(bits) / TWO16) % 256;
      components[1] := (ToInt32(bits) / TWO8) % 256;
      components[2] := ToInt32(bits) % 256;
    }

    /** `fromHexString(str)` */
    method FromHexString(str: string) returns (r: Result<(), RGBError>)
      requires Valid()
      modifies this, components
      ensures components == old(components) && Valid()
      ensures var want := AfterFromHex(old(Model()), str);
        && (want.Success? ==> r.Success? && Model() == want.value)
        && (want.Failure? ==> r == Failure(want.error) && Model() == old(Model()))
    {
      var hexMatch := HexMatch(str);
      if hexMatch.None? {
        return Failure(MalformedHex(str));
      }
      var hex := hexMatch.value;
      var bits := ToUint32(HexValue(hex));
      if |hex| == 3 {
        ShortHexBits(old(Model()), hex);
        components[2] := Htf(bits % 16);
        components[1] := Htf((bits % 256) / 16);
        components[0] := Htf((bits % 4096) / 256);
      } else if |hex| == 4 {
        ShortHexBits(old(Model()), hex);
        alpha := Htf(bits % 16) as real / 255.0;
        components[2] := Htf((bits % 256) / 16);
        components[1] := Htf((bits % 4096) / 256);
        components[0] := Htf((bits % TWO16) / 4096);
      } else if |hex| == 6 {
        LongHexBits(old(Model()), hex);
        FromInteger(bits as real, false, false);
      } else if |hex| == 8 {
        LongHexBits(old(Model()), hex);
        FromInteger(bits as real, true, false);
      } else {
        return Failure(HexLength(|hex|));
      }
      return Success(());
    }

    /** `fromFuncString(str)` */
    method FromFuncString(str: string) returns (r: Result<(), RGBError>)
      requires Valid()
      modifies this, components
      ensures components == old(components) && Valid()
      ensures var want := AfterFromFunc(old(Model()), str);
        && (want.Success? ==> r.Success? && Model() == want.value)
        && (want.Failure? ==> r == Failure(want.error) && Model() == old(Model()))
    {
      var clnStr := Clean(str);
      var matches := CaptureFirst(RGBFuncRegexp.WholeMatches(clnStr, RGBFuncRegexp.WrittenMatch(clnStr)));
      if matches.None? {
        return Failure(MalformedFunc(str));
      }
      Set(GroupTokens(matches.value));
      return Success(());
    }

    /** `fromString(str)`, with the table of colour names as a parameter. */
    method FromString(str: string, named: map<string, string>) returns (r: Result<(), RGBError>)
      requires Valid()
      modifies this, components
      ensures Valid()
      ensures var want := AfterFromString(old(Model()), str, named);
        && (want.Success? ==> r.Success? && Model() == want.value)
        && (want.Failure? ==> r == Failure(want.error) && Model() == old(Model()))
    {
      var clnStr := Clean(str);
      if clnStr == "transparent" {
        components := new int[3](_ => 0);
        alpha := 0.0;
        return Success(());
      }
      if clnStr in named && named[clnStr] != "" {
        clnStr := named[clnStr];
      }
      var hexRtn := FromHexString(clnStr);
      if hexRtn.Success? {
        return Success(());
      }
      var funcRtn := FromFuncString(clnStr);
      if funcRtn.Success? {
        return Success(());
      }
      return Failure(Unparsable(str));
    }

    /** `fromArray(arr)`: the array's elements are the arguments of `set`. */
    method FromArray(arr: seq<Option<Param>>)
      requires Valid()
      modifies this, components
      ensures components == old(components)
      ensures Valid() && Model() == AfterSet(old(Model()), arr)
    {
      Set(arr);
    }

    /** `fromObject(obj)`, through the clamping setters. */
    method FromObject(obj: ColorObject)
      requires Valid()
      modifies this, components
      ensures components == old(components)
      ensures Valid() && Model() == AfterFromObject(obj)
    {
      SetRed(Coalesce(obj.r, Coalesce(obj.red, 0.0)));
      SetGreen(Coalesce(obj.g, Coalesce(obj.green, 0.0)));
      SetBlue(Coalesce(obj.b, Coalesce(obj.blue, 0.0)));
      SetAlpha(Coalesce(obj.a, Coalesce(obj.alpha, Coalesce(obj.opacity, 1.0))));
    }

    /** `parse(arg)` */
    method Parse(arg: Arg, named: map<string, string>) returns (r: Result<(), RGBError>)
      requires Valid()
      modifies this, components
      ensures Valid()
      ensures var want := AfterParse(old(Model()), arg, named);
        && (want.Success? ==> r.Success? && Model() == want.value)
        && (want.Failure? ==> r == Failure(want.error) && Model() == old(Model()))
    {
      if !arg.Truthy() {
        return Success(());
      }
      match arg {
        case Number(x) =>
          FromInteger(x, false, false);
          r := Success(());
        case Text(s) =>
          r := FromString(s, named);
        case Array(items) =>
          FromArray(items);
          r := Success(());
        case Object(obj) =>
          FromObject(obj);
          r := Success(());
        case _ =>
          r := Failure(UnsupportedType);
      }
    }

    /** `toInteger(forceAlpha, alphaMSB)`, with the 32-bit signed operators of JavaScript. */
    method ToInteger(forceAlpha: bool, alphaMSB: bool) returns (v: int)
      requires Valid()
      ensures v == Model().IntegerOf(forceAlpha, alphaMSB)
    {
      // The operands of each `|` have no bit in common, so it adds; a byte shifted by 16 stays below 2^31.
      var value := (components[0] % 256) * TWO16 + (components[1] % 256) * TWO8 + components[2] % 256;
      ghost var c := Model();
      assert value == c.red * TWO16 + c.green * TWO8 + c.blue;
      if forceAlpha || alpha != 1.0 {
        var alphaComp := Trunc(alpha * 255.0);
        assert alphaComp % 256 == c.AlphaByte();
        if alphaMSB {
          value := ToInt32((alphaComp % 256) * TWO24) + value;
          assert ToUint32(value) == c.IntegerOf(forceAlpha, alphaMSB) by { AlphaOnTop(c.AlphaByte(), c.red * TWO16 + c.green * TWO8 + c.blue); }
        } else {
          value := ToInt32(value * TWO8) + alphaComp % 256;
          assert ToUint32(value) == c.IntegerOf(forceAlpha, alphaMSB) by { AlphaBelow(c.red * TWO16 + c.green * TWO8 + c.blue, c.AlphaByte()); }
        }
      }
      return ToUint32(value);
    }

    /** `toString(format)`; an unknown format prints as `HEX` (the warning it logs is left out). */
    method ToString(format: Format, cleanFloatStr: real -> string) returns (s: string)
      requires Valid()
      ensures s == Model().Formatted(format, cleanFloatStr)
    {
      match format {
        case IntegerFormat =>
          var v := ToInteger(false, false);
          s := NatText(v);
        case IntegerAlpha =>
          var v := ToInteger(true, false);
          s := NatText(v);
        case Hex => s := Model().ToHexString(false, false);
        case HexAlpha => s := Model().ToHexString(true, false);
        case Functional => s := Model().ToFuncString(false, cleanFloatStr);
        case FunctionalAlpha => s := Model().ToFuncString(true, cleanFloatStr);
        case Invalid => s := Model().ToHexString(false, false);
      }
    }
  }

  // ---------------------------------------------------------------------------
  // Proof helpers of the class.

  /** One more argument of `set` changes the slot it is for, and nothing else. */
  lemma SetPrefix(c: RGBA, tokens: seq<Option<Param>>, ind: nat)
    requires ind < |tokens| && ind < 4
    ensures var before := AfterSet(c, tokens[..ind]);
      var after := AfterSet(c, tokens[..ind + 1]);
      && (ind == 0 ==> after == before.(red := SetChannel(before.red, tokens[ind])))
      && (ind == 1 ==> after == before.(green := SetChannel(before.green, tokens[ind])))
      && (ind == 2 ==> after == before.(blue := SetChannel(before.blue, tokens[ind])))
      && (ind == 3 ==> after == before.(alpha := if tokens[ind].None? then before.alpha
                                                else ClampUnit(ConvertParam(tokens[ind].value).value)))
  {
    assert forall i | 0 <= i < ind :: Slot(tokens[..ind + 1], i) == Slot(tokens[..ind], i);
    assert Slot(tokens[..ind + 1], ind) == tokens[ind];
  }

  /** The masks and shifts `fromHexString` applies to the short forms pick one digit each. */
  lemma ShortHexBits(c: RGBA, hex: string)
    requires (|hex| == 3 || |hex| == 4) && AllHex(hex)
    ensures var n := HexValue(hex);
      && n < TWO32
      && (|hex| == 3 ==> ShortHex(c, hex) == RGBA(Htf((n % 4096) / 256), Htf((n % 256) / 16), Htf(n % 16), c.alpha))
      && (|hex| == 4 ==> ShortHex(c, hex) == RGBA(Htf((n % TWO16) / 4096), Htf((n % 4096) / 256), Htf((n % 256) / 16),
                                                   Htf(n % 16) as real / 255.0))
  {
    if |hex| == 3 {
      HexDigits3(hex);
      Short3(HexDigitValue(hex[0]), HexDigitValue(hex[1]), HexDigitValue(hex[2]), HexValue(hex));
    } else {
      HexDigits4(hex);
      Short4(HexDigitValue(hex[0]), HexDigitValue(hex[1]), HexDigitValue(hex[2]), HexDigitValue(hex[3]), HexValue(hex));
    }
  }

  /** The long forms are the integer forms, without alpha and with the alpha in the low byte. */
  lemma LongHexBits(c: RGBA, hex: string)
    requires (|hex| == 6 || |hex| == 8) && AllHex(hex)
    ensures HexValue(hex) < TWO32
    ensures LongHex(c, hex) == AfterFromInteger(c, HexValue(hex) as real, |hex| == 8, false)
  {
    var n := HexValue(hex);
    HexSlices(hex);
    IntegralUint32(n);
    if |hex| == 6 {
      HexPairs3(hex);
      Bytes3(HexValue(hex[0..2]), HexValue(hex[2..4]), HexValue(hex[4..6]), n);
    } else {
      HexPairs4(hex);
      Bytes4(HexValue(hex[0..2]), HexValue(hex[2..4]), HexValue(hex[4..6]), HexValue(hex[6..8]), n);
    }
  }

  /** Three hexadecimal digits read as one number. */
  lemma HexDigits3(s: string)
    requires |s| == 3 && AllHex(s)
    ensures HexValue(s) == HexDigitValue(s[0]) * 256 + HexDigitValue(s[1]) * 16 + HexDigitValue(s[2])
  {
    assert s[..2][..1] == [s[0]];
    assert HexValue([s[0]]) == HexDigitValue(s[0]) by { assert [s[0]][..0] == []; }
  }

  lemma HexDigits4(s: string)
    requires |s| == 4 && AllHex(s)
    ensures HexValue(s) == HexDigitValue(s[0]) * 4096 + HexDigitValue(s[1]) * 256 + HexDigitValue(s[2]) * 16 + HexDigitValue(s[3])
  {
    HexDigits3(s[..3]);
  }

  /** Appending two hexadecimal digits shifts the value up a byte. */
  lemma AppendPair(a: string, b: string)
    requires AllHex(a) && AllHex(b) && |b| == 2
    ensures AllHex(a + b) && HexValue(a + b) == HexValue(a) * TWO8 + HexValue(b)
  {
    HexValueAppend(a, b);
    assert Pow(16, 2) == 256;
  }

  /** Three digit pairs read as one number. */
  lemma Join3(p: string, q: string, r: string)
    requires |p| == 2 && |q| == 2 && |r| == 2 && AllHex(p) && AllHex(q) && AllHex(r)
    ensures AllHex(p + q + r)
    ensures HexValue(p + q + r) == HexValue(p) * TWO16 + HexValue(q) * TWO8 + HexValue(r)
  {
    AppendPair(p, q);
    AppendPair(p + q, r);
  }

  /** Four digit pairs read as one number. */
  lemma Join4(p: string, q: string, r: string, t: string)
    requires |p| == 2 && |q| == 2 && |r| == 2 && |t| == 2 && AllHex(p) && AllHex(q) && AllHex(r) && AllHex(t)
    ensures AllHex(p + q + r + t)
    ensures HexValue(p + q + r + t) == HexValue(p) * TWO24 + HexValue(q) * TWO16 + HexValue(r) * TWO8 + HexValue(t)
  {
    Join3(p, q, r);
    AppendPair(p + q + r, t);
  }

  /** Six hexadecimal digits read as one number, pair by pair. */
  lemma HexPairs3(s: string)
    requires |s| == 6 && AllHex(s)
    ensures HexValue(s) == HexValue(s[0..2]) * TWO16 + HexValue(s[2..4]) * TWO8 + HexValue(s[4..6])
  {
    PairStep(s, 0);
    PairStep(s, 2);
    PairStep(s, 4);
    SliceEnds(s);
  }

  lemma HexPairs4(s: string)
    requires |s| == 8 && AllHex(s)
    ensures HexValue(s) == HexValue(s[0..2]) * TWO24 + HexValue(s[2..4]) * TWO16 + HexValue(s[4..6]) * TWO8 + HexValue(s[6..8])
  {
    PairStep(s, 0);
    PairStep(s, 2);
    PairStep(s, 4);
    PairStep(s, 6);
    SliceEnds(s);
  }

  /** Every slice of hexadecimal digits is hexadecimal digits. */
  lemma HexSlices(s: string)
    requires AllHex(s)
    ensures forall i, j | 0 <= i <= j <= |s| :: AllHex(s[i..j])
  {
    forall i, j | 0 <= i <= j <= |s| ensures AllHex(s[i..j]) {
      forall k | 0 <= k < j - i ensures IsHexDigit(s[i..j][k]) { assert s[i..j][k] == s[i + k]; }
    }
  }

  lemma SliceEnds(s: string)
    ensures s[..0] == [] && s[..|s|] == s
  {
  }

  /** Reading one more digit pair of `s` shifts what was read by a byte. */
  lemma PairStep(s: string, k: nat)
    requires AllHex(s) && k + 2 <= |s|
    ensures AllHex(s[..k]) && AllHex(s[k..k + 2]) && AllHex(s[..k + 2])
    ensures HexValue(s[..k + 2]) == HexValue(s[..k]) * TWO8 + HexValue(s[k..k + 2])
  {
    HexSlices(s);
    assert s[..k] == s[0..k] && s[..k + 2] == s[0..k + 2];
    assert s[..k] + s[k..k + 2] == s[..k + 2];
    AppendPair(s[..k], s[k..k + 2]);
  }

  /** Euclidean division by the powers of two used here, from a quotient and a remainder. */
  lemma Euclid(n: int, q: int, r: int, d: int)
    requires d == 16 || d == TWO8 || d == 4096 || d == TWO16 || d == TWO24
    requires 0 <= r < d && n == q * d + r
    ensures n / d == q && n % d == r
  {
    if d == 16 {} else if d == TWO8 {} else if d == 4096 {} else if d == TWO16 {} else {}
  }

  /** A 32-bit value is the sum of its bytes in place. */
  lemma Decompose(n: int)
    requires 0 <= n < TWO32
    ensures n == ByteAt(n, 3) * TWO24 + ByteAt(n, 2) * TWO16 + ByteAt(n, 1) * TWO8 + ByteAt(n, 0)
  {
    var x0, n1 := n % 256, n / 256;
    var x1, n2 := n1 % 256, n1 / 256;
    var x2, n3 := n2 % 256, n2 / 256;
    Euclid(n, n2, x1 * 256 + x0, TWO16);
    Euclid(n, n3, x2 * TWO16 + x1 * 256 + x0, TWO24);
    Euclid(n3, 0, n3, 256);
  }

  /** `value |= alpha << 24`: the alpha byte lands above the three colour bytes, the sign bit included. */
  lemma AlphaOnTop(a: int, rgb: int)
    requires IsByte(a) && 0 <= rgb < TWO24
    ensures ToUint32(ToInt32(a * TWO24) + rgb) == a * TWO24 + rgb
  {
  }

  /** `value = (value << 8) | alpha`: the colour bytes move up and the alpha takes the low byte. */
  lemma AlphaBelow(rgb: int, a: int)
    requires 0 <= rgb < TWO24 && IsByte(a)
    ensures ToUint32(ToInt32(rgb * TWO8) + a) == rgb * TWO8 + a
  {
  }

  lemma ToInt32Identity(x: int)
    requires -0x8000_0000 <= x < 0x8000_0000
    ensures ToInt32(x) == x
  {
  }

  /** The signed reading of an unsigned 32-bit value has the same bytes; shifts copy the sign bit in above. */
  lemma SignedBytes(n: int)
    requires 0 <= n < TWO32
    ensures var s := ToInt32(n);
      && s % 256 == ByteAt(n, 0) && (s / TWO8) % 256 == ByteAt(n, 1)
      && (s / TWO16) % 256 == ByteAt(n, 2) && (s / TWO24) % 256 == ByteAt(n, 3)
      && s % TWO24 == n % TWO24
  {
    var s := ToInt32(n);
    if s != n {
      assert s == n - TWO32;
      assert s / TWO8 == n / TWO8 - TWO24;
      assert s / TWO16 == n / TWO16 - TWO16;
      assert s / TWO24 == n / TWO24 - TWO8;
    }
  }

  /** `int & 0xFFFFFF` keeps the three low bytes, as a non-negative 32-bit value. */
  lemma MaskedBytes(n: int)
    requires 0 <= n < TWO32
    ensures var b := ToInt32(n) % TWO24;
      && ToInt32(b) == b
      && (b / TWO16) % 256 == ByteAt(n, 2) && (b / TWO8) % 256 == ByteAt(n, 1) && b % 256 == ByteAt(n, 0)
  {
    SignedBytes(n);
    Decompose(n);
    var b := n % TWO24;
    Euclid(n, ByteAt(n, 3), ByteAt(n, 2) * TWO16 + ByteAt(n, 1) * TWO8 + ByteAt(n, 0), TWO24);
    ToInt32Identity(b);
    Bytes3(ByteAt(n, 2), ByteAt(n, 1), ByteAt(n, 0), b);
  }

  /** `int >>= 8` moves each byte down one place. */
  lemma ShiftedBytes(n: int)
    requires 0 <= n < TWO32
    ensures var b := ToInt32(n) / TWO8;
      && (ToInt32(b) / TWO16) % 256 == ByteAt(n, 3) && (ToInt32(b) / TWO8) % 256 == ByteAt(n, 2)
      && ToInt32(b) % 256 == ByteAt(n, 1)
  {
    SignedBytes(n);
    var s := ToInt32(n);
    var b := s / TWO8;
    ToInt32Identity(b);
    assert b / TWO16 == s / TWO24;
    assert b / TWO8 == s / TWO16;
  }

  /** The short form `RGB`: the masks and shifts of `fromHexString` pick each digit. */
  lemma Short3(d0: int, d1: int, d2: int, n: int)
    requires 0 <= d0 < 16 && 0 <= d1 < 16 && 0 <= d2 < 16
    requires n == d0 * 256 + d1 * 16 + d2
    ensures Htf(n % 16) == 17 * d2 && Htf((n % 256) / 16) == 17 * d1 && Htf((n % 4096) / 256) == 17 * d0
  {
    Euclid(n, d0 * 16 + d1, d2, 16);
    Euclid(n, d0, d1 * 16 + d2, 256);
    Euclid(d1 * 16 + d2, d1, d2, 16);
    Euclid(n, 0, n, 4096);
  }

  /** The short form `RGBA`. */
  lemma Short4(d0: int, d1: int, d2: int, d3: int, n: int)
    requires 0 <= d0 < 16 && 0 <= d1 < 16 && 0 <= d2 < 16 && 0 <= d3 < 16
    requires n == d0 * 4096 + d1 * 256 + d2 * 16 + d3
    ensures Htf(n % 16) == 17 * d3 && Htf((n % 256) / 16) == 17 * d2
    ensures Htf((n % 4096) / 256) == 17 * d1 && Htf((n % TWO16) / 4096) == 17 * d0
  {
    Euclid(n, d0 * 256 + d1 * 16 + d2, d3, 16);
    Euclid(n, d0 * 16 + d1, d2 * 16 + d3, 256);
    Euclid(d2 * 16 + d3, d2, d3, 16);
    Euclid(n, d0, d1 * 256 + d2 * 16 + d3, 4096);
    Euclid(d1 * 256 + d2 * 16 + d3, d1, d2 * 16 + d3, 256);
    Euclid(n, 0, n, TWO16);
  }

  /** Three bytes laid out from the most significant down are read back by `ByteAt`. */
  lemma Bytes3(a: int, b: int, c: int, n: int)
    requires IsByte(a) && IsByte(b) && IsByte(c) && n == a * TWO16 + b * TWO8 + c
    ensures ByteAt(n, 2) == a && ByteAt(n, 1) == b && ByteAt(n, 0) == c && ByteAt(n, 3) == 0
  {
    Euclid(n, a * 256 + b, c, TWO8);
    Euclid(a * 256 + b, a, b, TWO8);
    Euclid(n, a, b * 256 + c, TWO16);
    Euclid(a, 0, a, TWO8);
    Euclid(n, 0, n, TWO24);
  }

  lemma Bytes4(a: int, b: int, c: int, d: int, n: int)
    requires IsByte(a) && IsByte(b) && IsByte(c) && IsByte(d) && n == a * TWO24 + b * TWO16 + c * TWO8 + d
    ensures ByteAt(n, 3) == a && ByteAt(n, 2) == b && ByteAt(n, 1) == c && ByteAt(n, 0) == d
  {
    Euclid(n, a * TWO16 + b * 256 + c, d, TWO8);
    Euclid(a * TWO16 + b * 256 + c, a * 256 + b, c, TWO8);
    Euclid(n, a * 256 + b, c * 256 + d, TWO16);
    Euclid(a * 256 + b, a, b, TWO8);
    Euclid(n, a, b * TWO16 + c * 256 + d, TWO24);
    Euclid(a, 0, a, TWO8);
  }

  /** A non-negative integer below 2^32 is its own `Math.trunc` and `>>> 0`. */
  lemma IntegralUint32(n: int)
    requires 0 <= n < TWO32
    ensures ToUint32(Trunc(n as real)) == n
  {
  }
}
