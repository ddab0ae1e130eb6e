/**
 * The draft `ColorRGB` of `src/RGB.ts`: the channels are stored as unit
 * numbers (0..1) and read or written as bytes through rounding accessors.
 * Its `toInteger` and `toHexString` are modelled twice: as written, with the
 * lemmas that show where they go wrong, and as evidently intended, with the
 * properties the intended versions have.
 */
module DraftRGB {
  import opened Wrappers
  import opened Text
  import opened MathUtils
  import RGB
  import RGBLaws

  /** The stored state: three unit channels and the alpha. */
  datatype Units = Units(red: real, green: real, blue: real, alpha: real)
  {
    predicate Valid()
    {
      0.0 <= red <= 1.0 && 0.0 <= green <= 1.0 && 0.0 <= blue <= 1.0 && 0.0 <= alpha <= 1.0
    }

    /** `forceAlpha || alpha !== 1`, the guard of `toHexString`. */
    predicate ShowsAlpha(forceAlpha: bool)
    {
      forceAlpha || alpha != 1.0
    }

    /** The colour as the byte getters `red`, `green` and `blue` read it, with the alpha. */
    function Bytes(): (c: RGB.RGBA)
      requires Valid()
      ensures c.Valid()
    {
      RGB.RGBA(ByteOf(red), ByteOf(green), ByteOf(blue), alpha)
    }

    /** `Math.round(alpha * 255) & 0xFF`, the alpha byte of `toInteger`. */
    function AlphaComp(): (a: int)
      requires Valid()
      ensures IsByte(a) && a as real - 0.5 <= alpha * 255.0 < a as real + 0.5
    {
      Round(alpha * 255.0) % 256
    }

    /**
     * `toInteger(forceAlpha, alphaMSB)` as written: the guard `alpha !== -1`
     * always holds, and the shifted result is read as a signed 32-bit integer.
     */
    function WrittenInteger(forceAlpha: bool, alphaMSB: bool): (n: int)
      requires Valid()
      ensures -0x8000_0000 <= n < 0x8000_0000
    {
      var value := ByteOf(red) * RGB.TWO16 + ByteOf(green) * RGB.TWO8 + ByteOf(blue);
      if forceAlpha || alpha != -1.0 then
        // `|` of operands with no bit in common is their sum.
        if alphaMSB then PackHigh(AlphaComp(), value); RGB.ToInt32(AlphaComp() * RGB.TWO24) + value
        else PackLow(value, AlphaComp()); RGB.ToInt32(value * RGB.TWO8) + AlphaComp()
      else value
    }

    /**
     * `toInteger` as evidently intended: the alpha byte only when forced or
     * not opaque, and the result unsigned.
     */
    function IntegerValue(forceAlpha: bool, alphaMSB: bool): (n: int)
      requires Valid()
      ensures 0 <= n < RGB.TWO32
      ensures !ShowsAlpha(forceAlpha) ==> n < RGB.TWO24
    {
      var value := ByteOf(red) * RGB.TWO16 + ByteOf(green) * RGB.TWO8 + ByteOf(blue);
      if ShowsAlpha(forceAlpha) then
        if alphaMSB then AlphaComp() * RGB.TWO24 + value else value * RGB.TWO8 + AlphaComp()
      else value
    }

    /** `toHexString(forceAlpha)` as written: `enc` applied to the stored unit numbers. */
    function WrittenHexString(forceAlpha: bool): (s: string)
      requires Valid()
      ensures |s| == (if ShowsAlpha(forceAlpha) then 9 else 7) && s[0] == '#'
    {
      var str := "#" + RGB.Enc(red) + RGB.Enc(green) + RGB.Enc(blue);
      if ShowsAlpha(forceAlpha) then str + RGB.Enc(alpha * 255.0) else str
    }

    /** `toHexString(forceAlpha)` as evidently intended: `enc` applied to the channel bytes. */
    function HexString(forceAlpha: bool): (s: string)
      requires Valid()
      ensures |s| == (if ShowsAlpha(forceAlpha) then 9 else 7) && s[0] == '#' && AllHex(s[1..])
    {
      var str := "#" + RGB.Enc(ByteOf(red) as real) + RGB.Enc(ByteOf(green) as real) + RGB.Enc(ByteOf(blue) as real);
      if ShowsAlpha(forceAlpha) then str + RGB.Enc(alpha * 255.0) else str
    }

    /** `toArray`: the three stored unit numbers, then the alpha. */
    function ToArray(): (xs: seq<real>)
      requires Valid()
      ensures |xs| == 4 && xs[3] == alpha
      ensures forall i | 0 <= i < 4 :: 0.0 <= xs[i] <= 1.0
    {
      [red, green, blue, alpha]
    }

    /**
     * `toString(format)`, printing what `toInteger` and `toHexString` return as
     * written; `toFunctionalString` is a stub returning the empty string, and
     * an unknown format prints as `HEX`.
     */
    function Formatted(format: RGB.Format): (s: string)
      requires Valid()
      ensures format in {RGB.Format.Functional, RGB.Format.FunctionalAlpha} <==> s == ""
      ensures format == RGB.Format.Invalid ==> s == WrittenHexString(false)
      ensures format in {RGB.Format.Hex, RGB.Format.HexAlpha, RGB.Format.Invalid} ==> |s| in {7, 9} && s[0] == '#'
    {
      match format
      case IntegerFormat => IntText(WrittenInteger(false, false))
      case IntegerAlpha => IntText(WrittenInteger(true, false))
      case Hex => WrittenHexString(false)
      case HexAlpha => WrittenHexString(true)
      case Functional => ""
      case FunctionalAlpha => ""
      case Invalid => WrittenHexString(false)
    }
  }

  /** A byte shifted to the top of 32 bits, read signed, joined with three low bytes, stays a signed 32-bit value. */
  lemma PackHigh(a: int, value: int)
    requires IsByte(a) && 0 <= value < RGB.TWO24
    ensures -0x8000_0000 <= RGB.ToInt32(a * RGB.TWO24) + value < 0x8000_0000
  {
    var x := a * RGB.TWO24;
    assert 0 <= x < RGB.TWO32 && x % RGB.TWO32 == x;
    if x < 0x8000_0000 {
      assert a <= 127;
    }
  }

  /** Three bytes shifted up by one byte, read signed, joined with a low byte, stay a signed 32-bit value. */
  lemma PackLow(value: int, a: int)
    requires 0 <= value < RGB.TWO24 && IsByte(a)
    ensures -0x8000_0000 <= RGB.ToInt32(value * RGB.TWO8) + a < 0x8000_0000
  {
    var x := value * RGB.TWO8;
    assert 0 <= x < RGB.TWO32 && x % RGB.TWO32 == x;
    if x < 0x8000_0000 {
      assert value < 0x80_0000;
    }
  }

  function ByteOf(unit: real): (b: int)
    requires 0.0 <= unit <= 1.0
    ensures IsByte(b) && b as real - 0.5 <= unit * 255.0 < b as real + 0.5
  {
    Round(unit * 255.0)
  }

  /** The byte setter: `clamp(byteValue, 0, 255) / 255`. */
  function UnitOf(byteValue: real): (u: real)
    ensures 0.0 <= u <= 1.0
    ensures 0.0 <= byteValue <= 255.0 ==> u * 255.0 == byteValue
  {
    Clamp(byteValue, 0.0, 255.0) / 255.0
  }

  class ColorRGB {
    /** The channels red, green and blue as unit numbers. */
    var components: array<real>
    /** The opacity, a unit number. */
    var alpha: real

    function Model(): Units
      reads this, components
      requires components.Length == 3
    {
      Units(components[0], components[1], components[2], alpha)
    }

    predicate Valid()
      reads this, components
    {
      components.Length == 3 && Model().Valid()
    }

    /** Opaque black. */
    constructor()
      ensures Valid() && Model() == Units(0.0, 0.0, 0.0, 1.0)
    {
      components := new real[3](_ => 0.0);
      alpha := 1.0;
    }

    /** `set red(byteValue)` */
    method SetRed(byteValue: real)
      requires Valid()
      modifies components
      ensures Valid() && Model() == old(Model()).(red := UnitOf(byteValue))
    {
      components[0] := Clamp(byteValue, 0.0, 255.0) / 255.0;
    }

    /** `set green(byteValue)` */
    method SetGreen(byteValue: real)
      requires Valid()
      modifies components
      ensures Valid() && Model() == old(Model()).(green := UnitOf(byteValue))
    {
      components[1] := Clamp(byteValue, 0.0, 255.0) / 255.0;
    }

    /** `set blue(byteValue)` */
    method SetBlue(byteValue: real)
      requires Valid()
      modifies components
      ensures Valid() && Model() == old(Model()).(blue := UnitOf(byteValue))
    {
      components[2] := Clamp(byteValue, 0.0, 255.0) / 255.0;
    }

    /** `set redUnit(unitValue)` */
    method SetRedUnit(unitValue: real)
      requires Valid()
      modifies components
      ensures Valid() && Model() == old(Model()).(red := ClampUnit(unitValue))
    {
      components[0] := ClampUnit(unitValue);
    }

    /** `set greenUnit(unitValue)` */
    method SetGreenUnit(unitValue: real)
      requires Valid()
      modifies components
      ensures Valid() && Model() == old(Model()).(green := ClampUnit(unitValue))
    {
      components[1] := ClampUnit(unitValue);
    }

    /** `set blueUnit(unitValue)` */
    method SetBlueUnit(unitValue: real)
      requires Valid()
      modifies components
      ensures Valid() && Model() == old(Model()).(blue := ClampUnit(unitValue))
    {
      components[2] := ClampUnit(unitValue);
    }

    /** `set alpha(value)` */
    method SetAlpha(value: real)
      requires Valid()
      modifies this
      ensures components == old(components)
      ensures Valid() && Model() == old(Model()).(alpha := ClampUnit(value))
    {
      alpha := ClampUnit(value);
    }

    /**
     * `toInteger(forceAlpha, alphaMSB)`, accumulating into `value` as the
     * source does, with the guard and the unsigned result it evidently means.
     */
    method ToInteger(forceAlpha: bool, alphaMSB: bool) returns (value: int)
      requires Valid()
      ensures value == Model().IntegerValue(forceAlpha, alphaMSB)
    {
      ghost var u := Model();
      value := 0;
      value := value + ByteOf(components[0]) * RGB.TWO16;
      value := value + ByteOf(components[1]) * RGB.TWO8;
      value := value + ByteOf(components[2]);
      if forceAlpha || alpha != 1.0 {
        var alphaComp := Round(alpha * 255.0) % 256;
        if alphaMSB {
          value := RGB.ToInt32(alphaComp * RGB.TWO24) + value;
          assert RGB.ToUint32(value) == u.IntegerValue(forceAlpha, alphaMSB) by {
            RGB.AlphaOnTop(alphaComp, ByteOf(u.red) * RGB.TWO16 + ByteOf(u.green) * RGB.TWO8 + ByteOf(u.blue));
          }
        } else {
          value := RGB.ToInt32(value * RGB.TWO8) + alphaComp;
          assert RGB.ToUint32(value) == u.IntegerValue(forceAlpha, alphaMSB) by {
            RGB.AlphaBelow(ByteOf(u.red) * RGB.TWO16 + ByteOf(u.green) * RGB.TWO8 + ByteOf(u.blue), alphaComp);
          }
        }
      }
      value := RGB.ToUint32(value);
    }
  }

  // ---------------------------------------------------------------------------
  // The accessors.

  /** Setting a channel to a byte and reading it back gives the byte. */
  lemma ByteSetGet(b: int)
    requires IsByte(b)
    ensures ByteOf(UnitOf(b as real)) == b
  {
    assert UnitOf(b as real) * 255.0 == b as real;
  }

  /** Reading a byte and setting it back changes the stored unit by less than half a byte step. */
  lemma ByteGetSet(u: real)
    requires 0.0 <= u <= 1.0
    ensures var back := UnitOf(ByteOf(u) as real);
      back - 0.5 / 255.0 <= u < back + 0.5 / 255.0
  {
    var b := ByteOf(u);
    assert UnitOf(b as real) * 255.0 == b as real;
  }

  // ---------------------------------------------------------------------------
  // `toInteger`: as written, and as intended.

  /** As written, the alpha byte is always appended: an opaque colour without `forceAlpha` still gets it. */
  lemma WrittenIntegerAlwaysAlpha(u: Units, alphaMSB: bool)
    requires u.Valid()
    ensures RGB.ToUint32(u.WrittenInteger(false, alphaMSB)) == u.IntegerValue(true, alphaMSB)
  {
    var value := ByteOf(u.red) * RGB.TWO16 + ByteOf(u.green) * RGB.TWO8 + ByteOf(u.blue);
    if alphaMSB {
      RGB.AlphaOnTop(u.AlphaComp(), value);
    } else {
      RGB.AlphaBelow(value, u.AlphaComp());
    }
  }

  /** Opaque black, without `forceAlpha`: as written 255 (its alpha byte), as intended 0. */
  lemma WrittenIntegerOpaqueBlack()
    ensures Units(0.0, 0.0, 0.0, 1.0).WrittenInteger(false, false) == 255
    ensures Units(0.0, 0.0, 0.0, 1.0).IntegerValue(false, false) == 0
  {
  }

  /** Opaque white with its alpha byte: as written -1 (no `>>> 0`), as intended 0xFFFFFFFF. */
  lemma WrittenIntegerOpaqueWhite()
    ensures Units(1.0, 1.0, 1.0, 1.0).WrittenInteger(true, false) == -1
    ensures Units(1.0, 1.0, 1.0, 1.0).IntegerValue(true, false) == 0xFFFF_FFFF
  {
  }

  /** The intended integer carries the channel bytes, and the alpha byte where it is shown, in place. */
  lemma IntegerBytes(u: Units, forceAlpha: bool, alphaMSB: bool)
    requires u.Valid()
    ensures var n, c := u.IntegerValue(forceAlpha, alphaMSB), u.Bytes();
      if !u.ShowsAlpha(forceAlpha) then
        RGB.ByteAt(n, 3) == 0 && RGB.ByteAt(n, 2) == c.red && RGB.ByteAt(n, 1) == c.green && RGB.ByteAt(n, 0) == c.blue
      else if alphaMSB then
        RGB.ByteAt(n, 3) == u.AlphaComp() && RGB.ByteAt(n, 2) == c.red && RGB.ByteAt(n, 1) == c.green && RGB.ByteAt(n, 0) == c.blue
      else
        RGB.ByteAt(n, 3) == c.red && RGB.ByteAt(n, 2) == c.green && RGB.ByteAt(n, 1) == c.blue && RGB.ByteAt(n, 0) == u.AlphaComp()
  {
    var n, c := u.IntegerValue(forceAlpha, alphaMSB), u.Bytes();
    if !u.ShowsAlpha(forceAlpha) {
      RGB.Bytes3(c.red, c.green, c.blue, n);
    } else if alphaMSB {
      RGB.Bytes4(u.AlphaComp(), c.red, c.green, c.blue, n);
    } else {
      RGB.Bytes4(c.red, c.green, c.blue, u.AlphaComp(), n);
    }
  }

  // ---------------------------------------------------------------------------
  // `toHexString`: as written, and as intended.

  /** `enc` of a unit number is `00`, or `01` for exactly 1. */
  lemma EncUnit(x: real)
    requires 0.0 <= x <= 1.0
    ensures HexValue(RGB.Enc(x)) == if x == 1.0 then 1 else 0
  {
  }

  /** As written, each channel pair reads 0 or 1, whatever the colour. */
  lemma WrittenHexChannels(u: Units, forceAlpha: bool)
    requires u.Valid()
    ensures var s := u.WrittenHexString(forceAlpha);
      AllHex(s[1..7])
      && HexValue(s[1..3]) == (if u.red == 1.0 then 1 else 0)
      && HexValue(s[3..5]) == (if u.green == 1.0 then 1 else 0)
      && HexValue(s[5..7]) == (if u.blue == 1.0 then 1 else 0)
  {
    var s := u.WrittenHexString(forceAlpha);
    var r, g, b := RGB.Enc(u.red), RGB.Enc(u.green), RGB.Enc(u.blue);
    var str := "#" + r + g + b;
    assert s[..7] == str;
    assert s[1..3] == r && s[3..5] == g && s[5..7] == b;
    assert s[1..7] == r + g + b;
    RGB.Join3(r, g, b);
    EncUnit(u.red);
    EncUnit(u.green);
    EncUnit(u.blue);
  }

  /** The pairs `enc` writes for 0, 1 and 255. */
  lemma EncScenarios()
    ensures RGB.Enc(0.0) == "00" && RGB.Enc(1.0) == "01" && RGB.Enc(255.0) == "ff"
  {
    assert Trunc(1.0) == 1 && Trunc(255.0) == 255;
  }

  /** Opaque white: as written `#010101`, as intended `#ffffff`. */
  lemma WrittenHexWhite()
    ensures Units(1.0, 1.0, 1.0, 1.0).WrittenHexString(false) == "#010101"
    ensures Units(1.0, 1.0, 1.0, 1.0).HexString(false) == "#ffffff"
  {
    var u := Units(1.0, 1.0, 1.0, 1.0);
    EncScenarios();
    assert ByteOf(1.0) == 255;
    assert u.WrittenHexString(false) == "#" + "01" + "01" + "01";
    assert u.HexString(false) == "#" + "ff" + "ff" + "ff";
  }

  /** The intended hexadecimal text is the one `lib/RGB.js` writes for the byte view of the colour. */
  lemma HexStringOfBytes(u: Units, forceAlpha: bool)
    requires u.Valid()
    ensures u.HexString(forceAlpha) == u.Bytes().ToHexString(forceAlpha, false)
  {
  }

  /**
   * The intended hexadecimal text reads back, through `fromHexString` of
   * `lib/RGB.js`, as the byte view of the colour, the alpha quantised to a byte
   * where it is written.
   */
  lemma HexStringReadBack(u: Units, d: RGB.RGBA, forceAlpha: bool)
    requires u.Valid()
    ensures var c := u.Bytes();
      RGB.AfterFromHex(d, u.HexString(forceAlpha))
        == Success(RGB.RGBA(c.red, c.green, c.blue, if u.ShowsAlpha(forceAlpha) then c.AlphaByte() as real / 255.0 else d.alpha))
  {
    HexStringOfBytes(u, forceAlpha);
    RGBLaws.HexRoundTrip(u.Bytes(), d, forceAlpha);
  }

  /**
   * The cases of `toString` as written: the hex text carries the masked unit
   * numbers, and the integer text always carries the alpha byte.
   */
  lemma FormattedScenarios()
    ensures Units(1.0, 0.0, 0.0, 1.0).Formatted(RGB.Format.Hex) == "#010000"
    ensures Units(1.0, 0.0, 0.0, 1.0).Formatted(RGB.Format.Invalid) == "#010000"
    ensures Units(0.0, 0.0, 1.0, 1.0).Formatted(RGB.Format.IntegerFormat) == "65535"
  {
    EncScenarios();
    var u := Units(0.0, 0.0, 1.0, 1.0);
    assert ByteOf(1.0) == 255 && ByteOf(0.0) == 0 && u.AlphaComp() == 255;
    assert u.WrittenInteger(false, false) == 65535;
    assert NatText(65535) == "65535";
  }
}
