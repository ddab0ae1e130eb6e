/**
 * `ColorHSL.fromRGB` and `toRGB` of `src/HSL.ts`, over the unit channels of
 * the draft `ColorRGB` (`DraftRGB.Units`).  `fromRGB` is modelled twice: as
 * written, and as evidently intended; the intended one is what `toRGB`
 * inverts.
 */
module HSLConvert {
  import opened MathUtils
  import opened HSL
  import DraftRGB

  /** `Math.abs` */
  function Abs(x: real): (r: real)
    ensures r >= 0.0 && (r == x || r == -x)
  {
    if x < 0.0 then -x else x
  }

  /** When `n` is the whole part of `x / d` from below, `x - d * n` lies in [0, d). */
  lemma RemainderBelow(x: real, d: real, n: real)
    requires d > 0.0 && n <= x / d < n + 1.0
    ensures 0.0 <= x - d * n < d
  {
    var r := x / d - n;
    assert x - d * n == d * r;
    assert d * r >= 0.0;
    assert d - d * r == d * (1.0 - r);
    assert d * (1.0 - r) > 0.0;
  }

  /** When `n` is the whole part of `x / d` from above, `x - d * n` lies in (-d, 0]. */
  lemma RemainderAbove(x: real, d: real, n: real)
    requires d > 0.0 && n - 1.0 < x / d <= n
    ensures -d < x - d * n <= 0.0
  {
    var r := n - x / d;
    assert d * n - x == d * r;
    assert d * r >= 0.0;
    assert d - d * r == d * (1.0 - r);
    assert d * (1.0 - r) > 0.0;
  }

  /** JavaScript's `x % d`: the remainder of the division truncated toward zero; it has the sign of `x`. */
  function TruncRem(x: real, d: real): (r: real)
    requires d > 0.0
    ensures x >= 0.0 ==> 0.0 <= r < d
    ensures x < 0.0 ==> -d < r <= 0.0
  {
    var n := Trunc(x / d) as real;
    assert x >= 0.0 <==> x / d >= 0.0;
    if x >= 0.0 then RemainderBelow(x, d, n); x - d * n
    else RemainderAbove(x, d, n); x - d * n
  }

  /** The remainder of the division floored toward minus infinity: always in [0, d). */
  function FlooredMod(x: real, d: real): (r: real)
    requires d > 0.0
    ensures 0.0 <= r < d
  {
    var n := (x / d).Floor as real;
    RemainderBelow(x, d, n);
    x - d * n
  }

  /** Channel `i` of a colour: 0 red, 1 green, 2 blue. */
  function Channel(u: DraftRGB.Units, i: nat): real
    requires i < 3
  {
    if i == 0 then u.red else if i == 1 then u.green else u.blue
  }

  /** `minChannel()`: the smallest channel. */
  function MinChannel(u: DraftRGB.Units): (m: real)
    ensures m <= u.red && m <= u.green && m <= u.blue
    ensures m == u.red || m == u.green || m == u.blue
  {
    if u.red <= u.green && u.red <= u.blue then u.red
    else if u.green <= u.blue then u.green
    else u.blue
  }

  /** `maxChannel(true)`: the largest channel and its index, the first one on a tie. */
  function MaxChannel(u: DraftRGB.Units): (r: (real, nat))
    ensures r.1 < 3 && r.0 == Channel(u, r.1)
    ensures r.0 >= u.red && r.0 >= u.green && r.0 >= u.blue
    ensures forall j | 0 <= j < r.1 :: Channel(u, j) < r.0
  {
    if u.red >= u.green && u.red >= u.blue then (u.red, 0)
    else if u.green >= u.blue then (u.green, 1)
    else (u.blue, 2)
  }

  /** `1 - |2 lightness - 1|`: the largest chroma a lightness leaves room for. */
  function Room(lightness: real): real
  {
    1.0 - Abs(lightness * 2.0 - 1.0)
  }

  /** A positive number at most `b` divides by `b` into (0, 1]. */
  lemma DivUnit(a: real, b: real)
    requires 0.0 < a <= b
    ensures 0.0 < a / b <= 1.0
  {
    assert a / b * b == a;
  }

  /** The lightness of the extreme channels, and the saturation of their spread. */
  lemma Spread(max: real, min: real)
    requires 0.0 <= min < max <= 1.0
    ensures var lit := (max + min) / 2.0; var d := Room(lit);
      0.0 < lit < 1.0 && 0.0 < max - min <= d && 0.0 < (max - min) / d <= 1.0
  {
    var d := Room((max + min) / 2.0);
    assert max - min <= d;
    DivUnit(max - min, d);
  }

  /**
   * The hue of `fromRGB` as written, in sixths of the circle: the numerators
   * read the byte getters while the chroma is a difference of unit channels,
   * the green and blue sectors have no offset, and `%` truncates toward zero.
   */
  function WrittenSector(u: DraftRGB.Units): (h: real)
    requires u.Valid()
    ensures -6.0 < h < 6.0
  {
    var min := MinChannel(u);
    var (max, maxInd) := MaxChannel(u);
    var chroma := max - min;
    if chroma == 0.0 then 0.0
    else if maxInd == 0 then TruncRem((DraftRGB.ByteOf(u.green) - DraftRGB.ByteOf(u.blue)) as real / chroma, 6.0)
    else if maxInd == 1 then TruncRem((DraftRGB.ByteOf(u.blue) - DraftRGB.ByteOf(u.red)) as real / chroma, 6.0)
    else TruncRem((DraftRGB.ByteOf(u.red) - DraftRGB.ByteOf(u.green)) as real / chroma, 6.0)
  }

  /** `fromRGB(rgb)` as written: the hue of `WrittenSector` times 60, lightness and saturation as intended. */
  function FromRGBWritten(u: DraftRGB.Units): (c: HSLA)
    requires u.Valid()
    ensures -360.0 < c.hue < 360.0 && 0.0 <= c.lightness <= 1.0 && c.alpha == u.alpha
  {
    var min := MinChannel(u);
    var max := MaxChannel(u).0;
    var chroma := max - min;
    var lit := (max + min) / 2.0;
    var sat := if chroma == 0.0 then 0.0 else chroma / Room(lit);
    HSLA(WrittenSector(u) * 60.0, sat, lit, u.alpha)
  }

  /** A difference within the chroma divides to within [-1, 1]. */
  lemma Ratio(a: real, c: real)
    requires c > 0.0 && -c <= a <= c
    ensures -1.0 <= a / c <= 1.0 && a / c * c == a
    ensures a < c ==> a / c < 1.0
    ensures a >= 0.0 ==> a / c >= 0.0
  {
  }

  /** The position of the hue in sixths of the circle, in [0, 6). */
  function Sector(u: DraftRGB.Units): (h: real)
    requires u.Valid()
    ensures 0.0 <= h < 6.0
  {
    var min := MinChannel(u);
    var (max, maxInd) := MaxChannel(u);
    var chroma := max - min;
    if chroma == 0.0 then 0.0
    else if maxInd == 0 then FlooredMod((u.green - u.blue) / chroma, 6.0)
    else if maxInd == 1 then Ratio(u.blue - u.red, chroma); (u.blue - u.red) / chroma + 2.0
    else Ratio(u.red - u.green, chroma); (u.red - u.green) / chroma + 4.0
  }

  /**
   * `fromRGB(rgb)` as evidently intended: unit channels throughout, the sector
   * offsets 2 and 4 for a green and a blue maximum, and a floored remainder;
   * the hue lies in [0, 360) and the other components in [0, 1].
   */
  function FromRGB(u: DraftRGB.Units): (c: HSLA)
    requires u.Valid()
    ensures 0.0 <= c.hue < 360.0 && c.UnitParts() && c.alpha == u.alpha
  {
    var min := MinChannel(u);
    var max := MaxChannel(u).0;
    var chroma := max - min;
    var lit := (max + min) / 2.0;
    var sat := if chroma == 0.0 then 0.0 else (Spread(max, min); chroma / Room(lit));
    HSLA(Sector(u) * 60.0, sat, lit, u.alpha)
  }

  /** `(1 - |2 lightness - 1|) * saturation`, the chroma of `toRGB`. */
  function Chroma(lightness: real, saturation: real): real
  {
    Room(lightness) * saturation
  }

  /** `chroma * (1 - |(hue / 60) % 2 - 1|)`, the middle channel before the offset. */
  function Middle(hue: real, chroma: real): real
  {
    chroma * (1.0 - Abs(TruncRem(hue / 60.0, 2.0) - 1.0))
  }

  /** The 60 degree sector of the hue places the chroma, the middle value and 0; a hue outside [0, 300) takes the last sector. */
  function Place(hue: real, chroma: real, x: real): (rgb: (real, real, real))
    ensures rgb.0 == 0.0 || rgb.0 == chroma || rgb.0 == x
    ensures rgb.1 == 0.0 || rgb.1 == chroma || rgb.1 == x
    ensures rgb.2 == 0.0 || rgb.2 == chroma || rgb.2 == x
  {
    if 0.0 <= hue < 60.0 then (chroma, x, 0.0)
    else if 60.0 <= hue < 120.0 then (x, chroma, 0.0)
    else if 120.0 <= hue < 180.0 then (0.0, chroma, x)
    else if 180.0 <= hue < 240.0 then (0.0, x, chroma)
    else if 240.0 <= hue < 300.0 then (x, 0.0, chroma)
    else (chroma, 0.0, x)
  }

  /**
   * `toRGB()`: the chroma and the middle value placed by the sector of the
   * hue, with `lightness - chroma / 2` added to each channel.  The result is
   * the tuple passed to the `ColorRGB` constructor.
   */
  function ToRGB(c: HSLA): (u: DraftRGB.Units)
    ensures u.alpha == c.alpha
  {
    var chroma := Chroma(c.lightness, c.saturation);
    var rgb := Place(c.hue, chroma, Middle(c.hue, chroma));
    var offset := c.lightness - chroma / 2.0;
    DraftRGB.Units(rgb.0 + offset, rgb.1 + offset, rgb.2 + offset, c.alpha)
  }

  /** A product with a unit factor stays between 0 and the other factor. */
  lemma MulUnit(a: real, s: real)
    requires 0.0 <= a && 0.0 <= s <= 1.0
    ensures 0.0 <= a * s <= a
  {
    assert a * s >= 0.0;
    assert a - a * s == a * (1.0 - s);
    assert a * (1.0 - s) >= 0.0;
  }

  /** The chroma of unit lightness and saturation is at most `1 - |2 lightness - 1|`. */
  lemma ChromaRange(lightness: real, saturation: real)
    requires 0.0 <= lightness <= 1.0 && 0.0 <= saturation <= 1.0
    ensures 0.0 <= Chroma(lightness, saturation) <= Room(lightness)
  {
    var d := Room(lightness);
    MulUnit(d, saturation);
    assert Chroma(lightness, saturation) == d * saturation;
  }

  /** For a hue of at least 0, the middle value lies between 0 and the chroma. */
  lemma MiddleRange(hue: real, chroma: real)
    requires hue >= 0.0 && chroma >= 0.0
    ensures 0.0 <= Middle(hue, chroma) <= chroma
  {
    assert hue / 60.0 >= 0.0;
    var f := 1.0 - Abs(TruncRem(hue / 60.0, 2.0) - 1.0);
    MulUnit(chroma, f);
    assert Middle(hue, chroma) == chroma * f;
  }

  /** A hue of at least 0 with unit saturation, lightness and alpha gives unit channels. */
  lemma ToRGBUnit(c: HSLA)
    requires c.hue >= 0.0 && c.UnitParts()
    ensures ToRGB(c).Valid()
  {
    var chroma := Chroma(c.lightness, c.saturation);
    ChromaRange(c.lightness, c.saturation);
    MiddleRange(c.hue, chroma);
    var offset := c.lightness - chroma / 2.0;
    assert 0.0 <= offset && offset + chroma <= 1.0;
  }

  // ---------------------------------------------------------------------------
  // `toRGB(fromRGB(rgb))` gives the colour back.

  /** The middle value of the hue `60 * h`, for `h` in [2k, 2k + 2). */
  lemma MiddleAt(h: real, chroma: real, k: int)
    requires 0 <= k && 2.0 * k as real <= h < 2.0 * k as real + 2.0
    ensures Middle(h * 60.0, chroma) == chroma * (1.0 - Abs(h - 2.0 * k as real - 1.0))
  {
    assert h * 60.0 / 60.0 == h;
    assert Trunc(h / 2.0) == k;
  }

  /** On the rising half of a pair of sectors the middle value is the difference the sector was computed from. */
  lemma MiddleRising(h: real, chroma: real, k: int, a: real)
    requires chroma > 0.0 && 0.0 <= a < chroma && 0 <= k && h == a / chroma + 2.0 * k as real
    ensures Middle(h * 60.0, chroma) == a
  {
    var q := a / chroma;
    Ratio(a, chroma);
    MiddleAt(h, chroma, k);
    assert Abs(h - 2.0 * k as real - 1.0) == 1.0 - q;
    assert chroma * (1.0 - (1.0 - q)) == chroma * q;
  }

  /** On the falling half of a pair of sectors the middle value is the negated difference. */
  lemma MiddleFalling(h: real, chroma: real, k: int, a: real)
    requires chroma > 0.0 && -chroma <= a < 0.0 && 0 <= k && h == a / chroma + 2.0 * k as real + 2.0
    ensures Middle(h * 60.0, chroma) == -a
  {
    var q := a / chroma;
    Ratio(a, chroma);
    MiddleAt(h, chroma, k);
    assert Abs(h - 2.0 * k as real - 1.0) == q + 1.0;
    assert chroma * (1.0 - (q + 1.0)) == -(chroma * q);
  }

  /** The lightness and saturation `fromRGB` computes give the chroma and the smallest channel back. */
  lemma ChromaBack(u: DraftRGB.Units)
    requires u.Valid()
    ensures var c := FromRGB(u); var chroma := MaxChannel(u).0 - MinChannel(u);
      Chroma(c.lightness, c.saturation) == chroma && c.lightness - chroma / 2.0 == MinChannel(u)
  {
    var max, min := MaxChannel(u).0, MinChannel(u);
    var c := FromRGB(u);
    assert c.lightness == (max + min) / 2.0;
    if max != min {
      Spread(max, min);
      assert c.saturation == (max - min) / Room(c.lightness);
      ChromaOfRatio(c.lightness, max - min);
    }
  }

  /** Scaling a chroma down by the room at a lightness and back up gives it back. */
  lemma ChromaOfRatio(lit: real, chroma: real)
    requires Room(lit) > 0.0
    ensures Chroma(lit, chroma / Room(lit)) == chroma
  {
    var d := Room(lit);
    assert d * (chroma / d) == chroma;
  }

  /** The channels `toRGB` gives for a hue `60 * h` with known chroma and middle value. */
  lemma ToRGBWith(c: HSLA, h: real, chroma: real, x: real, min: real)
    requires c.hue == h * 60.0
    requires Chroma(c.lightness, c.saturation) == chroma && c.lightness - chroma / 2.0 == min
    requires Middle(c.hue, chroma) == x
    ensures var rgb := Place(c.hue, chroma, x);
      ToRGB(c) == DraftRGB.Units(rgb.0 + min, rgb.1 + min, rgb.2 + min, c.alpha)
  {
  }

  /** A grey (all channels equal) reads back as itself. */
  lemma RoundTripGrey(u: DraftRGB.Units)
    requires u.Valid() && u.red == u.green == u.blue
    ensures ToRGB(FromRGB(u)) == u
  {
    ChromaBack(u);
    var c := FromRGB(u);
    assert c.hue == 0.0;
    assert Middle(c.hue, 0.0) == 0.0;
    ToRGBWith(c, 0.0, 0.0, 0.0, u.red);
  }

  /**
   * A colour reads back once its sector `h`, the middle component `x` and the
   * placement of chroma, `x` and 0 over the channels are known.
   */
  lemma Reassembled(u: DraftRGB.Units, h: real, x: real)
    requires u.Valid() && Sector(u) == h
    requires var chroma := MaxChannel(u).0 - MinChannel(u);
      var min := MinChannel(u);
      Middle(h * 60.0, chroma) == x && Place(h * 60.0, chroma, x) == (u.red - min, u.green - min, u.blue - min)
    ensures ToRGB(FromRGB(u)) == u
  {
    var chroma := MaxChannel(u).0 - MinChannel(u);
    ChromaBack(u);
    ToRGBWith(FromRGB(u), h, chroma, x, MinChannel(u));
  }

  /** Red largest, blue smallest: the sector `(g - b) / chroma` lies in [0, 1). */
  lemma RoundTripRedUp(u: DraftRGB.Units)
    requires u.Valid() && u.blue <= u.green < u.red
    ensures ToRGB(FromRGB(u)) == u
  {
    var chroma := u.red - u.blue;
    Ratio(u.green - u.blue, chroma);
    var q := (u.green - u.blue) / chroma;
    assert MinChannel(u) == u.blue && MaxChannel(u).0 == u.red;
    assert Sector(u) == q by { assert (q / 6.0).Floor == 0; }
    assert Middle(q * 60.0, chroma) == u.green - u.blue by {
      MiddleRising(q, chroma, 0, u.green - u.blue);
    }
    assert Place(q * 60.0, chroma, u.green - u.blue) == (chroma, u.green - u.blue, 0.0);
    Reassembled(u, q, u.green - u.blue);
  }

  /** Red and green tied above blue: the sector is 1, a hue of 60. */
  lemma RoundTripRedGreenTie(u: DraftRGB.Units)
    requires u.Valid() && u.blue < u.green == u.red
    ensures ToRGB(FromRGB(u)) == u
  {
    var chroma := u.red - u.blue;
    assert (u.green - u.blue) / chroma == 1.0;
    assert Sector(u) == 1.0 by { assert (1.0 / 6.0).Floor == 0; }
    ChromaBack(u);
    var c := FromRGB(u);
    MiddleAt(1.0, chroma, 0);
    ToRGBWith(c, 1.0, chroma, chroma, u.blue);
    assert Place(c.hue, chroma, chroma) == (chroma, chroma, 0.0);
  }

  /** Red largest (blue possibly tied), green smallest: the sector `(g - b) / chroma + 6` lies in [5, 6). */
  lemma RoundTripRedDown(u: DraftRGB.Units)
    requires u.Valid() && u.green < u.blue <= u.red
    ensures ToRGB(FromRGB(u)) == u
  {
    var chroma := u.red - u.green;
    Ratio(u.green - u.blue, chroma);
    var q := (u.green - u.blue) / chroma;
    assert MinChannel(u) == u.green && MaxChannel(u).0 == u.red;
    assert Sector(u) == q + 6.0 by { assert (q / 6.0).Floor == -1; }
    assert Middle((q + 6.0) * 60.0, chroma) == u.blue - u.green by {
      MiddleFalling((q + 6.0), chroma, 2, u.green - u.blue);
    }
    assert Place((q + 6.0) * 60.0, chroma, u.blue - u.green) == (chroma, 0.0, u.blue - u.green);
    Reassembled(u, q + 6.0, u.blue - u.green);
  }

  /** Green largest, blue smallest: the sector `(b - r) / chroma + 2` lies in (1, 2). */
  lemma RoundTripGreenDown(u: DraftRGB.Units)
    requires u.Valid() && u.blue < u.red < u.green
    ensures ToRGB(FromRGB(u)) == u
  {
    var chroma := u.green - u.blue;
    Ratio(u.blue - u.red, chroma);
    var q := (u.blue - u.red) / chroma;
    assert MinChannel(u) == u.blue && MaxChannel(u).0 == u.green;
    assert Sector(u) == q + 2.0;
    assert Middle((q + 2.0) * 60.0, chroma) == u.red - u.blue by {
      MiddleFalling((q + 2.0), chroma, 0, u.blue - u.red);
    }
    assert Place((q + 2.0) * 60.0, chroma, u.red - u.blue) == (u.red - u.blue, chroma, 0.0);
    Reassembled(u, q + 2.0, u.red - u.blue);
  }

  /** Green largest, red smallest: the sector `(b - r) / chroma + 2` lies in [2, 3). */
  lemma RoundTripGreenUp(u: DraftRGB.Units)
    requires u.Valid() && u.red <= u.blue < u.green
    ensures ToRGB(FromRGB(u)) == u
  {
    var chroma := u.green - u.red;
    Ratio(u.blue - u.red, chroma);
    var q := (u.blue - u.red) / chroma;
    assert MinChannel(u) == u.red && MaxChannel(u).0 == u.green;
    assert Sector(u) == q + 2.0;
    assert Middle((q + 2.0) * 60.0, chroma) == u.blue - u.red by {
      MiddleRising((q + 2.0), chroma, 1, u.blue - u.red);
    }
    assert Place((q + 2.0) * 60.0, chroma, u.blue - u.red) == (0.0, chroma, u.blue - u.red);
    Reassembled(u, q + 2.0, u.blue - u.red);
  }

  /** Green and blue tied above red: the sector is 3, a hue of 180. */
  lemma RoundTripGreenBlueTie(u: DraftRGB.Units)
    requires u.Valid() && u.red < u.blue == u.green
    ensures ToRGB(FromRGB(u)) == u
  {
    var chroma := u.green - u.red;
    assert (u.blue - u.red) / chroma == 1.0;
    assert Sector(u) == 3.0;
    ChromaBack(u);
    var c := FromRGB(u);
    MiddleAt(3.0, chroma, 1);
    ToRGBWith(c, 3.0, chroma, chroma, u.red);
    assert Place(c.hue, chroma, chroma) == (0.0, chroma, chroma);
  }

  /** Blue largest, red smallest: the sector `(r - g) / chroma + 4` lies in [3, 4). */
  lemma RoundTripBlueDown(u: DraftRGB.Units)
    requires u.Valid() && u.red < u.green < u.blue
    ensures ToRGB(FromRGB(u)) == u
  {
    var chroma := u.blue - u.red;
    Ratio(u.red - u.green, chroma);
    var q := (u.red - u.green) / chroma;
    assert MinChannel(u) == u.red && MaxChannel(u).0 == u.blue;
    assert Sector(u) == q + 4.0;
    assert Middle((q + 4.0) * 60.0, chroma) == u.green - u.red by {
      MiddleFalling((q + 4.0), chroma, 1, u.red - u.green);
    }
    assert Place((q + 4.0) * 60.0, chroma, u.green - u.red) == (0.0, u.green - u.red, chroma);
    Reassembled(u, q + 4.0, u.green - u.red);
  }

  /** Blue largest, green smallest: the sector `(r - g) / chroma + 4` lies in [4, 5). */
  lemma RoundTripBlueUp(u: DraftRGB.Units)
    requires u.Valid() && u.green <= u.red < u.blue
    ensures ToRGB(FromRGB(u)) == u
  {
    var chroma := u.blue - u.green;
    Ratio(u.red - u.green, chroma);
    var q := (u.red - u.green) / chroma;
    assert MinChannel(u) == u.green && MaxChannel(u).0 == u.blue;
    assert Sector(u) == q + 4.0;
    assert Middle((q + 4.0) * 60.0, chroma) == u.red - u.green by {
      MiddleRising((q + 4.0), chroma, 2, u.red - u.green);
    }
    assert Place((q + 4.0) * 60.0, chroma, u.red - u.green) == (u.red - u.green, 0.0, chroma);
    Reassembled(u, q + 4.0, u.red - u.green);
  }

  /** `toRGB(fromRGB(rgb))` gives every channel and the alpha back exactly. */
  lemma RGBRoundTrip(u: DraftRGB.Units)
    requires u.Valid()
    ensures ToRGB(FromRGB(u)) == u
  {
    if u.red == u.green == u.blue {
      RoundTripGrey(u);
    } else if u.red >= u.green && u.red >= u.blue {
      if u.green < u.blue {
        RoundTripRedDown(u);
      } else if u.green < u.red {
        RoundTripRedUp(u);
      } else {
        RoundTripRedGreenTie(u);
      }
    } else if u.green >= u.blue {
      if u.blue < u.red {
        RoundTripGreenDown(u);
      } else if u.blue < u.green {
        RoundTripGreenUp(u);
      } else {
        RoundTripGreenBlueTie(u);
      }
    } else if u.red < u.green {
      RoundTripBlueDown(u);
    } else {
      RoundTripBlueUp(u);
    }
  }

  // ---------------------------------------------------------------------------
  // Where `fromRGB` as written goes wrong.

  /** Pure green: as written hue 0 (red), as intended 120. */
  lemma WrittenGreenHue()
    ensures FromRGBWritten(DraftRGB.Units(0.0, 1.0, 0.0, 1.0)).hue == 0.0
    ensures FromRGB(DraftRGB.Units(0.0, 1.0, 0.0, 1.0)).hue == 120.0
  {
    var u := DraftRGB.Units(0.0, 1.0, 0.0, 1.0);
    assert MaxChannel(u) == (1.0, 1) && MinChannel(u) == 0.0;
    assert DraftRGB.ByteOf(0.0) == 0;
    assert Trunc(0.0 / 6.0) == 0;
    assert WrittenSector(u) == 0.0;
    assert Sector(u) == 2.0;
  }

  /** Red over half blue: as written hue -120, as intended 330. */
  lemma WrittenNegativeHue()
    ensures FromRGBWritten(DraftRGB.Units(1.0, 0.0, 0.5, 1.0)).hue == -120.0
    ensures FromRGB(DraftRGB.Units(1.0, 0.0, 0.5, 1.0)).hue == 330.0
  {
    var u := DraftRGB.Units(1.0, 0.0, 0.5, 1.0);
    assert DraftRGB.ByteOf(0.5) == 128 && DraftRGB.ByteOf(0.0) == 0;
    assert MinChannel(u) == 0.0 && MaxChannel(u) == (1.0, 0);
    assert Trunc(-128.0 / 6.0) == -21;
    assert TruncRem(-128.0, 6.0) == -2.0;
    assert WrittenSector(u) == -2.0 by {
      assert (DraftRGB.ByteOf(u.green) - DraftRGB.ByteOf(u.blue)) as real / 1.0 == -128.0;
    }
    assert (-0.5 / 6.0).Floor == -1;
    assert Sector(u) == 5.5;
  }

  /** Red over half green: as written hue 120 (a byte numerator over a unit chroma), as intended 30. */
  lemma WrittenByteScaleHue()
    ensures FromRGBWritten(DraftRGB.Units(1.0, 0.5, 0.0, 1.0)).hue == 120.0
    ensures FromRGB(DraftRGB.Units(1.0, 0.5, 0.0, 1.0)).hue == 30.0
  {
    var u := DraftRGB.Units(1.0, 0.5, 0.0, 1.0);
    assert DraftRGB.ByteOf(0.5) == 128 && DraftRGB.ByteOf(0.0) == 0;
    assert Trunc(128.0 / 6.0) == 21;
    assert WrittenSector(u) == 2.0;
    assert (0.5 / 6.0).Floor == 0;
    assert Sector(u) == 0.5;
  }
}
