/** The integer-only HSV to RGB conversion `setLedColorHSV` of ld-framework/Pattern.cpp.
  *
  * The source works on `byte` (unsigned 8-bit) inputs and 32-bit `int`/`unsigned int`
  * intermediates. Every intermediate up to the byte stores stays below 2^16, and the
  * packed sum stays below 2^24, so the 32-bit arithmetic never wraps and is modelled
  * with unbounded `nat`; the three stores back into a `byte`
  * (the rescaled hue and pv, qv, tv) are modelled with an explicit truncation, and the
  * contracts below prove that none of them ever loses a bit.
  */
module Hsv {

  /** The platform's `byte`: an unsigned 8-bit value. */
  type Byte = x: int | 0 <= x < 256

  /** Storing a wider unsigned value into a `byte` keeps its low eight bits. */
  function ToByte(x: nat): (b: Byte)
    ensures x < 256 ==> b == x
  {
    x % 256
  }

  /** One colour as its three 8-bit channels. */
  datatype Rgb = Rgb(red: Byte, green: Byte, blue: Byte)

  /** The largest packed colour plus one: three channels of eight bits. */
  const PackedLimit: nat := 0x100_0000

  // ---------------------------------------------------------------------------
  // Intermediates of the conversion
  // ---------------------------------------------------------------------------

  /** The hue rescaled from 0..255 to 0..191 and stored back into the byte `h`;
    * the store is exact. */
  function ScaledHue(h: Byte): (r: Byte)
    ensures r <= 191
    ensures 256 * r <= h * 192 < 256 * (r + 1)
  {
    ToByte(h * 192 / 256)
  }

  /** The hexagon sector of a hue: always one of the six cases of the switch. */
  function Sector(h: Byte): (i: nat)
    ensures i <= 5
    ensures 32 * i <= ScaledHue(h) < 32 * (i + 1)
  {
    ScaledHue(h) / 32
  }

  /** The position inside the sector, 0..248 in steps of 8. */
  function Fraction(h: Byte): (f: nat)
    ensures f <= 248 && f % 8 == 0
    ensures ScaledHue(h) == 32 * Sector(h) + f / 8
  {
    (ScaledHue(h) % 32) * 8
  }

  /** `v * k / 256`, the scaling every channel formula ends with. */
  function Scale(v: Byte, k: nat): nat
  {
    v * k / 256
  }

  /** Multiplying by a larger factor never gives less. */
  lemma {:induction false} MulMonotone(x: nat, a: nat, b: nat)
    requires a <= b
    ensures x * a <= x * b
    decreases x
  {
    if x > 0 {
      MulMonotone(x - 1, a, b);
      assert x * a == (x - 1) * a + a;
      assert x * b == (x - 1) * b + b;
    }
  }

  /** Scaling by at most 256/256 never exceeds `v`, and a larger factor never gives less. */
  lemma ScaleMonotone(v: Byte, a: nat, b: nat)
    requires a <= b
    ensures Scale(v, a) <= Scale(v, b)
    ensures b <= 256 ==> Scale(v, b) <= v
  {
    MulMonotone(v, a, b);
    if b <= 256 {
      MulMonotone(v, b, 256);
    }
  }

  /** The darkest channel, `v * (255 - s) / 256`. */
  function Pv(s: Byte, v: Byte): (r: Byte)
    ensures r <= v
    ensures r == Scale(v, 255 - s)
    ensures s == 255 ==> r == 0
  {
    ScaleMonotone(v, 255 - s, 256);
    ToByte(Scale(v, 255 - s))
  }

  /** `s * g / 256`, the amount the saturation takes off the full factor 256 in qv
    * (with `g = f`) and tv (with `g = 255 - f`); it never exceeds `s`. */
  function Cut(s: Byte, g: nat): (c: nat)
    requires g <= 255
    ensures c <= s
  {
    MulMonotone(s, g, 255);
    s * g / 256
  }

  /** For any `g <= 255`, `v * (256 - s * g / 256) / 256` lies between pv and `v`. */
  lemma ShadeBounds(s: Byte, v: Byte, g: nat)
    requires g <= 255
    ensures Pv(s, v) <= Scale(v, 256 - Cut(s, g)) <= v
  {
    ScaleMonotone(v, 255 - s, 256 - Cut(s, g));
    ScaleMonotone(v, 256 - Cut(s, g), 256);
  }

  /** The shape shared by qv and tv, `v * (256 - s * g / 256) / 256`, stored into a
    * byte: for any `g <= 255` it lies between pv and `v`, so the store is exact. */
  function Shade(s: Byte, v: Byte, g: nat): (r: Byte)
    requires g <= 255
    ensures Pv(s, v) <= r <= v
    ensures r == Scale(v, 256 - Cut(s, g))
  {
    ShadeBounds(s, v, g);
    ToByte(Scale(v, 256 - Cut(s, g)))
  }

  /** The falling channel qv, `v * (256 - s * f / 256) / 256`. */
  function Qv(s: Byte, v: Byte, f: nat): Byte
    requires f <= 248
  {
    Shade(s, v, f)
  }

  /** The rising channel tv, `v * (256 - s * (255 - f) / 256) / 256`. */
  function Tv(s: Byte, v: Byte, f: nat): Byte
    requires f <= 248
  {
    Shade(s, v, 255 - f)
  }

  // ---------------------------------------------------------------------------
  // The conversion
  // ---------------------------------------------------------------------------

  /** The three channels chosen by the six-way switch on the sector. The brightest
    * channel is always exactly `v` and the darkest is always exactly pv, as in the
    * textbook hexagon where max = V and min = V * (1 - S). */
  function HsvToRgb(h: Byte, s: Byte, v: Byte): (c: Rgb)
    ensures c.red <= v && c.green <= v && c.blue <= v
    ensures c.red == v || c.green == v || c.blue == v
    ensures c.red >= Pv(s, v) && c.green >= Pv(s, v) && c.blue >= Pv(s, v)
    ensures c.red == Pv(s, v) || c.green == Pv(s, v) || c.blue == Pv(s, v)
  {
    var i := Sector(h);
    var f := Fraction(h);
    var pv := Pv(s, v);
    var qv := Qv(s, v, f);
    var tv := Tv(s, v, f);
    if i == 0 then Rgb(v, tv, pv)
    else if i == 1 then Rgb(qv, v, pv)
    else if i == 2 then Rgb(pv, v, tv)
    else if i == 3 then Rgb(pv, qv, v)
    else if i == 4 then Rgb(tv, pv, v)
    else Rgb(v, pv, qv)
  }

  /** The red, green and blue channels packed at bits 16..23, 8..15 and 0..7. */
  function Pack(c: Rgb): (rgb: nat)
    ensures rgb < PackedLimit
  {
    c.red * 0x1_0000 + c.green * 0x100 + c.blue
  }

  /** Reads the three channels back out of a packed colour. */
  function Unpack(rgb: nat): (c: Rgb)
    requires rgb < PackedLimit
  {
    Rgb(rgb / 0x1_0000, (rgb / 0x100) % 0x100, rgb % 0x100)
  }

  /** `setLedColorHSV(h, s, v)`: the packed colour of one HSV triple. It fits in 24
    * bits and unpacks to exactly the channels of the conversion. */
  function SetLedColorHsv(h: Byte, s: Byte, v: Byte): (rgb: nat)
    ensures rgb < PackedLimit
    ensures Unpack(rgb) == HsvToRgb(h, s, v)
  {
    var c := HsvToRgb(h, s, v);
    UnpackPack(c);
    Pack(c)
  }

  // ---------------------------------------------------------------------------
  // Properties
  // ---------------------------------------------------------------------------

  /** Unpacking a packed colour gives back its three channels. */
  lemma UnpackPack(c: Rgb)
    ensures Unpack(Pack(c)) == c
  {
    var rgb := Pack(c);
    assert rgb / 0x1_0000 == c.red;
    assert rgb / 0x100 == c.red * 0x100 + c.green;
    assert (rgb / 0x100) % 0x100 == c.green;
  }

  /** Every value below 2^24 is the packing of its own channels. */
  lemma PackUnpack(rgb: nat)
    requires rgb < PackedLimit
    ensures Pack(Unpack(rgb)) == rgb
  {
    var c := Unpack(rgb);
    assert rgb / 0x100 == c.red * 0x100 + c.green;
    assert rgb == (rgb / 0x100) * 0x100 + c.blue;
  }

  /** On 32-bit words, adding the three shifted channels as the source does equals
    * or-ing them: the bit fields do not overlap. */
  lemma ShiftedChannelsAddAsOr(r: bv32, g: bv32, b: bv32)
    requires r < 256 && g < 256 && b < 256
    ensures (r << 16) + (g << 8) + b == (r << 16) | (g << 8) | b
  {
  }

  /** At full saturation pv is zero, so every colour has a dark channel as well as a
    * channel at full value `v`. */
  lemma FullySaturatedHasDarkChannel(h: Byte, v: Byte)
    ensures var c := HsvToRgb(h, 255, v);
      (c.red == 0 || c.green == 0 || c.blue == 0) &&
      (c.red == v || c.green == v || c.blue == v)
  {
  }

  /** The switch case by case. Stated for arbitrary arguments, it lets the boundary
    * lemmas below pick their case without evaluating the conversion on constants. */
  lemma SwitchCases(h: Byte, s: Byte, v: Byte)
    ensures var c, f := HsvToRgb(h, s, v), Fraction(h);
      (Sector(h) == 0 ==> c == Rgb(v, Tv(s, v, f), Pv(s, v))) &&
      (Sector(h) == 1 ==> c == Rgb(Qv(s, v, f), v, Pv(s, v))) &&
      (Sector(h) == 2 ==> c == Rgb(Pv(s, v), v, Tv(s, v, f))) &&
      (Sector(h) == 3 ==> c == Rgb(Pv(s, v), Qv(s, v, f), v)) &&
      (Sector(h) == 4 ==> c == Rgb(Tv(s, v, f), Pv(s, v), v)) &&
      (Sector(h) == 5 ==> c == Rgb(v, Pv(s, v), Qv(s, v, f)))
  {
  }

  /** A later hue in the same sector never has a smaller fraction. */
  lemma FractionMonotone(h1: Byte, h2: Byte)
    requires h1 <= h2 && Sector(h1) == Sector(h2)
    ensures Fraction(h1) <= Fraction(h2)
  {
    assert ScaledHue(h1) <= ScaledHue(h2) by {
      assert h1 * 192 <= h2 * 192;
    }
  }

  /** A larger factor `g` takes a larger cut. */
  lemma CutMonotone(s: Byte, g1: nat, g2: nat)
    requires g1 <= g2 <= 255
    ensures Cut(s, g1) <= Cut(s, g2)
  {
    MulMonotone(s, g1, g2);
  }

  /** qv falls as the fraction grows. */
  lemma QvFalls(s: Byte, v: Byte, f1: nat, f2: nat)
    requires f1 <= f2 <= 248
    ensures Qv(s, v, f2) <= Qv(s, v, f1)
  {
    CutMonotone(s, f1, f2);
    ScaleMonotone(v, 256 - Cut(s, f2), 256 - Cut(s, f1));
  }

  /** tv rises as the fraction grows. */
  lemma TvRises(s: Byte, v: Byte, f1: nat, f2: nat)
    requires f1 <= f2 <= 248
    ensures Tv(s, v, f1) <= Tv(s, v, f2)
  {
    CutMonotone(s, 255 - f2, 255 - f1);
    ScaleMonotone(v, 256 - Cut(s, 255 - f1), 256 - Cut(s, 255 - f2));
  }

  /** Walking the hue forward inside one sector moves exactly one channel, in the
    * direction of the hexagon: green rises in sector 0, red falls in 1, blue rises
    * in 2, green falls in 3, red rises in 4 and blue falls in 5. */
  lemma HueSweep(h1: Byte, h2: Byte, s: Byte, v: Byte)
    requires h1 <= h2 && Sector(h1) == Sector(h2)
    ensures var a, b := HsvToRgb(h1, s, v), HsvToRgb(h2, s, v);
      (Sector(h1) == 0 ==> a.red == b.red && a.green <= b.green && a.blue == b.blue) &&
      (Sector(h1) == 1 ==> a.red >= b.red && a.green == b.green && a.blue == b.blue) &&
      (Sector(h1) == 2 ==> a.red == b.red && a.green == b.green && a.blue <= b.blue) &&
      (Sector(h1) == 3 ==> a.red == b.red && a.green >= b.green && a.blue == b.blue) &&
      (Sector(h1) == 4 ==> a.red <= b.red && a.green == b.green && a.blue == b.blue) &&
      (Sector(h1) == 5 ==> a.red == b.red && a.green == b.green && a.blue >= b.blue)
  {
    var f1, f2 := Fraction(h1), Fraction(h2);
    FractionMonotone(h1, h2);
    QvFalls(s, v, f1, f2);
    TvRises(s, v, f1, f2);
    SwitchCases(h1, s, v);
    SwitchCases(h2, s, v);
  }

  /** The packed result of a conversion whose channels are known. */
  lemma PackedColour(h: Byte, s: Byte, v: Byte, c: Rgb)
    requires HsvToRgb(h, s, v) == c
    ensures SetLedColorHsv(h, s, v) == c.red * 0x1_0000 + c.green * 0x100 + c.blue
  {
  }

  /** Hue 0 at full saturation is red, plus green at 1 once `v >= 128`: tv is
    * v * (256 - 255 * 255 / 256) / 256 = v * 2 / 256, so it is pure red only below
    * half brightness. */
  lemma FirstHue(v: Byte)
    ensures Sector(0) == 0
    ensures HsvToRgb(0, 255, v) == Rgb(v, if v >= 128 then 1 else 0, 0)
    ensures SetLedColorHsv(0, 255, v) == v * 0x1_0000 + (if v >= 128 then 0x100 else 0)
  {
    var c := Rgb(v, if v >= 128 then 1 else 0, 0);
    assert Sector(0) == 0 && HsvToRgb(0, 255, v) == c by {
      assert Sector(0) == 0 && Fraction(0) == 0 by {
        assert ScaledHue(0) == 0;
      }
      assert Cut(255, 255) == 254 by {
        assert 255 * 255 / 256 == 254;
      }
      SwitchCases(0, 255, v);
    }
    PackedColour(0, 255, v, c);
  }

  /** Hue 128 at full saturation is exact cyan at any value: qv = v * 256 / 256. */
  lemma MiddleHue(v: Byte)
    ensures Sector(128) == 3
    ensures HsvToRgb(128, 255, v) == Rgb(0, v, v)
    ensures SetLedColorHsv(128, 255, v) == v * 0x100 + v
  {
    assert Sector(128) == 3 && HsvToRgb(128, 255, v) == Rgb(0, v, v) by {
      assert Sector(128) == 3 && Fraction(128) == 0 by {
        assert ScaledHue(128) == 96;
      }
      assert Cut(255, 0) == 0;
      SwitchCases(128, 255, v);
    }
    PackedColour(128, 255, v, Rgb(0, v, v));
  }

  /** Hue 255 at full saturation is red plus blue at `v * 9 / 256` (0 to 8), since
    * qv = v * (256 - 255 * 248 / 256) / 256. */
  lemma LastHue(v: Byte)
    ensures Sector(255) == 5
    ensures HsvToRgb(255, 255, v) == Rgb(v, 0, v * 9 / 256)
    ensures SetLedColorHsv(255, 255, v) == v * 0x1_0000 + v * 9 / 256
  {
    var c := Rgb(v, 0, v * 9 / 256);
    assert Sector(255) == 5 && HsvToRgb(255, 255, v) == c by {
      assert Sector(255) == 5 && Fraction(255) == 248 by {
        assert ScaledHue(255) == 191;
      }
      assert Cut(255, 248) == 247 by {
        assert 255 * 248 / 256 == 247;
      }
      SwitchCases(255, 255, v);
    }
    PackedColour(255, 255, v, c);
  }

  /** Zero saturation is never an exact grey. qv and tv are `v`, but pv is
    * v * 255 / 256 = v - 1 for `v > 0`, and the switch puts pv in blue in sectors 0-1,
    * in red in sectors 2-3 and in green in sectors 4-5. */
  lemma Unsaturated(h: Byte, v: Byte)
    ensures var c, low := HsvToRgb(h, 0, v), if v == 0 then 0 else v - 1;
      c == if Sector(h) <= 1 then Rgb(v, v, low)
           else if Sector(h) <= 3 then Rgb(low, v, v)
           else Rgb(v, low, v)
    ensures SetLedColorHsv(0, 0, v) == v * 0x1_0100 + (if v == 0 then 0 else v - 1)
  {
    var low := if v == 0 then 0 else v - 1;
    assert Pv(0, v) == low by {
      assert 256 * (v - 1) <= v * 255 < 256 * v || v == 0;
    }
    assert HsvToRgb(h, 0, v) == if Sector(h) <= 1 then Rgb(v, v, low)
        else if Sector(h) <= 3 then Rgb(low, v, v)
        else Rgb(v, low, v) by {
      var f := Fraction(h);
      assert Cut(0, f) == 0 && Cut(0, 255 - f) == 0;
      assert Scale(v, 256) == v;
      SwitchCases(h, 0, v);
    }
    assert Sector(0) == 0 by {
      assert ScaledHue(0) == 0;
    }
    PackedColour(0, 0, v, Rgb(v, v, low));
  }

  /** The values these give at full brightness: hue 0 is 0xFF0100 rather than pure
    * red, hue 255 is red with blue at 8, and zero saturation is not pure white. */
  lemma FullBrightnessColours()
    ensures SetLedColorHsv(0, 255, 255) == 0xFF0100
    ensures SetLedColorHsv(128, 255, 255) == 0x00FFFF
    ensures SetLedColorHsv(255, 255, 255) == 0xFF0008
    ensures SetLedColorHsv(0, 0, 255) == 0xFFFFFE
  {
    var full: Byte := 255;
    FirstHue(full);
    MiddleHue(full);
    LastHue(full);
    assert (full as int) * 9 / 256 == 8;
    Unsaturated(0, full);
  }
}
