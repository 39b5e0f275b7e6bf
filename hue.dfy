/**
 * `ColorHSV`: the integer hue-to-RGB conversion over a 16-bit hue, as the
 * C code computes it, including the operator-precedence slip on its two
 * descending ramps; and the evidently intended descending ramp beside it.
 */
module Hue {
  import opened Bits
  import opened Colour

  /** Assignment of an `int` to a `uint8_t`: the value modulo 256. */
  function ToU8(x: int): (y: u8)
    ensures (x - y) % 256 == 0
    ensures 0 <= x < 256 ==> y == x
  {
    x % 256
  }

  /** The first hue of each of the four ramps. */
  const GreenStart: u16 := 0x5555
  const BlueStart: u16 := 0xAAAA
  const LastHue: u16 := 0xFFFF

  /**
   * An ascending ramp, `(d * 2) >> 8`, over an offset within a ramp: one
   * step up every 128 hues, reaching at most 170.
   */
  function Rise(d: int): (v: u8)
    ensures 0 <= d < 0x5555 ==> v == d / 128 && v <= 170
  {
    Pow2Bytes();
    var s := ShiftRight(d * 2, 8);
    assert 0 <= d < 0x5555 ==> s == d / 128;
    ToU8(s)
  }

  /**
   * A descending ramp as the source writes it, `0xFF - (d * 2) >> 8`: C
   * parses this as `(0xFF - d * 2) >> 8`, so the subtraction comes first.
   * The shifted value is 0 for the first 128 offsets and negative after
   * that, and the store into a `uint8_t` wraps it to 256 - d / 128.
   */
  function FallAsWritten(d: int): (v: u8)
    ensures 0 <= d < 128 ==> v == 0
    ensures 128 <= d < 0x5555 ==> v == 0x100 - d / 128
  {
    Pow2Bytes();
    var s := ShiftRight(0xFF - d * 2, 8);
    assert 0 <= d < 128 ==> s == 0;
    assert 128 <= d < 0x5555 ==> s == -(d / 128);
    ToU8(s)
  }

  /**
   * A descending ramp with the shift done first, `0xFF - ((d * 2) >> 8)`:
   * one step down every 128 hues.
   */
  function FallIntended(d: int): (v: u8)
    ensures 0 <= d < 0x5555 ==> v == 0xFF - d / 128
  {
    Pow2Bytes();
    var s := ShiftRight(d * 2, 8);
    assert 0 <= d < 0x5555 ==> s == d / 128;
    ToU8(0xFF - s)
  }

  /**
   * The colour `ColorHSV` computes before packing it. One channel is
   * always full; the hue picks which one and where the others stand.
   */
  function HueToRgb(hue: u16): (c: Rgb)
    ensures c.r == 0xFF || c.g == 0xFF || c.b == 0xFF
    ensures hue < GreenStart ==> c.r == 0xFF && c.b == 0 && c.g == hue / 128
    ensures GreenStart <= hue < BlueStart ==> c.g == 0xFF && c.b == (hue - GreenStart) / 128
    ensures BlueStart <= hue < LastHue ==> c.r == 0 && c.b == 0xFF
    ensures hue == LastHue ==> c == Rgb(0, 0, 0xFF)
  {
    if hue < GreenStart then
      Rgb(0xFF, Rise(hue), 0)
    else if hue < BlueStart then
      Rgb(FallAsWritten(hue - GreenStart), 0xFF, Rise(hue - GreenStart))
    else if hue < LastHue then
      Rgb(0, FallAsWritten(hue - BlueStart), 0xFF)
    else
      Rgb(Rise(hue - LastHue), 0, 0xFF)
  }

  /** `ColorHSV(hue)`: the sector colour packed by `urgb_u32`. */
  function ColorHsv(hue: u16): (w: u32)
    ensures w < 0x100_0000
    ensures UnpackColor(w) == HueToRgb(hue)
  {
    var c := HueToRgb(hue);
    UnpackPack(c);
    Pack(c)
  }

  /** The ascending ramp starts at 0, never passes 170 and never falls. */
  lemma RiseBounds(d: int, e: int)
    requires 0 <= d <= e < 0x5555
    ensures Rise(0) == 0
    ensures 0 <= Rise(d) <= Rise(e) <= 170
    ensures Rise(e) - Rise(d) <= (e - d) / 128 + 1
  {
    var q, r := e / 128 - d / 128, e % 128 - d % 128;
    assert e - d == q * 128 + r;
  }

  /**
   * The as-written descending ramp is 0 for the first 128 offsets of a ramp
   * and one above the intended ramp for the rest.
   */
  lemma FallAsWrittenVersusIntended(d: int)
    requires 0 <= d < 0x5555
    ensures FallIntended(d) == 0xFF - d / 128
    ensures FallAsWritten(d) == if d < 128 then 0 else FallIntended(d) + 1
  {
  }

  /** Hue 0 is pure red. */
  lemma HueZeroIsRed()
    ensures HueToRgb(0) == Rgb(0xFF, 0, 0)
    ensures ColorHsv(0) == 0x00FF00
  {
  }

  /** Hue 0x5555 is pure green. */
  lemma HueGreenStartIsGreen()
    ensures HueToRgb(0x5555) == Rgb(0, 0xFF, 0)
    ensures ColorHsv(0x5555) == 0xFF0000
  {
  }

  /** The last hue, 0xFFFF, is pure blue. */
  lemma LastHueIsBlue()
    ensures HueToRgb(0xFFFF) == Rgb(0, 0, 0xFF)
    ensures ColorHsv(0xFFFF) == 0x0000FF
  {
  }

  /** First ramp: red full, blue off, green rising from 0 to at most 170. */
  lemma RedRamp(hue: u16)
    requires hue < GreenStart
    ensures HueToRgb(hue).r == 0xFF && HueToRgb(hue).b == 0
    ensures HueToRgb(hue).g <= 170
    ensures HueToRgb(hue).g * 128 <= hue < HueToRgb(hue).g * 128 + 128
  {
    RiseBounds(hue, hue);
  }

  /** Second ramp: green full, blue rising to at most 170, red per the as-written fall. */
  lemma GreenRamp(hue: u16)
    requires GreenStart <= hue < BlueStart
    ensures HueToRgb(hue).g == 0xFF
    ensures HueToRgb(hue).b <= 170
    ensures HueToRgb(hue).b * 128 <= hue - GreenStart < HueToRgb(hue).b * 128 + 128
    ensures HueToRgb(hue).r == if hue - GreenStart < 128 then 0 else 0x100 - (hue - GreenStart) / 128
  {
    RiseBounds(hue - GreenStart, hue - GreenStart);
    FallAsWrittenVersusIntended(hue - GreenStart);
  }

  /** Third ramp: red off, blue full, green per the as-written fall. */
  lemma BlueRamp(hue: u16)
    requires BlueStart <= hue < LastHue
    ensures HueToRgb(hue).r == 0 && HueToRgb(hue).b == 0xFF
    ensures HueToRgb(hue).g == if hue - BlueStart < 128 then 0 else 0x100 - (hue - BlueStart) / 128
  {
    FallAsWrittenVersusIntended(hue - BlueStart);
  }

  /**
   * Two neighbouring hues on the second ramp whose red values are 0 and
   * 255: the descending ramp as written jumps instead of falling.
   */
  lemma RampJumpsAsWritten()
    ensures HueToRgb(0x55D4).r == 0
    ensures HueToRgb(0x55D5).r == 0xFF
  {
    FallAsWrittenVersusIntended(0x55D4 - GreenStart);
    FallAsWrittenVersusIntended(0x55D5 - GreenStart);
  }

  /** The colour `ColorHSV` computes with both descending ramps corrected. */
  function HueToRgbIntended(hue: u16): (c: Rgb)
    ensures c.r == 0xFF || c.g == 0xFF || c.b == 0xFF
    ensures GreenStart <= hue < BlueStart ==> c.r == 0xFF - (hue - GreenStart) / 128
    ensures BlueStart <= hue < LastHue ==> c.g == 0xFF - (hue - BlueStart) / 128
  {
    if hue < GreenStart then
      Rgb(0xFF, Rise(hue), 0)
    else if hue < BlueStart then
      Rgb(FallIntended(hue - GreenStart), 0xFF, Rise(hue - GreenStart))
    else if hue < LastHue then
      Rgb(0, FallIntended(hue - BlueStart), 0xFF)
    else
      Rgb(Rise(hue - LastHue), 0, 0xFF)
  }

  /** The ramp a hue lies on: 0, 1, 2, or 3 for the single last hue. */
  function Ramp(hue: u16): (k: nat)
    ensures k <= 3
  {
    if hue < GreenStart then 0 else if hue < BlueStart then 1 else if hue < LastHue then 2 else 3
  }

  /** |x - y| <= 1 */
  predicate Near(x: int, y: int)
  {
    -1 <= x - y <= 1
  }

  /**
   * With the corrected ramps, moving to the next hue on the same ramp
   * changes every channel by at most one, and the falling channel never
   * rises.
   */
  lemma IntendedRampIsSmooth(hue: u16)
    requires hue < LastHue && Ramp(hue) == Ramp(hue + 1)
    ensures Near(HueToRgbIntended(hue).r, HueToRgbIntended(hue + 1).r)
    ensures Near(HueToRgbIntended(hue).g, HueToRgbIntended(hue + 1).g)
    ensures Near(HueToRgbIntended(hue).b, HueToRgbIntended(hue + 1).b)
    ensures Ramp(hue) == 1 ==> HueToRgbIntended(hue + 1).r <= HueToRgbIntended(hue).r
    ensures Ramp(hue) == 2 ==> HueToRgbIntended(hue + 1).g <= HueToRgbIntended(hue).g
  {
    if hue < GreenStart {
      RiseBounds(hue, hue + 1);
    } else if hue < BlueStart {
      RiseBounds(hue - GreenStart, hue + 1 - GreenStart);
      FallAsWrittenVersusIntended(hue - GreenStart);
      FallAsWrittenVersusIntended(hue + 1 - GreenStart);
    } else {
      FallAsWrittenVersusIntended(hue - BlueStart);
      FallAsWrittenVersusIntended(hue + 1 - BlueStart);
    }
  }
}
