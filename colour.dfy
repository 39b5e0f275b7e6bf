/**
 * The pure colour arithmetic of NeoPixelConnect: the RGB triple, the
 * 24-bit packing done by `urgb_u32`, the word that `putPixel` hands to the
 * output FIFO, the unpacking at the top of `blendColors`, and the three
 * different brightness-scaling formulas the class uses.
 */
module Colour {
  import opened Bits

  /** One pixel's colour, in the buffer's R, G, B slot order. */
  datatype Rgb = Rgb(r: u8, g: u8, b: u8)

  // ---------------------------------------------------------------------
  // Packing (urgb_u32), unpacking (blendColors) and the FIFO word (putPixel)
  // ---------------------------------------------------------------------

  /**
   * `urgb_u32(r, g, b)`: green in bits 16-23, red in bits 8-15, blue in
   * bits 0-7, written as the sum of the three shifted bytes;
   * `UrgbU32IsCExpression` shows it equals the source's shifts and ORs.
   */
  function UrgbU32(r: u8, g: u8, b: u8): (w: u32)
    ensures w < 0x100_0000
  {
    g * 0x1_0000 + r * 0x100 + b
  }

  /**
   * `(r << 8) | (g << 16) | b` on 32-bit words: the three bytes do not
   * overlap, so the ORs add and nothing is shifted out.
   */
  lemma UrgbU32IsCExpression(r: u8, g: u8, b: u8)
    ensures UrgbU32(r, g, b) == BitOr(BitOr(ShiftLeft(r, 8), ShiftLeft(g, 16)), b)
  {
    Pow2Bytes();
    OrOfFields(r * 0x100, g * 0x1_0000, b);
  }

  /** ORing byte fields at bits 8, 16 and 0 adds them. */
  lemma OrOfFields(red: nat, green: nat, b: u8)
    requires red % 0x100 == 0 && red < 0x1_0000 && green % 0x1_0000 == 0
    ensures BitOr(BitOr(red, green), b) == green + red + b
  {
    Pow2Bytes();
    var inner := BitOr(red, green);
    OrCommutes(red, green);
    OrDisjoint(green, red, 16);
    assert inner == green + red;
    var gq, rq := green / 0x1_0000, red / 0x100;
    assert green == 0x1_0000 * gq && red == 0x100 * rq;
    DivModUnique(inner, 0x100, gq * 0x100 + rq, 0);
    OrDisjoint(inner, b, 8);
  }

  /** `urgb_u32` applied to a buffer pixel. */
  function Pack(p: Rgb): (w: u32)
  {
    UrgbU32(p.r, p.g, p.b)
  }

  /**
   * The channel extraction at the top of `blendColors`: red from bits
   * 8-15, green from bits 16-23, blue from bits 0-7; the top byte is
   * ignored. The three channels, put back in their places, are exactly the
   * low 24 bits of the word, so repacking them (as `blendColors` does)
   * clears only the top byte. `UnpackColorIsCExpression` shows these are
   * the source's shifts and masks.
   */
  function UnpackColor(w: u32): (c: Rgb)
    ensures c.g * 0x1_0000 + c.r * 0x100 + c.b == w % 0x100_0000
    ensures Pack(c) == w % 0x100_0000
  {
    var x := w / 0x100;
    var y := x / 0x100;
    DivModUnique(w, 0x100, x, w % 0x100);
    DivModUnique(x, 0x100, y, x % 0x100);
    DivModUnique(y, 0x100, y / 0x100, y % 0x100);
    DivModUnique(w, 0x100_0000, y / 0x100, (y % 0x100) * 0x1_0000 + (x % 0x100) * 0x100 + w % 0x100);
    DivModUnique(w, 0x1_0000, y, (x % 0x100) * 0x100 + w % 0x100);
    Rgb((w / 0x100) % 0x100, (w / 0x1_0000) % 0x100, w % 0x100)
  }

  /** `(w >> 8) & 0xFF`, `(w >> 16) & 0xFF` and `w & 0xFF` on a 32-bit word. */
  lemma UnpackColorIsCExpression(w: u32)
    ensures UnpackColor(w).r == BitAnd(ShiftRight(w, 8), 0xFF)
    ensures UnpackColor(w).g == BitAnd(ShiftRight(w, 16), 0xFF)
    ensures UnpackColor(w).b == BitAnd(w, 0xFF)
  {
    Pow2Bytes();
    AndLowMask(ShiftRight(w, 8), 8);
    AndLowMask(ShiftRight(w, 16), 8);
    AndLowMask(w, 8);
  }

  /** Reading back a byte of a sum of byte fields. */
  lemma FieldsOfSum(hi: nat, mid: u8, lo: u8)
    ensures (hi * 0x1_0000 + mid * 0x100 + lo) % 0x100 == lo
    ensures ((hi * 0x1_0000 + mid * 0x100 + lo) / 0x100) % 0x100 == mid
    ensures (hi * 0x1_0000 + mid * 0x100 + lo) / 0x1_0000 == hi
  {
    var x := hi * 0x1_0000 + mid * 0x100 + lo;
    DivModUnique(x, 0x100, hi * 0x100 + mid, lo);
    DivModUnique(hi * 0x100 + mid, 0x100, hi, mid);
    DivModUnique(x, 0x1_0000, hi, mid * 0x100 + lo);
  }

  /** Unpacking recovers exactly the triple that was packed. */
  lemma UnpackPack(p: Rgb)
    ensures UnpackColor(Pack(p)) == p
  {
    var w := Pack(p);
    FieldsOfSum(p.g, p.r, p.b);
    DivModUnique(p.g, 0x100, 0, p.g);
    var q := UnpackColor(w);
    assert q.r == p.r && q.g == p.g && q.b == p.b;
  }

  /** Two triples pack to the same word only if they are equal. */
  lemma PackInjective(p: Rgb, q: Rgb)
    requires Pack(p) == Pack(q)
    ensures p == q
  {
    UnpackPack(p);
    UnpackPack(q);
  }

  /**
   * The word `putPixel` queues for one pixel: `urgb_u32(...) << 8`. The
   * packed value is below 2^24, so the shift loses nothing: green goes out
   * first in bits 24-31, then red in bits 16-23, then blue in bits 8-15,
   * over a zero low byte.
   */
  function WireWord(p: Rgb): (w: u32)
    ensures w == p.g * 0x100_0000 + p.r * 0x1_0000 + p.b * 0x100
  {
    Pow2Bytes();
    ShiftLeft(Pack(p), 8)
  }

  /** Each byte of the wire word, read back. */
  lemma WireWordFields(p: Rgb)
    ensures WireWord(p) / 0x100_0000 == p.g
    ensures (WireWord(p) / 0x1_0000) % 0x100 == p.r
    ensures (WireWord(p) / 0x100) % 0x100 == p.b
    ensures WireWord(p) % 0x100 == 0
  {
    var w := WireWord(p);
    DivModUnique(w, 0x100, Pack(p), 0);
    FieldsOfSum(p.g, p.r, p.b);
    DivModUnique(w, 0x1_0000, p.g * 0x100 + p.r, p.b * 0x100);
    DivModUnique(w, 0x100_0000, p.g, p.r * 0x1_0000 + p.b * 0x100);
  }

  /** The wire word of a pixel determines the pixel. */
  lemma WireWordInjective(p: Rgb, q: Rgb)
    requires WireWord(p) == WireWord(q)
    ensures p == q
  {
    WireWordFields(p);
    WireWordFields(q);
  }

  /** The words a show emits for a run of pixels, in index order. */
  function FrameOf(s: seq<Rgb>): (words: seq<u32>)
    ensures |words| == |s|
  {
    if s == [] then [] else FrameOf(s[..|s| - 1]) + [WireWord(s[|s| - 1])]
  }

  /** Word k of a frame is the wire word of pixel k. */
  lemma {:induction false} FrameOfAt(s: seq<Rgb>, k: nat)
    requires k < |s|
    ensures FrameOf(s)[k] == WireWord(s[k])
  {
    if k < |s| - 1 {
      FrameOfAt(s[..|s| - 1], k);
    }
  }

  /**
   * Queuing the next pixel's packed colour, shifted by 8, extends the frame
   * of the pixels before it by exactly that pixel's wire word.
   */
  lemma FrameGrows(s: seq<Rgb>, i: nat, packed: u32)
    requires i < |s| && packed == Pack(s[i])
    ensures FrameOf(s[..i + 1]) == FrameOf(s[..i]) + [ShiftLeft(packed, 8)]
  {
    var t := s[..i + 1];
    assert t[..|t| - 1] == s[..i] && t[|t| - 1] == s[i];
  }

  /** A frame determines the pixels it was made from. */
  lemma FrameInjective(s: seq<Rgb>, t: seq<Rgb>)
    requires FrameOf(s) == FrameOf(t)
    ensures s == t
  {
    forall k | 0 <= k < |s|
      ensures s[k] == t[k]
    {
      FrameOfAt(s, k);
      FrameOfAt(t, k);
      WireWordInjective(s[k], t[k]);
    }
  }

  // ---------------------------------------------------------------------
  // The three brightness formulas
  // ---------------------------------------------------------------------

  /**
   * `neoPixelSetValue`: `(c * brightness) / 255`, the floor of
   * c * brightness / 255. Never brighter than c; exact at full brightness.
   */
  function SetValueLevel(c: u8, brightness: u8): (v: u8)
    ensures v <= c
    ensures v * 255 <= c * brightness < v * 255 + 255
    ensures brightness == 255 ==> v == c
  {
    var m := c * brightness;
    assert m <= c * 255;
    DivModUnique(m, 255, m / 255, m % 255);
    m / 255
  }

  /**
   * `neoPixelFill`: `c - (c * (255 - brightness)) / 255`, which is the
   * ceiling of c * brightness / 255. Never brighter than c; exact at full
   * brightness; zero for a zero channel whatever the brightness.
   */
  function FillLevel(c: u8, brightness: u8): (v: u8)
    ensures v <= c
    ensures c * brightness <= v * 255 < c * brightness + 255
    ensures brightness == 255 ==> v == c
    ensures c == 0 ==> v == 0
  {
    var q := (c * (255 - brightness)) / 255;
    FillIsCeiling(c, brightness, q);
    c - q
  }

  /** The arithmetic behind `FillLevel`'s ceiling characterisation. */
  lemma FillIsCeiling(c: u8, brightness: u8, q: int)
    requires q == (c * (255 - brightness)) / 255
    ensures 0 <= q <= c
    ensures c * brightness <= (c - q) * 255 < c * brightness + 255
  {
    var m := (c * (255 - brightness)) % 255;
    assert c * (255 - brightness) == 255 * q + m;
    assert (c - q) * 255 == c * brightness + m;
    assert c * (255 - brightness) <= c * 255;
  }

  /**
   * `setBrightness`: `(o * brightness) >> 8`, a division by 256. Never
   * brighter than o, and never 255: full brightness turns 255 into 254.
   */
  function BrightnessLevel(o: u8, brightness: u8): (v: u8)
    ensures v <= o
    ensures v * 256 <= o * brightness < v * 256 + 256
    ensures v <= 254
  {
    var m := o * brightness;
    assert m <= o * 255;
    Pow2Bytes();
    ShiftRight(m, 8)
  }

  /** The fill formula rounds up where the set-value formula rounds down. */
  lemma FillAtMostOneAboveSetValue(c: u8, brightness: u8)
    ensures SetValueLevel(c, brightness) <= FillLevel(c, brightness) <= SetValueLevel(c, brightness) + 1
    ensures FillLevel(c, brightness) == SetValueLevel(c, brightness) <==> (c * brightness) % 255 == 0
  {
    var lo, hi := SetValueLevel(c, brightness), FillLevel(c, brightness);
    assert lo * 255 <= c * brightness <= hi * 255;
    assert hi * 255 < lo * 255 + 510;
  }

  /** The brightness formula rounds below the set-value formula, by at most one. */
  lemma BrightnessAtMostOneBelowSetValue(o: u8, brightness: u8)
    ensures BrightnessLevel(o, brightness) <= SetValueLevel(o, brightness) <= BrightnessLevel(o, brightness) + 1
  {
    var lo, mid := BrightnessLevel(o, brightness), SetValueLevel(o, brightness);
    assert lo * 255 <= lo * 256 <= o * brightness;
    assert o * brightness <= 0xFF * 0xFF;
  }

  /** Concrete inputs on which the three formulas disagree. */
  lemma FormulasDisagree()
    ensures SetValueLevel(255, 255) == 255 && BrightnessLevel(255, 255) == 254
    ensures SetValueLevel(1, 128) == 0 && FillLevel(1, 128) == 1
  {
  }
}
