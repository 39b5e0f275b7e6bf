/**
 * The `NeoPixelConnect` driver without its hardware: two colour stores of
 * `MAXIMUM_NUM_NEOPIXELS` rows of three bytes, the active pixel count, the
 * brightness, the rotation offset, and the words queued for the PIO state
 * machine's transmit FIFO (a ghost sequence; the state machine itself is
 * not modelled).
 */
module NeoPixel {
  import opened Bits
  import opened Colour

  /** `MAXIMUM_NUM_NEOPIXELS`: the row count of both buffers. */
  const MaximumNumNeoPixels: nat := 1024

  /** Slot indices within a buffer row: storage order is R, G, B. */
  const RED: nat := 0
  const GREEN: nat := 1
  const BLUE: nat := 2

  /** Row i of a three-slot buffer as a colour. */
  ghost function PixelAt(a: array2<u8>, i: nat): (p: Rgb)
    requires i < a.Length0 && a.Length1 == 3
    reads a
  {
    Rgb(a[i, RED], a[i, GREEN], a[i, BLUE])
  }

  class NeoPixelConnect {
    /** The colours that a show transmits. */
    const pixelBuffer: array2<u8>
    /** The colours last given to `neoPixelSetValue`, before brightness scaling. */
    const originalBuffer: array2<u8>
    var currentBrightness: u8
    var pixelOffset: u32
    var actualNumberOfPixels: u16
    /** Every word handed to the transmit FIFO, oldest first. */
    ghost var fifo: seq<u32>

    /** Both buffers exist, are distinct, and have the declared shape. */
    ghost predicate Allocated()
    {
      pixelBuffer.Length0 == MaximumNumNeoPixels && pixelBuffer.Length1 == 3 &&
      originalBuffer.Length0 == MaximumNumNeoPixels && originalBuffer.Length1 == 3 &&
      pixelBuffer != originalBuffer
    }

    /** The object invariant: the active pixels fit in the buffers. */
    ghost predicate Valid()
      reads this`actualNumberOfPixels
    {
      Allocated() && actualNumberOfPixels <= MaximumNumNeoPixels
    }

    /** The displayed colours of the active pixels, in index order. */
    ghost function Display(): (s: seq<Rgb>)
      requires Valid()
      reads this`actualNumberOfPixels, pixelBuffer
      ensures |s| == actualNumberOfPixels
      ensures forall i :: 0 <= i < |s| ==> s[i] == PixelAt(pixelBuffer, i)
    {
      var n := actualNumberOfPixels;
      seq(n, i requires 0 <= i < n <= pixelBuffer.Length0 reads pixelBuffer => PixelAt(pixelBuffer, i))
    }

    /**
     * Both source constructors: the pin, PIO block and state machine only
     * select hardware, so one constructor stands for both. Brightness
     * starts at 255; `originalBuffer` and `pixelOffset` are left as they
     * come, since the source never initialises them.
     */
    constructor (pinNumber: u8, numberOfPixels: u16)
      requires numberOfPixels <= MaximumNumNeoPixels
      ensures Valid() && fresh(pixelBuffer) && fresh(originalBuffer)
      ensures actualNumberOfPixels == numberOfPixels && currentBrightness == 255
      ensures forall i, c :: 0 <= i < numberOfPixels && 0 <= c < 3 ==> pixelBuffer[i, c] == 0
      ensures fifo == FrameOf(Display())
    {
      pixelBuffer := new u8[MaximumNumNeoPixels, 3];
      originalBuffer := new u8[MaximumNumNeoPixels, 3];
      currentBrightness := 255;
      fifo := [];
      new;
      NeoPixelInit(pinNumber, numberOfPixels);
    }

    /**
     * `neoPixelInit` without the PIO program loading and the delay: record
     * the pixel count, turn every active pixel off, and show once.
     */
    method NeoPixelInit(pinNumber: u8, numberOfPixels: u16)
      requires Allocated() && numberOfPixels <= MaximumNumNeoPixels
      modifies this`actualNumberOfPixels, this`fifo, pixelBuffer
      ensures Valid() && actualNumberOfPixels == numberOfPixels
      ensures forall i, c :: 0 <= i < numberOfPixels && 0 <= c < 3 ==> pixelBuffer[i, c] == 0
      ensures forall i, c :: numberOfPixels <= i < MaximumNumNeoPixels && 0 <= c < 3 ==>
                pixelBuffer[i, c] == old(pixelBuffer[i, c])
      ensures fifo == old(fifo) + FrameOf(Display())
    {
      actualNumberOfPixels := numberOfPixels;
      for i := 0 to actualNumberOfPixels
        invariant actualNumberOfPixels == numberOfPixels && fifo == old(fifo)
        invariant forall j, c :: 0 <= j < i && 0 <= c < 3 ==> pixelBuffer[j, c] == 0
        invariant forall j, c :: i <= j < MaximumNumNeoPixels && 0 <= c < 3 ==>
                    pixelBuffer[j, c] == old(pixelBuffer[j, c])
      {
        pixelBuffer[i, RED] := FillLevel(0, currentBrightness);
        pixelBuffer[i, GREEN] := FillLevel(0, currentBrightness);
        pixelBuffer[i, BLUE] := FillLevel(0, currentBrightness);
      }
      NeoPixelShow();
    }

    /**
     * `neoPixelSetValue`: store the colour unscaled in `originalBuffer`,
     * store it scaled by the floor formula in `pixelBuffer`, and show only
     * when asked to. Nothing else in either buffer changes.
     */
    method NeoPixelSetValue(pixelNumber: u16, r: u8 := 0, g: u8 := 0, b: u8 := 0, autoShow: bool := false)
      requires Valid() && pixelNumber < actualNumberOfPixels
      modifies pixelBuffer, originalBuffer, this`fifo
      ensures PixelAt(originalBuffer, pixelNumber) == Rgb(r, g, b)
      ensures PixelAt(pixelBuffer, pixelNumber) ==
                Rgb(SetValueLevel(r, currentBrightness), SetValueLevel(g, currentBrightness),
                    SetValueLevel(b, currentBrightness))
      ensures forall i, c :: 0 <= i < MaximumNumNeoPixels && i != pixelNumber && 0 <= c < 3 ==>
                pixelBuffer[i, c] == old(pixelBuffer[i, c]) && originalBuffer[i, c] == old(originalBuffer[i, c])
      ensures fifo == if autoShow then old(fifo) + FrameOf(Display()) else old(fifo)
    {
      originalBuffer[pixelNumber, RED] := r;
      originalBuffer[pixelNumber, GREEN] := g;
      originalBuffer[pixelNumber, BLUE] := b;

      pixelBuffer[pixelNumber, RED] := SetValueLevel(r, currentBrightness);
      pixelBuffer[pixelNumber, GREEN] := SetValueLevel(g, currentBrightness);
      pixelBuffer[pixelNumber, BLUE] := SetValueLevel(b, currentBrightness);

      if autoShow {
        NeoPixelShow();
      }
    }

    /**
     * `neoPixelClear`: the fill formula with a zero colour, which is zero
     * at every brightness. `originalBuffer` is not touched.
     */
    method NeoPixelClear(autoShow: bool := true)
      requires Valid()
      modifies pixelBuffer, this`fifo
      ensures forall i, c :: 0 <= i < actualNumberOfPixels && 0 <= c < 3 ==> pixelBuffer[i, c] == 0
      ensures forall i, c :: actualNumberOfPixels <= i < MaximumNumNeoPixels && 0 <= c < 3 ==>
                pixelBuffer[i, c] == old(pixelBuffer[i, c])
      ensures fifo == if autoShow then old(fifo) + FrameOf(Display()) else old(fifo)
    {
      for i := 0 to actualNumberOfPixels
        invariant fifo == old(fifo)
        invariant forall j, c :: 0 <= j < i && 0 <= c < 3 ==> pixelBuffer[j, c] == 0
        invariant forall j, c :: i <= j < MaximumNumNeoPixels && 0 <= c < 3 ==>
                    pixelBuffer[j, c] == old(pixelBuffer[j, c])
      {
        pixelBuffer[i, RED] := FillLevel(0, currentBrightness);
        pixelBuffer[i, GREEN] := FillLevel(0, currentBrightness);
        pixelBuffer[i, BLUE] := FillLevel(0, currentBrightness);
      }
      if autoShow {
        NeoPixelShow();
      }
    }

    /**
     * `neoPixelFill`: every active pixel gets the colour scaled by the
     * ceiling formula. `originalBuffer` is not touched, so a later
     * `setBrightness` forgets the fill.
     */
    method NeoPixelFill(r: u8 := 0, g: u8 := 0, b: u8 := 0, autoShow: bool := true)
      requires Valid()
      modifies pixelBuffer, this`fifo
      ensures forall i :: 0 <= i < actualNumberOfPixels ==>
                PixelAt(pixelBuffer, i) == Rgb(FillLevel(r, currentBrightness), FillLevel(g, currentBrightness),
                                               FillLevel(b, currentBrightness))
      ensures forall i, c :: actualNumberOfPixels <= i < MaximumNumNeoPixels && 0 <= c < 3 ==>
                pixelBuffer[i, c] == old(pixelBuffer[i, c])
      ensures fifo == if autoShow then old(fifo) + FrameOf(Display()) else old(fifo)
    {
      ghost var filled := Rgb(FillLevel(r, currentBrightness), FillLevel(g, currentBrightness),
                              FillLevel(b, currentBrightness));
      for i := 0 to actualNumberOfPixels
        invariant fifo == old(fifo)
        invariant forall j :: 0 <= j < i ==>
                    pixelBuffer[j, RED] == filled.r && pixelBuffer[j, GREEN] == filled.g && pixelBuffer[j, BLUE] == filled.b
        invariant forall j, c :: i <= j < MaximumNumNeoPixels && 0 <= c < 3 ==>
                    pixelBuffer[j, c] == old(pixelBuffer[j, c])
      {
        pixelBuffer[i, RED] := FillLevel(r, currentBrightness);
        pixelBuffer[i, GREEN] := FillLevel(g, currentBrightness);
        pixelBuffer[i, BLUE] := FillLevel(b, currentBrightness);
      }
      if autoShow {
        NeoPixelShow();
      }
    }

    /** `neoPixelShow`: queue one word per active pixel, in index order. */
    method NeoPixelShow()
      requires Valid()
      modifies this`fifo
      ensures fifo == old(fifo) + FrameOf(Display())
    {
      ghost var shown := Display();
      for i := 0 to actualNumberOfPixels
        invariant shown == Display()
        invariant fifo == old(fifo) + FrameOf(shown[..i])
      {
        var packed := UrgbU32(pixelBuffer[i, RED], pixelBuffer[i, GREEN], pixelBuffer[i, BLUE]);
        assert shown[i] == PixelAt(pixelBuffer, i);
        FrameGrows(shown, i, packed);
        PutPixel(packed);
      }
      assert shown[..actualNumberOfPixels] == shown;
    }

    /** `putPixel`: the blocking FIFO write of the packed colour shifted left by 8. */
    method PutPixel(pixelGrb: u32)
      modifies this`fifo
      ensures fifo == old(fifo) + [ShiftLeft(pixelGrb, 8)]
    {
      fifo := fifo + [ShiftLeft(pixelGrb, 8)];
    }

    /**
     * `getOffset`: the 32-bit field returned as a `uint16_t`, so its low
     * 16 bits; the whole field whenever it fits.
     */
    function GetOffset(): (offset: u16)
      reads this`pixelOffset
      ensures (pixelOffset - offset) % 0x1_0000 == 0
      ensures pixelOffset < 0x1_0000 ==> offset == pixelOffset
    {
      pixelOffset % 0x1_0000
    }

    /** `setOffset`: a 16-bit value stored in the field; nothing else changes. */
    method SetOffset(offset: u16)
      modifies this`pixelOffset
      ensures pixelOffset == offset
      ensures GetOffset() == offset
    {
      pixelOffset := offset;
    }

    /**
     * `setBrightness`: record the level, rebuild every active display pixel
     * from its unscaled original with the divide-by-256 formula, and always
     * show.
     */
    method SetBrightness(brightness: u8)
      requires Valid()
      modifies this`currentBrightness, pixelBuffer, this`fifo
      ensures currentBrightness == brightness
      ensures forall i, c :: 0 <= i < actualNumberOfPixels && 0 <= c < 3 ==>
                pixelBuffer[i, c] == BrightnessLevel(originalBuffer[i, c], brightness)
      ensures forall i, c :: actualNumberOfPixels <= i < MaximumNumNeoPixels && 0 <= c < 3 ==>
                pixelBuffer[i, c] == old(pixelBuffer[i, c])
      ensures fifo == old(fifo) + FrameOf(Display())
    {
      currentBrightness := brightness;

      for i := 0 to actualNumberOfPixels
        invariant currentBrightness == brightness && fifo == old(fifo)
        invariant forall j, c :: 0 <= j < i && 0 <= c < 3 ==>
                    pixelBuffer[j, c] == BrightnessLevel(originalBuffer[j, c], brightness)
        invariant forall j, c :: i <= j < MaximumNumNeoPixels && 0 <= c < 3 ==>
                    pixelBuffer[j, c] == old(pixelBuffer[j, c])
      {
        pixelBuffer[i, RED] := BrightnessLevel(originalBuffer[i, RED], currentBrightness);
        pixelBuffer[i, GREEN] := BrightnessLevel(originalBuffer[i, GREEN], currentBrightness);
        pixelBuffer[i, BLUE] := BrightnessLevel(originalBuffer[i, BLUE], currentBrightness);
      }
      NeoPixelShow();
    }
  }
}
