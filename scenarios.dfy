/**
 * Call sequences a sketch makes on one strip, with the buffer contents and
 * FIFO words they end in. They show the consequences of the three scaling
 * formulas and of `originalBuffer` being written only by
 * `neoPixelSetValue`.
 */
module Scenarios {
  import opened Bits
  import opened Colour
  import opened NeoPixel

  /**
   * Three pixels, pixel 0 set to full red, then brightness 128: pixel 0 is
   * rebuilt from its original as (127, 0, 0), and the frame queued by the
   * brightness change starts with the word 0x007F0000 (green byte 0, red
   * byte 0x7F, blue byte 0, low byte 0).
   */
  method HalfBrightnessRed() returns (np: NeoPixelConnect)
    ensures np.Valid() && np.actualNumberOfPixels == 3 && np.currentBrightness == 128
    ensures PixelAt(np.originalBuffer, 0) == Rgb(255, 0, 0)
    ensures PixelAt(np.pixelBuffer, 0) == Rgb(127, 0, 0)
    ensures |np.fifo| >= 3 && np.fifo[|np.fifo| - 3] == 0x007F_0000
  {
    np := new NeoPixelConnect(0, 3);
    np.NeoPixelSetValue(0, 255, 0, 0);
    np.SetBrightness(128);
    FrameOfAt(np.Display(), 0);
  }

  /**
   * A fill does not survive a brightness change: after setting pixel 0 to
   * red and filling the strip with green, `setBrightness` rebuilds pixel 0
   * from the red it was last set to.
   */
  method FillIsForgotten() returns (np: NeoPixelConnect)
    ensures np.Valid() && np.actualNumberOfPixels == 1
    ensures PixelAt(np.pixelBuffer, 0) == Rgb(127, 0, 0)
  {
    np := new NeoPixelConnect(0, 1);
    np.NeoPixelSetValue(0, 255, 0, 0);
    np.NeoPixelFill(0, 255, 0, false);
    assert PixelAt(np.originalBuffer, 0) == Rgb(255, 0, 0);
    np.SetBrightness(128);
    assert np.pixelBuffer[0, RED] == BrightnessLevel(255, 128) == 127;
    assert np.pixelBuffer[0, GREEN] == BrightnessLevel(0, 128) == 0;
  }

  /**
   * Brightness 255 through `setBrightness` is not the identity: a channel
   * set to 255 at the default brightness is displayed as 255, and as 254
   * once `setBrightness(255)` rescales it.
   */
  method FullBrightnessDims() returns (np: NeoPixelConnect)
    ensures np.Valid() && np.currentBrightness == 255
    ensures PixelAt(np.pixelBuffer, 0) == Rgb(254, 254, 254)
  {
    np := new NeoPixelConnect(0, 1);
    np.NeoPixelSetValue(0, 255, 255, 255);
    assert PixelAt(np.pixelBuffer, 0) == Rgb(255, 255, 255);
    np.SetBrightness(255);
  }

  /**
   * Showing twice with no change in between queues the same frame twice:
   * a show changes no buffer.
   */
  method ShowTwice(np: NeoPixelConnect)
    requires np.Valid()
    modifies np`fifo
    ensures np.fifo == old(np.fifo) + FrameOf(np.Display()) + FrameOf(np.Display())
  {
    np.NeoPixelShow();
    np.NeoPixelShow();
  }
}
