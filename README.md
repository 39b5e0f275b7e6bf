# NeoPixelConnect in Dafny

A model of the non-hardware logic of the `NeoPixelConnect` Arduino class for
the Raspberry Pi Pico. The class drives a WS2812 ("NeoPixel") LED string
through a PIO state machine. The model covers:

- the class state: two `uint8_t[1024][3]` colour stores (`pixelBuffer`, what
  is transmitted, and `originalBuffer`, the unscaled colours), the active
  pixel count, the brightness and the offset field;
- every buffer method, as imperative Dafny over `array2<u8>` with the
  source's for-loops;
- `neoPixelShow`/`putPixel`, which append one 32-bit word per pixel to a
  ghost sequence standing for the PIO transmit FIFO;
- the pure colour arithmetic: `urgb_u32` packing, the byte unpacking at the
  top of `blendColors`, `ColorHSV`, and the three brightness formulas.

Files:

- `bits.dfy` (module `Bits`): `uint8_t`/`uint16_t`/`uint32_t` as bounded
  integers. C's `&` and `|` are defined bit by bit, the shifts `<<` and `>>`
  arithmetically. Two facts are proved about them: OR of non-overlapping
  fields is their sum, and AND with `2^k - 1` is the remainder modulo `2^k`.
- `colour.dfy` (module `Colour`): packing, unpacking, the FIFO word, the
  frame a show emits, and the brightness formulas.
- `hue.dfy` (module `Hue`): `ColorHSV` as written, and a corrected
  descending ramp beside it (see Findings).
- `neopixel.dfy` (module `NeoPixel`): the class `NeoPixelConnect`.
- `scenarios.dfy` (module `Scenarios`): short call sequences on one strip
  and the states they end in.

Where the code departs from what one might expect of it, the model follows
the code:

- One might expect `display == floor(original * brightness / 255)` after
  every mutation. The code does not keep this:
  - `neoPixelFill` rounds up (`c - c*(255-b)/255`).
  - `setBrightness` divides by 256 (`(o*b) >> 8`), so `setBrightness(255)`
    turns 255 into 254 (`Scenarios.FullBrightnessDims`).
  - `neoPixelFill` and `neoPixelClear` never write `originalBuffer`, so the
    next `setBrightness` rebuilds the display from the colours last given to
    `neoPixelSetValue` (`Scenarios.FillIsForgotten`).
  - So `fill(255,0,0,false)` followed by `setBrightness(128)` does not give
    `(127,0,0)` on every pixel. A pixel shows `(127,0,0)` only when its
    `originalBuffer` row maps there under `(o*128) >> 8`, i.e. a row of
    (254 or 255, 0 or 1, 0 or 1), for example one set by `neoPixelSetValue`
    to `(255,0,0)` (`Scenarios.HalfBrightnessRed`). After a fill alone the
    result depends on whatever `originalBuffer` holds.
- Nothing in the code initialises `originalBuffer` or `pixelOffset`, so the
  model leaves both unconstrained after construction.
- `neoPixelInit` has no capacity check and `neoPixelSetValue` no index
  check. The model makes `numberOfPixels <= 1024` and
  `pixelNumber < actualNumberOfPixels` preconditions.

C semantics the model makes explicit:

- `uint8_t` arithmetic is promoted to `int` before it is stored back.
- The 32-bit shift in `putPixel` would lose bits above bit 31. It cannot
  here, because the packed value is below 2^24 (`Colour.WireWord`).
- In `ColorHSV`'s descending ramps the left operand of `>> 8` can be
  negative. Right-shifting a negative `int` is implementation-defined in C.
  The model takes GCC on ARM's arithmetic shift, which is floor division by
  256 (Dafny's `/` with a positive divisor), so one `Bits.ShiftRight` serves
  both signs. The result is then truncated to
  `uint8_t` modulo 256.
- `getOffset` returns the `uint` field as `uint16_t`, i.e. its low 16 bits.

## Model

| member | source | states |
|---|---|---|
| Bits.ShiftLeft | src/NeoPixelConnect.cpp:158 | `x << k` on a `uint32_t` is x·2^k modulo 2^32: bits past bit 31 are lost, and a shift that loses none is exactly a multiplication by 2^k |
| Bits.BitAnd | src/NeoPixelConnect.cpp:229-231 | bitwise `&` on non-negative integers, never above either operand |
| Bits.BitOr | src/NeoPixelConnect.cpp:148-150 | bitwise `\|` on non-negative integers, at least each operand and at most their sum |
| Bits.AndLowMask | src/NeoPixelConnect.cpp:229-231 | `x & (2^k - 1)` equals `x % 2^k`, so `& 0xFF` keeps exactly the low byte |
| Bits.OrDisjoint | src/NeoPixelConnect.cpp:148-150 | ORing a value whose low k bits are clear with a value below 2^k gives their sum |
| Colour.UrgbU32 | src/NeoPixelConnect.cpp:146-151 | the packed colour always fits in 24 bits |
| Colour.UrgbU32IsCExpression | src/NeoPixelConnect.cpp:146-151 | the packing equals `((uint32_t)r << 8) \| ((uint32_t)g << 16) \| (uint32_t)b` computed with 32-bit shifts and bitwise OR |
| Colour.OrOfFields | src/NeoPixelConnect.cpp:148-150 | the two ORs of the byte fields at bits 8, 16 and 0 add them |
| Colour.UnpackColorIsCExpression | src/NeoPixelConnect.cpp:229-231 | the channel extraction equals `(w >> 8) & 0xFF`, `(w >> 16) & 0xFF` and `w & 0xFF` |
| Colour.UnpackPack | src/NeoPixelConnect.cpp:229-235 | unpacking a packed colour gives back exactly the packed (r, g, b) |
| Colour.UnpackColor | src/NeoPixelConnect.cpp:229-235 | red comes from bits 8-15, green from bits 16-23 and blue from bits 0-7: put back in place the three channels give the word modulo 2^24, so repacking clears only the top byte |
| Colour.PackInjective | src/NeoPixelConnect.cpp:146-151 | distinct colours pack to distinct words |
| Colour.WireWord | src/NeoPixelConnect.cpp:155-158 | the queued word `urgb_u32(...) << 8` is G·2^24 + R·2^16 + B·2^8: green first, then red, then blue, low byte zero, no bit lost |
| Colour.WireWordFields | src/NeoPixelConnect.cpp:155-158 | each byte of the queued word reads back as green, red, blue and zero |
| Colour.WireWordInjective | src/NeoPixelConnect.cpp:155-158 | the queued word determines the pixel colour |
| Colour.FrameOf | src/NeoPixelConnect.cpp:129-140 | a show of n pixels emits exactly n words |
| Colour.FrameOfAt | src/NeoPixelConnect.cpp:129-140 | word k of a frame is the wire word of pixel k, so words come in index order |
| Colour.FrameGrows | src/NeoPixelConnect.cpp:133-139 | one loop iteration of the show appends exactly the next pixel's wire word |
| Colour.FrameInjective | src/NeoPixelConnect.cpp:129-140 | a frame determines the displayed colours it was made from |
| Colour.SetValueLevel | src/NeoPixelConnect.cpp:80-82 | `(c * b) / 255` is the floor of c·b/255, never above c, and equal to c at brightness 255 |
| Colour.FillLevel | src/NeoPixelConnect.cpp:118-120 | `c - (c * (255 - b)) / 255` is the ceiling of c·b/255, never above c, equal to c at brightness 255 and 0 for c = 0 |
| Colour.FillIsCeiling | src/NeoPixelConnect.cpp:118-120 | the subtracted quotient lies in [0, c] and leaves the ceiling of c·b/255 |
| Colour.BrightnessLevel | src/NeoPixelConnect.cpp:220-222 | `(o * b) >> 8` is the floor of o·b/256, never above o and never 255 |
| Colour.FillAtMostOneAboveSetValue | src/NeoPixelConnect.cpp:118-120 | the fill value is the set-value value or one more, equal exactly when 255 divides c·b |
| Colour.BrightnessAtMostOneBelowSetValue | src/NeoPixelConnect.cpp:220-222 | the brightness value is the set-value value or one less |
| Colour.FormulasDisagree | src/NeoPixelConnect.cpp:80-82 | set-value keeps 255 at brightness 255 where set-brightness gives 254; for c = 1 at brightness 128 set-value gives 0 and fill gives 1 |
| Bits.ShiftRight | src/NeoPixelConnect.cpp:186-188 | `x >> k` is the floor of x/2^k, negative operands included, and is non-negative for a non-negative x |
| Hue.ToU8 | src/NeoPixelConnect.cpp:177 | storing an `int` into a `uint8_t` keeps its value modulo 256, and keeps it unchanged when it is in range |
| Hue.Rise | src/NeoPixelConnect.cpp:181 | the ascending ramp `(d * 2) >> 8` (also lines 190 and 201) is d/128, at most 170, on every offset within a sector |
| Hue.FallAsWritten | src/NeoPixelConnect.cpp:186-188 | the descending ramp as C parses it (also line 195) is 0 for offsets below 128 and 256 - d/128 after that, once stored in a `uint8_t` |
| Hue.FallIntended | src/NeoPixelConnect.cpp:186-188 | the descending ramp with the shift done first is 255 - d/128 |
| Hue.HueToRgb | src/NeoPixelConnect.cpp:177-203 | one channel is always 255; below 0x5555 red is full, blue 0 and green hue/128; up to 0xAAAA green is full and blue the offset/128; up to 0xFFFF red is 0 and blue full; 0xFFFF is pure blue |
| Hue.ColorHsv | src/NeoPixelConnect.cpp:175-205 | total on every 16-bit hue; the result fits in 24 bits and unpacks to the sector colour |
| Hue.RiseBounds | src/NeoPixelConnect.cpp:181 | the ascending ramp `(d * 2) >> 8` starts at 0, never falls, and stays at or below 170 within a sector |
| Hue.FallAsWrittenVersusIntended | src/NeoPixelConnect.cpp:186-188 | the descending ramp as C parses it is 0 for the first 128 offsets and one above `0xFF - ((d * 2) >> 8)` after that |
| Hue.HueZeroIsRed | src/NeoPixelConnect.cpp:178-183 | hue 0 is (255, 0, 0), packed as 0x00FF00 |
| Hue.HueGreenStartIsGreen | src/NeoPixelConnect.cpp:184-190 | hue 0x5555 is (0, 255, 0), packed as 0xFF0000 |
| Hue.LastHueIsBlue | src/NeoPixelConnect.cpp:197-202 | hue 0xFFFF is (0, 0, 255), packed as 0x0000FF |
| Hue.RedRamp | src/NeoPixelConnect.cpp:178-183 | below 0x5555: red 255, blue 0, green = hue/128, at most 170 |
| Hue.GreenRamp | src/NeoPixelConnect.cpp:184-190 | from 0x5555 below 0xAAAA: green 255, blue = offset/128, at most 170, red given by the as-written fall |
| Hue.BlueRamp | src/NeoPixelConnect.cpp:191-196 | from 0xAAAA below 0xFFFF: red 0, blue 255, green given by the as-written fall |
| Hue.RampJumpsAsWritten | src/NeoPixelConnect.cpp:186-188 | neighbouring hues 0x55D4 and 0x55D5 have red 0 and red 255 |
| Hue.HueToRgbIntended | src/NeoPixelConnect.cpp:184-196 | the sector colour with both descending ramps corrected: one channel always 255, red 255 - offset/128 on the second sector, green 255 - offset/128 on the third |
| Hue.IntendedRampIsSmooth | src/NeoPixelConnect.cpp:186-188 | with the shift done before the subtraction, each step to the next hue in a sector changes every channel by at most one, and the falling channel never rises |
| NeoPixel.NeoPixelConnect.constructor | src/NeoPixelConnect.cpp:22-27 | sets the pixel count, brightness 255 and an all-off display for the active pixels, and queues one frame of it |
| NeoPixel.NeoPixelConnect.NeoPixelInit | src/NeoPixelConnect.cpp:43-63 | records the pixel count, zeroes every active display channel (the fill formula with 0), leaves other rows alone, and shows once |
| NeoPixel.NeoPixelConnect.NeoPixelSetValue | src/NeoPixelConnect.cpp:72-88 | the original row becomes (r, g, b) exactly; the display row becomes the set-value scaling of it; every other row of both buffers is unchanged; a frame is queued only when autoShow is set |
| NeoPixel.NeoPixelConnect.NeoPixelClear | src/NeoPixelConnect.cpp:92-105 | every active display channel becomes 0; inactive rows and `originalBuffer` are unchanged; a frame is queued only when autoShow is set |
| NeoPixel.NeoPixelConnect.NeoPixelFill | src/NeoPixelConnect.cpp:112-126 | every active display pixel becomes the fill scaling of (r, g, b); inactive rows and `originalBuffer` are unchanged; a frame is queued only when autoShow is set |
| NeoPixel.NeoPixelConnect.NeoPixelShow | src/NeoPixelConnect.cpp:129-140 | appends exactly the frame of the active display, one wire word per pixel in index order, and changes no buffer |
| NeoPixel.NeoPixelConnect.PutPixel | src/NeoPixelConnect.cpp:155-158 | appends the given word shifted left by 8 to the FIFO and changes nothing else |
| NeoPixel.NeoPixelConnect.GetOffset | src/NeoPixelConnect.cpp:169-173 | returns the field's low 16 bits: the field itself whenever it fits in 16 bits |
| NeoPixel.NeoPixelConnect.SetOffset | src/NeoPixelConnect.cpp:207-211 | stores the offset, so a following get returns it unchanged; nothing else changes |
| NeoPixel.NeoPixelConnect.SetBrightness | src/NeoPixelConnect.cpp:213-225 | records the level, rebuilds every active display channel from `originalBuffer` with `(o * b) >> 8`, leaves other rows and `originalBuffer` alone, and always shows |
| Scenarios.HalfBrightnessRed | src/NeoPixelConnect.cpp:213-225 | on three pixels, red set on pixel 0 then brightness 128 gives (127, 0, 0), whose frame word is 0x007F0000 |
| Scenarios.FillIsForgotten | src/NeoPixelConnect.cpp:112-126 | after a set to red and a fill with green, brightness 128 shows the red again, as (127, 0, 0) |
| Scenarios.FullBrightnessDims | src/NeoPixelConnect.cpp:220-222 | a channel set to 255 at the default brightness drops to 254 after `setBrightness(255)` |
| Scenarios.ShowTwice | src/NeoPixelConnect.cpp:129-140 | two shows with no change between them queue the same frame twice |

## Left out

- `recalculateClock`: float arithmetic on the system clock frequency and a
  hardware clock-divider call.
- PIO program loading, state-machine setup and the `delay(1)` in
  `neoPixelInit`: hardware calls with no effect on the modelled state.
- `pio_sm_put_blocking` in `putPixel`: the blocking on a full FIFO is not
  modelled. The FIFO is an unbounded ghost sequence of every word queued.
  The bit timing and the reset gap between frames are the state machine's
  work and are not modelled.
- The second constructor's `pio` and `sm` arguments only select hardware,
  so one constructor stands for both.
- The interpolation in `blendColors`: it uses a `float` ratio, and
  converting an out-of-range float to `uint8_t` is undefined. Only its
  integer unpacking and repacking are modelled (`Colour.UnpackColor`).
- The initial contents of `originalBuffer`, of the `pixelBuffer` rows past
  the active count, and of `pixelOffset`: the source never initialises them,
  and the model assumes nothing about them.
- `NeoPixel.NeoPixelConnect.GetOffset`: the field's C type `uint` is taken
  to be 32 bits wide, as it is on the RP2040.

## Findings

| source | as written | input that shows it | evidently intended | confidence | as-written member | corrected member |
|---|---|---|---|---|---|---|
| src/NeoPixelConnect.cpp:186-188 | `0xFF - ((hue - 0x5555) * 2) >> 8`: C parses this as `(0xFF - 2d) >> 8`, so the red ramp is 0 for the first 128 offsets, then jumps to 255 and falls from there (the green ramp at line 195 is the same) | hue 0x55D4 gives red 0, and hue 0x55D5 gives red 255 | `0xFF - ((2d) >> 8)`, falling by one every 128 hues | medium, not executed | Hue.RampJumpsAsWritten | Hue.HueToRgbIntended, Hue.IntendedRampIsSmooth |
