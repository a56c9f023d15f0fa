# truffle_lights LED disc: a Dafny model

This project models the core of the driver for a disc of 61 WS2812B LEDs driven over SPI.
The disc is made of five concentric rings of 1, 8, 12, 16 and 24 LEDs.

- `colors.dfy` (module `Colors`) covers `led_color_t`, three byte channels, with its
  saturating `+` and `-`. It also covers the acceptance test that the random colour source
  applies to a drawn colour.
- `ws2812.dfy` (module `Ws2812`) holds the wire encoding.
  - Every colour bit becomes one SPI byte: `0b11100000` for a 1 and `0b10000000` for a 0.
  - Bits go most significant first, in channel order green, red, blue.
  - Both `encode_color` overloads are methods that fill a caller-supplied byte array at an
    offset, proved against the function `Encode`.
  - `EncodeFrame` concatenates the encodings of a frame's LEDs.
  - `Decode`/`DecodeFrame` are reference inverses. With them the model proves that the
    encoding loses nothing.
- `rings.dfy` (module `Rings`) covers ring addressing and the `LEDRing<N>` class.
  - Each ring's slice of the 61-slot frame comes from the prefix sums of the ring sizes, then
    both ends are mirrored (`start' = 61 - end`, `end' = 61 - start`).
  - The class is `LedRing`: a private colour buffer (an `array`), its start and end fields, a
    constructor that computes them with a loop, and `Update`. `Update` copies the buffer into
    its slice of the frame, then refills the buffer.
  - The pure functions `Paste`, `PasteRings` and `Compose` describe what the rings write.
    The lemmas about them prove that the five slices partition the frame.
- `controller.dfy` (module `Controller`) covers `LEDController` as a class.
  - Its fields are the frame buffer `leds` (an `array`) and `transferred`. `transferred` is
    the sequence of every byte buffer handed to the SPI transfer so far, the abstract byte sink
    that stands for the device.
  - `update_leds`, `set_all` and `off` are methods over these fields.
  - The body of the `run` loop is `RunIteration`: clear without sending, let the five rings
    update, then send.
  - `Run` is the loop itself, with one iteration per element of its `refills` parameter.

The random colour source is a parameter throughout. The colours a ring is created with
(`initial`) and the colours it is refilled with in each iteration (`refills`) are inputs to
the model. The stop flag of the render thread becomes the number of iterations.

## Model

| member | source | states |
|---|---|---|
| Colors.ToUint8 | ledcontrol.h:28 | `static_cast<uint8_t>` reduces modulo 256: a value already in 0..255 is unchanged, and in general the result is congruent to the argument modulo 256 |
| Colors.Add | ledcontrol.h:27-29 | each channel of `x + y` is the exact sum when it is at most 255 and 255 otherwise, and is at least each operand's channel (it never wraps) |
| Colors.Sub | ledcontrol.h:30-32 | each channel of `x - y` is the exact difference when it is not negative and 0 otherwise, and is at most `x`'s channel |
| Colors.Accepted | ledcontrol.cc:20-21 | a drawn colour is accepted exactly when its channels sum to at least 150 (integer average at least 50) |
| Colors.AddCommutes | ledcontrol.h:27-29 | `x + y == y + x` |
| Colors.AddBlackIsIdentity | ledcontrol.h:27-29 | adding black on either side leaves a colour unchanged |
| Colors.AddAbsorbsFull | ledcontrol.h:27-29 | a channel at 255 stays at 255 whatever is added to it |
| Colors.SubSelfIsBlack | ledcontrol.h:30-32 | `c - c` is black |
| Colors.SubBlackIsIdentity | ledcontrol.h:30-32 | subtracting black changes nothing, and black minus anything is black |
| Colors.AddAfterSub | ledcontrol.h:27-32 | `(x - y) + y` is the channel-wise maximum of `x` and `y` |
| Colors.SubAfterAdd | ledcontrol.h:27-32 | when no channel of `x + y` saturates, `(x + y) - y == x` |
| Colors.AddExample | ledcontrol.h:27-29 | red 200 plus red 100 gives red 255 |
| Ws2812.BitSet | ledcontrol.h:53-55 | the test `v & (1 << k)`, written as bit k of v being `(v / 2^k) % 2 == 1`; `Ws2812.BitSetMatchesAnd` proves it equal to the bitwise test |
| Ws2812.BitSetMatchesAnd | ledcontrol.h:53-55 | for k below 8, `BitSet(v, k)` holds exactly when `v & (1 << k)` is non-zero on the 8-bit value |
| Ws2812.BitByte | ledcontrol.h:53-55 | the byte written for bit k of v: HIGH when the bit is set, LOW otherwise; its properties are stated by `Ws2812.EncodeLayout` and `Ws2812.EncodeOnlyWaveformBytes` |
| Ws2812.EncodeChannel | ledcontrol.h:52-55 | one channel occupies exactly 8 SPI bytes |
| Ws2812.Encode | ledcontrol.h:51-57 | one colour occupies exactly 24 SPI bytes |
| Ws2812.EncodeOnlyWaveformBytes | ledcontrol.h:21-22 | every byte of an encoding is `0b11100000` or `0b10000000` |
| Ws2812.EncodeLayout | ledcontrol.h:53-55 | byte `i` is HIGH iff bit `7-i` of g is set, byte `8+i` iff bit `7-i` of r is set, byte `16+i` iff bit `7-i` of b is set |
| Ws2812.EncodeChannelBitwise | ledcontrol.h:53-55 | byte i of a channel's encoding is HIGH exactly when `v & (1 << (7 - i))` is non-zero |
| Ws2812.EncodeLayoutBitwise | ledcontrol.h:53-55 | the layout of `Ws2812.EncodeLayout` with the source's own bitwise test of g, r and b |
| Ws2812.DecodeBits | ledcontrol.h:52-55 | reading n SPI bytes as bits, MSB first, gives a value below `2^n` |
| Ws2812.Decode | ledcontrol.h:51-57 | the reference inverse of the encoding: bytes 0..7 read as green, 8..15 as red, 16..23 as blue; `Ws2812.DecodeEncode` proves it undoes `Encode` |
| Ws2812.DecodeChannelPrefix | ledcontrol.h:52-55 | the first n bytes of a channel's encoding read back as the channel's top n bits |
| Ws2812.DecodeEncodeChannel | ledcontrol.h:52-55 | a channel's 8 bytes read back as the channel value |
| Ws2812.DecodeEncode | ledcontrol.h:51-57 | decoding the 24 bytes (HIGH as 1, LOW as 0, MSB first, G R B) recovers the colour |
| Ws2812.EncodeInjective | ledcontrol.h:51-57 | two colours with the same 24 bytes are the same colour |
| Ws2812.EncodeRgb | ledcontrol.h:51-57 | the `(r, g, b)` overload writes exactly `Encode(Color(r, g, b))` into `buffer[offset..offset+24]` and leaves every other byte of the buffer unchanged |
| Ws2812.EncodeColor | ledcontrol.h:58-64 | the `led_color_t` overload writes exactly `Encode(c)` into the same 24 bytes and changes nothing else, so both overloads write the same bytes for the same channels |
| Ws2812.EncodeFrame | ledcontrol.h:128-131 | a frame of n LEDs encodes to 24n bytes |
| Ws2812.EncodeFrameAt | ledcontrol.h:129-131 | bytes `[24j, 24j+24)` of a frame's encoding are the encoding of LED j |
| Ws2812.DecodeFrame | ledcontrol.h:128-131 | reading 24 bytes per LED gives one colour per 24 bytes |
| Ws2812.DecodeEncodeFrame | ledcontrol.h:128-131 | decoding a frame's bytes recovers the whole frame |
| Ws2812.FrameFitsSpiBuffer | ledcontrol.h:122 | 61 x 24 is below the SPI buffer size 20480 |
| Ws2812.Pow2 | ledcontrol.h:53 | the bit weight `1 << k` is positive |
| Rings.PrefixSum | ledcontrol.cc:57-59 | the sum of the sizes of the rings before ring k, the unmirrored start; `Rings.PrefixSumMonotone` and `Rings.RingSizesCoverDisc` state its properties |
| Rings.SliceStart | ledcontrol.cc:64-66 | the mirrored start of ring k, 61 minus the unmirrored end; `Rings.SliceBounds`, `Rings.Layout` and `Rings.SlicesDisjoint` state its properties |
| Rings.SliceEnd | ledcontrol.cc:64-66 | the mirrored end of ring k, 61 minus the unmirrored start; `Rings.SliceBounds`, `Rings.Layout` and `Rings.SlicesDisjoint` state its properties |
| Rings.PrefixSumMonotone | ledcontrol.cc:57-59 | the start sum of an earlier ring is never greater than that of a later ring |
| Rings.RingSizesCoverDisc | ledcontrol.cc:36 | the five ring sizes add up to the LED count 61 |
| Rings.SliceBounds | ledcontrol.cc:57-66 | after mirroring, ring k's slice still has width N and lies within 0..61, so the bound that the constructor asserts holds |
| Rings.SlicesOrdered | ledcontrol.cc:63-66 | after mirroring, an outer ring's slice lies entirely below every inner ring's slice |
| Rings.SlicesDisjoint | ledcontrol.cc:57-66 | no index lies in the slices of two different rings |
| Rings.Layout | ledcontrol.cc:57-66 | the slices are [60,61), [52,60), [40,52), [24,40) and [0,24): the centre LED is index 60, the outer ring indices 0..23 |
| Rings.RingFrom | ledcontrol.cc:99-105 | searching outwards from ring k finds a ring at or beyond k whose slice holds the index |
| Rings.RingOf | ledcontrol.cc:99-105 | every frame index lies in the slice of some ring |
| Rings.Partition | ledcontrol.cc:99-105 | an index lies in some slice iff it is one of 0..60, and then in exactly one |
| Rings.RingOfSlot | ledcontrol.cc:76-78 | slot p of ring k's slice is owned by ring k |
| Rings.Paste | ledcontrol.cc:76-78 | inside the slice the result holds `buf[i - start]`, outside it the old frame's value |
| Rings.PasteRings | ledcontrol.cc:114-116 | the frame after rings 0..k-1 have written keeps the frame length |
| Rings.Compose | ledcontrol.cc:114-116 | the composed frame has one entry per LED |
| Rings.ComposeAt | ledcontrol.cc:114-116 | entry p of ring k's buffer lands at index `start'_k + p` of the composed frame |
| Rings.PasteRingsAt | ledcontrol.cc:114-116 | after k rings have written, an index holds its own ring's entry if that ring has already written, and its old value otherwise |
| Rings.PasteAllRings | ledcontrol.cc:112-116 | after the five rings have written, the frame is the composed frame whatever it held before: nothing from the clear survives |
| Rings.LedRing.constructor | ledcontrol.cc:56-71 | start/end are the prefix sum and prefix sum + N mirrored about 61, `end - start == N`, and the buffer holds the initial colours |
| Rings.LedRing.Update | ledcontrol.cc:76-84 | the frame becomes `Paste(old frame, start, old buffer)`, so the slice holds the buffer and every other index is unchanged, and the buffer now holds the refill colours |
| Controller.Solid | ledcontrol.h:139-141 | a frame of 61 copies of one colour |
| Controller.RenderedFrames | ledcontrol.cc:111-122 | one byte buffer per iteration of the loop |
| Controller.LedController.constructor | ledcontrol.h:103-109 | the SPI clock is `WS2812B_SPI_SPEED`; with the SPI device open the frame is black and exactly one black frame has been sent; otherwise nothing has been sent |
| Controller.LedController.UpdateLeds | ledcontrol.h:127-137 | appends exactly one buffer to the transfer log, the frame's encoding LED after LED, of 61 x 24 bytes, below the SPI buffer size |
| Controller.LedController.SetAll | ledcontrol.h:139-143 | all 61 entries become the colour; the frame is sent iff `no_update` is false |
| Controller.LedController.Off | ledcontrol.h:146-149 | all 61 entries become black and that frame is sent |
| Controller.LedController.StepRing | ledcontrol.cc:115 | ring k writes its buffer into its slice and takes the refill; the other rings keep their buffers |
| Controller.LedController.UpdateRings | ledcontrol.cc:114-116 | the rings write in order 0..4, giving `PasteRings(old frame, buffers, 5)`, and each ring then holds its refill |
| Controller.LedController.RunIteration | ledcontrol.cc:112-120 | after clear, ring updates and send, the frame is `Compose(buffers)` and exactly that frame's encoding was sent |
| Controller.LedController.MakeRings | ledcontrol.cc:99-105 | creates five rings with index k and size `ring_sizes[k]`, valid start/end and distinct buffers holding the initial colours |
| Controller.LedController.RenderLoop | ledcontrol.cc:111-122 | over n iterations it sends exactly `RenderedFrames`: in iteration m, the composed frame of the buffers held when that iteration began; afterwards the frame is the last iteration's composed frame (unchanged if there was none) and every ring holds its last refill |
| Controller.LedController.Run | ledcontrol.cc:97-125 | creates the rings and runs the loop, appending exactly `RenderedFrames(initial, refills)` to the transfer log; afterwards the frame is the last iteration's composed frame, or unchanged if there was no iteration |

## Left out

- Device I/O of spi.h: opening the device, `ioctl` negotiation and `close` are not modelled. A transfer is recorded by appending the buffer to `transferred`. A failed transfer only logs, so it is not modelled.
- Timing: the `usleep` after each transfer and the sleep in the render loop are not modelled.
- Concurrency and lifecycle: the render thread, the `should_run` flag, `shutdown` and `join` are left out. The loop runs one iteration per refill instead of until the flag is cleared.
- Controller.LedController.constructor: does not model starting the thread. With SPI closed, the source leaves the frame uninitialised, so the model promises nothing about the frame in that case.
- `operator*` and `operator/` of `led_color_t`, and the `0.2f` dimming of ring 4's refill, are left out because they are float arithmetic. The refills are given as the colours already dimmed.
- The random colour source (`generate_random_uint8`, `generate_random_color`) becomes the `initial` and `refills` parameters. Its reroll recursion has no termination bound, so only its acceptance test is modelled (`Colors.Accepted`).
- Rings.LedRing.Update: the refill colours are a parameter and are not constrained to pass the acceptance test, since ring 4 dims them afterwards.
- `printf`/`puts` logging and the `Count()`/`Index()` accessors are left out; they have no effect on the frame.
- The `led_action_t` struct is left out: it is plain data with no behaviour.
- The demo and test programs are not part of this model.
- `WS2812B_HIGH`/`WS2812B_LOW` are stored into a `char` buffer in the source. They are modelled as the unsigned bytes 224 and 128, the byte values handed to the transfer. The bit order in which the SPI device shifts a byte out is device configuration and is not modelled.
- Rings.LedRing.constructor: the `assert(end_idx <= LED_COUNT)` abort becomes a precondition. `Rings.SliceBounds` shows that all five rings of the disc meet it.
