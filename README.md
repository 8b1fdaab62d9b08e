# Rainbow LED pattern — a verified model

This project models the whole animation of `ld-framework/Pattern.cpp`. It drives
four pixels of an OctoWS2811 LED strip with a cycling rainbow. The model has three parts:

- `setLedColorHSV(h, s, v)` converts a hue, saturation and value (each one byte) to a
  colour packed as `R << 16 | G << 8 | B`. It uses integers only and a six-sector
  hexagon. This is module `Hsv` in `hsv.dfy`.
- `rainbowSetup` fills the global 256-entry table `hues` with
  `setLedColorHSV(i, 255, BRIGHTNESS)`, where `BRIGHTNESS = 50`.
- `Pattern::setup` zeroes the tick counter and builds the table. Each call of
  `Pattern::loop` writes pixels 1 to 4 from the table at `(offset + ticks) % 255` for
  the offsets 140, 170, 200 and 230. It then calls `show` once and increments `ticks`.

These last two parts are module `Animation` in `pattern.dfy`. The conversion is written
as pure functions. The table fill is a method over an `array`, with a loop invariant.
`Pattern` is a class with a `ticks` field. The LED strip is a `LedSink` object that records
every `setPixel` and `show` request in a ghost trace. This lets each frame be stated
exactly.

Integer widths. The library targets Teensy boards, where `int`, `unsigned int` and `long`
are 32 bits wide. Every intermediate up to the byte stores (lines 17-25) stays below
2^16, and the packed sum of lines 62-64 stays below 2^24 (`Hsv.Pack`), so nothing wraps
in 32 bits and the arithmetic is modelled with unbounded naturals. The only narrowing steps are the stores
back into a `byte` (the rescaled hue and `pv`, `qv`, `tv`). These are written out with
`ToByte` (`% 256`), and the contracts prove that none of them loses a bit. The switch always
meets one of its six cases, because the sector index is at most 5.

Facts the code gives that intuition does not:

- Hue 0 at full saturation and value gives `0xFF0100`, not pure red (255, 0, 0). The
  reason is `tv = 255 * (256 - 255 * 255 / 256) / 256 = 1`. The model follows the code.
  Hue 0 is pure red only for values below 128 (`Hsv.FirstHue`).
- Zero saturation is never an exact grey. For `v > 0`, pv is `v - 1` while qv and tv
  are `v`, so one channel is one below the other two. That channel is blue in sectors
  0-1, red in sectors 2-3 and green in sectors 4-5 (`Hsv.Unsaturated`).
- The arithmetic is not truncated to 8 bits at every step. Operands are promoted to
  `int`/`unsigned int`, and only the stores into `byte` variables narrow. Those stores
  never lose anything.
- The packing adds shifted channels with `+=`. The model packs with integer
  arithmetic, and `Hsv.UnpackPack` shows that the three fields do not overlap. As
  context, `Hsv.ShiftedChannelsAddAsOr` shows on 32-bit words that such an addition
  equals or-ing the fields.
- The table has 256 entries, but the index is taken `% 255`. So entry 255 is never
  read (`Animation.FrameIgnoresLastEntry`), and the animation repeats every 255 ticks.
  The model keeps the modulus as written.

## Model

| member | source | states |
|---|---|---|
| `Hsv.ScaledHue` | ld-framework/Pattern.cpp:17 | the rescaled hue is at most 191 and equals the exact quotient `h * 192 / 256`, so the byte store loses nothing |
| `Hsv.Sector` | ld-framework/Pattern.cpp:18 | the sector index is at most 5 and brackets the scaled hue, so the switch always assigns all three channels |
| `Hsv.Fraction` | ld-framework/Pattern.cpp:19 | the fraction is a multiple of 8 in 0..248 and, with the sector, rebuilds the scaled hue |
| `Hsv.Pv` | ld-framework/Pattern.cpp:21-23 | pv is at most `v`, the byte store is exact, and pv is 0 at full saturation |
| `Hsv.Cut` | ld-framework/Pattern.cpp:24-25 | `s * f / 256` and `s * fInv / 256` never exceed `s`, so `256 - cut` stays positive |
| `Hsv.ShadeBounds` | ld-framework/Pattern.cpp:23-25 | `v * (256 - cut) / 256` lies between pv and `v` |
| `Hsv.Shade` | ld-framework/Pattern.cpp:24-25 | the shared shape of `qv` (line 24, `Qv` with factor f) and `tv` (line 25, `Tv` with factor 255 - f): both lie between pv and `v`, so their byte stores are exact |
| `Hsv.QvFalls` | ld-framework/Pattern.cpp:24 | qv never grows as the fraction grows |
| `Hsv.TvRises` | ld-framework/Pattern.cpp:25 | tv never shrinks as the fraction grows |
| `Hsv.HsvToRgb` | ld-framework/Pattern.cpp:27-59 | every channel is at most `v`, one channel equals `v`, and the smallest channel is exactly pv |
| `Hsv.FractionMonotone` | ld-framework/Pattern.cpp:17-19 | a later hue in the same sector has a fraction at least as large |
| `Hsv.HueSweep` | ld-framework/Pattern.cpp:17-59 | moving the hue forward inside one sector changes only one channel, in the hexagon's direction for that sector |
| `Hsv.FullySaturatedHasDarkChannel` | ld-framework/Pattern.cpp:21-59 | at saturation 255 every colour has a channel at 0 and a channel at `v` |
| `Hsv.Pack` | ld-framework/Pattern.cpp:60-64 | the packed colour is below 2^24 |
| `Hsv.UnpackPack` | ld-framework/Pattern.cpp:60-65 | the channels read back from a packed colour are the packed ones (`rgb / 65536`, `(rgb / 256) % 256`, `rgb % 256`) |
| `Hsv.PackUnpack` | ld-framework/Pattern.cpp:60-65 | every value below 2^24 is the packing of its own channels |
| `Hsv.ShiftedChannelsAddAsOr` | ld-framework/Pattern.cpp:62-64 | context only, on 32-bit words: adding byte-sized channels shifted by 16, 8 and 0 gives the same word as or-ing them |
| `Hsv.SetLedColorHsv` | ld-framework/Pattern.cpp:11-66 | the result is below 2^24 and its three bytes are exactly the converted channels, so none exceeds `v` |
| `Hsv.FirstHue` | ld-framework/Pattern.cpp:17-33 | hue 0 at saturation 255 is sector 0: (v, 1, 0) for `v >= 128`, pure red below that |
| `Hsv.MiddleHue` | ld-framework/Pattern.cpp:17-48 | hue 128 at saturation 255 is sector 3: exact cyan (0, v, v) |
| `Hsv.LastHue` | ld-framework/Pattern.cpp:17-58 | hue 255 at saturation 255 is sector 5: (v, 0, v * 9 / 256) |
| `Hsv.Unsaturated` | ld-framework/Pattern.cpp:17-59 | at saturation 0 and any hue, with `low = v - 1` for `v > 0` (else 0): sectors 0-1 give (v, v, low), sectors 2-3 give (low, v, v), sectors 4-5 give (v, low, v), so never an exact grey; hue 0 packs to `v * 0x10100 + low` |
| `Hsv.FullBrightnessColours` | ld-framework/Pattern.cpp:11-66 | at value 255: hue 0 is 0xFF0100, hue 128 is 0x00FFFF, hue 255 is 0xFF0008, and hue 0 at saturation 0 is 0xFFFFFE |
| `Animation.HueTable` | ld-framework/Pattern.cpp:8 | the table has exactly 256 entries |
| `Animation.HueTableColours` | ld-framework/Pattern.cpp:70-73 | every entry is below 2^24, has no channel above 50, one channel at 0 and one at 50 |
| `Animation.HueTableEnds` | ld-framework/Pattern.cpp:70-73 | entry 0 is 0x320000 and entry 255 is 0x320001 |
| `Animation.RainbowSetup` | ld-framework/Pattern.cpp:68-74 | afterwards entry `i` is `setLedColorHSV(i, 255, 50)` whatever the array held before, so rebuilding gives an identical table |
| `Animation.FrameIndex` | ld-framework/Pattern.cpp:84-87 | every index read is below 255, so it is inside the 256-entry table |
| `Animation.FrameIndexExamples` | ld-framework/Pattern.cpp:84-87 | at tick 0 the indices are 140, 170, 200, 230; at tick 115 pixel 4 reads index 90 |
| `Animation.FrameIgnoresLastEntry` | ld-framework/Pattern.cpp:84-87 | two tables that differ only in entry 255 give the same frame: that entry is never read |
| `Animation.FrameIndexPeriodic` | ld-framework/Pattern.cpp:84-87 | each index read repeats after 255 ticks |
| `Animation.FramePeriodic` | ld-framework/Pattern.cpp:84-88 | the frame at tick `ticks + 255 * n` is the frame at tick `ticks` |
| `Animation.Frame` | ld-framework/Pattern.cpp:84-88 | one call of `loop` makes exactly five requests to the strip |
| `Animation.Frames` | ld-framework/Pattern.cpp:81-91 | the requests of `n` calls of `loop` (what `RunLoops` records) number exactly `5 * n` |
| `Animation.FrameShowsOnce` | ld-framework/Pattern.cpp:84-88 | one call of `loop` asks for exactly one `show`, so it makes four pixel writes |
| `Animation.ShowCountZero` | ld-framework/Pattern.cpp:88 | the number of `show` requests counted in a trace is zero exactly when no `Show` occurs in it |
| `Animation.FramesCount` | ld-framework/Pattern.cpp:81-91 | the requests of `n` calls of `loop` hold exactly `n` shows |
| `Animation.FramesAt` | ld-framework/Pattern.cpp:81-91 | in the requests of `n` consecutive calls, the `k`-th call's five are exactly the frame at tick `ticks + k` |
| `Animation.FrameColours` | ld-framework/Pattern.cpp:72-87 | once the table is built, `loop` writes only pixels 1 to 4, each with a colour at brightness 50 that has one channel off, taken from entries 0..254 of the table |
| `Animation.LedSink.SetPixel` | ld-framework/Pattern.cpp:84-87 | a pixel write appends exactly one `SetPixel` event to the trace |
| `Animation.LedSink.Show` | ld-framework/Pattern.cpp:88 | a show appends exactly one `Show` event to the trace |
| `Animation.Pattern.constructor` | ld-framework/Pattern.h:6 | the pattern keeps the strip it is given (and the shared table) |
| `Animation.Pattern.Setup` | ld-framework/Pattern.cpp:76-79 | `ticks` is 0, the table is exactly the rainbow table, and nothing is sent to the strip |
| `Animation.Pattern.Loop` | ld-framework/Pattern.cpp:81-91 | the trace grows by exactly `SetPixel(1..4, hues[(offset + ticks) % 255])` then `Show`, `ticks` grows by exactly 1, and the table is unchanged |
| `Animation.RunLoops` | ld-framework/Pattern.cpp:81-91 | `n` calls of `Pattern.Loop`: `ticks` grows by exactly `n`, the strip receives exactly `Frames` of the table from the starting tick, with `n` more shows, and the table is unchanged |

## Left out

- `delay((int)1000/fps)` (the frame pacing, `fps = 11`) is wall-clock timing with no state. It is omitted.
- The OctoWS2811 driver behind `setPixel` and `show` is a foreign hardware library. It is modelled only as a sink that records requests. What the strip displays is not modelled.
- Animation.Pattern.Loop: `ticks` is a `nat`. The source's `int ticks` would overflow after 2^31 frames. That is undefined behaviour in C++, and a negative counter would make `%` yield negative indices, so it is not modelled.
- Animation.Pattern.constructor: the source constructor leaves `ticks` uninitialised until `setup`. The model states nothing about `ticks` before `Setup`.
- The global `long hues[256]` is passed to the `Pattern` constructor as a shared array, because Dafny has no mutable globals. `Setup` fills it in place, as `rainbowSetup` does.
- Platforms with a 16-bit `int` (AVR) are not modelled. There `h * 192` and `RedLight << 16` would overflow. The model follows the 32-bit Teensy targets of the OctoWS2811 library.
- Animation.HueTable: its own contract states only the length. The contents are stated by `HueTableColours`, `HueTableEnds` and the `RainbowSetup` postcondition.
- Hsv.ShiftedChannelsAddAsOr: it is a fact about 32-bit words alone. No lemma connects it to `Pack`, because converting between integers and 32-bit words is beyond what the verifier proves here. The packing is modelled with integer arithmetic, and `UnpackPack` gives its field layout.
