# Thermal camera rendering core, modelled in Dafny

The script `examples/example/mytest.py` reads 32×24 temperature frames from an
MLX90640 sensor and shows them on a 128×128 Waveshare OLED. Between the sensor
read and the display push it does some pure work, and this project models it:

- `Config`: the script's constants: `MINTEMP` = 20, `MAXTEMP` = 50, 32×24 sensor, `COLORDEPTH` = 1000.
- `Scale`: `constrain`, `map_value`, and Python's `int()` applied to a float (truncation toward zero).
- `Palette`: `gaussian`, `gradient` and the `colormap` comprehension. The exponential is a parameter `exp: real -> real`, so every result holds whatever `math.exp` returns.
- `Render`: the temperature-to-index expression and `frame_to_rgb_pixels`. The latter is a method over arrays that fills a preallocated list of 768 slots, each initially `None`.
- `FrameStats`: `min(frame)`, `max(frame)` and the centre element `frame[(SRC_H // 2) * SRC_W + SRC_W // 2]`.
- `Rate`: the exponential smoothing of `fps`.
- `Acquisition`: the main `while True` loop as a class. The class holds `fps`, `last`, the frame buffer that `getFrame` fills in place, and the palette. `Step` models one iteration, given the clock reading `t0` and the read outcome (a `ValueError` or a frame). `Run` runs the loop over a finite trace of iterations.

Python floats are modelled as Dafny `real`. Indices and colour channels are `int`.
The index and channel bounds come from clamping and index arithmetic alone, so they do not depend on rounding.
The other results are facts about order (`min`, `max`), exact geometric decay (the fps smoothing) and traces of loop iterations.

The script never validates its configuration:
- It never checks at start-up that `MINTEMP != MAXTEMP`. With equal bounds `map_value` would raise `ZeroDivisionError`. The script's constants differ, so this never happens.
- It does not reject an empty anchor list. The sums are lazy generators, so an empty list performs no division and gives black. `Palette.Gradient` models exactly that.

## Model

| member | source | states |
|---|---|---|
| `Scale.Constrain` | examples/example/mytest.py:49-50 | The result is at most `hi`. When `lo <= hi` it lies in `[lo, hi]`. An in-range value is returned unchanged. Values below `lo` go to `lo` and values above `hi` go to `hi`. |
| `Scale.ConstrainMonotone` | examples/example/mytest.py:49-50 | Clamping is non-decreasing in the value. |
| `Scale.MapValue` | examples/example/mytest.py:52-53 | The result satisfies the linear relation `(r - outMin)(inMax - inMin) = (x - inMin)(outMax - outMin)`. `inMin` maps to `outMin` and `inMax` maps to `outMax`. Equal input bounds (a division by zero in the source) are excluded. |
| `Scale.MapValueMonotone` | examples/example/mytest.py:52-53 | With `inMin < inMax` and `outMin <= outMax`, the map is non-decreasing in `x`. |
| `Scale.Trunc` | examples/example/mytest.py:96 | `int()` truncates toward zero. For `x >= 0` the result is the floor (non-negative, `r <= x < r + 1`). For negative `x` it is the ceiling. |
| `Scale.TruncMonotone` | examples/example/mytest.py:96 | Truncation is non-decreasing. |
| `Palette.ToChannel` | examples/example/mytest.py:64-66 | `int(constrain(v, 0, 255))` is a channel in `[0, 255]` for every real `v`. It is `v` truncated when `v` is in range, 0 below the range and 255 above it. |
| `Palette.Gaussian` | examples/example/mytest.py:55-56 | No contract. Defines `a * exp(-(x - b)^2 / (2 c^2)) + d`, with the exponential passed in as a parameter; `c != 0` is required. |
| `Palette.GaussianSum` | examples/example/mytest.py:60-62 | No contract. Defines one channel's `sum(gaussian(...) for p in cmap)`: the sum over the anchors of the Gaussian centred at `pos * width` with the shared spread. |
| `Palette.Gradient` | examples/example/mytest.py:58-67 | For any exponential, any position and any anchors, each of the three channels is an integer in `[0, 255]`. With no anchors the colour is black. |
| `Palette.Colormap` | examples/example/mytest.py:69 | The palette has exactly `COLORDEPTH` entries, and every channel is in `[0, 255]`, whatever the Gaussian sums are. Entry `i` is the gradient at `i` over width `COLORDEPTH` with the heat map and spread 1. |
| `Render.TempToIndex` | examples/example/mytest.py:96 | For every real temperature, however far outside `[MINTEMP, MAXTEMP]`, the index lies in `[0, COLORDEPTH - 1]`. So `colormap[idx]` never goes out of bounds. |
| `Render.TempToIndexSaturates` | examples/example/mytest.py:96 | `MINTEMP` and everything colder give index 0. `MAXTEMP` and everything hotter give `COLORDEPTH - 1`. |
| `Render.TempToIndexMonotone` | examples/example/mytest.py:96 | The index is non-decreasing in the temperature. |
| `Render.TempToIndexAt25` | examples/example/mytest.py:96 | 25 °C selects palette entry 166. |
| `Render.RenderedFrame` | examples/example/mytest.py:92-98 | The output list has `SRC_W*SRC_H` slots. Slot `i` holds `colormap[index(frame_vals[i])]` for each reading `i`. Slots past the last reading stay `None`. |
| `Render.FullFrameIsColoured` | examples/example/mytest.py:92-98 | For a full frame and a valid palette, every slot holds a valid colour. |
| `Render.UniformFrame` | examples/example/mytest.py:92-98 | A frame of one uniform temperature renders to one uniform palette colour. |
| `Render.FrameToRgbPixels` | examples/example/mytest.py:92-98 | The enumerate loop fills a newly allocated array of `SRC_W*SRC_H` slots. Position `i` receives the colour of reading `i`. No other position is touched, and the array equals `RenderedFrame`. |
| `FrameStats.CentreIndex` | examples/example/mytest.py:133 | For positive dimensions, `(h // 2) * w + w // 2` lies in `[0, w*h)`. It is the element at row `h // 2`, column `w // 2`. |
| `FrameStats.SensorCentre` | examples/example/mytest.py:133 | The centre index of the 32×24 sensor is 400. |
| `FrameStats.SeqMin` | examples/example/mytest.py:131 | `min` of a non-empty list is an element of the list and is no greater than any element. |
| `FrameStats.SeqMax` | examples/example/mytest.py:132 | `max` of a non-empty list is an element of the list and is no smaller than any element. |
| `FrameStats.Summarise` | examples/example/mytest.py:131-133 | `tmin` and `tmax` are readings of the frame and bound every reading. `tcenter` is the centre reading. `tmin <= tcenter <= tmax`. |
| `Rate.NextFps` | examples/example/mytest.py:112-114 | When `dt <= 0`, fps is unchanged. When `dt > 0` and fps is 0, fps becomes `1/dt`. Otherwise the distance to `1/dt` shrinks to 0.9 of what it was. |
| `Rate.NextFpsFixedPoint` | examples/example/mytest.py:114 | `1/dt` is a fixed point of the update for a constant `dt`. |
| `Rate.NextFpsBetween` | examples/example/mytest.py:114 | A positive estimate stays positive and lands between its old value and `1/dt`. |
| `Rate.IterateConverges` | examples/example/mytest.py:112-114 | From a positive estimate, after `k` frames `dt` apart, the distance to `1/dt` is `0.9^k` times the initial distance. |
| `Rate.IterateFromZero` | examples/example/mytest.py:112-114 | Starting from fps 0 with frames `dt > 0` apart, fps equals `1/dt` after every frame from the first on. |
| `Rate.IterateFixedPoint` | examples/example/mytest.py:114 | Once fps is `1/dt`, a constant `dt` keeps it there for any number of frames. |
| `Acquisition.NextRate` | examples/example/mytest.py:104-115 | A `ValueError` read leaves `fps` and `last` unchanged. A successful read sets `last` to `t0` and updates fps by the rule with `dt = t0 - last`, guarded by `dt > 0`. |
| `Acquisition.RunRate` | examples/example/mytest.py:104-115 | No contract. The `fps`/`last` state after folding `NextRate` over the trace, one iteration at a time. |
| `Acquisition.RunOutcomes` | examples/example/mytest.py:104-133 | No contract. What the loop yields over the trace: one render per successful read, interleaved in trace order, nothing for a failed read. |
| `Acquisition.LastFrame` | examples/example/mytest.py:106-107 | No contract. The frame buffer after the trace: each successful read overwrites it, and a failed read leaves it alone. |
| `Acquisition.Successful` | examples/example/mytest.py:106-109 | The iterations whose read succeeded. Every kept iteration is a successful one from the trace, and every successful iteration of the trace is kept. |
| `Acquisition.SuccessfulAppend` | examples/example/mytest.py:106-109 | Appending an iteration to a trace appends it to the successful ones exactly when its read succeeded. So the successful iterations keep the trace's order. |
| `Acquisition.RendersOf` | examples/example/mytest.py:117-133 | For a list of successful iterations, entry `k` is the render of iteration `k`: its colour list and its min/max/centre statistics. |
| `Acquisition.RunOutcomesAreRenders` | examples/example/mytest.py:104-133 | What the loop yields over a trace, one render per successful read in trace order, is the list of renders of the successful iterations. |
| `Acquisition.LastFrameIsLastSuccess` | examples/example/mytest.py:106-109 | After a trace, the frame buffer holds the frame of the last successful read. If no read succeeded, the buffer is untouched. |
| `Acquisition.FailedReadsInvisible` | examples/example/mytest.py:106-115 | Deleting the failed reads from any trace leaves the final `fps` and `last` unchanged. |
| `Acquisition.FailuresOnlyKeepState` | examples/example/mytest.py:106-109 | A trace of only failed reads leaves the estimator state as it was. |
| `Acquisition.SteadyTraceFps` | examples/example/mytest.py:112-115 | Over frames arriving every `dt`, the loop's fps follows the smoothing recurrence with that constant `dt`. |
| `Acquisition.SteadyTraceSettles` | examples/example/mytest.py:112-115 | Starting from fps 0, frames arriving every `dt > 0` make the loop read exactly `1/dt` from the first frame on. |
| `Acquisition.ThermalLoop.constructor` | examples/example/mytest.py:90-101 | Initial state: the frame buffer is 768 zeros, `last` is the start time, fps is 0, and the palette is `Colormap`. |
| `Acquisition.ThermalLoop.Step` | examples/example/mytest.py:104-133 | A failed read skips the iteration, leaving fps, last and the frame buffer unchanged. A successful read fills the buffer with the frame and updates the estimator per `NextRate`. It then yields the rendered colour list and the min/max/centre statistics of that frame. |
| `Acquisition.ThermalLoop.Run` | examples/example/mytest.py:103-133 | Over a trace of iterations, the loop renders exactly once per successful read, in order. Render `k` is the colour list and statistics of the `k`-th successful frame. The buffer ends holding the last successful frame, or unchanged if no read succeeded. The estimator ends in the state `RunRate` gives for the trace. |

## Left out

- Module path setup and imports (lines 7-17) are environment plumbing.
- OLED, I2C and MLX90640 bring-up (lines 72-74, 84-88) and `getFrame` itself (line 107) are foreign driver calls. A read is an input to `Step`: either a `ValueError` or a full frame of 768 readings.
- Step: a `getFrame` that writes part of the buffer and then raises `ValueError` is modelled as leaving the buffer unchanged. The driver's code is not part of this model.
- Font loading and its fallback (lines 77-80) are file and library calls.
- The PIL work (`Image.new`, `putdata`, `resize(..., Image.NEAREST)`, `paste`, `ImageDraw.text`, lines 119-135) happens inside a library whose code is not part of this model. So the nearest-neighbour upsampling and the canvas composition are not modelled.
- The f-string formatting of the overlay text (lines 134-135) is presentation only.
- The display push, the `time.sleep` throttle, the `time.monotonic` clock and the `KeyboardInterrupt` shutdown (lines 100, 105, 138, 141, 143-145) are I/O, timing and signals. The clock reading `t0` is a parameter of `Step`. The endless `while True` is modelled by `Run` over a finite trace.
- Palette.Gaussian: `math.exp` is a parameter rather than the real exponential, so the palette's actual colours are not computed. Only the length and channel bounds are proved, and they hold for every exponential.
- Floating point: rounding, infinities and NaN are not modelled. Arithmetic is exact over `real`, so `min`/`max` with NaN readings and rounding in the smoothing are outside the model.
- Scale.MapValue: requires `inMin != inMax`. With equal bounds Python raises `ZeroDivisionError` (line 53), and that exception is not modelled. The only caller (line 96) passes 20 and 50.
- Palette.Gradient: requires `spread != 0` and `width != 0` when there is an anchor. Otherwise Python raises `ZeroDivisionError` (lines 56, 60-62), and that exception is not modelled. The only call site (line 69) uses width 1000 and the default spread 1. `Palette.Gaussian` and `Palette.GaussianSum` carry the matching requires (`c != 0`, and `sigma != 0` when there is an anchor).
- Render.FrameToRgbPixels: an input longer than 768 readings makes `out[i]` raise `IndexError` in the source. The method requires at most 768 readings instead of modelling that exception.
