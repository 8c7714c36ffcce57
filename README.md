# periph-demos in Dafny: option checks, the APA102 render loop and the solid-colour buffer

This project models the parts of two APA102 LED-strip demo programs that have
logic of their own, and proves properties of that model.

- **The animation program** (`apa102/diadelosmuertos`). At startup it checks its
  options in a fixed order: no positional arguments, intensity 1–255,
  temperature 0–65535, pixel count 1–10000 and frame rate 1–200. It then
  chooses the pattern source: a file (`-f`) or an inline JSON string (`-r`),
  exactly one of the two. Its render loop `runLoop` sizes a frame of
  `numLights` colours and a byte buffer of `3*numLights` from the display
  width. It ticks every `1s / fps`. On each iteration it renders the pattern at
  the elapsed time in milliseconds, truncated to `uint32`. It then converts the
  frame into the byte buffer and writes the buffer to the display. The first
  failing write ends the loop, and that write's error is returned.
- **The clock program** (`apa102/clock`). Its startup checks only reject
  positional arguments, intensity above 255 and temperature above 65535.
  `randomBufArray` splits a 24-bit colour into its R, G and B bytes and fills a
  `3*n` byte buffer with that triple. The once-a-second loop writes such a
  buffer. A failed write is only logged and the loop goes on.

Module `GoTypes` (`gotypes.dfy`) gives Go's `byte`, `uint16`, `uint32` and
non-negative `time.Duration`. It also writes out the truncating conversions
`uint8(x)`, `uint16(x)` and `uint32(x)`, because Dafny's integers are unbounded.
Module `DiaDeLosMuertos` (`diadelosmuertos.dfy`) and module `Clock`
(`clock.dfy`) each follow one program.

Modelling choices:

- Each program's option checks are a pure validator. It returns either the
  first failing check's error or the values the program goes on with.
- The pattern's `Render` and the frame's `ToRGB` are foreign code. They are
  function parameters. A callee can write into a Go slice but cannot change its
  length, so `RunLoop` requires that both keep the length of what they are
  given.
- The two buffers the loop reuses are values that are reassigned. The loop
  records a trace of its calls: each render with the frame it leaves behind,
  and each write with the bytes it sends.
- Clock readings, write results and random colours are inputs: one entry per
  iteration. A finite run whose writes all succeed ends as `StillRunning`. The
  real loop would go on waiting for the next tick.
- `RandomBufArray` allocates and fills an `array`, as the source does. It takes
  the random colour as a parameter.
- The clock program checks no lower bounds. So intensity −1 is accepted and
  reaches the device as `uint8(-1) == 255`. The lemma `Clock.NegativeValuesWrap`
  exhibits this. The model keeps the code as written.

## Model

| member | source | states |
|---|---|---|
| `GoTypes.ToUint8` | apa102/diadelosmuertos/main.go:113 | `uint8(x)` is the byte congruent to `x` mod 256, and it is `x` itself when `x` is already in 0..255 |
| `GoTypes.ToUint16` | apa102/diadelosmuertos/main.go:113 | `uint16(x)` is congruent to `x` mod 65536, and it is exact on 0..65535 |
| `GoTypes.ToUint32` | apa102/diadelosmuertos/main.go:133 | `uint32(x)` is congruent to `x` mod 2^32, and it is exact on 0..2^32−1 |
| `DiaDeLosMuertos.Validate` | apa102/diadelosmuertos/main.go:47-91 | A positional argument is rejected before anything else. Validation succeeds iff every range holds and exactly one of `-f`/`-r` is non-empty. A non-empty `-f` selects the file, otherwise `-r` selects the inline text. The `uint8`/`uint16` device values then equal the given intensity and temperature |
| `DiaDeLosMuertos.Message` | apa102/diadelosmuertos/main.go:48-90 | Each startup error carries the source's own diagnostic text, which is never empty |
| `DiaDeLosMuertos.MessageIdentifiesError` | apa102/diadelosmuertos/main.go:48-90 | Two errors have the same diagnostic iff they are the same error |
| `DiaDeLosMuertos.ValidateReportsFirstViolation` | apa102/diadelosmuertos/main.go:47-91 | The error reported is exactly the broken rule that no earlier-checked rule precedes, in the order arguments, intensity, temperature, pixels, fps, both sources, no source (both directions) |
| `DiaDeLosMuertos.ValidateAcceptsIffNoViolation` | apa102/diadelosmuertos/main.go:47-91 | Options are accepted iff they break none of the seven rules |
| `DiaDeLosMuertos.TickInterval` | apa102/diadelosmuertos/main.go:125 | `1s / fps` is the truncated quotient `d`, with `d*fps <= 10^9 < (d+1)*fps`. It is positive iff `fps <= 10^9` |
| `DiaDeLosMuertos.AcceptedFpsTickInterval` | apa102/diadelosmuertos/main.go:59-61 | For every accepted fps, the period lies in [5 ms, 1 s], so it is never zero, and the fps meets the render loop's precondition |
| `DiaDeLosMuertos.Timestamp` | apa102/diadelosmuertos/main.go:132-133 | The timestamp is the number of whole milliseconds of the elapsed time within the current 2^32 ms wrap period. It is always a valid `uint32` |
| `DiaDeLosMuertos.TimestampBeforeWrap` | apa102/diadelosmuertos/main.go:133 | Before the first wrap, the timestamp equals the elapsed milliseconds |
| `DiaDeLosMuertos.TimestampPeriodic` | apa102/diadelosmuertos/main.go:132-133 | The timestamp repeats every 2^32 ms (about 49.71 days) |
| `DiaDeLosMuertos.TimestampMonotonicInPeriod` | apa102/diadelosmuertos/main.go:133 | Within one wrap period, the timestamp never goes backward |
| `DiaDeLosMuertos.TimestampWrapsToZero` | apa102/diadelosmuertos/main.go:132 | At the wrap, the timestamp drops from 2^32−1 to 0 |
| `DiaDeLosMuertos.FirstFailure` | apa102/diadelosmuertos/main.go:135-137 | The result is the index of the first failing write: every earlier write succeeded, and the one at the index failed, unless the index is the end of the input |
| `DiaDeLosMuertos.BlankFrame` | apa102/diadelosmuertos/main.go:128 | `make(anim1d.Frame, n)` has exactly `n` pixels, all black (the zero `Color`) |
| `DiaDeLosMuertos.ZeroBytes` | apa102/diadelosmuertos/main.go:127 | `make([]byte, n)` has exactly `n` bytes, all zero |
| `DiaDeLosMuertos.Outcome` | apa102/diadelosmuertos/main.go:135-137 | The loop stops iff some write fails. It then returns the error of the first failing write, the one all of whose predecessors succeeded |
| `DiaDeLosMuertos.Trace` | apa102/diadelosmuertos/main.go:131-139 | The loop's calls from a given frame and buffer: one render, then one convert-and-write per iteration, stopping after the first failing write. The trace has an even length of at most two per tick. A non-empty run makes its first render and write before waiting for any tick |
| `DiaDeLosMuertos.TraceLength` | apa102/diadelosmuertos/main.go:131-139 | The loop makes exactly two calls per iteration. It runs up to and including the first failing write, or over all ticks if none fails |
| `DiaDeLosMuertos.TraceAlternates` | apa102/diadelosmuertos/main.go:133-135 | Renders and writes strictly alternate, starting with a render |
| `DiaDeLosMuertos.TraceTimestamps` | apa102/diadelosmuertos/main.go:133 | The k-th render gets the timestamp of the k-th clock reading |
| `DiaDeLosMuertos.TraceReusesBuffers` | apa102/diadelosmuertos/main.go:127-135 | Each render draws into the frame the previous render left. Each write sends the frame just rendered, converted into the buffer the previous write sent |
| `DiaDeLosMuertos.TraceSizes` | apa102/diadelosmuertos/main.go:126-128 | With length-preserving `Render` and `ToRGB`, every frame rendered and every buffer written keeps its initial size |
| `DiaDeLosMuertos.StopsAtFirstFailure` | apa102/diadelosmuertos/main.go:135-137 | If write k is the first to fail, the loop makes exactly k+1 renders and k+1 writes and returns that write's own error. A display whose first write fails sees one render and one write |
| `DiaDeLosMuertos.RunLoopStep` | apa102/diadelosmuertos/main.go:131-139 | One pass of the loop body keeps the trace made so far, followed by the trace still to come, equal to the whole trace |
| `DiaDeLosMuertos.RunLoop` | apa102/diadelosmuertos/main.go:124-141 | The ticker period is `TickInterval(fps) > 0`. The calls made are exactly the trace from a zeroed frame of `width` colours and a zeroed buffer of `3*width` bytes. The result is the first write error, unchanged. There are two calls per iteration. Every frame has `width` pixels and every write sends `3*width` bytes |
| `Clock.Message` | apa102/clock/main.go:62-68 | Each startup error carries the source's own diagnostic text, which is never empty |
| `Clock.MessageIdentifiesError` | apa102/clock/main.go:62-68 | Two errors have the same diagnostic iff they are the same error |
| `Clock.Validate` | apa102/clock/main.go:61-69 | Positional arguments are rejected first. Then intensity > 255 is rejected, then temperature > 65535, and there are no lower bounds (each error case is an iff). On acceptance the device gets `uint8(intensity)` and `uint16(temperature)`, which equal the given values when they are non-negative |
| `Clock.NegativeValuesWrap` | apa102/clock/main.go:64-69 | Intensity −1 and temperature −1 are accepted and reach the device as 255 and 65535 |
| `Clock.NegativeValuesWrapAround` | apa102/clock/main.go:64-89 | Any accepted intensity in −256..−1 reaches the device as that value plus 256. Any accepted temperature in −65536..−1 reaches it as that value plus 65536 |
| `Clock.Red` | apa102/clock/main.go:116 | `byte(rgb >> 16)` of a 24-bit colour is its top byte, `rgb / 65536`, with nothing left to truncate |
| `Clock.Green` | apa102/clock/main.go:117 | `byte(rgb >> 8)` of a non-negative colour is byte 1, bits 8 to 15 of `rgb` |
| `Clock.Blue` | apa102/clock/main.go:118 | `byte(rgb)` agrees with `rgb` in its low 8 bits |
| `Clock.SplitJoin` | apa102/clock/main.go:115-118 | For a colour in [0, 2^24), `r*65536 + g*256 + b == rgb` |
| `Clock.JoinSplit` | apa102/clock/main.go:115-118 | Every byte triple is the split of exactly the colour `r*65536 + g*256 + b`, and that colour lies in [0, 2^24) |
| `Clock.RandomBufArray` | apa102/clock/main.go:114-126 | The buffer is newly allocated and has length exactly `3*n`. For every pixel k < n, bytes 3k, 3k+1 and 3k+2 are R, G and B of the colour |
| `Clock.ClockLoop` | apa102/clock/main.go:94-103 | Every tick writes a solid buffer of its own colour, and no error stops the loop. Every log line is a failed write, with that tick's buffer and error. The log follows tick order, and every failed write is logged |

## Left out

- Flag parsing and `log` set-up: the parsed values are inputs (`Options`).
- Reading the pattern file and unmarshalling the JSON text into `anim1d.SPattern` (apa102/diadelosmuertos/main.go:67-73, 86-88): these are filesystem I/O and foreign code. The model stops at the chosen `PatternSource`.
- Opening the display (apa102/diadelosmuertos/main.go:93-119 and apa102/clock/main.go:70-92). This covers `host.Init`, `spireg.Open`, `LimitSpeed`, `apa102.New`, `screen.New`, `Halt` and `Close`: device and bus I/O through libraries that are not part of this model. The display width is a parameter of `RunLoop`.
- `anim1d.Pattern.Render` and `Frame.ToRGB`: foreign code. They are uninterpreted function parameters, constrained only to keep their buffers' lengths. So the byte layout R,G,B per pixel of `ToRGB` is not modelled. A `Renderer` is a deterministic function of the frame it draws into and the timestamp only. Any state a pattern keeps of its own from one `Render` call to the next, which the Go interface allows, is not captured.
- `time.NewTicker`, `time.Since` and the channel receives: real-time cadence cannot be modelled. Each iteration takes its clock reading as an input, and ticks are the entries of a finite sequence.
- `RunLoop`: the fps is required to lie in 1..10^9 rather than modelling the panics outside it. An fps of zero panics earlier, in the integer division `time.Second / time.Duration(fps)` (apa102/diadelosmuertos/main.go:125). A negative fps gives a negative period and an fps above 10^9 gives a zero period, and `time.NewTicker` panics on both. Validation only lets 1..200 through.
- `RunLoop`: the frame and byte buffer are values that are reassigned each iteration, not slices written in place by the callee. Aliasing between them is not modelled.
- `RandomBufArray`: a negative pixel count makes `make` panic, so the count is a `nat`. Allocation failure and `int` overflow of `numLights*3` are not modelled.
- `math/rand.Intn`: the colour is a parameter in [0, 2^24).
- `findFile` and `access` (apa102/clock/main.go:29-46): filesystem and environment lookups, never called by the modelled code.
- The text of each log line and of each startup diagnostic on stderr: output formatting. The diagnostics' wording is kept in `Message`.
- All of `ht16k33/ht16k33leds/main.go`: a fixed sequence of calls into an I2C LED driver, with no logic of its own.
