/** The animation program (apa102/diadelosmuertos): startup option checks, the
    choice between a pattern file and an inline pattern, and the render loop that
    renders a frame, converts it to bytes and writes it to the display once per tick. */
module DiaDeLosMuertos {
  import opened GoTypes

  // ---------------------------------------------------------------------------
  // Startup options
  // ---------------------------------------------------------------------------

  /** The parsed command line: how many positional arguments were left over, and the
      values of -l, -t, -n, -fps, -f and -r. */
  datatype Options = Options(
    nArg: nat,
    intensity: int,
    temperature: int,
    numPixels: int,
    fps: int,
    fileName: string,
    raw: string)

  /** The startup errors, one per check, in the order the checks are made. */
  datatype OptionError =
    | UnexpectedArgument
    | BadIntensity
    | BadTemperature
    | BadPixelCount
    | BadFps
    | BothSources
    | NoSource

  /** The diagnostic each startup error carries. */
  function Message(e: OptionError): (s: string)
    ensures s != ""
  {
    match e
    case UnexpectedArgument => "unexpected argument, try -help"
    case BadIntensity => "intensity must be between 1 and 255"
    case BadTemperature => "temperature must be between 0 and 65535"
    case BadPixelCount => "number of pixels must be between 1 and 10000"
    case BadFps => "fps must be between 1 and 200"
    case BothSources => "can't use both -f and -r"
    case NoSource => "use one of -f or -r; try -r '\"0101ff\"'"
  }

  /** Each startup error has its own diagnostic, so the message identifies the check
      that failed. */
  lemma MessageIdentifiesError(e: OptionError, e': OptionError)
    ensures Message(e) == Message(e') <==> e == e'
  {
  }

  /** Where the JSON text of the pattern comes from. */
  datatype PatternSource = FromFile(path: string) | Inline(json: string)

  /** What the checks hand on when they all pass: the pattern source, the values that
      go into `apa102.Opts` (intensity and temperature after their `uint8`/`uint16`
      conversions) and the frame rate given to the render loop. */
  datatype Startup = Startup(
    source: PatternSource,
    numPixels: int,
    intensity: Byte,
    temperature: Uint16,
    fps: int)

  /** The checks of the program's startup, made in order; the first that fails is reported. */
  function Validate(o: Options): (r: Result<Startup, OptionError>)
    ensures o.nArg != 0 ==> r == Err(UnexpectedArgument)
    ensures r.Ok? <==>
      && o.nArg == 0
      && 1 <= o.intensity <= 255
      && 0 <= o.temperature <= 65535
      && 1 <= o.numPixels <= 10000
      && 1 <= o.fps <= 200
      && (o.fileName == "" <==> o.raw != "")
    ensures r.Ok? ==>
      r.value.source == (if o.fileName != "" then FromFile(o.fileName) else Inline(o.raw))
    ensures r.Ok? ==>
      && r.value.intensity == o.intensity
      && r.value.temperature == o.temperature
      && r.value.numPixels == o.numPixels
      && r.value.fps == o.fps
  {
    if o.nArg != 0 then Err(UnexpectedArgument)
    else if o.intensity < 1 || o.intensity > 255 then Err(BadIntensity)
    else if o.temperature < 0 || o.temperature > 65535 then Err(BadTemperature)
    else if o.numPixels < 1 || o.numPixels > 10000 then Err(BadPixelCount)
    else if o.fps < 1 || o.fps > 200 then Err(BadFps)
    else
      var opts := (src: PatternSource) =>
        Startup(src, o.numPixels, ToUint8(o.intensity), ToUint16(o.temperature), o.fps);
      if o.fileName != "" then
        if o.raw != "" then Err(BothSources) else Ok(opts(FromFile(o.fileName)))
      else if o.raw != "" then Ok(opts(Inline(o.raw)))
      else Err(NoSource)
  }

  /** Each rule on its own, independent of the order in which they are checked. */
  predicate Violates(o: Options, e: OptionError)
  {
    match e
    case UnexpectedArgument => o.nArg != 0
    case BadIntensity => !(1 <= o.intensity <= 255)
    case BadTemperature => !(0 <= o.temperature <= 65535)
    case BadPixelCount => !(1 <= o.numPixels <= 10000)
    case BadFps => !(1 <= o.fps <= 200)
    case BothSources => o.fileName != "" && o.raw != ""
    case NoSource => o.fileName == "" && o.raw == ""
  }

  /** The position of each rule in the order of the checks. */
  function Rank(e: OptionError): nat
  {
    match e
    case UnexpectedArgument => 0
    case BadIntensity => 1
    case BadTemperature => 2
    case BadPixelCount => 3
    case BadFps => 4
    case BothSources => 5
    case NoSource => 6
  }

  /** Validation reports exactly the earliest rule that is broken. */
  lemma ValidateReportsFirstViolation(o: Options, e: OptionError)
    ensures Validate(o) == Err(e) <==>
      Violates(o, e) && forall e' :: Rank(e') < Rank(e) ==> !Violates(o, e')
  {
    if Violates(o, e) && forall e' :: Rank(e') < Rank(e) ==> !Violates(o, e') {
      match e
      case UnexpectedArgument =>
      case BadIntensity => assert !Violates(o, UnexpectedArgument);
      case BadTemperature =>
        assert !Violates(o, UnexpectedArgument) && !Violates(o, BadIntensity);
      case BadPixelCount =>
        assert !Violates(o, UnexpectedArgument) && !Violates(o, BadIntensity);
        assert !Violates(o, BadTemperature);
      case BadFps =>
        assert !Violates(o, UnexpectedArgument) && !Violates(o, BadIntensity);
        assert !Violates(o, BadTemperature) && !Violates(o, BadPixelCount);
      case BothSources =>
        assert !Violates(o, UnexpectedArgument) && !Violates(o, BadIntensity);
        assert !Violates(o, BadTemperature) && !Violates(o, BadPixelCount);
        assert !Violates(o, BadFps);
      case NoSource =>
        assert !Violates(o, UnexpectedArgument) && !Violates(o, BadIntensity);
        assert !Violates(o, BadTemperature) && !Violates(o, BadPixelCount);
        assert !Violates(o, BadFps);
    }
    if Validate(o) == Err(e) {
      forall e' | Rank(e') < Rank(e) ensures !Violates(o, e') {
      }
    }
  }

  /** Validation accepts exactly the options that break no rule. */
  lemma ValidateAcceptsIffNoViolation(o: Options)
    ensures Validate(o).Ok? <==> forall e :: !Violates(o, e)
  {
    if !Validate(o).Ok? {
      var e := Validate(o).error;
      ValidateReportsFirstViolation(o, e);
    }
  }

  // ---------------------------------------------------------------------------
  // Timing
  // ---------------------------------------------------------------------------

  /** `time.Second` and `time.Millisecond`, in nanoseconds. */
  const SECOND: int := 1_000_000_000
  const MILLISECOND: int := 1_000_000

  /** `time.Second / time.Duration(fps)`: the ticker period, truncated to whole
      nanoseconds. An `fps` of zero is a division by zero and a negative one gives a
      negative period that makes the ticker panic, so only positive rates are modelled. */
  function TickInterval(fps: int): (d: int)
    requires 0 < fps
    ensures 0 <= d
    ensures 0 < d <==> fps <= SECOND
    ensures d * fps <= SECOND < (d + 1) * fps
  {
    SECOND / fps
  }

  /** For any frame rate that validation accepts, the ticker period lies between
      5 ms and 1 s, and so is never zero; such a rate meets the render loop's
      precondition. */
  lemma AcceptedFpsTickInterval(o: Options)
    requires Validate(o).Ok?
    ensures 0 < o.fps <= SECOND
    ensures 5_000_000 <= TickInterval(o.fps) <= SECOND
  {
  }

  /** The number of nanoseconds after which the millisecond timestamp wraps back to
      zero: 2^32 ms, about 49.71 days. */
  const WRAP_PERIOD: int := UINT32_RANGE * MILLISECOND

  /** `uint32(time.Since(start) / time.Millisecond)`: elapsed whole milliseconds,
      truncated to 32 bits. */
  function Timestamp(elapsed: Nanos): (t: Uint32)
    ensures t * MILLISECOND <= elapsed % WRAP_PERIOD < (t + 1) * MILLISECOND
  {
    ToUint32(elapsed / MILLISECOND)
  }

  /** Before the first wrap, the timestamp is the elapsed time in whole milliseconds. */
  lemma TimestampBeforeWrap(elapsed: Nanos)
    requires elapsed < WRAP_PERIOD
    ensures Timestamp(elapsed) == elapsed / MILLISECOND
  {
  }

  /** The timestamp repeats with a period of 2^32 ms. */
  lemma TimestampPeriodic(elapsed: Nanos)
    requires elapsed + WRAP_PERIOD < 0x8000_0000_0000_0000
    ensures Timestamp(elapsed + WRAP_PERIOD) == Timestamp(elapsed)
  {
    var q, r := elapsed / MILLISECOND, elapsed % MILLISECOND;
    assert elapsed + WRAP_PERIOD == (q + UINT32_RANGE) * MILLISECOND + r;
    assert (elapsed + WRAP_PERIOD) / MILLISECOND == q + UINT32_RANGE;
  }

  /** Within one wrap period the timestamp never goes backward. */
  lemma TimestampMonotonicInPeriod(e1: Nanos, e2: Nanos)
    requires e1 <= e2
    requires e1 / WRAP_PERIOD == e2 / WRAP_PERIOD
    ensures Timestamp(e1) <= Timestamp(e2)
  {
  }

  /** At the wrap the timestamp drops from the largest `uint32` back to zero. */
  lemma TimestampWrapsToZero()
    ensures Timestamp(WRAP_PERIOD - 1) == UINT32_RANGE - 1
    ensures Timestamp(WRAP_PERIOD) == 0
  {
  }

  // ---------------------------------------------------------------------------
  // Render loop
  // ---------------------------------------------------------------------------

  /** An `anim1d.Color`: the three 8-bit channels of one pixel. */
  datatype Color = Color(r: Byte, g: Byte, b: Byte)

  /** `Pattern.Render(frame, t)`: the frame contents after the pattern has drawn into
      the frame it was given at timestamp `t`. The pattern is foreign code. */
  type Renderer = (seq<Color>, Uint32) -> seq<Color>

  /** `Frame.ToRGB(buf)`: the byte buffer after the frame has been converted into it.
      The conversion is foreign code. */
  type Encoder = (seq<Color>, seq<Byte>) -> seq<Byte>

  /** A callee writes into a Go slice it is given but cannot change its length. */
  ghost predicate RenderKeepsLength(render: Renderer)
  {
    forall f, t :: |render(f, t)| == |f|
  }

  ghost predicate EncodeKeepsLength(toRGB: Encoder)
  {
    forall f, buf :: |toRGB(f, buf)| == |buf|
  }

  /** `make(anim1d.Frame, n)` and `make([]byte, n)`: zero-valued slices. */
  function BlankFrame(n: nat): (f: seq<Color>)
    ensures |f| == n && forall i :: 0 <= i < n ==> f[i] == Color(0, 0, 0)
  {
    seq(n, _ => Color(0, 0, 0))
  }

  function ZeroBytes(n: nat): (buf: seq<Byte>)
    ensures |buf| == n && forall i :: 0 <= i < n ==> buf[i] == 0
  {
    seq(n, _ => 0)
  }

  /** One iteration's inputs: the reading of `time.Since(start)` and what the
      display's `Write` reports. */
  datatype Tick<E> = Tick(elapsed: Nanos, write: WriteResult<E>)

  /** The calls the loop makes, in order: a render at a timestamp (with the frame it
      leaves behind) and a write (with the bytes written). */
  datatype Event = Rendered(t: Uint32, frame: seq<Color>) | Wrote(data: seq<Byte>)

  /** How a finite run ends: the inputs ran out while every write succeeded (the
      program would go on waiting for ticks), or a write failed and its error is
      returned. */
  datatype LoopResult<E> = StillRunning | Stopped(err: E)

  /** The index of the first failing write, or the number of ticks if none fails. */
  function FirstFailure<E>(ticks: seq<Tick<E>>): (k: nat)
    ensures k <= |ticks|
    ensures forall j :: 0 <= j < k ==> ticks[j].write.Written?
    ensures k < |ticks| ==> ticks[k].write.WriteFailed?
  {
    if |ticks| == 0 then 0
    else if ticks[0].write.WriteFailed? then 0
    else 1 + FirstFailure(ticks[1..])
  }

  /** The number of iterations the loop runs on these ticks. */
  function Iterations<E>(ticks: seq<Tick<E>>): nat
  {
    var k := FirstFailure(ticks);
    if k < |ticks| then k + 1 else |ticks|
  }

  /** The result of the loop on these ticks: the first write error, unchanged. */
  function Outcome<E>(ticks: seq<Tick<E>>): (r: LoopResult<E>)
    ensures r.Stopped? <==> exists k :: 0 <= k < |ticks| && ticks[k].write.WriteFailed?
    ensures r.Stopped? ==>
      exists k :: && 0 <= k < |ticks| && ticks[k].write == WriteFailed(r.err)
                  && forall j :: 0 <= j < k ==> ticks[j].write.Written?
  {
    var k := FirstFailure(ticks);
    if k < |ticks| then Stopped(ticks[k].write.err) else StillRunning
  }

  /** The calls the loop makes from frame `f` and buffer `buf` on, one render then
      one write per tick, ending after the first failing write. */
  function Trace<E>(render: Renderer, toRGB: Encoder, f: seq<Color>, buf: seq<Byte>,
                    ticks: seq<Tick<E>>): (tr: seq<Event>)
    ensures |tr| % 2 == 0 && |tr| <= 2 * |ticks|
    ensures 0 < |ticks| ==> 2 <= |tr|
    decreases |ticks|
  {
    if |ticks| == 0 then []
    else
      var t := Timestamp(ticks[0].elapsed);
      var f' := render(f, t);
      var buf' := toRGB(f', buf);
      [Rendered(t, f'), Wrote(buf')] +
        (if ticks[0].write.WriteFailed? then [] else Trace(render, toRGB, f', buf', ticks[1..]))
  }

  /** Two calls per iteration, so the trace stops right after the write that fails. */
  lemma {:induction false} TraceLength<E>(render: Renderer, toRGB: Encoder, f: seq<Color>,
                                          buf: seq<Byte>, ticks: seq<Tick<E>>)
    ensures |Trace(render, toRGB, f, buf, ticks)| == 2 * Iterations(ticks)
    decreases |ticks|
  {
    if |ticks| > 0 && ticks[0].write.Written? {
      var t := Timestamp(ticks[0].elapsed);
      TraceLength(render, toRGB, render(f, t), toRGB(render(f, t), buf), ticks[1..]);
    }
  }

  /** Renders and writes alternate, starting with a render. */
  ghost predicate Alternates(tr: seq<Event>)
  {
    forall i :: 0 <= i < |tr| ==> (tr[i].Rendered? <==> i % 2 == 0)
  }

  lemma {:induction false} TraceAlternates<E>(render: Renderer, toRGB: Encoder, f: seq<Color>,
                                              buf: seq<Byte>, ticks: seq<Tick<E>>)
    ensures Alternates(Trace(render, toRGB, f, buf, ticks))
    decreases |ticks|
  {
    if |ticks| > 0 && ticks[0].write.Written? {
      var t := Timestamp(ticks[0].elapsed);
      var f', buf' := render(f, t), toRGB(render(f, t), buf);
      TraceAlternates(render, toRGB, f', buf', ticks[1..]);
      var tr := Trace(render, toRGB, f, buf, ticks);
      var rest := Trace(render, toRGB, f', buf', ticks[1..]);
      forall i | 2 <= i < |tr| ensures tr[i].Rendered? <==> i % 2 == 0 {
        assert tr[i] == rest[i - 2];
      }
    }
  }

  /** The render of iteration k gets the timestamp of the k-th clock reading. */
  ghost predicate StampedBy<E>(tr: seq<Event>, ticks: seq<Tick<E>>)
  {
    forall i :: 0 <= i < |tr| && tr[i].Rendered? ==>
      i / 2 < |ticks| && tr[i].t == Timestamp(ticks[i / 2].elapsed)
  }

  lemma {:induction false} TraceTimestamps<E>(render: Renderer, toRGB: Encoder, f: seq<Color>,
                                              buf: seq<Byte>, ticks: seq<Tick<E>>)
    ensures StampedBy(Trace(render, toRGB, f, buf, ticks), ticks)
    decreases |ticks|
  {
    if |ticks| > 0 && ticks[0].write.Written? {
      var t := Timestamp(ticks[0].elapsed);
      var f', buf' := render(f, t), toRGB(render(f, t), buf);
      TraceTimestamps(render, toRGB, f', buf', ticks[1..]);
      var tr := Trace(render, toRGB, f, buf, ticks);
      var rest := Trace(render, toRGB, f', buf', ticks[1..]);
      forall i | 2 <= i < |tr| && tr[i].Rendered?
        ensures i / 2 < |ticks| && tr[i].t == Timestamp(ticks[i / 2].elapsed)
      {
        assert tr[i] == rest[i - 2];
        assert (i - 2) / 2 == i / 2 - 1;
      }
    }
  }

  /** The same two buffers are reused: the render of iteration k draws into the frame
      the render of iteration k - 1 left (`f` for the first), and the write of
      iteration k sends that new frame converted into the buffer the write of
      iteration k - 1 sent (`buf` for the first). */
  ghost predicate ReusesBuffers(tr: seq<Event>, render: Renderer, toRGB: Encoder,
                                f: seq<Color>, buf: seq<Byte>)
  {
    forall k :: 0 <= k && 2 * k + 1 < |tr| ==>
      && tr[2 * k].Rendered? && tr[2 * k + 1].Wrote?
      && (k == 0 ==> tr[0].frame == render(f, tr[0].t) && tr[1].data == toRGB(tr[0].frame, buf))
      && (k > 0 ==>
            && tr[2 * k - 2].Rendered? && tr[2 * k - 1].Wrote?
            && tr[2 * k].frame == render(tr[2 * k - 2].frame, tr[2 * k].t)
            && tr[2 * k + 1].data == toRGB(tr[2 * k].frame, tr[2 * k - 1].data))
  }

  lemma {:induction false} TraceReusesBuffers<E>(render: Renderer, toRGB: Encoder, f: seq<Color>,
                                                 buf: seq<Byte>, ticks: seq<Tick<E>>)
    ensures ReusesBuffers(Trace(render, toRGB, f, buf, ticks), render, toRGB, f, buf)
    decreases |ticks|
  {
    if |ticks| > 0 && ticks[0].write.Written? {
      var t := Timestamp(ticks[0].elapsed);
      var f', buf' := render(f, t), toRGB(render(f, t), buf);
      TraceReusesBuffers(render, toRGB, f', buf', ticks[1..]);
      var tr := Trace(render, toRGB, f, buf, ticks);
      var rest := Trace(render, toRGB, f', buf', ticks[1..]);
      assert tr == [Rendered(t, f'), Wrote(buf')] + rest;
      forall k | 1 <= k && 2 * k + 1 < |tr|
        ensures && tr[2 * k].Rendered? && tr[2 * k + 1].Wrote?
                && tr[2 * k - 2].Rendered? && tr[2 * k - 1].Wrote?
                && tr[2 * k].frame == render(tr[2 * k - 2].frame, tr[2 * k].t)
                && tr[2 * k + 1].data == toRGB(tr[2 * k].frame, tr[2 * k - 1].data)
      {
        assert tr[2 * k] == rest[2 * (k - 1)] && tr[2 * k + 1] == rest[2 * (k - 1) + 1];
        assert tr[2 * k - 2] == if k == 1 then Rendered(t, f') else rest[2 * (k - 2)];
        assert tr[2 * k - 1] == if k == 1 then Wrote(buf') else rest[2 * (k - 2) + 1];
      }
    }
  }

  /** Every frame rendered has `width` pixels and every buffer written has `size` bytes. */
  ghost predicate SizedAs(tr: seq<Event>, width: nat, size: nat)
  {
    forall i :: 0 <= i < |tr| ==>
      (tr[i].Rendered? ==> |tr[i].frame| == width) && (tr[i].Wrote? ==> |tr[i].data| == size)
  }

  lemma {:induction false} TraceSizes<E>(render: Renderer, toRGB: Encoder, f: seq<Color>,
                                         buf: seq<Byte>, ticks: seq<Tick<E>>)
    requires RenderKeepsLength(render) && EncodeKeepsLength(toRGB)
    ensures SizedAs(Trace(render, toRGB, f, buf, ticks), |f|, |buf|)
    decreases |ticks|
  {
    if |ticks| > 0 && ticks[0].write.Written? {
      var t := Timestamp(ticks[0].elapsed);
      var f', buf' := render(f, t), toRGB(render(f, t), buf);
      TraceSizes(render, toRGB, f', buf', ticks[1..]);
      assert |f'| == |f| && |buf'| == |buf|;
      var tr := Trace(render, toRGB, f, buf, ticks);
      var rest := Trace(render, toRGB, f', buf', ticks[1..]);
      forall i | 2 <= i < |tr|
        ensures (tr[i].Rendered? ==> |tr[i].frame| == |f|) && (tr[i].Wrote? ==> |tr[i].data| == |buf|)
      {
        assert tr[i] == rest[i - 2];
      }
    }
  }

  /** After the first failing write nothing more is rendered or written, and that
      write's error is the result; a display whose first write fails sees exactly
      one render and one write. */
  lemma StopsAtFirstFailure<E>(render: Renderer, toRGB: Encoder, f: seq<Color>,
                               buf: seq<Byte>, ticks: seq<Tick<E>>, k: nat)
    requires k < |ticks| && ticks[k].write.WriteFailed?
    requires forall j :: 0 <= j < k ==> ticks[j].write.Written?
    ensures |Trace(render, toRGB, f, buf, ticks)| == 2 * (k + 1)
    ensures Outcome(ticks) == Stopped(ticks[k].write.err)
  {
    var ff := FirstFailure(ticks);
    assert ff == k;
    TraceLength(render, toRGB, f, buf, ticks);
  }

  /** One pass of the loop body keeps the trace made so far and the trace still to
      come adding up to the whole trace. */
  lemma RunLoopStep<E>(render: Renderer, toRGB: Encoder, f: seq<Color>, buf: seq<Byte>,
                       ticks: seq<Tick<E>>, k: nat, trace: seq<Event>, whole: seq<Event>)
    requires k < |ticks|
    requires trace + Trace(render, toRGB, f, buf, ticks[k..]) == whole
    ensures var t := Timestamp(ticks[k].elapsed);
      var trace' := trace + [Rendered(t, render(f, t)), Wrote(toRGB(render(f, t), buf))];
      if ticks[k].write.WriteFailed? then trace' == whole
      else trace' + Trace(render, toRGB, render(f, t), toRGB(render(f, t), buf), ticks[k + 1..]) == whole
  {
  }

  /** The render loop of the program on a finite run of ticks. The first iteration
      starts at once and each later one after a tick; the loop returns the first
      write error, and reports `StillRunning` when the ticks run out. The ticker's
      period is returned as `interval`. A frame rate of zero divides by zero, and a
      negative one or one above 10^9 gives a period the ticker panics on, so the rate
      is required to lie in 1..10^9. */
  method RunLoop<E>(width: nat, fps: int, render: Renderer, toRGB: Encoder, ticks: seq<Tick<E>>)
    returns (interval: int, trace: seq<Event>, result: LoopResult<E>)
    requires 0 < fps <= SECOND
    requires RenderKeepsLength(render) && EncodeKeepsLength(toRGB)
    ensures interval == TickInterval(fps) && interval > 0
    ensures trace == Trace(render, toRGB, BlankFrame(width), ZeroBytes(3 * width), ticks)
    ensures result == Outcome(ticks)
    ensures |trace| == 2 * Iterations(ticks)
    ensures SizedAs(trace, width, 3 * width)
  {
    interval := TickInterval(fps);
    var f := BlankFrame(width);
    var buf := ZeroBytes(3 * width);
    ghost var whole := Trace(render, toRGB, f, buf, ticks);
    TraceLength(render, toRGB, f, buf, ticks);
    TraceSizes(render, toRGB, f, buf, ticks);
    trace := [];
    var k := 0;
    while k < |ticks|
      invariant 0 <= k <= |ticks|
      invariant forall j :: 0 <= j < k ==> ticks[j].write.Written?
      invariant trace + Trace(render, toRGB, f, buf, ticks[k..]) == whole
    {
      RunLoopStep(render, toRGB, f, buf, ticks, k, trace, whole);
      var t := Timestamp(ticks[k].elapsed);
      f := render(f, t);
      buf := toRGB(f, buf);
      trace := trace + [Rendered(t, f), Wrote(buf)];
      if ticks[k].write.WriteFailed? {
        StopsAtFirstFailure(render, toRGB, BlankFrame(width), ZeroBytes(3 * width), ticks, k);
        result := Stopped(ticks[k].write.err);
        return;
      }
      k := k + 1;
    }
    result := StillRunning;
  }
}
