/** The clock program (apa102/clock): its two upper-bound option checks, the buffer
    that paints every pixel of the strip one colour, and the once-a-second loop that
    writes a fresh random colour and only logs a failed write. */
module Clock {
  import opened GoTypes

  // ---------------------------------------------------------------------------
  // Startup options
  // ---------------------------------------------------------------------------

  /** The parsed command line: leftover positional arguments and the values of -n,
      -l and -t. */
  datatype Options = Options(nArg: nat, numLights: int, intensity: int, temperature: int)

  datatype OptionError = UnexpectedArgument | IntensityTooHigh | TemperatureTooHigh

  /** The diagnostic each startup error carries. */
  function Message(e: OptionError): (s: string)
    ensures s != ""
  {
    match e
    case UnexpectedArgument => "unexpected argument, try -help"
    case IntensityTooHigh => "max intensity is 255"
    case TemperatureTooHigh => "max temperature is 65535"
  }

  /** Each startup error has its own diagnostic, so the message identifies the check
      that failed. */
  lemma MessageIdentifiesError(e: OptionError, e': OptionError)
    ensures Message(e) == Message(e') <==> e == e'
  {
  }

  /** The values handed to `apa102.New`: the pixel count as given, the intensity
      through `uint8` and the temperature through `uint16`. */
  datatype DeviceOptions = DeviceOptions(numLights: int, intensity: Byte, temperature: Uint16)

  /** The checks of the program's startup, in order. Only upper bounds are checked,
      so a negative intensity or temperature passes and is then truncated. */
  function Validate(o: Options): (r: Result<DeviceOptions, OptionError>)
    ensures o.nArg != 0 ==> r == Err(UnexpectedArgument)
    ensures r == Err(IntensityTooHigh) <==> o.nArg == 0 && o.intensity > 255
    ensures r == Err(TemperatureTooHigh) <==>
      o.nArg == 0 && o.intensity <= 255 && o.temperature > 65535
    ensures r.Ok? <==> o.nArg == 0 && o.intensity <= 255 && o.temperature <= 65535
    ensures r.Ok? ==> r.value.numLights == o.numLights
    ensures r.Ok? && 0 <= o.intensity ==> r.value.intensity == o.intensity
    ensures r.Ok? && 0 <= o.temperature ==> r.value.temperature == o.temperature
    ensures r.Ok? ==>
      r.value.intensity == ToUint8(o.intensity) && r.value.temperature == ToUint16(o.temperature)
  {
    if o.nArg != 0 then Err(UnexpectedArgument)
    else if o.intensity > 255 then Err(IntensityTooHigh)
    else if o.temperature > 65535 then Err(TemperatureTooHigh)
    else Ok(DeviceOptions(o.numLights, ToUint8(o.intensity), ToUint16(o.temperature)))
  }

  /** With no lower-bound check, intensity -1 is accepted and reaches the device as 255,
      the brightest setting, and temperature -1 reaches it as 65535. */
  lemma NegativeValuesWrap(numLights: int)
    ensures Validate(Options(0, numLights, -1, -1)) == Ok(DeviceOptions(numLights, 255, 65535))
  {
  }

  /** An accepted negative intensity or temperature reaches the device shifted up by
      one whole range of its `uint8` or `uint16` conversion. */
  lemma NegativeValuesWrapAround(o: Options)
    requires Validate(o).Ok?
    ensures -BYTE_RANGE <= o.intensity < 0 ==>
      Validate(o).value.intensity == o.intensity + BYTE_RANGE
    ensures -UINT16_RANGE <= o.temperature < 0 ==>
      Validate(o).value.temperature == o.temperature + UINT16_RANGE
  {
  }

  // ---------------------------------------------------------------------------
  // One colour for the whole strip
  // ---------------------------------------------------------------------------

  /** `rand.Intn(16777216)`: a 24-bit colour. */
  const COLOR_RANGE: int := 0x100_0000
  type Rgb24 = x: int | 0 <= x < COLOR_RANGE

  /** `byte(rgb >> 16)`, `byte(rgb >> 8)` and `byte(rgb)`. Go's `>>` on a signed
      integer rounds toward minus infinity, as Dafny's `/` by a positive divisor does. */
  function Red(rgb: int): (r: Byte)
    ensures 0 <= rgb < COLOR_RANGE ==> r == rgb / 0x1_0000
  {
    ToUint8(rgb / 0x1_0000)
  }

  function Green(rgb: int): (g: Byte)
    ensures 0 <= rgb ==> g == rgb % 0x1_0000 / 0x100
  {
    SecondByte(rgb);
    ToUint8(rgb / 0x100)
  }

  /** Byte 1 of a non-negative integer, taken after or before dropping the higher bytes. */
  lemma SecondByte(n: int)
    ensures 0 <= n ==> n / 0x100 % 0x100 == n % 0x1_0000 / 0x100
  {
    if 0 <= n {
      var hi, lo := n / 0x1_0000, n % 0x1_0000;
      var mid := lo / 0x100;
      DivideByByte(lo, mid, lo % 0x100);
      DivideByByte(n, hi * 0x100 + mid, lo % 0x100);
      DivideByByte(hi * 0x100 + mid, hi, mid);
    }
  }

  /** Quotient and remainder by 256 are the unique such pair. */
  lemma DivideByByte(n: int, q: int, r: int)
    requires n == q * 0x100 + r && 0 <= r < 0x100
    ensures n / 0x100 == q && n % 0x100 == r
  {
  }

  function Blue(rgb: int): (b: Byte)
    ensures (rgb - b) % 0x100 == 0
  {
    ToUint8(rgb)
  }

  /** Red, green and blue are bytes 2, 1 and 0 of a 24-bit colour. */
  lemma SplitJoin(rgb: Rgb24)
    ensures Red(rgb) * 0x1_0000 + Green(rgb) * 0x100 + Blue(rgb) == rgb
  {
  }

  /** Every byte triple is the split of exactly one 24-bit colour. */
  lemma JoinSplit(r: Byte, g: Byte, b: Byte)
    ensures var rgb := r * 0x1_0000 + g * 0x100 + b;
      0 <= rgb < COLOR_RANGE && Red(rgb) == r && Green(rgb) == g && Blue(rgb) == b
  {
  }

  /** A strip buffer in which every one of `n` pixels has the colour `rgb`. */
  ghost predicate SolidStrip(buf: seq<Byte>, n: nat, rgb: int)
  {
    && |buf| == 3 * n
    && forall k :: 0 <= k < n ==>
         buf[3 * k] == Red(rgb) && buf[3 * k + 1] == Green(rgb) && buf[3 * k + 2] == Blue(rgb)
  }

  /** `randomBufArray` with the random colour given as `rgb`: a buffer of three bytes
      per pixel, each pixel R, G, B of that colour. A negative pixel count makes `make`
      panic, so the count is a `nat`. */
  method RandomBufArray(numLights: nat, rgb: Rgb24) returns (buf: array<Byte>)
    ensures fresh(buf)
    ensures buf.Length == 3 * numLights
    ensures forall k :: 0 <= k < numLights ==>
      buf[3 * k] == Red(rgb) && buf[3 * k + 1] == Green(rgb) && buf[3 * k + 2] == Blue(rgb)
  {
    var r, g, b := Red(rgb), Green(rgb), Blue(rgb);
    buf := new Byte[numLights * 3];
    var i := 0;
    while i < buf.Length
      invariant 0 <= i <= buf.Length && i % 3 == 0
      invariant forall k :: 0 <= k < i / 3 ==>
        buf[3 * k] == r && buf[3 * k + 1] == g && buf[3 * k + 2] == b
    {
      buf[i] := r;
      buf[i + 1] := g;
      buf[i + 2] := b;
      i := i + 3;
    }
  }

  // ---------------------------------------------------------------------------
  // The ticker loop
  // ---------------------------------------------------------------------------

  /** One tick's inputs: the random colour drawn and what the display's `Write` reports. */
  datatype ClockTick<E> = ClockTick(rgb: Rgb24, write: WriteResult<E>)

  /** A logged write failure: the tick it happened on (the log's timestamp), the
      buffer that was being written, and the error. */
  datatype LogLine<E> = LogLine(tick: nat, data: seq<Byte>, err: E)

  /** The program's main loop on a finite run of ticks: every tick writes a new solid
      colour buffer, and a failed write is logged and does not end the loop. */
  method ClockLoop<E>(numLights: nat, ticks: seq<ClockTick<E>>)
    returns (written: seq<seq<Byte>>, log: seq<LogLine<E>>)
    ensures |written| == |ticks|
    ensures forall k :: 0 <= k < |ticks| ==> SolidStrip(written[k], numLights, ticks[k].rgb)
    ensures forall j :: 0 <= j < |log| ==>
      && log[j].tick < |ticks|
      && ticks[log[j].tick].write == WriteFailed(log[j].err)
      && log[j].data == written[log[j].tick]
    ensures forall j, j' :: 0 <= j < j' < |log| ==> log[j].tick < log[j'].tick
    ensures forall k :: 0 <= k < |ticks| && ticks[k].write.WriteFailed? ==>
      exists j :: 0 <= j < |log| && log[j].tick == k
  {
    written, log := [], [];
    var k := 0;
    while k < |ticks|
      invariant 0 <= k <= |ticks|
      invariant |written| == k
      invariant forall i :: 0 <= i < k ==> SolidStrip(written[i], numLights, ticks[i].rgb)
      invariant forall j :: 0 <= j < |log| ==>
        && log[j].tick < k
        && ticks[log[j].tick].write == WriteFailed(log[j].err)
        && log[j].data == written[log[j].tick]
      invariant forall j, j' :: 0 <= j < j' < |log| ==> log[j].tick < log[j'].tick
      invariant forall i :: 0 <= i < k && ticks[i].write.WriteFailed? ==>
        exists j :: 0 <= j < |log| && log[j].tick == i
    {
      var buf := RandomBufArray(numLights, ticks[k].rgb);
      written := written + [buf[..]];
      if ticks[k].write.WriteFailed? {
        ghost var before := log;
        log := log + [LogLine(k, buf[..], ticks[k].write.err)];
        forall i | 0 <= i < k && ticks[i].write.WriteFailed?
          ensures exists j :: 0 <= j < |log| && log[j].tick == i
        {
          var j :| 0 <= j < |before| && before[j].tick == i;
          assert log[j] == before[j];
        }
        assert log[|log| - 1].tick == k;
      }
      k := k + 1;
    }
  }
}
