/** The server-side processing stub: a flow whose input schema bounds the
    pixelation level and whose body waits for a level-dependent time and
    then hands back the data URI it was given. The wait is modelled as the
    duration it would last, not as time passing. */
module PixelateVideoFlow {
  import opened Wrappers

  /** `PixelateVideoInput`: the level is a JavaScript number, so any real. */
  datatype PixelateVideoInput = PixelateVideoInput(videoDataUri: string, pixelationLevel: real)

  /** `PixelateVideoOutput`. */
  datatype PixelateVideoOutput = PixelateVideoOutput(processedVideoDataUri: string)

  /** Why the flow refused its input: the schema check threw. */
  datatype FlowError = InvalidParameter

  /** A completed run: how long it waited and what it returned. */
  datatype FlowRun = FlowRun(delayMs: real, output: PixelateVideoOutput)

  const MinLevel: real := 2.0
  const MaxLevel: real := 50.0

  /** The input schema: `.number().min(2).max(50)` and nothing else, so a
      level with a fraction inside the range passes. */
  predicate ValidInput(input: PixelateVideoInput) {
    MinLevel <= input.pixelationLevel <= MaxLevel
  }

  /** The simulated processing time, `500 + pixelationLevel * 50` ms:
      between 0.6 and 3 seconds for every level the schema accepts. */
  function SimulatedDelayMs(level: real): (ms: real)
    ensures MinLevel <= level <= MaxLevel ==> 600.0 <= ms <= 3000.0
  {
    500.0 + level * 50.0
  }

  /** `pixelateVideoFlow`: validate the input against the schema, wait, and
      return the input data URI unchanged. */
  function Flow(input: PixelateVideoInput): (r: Result<FlowRun, FlowError>)
    ensures r.Success? <==> ValidInput(input)
    ensures r.Failure? ==> r.error == InvalidParameter
    ensures r.Success? ==> r.value.output.processedVideoDataUri == input.videoDataUri
    ensures r.Success? ==> r.value.delayMs == SimulatedDelayMs(input.pixelationLevel)
    ensures r.Success? ==> 600.0 <= r.value.delayMs <= 3000.0
  {
    if ValidInput(input) then
      Success(FlowRun(SimulatedDelayMs(input.pixelationLevel), PixelateVideoOutput(input.videoDataUri)))
    else
      Failure(InvalidParameter)
  }

  /** `pixelateVideo`: the exported wrapper, which only delegates. */
  function PixelateVideo(input: PixelateVideoInput): (r: Result<FlowRun, FlowError>)
    ensures r == Flow(input)
    ensures r.Success? <==> ValidInput(input)
    ensures r.Success? ==> r.value.output.processedVideoDataUri == input.videoDataUri
  {
    Flow(input)
  }

  /** The wait grows strictly with the level. */
  lemma DelayStrictlyIncreasing(a: real, b: real)
    requires a < b
    ensures SimulatedDelayMs(a) < SimulatedDelayMs(b)
  {
  }

  /** The level never affects the payload: any two accepted levels give the
      same output for the same data URI. */
  lemma LevelDoesNotAffectOutput(videoDataUri: string, a: real, b: real)
    requires MinLevel <= a <= MaxLevel && MinLevel <= b <= MaxLevel
    ensures PixelateVideo(PixelateVideoInput(videoDataUri, a)).Success?
    ensures PixelateVideo(PixelateVideoInput(videoDataUri, a)).value.output
         == PixelateVideo(PixelateVideoInput(videoDataUri, b)).value.output
  {
  }

  /** The range check at and just past its ends, and for a fractional level. */
  lemma RangeBoundaries(videoDataUri: string)
    ensures PixelateVideo(PixelateVideoInput(videoDataUri, 1.0)) == Failure(InvalidParameter)
    ensures PixelateVideo(PixelateVideoInput(videoDataUri, 51.0)) == Failure(InvalidParameter)
    ensures PixelateVideo(PixelateVideoInput(videoDataUri, 2.0)).Success?
    ensures PixelateVideo(PixelateVideoInput(videoDataUri, 50.0)).Success?
    ensures PixelateVideo(PixelateVideoInput(videoDataUri, 2.5)).Success?
  {
  }
}
