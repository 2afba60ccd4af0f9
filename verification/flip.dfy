/** The fault-injection step of flip.go: configuration (Initalize), the stop
    check with its bucket cursor, and BitFlip, which flips oracle-selected
    bits of a number's big-endian bytes and appends the resulting event to
    the active error-rate bucket.

    The package-level variables of the source become the `Globals` value;
    the operations that change package state (`Configure`, `Initalize`,
    `BitFlip`) take and return it. Randomness is the `decide`
    oracle, and the formatted timestamp is the `when` parameter. The
    `elapsed` parameter is the time since the start time set by the last
    time-mode `Initalize`, or since Go's zero time if there was none: only
    the time-mode branch sets it. */
module Flip {
  import opened BigEndian
  import opened Word256
  import opened FlipLoop

  /** One flip event. The byte fields hold the bytes that the source
      hex-encodes. */
  datatype ErrorData = ErrorData(
    previousValue: nat,
    previousBytes: seq<bv8>,
    intBits: seq<nat>,
    errorValue: nat,
    errorBytes: seq<bv8>,
    deltaValue: int,
    when: string)

  datatype Iteration = Iteration(iterationNum: int, errorData: ErrorData)

  /** The bucket of one error rate. Rates are float64 in the source. */
  datatype ErrorRate = ErrorRate(rate: real, flipData: seq<Iteration>)

  datatype Output = Output(data: seq<ErrorRate>)

  /** The package-level state: test type, the two count limits, the duration
      in nanoseconds, the rate list the cursor is bounded by, and the cursor. */
  datatype Globals = Globals(
    testType: string,
    iterations: int,
    varsChanged: int,
    duration: int,
    errRates: seq<real>,
    rateIndex: nat)

  /** The state before any configuration: Go's zero values. */
  const Unconfigured := Globals("", 0, 0, 0, [], 0)

  /** The stop check: the two count limits and the time limit are all tested,
      whatever the test type. */
  predicate ShouldStop(g: Globals, flipCount: int, elapsed: nat) {
    flipCount > g.iterations || flipCount > g.varsChanged || elapsed >= g.duration
  }

  /** Once the check stops a call, it stops every later call whose flip
      count and elapsed time are no smaller, under the same limits. */
  lemma StopIsMonotone(g: Globals, flipCount: int, elapsed: nat, flipCount': int, elapsed': nat)
    requires ShouldStop(g, flipCount, elapsed)
    requires flipCount <= flipCount' && elapsed <= elapsed'
    ensures ShouldStop(g, flipCount', elapsed')
  {
  }

  /** Records the test type and sets the limit that belongs to it; any type
      other than "iteration" and "variable" is a duration, whose clock
      restarts (the clock is the caller's `elapsed`). */
  function Configure(g: Globals, testType: string, testCount: int): (r: Globals)
    ensures r.testType == testType && r.errRates == g.errRates && r.rateIndex == g.rateIndex
    ensures testType == "iteration" ==> r.iterations == testCount && r.varsChanged == g.varsChanged && r.duration == g.duration
    ensures testType == "variable" ==> r.varsChanged == testCount && r.iterations == g.iterations && r.duration == g.duration
    ensures testType != "iteration" && testType != "variable" ==>
              r.duration == testCount && r.iterations == g.iterations && r.varsChanged == g.varsChanged
  {
    if testType == "iteration" then g.(testType := testType, iterations := testCount)
    else if testType == "variable" then g.(testType := testType, varsChanged := testCount)
    else g.(testType := testType, duration := testCount)
  }

  /** Appends one empty bucket per rate, in order. */
  function AddBuckets(data: seq<ErrorRate>, rates: seq<real>): (r: seq<ErrorRate>)
    ensures |r| == |data| + |rates|
    ensures r[..|data|] == data
    ensures forall k :: |data| <= k < |r| ==> r[k] == ErrorRate(rates[k - |data|], [])
    decreases |rates|
  {
    if |rates| == 0 then data
    else AddBuckets(data + [ErrorRate(rates[0], [])], rates[1..])
  }

  /** Result of Initalize: the new package state and the extended output. */
  datatype Setup = Setup(globals: Globals, output: Output)

  /** Initalize: configures the limits and adds one empty bucket per rate. */
  function Initalize(g: Globals, testType: string, testCount: int, rates: seq<real>, out: Output): (r: Setup)
    ensures r.globals == Configure(g, testType, testCount)
    ensures |r.output.data| == |out.data| + |rates|
    ensures r.output.data[..|out.data|] == out.data
    ensures forall k :: 0 <= k < |rates| ==> r.output.data[|out.data| + k] == ErrorRate(rates[k], [])
  {
    var data := AddBuckets(out.data, rates);
    assert forall k :: 0 <= k < |rates| ==> data[|out.data| + k] == ErrorRate(rates[k], []);
    Setup(Configure(g, testType, testCount), Output(data))
  }

  /** The cursor step on a stop: to the next bucket while one is left. */
  function AdvanceCursor(index: nat, errRates: seq<real>): (r: nat)
    ensures index <= r <= index + 1
    ensures r == index + 1 <==> index < |errRates|
  {
    if index < |errRates| then index + 1 else index
  }

  /** Magnitude of a big integer; Bytes serialises the magnitude. */
  function Abs(x: int): (r: nat)
    ensures r == x || r == -x
  {
    if x < 0 then -x else x
  }

  /** The non-stop part of BitFlip: snapshot, flip loop, reassembly and the
      event it builds. */
  function Inject(value: int, flipCount: int, decide: seq<bool>, when: string): (it: Iteration)
    requires |ToBytes(Abs(value))| * 8 <= |decide|
    ensures var e := it.errorData;
      && e.previousValue == U256(value)
      && e.previousBytes == ToBytes(e.previousValue)
      && FlipSpec(ToBytes(Abs(value)), decide, flipCount, Scan(e.errorBytes, e.intBits, it.iterationNum))
      && ToBytes(e.errorValue) == StripLeadingZeros(e.errorBytes)
      && e.deltaValue == e.errorValue - e.previousValue
      && e.when == when
  {
    var bytNum := ToBytes(Abs(value));
    var before := U256(value);
    var s := FlipBytes(bytNum, decide, flipCount);
    FlipBytesMeetsSpec(bytNum, decide, flipCount);
    var after := FromBytes(s.bytes);
    CanonicalAfterDecode(s.bytes);
    Iteration(s.count, ErrorData(before, ToBytes(before), s.bits, after, s.bytes, after - before, when))
  }

  /** Result of one BitFlip call: the returned number and the new state. */
  datatype Step = Step(value: int, globals: Globals, output: Output)

  /** Appends event `it` to bucket `k`: the buckets and their rates stay,
      every bucket keeps its events, and only bucket `k` grows, by `it`. */
  function Record(out: Output, k: nat, it: Iteration): (r: Output)
    requires k < |out.data|
    ensures |r.data| == |out.data|
    ensures forall m :: 0 <= m < |out.data| && m != k ==> r.data[m] == out.data[m]
    ensures r.data[k].rate == out.data[k].rate
    ensures r.data[k].flipData == out.data[k].flipData + [it]
  {
    Output(out.data[k := out.data[k].(flipData := out.data[k].flipData + [it])])
  }

  /** BitFlip. On a stop the number comes back unchanged, no event is
      recorded and the cursor moves on while a rate is left. Otherwise the
      active bucket (which must exist: the source indexes it) gains the
      event and the reassembled number is returned. */
  function BitFlip(g: Globals, out: Output, value: int, flipCount: int, elapsed: nat, decide: seq<bool>, when: string): (r: Step)
    requires !ShouldStop(g, flipCount, elapsed) ==> g.rateIndex < |out.data|
    requires !ShouldStop(g, flipCount, elapsed) ==> |ToBytes(Abs(value))| * 8 <= |decide|
    ensures |r.output.data| == |out.data|
    ensures forall k :: 0 <= k < |out.data| ==>
      && r.output.data[k].rate == out.data[k].rate
      && |out.data[k].flipData| <= |r.output.data[k].flipData|
      && r.output.data[k].flipData[..|out.data[k].flipData|] == out.data[k].flipData
    ensures ShouldStop(g, flipCount, elapsed) ==>
      && r.value == value
      && r.output == out
      && r.globals.(rateIndex := g.rateIndex) == g
      && (g.rateIndex < |g.errRates| ==> r.globals.rateIndex == g.rateIndex + 1)
      && (g.rateIndex >= |g.errRates| ==> r.globals.rateIndex == g.rateIndex)
    ensures !ShouldStop(g, flipCount, elapsed) ==>
      && r.globals == g
      && (forall k :: 0 <= k < |out.data| && k != g.rateIndex ==> r.output.data[k] == out.data[k])
      && |r.output.data[g.rateIndex].flipData| == |out.data[g.rateIndex].flipData| + 1
      && var it := r.output.data[g.rateIndex].flipData[|out.data[g.rateIndex].flipData|];
         it == Inject(value, flipCount, decide, when) && r.value == it.errorData.errorValue
  {
    if ShouldStop(g, flipCount, elapsed) then
      Step(value, g.(rateIndex := AdvanceCursor(g.rateIndex, g.errRates)), out)
    else
      var it := Inject(value, flipCount, decide, when);
      var out' := Record(out, g.rateIndex, it);
      assert (out.data[g.rateIndex].flipData + [it])[..|out.data[g.rateIndex].flipData|] == out.data[g.rateIndex].flipData;
      Step(it.errorData.errorValue, g, out')
  }

  /** The cursor never passes the end of the rate list. */
  lemma CursorStaysInRange(g: Globals, out: Output, value: int, flipCount: int, elapsed: nat, decide: seq<bool>, when: string)
    requires !ShouldStop(g, flipCount, elapsed) ==> g.rateIndex < |out.data|
    requires !ShouldStop(g, flipCount, elapsed) ==> |ToBytes(Abs(value))| * 8 <= |decide|
    requires g.rateIndex <= |g.errRates|
    ensures var r := BitFlip(g, out, value, flipCount, elapsed, decide, when);
      g.rateIndex <= r.globals.rateIndex <= |r.globals.errRates|
  {
  }

  /** The recorded iteration number is the incoming flip count plus the
      number of recorded bit indices, each of which lies inside the byte
      serialisation of the input. */
  lemma IterationNumCountsFlips(value: int, flipCount: int, decide: seq<bool>, when: string)
    requires |ToBytes(Abs(value))| * 8 <= |decide|
    ensures var it := Inject(value, flipCount, decide, when);
      && it.iterationNum == flipCount + |it.errorData.intBits|
      && (forall k :: 0 <= k < |it.errorData.intBits| ==>
            it.errorData.intBits[k] < |ToBytes(Abs(value))| * 8 && decide[it.errorData.intBits[k]])
      && |it.errorData.errorBytes| == |ToBytes(Abs(value))|
  {
  }

  /** Without a selected bit the number comes back as its magnitude, and for
      a 256-bit input the delta is zero and both byte strings agree. */
  lemma NoDecisionKeepsValue(value: int, flipCount: int, decide: seq<bool>, when: string)
    requires |ToBytes(Abs(value))| * 8 <= |decide|
    requires forall p :: 0 <= p < |ToBytes(Abs(value))| * 8 ==> !decide[p]
    ensures var e := Inject(value, flipCount, decide, when).errorData;
      && e.errorValue == Abs(value)
      && e.intBits == []
      && (0 <= value < Modulus ==> e.deltaValue == 0 && e.previousBytes == e.errorBytes)
  {
    NoDecisionNoChange(ToBytes(Abs(value)), decide, flipCount);
    DecodeEncode(Abs(value));
  }

  /** For a 256-bit input the "before" snapshot is the input itself and its
      bytes are the bytes the flip loop starts from. */
  lemma PreviousIsInput(value: int, flipCount: int, decide: seq<bool>, when: string)
    requires |ToBytes(Abs(value))| * 8 <= |decide|
    requires 0 <= value < Modulus
    ensures var e := Inject(value, flipCount, decide, when).errorData;
      e.previousValue == value && e.previousBytes == ToBytes(Abs(value))
  {
  }

  /** Zero serialises to no bytes, so zero is never flipped. */
  lemma ZeroNeverFlips(flipCount: int, decide: seq<bool>, when: string)
    ensures var it := Inject(0, flipCount, decide, when);
      it.errorData.errorValue == 0 && it.errorData.intBits == [] && it.iterationNum == flipCount
  {
    assert ToBytes(Abs(0)) == [];
    NoDecisionKeepsValue(0, flipCount, decide, when);
  }

  /** For an input of 2^256 or more the "before" snapshot is truncated to 256
      bits while the flipped number is not, so a call that flips nothing
      reports a positive delta, a multiple of 2^256. */
  lemma WideInputDelta(value: int, flipCount: int, decide: seq<bool>, when: string)
    requires |ToBytes(Abs(value))| * 8 <= |decide|
    requires value >= Modulus
    requires forall p :: 0 <= p < |ToBytes(Abs(value))| * 8 ==> !decide[p]
    ensures var e := Inject(value, flipCount, decide, when).errorData;
      e.deltaValue > 0 && e.deltaValue % Modulus == 0
  {
    NoDecisionKeepsValue(value, flipCount, decide, when);
  }

  /** With fresh globals, "iteration" and "variable" configurations leave the
      duration at zero, so the time test stops every call. */
  lemma CountModesAlwaysStop(testType: string, testCount: int, flipCount: int, elapsed: nat)
    requires testType == "iteration" || testType == "variable"
    ensures ShouldStop(Configure(Unconfigured, testType, testCount), flipCount, elapsed)
  {
  }

  /** With fresh globals, a time configuration leaves both count limits at
      zero, so a call proceeds only with a flip count of at most zero inside
      the duration. */
  lemma TimeModeStop(testType: string, testCount: int, flipCount: int, elapsed: nat)
    requires testType != "iteration" && testType != "variable"
    ensures ShouldStop(Configure(Unconfigured, testType, testCount), flipCount, elapsed)
            <==> flipCount > 0 || elapsed >= testCount
  {
  }
}
