# eth-bit-flip fault injector, modelled in Dafny

The Go package `BitFlip` simulates single-bit memory faults on `*big.Int`
values. `Initalize` picks a test type ("iteration", "variable" or a time
limit), sets the matching limit and adds one bucket (`ErrorRate`) per error
rate to an `Output`. Each `BitFlip` call first checks the stop condition. On
a stop it advances the bucket cursor while the cursor is below the length
of the rate list, and hands the number back untouched.
Otherwise it:

- snapshots the number (reduced to 256 bits by `U256`);
- walks every bit of the number's minimal big-endian bytes;
- flips the bits the random draw selects and records their indices `i*8+j`;
- reassembles the number from the mutated bytes;
- appends an `Iteration` event with the before/after values, the byte
  strings, the flipped indices and the delta to the active bucket.

The model has these modules:

- `Octet` and `BigEndian` (`bigendian.dfy`): `ToBytes` is math/big's `Bytes` and
  `FromBytes` is `SetBytes`. Both round trips are proved, and so is the
  fact that decoding and re-encoding drops leading zero bytes.
- `Word256` (`word256.dfy`): `U256` is reduction modulo 2^256.
- `FlipLoop` (`fliploop.dfy`): the nested flip loop. It is a pure
  function (`FlipBytes`) and an imperative method (`FlipBytesLoop`, whose
  inner loop is `FlipByteLoop`) with the same result. Both are tied to an independent description, `FlipSpec`.
- `Flip` (`flip.dfy`): the `ErrorData`/`Iteration`/`ErrorRate`/`Output`
  datatypes (the structs at flip.go:20-42), the package variables at
  flip.go:44-52 as a `Globals` value with their zero values as
  `Unconfigured`, the stop check,
  `Configure`/`AddBuckets`/`Initalize`, `Inject` (the non-stop body) and
  `BitFlip`.

How the environment is represented:

- The random draw for bit `j` of byte `i` is an oracle entry
  `decide[i*8+j]`.
- The `elapsed` parameter (nanoseconds) is the time since the start time
  that the last time-mode `Initalize` set. Only that branch sets the start
  time, so in "iteration" and "variable" runs the clock counts from an
  earlier time-mode setup, or from Go's zero time if there was none.
- The formatted timestamp is the `when` parameter.

The intended design stops per test type, flips each bit independently at
the bucket's rate, and passes every call through once the buckets are
exhausted. Where the code departs from that design, the model follows the
code:

- The stop check ORs all three tests whatever the test type. It uses `>` for
  both counts and `>=` for time. The limits the test type does not set keep
  their previous values, which are zero in a fresh process. So
  "iteration" and "variable" runs stop on every call
  (`Flip.CountModesAlwaysStop`), and time runs stop on any positive flip
  count (`Flip.TimeModeStop`).
- The flip loop XORs the range copy `byt`, not `bytNum[i]`. When several
  bits of one byte are selected, the byte ends up changed only in the
  highest one, while every selected index is recorded and counted. With
  every bit selected, each byte changes only in bit 7
  (`FlipLoop.AllDecisionsFlipOnlyTopBits`).
- `Bytes()` of zero is empty, so zero has no candidate bits and is never
  flipped (`Flip.ZeroNeverFlips`).
- The cursor is read on every stop and advanced only while it is below the
  rate-list length (never, in the source; see "Left out"). It selects a
  bucket only on a call where the stop check does not fire. A cursor past the last
  rate does not make calls pass through: a non-stop call indexes the active
  bucket, and this model requires it to exist.
- The "before" value is cut to 256 bits but the "after" value is not.
  An input of 2^256 or more therefore reports a positive delta even when
  nothing flips (`Flip.WideInputDelta`).
- A bucket rate of 0 does not disable flipping. Both sides of the draw
  become `Floor(x/0)`, which is +Inf for every positive draw, so almost
  every bit is selected. The draw is an oracle here, so this is stated but
  not proved.

## Model

| member | source | states |
|---|---|---|
| `BigEndian.ToBytes` | flip.go:101-102 | The serialisation is empty exactly for zero and otherwise starts with a non-zero byte (minimal big-endian form). |
| `BigEndian.FromBytes` | flip.go:116 | `SetBytes` reads any byte string as a big-endian magnitude. The round trips `DecodeEncode` and `EncodeDecode` and the fact `LeadingZeroIgnored` pin down its meaning. |
| `BigEndian.StripLeadingZeros` | flip.go:116 | The result is minimal, a suffix of the input, and everything dropped is zero. |
| `BigEndian.DecodeEncode` | flip.go:102-116 | Decoding the minimal bytes of `n` gives back `n` (`SetBytes` after `Bytes`). |
| `BigEndian.EncodeDecode` | flip.go:102-116 | Encoding the value of a minimal byte string gives back that string. |
| `BigEndian.LeadingZeroIgnored` | flip.go:116 | A leading zero byte does not change the decoded value. |
| `BigEndian.CanonicalAfterDecode` | flip.go:116-126 | The minimal bytes of the reassembled number are the flipped bytes without their leading zeros, so a cleared top byte shrinks the next call's candidate bits. |
| `Word256.U256` | flip.go:100 | The snapshot is below 2^256, congruent to the input modulo 2^256, and equal to the input when the input is already a 256-bit value. |
| `FlipLoop.TryBit` | flip.go:107-111 | One pass of the inner body keeps the slice length. `InnerStep` shows that it records and counts position `i*8+j` exactly when that position is selected, and that it stores the range copy with bit `j` flipped. |
| `FlipLoop.InnerLoop` | flip.go:106-112 | The inner loop keeps the slice length. `InnerLoopProgress` shows that it finishes byte `i` as `FlipSpec` describes. |
| `FlipLoop.OuterLoop` | flip.go:105-113 | The outer loop keeps the slice length. `OuterLoopProgress` shows that from any byte the rest of the loop meets `FlipSpec`. |
| `FlipLoop.FlipBytes` | flip.go:104-113 | The whole loop keeps the slice length. `FlipBytesMeetsSpec` states what it computes. |
| `FlipLoop.LastSelectedIsLast` | flip.go:106-110 | The last selected bit of a byte is selected, nothing above it is, and there is none exactly when no bit of the byte is selected. |
| `FlipLoop.UnselectedByteUnchanged` | flip.go:105-110 | A byte none of whose bits is selected leaves the loop unchanged. |
| `FlipLoop.FlippedByteDiffersInOneBit` | flip.go:105-110 | A byte whose largest selected bit is `j` differs from the original in exactly bit `j`, even when lower bits were selected too, because every XOR starts from the range copy. |
| `FlipLoop.FlipBytesMeetsSpec` | flip.go:105-113 | The loop keeps the length and flips each byte as above. It records, in strictly increasing order, exactly the positions `i*8+j` below `8*len` whose decision is true. The count grows by one per recorded index. |
| `FlipLoop.NoDecisionNoChange` | flip.go:105-113 | With no decision true the bytes, the recorded list (empty) and the count are unchanged. |
| `FlipLoop.AllDecisionsFlipOnlyTopBits` | flip.go:105-113 | With every decision true all `8*len` positions are recorded and counted, yet every byte differs from the original only in bit 7. |
| `FlipLoop.FlipByteLoop` | flip.go:106-112 | The imperative inner loop over the bits of one byte computes exactly `InnerLoop`. |
| `FlipLoop.FlipBytesLoop` | flip.go:104-113 | The nested loops, written imperatively, compute the same bytes, indices and count as the functional model and meet the loop's specification. |
| `Flip.ShouldStop` | flip.go:86-88 | The stop check. `StopIsMonotone`, `CountModesAlwaysStop` and `TimeModeStop` state its consequences, and `BitFlip` states what each outcome does. |
| `Flip.AdvanceCursor` | flip.go:89-91 | On a stop the cursor moves by at most one. It moves by exactly one if and only if it is below the number of rates. |
| `Flip.Abs` | flip.go:102 | The magnitude that `Bytes` serialises is the input or its negation and is never negative, so the sign of a negative input is lost. |
| `Flip.StopIsMonotone` | flip.go:86-88 | Under fixed limits, a call that stops implies a stop for every larger-or-equal flip count and elapsed time. |
| `Flip.CountModesAlwaysStop` | flip.go:63-88 | From the unconfigured state, an "iteration" or "variable" configuration leaves the duration at zero, so every call stops. |
| `Flip.TimeModeStop` | flip.go:63-88 | From the unconfigured state, a time configuration stops a call exactly when the flip count is positive or the elapsed time has reached the duration. |
| `Flip.Configure` | flip.go:62-71 | The test type is recorded. "iteration" sets only the iteration limit, "variable" only the variable limit, and any other type only the duration. The rate list and the cursor are untouched. |
| `Flip.AddBuckets` | flip.go:72-76 | One bucket per rate is appended after the existing ones, in input order (duplicates included), each with an empty event list; existing buckets are kept. |
| `Flip.Initalize` | flip.go:61-77 | The limits are configured and the output gains exactly one empty bucket per supplied rate, in order, after the buckets it already had. |
| `Flip.Inject` | flip.go:95-130 | The event's before value is `U256(input)` with its minimal bytes, and its bytes/indices/iteration number meet the loop specification starting from the input's bytes and flip count. Its after value re-encodes to the flipped bytes without leading zeros, and its delta is after minus before. |
| `Flip.Record` | flip.go:136 | Only the active bucket changes, and only by the new event at its end; all other buckets and the rate are kept. |
| `Flip.BitFlip` | flip.go:82-139 | On a stop, the input comes back, the output is untouched and only the cursor moves, by one exactly when it is below the rate count. Otherwise, the state is unchanged, the active bucket gains exactly the `Inject` event and the after value is returned. In both cases every bucket keeps its rate and its earlier recorded events. Events are immutable copies taken at the call; see `Flip.BitFlip` under "Left out" for the aliasing this does not model. |
| `Flip.CursorStaysInRange` | flip.go:89-91 | The cursor never decreases and, once within the rate count, never passes it. |
| `Flip.IterationNumCountsFlips` | flip.go:108-120 | The iteration number equals the incoming flip count plus the number of recorded indices. Every index is a selected position below `8*len`, and the flipped bytes keep the input's length. |
| `Flip.NoDecisionKeepsValue` | flip.go:99-127 | With no decision true the returned number is the input's magnitude and no index is recorded; for a 256-bit input the delta is zero and the before and after bytes coincide. |
| `Flip.PreviousIsInput` | flip.go:99-102 | For a 256-bit input the before value is the input and its bytes are the bytes the loop starts from. |
| `Flip.ZeroNeverFlips` | flip.go:102-113 | Zero has no bytes, so no bit is flipped or recorded and the iteration number is the incoming count. |
| `Flip.WideInputDelta` | flip.go:99-127 | For an input of at least 2^256 with no flip, the delta is a positive multiple of 2^256. |

## Left out

- Randomness: the per-call reseeding from the clock and the float test `Floor(r1/rate) == Floor(r2/rate)`. Each per-bit draw is an oracle decision, so the rate is carried but never used to decide.
- Wall-clock time: `time.Now` and `time.Since` become the `elapsed` parameter. The timestamp string becomes the `when` parameter.
- Float-to-duration conversion of the time limit: the duration is an integer number of nanoseconds.
- Go type assertions on the test count, which panic on a wrong type. The test count is an integer.
- JSON marshalling, console printing, hex encoding and `Output.MarshalIndent`. These are formatting and I/O. The byte fields hold the bytes that the source hex-encodes.
- The `IBitFlip` interface: it declares a signature that the code does not implement.
- `marrErrRates` is never assigned in the source, so there the cursor never advances. The model keeps the rate list as a `Globals` field so that the cursor rule can be stated.
- `Initalize` receives `Output` by value, so in Go the caller never sees the new buckets. The model returns them.
- A cursor equal to the bucket count on a non-stop call panics in Go. `Flip.BitFlip` requires the cursor to be in range on that path.
- Flip.BitFlip: the Go code mutates the caller's `*big.Int` in place (flip.go:116). It stores that same pointer as the event's `ErrorValue` (flip.go:125) and returns it (flip.go:138). So a later non-stop call on the returned number also rewrites the `ErrorValue` of earlier events. The model records an immutable value taken at the call, and its promise that earlier events are kept is about these recorded values, not about the aliased Go objects.
- Integer widths: the flip count and iteration number are Go `int`. Their wrap-around is not modelled, because it needs a flip count near 2^63. The caller chooses the incoming count, so this takes a count near `MaxInt` with both limits at least as large.
