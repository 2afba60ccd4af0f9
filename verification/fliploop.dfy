/** The byte-wise flip loop of BitFlip. The random draw
    made for every bit is replaced by an oracle: `decide[i * 8 + j]` says
    whether bit `j` of byte `i` is selected. The loop XORs the range copy of
    the byte, not the slice element, so of several selected bits of one byte
    only the last one survives, while all of them are recorded and counted. */
module FlipLoop {

  datatype Option<T> = None | Some(value: T)

  /** The single-bit mask `1 << j` of a byte. */
  function Mask(j: nat): bv8
    requires j < 8
  {
    (1 as bv8) << j
  }

  /** Bit `k` of byte `x`, counting from the least significant bit. */
  predicate Bit(x: bv8, k: nat)
    requires k < 8
  {
    (x >> k) & 1 == 1
  }

  /** The oracle's decision for bit `j` of byte `i`. */
  predicate Decision(decide: seq<bool>, i: nat, j: nat)
    requires j < 8 && i * 8 + 8 <= |decide|
  {
    decide[i * 8 + j]
  }

  /** The largest selected bit below `j` of byte `i`, if any. */
  function LastSelected(decide: seq<bool>, i: nat, j: nat): (r: Option<nat>)
    requires j <= 8 && i * 8 + 8 <= |decide|
    ensures r.Some? ==> r.value < j
    decreases j
  {
    if j == 0 then None
    else if Decision(decide, i, j - 1) then Some(j - 1)
    else LastSelected(decide, i, j - 1)
  }

  /** LastSelected finds nothing exactly when no bit below `j` is selected,
      and otherwise a selected bit with no selected bit above it. */
  lemma {:induction false} LastSelectedIsLast(decide: seq<bool>, i: nat, j: nat)
    requires j <= 8 && i * 8 + 8 <= |decide|
    ensures LastSelected(decide, i, j).None? <==> forall k :: 0 <= k < j ==> !Decision(decide, i, k)
    ensures LastSelected(decide, i, j).Some? ==>
      var m := LastSelected(decide, i, j).value;
      m < j && Decision(decide, i, m) && forall k :: m < k < j ==> !Decision(decide, i, k)
    decreases j
  {
    if j > 0 && !Decision(decide, i, j - 1) {
      LastSelectedIsLast(decide, i, j - 1);
    }
  }

  /** What byte `i` (originally `b`) holds once bits `0 .. j-1` were tried:
      the original with the last selected bit flipped, or the original. */
  function FlippedByte(b: bv8, decide: seq<bool>, i: nat, j: nat): bv8
    requires j <= 8 && i * 8 + 8 <= |decide|
  {
    match LastSelected(decide, i, j)
    case None => b
    case Some(k) => b ^ Mask(k)
  }

  /** XOR with a single-bit mask changes exactly that bit. */
  lemma XorMaskChangesOneBit(b: bv8, j: nat)
    requires j < 8
    ensures forall k :: 0 <= k < 8 ==> (Bit(b ^ Mask(j), k) != Bit(b, k) <==> k == j)
  {
  }

  /** A byte with no selected bit keeps its value. */
  lemma UnselectedByteUnchanged(b: bv8, decide: seq<bool>, i: nat)
    requires i * 8 + 8 <= |decide|
    requires forall j :: 0 <= j < 8 ==> !Decision(decide, i, j)
    ensures FlippedByte(b, decide, i, 8) == b
  {
    LastSelectedIsLast(decide, i, 8);
  }

  /** A byte whose largest selected bit is `j` differs from the original in
      exactly bit `j`, whichever lower bits were selected too. */
  lemma FlippedByteDiffersInOneBit(b: bv8, decide: seq<bool>, i: nat, j: nat)
    requires i * 8 + 8 <= |decide| && j < 8
    requires Decision(decide, i, j) && forall k :: j < k < 8 ==> !Decision(decide, i, k)
    ensures forall k :: 0 <= k < 8 ==> (Bit(FlippedByte(b, decide, i, 8), k) != Bit(b, k) <==> k == j)
  {
    LastSelectedIsLast(decide, i, 8);
    assert LastSelected(decide, i, 8) == Some(j);
    XorMaskChangesOneBit(b, j);
  }

  /** Number of true decisions among the first `n`. */
  function TrueCount(decide: seq<bool>, n: nat): nat
    requires n <= |decide|
  {
    if n == 0 then 0 else TrueCount(decide, n - 1) + (if decide[n - 1] then 1 else 0)
  }

  /** State of the loop: the byte slice, the recorded bit indices and the
      running flip count. */
  datatype Scan = Scan(bytes: seq<bv8>, bits: seq<nat>, count: int)

  /** One pass of the inner loop body: when bit `j` of byte `i` is selected,
      count it, record `i * 8 + j` and store the range copy `byt` with bit
      `j` flipped. */
  function TryBit(byt: bv8, i: nat, j: nat, decide: seq<bool>, s: Scan): (r: Scan)
    requires i < |s.bytes| && i * 8 + 8 <= |decide| && j < 8
    ensures |r.bytes| == |s.bytes|
  {
    if Decision(decide, i, j) then Scan(s.bytes[i := byt ^ Mask(j)], s.bits + [i * 8 + j], s.count + 1)
    else s
  }

  /** The inner loop: bits 0 to 7 of byte `i` in turn, from bit `j` on;
      `byt` is the copy of the byte taken when the outer loop reached it. */
  function InnerLoop(byt: bv8, i: nat, j: nat, decide: seq<bool>, s: Scan): (r: Scan)
    requires i < |s.bytes| && i * 8 + 8 <= |decide| && j <= 8
    ensures |r.bytes| == |s.bytes|
    decreases 8 - j
  {
    if j == 8 then s else InnerLoop(byt, i, j + 1, decide, TryBit(byt, i, j, decide, s))
  }

  /** The outer loop: every byte of the slice in order, from byte `i` on,
      each read into a copy before its bits are tried. */
  function OuterLoop(decide: seq<bool>, i: nat, s: Scan): (r: Scan)
    requires i <= |s.bytes| && |s.bytes| * 8 <= |decide|
    ensures |r.bytes| == |s.bytes|
    decreases |s.bytes| - i
  {
    if i == |s.bytes| then s
    else OuterLoop(decide, i + 1, InnerLoop(s.bytes[i], i, 0, decide, s))
  }

  /** The whole loop over `bytes`, starting from flip count `count`. */
  function FlipBytes(bytes: seq<bv8>, decide: seq<bool>, count: int): (r: Scan)
    requires |bytes| * 8 <= |decide|
    ensures |r.bytes| == |bytes|
  {
    OuterLoop(decide, 0, Scan(bytes, [], count))
  }

  /** `bits` lists, in strictly increasing order, exactly the positions below
      `bound` whose decision is true. */
  ghost predicate RecordsExactly(decide: seq<bool>, bits: seq<nat>, bound: nat)
    requires bound <= |decide|
  {
    && (forall k :: 0 <= k < |bits| ==> bits[k] < bound && decide[bits[k]])
    && (forall a, b :: 0 <= a < b < |bits| ==> bits[a] < bits[b])
    && (forall p :: 0 <= p < bound && decide[p] ==> p in bits)
    && |bits| == TrueCount(decide, bound)
  }

  /** What the loop computes from `orig` and flip count `count0`: every byte
      is its flipped form, the recorded indices are exactly the selected
      positions, and the count grows by one per recorded index. */
  ghost predicate FlipSpec(orig: seq<bv8>, decide: seq<bool>, count0: int, r: Scan)
    requires |orig| * 8 <= |decide|
  {
    && |r.bytes| == |orig|
    && (forall k :: 0 <= k < |orig| ==> r.bytes[k] == FlippedByte(orig[k], decide, k, 8))
    && RecordsExactly(decide, r.bits, |orig| * 8)
    && r.count == count0 + |r.bits|
  }

  /** Bytes before `i` are done, byte `i` has seen bits `0 .. j-1`, and
      later bytes are untouched. */
  ghost predicate BytesProgress(orig: seq<bv8>, decide: seq<bool>, i: nat, j: nat, bytes: seq<bv8>)
    requires |orig| * 8 <= |decide|
  {
    && |bytes| == |orig| && i <= |orig| && j <= 8
    && (forall k :: 0 <= k < i ==> bytes[k] == FlippedByte(orig[k], decide, k, 8))
    && (i < |orig| ==> bytes[i] == FlippedByte(orig[i], decide, i, j))
    && (forall k :: i < k < |orig| ==> bytes[k] == orig[k])
  }

  /** Loop invariant: the bytes are as far as position `i * 8 + j`, every
      position before it has been recorded as the oracle decided, and the
      count has grown by one per recorded position. */
  ghost predicate Progress(orig: seq<bv8>, decide: seq<bool>, count0: int, i: nat, j: nat, s: Scan)
    requires |orig| * 8 <= |decide|
  {
    && BytesProgress(orig, decide, i, j, s.bytes)
    && (i == |orig| ==> j == 0)
    && RecordsExactly(decide, s.bits, i * 8 + j)
    && s.count == count0 + |s.bits|
  }

  /** Trying position `p` keeps the recorded list exact. */
  lemma RecordStep(decide: seq<bool>, bits: seq<nat>, p: nat)
    requires p < |decide| && RecordsExactly(decide, bits, p)
    ensures decide[p] ==> RecordsExactly(decide, bits + [p], p + 1)
    ensures !decide[p] ==> RecordsExactly(decide, bits, p + 1)
  {
    assert TrueCount(decide, p + 1) == TrueCount(decide, p) + (if decide[p] then 1 else 0);
    if decide[p] {
      var bits' := bits + [p];
      forall q | 0 <= q < p + 1 && decide[q]
        ensures q in bits'
      {
        if q < p {
          var k :| 0 <= k < |bits| && bits[k] == q;
          assert bits'[k] == q;
        } else {
          assert bits'[|bits|] == q;
        }
      }
    }
  }

  /** Trying a selected bit `j` of byte `i` keeps the bytes in step. */
  lemma ByteStepSelected(orig: seq<bv8>, decide: seq<bool>, i: nat, j: nat, bytes: seq<bv8>)
    requires |orig| * 8 <= |decide| && i < |orig| && j < 8
    requires BytesProgress(orig, decide, i, j, bytes) && Decision(decide, i, j)
    ensures BytesProgress(orig, decide, i, j + 1, bytes[i := orig[i] ^ Mask(j)])
  {
    var bytes' := bytes[i := orig[i] ^ Mask(j)];
    assert LastSelected(decide, i, j + 1) == Some(j);
    assert bytes'[i] == FlippedByte(orig[i], decide, i, j + 1);
    assert forall k :: 0 <= k < |bytes| && k != i ==> bytes'[k] == bytes[k];
  }

  /** Trying an unselected bit `j` of byte `i` keeps the bytes in step. */
  lemma ByteStepUnselected(orig: seq<bv8>, decide: seq<bool>, i: nat, j: nat, bytes: seq<bv8>)
    requires |orig| * 8 <= |decide| && i < |orig| && j < 8
    requires BytesProgress(orig, decide, i, j, bytes) && !Decision(decide, i, j)
    ensures BytesProgress(orig, decide, i, j + 1, bytes)
  {
    assert LastSelected(decide, i, j + 1) == LastSelected(decide, i, j);
  }

  /** One step of the inner loop keeps the invariant. */
  lemma InnerStep(orig: seq<bv8>, decide: seq<bool>, count0: int, i: nat, j: nat, s: Scan)
    requires |orig| * 8 <= |decide| && i < |orig| && j < 8
    requires Progress(orig, decide, count0, i, j, s)
    ensures Progress(orig, decide, count0, i, j + 1, TryBit(orig[i], i, j, decide, s))
  {
    RecordStep(decide, s.bits, i * 8 + j);
    if Decision(decide, i, j) {
      ByteStepSelected(orig, decide, i, j, s.bytes);
    } else {
      ByteStepUnselected(orig, decide, i, j, s.bytes);
    }
  }

  lemma {:induction false} InnerLoopProgress(orig: seq<bv8>, decide: seq<bool>, count0: int, i: nat, j: nat, s: Scan)
    requires |orig| * 8 <= |decide| && i < |orig|
    requires Progress(orig, decide, count0, i, j, s)
    ensures Progress(orig, decide, count0, i, 8, InnerLoop(orig[i], i, j, decide, s))
    decreases 8 - j
  {
    if j < 8 {
      InnerStep(orig, decide, count0, i, j, s);
      InnerLoopProgress(orig, decide, count0, i, j + 1, TryBit(orig[i], i, j, decide, s));
    }
  }

  /** Finishing byte `i` moves the invariant on to byte `i + 1`. */
  lemma NextByte(orig: seq<bv8>, decide: seq<bool>, count0: int, i: nat, s: Scan)
    requires |orig| * 8 <= |decide| && i < |orig|
    requires Progress(orig, decide, count0, i, 8, s)
    ensures Progress(orig, decide, count0, i + 1, 0, s)
  {
    assert i * 8 + 8 == (i + 1) * 8 + 0;
    if i + 1 < |orig| {
      assert LastSelected(decide, i + 1, 0) == None;
    }
  }

  /** Past the last byte the invariant is the specification. */
  lemma AllBytesDone(orig: seq<bv8>, decide: seq<bool>, count0: int, s: Scan)
    requires |orig| * 8 <= |decide|
    requires Progress(orig, decide, count0, |orig|, 0, s)
    ensures FlipSpec(orig, decide, count0, s)
  {
    assert |orig| * 8 + 0 == |orig| * 8;
  }

  /** Running the inner loop over byte `i` moves the invariant on to byte `i + 1`. */
  lemma WholeByte(orig: seq<bv8>, decide: seq<bool>, count0: int, i: nat, s: Scan)
    requires |orig| * 8 <= |decide| && i < |orig|
    requires Progress(orig, decide, count0, i, 0, s)
    ensures s.bytes[i] == orig[i]
    ensures Progress(orig, decide, count0, i + 1, 0, InnerLoop(orig[i], i, 0, decide, s))
  {
    assert LastSelected(decide, i, 0) == None;
    InnerLoopProgress(orig, decide, count0, i, 0, s);
    NextByte(orig, decide, count0, i, InnerLoop(orig[i], i, 0, decide, s));
  }

  lemma {:induction false} OuterLoopProgress(orig: seq<bv8>, decide: seq<bool>, count0: int, i: nat, s: Scan)
    requires |orig| * 8 <= |decide|
    requires Progress(orig, decide, count0, i, 0, s)
    ensures FlipSpec(orig, decide, count0, OuterLoop(decide, i, s))
    decreases |orig| - i
  {
    if i < |orig| {
      WholeByte(orig, decide, count0, i, s);
      var s' := InnerLoop(orig[i], i, 0, decide, s);
      assert OuterLoop(decide, i, s) == OuterLoop(decide, i + 1, s');
      OuterLoopProgress(orig, decide, count0, i + 1, s');
    } else {
      AllBytesDone(orig, decide, count0, s);
    }
  }

  /** The loop meets its specification. */
  lemma FlipBytesMeetsSpec(bytes: seq<bv8>, decide: seq<bool>, count: int)
    requires |bytes| * 8 <= |decide|
    ensures FlipSpec(bytes, decide, count, FlipBytes(bytes, decide, count))
  {
    OuterLoopProgress(bytes, decide, count, 0, Scan(bytes, [], count));
  }

  /** With no selected position the loop changes nothing and records nothing. */
  lemma NoDecisionNoChange(bytes: seq<bv8>, decide: seq<bool>, count: int)
    requires |bytes| * 8 <= |decide|
    requires forall p :: 0 <= p < |bytes| * 8 ==> !decide[p]
    ensures FlipBytes(bytes, decide, count) == Scan(bytes, [], count)
  {
    FlipBytesMeetsSpec(bytes, decide, count);
    var r := FlipBytes(bytes, decide, count);
    forall k | 0 <= k < |bytes|
      ensures r.bytes[k] == bytes[k]
    {
      assert forall j :: 0 <= j < 8 ==> !Decision(decide, k, j);
      UnselectedByteUnchanged(bytes[k], decide, k);
    }
    assert r.bytes == bytes;
    TrueCountNone(decide, |bytes| * 8);
  }

  lemma {:induction false} TrueCountNone(decide: seq<bool>, n: nat)
    requires n <= |decide|
    requires forall p :: 0 <= p < n ==> !decide[p]
    ensures TrueCount(decide, n) == 0
  {
    if n > 0 {
      TrueCountNone(decide, n - 1);
    }
  }

  lemma {:induction false} TrueCountAll(decide: seq<bool>, n: nat)
    requires n <= |decide|
    requires forall p :: 0 <= p < n ==> decide[p]
    ensures TrueCount(decide, n) == n
  {
    if n > 0 {
      TrueCountAll(decide, n - 1);
    }
  }

  /** With every position selected, every position is recorded and counted,
      yet each byte differs from the original only in its top bit. */
  lemma AllDecisionsFlipOnlyTopBits(bytes: seq<bv8>, decide: seq<bool>, count: int)
    requires |bytes| * 8 <= |decide|
    requires forall p :: 0 <= p < |bytes| * 8 ==> decide[p]
    ensures |FlipBytes(bytes, decide, count).bits| == |bytes| * 8
    ensures FlipBytes(bytes, decide, count).count == count + |bytes| * 8
    ensures forall k :: 0 <= k < |bytes| ==> FlipBytes(bytes, decide, count).bytes[k] == bytes[k] ^ Mask(7)
  {
    FlipBytesMeetsSpec(bytes, decide, count);
    TrueCountAll(decide, |bytes| * 8);
    forall k | 0 <= k < |bytes|
      ensures FlippedByte(bytes[k], decide, k, 8) == bytes[k] ^ Mask(7)
    {
      assert Decision(decide, k, 7);
    }
  }

  /** The inner loop over the bits of byte `i`, written imperatively. */
  method FlipByteLoop(byt: bv8, i: nat, decide: seq<bool>, s: Scan) returns (r: Scan)
    requires i < |s.bytes| && i * 8 + 8 <= |decide|
    ensures r == InnerLoop(byt, i, 0, decide, s)
  {
    var newBytes: seq<bv8>, bits: seq<nat>, newCount: int := s.bytes, s.bits, s.count;
    var j := 0;
    while j < 8
      invariant j <= 8 && |newBytes| == |s.bytes|
      invariant InnerLoop(byt, i, j, decide, Scan(newBytes, bits, newCount)) == InnerLoop(byt, i, 0, decide, s)
    {
      ghost var before := Scan(newBytes, bits, newCount);
      if Decision(decide, i, j) {
        newCount := newCount + 1;
        bits := bits + [i * 8 + j];
        newBytes := newBytes[i := byt ^ Mask(j)];
      }
      assert Scan(newBytes, bits, newCount) == TryBit(byt, i, j, decide, before);
      j := j + 1;
    }
    r := Scan(newBytes, bits, newCount);
  }

  /** The nested loop over bytes and their bits, written imperatively. */
  method FlipBytesLoop(bytes: seq<bv8>, decide: seq<bool>, count: int) returns (newBytes: seq<bv8>, bits: seq<nat>, newCount: int)
    requires |bytes| * 8 <= |decide|
    ensures Scan(newBytes, bits, newCount) == FlipBytes(bytes, decide, count)
    ensures FlipSpec(bytes, decide, count, Scan(newBytes, bits, newCount))
  {
    var s := Scan(bytes, [], count);
    var i := 0;
    while i < |s.bytes|
      invariant i <= |s.bytes| == |bytes|
      invariant OuterLoop(decide, i, s) == FlipBytes(bytes, decide, count)
    {
      s := FlipByteLoop(s.bytes[i], i, decide, s);
      i := i + 1;
    }
    newBytes, bits, newCount := s.bytes, s.bits, s.count;
    FlipBytesMeetsSpec(bytes, decide, count);
  }
}
