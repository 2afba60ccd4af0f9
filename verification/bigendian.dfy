/** Conversion between small naturals and bytes. */
module Octet {

  /** A byte holds every number below 256 exactly. */
  lemma ByteValue(m: nat)
    requires m < 256
    ensures (m as bv8) as nat == m
  {
  }
}

/** Big-endian byte strings and the natural numbers they denote, as used by
    math/big: `Bytes` writes the minimal big-endian form of a magnitude and
    `SetBytes` reads any big-endian byte string back as a non-negative number. */
module BigEndian {
  import opened Octet

  /** Value of a big-endian byte string (the reading done by SetBytes). */
  function FromBytes(bs: seq<bv8>): nat
    decreases |bs|
  {
    if |bs| == 0 then 0 else FromBytes(bs[..|bs| - 1]) * 256 + bs[|bs| - 1] as nat
  }

  /** Minimal big-endian serialisation of `n` (the writing done by Bytes):
      empty for zero, otherwise no leading zero byte. */
  function ToBytes(n: nat): (r: seq<bv8>)
    ensures |r| == 0 <==> n == 0
    ensures |r| > 0 ==> r[0] != 0
    decreases n
  {
    if n == 0 then [] else ToBytes(n / 256) + [(n % 256) as bv8]
  }

  /** A byte string with no leading zero byte; the empty string is minimal. */
  predicate Minimal(bs: seq<bv8>) {
    |bs| == 0 || bs[0] != 0
  }

  /** Drops the leading zero bytes of `bs`. */
  function StripLeadingZeros(bs: seq<bv8>): (r: seq<bv8>)
    ensures Minimal(r)
    ensures |r| <= |bs| && r == bs[|bs| - |r|..]
    ensures forall k :: 0 <= k < |bs| - |r| ==> bs[k] == 0
    decreases |bs|
  {
    if |bs| > 0 && bs[0] == 0 then StripLeadingZeros(bs[1..]) else bs
  }

  /** Decoding the minimal encoding gives the number back. */
  lemma {:induction false} DecodeEncode(n: nat)
    ensures FromBytes(ToBytes(n)) == n
    decreases n
  {
    if n > 0 {
      var q, m := n / 256, n % 256;
      var p := ToBytes(q);
      var b := m as bv8;
      assert ToBytes(n) == p + [b];
      assert (p + [b])[..|p|] == p;
      DecodeEncode(q);
      ByteValue(m);
    }
  }

  /** A byte string whose first byte is not zero denotes a positive number. */
  lemma {:induction false} LeadingNonZeroIsPositive(bs: seq<bv8>)
    requires |bs| > 0 && bs[0] != 0
    ensures FromBytes(bs) > 0
    decreases |bs|
  {
    if |bs| > 1 {
      LeadingNonZeroIsPositive(bs[..|bs| - 1]);
    }
  }

  /** Encoding the value of a minimal byte string gives the string back. */
  lemma {:induction false} EncodeDecode(bs: seq<bv8>)
    requires Minimal(bs)
    ensures ToBytes(FromBytes(bs)) == bs
    decreases |bs|
  {
    if |bs| > 0 {
      var p := bs[..|bs| - 1];
      var last := bs[|bs| - 1];
      var n := FromBytes(bs);
      LeadingNonZeroIsPositive(bs);
      assert n == FromBytes(p) * 256 + last as nat;
      assert n / 256 == FromBytes(p);
      assert n % 256 == last as nat;
      if |p| > 0 {
        EncodeDecode(p);
      }
      assert ToBytes(n) == ToBytes(FromBytes(p)) + [last];
      assert bs == p + [last];
    }
  }

  /** A leading zero byte does not change the value. */
  lemma {:induction false} LeadingZeroIgnored(bs: seq<bv8>)
    ensures FromBytes([0] + bs) == FromBytes(bs)
    decreases |bs|
  {
    if |bs| > 0 {
      var p := bs[..|bs| - 1];
      assert ([0] + bs)[..|bs|] == [0] + p;
      LeadingZeroIgnored(p);
    }
  }

  /** Re-encoding a decoded byte string yields it without its leading zeros:
      a flip that clears the top byte shortens the next serialisation. */
  lemma {:induction false} CanonicalAfterDecode(bs: seq<bv8>)
    ensures ToBytes(FromBytes(bs)) == StripLeadingZeros(bs)
    decreases |bs|
  {
    if |bs| > 0 && bs[0] == 0 {
      assert bs == [0] + bs[1..];
      LeadingZeroIgnored(bs[1..]);
      CanonicalAfterDecode(bs[1..]);
    } else {
      EncodeDecode(bs);
    }
  }
}
