/** The two slicing expressions both validators apply to the captured
    segment: reading the embedded checksum from bytes [16, 18) and building a
    copy with those bytes zeroed. The offset is fixed at 16 whatever the TCP
    data-offset field says. Python slicing clamps, so on a segment shorter
    than 18 bytes both expressions still produce a value. */
module Segment {
  import opened Common
  import opened Checksum

  /** Offset of the Checksum field in the TCP header. */
  const ChecksumOffset: nat := 16

  /** `int.from_bytes(tcp_data[16:18], "big")`. */
  function OriginalChecksum(segment: seq<Byte>): (c: nat)
    ensures c <= 0xFFFF
    ensures |segment| >= 18 ==> c == 256 * (segment[16] as int) + segment[17]
    ensures |segment| == 17 ==> c == segment[16]
    ensures |segment| <= 16 ==> c == 0
  {
    var field := Slice(segment, ChecksumOffset, ChecksumOffset + 2);
    if |field| == 2 then
      FromBytesBE2(field);
      FromBytesBE(field)
    else
      assert |field| == 1 ==> field[..0] == [];
      FromBytesBE(field)
  }

  /** `tcp_data[:16] + b"\x00\x00" + tcp_data[18:]`. */
  function ZeroChecksumField(segment: seq<Byte>): (z: seq<Byte>)
    ensures |segment| >= 18 ==> z == segment[16 := 0][17 := 0]
    ensures |segment| < 18 ==> z == segment[..Min(|segment|, 16)] + [0, 0]
  {
    Slice(segment, 0, ChecksumOffset) + [0, 0] + segment[Min(ChecksumOffset + 2, |segment|)..]
  }

  /** The checksum a receiver recomputes for `segment` under `header`: over the
      pseudo-header followed by the segment with its checksum field zeroed. */
  function ComputedChecksum(header: seq<Byte>, segment: seq<Byte>): (c: nat)
    ensures c <= 0xFFFF
  {
    InternetChecksum(header + ZeroChecksumField(segment))
  }

  /** For a segment that holds the whole field, the zeroed copy has the same
      length, zeros at 16 and 17 and every other byte unchanged. */
  lemma ZeroedCopy(segment: seq<Byte>)
    requires |segment| >= 18
    ensures |ZeroChecksumField(segment)| == |segment|
    ensures ZeroChecksumField(segment)[16] == 0 && ZeroChecksumField(segment)[17] == 0
    ensures forall i :: 0 <= i < |segment| && i != 16 && i != 17 ==> ZeroChecksumField(segment)[i] == segment[i]
  {
  }

  /** The zeroed copy does not depend on what the checksum field held. */
  lemma ZeroedIgnoresField(segment: seq<Byte>, hi: Byte, lo: Byte)
    requires |segment| >= 18
    ensures ZeroChecksumField(segment[16 := hi][17 := lo]) == ZeroChecksumField(segment)
  {
  }

  /** Changing a byte of the Checksum field changes the value read from it and
      leaves the zeroed copy alone. */
  lemma FieldByteChange(segment: seq<Byte>, j: nat, v: Byte)
    requires |segment| >= 18 && (j == 16 || j == 17) && v != segment[j]
    ensures OriginalChecksum(segment[j := v]) != OriginalChecksum(segment)
    ensures ZeroChecksumField(segment[j := v]) == ZeroChecksumField(segment)
  {
    var changed := segment[j := v];
    assert changed == segment[16 := changed[16]][17 := changed[17]];
    ZeroedIgnoresField(segment, changed[16], changed[17]);
  }

  /** Changing a byte outside the Checksum field keeps the value read from it
      and changes the zeroed copy at the same offset. */
  lemma PayloadByteChange(segment: seq<Byte>, j: nat, v: Byte)
    requires |segment| >= 18 && j < |segment| && j != 16 && j != 17
    ensures OriginalChecksum(segment[j := v]) == OriginalChecksum(segment)
    ensures ZeroChecksumField(segment[j := v]) == ZeroChecksumField(segment)[j := v]
  {
  }

  /** Behind a pseudo-header, a byte changed outside the Checksum field is a
      byte changed at the same place in the checksummed data. */
  lemma ZeroedAfterHeader(header: seq<Byte>, segment: seq<Byte>, j: nat, v: Byte)
    requires |segment| >= 18 && j < |segment| && j != 16 && j != 17
    ensures (header + ZeroChecksumField(segment))[|header| + j] == segment[j]
    ensures header + ZeroChecksumField(segment[j := v]) == (header + ZeroChecksumField(segment))[|header| + j := v]
  {
    var zeroed := ZeroChecksumField(segment);
    PayloadByteChange(segment, j, v);
    assert zeroed[j] == segment[j];
  }

  /** A changed byte outside the Checksum field changes the recomputed
      checksum and keeps the embedded one. */
  lemma PayloadByteChangesChecksum(header: seq<Byte>, segment: seq<Byte>, j: nat, v: Byte)
    requires |segment| >= 18 && j < |segment| && j != 16 && j != 17 && v != segment[j]
    ensures OriginalChecksum(segment[j := v]) == OriginalChecksum(segment)
    ensures ComputedChecksum(header, segment[j := v]) != ComputedChecksum(header, segment)
  {
    PayloadByteChange(segment, j, v);
    ZeroedAfterHeader(header, segment, j, v);
    ChecksumDetectsByteChange(header + ZeroChecksumField(segment), header + ZeroChecksumField(segment[j := v]), |header| + j, v);
  }

  /** A changed byte of the pseudo-header changes the recomputed checksum. */
  lemma HeaderByteChangesChecksum(header: seq<Byte>, segment: seq<Byte>, p: nat, v: Byte)
    requires p < |header| && v != header[p]
    ensures ComputedChecksum(header[p := v], segment) != ComputedChecksum(header, segment)
  {
    var zeroed := ZeroChecksumField(segment);
    assert header[p := v] + zeroed == (header + zeroed)[p := v];
    ChecksumDetectsByteChange(header + zeroed, header[p := v] + zeroed, p, v);
  }
}
