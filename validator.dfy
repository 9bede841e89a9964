/** `validate_tcp_checksum` of tcp_validator.py, from the point where the
    address text has been split into two address strings and the segment
    bytes have been read: refuse a segment too short to hold the Checksum
    field, build the pseudo-header, recompute the checksum over the
    pseudo-header and the segment with its field zeroed, and compare with the
    value the segment carries. */
module Validator {
  import opened Common
  import opened Checksum
  import opened Address
  import opened PseudoHeader
  import opened Segment

  /** A segment must reach past the Checksum field at [16, 18). */
  const MinSegmentLength: nat := 18

  /** The verdict of tcp_validator.py for one (source, destination, segment)
      triple; an `Err` is an exception that escapes `validate_tcp_checksum`. */
  function Validate(sourceIp: string, destIp: string, segment: seq<Byte>): (r: Result<Verdict>)
    ensures |segment| < MinSegmentLength ==> r == Ok(Fail)
    ensures |segment| >= MinSegmentLength ==>
      r.Err? == CreatePseudoHeader(sourceIp, destIp, |segment|).Err? &&
      (r.Err? ==> r.error == CreatePseudoHeader(sourceIp, destIp, |segment|).error)
    ensures r == Ok(Pass) <==>
      && |segment| >= MinSegmentLength
      && CreatePseudoHeader(sourceIp, destIp, |segment|).Ok?
      && ComputedChecksum(CreatePseudoHeader(sourceIp, destIp, |segment|).value, segment) == OriginalChecksum(segment)
  {
    if |segment| < MinSegmentLength then
      Ok(Fail)
    else
      var header :- CreatePseudoHeader(sourceIp, destIp, |segment|);
      var original := OriginalChecksum(segment);
      var computed := InternetChecksum(header + ZeroChecksumField(segment));
      Ok(if computed == original then Pass else Fail)
  }

  /** What a sender stores (section 3.1 of RFC 793): the segment with its
      Checksum field set, big-endian, to the checksum computed with the field
      zeroed. */
  function Seal(header: seq<Byte>, segment: seq<Byte>): (sealed: seq<Byte>)
    requires |segment| >= MinSegmentLength
    ensures |sealed| == |segment|
    ensures forall i :: 0 <= i < |segment| && i != 16 && i != 17 ==> sealed[i] == segment[i]
    ensures OriginalChecksum(sealed) == ComputedChecksum(header, segment)
  {
    var c := ComputedChecksum(header, segment);
    segment[16 := c / 256][17 := c % 256]
  }

  /** A segment passes exactly when it is already sealed: its Checksum field
      holds what a sender would have written there. */
  lemma PassIffSealed(sourceIp: string, destIp: string, segment: seq<Byte>)
    requires |segment| >= MinSegmentLength
    requires CreatePseudoHeader(sourceIp, destIp, |segment|).Ok?
    ensures var header := CreatePseudoHeader(sourceIp, destIp, |segment|).value;
      Validate(sourceIp, destIp, segment) == Ok(Pass) <==> segment == Seal(header, segment)
  {
    var header := CreatePseudoHeader(sourceIp, destIp, |segment|).value;
    var sealed := Seal(header, segment);
    if Validate(sourceIp, destIp, segment) == Ok(Pass) {
      var c := ComputedChecksum(header, segment);
      assert 256 * (segment[16] as int) + segment[17] == c;
      assert segment[16] == c / 256 && segment[17] == c % 256;
      assert sealed == segment;
    }
  }

  /** Whatever the segment carried in its Checksum field, sealing it makes it pass. */
  lemma SealedPasses(sourceIp: string, destIp: string, segment: seq<Byte>)
    requires |segment| >= MinSegmentLength
    requires CreatePseudoHeader(sourceIp, destIp, |segment|).Ok?
    ensures Validate(sourceIp, destIp, Seal(CreatePseudoHeader(sourceIp, destIp, |segment|).value, segment)) == Ok(Pass)
  {
    var header := CreatePseudoHeader(sourceIp, destIp, |segment|).value;
    var sealed := Seal(header, segment);
    assert sealed == segment[16 := sealed[16]][17 := sealed[17]];
    ZeroedIgnoresField(segment, sealed[16], sealed[17]);
  }

  /** Corrupting any one byte of a segment that passes, the Checksum field
      included, makes it fail: every single-bit error is caught. */
  lemma DetectsByteCorruption(sourceIp: string, destIp: string, segment: seq<Byte>, j: nat, v: Byte)
    requires Validate(sourceIp, destIp, segment) == Ok(Pass)
    requires j < |segment| && v != segment[j]
    ensures Validate(sourceIp, destIp, segment[j := v]) == Ok(Fail)
  {
    var corrupted := segment[j := v];
    assert |corrupted| == |segment|;
    var header := CreatePseudoHeader(sourceIp, destIp, |segment|).value;
    PassMeans(sourceIp, destIp, segment);
    if j == 16 || j == 17 {
      FieldByteChange(segment, j, v);
    } else {
      PayloadByteChangesChecksum(header, segment, j, v);
    }
    FailMeans(sourceIp, destIp, corrupted);
  }

  /** The pseudo-header is what catches a misdelivered segment: if a segment
      passes, the same segment checked against a source address that differs
      in one byte fails. */
  lemma SourceByteChangeFails(sourceIp: string, sourceIp': string, destIp: string, segment: seq<Byte>, k: nat, v: Byte)
    requires Validate(sourceIp, destIp, segment) == Ok(Pass)
    requires IpToBytes(sourceIp).Ok? && k < |IpToBytes(sourceIp).value| && v != IpToBytes(sourceIp).value[k]
    requires IpToBytes(sourceIp') == Ok(IpToBytes(sourceIp).value[k := v])
    ensures Validate(sourceIp', destIp, segment) == Ok(Fail)
  {
    PassMeans(sourceIp, destIp, segment);
    SourceByteChange(sourceIp, sourceIp', destIp, |segment|, k, v);
    HeaderByteChangesChecksum(CreatePseudoHeader(sourceIp, destIp, |segment|).value, segment, k, v);
    FailMeans(sourceIp', destIp, segment);
  }

  /** Likewise for a destination address that differs in one byte. */
  lemma DestinationByteChangeFails(sourceIp: string, destIp: string, destIp': string, segment: seq<Byte>, k: nat, v: Byte)
    requires Validate(sourceIp, destIp, segment) == Ok(Pass)
    requires IpToBytes(destIp).Ok? && k < |IpToBytes(destIp).value| && v != IpToBytes(destIp).value[k]
    requires IpToBytes(destIp') == Ok(IpToBytes(destIp).value[k := v])
    ensures Validate(sourceIp, destIp', segment) == Ok(Fail)
  {
    PassMeans(sourceIp, destIp, segment);
    DestinationByteChange(sourceIp, destIp, destIp', |segment|, k, v);
    var header := CreatePseudoHeader(sourceIp, destIp, |segment|).value;
    var p := |IpToBytes(sourceIp).value| + k;
    assert CreatePseudoHeader(sourceIp, destIp', |segment|).value == header[p := v];
    HeaderByteChangesChecksum(header, segment, p, v);
    FailMeans(sourceIp, destIp', segment);
  }

  lemma PassMeans(sourceIp: string, destIp: string, segment: seq<Byte>)
    requires Validate(sourceIp, destIp, segment) == Ok(Pass)
    ensures |segment| >= MinSegmentLength && CreatePseudoHeader(sourceIp, destIp, |segment|).Ok?
    ensures ComputedChecksum(CreatePseudoHeader(sourceIp, destIp, |segment|).value, segment) == OriginalChecksum(segment)
  {
  }

  lemma FailMeans(sourceIp: string, destIp: string, segment: seq<Byte>)
    requires |segment| >= MinSegmentLength && CreatePseudoHeader(sourceIp, destIp, |segment|).Ok?
    requires ComputedChecksum(CreatePseudoHeader(sourceIp, destIp, |segment|).value, segment) != OriginalChecksum(segment)
    ensures Validate(sourceIp, destIp, segment) == Ok(Fail)
  {
  }
}
