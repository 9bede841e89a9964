/** `validate_tcp_checksum` of tcp_validator_basic.py: the same computation
    as tcp_validator.py without the length guard, so a segment shorter than
    18 bytes is still given a verdict, computed from whatever Python's
    clamped slices return. */
module BasicValidator {
  import opened Common
  import opened Checksum
  import opened Address
  import opened PseudoHeader
  import opened Segment
  import Validator

  /** The verdict of tcp_validator_basic.py for one (source, destination, segment) triple. */
  function Validate(sourceIp: string, destIp: string, segment: seq<Byte>): (r: Result<Verdict>)
    ensures r.Err? == CreatePseudoHeader(sourceIp, destIp, |segment|).Err?
    ensures r.Err? ==> r.error == CreatePseudoHeader(sourceIp, destIp, |segment|).error
    ensures r == Ok(Pass) <==>
      && CreatePseudoHeader(sourceIp, destIp, |segment|).Ok?
      && ComputedChecksum(CreatePseudoHeader(sourceIp, destIp, |segment|).value, segment) == OriginalChecksum(segment)
  {
    var header :- CreatePseudoHeader(sourceIp, destIp, |segment|);
    var original := OriginalChecksum(segment);
    var computed := InternetChecksum(header + ZeroChecksumField(segment));
    Ok(if computed == original then Pass else Fail)
  }

  /** On every segment long enough to hold the Checksum field both variants
      give the same answer. */
  lemma AgreesWithGuardedValidator(sourceIp: string, destIp: string, segment: seq<Byte>)
    requires |segment| >= Validator.MinSegmentLength
    ensures Validate(sourceIp, destIp, segment) == Validator.Validate(sourceIp, destIp, segment)
  {
  }

  /** On a shorter segment the verdict compares the checksum of the pseudo-header,
      the first min(len, 16) bytes and two zero bytes with the value read from
      the bytes at 16 and beyond that exist (0 when there are none). */
  lemma ShortSegmentVerdict(sourceIp: string, destIp: string, segment: seq<Byte>)
    requires |segment| < Validator.MinSegmentLength
    requires CreatePseudoHeader(sourceIp, destIp, |segment|).Ok?
    ensures var header := CreatePseudoHeader(sourceIp, destIp, |segment|).value;
      var embedded := if |segment| == 17 then segment[16] as nat else 0;
      Validate(sourceIp, destIp, segment)
        == Ok(if InternetChecksum(header + segment[..Min(|segment|, 16)] + [0, 0]) == embedded then Pass else Fail)
  {
    var header := CreatePseudoHeader(sourceIp, destIp, |segment|).value;
    var kept := segment[..Min(|segment|, 16)];
    assert ZeroChecksumField(segment) == kept + [0, 0];
    assert header + (kept + [0, 0]) == header + kept + [0, 0];
  }

  /** The 16 zero bytes tcp_data_generator.py writes: between two four-byte
      addresses whose pseudo-header words add up to 0xFFFF the recomputed
      checksum is 0, the value the clamped read of the missing field gives, so
      the variant without the guard reports PASS for a segment that has no
      Checksum field at all, where tcp_validator.py reports FAIL.
      `ExampleAddresses` gives such a pair: 255.233.0.0 and 0.0.0.0. */
  lemma ShortSegmentPasses(src: seq<Byte>, dst: seq<Byte>, segment: seq<Byte>)
    requires |src| == 4 && |dst| == 4 && WordSum(src + dst + [0, 6, 0, 16]) == 0xFFFF
    requires segment == seq(16, _ => 0)
    ensures Validate(FormatAddress(src), FormatAddress(dst), segment) == Ok(Pass)
    ensures Validator.Validate(FormatAddress(src), FormatAddress(dst), segment) == Ok(Fail)
  {
    QuadHeader(src, dst);
    ZeroSegmentMatch(FormatAddress(src), FormatAddress(dst), segment, src + dst + [0, 6, 0, 16]);
  }

  /** The pseudo-header of two four-byte addresses and a 16-byte segment. */
  lemma QuadHeader(src: seq<Byte>, dst: seq<Byte>)
    requires |src| == 4 && |dst| == 4
    ensures CreatePseudoHeader(FormatAddress(src), FormatAddress(dst), 16) == Ok(src + dst + [0, 6, 0, 16])
    ensures |src + dst + [0, 6, 0, 16]| == 12
  {
    QuadPseudoHeader(FormatAddress(src), FormatAddress(dst), src, dst, 16);
    assert [0, 6, 16 / 256, 16 % 256] == [0, 6, 0, 16];
  }

  /** 16 zero bytes behind a pseudo-header whose words add up to 0xFFFF pass
      the variant without the guard and fail the guarded one. */
  lemma ZeroSegmentMatch(sourceIp: string, destIp: string, segment: seq<Byte>, header: seq<Byte>)
    requires segment == seq(16, _ => 0)
    requires CreatePseudoHeader(sourceIp, destIp, 16) == Ok(header)
    requires |header| % 2 == 0 && WordSum(header) == 0xFFFF
    ensures Validate(sourceIp, destIp, segment) == Ok(Pass)
    ensures Validator.Validate(sourceIp, destIp, segment) == Ok(Fail)
  {
    ZeroSegmentChecksum(header, segment);
    ShortSegmentMatch(sourceIp, destIp, segment, header);
  }

  /** Sixteen zero bytes between 255.233.0.0 and 0.0.0.0: PASS without the
      guard, FAIL with it. */
  lemma ExampleShortSegment()
    ensures Validate("255.233.0.0", "0.0.0.0", seq(16, _ => 0)) == Ok(Pass)
    ensures Validator.Validate("255.233.0.0", "0.0.0.0", seq(16, _ => 0)) == Ok(Fail)
  {
    ExampleAddresses();
    ShortSegmentPasses([255, 233, 0, 0], [0, 0, 0, 0], seq(16, _ => 0));
  }

  /** A segment too short for the Checksum field, whose recomputed checksum
      equals what the clamped read of the field gives, passes the variant
      without the guard and fails the guarded one. */
  lemma ShortSegmentMatch(sourceIp: string, destIp: string, segment: seq<Byte>, header: seq<Byte>)
    requires |segment| < Validator.MinSegmentLength
    requires CreatePseudoHeader(sourceIp, destIp, |segment|) == Ok(header)
    requires ComputedChecksum(header, segment) == OriginalChecksum(segment)
    ensures Validate(sourceIp, destIp, segment) == Ok(Pass)
    ensures Validator.Validate(sourceIp, destIp, segment) == Ok(Fail)
  {
  }

  /** Behind a pseudo-header whose words add up to 0xFFFF, 16 zero bytes
      checksum to 0, and the clamped read of their missing field is 0 too. */
  lemma ZeroSegmentChecksum(header: seq<Byte>, segment: seq<Byte>)
    requires |header| % 2 == 0 && WordSum(header) == 0xFFFF
    requires segment == seq(16, _ => 0)
    ensures ComputedChecksum(header, segment) == OriginalChecksum(segment) == 0
  {
    var zeroed := ZeroChecksumField(segment);
    assert zeroed == seq(18, _ => 0);
    TrailingZerosChecksum(header, zeroed);
  }

  /** 255.233.0.0 and 0.0.0.0: their pseudo-header words add up to 0xFFFF. */
  lemma ExampleAddresses()
    ensures FormatAddress([255, 233, 0, 0]) == "255.233.0.0" && FormatAddress([0, 0, 0, 0]) == "0.0.0.0"
    ensures WordSum([255, 233, 0, 0] + [0, 0, 0, 0] + [0, 6, 0, 16]) == 0xFFFF
  {
    ExampleHeaderSum();
    DecimalNumerals();
    DottedQuad([255, 233, 0, 0]);
    assert "255" + "." == "255.";
    assert "255." + "233" == "255.233";
    assert "255.233" + "." == "255.233.";
    assert "255.233." + "0" == "255.233.0";
    assert "255.233.0" + "." == "255.233.0.";
    assert "255.233.0." + "0" == "255.233.0.0";
    DottedQuad([0, 0, 0, 0]);
    assert "0" + "." == "0.";
    assert "0." + "0" == "0.0";
    assert "0.0" + "." == "0.0.";
    assert "0.0." + "0" == "0.0.0";
    assert "0.0.0" + "." == "0.0.0.";
    assert "0.0.0." + "0" == "0.0.0.0";
  }

  lemma DecimalNumerals()
    ensures DecimalString(255) == "255" && DecimalString(233) == "233" && DecimalString(0) == "0"
  {
  }

  /** Four bytes in dotted decimal: the four numerals with dots between them. */
  lemma DottedQuad(bytes: seq<Byte>)
    requires |bytes| == 4
    ensures FormatAddress(bytes) == DecimalString(bytes[0]) + "." + DecimalString(bytes[1]) + "."
                                  + DecimalString(bytes[2]) + "." + DecimalString(bytes[3])
  {
    var parts := seq(4, i requires 0 <= i < 4 => DecimalString(bytes[i]));
    var a, b, c, d := DecimalString(bytes[0]), DecimalString(bytes[1]), DecimalString(bytes[2]), DecimalString(bytes[3]);
    assert parts == [a, b, c, d];
    assert Join([d], '.') == d;
    assert Join([c, d], '.') == c + "." + d by { assert [c, d][1..] == [d]; }
    assert Join([b, c, d], '.') == b + "." + c + "." + d by { assert [b, c, d][1..] == [c, d]; }
    assert Join([a, b, c, d], '.') == a + "." + b + "." + c + "." + d by { assert [a, b, c, d][1..] == [b, c, d]; }
  }

  lemma ExampleHeaderSum()
    ensures WordSum([255, 233, 0, 0] + [0, 0, 0, 0] + [0, 6, 0, 16]) == 0xFFFF
  {
    var header: seq<Byte> := [255, 233, 0, 0] + [0, 0, 0, 0] + [0, 6, 0, 16];
    assert header == [255, 233, 0, 0, 0, 0, 0, 0, 0, 6, 0, 16];
    assert header[..10][..8][..6][..4][..2][..0] == [];
    assert WordSum(header[..2]) == 0xFFE9;
    assert WordSum(header[..4]) == 0xFFE9 by { assert header[..4][..2] == header[..2]; }
    assert WordSum(header[..6]) == 0xFFE9 by { assert header[..6][..4] == header[..4]; }
    assert WordSum(header[..8]) == 0xFFE9 by { assert header[..8][..6] == header[..6]; }
    assert WordSum(header[..10]) == 0xFFEF by {
      assert header[..10][..8] == header[..8];
      assert WordAt(header[..10], 8) == 6;
    }
    assert header[..|header| - 2] == header[..10];
  }
}
