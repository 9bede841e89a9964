/** `create_pseudo_header`: the source address bytes, the destination address
    bytes, a zero byte, the protocol number 6 (TCP) and the segment length as
    two big-endian bytes, as the Checksum field of section 3.1 of RFC 793
    prescribes for IPv4. */
module PseudoHeader {
  import opened Common
  import opened Address

  /** The IP protocol number of TCP, written into the pseudo-header. */
  const ProtocolTcp: Byte := 6

  /** `create_pseudo_header(source_ip, dest_ip, tcp_length)`. The source address is
      converted first, then the destination, then the length, so the first of
      these to fail decides the error. */
  function CreatePseudoHeader(sourceIp: string, destIp: string, tcpLength: nat): (r: Result<seq<Byte>>)
    ensures r.Ok? <==> IpToBytes(sourceIp).Ok? && IpToBytes(destIp).Ok? && tcpLength < 0x1_0000
    ensures r.Err? ==> (r.error == LengthOverflow <==> IpToBytes(sourceIp).Ok? && IpToBytes(destIp).Ok?)
    ensures r.Ok? ==> Layout(r.value, IpToBytes(sourceIp).value, IpToBytes(destIp).value, tcpLength)
  {
    var src :- IpToBytes(sourceIp);
    var dst :- IpToBytes(destIp);
    var length :- ToBytes2(tcpLength);
    var header := src + dst + [0, ProtocolTcp] + length;
    LayoutOf(src, dst, length, tcpLength);
    Ok(header)
  }

  /** The pseudo-header layout: source bytes, destination bytes, 0, 6, then the
      length read big-endian from the two remaining bytes. */
  predicate Layout(header: seq<Byte>, src: seq<Byte>, dst: seq<Byte>, tcpLength: nat)
  {
    var n := |src| + |dst|;
    && |header| == n + 4
    && header[..|src|] == src
    && header[|src|..n] == dst
    && header[n] == 0
    && header[n + 1] == ProtocolTcp
    && FromBytesBE(header[n + 2..]) == tcpLength
  }

  lemma LayoutOf(src: seq<Byte>, dst: seq<Byte>, length: seq<Byte>, tcpLength: nat)
    requires |length| == 2 && FromBytesBE(length) == tcpLength
    ensures Layout(src + dst + [0, ProtocolTcp] + length, src, dst, tcpLength)
  {
    var header := src + dst + [0, ProtocolTcp] + length;
    var n := |src| + |dst|;
    assert header[..|src|] == src;
    assert header[|src|..n] == dst;
    assert header[n + 2..] == length;
  }

  /** For two four-byte addresses in dotted decimal the pseudo-header is the
      twelve bytes src ++ dst ++ [0, 6] ++ big-endian length. */
  lemma QuadPseudoHeader(sourceIp: string, destIp: string, src: seq<Byte>, dst: seq<Byte>, tcpLength: nat)
    requires |src| == 4 && |dst| == 4 && tcpLength < 0x1_0000
    requires sourceIp == FormatAddress(src) && destIp == FormatAddress(dst)
    ensures CreatePseudoHeader(sourceIp, destIp, tcpLength)
         == Ok(src + dst + [0, 6, tcpLength / 256, tcpLength % 256])
  {
    IpToBytesRoundTrip(src);
    IpToBytesRoundTrip(dst);
    var r := CreatePseudoHeader(sourceIp, destIp, tcpLength);
    var expected: seq<Byte> := src + dst + [0, 6, tcpLength / 256, tcpLength % 256];
    assert |r.value| == 12;
    assert r.value[10..] == [tcpLength / 256, tcpLength % 256] by {
      ToBytes2FromBytesBE(r.value[10..]);
    }
    assert r.value == expected by {
      assert r.value == r.value[..4] + r.value[4..8] + [r.value[8], r.value[9]] + r.value[10..];
    }
  }

  /** The bytes of a pseudo-header that was built, as the concatenation it is. */
  lemma HeaderParts(sourceIp: string, destIp: string, tcpLength: nat)
    requires CreatePseudoHeader(sourceIp, destIp, tcpLength).Ok?
    ensures var tail: seq<Byte> := [0, ProtocolTcp] + ToBytes2(tcpLength).value;
      && CreatePseudoHeader(sourceIp, destIp, tcpLength).value == IpToBytes(sourceIp).value + IpToBytes(destIp).value + tail
      && CreatePseudoHeader(sourceIp, destIp, tcpLength).value == IpToBytes(sourceIp).value + (IpToBytes(destIp).value + tail)
  {
    var tail: seq<Byte> := [0, ProtocolTcp] + ToBytes2(tcpLength).value;
    var src, dst := IpToBytes(sourceIp).value, IpToBytes(destIp).value;
    assert src + dst + [0, ProtocolTcp] + ToBytes2(tcpLength).value == src + dst + tail;
    assert src + dst + tail == src + (dst + tail);
  }

  /** Each source address byte has its own place in the pseudo-header: an
      address that differs in byte `k` gives the header that differs in byte `k`. */
  lemma SourceByteChange(sourceIp: string, sourceIp': string, destIp: string, tcpLength: nat, k: nat, v: Byte)
    requires CreatePseudoHeader(sourceIp, destIp, tcpLength).Ok?
    requires k < |IpToBytes(sourceIp).value|
    requires IpToBytes(sourceIp') == Ok(IpToBytes(sourceIp).value[k := v])
    ensures var header := CreatePseudoHeader(sourceIp, destIp, tcpLength).value;
      && k < |header| && header[k] == IpToBytes(sourceIp).value[k]
      && CreatePseudoHeader(sourceIp', destIp, tcpLength) == Ok(header[k := v])
  {
    HeaderParts(sourceIp, destIp, tcpLength);
    HeaderParts(sourceIp', destIp, tcpLength);
    var tail: seq<Byte> := [0, ProtocolTcp] + ToBytes2(tcpLength).value;
    UpdateFront(IpToBytes(sourceIp).value, IpToBytes(destIp).value + tail, k, v);
  }

  /** Likewise for the destination address, whose bytes follow the source's. */
  lemma DestinationByteChange(sourceIp: string, destIp: string, destIp': string, tcpLength: nat, k: nat, v: Byte)
    requires CreatePseudoHeader(sourceIp, destIp, tcpLength).Ok?
    requires k < |IpToBytes(destIp).value|
    requires IpToBytes(destIp') == Ok(IpToBytes(destIp).value[k := v])
    ensures var header := CreatePseudoHeader(sourceIp, destIp, tcpLength).value;
      var p := |IpToBytes(sourceIp).value| + k;
      && p < |header| && header[p] == IpToBytes(destIp).value[k]
      && CreatePseudoHeader(sourceIp, destIp', tcpLength) == Ok(header[p := v])
  {
    var src, dst := IpToBytes(sourceIp).value, IpToBytes(destIp).value;
    var tail: seq<Byte> := [0, ProtocolTcp] + ToBytes2(tcpLength).value;
    HeaderParts(sourceIp, destIp, tcpLength);
    HeaderParts(sourceIp, destIp', tcpLength);
    assert CreatePseudoHeader(sourceIp, destIp', tcpLength).value == src + dst[k := v] + tail;
    UpdateWithin(src, dst, tail, k, v);
  }

  lemma UpdateFront(b: seq<Byte>, c: seq<Byte>, k: nat, v: Byte)
    requires k < |b|
    ensures k < |b + c| && (b + c)[k] == b[k]
    ensures b[k := v] + c == (b + c)[k := v]
  {
  }

  lemma UpdateWithin(a: seq<Byte>, b: seq<Byte>, c: seq<Byte>, k: nat, v: Byte)
    requires k < |b|
    ensures |a| + k < |a + b + c| && (a + b + c)[|a| + k] == b[k]
    ensures a + b[k := v] + c == (a + b + c)[|a| + k := v]
  {
  }
}
