/** The Internet checksum of section 1 of RFC 1071 as `calculate_checksum`
    computes it: pad an odd-length input with one zero byte, add up the
    big-endian 16-bit words with the end-around carry folded back in after
    every addition, and return the one's complement of the 16-bit total.

    The specification side is a closed form: the folded total is the
    one's-complement sum `EndAroundSum` of the plain word sum, and the checksum
    is its complement. The method `CalculateChecksum` is the loop itself. */
module Checksum {
  import opened Common

  const M: int := 0xFFFF

  /** The input the loop runs over: `data` with one zero byte appended when its
      length is odd, unchanged otherwise. */
  function Pad(data: seq<Byte>): (p: seq<Byte>)
    ensures |p| % 2 == 0 && |p| == |data| + |data| % 2
    ensures p[..|data|] == data
    ensures forall i :: |data| <= i < |p| ==> p[i] == 0
  {
    if |data| % 2 == 1 then data + [0] else data
  }

  /** The 16-bit word at an even offset, read big-endian as `int.from_bytes(data[i:i+2], "big")`. */
  function WordAt(data: seq<Byte>, i: nat): (w: nat)
    requires i + 2 <= |data|
    ensures w == 256 * (data[i] as int) + data[i + 1] <= 0xFFFF
  {
    FromBytesBE2(data[i..i + 2]);
    FromBytesBE(data[i..i + 2])
  }

  /** Plain (unfolded) sum of the big-endian words of an even-length sequence. */
  function WordSum(data: seq<Byte>): nat
    requires |data| % 2 == 0
  {
    if data == [] then 0 else WordSum(data[..|data| - 2]) + WordAt(data, |data| - 2)
  }

  /** The one's-complement sum of a plain sum `s` of 16-bit words, i.e. what
      end-around-carry addition leaves in 16 bits: 0 only when `s` is 0, and
      otherwise the value in [1, 0xFFFF] congruent to `s` modulo 0xFFFF
      (section 2(D) of RFC 1071: the carry out of bit 15 is worth 1, because
      0x10000 = 1 modulo 0xFFFF). */
  function EndAroundSum(s: nat): (t: nat)
    ensures t <= 0xFFFF
    ensures t == 0 <==> s == 0
    ensures t % M == s % M
  {
    if s == 0 then 0 else (s - 1) % M + 1
  }

  /** The closed form of `calculate_checksum`: the complement, within 16 bits, of
      the one's-complement sum of the padded input's words. */
  function InternetChecksum(data: seq<Byte>): (c: nat)
    ensures c <= 0xFFFF
  {
    0xFFFF - EndAroundSum(WordSum(Pad(data)))
  }

  /** Adding the checksum to the padded input's word sum gives a multiple of
      0xFFFF: a receiver summing the data together with its checksum gets
      all ones (section 1 of RFC 1071). */
  lemma ChecksumCancelsSum(data: seq<Byte>)
    ensures (InternetChecksum(data) + WordSum(Pad(data))) % M == 0
  {
    ComplementCancels(WordSum(Pad(data)));
  }

  /** The checksum is 0xFFFF exactly when every byte is zero. */
  lemma ChecksumAllOnes(data: seq<Byte>)
    ensures InternetChecksum(data) == 0xFFFF <==> forall i :: 0 <= i < |data| ==> data[i] == 0
  {
    PaddedSumZero(data);
  }

  /** One iteration of the loop body: `total += word` followed by
      `total = (total & 0xFFFF) + (total >> 16)` on a non-negative `total`. */
  function AddFold(total: nat, word: nat): nat
  {
    var t := total + word;
    t % 0x1_0000 + t / 0x1_0000
  }

  /** `calculate_checksum` (tcp_validator.py and tcp_validator_basic.py hold the same code). */
  method CalculateChecksum(data: seq<Byte>) returns (checksum: nat)
    ensures checksum == InternetChecksum(data)
  {
    var padded := data;
    if |padded| % 2 == 1 {
      padded := padded + [0];
    }
    assert padded == Pad(data);
    var total: nat := 0;
    var i := 0;
    while i < |padded|
      invariant 0 <= i <= |padded| && i % 2 == 0
      invariant total <= 0xFFFF
      invariant total == EndAroundSum(WordSum(padded[..i]))
    {
      var word := FromBytesBE(padded[i..i + 2]);
      FoldStep(padded, i, total);
      total := AddFold(total, word);
      i := i + 2;
    }
    assert padded[..i] == padded;
    // `~total & 0xFFFF` on Python's unbounded two's-complement integers.
    ComplementWithin16(total);
    checksum := (-(total as int) - 1) % 0x1_0000;
  }

  /** One pass of the loop keeps the running total equal to the one's-complement
      sum of the words read so far. */
  lemma FoldStep(padded: seq<Byte>, i: nat, total: nat)
    requires |padded| % 2 == 0 && i % 2 == 0 && i < |padded|
    requires total == EndAroundSum(WordSum(padded[..i]))
    ensures i + 2 <= |padded|
    ensures AddFold(total, FromBytesBE(padded[i..i + 2])) == EndAroundSum(WordSum(padded[..i + 2]))
  {
    SumThroughWord(padded, i);
    AddFoldStep(WordSum(padded[..i]), FromBytesBE(padded[i..i + 2]));
  }

  /** Extending the prefix by one word adds that word to the sum. */
  lemma SumThroughWord(data: seq<Byte>, i: nat)
    requires |data| % 2 == 0 && i % 2 == 0 && i + 2 <= |data|
    ensures FromBytesBE(data[i..i + 2]) <= 0xFFFF
    ensures WordSum(data[..i + 2]) == WordSum(data[..i]) + FromBytesBE(data[i..i + 2])
  {
    FromBytesBE2(data[i..i + 2]);
    assert data[..i + 2][..i] == data[..i];
    assert data[..i + 2][i..i + 2] == data[i..i + 2];
  }

  /** Folding the carry after adding one word keeps the running total equal to
      the one's-complement sum of everything added so far. */
  lemma AddFoldStep(s: nat, w: nat)
    requires w <= 0xFFFF
    ensures AddFold(EndAroundSum(s), w) == EndAroundSum(s + w)
  {
    var t := EndAroundSum(s) + w;
    if s == 0 {
      assert t == w;
      if w > 0 {
        assert (w - 1) % M == w - 1;
      }
    } else {
      var r := (s - 1) % M;
      assert s - 1 == (s - 1) / M * M + r;
      assert s + w - 1 == (s - 1) / M * M + (r + w);
      if t < 0x1_0000 {
        assert r + w < M;
        assert (s + w - 1) % M == r + w by { ModShift((s - 1) / M, r + w); }
      } else {
        assert r + w - M < M;
        assert s + w - 1 == ((s - 1) / M + 1) * M + (r + w - M);
        assert (s + w - 1) % M == r + w - M by { ModShift((s - 1) / M + 1, r + w - M); }
      }
    }
  }

  /** Python's `~x & 0xFFFF` is `0xFFFF - x` for `x` in [0, 0xFFFF]. */
  lemma ComplementWithin16(x: int)
    requires 0 <= x <= 0xFFFF
    ensures (-x - 1) % 0x1_0000 == 0xFFFF - x
  {
    assert -x - 1 == -1 * 0x1_0000 + (0xFFFF - x);
  }

  lemma ModShift(q: int, r: int)
    requires q >= 0 && 0 <= r < M
    ensures (q * M + r) % M == r
  {
  }

  /** The complement of the folded sum cancels the sum modulo 0xFFFF. */
  lemma ComplementCancels(s: nat)
    ensures (0xFFFF - EndAroundSum(s) + s) % M == 0
  {
    var t := EndAroundSum(s);
    var q := s / M;
    assert s == q * M + s % M;
    assert t == s % M || (s % M == 0 && t == M);
    if t == s % M {
      assert 0xFFFF - t + s == (q + 1) * M;
    } else {
      assert 0xFFFF - t + s == q * M;
    }
  }

  /** The word sum is zero exactly when every byte is zero. */
  lemma {:induction false} WordSumZero(data: seq<Byte>)
    requires |data| % 2 == 0
    ensures WordSum(data) == 0 <==> forall i :: 0 <= i < |data| ==> data[i] == 0
  {
    if data != [] {
      var n := |data|;
      var prefix := data[..n - 2];
      WordSumZero(prefix);
      assert WordSum(data) == WordSum(prefix) + WordAt(data, n - 2);
      assert WordAt(data, n - 2) == 0 <==> data[n - 2] == 0 && data[n - 1] == 0;
      assert (forall i :: 0 <= i < n ==> data[i] == 0) <==>
        (forall i :: 0 <= i < n - 2 ==> prefix[i] == 0) && data[n - 2] == 0 && data[n - 1] == 0;
    }
  }

  /** The padded input's word sum is zero exactly when every byte of the input is zero. */
  lemma PaddedSumZero(data: seq<Byte>)
    ensures WordSum(Pad(data)) == 0 <==> forall i :: 0 <= i < |data| ==> data[i] == 0
  {
    var p := Pad(data);
    WordSumZero(p);
    assert forall i :: 0 <= i < |data| ==> p[i] == data[i];
  }

  /** An odd-length input checksums like the same input with a zero byte appended. */
  lemma OddLengthPadding(data: seq<Byte>)
    requires |data| % 2 == 1
    ensures InternetChecksum(data) == InternetChecksum(data + [0])
  {
  }

  /** The checksum of no bytes at all is 0xFFFF. */
  lemma EmptyChecksum()
    ensures InternetChecksum([]) == 0xFFFF
  {
  }

  /** The word sum of two even-length sequences laid end to end is the sum of their word sums. */
  lemma {:induction false} WordSumAppend(a: seq<Byte>, b: seq<Byte>)
    requires |a| % 2 == 0 && |b| % 2 == 0
    ensures WordSum(a + b) == WordSum(a) + WordSum(b)
  {
    if b == [] {
      assert a + b == a;
    } else {
      var n := |b|;
      assert (a + b)[..|a + b| - 2] == a + b[..n - 2];
      assert WordAt(a + b, |a + b| - 2) == WordAt(b, n - 2);
      WordSumAppend(a, b[..n - 2]);
    }
  }

  /** The weight of the byte at offset `p` in its big-endian word. */
  function Weight(p: nat): nat
  {
    if p % 2 == 0 then 256 else 1
  }

  /** Overwriting one byte changes the word sum by the byte's change times its weight. */
  lemma {:induction false} WordSumUpdate(data: seq<Byte>, p: nat, v: Byte)
    requires |data| % 2 == 0 && p < |data|
    ensures WordSum(data[p := v]) == WordSum(data) + (v - data[p] as int) * Weight(p)
  {
    var n := |data|;
    var changed := data[p := v];
    var prefix := data[..n - 2];
    assert WordSum(data) == WordSum(prefix) + WordAt(data, n - 2);
    if p >= n - 2 {
      assert changed[..n - 2] == prefix;
      LastWordUpdate(data, p, v);
      assert WordSum(changed) == WordSum(prefix) + WordAt(changed, n - 2);
    } else {
      assert changed[..n - 2] == prefix[p := v];
      WordSumUpdate(prefix, p, v);
      assert WordAt(changed, n - 2) == WordAt(data, n - 2);
      assert WordSum(changed) == WordSum(prefix[p := v]) + WordAt(data, n - 2);
    }
  }

  /** Overwriting a byte of the last word changes that word by the byte's
      change times its weight. */
  lemma LastWordUpdate(data: seq<Byte>, p: nat, v: Byte)
    requires |data| % 2 == 0 && |data| >= 2 && |data| - 2 <= p < |data|
    ensures WordAt(data[p := v], |data| - 2) == WordAt(data, |data| - 2) + (v - data[p] as int) * Weight(p)
  {
    if p == |data| - 2 {
      assert 256 * (v as int) == 256 * (data[p] as int) + (v - data[p] as int) * 256;
    }
  }

  /** Two plain sums that differ by less than 0xFFFF, but do differ, have
      different one's-complement sums. */
  lemma EndAroundSumSeparates(s: nat, s': nat)
    requires s != s' && -M < s' - s < M
    ensures EndAroundSum(s) != EndAroundSum(s')
  {
    if s != 0 && s' != 0 {
      var a, b := s - 1, s' - 1;
      var q := b / M - a / M;
      assert b - a == q * M + (b % M - a % M);
      if q >= 1 {
        assert q * M >= M;
      } else if q <= -1 {
        assert q * M <= -M;
      }
      assert a % M != b % M;
    }
  }

  /** Changing any single byte changes the checksum: the Internet checksum
      detects every single-byte (so every single-bit) error. */
  lemma ChecksumDetectsByteChange(data: seq<Byte>, changed: seq<Byte>, p: nat, v: Byte)
    requires p < |data| && v != data[p] && changed == data[p := v]
    ensures InternetChecksum(changed) != InternetChecksum(data)
  {
    var padded := Pad(data);
    assert Pad(data[p := v]) == padded[p := v];
    WordSumUpdate(padded, p, v);
    var delta := (v - data[p] as int) * Weight(p);
    assert -M < delta < M && delta != 0 by {
      if p % 2 == 0 {
        assert delta == (v - data[p] as int) * 256;
      }
    }
    EndAroundSumSeparates(WordSum(padded), WordSum(padded[p := v]));
  }

  /** When the words add up to no more than 0xFFFF no carry is ever folded
      back, and the checksum is simply 0xFFFF minus their sum. */
  lemma NoCarryChecksum(data: seq<Byte>)
    requires WordSum(Pad(data)) <= 0xFFFF
    ensures InternetChecksum(data) == 0xFFFF - WordSum(Pad(data))
  {
    var s := WordSum(Pad(data));
    if s > 0 {
      assert (s - 1) % M == s - 1;
    }
  }

  /** Zero words appended to an even-length input leave a no-carry checksum
      where it was. */
  lemma TrailingZerosChecksum(data: seq<Byte>, zeros: seq<Byte>)
    requires |data| % 2 == 0 && WordSum(data) <= 0xFFFF
    requires |zeros| % 2 == 0 && forall i :: 0 <= i < |zeros| ==> zeros[i] == 0
    ensures InternetChecksum(data + zeros) == 0xFFFF - WordSum(data)
  {
    EvenPad(data, zeros);
    WordSumZero(zeros);
    WordSumAppend(data, zeros);
    NoCarryChecksum(data + zeros);
  }

  lemma EvenPad(a: seq<Byte>, b: seq<Byte>)
    requires |a| % 2 == 0 && |b| % 2 == 0
    ensures |a + b| % 2 == 0 && Pad(a + b) == a + b
  {
  }

  /** The worked example of section 3 of RFC 1071: the words 0001 f203 f4f5 f6f7
      sum to ddf2 with end-around carry, so the checksum is 220d. */
  lemma Rfc1071Example()
    ensures InternetChecksum([0x00, 0x01, 0xf2, 0x03, 0xf4, 0xf5, 0xf6, 0xf7]) == 0x220d
  {
    var d: seq<Byte> := [0x00, 0x01, 0xf2, 0x03, 0xf4, 0xf5, 0xf6, 0xf7];
    assert Pad(d) == d;
    assert d[..6][..4][..2][..0] == [];
    assert WordSum(d[..2]) == 0x0001;
    assert WordSum(d[..4]) == 0xf204 by { assert d[..4][..2] == d[..2]; }
    assert WordSum(d[..6]) == 0x1e6f9 by { assert d[..6][..4] == d[..4]; }
    assert WordSum(d) == 0x2ddf0 by { assert d[..6] == d[..|d| - 2]; }
    assert EndAroundSum(0x2ddf0) == 0xddf2;
  }
}
