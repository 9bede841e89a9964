/** `ip_to_bytes`: `bytes(map(int, ip.split(".")))`. The text is cut at every
    dot, each piece is read as a decimal integer and the integers become the
    bytes of the result, one per piece. Nothing checks that there are four
    pieces; `int()` raises ValueError on a piece that is not a number and
    `bytes()` raises ValueError on a number outside [0, 255]. */
module Address {
  import opened Common

  /** Pieces joined back together with `sep` between consecutive ones. */
  function Join(parts: seq<string>, sep: char): string
  {
    if |parts| == 0 then ""
    else if |parts| == 1 then parts[0]
    else parts[0] + [sep] + Join(parts[1..], sep)
  }

  /** Python's `s.split(sep)` for a one-character separator: the unique
      non-empty list of separator-free pieces that joins back to `s`
      (so `"".split(".") == [""]` and `"1..2".split(".") == ["1", "", "2"]`). */
  function Split(s: string, sep: char): (parts: seq<string>)
    ensures |parts| >= 1
    ensures Join(parts, sep) == s
    ensures forall i :: 0 <= i < |parts| ==> sep !in parts[i]
  {
    if |s| == 0 then [""]
    else
      var rest := Split(s[1..], sep);
      if s[0] == sep then
        [""] + rest
      else
        var parts := [[s[0]] + rest[0]] + rest[1..];
        assert Join(parts, sep) == s by {
          assert [s[0]] + s[1..] == s;
          if |rest| > 1 {
            assert parts[1..] == rest[1..];
          }
        }
        parts
  }

  predicate IsDigit(c: char) { '0' <= c <= '9' }

  /** A piece `int()` accepts in this model: one or more ASCII decimal digits. */
  predicate IsDecimal(s: string)
  {
    |s| > 0 && forall i :: 0 <= i < |s| ==> IsDigit(s[i])
  }

  function DigitValue(c: char): (d: nat)
    requires IsDigit(c)
    ensures d < 10
  {
    c as int - '0' as int
  }

  /** The value of a string of decimal digits, most significant digit first. */
  function DecimalValue(s: string): nat
    requires forall i :: 0 <= i < |s| ==> IsDigit(s[i])
  {
    if |s| == 0 then 0 else DecimalValue(s[..|s| - 1]) * 10 + DigitValue(s[|s| - 1])
  }

  /** The decimal numeral of `n` without leading zeros (`str(n)`). */
  function DecimalString(n: nat): (s: string)
    ensures IsDecimal(s)
  {
    var digit := ('0' as int + n % 10) as char;
    if n < 10 then [digit] else DecimalString(n / 10) + [digit]
  }

  /** `int(DecimalString(n)) == n`. */
  lemma {:induction false} DecimalRoundTrip(n: nat)
    ensures DecimalValue(DecimalString(n)) == n
  {
    if n >= 10 {
      var s := DecimalString(n);
      assert s[..|s| - 1] == DecimalString(n / 10);
      DecimalRoundTrip(n / 10);
    }
  }

  /** A piece that becomes one byte: a decimal numeral of at most 255. */
  predicate IsByteComponent(s: string)
  {
    IsDecimal(s) && DecimalValue(s) < 256
  }

  predicate AllByteComponents(parts: seq<string>)
  {
    forall i :: 0 <= i < |parts| ==> IsByteComponent(parts[i])
  }

  /** `bytes(map(int, parts))`: one byte per piece, or ValueError. */
  function ComponentsToBytes(parts: seq<string>): (r: Result<seq<Byte>>)
    ensures r.Ok? <==> AllByteComponents(parts)
    ensures r.Err? ==> r.error == BadAddress
    ensures r.Ok? ==>
      |r.value| == |parts| && forall i :: 0 <= i < |parts| ==> r.value[i] == DecimalValue(parts[i])
  {
    if |parts| == 0 then Ok([])
    else if !IsByteComponent(parts[0]) then Err(BadAddress)
    else
      var rest :- ComponentsToBytes(parts[1..]);
      Ok([DecimalValue(parts[0])] + rest)
  }

  /** `ip_to_bytes(ip)`. */
  function IpToBytes(ip: string): (r: Result<seq<Byte>>)
    ensures r.Ok? <==> AllByteComponents(Split(ip, '.'))
    ensures r.Err? ==> r.error == BadAddress
    ensures var parts := Split(ip, '.');
      r.Ok? ==> |r.value| == |parts| && forall i :: 0 <= i < |parts| ==> r.value[i] == DecimalValue(parts[i])
  {
    var parts := Split(ip, '.');
    ComponentsToBytes(parts)
  }

  /** Dotted-decimal text of a sequence of bytes, the form `ip_to_bytes` reads. */
  function FormatAddress(bytes: seq<Byte>): string
  {
    Join(seq(|bytes|, i requires 0 <= i < |bytes| => DecimalString(bytes[i])), '.')
  }

  /** Splitting joined separator-free pieces gives the pieces back. */
  lemma {:induction false} SplitJoin(parts: seq<string>, sep: char)
    requires |parts| >= 1
    requires forall i :: 0 <= i < |parts| ==> sep !in parts[i]
    ensures Split(Join(parts, sep), sep) == parts
  {
    if |parts| == 1 {
      SplitSeparatorFree(parts[0], sep);
    } else {
      SplitJoin(parts[1..], sep);
      SplitAfterPiece(parts[0], Join(parts[1..], sep), sep);
    }
  }

  lemma {:induction false} SplitSeparatorFree(s: string, sep: char)
    requires sep !in s
    ensures Split(s, sep) == [s]
  {
    if |s| > 0 {
      SplitSeparatorFree(s[1..], sep);
    }
  }

  lemma {:induction false} SplitAfterPiece(piece: string, rest: string, sep: char)
    requires sep !in piece
    ensures Split(piece + [sep] + rest, sep) == [piece] + Split(rest, sep)
  {
    if |piece| == 0 {
      assert piece + [sep] + rest == [sep] + rest;
      assert ([sep] + rest)[1..] == rest;
    } else {
      var s := piece + [sep] + rest;
      assert s[1..] == piece[1..] + [sep] + rest;
      SplitAfterPiece(piece[1..], rest, sep);
      assert [piece[0]] + piece[1..] == piece;
    }
  }

  /** Every byte sequence, written in dotted decimal, is read back unchanged
      by `ip_to_bytes`. */
  lemma IpToBytesRoundTrip(bytes: seq<Byte>)
    requires |bytes| >= 1
    ensures IpToBytes(FormatAddress(bytes)) == Ok(bytes)
  {
    var parts := seq(|bytes|, i requires 0 <= i < |bytes| => DecimalString(bytes[i]));
    forall i | 0 <= i < |parts| ensures '.' !in parts[i] && IsByteComponent(parts[i]) && DecimalValue(parts[i]) == bytes[i] {
      DecimalRoundTrip(bytes[i]);
    }
    SplitJoin(parts, '.');
    var r := IpToBytes(FormatAddress(bytes));
    assert r.value == bytes;
  }

  /** A character of the text that is neither a digit nor a dot makes
      `ip_to_bytes` fail (for example "not.an.ip"). */
  lemma ForeignCharacterRejected(ip: string, k: nat)
    requires k < |ip| && !IsDigit(ip[k]) && ip[k] != '.'
    ensures IpToBytes(ip) == Err(BadAddress)
  {
    var parts := Split(ip, '.');
    var j := PieceHolding(parts, '.', k);
    assert !IsDecimal(parts[j]);
  }

  /** A character of `Join(parts, sep)` other than `sep` lies in one of the
      pieces, and returns the index of one such piece holding a non-digit. */
  lemma {:induction false} PieceHolding(parts: seq<string>, sep: char, k: nat) returns (j: nat)
    requires k < |Join(parts, sep)| && Join(parts, sep)[k] != sep
    ensures j < |parts| && Join(parts, sep)[k] in parts[j]
  {
    if |parts| == 1 {
      j := 0;
    } else {
      var s := Join(parts, sep);
      assert s == parts[0] + [sep] + Join(parts[1..], sep);
      if k < |parts[0]| {
        j := 0;
        assert s[k] == parts[0][k];
      } else {
        assert k > |parts[0]|;
        assert s[k] == Join(parts[1..], sep)[k - |parts[0]| - 1];
        var j' := PieceHolding(parts[1..], sep, k - |parts[0]| - 1);
        j := j' + 1;
      }
    }
  }

  /** Empty text is rejected: `"".split(".")` is `[""]` and `int("")` raises. */
  lemma EmptyAddressRejected()
    ensures IpToBytes("") == Err(BadAddress)
  {
  }
}
