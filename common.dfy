/** Values shared by the checksum engine and both validators: octets, the
    outcome of a validation, the errors the Python code raises, and the few
    Python built-ins on `bytes` the validators rely on (clamped slicing,
    `int.from_bytes(..., "big")` and `int.to_bytes(2, "big")`). */
module Common {

  /** One octet of a Python `bytes` object. */
  type Byte = b: int | 0 <= b < 256

  /** The two outcomes `validate_tcp_checksum` returns as the strings "PASS" and "FAIL". */
  datatype Verdict = Pass | Fail

  /** The exceptions the core lets escape: `int()`/`bytes()` rejecting an address
      component (ValueError), and `to_bytes(2)` rejecting a length of 65536 or more
      (OverflowError). */
  datatype Error = BadAddress | LengthOverflow

  datatype Result<+T> = Ok(value: T) | Err(error: Error) {
    predicate IsFailure() { Err? }

    function PropagateFailure<U>(): Result<U>
      requires Err?
    {
      Err(error)
    }

    function Extract(): T
      requires Ok?
    {
      value
    }
  }

  function Min(a: int, b: int): int { if a <= b then a else b }

  /** Python's `s[lo:hi]` for `0 <= lo <= hi`: indices past the end are clamped,
      so a short sequence gives a shorter (possibly empty) slice, never an error. */
  function Slice<T>(s: seq<T>, lo: nat, hi: nat): (r: seq<T>)
    requires lo <= hi
    ensures |r| == Min(hi, |s|) - Min(lo, |s|)
    ensures forall i :: 0 <= i < |r| ==> r[i] == s[lo + i]
  {
    s[Min(lo, |s|)..Min(hi, |s|)]
  }

  /** `int.from_bytes(bs, "big")`: the unsigned value of `bs`, most significant byte first. */
  function FromBytesBE(bs: seq<Byte>): nat
  {
    if bs == [] then 0 else FromBytesBE(bs[..|bs| - 1]) * 256 + bs[|bs| - 1]
  }

  /** `n.to_bytes(2, "big")`, which raises OverflowError when `n` needs more than two bytes. */
  function ToBytes2(n: nat): (r: Result<seq<Byte>>)
    ensures r.Ok? <==> n < 0x1_0000
    ensures r.Err? ==> r.error == LengthOverflow
    ensures r.Ok? ==> |r.value| == 2 && FromBytesBE(r.value) == n
  {
    if n < 0x1_0000 then
      var bs: seq<Byte> := [n / 256, n % 256];
      FromBytesBE2(bs);
      Ok(bs)
    else
      Err(LengthOverflow)
  }

  /** Two bytes read big-endian are the word `256 * hi + lo`; at most 0xFFFF. */
  lemma FromBytesBE2(bs: seq<Byte>)
    requires |bs| == 2
    ensures FromBytesBE(bs) == 256 * (bs[0] as int) + bs[1] <= 0xFFFF
  {
    assert bs[..|bs| - 1] == [bs[0]];
    assert [bs[0]][..0] == [];
    assert FromBytesBE([bs[0]]) == bs[0];
  }

  /** Reading two bytes back and writing them out again gives the same two bytes. */
  lemma ToBytes2FromBytesBE(bs: seq<Byte>)
    requires |bs| == 2
    ensures ToBytes2(FromBytesBE(bs)) == Ok(bs)
  {
    FromBytesBE2(bs);
    var n := FromBytesBE(bs);
    assert n / 256 == bs[0] && n % 256 == bs[1];
    assert [n / 256, n % 256] == bs;
  }
}
