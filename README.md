# TCP packet validator: a Dafny model of the checksum check

The TCP packet validator reads captured TCP segments together with the source
and destination IPv4 addresses they were sent between. It decides PASS or FAIL
by recomputing the TCP checksum and comparing it with the value the segment
carries. The checksum is the Internet checksum of section 1 of RFC 1071. It is
computed over the IPv4 pseudo-header followed by the segment, as the Checksum
field of section 3.1 of RFC 793 defines it.

This project models that computation and proves properties of it. It has
seven modules:

- `Common` (common.dfy): octets (`Byte`), the `Verdict` (`Pass`/`Fail`), and
  the two exceptions the core lets escape as an `Error`: a bad address
  component and a segment length that does not fit in two bytes. It also holds
  `Result` and the Python built-ins the code relies on: clamped slicing,
  `int.from_bytes(..., "big")` and `int.to_bytes(2, "big")`.
- `Checksum` (checksum.dfy): `calculate_checksum`. The method
  `CalculateChecksum` is the padding-plus-accumulator loop of the source. It is
  proved equal to the closed form `InternetChecksum`: the complement of
  `EndAroundSum`, the one's-complement sum of the big-endian words. The loop
  invariant is the end-around-carry fact of section 2(D) of RFC 1071: after
  every fold the running total is at most 0xFFFF, and it is the
  one's-complement sum of the words added so far.
- `Address` (address.dfy): `ip_to_bytes`. `str.split(".")` is modelled as the
  unique list of dot-free pieces that joins back to the text. `int()` is
  modelled as decimal digits. `bytes()` gives one byte per piece, and fails on a
  value above 255.
- `PseudoHeader` (pseudo_header.dfy): `create_pseudo_header`.
- `Segment` (segment.dfy): the two slices both validators take. One reads the
  embedded checksum from bytes [16, 18). The other builds a copy of the
  segment with those two bytes zeroed.
- `Validator` (validator.dfy): `validate_tcp_checksum` of tcp_validator.py,
  with its guard against segments shorter than 18 bytes.
- `BasicValidator` (validator_basic.dfy): `validate_tcp_checksum` of
  tcp_validator_basic.py, which has no such guard.

tcp_validator_basic.py repeats `ip_to_bytes` (lines 1-2), `create_pseudo_header`
(lines 10-17) and `calculate_checksum` (lines 20-29) word for word from
tcp_validator.py (lines 6-7, 25-32, 35-44). Each is modelled once. Both
validator modules use the same members.

The driver passes in the two address strings and the segment bytes. Reading
them from files is not modelled.

In three places the code behaves differently from what a reader might expect:

- An address is not required to have four components. `ip_to_bytes` turns
  any number of dot-separated numbers into that many bytes, and the
  pseudo-header grows or shrinks with them. `QuadPseudoHeader` covers the
  four-component case.
- tcp_validator_basic.py does not fault on a short segment. Python's slices
  clamp, so it returns a verdict (see Findings).
- tcp_validator.py reports a short segment as FAIL. It does not raise a
  separate error for it.

## Model

| member | source | states |
|---|---|---|
| `Common.ToBytes2` | tcp_validator.py:31 | `n.to_bytes(2, "big")` succeeds exactly when n < 65536, gives two bytes that read back big-endian as n, and otherwise fails with the length error |
| `Common.FromBytesBE2` | tcp_validator.py:41 | two bytes read big-endian are 256·hi + lo, at most 0xFFFF |
| `Common.Slice` | tcp_validator.py:70-71 | Python's `bytes[lo:hi]`: the length is min(hi, len) − min(lo, len), never an error, and element i is s[lo + i] |
| `Common.ToBytes2FromBytesBE` | tcp_validator.py:70 | reading two bytes big-endian and writing the value back gives the same two bytes (the other half of the round trip) |
| `Checksum.Pad` | tcp_validator.py:36-37 | the padded input has even length, starts with the input, and adds a zero byte only when the length is odd |
| `Checksum.WordAt` | tcp_validator.py:41 | `int.from_bytes(data[i:i+2], "big")` is 256·data[i] + data[i+1], at most 0xFFFF |
| `Checksum.EndAroundSum` | tcp_validator.py:39-43 | the one's-complement sum is at most 0xFFFF, is 0 exactly when the plain word sum is 0, and is congruent to that sum modulo 0xFFFF |
| `Checksum.AddFoldStep` | tcp_validator.py:41-43 | one `total += word; total = (total & 0xFFFF) + (total >> 16)` step takes the one's-complement sum of s to that of s + word |
| `Checksum.ComplementWithin16` | tcp_validator_basic.py:29 | `~total & 0xFFFF` on Python's two's-complement integers is 0xFFFF − total for a total in [0, 0xFFFF] |
| `Checksum.InternetChecksum` | tcp_validator.py:35-44 | the checksum is in [0, 0xFFFF] |
| `Checksum.ChecksumCancelsSum` | tcp_validator.py:35-44 | checksum + word sum of the padded input is 0 modulo 0xFFFF, so a receiver summing data and checksum gets all ones |
| `Checksum.ChecksumAllOnes` | tcp_validator.py:35-44 | the checksum is 0xFFFF exactly when every input byte is 0 |
| `Checksum.FoldStep` | tcp_validator.py:40-43 | one pass of the loop keeps the running total equal to the one's-complement sum of the words read so far |
| `Checksum.CalculateChecksum` | tcp_validator.py:35-44 | the padding-and-fold loop returns exactly `InternetChecksum(data)`; its invariant keeps the running total ≤ 0xFFFF and equal to the one's-complement sum of the words so far |
| `Checksum.EmptyChecksum` | tcp_validator.py:39-44 | the checksum of no bytes is 0xFFFF |
| `Checksum.OddLengthPadding` | tcp_validator_basic.py:21-22 | an odd-length input has the same checksum as that input with one zero byte appended |
| `Checksum.WordSumZero` | tcp_validator.py:40-42 | the big-endian word sum is 0 exactly when every byte is 0 |
| `Checksum.WordSumAppend` | tcp_validator.py:40-42 | the word sum of two even-length sequences laid end to end is the sum of their word sums |
| `Checksum.LastWordUpdate` | tcp_validator.py:41 | overwriting a byte of the last word changes that word by the byte's change times 256 (high byte) or 1 (low byte) |
| `Checksum.WordSumUpdate` | tcp_validator.py:40-42 | overwriting byte p changes the word sum by the byte's change times 256 (even p) or 1 (odd p) |
| `Checksum.EndAroundSumSeparates` | tcp_validator.py:43 | two different plain sums less than 0xFFFF apart have different one's-complement sums |
| `Checksum.ChecksumDetectsByteChange` | tcp_validator.py:35-44 | a copy of the input with any one byte changed has a different checksum |
| `Checksum.NoCarryChecksum` | tcp_validator.py:39-44 | when the words add up to at most 0xFFFF no carry is folded, and the checksum is 0xFFFF minus the word sum |
| `Checksum.TrailingZerosChecksum` | tcp_validator.py:35-44 | appending an even number of zero bytes to an even-length input whose word sum is at most 0xFFFF gives checksum 0xFFFF minus that sum |
| `Checksum.Rfc1071Example` | tcp_validator.py:35-44 | the example bytes 00 01 f2 03 f4 f5 f6 f7 of section 3 of RFC 1071 have checksum 0x220d |
| `Address.Split` | tcp_validator.py:7 | `ip.split(".")` gives at least one piece, no piece contains a dot, and the pieces joined with dots give the text back |
| `Address.SplitJoin` | tcp_validator.py:7 | splitting dot-free pieces joined with dots gives back exactly those pieces |
| `Address.DecimalRoundTrip` | tcp_validator.py:7 | `int()` of the decimal numeral of n is n |
| `Address.ComponentsToBytes` | tcp_validator.py:7 | `bytes(map(int, parts))` succeeds exactly when every piece is a decimal numeral ≤ 255; then it gives one byte per piece, equal to the piece's value; otherwise it fails with the address error |
| `Address.IpToBytes` | tcp_validator.py:6-7 | `ip_to_bytes` succeeds exactly when every dot-separated piece is a decimal numeral ≤ 255, and then yields one byte per piece with that piece's value; the number of pieces is not checked |
| `Address.IpToBytesRoundTrip` | tcp_validator.py:6-7 | every non-empty byte sequence written in dotted decimal is read back unchanged |
| `Address.ForeignCharacterRejected` | tcp_validator.py:7 | in the model, text containing a character that is neither a digit nor a dot (such as "not.an.ip") is rejected; Python's `int()` also accepts whitespace, signs and underscores (see Left out) |
| `Address.EmptyAddressRejected` | tcp_validator.py:7 | the empty text is rejected (`int("")` raises) |
| `PseudoHeader.CreatePseudoHeader` | tcp_validator.py:25-32 | succeeds exactly when both addresses convert and the length is below 65536; a length error is reported only when both addresses convert; the result is src ++ dst ++ 0 ++ 6 ++ the length as two big-endian bytes |
| `PseudoHeader.QuadPseudoHeader` | tcp_validator_basic.py:10-17 | for two four-byte addresses in dotted decimal, the pseudo-header is the 12 bytes src ++ dst ++ [0, 6, len / 256, len % 256] |
| `PseudoHeader.SourceByteChange` | tcp_validator.py:25-32 | a source address whose bytes differ from another's in byte k gives a pseudo-header that differs in byte k only, by the same new value |
| `PseudoHeader.DestinationByteChange` | tcp_validator.py:25-32 | a destination address whose bytes differ in byte k gives a pseudo-header that differs only at offset (source length) + k, by the same new value |
| `Segment.OriginalChecksum` | tcp_validator.py:70 | the embedded checksum is 256·seg[16] + seg[17] when the segment has 18 bytes or more; on a shorter segment it is seg[16] (17 bytes) or 0 (16 bytes or fewer) |
| `Segment.ZeroChecksumField` | tcp_validator.py:71 | for 18 bytes or more the copy is the segment with bytes 16 and 17 set to 0; for fewer it is the first min(len, 16) bytes followed by two zeros |
| `Segment.ZeroedCopy` | tcp_validator.py:71 | for 18 bytes or more the zeroed copy has the segment's length, zeros at 16 and 17, and every other byte unchanged |
| `Segment.ZeroedIgnoresField` | tcp_validator.py:71 | the zeroed copy does not depend on what bytes 16 and 17 held |
| `Segment.FieldByteChange` | tcp_validator.py:70-71 | changing byte 16 or 17 changes the embedded checksum and leaves the zeroed copy alone |
| `Segment.PayloadByteChange` | tcp_validator.py:70-71 | changing any other byte keeps the embedded checksum and changes the zeroed copy at the same offset |
| `Segment.ComputedChecksum` | tcp_validator.py:76-77 | the recomputed checksum over pseudo-header ++ zeroed copy is in [0, 0xFFFF] |
| `Validator.Validate` | tcp_validator.py:61-79 | a segment shorter than 18 bytes is FAIL before any address is converted; otherwise an address or length error is passed on; PASS exactly when the checksum recomputed over pseudo-header ++ zeroed copy equals the embedded one |
| `Validator.Seal` | tcp_validator.py:76-79 | the sender's side, used as the reference for PASS: the segment with bytes 16-17 set to the recomputed checksum; the other bytes and the length are unchanged, and the embedded value becomes the recomputed one |
| `Validator.PassIffSealed` | tcp_validator.py:76-79 | a segment of 18 bytes or more passes exactly when it equals its sealed form |
| `Validator.SealedPasses` | tcp_validator.py:76-79 | sealing any segment of 18 bytes or more, whatever its checksum field held, makes it pass |
| `Segment.PayloadByteChangesChecksum` | tcp_validator.py:70-77 | a changed byte outside the checksum field changes the recomputed checksum and keeps the embedded one |
| `Segment.HeaderByteChangesChecksum` | tcp_validator.py:76-77 | changing any one pseudo-header byte changes the recomputed checksum |
| `Validator.SourceByteChangeFails` | tcp_validator.py:61-79 | a passing segment checked against a source address that differs from the true one in a single byte fails |
| `Validator.DestinationByteChangeFails` | tcp_validator.py:61-79 | a passing segment checked against a destination address that differs from the true one in a single byte fails |
| `Validator.DetectsByteCorruption` | tcp_validator.py:61-79 | changing any single byte of a passing segment (so any single-bit error), including the checksum field, makes it fail |
| `BasicValidator.Validate` | tcp_validator_basic.py:36-46 | with no length guard: an address or length error is passed on; otherwise PASS exactly when the recomputed checksum equals the embedded one, for every segment length |
| `BasicValidator.AgreesWithGuardedValidator` | tcp_validator_basic.py:36-46 | on every segment of 18 bytes or more both variants give the same result |
| `BasicValidator.ShortSegmentVerdict` | tcp_validator_basic.py:40-41 | a shorter segment still gets a verdict. It compares the checksum of pseudo-header ++ first min(len, 16) bytes ++ [0, 0] with seg[16] (17 bytes) or 0 (fewer) |
| `BasicValidator.ShortSegmentPasses` | tcp_validator_basic.py:40-46 | 16 zero bytes sent between any two four-byte addresses whose pseudo-header words add up to 0xFFFF are reported PASS by the basic variant and FAIL by tcp_validator.py |
| `BasicValidator.ShortSegmentMatch` | tcp_validator_basic.py:40-46 | a segment shorter than 18 bytes whose recomputed checksum equals the clamped read of the field passes the basic variant and fails the guarded one |
| `BasicValidator.ZeroSegmentChecksum` | tcp_validator_basic.py:40-44 | behind a pseudo-header whose words add up to 0xFFFF, 16 zero bytes have recomputed checksum 0 and embedded checksum 0 |
| `BasicValidator.ZeroSegmentMatch` | tcp_validator_basic.py:40-46 | 16 zero bytes behind such a pseudo-header pass the basic variant and fail the guarded one |
| `BasicValidator.QuadHeader` | tcp_validator_basic.py:10-17 | two four-byte addresses and a 16-byte segment give the 12-byte pseudo-header src ++ dst ++ [0, 6, 0, 16] |
| `BasicValidator.ExampleAddresses` | tcp_validator_basic.py:1-2 | 255.233.0.0 and 0.0.0.0 are the dotted forms of their bytes, and with a 16-byte segment their pseudo-header words add up to 0xFFFF |
| `BasicValidator.DottedQuad` | tcp_validator_basic.py:1-2 | four bytes in dotted decimal are their four numerals with dots between them |
| `BasicValidator.ExampleShortSegment` | tcp_validator_basic.py:36-46 | 16 zero bytes sent from 255.233.0.0 to 0.0.0.0 are PASS without the guard and FAIL with it |

## Left out

- File reading is not modelled: `read_tcp_data` and the `open` calls (tcp_validator.py:10-22, 48-59; tcp_validator_basic.py:5-7, 33-34). This is file I/O. The validators take the two address strings and the segment bytes as parameters.
- Splitting the address file into exactly two whitespace-separated tokens (tcp_validator.py:50) is not modelled. It is part of reading the file, and its ValueError ends the process.
- `print` and `exit(1)` error reporting is process side effects. The exceptions that escape the core become `Err(BadAddress)` or `Err(LengthOverflow)`.
- The `IndexError` handler at tcp_validator.py:72-74 has no separate path. It cannot run, because slicing a `bytes` object never raises.
- `setup_cli`, `print_usage`, `main`, `numeric_sort` and `default_validation` (tcp_validator.py:82-164) are left out, and so is `main` in tcp_validator_basic.py:49-56. They are command-line handling, directory listing, file pairing and console output.
- tcp_data_generator.py is not part of this model. It only writes a 16-byte zero file; that segment appears in `BasicValidator.ShortSegmentPasses`.
- Address.IpToBytes, Address.ComponentsToBytes, Address.ForeignCharacterRejected: do not model the leniency of Python's `int()`. Surrounding whitespace, a `+` or `-` sign (`int("-0")` is 0), underscores between digits and non-ASCII digits are accepted by Python but rejected by the model. A piece counts as a number only when it is one or more ASCII digits.
- The checksum offset stays fixed at 16. It is not derived from the TCP data-offset field, because the source does not derive it.

## Findings

| source | as written | input that shows it | evidently intended | confidence | as-written member | corrected member |
|---|---|---|---|---|---|---|
| tcp_validator_basic.py:40-41 | a segment shorter than 18 bytes still gets a verdict; the clamped slices read the embedded checksum as 0 and build a "zeroed" copy of min(len, 16) + 2 bytes, so the verdict can be PASS | addresses 255.233.0.0 and 0.0.0.0 with the 16 zero bytes tcp_data_generator.py writes: the pseudo-header words sum to 0xFFFF, so the recomputed checksum is 0, equal to the missing field's 0 | a segment with no room for the checksum field is reported FAIL, as the guard at tcp_validator.py:62-64 does | not executed; proved about the model, medium that it was unintended | `BasicValidator.ShortSegmentPasses`, `BasicValidator.ExampleShortSegment` | `Validator.Validate` |
