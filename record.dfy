/**
 * Positional decoding of one Intel HEX record line (`peak_*` and the
 * checksum rule of `segment_feed`). Fields are read by character offset from
 * the stripped line; the leading ':' at offset 0 is never looked at:
 * byte count at 1..2, address at 3..6, record type at 7..8, data byte i at
 * 9+2i..10+2i, checksum right after the data.
 */
module Record {
  import opened Wrappers
  import opened Hex

  /** The record types of `ReocrdType`. */
  datatype RecordType =
    | DataRecord | EndOfFile | ExtSegmentAddr | StartSegmentAddr | ExtLinearAddr | StartLinearAddr
  {
    function Code(): (v: nat)
      ensures v < 6
    {
      match this
      case DataRecord => 0x00
      case EndOfFile => 0x01
      case ExtSegmentAddr => 0x02
      case StartSegmentAddr => 0x03
      case ExtLinearAddr => 0x04
      case StartLinearAddr => 0x05
    }
  }

  /** The codes of the record types. */
  lemma Codes()
    ensures DataRecord.Code() == 0 && EndOfFile.Code() == 1 && ExtSegmentAddr.Code() == 2
    ensures StartSegmentAddr.Code() == 3 && ExtLinearAddr.Code() == 4 && StartLinearAddr.Code() == 5
  {
  }

  /** The errors that stop a conversion. */
  datatype Error =
    | Malformed(line: string)        // a field is missing or is not hex (`int(..., 16)` raises)
    | ChecksumMismatch(line: string) // the record's bytes do not sum to 0 modulo 256
    | SinkClosed                     // a write to the text output after it was closed

  /** Python's `s[st : st + size]` for non-negative bounds: clamped to the string. */
  function Slice(s: string, st: nat, size: nat): (r: string)
    ensures |r| <= size
    ensures st + size <= |s| ==> r == s[st..st + size]
  {
    if st >= |s| then [] else if st + size <= |s| then s[st..st + size] else s[st..]
  }

  /** `_peak`: the hex field of `size` characters at offset `st`. */
  function Peak(s: string, st: nat, size: nat): (r: Option<nat>)
    ensures r.Some? ==> r.value < Pow16(size)
  {
    var f := Slice(s, st, size);
    var r := Parse(f);
    if r.Some? then Pow16Monotone(|f|, size); r else r
  }

  /** `peak_head`: the idx-th field of width `size` counted from offset 1. */
  function PeakHead(s: string, idx: nat, size: nat): Option<nat> {
    Peak(s, 1 + idx * size, size)
  }

  /** `peak_len`: the byte count. */
  function PeakLen(s: string): Option<nat> {
    Peak(s, 1, 2)
  }

  /** `peak_offset`: the 16-bit load offset. */
  function PeakOffset(s: string): Option<nat> {
    Peak(s, 3, 4)
  }

  /** `peak_type`: the record type. */
  function PeakType(s: string): Option<nat> {
    Peak(s, 7, 2)
  }

  /** `peak_data`: the idx-th data field of width `size`. */
  function PeakData(s: string, idx: nat, size: nat): Option<nat> {
    Peak(s, 9 + idx * size, size)
  }

  /** `peak_checksum`: the two characters after the byte count's worth of data. */
  function PeakChecksum(s: string): Option<nat> {
    match PeakLen(s)
    case None => None
    case Some(size) => Peak(s, 9 + size * 2, 2)
  }

  /** The data byte at index `idx`. */
  function PeakByte(s: string, idx: nat): (r: Option<byte>) {
    var v := PeakData(s, idx, 2);
    if v.Some? then assert Pow16(2) == 256; Some(v.value as byte) else None
  }

  /** The sum of the first `n` header fields (count, address high, address low, type). */
  function HeadSum(s: string, n: nat): Option<nat> {
    if n == 0 then Some(0)
    else
      var h, v := HeadSum(s, n - 1), PeakHead(s, n - 1, 2);
      if h.Some? && v.Some? then Some(h.value + v.value) else None
  }

  /** The first `n` data bytes. */
  function DataBytes(s: string, n: nat): (r: Option<seq<byte>>)
    ensures r.Some? ==> |r.value| == n
  {
    if n == 0 then Some([])
    else
      var d, b := DataBytes(s, n - 1), PeakByte(s, n - 1);
      if d.Some? && b.Some? then Some(d.value + [b.value]) else None
  }

  /** The Intel HEX checksum rule: the low byte of the sum of all record bytes is 0. */
  predicate SumsToZero(total: nat) {
    total % 256 == 0
  }

  function Sum(d: seq<nat>): nat {
    if d == [] then 0 else Sum(d[..|d| - 1]) + d[|d| - 1]
  }

  /**
   * The verdict of `segment_feed` on the fields it read: every field must have
   * parsed, and then the byte count, both address bytes, the type, the data
   * and the checksum must sum to 0 modulo 256. The result is the payload.
   */
  function Verdict(s: string, head: Option<nat>, data: Option<seq<byte>>, checksum: Option<nat>): Result<seq<byte>, Error> {
    if head.None? || data.None? || checksum.None? then Failure(Malformed(s))
    else if !SumsToZero(checksum.value + head.value + Sum(data.value)) then Failure(ChecksumMismatch(s))
    else Success(data.value)
  }

  /** The checks of `segment_feed` that follow the gap step. */
  function DecodePayload(s: string): Result<seq<byte>, Error> {
    var size := PeakLen(s);
    if size.None? then Failure(Malformed(s))
    else Verdict(s, HeadSum(s, 4), DataBytes(s, size.value), PeakChecksum(s))
  }

  /** The first loop of `segment_feed`: the sum of the four header fields. */
  method ReadHeadSum(s: string) returns (r: Option<nat>)
    ensures r == HeadSum(s, 4)
  {
    var chksum := 0;
    var i := 0;
    while i < 4
      invariant 0 <= i <= 4
      invariant HeadSum(s, i) == Some(chksum)
    {
      var v := PeakHead(s, i, 2);
      if v.None? {
        HeadFailureSticks(s, i + 1, 4);
        return None;
      }
      chksum := chksum + v.value;
      i := i + 1;
    }
    return Some(chksum);
  }

  /** The second loop of `segment_feed`: the `size` data bytes, and their sum. */
  method ReadData(s: string, size: nat) returns (r: Option<seq<byte>>, total: nat)
    ensures r == DataBytes(s, size)
    ensures r.Some? ==> total == Sum(r.value)
  {
    var data: seq<byte> := [];
    total := 0;
    var i := 0;
    while i < size
      invariant 0 <= i <= size
      invariant DataBytes(s, i) == Some(data)
      invariant total == Sum(data)
    {
      var v := PeakByte(s, i);
      if v.None? {
        DataFailureSticks(s, i + 1, size);
        return None, total;
      }
      DataBytesStep(s, i, data, v.value);
      total := total + v.value;
      data := data + [v.value];
      i := i + 1;
    }
    return Some(data), total;
  }

  /** The reading and checking part of `segment_feed`, in its order. */
  method ReadPayload(s: string) returns (r: Result<seq<byte>, Error>)
    ensures r == DecodePayload(s)
  {
    var size := PeakLen(s);
    if size.None? {
      return Failure(Malformed(s));
    }
    DecodeShape(s, size.value);
    var head := ReadHeadSum(s);
    if head.None? {
      assert Verdict(s, head, DataBytes(s, size.value), PeakChecksum(s)) == Failure(Malformed(s));
      return Failure(Malformed(s));
    }
    var data, total := ReadData(s, size.value);
    if data.None? {
      assert Verdict(s, head, data, PeakChecksum(s)) == Failure(Malformed(s));
      return Failure(Malformed(s));
    }
    var checksum := PeakChecksum(s);
    if checksum.None? {
      assert Verdict(s, head, data, checksum) == Failure(Malformed(s));
      return Failure(Malformed(s));
    }
    VerdictOn(s, head.value, data.value, checksum.value, head.value + Sum(data.value) + checksum.value);
    if (checksum.value + head.value + total) % 256 != 0 {
      return Failure(ChecksumMismatch(s));
    }
    return Success(data.value);
  }

  lemma DecodeShape(s: string, size: nat)
    requires PeakLen(s) == Some(size)
    ensures DecodePayload(s) == Verdict(s, HeadSum(s, 4), DataBytes(s, size), PeakChecksum(s))
  {
  }

  lemma DataBytesStep(s: string, i: nat, data: seq<byte>, v: byte)
    requires DataBytes(s, i) == Some(data) && PeakByte(s, i) == Some(v)
    ensures DataBytes(s, i + 1) == Some(data + [v])
    ensures Sum(data + [v]) == Sum(data) + v
  {
    assert (data + [v])[..|data|] == data;
  }

  lemma {:induction false} HeadFailureSticks(s: string, i: nat, n: nat)
    requires i <= n && HeadSum(s, i).None?
    ensures HeadSum(s, n).None?
    decreases n - i
  {
    if i < n { HeadFailureSticks(s, i + 1, n); }
  }

  lemma {:induction false} DataFailureSticks(s: string, i: nat, n: nat)
    requires i <= n && DataBytes(s, i).None?
    ensures DataBytes(s, n).None?
    decreases n - i
  {
    if i < n { DataFailureSticks(s, i + 1, n); }
  }

  /**
   * A line too short to hold the checksum field after its data, or whose
   * checksum field does not start with a hex digit, is malformed, whatever
   * its other fields hold.
   */
  lemma ChecksumFieldMissing(s: string, n: nat)
    requires PeakLen(s) == Some(n) && (|s| <= 9 + 2 * n || !IsHexDigit(s[9 + 2 * n]))
    ensures DecodePayload(s) == Failure(Malformed(s))
  {
    var f := Slice(s, 9 + n * 2, 2);
    assert f == [] || f[0] == s[9 + 2 * n];
    assert PeakChecksum(s) == None;
  }

  /** A data field that does not parse makes the line malformed. */
  lemma DataFieldMalformed(s: string, n: nat, i: nat)
    requires PeakLen(s) == Some(n) && i < n && PeakByte(s, i).None?
    ensures DecodePayload(s) == Failure(Malformed(s))
  {
    DataFailureSticks(s, i + 1, n);
  }

  /**
   * Fields are Python slices cut short at the end of the line: a line that
   * ends one character into its checksum field is still read, that one hex
   * digit being the checksum, and the record is accepted or rejected on it.
   */
  lemma PartialChecksumRead(s: string, n: nat, head: nat, data: seq<byte>)
    requires PeakLen(s) == Some(n) && HeadSum(s, 4) == Some(head) && DataBytes(s, n) == Some(data)
    requires |s| == 10 + 2 * n && IsHexDigit(s[9 + 2 * n])
    ensures var checksum := DigitValue(s[9 + 2 * n]);
      DecodePayload(s) ==
        if SumsToZero(head + Sum(data) + checksum) then Success(data) else Failure(ChecksumMismatch(s))
  {
    var k := 9 + 2 * n;
    var checksum := DigitValue(s[k]);
    OneDigitField(s, k);
    assert PeakChecksum(s) == Some(checksum) by {
      assert 9 + n * 2 == k;
    }
    DecodeShape(s, n);
    VerdictOn(s, head, data, checksum, head + Sum(data) + checksum);
  }

  /** A field cut to its one last character reads as that digit. */
  lemma OneDigitField(s: string, k: nat)
    requires k + 1 == |s| && IsHexDigit(s[k])
    ensures Peak(s, k, 2) == Some(DigitValue(s[k]))
  {
    var f := Slice(s, k, 2);
    assert f == [s[k]];
    assert Value(f) == DigitValue(s[k]) by { assert f[..0] == []; }
  }

  /** Python's `str.isspace` characters, which `strip()` removes. */
  predicate IsSpace(c: char) {
    var n := c as int;
    || n == 0x20 || (0x09 <= n <= 0x0D) || (0x1C <= n <= 0x1F) || n == 0x85 || n == 0xA0
    || n == 0x1680 || (0x2000 <= n <= 0x200A) || n == 0x2028 || n == 0x2029
    || n == 0x202F || n == 0x205F || n == 0x3000
  }

  function TrimStart(s: string): (r: string)
    ensures |r| <= |s| && r == s[|s| - |r|..]
    ensures r == [] || !IsSpace(r[0])
    ensures forall k :: 0 <= k < |s| - |r| ==> IsSpace(s[k])
  {
    if s != [] && IsSpace(s[0]) then TrimStart(s[1..]) else s
  }

  function TrimEnd(s: string): (r: string)
    ensures |r| <= |s| && r == s[..|r|]
    ensures r == [] || !IsSpace(r[|r| - 1])
    ensures forall k :: |r| <= k < |s| ==> IsSpace(s[k])
  {
    if s != [] && IsSpace(s[|s| - 1]) then TrimEnd(s[..|s| - 1]) else s
  }

  /** `str.strip()`: the line without leading and trailing white space. */
  function Strip(s: string): (r: string)
    ensures r == [] || (!IsSpace(r[0]) && !IsSpace(r[|r| - 1]))
  {
    TrimEnd(TrimStart(s))
  }

  /** Two upper-case hex digits per byte: how a record's bytes are written in a line. */
  function HexBytes(bs: seq<byte>): (t: string)
    ensures |t| == 2 * |bs| && AllHex(t)
  {
    if bs == [] then ""
    else
      FormatLength(bs[|bs| - 1], 2);
      HexBytes(bs[..|bs| - 1]) + Format(bs[|bs| - 1], 2)
  }

  /** The text line of a record whose bytes are `bs`: a colon, then the bytes in hex. */
  function Line(bs: seq<byte>): (line: string)
    ensures |line| == 1 + 2 * |bs|
  {
    ":" + HexBytes(bs)
  }

  lemma {:induction false} HexBytesAt(bs: seq<byte>, j: nat)
    requires j < |bs|
    ensures HexBytes(bs)[2 * j..2 * j + 2] == Format(bs[j], 2)
    decreases |bs|
  {
    var pre := bs[..|bs| - 1];
    FormatLength(bs[|bs| - 1], 2);
    if j < |bs| - 1 {
      HexBytesAt(pre, j);
      assert HexBytes(bs)[2 * j..2 * j + 2] == HexBytes(pre)[2 * j..2 * j + 2];
    }
  }

  /** The 2-character field at 1 + 2j of a record line is its byte j. */
  lemma FieldAt(bs: seq<byte>, j: nat, st: nat)
    requires j < |bs| && st == 1 + 2 * j
    ensures Peak(Line(bs), st, 2) == Some(bs[j])
  {
    HexBytesAt(bs, j);
    assert Slice(Line(bs), st, 2) == HexBytes(bs)[2 * j..2 * j + 2];
    ParseFormat(bs[j], 2);
  }

  lemma {:induction false} SumAppend(a: seq<nat>, b: seq<nat>)
    ensures Sum(a + b) == Sum(a) + Sum(b)
    decreases |b|
  {
    if b == [] {
      assert a + b == a;
    } else {
      assert (a + b)[..|a + b| - 1] == a + b[..|b| - 1];
      SumAppend(a, b[..|b| - 1]);
    }
  }

  /** The line `s` holds the bytes `bs` in its consecutive 2-character fields from offset 1. */
  predicate Fields(s: string, bs: seq<byte>) {
    forall j {:trigger PeakHead(s, j, 2)} :: 0 <= j < |bs| ==> PeakHead(s, j, 2) == Some(bs[j])
  }

  lemma LineFields(bs: seq<byte>)
    ensures Fields(Line(bs), bs)
  {
    forall j | 0 <= j < |bs|
      ensures PeakHead(Line(bs), j, 2) == Some(bs[j])
    {
      FieldAt(bs, j, 1 + j * 2);
    }
  }

  /** Data byte `i` of a line is field `4 + i` counted from the byte count. */
  lemma ByteOfField(s: string, bs: seq<byte>, i: nat)
    requires 4 + i < |bs| && Fields(s, bs)
    ensures PeakByte(s, i) == Some(bs[4 + i])
  {
    assert PeakHead(s, 4 + i, 2) == Some(bs[4 + i]);
    assert PeakData(s, i, 2) == PeakHead(s, 4 + i, 2);
  }

  lemma DataBytesOf(s: string, bs: seq<byte>, n: nat)
    requires 4 + n <= |bs| && Fields(s, bs)
    ensures DataBytes(s, n) == Some(bs[4..4 + n])
  {
    var d := bs[4..4 + n];
    forall i | 0 <= i < n
      ensures PeakByte(s, i) == Some(d[i])
    {
      ByteOfField(s, bs, i);
    }
    DataBytesFrom(s, d, n);
    assert d[..n] == d;
  }

  /** The first `n` data fields of a line that hold the bytes of `d` read as those bytes. */
  lemma {:induction false} DataBytesFrom(s: string, d: seq<byte>, n: nat)
    requires n <= |d| && forall i {:trigger PeakByte(s, i)} :: 0 <= i < n ==> PeakByte(s, i) == Some(d[i])
    ensures DataBytes(s, n) == Some(d[..n])
    decreases n
  {
    if n > 0 {
      DataBytesFrom(s, d, n - 1);
      DataBytesStep(s, n - 1, d[..n - 1], d[n - 1]);
      PrefixSnoc(d, n);
    }
  }

  lemma PrefixSnoc(d: seq<byte>, n: nat)
    requires 0 < n <= |d|
    ensures d[..n] == d[..n - 1] + [d[n - 1]]
  {
  }

  /** A record of `count` data bytes has 5 + count bytes. */
  predicate WellSized(bs: seq<byte>) {
    |bs| >= 5 && |bs| == 5 + bs[0] as int
  }

  /** The header fields of a record line: byte count, type, and the sum of the first four bytes. */
  lemma HeaderOf(s: string, bs: seq<byte>)
    requires |bs| >= 4 && Fields(s, bs)
    ensures PeakLen(s) == Some(bs[0])
    ensures PeakType(s) == Some(bs[3])
    ensures HeadSum(s, 4) == Some(Sum(bs[..4]))
  {
    assert PeakHead(s, 0, 2) == Some(bs[0]) && PeakHead(s, 3, 2) == Some(bs[3]);
    assert HeadSum(s, 4) == Some(bs[0] as int + bs[1] as int + bs[2] as int + bs[3] as int) by {
      assert PeakHead(s, 1, 2) == Some(bs[1]) && PeakHead(s, 2, 2) == Some(bs[2]);
      assert HeadSum(s, 1) == Some(bs[0] as int);
      assert HeadSum(s, 2) == Some(bs[0] as int + bs[1] as int);
      assert HeadSum(s, 3) == Some(bs[0] as int + bs[1] as int + bs[2] as int);
    }
    SumOfHeader(bs);
  }

  lemma SumOfHeader(bs: seq<byte>)
    requires |bs| >= 4
    ensures Sum(bs[..4]) == bs[0] as int + bs[1] as int + bs[2] as int + bs[3] as int
  {
    assert bs[..4][..3] == bs[..3] && bs[..3][..2] == bs[..2] && bs[..2][..1] == bs[..1];
    assert Sum(bs[..1]) == bs[0] as int;
    assert Sum(bs[..2]) == bs[0] as int + bs[1] as int;
    assert Sum(bs[..3]) == bs[0] as int + bs[1] as int + bs[2] as int;
  }

  /** A 4-character field at 1 + 2j of a record line is bytes j and j + 1, high byte first. */
  lemma WordAt(bs: seq<byte>, j: nat, st: nat)
    requires j + 1 < |bs| && st == 1 + 2 * j
    ensures Peak(Line(bs), st, 4) == Some(bs[j] as int * 256 + bs[j + 1] as int)
  {
    HexBytesAt(bs, j);
    HexBytesAt(bs, j + 1);
    var h := HexBytes(bs);
    assert Line(bs)[st..st + 4] == h[2 * j..2 * j + 4];
    assert h[2 * j..2 * j + 4] == h[2 * j..2 * j + 2] + h[2 * (j + 1)..2 * (j + 1) + 2];
    assert Slice(Line(bs), st, 4) == Format(bs[j], 2) + Format(bs[j + 1], 2);
    ParseTwoBytes(bs[j], bs[j + 1]);
  }

  /** The 4-character offset field is the two address bytes, high byte first. */
  lemma OffsetOfLine(bs: seq<byte>)
    requires |bs| >= 3
    ensures PeakOffset(Line(bs)) == Some(bs[1] as int * 256 + bs[2] as int)
  {
    WordAt(bs, 1, 3);
  }

  /** The first four data characters, as read for an address record, are data bytes 0 and 1. */
  lemma AddressWordOfLine(bs: seq<byte>)
    requires |bs| >= 6
    ensures PeakData(Line(bs), 0, 4) == Some(bs[4] as int * 256 + bs[5] as int)
  {
    WordAt(bs, 4, 9);
  }

  /**
   * The line of an encoded record with a two-byte payload (an address record)
   * carries the payload's 16-bit value, high byte first, in its first four
   * data characters.
   */
  lemma AddressLine(kind: byte, address: nat, data: seq<byte>)
    requires address < 0x1_0000 && |data| == 2
    ensures PeakData(Line(RecordBytes(kind, address, data)), 0, 4) == Some(data[0] as int * 256 + data[1] as int)
  {
    var bs := RecordBytes(kind, address, data);
    AddressWordOfLine(bs);
    assert bs[4] == data[0] && bs[5] == data[1] by {
      assert bs[4..6] == data;
    }
  }

  /** A record line has no white space around it, so `strip()` leaves it as it is. */
  lemma StripLine(bs: seq<byte>)
    ensures Strip(Line(bs)) == Line(bs)
  {
    var line := Line(bs);
    assert !IsSpace(line[0]);
    assert TrimStart(line) == line;
    assert !IsSpace(line[|line| - 1]) by {
      if bs != [] {
        assert line[|line| - 1] == HexBytes(bs)[2 * |bs| - 1];
        assert IsHexDigit(line[|line| - 1]);
      }
    }
  }

  lemma ChecksumOf(s: string, bs: seq<byte>)
    requires WellSized(bs) && Fields(s, bs)
    ensures PeakChecksum(s) == Some(bs[4 + bs[0] as int])
  {
    var n := bs[0] as int;
    assert PeakHead(s, 0, 2) == Some(bs[0]);
    assert PeakLen(s) == Some(n);
    assert PeakHead(s, 4 + n, 2) == Some(bs[4 + n]);
    assert PeakHead(s, 4 + n, 2) == Peak(s, 9 + n * 2, 2);
  }

  /** The payload check on any line whose fields hold a well-sized record. */
  lemma DecodeFields(s: string, bs: seq<byte>)
    requires WellSized(bs) && Fields(s, bs)
    ensures PeakLen(s) == Some(bs[0]) && PeakType(s) == Some(bs[3])
    ensures DecodePayload(s) ==
      if SumsToZero(Sum(bs)) then Success(bs[4..4 + bs[0]]) else Failure(ChecksumMismatch(s))
  {
    var n := bs[0] as int;
    HeaderOf(s, bs);
    DataBytesOf(s, bs, n);
    ChecksumOf(s, bs);
    SumOfRecord(bs);
    DecodeShape(s, n);
    VerdictOn(s, Sum(bs[..4]), bs[4..4 + n], bs[4 + n], Sum(bs));
  }

  /** The verdict on fields that all parsed depends only on the total of the record's bytes. */
  lemma VerdictOn(s: string, head: nat, data: seq<byte>, checksum: nat, total: nat)
    requires total == head + Sum(data) + checksum
    ensures Verdict(s, Some(head), Some(data), Some(checksum)) ==
      if SumsToZero(total) then Success(data) else Failure(ChecksumMismatch(s))
  {
  }

  /**
   * Checksum acceptance: for the line of any well-sized record, the decoder
   * reads the byte count, address and type from their fixed offsets, and
   * accepts the record exactly when all its bytes sum to 0 modulo 256, in which
   * case the payload is the data bytes; otherwise it reports a checksum
   * mismatch.
   */
  lemma DecodeLine(bs: seq<byte>)
    requires WellSized(bs)
    ensures PeakLen(Line(bs)) == Some(bs[0])
    ensures PeakOffset(Line(bs)) == Some(bs[1] as int * 256 + bs[2] as int)
    ensures PeakType(Line(bs)) == Some(bs[3])
    ensures DecodePayload(Line(bs)) ==
      if SumsToZero(Sum(bs)) then Success(bs[4..4 + bs[0]]) else Failure(ChecksumMismatch(Line(bs)))
  {
    LineFields(bs);
    DecodeFields(Line(bs), bs);
    OffsetOfLine(bs);
  }

  lemma SumOfRecord(bs: seq<byte>)
    requires WellSized(bs)
    ensures Sum(bs) == Sum(bs[..4]) + Sum(bs[4..4 + bs[0]]) + bs[4 + bs[0] as int]
  {
    var n := bs[0] as int;
    assert bs == bs[..4] + bs[4..4 + n] + [bs[4 + n]];
    SumAppend(bs[..4] + bs[4..4 + n], [bs[4 + n]]);
    SumAppend(bs[..4], bs[4..4 + n]);
  }

  /** The checksum byte that makes the bytes of `prefix` and itself sum to 0 modulo 256. */
  function CheckByte(prefix: seq<byte>): (c: byte)
    ensures SumsToZero(Sum(prefix) + c)
  {
    ModComplement(Sum(prefix));
    (256 - Sum(prefix) % 256) % 256
  }

  lemma ModComplement(x: nat)
    ensures (x + (256 - x % 256) % 256) % 256 == 0
  {
    var q, r := x / 256, x % 256;
    assert x == 256 * q + r;
    if r != 0 {
      assert x + (256 - r) == 256 * (q + 1);
    }
  }

  /** The bytes of a record of type `kind` at `address` carrying `data`, with its checksum. */
  function RecordBytes(kind: byte, address: nat, data: seq<byte>): (bs: seq<byte>)
    requires address < 0x1_0000 && |data| < 256
    ensures |bs| == 5 + |data| && bs[0] == |data| && WellSized(bs)
    ensures bs[1] as int * 256 + bs[2] as int == address && bs[3] == kind && bs[4..4 + |data|] == data
    ensures SumsToZero(Sum(bs))
  {
    var prefix := [|data| as byte, (address / 256) as byte, (address % 256) as byte, kind] + data;
    var bs := prefix + [CheckByte(prefix)];
    assert |bs| == 5 + |data| && bs[4..4 + |data|] == data && bs[..|bs| - 1] == prefix;
    SumAppend(prefix, [CheckByte(prefix)]);
    bs
  }

  /** A record whose bytes do not sum to zero is read as a checksum mismatch, its offset still readable. */
  lemma BadChecksumLine(bs: seq<byte>)
    requires WellSized(bs) && !SumsToZero(Sum(bs))
    ensures PeakOffset(Line(bs)) == Some(bs[1] as int * 256 + bs[2] as int)
    ensures DecodePayload(Line(bs)) == Failure(ChecksumMismatch(Line(bs)))
  {
    DecodeLine(bs);
  }

  /** Writing a record and decoding it gives back its address, type and payload. */
  lemma EncodeDecode(kind: byte, address: nat, data: seq<byte>)
    requires address < 0x1_0000 && |data| < 256
    ensures PeakOffset(Line(RecordBytes(kind, address, data))) == Some(address)
    ensures PeakType(Line(RecordBytes(kind, address, data))) == Some(kind)
    ensures DecodePayload(Line(RecordBytes(kind, address, data))) == Success(data)
  {
    DecodeEncoded(RecordBytes(kind, address, data), kind, address, data);
  }

  /** The decoder on the line of bytes laid out as an encoded record. */
  lemma DecodeEncoded(bs: seq<byte>, kind: byte, address: nat, data: seq<byte>)
    requires WellSized(bs) && bs[0] == |data| && bs[1] as int * 256 + bs[2] as int == address && bs[3] == kind
    requires bs[4..4 + |data|] == data && SumsToZero(Sum(bs))
    ensures PeakOffset(Line(bs)) == Some(address) && PeakType(Line(bs)) == Some(kind)
    ensures DecodePayload(Line(bs)) == Success(data)
  {
    OffsetIs(bs, address);
    AcceptedLine(bs, data);
    LineFields(bs);
    HeaderOf(Line(bs), bs);
  }

  lemma OffsetIs(bs: seq<byte>, address: nat)
    requires |bs| >= 3 && bs[1] as int * 256 + bs[2] as int == address
    ensures PeakOffset(Line(bs)) == Some(address)
  {
    OffsetOfLine(bs);
  }

  lemma AcceptedLine(bs: seq<byte>, data: seq<byte>)
    requires WellSized(bs) && bs[0] == |data| && bs[4..4 + |data|] == data && SumsToZero(Sum(bs))
    ensures DecodePayload(Line(bs)) == Success(data)
  {
    DecodeLine(bs);
  }

  lemma RejectedLine(bs: seq<byte>)
    requires WellSized(bs) && !SumsToZero(Sum(bs))
    ensures DecodePayload(Line(bs)) == Failure(ChecksumMismatch(Line(bs)))
  {
    DecodeLine(bs);
  }

  /** A record whose checksum byte is anything but the right one is rejected as a mismatch. */
  lemma WrongChecksumRejected(kind: byte, address: nat, data: seq<byte>, c: byte)
    requires address < 0x1_0000 && |data| < 256
    requires c != RecordBytes(kind, address, data)[4 + |data|]
    ensures DecodePayload(Line(RecordBytes(kind, address, data)[4 + |data| := c])) ==
      Failure(ChecksumMismatch(Line(RecordBytes(kind, address, data)[4 + |data| := c])))
  {
    var good := RecordBytes(kind, address, data);
    ChecksumChanged(good, 4 + |data|, c);
    RejectedLine(good[4 + |data| := c]);
  }

  /** Replacing the checksum byte of a record that sums to zero by any other byte breaks the sum. */
  lemma ChecksumChanged(good: seq<byte>, n: nat, c: byte)
    requires WellSized(good) && n == |good| - 1 && SumsToZero(Sum(good)) && c != good[n]
    ensures WellSized(good[n := c]) && !SumsToZero(Sum(good[n := c]))
  {
    var prefix := good[..n];
    assert good == prefix + [good[n]] && good[n := c] == prefix + [c];
    SumAppend(prefix, [good[n]]);
    SumAppend(prefix, [c]);
  }
}
