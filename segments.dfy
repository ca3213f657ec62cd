/**
 * What the segment state machine of `H2B` guarantees: the invariant every
 * step keeps, how a data record grows the current segment (gap padding
 * included) or opens a new one, what address records and the other record
 * types do, the end-of-file padding and CRC, and what happens once the text
 * output is closed or an exception has stopped the conversion.
 */
module Segments {
  import opened Wrappers
  import opened Hex
  import opened Crc24
  import opened Record
  import opened Emitter
  import opened Engine

  // ---------------------------------------------------------------------
  // The invariant
  // ---------------------------------------------------------------------

  /**
   * Opening a segment closes the previous array with a trailer that reports
   * the number of bytes actually written to the previous binary file, starts
   * an empty binary file named after the base address and offset, and keeps
   * the invariant.
   */
  lemma SaveAndCreateOpens(c: Config, st: State, offset: nat)
    requires Inv(st) && !st.sinks.Closed?
    ensures var o := SaveAndCreate(c, st, offset);
      && o.status == Ok && Inv(o.state) && o.state.sinks == Open && !o.state.newSeg
      && o.state.segCount == st.segCount + 1 && o.state.segSize == 0 && o.state.crc == 0
      && o.state.dataOffset == 0 && o.state.baseAddr == st.baseAddr
      && o.state.binOut == st.binOut + [[]]
      && o.state.binNames == st.binNames + [BinFileName(c.fileName, st.baseAddr, offset)]
      && o.state.text == st.text
           + (if st.segCount == 0 then "" else Trailer(|Last(st.binOut)|, st.crc))
           + SegmentHeader(st.baseAddr, offset)
  {
    var o := SaveAndCreate(c, st, offset);
    assert Last(o.state.binOut) == [];
  }

  /**
   * Feeding keeps the invariant. On open outputs the bytes go to the end of
   * the current binary segment; on a closed text output a non-empty feed
   * raises and changes nothing.
   */
  lemma FeedKeepsInv(c: Config, st: State, d: seq<byte>, calCrc: bool)
    requires Inv(st)
    ensures var o := Feed(c, st, d, calCrc);
      && Inv(o.state)
      && (st.sinks.Open? ==>
            o.status == Ok && o.state.segCount == st.segCount
            && o.state.binOut[..st.segCount - 1] == st.binOut[..st.segCount - 1]
            && Last(o.state.binOut) == Last(st.binOut) + d)
      && (st.sinks.Closed? ==>
            (o.status.Failed? <==> d != []) && o.state.binOut == st.binOut && o.state.text == st.text)
  {
  }

  lemma {:induction false} PadChunksKeepInv(c: Config, st: State, count: nat)
    requires Inv(st)
    ensures Inv(PadChunks(c, st, count).state)
  {
    if count > 0 {
      PadChunksKeepInv(c, st, count - 1);
      var o := PadChunks(c, st, count - 1);
      if o.status.Ok? {
        FeedKeepsInv(c, o.state, Fill(c.padValue, c.alignText), true);
      }
    }
  }

  /** Padding keeps the invariant. */
  lemma PadKeepsInv(c: Config, st: State, size: int)
    requires Inv(st)
    ensures Inv(Pad(c, st, size).state)
  {
    if size > 0 {
      var rows, rest := Rows(size, c.alignText), Column(size, c.alignText);
      PadChunksKeepInv(c, st, rows);
      var o := PadChunks(c, st, rows);
      if o.status.Failed? || rest == 0 {
        assert Pad(c, st, size) == o;
      } else {
        FeedKeepsInv(c, o.state, Fill(c.padValue, rest), true);
        assert Pad(c, st, size) == Feed(c, o.state, Fill(c.padValue, rest), true);
      }
    }
  }

  lemma PadBeginKeepsInv(c: Config, st: State, offset: nat)
    requires Inv(st)
    ensures Inv(PadBegin(c, st, offset).state)
  {
    if st.newSeg || (c.gapSimSeg != 0 && offset - st.dataOffset >= c.gapSimSeg) {
      if !st.sinks.Closed? {
        SaveAndCreateOpens(c, st, offset);
      }
    } else {
      PadKeepsInv(c, st, offset - st.dataOffset);
    }
  }

  lemma SegmentFeedKeepsInv(c: Config, st: State, line: string)
    requires Inv(st)
    ensures Inv(SegmentFeed(c, st, line).state)
  {
    var offset := PeakOffset(line);
    if offset.Some? {
      PadBeginKeepsInv(c, st, offset.value);
      var o := PadBegin(c, st, offset.value);
      if o.status.Ok? && DecodePayload(line).Success? {
        FeedKeepsInv(c, o.state, DecodePayload(line).value, true);
      }
    }
  }

  lemma SegmentEndKeepsInv(st: State)
    requires Inv(st)
    ensures Inv(SegmentEnd(st).state)
  {
  }

  lemma FinalizeKeepsInv(c: Config, args: Args, st: State)
    requires Inv(st)
    ensures Inv(Finalize(c, args, st).state)
  {
    if st.segCount != 1 {
      SegmentEndKeepsInv(st);
      assert Finalize(c, args, st) == SegmentEnd(st);
    } else {
      var padSize := args.targetSize - st.segCount - (if args.wcrc then 3 else 0);
      PadKeepsInv(c, st, padSize);
      var padded := Pad(c, st, padSize);
      if padded.status.Failed? {
        assert Finalize(c, args, st) == padded;
      } else {
        var signed := if args.wcrc then Feed(c, padded.state, CrcBytes(padded.state.crc), true) else padded;
        if args.wcrc {
          FeedKeepsInv(c, padded.state, CrcBytes(padded.state.crc), true);
        }
        if signed.status.Failed? {
          assert Finalize(c, args, st) == signed;
        } else {
          SegmentEndKeepsInv(signed.state);
          assert Finalize(c, args, st) == SegmentEnd(signed.state);
        }
      }
    }
  }

  /** Every line of the hex file, whatever it holds, keeps the invariant. */
  lemma StepKeepsInv(c: Config, args: Args, st: State, raw: string)
    requires Inv(st)
    ensures Inv(LineStep(c, args, st, raw).state)
  {
    var line := Strip(raw);
    var kind := PeakType(line);
    if kind.Some? && kind.value == DataRecord.Code() {
      SegmentFeedKeepsInv(c, if st.segCount == 0 then SegmentInit(st, args.baseAddr) else st, line);
    } else if kind.Some? && kind.value == EndOfFile.Code() {
      FinalizeKeepsInv(c, args, st);
    }
  }

  /** The whole loop of `run` keeps the invariant. */
  lemma {:induction false} RunKeepsInv(c: Config, args: Args, st: State, lines: seq<string>)
    requires Inv(st)
    ensures Inv(RunLines(c, args, st, lines).state)
    decreases |lines|
  {
    if lines != [] {
      RunKeepsInv(c, args, st, lines[..|lines| - 1]);
      var o := RunLines(c, args, st, lines[..|lines| - 1]);
      if o.status.Ok? {
        StepKeepsInv(c, args, o.state, lines[|lines| - 1]);
      }
    }
  }

  /**
   * After any conversion: one binary output (a name and its bytes) per
   * segment opened, and `segSize` is the size of the last one.
   */
  lemma ConvertKeepsInv(args: Args, lines: seq<string>)
    ensures var st := Convert(args, lines).state;
      |st.binNames| == |st.binOut| == st.segCount
      && (st.segCount > 0 ==> st.segSize == |Last(st.binOut)|)
  {
    RunKeepsInv(Configure(Defaults, args), args, Init, lines);
  }

  // ---------------------------------------------------------------------
  // An exception stops the conversion
  // ---------------------------------------------------------------------

  /** Once a line has raised, the lines after it are never looked at. */
  lemma {:induction false} FailureStops(c: Config, args: Args, st: State, lines: seq<string>, more: seq<string>)
    requires RunLines(c, args, st, lines).status.Failed?
    ensures RunLines(c, args, st, lines + more) == RunLines(c, args, st, lines)
    decreases |more|
  {
    if more == [] {
      assert lines + more == lines;
    } else {
      var init := more[..|more| - 1];
      FailureStops(c, args, st, lines, init);
      assert (lines + more)[..|lines + more| - 1] == lines + init;
    }
  }

  // ---------------------------------------------------------------------
  // Data records
  // ---------------------------------------------------------------------

  /** What `run` reads from a well-formed data record at `address` carrying `data`. */
  predicate IsDataLine(line: string, address: nat, data: seq<byte>) {
    && Strip(line) == line && PeakType(line) == Some(DataRecord.Code())
    && PeakOffset(line) == Some(address) && DecodePayload(line) == Success(data)
  }

  /** The line of an encoded record is read back as its type, address and payload, unchanged by `strip()`. */
  lemma EncodedLine(kind: byte, address: nat, data: seq<byte>)
    requires address < 0x1_0000 && |data| < 256
    ensures var line := Line(RecordBytes(kind, address, data));
      && Strip(line) == line && PeakType(line) == Some(kind)
      && PeakOffset(line) == Some(address) && DecodePayload(line) == Success(data)
  {
    StripLine(RecordBytes(kind, address, data));
    EncodeDecode(kind, address, data);
  }

  /**
   * A data record line goes to `segment_feed`, after `segment_init` with the
   * command-line base address when no segment exists yet.
   */
  lemma DataDispatch(c: Config, args: Args, st: State, line: string, address: nat, data: seq<byte>)
    requires IsDataLine(line, address, data)
    ensures LineStep(c, args, st, line) ==
      SegmentFeed(c, if st.segCount == 0 then SegmentInit(st, args.baseAddr) else st, line)
  {
    assert Strip(line) == line && PeakType(line) == Some(DataRecord.Code());
    assert DataRecord.Code() != ExtSegmentAddr.Code() && DataRecord.Code() != ExtLinearAddr.Code();
  }

  /** The loop of `run` over a single line is that line's step. */
  lemma RunOne(c: Config, args: Args, st: State, line: string)
    ensures RunLines(c, args, st, [line]) == LineStep(c, args, st, line)
  {
    assert [line][..0] == [];
  }

  /** `segment_feed` stops with the gap step's exception. */
  lemma SegmentFeedBeginFails(c: Config, st: State, line: string, address: nat)
    requires PeakOffset(line) == Some(address) && PadBegin(c, st, address).status.Failed?
    ensures SegmentFeed(c, st, line) == PadBegin(c, st, address)
  {
  }

  /** `segment_feed` stops with the decoder's exception, after the gap step. */
  lemma SegmentFeedRejects(c: Config, st: State, line: string, address: nat, e: Error)
    requires PeakOffset(line) == Some(address) && DecodePayload(line) == Failure(e)
    requires PadBegin(c, st, address).status == Ok
    ensures SegmentFeed(c, st, line) == Outcome(PadBegin(c, st, address).state, Failed(e))
  {
  }

  /** `segment_feed` stops with the exception of feeding the payload. */
  lemma SegmentFeedFeedFails(c: Config, st: State, line: string, address: nat, data: seq<byte>, begun: State)
    requires PeakOffset(line) == Some(address) && DecodePayload(line) == Success(data) && data != []
    requires PadBegin(c, st, address) == Outcome(begun, Ok) && Feed(c, begun, data, true).status.Failed?
    ensures SegmentFeed(c, st, line) == Feed(c, begun, data, true)
  {
  }

  /** Appending to an empty last segment. */
  lemma AppendToEmpty(bins: seq<seq<byte>>, d: seq<byte>)
    requires bins != [] && Last(bins) == []
    ensures AppendLast(bins, d) == bins[..|bins| - 1] + [d]
  {
    assert Last(bins) + d == d;
  }

  /** `segment_feed` on a record that decodes: the gap step, then the payload, then the next offset. */
  lemma SegmentFeedShape(c: Config, st: State, line: string, address: nat, data: seq<byte>, begun: State, fed: State)
    requires PeakOffset(line) == Some(address) && DecodePayload(line) == Success(data)
    requires PadBegin(c, st, address) == Outcome(begun, Ok)
    requires (if |data| > 0 then Feed(c, begun, data, true) else Outcome(begun, Ok)) == Outcome(fed, Ok)
    ensures SegmentFeed(c, st, line) == Outcome(fed.(dataOffset := address + |data|), Ok)
  {
  }

  /** The gap step followed by the record's payload; a gap that is not positive adds no padding. */
  lemma FeedAfterGap(c: Config, st: State, gap: int, data: seq<byte>)
    requires st.sinks.Open?
    ensures var padded := Written(c, st, Fill(c.padValue, Max0(gap)), PadCrc(c, st.crc, gap));
      (if |data| > 0 then Feed(c, padded, data, true) else Outcome(padded, Ok)) ==
      Outcome(Written(c, st, Fill(c.padValue, Max0(gap)) + data, if |data| > 0 then Calc(PadCrc(c, st.crc, gap), data) else PadCrc(c, st.crc, gap)), Ok)
  {
    var r := PadCrc(c, st.crc, gap);
    var pad := Fill(c.padValue, Max0(gap));
    if |data| > 0 {
      WrittenTwice(c, st, pad, r, data, Calc(r, data));
    } else {
      assert pad + data == pad;
    }
  }

  /** Below the `gapSimSeg` threshold, the gap step is padding. */
  lemma PadBeginGap(c: Config, st: State, offset: nat)
    requires !st.newSeg && !(c.gapSimSeg != 0 && offset - st.dataOffset >= c.gapSimSeg)
    ensures PadBegin(c, st, offset) == Pad(c, st, offset - st.dataOffset)
  {
  }

  /** A pending segment, or a gap that reaches `gapSimSeg`, opens a new segment. */
  lemma PadBeginNew(c: Config, st: State, offset: nat)
    requires st.newSeg || (c.gapSimSeg != 0 && offset - st.dataOffset >= c.gapSimSeg)
    ensures PadBegin(c, st, offset) == SaveAndCreate(c, st, offset)
  {
  }

  /**
   * A data record in the current segment, with the gap below `gapSimSeg` (or
   * `gapSimSeg` unset): a forward gap is filled with pad bytes, a record at
   * or before the end of the previous one gets no padding, then the payload
   * follows, in both the binary file and the C array, and the next record is
   * expected right after it. Earlier segments are untouched.
   */
  lemma ContiguousData(c: Config, args: Args, st: State, line: string, address: nat, data: seq<byte>)
    requires Inv(st) && st.sinks.Open? && !st.newSeg && IsDataLine(line, address, data)
    requires c.gapSimSeg == 0 || address - st.dataOffset < c.gapSimSeg
    ensures var o := LineStep(c, args, st, line);
      var filled := Fill(c.padValue, Max0(address - st.dataOffset)) + data;
      && o.status == Ok && Inv(o.state) && o.state.segCount == st.segCount
      && o.state.binOut[..st.segCount - 1] == st.binOut[..st.segCount - 1]
      && Last(o.state.binOut) == Last(st.binOut) + filled
      && o.state.text == st.text + TextRows(st.segSize, filled, c.alignText)
      && o.state.dataOffset == address + |data|
      && o.state.crc == (if |data| > 0 then Calc(PadCrc(c, st.crc, address - st.dataOffset), data)
                         else PadCrc(c, st.crc, address - st.dataOffset))
      && o.state.binNames == st.binNames && o.state.baseAddr == st.baseAddr
      && !o.state.newSeg && o.state.sinks == Open
  {
    var gap := address - st.dataOffset;
    PadBeginGap(c, st, address);
    DataDispatch(c, args, st, line, address, data);
    PadFill(c, st, gap);
    FeedAfterGap(c, st, gap, data);
    var crc := if |data| > 0 then Calc(PadCrc(c, st.crc, gap), data) else PadCrc(c, st.crc, gap);
    var filled := Fill(c.padValue, Max0(gap)) + data;
    SegmentFeedShape(c, st, line, address, data, Written(c, st, Fill(c.padValue, Max0(gap)), PadCrc(c, st.crc, gap)),
      Written(c, st, filled, crc));
    WrittenShape(c, st, filled, crc, address + |data|);
  }

  /**
   * A record that starts before the end of the previous one (a backward
   * address, where `_sigment_pad` returns at once) is appended as it is:
   * the binary file grows by exactly its payload.
   */
  lemma BackwardData(c: Config, args: Args, st: State, line: string, address: nat, data: seq<byte>)
    requires Inv(st) && st.sinks.Open? && !st.newSeg && IsDataLine(line, address, data)
    requires address < st.dataOffset && (c.gapSimSeg == 0 || address - st.dataOffset < c.gapSimSeg)
    ensures var o := LineStep(c, args, st, line);
      && o.status == Ok && Inv(o.state) && o.state.segCount == st.segCount
      && o.state.binOut[..st.segCount - 1] == st.binOut[..st.segCount - 1]
      && Last(o.state.binOut) == Last(st.binOut) + data
      && o.state.text == st.text + TextRows(st.segSize, data, c.alignText)
      && o.state.dataOffset == address + |data|
      && o.state.crc == (if |data| > 0 then Calc(st.crc, data) else st.crc)
      && o.state.binNames == st.binNames && o.state.baseAddr == st.baseAddr
      && !o.state.newSeg && o.state.sinks == Open
  {
    ContiguousData(c, args, st, line, address, data);
    assert Fill(c.padValue, 0) + data == data;
  }

  /** The open segment after writing `d` and moving the expected offset. */
  lemma WrittenShape(c: Config, st: State, d: seq<byte>, crc: Crc, offset: nat)
    requires Inv(st) && st.sinks.Open?
    ensures var w := Written(c, st, d, crc).(dataOffset := offset);
      && Inv(w) && w.segCount == st.segCount
      && w.binOut[..st.segCount - 1] == st.binOut[..st.segCount - 1]
      && Last(w.binOut) == Last(st.binOut) + d
      && w.text == st.text + TextRows(st.segSize, d, c.alignText)
      && w.dataOffset == offset
  {
  }

  /**
   * A data record that starts a segment (after an address record, or when
   * the gap reaches `gapSimSeg`) closes the current array with its trailer
   * and opens a new binary file holding exactly the payload.
   */
  lemma NewSegmentData(c: Config, args: Args, st: State, line: string, address: nat, data: seq<byte>)
    requires Inv(st) && st.sinks.Open? && IsDataLine(line, address, data)
    requires st.newSeg || (c.gapSimSeg != 0 && address - st.dataOffset >= c.gapSimSeg)
    ensures var o := LineStep(c, args, st, line);
      && o.status == Ok && Inv(o.state) && o.state.segCount == st.segCount + 1
      && o.state.binOut == st.binOut + [data]
      && o.state.binNames == st.binNames + [BinFileName(c.fileName, st.baseAddr, address)]
      && o.state.text == st.text + Trailer(|Last(st.binOut)|, st.crc)
           + SegmentHeader(st.baseAddr, address) + TextRows(0, data, c.alignText)
      && o.state.dataOffset == address + |data|
      && o.state.crc == (if |data| > 0 then Calc(0, data) else 0)
      && o.state.baseAddr == st.baseAddr && !o.state.newSeg && o.state.sinks == Open
  {
    DataDispatch(c, args, st, line, address, data);
    PadBeginNew(c, st, address);
    SaveAndCreateOpens(c, st, address);
    var started := SaveAndCreate(c, st, address).state;
    FeedStarted(c, started, data);
    var crc := if |data| > 0 then Calc(0, data) else 0;
    SegmentFeedShape(c, st, line, address, data, started, Written(c, started, data, crc));
    AppendToEmpty(started.binOut, data);
    assert started.binOut[..|started.binOut| - 1] == st.binOut;
  }

  lemma FeedStarted(c: Config, started: State, data: seq<byte>)
    requires started.sinks.Open? && started.crc == 0
    ensures (if |data| > 0 then Feed(c, started, data, true) else Outcome(started, Ok)) ==
      Outcome(Written(c, started, data, if |data| > 0 then Calc(0, data) else 0), Ok)
  {
    if |data| == 0 {
      assert data == [];
      WrittenNothing(c, started);
    }
  }

  /**
   * The first data record of a file without address records opens the first
   * segment at the base address given on the command line.
   */
  lemma FirstDataRecord(args: Args, line: string, address: nat, data: seq<byte>)
    requires IsDataLine(line, address, data)
    ensures var o := Convert(args, [line]);
      && o.status == Ok && o.state.segCount == 1 && o.state.sinks == Open
      && o.state.binNames == [BinFileName(args.fileName, args.baseAddr, address)]
      && o.state.binOut == [data]
      && o.state.text == SegmentHeader(args.baseAddr, address) + TextRows(0, data, Configure(Defaults, args).alignText)
  {
    var c := Configure(Defaults, args);
    var st := SegmentInit(Init, args.baseAddr);
    SaveAndCreateOpens(c, st, address);
    var started := SaveAndCreate(c, st, address).state;
    FeedStarted(c, started, data);
    RunOne(c, args, Init, line);
    DataDispatch(c, args, Init, line, address, data);
    PadBeginNew(c, st, address);
    var crc := if |data| > 0 then Calc(0, data) else 0;
    SegmentFeedShape(c, st, line, address, data, started, Written(c, started, data, crc));
    AppendToEmpty(started.binOut, data);
    assert started.text == SegmentHeader(args.baseAddr, address) by {
      assert st.text == "";
    }
  }

  // ---------------------------------------------------------------------
  // The other record types
  // ---------------------------------------------------------------------

  /**
   * An extended segment address record (type 2) sets the base address to its
   * 16-bit value times 16, an extended linear address record (type 4) to its
   * value times 256; both mark that the next data record opens a segment.
   * Nothing else changes.
   */
  lemma AddressRecord(c: Config, args: Args, st: State, raw: string, kind: nat, value: nat)
    requires kind == ExtSegmentAddr.Code() || kind == ExtLinearAddr.Code()
    requires PeakType(Strip(raw)) == Some(kind) && PeakData(Strip(raw), 0, 4) == Some(value)
    ensures var o := LineStep(c, args, st, raw);
      && o.status == Ok && o.state.newSeg
      && o.state.baseAddr == value * (if kind == ExtSegmentAddr.Code() then 0x10 else 0x100)
      && o.state == SegmentInit(st, o.state.baseAddr)
  {
  }

  /** Start-address records (types 3 and 5) and unknown types change nothing. */
  lemma OtherRecordsIgnored(c: Config, args: Args, st: State, raw: string, kind: nat)
    requires kind == StartSegmentAddr.Code() || kind == StartLinearAddr.Code() || kind > 5
    requires PeakType(Strip(raw)) == Some(kind)
    ensures LineStep(c, args, st, raw) == Outcome(st, Ok)
  {
    Codes();
    var kinds := PeakType(Strip(raw));
    assert kinds.Some? && kinds.value != 0 && kinds.value != 1 && kinds.value != 2 && kinds.value != 4;
  }

  /**
   * A line of at most 7 characters after `strip()` has no record-type field,
   * so `run` stops on it as malformed and nothing changes.
   */
  lemma ShortLineMalformed(c: Config, args: Args, st: State, raw: string)
    requires |Strip(raw)| <= 7
    ensures LineStep(c, args, st, raw) == Outcome(st, Failed(Malformed(Strip(raw))))
  {
    assert Slice(Strip(raw), 7, 2) == [];
  }

  // ---------------------------------------------------------------------
  // End of file
  // ---------------------------------------------------------------------

  /**
   * With exactly one segment, the end-of-file record appends
   * `targetSize - 1` pad bytes (`targetSize - 4` with `wcrc`, then the three
   * CRC bytes, most significant first), closes the array with a trailer that
   * counts every byte of the binary file, and closes the text output.
   */
  lemma FinalizeOneSegment(c: Config, args: Args, st: State)
    requires Inv(st) && st.sinks.Open? && st.segCount == 1
    ensures var padSize := args.targetSize - 1 - (if args.wcrc then 3 else 0);
      var padCrc := PadCrc(c, st.crc, padSize);
      var tail := Fill(c.padValue, Max0(padSize)) + (if args.wcrc then CrcBytes(padCrc) else []);
      var o := Finalize(c, args, st);
      && o.status == Ok && o.state.sinks == Closed && o.state.segCount == 1
      && o.state.binOut == [Last(st.binOut) + tail]
      && o.state.crc == (if args.wcrc then Calc(padCrc, CrcBytes(padCrc)) else padCrc)
      && o.state.text == st.text + TextRows(st.segSize, tail, c.alignText)
           + Trailer(|Last(st.binOut) + tail|, o.state.crc)
  {
    var padSize := args.targetSize - 1 - (if args.wcrc then 3 else 0);
    var padCrc := PadCrc(c, st.crc, padSize);
    var tail := Fill(c.padValue, Max0(padSize)) + (if args.wcrc then CrcBytes(padCrc) else []);
    var crc := if args.wcrc then Calc(padCrc, CrcBytes(padCrc)) else padCrc;
    FinalizeWritten(c, args, st);
    EndWritten(c, st, tail, crc);
  }

  /** Ending the only segment after writing `tail` to it. */
  lemma EndWritten(c: Config, st: State, tail: seq<byte>, crc: Crc)
    requires Inv(st) && st.sinks.Open? && st.segCount == 1
    ensures var o := SegmentEnd(Written(c, st, tail, crc));
      && o.status == Ok && o.state.sinks == Closed && o.state.segCount == 1
      && o.state.binOut == [Last(st.binOut) + tail] && o.state.crc == crc
      && o.state.text == st.text + TextRows(st.segSize, tail, c.alignText) + Trailer(|Last(st.binOut) + tail|, crc)
  {
    assert [Last(st.binOut)] == st.binOut;
    assert AppendLast(st.binOut, tail) == [Last(st.binOut) + tail];
  }

  /** With one open segment, the end-of-file record writes the padding and the CRC bytes, then ends the segment. */
  lemma FinalizeWritten(c: Config, args: Args, st: State)
    requires st.sinks.Open? && st.segCount == 1
    ensures var padSize := args.targetSize - 1 - (if args.wcrc then 3 else 0);
      var padCrc := PadCrc(c, st.crc, padSize);
      var tail := Fill(c.padValue, Max0(padSize)) + (if args.wcrc then CrcBytes(padCrc) else []);
      Finalize(c, args, st) ==
        SegmentEnd(Written(c, st, tail, if args.wcrc then Calc(padCrc, CrcBytes(padCrc)) else padCrc))
  {
    var padSize := args.targetSize - 1 - (if args.wcrc then 3 else 0);
    var padCrc := PadCrc(c, st.crc, padSize);
    var pad := Fill(c.padValue, Max0(padSize));
    PadFill(c, st, padSize);
    var padded := Written(c, st, pad, padCrc);
    if args.wcrc {
      var crc := Calc(padCrc, CrcBytes(padCrc));
      WrittenTwice(c, st, pad, padCrc, CrcBytes(padCrc), crc);
      assert Finalize(c, args, st) == SegmentEnd(Feed(c, padded, CrcBytes(padCrc), true).state);
    } else {
      assert pad + [] == pad;
      assert Finalize(c, args, st) == SegmentEnd(padded);
    }
  }

  /**
   * With no segment the end-of-file record does nothing; with two or more it
   * adds no padding and no CRC, only the last trailer, and closes the text.
   */
  lemma FinalizeOtherCounts(c: Config, args: Args, st: State)
    requires Inv(st) && st.segCount != 1 && !st.sinks.Closed?
    ensures var o := Finalize(c, args, st);
      && o.status == Ok && o.state.binOut == st.binOut
      && (st.segCount == 0 ==> o.state == st)
      && (st.segCount > 1 ==>
            o.state.sinks == Closed && o.state.text == st.text + Trailer(|Last(st.binOut)|, st.crc))
  {
  }

  lemma {:induction false} PadChunksClosed(c: Config, st: State, count: nat)
    requires st.sinks.Closed?
    ensures PadChunks(c, st, count) == Outcome(st, if count == 0 then Ok else Failed(SinkClosed))
  {
    if count > 0 {
      PadChunksClosed(c, st, count - 1);
      assert Fill(c.padValue, c.alignText) != [];
    }
  }

  /** Padding after the text output was closed raises before anything is written. */
  lemma PadClosed(c: Config, st: State, size: int)
    requires st.sinks.Closed?
    ensures Pad(c, st, size) == Outcome(st, if size <= 0 then Ok else Failed(SinkClosed))
  {
    if size > 0 {
      var rows, rest := Rows(size, c.alignText), Column(size, c.alignText);
      PadChunksClosed(c, st, rows);
      if rows == 0 {
        RowsColumnSum(size, c.alignText);
        assert rest == size;
        assert Fill(c.padValue, rest) != [];
        assert Pad(c, st, size) == Feed(c, st, Fill(c.padValue, rest), true);
      } else {
        assert Pad(c, st, size) == PadChunks(c, st, rows);
      }
    }
  }

  /**
   * A second end-of-file record raises: the closed text output cannot take
   * padding, the CRC or another trailer, and the state stays as it was.
   */
  lemma ClosedEndFails(c: Config, args: Args, st: State)
    requires st.sinks.Closed?
    ensures Finalize(c, args, st) == Outcome(st, Failed(SinkClosed))
  {
    var padSize := args.targetSize - st.segCount - (if args.wcrc then 3 else 0);
    PadClosed(c, st, padSize);
  }

  /** With the text output closed, a gap that needs no padding still fails on the payload. */
  lemma ClosedFeedNoGap(c: Config, st: State, line: string, address: nat, data: seq<byte>)
    requires st.sinks.Closed? && PeakOffset(line) == Some(address) && DecodePayload(line) == Success(data) && data != []
    requires PadBegin(c, st, address) == Outcome(st, Ok)
    ensures SegmentFeed(c, st, line) == Outcome(st, Failed(SinkClosed))
  {
    assert Feed(c, st, data, true) == Outcome(st, Failed(SinkClosed));
    SegmentFeedFeedFails(c, st, line, address, data, st);
  }

  /** With the text output closed, opening a new segment fails. */
  lemma ClosedFeedNew(c: Config, st: State, line: string, address: nat)
    requires st.sinks.Closed? && PeakOffset(line) == Some(address)
    requires st.newSeg || (c.gapSimSeg != 0 && address - st.dataOffset >= c.gapSimSeg)
    ensures SegmentFeed(c, st, line) == Outcome(st, Failed(SinkClosed))
  {
    PadBeginNew(c, st, address);
    SegmentFeedBeginFails(c, st, line, address);
  }

  /** With the text output closed, padding a positive gap fails. */
  lemma ClosedFeedGap(c: Config, st: State, line: string, address: nat)
    requires st.sinks.Closed? && PeakOffset(line) == Some(address) && address - st.dataOffset > 0
    requires !st.newSeg && !(c.gapSimSeg != 0 && address - st.dataOffset >= c.gapSimSeg)
    ensures SegmentFeed(c, st, line) == Outcome(st, Failed(SinkClosed))
  {
    PadBeginGap(c, st, address);
    PadClosed(c, st, address - st.dataOffset);
    SegmentFeedBeginFails(c, st, line, address);
  }

  /**
   * With the text output closed, `segment_feed` raises on any record with a
   * payload and writes nothing: opening a segment, padding a gap and feeding
   * the payload all need the output.
   */
  lemma ClosedFeedFails(c: Config, st: State, line: string, address: nat, data: seq<byte>)
    requires st.sinks.Closed? && PeakOffset(line) == Some(address) && DecodePayload(line) == Success(data) && data != []
    ensures SegmentFeed(c, st, line) == Outcome(st, Failed(SinkClosed))
  {
    var gap := address - st.dataOffset;
    if st.newSeg || (c.gapSimSeg != 0 && gap >= c.gapSimSeg) {
      ClosedFeedNew(c, st, line, address);
    } else if gap > 0 {
      ClosedFeedGap(c, st, line, address);
    } else {
      PadBeginGap(c, st, address);
      PadClosed(c, st, gap);
      ClosedFeedNoGap(c, st, line, address, data);
    }
  }

  /**
   * A data record with a payload after the text output was closed raises and
   * writes nothing.
   */
  lemma ClosedRejectsData(c: Config, args: Args, st: State, line: string, address: nat, data: seq<byte>)
    requires Inv(st) && st.sinks.Closed? && IsDataLine(line, address, data) && data != []
    ensures LineStep(c, args, st, line) == Outcome(st, Failed(SinkClosed))
  {
    DataDispatch(c, args, st, line, address, data);
    assert st.segCount != 0;
    ClosedFeedFails(c, st, line, address, data);
  }
}
