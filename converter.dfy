/**
 * The converter object `H2B` itself: its fields, updated in place by its
 * methods, and its two outputs (the binary segment files and the text file)
 * held as sequences. Each method is proved to leave the object in the state
 * the corresponding function of `Engine` computes from the state before the
 * call, and to report the same success or exception.
 */
module Converter {
  import opened Wrappers
  import opened Hex
  import opened Crc24
  import opened Record
  import opened Emitter
  import opened Engine

  /** One more byte of text: what `text_feed` writes for the byte at index `k + i` of its segment. */
  lemma TextRowsSnoc(start: string, out: string, piece: string, k: nat, d: seq<byte>, i: nat, align: Positive)
    requires i < |d| && out == start + TextRows(k, d[..i], align) && piece == ByteText(k + i, d[i], align)
    ensures out + piece == start + TextRows(k, d[..i + 1], align)
  {
    TextRowsPrefix(k, d, i, align);
    Regroup(start, TextRows(k, d[..i], align), piece);
  }

  lemma Regroup(a: string, b: string, c: string)
    ensures a + b + c == a + (b + c)
  {
  }

  /** Once a row of padding fails, the later rows are not attempted. */
  lemma {:induction false} PadChunksFailureSticks(c: Config, st: State, i: nat, n: nat)
    requires i <= n && PadChunks(c, st, i).status.Failed?
    ensures PadChunks(c, st, n) == PadChunks(c, st, i)
    decreases n - i
  {
    if i < n {
      PadChunksFailureSticks(c, st, i, n - 1);
    }
  }

  /** The loop of `run` over one more line. */
  lemma RunLinesSnoc(c: Config, args: Args, st: State, lines: seq<string>, i: nat)
    requires i < |lines|
    ensures RunLines(c, args, st, lines[..i + 1]) ==
      var o := RunLines(c, args, st, lines[..i]);
      if o.status.Failed? then o else LineStep(c, args, o.state, lines[i])
  {
    assert lines[..i + 1][..i] == lines[..i];
  }

  /** A line that raises ends `run`: the lines after it are not read. */
  lemma {:induction false} RunLinesStop(c: Config, args: Args, st: State, lines: seq<string>, i: nat)
    requires i < |lines| && RunLines(c, args, st, lines[..i + 1]).status.Failed?
    ensures RunLines(c, args, st, lines) == RunLines(c, args, st, lines[..i + 1])
    decreases |lines|
  {
    if |lines| == i + 1 {
      assert lines[..i + 1] == lines;
    } else {
      var init := lines[..|lines| - 1];
      assert init[..i + 1] == lines[..i + 1];
      RunLinesStop(c, args, st, init, i);
      FailedStays(c, args, st, lines);
    }
  }

  lemma FailedStays(c: Config, args: Args, st: State, lines: seq<string>)
    requires lines != [] && RunLines(c, args, st, lines[..|lines| - 1]).status.Failed?
    ensures RunLines(c, args, st, lines) == RunLines(c, args, st, lines[..|lines| - 1])
  {
  }

  /**
   * `segment_save_and_create` is `_text_segment_save_and_create`, then
   * `_bin_segment_save_and_create`, then the reset of the segment counters.
   */
  lemma SaveAndCreateSteps(c: Config, st: State, offset: nat)
    ensures SaveAndCreate(c, st, offset) ==
      var o := TextSaveAndCreate(st, st.baseAddr, offset);
      if o.status.Failed? then o
      else
        var created := BinSaveAndCreate(o.state, c.fileName, st.baseAddr, offset);
        Outcome(created.(crc := 0, segSize := 0, segCount := st.segCount + 1, dataOffset := 0, newSeg := false), Ok)
  {
  }

  class H2B {
    var fileName: string
    var padValue: byte
    var newSeg: bool
    var baseAddr: nat
    var segSize: nat
    var crc: Crc
    var segCount: nat
    var alignText: Positive
    var dataOffset: nat
    var gapSimSeg: int
    /** Whether the output files exist, are open, or were closed by the end-of-file record. */
    var sinks: Sinks
    /** The names of the binary files opened so far, one per segment opened. */
    var binNames: seq<string>
    /** The bytes written to each binary file. */
    var binOut: seq<seq<byte>>
    /** Everything written to the text file. */
    var text: string

    /** The object's segment state and outputs, as a value. */
    function Snapshot(): State
      reads this
    {
      State(newSeg, baseAddr, segSize, crc, segCount, dataOffset, sinks, binNames, binOut, text)
    }

    /** The settings `run` fills in before reading lines. */
    function Cfg(): Config
      reads this
    {
      Config(fileName, padValue, alignText, gapSimSeg)
    }

    /** `__init__`. */
    constructor()
      ensures Snapshot() == Init && Cfg() == Defaults
    {
      fileName, padValue, alignText, gapSimSeg := "", 0xFF, 16, 0;
      newSeg, baseAddr, segSize, crc, segCount, dataOffset := false, 0, 0, 0, 0, 0;
      sinks, binNames, binOut, text := NotCreated, [], [], "";
    }

    /** `segment_init`. */
    method SegmentInit(base: nat)
      modifies this
      ensures Snapshot() == Engine.SegmentInit(old(Snapshot()), base) && Cfg() == old(Cfg())
    {
      newSeg := true;
      baseAddr := base;
    }

    /**
     * `_text_segment_save_and_create`: the trailer of the open array, or the
     * text file created when there is none yet, then the header of the next
     * array. Writing the trailer to the closed text file raises.
     */
    method TextSaveAndCreate(base: nat, offset: nat) returns (status: Status)
      modifies this
      ensures Outcome(Snapshot(), status) == Engine.TextSaveAndCreate(old(Snapshot()), base, offset)
      ensures Cfg() == old(Cfg())
    {
      if sinks.Closed? {
        return Failed(SinkClosed);
      } else if sinks.Open? {
        text := text + Trailer(segSize, crc);
      } else {
        sinks := Open;
      }
      text := text + SegmentHeader(base, offset);
      status := Ok;
    }

    /** `_bin_segment_save_and_create`: the previous binary file is closed and the segment's own one created. */
    method BinSaveAndCreate(name: string, base: nat, offset: nat)
      modifies this
      ensures Snapshot() == Engine.BinSaveAndCreate(old(Snapshot()), name, base, offset)
      ensures Cfg() == old(Cfg())
    {
      binNames, binOut := binNames + [BinFileName(name, base, offset)], binOut + [[]];
    }

    /**
     * `segment_save_and_create`: the text and binary files move on to a new
     * segment at `offset` and the per-segment counters are reset.
     */
    method SaveAndCreate(offset: nat) returns (status: Status)
      modifies this
      ensures Outcome(Snapshot(), status) == Engine.SaveAndCreate(Cfg(), old(Snapshot()), offset)
      ensures Cfg() == old(Cfg())
    {
      SaveAndCreateSteps(Cfg(), Snapshot(), offset);
      status := TextSaveAndCreate(baseAddr, offset);
      if status.Failed? {
        return;
      }
      BinSaveAndCreate(fileName, baseAddr, offset);
      NextSegment();
    }

    /** The end of `segment_save_and_create`: the counters of the new segment start over. */
    method NextSegment()
      modifies this
      ensures Snapshot() == old(Snapshot()).(crc := 0, segSize := 0, segCount := old(segCount) + 1, dataOffset := 0, newSeg := false)
      ensures Cfg() == old(Cfg())
    {
      crc, segSize, segCount, dataOffset, newSeg := 0, 0, segCount + 1, 0, false;
    }

    /** `bin_feed`: the bytes go, one by one, to the open binary file. */
    method BinFeed(d: seq<byte>)
      modifies this
      ensures binOut == if old(sinks).Open? then AppendLast(old(binOut), d) else old(binOut)
      ensures Snapshot() == old(Snapshot()).(binOut := binOut) && Cfg() == old(Cfg())
    {
      if sinks.Open? && binOut != [] {
        var segment := Last(binOut);
        var i := 0;
        while i < |d|
          invariant 0 <= i <= |d|
          invariant segment == Last(binOut) + d[..i]
        {
          assert d[..i + 1] == d[..i] + [d[i]];
          segment := segment + [d[i]];
          i := i + 1;
        }
        assert d[..|d|] == d;
        binOut := binOut[..|binOut| - 1] + [segment];
      }
    }

    /**
     * `text_feed`: each byte as `0xHH, `, with two tabs before the first byte
     * of a row and a newline after the last. The closed text file raises at
     * the first byte.
     */
    method TextFeed(d: seq<byte>) returns (status: Status)
      modifies this
      ensures status == if old(sinks).Closed? && d != [] then Failed(SinkClosed) else Ok
      ensures text == if old(sinks).Open? then old(text) + TextRows(old(segSize), d, alignText) else old(text)
      ensures Snapshot() == old(Snapshot()).(text := text) && Cfg() == old(Cfg())
    {
      status := Ok;
      if sinks.Closed? && d != [] {
        return Failed(SinkClosed);
      }
      if sinks.Open? {
        var k, align, start := segSize, alignText, text;
        var out := start;
        var i := 0;
        while i < |d|
          invariant 0 <= i <= |d|
          invariant out == start + TextRows(k, d[..i], align)
          modifies {}
        {
          RowsColumn(k + i, align);
          RowsColumn(k + i + 1, align);
          var piece := if (k + i) % align == 0 then "\t\t" else "";
          piece := piece + ByteToken(d[i]);
          if (k + i + 1) % align == 0 {
            piece := piece + "\n";
          }
          assert piece == ByteText(k + i, d[i], align);
          TextRowsSnoc(start, out, piece, k, d, i, align);
          out := out + piece;
          i := i + 1;
        }
        assert d[..|d|] == d;
        assert out == start + TextRows(k, d, align);
        text := out;
      }
    }

    /**
     * `sigment_feed_data`: both files get `d`, the segment grows by `|d|`, and
     * the CRC is folded over `d` when `calCrc` is set.
     */
    method FeedData(d: seq<byte>, calCrc: bool) returns (status: Status)
      modifies this
      ensures Outcome(Snapshot(), status) == Feed(Cfg(), old(Snapshot()), d, calCrc)
      ensures Cfg() == old(Cfg())
    {
      BinFeed(d);
      status := TextFeed(d);
      if status.Failed? {
        return;
      }
      segSize := segSize + |d|;
      if calCrc {
        crc := CalcCrc24(crc, d);
      }
    }

    /**
     * `_sigment_pad`: `size` pad bytes, as `size // alignText` full rows and
     * then the remaining `size % alignText` bytes; nothing when size <= 0.
     */
    method Pad(size: int) returns (status: Status)
      modifies this
      ensures Outcome(Snapshot(), status) == Engine.Pad(Cfg(), old(Snapshot()), size)
      ensures Cfg() == old(Cfg())
    {
      status := Ok;
      if size <= 0 {
        return;
      }
      ghost var st, c := Snapshot(), Cfg();
      RowsColumn(size, alignText);
      var count := size / alignText;
      var i := 0;
      while i < count
        invariant 0 <= i <= count && Cfg() == c
        invariant Outcome(Snapshot(), status) == PadChunks(c, st, i) && status == Ok
      {
        status := FeedData(Fill(padValue, alignText), true);
        assert PadChunks(c, st, i + 1) == Outcome(Snapshot(), status);
        if status.Failed? {
          PadChunksFailureSticks(c, st, i + 1, count);
          assert Engine.Pad(c, st, size) == PadChunks(c, st, count);
          return;
        }
        i := i + 1;
      }
      var rest := size % alignText;
      assert Engine.Pad(c, st, size) ==
        if rest == 0 then PadChunks(c, st, count) else Feed(c, Snapshot(), Fill(c.padValue, rest), true);
      if rest != 0 {
        status := FeedData(Fill(padValue, rest), true);
      }
    }

    /**
     * `sigment_pad_begin`: a pending segment, or a gap that reaches
     * `gapSimSeg` when it is set, opens a new segment; any other gap is padded.
     */
    method PadBegin(offset: nat) returns (status: Status)
      modifies this
      ensures Outcome(Snapshot(), status) == Engine.PadBegin(Cfg(), old(Snapshot()), offset)
      ensures Cfg() == old(Cfg())
    {
      if newSeg {
        status := SaveAndCreate(offset);
      } else {
        var gap := offset - dataOffset;
        if gapSimSeg != 0 && gap >= gapSimSeg {
          status := SaveAndCreate(offset);
        } else {
          status := Pad(gap);
        }
      }
    }

    /**
     * `segment_feed`: the gap step for the record's offset, then the header,
     * data and checksum fields, the checksum test, the payload, and the
     * offset expected next (`_set_offset`).
     */
    method SegmentFeed(line: string) returns (status: Status)
      modifies this
      ensures Outcome(Snapshot(), status) == Engine.SegmentFeed(Cfg(), old(Snapshot()), line)
      ensures Cfg() == old(Cfg())
    {
      var offset := PeakOffset(line);
      if offset.None? {
        return Failed(Malformed(line));
      }
      status := PadBegin(offset.value);
      if status.Failed? {
        return;
      }
      var payload := ReadPayload(line);
      if payload.Failure? {
        return Failed(payload.error);
      }
      status := FeedRecord(offset.value, payload.value);
    }

    /** `_set_offset`: the offset the next data record is expected at. */
    method SetOffset(offset: nat)
      modifies this
      ensures Snapshot() == old(Snapshot()).(dataOffset := offset) && Cfg() == old(Cfg())
    {
      dataOffset := offset;
    }

    /** The end of `segment_feed`: the record's data, if any, then `_set_offset` past it. */
    method FeedRecord(offset: nat, data: seq<byte>) returns (status: Status)
      modifies this
      ensures Outcome(Snapshot(), status) == Engine.FeedRecord(Cfg(), old(Snapshot()), offset, data)
      ensures Cfg() == old(Cfg())
    {
      status := Ok;
      if |data| > 0 {
        status := FeedData(data, true);
        if status.Failed? {
          return;
        }
      }
      SetOffset(offset + |data|);
    }

    /** `sigment_crc`: the three CRC bytes, most significant first, fed like data. */
    method SegmentCrc() returns (status: Status)
      modifies this
      ensures Outcome(Snapshot(), status) == Feed(Cfg(), old(Snapshot()), CrcBytes(old(crc)), true)
      ensures Cfg() == old(Cfg())
    {
      status := FeedData(CrcBytes(crc), true);
    }

    /**
     * `segment_end`: the last trailer, then both files are closed. On the
     * already closed text file the trailer write raises.
     */
    method SegmentEnd() returns (status: Status)
      modifies this
      ensures Outcome(Snapshot(), status) == Engine.SegmentEnd(old(Snapshot()))
      ensures Cfg() == old(Cfg())
    {
      match sinks
      case NotCreated =>
        status := Ok;
      case Closed =>
        status := Failed(SinkClosed);
      case Open =>
        text := text + Trailer(segSize, crc);
        sinks := Closed;
        status := Ok;
    }

    /** The body of the loop of `run`: one line of the hex file, dispatched on its record type. */
    method LineStep(args: Args, raw: string) returns (status: Status)
      modifies this
      ensures Outcome(Snapshot(), status) == Engine.LineStep(Cfg(), args, old(Snapshot()), raw)
      ensures Cfg() == old(Cfg())
    {
      var line := Strip(raw);
      var kind := PeakType(line);
      if kind.None? {
        return Failed(Malformed(line));
      }
      if kind.value == ExtSegmentAddr.Code() || kind.value == ExtLinearAddr.Code() {
        var base := PeakData(line, 0, 4);
        if base.None? {
          return Failed(Malformed(line));
        }
        SegmentInit(if kind.value == ExtSegmentAddr.Code() then base.value * 0x10 else base.value * 0x100);
        status := Ok;
      } else if kind.value == DataRecord.Code() {
        if segCount == 0 {
          SegmentInit(args.baseAddr);
        }
        status := SegmentFeed(line);
      } else if kind.value == EndOfFile.Code() {
        status := Finish(args);
      } else {
        status := Ok;
      }
    }

    /** The end-of-file branch of `run`: padding and CRC for a single segment, then `segment_end`. */
    method Finish(args: Args) returns (status: Status)
      modifies this
      ensures Outcome(Snapshot(), status) == Finalize(Cfg(), args, old(Snapshot()))
      ensures Cfg() == old(Cfg())
    {
      if segCount == 1 {
        var padSize := args.targetSize - segCount;
        if args.wcrc {
          padSize := padSize - 3;
        }
        status := Pad(padSize);
        if status.Failed? {
          return;
        }
        if args.wcrc {
          status := SegmentCrc();
          if status.Failed? {
            return;
          }
        }
      }
      status := SegmentEnd();
    }

    /**
     * The loop of `run` over the stripped lines of the hex file, in order,
     * until one raises.
     */
    method ReadLines(args: Args, lines: seq<string>) returns (status: Status)
      modifies this
      ensures Outcome(Snapshot(), status) == RunLines(Cfg(), args, old(Snapshot()), lines)
      ensures Cfg() == old(Cfg())
    {
      status := Ok;
      ghost var c := Cfg();
      var i := 0;
      while i < |lines|
        invariant 0 <= i <= |lines| && Cfg() == c
        invariant Outcome(Snapshot(), status) == RunLines(c, args, old(Snapshot()), lines[..i]) && status == Ok
      {
        RunLinesSnoc(c, args, old(Snapshot()), lines, i);
        status := LineStep(args, lines[i]);
        if status.Failed? {
          RunLinesStop(c, args, old(Snapshot()), lines, i);
          return;
        }
        i := i + 1;
      }
      assert lines[..|lines|] == lines;
    }

    /**
     * `run` on the lines of a hex file: the settings from the arguments, then
     * the lines.
     */
    method Run(args: Args, lines: seq<string>) returns (status: Status)
      modifies this
      ensures Cfg() == Configure(old(Cfg()), args)
      ensures Outcome(Snapshot(), status) == RunLines(Cfg(), args, old(Snapshot()), lines)
    {
      padValue := args.pad;
      if args.align > 0 {
        alignText := args.align as Positive;
      }
      gapSimSeg := args.gapSimSeg;
      fileName := args.fileName;
      status := ReadLines(args, lines);
    }
  }

  /** `H2B().run(args)`: a fresh converter run over the lines of a hex file. */
  method Convert(args: Args, lines: seq<string>) returns (h: H2B, status: Status)
    ensures Outcome(h.Snapshot(), status) == Engine.Convert(args, lines)
  {
    h := new H2B();
    status := h.Run(args, lines);
  }
}
