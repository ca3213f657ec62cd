/**
 * The segment state machine of `H2B`, as functions from the converter's state
 * to its next state: opening segments, the gap rule, padding, feeding bytes
 * to both outputs, the CRC trailer, end of file, and the per-line dispatch of
 * `run`. The outputs are part of the state: one byte sequence per binary
 * segment file and one string for the C-array text file.
 */
module Engine {
  import opened Wrappers
  import opened Hex
  import opened Crc24
  import opened Record
  import opened Emitter

  /**
   * The text output handle: not opened yet (`fpTextOut` is None), open, or
   * closed by the end-of-file record (the handle is kept, so a later write
   * raises). The binary handle is open exactly when the text handle is.
   */
  datatype Sinks = NotCreated | Open | Closed

  /** The settings `run` takes from its arguments before reading lines. */
  datatype Config = Config(fileName: string, padValue: byte, alignText: Positive, gapSimSeg: int)

  /** The resolved command-line arguments. */
  datatype Args = Args(
    fileName: string, pad: byte, align: int, gapSimSeg: int,
    baseAddr: nat, targetSize: int, wcrc: bool)

  datatype State = State(
    newSeg: bool,
    baseAddr: nat,
    segSize: nat,
    crc: Crc,
    segCount: nat,
    dataOffset: nat,
    sinks: Sinks,
    binNames: seq<string>,      // the binary file opened for each segment
    binOut: seq<seq<byte>>,     // the bytes written to each of them
    text: string)               // everything written to the text file

  datatype Status = Ok | Failed(error: Error)

  /** The state reached and whether an exception stopped the conversion there. */
  datatype Outcome = Outcome(state: State, status: Status)

  /** The fields as `__init__` sets them. */
  const Init := State(false, 0, 0, 0, 0, 0, NotCreated, [], [], "")

  const Defaults := Config("", 0xFF, 16, 0)

  /**
   * The settings of `run`: the output name, the pad byte and `gapSimSeg` are
   * taken from the arguments as given; the row width changes only for a
   * positive `align`, otherwise the current one is kept.
   */
  function Configure(c: Config, args: Args): (c': Config)
    ensures c'.alignText == (if args.align > 0 then args.align else c.alignText)
  {
    Config(args.fileName, args.pad, if args.align > 0 then args.align as Positive else c.alignText, args.gapSimSeg)
  }

  function Last(bins: seq<seq<byte>>): seq<byte>
    requires bins != []
  {
    bins[|bins| - 1]
  }

  /** The bytes `d` written to the current (last) binary segment. */
  function AppendLast(bins: seq<seq<byte>>, d: seq<byte>): (r: seq<seq<byte>>)
    ensures |r| == |bins|
    ensures bins != [] ==> r[..|r| - 1] == bins[..|bins| - 1] && Last(r) == Last(bins) + d
  {
    if bins == [] then bins else bins[..|bins| - 1] + [Last(bins) + d]
  }

  /** `[pad] * n`: `n` copies of the pad byte and nothing else. */
  function Fill(pad: byte, n: nat): (d: seq<byte>)
    ensures |d| == n
    ensures forall i :: 0 <= i < n ==> d[i] == pad
  {
    seq(n, _ => pad)
  }

  function Max0(n: int): nat {
    if n > 0 then n else 0
  }

  /**
   * The invariant of the converter's state: one binary output (a name and its
   * bytes) per segment opened, the text output exists exactly when a segment was opened, and
   * `segSize` counts the bytes of the current binary segment.
   */
  predicate Inv(st: State) {
    && |st.binNames| == st.segCount
    && |st.binOut| == st.segCount
    && (st.sinks.NotCreated? <==> st.segCount == 0)
    && (st.segCount > 0 ==> st.segSize == |Last(st.binOut)|)
  }

  /** `segment_init`: remember the base address and open a segment at the next data record. */
  function SegmentInit(st: State, base: nat): State {
    st.(newSeg := true, baseAddr := base)
  }

  /**
   * `segment_save_and_create`: close the current array with its trailer (or
   * create the text file), open the next array and binary file, and reset
   * the per-segment counters.
   */
  function SaveAndCreate(c: Config, st: State, offset: nat): Outcome {
    if st.sinks.Closed? then Outcome(st, Failed(SinkClosed))
    else
      var saved := if st.sinks.Open? then st.text + Trailer(st.segSize, st.crc) else st.text;
      Outcome(st.(
        text := saved + SegmentHeader(st.baseAddr, offset),
        sinks := Open,
        binNames := st.binNames + [BinFileName(c.fileName, st.baseAddr, offset)],
        binOut := st.binOut + [[]],
        crc := 0, segSize := 0, segCount := st.segCount + 1, dataOffset := 0, newSeg := false), Ok)
  }

  /**
   * `_text_segment_save_and_create`: the trailer of the open array, or the
   * text file created when there is none yet, then the header of the next
   * array. Writing the trailer to the closed text file raises.
   */
  function TextSaveAndCreate(st: State, base: nat, offset: nat): Outcome {
    match st.sinks
    case Closed => Outcome(st, Failed(SinkClosed))
    case Open => Outcome(st.(text := st.text + Trailer(st.segSize, st.crc) + SegmentHeader(base, offset)), Ok)
    case NotCreated => Outcome(st.(sinks := Open, text := st.text + SegmentHeader(base, offset)), Ok)
  }

  /** `_bin_segment_save_and_create`: the previous binary file is closed and the segment's own one created. */
  function BinSaveAndCreate(st: State, fileName: string, base: nat, offset: nat): State {
    st.(binNames := st.binNames + [BinFileName(fileName, base, offset)], binOut := st.binOut + [[]])
  }

  /**
   * `sigment_feed_data`: `bin_feed` and `text_feed` write `d` when the files
   * are open; the size always grows and the CRC is folded over `d` when
   * `calCrc` is set. Writing a byte to the closed text file raises.
   */
  function Feed(c: Config, st: State, d: seq<byte>, calCrc: bool): Outcome {
    var crc := if calCrc then Calc(st.crc, d) else st.crc;
    match st.sinks
    case Closed => if d != [] then Outcome(st, Failed(SinkClosed)) else Outcome(st.(crc := crc), Ok)
    case NotCreated => Outcome(st.(segSize := st.segSize + |d|, crc := crc), Ok)
    case Open => Outcome(Written(c, st, d, crc), Ok)
  }

  /** The open outputs after writing `d`, with the CRC now `crc`. */
  function Written(c: Config, st: State, d: seq<byte>, crc: Crc): State {
    st.(binOut := AppendLast(st.binOut, d), text := st.text + TextRows(st.segSize, d, c.alignText),
        segSize := st.segSize + |d|, crc := crc)
  }

  /** The first `count` full rows of padding of `_sigment_pad`. */
  function PadChunks(c: Config, st: State, count: nat): Outcome {
    if count == 0 then Outcome(st, Ok)
    else
      var o := PadChunks(c, st, count - 1);
      if o.status.Failed? then o else Feed(c, o.state, Fill(c.padValue, c.alignText), true)
  }

  /** `_sigment_pad`: `size` pad bytes, as full rows and then the rest; nothing for size <= 0. */
  function Pad(c: Config, st: State, size: int): Outcome {
    if size <= 0 then Outcome(st, Ok)
    else
      var o := PadChunks(c, st, Rows(size, c.alignText));
      var rest := Column(size, c.alignText);
      if o.status.Failed? || rest == 0 then o else Feed(c, o.state, Fill(c.padValue, rest), true)
  }

  /**
   * `sigment_pad_begin`: open the pending segment, or open a new one when the
   * gap reaches `gapSimSeg` (if set), or else pad the gap.
   */
  function PadBegin(c: Config, st: State, offset: nat): Outcome {
    if st.newSeg then SaveAndCreate(c, st, offset)
    else
      var gap := offset - st.dataOffset;
      if c.gapSimSeg != 0 && gap >= c.gapSimSeg then SaveAndCreate(c, st, offset)
      else Pad(c, st, gap)
  }

  /**
   * `segment_feed`: read the offset, run the gap step, then check the record
   * and feed its payload; the next record is expected right after it.
   */
  function SegmentFeed(c: Config, st: State, line: string): Outcome {
    var offset := PeakOffset(line);
    if offset.None? then Outcome(st, Failed(Malformed(line)))
    else
      var o := PadBegin(c, st, offset.value);
      if o.status.Failed? then o
      else
        match DecodePayload(line)
        case Failure(e) => Outcome(o.state, Failed(e))
        case Success(data) => FeedRecord(c, o.state, offset.value, data)
  }

  /**
   * The end of `segment_feed` once the record is read and checked: its data,
   * if any, is fed, and the next record is expected right after it
   * (`_set_offset`).
   */
  function FeedRecord(c: Config, st: State, offset: nat, data: seq<byte>): Outcome {
    var fed := if |data| > 0 then Feed(c, st, data, true) else Outcome(st, Ok);
    if fed.status.Failed? then fed
    else Outcome(fed.state.(dataOffset := offset + |data|), Ok)
  }

  /** `crc.to_bytes(3, 'big')`: the three bytes of the CRC, most significant first. */
  function CrcBytes(crc: Crc): (bs: seq<byte>)
    ensures |bs| == 3 && (bs[0] as int) * 0x1_0000 + (bs[1] as int) * 0x100 + bs[2] as int == crc
  {
    [crc / 0x1_0000, crc / 0x100 % 0x100, crc % 0x100]
  }

  /** `segment_end`: the text file gets the trailer of the last segment and is closed. */
  function SegmentEnd(st: State): Outcome {
    match st.sinks
    case NotCreated => Outcome(st, Ok)
    case Closed => Outcome(st, Failed(SinkClosed))
    case Open => Outcome(st.(text := st.text + Trailer(st.segSize, st.crc), sinks := Closed), Ok)
  }

  /**
   * The end-of-file record: with exactly one segment, pad to the target size
   * (less the segment count, and less 3 with `wcrc`) and append the CRC;
   * then end the segment.
   */
  function Finalize(c: Config, args: Args, st: State): Outcome {
    if st.segCount != 1 then SegmentEnd(st)
    else
      var padSize := args.targetSize - st.segCount - (if args.wcrc then 3 else 0);
      var padded := Pad(c, st, padSize);
      if padded.status.Failed? then padded
      else
        var signed := if args.wcrc then Feed(c, padded.state, CrcBytes(padded.state.crc), true) else padded;
        if signed.status.Failed? then signed else SegmentEnd(signed.state)
  }

  /** The body of the loop of `run` for one line of the hex file. */
  function LineStep(c: Config, args: Args, st: State, raw: string): Outcome {
    var line := Strip(raw);
    var kind := PeakType(line);
    if kind.None? then Outcome(st, Failed(Malformed(line)))
    else if kind.value == ExtSegmentAddr.Code() || kind.value == ExtLinearAddr.Code() then
      var base := PeakData(line, 0, 4);
      if base.None? then Outcome(st, Failed(Malformed(line)))
      else Outcome(SegmentInit(st, if kind.value == ExtSegmentAddr.Code() then base.value * 0x10 else base.value * 0x100), Ok)
    else if kind.value == DataRecord.Code() then
      SegmentFeed(c, if st.segCount == 0 then SegmentInit(st, args.baseAddr) else st, line)
    else if kind.value == EndOfFile.Code() then
      Finalize(c, args, st)
    else
      Outcome(st, Ok)
  }

  /** The loop of `run`: the lines in order, stopping at the first exception. */
  function RunLines(c: Config, args: Args, st: State, lines: seq<string>): Outcome
    decreases |lines|
  {
    if lines == [] then Outcome(st, Ok)
    else
      var o := RunLines(c, args, st, lines[..|lines| - 1]);
      if o.status.Failed? then o else LineStep(c, args, o.state, lines[|lines| - 1])
  }

  /** `H2B().run(args)` on a hex file whose lines are `lines`. */
  function Convert(args: Args, lines: seq<string>): Outcome {
    RunLines(Configure(Defaults, args), args, Init, lines)
  }

  lemma AppendLastTwice(bins: seq<seq<byte>>, a: seq<byte>, b: seq<byte>)
    ensures AppendLast(AppendLast(bins, a), b) == AppendLast(bins, a + b)
  {
    if bins != [] {
      assert Last(bins) + a + b == Last(bins) + (a + b);
    }
  }

  lemma TextAppend(text: string, k: nat, a: seq<byte>, b: seq<byte>, align: Positive)
    ensures text + TextRows(k, a, align) + TextRows(k + |a|, b, align) == text + TextRows(k, a + b, align)
  {
    TextRowsAppend(k, a, b, align);
  }

  /** Writing `a` and then `b` leaves the outputs as writing `a + b` at once. */
  lemma WrittenTwice(c: Config, st: State, a: seq<byte>, x: Crc, b: seq<byte>, y: Crc)
    ensures Written(c, Written(c, st, a, x), b, y) == Written(c, st, a + b, y)
  {
    var mid := Written(c, st, a, x);
    AppendLastTwice(st.binOut, a, b);
    TextAppend(st.text, st.segSize, a, b, c.alignText);
    assert mid.segSize == st.segSize + |a|;
    assert Written(c, mid, b, y).binOut == Written(c, st, a + b, y).binOut;
    assert Written(c, mid, b, y).text == Written(c, st, a + b, y).text;
    assert Written(c, mid, b, y).segSize == Written(c, st, a + b, y).segSize;
  }

  /** Writing nothing changes nothing. */
  lemma WrittenNothing(c: Config, st: State)
    ensures Written(c, st, [], st.crc) == st
  {
    assert AppendLast(st.binOut, []) == st.binOut by {
      if st.binOut != [] { assert Last(st.binOut) + [] == Last(st.binOut); }
    }
    assert st.text + TextRows(st.segSize, [], c.alignText) == st.text;
  }

  /**
   * Feeding data in two calls writes the same binary and text as one call;
   * the CRC agrees too when the first part has even length (`calc_crc24`
   * pads an odd buffer with a zero byte).
   */
  lemma FeedSplit(c: Config, st: State, a: seq<byte>, b: seq<byte>)
    requires st.sinks.Open?
    ensures var second := Feed(c, Feed(c, st, a, true).state, b, true);
      && second == Outcome(Written(c, st, a + b, second.state.crc), Ok)
      && (|a| % 2 == 0 ==> second == Feed(c, st, a + b, true))
  {
    WrittenTwice(c, st, a, Calc(st.crc, a), b, Calc(Calc(st.crc, a), b));
    if |a| % 2 == 0 {
      CalcCompose(st.crc, a, b);
    }
  }

  lemma FillAppend(pad: byte, m: nat, n: nat)
    ensures Fill(pad, m) + Fill(pad, n) == Fill(pad, m + n)
  {
  }

  lemma EvenMultiple(k: nat, align: nat)
    requires align % 2 == 0
    ensures (k * align) % 2 == 0
  {
    var h := align / 2;
    assert k * align == 2 * (k * h);
  }

  /** The CRC after `count` rows of pad bytes, each folded separately as `_sigment_pad` does. */
  function RowsCrc(crc: Crc, row: seq<byte>, count: nat): Crc {
    if count == 0 then crc else Calc(RowsCrc(crc, row, count - 1), row)
  }

  /** The CRC after `_sigment_pad(size)`: the full rows, then the rest. */
  function PadCrc(c: Config, crc: Crc, size: int): Crc {
    if size <= 0 then crc
    else
      var rows := RowsCrc(crc, Fill(c.padValue, c.alignText), Rows(size, c.alignText));
      var rest := Column(size, c.alignText);
      if rest == 0 then rows else Calc(rows, Fill(c.padValue, rest))
  }

  lemma MulPred(count: nat, align: nat)
    requires count > 0
    ensures (count - 1) * align == count * align - align && count * align >= align
  {
    assert (count - 1) * align >= 0;
  }

  /** `k` more pad bytes after `m` pad bytes with CRC `r`. */
  lemma PadStep(c: Config, st: State, m: nat, r: Crc, k: nat)
    requires st.sinks.Open?
    ensures Feed(c, Written(c, st, Fill(c.padValue, m), r), Fill(c.padValue, k), true) ==
      Outcome(Written(c, st, Fill(c.padValue, m + k), Calc(r, Fill(c.padValue, k))), Ok)
  {
    WrittenTwice(c, st, Fill(c.padValue, m), r, Fill(c.padValue, k), Calc(r, Fill(c.padValue, k)));
    FillAppend(c.padValue, m, k);
  }

  lemma PadChunksStep(c: Config, st: State, count: nat, m: nat, r: Crc)
    requires st.sinks.Open? && count > 0
    requires PadChunks(c, st, count - 1) == Outcome(Written(c, st, Fill(c.padValue, m), r), Ok)
    ensures PadChunks(c, st, count) ==
      Outcome(Written(c, st, Fill(c.padValue, m + c.alignText), Calc(r, Fill(c.padValue, c.alignText))), Ok)
  {
    PadStep(c, st, m, r, c.alignText);
  }

  /** The full rows of padding write their `n = count * alignText` pad bytes to the open segment. */
  lemma {:induction false} PadChunksFill(c: Config, st: State, count: nat, n: nat)
    requires st.sinks.Open? && n == count * c.alignText
    ensures PadChunks(c, st, count) ==
      Outcome(Written(c, st, Fill(c.padValue, n), RowsCrc(st.crc, Fill(c.padValue, c.alignText), count)), Ok)
  {
    if count == 0 {
      assert Fill(c.padValue, 0) == [];
      WrittenNothing(c, st);
    } else {
      MulPred(count, c.alignText);
      var m := n - c.alignText;
      var r := RowsCrc(st.crc, Fill(c.padValue, c.alignText), count - 1);
      PadChunksFill(c, st, count - 1, m);
      PadChunksStep(c, st, count, m, r);
      assert m + c.alignText == n;
      assert RowsCrc(st.crc, Fill(c.padValue, c.alignText), count) == Calc(r, Fill(c.padValue, c.alignText));
    }
  }

  /** With an even row width, the rows' CRC is the CRC of the whole run of `n` pad bytes. */
  lemma {:induction false} RowsCrcEven(crc: Crc, pad: byte, align: Positive, count: nat, n: nat)
    requires align % 2 == 0 && n % 2 == 0 && n == count * align
    ensures RowsCrc(crc, Fill(pad, align), count) == Calc(crc, Fill(pad, n))
  {
    if count == 0 {
      assert Fill(pad, 0) == [];
    } else {
      MulPred(count, align);
      var m := n - align;
      RowsCrcEven(crc, pad, align, count - 1, m);
      CalcCompose(crc, Fill(pad, m), Fill(pad, align));
      FillAppend(pad, m, align);
    }
  }

  /**
   * `_sigment_pad(size)` on an open segment writes exactly max(size, 0) pad
   * bytes, in rows of `alignText` and then the rest.
   */
  lemma PadFill(c: Config, st: State, size: int)
    requires st.sinks.Open?
    ensures Pad(c, st, size) == Outcome(Written(c, st, Fill(c.padValue, Max0(size)), PadCrc(c, st.crc, size)), Ok)
  {
    if size <= 0 {
      PadChunksFill(c, st, 0, 0);
    } else {
      var count, rest := Rows(size, c.alignText), Column(size, c.alignText);
      RowsColumnSum(size, c.alignText);
      var n := size - rest;
      var r := RowsCrc(st.crc, Fill(c.padValue, c.alignText), count);
      PadChunksFill(c, st, count, n);
      assert n + rest == Max0(size);
      if rest != 0 {
        PadStep(c, st, n, r, rest);
        assert PadCrc(c, st.crc, size) == Calc(r, Fill(c.padValue, rest));
        assert Pad(c, st, size) == Feed(c, Written(c, st, Fill(c.padValue, n), r), Fill(c.padValue, rest), true);
      } else {
        assert PadCrc(c, st.crc, size) == r;
        assert Pad(c, st, size) == PadChunks(c, st, count);
      }
    }
  }

  /** With an even row width, the padding's CRC is the CRC of the whole run of pad bytes. */
  lemma PadCrcEven(c: Config, crc: Crc, size: int)
    requires c.alignText % 2 == 0
    ensures PadCrc(c, crc, size) == Calc(crc, Fill(c.padValue, Max0(size)))
  {
    if size <= 0 {
      assert Fill(c.padValue, 0) == [];
    } else {
      var count, rest := Rows(size, c.alignText), Column(size, c.alignText);
      RowsColumnSum(size, c.alignText);
      var n := size - rest;
      EvenMultiple(count, c.alignText);
      RowsCrcEven(crc, c.padValue, c.alignText, count, n);
      var rows := RowsCrc(crc, Fill(c.padValue, c.alignText), count);
      if rest != 0 {
        CalcFills(crc, c.padValue, n, rest);
        assert PadCrc(c, crc, size) == Calc(rows, Fill(c.padValue, rest));
      } else {
        assert PadCrc(c, crc, size) == rows;
      }
      assert n + rest == Max0(size);
    }
  }

  lemma CalcFills(crc: Crc, pad: byte, n: nat, rest: nat)
    requires n % 2 == 0
    ensures Calc(Calc(crc, Fill(pad, n)), Fill(pad, rest)) == Calc(crc, Fill(pad, n + rest))
  {
    CalcCompose(crc, Fill(pad, n), Fill(pad, rest));
    FillAppend(pad, n, rest);
  }
}
