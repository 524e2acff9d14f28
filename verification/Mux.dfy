/** The muxer of `src/mux/mux.c` as a function of its calls, and the proof that the parser undoes it. */
module Mux {
  import opened Base
  import opened Codec
  import opened Rationals
  import opened Format
  import opened Tables
  import opened Parser
  import opened Prefixes
  import opened Writer
  import opened Catalog

  datatype Call = AddStream(stream: StreamInfo) | WritePacket(packet: PacketInfo)

  datatype MuxState = MuxState(buffer: bytes, sequence: u64)

  const MUX_UUID: bytes := [0x54, 0x49, 0x44, 0x45, 0x2d, 0x30, 0x30, 0x31, 0x2d, 0x6d, 0x75, 0x78, 0x2d, 0x30, 0x31, 0]
  const ALIGN_8: byte := 3

  function NextSequence(sequence: u64): u64 { if sequence == U64_MAX then 0 else sequence + 1 }

  function Start(base: Rational): MuxState { MuxState(FileHeader(base, MUX_UUID), 0) }

  // ----- one call

  function CallType(c: Call): u16 { if c.AddStream? then STREAM_DESC else PACKET }

  function CallPayload(c: Call): bytes {
    if c.AddStream? then StreamPayload(c.stream) else PacketPayload(c.packet)
  }

  /** The arguments the encoder rejects. */
  predicate Encodable(c: Call) {
    if c.AddStream? then IsReduced(c.stream.timeBase) else c.packet.duration >= 0
  }

  function CallRecord(m: MuxState, c: Call): bytes {
    Record(CallType(c), 0, ALIGN_8, m.sequence, CallPayload(c))
  }

  /** Exactly when the call returns OK. */
  predicate CallOk(m: MuxState, c: Call, lim: Limits) {
    && Encodable(c) && Fits(|CallPayload(c)|, lim.maxSingleAlloc)
    && Fits(|m.buffer| + |CallRecord(m, c)|, lim.maxAggregateAlloc)
  }

  function CallNext(m: MuxState, c: Call, lim: Limits): MuxState
    requires CallOk(m, c, lim)
  {
    MuxState(m.buffer + CallRecord(m, c), NextSequence(m.sequence))
  }

  // ----- runs

  predicate RunOk(m: MuxState, calls: seq<Call>, lim: Limits)
    decreases |calls|
  {
    calls == [] || (CallOk(m, calls[0], lim) && RunOk(CallNext(m, calls[0], lim), calls[1..], lim))
  }

  function RunNext(m: MuxState, calls: seq<Call>, lim: Limits): MuxState
    requires RunOk(m, calls, lim)
    decreases |calls|
  {
    if calls == [] then m else RunNext(CallNext(m, calls[0], lim), calls[1..], lim)
  }

  function FooterPayload(length: u64, digest: bytes): bytes { LE(8, length) + LE(8, 0) + [0] + digest }

  /** The record length found by the dry run with a zeroed payload. */
  function FooterSize(sequence: u64): nat { |Record(FOOTER, 0, ALIGN_8, sequence, Zeros(49))| }

  predicate CloseOk(m: MuxState, lim: Limits) {
    Fits(FooterSize(m.sequence), lim.maxSingleAlloc) && Fits(|m.buffer| + FooterSize(m.sequence), lim.maxAggregateAlloc)
  }

  function CloseBytes(m: MuxState, lim: Limits): bytes
    requires CloseOk(m, lim)
  {
    m.buffer + Record(FOOTER, 0, ALIGN_8, m.sequence,
                      FooterPayload(|m.buffer| + FooterSize(m.sequence), Digest(m.buffer)))
  }

  // ----- what a reader must see

  function CallEvent(c: Call): Event { if c.AddStream? then StreamSeen(c.stream) else PacketSeen(c.packet) }

  function CallFrame(m: MuxState, c: Call): Frame {
    FrameOf(CallType(c), 0, ALIGN_8, m.sequence, |CallPayload(c)|, |m.buffer|, 0)
  }

  /** The parser's state after the call's record, given the state before it. */
  function CallSeen(m: MuxState, c: Call, st: State): State {
    State(if c.AddStream? then st.tracks + [Snapshot(c.stream)] else st.tracks,
          st.log + [CallFrame(m, c).Seen(), CallEvent(c)],
          |m.buffer| + |CallRecord(m, c)|)
  }

  function RunSeen(m: MuxState, calls: seq<Call>, lim: Limits, st: State): State
    requires RunOk(m, calls, lim)
    decreases |calls|
  {
    if calls == [] then st else RunSeen(CallNext(m, calls[0], lim), calls[1..], lim, CallSeen(m, calls[0], st))
  }

  /** Distinct keys, at most `maxTracks` streams, and every packet after its descriptor. */
  predicate InOrder(calls: seq<Call>, tracks: seq<Track>, lim: Limits) {
    calls == []
    || (match calls[0]
        case AddStream(s) =>
          !HasTrack(tracks, s.trackId, s.generation) && |tracks| < lim.maxTracks
          && InOrder(calls[1..], tracks + [Snapshot(s)], lim)
        case WritePacket(k) =>
          HasTrack(tracks, k.trackId, k.generation) && InOrder(calls[1..], tracks, lim))
  }

  /** `buffer` parses to its end, leaving `st`. */
  ghost predicate ParsesTo(buffer: bytes, st: State, lim: Limits) {
    && ValidateHeader(buffer, lim) == OK && HEADER_SIZE <= |buffer|
    && ParseRecords(buffer, HEADER_SIZE, |buffer|, 0, lim, Advance(INITIAL, HEADER_SIZE)) == Outcome(OK, st)
    && st.prefix == |buffer|
  }

  // ----- appending a record to a file that parses

  lemma OneRecord(data: bytes, begin: nat, lim: Limits, st: State, f: Frame)
    requires begin < |data| && NextRecord(data[begin..], begin, 0, lim) == Found(f) && f.CrcEnd() == |data|
    requires 10 <= f.headerSize && ProcessRecord(data, f, lim, st).status == OK
    ensures ParseRecords(data, begin, |data|, 0, lim, st)
         == Outcome(OK, Advance(ProcessRecord(data, f, lim, st).st, |data|))
  {
    hide NextRecord, ProcessRecord, AlignUp;
    assert data[begin..|data|] == data[begin..];
  }

  lemma AppendParses(buffer: bytes, r: bytes, st: State, lim: Limits, f: Frame)
    requires ParsesTo(buffer, st, lim)
    requires NextRecord(r, |buffer|, 0, lim) == Found(f) && f.Size() == |r| && 10 <= f.headerSize
    requires f.offset == |buffer| && ProcessRecord(buffer + r, f, lim, st).status == OK
    ensures ParsesTo(buffer + r, Advance(ProcessRecord(buffer + r, f, lim, st).st, |buffer + r|), lim)
  {
    hide NextRecord, ProcessRecord, ParseRecords, AlignUp, ValidateHeader;
    var data := buffer + r;
    ParseResumes(buffer, r, HEADER_SIZE, 0, lim, Advance(INITIAL, HEADER_SIZE));
    assert data[|buffer|..] == r;
    OneRecord(data, |buffer|, lim, st, f);
    assert data[..|buffer|] == buffer;
    HeaderAgrees(data, |buffer|, lim);
  }

  /** Writing a record the default reader accepts. */
  lemma AppendRecord(buffer: bytes, typ: u16, sequence: u64, payload: bytes, st: State)
    requires ParsesTo(buffer, st, DEFAULT_LIMITS) && |payload| <= 0x200_0000 && |buffer| <= 0x800_0000
    requires typ != GROUP && !IsSkippable(typ)
    requires var f := FrameOf(typ, 0, ALIGN_8, sequence, |payload|, |buffer|, 0);
             ProcessLeaf(f, payload, buffer, DEFAULT_LIMITS, Report(st, f.Seen())).status == OK
    ensures var f := FrameOf(typ, 0, ALIGN_8, sequence, |payload|, |buffer|, 0);
            var r := Record(typ, 0, ALIGN_8, sequence, payload);
            var o := ProcessLeaf(f, payload, buffer, DEFAULT_LIMITS, Report(st, f.Seen()));
            ParsesTo(buffer + r, Advance(o.st, |buffer + r|), DEFAULT_LIMITS)
  {
    hide NextRecord, ProcessLeaf, ParseRecords, AlignUp, ParsesTo, HeaderSize, Record, WithinLimits;
    var f := FrameOf(typ, 0, ALIGN_8, sequence, |payload|, |buffer|, 0);
    var r := Record(typ, 0, ALIGN_8, sequence, payload);
    DefaultReaderTakes(f, sequence);
    RecordRoundTrip(typ, 0, ALIGN_8, sequence, payload, [], |buffer|, 0, DEFAULT_LIMITS);
    assert r + [] == r;
    var data := buffer + r;
    assert data[f.PayloadOffset()..f.PayloadEnd()] == r[f.headerSize..f.Unpadded()];
    assert data[..f.offset] == buffer;
    AppendParses(buffer, r, st, DEFAULT_LIMITS, f);
  }

  /** Anything the default muxer can write is within the default reader's limits. */
  lemma DefaultReaderTakes(f: Frame, sequence: u64)
    requires f.payloadSize <= 0x200_0000 && f.offset <= 0x800_0000 && f.headerSize == HeaderSize(f.payloadSize, sequence)
    ensures WithinLimits(f, DEFAULT_LIMITS) && f.CrcEnd() <= U64_MAX && 10 <= f.headerSize
  {
    hide AlignUp, HeaderSize;
    HeaderSizeBound(f.payloadSize, sequence);
  }

  lemma CallEmits(f: Frame, c: Call, before: bytes, st: State)
    requires Encodable(c) && f.typ == CallType(c) && InOrder([c], st.tracks, DEFAULT_LIMITS)
    ensures ProcessLeaf(f, CallPayload(c), before, DEFAULT_LIMITS, st)
         == Outcome(OK, State(if c.AddStream? then st.tracks + [Snapshot(c.stream)] else st.tracks,
                              st.log + [CallEvent(c)], st.prefix))
  {
    hide ParseStream, ParsePacket, StreamPayload, PacketPayload, IsReduced, HasTrack;
    match c
    case AddStream(s) => StreamRoundTrip(s);
    case WritePacket(k) => PacketRoundTrip(k);
  }

  lemma CallParses(m: MuxState, c: Call, st: State)
    requires ParsesTo(m.buffer, st, DEFAULT_LIMITS) && CallOk(m, c, DEFAULT_LIMITS)
    requires InOrder([c], st.tracks, DEFAULT_LIMITS)
    ensures ParsesTo(CallNext(m, c, DEFAULT_LIMITS).buffer, CallSeen(m, c, st), DEFAULT_LIMITS)
  {
    hide ParsesTo, CallPayload, IsReduced, Record, AlignUp, InOrder, ProcessLeaf;
    var f := CallFrame(m, c);
    CallEmits(f, c, m.buffer, Report(st, f.Seen()));
    AppendRecord(m.buffer, CallType(c), m.sequence, CallPayload(c), st);
    assert st.log + [f.Seen()] + [CallEvent(c)] == st.log + [f.Seen(), CallEvent(c)];
  }

  lemma FirstInOrder(calls: seq<Call>, tracks: seq<Track>, lim: Limits)
    requires calls != [] && InOrder(calls, tracks, lim)
    ensures InOrder([calls[0]], tracks, lim)
  {
    hide HasTrack;
    assert InOrder([], tracks, lim);
  }

  lemma {:induction false} RunParses(m: MuxState, calls: seq<Call>, st: State)
    requires ParsesTo(m.buffer, st, DEFAULT_LIMITS) && RunOk(m, calls, DEFAULT_LIMITS)
    requires InOrder(calls, st.tracks, DEFAULT_LIMITS)
    ensures ParsesTo(RunNext(m, calls, DEFAULT_LIMITS).buffer, RunSeen(m, calls, DEFAULT_LIMITS, st), DEFAULT_LIMITS)
    decreases |calls|
  {
    hide ParsesTo, HasTrack, CallRecord, CallPayload, IsReduced, Fits;
    if calls != [] {
      FirstInOrder(calls, st.tracks, DEFAULT_LIMITS);
      CallParses(m, calls[0], st);
      RunParses(CallNext(m, calls[0], DEFAULT_LIMITS), calls[1..], CallSeen(m, calls[0], st));
    }
  }

  // ----- the footer

  /** The dry run's length is the final one: a record's size depends on its payload only through its length. */
  lemma FooterFits(m: MuxState, length: u64, digest: bytes)
    requires |digest| == DIGEST_SIZE
    ensures |FooterPayload(length, digest)| == 49
    ensures |Record(FOOTER, 0, ALIGN_8, m.sequence, FooterPayload(length, digest))| == FooterSize(m.sequence)
  {
    hide LE;
  }

  lemma FooterAccepted(f: Frame, length: u64, before: bytes)
    requires f.CrcEnd() == length
    ensures CheckFooter(FooterPayload(length, Digest(before)), f, before) == OK
  {
    hide LE, UnLE, DigestWords, AlignUp;
    var p := FooterPayload(length, Digest(before));
    Widths();
    LERoundTrip(8, length);
    LERoundTrip(8, 0);
    assert p[0..8] == LE(8, length) && p[8..16] == LE(8, 0);
    assert Uleb(0) == [0];
    assert p[16..] == Uleb(0) + Digest(before) && p[17..] == Digest(before);
    VarintBijection(0, Digest(before), []);
  }

  lemma CloseParses(m: MuxState, st: State)
    requires ParsesTo(m.buffer, st, DEFAULT_LIMITS) && CloseOk(m, DEFAULT_LIMITS)
    ensures var f := FrameOf(FOOTER, 0, ALIGN_8, m.sequence, 49, |m.buffer|, 0);
            var file := CloseBytes(m, DEFAULT_LIMITS);
            ParsesTo(file, State(st.tracks, st.log + [f.Seen()], |file|), DEFAULT_LIMITS)
  {
    hide ParsesTo, LE, Digest, AlignUp, CheckFooter, Record, FooterPayload;
    var length := |m.buffer| + FooterSize(m.sequence);
    var p := FooterPayload(length, Digest(m.buffer));
    var f := FrameOf(FOOTER, 0, ALIGN_8, m.sequence, 49, |m.buffer|, 0);
    DigestLength(m.buffer);
    FooterFits(m, length, Digest(m.buffer));
    FooterAccepted(f, length, m.buffer);
    AppendRecord(m.buffer, FOOTER, m.sequence, p, st);
  }

  lemma DigestLength(s: bytes)
    ensures |Digest(s)| == DIGEST_SIZE
  {}

  // ----- streams and packets of a run

  function CallStreams(calls: seq<Call>): seq<StreamInfo> {
    if calls == [] then []
    else if calls[0].AddStream? then [calls[0].stream] + CallStreams(calls[1..])
    else CallStreams(calls[1..])
  }

  function CallPackets(calls: seq<Call>): seq<PacketInfo> {
    if calls == [] then []
    else if calls[0].WritePacket? then [calls[0].packet] + CallPackets(calls[1..])
    else CallPackets(calls[1..])
  }

  lemma {:induction false} RunLog(m: MuxState, calls: seq<Call>, lim: Limits, st: State)
    requires RunOk(m, calls, lim)
    ensures Streams(RunSeen(m, calls, lim, st).log) == Streams(st.log) + CallStreams(calls)
    ensures Packets(RunSeen(m, calls, lim, st).log) == Packets(st.log) + CallPackets(calls)
    decreases |calls|
  {
    hide CallRecord, CallPayload, IsReduced, Streams, Packets;
    if calls != [] {
      var c := calls[0];
      var e, e' := CallFrame(m, c).Seen(), CallEvent(c);
      AppendEvent(st.log, e);
      AppendEvent(st.log + [e], e');
      assert st.log + [e] + [e'] == CallSeen(m, c, st).log;
      RunLog(CallNext(m, c, lim), calls[1..], lim, CallSeen(m, c, st));
    }
  }

  lemma StartParses(base: Rational)
    requires IsReduced(base)
    ensures ParsesTo(Start(base).buffer, Advance(INITIAL, HEADER_SIZE), DEFAULT_LIMITS)
  {
    hide FileHeader, ValidateHeader;
    assert MUX_UUID[0] != 0;
    HeaderRoundTrip(base, MUX_UUID, [], DEFAULT_LIMITS);
    assert FileHeader(base, MUX_UUID) + [] == FileHeader(base, MUX_UUID);
  }

  /**
    Mux/decode inverse: whenever every call and the close return OK, with distinct keys, at most 64 streams
    and each packet after its descriptor, the file parses to its end and yields the same streams and packets,
    field for field and in order. The footer's self-referential length and prefix digest are accepted.
   */
  lemma MuxDecodes(base: Rational, calls: seq<Call>)
    requires IsReduced(base) && RunOk(Start(base), calls, DEFAULT_LIMITS)
    requires InOrder(calls, [], DEFAULT_LIMITS)
    requires CloseOk(RunNext(Start(base), calls, DEFAULT_LIMITS), DEFAULT_LIMITS)
    ensures var file := CloseBytes(RunNext(Start(base), calls, DEFAULT_LIMITS), DEFAULT_LIMITS);
            var o := Parse(file, true, DEFAULT_LIMITS);
            && o.status == OK && o.st.prefix == |file|
            && Streams(o.st.log) == CallStreams(calls) && Packets(o.st.log) == CallPackets(calls)
  {
    hide ParseRecords, ValidateHeader, Start, RunOk, RunNext, RunSeen, CloseBytes, CloseOk, InOrder, Streams, Packets;
    var m := Start(base);
    var st := Advance(INITIAL, HEADER_SIZE);
    StartParses(base);
    RunParses(m, calls, st);
    RunLog(m, calls, DEFAULT_LIMITS, st);
    var m', st' := RunNext(m, calls, DEFAULT_LIMITS), RunSeen(m, calls, DEFAULT_LIMITS, st);
    CloseParses(m', st');
    var f := FrameOf(FOOTER, 0, ALIGN_8, m'.sequence, 49, |m'.buffer|, 0);
    AppendEvent(st'.log, f.Seen());
    NoEvents();
  }

  lemma NoEvents()
    ensures Streams([]) == [] && Packets([]) == []
  {}

  // ----- the order of calls is not only sufficient: the muxer does not check it, the parser does

  /** `buffer` has a good header and a record the parser refuses for good. */
  ghost predicate Refused(buffer: bytes, lim: Limits) {
    && ValidateHeader(buffer, lim) == OK && HEADER_SIZE <= |buffer|
    && ParseRecords(buffer, HEADER_SIZE, |buffer|, 0, lim, Advance(INITIAL, HEADER_SIZE)).status !in {OK, TRUNCATED}
  }

  /** No bytes written later can mend a refused buffer. */
  lemma RefusedForGood(buffer: bytes, x: bytes, lim: Limits)
    requires Refused(buffer, lim)
    ensures Refused(buffer + x, lim)
  {
    hide ParseRecords, ValidateHeader;
    ParseResumes(buffer, x, HEADER_SIZE, 0, lim, Advance(INITIAL, HEADER_SIZE));
    assert (buffer + x)[..|buffer|] == buffer;
    HeaderAgrees(buffer + x, |buffer|, lim);
  }

  lemma AppendRefused(buffer: bytes, r: bytes, st: State, lim: Limits, f: Frame)
    requires ParsesTo(buffer, st, lim)
    requires NextRecord(r, |buffer|, 0, lim) == Found(f) && f.Size() == |r| && 10 <= f.headerSize
    requires f.offset == |buffer| && ProcessRecord(buffer + r, f, lim, st).status != OK
    ensures Refused(buffer + r, lim)
  {
    hide NextRecord, ProcessRecord, AlignUp, ValidateHeader;
    var data := buffer + r;
    ParseResumes(buffer, r, HEADER_SIZE, 0, lim, Advance(INITIAL, HEADER_SIZE));
    assert data[|buffer|..|data|] == r;
    ProcessNotTruncated(data, f, lim, st);
    assert data[..|buffer|] == buffer;
    HeaderAgrees(data, |buffer|, lim);
  }

  lemma CallRefused(m: MuxState, c: Call, st: State)
    requires ParsesTo(m.buffer, st, DEFAULT_LIMITS) && CallOk(m, c, DEFAULT_LIMITS)
    requires !InOrder([c], st.tracks, DEFAULT_LIMITS)
    ensures Refused(CallNext(m, c, DEFAULT_LIMITS).buffer, DEFAULT_LIMITS)
  {
    hide NextRecord, ProcessLeaf, ParseRecords, AlignUp, ParsesTo, HeaderSize, Record, WithinLimits, CallPayload, InOrder,
         IsReduced, Refused;
    var f, r, p := CallFrame(m, c), CallRecord(m, c), CallPayload(c);
    DefaultReaderTakes(f, m.sequence);
    RecordRoundTrip(CallType(c), 0, ALIGN_8, m.sequence, p, [], |m.buffer|, 0, DEFAULT_LIMITS);
    assert r + [] == r;
    var data := m.buffer + r;
    assert data[f.PayloadOffset()..f.PayloadEnd()] == r[f.headerSize..f.Unpadded()];
    CallNotEmitted(f, c, data[..f.offset], Report(st, f.Seen()));
    AppendRefused(m.buffer, r, st, DEFAULT_LIMITS, f);
  }

  lemma CallNotEmitted(f: Frame, c: Call, before: bytes, st: State)
    requires f.typ == CallType(c) && !InOrder([c], st.tracks, DEFAULT_LIMITS)
    ensures ProcessLeaf(f, CallPayload(c), before, DEFAULT_LIMITS, st).status != OK
  {
    hide ParseStream, ParsePacket, StreamPayload, PacketPayload, IsReduced, HasTrack;
    assert forall tracks: seq<Track> :: InOrder([], tracks, DEFAULT_LIMITS);
    match c
    case AddStream(s) => StreamRoundTrip(s);
    case WritePacket(k) => PacketRoundTrip(k);
  }

  lemma {:induction false} RunRefused(m: MuxState, calls: seq<Call>)
    requires Refused(m.buffer, DEFAULT_LIMITS) && RunOk(m, calls, DEFAULT_LIMITS)
    ensures Refused(RunNext(m, calls, DEFAULT_LIMITS).buffer, DEFAULT_LIMITS)
    decreases |calls|
  {
    hide Refused, CallRecord, CallOk;
    if calls != [] {
      RefusedForGood(m.buffer, CallRecord(m, calls[0]), DEFAULT_LIMITS);
      RunRefused(CallNext(m, calls[0], DEFAULT_LIMITS), calls[1..]);
    }
  }

  lemma {:induction false} DisorderIsRefused(m: MuxState, calls: seq<Call>, st: State)
    requires ParsesTo(m.buffer, st, DEFAULT_LIMITS) && RunOk(m, calls, DEFAULT_LIMITS)
    requires !InOrder(calls, st.tracks, DEFAULT_LIMITS)
    ensures Refused(RunNext(m, calls, DEFAULT_LIMITS).buffer, DEFAULT_LIMITS)
    decreases |calls|
  {
    hide ParsesTo, HasTrack, CallRecord, CallPayload, IsReduced, Fits, Refused;
    var c := calls[0];
    if InOrder([c], st.tracks, DEFAULT_LIMITS) {
      CallParses(m, c, st);
      DisorderIsRefused(CallNext(m, c, DEFAULT_LIMITS), calls[1..], CallSeen(m, c, st));
    } else {
      CallRefused(m, c, st);
      RunRefused(CallNext(m, c, DEFAULT_LIMITS), calls[1..]);
    }
  }

  /**
    The exact condition: the muxer accepts calls in any order, and the file it closes is readable if and only
    if keys are distinct, at most 64 streams are declared and every packet follows its descriptor.
   */
  lemma MuxAcceptedExactly(base: Rational, calls: seq<Call>)
    requires IsReduced(base) && RunOk(Start(base), calls, DEFAULT_LIMITS)
    requires CloseOk(RunNext(Start(base), calls, DEFAULT_LIMITS), DEFAULT_LIMITS)
    ensures Parse(CloseBytes(RunNext(Start(base), calls, DEFAULT_LIMITS), DEFAULT_LIMITS), true, DEFAULT_LIMITS).status == OK
       <==> InOrder(calls, [], DEFAULT_LIMITS)
  {
    hide ParseRecords, ValidateHeader, Start, RunOk, RunNext, CloseOk, InOrder, Record, FooterPayload;
    if InOrder(calls, [], DEFAULT_LIMITS) {
      MuxDecodes(base, calls);
    } else {
      StartParses(base);
      DisorderIsRefused(Start(base), calls, Advance(INITIAL, HEADER_SIZE));
      CloseRefused(RunNext(Start(base), calls, DEFAULT_LIMITS));
    }
  }

  lemma CloseRefused(m: MuxState)
    requires Refused(m.buffer, DEFAULT_LIMITS) && CloseOk(m, DEFAULT_LIMITS)
    ensures Refused(CloseBytes(m, DEFAULT_LIMITS), DEFAULT_LIMITS)
  {
    hide Refused, Record, FooterPayload;
    RefusedForGood(m.buffer, CloseBytes(m, DEFAULT_LIMITS)[|m.buffer|..], DEFAULT_LIMITS);
    assert m.buffer + CloseBytes(m, DEFAULT_LIMITS)[|m.buffer|..] == CloseBytes(m, DEFAULT_LIMITS);
  }

  lemma RecordSizeBound(typ: u16, sequence: u64, payload: bytes)
    requires |payload| <= U64_MAX
    ensures |Record(typ, 0, ALIGN_8, sequence, payload)| <= |payload| + 48
  {
    hide HeaderSize, AlignUp, RecordBody;
    HeaderSizeBound(|payload|, sequence);
  }

  lemma SmallCallOk(m: MuxState, s: StreamInfo)
    requires IsReduced(s.timeBase) && |s.config| <= 1000 && |m.buffer| <= 0x10_0000
    ensures CallOk(m, AddStream(s), DEFAULT_LIMITS)
    ensures |CallNext(m, AddStream(s), DEFAULT_LIMITS).buffer| <= |m.buffer| + 2000
  {
    hide LE, Uleb, Record, IsReduced, ReadVarint;
    VarintBijection(|s.config|, [], []);
    RecordSizeBound(STREAM_DESC, m.sequence, StreamPayload(s));
  }

  /** A concrete family: the same small descriptor twice. Every mux call returns OK and no reader takes the file. */
  lemma DuplicateIsWrittenAndRefused(base: Rational, s: StreamInfo)
    requires IsReduced(base) && IsReduced(s.timeBase) && |s.config| <= 1000
    ensures var calls := [AddStream(s), AddStream(s)];
            && RunOk(Start(base), calls, DEFAULT_LIMITS)
            && CloseOk(RunNext(Start(base), calls, DEFAULT_LIMITS), DEFAULT_LIMITS)
            && Parse(CloseBytes(RunNext(Start(base), calls, DEFAULT_LIMITS), DEFAULT_LIMITS), true, DEFAULT_LIMITS).status != OK
  {
    hide CallOk, CallNext, Start, InOrder, Record, Parse, CloseBytes, Zeros;
    var calls, m := [AddStream(s), AddStream(s)], Start(base);
    assert calls[1..] == [AddStream(s)] && [AddStream(s)][1..] == [];
    StartIsShort(base);
    SmallCallOk(m, s);
    var m1 := CallNext(m, AddStream(s), DEFAULT_LIMITS);
    SmallCallOk(m1, s);
    var m2 := CallNext(m1, AddStream(s), DEFAULT_LIMITS);
    RunOne(m1, AddStream(s), DEFAULT_LIMITS);
    RecordSizeBound(FOOTER, m2.sequence, Zeros(49));
    SameKeyTwice(s);
    MuxAcceptedExactly(base, calls);
  }

  lemma RunOne(m: MuxState, c: Call, lim: Limits)
    requires CallOk(m, c, lim)
    ensures RunOk(m, [c], lim) && RunNext(m, [c], lim) == CallNext(m, c, lim)
  {
    hide CallOk, CallNext;
    var m' := CallNext(m, c, lim);
    assert RunOk(m', [], lim) && RunNext(m', [], lim) == m' && [c][1..] == [];
  }

  lemma StartIsShort(base: Rational)
    ensures |Start(base).buffer| == HEADER_SIZE
  {
    hide LE;
  }

  lemma SameKeyTwice(s: StreamInfo)
    ensures !InOrder([AddStream(s), AddStream(s)], [], DEFAULT_LIMITS)
  {
    assert [AddStream(s), AddStream(s)][1..] == [AddStream(s)];
    assert ([] + [Snapshot(s)])[0] == Snapshot(s);
  }
}
