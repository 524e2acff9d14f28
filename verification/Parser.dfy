/**
  The one-shot parser of `src/format/decoder.c` as a function: a recursive descent over nested GROUP
  records that threads the track table, the event log and the valid prefix.
 */
module Parser {
  import opened Base
  import opened Codec
  import opened Rationals
  import opened Format
  import opened Tables

  /** What a parse carries along: live tracks, callbacks made so far, end of the validated prefix. */
  datatype State = State(tracks: seq<Track>, log: seq<Event>, prefix: nat)

  datatype Outcome = Outcome(status: Status, st: State)

  function EmitStream(p: bytes, lim: Limits, st: State): Outcome {
    match ParseStream(p)
    case None => Outcome(FORMAT, st)
    case Some(s) =>
      if !IsReduced(s.timeBase) then Outcome(TIMELINE, st)
      else if HasTrack(st.tracks, s.trackId, s.generation) then Outcome(FORMAT, st)
      else if |st.tracks| >= lim.maxTracks then Outcome(RESOURCE, st)
      else Outcome(OK, st.(tracks := st.tracks + [Snapshot(s)], log := st.log + [StreamSeen(s)]))
  }

  function EmitPacket(p: bytes, st: State): Outcome {
    match ParsePacket(p)
    case None => Outcome(FORMAT, st)
    case Some(k) =>
      if k.duration < 0 then Outcome(TIMELINE, st)
      else if !HasTrack(st.tracks, k.trackId, k.generation) then Outcome(FORMAT, st)
      else Outcome(OK, st.(log := st.log + [PacketSeen(k)]))
  }

  /** The table-like records; `before` is the file up to the record. */
  function CheckSimple(f: Frame, p: bytes, before: bytes, lim: Limits, tracks: seq<Track>): (s: Status)
    ensures s != TRUNCATED && s != PARTIAL
  {
    if f.typ == PACKET_TABLE then StatusOf(CheckPacketTable(p, tracks, lim))
    else if f.typ == EDIT_LIST then StatusOf(CheckEditList(p, tracks, lim))
    else if f.typ == DISCONTINUITY then CheckDiscontinuity(p, tracks)
    else if f.typ == SEEK_INDEX then CheckSeekIndex(p, f.offset, tracks)
    else if f.typ == CHECKPOINT then CheckCheckpoint(p, f.offset, tracks, lim)
    else if f.typ == INDEX_DIRECTORY then StatusOf(CheckIndexDirectory(p, f.offset))
    else if f.typ == FOOTER then CheckFooter(p, f, before)
    else UNSUPPORTED
  }

  /** Every record without children. */
  function ProcessLeaf(f: Frame, p: bytes, before: bytes, lim: Limits, st: State): (o: Outcome)
    ensures o.st.prefix == st.prefix && st.log <= o.st.log && o.status != TRUNCATED && o.status != PARTIAL
  {
    if IsSkippable(f.typ) then Outcome(OK, st)
    else if f.typ == STREAM_DESC then EmitStream(p, lim, st)
    else if f.typ == PACKET then EmitPacket(p, st)
    else Outcome(CheckSimple(f, p, before, lim, st.tracks), st)
  }

  predicate IsGroup(f: Frame) { f.typ == GROUP }

  function CheckGroup(p: bytes, f: Frame, lim: Limits): (s: Status)
    ensures s == OK ==> |p| >= GROUP_META_SIZE
    ensures s in {OK, FORMAT, RESOURCE}
  {
    if |p| < GROUP_META_SIZE then FORMAT
    else if U64At(p, 4) != |p| - GROUP_META_SIZE then FORMAT
    else if f.depth >= lim.maxDepth then RESOURCE
    else OK
  }

  function Report(st: State, e: Event): State { st.(log := st.log + [e]) }
  function Advance(st: State, end: nat): State { st.(prefix := end) }

  /** One record, its children included. */
  function ProcessRecord(data: bytes, f: Frame, lim: Limits, st: State): Outcome
    requires f.CrcEnd() <= |data| && 10 <= f.headerSize
    decreases f.Size(), 0
  {
    var p := data[f.PayloadOffset()..f.PayloadEnd()];
    var st1 := Report(st, f.Seen());
    if IsGroup(f) then
      if CheckGroup(p, f, lim) != OK then Outcome(CheckGroup(p, f, lim), st1)
      else
        var o := ParseRecords(data, f.PayloadOffset() + GROUP_META_SIZE, f.PayloadEnd(), (f.depth + 1) % 256, lim, st1);
        if o.status == TRUNCATED then Outcome(FORMAT, o.st) else o
    else ProcessLeaf(f, p, data[..f.offset], lim, st1)
  }

  /** The records between `begin` and `end`. */
  function ParseRecords(data: bytes, begin: nat, end: nat, depth: nat, lim: Limits, st: State): Outcome
    requires begin <= end <= |data|
    decreases end - begin, 1
  {
    if begin == end then Outcome(OK, st)
    else
      match NextRecord(data[begin..end], begin, depth, lim)
      case Stop(s) => Outcome(s, if s == TRUNCATED then Advance(st, begin) else st)
      case Found(f) =>
        var o := ProcessRecord(data, f, lim, st);
        if o.status != OK then o
        else ParseRecords(data, f.CrcEnd(), end, depth, lim, Advance(o.st, f.CrcEnd()))
  }

  const INITIAL := State([], [], 0)

  function AtEnd(s: Status, end: bool): Status { if s == TRUNCATED && end then PARTIAL else s }

  /** `tide_parse_tide_bytes`. */
  function Parse(data: bytes, end: bool, lim: Limits): Outcome {
    var s := ValidateHeader(data, lim);
    if s != OK then Outcome(AtEnd(s, end), INITIAL)
    else
      var o := ParseRecords(data, HEADER_SIZE, |data|, 0, lim, Advance(INITIAL, HEADER_SIZE));
      Outcome(AtEnd(o.status, end), o.st)
  }
}
