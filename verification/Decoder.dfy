/** `tide_decoder_impl`: the object whose fields the feeds update, proved against `Parser` and `Streaming`. */
module DecoderObject {
  import opened Base
  import opened Codec
  import opened Rationals
  import opened Format
  import opened Tables
  import opened Parser
  import opened ByteReader
  import opened FrameReader
  import opened TableReader
  import Streaming
  import Prefixes

  class Decoder {
    const limits: Limits
    var buffer: bytes
    var tracks: seq<Track>
    var log: seq<Event>
    var validPrefix: nat
    var parseOffset: nat
    var headerValidated: bool
    var terminal: bool
    var cancelled: bool

    ghost function St(): State
      reads this
    {
      State(tracks, log, validPrefix)
    }

    ghost function Abstract(): Streaming.DecoderState
      reads this
    {
      Streaming.DecoderState(buffer, St(), parseOffset, headerValidated, terminal, cancelled)
    }

    constructor (limits: Limits)
      ensures this.limits == limits && Abstract() == Streaming.FRESH
    {
      this.limits := limits;
      buffer, tracks, log, validPrefix, parseOffset := [], [], [], 0, 0;
      headerValidated, terminal, cancelled := false, false, false;
    }

    method AddTrack(s: StreamInfo) returns (status: Status)
      modifies `tracks
      ensures status == if HasTrack(old(tracks), s.trackId, s.generation) then FORMAT
                        else if |old(tracks)| >= limits.maxTracks then RESOURCE else OK
      ensures tracks == if status == OK then old(tracks) + [Snapshot(s)] else old(tracks)
    {
      var known := FindTrack(tracks, s.trackId, s.generation);
      if known { return FORMAT; }
      if |tracks| >= limits.maxTracks { return RESOURCE; }
      tracks := tracks + [Snapshot(s)];
      return OK;
    }

    method OnStream(p: bytes) returns (status: Status)
      modifies `tracks, `log
      ensures Outcome(status, St()) == EmitStream(p, limits, old(St()))
    {
      hide ParseStream, IsReduced, HasTrack;
      var s := ReadStream(p);
      if s.None? { return FORMAT; }
      if !IsReduced(s.value.timeBase) { return TIMELINE; }
      status := AddTrack(s.value);
      if status == OK { log := log + [StreamSeen(s.value)]; }
    }

    method OnPacket(p: bytes) returns (status: Status)
      modifies `log
      ensures Outcome(status, St()) == EmitPacket(p, old(St()))
    {
      hide ParsePacket, HasTrack;
      var k := ReadPacket(p);
      if k.None? { return FORMAT; }
      if k.value.duration < 0 { return TIMELINE; }
      var known := FindTrack(tracks, k.value.trackId, k.value.generation);
      if !known { return FORMAT; }
      log := log + [PacketSeen(k.value)];
      return OK;
    }

    method OnSimple(f: Frame, p: bytes, before: bytes) returns (status: Status)
      ensures status == CheckSimple(f, p, before, limits, tracks)
    {
      hide CheckPacketTable, CheckEditList, CheckDiscontinuity, CheckSeekIndex, CheckCheckpoint, CheckIndexDirectory,
           CheckFooter;
      if f.typ == PACKET_TABLE { status := ValidatePacketTable(p, tracks, limits); }
      else if f.typ == EDIT_LIST { status := ValidateEditList(p, tracks, limits); }
      else if f.typ == DISCONTINUITY { status := ValidateDiscontinuity(p, tracks); }
      else if f.typ == SEEK_INDEX { status := ValidateSeekIndex(p, f.offset, tracks); }
      else if f.typ == CHECKPOINT { status := ValidateCheckpoint(p, f.offset, tracks, limits); }
      else if f.typ == INDEX_DIRECTORY { status := ValidateIndexDirectory(p, f.offset); }
      else if f.typ == FOOTER { status := ValidateFooter(p, f, before); }
      else { status := UNSUPPORTED; }
    }

    method CheckGroupMeta(p: bytes, f: Frame) returns (status: Status)
      ensures status == CheckGroup(p, f, limits)
    {
      hide UnLE;
      if |p| < GROUP_META_SIZE { return FORMAT; }
      var r := new Reader(p);
      var ok, kind, skipped, childBytes, groupSequence;
      ok, kind := r.ReadU16();
      ok, skipped := r.ReadBytes(2);
      ok, childBytes := r.ReadU64();
      ok, groupSequence := r.ReadU64();
      if childBytes != |p| - GROUP_META_SIZE { return FORMAT; }
      if f.depth >= limits.maxDepth { return RESOURCE; }
      return OK;
    }

    method OnRecord(data: bytes, f: Frame) returns (status: Status)
      requires f.CrcEnd() <= |data| && 10 <= f.headerSize && |data| <= U64_MAX
      modifies `tracks, `log, `validPrefix
      ensures Outcome(status, St()) == ProcessRecord(data, f, limits, old(St()))
      decreases f.Size(), 0
    {
      hide EmitStream, EmitPacket, CheckSimple, CheckGroup, ParseRecords, AlignUp;
      var p := data[f.PayloadOffset()..f.PayloadEnd()];
      log := log + [f.Seen()];
      if IsSkippable(f.typ) { return OK; }
      if f.typ == GROUP {
        status := CheckGroupMeta(p, f);
        if status != OK { return; }
        var childBegin := f.PayloadOffset() + GROUP_META_SIZE;
        status := OnRecords(data, childBegin, f.PayloadEnd(), (f.depth + 1) % 256);
        if status == TRUNCATED { status := FORMAT; }
      } else if f.typ == STREAM_DESC {
        status := OnStream(p);
      } else if f.typ == PACKET {
        status := OnPacket(p);
      } else {
        status := OnSimple(f, p, data[..f.offset]);
      }
    }

    /** The cursor loop of `tide_parse_records`. */
    method OnRecords(data: bytes, begin: nat, end: nat, depth: nat) returns (status: Status)
      requires begin <= end <= |data| <= U64_MAX
      modifies `tracks, `log, `validPrefix
      ensures Outcome(status, St()) == ParseRecords(data, begin, end, depth, limits, old(St()))
      decreases end - begin, 1
    {
      hide DecodePrefix, Integrity, ProcessRecord, AlignUp;
      var cursor := begin;
      while cursor < end
        invariant begin <= cursor <= end
        invariant ParseRecords(data, begin, end, depth, limits, old(St()))
               == ParseRecords(data, cursor, end, depth, limits, St())
        decreases end - cursor
      {
        var d := DecodeRecordPrefix(data, end, cursor, depth);
        if d.Stop? {
          if d.status == TRUNCATED { validPrefix := cursor; }
          return d.status;
        }
        var f := d.frame;
        if f.payloadSize > limits.maxPayloadSize || f.Size() > limits.maxRecordSize { return RESOURCE; }
        status := ValidateRecordIntegrity(data, f);
        assert data[cursor..] == data[cursor..end] + data[end..];
        Prefixes.IntegrityExtends(data[cursor..end], data[end..], f);
        if status != OK { return; }
        status := OnRecord(data, f);
        if status != OK { return; }
        cursor := f.CrcEnd();
        validPrefix := cursor;
      }
      return OK;
    }

    /** The parse at the end of a feed: everything after the header check. */
    method ParseBuffered(end: bool, ghost consumed: nat) returns (status: Status)
      requires parseOffset <= |buffer| <= U64_MAX && !terminal
      modifies this
      ensures Streaming.Fed(status, consumed, Abstract()) == Streaming.ParseMore(old(Abstract()), consumed, end, limits)
      ensures parseOffset <= |buffer|
    {
      hide ParseRecords;
      status := OnRecords(buffer, parseOffset, |buffer|, 0);
      if status == TRUNCATED { Prefixes.TruncatedInside(buffer, parseOffset, |buffer|, 0, limits, old(St())); }
      if end {
        if status == TRUNCATED { status := PARTIAL; }
        else if status == OK { parseOffset := |buffer|; }
        terminal := true;
      } else if status == TRUNCATED {
        parseOffset := validPrefix;
        status := OK;
      } else if status != OK {
        terminal := true;
      } else {
        parseOffset := |buffer|;
      }
    }

    /** `tide_decoder_feed`. */
    method Feed(data: bytes, end: bool) returns (status: Status, consumed: nat)
      requires parseOffset <= |buffer|
      modifies this
      ensures Streaming.Fed(status, consumed, Abstract()) == Streaming.Feed(old(Abstract()), data, end, limits)
      ensures parseOffset <= |buffer|
    {
      hide ParseRecords, ValidateHeader, Streaming.ParseMore;
      if cancelled { return CANCELLED, 0; }
      if terminal { return INVALID_ARGUMENT, 0; }
      if |buffer| + |data| > U64_MAX
         || (|buffer| + |data| > limits.maxAggregateAlloc && limits.maxAggregateAlloc != 0) {
        return RESOURCE, 0;
      }
      buffer := buffer + data;
      consumed := |data|;
      if !headerValidated {
        if !end && |buffer| < HEADER_SIZE { return OK, consumed; }
        status := ValidateHeaderBytes(buffer, limits);
        if status != OK {
          terminal := true;
          return if status == TRUNCATED && end then PARTIAL else status, consumed;
        }
        Prefixes.HeaderLength(buffer, limits);
        headerValidated := true;
        parseOffset := HEADER_SIZE;
        validPrefix := HEADER_SIZE;
      }
      status := ParseBuffered(end, consumed);
    }

    method Cancel()
      modifies `cancelled
      ensures cancelled
    {
      cancelled := true;
    }
  }

  /** `tide_parse_tide_bytes`: a fresh table, the header, then all records. */
  method ParseTideBytes(data: bytes, end: bool, lim: Limits) returns (status: Status, tracks: seq<Track>, log: seq<Event>, prefix: nat)
    requires |data| <= U64_MAX
    ensures Outcome(status, State(tracks, log, prefix)) == Parse(data, end, lim)
  {
    hide ParseRecords, ValidateHeader;
    var d := new Decoder(lim);
    status := ValidateHeaderBytes(data, lim);
    if status != OK { return AtEnd(status, end), [], [], 0; }
    Prefixes.HeaderLength(data, lim);
    d.validPrefix := HEADER_SIZE;
    status := d.OnRecords(data, HEADER_SIZE, |data|, 0);
    return AtEnd(status, end), d.tracks, d.log, d.validPrefix;
  }

  /** Feeds a plan chunk by chunk, as a streaming caller does; the outcome is that of the one-shot parse. */
  method DecodeInChunks(plan: seq<bytes>, lim: Limits)
    returns (status: Status, tracks: seq<Track>, log: seq<Event>, prefix: nat)
    requires |plan| > 0 && Fits(|Streaming.Concat(plan)|, lim.maxAggregateAlloc)
    ensures Outcome(status, State(tracks, log, prefix)) == Parse(Streaming.Concat(plan), true, lim)
  {
    hide Streaming.Feed, Parse;
    var d := new Decoder(lim);
    Streaming.ChunkPlanIndependence(plan, lim, [], true);
    assert plan[0..] == plan;
    var i, consumed := 0, 0;
    status := OK;
    while status == OK && i < |plan| - 1
      invariant 0 <= i < |plan| && d.parseOffset <= |d.buffer|
      invariant status == OK ==> Streaming.Run(Streaming.FRESH, plan, lim) == Streaming.Run(d.Abstract(), plan[i..], lim)
      invariant status != OK ==> Streaming.Run(Streaming.FRESH, plan, lim).status == status
                                 && Streaming.Run(Streaming.FRESH, plan, lim).next.st == d.St()
      decreases status == OK, |plan| - i
    {
      assert plan[i..][0] == plan[i] && plan[i..][1..] == plan[i + 1..];
      status, consumed := d.Feed(plan[i], false);
      i := i + 1;
    }
    if status == OK {
      assert plan[i..] == [plan[i]];
      status, consumed := d.Feed(plan[i], true);
    }
    return status, d.tracks, d.log, d.validPrefix;
  }
}
