/** Catalog safety: what holds of the track table and the event log in every state a parse can reach. */
module Catalog {
  import opened Base
  import opened Codec
  import opened Format
  import opened Parser
  import opened Prefixes
  import opened Rationals

  function Streams(log: seq<Event>): seq<StreamInfo> {
    if log == [] then []
    else
      var e := log[|log| - 1];
      Streams(log[..|log| - 1]) + if e.StreamSeen? then [e.stream] else []
  }

  function Packets(log: seq<Event>): seq<PacketInfo> {
    if log == [] then []
    else
      var e := log[|log| - 1];
      Packets(log[..|log| - 1]) + if e.PacketSeen? then [e.packet] else []
  }

  predicate SameKey(a: StreamInfo, b: StreamInfo) { a.trackId == b.trackId && a.generation == b.generation }

  predicate DistinctKeys(ss: seq<StreamInfo>) {
    forall i, j :: 0 <= i < j < |ss| ==> !SameKey(ss[i], ss[j])
  }

  /** `k` belongs to one of `ss`. */
  predicate Declared(k: PacketInfo, ss: seq<StreamInfo>) {
    exists i :: 0 <= i < |ss| && ss[i].trackId == k.trackId && ss[i].generation == k.generation
  }

  /** The parser's own verdict at `f.offset`: framed by these bytes, within limits, zero padding, matching CRC. */
  predicate FoundAt(data: bytes, f: Frame, end: nat, lim: Limits) {
    f.offset <= end <= |data| && NextRecord(data[f.offset..end], f.offset, f.depth, lim) == Found(f)
  }

  /** The event reports a record that was found in the file. */
  ghost predicate Verified(data: bytes, e: Event, lim: Limits) {
    exists f: Frame, end: nat :: f.Seen() == e && FoundAt(data, f, end, lim)
  }

  /** `r` reports a verified record of type `typ`, and its payload lies in the file. */
  ghost predicate VerifiedAs(data: bytes, r: Event, typ: u16, lim: Limits) {
    && r.RecordSeen? && r.typ == typ && Verified(data, r, lim)
    && r.payloadOffset + r.payloadSize <= |data|
  }

  /** A packet event directly follows the verified PACKET record whose payload it decodes. */
  ghost predicate FromVerifiedRecord(data: bytes, r: Event, k: PacketInfo, lim: Limits) {
    && VerifiedAs(data, r, PACKET, lim)
    && ParsePacket(data[r.payloadOffset..r.payloadOffset + r.payloadSize]) == Some(k)
    && k.duration >= 0
    && IsTailOf(k.payload, data, r.payloadOffset, r.payloadOffset + r.payloadSize)
  }

  /** A stream event directly follows the verified STREAM_DESC record whose payload it decodes. */
  ghost predicate FromVerifiedDescriptor(data: bytes, r: Event, s: StreamInfo, lim: Limits) {
    && VerifiedAs(data, r, STREAM_DESC, lim)
    && ParseStream(data[r.payloadOffset..r.payloadOffset + r.payloadSize]) == Some(s)
    && IsTailOf(s.config, data, r.payloadOffset, r.payloadOffset + r.payloadSize)
  }

  /** `t` is the last part of `data[begin..end]`. */
  predicate IsTailOf(t: bytes, data: bytes, begin: nat, end: nat) {
    begin <= end <= |data| && |t| <= end - begin && t == data[end - |t|..end]
  }

  lemma ConfigIsTail(data: bytes, begin: nat, end: nat)
    requires begin <= end <= |data| && ParseStream(data[begin..end]).Some?
    ensures IsTailOf(ParseStream(data[begin..end]).value.config, data, begin, end)
  {
    hide ReadVarint, U16At, U32At;
    var p, s := data[begin..end], ParseStream(data[begin..end]).value;
    assert p[|p| - |s.config|..] == p[|p| - |s.config|..|p|];
    SliceOfSlice(data, begin, end, |p| - |s.config|, |p|);
  }

  lemma PayloadIsTail(data: bytes, begin: nat, end: nat)
    requires begin <= end <= |data| && ParsePacket(data[begin..end]).Some?
    ensures IsTailOf(ParsePacket(data[begin..end]).value.payload, data, begin, end)
  {
    hide ReadVarint, U32At, U64At, I64At;
    var p, k := data[begin..end], ParsePacket(data[begin..end]).value;
    assert p[|p| - |k.payload|..] == p[|p| - |k.payload|..|p|];
    SliceOfSlice(data, begin, end, |p| - |k.payload|, |p|);
  }

  ghost predicate EventOk(data: bytes, log: seq<Event>, i: nat, lim: Limits)
    requires i < |log|
  {
    && (log[i].PacketSeen? ==>
          && Declared(log[i].packet, Streams(log[..i]))
          && i > 0 && FromVerifiedRecord(data, log[i - 1], log[i].packet, lim))
    && (log[i].StreamSeen? ==> i > 0 && FromVerifiedDescriptor(data, log[i - 1], log[i].stream, lim))
    && (log[i].RecordSeen? ==> Verified(data, log[i], lim))
  }

  predicate TracksMatch(tracks: seq<Track>, ss: seq<StreamInfo>) {
    && |tracks| == |ss|
    && forall i :: 0 <= i < |ss| ==> tracks[i] == Snapshot(ss[i]) && IsReduced(ss[i].timeBase)
  }

  /** The invariant. */
  ghost predicate CatalogOk(data: bytes, st: State, lim: Limits) {
    && TracksMatch(st.tracks, Streams(st.log))
    && |st.tracks| <= lim.maxTracks
    && DistinctKeys(Streams(st.log))
    && forall i :: 0 <= i < |st.log| ==> EventOk(data, st.log, i, lim)
  }

  lemma AppendEvent(log: seq<Event>, e: Event)
    ensures Streams(log + [e]) == Streams(log) + if e.StreamSeen? then [e.stream] else []
    ensures Packets(log + [e]) == Packets(log) + if e.PacketSeen? then [e.packet] else []
  {
    assert (log + [e])[..|log|] == log;
  }

  /** What an event must satisfy to be appended to `log`. */
  ghost predicate Appendable(data: bytes, log: seq<Event>, e: Event, lim: Limits) {
    && (e.PacketSeen? ==> Declared(e.packet, Streams(log)) && |log| > 0
                          && FromVerifiedRecord(data, log[|log| - 1], e.packet, lim))
    && (e.StreamSeen? ==> |log| > 0 && FromVerifiedDescriptor(data, log[|log| - 1], e.stream, lim))
    && (e.RecordSeen? ==> Verified(data, e, lim))
  }

  lemma AppendKeepsEvents(data: bytes, log: seq<Event>, e: Event, lim: Limits)
    requires forall i :: 0 <= i < |log| ==> EventOk(data, log, i, lim)
    requires Appendable(data, log, e, lim)
    ensures forall i :: 0 <= i < |log + [e]| ==> EventOk(data, log + [e], i, lim)
  {
    hide FromVerifiedRecord, FromVerifiedDescriptor, Verified, Declared, Streams;
    var log' := log + [e];
    forall i | 0 <= i < |log'|
      ensures EventOk(data, log', i, lim)
    {
      if i < |log| {
        assert EventOk(data, log, i, lim) && log'[..i] == log[..i];
      } else {
        assert log'[..i] == log;
      }
    }
  }

  lemma ReportKeeps(data: bytes, st: State, lim: Limits, e: Event)
    requires CatalogOk(data, st, lim) && e.RecordSeen? && Verified(data, e, lim)
    ensures CatalogOk(data, Report(st, e), lim)
  {
    hide EventOk, Streams, Verified;
    AppendEvent(st.log, e);
    AppendKeepsEvents(data, st.log, e, lim);
  }

  lemma NewKey(tracks: seq<Track>, ss: seq<StreamInfo>, s: StreamInfo)
    requires TracksMatch(tracks, ss) && DistinctKeys(ss) && !HasTrack(tracks, s.trackId, s.generation)
    ensures DistinctKeys(ss + [s])
  {
    forall i | 0 <= i < |ss|
      ensures !SameKey(ss[i], s)
    {
      assert tracks[i].trackId == ss[i].trackId && tracks[i].generation == ss[i].generation;
    }
  }

  /** The state just after a verified record was reported. */
  ghost predicate JustReported(data: bytes, f: Frame, typ: u16, st: State, lim: Limits) {
    && CatalogOk(data, st, lim) && f.CrcEnd() <= |data| && f.typ == typ
    && |st.log| > 0 && st.log[|st.log| - 1] == f.Seen() && Verified(data, f.Seen(), lim)
  }

  lemma StreamKeeps(data: bytes, f: Frame, lim: Limits, st: State)
    requires JustReported(data, f, STREAM_DESC, st, lim)
    ensures CatalogOk(data, EmitStream(data[f.PayloadOffset()..f.PayloadEnd()], lim, st).st, lim)
  {
    hide EventOk, Streams, ParseStream, IsReduced, HasTrack, DistinctKeys, Verified, AlignUp, IsTailOf;
    var p := data[f.PayloadOffset()..f.PayloadEnd()];
    match ParseStream(p)
    case None =>
    case Some(s) =>
      if EmitStream(p, lim, st).status == OK {
        AppendEvent(st.log, StreamSeen(s));
        ConfigIsTail(data, f.PayloadOffset(), f.PayloadEnd());
        AppendKeepsEvents(data, st.log, StreamSeen(s), lim);
        NewKey(st.tracks, Streams(st.log), s);
      }
  }

  lemma TrackIsDeclared(tracks: seq<Track>, ss: seq<StreamInfo>, k: PacketInfo)
    requires TracksMatch(tracks, ss) && HasTrack(tracks, k.trackId, k.generation)
    ensures Declared(k, ss)
  {
    var i :| 0 <= i < |tracks| && tracks[i].trackId == k.trackId && tracks[i].generation == k.generation;
    assert ss[i].trackId == k.trackId && ss[i].generation == k.generation;
  }

  lemma PacketKeeps(data: bytes, f: Frame, lim: Limits, st: State)
    requires JustReported(data, f, PACKET, st, lim)
    ensures CatalogOk(data, EmitPacket(data[f.PayloadOffset()..f.PayloadEnd()], st).st, lim)
  {
    hide EventOk, Streams, ParsePacket, HasTrack, DistinctKeys, Declared, Verified, AlignUp, TracksMatch, IsTailOf;
    var p := data[f.PayloadOffset()..f.PayloadEnd()];
    match ParsePacket(p)
    case None =>
    case Some(k) =>
      if EmitPacket(p, st).status == OK {
        AppendEvent(st.log, PacketSeen(k));
        assert Streams(st.log) + [] == Streams(st.log);
        TrackIsDeclared(st.tracks, Streams(st.log), k);
        PayloadIsTail(data, f.PayloadOffset(), f.PayloadEnd());
        AppendKeepsEvents(data, st.log, PacketSeen(k), lim);
      }
  }

  lemma {:induction false} ProcessKeeps(data: bytes, f: Frame, lim: Limits, st: State)
    requires f.CrcEnd() <= |data| && 10 <= f.headerSize && Verified(data, f.Seen(), lim)
    requires CatalogOk(data, st, lim)
    ensures CatalogOk(data, ProcessRecord(data, f, lim, st).st, lim)
    decreases f.Size(), 0
  {
    hide CatalogOk, CheckGroup, CheckSimple, ParseRecords, EmitStream, EmitPacket, Verified, AlignUp;
    var p, st1 := data[f.PayloadOffset()..f.PayloadEnd()], Report(st, f.Seen());
    ReportKeeps(data, st, lim, f.Seen());
    if IsGroup(f) {
      if CheckGroup(p, f, lim) == OK {
        ParseKeeps(data, f.PayloadOffset() + GROUP_META_SIZE, f.PayloadEnd(), (f.depth + 1) % 256, lim, st1);
      }
    } else if f.typ == STREAM_DESC {
      StreamKeeps(data, f, lim, st1);
    } else if f.typ == PACKET {
      PacketKeeps(data, f, lim, st1);
    }
  }

  /** A verified record is framed by its own bytes, is within limits and passes the padding and CRC checks. */
  lemma FoundIsSound(data: bytes, f: Frame, end: nat, lim: Limits)
    requires FoundAt(data, f, end, lim)
    ensures f.CrcEnd() <= end && WithinLimits(f, lim)
    ensures DecodePrefix(data[f.offset..end], f.offset, f.depth) == Found(f) && Integrity(data[f.offset..end], f) == OK
  {
    hide Integrity, DecodePrefix, AlignUp;
  }

  lemma {:induction false} ParseKeeps(data: bytes, begin: nat, end: nat, depth: nat, lim: Limits, st: State)
    requires begin <= end <= |data|
    requires CatalogOk(data, st, lim)
    ensures CatalogOk(data, ParseRecords(data, begin, end, depth, lim, st).st, lim)
    decreases end - begin, 1
  {
    hide CatalogOk, NextRecord, ProcessRecord, AlignUp;
    AdvanceKeeps(data, st, lim, begin);
    if begin < end {
      match NextRecord(data[begin..end], begin, depth, lim)
      case Stop(_) =>
      case Found(f) =>
        assert FoundAt(data, f, end, lim) && Verified(data, f.Seen(), lim);
        ProcessKeeps(data, f, lim, st);
        var o := ProcessRecord(data, f, lim, st);
        AdvanceKeeps(data, o.st, lim, f.CrcEnd());
        if o.status == OK { ParseKeeps(data, f.CrcEnd(), end, depth, lim, Advance(o.st, f.CrcEnd())); }
    }
  }

  lemma AdvanceKeeps(data: bytes, st: State, lim: Limits, v: nat)
    requires CatalogOk(data, st, lim)
    ensures CatalogOk(data, Advance(st, v), lim)
  {}

  /**
    Catalog safety over all runs: whatever the input and the verdict, stream keys are distinct and within the
    limit, and every packet event follows a stream event with its key and decodes a verified record.
   */
  lemma CatalogSafety(data: bytes, end: bool, lim: Limits)
    ensures CatalogOk(data, Parse(data, end, lim).st, lim)
  {
    hide ValidateHeader, ParseRecords;
    if ValidateHeader(data, lim) == OK {
      HeaderLength(data, lim);
      ParseKeeps(data, HEADER_SIZE, |data|, 0, lim, Advance(INITIAL, HEADER_SIZE));
    }
  }
}
