/** The demuxer object and the loops that move streams and packets from it to a muxer. */
module RemuxObject {
  import opened Base
  import opened Rationals
  import opened Format
  import opened Parser
  import opened Catalog
  import opened Mux
  import opened Remux
  import MuxObject
  import DecoderObject
  import Recovery

  /** `struct tide_demux`: what the stream and packet callbacks collected, and a cursor. */
  class Demuxer {
    var streams: seq<StreamInfo>
    var packets: seq<PacketInfo>
    var cursor: nat

    constructor ()
      ensures streams == [] && packets == [] && cursor == 0
    {
      streams, packets, cursor := [], [], 0;
    }

    /** Replays the callbacks of a parse. */
    method Collect(log: seq<Event>)
      requires streams == [] && packets == []
      modifies this
      ensures streams == Streams(log) && packets == Packets(log) && cursor == old(cursor)
    {
      hide Streams, Packets;
      NoEvents();
      assert log[..0] == [];
      for i := 0 to |log|
        invariant streams == Streams(log[..i]) && packets == Packets(log[..i]) && cursor == old(cursor)
      {
        AppendEvent(log[..i], log[i]);
        assert log[..i] + [log[i]] == log[..i + 1];
        match log[i] {
          case StreamSeen(s) => streams := streams + [s];
          case PacketSeen(k) => packets := packets + [k];
          case RecordSeen(_, _, _, _, _, _, _, _) =>
        }
      }
      assert log[..|log|] == log;
    }

    /** `tide_demux_next` without the lease, which `Ownership` tracks. */
    method Next() returns (status: Status, k: PacketInfo)
      modifies `cursor
      ensures status == if old(cursor) < |packets| then OK else WOULD_BLOCK
      ensures status == OK ==> k == packets[old(cursor)] && cursor == old(cursor) + 1
      ensures status != OK ==> cursor == old(cursor)
    {
      if cursor >= |packets| { return WOULD_BLOCK, PacketInfo(0, 0, 0, 0, 0, 0, 0, []); }
      k := packets[cursor];
      cursor := cursor + 1;
      status := OK;
    }
  }

  /** `tide_demux_open` with default limits; a partial tail is tolerated unless `strict`. */
  method OpenDemux(file: bytes, strict: bool) returns (status: Status, d: Demuxer)
    requires |file| <= U64_MAX
    ensures status == Parse(file, true, DEFAULT_LIMITS).status
    ensures fresh(d) && d.cursor == 0
    ensures status == OK || (status == PARTIAL && !strict) ==>
              && d.streams == Streams(Parse(file, true, DEFAULT_LIMITS).st.log)
              && d.packets == Packets(Parse(file, true, DEFAULT_LIMITS).st.log)
  {
    hide Parse, Streams, Packets;
    d := new Demuxer();
    var tracks, log, prefix;
    status, tracks, log, prefix := DecoderObject.ParseTideBytes(file, true, DEFAULT_LIMITS);
    if status == OK || (status == PARTIAL && !strict) { d.Collect(log); }
  }

  lemma {:induction false} StreamCallAt(ss: seq<StreamInfo>, i: nat)
    ensures |StreamCalls(ss)| == |ss|
    ensures i < |ss| ==> StreamCalls(ss)[i] == AddStream(ss[i])
  {
    if ss != [] { StreamCallAt(ss[1..], if i > 0 then i - 1 else 0); }
  }

  lemma {:induction false} PacketCallAt(ks: seq<PacketInfo>, i: nat)
    ensures |PacketCalls(ks)| == |ks|
    ensures i < |ks| ==> PacketCalls(ks)[i] == WritePacket(ks[i])
  {
    if ks != [] { PacketCallAt(ks[1..], if i > 0 then i - 1 else 0); }
  }

  /** The run that remains after the first `i` calls. */
  ghost predicate Remaining(calls: seq<Call>, i: nat, m: MuxState) {
    && i <= |calls|
    && RunOk(Start(MOVIE_BASE), calls, DEFAULT_LIMITS) == RunOk(m, calls[i..], DEFAULT_LIMITS)
    && (RunOk(m, calls[i..], DEFAULT_LIMITS) ==>
          RunNext(Start(MOVIE_BASE), calls, DEFAULT_LIMITS) == RunNext(m, calls[i..], DEFAULT_LIMITS))
  }

  lemma RemainingStep(calls: seq<Call>, i: nat, m: MuxState, c: Call)
    requires Remaining(calls, i, m) && i < |calls| && calls[i] == c
    ensures CallOk(m, c, DEFAULT_LIMITS) ==> Remaining(calls, i + 1, CallNext(m, c, DEFAULT_LIMITS))
    ensures !CallOk(m, c, DEFAULT_LIMITS) ==> !RunOk(Start(MOVIE_BASE), calls, DEFAULT_LIMITS)
  {
    hide CallOk, CallNext, Start;
    assert calls[i..][0] == c && calls[i..][1..] == calls[i + 1..];
  }

  /** Adds all streams, drains all packets, closes. */
  method CopyAll(d: Demuxer, ghost log: seq<Event>) returns (status: Status, out: bytes)
    requires d.streams == Streams(log) && d.packets == Packets(log) && d.cursor == 0
    modifies d
    ensures status == OK <==> Rewrite(log).Some?
    ensures status == OK ==> out == Rewrite(log).value
  {
    hide CallOk, CallNext, Start, RunOk, RunNext, CloseOk, CloseBytes, Streams, Packets, StreamCalls, PacketCalls, IsReduced,
         Remaining;
    ghost var calls := CopyCalls(log);
    ghost var n := |d.streams|;
    out := [];
    MovieBaseIsReduced();
    var m;
    status, m := MuxObject.CreateMuxer(MOVIE_BASE, DEFAULT_LIMITS);
    RemainingAtStart(calls);
    StreamCallAt(d.streams, 0);
    PacketCallAt(d.packets, 0);
    for i := 0 to |d.streams|
      invariant m.Valid() && Remaining(calls, i, m.State())
      modifies m, m.buffer
    {
      StreamCallAt(d.streams, i);
      RemainingStep(calls, i, m.State(), AddStream(d.streams[i]));
      status := m.Write(AddStream(d.streams[i]));
      if status != OK { return; }
    }
    var more := true;
    while more
      invariant m.Valid() && d.packets == Packets(log) && d.cursor <= |d.packets|
      invariant Remaining(calls, n + d.cursor, m.State())
      invariant !more ==> d.cursor == |d.packets|
      decreases more, |d.packets| - d.cursor
    {
      var k;
      status, k := d.Next();
      if status == WOULD_BLOCK {
        more := false;
      } else {
        PacketCallAt(d.packets, d.cursor - 1);
        RemainingStep(calls, n + d.cursor - 1, m.State(), WritePacket(k));
        status := m.Write(WritePacket(k));
        if status != OK { return; }
      }
    }
    RemainingAtEnd(calls, m.State());
    status := m.Close();
    out := m.buffer.data;
  }

  lemma MovieBaseIsReduced()
    ensures IsReduced(MOVIE_BASE)
  {
    assert Gcd(1000, 1) == Gcd(1, 0);
  }

  lemma RemainingAtStart(calls: seq<Call>)
    ensures Remaining(calls, 0, Start(MOVIE_BASE))
  {
    hide Start, RunOk, RunNext;
    assert calls[0..] == calls;
  }

  lemma RemainingAtEnd(calls: seq<Call>, m: MuxState)
    requires Remaining(calls, |calls|, m)
    ensures RunOk(Start(MOVIE_BASE), calls, DEFAULT_LIMITS) && RunNext(Start(MOVIE_BASE), calls, DEFAULT_LIMITS) == m
  {
    hide Start, CallOk;
    assert calls[|calls|..] == [];
  }

  /** `tide remux`: a file that does not parse to its end is refused. */
  method RemuxBytes(file: bytes) returns (status: Status, out: bytes)
    requires |file| <= U64_MAX
    ensures status == OK <==> RemuxFile(file).Some?
    ensures status == OK ==> out == RemuxFile(file).value
  {
    hide Parse, Rewrite, Streams, Packets;
    var d;
    status, d := OpenDemux(file, false);
    out := [];
    if status != OK { return; }
    status, out := CopyAll(d, Parse(file, true, DEFAULT_LIMITS).st.log);
  }

  /** `tide_repair_scan` and `tide_repair_write`. */
  method RepairBytes(data: bytes) returns (status: Status, out: bytes)
    requires |data| <= U64_MAX
    ensures status == OK <==> RepairFile(data).Some?
    ensures status == OK ==> out == RepairFile(data).value
  {
    hide Parse, Rewrite, Streams, Packets;
    out := [];
    var tracks, log, prefix;
    status, tracks, log, prefix := DecoderObject.ParseTideBytes(data, true, DEFAULT_LIMITS);
    if prefix == 0 { return INVALID_ARGUMENT, []; }
    Recovery.RepairSound(data, DEFAULT_LIMITS);
    var d;
    status, d := OpenDemux(data[..prefix], false);
    status, out := CopyAll(d, Parse(data[..prefix], true, DEFAULT_LIMITS).st.log);
  }
}
