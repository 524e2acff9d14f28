/** Demux followed by mux: the remux loop of `src/cli/main.c` and the repair loop of `src/repair/scanner.c`. */
module Remux {
  import opened Base
  import opened Rationals
  import opened Format
  import opened Parser
  import opened Catalog
  import opened Mux
  import opened Recovery

  const MOVIE_BASE := Rational(1, 1000)

  function StreamCalls(ss: seq<StreamInfo>): seq<Call> {
    if ss == [] then [] else [AddStream(ss[0])] + StreamCalls(ss[1..])
  }

  function PacketCalls(ks: seq<PacketInfo>): seq<Call> {
    if ks == [] then [] else [WritePacket(ks[0])] + PacketCalls(ks[1..])
  }

  /** All streams, then all packets. */
  function CopyCalls(log: seq<Event>): seq<Call> { StreamCalls(Streams(log)) + PacketCalls(Packets(log)) }

  /** The file written from what a parse reported, if every mux call returns OK. */
  function Rewrite(log: seq<Event>): Option<bytes> {
    var m := Start(MOVIE_BASE);
    if RunOk(m, CopyCalls(log), DEFAULT_LIMITS) && CloseOk(RunNext(m, CopyCalls(log), DEFAULT_LIMITS), DEFAULT_LIMITS)
    then Some(CloseBytes(RunNext(m, CopyCalls(log), DEFAULT_LIMITS), DEFAULT_LIMITS))
    else None
  }

  function RemuxFile(file: bytes): Option<bytes> {
    var o := Parse(file, true, DEFAULT_LIMITS);
    if o.status == OK then Rewrite(o.st.log) else None
  }

  /** Scan, keep the valid prefix, demux it tolerating a partial tail, and mux what came out. */
  function RepairFile(data: bytes): Option<bytes> {
    var v := Parse(data, true, DEFAULT_LIMITS).st.prefix;
    if v == 0 || v > |data| then None
    else
      var o := Parse(data[..v], true, DEFAULT_LIMITS);
      if o.status == OK || o.status == PARTIAL then Rewrite(o.st.log) else None
  }

  // ----- the calls carry exactly the streams and packets

  lemma StreamCallFirst(s: StreamInfo, rest: seq<Call>)
    ensures CallStreams([AddStream(s)] + rest) == [s] + CallStreams(rest)
    ensures CallPackets([AddStream(s)] + rest) == CallPackets(rest)
  {
    assert ([AddStream(s)] + rest)[1..] == rest;
  }

  lemma {:induction false} StreamCallsCarry(ss: seq<StreamInfo>, more: seq<Call>)
    ensures CallStreams(StreamCalls(ss) + more) == ss + CallStreams(more)
    ensures CallPackets(StreamCalls(ss) + more) == CallPackets(more)
  {
    hide *;
    StreamCallsUnfold(ss, more);
    if ss != [] {
      StreamCallFirst(ss[0], StreamCalls(ss[1..]) + more);
      StreamCallsCarry(ss[1..], more);
      SeqCons(ss, CallStreams(more));
    } else {
      assert ss + CallStreams(more) == CallStreams(more);
    }
  }

  lemma StreamCallsUnfold(ss: seq<StreamInfo>, more: seq<Call>)
    ensures StreamCalls(ss) + more
         == if ss == [] then more else [AddStream(ss[0])] + (StreamCalls(ss[1..]) + more)
  {}

  lemma SeqCons<T>(s: seq<T>, t: seq<T>)
    requires s != []
    ensures s + t == [s[0]] + (s[1..] + t)
  {}

  lemma {:induction false} PacketCallsCarry(ks: seq<PacketInfo>)
    ensures CallStreams(PacketCalls(ks)) == [] && CallPackets(PacketCalls(ks)) == ks
  {
    if ks != [] {
      assert PacketCalls(ks)[1..] == PacketCalls(ks[1..]);
      PacketCallsCarry(ks[1..]);
    }
  }

  // ----- the catalog invariant puts the calls in order

  lemma {:induction false} PacketsInOrder(ks: seq<PacketInfo>, tracks: seq<Track>, lim: Limits)
    requires forall i :: 0 <= i < |ks| ==> HasTrack(tracks, ks[i].trackId, ks[i].generation)
    ensures InOrder(PacketCalls(ks), tracks, lim)
  {
    hide HasTrack;
    if ks != [] {
      assert PacketCalls(ks)[1..] == PacketCalls(ks[1..]);
      PacketsInOrder(ks[1..], tracks, lim);
    }
  }

  function Snapshots(ss: seq<StreamInfo>): (ts: seq<Track>)
    ensures |ts| == |ss| && forall i :: 0 <= i < |ss| ==> ts[i] == Snapshot(ss[i])
  {
    if ss == [] then [] else Snapshots(ss[..|ss| - 1]) + [Snapshot(ss[|ss| - 1])]
  }

  lemma {:induction false} StreamsInOrder(ss: seq<StreamInfo>, n: nat, ks: seq<PacketInfo>, lim: Limits)
    requires n <= |ss| <= lim.maxTracks && DistinctKeys(ss)
    requires forall i :: 0 <= i < |ks| ==> Declared(ks[i], ss)
    ensures InOrder(StreamCalls(ss[n..]) + PacketCalls(ks), Snapshots(ss[..n]), lim)
    decreases |ss| - n
  {
    var tracks, calls := Snapshots(ss[..n]), StreamCalls(ss[n..]) + PacketCalls(ks);
    if n == |ss| {
      assert ss[..n] == ss && calls == PacketCalls(ks);
      forall i | 0 <= i < |ks|
        ensures HasTrack(tracks, ks[i].trackId, ks[i].generation)
      {
        var j :| 0 <= j < |ss| && ss[j].trackId == ks[i].trackId && ss[j].generation == ks[i].generation;
        assert tracks[j] == Snapshot(ss[j]);
      }
      PacketsInOrder(ks, tracks, lim);
    } else {
      var s := ss[n];
      assert ss[n..][1..] == ss[n + 1..] && calls[1..] == StreamCalls(ss[n + 1..]) + PacketCalls(ks);
      assert ss[..n + 1][..n] == ss[..n];
      StreamsInOrder(ss, n + 1, ks, lim);
      forall i | 0 <= i < n
        ensures tracks[i].trackId != s.trackId || tracks[i].generation != s.generation
      {
        assert tracks[i] == Snapshot(ss[i]) && !SameKey(ss[i], ss[n]);
      }
    }
  }

  lemma {:induction false} StreamsGrow(log: seq<Event>, i: nat)
    requires i <= |log|
    ensures Streams(log[..i]) <= Streams(log)
    ensures Packets(log[..i]) <= Packets(log)
    decreases |log|
  {
    if i == |log| {
      assert log[..i] == log;
    } else {
      assert log[..|log| - 1][..i] == log[..i];
      StreamsGrow(log[..|log| - 1], i);
    }
  }

  lemma {:induction false} PacketsDeclared(data: bytes, log: seq<Event>, n: nat, lim: Limits)
    requires n <= |log| && forall i :: 0 <= i < |log| ==> EventOk(data, log, i, lim)
    ensures forall i :: 0 <= i < |Packets(log[..n])| ==> Declared(Packets(log[..n])[i], Streams(log))
    decreases n
  {
    hide FromVerifiedRecord, FromVerifiedDescriptor, Verified;
    if n > 0 {
      assert log[..n][..n - 1] == log[..n - 1];
      PacketsDeclared(data, log, n - 1, lim);
      assert EventOk(data, log, n - 1, lim);
      if log[n - 1].PacketSeen? {
        StreamsGrow(log, n - 1);
        DeclaredGrows(log[n - 1].packet, Streams(log[..n - 1]), Streams(log));
      }
    }
  }

  lemma DeclaredGrows(k: PacketInfo, ss: seq<StreamInfo>, ts: seq<StreamInfo>)
    requires Declared(k, ss) && ss <= ts
    ensures Declared(k, ts)
  {
    var i :| 0 <= i < |ss| && ss[i].trackId == k.trackId && ss[i].generation == k.generation;
    assert ts[i] == ss[i];
  }

  lemma CopyInOrder(data: bytes, st: State)
    requires CatalogOk(data, st, DEFAULT_LIMITS)
    ensures InOrder(CopyCalls(st.log), [], DEFAULT_LIMITS)
    ensures CallStreams(CopyCalls(st.log)) == Streams(st.log) && CallPackets(CopyCalls(st.log)) == Packets(st.log)
  {
    hide EventOk, Streams, Packets, DistinctKeys, Declared, InOrder, StreamCalls, PacketCalls;
    var log := st.log;
    assert log[..|log|] == log && Streams(log)[0..] == Streams(log) && Streams(log)[..0] == [];
    PacketsDeclared(data, log, |log|, DEFAULT_LIMITS);
    StreamsInOrder(Streams(log), 0, Packets(log), DEFAULT_LIMITS);
    StreamCallsCarry(Streams(log), PacketCalls(Packets(log)));
    PacketCallsCarry(Packets(log));
  }

  /** Whatever parsed, rewriting it gives a file with the same streams and packets that rewrites to itself. */
  lemma RewriteIsCanonical(data: bytes, st: State)
    requires CatalogOk(data, st, DEFAULT_LIMITS) && Rewrite(st.log).Some?
    ensures var out := Rewrite(st.log).value;
            var o := Parse(out, true, DEFAULT_LIMITS);
            && o.status == OK && o.st.prefix == |out|
            && Streams(o.st.log) == Streams(st.log) && Packets(o.st.log) == Packets(st.log)
            && RemuxFile(out) == Some(out)
  {
    hide CatalogOk, Parse, RunOk, RunNext, Start, CloseOk, CloseBytes, InOrder, Streams, Packets, CallStreams, CallPackets;
    assert IsReduced(MOVIE_BASE) by { assert Gcd(1000, 1) == Gcd(1, 0); }
    CopyInOrder(data, st);
    MuxDecodes(MOVIE_BASE, CopyCalls(st.log));
  }

  /**
    Remux is a canonical form: remuxing an accepted file keeps its stream list and packet list, and remuxing
    the result gives identical bytes.
   */
  lemma RemuxIsCanonical(file: bytes)
    requires RemuxFile(file).Some?
    ensures var out := RemuxFile(file).value;
            var o := Parse(out, true, DEFAULT_LIMITS);
            && o.status == OK
            && Streams(o.st.log) == Streams(Parse(file, true, DEFAULT_LIMITS).st.log)
            && Packets(o.st.log) == Packets(Parse(file, true, DEFAULT_LIMITS).st.log)
            && RemuxFile(out) == Some(out)
  {
    hide Parse, CatalogOk, Rewrite, Streams, Packets;
    CatalogSafety(file, true, DEFAULT_LIMITS);
    RewriteIsCanonical(file, Parse(file, true, DEFAULT_LIMITS).st);
  }

  /**
    Repair: whatever the damage, the prefix a scan reports demuxes; the repaired file is accepted, carries a
    prefix of the streams and packets the scan saw (all of them when the scan was OK or PARTIAL), and is
    already in canonical form.
   */
  lemma RepairIsValid(data: bytes)
    requires Parse(data, true, DEFAULT_LIMITS).st.prefix > 0
    ensures var o := Parse(data, true, DEFAULT_LIMITS);
            && o.st.prefix <= |data|
            && var re := Parse(data[..o.st.prefix], true, DEFAULT_LIMITS);
            && (re.status == OK || re.status == PARTIAL)
            && RepairFile(data) == Rewrite(re.st.log)
            && (RepairFile(data).Some? ==>
                  var out := RepairFile(data).value;
                  var fin := Parse(out, true, DEFAULT_LIMITS);
                  && fin.status == OK && fin.st.prefix == |out|
                  && Streams(fin.st.log) <= Streams(o.st.log) && Packets(fin.st.log) <= Packets(o.st.log)
                  && (o.status == OK || o.status == PARTIAL ==>
                        Streams(fin.st.log) == Streams(o.st.log) && Packets(fin.st.log) == Packets(o.st.log))
                  && RemuxFile(out) == Some(out))
  {
    hide Parse, CatalogOk, Rewrite, Streams, Packets;
    RepairSound(data, DEFAULT_LIMITS);
    var o := Parse(data, true, DEFAULT_LIMITS);
    var re := Parse(data[..o.st.prefix], true, DEFAULT_LIMITS);
    CatalogSafety(data[..o.st.prefix], true, DEFAULT_LIMITS);
    assert o.st.log[..|re.st.log|] == re.st.log;
    StreamsGrow(o.st.log, |re.st.log|);
    if RepairFile(data).Some? {
      RewriteIsCanonical(data[..o.st.prefix], re.st);
    }
  }
}
