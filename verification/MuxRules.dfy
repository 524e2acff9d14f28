/** When muxing succeeds, and what it writes, byte by byte and record by record. */
module MuxRules {
  import opened Base
  import opened Codec
  import opened Rationals
  import opened Format
  import opened Parser
  import opened Writer
  import opened Catalog
  import opened Mux
  import opened Remux
  import opened RecordRules
  import RemuxObject

  lemma DefaultsSpelled()
    ensures DEFAULT_LIMITS.maxRecordSize == 64 * 1024 * 1024 && DEFAULT_LIMITS.maxPayloadSize == 64 * 1024 * 1024
    ensures DEFAULT_LIMITS.maxSingleAlloc == 32 * 1024 * 1024 && DEFAULT_LIMITS.maxAggregateAlloc == 128 * 1024 * 1024
    ensures DEFAULT_LIMITS.maxDepth == 16 && DEFAULT_LIMITS.maxTracks == 64
    ensures DEFAULT_LIMITS.maxEditEntries == 256 && DEFAULT_LIMITS.maxPacketTableEntries == 1000000
  {}

  // ----- one call

  /** The arguments a call refuses: a base that is not reduced, a negative duration, and nothing else. */
  predicate Refusable(c: Call) {
    match c
    case AddStream(s) => !IsReduced(s.timeBase)
    case WritePacket(k) => k.duration < 0
  }

  /** The variable part of a call's payload. */
  function Data(c: Call): bytes { if c.AddStream? then c.stream.config else c.packet.payload }

  lemma PayloadSize(c: Call)
    ensures |CallPayload(c)| == (if c.AddStream? then 24 else 44) + |Uleb(|Data(c)|)| + |Data(c)|
    ensures |CallPayload(c)| <= |Data(c)| + 54
  {
    hide LE, Uleb, ReadVarint;
    VarintBijection(|Data(c)|, [], []);
  }

  predicate Within(size: nat, limit: nat) { size <= 0xFFFF_FFFF_FFFF_FFFF && (limit == 0 || size <= limit) }

  /** A call succeeds if and only if its arguments are sound, its payload fits alone and its record fits the file. */
  lemma CallExactly(m: MuxState, c: Call, lim: Limits)
    ensures CallOk(m, c, lim)
       <==> && !Refusable(c)
            && Within(|CallPayload(c)|, lim.maxSingleAlloc)
            && Within(|m.buffer| + |CallRecord(m, c)|, lim.maxAggregateAlloc)
  {
    hide CallPayload, CallRecord, IsReduced;
  }

  /** A close succeeds if and only if the footer fits alone and at the end of the file. */
  lemma CloseExactly(m: MuxState, lim: Limits)
    ensures CloseOk(m, lim)
       <==> && Within(|Record(0x007F, 0, 3, m.sequence, seq(49, _ => 0))|, lim.maxSingleAlloc)
            && Within(|m.buffer| + |Record(0x007F, 0, 3, m.sequence, seq(49, _ => 0))|, lim.maxAggregateAlloc)
  {
    hide Record;
    assert Zeros(49) == seq(49, _ => 0);
  }

  /** The bytes a call appends. */
  lemma CallSpelled(m: MuxState, c: Call, lim: Limits)
    requires CallOk(m, c, lim)
    ensures var m' := CallNext(m, c, lim);
            && m'.sequence == (m.sequence + 1) % 0x1_0000_0000_0000_0000
            && (c.AddStream? ==> m'.buffer == m.buffer + Record(0x0010, 0, 3, m.sequence, StreamBytes(c.stream, [0, 0])))
            && (c.WritePacket? ==> m'.buffer == m.buffer + Record(0x0020, 0, 3, m.sequence, PacketBytes(c.packet)))
  {
    hide LE, Uleb, Record, IsReduced;
    ZeroPad();
    if c.WritePacket? { PacketBytesAre(c.packet); }
  }

  lemma ZeroPad()
    ensures LE(2, 0) == [0, 0]
  {
    assert LE(1, 0) == [0];
  }

  lemma StartSpelled(base: Rational)
    ensures Start(base).sequence == 0
    ensures Start(base).buffer == FileHeader(base, [0x54, 0x49, 0x44, 0x45, 0x2d, 0x30, 0x30, 0x31,
                                                    0x2d, 0x6d, 0x75, 0x78, 0x2d, 0x30, 0x31, 0x00])
  {
    hide FileHeader;
  }

  /** The footer: the length of the whole file, no directory, checkpoint zero, and the digest of all before it. */
  lemma CloseSpelled(m: MuxState, lim: Limits)
    requires CloseOk(m, lim)
    ensures var file := CloseBytes(m, lim);
            && |file| <= U64_MAX
            && file == m.buffer + Record(0x007F, 0, 3, m.sequence,
                                         LE(8, |file|) + LE(8, 0) + [0] + EightWords(m.buffer))
  {
    hide LE, Record, Digest, EightWords, Zeros;
    DigestIs(m.buffer);
    DigestLength(m.buffer);
    FooterFits(m, |m.buffer| + FooterSize(m.sequence), Digest(m.buffer));
  }

  // ----- whole runs succeed while there is room

  predicate AllSound(calls: seq<Call>) {
    forall i :: 0 <= i < |calls| ==> !Refusable(calls[i]) && |Data(calls[i])| <= 0x1FF_FF00
  }

  /** An upper bound on what a run appends. */
  function Cost(calls: seq<Call>): nat {
    if calls == [] then 0 else |Data(calls[0])| + 128 + Cost(calls[1..])
  }

  lemma OneFits(m: MuxState, c: Call)
    requires !Refusable(c) && |Data(c)| <= 0x1FF_FF00 && |m.buffer| + |Data(c)| + 128 <= 0x800_0000
    ensures CallOk(m, c, DEFAULT_LIMITS)
    ensures |CallNext(m, c, DEFAULT_LIMITS).buffer| <= |m.buffer| + |Data(c)| + 128
  {
    hide CallPayload, Record, IsReduced;
    PayloadSize(c);
    RecordSizeBound(CallType(c), m.sequence, CallPayload(c));
  }

  /** Every run of sound calls with room for it succeeds, packets with data included. */
  lemma {:induction false} RunFits(m: MuxState, calls: seq<Call>)
    requires AllSound(calls) && |m.buffer| + Cost(calls) <= 0x800_0000
    ensures RunOk(m, calls, DEFAULT_LIMITS)
    ensures |RunNext(m, calls, DEFAULT_LIMITS).buffer| <= |m.buffer| + Cost(calls)
    decreases |calls|
  {
    hide CallOk, CallNext, Refusable, Data;
    if calls != [] {
      OneFits(m, calls[0]);
      RunFits(CallNext(m, calls[0], DEFAULT_LIMITS), calls[1..]);
    }
  }

  /**
    Muxing succeeds: sound calls in order whose data fits the default limits are all accepted, the close is too,
    and the file reads back with the same streams and packets.
   */
  lemma MuxSucceeds(base: Rational, calls: seq<Call>)
    requires IsReduced(base) && AllSound(calls) && Cost(calls) + 256 <= 0x800_0000
    ensures RunOk(Start(base), calls, DEFAULT_LIMITS)
    ensures CloseOk(RunNext(Start(base), calls, DEFAULT_LIMITS), DEFAULT_LIMITS)
    ensures InOrder(calls, [], DEFAULT_LIMITS) ==>
              var o := Parse(CloseBytes(RunNext(Start(base), calls, DEFAULT_LIMITS), DEFAULT_LIMITS), true, DEFAULT_LIMITS);
              o.status == OK && Streams(o.st.log) == CallStreams(calls) && Packets(o.st.log) == CallPackets(calls)
  {
    hide RunOk, RunNext, Start, InOrder, Parse, CloseBytes, Record, Zeros, Streams, Packets, IsReduced, AllSound;
    StartIsShort(base);
    RunFits(Start(base), calls);
    var m := RunNext(Start(base), calls, DEFAULT_LIMITS);
    RecordSizeBound(FOOTER, m.sequence, Zeros(49));
    if InOrder(calls, [], DEFAULT_LIMITS) { MuxDecodes(base, calls); }
  }

  /** A stream and a packet that carries data: every call returns OK, and the packet is read back. */
  lemma PacketIsCarried(s: StreamInfo, k: PacketInfo)
    requires IsReduced(s.timeBase) && |s.config| <= 1000 && k.duration >= 0 && |k.payload| <= 1000
    requires k.trackId == s.trackId && k.generation == s.generation
    ensures var calls := [AddStream(s), WritePacket(k)];
            && RunOk(Start(MOVIE_BASE), calls, DEFAULT_LIMITS)
            && CloseOk(RunNext(Start(MOVIE_BASE), calls, DEFAULT_LIMITS), DEFAULT_LIMITS)
            && var file := CloseBytes(RunNext(Start(MOVIE_BASE), calls, DEFAULT_LIMITS), DEFAULT_LIMITS);
            && Parse(file, true, DEFAULT_LIMITS).status == OK
            && Packets(Parse(file, true, DEFAULT_LIMITS).st.log) == [k]
            && RemuxFile(file) == Some(file)
  {
    hide RunOk, RunNext, Start, InOrder, Parse, CloseOk, CloseBytes, Streams, Packets, IsReduced;
    var calls := [AddStream(s), WritePacket(k)];
    RemuxObject.MovieBaseIsReduced();
    TwoCalls(s, k);
    MuxSucceeds(MOVIE_BASE, calls);
    var file := CloseBytes(RunNext(Start(MOVIE_BASE), calls, DEFAULT_LIMITS), DEFAULT_LIMITS);
    var log := Parse(file, true, DEFAULT_LIMITS).st.log;
    assert CopyCalls(log) == calls;
  }

  lemma TwoCalls(s: StreamInfo, k: PacketInfo)
    requires k.trackId == s.trackId && k.generation == s.generation && |s.config| <= 1000 && |k.payload| <= 1000
    requires IsReduced(s.timeBase) && k.duration >= 0
    ensures var calls := [AddStream(s), WritePacket(k)];
            && InOrder(calls, [], DEFAULT_LIMITS) && AllSound(calls) && Cost(calls) <= 3000
            && CallStreams(calls) == [s] && CallPackets(calls) == [k]
            && StreamCalls([s]) + PacketCalls([k]) == calls
  {
    hide IsReduced;
    var calls := [AddStream(s), WritePacket(k)];
    assert calls[1..] == [WritePacket(k)] && calls[1..][1..] == [];
    var t := [Snapshot(s)];
    assert t[0].trackId == k.trackId && t[0].generation == k.generation && [] + t == t;
    assert HasTrack(t, k.trackId, k.generation);
    assert InOrder([], t, DEFAULT_LIMITS) && InOrder([WritePacket(k)], t, DEFAULT_LIMITS);
    assert [WritePacket(k)][1..] == [];
    assert Cost([WritePacket(k)]) == |k.payload| + 128;
    assert CallStreams([WritePacket(k)]) == [] && CallPackets([WritePacket(k)]) == [k];
    assert StreamCalls([s]) == [AddStream(s)] && PacketCalls([k]) == [WritePacket(k)];
  }

  // ----- remux

  /** The calls of a remux: every stream first, in order, then every packet, in order. */
  lemma CopySpelled(log: seq<Event>, i: nat)
    ensures |CopyCalls(log)| == |Streams(log)| + |Packets(log)|
    ensures i < |CopyCalls(log)| ==>
              CopyCalls(log)[i] == if i < |Streams(log)| then AddStream(Streams(log)[i])
                                   else WritePacket(Packets(log)[i - |Streams(log)|])
  {
    hide Streams, Packets, StreamCalls, PacketCalls;
    RemuxObject.StreamCallAt(Streams(log), i);
    RemuxObject.PacketCallAt(Packets(log), if i < |Streams(log)| then 0 else i - |Streams(log)|);
  }

  /** A file that does not parse to its end is not remuxed, and one without a valid header is not repaired. */
  lemma RemuxNeedsOk(file: bytes)
    ensures Parse(file, true, DEFAULT_LIMITS).status != OK ==> RemuxFile(file) == None
    ensures Parse(file, true, DEFAULT_LIMITS).st.prefix == 0 ==> RepairFile(file) == None
  {
    hide Parse, Rewrite;
  }

  /** The rewritten file has the movie base 1/1000. */
  lemma RewriteSpelled(log: seq<Event>)
    requires Rewrite(log).Some?
    ensures Rewrite(log).value
         == CloseBytes(RunNext(Start(Rational(1, 1000)), CopyCalls(log), DEFAULT_LIMITS), DEFAULT_LIMITS)
  {
    hide RunOk, RunNext, Start, CloseOk, CloseBytes, CopyCalls;
  }

  /**
    Remuxing succeeds: an accepted file whose streams and packets fit the default limits is always remuxed, and
    the result reads back with the same streams and packets.
   */
  lemma RemuxSucceeds(file: bytes)
    requires Parse(file, true, DEFAULT_LIMITS).status == OK
    requires var log := Parse(file, true, DEFAULT_LIMITS).st.log;
             && (forall i :: 0 <= i < |Streams(log)| ==> |Streams(log)[i].config| <= 0x1FF_FF00)
             && (forall i :: 0 <= i < |Packets(log)| ==> |Packets(log)[i].payload| <= 0x1FF_FF00)
             && Cost(CopyCalls(log)) + 256 <= 0x800_0000
    ensures RemuxFile(file).Some?
    ensures var o := Parse(RemuxFile(file).value, true, DEFAULT_LIMITS);
            && Streams(o.st.log) == Streams(Parse(file, true, DEFAULT_LIMITS).st.log)
            && Packets(o.st.log) == Packets(Parse(file, true, DEFAULT_LIMITS).st.log)
  {
    hide Parse, CatalogOk, RunOk, RunNext, Start, CloseOk, CloseBytes, CopyCalls, Streams, Packets, IsReduced, Cost, AllSound,
         InOrder;
    var st := Parse(file, true, DEFAULT_LIMITS).st;
    CatalogSafety(file, true, DEFAULT_LIMITS);
    CopyIsSound(file, st);
    RemuxObject.MovieBaseIsReduced();
    MuxSucceeds(MOVIE_BASE, CopyCalls(st.log));
    RemuxIsCanonical(file);
  }

  lemma CopyIsSound(data: bytes, st: State)
    requires CatalogOk(data, st, DEFAULT_LIMITS)
    requires forall i :: 0 <= i < |Streams(st.log)| ==> |Streams(st.log)[i].config| <= 0x1FF_FF00
    requires forall i :: 0 <= i < |Packets(st.log)| ==> |Packets(st.log)[i].payload| <= 0x1FF_FF00
    ensures AllSound(CopyCalls(st.log))
  {
    hide Streams, Packets, CopyCalls, IsReduced, EventOk, DistinctKeys;
    var ss, ks := Streams(st.log), Packets(st.log);
    forall i | 0 <= i < |CopyCalls(st.log)|
      ensures !Refusable(CopyCalls(st.log)[i]) && |Data(CopyCalls(st.log)[i])| <= 0x1FF_FF00
    {
      CopySpelled(st.log, i);
      if i < |ss| { assert st.tracks[i] == Snapshot(ss[i]); } else { DurationsAreSound(data, st.log, |st.log|, DEFAULT_LIMITS); }
    }
  }

  lemma {:induction false} DurationsAreSound(data: bytes, log: seq<Event>, n: nat, lim: Limits)
    requires n <= |log| && forall i :: 0 <= i < |log| ==> EventOk(data, log, i, lim)
    ensures forall i :: 0 <= i < |Packets(log[..n])| ==> Packets(log[..n])[i].duration >= 0
    ensures log[..|log|] == log
    decreases n
  {
    hide Verified, Declared, ParsePacket, IsTailOf, FromVerifiedDescriptor;
    if n > 0 {
      assert log[..n][..n - 1] == log[..n - 1];
      DurationsAreSound(data, log, n - 1, lim);
      assert EventOk(data, log, n - 1, lim);
    }
  }

  // ----- record by record

  /** The `k`-th call of a run gives the `k`-th record, numbered on from where the run started, then its event. */
  lemma {:induction false} RunLayout(m: MuxState, calls: seq<Call>, lim: Limits, st: State, k: nat)
    requires RunOk(m, calls, lim) && k < |calls|
    ensures var log := RunSeen(m, calls, lim, st).log;
            && |log| == |st.log| + 2 * |calls|
            && var e := log[|st.log| + 2 * k];
            && e.RecordSeen? && e.typ == (if calls[k].AddStream? then 0x0010 else 0x0020) && e.flags == 0
            && e.sequence == (m.sequence + k) % 0x1_0000_0000_0000_0000 && e.depth == 0 && !e.skippable
            && log[|st.log| + 2 * k + 1] == (if calls[k].AddStream? then StreamSeen(calls[k].stream)
                                            else PacketSeen(calls[k].packet))
    decreases |calls|
  {
    hide CallRecord, CallPayload, CallOk, CallSeen;
    var m', st' := CallNext(m, calls[0], lim), CallSeen(m, calls[0], st);
    RunLogGrows(m', calls[1..], lim, st');
    CallLayout(m, calls[0], st);
    assert RunSeen(m, calls, lim, st) == RunSeen(m', calls[1..], lim, st');
    if k > 0 {
      RunLayout(m', calls[1..], lim, st', k - 1);
      WrapAdds(m.sequence, k);
    }
  }

  lemma CallLayout(m: MuxState, c: Call, st: State)
    ensures var log := CallSeen(m, c, st).log;
            && |log| == |st.log| + 2 && st.log <= log
            && var e := log[|st.log|];
            && e.RecordSeen? && e.typ == (if c.AddStream? then 0x0010 else 0x0020) && e.flags == 0
            && e.sequence == m.sequence && e.depth == 0 && !e.skippable
            && log[|st.log| + 1] == (if c.AddStream? then StreamSeen(c.stream) else PacketSeen(c.packet))
  {
    hide CallRecord, CallPayload, AlignUp, HeaderSize;
  }

  lemma WrapAdds(a: u64, k: nat)
    requires k > 0
    ensures ((a + 1) % 0x1_0000_0000_0000_0000 + (k - 1)) % 0x1_0000_0000_0000_0000 == (a + k) % 0x1_0000_0000_0000_0000
    ensures NextSequence(a) == (a + 1) % 0x1_0000_0000_0000_0000
  {}

  lemma {:induction false} RunLogGrows(m: MuxState, calls: seq<Call>, lim: Limits, st: State)
    requires RunOk(m, calls, lim)
    ensures st.log <= RunSeen(m, calls, lim, st).log && |RunSeen(m, calls, lim, st).log| == |st.log| + 2 * |calls|
    decreases |calls|
  {
    hide CallRecord, CallPayload, CallOk;
    if calls != [] { RunLogGrows(CallNext(m, calls[0], lim), calls[1..], lim, CallSeen(m, calls[0], st)); }
  }

  /** Record `k` of a muxed file carries sequence number `k`; the footer comes last and carries the next one. */
  lemma RecordsAreNumbered(base: Rational, calls: seq<Call>, k: nat)
    requires IsReduced(base) && RunOk(Start(base), calls, DEFAULT_LIMITS) && InOrder(calls, [], DEFAULT_LIMITS)
    requires CloseOk(RunNext(Start(base), calls, DEFAULT_LIMITS), DEFAULT_LIMITS) && k <= |calls|
    ensures var log := Parse(CloseBytes(RunNext(Start(base), calls, DEFAULT_LIMITS), DEFAULT_LIMITS), true, DEFAULT_LIMITS).st.log;
            && |log| == 2 * |calls| + 1
            && var e := log[2 * k];
            && e.RecordSeen? && e.sequence == k % 0x1_0000_0000_0000_0000 && e.flags == 0 && e.depth == 0
            && e.typ == (if k == |calls| then 0x007F else if calls[k].AddStream? then 0x0010 else 0x0020)
            && (k < |calls| ==> log[2 * k + 1] == if calls[k].AddStream? then StreamSeen(calls[k].stream)
                                                  else PacketSeen(calls[k].packet))
  {
    hide ParseRecords, ValidateHeader, RunOk, RunNext, RunSeen, CloseBytes, CloseOk, InOrder, IsReduced, FileHeader;
    var m, st := Start(base), Advance(INITIAL, HEADER_SIZE);
    StartParses(base);
    RunParses(m, calls, st);
    RunLogGrows(m, calls, DEFAULT_LIMITS, st);
    if k < |calls| { RunLayout(m, calls, DEFAULT_LIMITS, st, k); }
    var m', st' := RunNext(m, calls, DEFAULT_LIMITS), RunSeen(m, calls, DEFAULT_LIMITS, st);
    CloseParses(m', st');
    RunCounts(m, calls, DEFAULT_LIMITS);
  }

  lemma {:induction false} RunCounts(m: MuxState, calls: seq<Call>, lim: Limits)
    requires RunOk(m, calls, lim)
    ensures RunNext(m, calls, lim).sequence == (m.sequence + |calls|) % 0x1_0000_0000_0000_0000
    decreases |calls|
  {
    hide CallRecord, CallPayload, CallOk;
    if calls != [] {
      RunCounts(CallNext(m, calls[0], lim), calls[1..], lim);
      WrapAdds(m.sequence, |calls|);
    }
  }
}
