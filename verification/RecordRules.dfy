/**
  The rules of the format by type code and payload bytes, with no reference to the validators: which verdict a
  complete record gets, inside a parse and at the end of a file.
 */
module RecordRules {
  import opened Base
  import opened Codec
  import opened Rationals
  import opened Format
  import opened Tables
  import opened TableSpecs
  import opened Parser
  import opened Prefixes
  import opened Writer
  import opened Mux
  import Crc32c

  // ----- payload codecs, both directions

  /** A stream descriptor; the two bytes after the media kind are not read. */
  function StreamBytes(s: StreamInfo, pad: bytes): bytes {
    LE(4, s.trackId) + LE(4, s.generation) + LE(2, s.mediaKind) + pad + LE(4, s.codecTag)
    + LE(4, s.timeBase.num) + LE(4, s.timeBase.den) + Uleb(|s.config|) + s.config
  }

  function PacketBytes(k: PacketInfo): bytes {
    LE(4, k.trackId) + LE(4, k.generation) + LE(8, k.packetSeq) + LE(8, k.dts % 0x1_0000_0000_0000_0000)
    + LE(8, k.pts % 0x1_0000_0000_0000_0000) + LE(8, k.duration % 0x1_0000_0000_0000_0000) + LE(4, k.flags)
    + Uleb(|k.payload|) + k.payload
  }

  lemma StreamReads(s: StreamInfo, pad: bytes)
    requires |pad| == 2
    ensures ParseStream(StreamBytes(s, pad)) == Some(s)
  {
    hide LE, UnLE, Uleb, ReadVarint;
    var p := StreamBytes(s, pad);
    var n := |Uleb(|s.config|)|;
    VarintBijection(|s.config|, s.config, []);
    Widths();
    LERoundTrip(4, s.trackId);
    LERoundTrip(4, s.generation);
    LERoundTrip(2, s.mediaKind);
    LERoundTrip(4, s.codecTag);
    LERoundTrip(4, s.timeBase.num);
    LERoundTrip(4, s.timeBase.den);
    assert p[0..4] == LE(4, s.trackId) && p[4..8] == LE(4, s.generation) && p[8..10] == LE(2, s.mediaKind);
    assert p[12..16] == LE(4, s.codecTag) && p[16..20] == LE(4, s.timeBase.num) && p[20..24] == LE(4, s.timeBase.den);
    assert p[24..] == Uleb(|s.config|) + s.config && p[24 + n..] == s.config;
  }

  lemma FieldIs(p: bytes, at: nat, n: nat)
    requires at + n <= |p|
    ensures LE(n, Field(p, at, n)) == p[at..at + n]
  {
    LECanonical(p[at..at + n]);
  }

  lemma Join(p: bytes, b: nat, c: nat)
    requires b <= c <= |p|
    ensures p[0..b] + p[b..c] == p[0..c] && p[b..|p|] == p[b..] && p[0..|p|] == p
  {}

  /** A descriptor decodes to `s` if and only if it is the encoding of `s`, up to the two bytes not read. */
  lemma StreamExactly(p: bytes, s: StreamInfo)
    ensures ParseStream(p) == Some(s) <==> |p| >= 24 && p == StreamBytes(s, p[10..12])
  {
    if ParseStream(p) == Some(s) {
      StreamIsEncoded(p, s);
    }
    if |p| >= 24 && p == StreamBytes(s, p[10..12]) {
      StreamReads(s, p[10..12]);
    }
  }

  lemma StreamIsEncoded(p: bytes, s: StreamInfo)
    requires ParseStream(p) == Some(s)
    ensures |p| >= 24 && p == StreamBytes(s, p[10..12])
  {
    hide LE, UnLE, Uleb, ReadVarint;
    var n := ReadVarint(p[24..], 0).value;
    VarintBijection(0, [], p[24..]);
    FieldIs(p, 0, 4);
    FieldIs(p, 4, 4);
    FieldIs(p, 8, 2);
    FieldIs(p, 12, 4);
    FieldIs(p, 16, 4);
    FieldIs(p, 20, 4);
    var e := 24 + n.size;
    assert p[24..e] == Uleb(n.value);
    Join(p, 4, 8);
    Join(p, 8, 10);
    Join(p, 10, 12);
    Join(p, 12, 16);
    Join(p, 16, 20);
    Join(p, 20, 24);
    Join(p, 24, e);
    Join(p, e, |p|);
  }

  lemma Wraps(v: i64)
    ensures Unsigned(v) == v % 0x1_0000_0000_0000_0000
  {}

  lemma PacketBytesAre(k: PacketInfo)
    ensures PacketBytes(k) == PacketPayload(k)
  {
    hide LE, Uleb;
    Wraps(k.dts);
    Wraps(k.pts);
    Wraps(k.duration);
  }

  lemma SignedField(p: bytes, at: nat)
    requires at + 8 <= |p|
    ensures LE(8, Unsigned(I64At(p, at))) == p[at..at + 8]
  {
    hide LE, UnLE;
    FieldIs(p, at, 8);
  }

  /** A packet decodes to `k` if and only if it is the encoding of `k`, times in two's complement. */
  lemma PacketExactly(p: bytes, k: PacketInfo)
    ensures ParsePacket(p) == Some(k) <==> p == PacketBytes(k)
  {
    hide ParsePacket, PacketPayload, PacketBytes;
    PacketBytesAre(k);
    PacketRoundTrip(k);
    if ParsePacket(p) == Some(k) { PacketIsEncoded(p, k); }
  }

  lemma PacketIsEncoded(p: bytes, k: PacketInfo)
    requires ParsePacket(p) == Some(k)
    ensures p == PacketPayload(k)
  {
    hide LE, UnLE, Uleb, ReadVarint, I64At, Unsigned;
    var n := ReadVarint(p[44..], 0).value;
    VarintBijection(0, [], p[44..]);
    FieldIs(p, 0, 4);
    FieldIs(p, 4, 4);
    FieldIs(p, 8, 8);
    SignedField(p, 16);
    SignedField(p, 24);
    SignedField(p, 32);
    FieldIs(p, 40, 4);
    var e := 44 + n.size;
    assert p[44..e] == Uleb(n.value);
    Join(p, 4, 8);
    Join(p, 8, 16);
    Join(p, 16, 24);
    Join(p, 24, 32);
    Join(p, 32, 40);
    Join(p, 40, 44);
    Join(p, 44, e);
    Join(p, e, |p|);
  }

  // ----- the footer digest

  function WordBytes(w: bv32): bytes { LE(4, w as int) }

  /** The checksum of `s`, XOR a mask, in four bytes. */
  function Mixed(s: bytes, mask: bv32): bytes { WordBytes(Crc32c.Xor(Crc32c.Crc(s), mask)) }

  /** The digest, word by word. */
  function EightWords(s: bytes): bytes {
    Mixed(s, 0x9e37_79b9) + Mixed(s, 0x3c6e_f372) + Mixed(s, 0xdaa6_6d2b) + Mixed(s, 0x78dd_e6e4)
    + Mixed(s, 0x1715_609d) + Mixed(s, 0xb54c_da56) + Mixed(s, 0x5384_540f) + Mixed(s, 0xf1bb_cdc8)
  }

  lemma DigestMasks(base: bv32)
    ensures DigestWord(base, 0) == Crc32c.Xor(base, 0x9e37_79b9) && DigestWord(base, 1) == Crc32c.Xor(base, 0x3c6e_f372)
    ensures DigestWord(base, 2) == Crc32c.Xor(base, 0xdaa6_6d2b) && DigestWord(base, 3) == Crc32c.Xor(base, 0x78dd_e6e4)
    ensures DigestWord(base, 4) == Crc32c.Xor(base, 0x1715_609d) && DigestWord(base, 5) == Crc32c.Xor(base, 0xb54c_da56)
    ensures DigestWord(base, 6) == Crc32c.Xor(base, 0x5384_540f) && DigestWord(base, 7) == Crc32c.Xor(base, 0xf1bb_cdc8)
  {}

  lemma WordsLast(base: bv32, n: nat)
    requires n < 8
    ensures DigestWords(base, n + 1) == DigestWords(base, n) + WordBytes(DigestWord(base, n))
  {}

  lemma FirstWord(base: bv32)
    ensures DigestWords(base, 1) == WordBytes(DigestWord(base, 0))
  {
    hide DigestWord, LE;
    assert DigestWords(base, 0) == [];
  }

  lemma DigestIs(s: bytes)
    ensures Digest(s) == EightWords(s)
  {
    hide DigestWord, DigestWords, WordBytes, Crc32c.Crc, Crc32c.Xor;
    var b := Crc32c.Crc(s);
    DigestMasks(b);
    FirstWord(b);
    WordsLast(b, 1);
    WordsLast(b, 2);
    WordsLast(b, 3);
    WordsLast(b, 4);
    WordsLast(b, 5);
    WordsLast(b, 6);
    WordsLast(b, 7);
  }

  // ----- the verdict on a record without children

  /** A count at `at` bytes into the payload, within `most`, and a known track before it. */
  predicate CountAndTrack(p: bytes, tracks: seq<Track>, most: nat) {
    && |p| >= 8 && ReadVarint(p[8..], 0).Some? && ReadVarint(p[8..], 0).value.value <= most
    && HasTrack(tracks, U32At(p, 0), U32At(p, 4))
  }

  function PacketTableVerdict(p: bytes, tracks: seq<Track>, lim: Limits): Status {
    if !CountAndTrack(p, tracks, lim.maxPacketTableEntries) then RESOURCE
    else
      var n := ReadVarint(p[8..], 0).value;
      if PacketsFill(p, 8 + n.size, n.value) then OK else FORMAT
  }

  function EditListVerdict(p: bytes, tracks: seq<Track>, lim: Limits): Status {
    if !CountAndTrack(p, tracks, lim.maxEditEntries) then TIMELINE
    else
      var n := ReadVarint(p[8..], 0).value;
      if EditsFill(p, 8 + n.size, n.value) then OK
      else if EditsHold(p, 8 + n.size, n.value) then FORMAT
      else TIMELINE
  }

  /** An epoch other than zero, for all tracks (track zero) or for a known one. */
  predicate DiscontinuityOk(p: bytes, tracks: seq<Track>) {
    |p| == 20 && p[8..16] != [0, 0, 0, 0, 0, 0, 0, 0]
    && (p[0..4] == [0, 0, 0, 0] || HasTrack(tracks, U32At(p, 0), U32At(p, 4)))
  }

  predicate SeekIndexOk(p: bytes, offset: nat, tracks: seq<Track>) {
    && |p| >= 8 && ReadVarint(p[8..], 0).Some?
    && var n := ReadVarint(p[8..], 0).value;
    SeekFills(p, 8 + n.size, n.value, offset, tracks)
  }

  predicate CheckpointOk(p: bytes, offset: nat, tracks: seq<Track>, lim: Limits) {
    && |p| >= 48 && ReadVarint(p[48..], 0).Some?
    && var n := ReadVarint(p[48..], 0).value;
    && U64At(p, 8) <= offset && n.value <= lim.maxTracks
    && TracksFill(p, 48 + n.size, 0, n.value, tracks)
  }

  predicate IndexDirectoryOk(p: bytes, offset: nat) {
    && ReadVarint(p, 0).Some?
    && var n := ReadVarint(p, 0).value;
    IndexFills(p, n.size, n.value, offset)
  }

  /** The footer names its own end, and a directory inside the file or none; the last 32 bytes are the digest. */
  function FooterVerdict(p: bytes, offset: nat, end: nat, before: bytes): Status {
    if !(&& |p| >= 16 && ReadVarint(p[16..], 0).Some? && |p| == 16 + ReadVarint(p[16..], 0).value.size + 32
         && U64At(p, 0) == end && (U64At(p, 8) == 0 || 72 <= U64At(p, 8) < offset))
    then FORMAT
    else if p[|p| - 32..] == EightWords(before) then OK
    else INTEGRITY
  }

  function StreamVerdict(p: bytes, tracks: seq<Track>, lim: Limits): Status {
    match ParseStream(p)
    case None => FORMAT
    case Some(s) =>
      if !IsReduced(s.timeBase) then TIMELINE
      else if HasTrack(tracks, s.trackId, s.generation) then FORMAT
      else if |tracks| >= lim.maxTracks then RESOURCE
      else OK
  }

  function PacketVerdict(p: bytes, tracks: seq<Track>): Status {
    match ParsePacket(p)
    case None => FORMAT
    case Some(k) =>
      if k.duration < 0 then TIMELINE
      else if !HasTrack(tracks, k.trackId, k.generation) then FORMAT
      else OK
  }

  /** The record of type `typ` between `offset` and `end`, with payload `p`, after the bytes `before`. */
  function Verdict(
    typ: u16, p: bytes, offset: nat, end: nat, before: bytes, tracks: seq<Track>, lim: Limits): Status
  {
    if typ >= 0x8000 then OK
    else if typ == 0x0010 then StreamVerdict(p, tracks, lim)
    else if typ == 0x0020 then PacketVerdict(p, tracks)
    else if typ == 0x0021 then PacketTableVerdict(p, tracks, lim)
    else if typ == 0x0030 then EditListVerdict(p, tracks, lim)
    else if typ == 0x0031 then if DiscontinuityOk(p, tracks) then OK else FORMAT
    else if typ == 0x0040 then if SeekIndexOk(p, offset, tracks) then OK else INDEX
    else if typ == 0x0050 then if CheckpointOk(p, offset, tracks, lim) then OK else FORMAT
    else if typ == 0x0060 then if IndexDirectoryOk(p, offset) then OK else INDEX
    else if typ == 0x007F then FooterVerdict(p, offset, end, before)
    else UNSUPPORTED
  }

  lemma PacketTableAgrees(p: bytes, tracks: seq<Track>, lim: Limits)
    ensures StatusOf(CheckPacketTable(p, tracks, lim)) == PacketTableVerdict(p, tracks, lim)
  {
    hide ReadVarint, HasTrack, U32At, PacketEntries, PacketsFill;
    PacketTableExactly(p, tracks, lim);
  }

  lemma EditListAgrees(p: bytes, tracks: seq<Track>, lim: Limits)
    ensures StatusOf(CheckEditList(p, tracks, lim)) == EditListVerdict(p, tracks, lim)
  {
    hide ReadVarint, HasTrack, U32At, EditEntries, EditsHold;
    EditListExactly(p, tracks, lim);
  }

  lemma {:induction false} ZeroFields(s: bytes)
    ensures UnLE(s) == 0 <==> AllZero(s)
  {
    if s != [] {
      ZeroFields(s[1..]);
      assert AllZero(s) <==> s[0] == 0 && AllZero(s[1..]) by {
        if s[0] == 0 && AllZero(s[1..]) {
          forall i | 0 <= i < |s| ensures s[i] == 0 { if i > 0 { assert s[i] == s[1..][i - 1]; } }
        }
      }
    }
  }

  lemma DiscontinuityAgrees(p: bytes, tracks: seq<Track>)
    ensures CheckDiscontinuity(p, tracks) == if DiscontinuityOk(p, tracks) then OK else FORMAT
  {
    hide UnLE, HasTrack;
    if |p| == 20 {
      ZeroFields(p[8..16]);
      ZeroFields(p[0..4]);
      assert AllZero(p[8..16]) <==> p[8..16] == [0, 0, 0, 0, 0, 0, 0, 0];
      assert AllZero(p[0..4]) <==> p[0..4] == [0, 0, 0, 0];
    }
  }

  lemma TablesAgree(p: bytes, offset: nat, tracks: seq<Track>, lim: Limits)
    ensures CheckSeekIndex(p, offset, tracks) == if SeekIndexOk(p, offset, tracks) then OK else INDEX
    ensures CheckCheckpoint(p, offset, tracks, lim) == if CheckpointOk(p, offset, tracks, lim) then OK else FORMAT
    ensures StatusOf(CheckIndexDirectory(p, offset)) == if IndexDirectoryOk(p, offset) then OK else INDEX
  {
    hide ReadVarint, HasTrack, U64At, SeekEntries, CheckpointEntries, IndexEntries, SeekFills, TracksFill, IndexFills;
    SeekIndexExactly(p, offset, tracks);
    CheckpointExactly(p, offset, tracks, lim);
    IndexDirectoryExactly(p, offset);
  }

  lemma FooterAgrees(p: bytes, f: Frame, before: bytes)
    ensures CheckFooter(p, f, before) == FooterVerdict(p, f.offset, f.CrcEnd(), before)
  {
    hide ReadVarint, U64At, Digest, EightWords, AlignUp;
    DigestIs(before);
  }

  lemma SimpleVerdict(f: Frame, p: bytes, before: bytes, lim: Limits, tracks: seq<Track>)
    requires f.typ < 0x8000 && f.typ != 0x0001 && f.typ != 0x0010 && f.typ != 0x0020
    ensures CheckSimple(f, p, before, lim, tracks) == Verdict(f.typ, p, f.offset, f.CrcEnd(), before, tracks, lim)
  {
    hide CheckPacketTable, CheckEditList, CheckDiscontinuity, CheckSeekIndex, CheckCheckpoint, CheckIndexDirectory,
         CheckFooter, PacketTableVerdict, EditListVerdict, DiscontinuityOk, SeekIndexOk, CheckpointOk, IndexDirectoryOk,
         FooterVerdict, StreamVerdict, PacketVerdict, AlignUp, StatusOf;
    if f.typ == 0x0021 {
      PacketTableAgrees(p, tracks, lim);
    } else if f.typ == 0x0030 {
      EditListAgrees(p, tracks, lim);
    } else if f.typ == 0x0031 {
      DiscontinuityAgrees(p, tracks);
    } else if f.typ == 0x007F {
      FooterAgrees(p, f, before);
    } else {
      TablesAgree(p, f.offset, tracks, lim);
    }
  }

  /** Inside a parse: a record without children gets the verdict of its type code and payload. */
  lemma LeafVerdict(f: Frame, p: bytes, before: bytes, lim: Limits, st: State)
    requires f.typ != 0x0001
    ensures ProcessLeaf(f, p, before, lim, st).status == Verdict(f.typ, p, f.offset, f.CrcEnd(), before, st.tracks, lim)
  {
    hide CheckSimple, PacketTableVerdict, EditListVerdict, DiscontinuityOk, SeekIndexOk, CheckpointOk, IndexDirectoryOk,
         FooterVerdict, ParseStream, ParsePacket, IsReduced, HasTrack, AlignUp;
    if f.typ < 0x8000 && f.typ != 0x0010 && f.typ != 0x0020 { SimpleVerdict(f, p, before, lim, st.tracks); }
  }

  /** What an accepted descriptor or packet adds; every other record without children adds nothing. */
  lemma LeafEffect(f: Frame, p: bytes, before: bytes, lim: Limits, st: State)
    requires ProcessLeaf(f, p, before, lim, st).status == OK
    ensures var st' := ProcessLeaf(f, p, before, lim, st).st;
            && (f.typ == 0x0010 ==>
                  && ParseStream(p).Some?
                  && var s := ParseStream(p).value;
                  st' == st.(tracks := st.tracks + [Track(s.trackId, s.generation, s.mediaKind, s.codecTag, s.timeBase)],
                             log := st.log + [StreamSeen(s)]))
            && (f.typ == 0x0020 ==> ParsePacket(p).Some? && st' == st.(log := st.log + [PacketSeen(ParsePacket(p).value)]))
            && (f.typ != 0x0010 && f.typ != 0x0020 ==> st' == st)
  {
    hide CheckSimple, ParseStream, ParsePacket, IsReduced, HasTrack;
  }

  /**
    A group: too short or with a child length that is not the rest of the payload is FORMAT, too deep is RESOURCE,
    a truncated child is FORMAT, and otherwise the children decide.
   */
  lemma GroupVerdict(data: bytes, f: Frame, lim: Limits, st: State)
    requires f.CrcEnd() <= |data| && 10 <= f.headerSize && f.typ == 0x0001
    ensures var p := data[f.PayloadOffset()..f.PayloadEnd()];
            var s := ProcessRecord(data, f, lim, st).status;
            && (|p| < 20 ==> s == FORMAT)
            && (|p| >= 20 && p[4..12] != LE(8, |p| - 20) ==> s == FORMAT)
            && (|p| >= 20 && p[4..12] == LE(8, |p| - 20) && |p| <= U64_MAX ==>
                  if f.depth >= lim.maxDepth then s == RESOURCE
                  else
                    var o := ParseRecords(data, f.PayloadOffset() + 20, f.PayloadEnd(), (f.depth + 1) % 256, lim,
                                          Report(st, f.Seen()));
                    s == if o.status == TRUNCATED then FORMAT else o.status)
  {
    hide LE, UnLE, ParseRecords, ProcessLeaf, AlignUp;
    var p := data[f.PayloadOffset()..f.PayloadEnd()];
    if |p| >= 20 {
      FieldIs(p, 4, 8);
      if |p| <= U64_MAX {
        Widths();
        LERoundTrip(8, |p| - 20);
      }
    }
  }

  // ----- at the end of a file

  /**
    A complete record of any type without children, written after a file that parses: the verdict on the whole
    file is RESOURCE if the record is over the reader's limits, and otherwise that of its type and payload.
   */
  lemma AppendedVerdict(
    buffer: bytes, st: State, typ: u16, flags: u16, log2: byte, sequence: u64, payload: bytes, lim: Limits)
    requires ParsesTo(buffer, st, lim) && log2 <= 4 && typ != 0x0001 && |payload| <= U64_MAX
    requires |buffer| + |Record(typ, flags, log2, sequence, payload)| <= U64_MAX
    ensures var r := Record(typ, flags, log2, sequence, payload);
            Parse(buffer + r, true, lim).status
            == if |payload| > lim.maxPayloadSize || |r| > lim.maxRecordSize then RESOURCE
               else Verdict(typ, payload, |buffer|, |buffer + r|, buffer, st.tracks, lim)
  {
    hide ParseRecords, ValidateHeader, Record, NextRecord, AlignUp, Verdict, HeaderSize, ProcessLeaf;
    var r := Record(typ, flags, log2, sequence, payload);
    var f := FrameOf(typ, flags, log2, sequence, |payload|, |buffer|, 0);
    RecordRoundTrip(typ, flags, log2, sequence, payload, [], |buffer|, 0, lim);
    assert r + [] == r;
    var data := buffer + r;
    ParseResumes(buffer, r, HEADER_SIZE, 0, lim, Advance(INITIAL, HEADER_SIZE));
    assert data[..|buffer|] == buffer && data[|buffer|..|data|] == r;
    HeaderAgrees(data, |buffer|, lim);
    assert data[f.PayloadOffset()..f.PayloadEnd()] == r[f.headerSize..f.Unpadded()];
    LastRecord(data, f, payload, lim, st);
    LeafVerdict(f, payload, buffer, lim, Report(st, f.Seen()));
  }

  lemma LastRecord(data: bytes, f: Frame, p: bytes, lim: Limits, st: State)
    requires f.typ != 0x0001 && f.CrcEnd() == |data| && 10 <= f.headerSize && f.offset < |data|
    requires data[f.PayloadOffset()..f.PayloadEnd()] == p
    requires NextRecord(data[f.offset..|data|], f.offset, 0, lim) == if WithinLimits(f, lim) then Found(f) else Stop(RESOURCE)
    ensures ParseRecords(data, f.offset, |data|, 0, lim, st).status
         == if !WithinLimits(f, lim) then RESOURCE
            else ProcessLeaf(f, p, data[..f.offset], lim, Report(st, f.Seen())).status
  {
    hide NextRecord, ProcessLeaf, AlignUp, WithinLimits;
  }
}
