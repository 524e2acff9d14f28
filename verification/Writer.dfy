/** `src/format/writer.c` as functions of the bytes it appends, and the proof that the decoder undoes them. */
module Writer {
  import opened Base
  import opened Codec
  import opened Rationals
  import opened Format
  import Crc32c

  function Zeros(n: nat): (s: bytes)
    ensures |s| == n && AllZero(s)
  {
    seq(n, _ => 0)
  }

  function HeaderSize(payloadSize: nat, sequence: nat): nat { 8 + |Uleb(payloadSize)| + |Uleb(sequence)| }

  function FrameOf(typ: u16, flags: u16, log2: nat, sequence: nat, payloadSize: nat, offset: nat, depth: nat): Frame {
    Frame(typ, flags, HeaderSize(payloadSize, sequence), log2, payloadSize, sequence, offset, depth)
  }

  function FixedPart(typ: u16, flags: u16, headerSize: nat, log2: byte): (s: bytes)
    ensures |s| == 8
  {
    LE(2, typ) + LE(2, flags) + LE(2, headerSize) + [log2, 0]
  }

  function RecordPrefix(typ: u16, flags: u16, log2: byte, sequence: u64, payloadSize: nat): (s: bytes)
    ensures |s| == HeaderSize(payloadSize, sequence)
  {
    FixedPart(typ, flags, HeaderSize(payloadSize, sequence), log2) + (Uleb(payloadSize) + Uleb(sequence))
  }

  /** Prefix, payload and padding: the bytes the CRC covers. */
  function RecordBody(typ: u16, flags: u16, log2: byte, sequence: u64, payload: bytes): (s: bytes)
    ensures |s| == FrameOf(typ, flags, log2, sequence, |payload|, 0, 0).Padded()
  {
    var f := FrameOf(typ, flags, log2, sequence, |payload|, 0, 0);
    RecordPrefix(typ, flags, log2, sequence, |payload|) + payload + Zeros(f.Padded() - f.Unpadded())
  }

  function Record(typ: u16, flags: u16, log2: byte, sequence: u64, payload: bytes): (s: bytes)
    ensures |s| == FrameOf(typ, flags, log2, sequence, |payload|, 0, 0).Size()
  {
    var body := RecordBody(typ, flags, log2, sequence, payload);
    body + LE(4, Crc32c.Crc(body) as int)
  }

  lemma HeaderSizeBound(payloadSize: u64, sequence: u64)
    ensures 10 <= HeaderSize(payloadSize, sequence) <= 28
  {
    hide Uleb, ReadVarint;
    VarintBijection(payloadSize, [], []);
    VarintBijection(sequence, [], []);
  }

  // ----- framing round trip

  lemma FixedFields(typ: u16, flags: u16, headerSize: u16, log2: byte, rest: bytes)
    ensures var w := FixedPart(typ, flags, headerSize, log2) + rest;
            U16At(w, 0) == typ && U16At(w, 2) == flags && U16At(w, 4) == headerSize && w[6] == log2
  {
    hide LE, UnLE;
    var w := FixedPart(typ, flags, headerSize, log2) + rest;
    Widths();
    LERoundTrip(2, typ);
    LERoundTrip(2, flags);
    LERoundTrip(2, headerSize);
    assert w[0..2] == LE(2, typ) && w[2..4] == LE(2, flags) && w[4..6] == LE(2, headerSize);
  }

  lemma Regroup<T>(f: seq<T>, a: seq<T>, b: seq<T>, rest: seq<T>)
    ensures f + (a + b) + rest == f + (a + (b + rest))
    ensures (f + (a + b) + rest)[|f|..] == a + (b + rest)
    ensures (f + (a + b) + rest)[|f| + |a|..] == b + rest
  {}

  lemma PrefixFields(typ: u16, flags: u16, log2: byte, sequence: u64, payloadSize: u64, rest: bytes)
    ensures var w := RecordPrefix(typ, flags, log2, sequence, payloadSize) + rest;
            && |w| >= 10
            && U16At(w, 0) == typ && U16At(w, 2) == flags && w[6] == log2
            && U16At(w, 4) == HeaderSize(payloadSize, sequence)
            && w[8..] == Uleb(payloadSize) + (Uleb(sequence) + rest)
            && w[8 + |Uleb(payloadSize)|..] == Uleb(sequence) + rest
  {
    hide FixedPart, Uleb, U16At;
    VarintBijection(payloadSize, [], []);
    VarintBijection(sequence, [], []);
    var h := HeaderSize(payloadSize, sequence);
    var fixed, tail := FixedPart(typ, flags, h, log2), Uleb(payloadSize) + (Uleb(sequence) + rest);
    Regroup(fixed, Uleb(payloadSize), Uleb(sequence), rest);
    FixedFields(typ, flags, h, log2, tail);
  }

  lemma DecodesPrefix(typ: u16, flags: u16, log2: byte, sequence: u64, payloadSize: u64, rest: bytes,
                      offset: nat, depth: nat)
    requires log2 <= 4
    requires var f := FrameOf(typ, flags, log2, sequence, payloadSize, offset, depth);
             f.CrcEnd() <= U64_MAX && f.Size() <= f.headerSize + |rest|
    ensures DecodePrefix(RecordPrefix(typ, flags, log2, sequence, payloadSize) + rest, offset, depth)
         == Found(FrameOf(typ, flags, log2, sequence, payloadSize, offset, depth))
  {
    PrefixFields(typ, flags, log2, sequence, payloadSize, rest);
    VarintBijection(payloadSize, Uleb(sequence) + rest, []);
    VarintBijection(sequence, rest, []);
    hide ReadVarint, UnLE, Uleb, LE, AlignUp, RecordPrefix;
  }

  lemma FourParts<T>(a: seq<T>, b: seq<T>, c: seq<T>, d: seq<T>, rest: seq<T>)
    ensures var w := a + b + c + d + rest;
            var i, j := |a| + |b|, |a| + |b| + |c|;
            w[..j] == a + b + c && w[|a|..i] == b && w[i..j] == c && w[j..j + |d|] == d
  {}

  /** The bytes a record occupies, cut at its frame's offsets. */
  lemma RecordLayout(typ: u16, flags: u16, log2: byte, sequence: u64, payload: bytes, rest: bytes, f: Frame)
    requires |payload| <= U64_MAX
    requires f == FrameOf(typ, flags, log2, sequence, |payload|, f.offset, f.depth)
    ensures var body := RecordBody(typ, flags, log2, sequence, payload);
            var w := Record(typ, flags, log2, sequence, payload) + rest;
            && f.Size() <= |w| && w[..f.Padded()] == body
            && w[f.headerSize..f.Unpadded()] == payload && AllZero(w[f.Unpadded()..f.Padded()])
            && w[f.Padded()..f.Padded() + 4] == LE(4, Crc32c.Crc(body) as int)
  {
    hide RecordPrefix, LE, AlignUp, HeaderSize, Zeros, Crc32c.Crc;
    var body := RecordBody(typ, flags, log2, sequence, payload);
    FourParts(RecordPrefix(typ, flags, log2, sequence, |payload|), payload, Zeros(f.Padded() - f.Unpadded()),
              LE(4, Crc32c.Crc(body) as int), rest);
  }

  lemma RecordDecodes(typ: u16, flags: u16, log2: byte, sequence: u64, payload: bytes, rest: bytes,
                      offset: nat, depth: nat)
    requires log2 <= 4 && |payload| <= U64_MAX
    requires FrameOf(typ, flags, log2, sequence, |payload|, offset, depth).CrcEnd() <= U64_MAX
    ensures DecodePrefix(Record(typ, flags, log2, sequence, payload) + rest, offset, depth)
         == Found(FrameOf(typ, flags, log2, sequence, |payload|, offset, depth))
  {
    hide LE, AlignUp, RecordPrefix, DecodePrefix, HeaderSize, Crc32c.Crc;
    var head, r := RecordPrefix(typ, flags, log2, sequence, |payload|), Record(typ, flags, log2, sequence, payload);
    var w := r + rest;
    assert head <= r;
    assert w == head + w[|head|..];
    DecodesPrefix(typ, flags, log2, sequence, |payload|, w[|head|..], offset, depth);
  }

  lemma RecordIsSound(typ: u16, flags: u16, log2: byte, sequence: u64, payload: bytes, rest: bytes, f: Frame)
    requires |payload| <= U64_MAX && f == FrameOf(typ, flags, log2, sequence, |payload|, f.offset, f.depth)
    ensures var w := Record(typ, flags, log2, sequence, payload) + rest;
            f.Size() <= |w| && Integrity(w, f) == OK && w[f.headerSize..f.Unpadded()] == payload
  {
    hide UnLE, LE, AlignUp, Record, RecordBody, AllZero, HeaderSize, Crc32c.Crc;
    RecordLayout(typ, flags, log2, sequence, payload, rest, f);
    Widths();
    LERoundTrip(4, Crc32c.Crc(RecordBody(typ, flags, log2, sequence, payload)) as int);
  }

  /**
    Record framing round trip: at any file offset and whatever follows, the decoder recovers every field of
    a written record, its payload is the payload written, and the padding and CRC checks pass; a record over the
    reader's limits is framed just as well and refused for its size.
   */
  lemma RecordRoundTrip(typ: u16, flags: u16, log2: byte, sequence: u64, payload: bytes, rest: bytes,
                        offset: nat, depth: nat, lim: Limits)
    requires log2 <= 4 && |payload| <= U64_MAX
    requires FrameOf(typ, flags, log2, sequence, |payload|, offset, depth).CrcEnd() <= U64_MAX
    ensures var f := FrameOf(typ, flags, log2, sequence, |payload|, offset, depth);
            var r := Record(typ, flags, log2, sequence, payload);
            && NextRecord(r + rest, offset, depth, lim) == (if WithinLimits(f, lim) then Found(f) else Stop(RESOURCE))
            && 10 <= f.headerSize && f.Size() == |r|
            && (r + rest)[f.headerSize..f.Unpadded()] == payload
  {
    hide AlignUp, Record, DecodePrefix, Integrity, WithinLimits, HeaderSize;
    HeaderSizeBound(|payload|, sequence);
    RecordDecodes(typ, flags, log2, sequence, payload, rest, offset, depth);
    RecordIsSound(typ, flags, log2, sequence, payload, rest, FrameOf(typ, flags, log2, sequence, |payload|, offset, depth));
  }

  // ----- payloads

  function StreamPayload(s: StreamInfo): bytes {
    LE(4, s.trackId) + LE(4, s.generation) + LE(2, s.mediaKind) + LE(2, 0) + LE(4, s.codecTag)
    + LE(4, s.timeBase.num) + LE(4, s.timeBase.den) + Uleb(|s.config|) + s.config
  }

  function PacketPayload(k: PacketInfo): bytes {
    LE(4, k.trackId) + LE(4, k.generation) + LE(8, k.packetSeq) + LE(8, Unsigned(k.dts)) + LE(8, Unsigned(k.pts))
    + LE(8, Unsigned(k.duration)) + LE(4, k.flags) + Uleb(|k.payload|) + k.payload
  }

  lemma StreamRoundTrip(s: StreamInfo)
    ensures ParseStream(StreamPayload(s)) == Some(s)
  {
    hide LE, UnLE, Uleb, ReadVarint;
    var p := StreamPayload(s);
    var n := |Uleb(|s.config|)|;
    VarintBijection(|s.config|, s.config, []);
    Widths();
    LERoundTrip(4, s.trackId);
    LERoundTrip(4, s.generation);
    LERoundTrip(2, s.mediaKind);
    LERoundTrip(4, s.codecTag);
    LERoundTrip(4, s.timeBase.num);
    LERoundTrip(4, s.timeBase.den);
    assert p[0..4] == LE(4, s.trackId) && p[4..8] == LE(4, s.generation) && p[8..10] == LE(2, s.mediaKind);
    assert p[12..16] == LE(4, s.codecTag) && p[16..20] == LE(4, s.timeBase.num) && p[20..24] == LE(4, s.timeBase.den);
    assert p[24..] == Uleb(|s.config|) + s.config && p[24 + n..] == s.config;
  }

  lemma PacketRoundTrip(k: PacketInfo)
    ensures ParsePacket(PacketPayload(k)) == Some(k)
  {
    hide LE, UnLE, Uleb, ReadVarint;
    var p := PacketPayload(k);
    var n := |Uleb(|k.payload|)|;
    VarintBijection(|k.payload|, k.payload, []);
    Widths();
    LERoundTrip(4, k.trackId);
    LERoundTrip(4, k.generation);
    LERoundTrip(8, k.packetSeq);
    LERoundTrip(8, Unsigned(k.dts));
    LERoundTrip(8, Unsigned(k.pts));
    LERoundTrip(8, Unsigned(k.duration));
    LERoundTrip(4, k.flags);
    assert p[0..4] == LE(4, k.trackId) && p[4..8] == LE(4, k.generation) && p[8..16] == LE(8, k.packetSeq);
    assert p[16..24] == LE(8, Unsigned(k.dts)) && p[24..32] == LE(8, Unsigned(k.pts));
    assert p[32..40] == LE(8, Unsigned(k.duration)) && p[40..44] == LE(4, k.flags);
    assert p[44..] == Uleb(|k.payload|) + k.payload && p[44 + n..] == k.payload;
  }

  // ----- the file header

  function HeaderBody(base: Rational, uuid: bytes): bytes {
    MAGIC + LE(2, 1) + LE(2, 0) + uuid + LE(4, base.num) + LE(4, base.den) + LE(8, 0) + LE(8, 0) + LE(8, 0x400_0000)
    + LE(8, 0)
  }

  function FileHeader(base: Rational, uuid: bytes): bytes {
    HeaderBody(base, uuid) + LE(4, Crc32c.Crc(HeaderBody(base, uuid)) as int)
  }

  /** The last piece of a prefix of `w`, and the prefix before it. */
  lemma LastPiece<T>(w: seq<T>, p: seq<T>, x: seq<T>)
    requires p + x <= w
    ensures p <= w && w[|p|..|p| + |x|] == x
  {
    assert p <= p + x;
  }

  lemma HeaderPieces(base: Rational, uuid: bytes, w: bytes)
    requires HeaderBody(base, uuid) <= w && |uuid| == 16
    ensures |HeaderBody(base, uuid)| == 68
    ensures w[0..8] == MAGIC && w[8..10] == LE(2, 1) && w[12..28] == uuid && w[28..32] == LE(4, base.num)
    ensures w[32..36] == LE(4, base.den) && w[36..44] == LE(8, 0) && w[52..60] == LE(8, 0x400_0000)
  {
    hide LE;
    var p1 := MAGIC + LE(2, 1);
    var p3 := p1 + LE(2, 0) + uuid;
    var p5 := p3 + LE(4, base.num) + LE(4, base.den);
    var p8 := p5 + LE(8, 0) + LE(8, 0) + LE(8, 0x400_0000);
    LastPiece(w, p8, LE(8, 0));
    LastPiece(w, p5 + LE(8, 0) + LE(8, 0), LE(8, 0x400_0000));
    LastPiece(w, p5 + LE(8, 0), LE(8, 0));
    LastPiece(w, p5, LE(8, 0));
    LastPiece(w, p3 + LE(4, base.num), LE(4, base.den));
    LastPiece(w, p3, LE(4, base.num));
    LastPiece(w, p1 + LE(2, 0), uuid);
    LastPiece(w, p1, LE(2, 0));
    LastPiece(w, MAGIC, LE(2, 1));
    assert w[0..8] == w[..8];
  }

  lemma HeaderRoundTrip(base: Rational, uuid: bytes, rest: bytes, lim: Limits)
    requires IsReduced(base) && |uuid| == 16 && !AllZero(uuid)
    ensures |FileHeader(base, uuid)| == HEADER_SIZE
    ensures ValidateHeader(FileHeader(base, uuid) + rest, lim) == if 0x400_0000 <= lim.maxRecordSize then OK else RESOURCE
  {
    hide LE, UnLE, IsReduced, AllZero, HeaderBody, Crc32c.Crc;
    var body := HeaderBody(base, uuid);
    var crc := Crc32c.Crc(body) as int;
    var w := FileHeader(base, uuid) + rest;
    Widths();
    LERoundTrip(2, 1);
    LERoundTrip(4, base.num);
    LERoundTrip(4, base.den);
    LERoundTrip(8, 0);
    LERoundTrip(8, 0x400_0000);
    LERoundTrip(4, crc);
    LastPiece(w, body, LE(4, crc));
    HeaderPieces(base, uuid, w);
    assert w[..8] == w[0..8] && w[..68] == body;
  }
}
