/** The TIDE-1 data model: limits, record frames, payload entities and the events a parse reports. */
module Format {
  import opened Base
  import opened Codec
  import opened Rationals
  import Crc32c

  const HEADER_SIZE: nat := 72
  const GROUP_META_SIZE: nat := 20
  const DIGEST_SIZE: nat := 32
  const MAGIC: bytes := [0x54, 0x49, 0x44, 0x45, 0x31, 0x0D, 0x0A, 0x1A]

  const GROUP: u16 := 0x0001
  const STREAM_DESC: u16 := 0x0010
  const PACKET: u16 := 0x0020
  const PACKET_TABLE: u16 := 0x0021
  const EDIT_LIST: u16 := 0x0030
  const DISCONTINUITY: u16 := 0x0031
  const SEEK_INDEX: u16 := 0x0040
  const CHECKPOINT: u16 := 0x0050
  const INDEX_DIRECTORY: u16 := 0x0060
  const FOOTER: u16 := 0x007F

  datatype Limits = Limits(
    maxRecordSize: u64, maxPayloadSize: u64, maxSingleAlloc: u64, maxAggregateAlloc: u64,
    maxDepth: u32, maxTracks: u32, maxEditEntries: u32, maxPacketTableEntries: u32)

  const DEFAULT_LIMITS := Limits(0x400_0000, 0x400_0000, 0x200_0000, 0x800_0000, 16, 64, 256, 1_000_000)

  /** The aggregate limit of a byte buffer; zero means none. */
  predicate Fits(size: nat, limit: u64) { size <= U64_MAX && (limit == 0 || size <= limit) }

  datatype StreamInfo = StreamInfo(
    trackId: u32, generation: u32, mediaKind: u16, codecTag: u32, timeBase: Rational, config: blob)

  datatype PacketInfo = PacketInfo(
    trackId: u32, generation: u32, packetSeq: u64, dts: i64, pts: i64, duration: i64, flags: u32, payload: blob)

  /** A slot of the decoder's live track table. */
  datatype Track = Track(trackId: u32, generation: u32, mediaKind: u16, codecTag: u32, timeBase: Rational)

  datatype Event =
    | RecordSeen(typ: u16, flags: u16, offset: nat, payloadOffset: nat, payloadSize: nat, sequence: nat,
                 depth: nat, skippable: bool)
    | StreamSeen(stream: StreamInfo)
    | PacketSeen(packet: PacketInfo)

  // ----- record frames

  predicate IsSkippable(typ: u16) { typ >= 0x8000 }

  function Alignment(log2: nat): nat {
    if log2 == 0 then 1 else if log2 == 1 then 2 else if log2 == 2 then 4 else if log2 == 3 then 8 else 16
  }

  /** `v` rounded up to a multiple of the power of two `a`. */
  function AlignUp(v: nat, a: nat): nat
    requires a > 0
  {
    v + (a - 1) - (v + (a - 1)) % a
  }

  /** The frame of a record: its prefix fields and where it starts; sizes are relative to the start. */
  datatype Frame = Frame(
    typ: u16, flags: u16, headerSize: nat, alignLog2: nat, payloadSize: nat, sequence: nat, offset: nat, depth: nat)
  {
    function Unpadded(): nat { headerSize + payloadSize }
    function Padded(): (r: nat)
      ensures Unpadded() <= r < Unpadded() + 16
    {
      AlignUp(Unpadded(), Alignment(alignLog2))
    }
    function Size(): nat { Padded() + 4 }
    function PayloadOffset(): nat { offset + headerSize }
    function PayloadEnd(): nat { offset + Unpadded() }
    function PaddingEnd(): nat { offset + Padded() }
    function CrcEnd(): nat { offset + Size() }
    function Seen(): Event {
      RecordSeen(typ, flags, offset, PayloadOffset(), payloadSize, sequence, depth, IsSkippable(typ))
    }
  }

  datatype Decoded = Stop(status: Status) | Found(frame: Frame)

  /** The two varints of a record prefix. */
  datatype Sizes = Sizes(payload: Varint, sequence: Varint) {
    function HeaderSize(): nat { 8 + payload.size + sequence.size }
  }

  function ReadSizes(w: bytes): (r: Option<Sizes>)
    requires |w| >= 8
    ensures r.Some? ==> 10 <= r.value.HeaderSize() <= |w|
  {
    match ReadVarint(w[8..], 0)
    case None => None
    case Some(size) =>
      match ReadVarint(w[8 + size.size..], 0)
      case None => None
      case Some(seqno) => Some(Sizes(size, seqno))
  }

  /** The prefix of the record that starts the window `w`, `offset` bytes into the file. */
  function DecodePrefix(w: bytes, offset: nat, depth: nat): (r: Decoded)
    ensures r.Stop? ==> r.status in {TRUNCATED, FORMAT, RESOURCE}
    ensures r.Found? ==> r.frame.offset == offset && r.frame.depth == depth && r.frame.Size() <= |w|
                         && 10 <= r.frame.headerSize
  {
    if |w| < 8 then Stop(TRUNCATED)
    else
      match ReadSizes(w)
      case None => Stop(TRUNCATED)
      case Some(z) =>
        if U16At(w, 4) != z.HeaderSize() || w[6] > 4 then Stop(FORMAT)
        else
          var f := Frame(U16At(w, 0), U16At(w, 2), z.HeaderSize(), w[6], z.payload.value, z.sequence.value, offset, depth);
          if f.CrcEnd() > U64_MAX then Stop(RESOURCE)
          else if f.Size() > |w| then Stop(TRUNCATED)
          else Found(f)
  }

  predicate AllZero(s: bytes) { forall i :: 0 <= i < |s| ==> s[i] == 0 }

  /** Zero padding, then the stored CRC of everything before it. */
  function Integrity(w: bytes, f: Frame): (s: Status)
    requires f.Size() <= |w|
    ensures s in {OK, FORMAT, INTEGRITY}
  {
    if !AllZero(w[f.Unpadded()..f.Padded()]) then FORMAT
    else if U32At(w, f.Padded()) != Crc32c.Crc(w[..f.Padded()]) as int then INTEGRITY
    else OK
  }

  function WithinLimits(f: Frame, lim: Limits): bool {
    f.payloadSize <= lim.maxPayloadSize && f.Size() <= lim.maxRecordSize
  }

  /** The next record of a window, framed, within limits and with its padding and CRC verified. */
  function NextRecord(w: bytes, offset: nat, depth: nat, lim: Limits): (r: Decoded)
    ensures r.Found? ==> r.frame.offset == offset && r.frame.depth == depth && r.frame.Size() <= |w|
                         && 10 <= r.frame.headerSize
    ensures r.Stop? ==> r.status != OK
  {
    match DecodePrefix(w, offset, depth)
    case Stop(s) => Stop(s)
    case Found(f) =>
      if !WithinLimits(f, lim) then Stop(RESOURCE)
      else if Integrity(w, f) != OK then Stop(Integrity(w, f))
      else Found(f)
  }

  // ----- the file header

  function ValidateHeader(data: bytes, lim: Limits): Status {
    if |data| < HEADER_SIZE then TRUNCATED
    else if data[..8] != MAGIC then FORMAT
    else if U16At(data, 8) != 1 then UNSUPPORTED
    else if AllZero(data[12..28]) then FORMAT
    else if !IsReduced(Rational(U32At(data, 28), U32At(data, 32))) then TIMELINE
    else if U64At(data, 36) != 0 then UNSUPPORTED
    else if U64At(data, 52) > lim.maxRecordSize then RESOURCE
    else if U32At(data, 68) != Crc32c.Crc(data[..68]) as int then INTEGRITY
    else OK
  }

  // ----- stream and packet payloads

  function ParseStream(p: bytes): Option<StreamInfo> {
    if |p| < 24 then None
    else
      match ReadVarint(p[24..], 0)
      case None => None
      case Some(n) =>
        if 24 + n.size + n.value != |p| then None
        else
          VarintBijection(0, [], p[24..]);
          Some(StreamInfo(U32At(p, 0), U32At(p, 4), U16At(p, 8), U32At(p, 12),
                             Rational(U32At(p, 16), U32At(p, 20)), p[24 + n.size..]))
  }

  function ParsePacket(p: bytes): Option<PacketInfo> {
    if |p| < 44 then None
    else
      match ReadVarint(p[44..], 0)
      case None => None
      case Some(n) =>
        if 44 + n.size + n.value != |p| then None
        else
          VarintBijection(0, [], p[44..]);
          Some(PacketInfo(U32At(p, 0), U32At(p, 4), U64At(p, 8), I64At(p, 16), I64At(p, 24), I64At(p, 32),
                             U32At(p, 40), p[44 + n.size..]))
  }

  // ----- the track table

  predicate HasTrack(tracks: seq<Track>, id: u32, generation: u32) {
    exists i :: 0 <= i < |tracks| && tracks[i].trackId == id && tracks[i].generation == generation
  }

  function Snapshot(s: StreamInfo): Track {
    Track(s.trackId, s.generation, s.mediaKind, s.codecTag, s.timeBase)
  }

  // ----- the footer digest

  function DigestWord(base: bv32, i: nat): bv32
    requires i < 8
  {
    base ^ (0x9e37_79b9 * (i + 1) as bv32)
  }

  function DigestWords(base: bv32, n: nat): (s: bytes)
    requires n <= 8
    ensures |s| == 4 * n
  {
    if n == 0 then [] else DigestWords(base, n - 1) + LE(4, DigestWord(base, n - 1) as int)
  }

  function Digest(s: bytes): bytes { DigestWords(Crc32c.Crc(s), 8) }
}
