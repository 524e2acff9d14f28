/** The objects that append bytes: `tide_buffer`, the writer functions over it, and `struct tide_mux`. */
module MuxObject {
  import opened Base
  import opened Codec
  import opened Rationals
  import opened Format
  import opened Writer
  import opened Mux
  import opened Checked64
  import opened Bits
  import opened TableReader
  import Crc32c
  import FrameReader

  class Buffer {
    var data: bytes
    const limit: u64

    constructor (limit: u64)
      ensures data == [] && this.limit == limit
    {
      data := [];
      this.limit := limit;
    }

    method Append(s: bytes) returns (status: Status)
      modifies this
      ensures status == if Fits(|old(data)| + |s|, limit) then OK else RESOURCE
      ensures status == OK <==> |old(data)| + |s| <= 0xFFFF_FFFF_FFFF_FFFF && (limit == 0 || |old(data)| + |s| <= limit)
      ensures data == old(data) + if status == OK then s else []
    {
      if |data| + |s| > U64_MAX { return RESOURCE; }
      if |data| + |s| > limit && limit != 0 { return RESOURCE; }
      data := data + s;
      return OK;
    }
  }

  method MakePrefix(typ: u16, flags: u16, log2: byte, sequence: u64, payloadSize: u64) returns (prefix: bytes)
    ensures prefix == RecordPrefix(typ, flags, log2, sequence, payloadSize)
  {
    hide Uleb, FixedPart;
    var sizeBytes := WriteUleb(payloadSize);
    var seqBytes := WriteUleb(sequence);
    prefix := FixedPart(typ, flags, 8 + |sizeBytes| + |seqBytes|, log2) + (sizeBytes + seqBytes);
  }

  /** The padding a record needs; fails when the padded size overflows. */
  method MakePadding(f: Frame) returns (ok: bool, padding: nat)
    requires f.alignLog2 <= 4 && f.headerSize <= U64_MAX && f.payloadSize <= U64_MAX
    ensures ok <==> f.Padded() <= U64_MAX
    ensures ok ==> padding == f.Padded() - f.Unpadded()
  {
    hide AlignUp, IsPowerOfTwo;
    padding := 0;
    var unpadded: int, padded: int;
    ok, unpadded := CheckedAdd(f.headerSize, f.payloadSize);
    if !ok { return; }
    AlignmentsArePowers(f.alignLog2);
    ok, padded := Align(unpadded, Alignment(f.alignLog2));
    if !ok { FrameReader.PaddingOverflows(unpadded, f.alignLog2); return; }
    assert padded == f.Padded();
    padding := padded - unpadded;
  }

  /** What three appends in a row leave behind: everything up to the first piece that does not fit. */
  function Kept(data: bytes, a: bytes, b: bytes, c: bytes, limit: u64): bytes {
    if !Fits(|data| + |a|, limit) then data
    else if !Fits(|data| + |a| + |b|, limit) then data + a
    else if !Fits(|data| + |a| + |b| + |c|, limit) then data + a + b
    else data + (a + b + c)
  }

  /** What a refused record leaves in the buffer. */
  function Leftover(data: bytes, typ: u16, flags: u16, log2: byte, sequence: u64, payload: bytes, limit: u64): bytes {
    var f := FrameOf(typ, flags, log2, sequence, |payload|, 0, 0);
    if log2 > 4 || f.Padded() > U64_MAX then data
    else Kept(data, RecordPrefix(typ, flags, log2, sequence, |payload|), payload, Zeros(f.Padded() - f.Unpadded()), limit)
  }

  /**
    The leftover is a proper part of the record, the buffer before it is intact, and every piece that fitted, the
    prefix, the payload and the padding, is there.
   */
  lemma LeftoverIsPart(data: bytes, typ: u16, flags: u16, log2: byte, sequence: u64, payload: bytes, limit: u64)
    ensures var left := Leftover(data, typ, flags, log2, sequence, payload, limit);
            && data <= left <= data + Record(typ, flags, log2, sequence, payload)
            && |left| < |data + Record(typ, flags, log2, sequence, payload)|
            && var f := FrameOf(typ, flags, log2, sequence, |payload|, 0, 0);
            && (log2 <= 4 && f.Padded() <= U64_MAX ==>
                  && (Fits(|data| + f.headerSize, limit) ==> |left| >= |data| + f.headerSize)
                  && (Fits(|data| + f.Unpadded(), limit) ==> |left| >= |data| + f.Unpadded())
                  && (Fits(|data| + f.Padded(), limit) ==> |left| == |data| + f.Padded()))
  {
    hide LE, AlignUp, HeaderSize, RecordPrefix, Zeros, Crc32c.Crc, Record;
    var f := FrameOf(typ, flags, log2, sequence, |payload|, 0, 0);
    RecordParts(typ, flags, log2, sequence, payload, f);
    var a, c := RecordPrefix(typ, flags, log2, sequence, |payload|), Zeros(f.Padded() - f.Unpadded());
    assert data + a + payload <= data + (a + payload + c);
    assert data + (a + payload + c) <= data + Record(typ, flags, log2, sequence, payload);
  }

  /** Three appends in a row; the first that does not fit ends the sequence. */
  method AppendBody(out: Buffer, a: bytes, b: bytes, c: bytes) returns (status: Status)
    modifies out
    ensures status == if Fits(|old(out.data)| + |a| + |b| + |c|, out.limit) then OK else RESOURCE
    ensures out.data == Kept(old(out.data), a, b, c, out.limit)
  {
    status := out.Append(a);
    if status != OK { return; }
    status := out.Append(b);
    if status != OK { return; }
    status := out.Append(c);
    assert status == OK ==> old(out.data) + a + b + c == old(out.data) + (a + b + c);
  }

  /** The CRC of everything appended since `start`. */
  method AppendCrc(out: Buffer, start: nat) returns (status: Status)
    requires start <= |out.data|
    modifies out
    ensures status == if Fits(|old(out.data)| + 4, out.limit) then OK else RESOURCE
    ensures out.data == old(out.data) + if status == OK then LE(4, Crc32c.Crc(old(out.data)[start..]) as int) else []
  {
    hide LE, Crc32c.Crc;
    var crc := Crc32c.ComputeCrc(out.data[start..]);
    status := out.Append(LE(4, crc as int));
  }

  lemma RecordParts(typ: u16, flags: u16, log2: byte, sequence: u64, payload: bytes, f: Frame)
    requires f == FrameOf(typ, flags, log2, sequence, |payload|, 0, 0)
    ensures var body := RecordPrefix(typ, flags, log2, sequence, |payload|) + payload + Zeros(f.Padded() - f.Unpadded());
            && |body| == f.Padded()
            && Record(typ, flags, log2, sequence, payload) == body + LE(4, Crc32c.Crc(body) as int)
  {
    hide LE, AlignUp, HeaderSize, RecordPrefix, Zeros;
  }

  lemma Suffix<T>(a: seq<T>, b: seq<T>, c: seq<T>)
    ensures (a + b)[|a|..] == b && a + b + c == a + (b + c)
  {}

  /** `tide_write_record`; on failure the buffer keeps whatever prefix of the record fitted. */
  method WriteRecord(out: Buffer, typ: u16, flags: u16, log2: byte, sequence: u64, payload: bytes)
    returns (status: Status)
    requires |payload| <= U64_MAX
    modifies out
    ensures status == if log2 > 4 then INVALID_ARGUMENT
                      else if Fits(|old(out.data)| + |Record(typ, flags, log2, sequence, payload)|, out.limit) then OK
                      else RESOURCE
    ensures out.data == if status == OK then old(out.data) + Record(typ, flags, log2, sequence, payload)
                        else Leftover(old(out.data), typ, flags, log2, sequence, payload, out.limit)
  {
    hide LE, AlignUp, HeaderSize, RecordPrefix, Zeros, Record, Crc32c.Crc;
    if log2 > 4 { return INVALID_ARGUMENT; }
    HeaderSizeBound(|payload|, sequence);
    var f := FrameOf(typ, flags, log2, sequence, |payload|, 0, 0);
    RecordParts(typ, flags, log2, sequence, payload, f);
    var prefix := MakePrefix(typ, flags, log2, sequence, |payload|);
    var ok, padding := MakePadding(f);
    if !ok { return RESOURCE; }
    var start := |out.data|;
    ghost var body := prefix + payload + Zeros(padding);
    status := AppendBody(out, prefix, payload, Zeros(padding));
    if status != OK { return; }
    Suffix(old(out.data), body, LE(4, Crc32c.Crc(body) as int));
    status := AppendCrc(out, start);
  }

  /** `tide_encode_stream_payload` and `tide_encode_packet_payload`. */
  method EncodePayload(out: Buffer, c: Call) returns (status: Status)
    modifies out
    ensures status == if !Encodable(c) then INVALID_ARGUMENT
                      else if Fits(|old(out.data)| + |CallPayload(c)|, out.limit) then OK else RESOURCE
    ensures status == INVALID_ARGUMENT
       <==> (c.AddStream? && !IsReduced(c.stream.timeBase)) || (c.WritePacket? && c.packet.duration < 0)
    ensures status == OK ==> out.data == old(out.data) + CallPayload(c)
    ensures old(out.data) <= out.data
  {
    hide LE, Uleb, IsReduced;
    var fixed: bytes, tail: blob;
    match c {
      case AddStream(s) =>
        if !IsReduced(s.timeBase) { return INVALID_ARGUMENT; }
        fixed := LE(4, s.trackId) + LE(4, s.generation) + LE(2, s.mediaKind) + LE(2, 0) + LE(4, s.codecTag)
                 + LE(4, s.timeBase.num) + LE(4, s.timeBase.den);
        tail := s.config;
      case WritePacket(k) =>
        if k.duration < 0 { return INVALID_ARGUMENT; }
        fixed := LE(4, k.trackId) + LE(4, k.generation) + LE(8, k.packetSeq) + LE(8, Unsigned(k.dts))
                 + LE(8, Unsigned(k.pts)) + LE(8, Unsigned(k.duration)) + LE(4, k.flags);
        tail := k.payload;
    }
    assert CallPayload(c) == fixed + Uleb(|tail|) + tail;
    var varint := WriteUleb(|tail|);
    status := AppendBody(out, fixed, varint, tail);
  }

  /** `tide_write_header`. */
  method WriteHeader(out: Buffer, base: Rational, uuid: bytes) returns (status: Status)
    requires |uuid| == 16
    modifies out
    ensures status == if !IsReduced(base) || AllZero(uuid) then INVALID_ARGUMENT
                      else if Fits(|old(out.data)| + HEADER_SIZE, out.limit) then OK else RESOURCE
    ensures out.data == old(out.data) + if status == OK then FileHeader(base, uuid) else []
  {
    hide LE, IsReduced, AllZero;
    if !IsReduced(base) || AllZero(uuid) { return INVALID_ARGUMENT; }
    var body := HeaderBody(base, uuid);
    var crc := Crc32c.ComputeCrc(body);
    status := out.Append(body + LE(4, crc as int));
  }

  /** `tide_mux_create` without its file. */
  method CreateMuxer(base: Rational, limits: Limits) returns (status: Status, m: Muxer)
    ensures status == if !IsReduced(base) then INVALID_ARGUMENT
                      else if Fits(HEADER_SIZE, limits.maxAggregateAlloc) then OK else RESOURCE
    ensures m.Valid() && fresh(m) && fresh(m.buffer) && m.limits == limits
    ensures status == OK ==> m.State() == Start(base)
  {
    hide IsReduced, FileHeader;
    m := new Muxer(limits);
    assert MUX_UUID[0] != 0;
    status := WriteHeader(m.buffer, base, MUX_UUID);
  }

  /** After a call that failed: nothing changed if the payload did not encode, else a part of the record may remain. */
  function CallFailed(m: MuxState, c: Call, lim: Limits): MuxState {
    if !Encodable(c) || !Fits(|CallPayload(c)|, lim.maxSingleAlloc) then m
    else
      MuxState(Leftover(m.buffer, CallType(c), 0, ALIGN_8, m.sequence, CallPayload(c), lim.maxAggregateAlloc),
               NextSequence(m.sequence))
  }

  lemma FooterSizeIs(sequence: u64)
    ensures FooterSize(sequence) == |Record(FOOTER, 0, ALIGN_8, sequence, Zeros(49))|
  {}

  class Muxer {
    const limits: Limits
    const buffer: Buffer
    var sequence: u64

    ghost predicate Valid()
      reads this
    {
      buffer.limit == limits.maxAggregateAlloc
    }

    ghost function State(): MuxState
      reads this, buffer
    {
      MuxState(buffer.data, sequence)
    }

    constructor (limits: Limits)
      ensures Valid() && State() == MuxState([], 0) && fresh(buffer) && this.limits == limits
    {
      buffer := new Buffer(limits.maxAggregateAlloc);
      this.limits := limits;
      sequence := 0;
    }

    /** `tide_mux_add_stream` and `tide_mux_write_packet`. */
    method Write(c: Call) returns (status: Status)
      requires Valid()
      modifies this, buffer
      ensures Valid()
      ensures status == OK <==> CallOk(old(State()), c, limits)
      ensures status == if CallOk(old(State()), c, limits) then OK else if !Encodable(c) then INVALID_ARGUMENT else RESOURCE
      ensures status == INVALID_ARGUMENT
         <==> (c.AddStream? && !IsReduced(c.stream.timeBase)) || (c.WritePacket? && c.packet.duration < 0)
      ensures State() == if status == OK then CallNext(old(State()), c, limits) else CallFailed(old(State()), c, limits)
    {
      hide CallPayload, Record, IsReduced, Leftover;
      var payload := new Buffer(limits.maxSingleAlloc);
      status := EncodePayload(payload, c);
      if status != OK { return; }
      assert payload.data == CallPayload(c);
      status := WriteRecord(buffer, CallType(c), 0, ALIGN_8, sequence, payload.data);
      sequence := NextSequence(sequence);
    }

    /** `tide_mux_append_footer`: a dry run for the length, then the record itself. */
    method Close() returns (status: Status)
      requires Valid()
      modifies this, buffer
      ensures Valid() && old(buffer.data) <= buffer.data
      ensures status == OK <==> CloseOk(old(State()), limits)
      ensures status == OK ==> buffer.data == CloseBytes(old(State()), limits)
    {
      hide Record, Digest, LE, Zeros, Leftover, FooterSize;
      ghost var m := State();
      FooterSizeIs(m.sequence);
      var scratch := new Buffer(limits.maxSingleAlloc);
      status := WriteRecord(scratch, FOOTER, 0, ALIGN_8, sequence, Zeros(49));
      if status != OK { return; }
      var finalLength: int := |buffer.data| + |scratch.data|;
      var length: u64 := if finalLength <= U64_MAX then finalLength else finalLength % 0x1_0000_0000_0000_0000;
      var record := new Buffer(limits.maxSingleAlloc);
      var digest := ComputeDigest(buffer.data);
      DigestLength(buffer.data);
      FooterFits(m, length, digest);
      status := WriteRecord(record, FOOTER, 0, ALIGN_8, sequence, FooterPayload(length, digest));
      sequence := NextSequence(sequence);
      if status != OK { return; }
      assert record.data == Record(FOOTER, 0, ALIGN_8, m.sequence, FooterPayload(length, digest));
      status := buffer.Append(record.data);
    }
  }
}
