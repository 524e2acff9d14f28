/** The cursor-driven decoding steps of `src/format/decoder.c` that need no decoder state. */
module FrameReader {
  import opened Base
  import opened Codec
  import opened Rationals
  import opened Format
  import opened ByteReader
  import opened Checked64
  import opened Bits
  import Crc32c

  method ValidateHeaderBytes(data: bytes, lim: Limits) returns (s: Status)
    ensures s == ValidateHeader(data, lim)
  {
    hide U16At, U32At, U64At, AllZero, IsReduced, Crc32c.Crc;
    if |data| < HEADER_SIZE { return TRUNCATED; }
    if data[..8] != MAGIC { return FORMAT; }
    var r := new Reader(data[8..HEADER_SIZE]);
    var ok, major, minor, uuid, num, den, required, optional, hint, checkpoint, stored;
    ok, major := r.ReadU16();
    ok, minor := r.ReadU16();
    ok, uuid := r.ReadBytes(16);
    ok, num := r.ReadU32();
    ok, den := r.ReadU32();
    ok, required := r.ReadU64();
    ok, optional := r.ReadU64();
    ok, hint := r.ReadU64();
    ok, checkpoint := r.ReadU64();
    ok, stored := r.ReadU32();
    HeaderFields(data);
    if major != 1 { return UNSUPPORTED; }
    if AllZero(uuid) { return FORMAT; }
    if !IsReduced(Rational(num, den)) { return TIMELINE; }
    if required != 0 { return UNSUPPORTED; }
    if hint > lim.maxRecordSize { return RESOURCE; }
    var crc := Crc32c.ComputeCrc(data[..68]);
    if stored != crc as int { return INTEGRITY; }
    return OK;
  }

  lemma HeaderFields(data: bytes)
    requires |data| >= HEADER_SIZE
    ensures var d := data[8..HEADER_SIZE];
            && U16At(d, 0) == U16At(data, 8) && d[4..20] == data[12..28]
            && U32At(d, 20) == U32At(data, 28) && U32At(d, 24) == U32At(data, 32)
            && U64At(d, 28) == U64At(data, 36) && U64At(d, 44) == U64At(data, 52) && U32At(d, 60) == U32At(data, 68)
  {
    hide UnLE;
    SliceOfSlice(data, 8, HEADER_SIZE, 0, 2);
    SliceOfSlice(data, 8, HEADER_SIZE, 4, 20);
    SliceOfSlice(data, 8, HEADER_SIZE, 20, 24);
    SliceOfSlice(data, 8, HEADER_SIZE, 24, 28);
    SliceOfSlice(data, 8, HEADER_SIZE, 28, 36);
    SliceOfSlice(data, 8, HEADER_SIZE, 44, 52);
    SliceOfSlice(data, 8, HEADER_SIZE, 60, 64);
  }

  method DecodeRecordPrefix(data: bytes, end: nat, offset: nat, depth: nat) returns (d: Decoded)
    requires offset <= end <= |data| && end <= U64_MAX
    ensures d == DecodePrefix(data[offset..end], offset, depth)
  {
    hide UnLE, ReadVarint, AlignUp;
    if end - offset < 8 { return Stop(TRUNCATED); }
    ghost var w := data[offset..end];
    var r := new Reader(data[offset..end]);
    var ok, typ, flags, headerSize, log2, skipped;
    ok, typ := r.ReadU16();
    ok, flags := r.ReadU16();
    ok, headerSize := r.ReadU16();
    ok, log2 := r.ReadU8();
    ok, skipped := r.ReadBytes(1);
    var size, seqno;
    ok, size := r.ReadUleb128();
    if !ok { return Stop(TRUNCATED); }
    ok, seqno := r.ReadUleb128();
    if !ok { return Stop(TRUNCATED); }
    if headerSize != r.offset || log2 > 4 { return Stop(FORMAT); }
    var f := Frame(typ, flags, headerSize, log2, size, seqno, offset, depth);
    var fits := FrameFits(f);
    if !fits { return Stop(RESOURCE); }
    if f.CrcEnd() > end { return Stop(TRUNCATED); }
    return Found(f);
  }

  /** The chain of checked additions that bounds a record's end offset. */
  method FrameFits(f: Frame) returns (ok: bool)
    requires f.headerSize <= U64_MAX && f.payloadSize <= U64_MAX && f.offset <= U64_MAX && f.alignLog2 <= 4
    ensures ok <==> f.CrcEnd() <= U64_MAX
  {
    hide IsPowerOfTwo;
    AlignmentsArePowers(f.alignLog2);
    AlignIsLeast(f.Unpadded(), Alignment(f.alignLog2), 0);
    var unpadded, end, padded, paddingEnd, crcEnd;
    ok, unpadded := CheckedAdd(f.headerSize, f.payloadSize);
    if !ok { return; }
    ok, end := CheckedAdd(f.offset, unpadded);
    if !ok { return; }
    ok, padded := Align(unpadded, Alignment(f.alignLog2));
    if !ok { PaddingOverflows(unpadded, f.alignLog2); return; }
    ok, paddingEnd := CheckedAdd(f.offset, padded);
    if !ok { return; }
    ok, crcEnd := CheckedAdd(paddingEnd, 4);
  }

  /** When rounding up overflows, so does the rounded size: 2^64 is a multiple of every alignment. */
  lemma PaddingOverflows(v: nat, log2: nat)
    requires v <= U64_MAX < v + (Alignment(log2) - 1)
    ensures AlignUp(v, Alignment(log2)) > U64_MAX
  {
    var s := v + (Alignment(log2) - 1) - 0x1_0000_0000_0000_0000;
    assert 0 <= s < 15;
    assert (s + 0x1_0000_0000_0000_0000) % Alignment(log2) <= s;
  }

  /** The padding loop. */
  method PaddingIsZero(data: bytes, begin: nat, end: nat) returns (zero: bool)
    requires begin <= end <= |data|
    ensures zero == AllZero(data[begin..end])
  {
    for i := begin to end
      invariant forall j :: begin <= j < i ==> data[j] == 0
    {
      if data[i] != 0 {
        assert data[begin..end][i - begin] == data[i];
        return false;
      }
    }
    return true;
  }

  lemma IntegrityFields(data: bytes, f: Frame)
    requires f.CrcEnd() <= |data|
    ensures var w := data[f.offset..];
            && w[f.Unpadded()..f.Padded()] == data[f.PayloadEnd()..f.PaddingEnd()]
            && w[..f.Padded()] == data[f.offset..f.PaddingEnd()]
            && U32At(w, f.Padded()) == U32At(data[f.PaddingEnd()..f.CrcEnd()], 0)
  {
    hide UnLE, AlignUp;
    assert data[f.offset..] == data[f.offset..|data|];
    SliceOfSlice(data, f.offset, |data|, f.Unpadded(), f.Padded());
    SliceOfSlice(data, f.offset, |data|, f.Padded(), f.Padded() + 4);
    SliceOfSlice(data, f.offset, |data|, 0, f.Padded());
    SliceOfSlice(data, f.PaddingEnd(), f.CrcEnd(), 0, 4);
  }

  method ValidateRecordIntegrity(data: bytes, f: Frame) returns (s: Status)
    requires f.CrcEnd() <= |data|
    ensures s == Integrity(data[f.offset..], f)
  {
    hide U32At, AlignUp, AllZero, Crc32c.Crc;
    IntegrityFields(data, f);
    var zero := PaddingIsZero(data, f.PayloadEnd(), f.PaddingEnd());
    if !zero { return FORMAT; }
    var r := new Reader(data[f.PaddingEnd()..f.CrcEnd()]);
    var ok, stored := r.ReadU32();
    var actual := Crc32c.ComputeCrc(data[f.offset..f.PaddingEnd()]);
    if stored != actual as int { return INTEGRITY; }
    return OK;
  }

  method ReadStream(p: bytes) returns (s: Option<StreamInfo>)
    ensures s == ParseStream(p)
  {
    hide U16At, U32At, ReadVarint;
    var r := new Reader(p);
    var ok, track, gen, kind, pad, codec, num, den, size, config;
    ok, track := r.ReadU32();
    if !ok { return None; }
    ok, gen := r.ReadU32();
    if !ok { return None; }
    ok, kind := r.ReadU16();
    if !ok { return None; }
    ok, pad := r.ReadBytes(2);
    if !ok { return None; }
    ok, codec := r.ReadU32();
    if !ok { return None; }
    ok, num := r.ReadU32();
    if !ok { return None; }
    ok, den := r.ReadU32();
    if !ok { return None; }
    ok, size := r.ReadUleb128();
    if !ok { return None; }
    ok, config := r.ReadBytes(size);
    if !ok || r.offset != |p| { return None; }
    assert config == p[|p| - size..];
    return Some(StreamInfo(track, gen, kind, codec, Rational(num, den), config));
  }

  method ReadPacket(p: bytes) returns (k: Option<PacketInfo>)
    ensures k == ParsePacket(p)
  {
    hide U32At, U64At, I64At, ReadVarint;
    var r := new Reader(p);
    var ok, track, gen, seqno, dts, pts, duration, flags, size, payload;
    ok, track := r.ReadU32();
    if !ok { return None; }
    ok, gen := r.ReadU32();
    if !ok { return None; }
    ok, seqno := r.ReadU64();
    if !ok { return None; }
    ok, dts := r.ReadI64();
    if !ok { return None; }
    ok, pts := r.ReadI64();
    if !ok { return None; }
    ok, duration := r.ReadI64();
    if !ok { return None; }
    ok, flags := r.ReadU32();
    if !ok { return None; }
    ok, size := r.ReadUleb128();
    if !ok { return None; }
    ok, payload := r.ReadBytes(size);
    if !ok || r.offset != |p| { return None; }
    assert payload == p[|p| - size..];
    return Some(PacketInfo(track, gen, seqno, dts, pts, duration, flags, payload));
  }
}
