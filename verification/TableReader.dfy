/** The validation loops of `tide_emit_simple_record`, each shown to compute its specification in `Tables`. */
module TableReader {
  import opened Base
  import opened Codec
  import opened Rationals
  import opened Format
  import opened ByteReader
  import opened Checked64
  import Crc32c
  import opened Tables

  method FindTrack(tracks: seq<Track>, id: u32, generation: u32) returns (found: bool)
    ensures found == HasTrack(tracks, id, generation)
  {
    for i := 0 to |tracks|
      invariant forall j :: 0 <= j < i ==> tracks[j].trackId != id || tracks[j].generation != generation
    {
      if tracks[i].trackId == id && tracks[i].generation == generation { return true; }
    }
    return false;
  }

  method ReadPacketEntry(r: Reader) returns (ok: bool, e: PacketEntry)
    requires r.offset <= |r.data|
    modifies r
    ensures ok <==> old(r.offset) + 52 <= |r.data|
    ensures ok ==> e == PacketEntryAt(r.data, old(r.offset)) && r.offset == old(r.offset) + 52
  {
    hide U32At, U64At;
    var packetSeq, dts, pts, duration, flags, rangeOffset, rangeSize;
    e := PacketEntry(0, 0, 0, 0, 0, 0, 0);
    ok, packetSeq := r.ReadU64();
    if !ok { return; }
    ok, dts := r.ReadI64();
    if !ok { return; }
    ok, pts := r.ReadI64();
    if !ok { return; }
    ok, duration := r.ReadI64();
    if !ok { return; }
    ok, flags := r.ReadU32();
    if !ok { return; }
    ok, rangeOffset := r.ReadU64();
    if !ok { return; }
    ok, rangeSize := r.ReadU64();
    if !ok { return; }
    e := PacketEntry(packetSeq, dts, pts, duration, flags, rangeOffset, rangeSize);
  }

  method ValidatePacketTable(p: bytes, tracks: seq<Track>, lim: Limits) returns (s: Status)
    ensures s == StatusOf(CheckPacketTable(p, tracks, lim))
  {
    hide U32At, U64At, ReadVarint, HasTrack, PacketEntryAt;
    var r := new Reader(p);
    var ok, id, generation, count;
    ok, id := r.ReadU32();
    if !ok { return RESOURCE; }
    ok, generation := r.ReadU32();
    if !ok { return RESOURCE; }
    ok, count := r.ReadUleb128();
    if !ok || count > lim.maxPacketTableEntries { return RESOURCE; }
    var known := FindTrack(tracks, id, generation);
    if !known { return RESOURCE; }
    var prevSeq: nat, prevEnd: nat := 0, 0;
    for i := 0 to count
      invariant r.offset <= |p|
      invariant StatusOf(CheckPacketTable(p, tracks, lim))
             == StatusOf(PacketEntries(p, r.offset, i, count, prevSeq, prevEnd))
    {
      var e;
      ok, e := ReadPacketEntry(r);
      if !ok || e.duration < 0 { return FORMAT; }
      var fits, end := CheckedAdd(e.rangeOffset, e.rangeSize);
      if !fits || (i != 0 && e.packetSeq <= prevSeq) || e.rangeOffset < prevEnd { return FORMAT; }
      prevSeq := e.packetSeq;
      prevEnd := end;
    }
    if r.offset != |p| { return FORMAT; }
    return OK;
  }

  method ReadEdit(r: Reader) returns (ok: bool, e: Edit)
    requires r.offset <= |r.data|
    modifies r
    ensures ok <==> old(r.offset) + 32 <= |r.data|
    ensures ok ==> e == EditAt(r.data, old(r.offset)) && r.offset == old(r.offset) + 32
  {
    hide U32At, U64At;
    var outputStart, outputDuration, sourceStart, num, den;
    e := Edit(0, 0, 0, Rational(1, 1));
    ok, outputStart := r.ReadI64();
    if !ok { return; }
    ok, outputDuration := r.ReadI64();
    if !ok { return; }
    ok, sourceStart := r.ReadI64();
    if !ok { return; }
    ok, num := r.ReadU32();
    if !ok { return; }
    ok, den := r.ReadU32();
    if !ok { return; }
    e := Edit(outputStart, outputDuration, sourceStart, Rational(num, den));
  }

  method ValidateEditList(p: bytes, tracks: seq<Track>, lim: Limits) returns (s: Status)
    ensures s == StatusOf(CheckEditList(p, tracks, lim))
  {
    hide U32At, U64At, ReadVarint, HasTrack, EditAt, IsReduced;
    var r := new Reader(p);
    var ok, id, generation, count;
    ok, id := r.ReadU32();
    if !ok { return TIMELINE; }
    ok, generation := r.ReadU32();
    if !ok { return TIMELINE; }
    ok, count := r.ReadUleb128();
    if !ok || count > lim.maxEditEntries { return TIMELINE; }
    var known := FindTrack(tracks, id, generation);
    if !known { return TIMELINE; }
    var prevEnd := I64_MIN;
    for i := 0 to count
      invariant r.offset <= |p|
      invariant StatusOf(CheckEditList(p, tracks, lim)) == StatusOf(EditEntries(p, r.offset, i, count, prevEnd))
    {
      var e;
      ok, e := ReadEdit(r);
      if !ok || e.outputDuration < 0 || e.outputStart > I64_MAX - e.outputDuration || !IsReduced(e.rate) {
        return TIMELINE;
      }
      if i != 0 && e.outputStart < prevEnd { return TIMELINE; }
      prevEnd := e.outputStart + e.outputDuration;
    }
    if r.offset != |p| { return FORMAT; }
    return OK;
  }

  method ReadIndexEntry(r: Reader) returns (ok: bool, e: IndexEntry)
    requires r.offset <= |r.data|
    modifies r
    ensures ok <==> old(r.offset) + 32 <= |r.data|
    ensures ok ==> e == IndexEntryAt(r.data, old(r.offset)) && r.offset == old(r.offset) + 32
  {
    hide U32At, U64At;
    var generation, startTime, endTime, offset;
    e := IndexEntry(0, 0, 0, 0);
    ok, generation := r.ReadU64();
    if !ok { return; }
    ok, startTime := r.ReadI64();
    if !ok { return; }
    ok, endTime := r.ReadI64();
    if !ok { return; }
    ok, offset := r.ReadU64();
    if !ok { return; }
    e := IndexEntry(generation, startTime, endTime, offset);
  }

  method ValidateIndexDirectory(p: bytes, recordOffset: nat) returns (s: Status)
    ensures s == StatusOf(CheckIndexDirectory(p, recordOffset))
  {
    hide U32At, U64At, ReadVarint, IndexEntryAt;
    var r := new Reader(p);
    assert p[0..] == p;
    var ok, count := r.ReadUleb128();
    if !ok { return INDEX; }
    var prevGen: nat, prevEnd: nat := 0, 0;
    for i := 0 to count
      invariant r.offset <= |p|
      invariant StatusOf(CheckIndexDirectory(p, recordOffset))
             == StatusOf(IndexEntries(p, r.offset, i, count, prevGen, prevEnd, recordOffset))
    {
      var e;
      ok, e := ReadIndexEntry(r);
      if !ok || e.startTime < 0 || e.endTime < e.startTime || e.offset < HEADER_SIZE || e.offset >= recordOffset
         || (i != 0 && e.generation <= prevGen) || (i != 0 && e.startTime < prevEnd) {
        return INDEX;
      }
      prevGen := e.generation;
      prevEnd := e.endTime;
    }
    if r.offset != |p| { return INDEX; }
    return OK;
  }

  method ValidateSeekIndex(p: bytes, recordOffset: nat, tracks: seq<Track>) returns (s: Status)
    ensures s == CheckSeekIndex(p, recordOffset, tracks)
  {
    hide U32At, U64At, ReadVarint, HasTrack, SortKey;
    var r := new Reader(p);
    var ok, indexGeneration, count;
    ok, indexGeneration := r.ReadU64();
    if !ok { return INDEX; }
    ok, count := r.ReadUleb128();
    if !ok { return INDEX; }
    var prevKey: nat := 0;
    for i := 0 to count
      invariant r.offset <= |p|
      invariant CheckSeekIndex(p, recordOffset, tracks)
             == SeekEntries(p, r.offset, i, count, prevKey, recordOffset, tracks)
    {
      var id, generation, packetSeq, pts, group, record;
      ok, id := r.ReadU32();
      if !ok { return INDEX; }
      ok, generation := r.ReadU32();
      if !ok { return INDEX; }
      ok, packetSeq := r.ReadU64();
      if !ok { return INDEX; }
      ok, pts := r.ReadI64();
      if !ok { return INDEX; }
      ok, group := r.ReadU64();
      if !ok { return INDEX; }
      ok, record := r.ReadU64();
      if !ok { return INDEX; }
      var known := FindTrack(tracks, id, generation);
      if !known || group < HEADER_SIZE || record < group || record >= recordOffset { return INDEX; }
      var key := SortKey(id, pts);
      if i != 0 && key < prevKey { return INDEX; }
      prevKey := key;
    }
    if r.offset != |p| { return INDEX; }
    return OK;
  }

  method ValidateCheckpoint(p: bytes, recordOffset: nat, tracks: seq<Track>, lim: Limits) returns (s: Status)
    ensures s == CheckCheckpoint(p, recordOffset, tracks, lim)
  {
    hide U32At, U64At, ReadVarint, HasTrack;
    var r := new Reader(p);
    var ok, groupSequence, prefixOffset, digest, count;
    ok, groupSequence := r.ReadU64();
    if !ok { return FORMAT; }
    ok, prefixOffset := r.ReadU64();
    if !ok { return FORMAT; }
    ok, digest := r.ReadBytes(DIGEST_SIZE);
    if !ok { return FORMAT; }
    ok, count := r.ReadUleb128();
    if !ok || prefixOffset > recordOffset || count > lim.maxTracks { return FORMAT; }
    for i := 0 to count
      invariant r.offset <= |p|
      invariant CheckCheckpoint(p, recordOffset, tracks, lim) == CheckpointEntries(p, r.offset, i, count, tracks)
    {
      var id, generation;
      ok, id := r.ReadU32();
      if !ok { return FORMAT; }
      ok, generation := r.ReadU32();
      if !ok { return FORMAT; }
      var known := FindTrack(tracks, id, generation);
      if !known { return FORMAT; }
    }
    if r.offset != |p| { return FORMAT; }
    return OK;
  }

  method ValidateDiscontinuity(p: bytes, tracks: seq<Track>) returns (s: Status)
    ensures s == CheckDiscontinuity(p, tracks)
  {
    hide U32At, U64At, HasTrack;
    var r := new Reader(p);
    var ok, id, generation, epoch, reason;
    ok, id := r.ReadU32();
    if !ok { return FORMAT; }
    ok, generation := r.ReadU32();
    if !ok { return FORMAT; }
    ok, epoch := r.ReadU64();
    if !ok { return FORMAT; }
    ok, reason := r.ReadU32();
    if !ok || epoch == 0 || r.offset != |p| { return FORMAT; }
    var known := FindTrack(tracks, id, generation);
    if id != 0 && !known { return FORMAT; }
    return OK;
  }

  /** Fills the digest word by word. */
  method ComputeDigest(data: bytes) returns (digest: bytes)
    ensures digest == Digest(data)
  {
    hide DigestWord, LE;
    var base := Crc32c.ComputeCrc(data);
    digest := [];
    for i := 0 to 8
      invariant digest == DigestWords(base, i)
    {
      digest := digest + LE(4, DigestWord(base, i) as int);
    }
  }

  method ValidateFooter(p: bytes, f: Frame, before: bytes) returns (s: Status)
    ensures s == CheckFooter(p, f, before)
  {
    hide U64At, ReadVarint, Digest, AlignUp;
    var r := new Reader(p);
    var ok, fileLength, directory, lastCheckpoint, digest;
    ok, fileLength := r.ReadU64();
    if !ok { return FORMAT; }
    ok, directory := r.ReadU64();
    if !ok { return FORMAT; }
    ok, lastCheckpoint := r.ReadUleb128();
    if !ok { return FORMAT; }
    ok, digest := r.ReadBytes(DIGEST_SIZE);
    if !ok || r.offset != |p| || fileLength != f.CrcEnd()
       || (directory != 0 && (directory < HEADER_SIZE || directory >= f.offset)) {
      return FORMAT;
    }
    assert digest == p[|p| - DIGEST_SIZE..];
    var expected := ComputeDigest(before);
    if digest != expected { return INTEGRITY; }
    return OK;
  }
}
