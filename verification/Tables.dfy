/** The table-like records of `tide_emit_simple_record`: what the validator accepts, entry by entry. */
module Tables {
  import opened Base
  import opened Codec
  import opened Rationals
  import opened Format
  import Bits

  datatype Checked<T> = Rejected(status: Status) | Accepted(entries: seq<T>)

  function StatusOf<T>(c: Checked<T>): Status {
    match c case Rejected(s) => s case Accepted(_) => OK
  }

  function Prepend<T>(e: T, c: Checked<T>): Checked<T> {
    match c case Rejected(_) => c case Accepted(es) => Accepted([e] + es)
  }

  // ----- PACKET_TABLE

  datatype PacketEntry = PacketEntry(
    packetSeq: u64, dts: i64, pts: i64, duration: i64, flags: u32, rangeOffset: u64, rangeSize: u64)
  {
    function RangeEnd(): nat { rangeOffset + rangeSize }
  }

  function PacketEntryAt(p: bytes, at: nat): PacketEntry
    requires at + 52 <= |p|
  {
    PacketEntry(U64At(p, at), I64At(p, at + 8), I64At(p, at + 16), I64At(p, at + 24), U32At(p, at + 32),
                U64At(p, at + 36), U64At(p, at + 44))
  }

  /** Entries `i..count`, read from `at`, after a neighbour with sequence `prevSeq` ending at `prevEnd`. */
  function PacketEntries(p: bytes, at: nat, i: nat, count: nat, prevSeq: nat, prevEnd: nat)
    : (r: Checked<PacketEntry>)
    requires at <= |p| && i <= count
    ensures r.Rejected? ==> r.status == FORMAT
    decreases count - i
  {
    if i == count then if at != |p| then Rejected(FORMAT) else Accepted([])
    else if at + 52 > |p| then Rejected(FORMAT)
    else
      var e := PacketEntryAt(p, at);
      if e.duration < 0 || e.RangeEnd() > U64_MAX || (i != 0 && e.packetSeq <= prevSeq) || e.rangeOffset < prevEnd
      then Rejected(FORMAT)
      else Prepend(e, PacketEntries(p, at + 52, i + 1, count, e.packetSeq, e.RangeEnd()))
  }

  function CheckPacketTable(p: bytes, tracks: seq<Track>, lim: Limits): Checked<PacketEntry> {
    if |p| < 8 then Rejected(RESOURCE)
    else
      match ReadVarint(p[8..], 0)
      case None => Rejected(RESOURCE)
      case Some(n) =>
        if n.value > lim.maxPacketTableEntries || !HasTrack(tracks, U32At(p, 0), U32At(p, 4)) then Rejected(RESOURCE)
        else PacketEntries(p, 8 + n.size, 0, n.value, 0, 0)
  }

  lemma {:induction false} PacketEntriesOrdered(p: bytes, at: nat, i: nat, count: nat, prevSeq: nat, prevEnd: nat)
    requires at <= |p| && i <= count
    requires PacketEntries(p, at, i, count, prevSeq, prevEnd).Accepted?
    ensures var es := PacketEntries(p, at, i, count, prevSeq, prevEnd).entries;
            && |es| == count - i && at + 52 * |es| == |p|
            && (forall k :: 0 <= k < |es| ==> es[k].rangeOffset >= prevEnd && (i != 0 ==> es[k].packetSeq > prevSeq))
            && (forall j, k :: 0 <= j < k < |es| ==>
                  es[j].packetSeq < es[k].packetSeq && es[j].RangeEnd() <= es[k].rangeOffset)
    decreases count - i
  {
    hide PacketEntryAt;
    if i < count {
      var e := PacketEntryAt(p, at);
      PacketEntriesOrdered(p, at + 52, i + 1, count, e.packetSeq, e.RangeEnd());
    }
  }

  lemma {:induction false} PacketEntriesPlaced(p: bytes, at: nat, i: nat, count: nat, prevSeq: nat, prevEnd: nat, k: nat)
    requires at <= |p| && i <= count
    requires PacketEntries(p, at, i, count, prevSeq, prevEnd).Accepted?
    requires k < |PacketEntries(p, at, i, count, prevSeq, prevEnd).entries|
    ensures at + 52 * k + 52 <= |p|
    ensures PacketEntries(p, at, i, count, prevSeq, prevEnd).entries[k] == PacketEntryAt(p, at + 52 * k)
    decreases count - i
  {
    hide PacketEntryAt;
    if k > 0 {
      var e := PacketEntryAt(p, at);
      PacketEntriesPlaced(p, at + 52, i + 1, count, e.packetSeq, e.RangeEnd(), k - 1);
    }
  }

  /** Neighbour checks give a global order: all sequences increase and all byte ranges are disjoint. */
  lemma PacketTableOrdered(p: bytes, tracks: seq<Track>, lim: Limits)
    requires CheckPacketTable(p, tracks, lim).Accepted?
    ensures var es := CheckPacketTable(p, tracks, lim).entries;
            && ReadVarint(p[8..], 0).Some?
            && var n := ReadVarint(p[8..], 0).value;
            && |es| == n.value && |p| == 8 + n.size + 52 * |es|
            && (forall k :: 0 <= k < |es| ==> es[k] == PacketEntryAt(p, 8 + n.size + 52 * k))
            && (forall j, k :: 0 <= j < k < |es| ==>
                  es[j].packetSeq < es[k].packetSeq && es[j].RangeEnd() <= es[k].rangeOffset)
  {
    hide PacketEntryAt, PacketEntries, ReadVarint;
    var n := ReadVarint(p[8..], 0).value;
    PacketEntriesOrdered(p, 8 + n.size, 0, n.value, 0, 0);
    forall k | 0 <= k < |CheckPacketTable(p, tracks, lim).entries|
      ensures CheckPacketTable(p, tracks, lim).entries[k] == PacketEntryAt(p, 8 + n.size + 52 * k)
    {
      PacketEntriesPlaced(p, 8 + n.size, 0, n.value, 0, 0, k);
    }
  }

  // ----- EDIT_LIST

  datatype Edit = Edit(outputStart: i64, outputDuration: i64, sourceStart: i64, rate: Rational) {
    function OutputEnd(): int { outputStart + outputDuration }
    function SourceEnd(): int { sourceStart + outputDuration }
  }

  function EditAt(p: bytes, at: nat): Edit
    requires at + 32 <= |p|
  {
    Edit(I64At(p, at), I64At(p, at + 8), I64At(p, at + 16), Rational(U32At(p, at + 24), U32At(p, at + 28)))
  }

  function EditEntries(p: bytes, at: nat, i: nat, count: nat, prevEnd: int): (r: Checked<Edit>)
    requires at <= |p| && i <= count
    ensures r.Rejected? ==> r.status in {FORMAT, TIMELINE}
    decreases count - i
  {
    if i == count then if at != |p| then Rejected(FORMAT) else Accepted([])
    else if at + 32 > |p| then Rejected(TIMELINE)
    else
      var e := EditAt(p, at);
      if e.outputDuration < 0 || e.OutputEnd() > I64_MAX || !IsReduced(e.rate) || (i != 0 && e.outputStart < prevEnd)
      then Rejected(TIMELINE)
      else Prepend(e, EditEntries(p, at + 32, i + 1, count, e.OutputEnd()))
  }

  function CheckEditList(p: bytes, tracks: seq<Track>, lim: Limits): Checked<Edit> {
    if |p| < 8 then Rejected(TIMELINE)
    else
      match ReadVarint(p[8..], 0)
      case None => Rejected(TIMELINE)
      case Some(n) =>
        if n.value > lim.maxEditEntries || !HasTrack(tracks, U32At(p, 0), U32At(p, 4)) then Rejected(TIMELINE)
        else EditEntries(p, 8 + n.size, 0, n.value, I64_MIN)
  }

  /** Every edit is sound on its own and their output intervals are disjoint and in order. */
  predicate EditsOrdered(es: seq<Edit>) {
    && (forall k :: 0 <= k < |es| ==>
          0 <= es[k].outputDuration && es[k].OutputEnd() <= I64_MAX && IsReduced(es[k].rate))
    && (forall j, k :: 0 <= j < k < |es| ==> es[j].OutputEnd() <= es[k].outputStart)
  }

  lemma {:induction false} EditEntriesOrdered(p: bytes, at: nat, i: nat, count: nat, prevEnd: int)
    requires at <= |p| && i <= count
    requires EditEntries(p, at, i, count, prevEnd).Accepted?
    ensures var es := EditEntries(p, at, i, count, prevEnd).entries;
            && EditsOrdered(es) && |es| == count - i && at + 32 * |es| == |p|
            && (i != 0 ==> forall k :: 0 <= k < |es| ==> prevEnd <= es[k].outputStart)
    decreases count - i
  {
    hide EditAt, IsReduced;
    if i < count {
      EditEntriesOrdered(p, at + 32, i + 1, count, EditAt(p, at).OutputEnd());
    }
  }

  lemma EditListOrdered(p: bytes, tracks: seq<Track>, lim: Limits)
    requires CheckEditList(p, tracks, lim).Accepted?
    ensures var es := CheckEditList(p, tracks, lim).entries;
            EditsOrdered(es) && |es| <= lim.maxEditEntries
  {
    var n := ReadVarint(p[8..], 0).value;
    EditEntriesOrdered(p, 8 + n.size, 0, n.value, I64_MIN);
  }

  // ----- INDEX_DIRECTORY

  datatype IndexEntry = IndexEntry(generation: u64, startTime: i64, endTime: i64, offset: u64)

  function IndexEntryAt(p: bytes, at: nat): IndexEntry
    requires at + 32 <= |p|
  {
    IndexEntry(U64At(p, at), I64At(p, at + 8), I64At(p, at + 16), U64At(p, at + 24))
  }

  function IndexEntries(p: bytes, at: nat, i: nat, count: nat, prevGen: nat, prevEnd: nat, recordOffset: nat)
    : (r: Checked<IndexEntry>)
    requires at <= |p| && i <= count
    ensures r.Rejected? ==> r.status == INDEX
    decreases count - i
  {
    if i == count then if at != |p| then Rejected(INDEX) else Accepted([])
    else if at + 32 > |p| then Rejected(INDEX)
    else
      var e := IndexEntryAt(p, at);
      if e.startTime < 0 || e.endTime < e.startTime || e.offset < HEADER_SIZE || e.offset >= recordOffset
         || (i != 0 && e.generation <= prevGen) || (i != 0 && e.startTime < prevEnd)
      then Rejected(INDEX)
      else Prepend(e, IndexEntries(p, at + 32, i + 1, count, e.generation, e.endTime, recordOffset))
  }

  function CheckIndexDirectory(p: bytes, recordOffset: nat): Checked<IndexEntry> {
    match ReadVarint(p, 0)
    case None => Rejected(INDEX)
    case Some(n) => IndexEntries(p, n.size, 0, n.value, 0, 0, recordOffset)
  }

  lemma {:induction false} IndexEntriesOrdered(
    p: bytes, at: nat, i: nat, count: nat, prevGen: nat, prevEnd: nat, recordOffset: nat)
    requires at <= |p| && i <= count
    requires IndexEntries(p, at, i, count, prevGen, prevEnd, recordOffset).Accepted?
    ensures var es := IndexEntries(p, at, i, count, prevGen, prevEnd, recordOffset).entries;
            && |es| == count - i && at + 32 * |es| == |p|
            && (forall k :: 0 <= k < |es| ==> 0 <= es[k].startTime <= es[k].endTime
                                              && HEADER_SIZE <= es[k].offset < recordOffset)
            && (i != 0 ==> forall k :: 0 <= k < |es| ==> es[k].startTime >= prevEnd && es[k].generation > prevGen)
            && (forall j, k :: 0 <= j < k < |es| ==>
                  es[j].generation < es[k].generation && es[j].endTime <= es[k].startTime)
    decreases count - i
  {
    hide IndexEntryAt;
    if i < count {
      var e := IndexEntryAt(p, at);
      IndexEntriesOrdered(p, at + 32, i + 1, count, e.generation, e.endTime, recordOffset);
    }
  }

  /** Neighbour checks give a global order: generations increase and no two time ranges overlap. */
  lemma IndexDirectoryOrdered(p: bytes, recordOffset: nat)
    requires CheckIndexDirectory(p, recordOffset).Accepted?
    ensures var es := CheckIndexDirectory(p, recordOffset).entries;
            && ReadVarint(p, 0).Some?
            && var n := ReadVarint(p, 0).value;
            && |es| == n.value && |p| == n.size + 32 * |es|
            && (forall k :: 0 <= k < |es| ==> 0 <= es[k].startTime <= es[k].endTime
                                              && HEADER_SIZE <= es[k].offset < recordOffset)
            && (forall j, k :: 0 <= j < k < |es| ==>
                  es[j].generation < es[k].generation && es[j].endTime <= es[k].startTime)
  {
    var n := ReadVarint(p, 0).value;
    IndexEntriesOrdered(p, n.size, 0, n.value, 0, 0, recordOffset);
  }

  // ----- SEEK_INDEX

  /** The source's sort key: the track id in the upper half, xor the non-negative part of the time. */
  function SortKey(track: u32, pts: i64): nat {
    Bits.Xor(track * 0x1_0000_0000, if pts < 0 then 0 else pts)
  }

  function SeekEntries(p: bytes, at: nat, i: nat, count: nat, prevKey: nat, recordOffset: nat, tracks: seq<Track>)
    : (s: Status)
    requires at <= |p| && i <= count
    ensures s in {OK, INDEX}
    decreases count - i
  {
    if i == count then if at != |p| then INDEX else OK
    else if at + 40 > |p| then INDEX
    else
      var key := SortKey(U32At(p, at), I64At(p, at + 16));
      var group, record := U64At(p, at + 24), U64At(p, at + 32);
      if !HasTrack(tracks, U32At(p, at), U32At(p, at + 4)) || group < HEADER_SIZE || record < group
         || record >= recordOffset || (i != 0 && key < prevKey)
      then INDEX
      else SeekEntries(p, at + 40, i + 1, count, key, recordOffset, tracks)
  }

  function CheckSeekIndex(p: bytes, recordOffset: nat, tracks: seq<Track>): Status {
    if |p| < 8 then INDEX
    else
      match ReadVarint(p[8..], 0)
      case None => INDEX
      case Some(n) => SeekEntries(p, 8 + n.size, 0, n.value, 0, recordOffset, tracks)
  }

  // ----- CHECKPOINT, DISCONTINUITY, FOOTER

  function CheckpointEntries(p: bytes, at: nat, i: nat, count: nat, tracks: seq<Track>): (s: Status)
    requires at <= |p| && i <= count
    ensures s in {OK, FORMAT}
    decreases count - i
  {
    if i == count then if at != |p| then FORMAT else OK
    else if at + 8 > |p| || !HasTrack(tracks, U32At(p, at), U32At(p, at + 4)) then FORMAT
    else CheckpointEntries(p, at + 8, i + 1, count, tracks)
  }

  function CheckCheckpoint(p: bytes, recordOffset: nat, tracks: seq<Track>, lim: Limits): Status {
    if |p| < 48 then FORMAT
    else
      match ReadVarint(p[48..], 0)
      case None => FORMAT
      case Some(n) =>
        if U64At(p, 8) > recordOffset || n.value > lim.maxTracks then FORMAT
        else CheckpointEntries(p, 48 + n.size, 0, n.value, tracks)
  }

  function CheckDiscontinuity(p: bytes, tracks: seq<Track>): Status {
    if |p| != 20 || U64At(p, 8) == 0 || (U32At(p, 0) != 0 && !HasTrack(tracks, U32At(p, 0), U32At(p, 4)))
    then FORMAT else OK
  }

  function CheckFooter(p: bytes, f: Frame, before: bytes): Status {
    if |p| < 16 then FORMAT
    else
      match ReadVarint(p[16..], 0)
      case None => FORMAT
      case Some(n) =>
        var directory := U64At(p, 8);
        if |p| != 16 + n.size + DIGEST_SIZE || U64At(p, 0) != f.CrcEnd()
           || (directory != 0 && (directory < HEADER_SIZE || directory >= f.offset))
        then FORMAT
        else if p[16 + n.size..] != Digest(before) then INTEGRITY
        else OK
  }
}
