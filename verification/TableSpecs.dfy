/**
  What the table validators accept, said without their loops: a payload is accepted if and only if its
  entries fill it exactly, each is sound on its own, and they are in order pairwise, not only as neighbours.
 */
module TableSpecs {
  import opened Base
  import opened Codec
  import opened Rationals
  import opened Format
  import opened Tables
  import Bits

  // ----- PACKET_TABLE

  function PacketAt(p: bytes, base: nat, k: nat): PacketEntry
    requires base + 52 * k + 52 <= |p|
  {
    var at := base + 52 * k;
    PacketEntry(U64At(p, at), I64At(p, at + 8), I64At(p, at + 16), I64At(p, at + 24), U32At(p, at + 32),
                U64At(p, at + 36), U64At(p, at + 44))
  }

  lemma PacketIsAt(p: bytes, base: nat, k: nat)
    requires base + 52 * k + 52 <= |p|
    ensures PacketAt(p, base, k) == PacketEntryAt(p, base + 52 * k)
  {
    hide U32At, U64At, I64At;
  }

  predicate PacketSound(e: PacketEntry) { e.duration >= 0 && e.RangeEnd() <= U64_MAX }

  predicate PacketBefore(a: PacketEntry, b: PacketEntry) {
    a.packetSeq < b.packetSeq && a.RangeEnd() <= b.rangeOffset
  }

  predicate PacketsFill(p: bytes, base: nat, n: nat) {
    && |p| == base + 52 * n
    && (forall k :: 0 <= k < n ==> PacketSound(PacketAt(p, base, k)))
    && (forall j, k :: 0 <= j < k < n ==> PacketBefore(PacketAt(p, base, j), PacketAt(p, base, k)))
  }

  lemma {:induction false} PacketsAccepted(p: bytes, base: nat, i: nat, n: nat, prevSeq: nat, prevEnd: nat)
    requires i <= n && PacketsFill(p, base, n)
    requires if i == 0 then prevEnd == 0
             else prevSeq == PacketAt(p, base, i - 1).packetSeq && prevEnd == PacketAt(p, base, i - 1).RangeEnd()
    ensures PacketEntries(p, base + 52 * i, i, n, prevSeq, prevEnd).Accepted?
    decreases n - i
  {
    hide PacketEntryAt, PacketAt;
    if i < n {
      var e := PacketAt(p, base, i);
      PacketIsAt(p, base, i);
      assert PacketSound(e);
      if i > 0 { assert PacketBefore(PacketAt(p, base, i - 1), e); }
      PacketsAccepted(p, base, i + 1, n, e.packetSeq, e.RangeEnd());
    }
  }

  lemma {:induction false} PacketsAreSound(p: bytes, base: nat, i: nat, n: nat, prevSeq: nat, prevEnd: nat, k: nat)
    requires base + 52 * i <= |p| && i <= k < n
    requires PacketEntries(p, base + 52 * i, i, n, prevSeq, prevEnd).Accepted?
    ensures base + 52 * k + 52 <= |p| && PacketSound(PacketAt(p, base, k))
    decreases n - i
  {
    hide PacketEntryAt, PacketAt;
    PacketIsAt(p, base, i);
    if i < k {
      var e := PacketAt(p, base, i);
      PacketsAreSound(p, base, i + 1, n, e.packetSeq, e.RangeEnd(), k);
    }
  }

  lemma PacketTableExactly(p: bytes, tracks: seq<Track>, lim: Limits)
    ensures StatusOf(CheckPacketTable(p, tracks, lim)) == OK
       <==> && |p| >= 8 && ReadVarint(p[8..], 0).Some?
            && var n := ReadVarint(p[8..], 0).value;
            && n.value <= lim.maxPacketTableEntries && HasTrack(tracks, U32At(p, 0), U32At(p, 4))
            && PacketsFill(p, 8 + n.size, n.value)
  {
    hide ReadVarint, HasTrack, U32At, PacketEntryAt, PacketEntries, PacketSound, PacketAt;
    if |p| >= 8 && ReadVarint(p[8..], 0).Some? {
      var n := ReadVarint(p[8..], 0).value;
      var base := 8 + n.size;
      if PacketsFill(p, base, n.value) { PacketsAccepted(p, base, 0, n.value, 0, 0); }
      if CheckPacketTable(p, tracks, lim).Accepted? {
        PacketTableOrdered(p, tracks, lim);
        var es := CheckPacketTable(p, tracks, lim).entries;
        forall k | 0 <= k < n.value
          ensures PacketSound(PacketAt(p, base, k)) && es[k] == PacketAt(p, base, k)
        {
          PacketsAreSound(p, base, 0, n.value, 0, 0, k);
          PacketIsAt(p, base, k);
        }
      }
    }
  }

  // ----- EDIT_LIST

  function EditOf(p: bytes, base: nat, k: nat): Edit
    requires base + 32 * k + 32 <= |p|
  {
    var at := base + 32 * k;
    Edit(I64At(p, at), I64At(p, at + 8), I64At(p, at + 16), Rational(U32At(p, at + 24), U32At(p, at + 28)))
  }

  lemma EditIsOf(p: bytes, base: nat, k: nat)
    requires base + 32 * k + 32 <= |p|
    ensures EditOf(p, base, k) == EditAt(p, base + 32 * k)
  {
    hide U32At, I64At;
  }

  predicate EditSound(e: Edit) { e.outputDuration >= 0 && e.OutputEnd() <= I64_MAX && IsReduced(e.rate) }

  /** The `n` edits at `base` are there, sound and in order; bytes may follow. */
  predicate EditsHold(p: bytes, base: nat, n: nat) {
    && base + 32 * n <= |p|
    && (forall k :: 0 <= k < n ==> EditSound(EditOf(p, base, k)))
    && (forall j, k :: 0 <= j < k < n ==> EditOf(p, base, j).OutputEnd() <= EditOf(p, base, k).outputStart)
  }

  predicate EditsFill(p: bytes, base: nat, n: nat) { |p| == base + 32 * n && EditsHold(p, base, n) }

  /** Edits `i` on, given where the one before ends: all good and nothing left, all good and bytes left, or not. */
  lemma {:induction false} EditStatus(p: bytes, base: nat, i: nat, n: nat, prevEnd: int)
    requires i <= n && base + 32 * i <= |p|
    ensures var good := && base + 32 * n <= |p|
                        && (forall k :: i <= k < n ==> EditSound(EditOf(p, base, k)))
                        && (forall j, k :: i <= j < k < n ==> EditOf(p, base, j).OutputEnd() <= EditOf(p, base, k).outputStart)
                        && (0 < i < n ==> prevEnd <= EditOf(p, base, i).outputStart);
            StatusOf(EditEntries(p, base + 32 * i, i, n, prevEnd))
            == if !good then TIMELINE else if |p| == base + 32 * n then OK else FORMAT
    decreases n - i
  {
    hide EditAt, EditOf, IsReduced;
    if i < n && base + 32 * i + 32 <= |p| {
      EditIsOf(p, base, i);
      EditStatus(p, base, i + 1, n, EditOf(p, base, i).OutputEnd());
    }
  }

  /** The verdict on an EDIT_LIST payload. */
  lemma EditListExactly(p: bytes, tracks: seq<Track>, lim: Limits)
    ensures StatusOf(CheckEditList(p, tracks, lim))
         == if && |p| >= 8 && ReadVarint(p[8..], 0).Some?
               && ReadVarint(p[8..], 0).value.value <= lim.maxEditEntries && HasTrack(tracks, U32At(p, 0), U32At(p, 4))
            then
              var n := ReadVarint(p[8..], 0).value;
              if EditsFill(p, 8 + n.size, n.value) then OK
              else if EditsHold(p, 8 + n.size, n.value) then FORMAT
              else TIMELINE
            else TIMELINE
  {
    hide ReadVarint, HasTrack, U32At, EditEntries, EditSound, EditOf;
    if |p| >= 8 && ReadVarint(p[8..], 0).Some? {
      var n := ReadVarint(p[8..], 0).value;
      EditStatus(p, 8 + n.size, 0, n.value, I64_MIN);
    }
  }

  // ----- INDEX_DIRECTORY

  function IndexOf(p: bytes, base: nat, k: nat): IndexEntry
    requires base + 32 * k + 32 <= |p|
  {
    var at := base + 32 * k;
    IndexEntry(U64At(p, at), I64At(p, at + 8), I64At(p, at + 16), U64At(p, at + 24))
  }

  lemma IndexIsOf(p: bytes, base: nat, k: nat)
    requires base + 32 * k + 32 <= |p|
    ensures IndexOf(p, base, k) == IndexEntryAt(p, base + 32 * k)
  {
    hide U64At, I64At;
  }

  predicate IndexSound(e: IndexEntry, recordOffset: nat) {
    0 <= e.startTime <= e.endTime && HEADER_SIZE <= e.offset < recordOffset
  }

  predicate IndexBefore(a: IndexEntry, b: IndexEntry) { a.generation < b.generation && a.endTime <= b.startTime }

  predicate IndexFills(p: bytes, base: nat, n: nat, recordOffset: nat) {
    && |p| == base + 32 * n
    && (forall k :: 0 <= k < n ==> IndexSound(IndexOf(p, base, k), recordOffset))
    && (forall j, k :: 0 <= j < k < n ==> IndexBefore(IndexOf(p, base, j), IndexOf(p, base, k)))
  }

  lemma {:induction false} IndexAccepted(
    p: bytes, base: nat, i: nat, n: nat, prevGen: nat, prevEnd: nat, recordOffset: nat)
    requires i <= n && IndexFills(p, base, n, recordOffset)
    requires i > 0 ==> prevGen == IndexOf(p, base, i - 1).generation && prevEnd == IndexOf(p, base, i - 1).endTime
    ensures IndexEntries(p, base + 32 * i, i, n, prevGen, prevEnd, recordOffset).Accepted?
    decreases n - i
  {
    hide IndexEntryAt, IndexOf;
    if i < n {
      var e := IndexOf(p, base, i);
      IndexIsOf(p, base, i);
      assert IndexSound(e, recordOffset);
      if i > 0 { assert IndexBefore(IndexOf(p, base, i - 1), e); }
      IndexAccepted(p, base, i + 1, n, e.generation, e.endTime, recordOffset);
    }
  }

  lemma {:induction false} IndexPlaced(
    p: bytes, base: nat, i: nat, n: nat, prevGen: nat, prevEnd: nat, recordOffset: nat, k: nat)
    requires base + 32 * i <= |p| && i <= k < n
    requires IndexEntries(p, base + 32 * i, i, n, prevGen, prevEnd, recordOffset).Accepted?
    ensures base + 32 * k + 32 <= |p|
    ensures var es := IndexEntries(p, base + 32 * i, i, n, prevGen, prevEnd, recordOffset).entries;
            k - i < |es| && es[k - i] == IndexOf(p, base, k)
    decreases n - i
  {
    hide IndexEntryAt, IndexOf;
    IndexIsOf(p, base, i);
    if i < k {
      var e := IndexOf(p, base, i);
      IndexPlaced(p, base, i + 1, n, e.generation, e.endTime, recordOffset, k);
    }
  }

  lemma IndexDirectoryExactly(p: bytes, recordOffset: nat)
    ensures StatusOf(CheckIndexDirectory(p, recordOffset)) == OK
       <==> && ReadVarint(p, 0).Some?
            && var n := ReadVarint(p, 0).value;
            IndexFills(p, n.size, n.value, recordOffset)
  {
    hide ReadVarint, IndexEntryAt, IndexEntries, IndexOf;
    if ReadVarint(p, 0).Some? {
      var n := ReadVarint(p, 0).value;
      if IndexFills(p, n.size, n.value, recordOffset) { IndexAccepted(p, n.size, 0, n.value, 0, 0, recordOffset); }
      if CheckIndexDirectory(p, recordOffset).Accepted? {
        IndexDirectoryOrdered(p, recordOffset);
        var es := CheckIndexDirectory(p, recordOffset).entries;
        forall k | 0 <= k < n.value
          ensures n.size + 32 * k + 32 <= |p| && es[k] == IndexOf(p, n.size, k)
        {
          IndexPlaced(p, n.size, 0, n.value, 0, 0, recordOffset, k);
        }
      }
    }
  }

  // ----- SEEK_INDEX

  datatype SeekEntry = SeekEntry(trackId: u32, generation: u32, pts: i64, group: u64, record: u64) {
    /** The track in the upper half of the word, XOR the time clamped at zero. */
    function Key(): nat { Bits.Xor(0x1_0000_0000 * trackId, if pts >= 0 then pts else 0) }
  }

  function SeekOf(p: bytes, base: nat, k: nat): SeekEntry
    requires base + 40 * k + 40 <= |p|
  {
    var at := base + 40 * k;
    SeekEntry(U32At(p, at), U32At(p, at + 4), I64At(p, at + 16), U64At(p, at + 24), U64At(p, at + 32))
  }

  predicate SeekSound(e: SeekEntry, recordOffset: nat, tracks: seq<Track>) {
    HasTrack(tracks, e.trackId, e.generation) && HEADER_SIZE <= e.group <= e.record < recordOffset
  }

  predicate SeekFills(p: bytes, base: nat, n: nat, recordOffset: nat, tracks: seq<Track>) {
    && |p| == base + 40 * n
    && (forall k :: 0 <= k < n ==> SeekSound(SeekOf(p, base, k), recordOffset, tracks))
    && (forall j, k :: 0 <= j < k < n ==> SeekOf(p, base, j).Key() <= SeekOf(p, base, k).Key())
  }

  /** The suffix from entry `i` on, given that the neighbour before it has key `prevKey`. */
  lemma {:induction false} SeekExactly(
    p: bytes, base: nat, i: nat, n: nat, prevKey: nat, recordOffset: nat, tracks: seq<Track>)
    requires i <= n && base + 40 * i <= |p|
    ensures SeekEntries(p, base + 40 * i, i, n, prevKey, recordOffset, tracks) == OK
       <==> && |p| == base + 40 * n
            && (forall k :: i <= k < n ==> SeekSound(SeekOf(p, base, k), recordOffset, tracks))
            && (forall j, k :: i <= j < k < n ==> SeekOf(p, base, j).Key() <= SeekOf(p, base, k).Key())
            && (0 < i < n ==> prevKey <= SeekOf(p, base, i).Key())
    decreases n - i
  {
    hide HasTrack, U32At, U64At, I64At;
    if i < n && base + 40 * i + 40 <= |p| {
      SeekExactly(p, base, i + 1, n, SeekOf(p, base, i).Key(), recordOffset, tracks);
    }
  }

  lemma SeekIndexExactly(p: bytes, recordOffset: nat, tracks: seq<Track>)
    ensures CheckSeekIndex(p, recordOffset, tracks) == OK
       <==> && |p| >= 8 && ReadVarint(p[8..], 0).Some?
            && var n := ReadVarint(p[8..], 0).value;
            SeekFills(p, 8 + n.size, n.value, recordOffset, tracks)
  {
    hide ReadVarint, SeekEntries, SeekOf, SeekSound;
    if |p| >= 8 && ReadVarint(p[8..], 0).Some? {
      var n := ReadVarint(p[8..], 0).value;
      SeekExactly(p, 8 + n.size, 0, n.value, 0, recordOffset, tracks);
    }
  }

  // ----- CHECKPOINT

  function TrackOf(p: bytes, base: nat, k: nat): (u32, u32)
    requires base + 8 * k + 8 <= |p|
  {
    (U32At(p, base + 8 * k), U32At(p, base + 8 * k + 4))
  }

  predicate IsKnown(key: (u32, u32), tracks: seq<Track>) { HasTrack(tracks, key.0, key.1) }

  predicate TracksFill(p: bytes, base: nat, i: nat, n: nat, tracks: seq<Track>) {
    |p| == base + 8 * n && forall k :: i <= k < n ==> IsKnown(TrackOf(p, base, k), tracks)
  }

  lemma {:induction false} CheckpointEntriesExactly(p: bytes, base: nat, i: nat, n: nat, tracks: seq<Track>)
    requires i <= n && base + 8 * i <= |p|
    ensures CheckpointEntries(p, base + 8 * i, i, n, tracks) == OK <==> TracksFill(p, base, i, n, tracks)
    decreases n - i
  {
    hide HasTrack, U32At;
    if i < n && base + 8 * i + 8 <= |p| {
      CheckpointEntriesExactly(p, base, i + 1, n, tracks);
      var key := TrackOf(p, base, i);
      assert IsKnown(key, tracks) <==> HasTrack(tracks, U32At(p, base + 8 * i), U32At(p, base + 8 * i + 4));
    }
  }

  lemma CheckpointExactly(p: bytes, recordOffset: nat, tracks: seq<Track>, lim: Limits)
    ensures CheckCheckpoint(p, recordOffset, tracks, lim) == OK
       <==> && |p| >= 48 && ReadVarint(p[48..], 0).Some?
            && var n := ReadVarint(p[48..], 0).value;
            && U64At(p, 8) <= recordOffset && n.value <= lim.maxTracks
            && TracksFill(p, 48 + n.size, 0, n.value, tracks)
  {
    hide ReadVarint, CheckpointEntries, U64At, TracksFill;
    if |p| >= 48 && ReadVarint(p[48..], 0).Some? {
      var n := ReadVarint(p[48..], 0).value;
      CheckpointEntriesExactly(p, 48 + n.size, 0, n.value, tracks);
    }
  }
}
