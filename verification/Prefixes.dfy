/** How a parse of a prefix relates to a parse of the whole: the facts behind streaming and recovery. */
module Prefixes {
  import opened Base
  import opened Codec
  import opened Format
  import opened Parser
  import opened Rationals
  import Crc32c

  // ----- one record

  lemma FieldsAgree(w: bytes, v: bytes)
    requires |w| >= 8 && |v| >= 8 && w[..8] == v[..8]
    ensures U16At(w, 0) == U16At(v, 0) && U16At(w, 2) == U16At(v, 2) && U16At(w, 4) == U16At(v, 4) && w[6] == v[6]
  {
    hide UnLE;
    assert w[..8] == w[0..8] && v[..8] == v[0..8];
    SliceOfSlice(w, 0, 8, 0, 2);
    SliceOfSlice(v, 0, 8, 0, 2);
    SliceOfSlice(w, 0, 8, 2, 4);
    SliceOfSlice(v, 0, 8, 2, 4);
    SliceOfSlice(w, 0, 8, 4, 6);
    SliceOfSlice(v, 0, 8, 4, 6);
    assert w[6] == w[..8][6] && v[6] == v[..8][6];
  }

  lemma VarintAgrees(s: bytes, t: bytes)
    requires ReadVarint(s, 0).Some?
    requires ReadVarint(s, 0).value.size <= |t|
    requires t[..ReadVarint(s, 0).value.size] == s[..ReadVarint(s, 0).value.size]
    ensures ReadVarint(t, 0) == ReadVarint(s, 0)
  {
    hide ReadVarint, Uleb;
    var Varint(v, n) := ReadVarint(s, 0).value;
    VarintBijection(0, [], s);
    VarintBijection(v, t[n..], s);
    assert t == Uleb(v) + t[n..];
  }

  /** Slices inside a common prefix agree. */
  lemma SlicesAgree<T>(w: seq<T>, v: seq<T>, h: nat, a: nat, n: nat)
    requires a + n <= h <= |w| && h <= |v| && w[..h] == v[..h]
    ensures w[a..][..n] == v[a..][..n]
  {
    forall i | 0 <= i < n
      ensures w[a..][..n][i] == v[a..][..n][i]
    {
      assert w[a..][..n][i] == w[..h][a + i] && v[a..][..n][i] == v[..h][a + i];
    }
  }

  /** The sizes read from a window depend on the header bytes only. */
  lemma SizesAgree(w: bytes, v: bytes)
    requires |w| >= 8 && |v| >= 8 && ReadSizes(w).Some?
    requires var h := ReadSizes(w).value.HeaderSize(); h <= |v| && w[..h] == v[..h]
    ensures ReadSizes(v) == ReadSizes(w)
  {
    hide ReadVarint;
    var z := ReadSizes(w).value;
    var h, a := z.HeaderSize(), 8 + z.payload.size;
    SlicesAgree(w, v, h, 8, z.payload.size);
    VarintAgrees(w[8..], v[8..]);
    SlicesAgree(w, v, h, a, z.sequence.size);
    VarintAgrees(w[a..], v[a..]);
  }

  /** A verdict on a prefix other than "more bytes needed" is final. */
  lemma DecodePrefixExtends(w: bytes, x: bytes, offset: nat, depth: nat)
    requires DecodePrefix(w, offset, depth) != Stop(TRUNCATED)
    ensures DecodePrefix(w + x, offset, depth) == DecodePrefix(w, offset, depth)
  {
    hide ReadSizes, U16At, AlignUp;
    var h := ReadSizes(w).value.HeaderSize();
    assert (w + x)[..h] == w[..h] && (w + x)[..8] == w[..8];
    SizesAgree(w, w + x);
    FieldsAgree(w, w + x);
  }

  /** A record's frame is decided by its header bytes and by the window being long enough. */
  lemma DecodePrefixSame(w: bytes, v: bytes, offset: nat, depth: nat)
    requires DecodePrefix(w, offset, depth).Found?
    requires var f := DecodePrefix(w, offset, depth).frame;
             f.Size() <= |v| && v[..f.headerSize] == w[..f.headerSize]
    ensures DecodePrefix(v, offset, depth) == DecodePrefix(w, offset, depth)
  {
    hide ReadSizes, U16At, AlignUp;
    var h := ReadSizes(w).value.HeaderSize();
    assert w[..8] == w[..h][..8] && v[..8] == v[..h][..8];
    FieldsAgree(w, v);
    SizesAgree(w, v);
  }

  lemma IntegrityExtends(w: bytes, x: bytes, f: Frame)
    requires f.Size() <= |w|
    ensures Integrity(w + x, f) == Integrity(w, f)
  {
    hide AllZero, UnLE, AlignUp, Crc32c.Crc;
    var n := f.Padded();
    assert (w + x)[f.Unpadded()..n] == w[f.Unpadded()..n];
    assert (w + x)[n..n + 4] == w[n..n + 4];
    assert (w + x)[..n] == w[..n];
  }

  /** A verdict on a record other than "more bytes needed" is final. */
  lemma NextRecordExtends(w: bytes, x: bytes, offset: nat, depth: nat, lim: Limits)
    requires NextRecord(w, offset, depth, lim) != Stop(TRUNCATED)
    ensures NextRecord(w + x, offset, depth, lim) == NextRecord(w, offset, depth, lim)
  {
    hide DecodePrefix, Integrity;
    DecodePrefixExtends(w, x, offset, depth);
    if DecodePrefix(w, offset, depth).Found? { IntegrityExtends(w, x, DecodePrefix(w, offset, depth).frame); }
  }

  /** Cutting a good record short turns it into a truncated one, never into a bad one. */
  lemma NextRecordCut(w: bytes, k: nat, offset: nat, depth: nat, lim: Limits)
    requires NextRecord(w, offset, depth, lim).Found? && k < NextRecord(w, offset, depth, lim).frame.Size()
    ensures NextRecord(w[..k], offset, depth, lim) == Stop(TRUNCATED)
  {
    hide NextRecord;
    assert w[..k] + w[k..] == w;
    if NextRecord(w[..k], offset, depth, lim) != Stop(TRUNCATED) {
      NextRecordExtends(w[..k], w[k..], offset, depth, lim);
    }
  }

  /** The bytes after a good record do not matter to it. */
  lemma NextRecordWithin(w: bytes, k: nat, offset: nat, depth: nat, lim: Limits)
    requires NextRecord(w, offset, depth, lim).Found?
    requires NextRecord(w, offset, depth, lim).frame.Size() <= k <= |w|
    ensures NextRecord(w[..k], offset, depth, lim) == NextRecord(w, offset, depth, lim)
  {
    hide DecodePrefix, Integrity, AlignUp;
    var f := DecodePrefix(w, offset, depth).frame;
    assert w[..k][..f.headerSize] == w[..f.headerSize];
    DecodePrefixSame(w, w[..k], offset, depth);
    assert w == w[..k] + w[k..];
    IntegrityExtends(w[..k], w[k..], f);
  }

  // ----- the header

  /** Only a short header is truncated, and no header is ever partial. */
  lemma HeaderLength(data: bytes, lim: Limits)
    ensures ValidateHeader(data, lim) == TRUNCATED <==> |data| < HEADER_SIZE
    ensures ValidateHeader(data, lim) == OK ==> HEADER_SIZE <= |data|
    ensures ValidateHeader(data, lim) != PARTIAL
  {}

  lemma HeaderAgrees(data: bytes, k: nat, lim: Limits)
    requires HEADER_SIZE <= k <= |data|
    ensures ValidateHeader(data[..k], lim) == ValidateHeader(data, lim)
  {
    hide IsReduced, AllZero, UnLE, Crc32c.Crc;
    var d := data[..k];
    SliceOfPrefix(data, k, 8, 10);
    SliceOfPrefix(data, k, 12, 28);
    SliceOfPrefix(data, k, 28, 32);
    SliceOfPrefix(data, k, 32, 36);
    SliceOfPrefix(data, k, 36, 44);
    SliceOfPrefix(data, k, 52, 60);
    SliceOfPrefix(data, k, 68, 72);
    assert d[..8] == data[..8] && d[..68] == data[..68];
  }

  // ----- whole parses

  lemma {:induction false} ProcessAgrees(data: bytes, x: bytes, f: Frame, lim: Limits, st: State)
    requires f.CrcEnd() <= |data| && 10 <= f.headerSize
    ensures ProcessRecord(data + x, f, lim, st) == ProcessRecord(data, f, lim, st)
    decreases f.Size(), 0
  {
    hide ProcessLeaf, CheckGroup, ParseRecords, AlignUp;
    assert (data + x)[f.PayloadOffset()..f.PayloadEnd()] == data[f.PayloadOffset()..f.PayloadEnd()];
    assert (data + x)[..f.offset] == data[..f.offset];
    var st1 := Report(st, f.Seen());
    if IsGroup(f) && CheckGroup(data[f.PayloadOffset()..f.PayloadEnd()], f, lim) == OK {
      ParseAgrees(data, x, f.PayloadOffset() + GROUP_META_SIZE, f.PayloadEnd(), (f.depth + 1) % 256, lim, st1);
    }
  }

  /** A parse looks at nothing past its end. */
  lemma {:induction false} ParseAgrees(
    data: bytes, x: bytes, begin: nat, end: nat, depth: nat, lim: Limits, st: State)
    requires begin <= end <= |data|
    ensures ParseRecords(data + x, begin, end, depth, lim, st) == ParseRecords(data, begin, end, depth, lim, st)
    decreases end - begin, 1
  {
    hide NextRecord, ProcessRecord, AlignUp;
    if begin < end {
      assert (data + x)[begin..end] == data[begin..end];
      match NextRecord(data[begin..end], begin, depth, lim)
      case Stop(_) =>
      case Found(f) =>
        ProcessAgrees(data, x, f, lim, st);
        var o := ProcessRecord(data, f, lim, st);
        if o.status == OK { ParseAgrees(data, x, f.CrcEnd(), end, depth, lim, Advance(o.st, f.CrcEnd())); }
    }
  }

  /**
    Parsing a prefix and then the rest from where it stopped is parsing the whole; a hard verdict on the
    prefix is the verdict on the whole.
   */
  lemma {:induction false} ParseResumes(data: bytes, x: bytes, begin: nat, depth: nat, lim: Limits, st: State)
    requires st.prefix == begin <= |data|
    ensures var o := ParseRecords(data, begin, |data|, depth, lim, st);
            var full := ParseRecords(data + x, begin, |data + x|, depth, lim, st);
            && (o.status == OK ==> o.st.prefix == |data|)
            && (o.status == TRUNCATED ==> begin <= o.st.prefix < |data|)
            && (if o.status == OK || o.status == TRUNCATED
                then full == ParseRecords(data + x, o.st.prefix, |data + x|, depth, lim, o.st)
                else full == o)
    decreases |data| - begin
  {
    hide NextRecord, ProcessRecord, AlignUp;
    if begin < |data| {
      var w := data[begin..];
      assert data[begin..|data|] == w && (data + x)[begin..|data + x|] == w + x;
      if NextRecord(w, begin, depth, lim) != Stop(TRUNCATED) {
        NextRecordExtends(w, x, begin, depth, lim);
        match NextRecord(w, begin, depth, lim)
        case Stop(_) =>
        case Found(f) =>
          ProcessAgrees(data, x, f, lim, st);
          var o := ProcessRecord(data, f, lim, st);
          if o.status == OK { ParseResumes(data, x, f.CrcEnd(), depth, lim, Advance(o.st, f.CrcEnd())); }
          else { ProcessNotTruncated(data, f, lim, st); }
      }
    }
  }

  /** A complete record never asks for more bytes, whatever its children do. */
  lemma ProcessNotTruncated(data: bytes, f: Frame, lim: Limits, st: State)
    requires f.CrcEnd() <= |data| && 10 <= f.headerSize
    ensures ProcessRecord(data, f, lim, st).status != TRUNCATED
  {
    hide ParseRecords, ProcessLeaf, AlignUp;
  }

  /** A truncated parse stops at the start of the record it could not complete. */
  lemma {:induction false} TruncatedInside(data: bytes, begin: nat, end: nat, depth: nat, lim: Limits, st: State)
    requires begin <= end <= |data| && ParseRecords(data, begin, end, depth, lim, st).status == TRUNCATED
    ensures begin <= ParseRecords(data, begin, end, depth, lim, st).st.prefix < end
    decreases end - begin
  {
    hide NextRecord, ProcessRecord, AlignUp;
    match NextRecord(data[begin..end], begin, depth, lim)
    case Stop(_) =>
    case Found(f) =>
      ProcessNotTruncated(data, f, lim, st);
      var o := ProcessRecord(data, f, lim, st);
      TruncatedInside(data, f.CrcEnd(), end, depth, lim, Advance(o.st, f.CrcEnd()));
  }
}
