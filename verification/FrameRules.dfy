/** Headers and record frames by their bytes: exactly what is accepted, and which verdict everything else gets. */
module FrameRules {
  import opened Base
  import opened Codec
  import opened Rationals
  import opened Format
  import opened Checked64
  import opened Writer
  import opened Prefixes
  import opened RecordRules
  import Bits
  import Crc32c

  // ----- varints and signed integers

  /** The value of a varint: seven bits a byte, low group first. */
  function Sevens(s: bytes): nat { if s == [] then 0 else s[0] % 128 + 128 * Sevens(s[1..]) }

  lemma {:induction false} UlebValue(v: nat)
    ensures Sevens(Uleb(v)) == v
  {
    hide Uleb;
    UlebUnfold(v);
    if v >= 128 {
      UlebValue(v / 128);
      assert Uleb(v)[1..] == Uleb(v / 128);
    } else {
      assert Uleb(v) == [v] && [v][1..] == [];
      assert Sevens([]) == 0;
    }
  }

  /** All bytes but the last announce another, the last does not, and it is zero only if it is the only one. */
  lemma {:induction false} UlebShape(v: nat)
    ensures var s := Uleb(v);
            && (forall i :: 0 <= i < |s| - 1 ==> s[i] >= 128)
            && s[|s| - 1] < 128 && (v > 0 ==> s[|s| - 1] != 0)
  {
    hide Uleb;
    UlebUnfold(v);
    if v >= 128 {
      UlebShape(v / 128);
      Continued(v % 128 + 128, Uleb(v / 128));
    }
  }

  lemma Continued(b: byte, t: bytes)
    requires b >= 128 && |t| > 0 && forall i :: 0 <= i < |t| - 1 ==> t[i] >= 128
    ensures var s := [b] + t;
            s[|s| - 1] == t[|t| - 1] && forall i :: 0 <= i < |s| - 1 ==> s[i] >= 128
  {}

  /** A signed field is the number in its range that has the same residue. */
  lemma SignedSpelled(v: u64)
    ensures (Signed(v) - v) % 0x1_0000_0000_0000_0000 == 0 && -0x8000_0000_0000_0000 <= Signed(v) < 0x8000_0000_0000_0000
  {}

  lemma AlignmentSpelled(log2: nat)
    requires log2 <= 4
    ensures Alignment(log2) == Bits.Ones(log2) + 1
  {
    assert Bits.Ones(1) == 1;
    assert Bits.Ones(2) == 3;
    assert Bits.Ones(3) == 7;
  }

  // ----- the file header

  lemma MagicSpelled()
    ensures MAGIC == [0x54, 0x49, 0x44, 0x45, 0x31, 0x0D, 0x0A, 0x1A]
  {}

  /** The verdict on a header, check by check, in the order of the code. */
  lemma HeaderVerdict(data: bytes, lim: Limits)
    ensures ValidateHeader(data, lim)
         == if |data| < 72 then TRUNCATED
            else if data[..8] != MAGIC then FORMAT
            else if data[8..10] != LE(2, 1) then UNSUPPORTED
            else if AllZero(data[12..28]) then FORMAT
            else if !IsReduced(Rational(U32At(data, 28), U32At(data, 32))) then TIMELINE
            else if !AllZero(data[36..44]) then UNSUPPORTED
            else if U64At(data, 52) > lim.maxRecordSize then RESOURCE
            else if data[68..72] != LE(4, Crc32c.Crc(data[..68]) as int) then INTEGRITY
            else OK
  {
    hide U16At, U32At, U64At, AllZero, LE, IsReduced, Crc32c.Crc;
    if |data| >= 72 {
      ShortField(data, 8, 1);
      ZeroWord(data, 36);
      StoredWord(data, 68, Crc32c.Crc(data[..68]) as int);
    }
  }

  lemma ZeroSlice(data: bytes, a: nat, b: nat)
    requires a <= b <= |data|
    ensures AllZero(data[a..b]) <==> forall i :: a <= i < b ==> data[i] == 0
  {
    if AllZero(data[a..b]) {
      forall i | a <= i < b ensures data[i] == 0 { assert data[i] == data[a..b][i - a]; }
    }
  }

  lemma ZeroWord(data: bytes, at: nat)
    requires at + 8 <= |data|
    ensures U64At(data, at) == 0 <==> AllZero(data[at..at + 8])
  {
    hide UnLE, AllZero;
    ZeroFields(data[at..at + 8]);
  }

  /** A stored word equals `v` exactly when its bytes are those of `v`. */
  lemma StoredWord(data: bytes, at: nat, v: u32)
    requires at + 4 <= |data|
    ensures U32At(data, at) == v <==> data[at..at + 4] == LE(4, v)
  {
    hide LE, UnLE;
    FieldIs(data, at, 4);
    Widths();
    LERoundTrip(4, v);
  }

  /** What the writer puts in a header, place by place. */
  lemma HeaderSpelled(base: Rational, uuid: bytes)
    requires |uuid| == 16
    ensures var h := FileHeader(base, uuid);
            && |h| == 72 && h[..8] == [0x54, 0x49, 0x44, 0x45, 0x31, 0x0D, 0x0A, 0x1A]
            && h[8..10] == LE(2, 1) && h[10..12] == LE(2, 0) && h[12..28] == uuid
            && h[28..32] == LE(4, base.num) && h[32..36] == LE(4, base.den)
            && h[36..44] == LE(8, 0) && h[44..52] == LE(8, 0) && h[52..60] == LE(8, 64 * 1024 * 1024) && h[60..68] == LE(8, 0)
            && h[68..72] == LE(4, Crc32c.Crc(h[..68]) as int)
  {
    hide LE, Crc32c.Crc;
    var h, body := FileHeader(base, uuid), HeaderBody(base, uuid);
    var p1 := MAGIC + LE(2, 1);
    var p3 := p1 + LE(2, 0) + uuid;
    var p5 := p3 + LE(4, base.num) + LE(4, base.den);
    var p8 := p5 + LE(8, 0) + LE(8, 0) + LE(8, 0x400_0000);
    LastPiece(h, body, LE(4, Crc32c.Crc(body) as int));
    LastPiece(h, p8, LE(8, 0));
    LastPiece(h, p5 + LE(8, 0) + LE(8, 0), LE(8, 0x400_0000));
    LastPiece(h, p5 + LE(8, 0), LE(8, 0));
    LastPiece(h, p5, LE(8, 0));
    LastPiece(h, p3 + LE(4, base.num), LE(4, base.den));
    LastPiece(h, p3, LE(4, base.num));
    LastPiece(h, p1 + LE(2, 0), uuid);
    LastPiece(h, p1, LE(2, 0));
    LastPiece(h, MAGIC, LE(2, 1));
    assert h[..68] == body;
  }

  // ----- the frame of a record

  /** `w` starts with the prefix of a record with frame `f` and is long enough for all of it. */
  predicate IsFramed(w: bytes, f: Frame) {
    var a, b := |Uleb(f.payloadSize)|, |Uleb(f.sequence)|;
    && f.payloadSize <= U64_MAX && f.sequence <= U64_MAX && f.alignLog2 <= 4
    && f.headerSize == 8 + a + b && f.headerSize <= |w|
    && w[0..2] == LE(2, f.typ) && w[2..4] == LE(2, f.flags) && w[4..6] == LE(2, f.headerSize) && w[6] == f.alignLog2
    && w[8..8 + a] == Uleb(f.payloadSize) && w[8 + a..8 + a + b] == Uleb(f.sequence)
    && AlignUp(f.headerSize + f.payloadSize, Bits.Ones(f.alignLog2) + 1) + 4 <= |w|
    && f.offset + AlignUp(f.headerSize + f.payloadSize, Bits.Ones(f.alignLog2) + 1) + 4 <= U64_MAX
  }

  lemma SizeSpelled(f: Frame)
    requires f.alignLog2 <= 4
    ensures f.Size() == AlignUp(f.headerSize + f.payloadSize, Bits.Ones(f.alignLog2) + 1) + 4
  {
    hide AlignUp;
    AlignmentSpelled(f.alignLog2);
  }

  lemma ShortField(w: bytes, at: nat, v: u16)
    requires at + 2 <= |w|
    ensures U16At(w, at) == v <==> w[at..at + 2] == LE(2, v)
  {
    hide LE, UnLE;
    FieldIs(w, at, 2);
    Widths();
    LERoundTrip(2, v);
  }

  /** The two varints of a prefix as bytes. */
  predicate SizesAre(w: bytes, size: nat, sequence: nat) {
    var a, b := |Uleb(size)|, |Uleb(sequence)|;
    && size <= U64_MAX && sequence <= U64_MAX && 8 + a + b <= |w|
    && w[8..8 + a] == Uleb(size) && w[8 + a..8 + a + b] == Uleb(sequence)
  }

  function SizesOf(size: nat, sequence: nat): Sizes {
    Sizes(Varint(size, |Uleb(size)|), Varint(sequence, |Uleb(sequence)|))
  }

  lemma SizesRead(w: bytes, size: nat, sequence: nat)
    requires |w| >= 8 && SizesAre(w, size, sequence)
    ensures ReadSizes(w) == Some(SizesOf(size, sequence))
  {
    hide ReadVarint, Uleb;
    var a, b := |Uleb(size)|, |Uleb(sequence)|;
    Behind(w, 8, a);
    Behind(w, 8 + a, b);
    VarintBijection(size, w[8 + a..], []);
    VarintBijection(sequence, w[8 + a + b..], []);
  }

  lemma Behind(w: bytes, at: nat, n: nat)
    requires at + n <= |w|
    ensures w[at..] == w[at..at + n] + w[at + n..] && w[at..][..n] == w[at..at + n]
  {}

  lemma SizesWritten(w: bytes)
    requires |w| >= 8 && ReadSizes(w).Some?
    ensures var z := ReadSizes(w).value;
            z == SizesOf(z.payload.value, z.sequence.value) && SizesAre(w, z.payload.value, z.sequence.value)
  {
    hide ReadVarint, Uleb;
    var z := ReadSizes(w).value;
    var a := 8 + z.payload.size;
    VarintBijection(0, [], w[8..]);
    VarintBijection(0, [], w[a..]);
    Behind(w, 8, z.payload.size);
    Behind(w, a, z.sequence.size);
  }

  /** A record prefix is decoded to frame `f` if and only if these bytes are the prefix of such a record. */
  lemma FramedExactly(w: bytes, offset: nat, depth: nat, f: Frame)
    ensures DecodePrefix(w, offset, depth) == Found(f) <==> IsFramed(w, f) && f.offset == offset && f.depth == depth
  {
    hide DecodePrefix, IsFramed;
    if DecodePrefix(w, offset, depth) == Found(f) { FoundIsFramed(w, offset, depth, f); }
    if IsFramed(w, f) && f.offset == offset && f.depth == depth { FramedIsFound(w, f); }
  }

  lemma FoundIsFramed(w: bytes, offset: nat, depth: nat, f: Frame)
    requires DecodePrefix(w, offset, depth) == Found(f)
    ensures IsFramed(w, f)
  {
    hide ReadSizes, Uleb, LE, U16At, AlignUp, Bits.Ones;
    SizesWritten(w);
    SizeSpelled(f);
    ShortField(w, 0, f.typ);
    ShortField(w, 2, f.flags);
    HeaderSizeBound(f.payloadSize, f.sequence);
    ShortField(w, 4, f.headerSize);
  }

  lemma FramedIsFound(w: bytes, f: Frame)
    requires IsFramed(w, f)
    ensures DecodePrefix(w, f.offset, f.depth) == Found(f)
  {
    hide ReadSizes, Uleb, LE, U16At, AlignUp, Bits.Ones;
    HeaderSizeBound(f.payloadSize, f.sequence);
    SizesRead(w, f.payloadSize, f.sequence);
    SizeSpelled(f);
    ShortField(w, 0, f.typ);
    ShortField(w, 2, f.flags);
    ShortField(w, 4, f.headerSize);
  }

  /** What the writer puts in front of a payload; the reserved byte is zero. */
  lemma RecordSpelled(typ: u16, flags: u16, log2: byte, sequence: u64, payload: bytes, offset: nat)
    requires log2 <= 4 && |payload| <= U64_MAX && offset + |Record(typ, flags, log2, sequence, payload)| <= U64_MAX
    ensures var r := Record(typ, flags, log2, sequence, payload);
            && IsFramed(r, FrameOf(typ, flags, log2, sequence, |payload|, offset, 0)) && |r| >= 8 && r[7] == 0
  {
    hide DecodePrefix, IsFramed, LE, Uleb, AlignUp, Crc32c.Crc, HeaderSize, Zeros;
    var r, f := Record(typ, flags, log2, sequence, payload), FrameOf(typ, flags, log2, sequence, |payload|, offset, 0);
    RecordDecodes(typ, flags, log2, sequence, payload, [], offset, 0);
    assert r + [] == r;
    FramedExactly(r, offset, 0, f);
    HeaderSizeBound(|payload|, sequence);
    assert RecordPrefix(typ, flags, log2, sequence, |payload|)[7] == 0;
    assert RecordPrefix(typ, flags, log2, sequence, |payload|) <= r;
  }

  /** Everything else: what is missing is TRUNCATED, what is wrong is FORMAT, what overflows is RESOURCE. */
  lemma UnframedVerdict(w: bytes, offset: nat, depth: nat)
    ensures |w| < 8 || ReadSizes(w).None? ==> DecodePrefix(w, offset, depth) == Stop(TRUNCATED)
    ensures |w| >= 8 && ReadSizes(w).Some? ==>
              var z := ReadSizes(w).value;
              var h := 8 + z.payload.size + z.sequence.size;
              if w[4..6] != LE(2, h) || w[6] > 4 then DecodePrefix(w, offset, depth) == Stop(FORMAT)
              else
                var size := AlignUp(h + z.payload.value, Bits.Ones(w[6]) + 1) + 4;
                && (offset + size > U64_MAX ==> DecodePrefix(w, offset, depth) == Stop(RESOURCE))
                && (offset + size <= U64_MAX && size > |w| ==> DecodePrefix(w, offset, depth) == Stop(TRUNCATED))
  {
    hide ReadSizes, LE, U16At, AlignUp, Bits.Ones, Uleb;
    if |w| >= 8 && ReadSizes(w).Some? {
      var z := ReadSizes(w).value;
      SizesWritten(w);
      HeaderSizeBound(z.payload.value, z.sequence.value);
      ShortField(w, 4, z.HeaderSize());
      if w[6] <= 4 { AlignmentSpelled(w[6]); }
    }
  }

  /** A framed record: over the limits, nonzero padding, wrong checksum, or good, in this order. */
  lemma FramedVerdict(w: bytes, offset: nat, depth: nat, lim: Limits, f: Frame)
    requires DecodePrefix(w, offset, depth) == Found(f)
    ensures NextRecord(w, offset, depth, lim)
         == if f.payloadSize > lim.maxPayloadSize || f.Size() > lim.maxRecordSize then Stop(RESOURCE)
            else if !(forall i :: f.headerSize + f.payloadSize <= i < f.Size() - 4 ==> w[i] == 0) then Stop(FORMAT)
            else if w[f.Size() - 4..f.Size()] != LE(4, Crc32c.Crc(w[..f.Size() - 4]) as int) then Stop(INTEGRITY)
            else Found(f)
  {
    hide DecodePrefix, U32At, AllZero, LE, AlignUp, Crc32c.Crc;
    ZeroSlice(w, f.Unpadded(), f.Padded());
    StoredWord(w, f.Padded(), Crc32c.Crc(w[..f.Padded()]) as int);
  }

  /** The event that reports a record. */
  lemma EventSpelled(f: Frame)
    ensures f.Seen() == RecordSeen(f.typ, f.flags, f.offset, f.offset + f.headerSize, f.payloadSize, f.sequence, f.depth,
                                   f.typ >= 0x8000)
  {}
}
