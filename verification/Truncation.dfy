/**
  When a truncated verdict can still change. The decoder reports a malformed varint in a record prefix as
  truncated, so PARTIAL covers both a file cut short and one that no further bytes can mend.
 */
module Truncation {
  import opened Base
  import opened Codec
  import opened Format
  import opened Parser
  import opened Prefixes
  import opened Recovery
  import opened Writer

  // ----- one varint

  /**
    A byte that ends every hope: after continuation bytes only, a zero byte (padded form), or a tenth byte other
    than one (over 64 bits, or an eleventh byte to come).
   */
  predicate BadByte(s: bytes, k: nat)
    requires k < |s|
  {
    0 < k <= 9 && Continues(s, k) && (s[k] == 0 || (k == 9 && s[k] != 1))
  }

  /** The first `k` bytes all announce another byte. */
  predicate Continues(s: bytes, k: nat)
    requires k <= |s|
  {
    forall j :: 0 <= j < k ==> s[j] >= 128
  }

  predicate Malformed(s: bytes) { exists k :: 0 <= k < |s| && BadByte(s, k) }

  /** Reading on after `i` continuation bytes. */
  lemma {:induction false} BadByteRefuses(s: bytes, i: nat, k: nat)
    requires i <= 9 && k < |s| && i + k <= 9 && Continues(s, k)
    requires (s[k] == 0 && i + k > 0) || (i + k == 9 && s[k] != 1)
    ensures ReadVarint(s, i) == None
    decreases k
  {
    if k > 0 {
      BadByteRefuses(s[1..], i + 1, k - 1);
    } else if s[0] >= 128 {
      assert ReadVarint(s[1..], 10) == None;
    }
  }

  lemma {:induction false} RefusedFor(s: bytes, i: nat)
    requires i <= 9 && ReadVarint(s, i) == None
    ensures (|s| + i <= 9 && Continues(s, |s|))
         || exists k :: 0 <= k < |s| && i + k <= 9 && Continues(s, k) && ((s[k] == 0 && i + k > 0) || (i + k == 9 && s[k] != 1))
    decreases 10 - i
  {
    if s != [] {
      if s[0] < 128 || i == 9 {
        assert Continues(s, 0);
      } else {
        RefusedFor(s[1..], i + 1);
        if |s[1..]| + i + 1 <= 9 && Continues(s[1..], |s[1..]|) {
          ContinuesCons(s, |s|);
        } else {
          var k :| 0 <= k < |s[1..]| && i + 1 + k <= 9 && Continues(s[1..], k)
                   && ((s[1..][k] == 0 && i + 1 + k > 0) || (i + 1 + k == 9 && s[1..][k] != 1));
          ContinuesCons(s, k + 1);
          assert s[k + 1] == s[1..][k];
        }
      }
    }
  }

  lemma ContinuesCons(s: bytes, k: nat)
    requires 0 < k <= |s| && s[0] >= 128 && Continues(s[1..], k - 1)
    ensures Continues(s, k)
  {
    forall j | 0 <= j < k
      ensures s[j] >= 128
    {
      if j > 0 { assert s[j] == s[1..][j - 1]; }
    }
  }

  lemma {:induction false} OneByteEnds(s: bytes, i: nat, rest: bytes)
    requires |s| + i <= 9 && Continues(s, |s|)
    ensures ReadVarint(s + [1] + rest, i).Some?
    ensures ReadVarint(s + [1] + rest, i).value.size == |s| + 1
    decreases |s|
  {
    var t := s + [1] + rest;
    if s == [] {
      assert t[0] == 1;
    } else {
      assert t[1..] == s[1..] + [1] + rest && t[0] == s[0];
      assert Continues(s[1..], |s[1..]|) by {
        forall j | 0 <= j < |s[1..]| ensures s[1..][j] >= 128 { assert s[1..][j] == s[j + 1]; }
      }
      OneByteEnds(s[1..], i + 1, rest);
    }
  }

  /** A varint that does not read is either malformed for good or waits for bytes, and one byte can end it. */
  lemma VarintCurableExactly(s: bytes)
    requires ReadVarint(s, 0) == None
    ensures Malformed(s) <==> forall x: bytes :: ReadVarint(s + x, 0) == None
    ensures !Malformed(s) ==> |s| <= 9 && Continues(s, |s|)
  {
    hide ReadVarint;
    if Malformed(s) {
      var k :| 0 <= k < |s| && BadByte(s, k);
      forall x: bytes
        ensures ReadVarint(s + x, 0) == None
      {
        assert Continues(s + x, k) && (s + x)[k] == s[k];
        BadByteRefuses(s + x, 0, k);
      }
    } else {
      RefusedFor(s, 0);
      forall k | 0 <= k < |s| && k <= 9 && Continues(s, k)
        ensures !((s[k] == 0 && k > 0) || (k == 9 && s[k] != 1))
      {
        assert !BadByte(s, k);
      }
      OneByteEnds(s, 0, []);
      assert s + [1] + [] == s + [1];
      assert ReadVarint(s + [1], 0) != None;
    }
  }

  // ----- a record prefix

  /** One of the two varints of the prefix is already malformed. */
  predicate PrefixMalformed(w: bytes) {
    && |w| >= 8
    && (if ReadVarint(w[8..], 0) == None then Malformed(w[8..])
        else
          var at := 8 + ReadVarint(w[8..], 0).value.size;
          ReadVarint(w[at..], 0) == None && Malformed(w[at..]))
  }

  /** The failing family: a padded varint right after the fixed part. */
  lemma PaddedIsMalformed(fixed: bytes, rest: bytes)
    requires |fixed| == 8
    ensures PrefixMalformed(fixed + [128, 0] + rest)
  {
    hide ReadVarint;
    var w := fixed + [128, 0] + rest;
    assert w[8..][0] == 128 && w[8..][1] == 0;
    BadByteRefuses(w[8..], 0, 1);
    assert BadByte(w[8..], 1);
  }

  lemma MalformedStays(w: bytes, x: bytes)
    requires PrefixMalformed(w)
    ensures ReadSizes(w + x) == None
  {
    hide ReadVarint, Malformed;
    assert (w + x)[8..] == w[8..] + x;
    match ReadVarint(w[8..], 0)
    case None => VarintCurableExactly(w[8..]);
    case Some(z) =>
      var at := 8 + z.size;
      assert (w[8..] + x)[..z.size] == w[8..][..z.size];
      VarintAgrees(w[8..], w[8..] + x);
      assert (w + x)[at..] == w[at..] + x;
      VarintCurableExactly(w[at..]);
  }

  /** A continuation after which both varints read. */
  lemma SizesCanEnd(w: bytes) returns (x: bytes)
    requires |w| >= 8 && !PrefixMalformed(w)
    ensures ReadSizes(w + x).Some?
    ensures if ReadSizes(w).None? then ReadSizes(w + x).value.HeaderSize() == |w + x| else x == []
  {
    hide ReadVarint, Malformed;
    x := [];
    assert w + [] == w;
    if ReadSizes(w).None? {
      match ReadVarint(w[8..], 0) {
        case None =>
          VarintCurableExactly(w[8..]);
          x := [1, 1];
          OneByteEnds(w[8..], 0, [1]);
          assert (w + x)[8..] == w[8..] + [1] + [1];
          assert (w + x)[8 + |w[8..]| + 1..] == [1];
          OneByteEnds([], 0, []);
          assert [] + [1] + [] == [1];
        case Some(z) =>
          var at := 8 + z.size;
          VarintCurableExactly(w[at..]);
          x := [1];
          assert (w + x)[8..] == w[8..] + [1];
          assert (w[8..] + [1])[..z.size] == w[8..][..z.size];
          VarintAgrees(w[8..], w[8..] + [1]);
          OneByteEnds(w[at..], 0, []);
          assert (w + x)[at..] == w[at..] + [1] + [];
      }
    }
  }

  /** With both varints read, enough bytes settle the prefix, and the record then fills the window exactly. */
  lemma BytesSettle(w: bytes, offset: nat, depth: nat) returns (x: bytes)
    requires |w| >= 8 && ReadSizes(w).Some? && DecodePrefix(w, offset, depth) == Stop(TRUNCATED)
    ensures DecodePrefix(w + x, offset, depth).Found? && DecodePrefix(w + x, offset, depth).frame.Size() == |w + x|
  {
    hide ReadSizes, U16At, AlignUp;
    var z := ReadSizes(w).value;
    var f := Frame(U16At(w, 0), U16At(w, 2), z.HeaderSize(), w[6], z.payload.value, z.sequence.value, offset, depth);
    x := Zeros(f.Size() - |w|);
    var h := z.HeaderSize();
    assert (w + x)[..h] == w[..h] && (w + x)[..8] == w[..8];
    SizesAgree(w, w + x);
    FieldsAgree(w, w + x);
  }

  /** Some continuation settles the prefix, and leaves nothing behind the record if it finds one. */
  lemma CanBeSettled(w: bytes, offset: nat, depth: nat) returns (x: bytes)
    requires DecodePrefix(w, offset, depth) == Stop(TRUNCATED) && !PrefixMalformed(w)
    ensures var d := DecodePrefix(w + x, offset, depth);
            d != Stop(TRUNCATED) && (d.Found? ==> d.frame.Size() == |w + x|)
  {
    hide ReadSizes, PrefixMalformed, DecodePrefix;
    x := [];
    if |w| < 8 { x := Zeros(8 - |w|); NotMalformedAtEight(w + x); }
    var v := w + x;
    assert x == [] ==> v == w;
    var y := SizesCanEnd(v);
    var u := v + y;
    assert y == [] ==> u == v;
    assert u == w + (x + y);
    x := x + y;
    JustSizes(w, v, u, offset, depth);
    if DecodePrefix(u, offset, depth) == Stop(TRUNCATED) {
      y := BytesSettle(u, offset, depth);
      assert u + y == w + (x + y);
      x := x + y;
    }
  }

  lemma NotMalformedAtEight(w: bytes)
    requires |w| == 8
    ensures !PrefixMalformed(w)
  {
    assert w[8..] == [];
  }

  /** A prefix whose varints have only just been completed has no room for a whole record. */
  lemma JustSizes(w: bytes, v: bytes, u: bytes, offset: nat, depth: nat)
    requires DecodePrefix(w, offset, depth) == Stop(TRUNCATED) && |v| >= 8 && v <= u && ReadSizes(u).Some?
    requires if |w| < 8 then |v| == 8 else v == w
    requires ReadSizes(v).None? ==> ReadSizes(u).value.HeaderSize() == |u|
    requires ReadSizes(v).Some? ==> u == v
    ensures !DecodePrefix(u, offset, depth).Found?
  {
    hide ReadVarint, U16At, AlignUp;
    if |w| < 8 { assert v[8..] == []; EmptyIsNone(v); }
  }

  lemma EmptyIsNone(v: bytes)
    requires |v| == 8
    ensures ReadSizes(v) == None
  {
    assert v[8..] == [];
  }

  /**
    A truncated prefix can still get another verdict if and only if neither of its varints is already malformed.
   */
  lemma PrefixCurableExactly(w: bytes, offset: nat, depth: nat)
    requires DecodePrefix(w, offset, depth) == Stop(TRUNCATED)
    ensures (exists x: bytes :: DecodePrefix(w + x, offset, depth) != Stop(TRUNCATED)) <==> !PrefixMalformed(w)
  {
    hide PrefixMalformed;
    if PrefixMalformed(w) {
      forall x: bytes
        ensures DecodePrefix(w + x, offset, depth) == Stop(TRUNCATED)
      {
        MalformedStays(w, x);
        LongEnough(w, x);
      }
    } else {
      var x := CanBeSettled(w, offset, depth);
      assert DecodePrefix(w + x, offset, depth) != Stop(TRUNCATED);
    }
  }

  lemma LongEnough(w: bytes, x: bytes)
    requires PrefixMalformed(w)
    ensures |w + x| >= 8
  {}

  // ----- a whole file

  /** A truncated parse stopped at a record prefix that is truncated. */
  lemma {:induction false} TruncatedAt(data: bytes, begin: nat, lim: Limits, st: State)
    requires begin <= |data| && ParseRecords(data, begin, |data|, 0, lim, st).status == TRUNCATED
    ensures var p := ParseRecords(data, begin, |data|, 0, lim, st).st.prefix;
            begin <= p < |data| && DecodePrefix(data[p..], p, 0) == Stop(TRUNCATED)
    decreases |data| - begin
  {
    hide NextRecord, ProcessRecord, AlignUp, DecodePrefix;
    assert data[begin..|data|] == data[begin..];
    match NextRecord(data[begin..], begin, 0, lim)
    case Stop(s) => NotFromIntegrity(data[begin..], begin, lim);
    case Found(f) =>
      ProcessNotTruncated(data, f, lim, st);
      var o := ProcessRecord(data, f, lim, st);
      TruncatedAt(data, f.CrcEnd(), lim, Advance(o.st, f.CrcEnd()));
  }

  lemma NotFromIntegrity(w: bytes, offset: nat, lim: Limits)
    ensures NextRecord(w, offset, 0, lim) == Stop(TRUNCATED) <==> DecodePrefix(w, offset, 0) == Stop(TRUNCATED)
  {
    hide DecodePrefix, Integrity;
  }

  /** A settled record that fills the rest of the file leaves no truncated tail. */
  lemma SettledTail(data: bytes, p: nat, lim: Limits, st: State)
    requires p < |data| && DecodePrefix(data[p..], p, 0) != Stop(TRUNCATED)
    requires DecodePrefix(data[p..], p, 0).Found? ==> DecodePrefix(data[p..], p, 0).frame.CrcEnd() == |data|
    ensures ParseRecords(data, p, |data|, 0, lim, st).status != TRUNCATED
  {
    hide ProcessRecord, DecodePrefix, Integrity, AlignUp;
    assert data[p..|data|] == data[p..];
    match NextRecord(data[p..], p, 0, lim)
    case Stop(_) =>
    case Found(f) => ProcessNotTruncated(data, f, lim, st);
  }

  lemma HopelessTail(data: bytes, p: nat, lim: Limits, st: State)
    requires p < |data| && DecodePrefix(data[p..], p, 0) == Stop(TRUNCATED)
    ensures ParseRecords(data, p, |data|, 0, lim, st).status == TRUNCATED
  {
    hide ProcessRecord, DecodePrefix, Integrity, AlignUp;
    assert data[p..|data|] == data[p..];
  }

  /** Cutting a good record in its header is always curable, so a malformed prefix is never a cut of a good file. */
  lemma MalformedIsCorruption(w: bytes, x: bytes, offset: nat, depth: nat, lim: Limits)
    requires PrefixMalformed(w)
    ensures !NextRecord(w + x, offset, depth, lim).Found?
  {
    hide PrefixMalformed, ReadSizes, Integrity;
    MalformedStays(w, x);
    LongEnough(w, x);
  }

  /**
    PARTIAL is curable exactly when the header is incomplete or neither varint of the record at the valid prefix
    is malformed: otherwise every continuation of the file is PARTIAL for ever.
   */
  lemma PartialCurableExactly(data: bytes, lim: Limits)
    requires Parse(data, true, lim).status == PARTIAL
    ensures Parse(data, true, lim).st.prefix <= |data|
    ensures (exists x: bytes :: Parse(data + x, true, lim).status != PARTIAL)
       <==> |data| < HEADER_SIZE || !PrefixMalformed(data[Parse(data, true, lim).st.prefix..])
  {
    hide ParseRecords, ValidateHeader, PrefixMalformed, DecodePrefix;
    HeaderLength(data, lim);
    if |data| < HEADER_SIZE {
      var x := Zeros(HEADER_SIZE - |data|);
      HeaderAlone(data + x, lim);
      assert Parse(data + x, true, lim).status != PARTIAL;
    } else {
      var st := Advance(INITIAL, HEADER_SIZE);
      ParseNeverPartial(data, HEADER_SIZE, |data|, 0, lim, st);
      TruncatedAt(data, HEADER_SIZE, lim, st);
      var o := ParseRecords(data, HEADER_SIZE, |data|, 0, lim, st);
      var p, w := o.st.prefix, data[o.st.prefix..];
      if PrefixMalformed(w) {
        forall x: bytes
          ensures Parse(data + x, true, lim).status == PARTIAL
        {
          StaysPartial(data, x, lim, o.st);
        }
      } else {
        var x := CanBeSettled(w, p, 0);
        assert (data + x)[p..] == w + x;
        SettledTail(data + x, p, lim, o.st);
        Continued(data, x, lim);
        ParseNeverPartial(data + x, HEADER_SIZE, |data + x|, 0, lim, st);
        assert Parse(data + x, true, lim).status != PARTIAL;
      }
    }
  }

  lemma HeaderAlone(data: bytes, lim: Limits)
    requires |data| == HEADER_SIZE
    ensures Parse(data, true, lim).status != PARTIAL
  {
    hide ValidateHeader;
    HeaderLength(data, lim);
  }

  /** Parsing more bytes goes on from the valid prefix. */
  lemma Continued(data: bytes, x: bytes, lim: Limits)
    requires |data| >= HEADER_SIZE && ValidateHeader(data, lim) == OK
    requires ParseRecords(data, HEADER_SIZE, |data|, 0, lim, Advance(INITIAL, HEADER_SIZE)).status == TRUNCATED
    ensures var st := Advance(INITIAL, HEADER_SIZE);
            var o := ParseRecords(data, HEADER_SIZE, |data|, 0, lim, st);
            && o.st.prefix < |data| && ValidateHeader(data + x, lim) == OK
            && ParseRecords(data + x, HEADER_SIZE, |data + x|, 0, lim, st)
               == ParseRecords(data + x, o.st.prefix, |data + x|, 0, lim, o.st)
  {
    hide ParseRecords, ValidateHeader;
    ParseResumes(data, x, HEADER_SIZE, 0, lim, Advance(INITIAL, HEADER_SIZE));
    assert (data + x)[..|data|] == data;
    HeaderAgrees(data + x, |data|, lim);
  }

  lemma StaysPartial(data: bytes, x: bytes, lim: Limits, st: State)
    requires |data| >= HEADER_SIZE && ValidateHeader(data, lim) == OK
    requires ParseRecords(data, HEADER_SIZE, |data|, 0, lim, Advance(INITIAL, HEADER_SIZE)) == Outcome(TRUNCATED, st)
    requires st.prefix < |data| && PrefixMalformed(data[st.prefix..])
    requires DecodePrefix(data[st.prefix..], st.prefix, 0) == Stop(TRUNCATED)
    ensures Parse(data + x, true, lim).status == PARTIAL
  {
    hide ParseRecords, ValidateHeader, PrefixMalformed, DecodePrefix;
    var p := st.prefix;
    Continued(data, x, lim);
    PrefixCurableExactly(data[p..], p, 0);
    assert (data + x)[p..] == data[p..] + x;
    HopelessTail(data + x, p, lim, st);
  }
}
