/** The bounded cursor of `src/format/reader.c`. */
module ByteReader {
  import opened Base
  import opened Codec

  /** `v` shifted left by `7 * n` bits. */
  function Shl7(n: nat, v: nat): nat { if n == 0 then v else 128 * Shl7(n - 1, v) }

  lemma {:induction false} Shl7Laws(n: nat, a: nat, b: nat)
    ensures Shl7(n, a + b) == Shl7(n, a) + Shl7(n, b)
    ensures Shl7(n, 128 * a) == Shl7(n + 1, a)
    ensures a <= b ==> Shl7(n, a) <= Shl7(n, b)
  {
    if n > 0 { Shl7Laws(n - 1, a, b); }
  }

  lemma {:induction false} Shl7Capacity(n: nat)
    requires n <= 9
    ensures Shl7(n, Capacity(n)) == 0x1_0000_0000_0000_0000
  {
    if n == 0 {
      FullCapacity();
    } else {
      Shl7Capacity(n - 1);
      Shl7Laws(n - 1, Capacity(n), 0);
    }
  }

  lemma UnLE8(s: bytes)
    requires |s| == 8
    ensures UnLE(s) == UnLE(s[..4]) + 0x1_0000_0000 * UnLE(s[4..])
  {
    assert s[1..][1..] == s[2..] && s[2..][1..] == s[3..] && s[3..][1..] == s[4..];
    assert UnLE(s[2..]) == s[2] + 256 * UnLE(s[3..]);
    assert UnLE(s[3..]) == s[3] + 256 * UnLE(s[4..]);
    UnLE4(s[..4]);
  }

  lemma UnLE2(s: bytes)
    requires |s| == 2
    ensures var b0: int, b1: int := s[0], s[1];
            UnLE(s) == b0 + 0x100 * b1
  {
    assert UnLE(s[1..]) == s[1] + 256 * UnLE(s[1..][1..]);
  }

  lemma UnLE4(s: bytes)
    requires |s| == 4
    ensures var b0: int, b1: int, b2: int, b3: int := s[0], s[1], s[2], s[3];
            UnLE(s) == b0 + 0x100 * b1 + 0x1_0000 * b2 + 0x100_0000 * b3
  {
    assert s[2..] == s[1..][1..];
    UnLE2(s[2..]);
  }

  /** The varint that results from having accumulated `value` in the first `i` bytes. */
  ghost function Resume(data: bytes, at: nat, i: nat, value: nat): Option<Varint>
    requires at <= |data|
  {
    match ReadVarint(data[at..], i)
    case None => None
    case Some(rest) => Some(Varint(value + Shl7(i, rest.value), i + rest.size))
  }

  lemma VarintContinues(s: bytes, i: nat)
    requires s != [] && i < 10 && s[0] >= 128 && !(i == 9 && Low7(s[0]) >= 2)
    ensures ReadVarint(s, i)
         == match ReadVarint(s[1..], i + 1)
            case None => None
            case Some(rest) => Some(Varint(Low7(s[0]) + 128 * rest.value, rest.size + 1))
  {
    hide Low7;
  }

  lemma ResumeStep(data: bytes, at: nat, i: nat, value: nat)
    requires at < |data| && i < 10
    requires data[at] >= 128 && !(i == 9 && Low7(data[at]) >= 2)
    ensures Resume(data, at, i, value) == Resume(data, at + 1, i + 1, value + Shl7(i, Low7(data[at])))
  {
    hide Low7, Shl7, ReadVarint;
    VarintContinues(data[at..], i);
    assert data[at..][1..] == data[at + 1..];
    match ReadVarint(data[at + 1..], i + 1)
    case None =>
    case Some(rest) =>
      Shl7Laws(i, Low7(data[at]), 128 * rest.value);
      Shl7Laws(i, rest.value, 0);
  }

  lemma ResumeEnds(data: bytes, at: nat, i: nat, value: nat)
    requires at < |data| && i < 10
    requires !(i == 9 && Low7(data[at]) >= 2) && data[at] < 128
    ensures Resume(data, at, i, value)
         == if i > 0 && data[at] == 0 then None else Some(Varint(value + Shl7(i, Low7(data[at])), i + 1))
  {
  }

  lemma ResumeFails(data: bytes, at: nat, i: nat, value: nat)
    requires at <= |data|
    requires i >= 10 || at == |data| || (i == 9 && Low7(data[at]) >= 2)
    ensures Resume(data, at, i, value) == None
  {
  }

  lemma ResumeStarts(data: bytes, at: nat)
    requires at <= |data|
    ensures Resume(data, at, 0, 0) == ReadVarint(data[at..], 0) && Shl7(0, 1) == 1
  {
  }

  lemma Accumulate(i: nat, value: nat, low: nat)
    requires i <= 9 && value < Shl7(i, 1) && low < 128
    ensures value + Shl7(i, low) < Shl7(i + 1, 1)
    ensures (i == 9 ==> low < 2) ==> value + Shl7(i, low) <= U64_MAX
  {
    Shl7Laws(i, low, 1);
    Shl7Laws(i, low + 1, 128);
    Shl7Laws(i, 1, 0);
    Shl7Capacity(i);
    Shl7Laws(i, low + 1, Capacity(i));
  }

  class Reader {
    const data: bytes
    var offset: nat

    constructor (data: bytes)
      ensures this.data == data && offset == 0
    {
      this.data := data;
      offset := 0;
    }

    predicate Has(size: nat)
      reads this
    {
      offset <= |data| && size <= |data| - offset
    }

    method ReadU8() returns (ok: bool, v: byte)
      modifies this
      ensures ok == old(Has(1))
      ensures ok ==> v == data[old(offset)] && offset == old(offset) + 1
      ensures !ok ==> offset == old(offset)
    {
      if !Has(1) { return false, 0; }
      v := data[offset];
      offset := offset + 1;
      ok := true;
    }

    method ReadU16() returns (ok: bool, v: u16)
      modifies this
      ensures ok == old(Has(2))
      ensures ok ==> v == U16At(data, old(offset)) && offset == old(offset) + 2
      ensures !ok ==> offset == old(offset)
    {
      if !Has(2) { return false, 0; }
      var b0: int, b1: int := data[offset], data[offset + 1];
      v := b0 + 0x100 * b1;
      UnLE2(data[offset..offset + 2]);
      offset := offset + 2;
      ok := true;
    }

    method ReadU32() returns (ok: bool, v: u32)
      modifies this
      ensures ok == old(Has(4))
      ensures ok ==> v == U32At(data, old(offset)) && offset == old(offset) + 4
      ensures !ok ==> offset == old(offset)
    {
      if !Has(4) { return false, 0; }
      var b0: int, b1: int, b2: int, b3: int := data[offset], data[offset + 1], data[offset + 2], data[offset + 3];
      v := b0 + 0x100 * b1 + 0x1_0000 * b2 + 0x100_0000 * b3;
      UnLE4(data[offset..offset + 4]);
      offset := offset + 4;
      ok := true;
    }

    /** Two halves; a short second half leaves the cursor past the first. */
    method ReadU64() returns (ok: bool, v: u64)
      modifies this
      ensures ok == old(Has(8))
      ensures ok ==> v == U64At(data, old(offset)) && offset == old(offset) + 8
      ensures !ok ==> offset == old(offset) + if old(Has(4)) then 4 else 0
    {
      v := 0;
      var at := offset;
      var lo: int, hi: int;
      ok, lo := ReadU32();
      if !ok { return; }
      ok, hi := ReadU32();
      if !ok { return; }
      v := lo + 0x1_0000_0000 * hi;
      var p := data[at..at + 8];
      assert p[..4] == data[at..at + 4] && p[4..] == data[at + 4..at + 8];
      UnLE8(p);
    }

    method ReadI64() returns (ok: bool, v: i64)
      modifies this
      ensures ok == old(Has(8))
      ensures ok ==> v == I64At(data, old(offset)) && offset == old(offset) + 8
      ensures !ok ==> offset == old(offset) + if old(Has(4)) then 4 else 0
    {
      var raw;
      ok, raw := ReadU64();
      v := Signed(raw);
    }

    method ReadBytes(size: nat) returns (ok: bool, s: bytes)
      modifies this
      ensures ok == old(Has(size))
      ensures ok ==> s == data[old(offset)..old(offset) + size] && offset == old(offset) + size
      ensures !ok ==> offset == old(offset)
    {
      if !Has(size) { return false, []; }
      s := data[offset..offset + size];
      offset := offset + size;
      ok := true;
    }

    method ReadUleb128() returns (ok: bool, v: u64)
      requires offset <= |data|
      modifies this
      ensures ok == ReadVarint(data[old(offset)..], 0).Some?
      ensures ok ==> var Varint(w, n) := ReadVarint(data[old(offset)..], 0).value;
                     v == w && offset == old(offset) + n
      ensures old(offset) <= offset <= |data|
    {
      hide Low7, Shl7, Resume;
      ghost var full := ReadVarint(data[offset..], 0);
      ResumeStarts(data, offset);
      var value: nat := 0;
      for i := 0 to 10
        invariant offset == old(offset) + i <= |data|
        invariant value < Shl7(i, 1)
        invariant full == Resume(data, offset, i, value)
      {
        var got, b := ReadU8();
        if !got { ResumeFails(data, offset, i, value); return false, 0; }
        if i == 9 && Low7(b) >= 2 { ResumeFails(data, offset - 1, i, value); }
        if i == 9 && Low7(b) >= 2 { return false, 0; }
        Accumulate(i, value, Low7(b));
        if b >= 128 { ResumeStep(data, offset - 1, i, value); } else { ResumeEnds(data, offset - 1, i, value); }
        value := value + Shl7(i, Low7(b));
        if b < 128 {
          if i > 0 && b == 0 { return false, 0; }
          return true, value;
        }
      }
      ResumeFails(data, offset, 10, value);
      return false, 0;
    }
  }
}
