/** Little-endian integers and canonical ULEB128, as `src/format/reader.c` reads and writes them. */
module Codec {
  import opened Base

  // ----- little-endian integers

  function Pow256(n: nat): nat { if n == 0 then 1 else 256 * Pow256(n - 1) }

  function LE(n: nat, v: nat): (s: bytes)
    ensures |s| == n
  {
    if n == 0 then [] else [v % 256] + LE(n - 1, v / 256)
  }

  function UnLE(s: bytes): nat {
    if s == [] then 0 else s[0] + 256 * UnLE(s[1..])
  }

  lemma {:induction false} UnLEBound(s: bytes)
    ensures UnLE(s) < Pow256(|s|)
  {
    if s != [] { UnLEBound(s[1..]); }
  }

  lemma {:induction false} LERoundTrip(n: nat, v: nat)
    requires v < Pow256(n)
    ensures UnLE(LE(n, v)) == v
  {
    if n > 0 {
      assert LE(n, v)[1..] == LE(n - 1, v / 256);
      LERoundTrip(n - 1, v / 256);
    }
  }

  lemma {:induction false} LECanonical(s: bytes)
    ensures LE(|s|, UnLE(s)) == s
  {
    if s != [] {
      LECanonical(s[1..]);
      assert UnLE(s) % 256 == s[0] && UnLE(s) / 256 == UnLE(s[1..]);
    }
  }

  lemma Widths()
    ensures Pow256(2) == 0x1_0000 && Pow256(4) == 0x1_0000_0000 && Pow256(8) == 0x1_0000_0000_0000_0000
  {
    assert Pow256(3) == 256 * Pow256(2);
    assert Pow256(4) == 256 * Pow256(3);
    assert Pow256(5) == 256 * Pow256(4);
    assert Pow256(6) == 256 * Pow256(5);
    assert Pow256(7) == 256 * Pow256(6);
  }

  /** The `n`-byte unsigned field of `s` at `at`. */
  function Field(s: bytes, at: nat, n: nat): (v: nat)
    requires at + n <= |s|
    ensures v < Pow256(n)
  {
    UnLEBound(s[at..at + n]);
    UnLE(s[at..at + n])
  }

  lemma SliceOfSlice<T>(s: seq<T>, a: nat, b: nat, c: nat, d: nat)
    requires a <= b <= |s| && c <= d <= b - a
    ensures s[a..b][c..d] == s[a + c..a + d]
  {
    forall i | 0 <= i < d - c
      ensures s[a..b][c..d][i] == s[a + c..a + d][i]
    {
      assert s[a..b][c..d][i] == s[a..b][c + i] == s[a + c + i];
    }
  }

  lemma SliceOfPrefix<T>(s: seq<T>, k: nat, a: nat, b: nat)
    requires a <= b <= k <= |s|
    ensures s[..k][a..b] == s[a..b] == s[a..][..b - a]
  {
    forall i | 0 <= i < b - a
      ensures s[..k][a..b][i] == s[a..b][i] == s[a..][..b - a][i]
    {
      assert s[..k][a..b][i] == s[..k][a + i] == s[a + i] && s[a..][..b - a][i] == s[a..][i] == s[a + i];
    }
  }

  function U16At(s: bytes, at: nat): u16
    requires at + 2 <= |s|
  {
    Widths();
    Field(s, at, 2)
  }

  function U32At(s: bytes, at: nat): u32
    requires at + 4 <= |s|
  {
    Widths();
    Field(s, at, 4)
  }

  function U64At(s: bytes, at: nat): u64
    requires at + 8 <= |s|
  {
    Widths();
    Field(s, at, 8)
  }

  function I64At(s: bytes, at: nat): i64
    requires at + 8 <= |s|
  {
    Signed(U64At(s, at))
  }

  function Signed(v: u64): i64 { if v < 0x8000_0000_0000_0000 then v else v - 0x1_0000_0000_0000_0000 }
  function Unsigned(v: i64): u64 { if v >= 0 then v else v + 0x1_0000_0000_0000_0000 }

  // ----- ULEB128

  datatype Varint = Varint(value: nat, size: nat)

  function Low7(b: byte): (v: nat)
    ensures v < 128
  {
    b % 128
  }

  /** The reader's rule from the `i`-th byte of a varint on; `None` is a short, long or padded form. */
  function ReadVarint(s: bytes, i: nat): (r: Option<Varint>)
    ensures r.Some? ==> 1 <= r.value.size <= |s|
    decreases 10 - i
  {
    if i >= 10 || s == [] then None
    else if i == 9 && Low7(s[0]) >= 2 then None
    else if s[0] < 128 then
      if i > 0 && s[0] == 0 then None else Some(Varint(s[0], 1))
    else
      match ReadVarint(s[1..], i + 1)
      case None => None
      case Some(rest) => Some(Varint(Low7(s[0]) + 128 * rest.value, rest.size + 1))
  }

  /** The writer's minimal form. */
  function Uleb(v: nat): (s: bytes)
    ensures |s| >= 1
  {
    if v < 128 then [v] else [v % 128 + 128] + Uleb(v / 128)
  }

  lemma UlebSmall(v: nat)
    requires v < 128
    ensures Uleb(v) == [v]
  {}

  /** One more than the largest value the bytes from index `i` on can contribute. */
  function Capacity(i: nat): (c: nat)
    ensures c >= 2 && (i < 9 ==> c >= 256)
    decreases 9 - i
  {
    if i >= 9 then 2 else 128 * Capacity(i + 1)
  }

  lemma FullCapacity()
    ensures Capacity(0) == 0x1_0000_0000_0000_0000
  {
    assert Capacity(7) == 128 * Capacity(8);
    assert Capacity(5) == 128 * Capacity(6);
    assert Capacity(3) == 128 * Capacity(4);
    assert Capacity(1) == 128 * Capacity(2);
  }

  lemma {:induction false} VarintReadsBack(v: nat, i: nat, rest: bytes)
    requires i <= 9 && v < Capacity(i) && (i > 0 ==> v > 0)
    ensures ReadVarint(Uleb(v) + rest, i) == Some(Varint(v, |Uleb(v)|)) && |Uleb(v)| + i <= 10
    decreases 10 - i
  {
    if v >= 128 {
      assert (Uleb(v) + rest)[1..] == Uleb(v / 128) + rest;
      VarintReadsBack(v / 128, i + 1, rest);
    }
  }

  lemma UlebCons(b: byte, v: nat)
    requires b >= 128 && v > 0
    ensures Uleb(Low7(b) + 128 * v) == [b] + Uleb(v)
  {
    var w := Low7(b) + 128 * v;
    assert w % 128 + 128 == b && w / 128 == v;
  }

  lemma {:induction false} VarintIsMinimal(s: bytes, i: nat)
    requires ReadVarint(s, i).Some?
    ensures var Varint(v, n) := ReadVarint(s, i).value;
            && i <= 9 && v < Capacity(i) && (i > 0 ==> v > 0)
            && n + i <= 10 && n <= |s| && s[..n] == Uleb(v)
    decreases 10 - i
  {
    hide Uleb;
    if s[0] >= 128 {
      VarintIsMinimal(s[1..], i + 1);
      var Varint(v, n) := ReadVarint(s[1..], i + 1).value;
      assert s[..n + 1] == [s[0]] + s[1..][..n];
      UlebCons(s[0], v);
      assert i < 9 && Capacity(i) == 128 * Capacity(i + 1);
    } else {
      UlebSmall(s[0]);
      assert s[..1] == [s[0]];
    }
  }

  /** ULEB128 over 64 bits is a bijection between values and the byte strings the reader accepts. */
  lemma VarintBijection(v: u64, rest: bytes, s: bytes)
    ensures ReadVarint(Uleb(v) + rest, 0) == Some(Varint(v, |Uleb(v)|))
    ensures |Uleb(v)| <= 10
    ensures ReadVarint(s, 0).Some? ==>
              var Varint(w, n) := ReadVarint(s, 0).value;
              w <= U64_MAX && n <= 10 && n <= |s| && s[..n] == Uleb(w)
  {
    FullCapacity();
    VarintReadsBack(v, 0, rest);
    if ReadVarint(s, 0).Some? { VarintIsMinimal(s, 0); }
  }

  // ----- the imperative forms

  method UlebSize(value: u64) returns (size: nat)
    ensures size == |Uleb(value)|
  {
    var v := value;
    size := 1;
    while v >= 0x80
      invariant 0 <= v
      invariant size + |Uleb(v)| == 1 + |Uleb(value)|
    {
      v := v / 128;
      size := size + 1;
    }
  }

  lemma UlebUnfold(v: nat)
    ensures Uleb(v) == if v / 128 != 0 then [v % 128 + 128] + Uleb(v / 128) else [v % 128]
  {}

  /** The do-while loop of the writer; the scratch buffer it fills is the sequence `s`. */
  method WriteUleb(value: u64) returns (s: bytes)
    ensures s == Uleb(value)
  {
    hide Uleb;
    s := [];
    var v: nat := value;
    var more := true;
    while more
      invariant s + (if more then Uleb(v) else []) == Uleb(value)
      decreases more, v
    {
      UlebUnfold(v);
      var b := v % 128;
      v := v / 128;
      if v != 0 { b := b + 128; }
      s := s + [b];
      more := v != 0;
    }
  }
}
