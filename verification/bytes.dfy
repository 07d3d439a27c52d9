/** Bytes, big-endian unsigned integers, four-byte atom tags, Python's
    clamped slicing and a file-like stream over a byte string. */
module Bytes {

  type Byte = b: int | 0 <= b < 256

  /** A four-byte atom tag such as `moov`. */
  type Tag = s: seq<Byte> | |s| == 4 witness [0, 0, 0, 0]

  /** One more than the largest value `struct.pack('>I', ...)` accepts. */
  const U32_LIMIT: nat := 0x1_0000_0000

  function Pow256(n: nat): (r: nat)
    ensures r >= 1
  {
    if n == 0 then 1 else 256 * Pow256(n - 1)
  }

  /** The unsigned big-endian value of a byte string. */
  function BigEndian(s: seq<Byte>): nat
  {
    if s == [] then 0 else BigEndian(s[..|s| - 1]) * 256 + s[|s| - 1]
  }

  /** The `width`-byte big-endian encoding of `v`. */
  function ToBigEndian(v: nat, width: nat): (r: seq<Byte>)
    requires v < Pow256(width)
    ensures |r| == width
  {
    if width == 0 then [] else ToBigEndian(v / 256, width - 1) + [v % 256]
  }

  lemma {:induction false} BigEndianBound(s: seq<Byte>)
    ensures BigEndian(s) < Pow256(|s|)
  {
    if s != [] {
      BigEndianBound(s[..|s| - 1]);
    }
  }

  /** Encoding then decoding a big-endian integer gives it back. */
  lemma {:induction false} BigEndianOfToBigEndian(v: nat, width: nat)
    requires v < Pow256(width)
    ensures BigEndian(ToBigEndian(v, width)) == v
  {
    if width > 0 {
      var r := ToBigEndian(v, width);
      assert r[..|r| - 1] == ToBigEndian(v / 256, width - 1);
      BigEndianOfToBigEndian(v / 256, width - 1);
    }
  }

  /** Decoding then encoding a byte string gives it back. */
  lemma {:induction false} ToBigEndianOfBigEndian(s: seq<Byte>)
    ensures BigEndian(s) < Pow256(|s|)
    ensures ToBigEndian(BigEndian(s), |s|) == s
  {
    BigEndianBound(s);
    if s != [] {
      var p := s[..|s| - 1];
      ToBigEndianOfBigEndian(p);
      assert BigEndian(s) / 256 == BigEndian(p);
      assert s == p + [s[|s| - 1]];
    }
  }

  lemma Pow256Four()
    ensures Pow256(4) == U32_LIMIT
    ensures Pow256(2) == 0x1_0000
    ensures Pow256(1) == 256
  {
  }

  /** `struct.pack('>I', v)`. */
  function U32(v: nat): (r: seq<Byte>)
    requires v < U32_LIMIT
    ensures |r| == 4
  {
    [v / 0x100_0000, v / 0x1_0000 % 0x100, v / 0x100 % 0x100, v % 0x100]
  }

  /** `struct.unpack('>I', s)`. */
  function ReadU32(s: seq<Byte>): (r: nat)
    requires |s| == 4
    ensures r < U32_LIMIT
  {
    (s[0] as int) * 0x100_0000 + (s[1] as int) * 0x1_0000 + (s[2] as int) * 0x100 + s[3]
  }

  lemma ReadU32OfU32(v: nat)
    requires v < U32_LIMIT
    ensures ReadU32(U32(v)) == v
  {
    assert v / 0x100 / 0x100 == v / 0x1_0000;
    assert v / 0x1_0000 / 0x100 == v / 0x100_0000;
  }

  lemma U32OfReadU32(s: seq<Byte>)
    requires |s| == 4
    ensures U32(ReadU32(s)) == s
  {
    var v := ReadU32(s);
    assert v / 0x100_0000 == s[0];
    assert v / 0x1_0000 == (s[0] as int) * 0x100 + s[1];
    assert v / 0x100 == (s[0] as int) * 0x1_0000 + (s[1] as int) * 0x100 + s[2];
  }

  /** The u32 codec agrees with the general big-endian reading. */
  lemma ReadU32IsBigEndian(s: seq<Byte>)
    requires |s| == 4
    ensures ReadU32(s) == BigEndian(s)
  {
    assert BigEndian(s[..1]) == s[0] by {
      assert s[..1][..0] == [];
    }
    assert BigEndian(s[..2]) == (s[0] as int) * 0x100 + s[1] by {
      assert s[..2][..1] == s[..1];
    }
    assert BigEndian(s[..3]) == (s[0] as int) * 0x1_0000 + (s[1] as int) * 0x100 + s[2] by {
      assert s[..3][..2] == s[..2];
    }
    assert s[..4] == s;
  }

  /** The four-byte tag spelled by a four-letter ASCII name. */
  function Ascii(name: string): (t: Tag)
    requires |name| == 4
    requires forall i :: 0 <= i < 4 ==> name[i] as int < 128
  {
    [name[0] as int, name[1] as int, name[2] as int, name[3] as int]
  }

  /** Python's `s[lo:hi]` for non-negative bounds: both ends are clamped to
      the length, and an empty slice results when `hi` is below `lo`. */
  function Slice<T>(s: seq<T>, lo: nat, hi: nat): (r: seq<T>)
    ensures |r| <= |s|
    ensures lo <= hi <= |s| ==> r == s[lo..hi]
  {
    var a := if lo <= |s| then lo else |s|;
    var b := if hi <= |s| then hi else |s|;
    if a <= b then s[a..b] else []
  }

  /** Python's `buf[lo:hi] = v` on a bytearray: the clamped range is
      replaced by `v`, so a range past the end appends. */
  function SliceAssign<T>(s: seq<T>, lo: nat, hi: nat, v: seq<T>): (r: seq<T>)
    ensures lo <= hi <= |s| ==> r == s[..lo] + v + s[hi..]
    ensures lo <= hi <= |s| && |v| == hi - lo ==>
              |r| == |s| && r[..lo] == s[..lo] && r[lo..hi] == v && r[hi..] == s[hi..]
  {
    var a := if lo <= |s| then lo else |s|;
    var b0 := if hi <= |s| then hi else |s|;
    var b := if b0 < a then a else b0;
    s[..a] + v + s[b..]
  }

  /** Flattening a list of byte strings (Python's `b''.join`). */
  function Concat(parts: seq<seq<Byte>>): (r: seq<Byte>)
  {
    if parts == [] then [] else parts[0] + Concat(parts[1..])
  }

  lemma {:induction false} ConcatAppend(parts: seq<seq<Byte>>, last: seq<Byte>)
    ensures Concat(parts + [last]) == Concat(parts) + last
  {
    if parts == [] {
      assert [] + [last] == [last];
    } else {
      assert (parts + [last])[1..] == parts[1..] + [last];
      ConcatAppend(parts[1..], last);
    }
  }

  /** A readable, seekable file object over a byte string (`io.BytesIO`).
      The position may pass the end after a seek; reads then return nothing. */
  datatype Stream = Stream(data: seq<Byte>, pos: nat) {

    function Available(): nat
    {
      if pos <= |data| then |data| - pos else 0
    }

    /** `read(n)`: at most `n` bytes, fewer at the end of the data. */
    function Read(n: nat): (r: (seq<Byte>, Stream))
      ensures |r.0| == if n <= Available() then n else Available()
      ensures pos <= |data| ==> r.0 == data[pos..pos + |r.0|]
      ensures r.1 == Stream(data, pos + |r.0|)
    {
      var k := if n <= Available() then n else Available();
      if pos <= |data| then (data[pos..pos + k], Stream(data, pos + k)) else ([], this)
    }

    /** `read(-1)`: everything that remains. */
    function ReadRest(): (r: (seq<Byte>, Stream))
      ensures |r.0| == Available()
    {
      Read(Available())
    }

    /** `seek(n, SEEK_CUR)` for a non-negative `n`. */
    function Skip(n: nat): Stream
    {
      Stream(data, pos + n)
    }
  }
}
