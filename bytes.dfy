/** Bytes and fixed-width little-endian integers, as every decoder of the model reads them. */
module Bytes {

  type byte = x: int | 0 <= x < 256

  /** 256 to the power n: the number of distinct values of an n-byte field. */
  function Pow256(n: nat): (r: nat)
    ensures r >= 1
  {
    if n == 0 then 1 else 256 * Pow256(n - 1)
  }

  /** Two to the power n. */
  function Pow2(n: nat): (r: nat)
    ensures r >= 1
  {
    if n == 0 then 1 else 2 * Pow2(n - 1)
  }

  /** The unsigned value of a little-endian byte string: the sum of s[i] * 256^i. */
  function LittleEndian(s: seq<byte>): (r: nat)
    ensures r < Pow256(|s|)
  {
    if s == [] then 0 else s[0] + 256 * LittleEndian(s[1..])
  }

  /** The little-endian number stored in data[lo..hi], read in place. */
  function LERange(data: seq<byte>, lo: nat, hi: nat): (r: nat)
    requires lo <= hi <= |data|
    ensures r < Pow256(hi - lo)
    decreases hi - lo
  {
    if lo == hi then 0 else data[lo] + 256 * LERange(data, lo + 1, hi)
  }

  /** The bytes data[lo..hi], gathered one at a time. */
  function Window(data: seq<byte>, lo: nat, hi: nat): seq<byte>
    requires lo <= hi <= |data|
    decreases hi - lo
  {
    if lo == hi then [] else [data[lo]] + Window(data, lo + 1, hi)
  }

  /** Gathering the bytes one at a time gives the slice. */
  lemma {:induction false} WindowIsSlice(data: seq<byte>, lo: nat, hi: nat)
    requires lo <= hi <= |data|
    ensures Window(data, lo, hi) == data[lo .. hi]
    decreases hi - lo
  {
    if lo < hi {
      WindowIsSlice(data, lo + 1, hi);
      assert data[lo .. hi] == [data[lo]] + data[lo + 1 .. hi];
    }
  }

  /** The little-endian number stored in the size bytes of data at offset. */
  function LEAt(data: seq<byte>, offset: nat, size: nat): (r: nat)
    requires offset + size <= |data|
    ensures r < Pow256(size)
  {
    LERange(data, offset, offset + size)
  }

  /** Reading in place is reading the window. */
  lemma {:induction false} LERangeWindow(data: seq<byte>, lo: nat, hi: nat)
    requires lo <= hi <= |data|
    ensures LERange(data, lo, hi) == LittleEndian(data[lo .. hi])
    decreases hi - lo
  {
    if lo < hi {
      LERangeWindow(data, lo + 1, hi);
      assert data[lo .. hi][1..] == data[lo + 1 .. hi];
    }
  }

  /** Reading in place is reading the window. */
  lemma LEAtWindow(data: seq<byte>, offset: nat, size: nat)
    requires offset + size <= |data|
    ensures LEAt(data, offset, size) == LittleEndian(data[offset .. offset + size])
  {
    LERangeWindow(data, offset, offset + size);
  }

  /** The n-byte little-endian encoding of v (v is taken modulo 256^n). */
  function EncodeLE(v: nat, n: nat): (s: seq<byte>)
    ensures |s| == n
  {
    if n == 0 then [] else [v % 256] + EncodeLE(v / 256, n - 1)
  }

  /** Decoding an encoding gives back the value whenever it fits in the width. */
  lemma {:induction false} DecodeEncode(v: nat, n: nat)
    requires v < Pow256(n)
    ensures LittleEndian(EncodeLE(v, n)) == v
  {
    if n > 0 {
      DecodeEncode(v / 256, n - 1);
      var s := EncodeLE(v, n);
      assert s[1..] == EncodeLE(v / 256, n - 1);
    }
  }

  /** Encoding a decoded string gives back the string. */
  lemma {:induction false} EncodeDecode(s: seq<byte>)
    ensures EncodeLE(LittleEndian(s), |s|) == s
  {
    if s != [] {
      EncodeDecode(s[1..]);
      var v := LittleEndian(s);
      assert v % 256 == s[0] && v / 256 == LittleEndian(s[1..]);
    }
  }

  /** Little-endian decoding only looks at the bytes of the field itself. */
  lemma {:induction false} LittleEndianSplit(a: seq<byte>, b: seq<byte>)
    ensures LittleEndian(a + b) == LittleEndian(a) + Pow256(|a|) * LittleEndian(b)
  {
    if a != [] {
      var t := a[1..];
      assert (a + b)[1..] == t + b;
      LittleEndianSplit(t, b);
      var x, y, p := LittleEndian(t), LittleEndian(b), Pow256(|t|);
      assert LittleEndian(a + b) == a[0] + 256 * (x + p * y);
      Distribute(x, p, y);
    } else {
      assert a + b == b;
    }
  }

  lemma Distribute(x: nat, p: nat, y: nat)
    ensures 256 * (x + p * y) == 256 * x + (256 * p) * y
  {
  }

  /** The two's-complement reading of an unsigned value of the given bit width. */
  function ToSigned(u: nat, bits: nat): (r: int)
    requires bits > 0 && u < Pow2(bits)
    ensures -(Pow2(bits - 1) as int) <= r < Pow2(bits - 1)
    ensures u == if r >= 0 then r else r + Pow2(bits)
  {
    assert Pow2(bits) == 2 * Pow2(bits - 1);
    if u < Pow2(bits - 1) then u else u - Pow2(bits)
  }

  /** Eight bits per byte: the widths agree. */
  lemma {:induction false} Pow256IsPow2(n: nat)
    ensures Pow256(n) == Pow2(8 * n)
  {
    if n > 0 {
      Pow256IsPow2(n - 1);
      assert Pow2(8 * n) == 256 * Pow2(8 * (n - 1)) by {
        var k := 8 * (n - 1);
        assert Pow2(k + 1) == 2 * Pow2(k);
        assert Pow2(k + 2) == 2 * Pow2(k + 1);
        assert Pow2(k + 3) == 2 * Pow2(k + 2);
        assert Pow2(k + 4) == 2 * Pow2(k + 3);
        assert Pow2(k + 5) == 2 * Pow2(k + 4);
        assert Pow2(k + 6) == 2 * Pow2(k + 5);
        assert Pow2(k + 7) == 2 * Pow2(k + 6);
        assert Pow2(k + 8) == 2 * Pow2(k + 7);
      }
    }
  }

  /** The bytes of s in [lo, hi), with both ends clamped to the string, as a slice in Python does. */
  function Slice(s: seq<byte>, lo: nat, hi: nat): (r: seq<byte>)
    ensures |r| <= |s|
    ensures lo <= hi <= |s| ==> r == s[lo..hi]
    ensures lo <= |s| && |s| < hi ==> r == s[lo..]
    ensures |s| <= lo ==> r == []
  {
    var l := if lo <= |s| then lo else |s|;
    var h := if hi <= |s| then hi else |s|;
    if l <= h then s[l..h] else []
  }
}
