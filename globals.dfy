/** Shared constants and the little-endian readers of globals.h. */
module Globals {

  /** One byte of wire data. */
  type Byte = b: int | 0 <= b < 0x100

  /** An unsigned 16-, 32- or 64-bit value. */
  type U16 = x: int | 0 <= x < 0x1_0000
  type U32 = x: int | 0 <= x < 0x1_0000_0000
  type U64 = x: int | 0 <= x < 0x1_0000_0000_0000_0000

  /** Command carrying pixel colours with 64-bit clock values. */
  const WifiCommandPixelData64: U16 := 3

  function Pow256(n: nat): (p: nat)
    ensures p >= 1
  {
    if n == 0 then 1 else 0x100 * Pow256(n - 1)
  }

  /** The number whose little-endian bytes are `s` (byte 0 least significant).
      The readers below OR together shifted bytes whose bit ranges do not
      overlap, so OR and addition agree. */
  function LittleEndian(s: seq<Byte>): nat
  {
    if s == [] then 0 else s[0] + 0x100 * LittleEndian(s[1..])
  }

  /** The `n` little-endian bytes of `v` (the inverse of LittleEndian). */
  function ToLittleEndian(v: nat, n: nat): (s: seq<Byte>)
    ensures |s| == n
  {
    if n == 0 then [] else [v % 0x100] + ToLittleEndian(v / 0x100, n - 1)
  }

  /** WORDFromMemory: two bytes, least significant first. */
  function WordFromMemory(b: seq<Byte>): (w: U16)
    requires |b| >= 2
    ensures w == b[0] + 0x100 * (b[1] as int)
  {
    var t := b[..2];
    assert LittleEndian(t[1..][1..]) == 0;
    assert LittleEndian(t[1..]) == t[1];
    LittleEndian(t)
  }

  /** DWORDFromMemory: four bytes, least significant first. */
  function DWordFromMemory(b: seq<Byte>): (d: U32)
    requires |b| >= 4
    ensures d == b[0] + 0x100 * (b[1] as int) + 0x1_0000 * (b[2] as int) + 0x100_0000 * (b[3] as int)
  {
    LittleEndianBound(b[..4]);
    LittleEndianUnfold4(b[..4]);
    LittleEndian(b[..4])
  }

  /** ULONGFromMemory: eight bytes, least significant first. */
  function ULongFromMemory(b: seq<Byte>): (u: U64)
    requires |b| >= 8
    ensures u == b[0] + 0x100 * (b[1] as int) + 0x1_0000 * (b[2] as int) + 0x100_0000 * (b[3] as int)
               + 0x1_0000_0000 * (b[4] as int) + 0x100_0000_0000 * (b[5] as int)
               + 0x1_0000_0000_0000 * (b[6] as int) + 0x100_0000_0000_0000 * (b[7] as int)
  {
    LittleEndianUnfold8(b[..8]);
    LittleEndian(b[..8])
  }

  lemma LittleEndianUnfold8(s: seq<Byte>)
    requires |s| == 8
    ensures LittleEndian(s) < 0x1_0000_0000_0000_0000
    ensures LittleEndian(s) == s[0] + 0x100 * (s[1] as int) + 0x1_0000 * (s[2] as int) + 0x100_0000 * (s[3] as int)
               + 0x1_0000_0000 * (s[4] as int) + 0x100_0000_0000 * (s[5] as int)
               + 0x1_0000_0000_0000 * (s[6] as int) + 0x100_0000_0000_0000 * (s[7] as int)
  {
    LittleEndianBound(s);
    LittleEndianHalves(s);
    LittleEndianUnfold4(s[..4]);
    LittleEndianUnfold4(s[4..]);
  }

  /** Eight bytes read as two 32-bit halves, the low one first. */
  lemma LittleEndianHalves(s: seq<Byte>)
    requires |s| == 8
    ensures LittleEndian(s) == LittleEndian(s[..4]) + 0x1_0000_0000 * LittleEndian(s[4..])
  {
    LittleEndianSplit(s[..4], s[4..]);
    assert s[..4] + s[4..] == s;
    assert Pow256(4) == 0x1_0000_0000;
  }

  lemma LittleEndianUnfold4(s: seq<Byte>)
    requires |s| == 4
    ensures LittleEndian(s) == s[0] + 0x100 * (s[1] as int) + 0x1_0000 * (s[2] as int) + 0x100_0000 * (s[3] as int)
  {
    assert LittleEndian(s[1..][1..][1..][1..]) == 0;
    assert LittleEndian(s[1..][1..][1..]) == s[3];
    assert LittleEndian(s[1..][1..]) == s[2] + 0x100 * (s[3] as int);
    assert LittleEndian(s[1..]) == s[1] + 0x100 * (s[2] as int) + 0x1_0000 * (s[3] as int);
  }

  /** A little-endian number of n bytes is below 256^n. */
  lemma {:induction false} LittleEndianBound(s: seq<Byte>)
    ensures LittleEndian(s) < Pow256(|s|)
  {
    if s != [] {
      LittleEndianBound(s[1..]);
    }
  }

  /** Decoding a concatenation: the bytes of `b` weigh 256^|a| more. */
  lemma {:induction false} LittleEndianSplit(a: seq<Byte>, b: seq<Byte>)
    ensures LittleEndian(a + b) == LittleEndian(a) + Pow256(|a|) * LittleEndian(b)
  {
    if a == [] {
      assert a + b == b;
    } else {
      assert (a + b)[1..] == a[1..] + b;
      LittleEndianSplit(a[1..], b);
      var rest, high, weight := LittleEndian(a[1..]), LittleEndian(b), Pow256(|a| - 1);
      assert LittleEndian(a + b) == (a + b)[0] + 0x100 * LittleEndian((a + b)[1..]);
      assert LittleEndian(a) == a[0] + 0x100 * rest;
      assert Pow256(|a|) == 0x100 * weight;
      ScaleProduct(weight, high);
    }
  }

  lemma ScaleProduct(x: nat, y: nat)
    ensures 0x100 * (x * y) == (0x100 * x) * y
  {
  }

  /** Encoding then decoding an in-range value returns it. */
  lemma {:induction false} DecodeEncode(v: nat, n: nat)
    requires v < Pow256(n)
    ensures LittleEndian(ToLittleEndian(v, n)) == v
  {
    if n > 0 {
      DecodeEncode(v / 0x100, n - 1);
    }
  }

  /** Decoding then encoding gives back the same bytes. */
  lemma {:induction false} EncodeDecode(s: seq<Byte>)
    ensures ToLittleEndian(LittleEndian(s), |s|) == s
  {
    if s != [] {
      EncodeDecode(s[1..]);
      assert LittleEndian(s) % 0x100 == s[0];
      assert LittleEndian(s) / 0x100 == LittleEndian(s[1..]);
    }
  }

  /** Each reader looks only at its first 2, 4 or 8 bytes, whatever the
      inputs' lengths beyond that. */
  lemma ReadersUsePrefixOnly(a: seq<Byte>, b: seq<Byte>)
    ensures |a| >= 2 && |b| >= 2 && a[..2] == b[..2] ==> WordFromMemory(a) == WordFromMemory(b)
    ensures |a| >= 4 && |b| >= 4 && a[..4] == b[..4] ==> DWordFromMemory(a) == DWordFromMemory(b)
    ensures |a| >= 8 && |b| >= 8 && a[..8] == b[..8] ==> ULongFromMemory(a) == ULongFromMemory(b)
  {
  }

  /** Round trip for each reader: the little-endian bytes of an in-range value
      read back as that value, whatever bytes follow them. */
  lemma ReadersRoundTrip(w: U16, d: U32, u: U64, rest: seq<Byte>)
    ensures WordFromMemory(ToLittleEndian(w, 2) + rest) == w
    ensures DWordFromMemory(ToLittleEndian(d, 4) + rest) == d
    ensures ULongFromMemory(ToLittleEndian(u, 8) + rest) == u
  {
    DecodeEncode(w, 2);
    DecodeEncode(d, 4);
    DecodeEncode(u, 8);
    assert (ToLittleEndian(w, 2) + rest)[..2] == ToLittleEndian(w, 2);
    assert (ToLittleEndian(d, 4) + rest)[..4] == ToLittleEndian(d, 4);
    assert (ToLittleEndian(u, 8) + rest)[..8] == ToLittleEndian(u, 8);
  }

  /** A DWORD is the low WORD plus 65536 times the high WORD. */
  lemma DWordFromWords(b: seq<Byte>)
    requires |b| >= 4
    ensures DWordFromMemory(b) == WordFromMemory(b) + 0x1_0000 * WordFromMemory(b[2..])
  {
  }
}
