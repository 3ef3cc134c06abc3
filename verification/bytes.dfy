/** Bytes, optional values and the integer codecs shared by the feed handler:
    big-endian ("network order", as ITCH 5.0 writes every integer) and
    little-endian (the native order of the host that reads PCAP headers). */
module Bytes {

  /** An unsigned octet, as `uint8_t` / a `char` read through `static_cast<uint8_t>`. */
  newtype byte = b: int | 0 <= b < 256

  datatype Option<T> = None | Some(value: T)

  /** The ASCII code of a 7-bit character, as a byte. */
  function Ascii(c: char): (b: byte)
    requires c as int < 128
    ensures b as int == c as int
  {
    c as int as byte
  }

  /** The ASCII codes of a 7-bit string, as bytes. */
  function AsciiBytes(s: string): (b: seq<byte>)
    requires forall i :: 0 <= i < |s| ==> s[i] as int < 128
    ensures |b| == |s| && forall i :: 0 <= i < |s| ==> b[i] as int == s[i] as int
  {
    seq(|s|, i requires 0 <= i < |s| => Ascii(s[i]))
  }

  /** 256 to the power w: one more than the largest w-byte unsigned value. */
  function Pow256(w: nat): (p: nat)
    ensures p > 0
  {
    if w == 0 then 1 else 256 * Pow256(w - 1)
  }

  /** The unsigned value of `s` read most-significant byte first. */
  function BeValue(s: seq<byte>): (v: nat)
    ensures v < Pow256(|s|)
  {
    if |s| == 0 then 0 else BeValue(s[..|s| - 1]) * 256 + s[|s| - 1] as int
  }

  /** The unsigned value of `s` read least-significant byte first. */
  function LeValue(s: seq<byte>): (v: nat)
    ensures v < Pow256(|s|)
  {
    if |s| == 0 then 0 else s[0] as int + 256 * LeValue(s[1..])
  }

  /** Byte i of the w-byte big-endian encoding of v, as the C++ sources write it:
      `(v >> (8 * (w - 1 - i))) & 0xFF`. */
  function ShiftByte(v: nat, w: nat, i: nat): (b: byte)
    requires i < w
  {
    ((v / Pow256(w - 1 - i)) % 256) as byte
  }

  /** The w-byte big-endian encoding of v (bits above 8w are dropped). */
  function BeBytes(w: nat, v: nat): (s: seq<byte>)
    ensures |s| == w
  {
    seq(w, i requires 0 <= i < w => ShiftByte(v, w, i))
  }

  /** The w-byte little-endian encoding of v (bits above 8w are dropped). */
  function LeBytes(w: nat, v: nat): (s: seq<byte>)
    ensures |s| == w
  {
    if w == 0 then [] else [(v % 256) as byte] + LeBytes(w - 1, v / 256)
  }

  /** `__builtin_bswap32`: the 32-bit value whose bytes are those of v reversed. */
  function Bswap32(v: nat): (r: nat)
    requires v < 0x1_0000_0000
    ensures r < 0x1_0000_0000
  {
    assert Pow256(4) == 0x1_0000_0000;
    BeValue(LeBytes(4, v))
  }

  // ---------------------------------------------------------------------
  // Arithmetic helpers
  // ---------------------------------------------------------------------

  /** Division with remainder is unique. */
  lemma DivModUnique(v: int, d: int, q: int, r: int)
    requires d > 0 && 0 <= r < d && v == q * d + r
    ensures v / d == q && v % d == r
  {
    var q', r' := v / d, v % d;
    assert v == q' * d + r';
    assert (q - q') * d == r' - r;
    if q > q' {
      MulAtLeast(q - q', d);
    } else if q < q' {
      MulAtLeast(q' - q, d);
    }
  }

  lemma MulAtLeast(k: int, d: int)
    requires k >= 1 && d > 0
    ensures k * d >= d
  {
    assert k * d == (k - 1) * d + d;
    assert (k - 1) * d >= 0;
  }

  /** Dividing by a then by b is dividing by a * b. */
  lemma DivDiv(v: nat, a: nat, b: nat)
    requires a > 0 && b > 0
    ensures v / a / b == v / (a * b)
  {
    var q1, r1 := v / a, v % a;
    var q2, r2 := q1 / b, q1 % b;
    assert v == q1 * a + r1;
    assert q1 == q2 * b + r2;
    MulAddRight(q2 * b, r2, a);
    MulRegroup(q2, b, a);
    assert v == q2 * (a * b) + (r2 * a + r1);
    MulLessRight(r2, b, a);
    DivModUnique(v, a * b, q2, r2 * a + r1);
  }

  /** Concatenation is associative. */
  lemma SeqAssoc<T>(a: seq<T>, b: seq<T>, c: seq<T>)
    ensures (a + b) + c == a + (b + c)
  {
  }

  /** Division by a positive number is monotone. */
  lemma DivMonotone(a: nat, b: nat, d: nat)
    requires a <= b && d > 0
    ensures a / d <= b / d
  {
    var qa, qb := a / d, b / d;
    assert a == qa * d + a % d && b == qb * d + b % d;
    if qa > qb {
      MulMonotone(qb + 1, qa, d);
      MulAddRight(qb, 1, d);
      assert false;
    }
  }

  lemma MulAddRight(x: int, y: int, z: int)
    ensures (x + y) * z == x * z + y * z
  {
  }

  lemma MulRegroup(x: int, y: int, z: int)
    ensures x * y * z == x * (z * y)
  {
  }

  /** r < b scaled by a leaves room for one more a below b * a. */
  lemma MulLessRight(r: nat, b: nat, a: nat)
    requires r < b && a > 0
    ensures r * a + a <= a * b
  {
    assert (r + 1) * a <= b * a by {
      MulMonotone(r + 1, b, a);
    }
    MulAddRight(r, 1, a);
  }

  lemma MulMonotone(x: nat, y: nat, z: nat)
    requires x <= y
    ensures x * z <= y * z
  {
    MulAddRight(x, y - x, z);
  }

  /** Splitting the low byte off a value below 256 * m. */
  lemma ModSplit(v: nat, m: nat)
    requires m > 0
    ensures v % (256 * m) == ((v / 256) % m) * 256 + v % 256
  {
    var q, r := v / 256, v % 256;
    var a, b := q / m, q % m;
    assert v == a * (256 * m) + (b * 256 + r) by {
      assert v == q * 256 + r;
      assert q == a * m + b;
      assert q * 256 == a * m * 256 + b * 256;
    }
    assert b * 256 + r < 256 * m by {
      assert b <= m - 1;
      assert b * 256 <= (m - 1) * 256;
    }
    DivModUnique(v, 256 * m, a, b * 256 + r);
  }

  // ---------------------------------------------------------------------
  // Round trips
  // ---------------------------------------------------------------------

  /** Dropping the last byte of a big-endian encoding encodes the value shifted right by 8. */
  lemma BeBytesPrefix(w: nat, v: nat)
    requires w > 0
    ensures BeBytes(w, v)[..w - 1] == BeBytes(w - 1, v / 256)
    ensures BeBytes(w, v)[w - 1] == (v % 256) as byte
  {
    forall i | 0 <= i < w - 1
      ensures BeBytes(w, v)[i] == BeBytes(w - 1, v / 256)[i]
    {
      DivDiv(v, 256, Pow256(w - 2 - i));
    }
  }

  /** Decoding a w-byte big-endian encoding gives back the value modulo 256^w:
      the shift-and-mask encoder and the shift-and-or decoder are inverse. */
  lemma {:induction false} BeRoundTrip(w: nat, v: nat)
    ensures BeValue(BeBytes(w, v)) == v % Pow256(w)
  {
    if w > 0 {
      BeBytesPrefix(w, v);
      BeRoundTrip(w - 1, v / 256);
      ModSplit(v, Pow256(w - 1));
    }
  }

  /** Every byte string is the big-endian encoding of its own value. */
  lemma {:induction false} BeBytesOfValue(s: seq<byte>)
    ensures BeBytes(|s|, BeValue(s)) == s
  {
    if |s| > 0 {
      var w, v := |s|, BeValue(s);
      var init := s[..w - 1];
      BeBytesPrefix(w, v);
      DivModUnique(v, 256, BeValue(init), s[w - 1] as int);
      BeBytesOfValue(init);
    }
  }

  /** Decoding a little-endian encoding gives back the value modulo 256^w. */
  lemma {:induction false} LeRoundTrip(w: nat, v: nat)
    ensures LeValue(LeBytes(w, v)) == v % Pow256(w)
  {
    if w > 0 {
      LeRoundTrip(w - 1, v / 256);
      ModSplit(v, Pow256(w - 1));
    }
  }

  /** Every byte string is the little-endian encoding of its own value. */
  lemma {:induction false} LeBytesOfValue(s: seq<byte>)
    ensures LeBytes(|s|, LeValue(s)) == s
  {
    if |s| > 0 {
      var v := LeValue(s);
      DivModUnique(v, 256, LeValue(s[1..]), s[0] as int);
      LeBytesOfValue(s[1..]);
      assert [s[0]] + s[1..] == s;
    }
  }

  /** A little-endian read of four bytes, byte-swapped, is their big-endian read. */
  lemma BswapOfLe(s: seq<byte>)
    requires |s| == 4
    ensures LeValue(s) < 0x1_0000_0000
    ensures Bswap32(LeValue(s)) == BeValue(s)
  {
    assert Pow256(4) == 0x1_0000_0000;
    LeBytesOfValue(s);
  }

  /** The two readings of a 4-byte word. */
  lemma WordValues(a: byte, b: byte, c: byte, e: byte)
    ensures LeValue([a, b, c, e]) == a as int + 256 * (b as int + 256 * (c as int + 256 * e as int))
    ensures BeValue([a, b, c, e]) == ((a as int * 256 + b as int) * 256 + c as int) * 256 + e as int
  {
    var s := [a, b, c, e];
    assert s[1..] == [b, c, e] && s[1..][1..] == [c, e] && s[1..][1..][1..] == [e];
    assert [e][1..] == [];
    assert LeValue([e]) == e as int;
    assert LeValue([c, e]) == c as int + 256 * e as int;
    assert LeValue([b, c, e]) == b as int + 256 * (c as int + 256 * e as int);
    assert s[..3] == [a, b, c] && [a, b, c][..2] == [a, b] && [a, b][..1] == [a];
    assert [a][..0] == [];
    assert BeValue([a]) == a as int;
    assert BeValue([a, b]) == a as int * 256 + b as int;
    assert BeValue([a, b, c]) == (a as int * 256 + b as int) * 256 + c as int;
  }

  /** Reversing a 4-byte word swaps its two readings. */
  lemma ReversedWord(s: seq<byte>)
    requires |s| == 4
    ensures LeValue([s[3], s[2], s[1], s[0]]) == BeValue(s)
    ensures BeValue([s[3], s[2], s[1], s[0]]) == LeValue(s)
  {
    assert s == [s[0], s[1], s[2], s[3]];
    WordValues(s[0], s[1], s[2], s[3]);
    WordValues(s[3], s[2], s[1], s[0]);
  }

  /** A big-endian read of four bytes, byte-swapped, is their little-endian read. */
  lemma BswapOfBe(s: seq<byte>)
    requires |s| == 4
    ensures BeValue(s) < 0x1_0000_0000
    ensures Bswap32(BeValue(s)) == LeValue(s)
  {
    var r := [s[3], s[2], s[1], s[0]];
    ReversedWord(s);
    BswapOfLe(r);
  }

  /** Swapping twice gives the word back. */
  lemma BswapInvolution(v: nat)
    requires v < 0x1_0000_0000
    ensures Bswap32(Bswap32(v)) == v
  {
    var s := LeBytes(4, v);
    assert LeValue(s) == v by {
      LeRoundTrip(4, v);
      assert Pow256(4) == 0x1_0000_0000;
    }
    BswapOfLe(s);
    BswapOfBe(s);
  }
}
