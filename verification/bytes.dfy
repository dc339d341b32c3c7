/**
  Fixed-width unsigned integers of the firmware, as bounded `int`s, and the
  byte helpers the descriptor tables are built with.
 */
module Bytes {

  type Byte = x: int | 0 <= x < 0x100
  type U16 = x: int | 0 <= x < 0x1_0000
  type U32 = x: int | 0 <= x < 0x1_0000_0000

  /** The low byte of a 16-bit word (`word & 0xff`). */
  function Lsb(w: U16): (r: Byte)
    ensures (w - r) % 0x100 == 0
  {
    w % 0x100
  }

  /** The high byte of a 16-bit word (`(word & 0xff00) >> 8`). */
  function Msb(w: U16): (r: Byte)
    ensures r * 0x100 <= w < r * 0x100 + 0x100
  {
    w / 0x100
  }

  /** A 16-bit word recomposed from its little-endian byte pair. */
  function Le16(lo: Byte, hi: Byte): (w: U16)
    ensures w % 0x100 == lo && w / 0x100 == hi
  {
    lo + 0x100 * hi
  }

  /** The two bytes of a word put back together give the word. */
  lemma LsbMsbRecompose(w: U16)
    ensures Le16(Lsb(w), Msb(w)) == w
    ensures Lsb(Le16(Lsb(w), Msb(w))) == Lsb(w)
  {
  }

  /** Splitting a recomposed word gives the bytes back. */
  lemma Le16Split(lo: Byte, hi: Byte)
    ensures Lsb(Le16(lo, hi)) == lo && Msb(Le16(lo, hi)) == hi
  {
  }

  function Min(a: int, b: int): (m: int)
    ensures m <= a && m <= b && (m == a || m == b)
  {
    if a <= b then a else b
  }

  /** The byte values of an ASCII string literal (all code points below 128). */
  function Ascii(s: string): (r: seq<Byte>)
    requires forall i :: 0 <= i < |s| ==> s[i] as int < 0x80
    ensures |r| == |s|
    ensures forall i :: 0 <= i < |s| ==> r[i] == s[i] as int
  {
    seq(|s|, i requires 0 <= i < |s| => s[i] as int)
  }

  /** `n` bytes counting up from `start`, wrapping at 256, as `std::iota` fills a `uint8_t` array. */
  function Iota(n: nat, start: Byte): (r: seq<Byte>)
    ensures |r| == n
    ensures forall i :: 0 <= i < n ==> r[i] == (start + i) % 0x100
  {
    seq(n, i => (start + i) % 0x100)
  }

  function Zeros(n: nat): (r: seq<Byte>)
    ensures |r| == n && forall i :: 0 <= i < n ==> r[i] == 0
  {
    seq(n, i => 0)
  }
}

/** Option, as the C++ code's nullable pointers and optional results. */
module Wrappers {
  datatype Option<+T> = None | Some(value: T)
}
