/**
  The receiver's check that SPI data arrived: the master repeats the four
  characters "spi " with no framing, so reception starts at an unknown bit
  offset into that stream. The firmware compares the first word of a buffer
  with the 32 rotations of the expected word. A 32-bit word is modelled as its
  bits, least significant first, so that C++ shifts, `|` and rotation can be
  stated bit by bit.
 */
module RxPattern {
  import opened Bytes
  import opened Wrappers

  const WordBits := 32

  /** A `uint32_t` as its 32 bits; `w[i]` is bit i (weight 2^i). */
  type Word = w: seq<bool> | |w| == 32 witness seq(32, i => false)

  /** The bits of a byte, least significant first. */
  function ByteBits(b: Byte): (r: seq<bool>)
    ensures |r| == 8
  {
    [b % 2 == 1, (b / 2) % 2 == 1, (b / 4) % 2 == 1, (b / 8) % 2 == 1,
     (b / 16) % 2 == 1, (b / 32) % 2 == 1, (b / 64) % 2 == 1, (b / 128) % 2 == 1]
  }

  /** Four bytes in memory read as a little-endian `uint32_t`. */
  function WordOfBytes(b: seq<Byte>): (w: Word)
    requires |b| == 4
    ensures forall k :: 0 <= k < 8 ==> w[k] == ByteBits(b[0])[k] && w[24 + k] == ByteBits(b[3])[k]
  {
    ByteBits(b[0]) + ByteBits(b[1]) + ByteBits(b[2]) + ByteBits(b[3])
  }

  /** The numeric value of four little-endian bytes. */
  function Le32(b: seq<Byte>): (v: U32)
    requires |b| == 4
    ensures v % 0x100 == b[0] && v / 0x100_0000 == b[3]
  {
    b[0] as int + 0x100 * b[1] as int + 0x1_0000 * b[2] as int + 0x100_0000 * b[3] as int
  }

  /** The four characters the SPI master repeats. */
  function ExpectedBytes(): (b: seq<Byte>)
    ensures |b| == 4
  {
    Ascii("spi ")
  }

  /** The `expected` union: "spi " reinterpreted as a word on a little-endian machine. */
  function ExpectedWord(): Word
  {
    WordOfBytes(ExpectedBytes())
  }

  /** The union's word has the value 0x20697073. */
  lemma ExpectedValue()
    ensures Le32(ExpectedBytes()) == 0x20697073
    ensures ExpectedBytes() == [0x73, 0x70, 0x69, 0x20]
  {
  }

  // ---------------------------------------------------------------------
  // Shifts and rotation

  /** `w << s`; a count of 32 or more is undefined behaviour in C++, hence None. */
  function Shl(w: Word, s: nat): (r: Option<Word>)
    ensures r.Some? <==> s < WordBits
    ensures r.Some? ==> forall i :: 0 <= i < 32 ==> r.value[i] == (i >= s && w[i - s])
  {
    if s < WordBits then Some(seq(32, i requires 0 <= i < 32 => i >= s && w[i - s])) else None
  }

  /** `w >> s` on an unsigned word; likewise undefined for a count of 32 or more. */
  function Shr(w: Word, s: nat): (r: Option<Word>)
    ensures r.Some? <==> s < WordBits
    ensures r.Some? ==> forall i :: 0 <= i < 32 ==> r.value[i] == (i + s < 32 && w[i + s])
  {
    if s < WordBits then Some(seq(32, i requires 0 <= i < 32 => i + s < 32 && w[i + s])) else None
  }

  function Or(a: Word, b: Word): (r: Word)
    ensures forall i :: 0 <= i < 32 ==> r[i] == (a[i] || b[i])
  {
    seq(32, i requires 0 <= i < 32 => a[i] || b[i])
  }

  /**
    `rotate_word` as written: `word << shift | word >> (32 - shift)`. None
    when either shift count is undefined, which includes shift 0.
   */
  function RotateWordAsWritten(w: Word, s: nat): (r: Option<Word>)
    requires s <= WordBits
    ensures r.Some? <==> 0 < s < WordBits
  {
    match (Shl(w, s), Shr(w, WordBits - s))
    case (Some(hi), Some(lo)) => Some(Or(hi, lo))
    case _ => None
  }

  /** Rotation left by `s` bits, taken modulo 32: bit i of the result is bit i - s of the input. */
  function RotateLeft(w: Word, s: nat): (r: Word)
    ensures forall i :: 0 <= i < 32 ==> r[i] == w[(i - s) % 32]
  {
    seq(32, i requires 0 <= i < 32 => w[(i - s) % 32])
  }

  /** For every shift from 1 to 31 the expression computes the rotation. */
  lemma RotateWordIsRotation(w: Word, s: nat)
    requires 0 < s < WordBits
    ensures RotateWordAsWritten(w, s) == Some(RotateLeft(w, s))
  {
    var r := RotateWordAsWritten(w, s).value;
    forall i | 0 <= i < 32
      ensures r[i] == RotateLeft(w, s)[i]
    {
      if i >= s {
        assert (i - s) % 32 == i - s;
      } else {
        assert (i - s) % 32 == i + 32 - s;
      }
    }
    assert r == RotateLeft(w, s);
  }

  /** At shift 0, the first value `possible_rx_patterns_init` uses, the right shift by 32 is undefined. */
  lemma RotateWordUndefinedAtZero(w: Word)
    ensures RotateWordAsWritten(w, 0).None?
  {
  }

  /** Rotation by 0 is the identity, the value shift 0 was meant to give. */
  lemma RotateByZero(w: Word)
    ensures RotateLeft(w, 0) == w
  {
    forall i | 0 <= i < 32 ensures RotateLeft(w, 0)[i] == w[i] {
      assert (i - 0) % 32 == i;
    }
  }

  /** Rotations compose by adding their counts. */
  lemma RotateCompose(w: Word, a: nat, b: nat)
    ensures RotateLeft(RotateLeft(w, a), b) == RotateLeft(w, a + b)
  {
    forall i | 0 <= i < 32
      ensures RotateLeft(RotateLeft(w, a), b)[i] == RotateLeft(w, a + b)[i]
    {
      var j := (i - b) % 32;
      assert ((i - b) % 32 - a) % 32 == (i - (a + b)) % 32 by {
        ModSubtract(i - b, a);
      }
    }
  }

  lemma ModSubtract(x: int, a: nat)
    ensures (x % 32 - a) % 32 == (x - a) % 32
  {
    var q := x / 32;
    assert x == 32 * q + x % 32;
    assert x - a == (x % 32 - a) + 32 * q;
  }

  // ---------------------------------------------------------------------
  // The pattern table and the check

  /** `possible_rx_patterns`: entry s is the expected word rotated by s bits. */
  function Patterns(): (t: seq<Word>)
    ensures |t| == WordBits
    ensures forall s :: 0 <= s < WordBits ==> t[s] == RotateLeft(ExpectedWord(), s)
  {
    seq(WordBits, s requires 0 <= s < WordBits => RotateLeft(ExpectedWord(), s))
  }

  /** `possible_rx_patterns_init`, with the rotation corrected so that shift 0 is defined. */
  method PatternsInit() returns (t: seq<Word>)
    ensures t == Patterns()
  {
    t := [];
    var shift := 0;
    while shift < WordBits
      invariant 0 <= shift <= WordBits
      invariant |t| == shift
      invariant forall s :: 0 <= s < shift ==> t[s] == RotateLeft(ExpectedWord(), s)
    {
      t := t + [RotateLeft(ExpectedWord(), shift)];
      shift := shift + 1;
    }
  }

  /** `w` is `base` rotated by some number of bits. */
  predicate RotationOf(w: Word, base: Word)
  {
    exists s :: 0 <= s < WordBits && w == RotateLeft(base, s)
  }

  /** A word the firmware's check accepts: some rotation of the expected word. */
  predicate Recognised(w: Word)
  {
    RotationOf(w, ExpectedWord())
  }

  /** The table holds exactly the rotations of the expected word. */
  lemma {:induction false} InPatternsIffRecognised(w: Word)
    ensures w in Patterns() <==> Recognised(w)
  {
    var t := Patterns();
    if w in t {
      var s :| 0 <= s < |t| && t[s] == w;
      assert w == RotateLeft(ExpectedWord(), s);
    }
    if Recognised(w) {
      var s :| 0 <= s < WordBits && w == RotateLeft(ExpectedWord(), s);
      assert t[s] == w;
    }
  }

  /** The first index of `table` holding `w`, by linear search with early exit. */
  method Find(table: seq<Word>, w: Word) returns (found: bool, at: nat)
    ensures found <==> w in table
    ensures found ==> at < |table| && table[at] == w && w !in table[..at]
  {
    found, at := false, 0;
    while at < |table|
      invariant 0 <= at <= |table|
      invariant w !in table[..at]
    {
      if table[at] == w {
        found := true;
        return;
      }
      assert table[..at + 1] == table[..at] + [table[at]];
      at := at + 1;
    }
    assert table[..at] == table;
  }

  /**
    `find_expected_rx_pattern`: with a full buffer present, compare its first
    word with each table entry, stopping at the first match. With none, nothing
    is checked.
   */
  method FindExpectedRxPattern(table: seq<Word>, peeked: Option<seq<Byte>>) returns (checked: bool, recognised: bool)
    requires table == Patterns() || table == StreamPatterns()
    requires peeked.Some? ==> |peeked.value| >= 4
    ensures checked <==> peeked.Some?
    ensures recognised ==> checked
    ensures checked && table == Patterns() ==> (recognised <==> Recognised(WordOfBytes(peeked.value[..4])))
    ensures checked && table == StreamPatterns() ==> (recognised <==> ReadAtSomeOffset(WordOfBytes(peeked.value[..4])))
  {
    if peeked.None? {
      return false, false;
    }
    var rx := WordOfBytes(peeked.value[..4]);
    var at;
    checked := true;
    recognised, at := Find(table, rx);
    InPatternsIffRecognised(rx);
    StreamPatternsIffRead(rx);
  }

  /** Rotation counts only matter modulo 32. */
  lemma RotateModulo(w: Word, n: nat)
    ensures RotateLeft(w, n) == RotateLeft(w, n % 32)
  {
    forall i | 0 <= i < 32
      ensures RotateLeft(w, n)[i] == RotateLeft(w, n % 32)[i]
    {
      var q := n / 32;
      assert n == 32 * q + n % 32;
      assert i - n == (i - n % 32) - 32 * q;
    }
  }

  /** A rotation of `base` rotated further is still a rotation of `base`. */
  lemma {:induction false} RotationOfClosed(w: Word, base: Word, k: nat)
    requires RotationOf(w, base)
    ensures RotationOf(RotateLeft(w, k), base)
  {
    var s :| 0 <= s < WordBits && w == RotateLeft(base, s);
    RotateCompose(base, s, k);
    RotateModulo(base, s + k);
    assert RotateLeft(w, k) == RotateLeft(base, (s + k) % 32);
  }

  /**
    Recognition is closed under word rotation: rotating a recognised word
    gives a recognised word. A stream read at a further bit offset is not a
    word rotation in general; see StreamWord.
   */
  lemma RecognisedUnderRotation(w: Word, k: nat)
    requires Recognised(w)
    ensures Recognised(RotateLeft(w, k))
  {
    RotationOfClosed(w, ExpectedWord(), k);
  }

  /** The unrotated word, the one the SPI master actually sends first, is recognised. */
  lemma ExpectedRecognised()
    ensures Recognised(ExpectedWord())
  {
    RotateByZero(ExpectedWord());
    assert ExpectedWord() == RotateLeft(ExpectedWord(), 0);
  }

  // ---------------------------------------------------------------------
  // The stream read at a bit offset

  /** 2^n for the shift counts within a byte. */
  function Pow2(n: nat): (p: nat)
    requires n <= 8
    ensures p >= 1
  {
    [1, 2, 4, 8, 16, 32, 64, 128, 256][n]
  }

  /**
    The byte received `r` bits late across two stream bytes. SPI frames go
    most significant bit first, so it is the low 8 - r bits of `current`, as
    its high bits, followed by the high r bits of `next`.
   */
  function Straddle(current: Byte, next: Byte, r: nat): Byte
    requires r < 8
  {
    (current * Pow2(r) + next / Pow2(8 - r)) % 0x100
  }

  /**
    Byte j of a receive buffer when reception starts `o` = 8q + r bits into
    a stream that repeats the four bytes of `stream`.
   */
  function ReceivedByte(stream: seq<Byte>, o: nat, j: nat): Byte
    requires |stream| == 4
  {
    Straddle(stream[(o / 8 + j) % 4], stream[(o / 8 + j + 1) % 4], o % 8)
  }

  /** The first four bytes of that receive buffer. */
  function ReceivedBytes(stream: seq<Byte>, o: nat): (b: seq<Byte>)
    requires |stream| == 4
    ensures |b| == 4
  {
    [ReceivedByte(stream, o, 0), ReceivedByte(stream, o, 1), ReceivedByte(stream, o, 2), ReceivedByte(stream, o, 3)]
  }

  /** The first word of a receive buffer, read little-endian, when reception starts `o` bits into the "spi " stream. */
  function StreamWord(o: nat): Word
  {
    WordOfBytes(ReceivedBytes(ExpectedBytes(), o))
  }

  lemma StraddleAtZero(current: Byte, next: Byte)
    ensures Straddle(current, next, 0) == current
  {
    assert Pow2(0) == 1 && Pow2(8) == 0x100;
  }

  /** With no offset the receiver gets the stream's bytes unchanged. */
  lemma ReceivedAtZero(stream: seq<Byte>)
    requires |stream| == 4
    ensures ReceivedBytes(stream, 0) == stream
  {
    ReceivedByteAtZero(stream, 0);
    ReceivedByteAtZero(stream, 1);
    ReceivedByteAtZero(stream, 2);
    ReceivedByteAtZero(stream, 3);
    var b := ReceivedBytes(stream, 0);
    assert b[0] == stream[0] && b[1] == stream[1] && b[2] == stream[2] && b[3] == stream[3];
  }

  lemma ReceivedByteAtZero(stream: seq<Byte>, j: nat)
    requires |stream| == 4 && j < 4
    ensures ReceivedByte(stream, 0, j) == stream[j]
  {
    assert (0 / 8 + j) % 4 == j && 0 % 8 == 0;
    StraddleAtZero(stream[j], stream[(j + 1) % 4]);
  }

  /** Read with no offset, the "spi " stream gives exactly the `expected` word. */
  lemma StreamWordAtZero()
    ensures StreamWord(0) == ExpectedWord()
  {
    ReceivedAtZero(ExpectedBytes());
  }

  /** Two bits into the stream, the buffer starts with the bytes CD C1 A4 81. */
  lemma OffsetTwoBytes()
    ensures ReceivedBytes(ExpectedBytes(), 2) == [0xCD, 0xC1, 0xA4, 0x81]
  {
    ExpectedValue();
    assert Pow2(2) == 4 && Pow2(6) == 64;
    assert Straddle(0x73, 0x70, 2) == 0xCD;
    assert Straddle(0x70, 0x69, 2) == 0xC1;
    assert Straddle(0x69, 0x20, 2) == 0xA4;
    assert Straddle(0x20, 0x73, 2) == 0x81;
  }

  /** A stream of four repeated bytes repeats every 32 bits, so only the offset modulo 32 matters. */
  lemma {:induction false} ReceivedPeriodic(stream: seq<Byte>, o: nat)
    requires |stream| == 4
    ensures ReceivedBytes(stream, o) == ReceivedBytes(stream, o % 32)
  {
    var a := o / 32;
    assert o == 32 * a + o % 32;
    assert o / 8 == 4 * a + (o % 32) / 8 && o % 8 == (o % 32) % 8;
    forall j | 0 <= j < 4
      ensures ReceivedByte(stream, o, j) == ReceivedByte(stream, o % 32, j)
    {
      assert (o / 8 + j) % 4 == ((o % 32) / 8 + j) % 4;
      assert (o / 8 + j + 1) % 4 == ((o % 32) / 8 + j + 1) % 4;
    }
  }

  /** A word the stream gives at one of the 32 bit offsets. */
  predicate ReadAtSomeOffset(w: Word)
  {
    exists o :: 0 <= o < WordBits && StreamWord(o) == w
  }

  /** The bits of the word CD C1 A4 81, least significant first. */
  lemma OffsetTwoWordBits()
    ensures WordOfBytes([0xCD, 0xC1, 0xA4, 0x81]) ==
      [true, false, true, true, false, false, true, true] +
      [true, false, false, false, false, false, true, true] +
      [false, false, true, false, false, true, false, true] +
      [true, false, false, false, false, false, false, true]
  {
    assert ByteBits(0xCD) == [true, false, true, true, false, false, true, true];
    assert ByteBits(0xC1) == [true, false, false, false, false, false, true, true];
    assert ByteBits(0xA4) == [false, false, true, false, false, true, false, true];
    assert ByteBits(0x81) == [true, false, false, false, false, false, false, true];
  }

  /** The bits of the expected word "spi ", least significant first. */
  lemma ExpectedWordBits()
    ensures ExpectedWord() ==
      [true, true, false, false, true, true, true, false] +
      [false, false, false, false, true, true, true, false] +
      [true, false, false, true, false, true, true, false] +
      [false, false, false, false, false, true, false, false]
  {
    ExpectedValue();
    assert ByteBits(0x73) == [true, true, false, false, true, true, true, false];
    assert ByteBits(0x70) == [false, false, false, false, true, true, true, false];
    assert ByteBits(0x69) == [true, false, false, true, false, true, true, false];
    assert ByteBits(0x20) == [false, false, false, false, false, true, false, false];
  }

  // For each rotation count, a bit where the word CD C1 A4 81 differs from
  // that rotation of the expected word.

  lemma OffsetTwoNotRotationBelow16(s: nat)
    requires 0 <= s < 16
    ensures WordOfBytes([0xCD, 0xC1, 0xA4, 0x81]) != RotateLeft(ExpectedWord(), s)
  {
    OffsetTwoWordBits();
    ExpectedWordBits();
    var w := WordOfBytes([0xCD, 0xC1, 0xA4, 0x81]);
    var e := ExpectedWord();
    if s == 0 {
      assert w[1] != RotateLeft(e, 0)[1];
    }
    else if s == 1 {
      assert w[0] != RotateLeft(e, 1)[0];
    }
    else if s == 2 {
      assert w[0] != RotateLeft(e, 2)[0];
    }
    else if s == 3 {
      assert w[2] != RotateLeft(e, 3)[2];
    }
    else if s == 4 {
      assert w[0] != RotateLeft(e, 4)[0];
    }
    else if s == 5 {
      assert w[0] != RotateLeft(e, 5)[0];
    }
    else if s == 6 {
      assert w[0] != RotateLeft(e, 6)[0];
    }
    else if s == 7 {
      assert w[0] != RotateLeft(e, 7)[0];
    }
    else if s == 8 {
      assert w[0] != RotateLeft(e, 8)[0];
    }
    else if s == 9 {
      assert w[0] != RotateLeft(e, 9)[0];
    }
    else if s == 10 {
      assert w[2] != RotateLeft(e, 10)[2];
    }
    else if s == 11 {
      assert w[1] != RotateLeft(e, 11)[1];
    }
    else if s == 12 {
      assert w[0] != RotateLeft(e, 12)[0];
    }
    else if s == 13 {
      assert w[6] != RotateLeft(e, 13)[6];
    }
    else if s == 14 {
      assert w[0] != RotateLeft(e, 14)[0];
    }
    else if s == 15 {
      assert w[0] != RotateLeft(e, 15)[0];
    }
  }

  lemma OffsetTwoNotRotationFrom16(s: nat)
    requires 16 <= s < 32
    ensures WordOfBytes([0xCD, 0xC1, 0xA4, 0x81]) != RotateLeft(ExpectedWord(), s)
  {
    OffsetTwoWordBits();
    ExpectedWordBits();
    var w := WordOfBytes([0xCD, 0xC1, 0xA4, 0x81]);
    var e := ExpectedWord();
    if s == 16 {
      assert w[2] != RotateLeft(e, 16)[2];
    }
    else if s == 17 {
      assert w[0] != RotateLeft(e, 17)[0];
    }
    else if s == 18 {
      assert w[3] != RotateLeft(e, 18)[3];
    }
    else if s == 19 {
      assert w[1] != RotateLeft(e, 19)[1];
    }
    else if s == 20 {
      assert w[1] != RotateLeft(e, 20)[1];
    }
    else if s == 21 {
      assert w[0] != RotateLeft(e, 21)[0];
    }
    else if s == 22 {
      assert w[0] != RotateLeft(e, 22)[0];
    }
    else if s == 23 {
      assert w[0] != RotateLeft(e, 23)[0];
    }
    else if s == 24 {
      assert w[0] != RotateLeft(e, 24)[0];
    }
    else if s == 25 {
      assert w[0] != RotateLeft(e, 25)[0];
    }
    else if s == 26 {
      assert w[2] != RotateLeft(e, 26)[2];
    }
    else if s == 27 {
      assert w[1] != RotateLeft(e, 27)[1];
    }
    else if s == 28 {
      assert w[1] != RotateLeft(e, 28)[1];
    }
    else if s == 29 {
      assert w[0] != RotateLeft(e, 29)[0];
    }
    else if s == 30 {
      assert w[0] != RotateLeft(e, 30)[0];
    }
    else if s == 31 {
      assert w[2] != RotateLeft(e, 31)[2];
    }
  }

  /**
    The firmware's table misses most offsets. Two bits into the stream the
    buffer starts with the bytes CD C1 A4 81, the word 0x81a4c1cd, which is no
    rotation of "spi ", although the master is sending exactly that stream.
   */
  lemma OffsetTwoNotRecognised()
    ensures ReceivedBytes(ExpectedBytes(), 2) == [0xCD, 0xC1, 0xA4, 0x81]
    ensures ReadAtSomeOffset(StreamWord(2))
    ensures !Recognised(StreamWord(2))
  {
    OffsetTwoBytes();
    forall s | 0 <= s < WordBits
      ensures WordOfBytes([0xCD, 0xC1, 0xA4, 0x81]) != RotateLeft(ExpectedWord(), s)
    {
      if s < 16 {
        OffsetTwoNotRotationBelow16(s);
      } else {
        OffsetTwoNotRotationFrom16(s);
      }
    }
  }

  /** The corrected table: entry o is the word the stream gives at bit offset o. */
  function StreamPatterns(): (t: seq<Word>)
    ensures |t| == WordBits && t[0] == Patterns()[0]
    ensures forall o :: 0 <= o < WordBits ==> t[o] == StreamWord(o)
  {
    StreamWordAtZero();
    RotateByZero(ExpectedWord());
    seq(WordBits, o requires 0 <= o < WordBits => StreamWord(o))
  }

  /** The corrected table holds exactly the words the stream gives at some offset. */
  lemma {:induction false} StreamPatternsIffRead(w: Word)
    ensures w in StreamPatterns() <==> ReadAtSomeOffset(w)
  {
    var t := StreamPatterns();
    if w in t {
      var o :| 0 <= o < |t| && t[o] == w;
      assert StreamWord(o) == w;
    }
    if ReadAtSomeOffset(w) {
      var o :| 0 <= o < WordBits && StreamWord(o) == w;
      assert t[o] == w;
    }
  }

  /** With the corrected table, the stream read at any bit offset at all is recognised. */
  lemma {:induction false} StreamRecognisedAtAnyOffset(o: nat)
    ensures StreamWord(o) in StreamPatterns()
    ensures ReadAtSomeOffset(StreamWord(o))
  {
    ReceivedPeriodic(ExpectedBytes(), o);
    assert StreamPatterns()[o % 32] == StreamWord(o);
  }
}
