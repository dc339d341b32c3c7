/**
  The 8-byte setup packet of a USB control transfer (section 9.3 of the
  USB 2.0 specification, Table 9-2) as the STM32 HAL delivers it: two
  little-endian 32-bit words.
 */
module SetupPacket {
  import opened Bytes

  /** Bit 7 of bmRequestType. */
  datatype Direction = HostToDevice | DeviceToHost

  /** Bits 6..5 of bmRequestType; the value 3 (mask result 0x60) is reserved. */
  datatype RequestKind = Standard | Class | Vendor | ReservedKind

  /** Bits 4..0 of bmRequestType. */
  type RecipientCode = r: int | 0 <= r < 32

  const RecipientDevice: RecipientCode := 0
  const RecipientInterface: RecipientCode := 1
  const RecipientEndpoint: RecipientCode := 2
  const RecipientOther: RecipientCode := 3

  datatype SetupData = SetupData(
    direction: Direction,
    kind: RequestKind,
    recipient: RecipientCode,
    bRequest: Byte,
    wValue: U16,
    wIndex: U16,
    wLength: U16)

  function KindOf(code: int): RequestKind
    requires 0 <= code < 4
  {
    if code == 0 then Standard else if code == 1 then Class else if code == 2 then Vendor else ReservedKind
  }

  function KindCode(k: RequestKind): (code: int)
    ensures 0 <= code < 4 && KindOf(code) == k
  {
    match k
    case Standard => 0
    case Class => 1
    case Vendor => 2
    case ReservedKind => 3
  }

  /** bmRequestType split into its three masked fields (masks 0x80, 0x60, 0x1f). */
  function DecodeRequestType(bm: Byte): (r: (Direction, RequestKind, RecipientCode))
    ensures r.0 == DeviceToHost <==> bm >= 0x80
    ensures KindCode(r.1) == (bm / 32) % 4
    ensures r.2 == bm % 32
  {
    (if bm / 0x80 == 1 then DeviceToHost else HostToDevice, KindOf((bm / 32) % 4), bm % 32)
  }

  function EncodeRequestType(d: Direction, k: RequestKind, rc: RecipientCode): (bm: Byte)
    ensures DecodeRequestType(bm) == (d, k, rc)
  {
    (if d == DeviceToHost then 0x80 else 0) + 32 * KindCode(k) + rc
  }

  /**
    `decode_setup_packet`: byte 0 of `setup[0]` is bmRequestType, byte 1 is
    bRequest and its high half is wValue; the low half of `setup[1]` is wIndex
    and its high half wLength.
   */
  function Decode(w0: U32, w1: U32): (s: SetupData)
    ensures (s.direction, s.kind, s.recipient) == DecodeRequestType(w0 % 0x100)
    ensures s.bRequest == (w0 / 0x100) % 0x100 && s.wValue == w0 / 0x1_0000
    ensures s.wIndex == w1 % 0x1_0000 && s.wLength == w1 / 0x1_0000
  {
    var (d, k, rc) := DecodeRequestType(w0 % 0x100);
    SetupData(d, k, rc, (w0 / 0x100) % 0x100, w0 / 0x1_0000, w1 % 0x1_0000, w1 / 0x1_0000)
  }

  /** The wire form of a setup packet: the two words the HAL stores in `hpcd->Setup`. */
  function Encode(s: SetupData): (w: (U32, U32))
  {
    var bm := EncodeRequestType(s.direction, s.kind, s.recipient);
    (bm + 0x100 * s.bRequest + 0x1_0000 * s.wValue, s.wIndex + 0x1_0000 * s.wLength)
  }

  lemma PackSplit8(lo: int, hi: int)
    requires 0 <= lo < 0x100 && 0 <= hi
    ensures (lo + 0x100 * hi) % 0x100 == lo && (lo + 0x100 * hi) / 0x100 == hi
  {
  }

  lemma PackSplit16(lo: int, hi: int)
    requires 0 <= lo < 0x1_0000 && 0 <= hi
    ensures (lo + 0x1_0000 * hi) % 0x1_0000 == lo && (lo + 0x1_0000 * hi) / 0x1_0000 == hi
  {
  }

  /** Decoding an encoded packet gives back every field. */
  lemma {:induction false} DecodeEncode(s: SetupData)
    ensures Decode(Encode(s).0, Encode(s).1) == s
  {
    var bm := EncodeRequestType(s.direction, s.kind, s.recipient);
    var lo := bm + 0x100 * s.bRequest;
    PackSplit16(lo, s.wValue);
    PackSplit8(bm, s.bRequest);
    var w0 := lo + 0x1_0000 * s.wValue;
    assert w0 == bm + 0x100 * (s.bRequest + 0x100 * s.wValue);
    PackSplit8(bm, s.bRequest + 0x100 * s.wValue);
    PackSplit8(s.bRequest, s.wValue);
    PackSplit16(s.wIndex, s.wLength);
  }

  /** Every pair of words is the encoding of the packet it decodes to: decoding loses nothing. */
  lemma {:induction false} EncodeDecode(w0: U32, w1: U32)
    ensures Encode(Decode(w0, w1)) == (w0, w1)
  {
    var s := Decode(w0, w1);
    var bm := w0 % 0x100;
    RequestTypeRecompose(bm);
    var hi := w0 / 0x100;
    assert w0 == bm + 0x100 * hi;
    assert hi == hi % 0x100 + 0x100 * (hi / 0x100);
    assert hi / 0x100 == w0 / 0x1_0000;
    assert w1 == w1 % 0x1_0000 + 0x1_0000 * (w1 / 0x1_0000);
  }

  lemma RequestTypeRecompose(bm: Byte)
    ensures var (d, k, rc) := DecodeRequestType(bm); EncodeRequestType(d, k, rc) == bm
  {
    var code := (bm / 32) % 4;
    assert bm == (if bm >= 0x80 then 0x80 else 0) + 32 * code + bm % 32;
  }
}
