/**
  The static descriptor tables the HAL-based device answers GetDescriptor
  with (sections 9.6.1, 9.6.3, 9.6.5, 9.6.6 and 9.6.7 of the USB 2.0
  specification), and a walker over the bLength chain of a configuration
  descriptor, standing in for the host library's parser.
 */
module Descriptors {
  import opened Bytes
  import opened Wrappers

  // Descriptor type codes, Table 9-5.
  const DescDevice: Byte := 1
  const DescConfiguration: Byte := 2
  const DescString: Byte := 3
  const DescInterface: Byte := 4
  const DescEndpoint: Byte := 5

  // Constants of the STM32 USB driver headers the tables use.
  const MaxEp0Size: Byte := 64          // USB_OTG_MAX_EP0_SIZE
  const HsMaxPacketSize: U16 := 512     // USB_OTG_HS_MAX_PACKET_SIZE
  const EpTypeCtrl: Byte := 0           // EP_TYPE_CTRL
  const EpTypeBulk: Byte := 2           // EP_TYPE_BULK

  const Ep0OutAddr: Byte := 0x00
  const Ep0InAddr: Byte := 0x80
  const Ep1OutAddr: Byte := 0x01
  const Ep1InAddr: Byte := 0x81

  const DefaultConfiguration: Byte := 1
  const ConfigAttributesReserved: Byte := 0x80
  /** Declared in the source but never used; 0x60 is not the self-powered bit (that is 0x40). */
  const ConfigAttributesSelfPoweredAsDeclared: Byte := 0x60

  const VendorId: U16 := 0x1f00
  const ProductId: U16 := 0x2012

  const ConfigurationHeaderLength: Byte := 9
  const InterfaceDescriptorLength: Byte := 9
  const EndpointDescriptorLength: Byte := 7
  const TotalConfigurationLength: U16 := ConfigurationHeaderLength + InterfaceDescriptorLength + 2 * EndpointDescriptorLength

  /** A descriptor whose bLength is its own length and whose bDescriptorType is `t`. */
  predicate Headed(d: seq<Byte>, t: Byte)
  {
    |d| >= 2 && d[0] == |d| && d[1] == t
  }

  /** wTotalLength (bytes 2..3) of a configuration descriptor. */
  function TotalLength(d: seq<Byte>): U16
    requires |d| >= 4
  {
    Le16(d[2], d[3])
  }

  /** The UNICODE string of a string descriptor: each ASCII character as a little-endian 16-bit code unit. */
  function Utf16Le(s: string): (r: seq<Byte>)
    requires forall i :: 0 <= i < |s| ==> s[i] as int < 0x80
    ensures |r| == 2 * |s|
    ensures forall i :: 0 <= i < |s| ==> r[2 * i] == s[i] as int && r[2 * i + 1] == 0
  {
    if s == [] then [] else [s[0] as int, 0] + Utf16Le(s[1..])
  }

  /**
    Section 9.6.1. The 16-bit fields are written as their little-endian byte
    pairs; the ensures clauses tie each pair back to its word.
   */
  function DeviceDescriptor(): (d: seq<Byte>)
    ensures Headed(d, DescDevice) && |d| == 18
    ensures Le16(d[2], d[3]) == 0x0200 && d[7] == MaxEp0Size
    ensures Le16(d[8], d[9]) == VendorId && Le16(d[10], d[11]) == ProductId && Le16(d[12], d[13]) == 0x0001
    ensures d[14] == 1 && d[15] == 2 && d[16] == 3 && d[17] == 1
  {
    [18, DescDevice, 0x00, 0x02, 0, 0, 0, MaxEp0Size,
     0x00, 0x1f, 0x12, 0x20, 0x01, 0x00,
     1, 2, 3, 1]
  }

  /** Section 9.6.7, string index 0: the one supported language, US English (0x0409). */
  function LangIdDescriptor(): (d: seq<Byte>)
    ensures Headed(d, DescString) && |d| == 4
    ensures Le16(d[2], d[3]) == 0x0409
  {
    [4, DescString, 0x09, 0x04]
  }

  function ManufacturerDescriptor(): (d: seq<Byte>)
    ensures Headed(d, DescString) && |d| == 8
    ensures d[2..] == Utf16Le("MBr")
  {
    [8, DescString, 'M' as int, 0, 'B' as int, 0, 'r' as int, 0]
  }

  function ProductDescriptor(): (d: seq<Byte>)
    ensures Headed(d, DescString) && |d| == 8
    ensures d[2..] == Utf16Le("EVK")
  {
    [8, DescString, 'E' as int, 0, 'V' as int, 0, 'K' as int, 0]
  }

  function SerialNumberDescriptor(): (d: seq<Byte>)
    ensures Headed(d, DescString) && |d| == 10
    ensures d[2..] == Utf16Le("0001")
  {
    [10, DescString, '0' as int, 0, '0' as int, 0, '0' as int, 0, '1' as int, 0]
  }

  /** Section 9.6.3: the 9-byte configuration header. */
  function ConfigurationHeader(): (d: seq<Byte>)
    ensures Headed(d, DescConfiguration) && |d| == ConfigurationHeaderLength
    ensures TotalLength(d) == TotalConfigurationLength
    ensures d[4] == 1 && d[5] == DefaultConfiguration && d[7] == ConfigAttributesReserved
  {
    [ConfigurationHeaderLength, DescConfiguration, 32, 0, 1, DefaultConfiguration, 0, ConfigAttributesReserved, 50]
  }

  /** Section 9.6.5: one vendor-specific interface with two endpoints. */
  function InterfaceDescriptor(): (d: seq<Byte>)
    ensures Headed(d, DescInterface) && |d| == InterfaceDescriptorLength
    ensures d[4] == 2
  {
    [InterfaceDescriptorLength, DescInterface, 0, 0, 2, 0xff, 0xff, 0xff, 0]
  }

  /** Section 9.6.6: a bulk endpoint of `USB_OTG_HS_MAX_PACKET_SIZE` bytes. */
  function BulkEndpointDescriptor(address: Byte): (d: seq<Byte>)
    ensures Headed(d, DescEndpoint) && |d| == EndpointDescriptorLength
    ensures d[2] == address && d[3] == EpTypeBulk && Le16(d[4], d[5]) == HsMaxPacketSize
  {
    [EndpointDescriptorLength, DescEndpoint, address, EpTypeBulk, 0x00, 0x02, 1]
  }

  /** The full configuration: header, interface, bulk EP1 IN, bulk EP1 OUT. */
  function ConfigurationDescriptor(): (d: seq<Byte>)
    ensures |d| == TotalConfigurationLength == 32
    ensures d[0] == ConfigurationHeaderLength && d[1] == DescConfiguration
    ensures TotalLength(d) == |d|
    ensures d[5] == DefaultConfiguration && d[7] == ConfigAttributesReserved
  {
    var h := ConfigurationHeader();
    var d := h + (InterfaceDescriptor() + BulkEndpointDescriptor(Ep1InAddr) + BulkEndpointDescriptor(Ep1OutAddr));
    assert d[0] == h[0] && d[1] == h[1] && d[2] == h[2] && d[3] == h[3] && d[5] == h[5] && d[7] == h[7];
    d
  }

  /** The string descriptor for an index, or None past the serial number (`get_string_descriptor`). */
  function StringDescriptor(index: Byte): (r: Option<seq<Byte>>)
    ensures r.Some? <==> index <= 3
    ensures r.Some? ==> Headed(r.value, DescString)
  {
    if index == 0 then Some(LangIdDescriptor())
    else if index == 1 then Some(ManufacturerDescriptor())
    else if index == 2 then Some(ProductDescriptor())
    else if index == 3 then Some(SerialNumberDescriptor())
    else None
  }

  // ---------------------------------------------------------------------
  // Walking the bLength chain of a configuration descriptor.

  /** One descriptor of a chain: its type and all its bytes. */
  datatype Record = Record(dtype: Byte, bytes: seq<Byte>)

  /**
    Splits `d[i..]` into consecutive descriptors by their bLength. A descriptor
    whose bLength is below 2 or runs past the end makes the chain malformed.
   */
  function Walk(d: seq<Byte>, i: nat): (r: Option<seq<Record>>)
    requires i <= |d|
    ensures r.Some? ==> forall k :: 0 <= k < |r.value| ==> |r.value[k].bytes| >= 2 && r.value[k].bytes[0] == |r.value[k].bytes|
    decreases |d| - i
  {
    if i == |d| then Some([])
    else if i + 1 >= |d| || d[i] < 2 || i + d[i] > |d| then None
    else
      match Walk(d, i + d[i])
      case None => None
      case Some(rest) => Some([Record(d[i + 1], d[i..i + d[i]])] + rest)
  }

  /** The concatenation of a chain's records. */
  function Flatten(rs: seq<Record>): seq<Byte>
  {
    if rs == [] then [] else rs[0].bytes + Flatten(rs[1..])
  }

  /** A well-formed chain is a partition of the bytes it was read from: nothing skipped or repeated. */
  lemma {:induction false} WalkPartitions(d: seq<Byte>, i: nat)
    requires i <= |d|
    requires Walk(d, i).Some?
    ensures Flatten(Walk(d, i).value) == d[i..]
    decreases |d| - i
  {
    if i < |d| {
      var n := d[i];
      WalkPartitions(d, i + n);
      assert d[i..] == d[i..i + n] + d[i + n..];
    }
  }

  lemma SliceOfAppend(p: seq<Byte>, b: seq<Byte>, lo: nat, hi: nat)
    requires lo <= hi <= |b|
    ensures (p + b)[|p| + lo..|p| + hi] == b[lo..hi]
  {
    assert forall t :: 0 <= t < hi - lo ==> (p + b)[|p| + lo..|p| + hi][t] == b[lo..hi][t];
  }

  /** Walking is unaffected by bytes in front of the starting point. */
  lemma {:induction false} WalkShift(p: seq<Byte>, b: seq<Byte>, j: nat)
    requires j <= |b|
    ensures Walk(p + b, |p| + j) == Walk(b, j)
    decreases |b| - j
  {
    var d, k := p + b, |p| + j;
    if j < |b| {
      var n := b[j];
      assert d[k] == n;
      if j + 1 < |b| && n >= 2 && j + n <= |b| {
        assert d[k + 1] == b[j + 1];
        WalkShift(p, b, j + n);
        SliceOfAppend(p, b, j, j + n);
      }
    }
  }

  /** A descriptor in front of a chain becomes the chain's first record. */
  lemma {:induction false} WalkPrepend(a: seq<Byte>, b: seq<Byte>)
    requires |a| >= 2 && a[0] == |a|
    ensures Walk(b, 0).None? ==> Walk(a + b, 0).None?
    ensures Walk(b, 0).Some? ==> Walk(a + b, 0) == Some([Record(a[1], a)] + Walk(b, 0).value)
  {
    WalkShift(a, b, 0);
    assert (a + b)[0..|a|] == a;
  }

  /** Descriptors laid end to end, as a configuration's tables are. */
  function Concat(ds: seq<seq<Byte>>): (d: seq<Byte>)
  {
    if ds == [] then [] else ds[0] + Concat(ds[1..])
  }

  function RecordsOf(ds: seq<seq<Byte>>): (rs: seq<Record>)
    requires forall k :: 0 <= k < |ds| ==> |ds[k]| >= 2 && ds[k][0] == |ds[k]|
    ensures |rs| == |ds|
    ensures forall k :: 0 <= k < |ds| ==> rs[k] == Record(ds[k][1], ds[k])
  {
    if ds == [] then [] else [Record(ds[0][1], ds[0])] + RecordsOf(ds[1..])
  }

  /** Self-sized descriptors laid end to end walk back into exactly those descriptors. */
  lemma {:induction false} WalkConcat(ds: seq<seq<Byte>>)
    requires forall k :: 0 <= k < |ds| ==> |ds[k]| >= 2 && ds[k][0] == |ds[k]|
    ensures Walk(Concat(ds), 0) == Some(RecordsOf(ds))
  {
    if ds != [] {
      WalkConcat(ds[1..]);
      WalkPrepend(ds[0], Concat(ds[1..]));
    }
  }

  /** A malformed tail spoils the whole chain, however well-formed the descriptors in front of it. */
  lemma {:induction false} WalkConcatNone(ds: seq<seq<Byte>>, b: seq<Byte>)
    requires forall k :: 0 <= k < |ds| ==> |ds[k]| >= 2 && ds[k][0] == |ds[k]|
    requires Walk(b, 0).None?
    ensures Walk(Concat(ds) + b, 0).None?
  {
    if ds != [] {
      WalkConcatNone(ds[1..], b);
      assert Concat(ds) + b == ds[0] + (Concat(ds[1..]) + b);
      WalkPrepend(ds[0], Concat(ds[1..]) + b);
    } else {
      assert Concat(ds) + b == b;
    }
  }

  /** An endpoint descriptor as the host library presents it. */
  datatype Endpoint = Endpoint(address: Byte, attributes: Byte, maxPacketSize: U16)

  /** The parts of a parsed configuration the host checks. */
  datatype ConfigView = ConfigView(
    numInterfaces: Byte,
    numAltSettings: nat,
    numEndpoints: Byte,
    endpoints: seq<Endpoint>)

  function EndpointsOf(rs: seq<Record>): (eps: seq<Endpoint>)
    ensures |eps| <= |rs|
  {
    if rs == [] then []
    else if rs[0].dtype == DescEndpoint && |rs[0].bytes| >= 6 then
      var b := rs[0].bytes;
      [Endpoint(b[2], b[3], Le16(b[4], b[5]))] + EndpointsOf(rs[1..])
    else EndpointsOf(rs[1..])
  }

  function InterfacesOf(rs: seq<Record>): (ifs: seq<Record>)
    ensures |ifs| <= |rs|
    ensures forall k :: 0 <= k < |ifs| ==> ifs[k].dtype == DescInterface && ifs[k] in rs
  {
    if rs == [] then []
    else if rs[0].dtype == DescInterface then [rs[0]] + InterfacesOf(rs[1..])
    else InterfacesOf(rs[1..])
  }

  /**
    A configuration descriptor of `wTotalLength` bytes read as the host does:
    bNumInterfaces from the header, every interface descriptor counted as an
    alternate setting of the single interface, bNumEndpoints from the first
    interface descriptor, and the endpoint descriptors in order.
   */
  function Parse(d: seq<Byte>): (r: Option<ConfigView>)
    ensures r.Some? ==> |d| >= 9 && d[1] == DescConfiguration && TotalLength(d) == |d|
  {
    if |d| < 9 || d[1] != DescConfiguration || TotalLength(d) != |d| then None
    else
      match Walk(d, 0)
      case None => None
      case Some(rs) =>
        var ifs := InterfacesOf(rs);
        if |ifs| == 0 || |ifs[0].bytes| < 5 then None
        else Some(ConfigView(d[4], |ifs|, ifs[0].bytes[4], EndpointsOf(rs)))
  }

  /**
    A configuration laid out as the device's is: a header whose wTotalLength
    covers everything, one interface descriptor, two endpoint descriptors.
    It parses to one alternate setting and exactly those two endpoints.
   */
  lemma {:induction false} ParseLayout(h: seq<Byte>, i: seq<Byte>, e1: seq<Byte>, e2: seq<Byte>)
    requires Headed(h, DescConfiguration) && |h| == 9 && TotalLength(h) == |h| + |i| + |e1| + |e2|
    requires Headed(i, DescInterface) && |i| == 9
    requires Headed(e1, DescEndpoint) && |e1| == 7 && Headed(e2, DescEndpoint) && |e2| == 7
    ensures Parse(h + (i + e1 + e2)) == Some(ConfigView(h[4], 1, i[4],
      [Endpoint(e1[2], e1[3], Le16(e1[4], e1[5])), Endpoint(e2[2], e2[3], Le16(e2[4], e2[5]))]))
  {
    var d := h + (i + e1 + e2);
    var ds := [h, i, e1, e2];
    assert Concat(ds[3..]) == e2 + [] == e2;
    assert Concat(ds[2..]) == e1 + e2;
    assert Concat(ds[1..]) == i + (e1 + e2) == i + e1 + e2;
    assert d == Concat(ds);
    WalkConcat(ds);
    var r0, r1, r2, r3 := Record(DescConfiguration, h), Record(DescInterface, i), Record(DescEndpoint, e1), Record(DescEndpoint, e2);
    var rs := [r0, r1, r2, r3];
    assert RecordsOf(ds) == rs;
    assert d[1] == h[1] && d[2] == h[2] && d[3] == h[3] && d[4] == h[4];
    LayoutRecords(r0, r1, r2, r3);
  }

  lemma LayoutRecords(r0: Record, r1: Record, r2: Record, r3: Record)
    requires r0.dtype == DescConfiguration && r1.dtype == DescInterface
    requires r2.dtype == DescEndpoint && |r2.bytes| >= 6 && r3.dtype == DescEndpoint && |r3.bytes| >= 6
    ensures InterfacesOf([r0, r1, r2, r3]) == [r1]
    ensures EndpointsOf([r0, r1, r2, r3]) ==
      [Endpoint(r2.bytes[2], r2.bytes[3], Le16(r2.bytes[4], r2.bytes[5])), Endpoint(r3.bytes[2], r3.bytes[3], Le16(r3.bytes[4], r3.bytes[5]))]
  {
    assert [r3][1..] == [] && [r2, r3][1..] == [r3] && [r1, r2, r3][1..] == [r2, r3] && [r0, r1, r2, r3][1..] == [r1, r2, r3];
    assert InterfacesOf([r3]) == [] && InterfacesOf([r2, r3]) == [];
    assert InterfacesOf([r1, r2, r3]) == [r1];
    var p3 := [Endpoint(r3.bytes[2], r3.bytes[3], Le16(r3.bytes[4], r3.bytes[5]))];
    assert EndpointsOf([r3]) == p3;
    assert EndpointsOf([r2, r3]) == [Endpoint(r2.bytes[2], r2.bytes[3], Le16(r2.bytes[4], r2.bytes[5]))] + p3;
  }

  /** The same for a configuration with a single endpoint descriptor. */
  lemma {:induction false} ParseLayoutOneEndpoint(h: seq<Byte>, i: seq<Byte>, e: seq<Byte>)
    requires Headed(h, DescConfiguration) && |h| == 9 && TotalLength(h) == |h| + |i| + |e|
    requires Headed(i, DescInterface) && |i| == 9
    requires Headed(e, DescEndpoint) && |e| == 7
    ensures Parse(h + (i + e)) == Some(ConfigView(h[4], 1, i[4], [Endpoint(e[2], e[3], Le16(e[4], e[5]))]))
  {
    var d := h + (i + e);
    var ds := [h, i, e];
    assert Concat(ds[2..]) == e + [] == e;
    assert Concat(ds[1..]) == i + e;
    assert d == Concat(ds);
    WalkConcat(ds);
    var r0, r1, r2 := Record(DescConfiguration, h), Record(DescInterface, i), Record(DescEndpoint, e);
    assert RecordsOf(ds) == [r0, r1, r2];
    assert d[1] == h[1] && d[2] == h[2] && d[3] == h[3] && d[4] == h[4];
    assert [r2][1..] == [] && [r1, r2][1..] == [r2] && [r0, r1, r2][1..] == [r1, r2];
    assert InterfacesOf([r2]) == [] && InterfacesOf([r1, r2]) == [r1];
    var ep := [Endpoint(e[2], e[3], Le16(e[4], e[5]))];
    assert EndpointsOf([r2]) == ep;
    assert EndpointsOf([r1, r2]) == ep;
    assert EndpointsOf([r0, r1, r2]) == ep;
    assert InterfacesOf([r0, r1, r2]) == [r1];
  }
}
