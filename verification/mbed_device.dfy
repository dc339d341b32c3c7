/**
  The second device firmware, built on mbed's `USBDevice` class instead of
  the PCD driver. The base class runs chapter 9 itself and asks the subclass
  only for a few decisions: how to complete a non-standard request, whether a
  configuration value is acceptable, and the configuration descriptor.
 */
module MbedDevice {
  import opened Bytes
  import opened Wrappers
  import opened SetupPacket
  import opened Descriptors
  import UsbHal

  /** The vendor and product ids the constructor hands to `USBDevice`. */
  const MbedVendorId: U16 := 0x1f00
  const MbedProductId: U16 := 0x2012

  /** `received_request_data`: the buffer a vendor write lands in. */
  const ReceivedRequestDataSize := 16

  /** `configuration_descriptor_length`, the size of the descriptor array. */
  const ConfigurationArrayLength := 32

  /** The mbed header macros: `C_RESERVED`, `C_POWER(100)` (units of 2 mA) and `E_BULK`. */
  const MbedReservedAttributes: Byte := 0x80
  const MbedMaxPower: Byte := 50
  const MbedBulk: Byte := 2

  /**
    What the endpoint resolver picked in the constructor: the bulk IN
    endpoint's address and the maximum packet size it was resolved for.
   */
  datatype Resolved = Resolved(epBulkIn: Byte, maxPacketSize: U16)

  // ---------------------------------------------------------------------
  // The configuration descriptor

  /** Section 9.6.3 header with the given one-byte wTotalLength: one interface, configuration value 1. */
  function MbedHeader(total: Byte): (d: seq<Byte>)
    ensures Headed(d, DescConfiguration) && |d| == 9 && TotalLength(d) == total
    ensures d[4] == 1 && d[5] == DefaultConfiguration
  {
    [9, DescConfiguration, total, 0, 1, DefaultConfiguration, 0, MbedReservedAttributes, MbedMaxPower]
  }

  /** Section 9.6.5: one vendor-specific interface declaring one endpoint. */
  function MbedInterface(): (d: seq<Byte>)
    ensures Headed(d, DescInterface) && |d| == 9 && d[4] == 1
  {
    [9, DescInterface, 0, 0, 1, 0xff, 0xff, 0xff, 0]
  }

  /** Section 9.6.6: a bulk endpoint whose wMaxPacketSize bytes are `lo`, `hi`. */
  function MbedEndpointBytes(address: Byte, lo: Byte, hi: Byte): (d: seq<Byte>)
    ensures Headed(d, DescEndpoint) && |d| == 7
    ensures d[2] == address && d[3] == MbedBulk && d[4] == lo && d[5] == hi
  {
    [7, DescEndpoint, address, MbedBulk, lo, hi, 1]
  }

  /** The resolved bulk IN endpoint's descriptor. */
  function MbedEndpoint(c: Resolved): (d: seq<Byte>)
    ensures Headed(d, DescEndpoint) && |d| == 7
    ensures d[2] == c.epBulkIn && d[3] == MbedBulk && Le16(d[4], d[5]) == c.maxPacketSize
  {
    LsbMsbRecompose(c.maxPacketSize);
    MbedEndpointBytes(c.epBulkIn, Lsb(c.maxPacketSize), Msb(c.maxPacketSize))
  }

  /**
    `configuration_desc` as written: the 32-byte array whose wTotalLength is
    32, though its initialiser fills only 9 + 9 + 7 = 25 bytes; the remaining
    seven are zero. Any index but 0 gets a null pointer.
   */
  function ConfigurationDescAsWritten(c: Resolved, index: Byte): (r: Option<seq<Byte>>)
    ensures r.Some? <==> index == 0
    ensures r.Some? ==> |r.value| == ConfigurationArrayLength && TotalLength(r.value) == ConfigurationArrayLength
    ensures r.Some? ==> r.value[13] == 1 && r.value[25..] == Zeros(7)
  {
    if index == 0 then
      var d := MbedHeader(ConfigurationArrayLength) + (MbedInterface() + MbedEndpoint(c)) + Zeros(7);
      assert d[13] == MbedInterface()[4];
      Some(d)
    else None
  }

  /**
    The declared total runs into the zero padding, where a descriptor of
    bLength 0 stands: the host library's parser rejects the configuration.
   */
  lemma AsWrittenDoesNotParse(c: Resolved)
    ensures Parse(ConfigurationDescAsWritten(c, 0).value).None?
  {
    var h, i, e := MbedHeader(ConfigurationArrayLength), MbedInterface(), MbedEndpoint(c);
    var ds := [h, i, e];
    assert Concat(ds[2..]) == e + [] == e;
    assert Concat(ds[1..]) == i + e;
    assert Concat(ds) == h + (i + e);
    assert Walk(Zeros(7), 0).None?;
    WalkConcatNone(ds, Zeros(7));
  }

  /** The descriptor as intended: the 25 bytes that are filled, and a wTotalLength that says so. */
  function ConfigurationDesc(c: Resolved, index: Byte): (r: Option<seq<Byte>>)
    ensures r.Some? <==> index == 0
    ensures r.Some? ==> |r.value| == 25 && TotalLength(r.value) == |r.value|
  {
    if index == 0 then
      var h := MbedHeader(25);
      var d := h + (MbedInterface() + MbedEndpoint(c));
      assert d[2] == h[2] && d[3] == h[3];
      Some(d)
    else None
  }

  /**
    The corrected descriptor parses to one interface with one alternate
    setting whose bNumEndpoints, 1, matches the endpoint list: the resolved
    bulk IN endpoint.
   */
  lemma {:induction false} ConfigurationDescParses(c: Resolved)
    ensures Parse(ConfigurationDesc(c, 0).value)
         == Some(ConfigView(1, 1, 1, [Endpoint(c.epBulkIn, MbedBulk, c.maxPacketSize)]))
  {
    ParseLayoutOneEndpoint(MbedHeader(25), MbedInterface(), MbedEndpoint(c));
  }

  // ---------------------------------------------------------------------
  // Callbacks

  /** How `callback_request` tells the base class to complete a request. */
  datatype Completion = Receive(length: nat) | Send(data: seq<Byte>) | PassThrough

  /**
    `callback_request`: vendor writes are received into `received_request_data`
    (a write longer than it is a fatal assertion, None); vendor reads send at
    most wLength bytes of "send request" and its terminator, all of them when
    wLength allows, whatever bRequest and the recipient are; everything else goes back to the base class.
   */
  function CallbackRequest(s: SetupData): (r: Option<Completion>)
    ensures r.None? <==> s.kind == Vendor && s.direction == HostToDevice && s.wLength > ReceivedRequestDataSize
    ensures r == Some(PassThrough) <==> s.kind != Vendor
    ensures r.Some? && r.value.Receive? ==> s.direction == HostToDevice && r.value.length == s.wLength <= ReceivedRequestDataSize
    ensures r.Some? && r.value.Send? ==>
      s.direction == DeviceToHost && |r.value.data| <= s.wLength && r.value.data <= UsbHal.SendRequestData()
    ensures r.Some? && r.value.Send? && s.wLength >= 13 ==> r.value.data == UsbHal.SendRequestData()
    ensures s.kind == Vendor && s.direction == DeviceToHost ==>
      r.Some? && r.value.Send? && |r.value.data| == Min(s.wLength, |UsbHal.SendRequestData()|)
  {
    if s.kind != Vendor then Some(PassThrough)
    else if s.direction == HostToDevice then
      if s.wLength <= ReceivedRequestDataSize then Some(Receive(s.wLength)) else None
    else
      var data := UsbHal.SendRequestData();
      var n := Min(s.wLength, |data|);
      assert s.direction == DeviceToHost && data[..n] <= data;
      assert s.wLength >= 13 ==> data[..n] == data;
      Some(Send(data[..n]))
  }

  /** `callback_request_xfer_done`: the data stage succeeded exactly when it was not aborted. */
  function XferDone(aborted: bool): (success: bool)
    ensures success != aborted
  {
    !aborted
  }

  /** What `callback_set_configuration` reports, and the endpoints it adds with `endpoint_add`. */
  datatype ConfigurationResult = ConfigurationResult(success: bool, added: seq<Endpoint>)

  /** `callback_set_configuration`: only configuration 1 exists; it adds the bulk IN endpoint. */
  function SetConfiguration(c: Resolved, configuration: Byte): (r: ConfigurationResult)
    ensures r.success <==> configuration == DefaultConfiguration
    ensures !r.success ==> r.added == []
  {
    if configuration == DefaultConfiguration then
      ConfigurationResult(true, [Endpoint(c.epBulkIn, MbedBulk, c.maxPacketSize)])
    else ConfigurationResult(false, [])
  }

  // ---------------------------------------------------------------------
  // Agreement with the descriptor and with the HAL firmware

  /** The configuration a host may select is the one the descriptor declares, and it adds the endpoints the descriptor lists. */
  lemma SetConfigurationMatchesDescriptor(c: Resolved, configuration: Byte)
    ensures var desc := ConfigurationDesc(c, 0).value;
      SetConfiguration(c, configuration).success <==> configuration == desc[5]
    ensures Parse(ConfigurationDesc(c, 0).value).Some?
    ensures SetConfiguration(c, DefaultConfiguration).added == Parse(ConfigurationDesc(c, 0).value).value.endpoints
  {
    var h := MbedHeader(25);
    assert ConfigurationDesc(c, 0).value[5] == h[5];
    ConfigurationDescParses(c);
  }

  /** Both firmwares answer a vendor read of request 0 with the same bytes. */
  lemma VendorReadAgreesWithHal(dev: UsbHal.Device, s: SetupData)
    requires s.recipient == RecipientDevice && s.kind == Vendor && s.direction == DeviceToHost && s.bRequest == 0
    ensures CallbackRequest(s).Some? && CallbackRequest(s).value.Send?
    ensures UsbHal.Dispatch(dev, s) == UsbHal.Handled(dev, [UsbHal.Transmit(0, CallbackRequest(s).value.data)])
  {
  }

  /**
    The two firmwares differ on vendor writes: the mbed one accepts up to 16
    bytes with any bRequest, the HAL one any length with request 0, receiving
    at most 10 bytes.
   */
  lemma VendorWriteAcceptance(dev: UsbHal.Device, s: SetupData)
    requires s.recipient == RecipientDevice && s.kind == Vendor && s.direction == HostToDevice
    ensures CallbackRequest(s).Some? <==> s.wLength <= ReceivedRequestDataSize
    ensures UsbHal.Dispatch(dev, s).Handled? <==> s.bRequest == 0
  {
  }
}
