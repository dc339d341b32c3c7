/**
  The control-request engine of the HAL-based USB device: chapter 9 of the
  USB 2.0 specification as far as this device implements it. Every handler is
  a pure function from the device state and the decoded setup packet to an
  `Outcome`: either the new state with the ordered list of calls it makes on
  the STM32 PCD driver, or `Stall` where the firmware has a fatal assertion.
 */
module UsbHal {
  import opened Bytes
  import opened Wrappers
  import opened SetupPacket
  import opened Descriptors

  /** Section 9.1; only the three states the firmware distinguishes. */
  datatype DeviceState = Default | Addressed | Configured

  /**
    The PCD driver calls the handlers make. Transmit and Receive record the
    endpoint NUMBER (address & 0x7f): the firmware addresses EP0 transmits as
    0x00 and EP0 receives as 0x80. OpenEndpoint keeps the full address, whose
    direction bit selects the IN or OUT half.
   */
  datatype Action =
    | OpenEndpoint(address: Byte, maxPacketSize: U16, epType: Byte)
    | Transmit(ep: nat, data: seq<Byte>)
    | Receive(ep: nat, length: nat)
    | SetDeviceAddress(address: Byte)
    | ClearStall(endpoint: Byte)

  /** The device's mutable globals: the state, the vendor receive buffer and its ready flag. */
  datatype Device = Device(state: DeviceState, vendorBuffer: seq<Byte>, vendorReady: bool)

  datatype Outcome = Handled(device: Device, actions: seq<Action>) | Stall

  // Table 9-4, standard request codes.
  const GetStatus: Byte := 0
  const ClearFeature: Byte := 1
  const SetFeature: Byte := 3
  const SetAddressRequest: Byte := 5
  const GetDescriptorRequest: Byte := 6
  const SetDescriptor: Byte := 7
  const GetConfiguration: Byte := 8
  const SetConfigurationRequest: Byte := 9
  const GetInterface: Byte := 10
  const SetInterface: Byte := 11
  const SynchFrame: Byte := 12

  /** Table 9-6: the ENDPOINT_HALT feature selector. */
  const EndpointHalt: U16 := 0

  const VendorBufferSize := MaxEp0Size as nat
  const BulkTransferLength := 512

  /** A request code the firmware's `standard_request_codes` enumeration names. */
  predicate ListedStandardRequest(b: Byte)
  {
    b in {GetStatus, ClearFeature, SetFeature, SetAddressRequest, GetDescriptorRequest, SetDescriptor,
          GetConfiguration, SetConfigurationRequest, GetInterface, SetInterface, SynchFrame}
  }

  function EpNumber(address: Byte): nat
  {
    address % 0x80
  }

  /** The zero-length packet that completes a status stage. */
  const ZeroLengthStatus := Transmit(0, [])

  /** The payload the host's vendor write carries: "some data" and its terminator. */
  function VendorRequestExpected(): (d: seq<Byte>)
    ensures |d| == 10 && d[9] == 0
  {
    Ascii("some data") + [0]
  }

  /** The vendor read reply: "send request" and its terminator. */
  function SendRequestData(): (d: seq<Byte>)
    ensures |d| == 13 && d[12] == 0
  {
    Ascii("send request") + [0]
  }

  /** The EP1 IN payload that `init` fills with `std::iota` from 1. */
  function Ep1TransmitBuffer(): (d: seq<Byte>)
    ensures |d| == BulkTransferLength
  {
    Iota(BulkTransferLength, 1)
  }

  function InitialDevice(): Device
  {
    Device(Default, Zeros(VendorBufferSize), false)
  }

  // ---------------------------------------------------------------------
  // GetDescriptor

  /**
    What the descriptor type (high byte of wValue) and string index (low byte)
    select: a table, which only for the configuration may be cut to wLength;
    a refusal where the firmware asserts (a string index past 3, types 4..8);
    or no match for a type value outside 1..8.
   */
  datatype Selection = Table(bytes: seq<Byte>, truncatable: bool) | Refused | NoMatch

  function SelectDescriptor(wValue: U16): Selection
  {
    var t := Msb(wValue);
    if t == DescDevice then Table(DeviceDescriptor(), false)
    else if t == DescConfiguration then Table(ConfigurationDescriptor(), true)
    else if t == DescString then
      match StringDescriptor(Lsb(wValue))
      case None => Refused
      case Some(d) => Table(d, false)
    else if 4 <= t <= 8 then Refused
    else NoMatch
  }

  /**
    `get_descriptor`: the bytes sent on EP0, or None for a stall. A request
    for zero bytes gets a zero-length reply without looking at wValue. The
    reply is never longer than wLength and is always a prefix of the selected
    table; a table that may not be cut must fit whole.
   */
  function DescriptorReply(wValue: U16, wLength: U16): (r: Option<seq<Byte>>)
    ensures r.Some? ==> |r.value| <= wLength
    ensures wLength == 0 ==> r == Some([])
    ensures wLength > 0 && SelectDescriptor(wValue).Table? && r.Some? ==> r.value <= SelectDescriptor(wValue).bytes
    ensures wLength > 0 && SelectDescriptor(wValue).Refused? ==> r.None?
    ensures wLength > 0 && SelectDescriptor(wValue).NoMatch? ==> r == Some([])
  {
    if wLength == 0 then Some([])
    else
      match SelectDescriptor(wValue)
      case Table(d, truncatable) =>
        if truncatable then Some(d[..Min(wLength, |d|)])
        else if |d| <= wLength then Some(d)
        else None
      case Refused => None
      case NoMatch => Some([])
  }

  function GetDescriptor(dev: Device, s: SetupData): (o: Outcome)
    ensures o.Handled? ==> o.device == dev && |o.actions| == 1 && o.actions[0].Transmit? && o.actions[0].ep == 0
    ensures o.Handled? <==> DescriptorReply(s.wValue, s.wLength).Some?
    ensures o.Handled? ==> o.actions[0].data == DescriptorReply(s.wValue, s.wLength).value
  {
    match DescriptorReply(s.wValue, s.wLength)
    case None => Stall
    case Some(d) => Handled(dev, [Transmit(0, d)])
  }

  // ---------------------------------------------------------------------
  // Standard device requests

  /** `device_get_status`: two bytes, bit 0 of the first reporting self-powered. */
  function DeviceGetStatus(dev: Device, wLength: U16): (o: Outcome)
    ensures o.Handled? <==> wLength == 2
    ensures o.Handled? ==> o == Handled(dev, [Transmit(0, [0x01, 0x00])])
  {
    if wLength == 2 then Handled(dev, [Transmit(0, [0x01, 0x00])]) else Stall
  }

  /**
    `set_address`: the address is the low byte of wValue. The hardware address
    is set before the zero-length status is sent, and the state follows at once.
   */
  function SetAddress(dev: Device, s: SetupData): (o: Outcome)
    ensures o.Handled? <==> s.wIndex == 0 && s.wLength == 0 && dev.state != Configured && Lsb(s.wValue) < 128
    ensures o.Handled? ==> o.actions == [SetDeviceAddress(Lsb(s.wValue)), ZeroLengthStatus]
    ensures o.Handled? ==> (o.device.state == Addressed <==> Lsb(s.wValue) != 0)
    ensures o.Handled? ==> o.device.state != Configured
    ensures o.Handled? ==> o.device == dev.(state := o.device.state)
  {
    var address := Lsb(s.wValue);
    if s.wIndex != 0 || s.wLength != 0 || dev.state == Configured || address >= 128 then Stall
    else
      Handled(dev.(state := if address != 0 then Addressed else Default),
              [SetDeviceAddress(address), ZeroLengthStatus])
  }

  /** What SetConfiguration(1) does: open both bulk endpoints, arm them, then acknowledge. */
  function ConfigureActions(): seq<Action>
  {
    [OpenEndpoint(Ep1InAddr, HsMaxPacketSize, EpTypeBulk),
     Transmit(EpNumber(Ep1InAddr), Ep1TransmitBuffer()),
     OpenEndpoint(Ep1OutAddr, HsMaxPacketSize, EpTypeBulk),
     Receive(EpNumber(Ep1OutAddr), BulkTransferLength),
     ZeroLengthStatus]
  }

  /** `set_configuration`: the whole 16-bit wValue is compared; any prior state is accepted. */
  function SetConfiguration(dev: Device, s: SetupData): (o: Outcome)
    ensures o.Handled? <==> s.wValue == 0 || s.wValue == DefaultConfiguration
    ensures o.Handled? ==> o.device == dev.(state := o.device.state)
    ensures o.Handled? && s.wValue == 0 ==> o.device.state == Addressed && o.actions == [ZeroLengthStatus]
    ensures o.Handled? && s.wValue != 0 ==> o.device.state == Configured && o.actions == ConfigureActions()
  {
    if s.wValue == DefaultConfiguration then Handled(dev.(state := Configured), ConfigureActions())
    else if s.wValue == 0 then Handled(dev.(state := Addressed), [ZeroLengthStatus])
    else Stall
  }

  /** `standard_device_request`: four requests handled, the other listed codes stall, unlisted codes do nothing. */
  function StandardDeviceRequest(dev: Device, s: SetupData): (o: Outcome)
    ensures !ListedStandardRequest(s.bRequest) ==> o == Handled(dev, [])
  {
    if s.bRequest == GetStatus then DeviceGetStatus(dev, s.wLength)
    else if s.bRequest == SetAddressRequest then SetAddress(dev, s)
    else if s.bRequest == GetDescriptorRequest then GetDescriptor(dev, s)
    else if s.bRequest == SetConfigurationRequest then SetConfiguration(dev, s)
    else if ListedStandardRequest(s.bRequest) then Stall
    else Handled(dev, [])
  }

  /**
    `vendor_device_request`, request 0. A write clears the receive buffer, arms
    a receive of at most 10 bytes, acknowledges and marks the buffer for
    checking; a read sends at most wLength bytes of "send request".
   */
  function VendorDeviceRequest(dev: Device, s: SetupData): (o: Outcome)
    ensures o.Handled? <==> s.bRequest == 0
    ensures o.Handled? && s.direction == HostToDevice ==>
      o.device == Device(dev.state, Zeros(VendorBufferSize), true)
      && o.actions == [Receive(0, Min(s.wLength, 10)), ZeroLengthStatus]
    ensures o.Handled? && s.direction == DeviceToHost ==>
      o.device == dev && o.actions == [Transmit(0, SendRequestData()[..Min(s.wLength, 13)])]
  {
    if s.bRequest != 0 then Stall
    else if s.direction == HostToDevice then
      Handled(Device(dev.state, Zeros(VendorBufferSize), true),
              [Receive(EpNumber(Ep0InAddr), Min(s.wLength, |VendorRequestExpected()|)), ZeroLengthStatus])
    else
      Handled(dev, [Transmit(EpNumber(Ep0OutAddr), SendRequestData()[..Min(s.wLength, |SendRequestData()|)])])
  }

  /** `device_request`: class requests stall; the reserved type 0x60 matches no case. */
  function DeviceRequest(dev: Device, s: SetupData): (o: Outcome)
    ensures s.kind == Class ==> o == Stall
    ensures s.kind == ReservedKind ==> o == Handled(dev, [])
  {
    match s.kind
    case Standard => StandardDeviceRequest(dev, s)
    case Class => Stall
    case Vendor => VendorDeviceRequest(dev, s)
    case ReservedKind => Handled(dev, [])
  }

  // ---------------------------------------------------------------------
  // Endpoint requests

  /**
    `endpoint_clear`: ClearFeature(ENDPOINT_HALT) when configured. The stall
    is cleared unless wIndex names endpoint 0; the status is sent either way.
    In any other case nothing happens. The driver's endpoint-address parameter
    is a `uint8_t`, so only the low byte of wIndex reaches it.
   */
  function EndpointClear(dev: Device, s: SetupData): (o: Outcome)
    ensures o.Handled? && o.device == dev
    ensures (dev.state == Configured && s.wValue == EndpointHalt) <==> ZeroLengthStatus in o.actions
    ensures (exists a :: a in o.actions && a.ClearStall?) <==>
      dev.state == Configured && s.wValue == EndpointHalt && s.wIndex % 0x80 != 0
    ensures forall a :: a in o.actions && a.ClearStall? ==> a.endpoint == s.wIndex % 0x100
    ensures forall a :: a in o.actions ==> a.ClearStall? || a == ZeroLengthStatus
  {
    if dev.state == Configured && s.wValue == EndpointHalt then
      var clear := if s.wIndex % 0x80 != 0 then [ClearStall(Lsb(s.wIndex))] else [];
      assert clear != [] ==> (clear + [ZeroLengthStatus])[0] == ClearStall(Lsb(s.wIndex));
      Handled(dev, clear + [ZeroLengthStatus])
    else Handled(dev, [])
  }

  function StandardEndpointRequest(dev: Device, s: SetupData): (o: Outcome)
    ensures !ListedStandardRequest(s.bRequest) ==> o == Handled(dev, [])
    ensures ListedStandardRequest(s.bRequest) && s.bRequest != ClearFeature ==> o == Stall
  {
    if s.bRequest == ClearFeature then EndpointClear(dev, s)
    else if ListedStandardRequest(s.bRequest) then Stall
    else Handled(dev, [])
  }

  function EndpointRequest(dev: Device, s: SetupData): (o: Outcome)
    ensures s.kind == Class || s.kind == Vendor ==> o == Stall
    ensures s.kind == ReservedKind ==> o == Handled(dev, [])
  {
    match s.kind
    case Standard => StandardEndpointRequest(dev, s)
    case Class => Stall
    case Vendor => Stall
    case ReservedKind => Handled(dev, [])
  }

  /** Dispatch of a decoded packet by recipient: interface and other stall, codes 4..31 do nothing. */
  function Dispatch(dev: Device, s: SetupData): (o: Outcome)
    ensures s.recipient == RecipientInterface || s.recipient == RecipientOther ==> o == Stall
    ensures s.recipient > RecipientOther ==> o == Handled(dev, [])
  {
    if s.recipient == RecipientDevice then DeviceRequest(dev, s)
    else if s.recipient == RecipientEndpoint then EndpointRequest(dev, s)
    else if s.recipient == RecipientInterface || s.recipient == RecipientOther then Stall
    else Handled(dev, [])
  }

  /**
    `setup_stage_callback`: decode the two setup words the driver stored, then
    dispatch. The recipient is the low five bits of the first byte, and the
    two recipients the firmware does not serve are fatal.
   */
  function SetupStage(dev: Device, w0: U32, w1: U32): (o: Outcome)
    ensures (w0 % 0x100) % 0x20 == RecipientInterface || (w0 % 0x100) % 0x20 == RecipientOther ==> o == Stall
    ensures (w0 % 0x100) % 0x20 > RecipientOther ==> o == Handled(dev, [])
  {
    Dispatch(dev, Decode(w0, w1))
  }

  // ---------------------------------------------------------------------
  // Bus reset and data-stage callbacks

  /** `HAL_PCD_ResetCallback`: back to Default and EP0 opened in both directions. */
  function Reset(dev: Device): (r: (Device, seq<Action>))
    ensures r.0.state == Default
    ensures r.0 == dev.(state := Default)
    ensures r.1 == [OpenEndpoint(Ep0OutAddr, MaxEp0Size, EpTypeCtrl), OpenEndpoint(Ep0InAddr, MaxEp0Size, EpTypeCtrl)]
  {
    (dev.(state := Default),
     [OpenEndpoint(Ep0OutAddr, MaxEp0Size, EpTypeCtrl), OpenEndpoint(Ep0InAddr, MaxEp0Size, EpTypeCtrl)])
  }

  /**
    `HAL_PCD_DataOutStageCallback`. `received` is what the hardware wrote at the
    start of the endpoint's buffer, its length the transfer count. On EP0 with
    a vendor write pending, fewer than 10 bytes or a payload other than
    "some data" is fatal; otherwise the pending flag is cleared. On EP1 the
    512-byte receive is re-armed.
   */
  function DataOutStage(dev: Device, epnum: Byte, received: seq<Byte>): (o: Outcome)
    requires |dev.vendorBuffer| == VendorBufferSize
    requires epnum == 0 ==> |received| <= VendorBufferSize
    ensures epnum == 0 && dev.vendorReady ==>
      (o.Handled? <==> |received| >= 10 && received[..10] == VendorRequestExpected())
    ensures o.Handled? && epnum == 0 && dev.vendorReady ==> !o.device.vendorReady && o.actions == []
    ensures epnum == 0 && !dev.vendorReady ==> o == Handled(dev, [])
    ensures epnum == 1 ==> o == Handled(dev, [Receive(1, BulkTransferLength)])
    ensures epnum > 1 ==> o == Handled(dev, [])
  {
    if epnum == 0 then
      if dev.vendorReady then
        var buffer := received + dev.vendorBuffer[|received|..];
        assert |buffer| == VendorBufferSize;
        if |received| < |VendorRequestExpected()| then Stall
        else if buffer[..10] != VendorRequestExpected() then Stall
        else Handled(Device(dev.state, buffer, false), [])
      else Handled(dev, [])
    else if epnum == 1 then Handled(dev, [Receive(EpNumber(Ep1OutAddr), BulkTransferLength)])
    else Handled(dev, [])
  }

  /**
    `HAL_PCD_DataInStageCallback`: after an EP0 IN completes, a zero-length
    receive takes the host's status-stage acknowledgement; after an EP1 IN
    completes, the next 512-byte transfer is armed.
   */
  function DataInStage(epnum: Byte): (acts: seq<Action>)
    ensures epnum == 0 ==> acts == [Receive(0, 0)]
    ensures epnum == 1 ==> acts == [Transmit(1, Ep1TransmitBuffer())]
    ensures epnum > 1 ==> acts == []
  {
    if epnum == 0 then [Receive(EpNumber(Ep0OutAddr), 0)]
    else if epnum == 1 then [Transmit(EpNumber(Ep1InAddr), Ep1TransmitBuffer())]
    else []
  }
}
