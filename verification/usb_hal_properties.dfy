/**
  Properties of the HAL-based control-request engine: what GetDescriptor
  answers, which requests are served, stalled or ignored, how the device
  state may move, and that no control read returns more than wLength bytes.
 */
module UsbHalProperties {
  import opened Bytes
  import opened Wrappers
  import opened SetupPacket
  import opened Descriptors
  import opened UsbHal

  /** A packet as the host sends it reaches the handlers intact. */
  lemma SetupStageOfEncoded(dev: Device, s: SetupData)
    ensures SetupStage(dev, Encode(s).0, Encode(s).1) == Dispatch(dev, s)
  {
    DecodeEncode(s);
  }

  // ---------------------------------------------------------------------
  // GetDescriptor

  /** GetDescriptor(Device): the whole 18-byte table, or a stall when wLength is shorter. */
  lemma DeviceDescriptorReply(wValue: U16, wLength: U16)
    requires wLength > 0 && Msb(wValue) == DescDevice
    ensures var r := DescriptorReply(wValue, wLength);
      (r.Some? <==> wLength >= 18) && (r.Some? ==> r.value == DeviceDescriptor())
  {
    assert SelectDescriptor(wValue) == Table(DeviceDescriptor(), false);
  }

  /** GetDescriptor(Configuration): the first min(wLength, 32) bytes, never a stall. */
  lemma ConfigurationDescriptorReply(wValue: U16, wLength: U16)
    requires wLength > 0 && Msb(wValue) == DescConfiguration
    ensures DescriptorReply(wValue, wLength) == Some(ConfigurationDescriptor()[..Min(wLength, 32)])
  {
    assert SelectDescriptor(wValue) == Table(ConfigurationDescriptor(), true);
  }

  /** GetDescriptor(String): the whole string descriptor of an index up to 3 that fits in wLength, otherwise a stall. */
  lemma StringDescriptorReply(wValue: U16, wLength: U16)
    requires wLength > 0 && Msb(wValue) == DescString
    ensures var r := DescriptorReply(wValue, wLength);
      (r.Some? <==> Lsb(wValue) <= 3 && |StringDescriptor(Lsb(wValue)).value| <= wLength)
      && (r.Some? ==> r == StringDescriptor(Lsb(wValue)))
  {
    var sd := StringDescriptor(Lsb(wValue));
    if sd.Some? {
      assert SelectDescriptor(wValue) == Table(sd.value, false);
    } else {
      assert SelectDescriptor(wValue) == Refused;
    }
  }

  /** Types 4..8 (interface, endpoint, device qualifier, other speed, interface power) stall; other types get a zero-length reply. */
  lemma OtherDescriptorReply(wValue: U16, wLength: U16)
    requires wLength > 0 && Msb(wValue) != DescDevice && Msb(wValue) != DescConfiguration && Msb(wValue) != DescString
    ensures 4 <= Msb(wValue) <= 8 ==> DescriptorReply(wValue, wLength).None?
    ensures Msb(wValue) == 0 || Msb(wValue) > 8 ==> DescriptorReply(wValue, wLength) == Some([])
  {
    if 4 <= Msb(wValue) <= 8 {
      assert SelectDescriptor(wValue) == Refused;
    } else {
      assert SelectDescriptor(wValue) == NoMatch;
    }
  }

  /** The string descriptors answer with 4, 8, 8 and 10 bytes for indices 0 to 3. */
  lemma StringDescriptorLengths()
    ensures |StringDescriptor(0).value| == 4 && |StringDescriptor(1).value| == 8
    ensures |StringDescriptor(2).value| == 8 && |StringDescriptor(3).value| == 10
  {
  }

  /** GetDescriptor(Device) with wLength 18 sends exactly the 18 table bytes; byte 7 is the EP0 packet size. */
  lemma DeviceDescriptorRequest(dev: Device)
    ensures var o := Dispatch(dev, SetupData(DeviceToHost, Standard, RecipientDevice, GetDescriptorRequest, 0x0100, 0, 18));
      o == Handled(dev, [Transmit(0, DeviceDescriptor())]) && |o.actions[0].data| == 18 && o.actions[0].data[7] == MaxEp0Size
  {
  }

  /**
    A configuration request at least as long as the whole descriptor returns a
    byte stream whose declared wTotalLength is the returned length, and which
    a host parses to one interface, one alternate setting and two endpoints.
   */
  lemma {:induction false} ConfigurationDescriptorRoundTrip(wLength: U16)
    requires wLength >= TotalConfigurationLength
    ensures var r := DescriptorReply(0x0200, wLength);
      r.Some? && |r.value| == 32 && TotalLength(r.value) == |r.value|
      && Parse(r.value) == Some(ConfigView(1, 1, 2,
           [Endpoint(Ep1InAddr, EpTypeBulk, HsMaxPacketSize), Endpoint(Ep1OutAddr, EpTypeBulk, HsMaxPacketSize)]))
  {
    var d := ConfigurationDescriptor();
    assert DescriptorReply(0x0200, wLength) == Some(d[..32]);
    assert d[..32] == d;
    DeviceConfigurationParses();
  }

  /** A host reading the device's configuration finds one interface, one alternate setting and the two bulk endpoints. */
  lemma {:induction false} DeviceConfigurationParses()
    ensures Parse(ConfigurationDescriptor()) == Some(ConfigView(1, 1, 2,
      [Endpoint(Ep1InAddr, EpTypeBulk, HsMaxPacketSize), Endpoint(Ep1OutAddr, EpTypeBulk, HsMaxPacketSize)]))
  {
    ParseLayout(ConfigurationHeader(), InterfaceDescriptor(), BulkEndpointDescriptor(Ep1InAddr), BulkEndpointDescriptor(Ep1OutAddr));
  }

  // ---------------------------------------------------------------------
  // Which requests are served

  /** The seven (recipient, type, request) combinations the device serves. */
  predicate Served(s: SetupData)
  {
    || (s.recipient == RecipientDevice && s.kind == Standard
        && s.bRequest in {GetStatus, SetAddressRequest, GetDescriptorRequest, SetConfigurationRequest})
    || (s.recipient == RecipientDevice && s.kind == Vendor && s.bRequest == 0)
    || (s.recipient == RecipientEndpoint && s.kind == Standard && s.bRequest == ClearFeature)
  }

  /** Packets whose fields match no case of the firmware's switches: recipient codes 4..31, type 0x60, unnamed request codes. */
  predicate Unmatched(s: SetupData)
  {
    || s.recipient > RecipientOther
    || ((s.recipient == RecipientDevice || s.recipient == RecipientEndpoint) && s.kind == ReservedKind)
    || ((s.recipient == RecipientDevice || s.recipient == RecipientEndpoint) && s.kind == Standard
        && !ListedStandardRequest(s.bRequest))
  }

  /** Every packet that is neither served nor unmatched stalls; unmatched packets change nothing and do nothing. */
  lemma {:induction false} DispatchClassification(dev: Device, s: SetupData)
    ensures Unmatched(s) ==> Dispatch(dev, s) == Handled(dev, [])
    ensures !Served(s) && !Unmatched(s) ==> Dispatch(dev, s) == Stall
    ensures !(Served(s) && Unmatched(s))
  {
    if !Served(s) && !Unmatched(s) {
      if s.recipient == RecipientDevice {
        assert s.kind != ReservedKind;
        if s.kind == Standard {
          assert ListedStandardRequest(s.bRequest);
          assert StandardDeviceRequest(dev, s) == Stall;
        }
      } else if s.recipient == RecipientEndpoint {
        assert s.kind != ReservedKind;
      }
    }
  }

  /** Only SetAddress and SetConfiguration move the device state. */
  lemma StateMovesOnlyByAddressOrConfiguration(dev: Device, s: SetupData)
    requires Dispatch(dev, s).Handled? && Dispatch(dev, s).device.state != dev.state
    ensures s.recipient == RecipientDevice && s.kind == Standard
    ensures s.bRequest == SetAddressRequest || s.bRequest == SetConfigurationRequest
  {
  }

  /**
    Nothing but the state changes, except on a vendor write, which clears the
    receive buffer and sets its ready flag.
   */
  lemma OnlyVendorWriteTouchesBuffer(dev: Device, s: SetupData)
    requires Dispatch(dev, s).Handled?
    ensures var d := Dispatch(dev, s).device;
      (d.vendorBuffer != dev.vendorBuffer || d.vendorReady != dev.vendorReady) ==>
        s.recipient == RecipientDevice && s.kind == Vendor && s.direction == HostToDevice
        && d.vendorReady && d.vendorBuffer == Zeros(VendorBufferSize)
  {
  }

  /** Configured is entered only through SetConfiguration(1), from any state. */
  lemma ConfiguredOnlyBySetConfigurationOne(dev: Device, s: SetupData)
    requires dev.state != Configured
    requires Dispatch(dev, s).Handled? && Dispatch(dev, s).device.state == Configured
    ensures s.recipient == RecipientDevice && s.kind == Standard && s.bRequest == SetConfigurationRequest
    ensures s.wValue == DefaultConfiguration
  {
  }

  /** From Default, Addressed is reached by SetAddress with a non-zero address or by SetConfiguration(0). */
  lemma AddressedFromDefault(dev: Device, s: SetupData)
    requires dev.state == Default
    requires Dispatch(dev, s).Handled? && Dispatch(dev, s).device.state == Addressed
    ensures s.recipient == RecipientDevice && s.kind == Standard
    ensures (s.bRequest == SetAddressRequest && Lsb(s.wValue) != 0) || (s.bRequest == SetConfigurationRequest && s.wValue == 0)
  {
  }

  /** A configured device never accepts a new address. */
  lemma NoAddressChangeWhenConfigured(dev: Device, s: SetupData)
    requires dev.state == Configured
    requires s.recipient == RecipientDevice && s.kind == Standard && s.bRequest == SetAddressRequest
    ensures Dispatch(dev, s) == Stall
  {
  }

  /** SetConfiguration(1) again on a configured device repeats the same actions and stays configured. */
  lemma SetConfigurationIdempotent(dev: Device, s: SetupData)
    requires s.recipient == RecipientDevice && s.kind == Standard && s.bRequest == SetConfigurationRequest
    requires s.wValue == DefaultConfiguration
    ensures var o := Dispatch(dev, s);
      o.Handled? && o.device.state == Configured && Dispatch(o.device, s) == o
  {
  }

  /** A bus reset from any state lands in Default with EP0 open both ways, whatever request preceded it. */
  lemma ResetAfterAnyRequest(dev: Device, s: SetupData)
    requires Dispatch(dev, s).Handled?
    ensures Reset(Dispatch(dev, s).device).0.state == Default
    ensures Reset(Dispatch(dev, s).device).1 == Reset(dev).1
  {
  }

  // ---------------------------------------------------------------------
  // Control reads never return more than asked for

  /** Every EP0 transmit the engine makes carries at most wLength bytes. */
  lemma {:induction false} ControlReplyWithinWLength(dev: Device, s: SetupData)
    requires Dispatch(dev, s).Handled?
    ensures forall a :: a in Dispatch(dev, s).actions && a.Transmit? && a.ep == 0 ==> |a.data| <= s.wLength
  {
    if s.recipient == RecipientDevice && s.kind == Standard && s.bRequest == GetDescriptorRequest {
      assert Dispatch(dev, s) == GetDescriptor(dev, s);
    } else if s.recipient == RecipientDevice && s.kind == Vendor {
      assert Dispatch(dev, s) == VendorDeviceRequest(dev, s);
    }
  }

  /**
    Every transmit a request handler makes is on EP0 or EP1, and the IN-stage
    callback that follows its completion fits it: after an EP0 reply it arms
    the zero-length receive of the status stage, and after the EP1 transmit
    that SetConfiguration(1) armed it repeats exactly that transmit.
   */
  lemma InStageFollowsTransmits(dev: Device, s: SetupData)
    requires Dispatch(dev, s).Handled?
    ensures forall a :: a in Dispatch(dev, s).actions && a.Transmit? ==>
      (a.ep == 0 && DataInStage(a.ep) == [Receive(0, 0)]) || (a.ep == 1 && DataInStage(a.ep) == [a])
  {
  }

  // ---------------------------------------------------------------------
  // Vendor request 0

  /** The read reply is at most 13 bytes of "send request" and its terminator. */
  lemma VendorReadReply(dev: Device, s: SetupData)
    requires s.recipient == RecipientDevice && s.kind == Vendor && s.bRequest == 0 && s.direction == DeviceToHost
    ensures Dispatch(dev, s) == Handled(dev, [Transmit(0, SendRequestData()[..Min(s.wLength, 13)])])
  {
  }

  /**
    The host's vendor write (10 bytes of "some data") is accepted: the setup
    arms a 10-byte receive, and the completion with that payload clears the
    ready flag without a stall.
   */
  lemma {:induction false} HostVendorWriteAccepted(dev: Device)
    requires |dev.vendorBuffer| == VendorBufferSize
    ensures var s := SetupData(HostToDevice, Vendor, RecipientDevice, 0, 0, 0, 10);
      var o := Dispatch(dev, s);
      o.Handled? && o.actions == [Receive(0, 10), ZeroLengthStatus] && o.device.vendorReady
      && var o2 := DataOutStage(o.device, 0, VendorRequestExpected());
      o2.Handled? && !o2.device.vendorReady
  {
    var s := SetupData(HostToDevice, Vendor, RecipientDevice, 0, 0, 0, 10);
    var o := Dispatch(dev, s);
    assert o == VendorDeviceRequest(dev, s);
    var e := VendorRequestExpected();
    assert (e + o.device.vendorBuffer[|e|..])[..10] == e;
  }

  /**
    A vendor write shorter than 10 bytes arms a receive of exactly wLength
    bytes, and a completion of that many bytes always stalls.
   */
  lemma {:induction false} ShortVendorWriteStalls(dev: Device, s: SetupData, received: seq<Byte>)
    requires |dev.vendorBuffer| == VendorBufferSize
    requires s.recipient == RecipientDevice && s.kind == Vendor && s.bRequest == 0 && s.direction == HostToDevice
    requires s.wLength < 10 && |received| == s.wLength
    ensures Dispatch(dev, s).actions[0] == Receive(0, s.wLength)
    ensures DataOutStage(Dispatch(dev, s).device, 0, received) == Stall
  {
    assert Dispatch(dev, s) == VendorDeviceRequest(dev, s);
  }

  // ---------------------------------------------------------------------
  // Kept discrepancy

  /**
    GetStatus reports the device self-powered (bit 0 of the first byte) while
    the configuration's bmAttributes leaves the self-powered bit (0x40) clear.
   */
  lemma StatusDisagreesWithAttributes(dev: Device)
    ensures var o := Dispatch(dev, SetupData(DeviceToHost, Standard, RecipientDevice, GetStatus, 0, 0, 2));
      o.Handled? && o.actions[0].data[0] % 2 == 1
    ensures (ConfigurationDescriptor()[7] / 0x40) % 2 == 0
  {
  }

  // ---------------------------------------------------------------------
  // Enumeration

  /**
    The enumeration sequence of a host: bus reset, GetDescriptor(Device),
    SetAddress(5), SetConfiguration(1) twice. The device ends configured with
    both bulk endpoints open, and the repeated SetConfiguration changes nothing.
   */
  lemma Enumeration()
    ensures var d0 := Reset(InitialDevice()).0;
      var g := Dispatch(d0, SetupData(DeviceToHost, Standard, RecipientDevice, GetDescriptorRequest, 0x0100, 0, 18));
      g.Handled? && g.actions == [Transmit(0, DeviceDescriptor())]
      && var a := Dispatch(g.device, SetupData(HostToDevice, Standard, RecipientDevice, SetAddressRequest, 5, 0, 0));
      a.Handled? && a.device.state == Addressed && a.actions == [SetDeviceAddress(5), ZeroLengthStatus]
      && var c := Dispatch(a.device, SetupData(HostToDevice, Standard, RecipientDevice, SetConfigurationRequest, 1, 0, 0));
      c.Handled? && c.device.state == Configured && c.actions == ConfigureActions()
      && Dispatch(c.device, SetupData(HostToDevice, Standard, RecipientDevice, SetConfigurationRequest, 1, 0, 0)) == c
  {
  }
}
