/**
  The libusb host program: find the device by vendor and product id, pick its
  bulk endpoints out of the configuration, then exercise the vendor control
  request and the bulk pipes. libusb itself is not modelled: its answers (the
  device list, the parsed configuration, transfer results) are parameters.
 */
module UsbHost {
  import opened Bytes
  import opened Wrappers
  import opened SetupPacket
  import opened Descriptors
  import UsbHal
  import UsbHalProperties
  import MbedDevice

  /** `invalid_ep_address`, the "not found yet" value of the address globals. */
  const InvalidEpAddress: Byte := 0xff

  /** `LIBUSB_ENDPOINT_IN` and `LIBUSB_TRANSFER_TYPE_BULK`. */
  const EndpointIn: Byte := 0x80
  const TransferTypeBulk: Byte := 2

  /** `usb_device::bulk_transfer_length`. */
  const BulkTransferLength := 512

  /** The endpoint globals `get_endpoint_addresses` fills in. */
  datatype HostEndpoints = HostEndpoints(inAddress: Byte, inMps: U16, outAddress: Byte, outMps: U16)

  const InitialEndpoints := HostEndpoints(InvalidEpAddress, 0, InvalidEpAddress, 0)

  // ---------------------------------------------------------------------
  // Endpoint selection

  /** Direction bit of an endpoint address. */
  predicate IsIn(address: Byte)
  {
    address >= EndpointIn
  }

  /** What each of the two loops looks for: the direction wanted and bmAttributes exactly bulk. */
  predicate Wanted(e: Endpoint, wantIn: bool)
  {
    IsIn(e.address) == wantIn && e.attributes == TransferTypeBulk
  }

  /** The reference definition: the position of the first wanted endpoint. */
  function FirstWanted(eps: seq<Endpoint>, wantIn: bool): (r: Option<nat>)
    ensures r.Some? ==> r.value < |eps| && Wanted(eps[r.value], wantIn)
    ensures r.Some? ==> forall j :: 0 <= j < r.value ==> !Wanted(eps[j], wantIn)
    ensures r.None? ==> forall j :: 0 <= j < |eps| ==> !Wanted(eps[j], wantIn)
  {
    if eps == [] then None
    else if Wanted(eps[0], wantIn) then Some(0)
    else
      match FirstWanted(eps[1..], wantIn)
      case None => None
      case Some(i) => Some(i + 1)
  }

  /** One of the two search loops: walk the endpoints in order and stop at the first match. */
  method FindEndpoint(eps: seq<Endpoint>, wantIn: bool) returns (found: Option<nat>)
    ensures found == FirstWanted(eps, wantIn)
  {
    var i := 0;
    while i < |eps|
      invariant 0 <= i <= |eps|
      invariant forall j :: 0 <= j < i ==> !Wanted(eps[j], wantIn)
    {
      if Wanted(eps[i], wantIn) {
        FirstWantedIsFirst(eps, wantIn, i);
        return Some(i);
      }
      i := i + 1;
    }
    FirstWantedIsFirst(eps, wantIn, |eps|);
    return None;
  }

  /** If no endpoint before `i` is wanted, the first wanted one is at `i` or later (or absent). */
  lemma {:induction false} FirstWantedIsFirst(eps: seq<Endpoint>, wantIn: bool, i: nat)
    requires i <= |eps|
    requires forall j :: 0 <= j < i ==> !Wanted(eps[j], wantIn)
    ensures i < |eps| && Wanted(eps[i], wantIn) ==> FirstWanted(eps, wantIn) == Some(i)
    ensures i == |eps| ==> FirstWanted(eps, wantIn) == None
  {
    if i > 0 {
      assert !Wanted(eps[0], wantIn);
      FirstWantedIsFirst(eps[1..], wantIn, i - 1);
    }
  }

  /**
    `get_endpoint_addresses`. `config` is what `libusb_get_config_descriptor`
    returns, None for an error; libusb hands over exactly bNumEndpoints
    endpoint descriptors, so a configuration listing fewer is an error too.
    The globals keep whatever earlier calls left in them, and "found" is read
    off the address global against the sentinel 0xff.
   */
  function GetEndpointAddresses(g: HostEndpoints, config: Option<ConfigView>): (r: (bool, HostEndpoints))
    ensures config.None? ==> r == (false, g)
    ensures config.Some? && !(config.value.numInterfaces == 1 && config.value.numAltSettings == 1 && config.value.numEndpoints == 2)
      ==> r == (false, g)
  {
    if config.None? then (false, g)
    else
      var c := config.value;
      if c.numInterfaces != 1 || c.numAltSettings != 1 || c.numEndpoints != 2 || |c.endpoints| < 2 then (false, g)
      else
        var eps := c.endpoints[..2];
        var g1 := match FirstWanted(eps, true)
          case Some(i) => g.(inAddress := eps[i].address, inMps := eps[i].maxPacketSize)
          case None => g;
        if g1.inAddress == InvalidEpAddress then (false, g1)
        else
          var g2 := match FirstWanted(eps, false)
            case Some(i) => g1.(outAddress := eps[i].address, outMps := eps[i].maxPacketSize)
            case None => g1;
          (g2.outAddress != InvalidEpAddress, g2)
  }

  /**
    Called once from the initial globals on a configuration of the expected
    shape, selection succeeds exactly when a bulk IN and a bulk OUT endpoint
    are among the two, and records the first of each. (An IN endpoint at
    address 0xff would look like none at all.)
   */
  lemma SelectionFromInitial(c: ConfigView)
    requires c.numInterfaces == 1 && c.numAltSettings == 1 && c.numEndpoints == 2 && |c.endpoints| >= 2
    ensures var eps := c.endpoints[..2];
      var (ok, g) := GetEndpointAddresses(InitialEndpoints, Some(c));
      var i, o := FirstWanted(eps, true), FirstWanted(eps, false);
      (ok <==> i.Some? && eps[i.value].address != InvalidEpAddress && o.Some?)
      && (ok ==> g == HostEndpoints(eps[i.value].address, eps[i.value].maxPacketSize,
                                    eps[o.value].address, eps[o.value].maxPacketSize))
  {
    var eps := c.endpoints[..2];
    var o := FirstWanted(eps, false);
    if o.Some? {
      assert !IsIn(eps[o.value].address);
    }
  }

  /** Against the HAL device's configuration, selection finds EP1 IN 0x81 and EP1 OUT 0x01, both of 512 bytes. */
  lemma SelectsHalDeviceEndpoints()
    ensures GetEndpointAddresses(InitialEndpoints, Parse(ConfigurationDescriptor()))
         == (true, HostEndpoints(Ep1InAddr, HsMaxPacketSize, Ep1OutAddr, HsMaxPacketSize))
  {
    UsbHalProperties.DeviceConfigurationParses();
    var eps := [Endpoint(Ep1InAddr, EpTypeBulk, HsMaxPacketSize), Endpoint(Ep1OutAddr, EpTypeBulk, HsMaxPacketSize)];
    var c := ConfigView(1, 1, 2, eps);
    assert c.endpoints[..2] == eps;
    assert FirstWanted(eps, true) == Some(0);
    assert FirstWanted(eps[1..], false) == Some(0);
    SelectionFromInitial(c);
  }

  /**
    The mbed device is never selected: its descriptor as written does not
    parse, and even the corrected one declares a single endpoint.
   */
  lemma MbedDeviceNotSelected(r: MbedDevice.Resolved)
    ensures !GetEndpointAddresses(InitialEndpoints, Parse(MbedDevice.ConfigurationDescAsWritten(r, 0).value)).0
    ensures !GetEndpointAddresses(InitialEndpoints, Parse(MbedDevice.ConfigurationDesc(r, 0).value)).0
  {
    MbedDevice.AsWrittenDoesNotParse(r);
    MbedDevice.ConfigurationDescParses(r);
  }

  // ---------------------------------------------------------------------
  // Finding the device

  /** The two fields of a device descriptor `open_device` compares. */
  datatype DeviceIds = DeviceIds(idVendor: U16, idProduct: U16)

  /** The ids a device descriptor carries (bytes 8..11, little-endian). */
  function IdsOf(d: seq<Byte>): DeviceIds
    requires |d| >= 12
  {
    DeviceIds(Le16(d[8], d[9]), Le16(d[10], d[11]))
  }

  /**
    The matching loop of `open_device`: it visits every device and keeps only
    the first whose vendor and product ids both match; later matches are
    reported and ignored.
   */
  method OpenDevice(devices: seq<DeviceIds>, idVendor: U16, idProduct: U16) returns (found: Option<nat>)
    ensures found.Some? ==> found.value < |devices| && devices[found.value] == DeviceIds(idVendor, idProduct)
    ensures found.Some? ==> forall j :: 0 <= j < found.value ==> devices[j] != DeviceIds(idVendor, idProduct)
    ensures found.None? <==> DeviceIds(idVendor, idProduct) !in devices
  {
    found := None;
    var i := 0;
    while i < |devices|
      invariant 0 <= i <= |devices|
      invariant found.None? <==> DeviceIds(idVendor, idProduct) !in devices[..i]
      invariant found.Some? ==> found.value < i && devices[found.value] == DeviceIds(idVendor, idProduct)
      invariant found.Some? ==> forall j :: 0 <= j < found.value ==> devices[j] != DeviceIds(idVendor, idProduct)
    {
      if devices[i].idVendor == idVendor && devices[i].idProduct == idProduct {
        if found.None? {
          found := Some(i);
        }
      }
      assert devices[..i + 1] == devices[..i] + [devices[i]];
      i := i + 1;
    }
    assert devices[..i] == devices;
  }

  /** The ids `main` passes to `open_device`. */
  const HostVendorId: U16 := 0x1f00
  const HostProductId: U16 := 0x2012

  /** The host looks for the ids the HAL device's descriptor declares and the mbed device's constructor passes. */
  lemma HostLooksForBothDevices()
    ensures IdsOf(DeviceDescriptor()) == DeviceIds(HostVendorId, HostProductId)
    ensures DeviceIds(MbedDevice.MbedVendorId, MbedDevice.MbedProductId) == DeviceIds(HostVendorId, HostProductId)
  {
  }

  // ---------------------------------------------------------------------
  // Transfers

  /** `control_transfer_out`: vendor request 0 to the device carrying "some data" and its terminator. */
  function ControlOutSetup(): (s: SetupData)
    ensures s.kind == Vendor && s.direction == HostToDevice && s.recipient == RecipientDevice
  {
    SetupData(HostToDevice, Vendor, RecipientDevice, 0, 0, 0, 10)
  }

  function ControlOutData(): (d: seq<Byte>)
    ensures |d| == ControlOutSetup().wLength
  {
    Ascii("some data") + [0]
  }

  /**
    The HAL device accepts the host's control write: the setup arms a
    receive of the whole payload and the payload passes the device's check.
   */
  lemma ControlOutAcceptedByHal(dev: UsbHal.Device)
    requires |dev.vendorBuffer| == UsbHal.VendorBufferSize
    ensures var o := UsbHal.Dispatch(dev, ControlOutSetup());
      o.Handled? && o.actions[0] == UsbHal.Receive(0, |ControlOutData()|)
      && UsbHal.DataOutStage(o.device, 0, ControlOutData()).Handled?
  {
    UsbHalProperties.HostVendorWriteAccepted(dev);
  }

  /** `control_transfer_in`: vendor request 0 from the device, into a 16-byte buffer. */
  function ControlInSetup(): (s: SetupData)
    ensures s.kind == Vendor && s.direction == DeviceToHost && s.recipient == RecipientDevice
  {
    SetupData(DeviceToHost, Vendor, RecipientDevice, 0, 0, 0, 16)
  }

  /** The 16-byte buffer is big enough: both devices answer with all 13 bytes of "send request" and its terminator. */
  lemma ControlInGetsWholeReply(dev: UsbHal.Device)
    ensures UsbHal.Dispatch(dev, ControlInSetup()) == UsbHal.Handled(dev, [UsbHal.Transmit(0, UsbHal.SendRequestData())])
    ensures MbedDevice.CallbackRequest(ControlInSetup()) == Some(MbedDevice.Send(UsbHal.SendRequestData()))
  {
    UsbHalProperties.VendorReadReply(dev, ControlInSetup());
    assert UsbHal.SendRequestData()[..13] == UsbHal.SendRequestData();
  }

  /** What `bulk_transfer_in` concludes: whether it succeeded, and whether the payload matched. */
  datatype BulkInResult = BulkInResult(success: bool, matched: bool)

  /**
    `bulk_transfer_in`: a 512-byte read of the IN endpoint. It succeeds only
    when libusb reports no error and exactly 512 bytes; it then compares the
    first max-packet-size bytes with 1, 2, 3, ... and only prints a mismatch.
   */
  function BulkTransferIn(g: HostEndpoints, error: bool, transferred: nat, data: seq<Byte>): (r: BulkInResult)
    requires g.inAddress != InvalidEpAddress && g.inMps != 0
    requires |data| == BulkTransferLength && g.inMps <= BulkTransferLength
    ensures r.success <==> !error && transferred == BulkTransferLength
    ensures r.matched ==> r.success
    ensures r.success ==> (r.matched <==> forall i :: 0 <= i < g.inMps ==> data[i] == (i + 1) % 0x100)
  {
    if error || transferred != BulkTransferLength then BulkInResult(false, false)
    else
      var matched := data[..g.inMps] == Iota(g.inMps, 1);
      assert matched <==> forall i :: 0 <= i < g.inMps ==> data[i] == (i + 1) % 0x100 by {
        if forall i :: 0 <= i < g.inMps ==> data[i] == (i + 1) % 0x100 {
          assert data[..g.inMps] == Iota(g.inMps, 1);
        }
      }
      BulkInResult(true, matched)
  }

  /** The HAL device's EP1 IN payload passes the host's check, whatever max packet size was selected. */
  lemma HalBulkPayloadMatches(g: HostEndpoints)
    requires g.inAddress != InvalidEpAddress && g.inMps != 0 && g.inMps <= BulkTransferLength
    ensures BulkTransferIn(g, false, BulkTransferLength, UsbHal.Ep1TransmitBuffer()) == BulkInResult(true, true)
  {
  }

  /** The `bulk_transfer_out` payload: byte i is (i + 2) mod 256. */
  function BulkOutPayload(): (d: seq<Byte>)
    ensures |d| == BulkTransferLength
    ensures forall i :: 0 <= i < BulkTransferLength ==> d[i] == (i + 2) % 0x100
  {
    Iota(BulkTransferLength, 2)
  }

  /** `bulk_transfer_out` succeeds only when libusb reports no error and the whole payload went out. */
  function BulkTransferOut(g: HostEndpoints, error: bool, transferred: nat): (success: bool)
    requires g.outAddress != InvalidEpAddress && g.outMps != 0
    ensures success ==> transferred == |BulkOutPayload()|
    ensures success <==> !error && transferred == BulkTransferLength
  {
    !error && transferred == BulkTransferLength
  }

  /** The OUT payload fits the receive the HAL device arms on EP1 OUT after configuration. */
  lemma BulkOutFitsDeviceReceive()
    ensures UsbHal.Receive(1, |BulkOutPayload()|) in UsbHal.ConfigureActions()
  {
    assert UsbHal.ConfigureActions()[3] == UsbHal.Receive(1, 512);
  }
}
