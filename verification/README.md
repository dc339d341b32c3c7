# STM32 USB investigation — a Dafny model

This project models the logic of a small STM32F723 USB investigation:

1. **The HAL-based USB device.** This is the control-request engine of a device built directly on the STM32 PCD driver. It covers:
   - setup-packet decoding (section 9.3 of the USB 2.0 specification);
   - dispatch by recipient, type and request code;
   - the Default/Addressed/Configured state machine (section 9.1);
   - GetDescriptor over the static descriptor tables (sections 9.6.1, 9.6.3, 9.6.5, 9.6.6, 9.6.7);
   - ClearFeature(ENDPOINT_HALT);
   - vendor request 0;
   - bus reset and the data-stage callbacks.

   Each handler is a pure function from the device state and the decoded packet to an `Outcome`. An outcome is either the new state together with the ordered list of PCD driver calls the handler makes, or `Stall`, which stands for a fatal `MBED_ASSERT(false)`.
2. **The buffer pool.** Two bounded FIFO mail queues, "empty" and "full", carry buffer identities. There are N pool buffers, and N is a parameter.
3. **The SPI receiver.** It has two parts:
   - The double-buffered DMA hand-off. Its two completion callbacks queue the finished target and retarget that slot. Each slot falls back to its own overflow buffer when the pool runs dry.
   - The recogniser for the rotated "spi " bit pattern.
4. **The mbed `USBDevice` variant of the device.** It has three callbacks: request completion, transfer done and set-configuration. It also has its configuration descriptor.
5. **The SPI master.** It fills the transmit buffers and runs the DMA stream with a small controller: toggle, run-for-N, and counting of completions.
6. **The libusb host.** It finds the device by vendor and product id and selects the bulk IN and OUT endpoints from the configuration. It also checks the control and bulk transfers it makes.

Files, one module each:
- `bytes.dfy`: fixed-width integers and byte helpers, plus `Option`.
- `setup_packet.dfy`: setup-packet decoding.
- `descriptors.dfy`: the descriptor tables, and a bLength-chain walker that stands in for the host library's parser.
- `usb_hal.dfy`: the HAL device.
- `usb_hal_properties.dfy`: properties of the HAL device.
- `buffers.dfy`: the buffer pool.
- `spi_rx.dfy`: the SPI receiver's DMA hand-off.
- `rx_pattern.dfy`: the rotated-pattern recogniser.
- `mbed_device.dfy`: the mbed device.
- `spi_master.dfy`: the SPI master.
- `usb_host.dfy`: the libusb host.

Hardware interaction is modelled only as data:
- Driver calls are `Action` values.
- The DMA target registers M0AR/M1AR and the CT bit are fields of a `Receiver`.
- What libusb returns (the device list, the parsed configuration, transfer counts and errors) arrives as parameters.

The HAL device's SetConfiguration follows the firmware rather than section 9.4.7 of the USB 2.0 specification:
- SetConfiguration(1) is accepted in every state, Default included.
- SetConfiguration(0) moves even a Default device to Addressed.
Section 9.4.7 leaves the request's behaviour in the Default state unspecified, so neither choice contradicts it.

## Model

| member | source | states |
|---|---|---|
| Bytes.Lsb | usb-device/evk-usb-device-hal.cpp:267-270 | the low byte differs from the word by a multiple of 256 |
| Bytes.Msb | usb-device/evk-usb-device-hal.cpp:272-274 | the high byte times 256 brackets the word |
| Bytes.LsbMsbRecompose | usb-device/evk-usb-device-hal.cpp:267-274 | low byte plus 256 times high byte gives the word back |
| Bytes.Le16Split | usb-device/evk-usb-device-hal.cpp:267-274 | splitting a recomposed word returns both bytes |
| Bytes.Iota | usb-device/evk-usb-device-hal.cpp:548 | byte i of an `std::iota` fill of a `uint8_t` array is (start + i) mod 256 |
| SetupPacket.DecodeRequestType | usb-device/evk-usb-device-hal.cpp:277-283 | direction is bit 7, type is bits 6..5 and recipient is bits 4..0 of bmRequestType |
| SetupPacket.EncodeRequestType | usb-device/evk-usb-device-hal.cpp:277-283 | composing the three fields into a byte decodes back to the same three fields |
| SetupPacket.Decode | usb-device/evk-usb-device-hal.cpp:276-290 | bmRequestType and bRequest are bytes 0 and 1 of the first word and wValue is its high half; wIndex and wLength are the halves of the second word |
| SetupPacket.DecodeEncode | usb-device/evk-usb-device-hal.cpp:276-290 | decoding the two words a packet is sent as gives back every field |
| SetupPacket.EncodeDecode | usb-device/evk-usb-device-hal.cpp:276-290 | every pair of words is the encoding of what it decodes to, so decoding loses nothing |
| SetupPacket.RequestTypeRecompose | usb-device/evk-usb-device-hal.cpp:277-283 | the three masked fields recompose to the original bmRequestType |
| Descriptors.DeviceDescriptor | usb-device/evk-usb-device-hal.cpp:125-147 | 18 bytes, bLength 18, type 1, bcdUSB 2.0, byte 7 is the EP0 maximum packet size, ids 0x1f00/0x2012, string indices 1, 2, 3 |
| Descriptors.LangIdDescriptor | usb-device/evk-usb-device-hal.cpp:149-154 | bLength equals the length 4, the type is string, and the one language id is 0x0409 |
| Descriptors.ManufacturerDescriptor | usb-device/evk-usb-device-hal.cpp:156-161 | bLength equals the length 8, the type is string, and the text is "MBr" in UTF-16LE |
| Descriptors.ProductDescriptor | usb-device/evk-usb-device-hal.cpp:163-168 | bLength equals the length 8, the type is string, and the text is "EVK" in UTF-16LE |
| Descriptors.Utf16Le | usb-device/evk-usb-device-hal.cpp:156-175 | each character of a string descriptor's text is a two-byte little-endian code unit, with a zero high byte for ASCII |
| Descriptors.SerialNumberDescriptor | usb-device/evk-usb-device-hal.cpp:170-175 | bLength equals the length 10, the type is string, and the text is "0001" in UTF-16LE |
| Descriptors.ConfigurationHeader | usb-device/evk-usb-device-hal.cpp:177-193 | 9-byte header whose wTotalLength is 9 + 9 + 2·7 = 32; one interface, configuration value 1, bmAttributes 0x80 |
| Descriptors.InterfaceDescriptor | usb-device/evk-usb-device-hal.cpp:194-203 | 9-byte interface descriptor declaring two endpoints |
| Descriptors.BulkEndpointDescriptor | usb-device/evk-usb-device-hal.cpp:204-220 | 7-byte bulk endpoint descriptor whose wMaxPacketSize is 512 |
| Descriptors.ConfigurationDescriptor | usb-device/evk-usb-device-hal.cpp:177-221 | the whole table is 32 bytes and its wTotalLength equals its length |
| Descriptors.StringDescriptor | usb-device/evk-usb-device-hal.cpp:300-321 | a descriptor exists exactly for indices 0..3, and each has its own length as bLength |
| Descriptors.Walk | usb-host/main.cpp:63 | every record of a well-formed chain has its own length as bLength, at least 2 |
| Descriptors.WalkPartitions | usb-host/main.cpp:63 | the records of a well-formed chain concatenate back to exactly the bytes walked |
| Descriptors.WalkShift | usb-host/main.cpp:63 | walking is unaffected by bytes in front of the starting point |
| Descriptors.WalkPrepend | usb-host/main.cpp:63 | a self-sized descriptor in front of a chain becomes its first record, and a malformed chain stays malformed |
| Descriptors.WalkConcat | usb-host/main.cpp:63 | self-sized descriptors laid end to end walk back into exactly those descriptors |
| Descriptors.WalkConcatNone | usb-host/main.cpp:63 | a malformed tail makes the whole chain malformed |
| Descriptors.RecordsOf | usb-host/main.cpp:63 | record k is descriptor k with its type byte |
| Descriptors.InterfacesOf | usb-host/main.cpp:73-78 | only interface records of the chain are listed |
| Descriptors.Parse | usb-host/main.cpp:63-84 | a configuration parses only if it has a header of type 2 whose wTotalLength is its length |
| Descriptors.ParseLayout | usb-host/main.cpp:63-84 | a header, an interface and two endpoints parse to one alternate setting with exactly those two endpoints in order |
| Descriptors.ParseLayoutOneEndpoint | usb-host/main.cpp:63-84 | the same for a single endpoint |
| UsbHal.VendorRequestExpected | usb-device/evk-usb-device-hal.cpp:262 | the expected vendor payload is 10 bytes, "some data" and its terminator |
| UsbHal.SendRequestData | usb-device/evk-usb-device-hal.cpp:460 | the vendor read reply is 13 bytes, "send request" and its terminator |
| UsbHal.Ep1TransmitBuffer | usb-device/evk-usb-device-hal.cpp:548 | the EP1 IN payload is 512 bytes |
| UsbHal.DescriptorReply | usb-device/evk-usb-device-hal.cpp:323-361 | the reply never exceeds wLength; wLength 0 gives an empty reply; otherwise the reply is a prefix of the selected table, a refusal stalls, and an unknown type gives an empty reply |
| UsbHal.GetDescriptor | usb-device/evk-usb-device-hal.cpp:323-361 | handled exactly when there is a reply, which is sent as one EP0 transmit without changing the device |
| UsbHal.DeviceGetStatus | usb-device/evk-usb-device-hal.cpp:363-375 | handled iff wLength is 2; the reply is {0x01, 0x00} |
| UsbHal.SetAddress | usb-device/evk-usb-device-hal.cpp:377-395 | accepted iff wIndex = 0, wLength = 0, the device is not configured and the low byte of wValue is below 128; it sets the hardware address, then sends the status; the state becomes Addressed iff the address is non-zero |
| UsbHal.SetConfiguration | usb-device/evk-usb-device-hal.cpp:397-421 | accepted iff wValue is 0 or 1, from any state; 1 opens and arms both bulk endpoints and configures; 0 only acknowledges and moves to Addressed |
| UsbHal.StandardDeviceRequest | usb-device/evk-usb-device-hal.cpp:423-446 | an unnamed request code does nothing |
| UsbHal.VendorDeviceRequest | usb-device/evk-usb-device-hal.cpp:448-468 | only request 0 is handled; a write clears the buffer, arms a receive of min(wLength, 10) bytes, acknowledges and sets the ready flag; a read sends min(wLength, 13) bytes of "send request" |
| UsbHal.DeviceRequest | usb-device/evk-usb-device-hal.cpp:470-482 | class requests stall, and type 0x60 does nothing |
| UsbHal.EndpointClear | usb-device/evk-usb-device-hal.cpp:484-495 | the device never changes; the status is sent iff configured with ENDPOINT_HALT; the stall is cleared iff additionally the endpoint number is not 0, and the endpoint cleared is the low byte of wIndex, the `uint8_t` the driver takes; nothing else is done |
| UsbHal.StandardEndpointRequest | usb-device/evk-usb-device-hal.cpp:497-514 | of the named request codes only ClearFeature is served; the others stall and unnamed codes do nothing |
| UsbHal.EndpointRequest | usb-device/evk-usb-device-hal.cpp:516-526 | class and vendor endpoint requests stall, and type 0x60 does nothing |
| UsbHal.Dispatch | usb-device/evk-usb-device-hal.cpp:528-543 | interface and other recipients stall; recipient codes 4..31 do nothing |
| UsbHal.Reset | usb-device/evk-usb-device-hal.cpp:661-667 | any state goes back to Default with nothing else changed, and EP0 is opened in both directions |
| UsbHal.DataOutStage | usb-device/evk-usb-device-hal.cpp:669-690 | an EP0 completion with a vendor write pending succeeds iff at least 10 bytes arrived and they are "some data" and its terminator, and it clears the flag; an EP1 completion re-arms the 512-byte receive; other endpoints do nothing |
| UsbHal.DataInStage | usb-device/evk-usb-device-hal.cpp:692-704 | after EP0 IN a zero-length receive is armed; after EP1 IN the 512-byte transmit is repeated |
| UsbHalProperties.InStageFollowsTransmits | usb-device/evk-usb-device-hal.cpp:692-704 | for every transmit a request handler makes, the data-in callback that follows it arms the EP0 status receive when it was on EP0 and repeats that very transmit when it was on EP1 |
| UsbHal.SetupStage | usb-device/evk-usb-device-hal.cpp:528-543 | interface and other recipients are fatal assertions; a reserved recipient is ignored, with no driver call and no state change |
| UsbHalProperties.SetupStageOfEncoded | usb-device/evk-usb-device-hal.cpp:528-543 | a packet as sent by the host reaches the handlers intact |
| UsbHalProperties.DeviceDescriptorReply | usb-device/evk-usb-device-hal.cpp:330-338 | the device descriptor is sent whole iff wLength is at least 18, otherwise the request stalls |
| UsbHalProperties.ConfigurationDescriptorReply | usb-device/evk-usb-device-hal.cpp:339-343 | the configuration request always gets the first min(wLength, 32) bytes |
| UsbHalProperties.StringDescriptorReply | usb-device/evk-usb-device-hal.cpp:300-346 | a string request succeeds iff the index is at most 3 and the whole descriptor fits in wLength |
| UsbHalProperties.OtherDescriptorReply | usb-device/evk-usb-device-hal.cpp:347-358 | types 4..8 stall, and types 0 and above 8 get an empty reply |
| UsbHalProperties.StringDescriptorLengths | usb-device/evk-usb-device-hal.cpp:149-175 | the string descriptors are 4, 8, 8 and 10 bytes long |
| UsbHalProperties.DeviceDescriptorRequest | usb-device/evk-usb-device-hal.cpp:330-338 | GetDescriptor(Device, 18) sends exactly the 18 table bytes, whose byte 7 is 64 |
| UsbHalProperties.ConfigurationDescriptorRoundTrip | usb-device/evk-usb-device-hal.cpp:177-221 | a full-length configuration read returns 32 bytes whose wTotalLength is 32, and a host parses them to one interface with bulk IN 0x81 and bulk OUT 0x01 of 512 bytes |
| UsbHalProperties.DeviceConfigurationParses | usb-device/evk-usb-device-hal.cpp:177-221 | the configuration table parses to one interface, one alternate setting and the two bulk endpoints |
| UsbHalProperties.DispatchClassification | usb-device/evk-usb-device-hal.cpp:423-543 | a packet that matches no case does nothing; one that is neither served nor unmatched stalls; no packet is both served and unmatched |
| UsbHalProperties.StateMovesOnlyByAddressOrConfiguration | usb-device/evk-usb-device-hal.cpp:377-421 | only SetAddress and SetConfiguration change the device state |
| UsbHalProperties.OnlyVendorWriteTouchesBuffer | usb-device/evk-usb-device-hal.cpp:448-458 | only a vendor write changes the receive buffer or its flag, and it leaves them zeroed and ready |
| UsbHalProperties.ConfiguredOnlyBySetConfigurationOne | usb-device/evk-usb-device-hal.cpp:397-421 | Configured is entered only through SetConfiguration(1) |
| UsbHalProperties.AddressedFromDefault | usb-device/evk-usb-device-hal.cpp:377-421 | from Default, Addressed is reached only by a non-zero SetAddress or by SetConfiguration(0) |
| UsbHalProperties.NoAddressChangeWhenConfigured | usb-device/evk-usb-device-hal.cpp:379-383 | a configured device stalls SetAddress |
| UsbHalProperties.SetConfigurationIdempotent | usb-device/evk-usb-device-hal.cpp:397-421 | SetConfiguration(1) repeated gives the same outcome |
| UsbHalProperties.ResetAfterAnyRequest | usb-device/evk-usb-device-hal.cpp:661-667 | after any request a reset lands in Default with EP0 opened both ways |
| UsbHalProperties.ControlReplyWithinWLength | usb-device/evk-usb-device-hal.cpp:323-468 | no EP0 transmit of any handler carries more than wLength bytes |
| UsbHalProperties.VendorReadReply | usb-device/evk-usb-device-hal.cpp:459-464 | a vendor read of request 0 sends min(wLength, 13) bytes of "send request" |
| UsbHalProperties.HostVendorWriteAccepted | usb-device/evk-usb-device-hal.cpp:669-683 | the host's 10-byte "some data" write arms a 10-byte receive, and its completion clears the flag without a stall |
| UsbHalProperties.ShortVendorWriteStalls | usb-device/evk-usb-device-hal.cpp:669-683 | a vendor write shorter than 10 bytes arms a receive of exactly that length, and its completion always stalls |
| UsbHalProperties.StatusDisagreesWithAttributes | usb-device/evk-usb-device-hal.cpp:363-375 | GetStatus reports self-powered while bmAttributes leaves the self-powered bit clear |
| UsbHalProperties.Enumeration | usb-device/evk-usb-device-hal.cpp:377-421 | reset, GetDescriptor(Device), SetAddress(5) and SetConfiguration(1) leave the device configured with both bulk endpoints open, and a repeated SetConfiguration changes nothing |
| Buffers.Uninitialised | usb-device/buffers.cpp:14-39 | before `init` both queues are empty and the initialised flag is clear |
| Buffers.AllPool | usb-device/buffers.cpp:109-117 | the pool's N buffers in index order |
| Buffers.GetEmptyBuffer | usb-device/buffers.cpp:48-58 | removes and returns the head of the empty queue, or returns nothing when it is empty; the full queue is unchanged |
| Buffers.SetBufferEmpty | usb-device/buffers.cpp:60-67 | appends at the tail of the empty queue when it holds fewer than N; the full queue is unchanged |
| Buffers.GetFullBuffer | usb-device/buffers.cpp:69-76 | removes and returns the head of a non-empty full queue; the empty queue is unchanged |
| Buffers.SetBufferFull | usb-device/buffers.cpp:89-96 | appends at the tail of the full queue when it holds fewer than N; the empty queue is unchanged |
| Buffers.InitialQueues | usb-device/buffers.cpp:109-117 | after `init` the empty queue is the N buffers in index order and the full queue is empty |
| Buffers.Init | usb-device/buffers.cpp:109-117 | the loop of `set_buffer_empty` calls produces the initial queues |
| Buffers.SetAllFull | usb-device/buffers.cpp:89-96 | queuing several buffers leaves the empty queue alone and grows the full queue by their number |
| Buffers.DrainFull | usb-device/buffers.cpp:69-76 | taking every full buffer yields as many ids as were queued |
| Buffers.FullQueueFifo | usb-device/buffers.cpp:69-96 | what is queued full comes back out in the same order, after what was already there |
| Buffers.DrainReturnsQueue | usb-device/buffers.cpp:69-76 | draining returns the full queue head first |
| Buffers.EmptyQueueFifo | usb-device/buffers.cpp:48-67 | a buffer handed back to the empty queue is taken after those already there |
| Buffers.TakeEmpty | usb-device/buffers.cpp:48-58 | taking k buffers yields at most k |
| Buffers.TakeEmptyPrefix | usb-device/buffers.cpp:48-58 | taking k buffers yields the first k of the empty queue |
| Buffers.InitialOrder | usb-device/buffers.cpp:109-117 | after `init`, buffers come out of the empty queue in index order |
| Buffers.MoveKeepsContents | usb-device/buffers.cpp:89-96 | moving a buffer from empty to full keeps the multiset of queued ids |
| SpiRx.Retarget | usb-device/spi-rx.cpp:283-313 | retargeting one slot leaves the other slot, the queues and CT alone |
| SpiRx.StartUp | usb-device/spi-rx.cpp:215-218 | start-up succeeds iff N ≥ 2; it takes buffers 0 and 1 as the M0 and M1 targets with CT clear |
| SpiRx.Complete | usb-device/spi-rx.cpp:283-313 | a callback succeeds only with the right CT bit; the finished target joins the full queue unless it is the slot's overflow buffer; the slot's new target is the empty queue's head or the overflow buffer; the other slot is untouched |
| SpiRx.PoolSet | usb-device/buffers.cpp:32 | the pool has N buffers |
| SpiRx.PoolSetCounts | usb-device/buffers.cpp:32 | each pool buffer below N occurs once, and nothing else occurs |
| SpiRx.AllPoolIsPoolSet | usb-device/buffers.cpp:109-117 | the queue `init` builds holds exactly the pool |
| SpiRx.InvPlacesEachBufferOnce | usb-device/spi-rx.cpp:283-313 | under the invariant each pool buffer is in exactly one place, and no overflow buffer is queued |
| SpiRx.StartUpEstablishesInv | usb-device/spi-rx.cpp:215-218 | after `init` and start-up every pool buffer is in exactly one of the four places |
| SpiRx.HandOff | usb-device/spi-rx.cpp:287-294 | one completion moves buffers between places without creating or losing any |
| SpiRx.CompleteSucceeds | usb-device/spi-rx.cpp:283-313 | under the invariant `set_buffer_full` always finds room |
| SpiRx.CompleteKeepsLocations | usb-device/spi-rx.cpp:283-313 | a completion keeps the multiset of pool buffers across the four places |
| SpiRx.CompletePreservesInv | usb-device/spi-rx.cpp:283-313 | a callback with the right CT bit never fails and keeps the invariant |
| SpiRx.Step | usb-device/spi-rx.cpp:283-313 | a DMA completion flips CT, queues the finished target unless it is an overflow buffer, retargets the finished slot to the empty queue's head or its overflow buffer, and fails only when a pool buffer finishes with the mail pool full |
| SpiRx.StepPreservesInv | usb-device/spi-rx.cpp:283-313 | one DMA completion keeps the invariant and the capacity |
| SpiRx.Simulate | usb-device/spi-rx.cpp:283-313 | after start-up and any number of completions, no assertion fires, every pool buffer is in exactly one place and no overflow buffer is ever queued |
| RxPattern.WordOfBytes | usb-device/spi-rx.cpp:110-115 | the low byte of the word is the first byte in memory, and the high byte the last |
| RxPattern.Le32 | usb-device/spi-rx.cpp:110-115 | the little-endian value has the first byte lowest and the last byte highest |
| RxPattern.ExpectedValue | usb-device/spi-rx.cpp:107-115 | "spi " read as a little-endian word is 0x20697073 |
| RxPattern.Shl | usb-device/spi-rx.cpp:164-166 | a left shift is defined only below 32, and bit i is bit i - s of the input |
| RxPattern.Shr | usb-device/spi-rx.cpp:164-166 | a right shift is defined only below 32, and bit i is bit i + s of the input |
| RxPattern.Or | usb-device/spi-rx.cpp:164-166 | the bitwise or |
| RxPattern.RotateLeft | usb-device/spi-rx.cpp:164-166 | bit i of the rotation is bit (i - s) mod 32 of the input |
| RxPattern.RotateWordAsWritten | usb-device/spi-rx.cpp:164-166 | `rotate_word` has a defined value exactly for shifts 1..31; at 0 and 32 one of its shifts is by 32 |
| RxPattern.RotateWordIsRotation | usb-device/spi-rx.cpp:164-166 | for shifts 1..31, `rotate_word` is the rotation |
| RxPattern.RotateWordUndefinedAtZero | usb-device/spi-rx.cpp:164-169 | at shift 0 `rotate_word` shifts right by 32, which is undefined |
| RxPattern.RotateByZero | usb-device/spi-rx.cpp:169 | the intended value at shift 0 is the word itself |
| RxPattern.RotateCompose | usb-device/spi-rx.cpp:164-166 | rotations compose by adding their counts |
| RxPattern.RotateModulo | usb-device/spi-rx.cpp:164-166 | rotation counts matter only modulo 32 |
| RxPattern.Patterns | usb-device/spi-rx.cpp:168-172 | entry s of the 32-entry table is the expected word rotated by s |
| RxPattern.PatternsInit | usb-device/spi-rx.cpp:168-172 | the initialisation loop builds that table |
| RxPattern.InPatternsIffRecognised | usb-device/spi-rx.cpp:168-194 | a word is in the table iff it is some rotation of the expected word |
| RxPattern.Find | usb-device/spi-rx.cpp:181-190 | the linear search finds a word iff it is in the table, and at its first position |
| RxPattern.FindExpectedRxPattern | usb-device/spi-rx.cpp:174-194 | nothing is checked without a full buffer; otherwise, against the firmware's table the buffer is recognised iff its first word is a rotation of "spi ", and against the stream table iff its first word is what the stream gives at some bit offset |
| RxPattern.RotationOfClosed | usb-device/spi-rx.cpp:164-172 | a further rotation of a rotation of a word is still one |
| RxPattern.RecognisedUnderRotation | usb-device/spi-rx.cpp:168-194 | recognition is closed under word rotation: a rotation of a recognised word is recognised |
| RxPattern.ExpectedRecognised | usb-device/spi-rx.cpp:174-194 | the unrotated "spi " word is recognised |
| RxPattern.StraddleAtZero | usb-device/spi-rx.cpp:100-101 | a byte received at bit offset 0 is the byte sent |
| RxPattern.ReceivedAtZero | usb-device/spi-rx.cpp:100-101 | at bit offset 0 the four received bytes are the four sent |
| RxPattern.StreamWordAtZero | usb-device/spi-rx.cpp:100-115 | at bit offset 0 the stream gives the union's word |
| RxPattern.ReceivedPeriodic | usb-device/spi-rx.cpp:100-101 | the repeated 4-byte pattern makes the received bytes depend on the bit offset only modulo 32 |
| RxPattern.OffsetTwoBytes | usb-device/spi-rx.cpp:100-101 | two bits into the MSB-first stream of "spi " the receiver's first four bytes are CD C1 A4 81 |
| RxPattern.OffsetTwoNotRecognised | usb-device/spi-rx.cpp:100-194 | the word read two bits into the stream is a possible reception that the firmware's table does not recognise |
| RxPattern.StreamPatterns | usb-device/spi-rx.cpp:100-101 | the corrected table: 32 entries, entry o being the word the stream gives at bit offset o, and entry 0 equal to the firmware's |
| RxPattern.StreamPatternsIffRead | usb-device/spi-rx.cpp:100-101 | a word is in the corrected table iff the stream gives it at some bit offset |
| RxPattern.StreamRecognisedAtAnyOffset | usb-device/spi-rx.cpp:100-101 | whatever bit offset reception starts at, the word read is in the corrected table |
| MbedDevice.MbedHeader | usb-device/evk-usb-device.cpp:32-42 | a 9-byte configuration header with the given total, one interface and configuration value 1 |
| MbedDevice.MbedInterface | usb-device/evk-usb-device.cpp:43-53 | a 9-byte interface descriptor declaring one endpoint |
| MbedDevice.MbedEndpointBytes | usb-device/evk-usb-device.cpp:54-63 | a 7-byte bulk endpoint descriptor with the given address and packet-size bytes |
| MbedDevice.MbedEndpoint | usb-device/evk-usb-device.cpp:54-63 | the endpoint descriptor carries the resolved address and its wMaxPacketSize decodes to the resolved packet size |
| MbedDevice.ConfigurationDescAsWritten | usb-device/evk-usb-device.cpp:31-72 | a descriptor only for index 0; the array and its wTotalLength are 32; bNumEndpoints is 1 and bytes 25..31 are zero |
| MbedDevice.AsWrittenDoesNotParse | usb-device/evk-usb-device.cpp:31-72 | the descriptor as written cannot be parsed by a host |
| MbedDevice.ConfigurationDesc | usb-device/evk-usb-device.cpp:31-72 | the corrected descriptor: only for index 0, 25 bytes, and a wTotalLength equal to its length |
| MbedDevice.ConfigurationDescParses | usb-device/evk-usb-device.cpp:31-72 | the corrected descriptor parses to one interface whose one endpoint is the resolved bulk IN |
| MbedDevice.CallbackRequest | usb-device/evk-usb-device.cpp:78-99 | a vendor write is received whole into the 16-byte buffer and fails beyond 16 bytes; a vendor read, whatever bRequest and recipient, sends exactly the first min(wLength, 13) bytes of "send request" and its terminator; a non-vendor request is passed through |
| MbedDevice.XferDone | usb-device/evk-usb-device.cpp:101-104 | success is the negation of aborted |
| MbedDevice.SetConfiguration | usb-device/evk-usb-device.cpp:106-118 | success iff the configuration is 1, and a failure adds no endpoint |
| MbedDevice.SetConfigurationMatchesDescriptor | usb-device/evk-usb-device.cpp:106-118 | the accepted configuration is the one the descriptor declares, and it adds exactly the endpoints the descriptor lists |
| MbedDevice.VendorReadAgreesWithHal | usb-device/evk-usb-device.cpp:85-92 | both firmwares answer a vendor read of request 0 with the same bytes |
| MbedDevice.VendorWriteAcceptance | usb-device/evk-usb-device.cpp:81-84 | the mbed device accepts vendor writes iff at most 16 bytes, and the HAL device iff request 0 |
| SpiMaster.InitBytes | spi-master/main.cpp:123-132 | the four characters the buffers repeat are the ones the receiver expects |
| SpiMaster.TxPattern | spi-master/main.cpp:113-132 | byte i of each 256-byte buffer is character i mod 4 of "spi " |
| SpiMaster.TxBufferInit | spi-master/main.cpp:123-132 | after the fill both buffers hold "spi " repeated, byte for byte |
| SpiMaster.TxWordsAreExpected | spi-master/main.cpp:123-132 | every aligned word the master sends is the word the receiver expects |
| SpiMaster.SetDmaSize | spi-master/main.cpp:190-193 | accepted iff the size is at most 256, and only the DMA size changes |
| SpiMaster.SetDmaSizeGovernsStream | spi-master/main.cpp:150-193 | an accepted size is the transfer length the stream is started with by `toggle_dma` and `run_dma_for`, and completions keep it |
| SpiMaster.CompletionsKeepSize | spi-master/main.cpp:250-280 | no number of completions changes the DMA size |
| SpiMaster.ToggleDma | spi-master/main.cpp:195-211 | the running flag flips and the stream follows it; nothing else changes |
| SpiMaster.RunDmaFor | spi-master/main.cpp:177-188 | refused while running; otherwise it resets the count, sets the target, arms counting and starts the stream |
| SpiMaster.TxComplete | spi-master/main.cpp:250-280 | disarmed completions change nothing; armed ones count; the one reaching the target stops the stream, disarms and posts one toggle |
| SpiMaster.DispatchToggle | spi-master/main.cpp:195-211 | running a posted toggle flips the running flag |
| SpiMaster.Limit | spi-master/main.cpp:255-263 | counting stops after the target number of buffers, but at least one |
| SpiMaster.DisarmedIgnoresCompletions | spi-master/main.cpp:250-280 | once disarmed, any number of completions changes nothing |
| SpiMaster.CountUp | spi-master/main.cpp:250-280 | armed completions count one each until the limit, where the stream stops and one toggle is posted |
| SpiMaster.RunDmaForCounts | spi-master/main.cpp:177-188 | `run_dma_for(n)` counts exactly max(n, 1) buffers, then stops, and the posted toggle clears the running flag |
| UsbHost.FirstWanted | usb-host/main.cpp:86-132 | the position of the first endpoint with the wanted direction and exactly bulk attributes, none before it |
| UsbHost.FindEndpoint | usb-host/main.cpp:86-122 | each search loop finds the first wanted endpoint in descriptor order |
| UsbHost.FirstWantedIsFirst | usb-host/main.cpp:86-100 | with none wanted before i, the first wanted endpoint is at i or absent |
| UsbHost.GetEndpointAddresses | usb-host/main.cpp:54-133 | a libusb error, or a configuration with other than one interface, one alternate setting and two endpoints, fails and leaves the globals alone |
| UsbHost.SelectionFromInitial | usb-host/main.cpp:54-133 | from the initial globals, selection succeeds iff a bulk IN endpoint (not at 0xff) and a bulk OUT endpoint exist, and records the first of each |
| UsbHost.SelectsHalDeviceEndpoints | usb-host/main.cpp:54-133 | against the HAL device's table, selection finds IN 0x81 and OUT 0x01, both of 512 bytes |
| UsbHost.MbedDeviceNotSelected | usb-host/main.cpp:54-133 | the mbed device's configuration is never selected |
| UsbHost.OpenDevice | usb-host/main.cpp:139-153 | the first device whose ids both match is chosen, later matches are ignored, and none is chosen iff no device matches |
| UsbHost.HostLooksForBothDevices | usb-host/main.cpp:384 | the host looks for the ids both devices declare |
| UsbHost.ControlOutSetup | usb-host/main.cpp:215-236 | a vendor host-to-device request to the device |
| UsbHost.ControlOutData | usb-host/main.cpp:215-236 | the payload length is the request's wLength |
| UsbHost.ControlOutAcceptedByHal | usb-host/main.cpp:215-236 | the HAL device arms a receive of the whole payload and accepts it |
| UsbHost.ControlInSetup | usb-host/main.cpp:238-256 | a vendor device-to-host request to the device |
| UsbHost.ControlInGetsWholeReply | usb-host/main.cpp:238-256 | both devices answer the 16-byte read with all 13 bytes of "send request" |
| UsbHost.BulkTransferIn | usb-host/main.cpp:258-292 | success iff no error and exactly 512 bytes; a match iff the first max-packet-size bytes count up from 1 |
| UsbHost.HalBulkPayloadMatches | usb-host/main.cpp:276-289 | the HAL device's EP1 payload passes the host's check |
| UsbHost.BulkOutPayload | usb-host/main.cpp:322-323 | byte i of the OUT payload is (i + 2) mod 256 |
| UsbHost.BulkTransferOut | usb-host/main.cpp:318-344 | success iff no error and the whole 512-byte payload went out |
| UsbHost.BulkOutFitsDeviceReceive | usb-host/main.cpp:318-344 | the OUT payload is exactly the receive the device arms on configuration |

## Left out

- Peripheral, clock, FIFO-sizing, NVIC, GPIO, LED and button set-up are hardware configuration with no behaviour to state. The DMA target registers and the CT bit are kept only as abstract state.
- Threads, the event queue, thread flags, the LED dwell timer and the `spi_rx` wait loop are concurrency plumbing. Each callback is modelled as one atomic step, and a posted `toggle_dma` as a counter of pending toggles.
- `peek_full_buffer` is left out. It dequeues with `try_get` without freeing the mail slot, so it has no faithful "peek" meaning.
- `print_buffer`, `print_tx_buffer` and every `printf` are formatted output only.
- The command-line front ends and the version strings are text parsing and preprocessor glue.
- The libusb device list and transfer results are parameters.
- Descriptors.Walk and Descriptors.Parse stand in for `libusb_get_config_descriptor` and differ from libusb's parser:
  - every interface descriptor counts as an alternate setting, where libusb groups them by bInterfaceNumber;
  - a record that runs past wTotalLength is rejected, where libusb only warns and truncates;
  - UsbHost's endpoint list gathers the endpoints of all interfaces;
  - class-specific descriptors between an interface and its endpoints are not skipped as libusb skips them.
- `libusb_open` and `libusb_get_device_descriptor` errors are not modelled: the matching loop still compares the descriptor after a failed read, and the values in it are unknown.
- Interface claiming, the configuration-value check, repeated bulk reads, the throughput calculation (floating point) and the Python host are left out.
- The mbed `USBDevice` base class is not part of this model: `complete_request`, `endpoint_add` and chapter 9 handling. Only the decisions the callbacks make are modelled, and `endpoint_add`'s result is taken to succeed.
- The `usb-device/main.cpp` driver loops are not modelled.
- The constants of the STM32 and mbed headers (64-byte EP0 packets, 512-byte high-speed packets, bulk type 2, `C_RESERVED`, `C_POWER`, `E_BULK`) are taken as the values those headers are known to define. Those headers are not part of this model.
- The `configuration_attributes_self_powered` constant (0x60) is declared but never used. It is recorded only as a constant.
- `start_circular_dma` and `stop_circular_dma` are assumed to return HAL_OK.
- The buffer pool size `number_of` is taken as a parameter N; `usb-device/buffers.h` does not show it.
- SpiMaster.TxComplete: the `unsigned long` buffer count is unbounded here. It never exceeds max(target, 1), so wrap-around cannot occur.
- UsbHost.BulkTransferIn: requires a maximum packet size of at most 512. A larger one makes `std::equal` read past the 512-byte buffer, which has no meaning to model.
- UsbHost.GetEndpointAddresses: libusb hands over exactly bNumEndpoints endpoint descriptors. A configuration listing fewer is treated as a failure, so its contract speaks of the count checks and leaves the searches to UsbHost.SelectionFromInitial.
- MbedDevice.XferDone: it passes `!aborted` on to the base class's `complete_request_xfer_done`, which is not part of this model, so the only thing to state is that pass-through.
- UsbHalProperties.InStageFollowsTransmits: only the data-in callback's reaction to each transmit is stated; the order in which the driver raises the callbacks is hardware behaviour.

## Findings

| source | as written | input that shows it | evidently intended | confidence | as-written member | corrected member |
|---|---|---|---|---|---|---|
| usb-device/spi-rx.cpp:164-166, 169 | `rotate_word` computes `word << shift \| word >> (32 - shift)`, and `possible_rx_patterns_init` calls it with shift 0, so the right shift is by 32, which is undefined behaviour in C++ | shift = 0, any word | rotation by 0 is the word itself, so table entry 0 is the expected word | high; not executed | RxPattern.RotateWordAsWritten (RxPattern.RotateWordUndefinedAtZero) | RxPattern.RotateLeft (RxPattern.RotateByZero, RxPattern.PatternsInit) |
| usb-device/evk-usb-device.cpp:31-72; usb-device/evk-usb-device.h:51 | the configuration descriptor array is 32 bytes with wTotalLength 32, but only 25 bytes are filled; the remaining 7 zero bytes form a descriptor of bLength 0 | any resolved endpoint; the host's walk of the 32 bytes reaches byte 25, whose bLength is 0 | wTotalLength 25, the bytes actually filled | high; not executed | MbedDevice.ConfigurationDescAsWritten (MbedDevice.AsWrittenDoesNotParse) | MbedDevice.ConfigurationDesc (MbedDevice.ConfigurationDescParses) |
| usb-device/spi-rx.cpp:100-101, 168-172 | the comment says the characters arrive at an unknown bit offset, but the table holds the 32 rotations of the little-endian word; with MSB-first byte frames read back little-endian, a word read at a bit offset need not be a rotation, and offset 2, for example, yields none | bit offset 2: the bytes received are CD C1 A4 81, the word 0x81a4c1cd, which is no rotation of 0x20697073 | recognise the word at every bit offset, by tabulating the 32 words the stream can give | high; not executed | RxPattern.StreamWord (RxPattern.OffsetTwoNotRecognised) | RxPattern.StreamPatterns (RxPattern.StreamPatternsIffRead, RxPattern.StreamRecognisedAtAnyOffset) |
