# liblifx protocol engine in Dafny

A model of the core of liblifx, a C client for the LIFX LAN protocol, with
proofs about it. The model covers four parts:

- **The wire format** (`wire.dfy`, `protocol.dfy`):
  - the 36-byte little-endian header, made of an 8-byte frame, a 16-byte frame address and a 12-byte protocol section;
  - the payloads the library receives (StateService, StateHostFirmware, StateVersion, StateLabel, LightState, StateLightPower);
  - the two commands it sends (SetColor, SetLightPower);
  - the message-type codes;
  - the `LE16`/`LE` byte-swap macros.
- **The device registry** (`registry.dfy`): at most 16 records keyed by a 6-byte MAC. Records are appended in discovery order and never evicted. The table is the sequence of in-use slots, and a device handle is a slot index (`None` for a NULL pointer).
- **The protocol engine** (`engine.dfy`, `dispatch.dfy`):
  - sending a packet, discovery and polling;
  - `lifx_handle_incoming_packet` as a pure function from (state, datagram, time) to (new state, datagrams sent).

  `State` holds the library's globals: the table, the session source value and the time of the last discovery broadcast. `dispatch.dfy` states what each kind of datagram does: what is dropped, which fields each response overwrites, which queries go out, that replaying a datagram is harmless, and that only a UDP announcement adds a record.
- **The device API** (`units.dfy`, `products.dfy`, `control.dfy`, `session.dfy`):
  - the unit conversions between wire values and degrees and fractions;
  - the sentinel-returning getters;
  - `lifx_set_light_color` and `lifx_set_light_powered`;
  - `lifx_product_is_light`, with the product catalog as a parameter;
  - a session model that runs, after lifx_init, any interleaving of received datagrams and the API calls that send (discovery, the polls, the two light commands).

Integers are modelled as follows:

- Wire integers are `int` newtypes of the right width. The C conversions the code relies on are written out explicitly: `uint32_t` to `int`, `uint16_t` to `short`, truncation of `double` to an integer, and `%` on a negative `int`.
- `double` arithmetic is modelled with exact reals.
- The clock is the `now` parameter of each call. The random session source is a parameter of `Init`.

Where the code and its documentation disagree, the model follows the code:

- `lifx_set_light_color` truncates hue, saturation and brightness toward zero. The code does not round them. For example, 0.5 becomes 32767 (`Units.HalfFractionTruncates`).
- `first_update` is restamped by every service announcement, although the record's field comment calls it the time of the first packet.
- A 92-byte payload is not copied into the outbound packet but still counts in the size field. `Engine.SendPacket` sends whatever bytes the buffer held (see Findings).
- The reserved byte of SetColor is never written, so `lifx_set_light_color` sends whatever byte the stack held there (see Findings).
- The getters return NULL for the label of a device that is not in use, not an empty string.

## Model

| member | source | states |
|---|---|---|
| Wire.U16 | lifx_protocol.h:71-73 | a 16-bit field is two bytes, low byte first, and reads back as itself |
| Wire.U32 | lifx_protocol.h:85 | a 32-bit field is four bytes, low byte first, and reads back as itself |
| Wire.U64 | lifx_protocol.h:130-132 | a 64-bit field is eight bytes, low byte first, and reads back as itself |
| Wire.U16Onto | lifx_protocol.h:73 | every two bytes are the encoding of the value they read as |
| Wire.U32Onto | lifx_protocol.h:85 | every four bytes are the encoding of the value they read as |
| Wire.Le16 | lifx_internal.h:6-10 | `LE16` stored in host memory gives the little-endian bytes; it is the identity on little-endian builds |
| Wire.Le32 | lifx_internal.h:6-12 | `LE` stored in host memory gives the little-endian bytes; it is the identity on little-endian builds |
| Wire.LeInvolutions | lifx_internal.h:6-12 | applying `LE16` or `LE` twice gives the value back |
| Wire.Swap16 | lifx_internal.h:7 | `LE16` on a big-endian build swaps the two bytes of the value |
| Wire.Swap32ReversesBytes | lifx_internal.h:8 | the shift-and-mask expression of `LE` reverses the four bytes of the value |
| Wire.Signed32 | lifx.c:263-268 | a `uint32_t` returned as `int` is the two's-complement value of the same bits |
| Wire.Signed16 | lifx_internal.h:38 | a 16-bit wire kelvin stored in a `short` is the two's-complement value of the same bits |
| Wire.Signed16Unsigned16 | lifx.c:311 | a `short` kelvin survives the round trip through the `uint16_t` wire field |
| Protocol.ResponseTo | lifx_protocol.h:20-69 | the query/response pairs 2→3, 14→15, 23→25, 32→33, 101→107, 116→118 and no others, each response having a fixed payload size |
| Protocol.EncodeHeader | lifx_protocol.h:71-120 | the header is 8+16+12 = 36 bytes; size at 0; protocol, addressable, tagged, origin in bits 0-11, 12, 13, 14-15 of the word at 2; source at 4; target at 8-15; flag bits at 22; sequence at 23; type at 32; reserved bytes zero |
| Protocol.DecodeHeader | lifx.c:139-170 | the dispatcher reads size at offset 0, source at 4, target at 8-15 and type at 32; EncodeHeader is its inverse |
| Protocol.HeaderRoundTrip | lifx_protocol.h:114-120 | decoding an encoded header gives the header back |
| Protocol.HeaderBytesRoundTrip | lifx_protocol.h:71-120 | any 36 bytes whose reserved bits are zero are the encoding of the header they decode to |
| Protocol.DecodeHeaderPrefix | lifx.c:139 | the header is read from the first 36 bytes alone, whatever follows |
| Protocol.DecodeBody | lifx_protocol.h:124-169 | a known type with a payload of the wrong size is rejected, an unknown type is unhandled, and otherwise a message of that type is read (its field offsets are stated by Protocol.BodyRoundTrip) |
| Protocol.PayloadSize | lifx_protocol.h:124-169 | exactly the six received message types have a fixed payload size, each below 92 bytes |
| Protocol.EncodeBody | lifx_protocol.h:124-169 | every received message has its fixed payload size (5, 20, 12, 32, 52, 2) |
| Protocol.BodyRoundTrip | lifx_protocol.h:124-169 | decoding the encoding of any received message gives it back, so DecodeBody reads every field from the offset EncodeBody writes it to |
| Protocol.EncodeCommand | lifx_protocol.h:171-185 | SetColor is 13 bytes (reserved byte, hue, saturation, brightness, kelvin, time); SetLightPower is 6 bytes (level, time) |
| Protocol.DecodeCommand | lifx_protocol.h:171-185 | a command is read back exactly when its type and size match |
| Protocol.CommandRoundTrip | lifx_protocol.h:171-185 | every command the library sends reads back as itself |
| Units.HueDegrees | lifx.c:218 | a wire hue becomes degrees in [0, 360) |
| Units.Fraction | lifx.c:216-217 | a wire saturation or brightness becomes a fraction in [0, 1]: 0 exactly at 0 and 1 exactly at 0xFFFF |
| Units.Trunc | lifx.c:308-310 | C's conversion of `double` to integer truncates toward zero |
| Units.CRemTurn | lifx.c:308 | C's `% 0x10000` keeps the sign of the dividend and agrees with the mathematical remainder modulo 65536 |
| Units.HueWire | lifx.c:308 | the hue sent is the scaled, truncated hue modulo 65536, negative hues included |
| Units.FractionWire | lifx.c:309-310 | saturation and brightness are scaled by 0xFFFF and truncated |
| Units.HueWireOfDegrees | lifx.c:303-315 | a hue read from a light converts back to the same wire value |
| Units.HueQuantisation | lifx.c:308 | a hue in [0, 360) comes back from the wire at most one step (360/65536 degree) lower |
| Units.HueWireWraps | lifx.c:308 | a non-negative hue and the same hue one full turn larger send the same wire value |
| Units.NegativeHueWrapIsOffByOne | lifx.c:308 | because C truncates toward zero, -0.5 degrees is sent as 65445 but 359.5 degrees as 65444 |
| Units.FractionWireOfFraction | lifx.c:309-310 | a fraction read from a light converts back to the same wire value |
| Units.FractionQuantisation | lifx.c:309-310 | a fraction in [0, 1] comes back from the wire at most one step (1/65535) lower |
| Units.HalfTurn | lifx.c:308 | 180 degrees is wire value 0x8000 and reads back as 180 |
| Units.HalfFractionTruncates | lifx.c:309 | 0.5 is sent as 32767 and so reads back below one half |
| Units.PowerLevel | lifx.c:338 | on is sent as 0xFFFF and off as 0, and the level reads as powered exactly when on was asked for |
| Products.IsLightFrom | lifx.c:360-364 | the scan answers whether the first catalog entry with the id is not a relay |
| Products.ProductIsLight | lifx.c:358-366 | the first catalog entry with the id decides; an unknown id is not a light |
| Registry.NewDevice | lifx.c:38-43 | a created record is zeroed except for its MAC: address, port, service, vendor, product, firmware, latency, times, light fields and kind are all zero, and the label is 32 zero bytes followed by a zero terminator |
| Registry.FindFrom | lifx.c:33-37 | the scan returns the first slot with the MAC, or none if no slot has it |
| Registry.FindIndex | lifx.c:33-37 | the scan finds a slot with the MAC exactly when one exists |
| Registry.FindIndexUnique | lifx.c:33-37 | with unique MACs, the scan finds a record's own slot |
| Registry.FindOrCreate | lifx.c:31-47 | an existing MAC is returned whatever `create` is; a new MAC is appended only with `create` and room, otherwise NULL and nothing changes; the table stays valid |
| Registry.GetDevice | lifx.c:49-52 | lookup by MAC never creates, and finds a device exactly when its MAC is in the table |
| Registry.DeviceCount | lifx.c:69-72 | the count is at most 16 and is the number of indices that yield a device |
| Registry.DeviceFromNumAsWritten | lifx.c:54-62 | as written, a negative index reads outside the table; otherwise slot `num` is returned exactly for in-use slots |
| Registry.NegativeIndexReadsOutsideTable | lifx.c:56-59 | index -1 reads before the first slot |
| Registry.DeviceFromNum | lifx.c:54-62 | with the lower bound checked, a handle is returned exactly for 0 <= num < count |
| Registry.ApplyCallsKeepsValid | lifx.c:31-47 | over any sequence of lookups: at most one record per MAC, at most 16 records, appends only, and every appended MAC was asked for with `create` |
| Registry.CreatedMacStays | lifx.c:31-47 | a MAC in the table stays there whatever lookups follow |
| Engine.Init | lifx.c:74-87 | initialisation empties the table and takes the session source |
| Engine.RequestHeader | lifx.c:94-111 | the header of every request: size 36 + payload, protocol 1024, addressable, origin 0, the source, response requested, no ack, sequence 0, the type; tagged exactly when there is no target, otherwise the target MAC |
| Engine.PacketAsWritten | lifx.c:94-104 | the header is followed by the payload only when 0 < size < 92; a 92-byte payload leaves stale buffer bytes behind a size field that counts them |
| Engine.FullPayloadNotCopied | lifx.c:102 | a 92-byte payload is sent as a 128-byte packet whose body is not the payload |
| Engine.Packet | lifx.c:94-104 | with the bound corrected to `<= 92`, every payload that fits is sent behind its header; this agrees with the code for every size below 92 |
| Engine.SendPacket | lifx.c:89-114 | one datagram with the request header, carrying the payload below 92 bytes and the stale buffer bytes at 92; tagged and sent to 255.255.255.255:56700 exactly when there is no target; otherwise sent to the device's MAC, address and port, with its last-send time stamped |
| Engine.DiscoverDevices | lifx.c:116-120 | discovery stamps the discovery time and broadcasts one GetService |
| Engine.PollSystem | lifx.c:122-129 | GetVersion then GetHostFirmware, unicast to the device, or broadcast for NULL |
| Engine.PollLight | lifx.c:131-134 | one GetColor, unicast to the device, or broadcast for NULL |
| Engine.Latency | lifx.c:161 | the latency is the 64-bit time difference stored in an `int`: for every input, the `int` congruent to the difference modulo 2^32; it is the plain difference when that fits |
| Engine.Announce | lifx.c:144-164 | an announcement keeps the registry valid and only extends it |
| Engine.Refresh | lifx.c:173-177 | refreshing last update, address and port keeps the registry valid |
| Engine.Respond | lifx.c:179-228 | a response changes only the sender's record, and keeps its MAC |
| Engine.HandleIncoming | lifx.c:136-229 | handling any datagram keeps the registry valid (unique MACs, at most 16, labels terminated), keeps every record's MAC in its slot, adds at most one record, and leaves the session source alone |
| Dispatch.MalformedFrameDropped | lifx.c:140-142 | a datagram shorter than a header, or whose length differs from its size field, changes nothing and sends nothing |
| Dispatch.AnnouncementIgnored | lifx.c:145-151 | a StateService whose payload is not 5 bytes or whose service is not 1 changes nothing |
| Dispatch.AnnouncementFromKnownDevice | lifx.c:152-164 | an announcement from a known device, whatever its source, sets address from the sender, port from the payload, service, first and last update, last send and latency; changes no other record; sends GetVersion then GetHostFirmware to it |
| Dispatch.AnnouncementFromNewDevice | lifx.c:152-164 | an announcement from an unknown device with room appends its zeroed, stamped record and polls it; nothing in the table changes |
| Dispatch.AnnouncementTableFull | lifx.c:153-155 | an announcement from an unknown device when 16 records exist is dropped |
| Dispatch.ForeignSourceDropped | lifx.c:166-168 | any other message with a foreign source is dropped |
| Dispatch.UnknownSenderDropped | lifx.c:169-172 | any other message from an unknown MAC is dropped and creates no record |
| Dispatch.AcceptedPacketRefreshes | lifx.c:173-228 | an accepted message refreshes last update, address and port from the datagram before its size is checked; with an unknown type or wrong size that is all it does |
| Dispatch.FirmwareResponse | lifx.c:173-188 | StateHostFirmware refreshes the record, then sets build, major (offset 18) and minor (offset 16); nothing else changes and nothing is sent |
| Dispatch.VersionResponse | lifx.c:173-201 | StateVersion refreshes the record, then sets vendor, product and light-ness from the catalog; it sends exactly one query, GetColor to a light and GetLabel otherwise, stamping its last send; nothing else changes |
| Dispatch.LabelResponse | lifx.c:173-208 | StateLabel refreshes the record, then replaces the 32-byte label; nothing else changes and nothing is sent |
| Dispatch.LightStateResponse | lifx.c:173-220 | LightState refreshes the record, then stores kelvin and power verbatim, hue in [0, 360), saturation and brightness in [0, 1], and the label; nothing else changes and nothing is sent |
| Dispatch.LightPowerResponse | lifx.c:173-227 | StateLightPower refreshes the record, then stores the level; nothing else changes and nothing is sent |
| Dispatch.LightStateReplayTouchesOnlyLastUpdate | lifx.c:209-220 | re-applying a LightState changes only the record's last update time |
| Dispatch.ReplayTakesLatestTime | lifx.c:136-229 | a datagram handled at t1 and again at t2 ends as if handled once at t2, with the same datagrams sent |
| Dispatch.HandleIdempotent | lifx.c:136-229 | handling the same datagram twice at the same time is the same as handling it once |
| Dispatch.OnlyAnnouncementsCreate | lifx.c:144-172 | only a UDP announcement from a MAC not yet in the table adds a record, and the record carries that MAC |
| Dispatch.QueriesAreAnswered | lifx.c:116-134 | every query the library sends (GetService, GetVersion, GetHostFirmware, GetColor, GetLabel) has a reply type that, at its expected size, decodes to a message of that type |
| Control.DeviceLatency | lifx.c:235-240 | the latency, or -1 when not in use; -1 is also a possible latency |
| Control.UntilNul | lifx_internal.h:55-56 | a C string is the prefix of its buffer before the first zero byte |
| Control.DeviceLabel | lifx.c:242-247 | NULL exactly when not in use; otherwise a zero-free prefix of the label, at most 32 bytes, ending at a zero byte or at the terminator |
| Control.DeviceMac | lifx.c:249-254 | NULL exactly when not in use; otherwise the six bytes by which the device is found again |
| Control.DeviceIpv4 | lifx.c:256-261 | the address, or 0xFFFFFFFF when not in use; the two cases collide for a device at 255.255.255.255 |
| Control.DeviceProduct | lifx.c:263-268 | the product as an `int`, or -1 when not in use; the two cases collide for product 0xFFFFFFFF |
| Control.FirmwareMajor | lifx.c:270-275 | non-negative exactly when in use, and then the major version |
| Control.FirmwareMinor | lifx.c:277-282 | non-negative exactly when in use, and then the minor version |
| Control.GetLightColor | lifx.c:288-301 | a colour exactly for an in-use light: its hue, saturation, brightness, and kelvin as a `short` |
| Control.GetLightPower | lifx.c:317-324 | a level exactly for an in-use light |
| Control.IsLightPowered | lifx.c:326-331 | true exactly for an in-use light whose level is 0xFFFF |
| Control.ColorCommandOf | lifx.c:305-312 | the command carries the wrapped hue, the truncated saturation and brightness (0 for a negative fraction), the kelvin bits and the time |
| Control.SetColorPayload | lifx.c:305-312 | the SetColor payload as built: the stack's reserved byte, then the encoded fields; it equals the protocol encoding exactly when that byte is 0, and a device still reads the command |
| Control.SetLightColor | lifx.c:303-315 | as written: one unicast SetColor to an in-use light, whose first payload byte is the uninitialised reserved byte, with its last-send time stamped; otherwise no change and nothing is sent, whatever the colour arguments |
| Control.UninitialisedReservedByteSent | lifx.c:305 | with a non-zero stack byte the datagram is not the protocol's SetColor encoding |
| Control.SetLightColorZeroed | lifx.c:303-315 | with `set_color` zero-initialised, the datagram carries exactly the SetColor encoding, which a device reads back as the command; a NULL, unused or non-light handle changes nothing, whatever the colour arguments |
| Control.SetLightPowered | lifx.c:333-342 | one unicast SetLightPower with level 0xFFFF or 0 to an in-use light; otherwise no change and nothing sent |
| Session.Apply | include/lifx.h:26-62 | a received datagram or any sending API call keeps the registry valid, and only the dispatcher adds records |
| Session.ApplyPoll | lifx.c:116-134 | discovery and the polls add no record, remove none and keep every MAC |
| Session.ApplySet | lifx.c:303-342 | the two light commands add no record, remove none and keep every MAC |
| Session.Run | lifx.c:14-17 | over any run of calls and datagrams: the registry stays valid, records keep their slot and MAC, the table never shrinks and the session source never changes |
| Session.RunOnlyAnnouncedDevicesAppear | lifx.c:144-164 | every record a run adds carries the MAC of a UDP announcement received during the run |
| Session.DeviceStaysReachable | lifx.c:31-52 | a device stays reachable by its MAC, in its slot, whatever happens afterwards |
| Session.LatencyAfterAnnouncement | lifx.c:153-161 | after an announcement from a known device, or from a new one while there is room, the latency getter reports the time since discovery |
| Session.FirmwareAfterResponse | lifx.c:185-187 | after StateHostFirmware the firmware getters report its major and minor versions |
| Session.ProductAfterVersion | lifx.c:194-196 | after StateVersion the product getter reports the product, and the colour getter answers exactly for catalog lights |
| Session.LabelAfterResponse | lifx.c:207 | after StateLabel the label getter reports the label up to its first zero byte |
| Session.ColorAfterLightState | lifx.c:214-218 | after LightState the colour getter reports the converted colour, and the light reads as powered exactly at 0xFFFF |
| Session.PowerAfterResponse | lifx.c:226 | after StateLightPower the power getter reports the level, and the light reads as powered exactly at 0xFFFF |
| Session.SetColorReadsBack | lifx.c:308-311 | a colour in range, sent and reported back, reads back at most one wire step lower, with the same kelvin |
| Session.SetPoweredReadsBack | lifx.c:338 | a light reporting the level that was set reads as powered exactly when on was set |

## Left out

- Wall-clock time is the `now` parameter: `gettimeofday` in lifx.c:24-29 is not modelled. Inside one API call the model uses one clock reading, while the C code reads the clock again inside each send to stamp the last-send time.
- `srand`/`rand` in lifx_init is not modelled: the session source is a parameter of `Engine.Init`.
- The transport callback is replaced by the list of datagrams each call returns.
- The device-update callback is stored but never invoked, so it is not modelled.
- `lifx_init` is modelled as `Engine.Init`, which starts a session. Calling it again in mid-session is not a `Session.Event`. It would empty the table, and `Session.Run`'s promise that the table never shrinks holds only between initialisations.
- The getters are pure reads of the state and are not `Session.Event`s. The read-back lemmas apply them to the state after an event.
- The generated product catalog is not part of this model; it is a parameter holding (id, relays) pairs. `lifx_get_product_name` is not modelled.
- `lifx_get_devices`, which hands out the raw table, is not modelled. `lifx_discover_device` is declared in include/lifx.h but never defined.
- IEEE `double` rounding is not modelled: conversions use exact reals.
- Engine.PacketAsWritten: payloads over 92 bytes are not modelled. Their send reads past the 128-byte buffer, and the library never sends more than 13 payload bytes.
- Engine.SendPacket: requires the payload to be at most 92 bytes, for the same reason. The stale buffer bytes are a parameter: the model does not say what the stack held.
- Control.SetLightColor: the uninitialised reserved byte is a parameter. The model does not say what the stack held.
- Control.SetLightColor: for an in-use light, requires the scaled hue to fit an `int` and saturation and brightness to convert to `uint16_t`; outside that range C's conversions are undefined. Other handles return before converting and take any arguments. `Session.Run` asks the same of each colour call in the state it is made in.
- Engine.Latency: relies on the usual two's-complement conversion of a 64-bit difference to `int`, which C leaves implementation-defined.
- The big-endian bitfield order of the header structs is not modelled. The codec is the little-endian wire layout; only the `LE16`/`LE` macros are modelled for big-endian builds.
- The group and location sections of a record are never written by the library, so they are not modelled. The `in_use` flag is implicit: a slot is in use exactly when it lies within the table.
- Reserved payload bytes of received messages are ignored, as in the code. The header's protocol, addressable and origin fields are not checked on receipt, also as in the code.

## Findings

| source | as written | input that shows it | evidently intended | confidence | as-written member | corrected member |
|---|---|---|---|---|---|---|
| lifx.c:102 | the payload is copied only when `extra_size < LIFX_MAX_PACKET_SIZE - sizeof(lifx_header_t)`, i.e. below 92, while the size field is always 36 + `extra_size` | a 92-byte payload: the packet says 128 bytes, but its body is whatever the stack buffer held | copy every payload that fits, `extra_size <= 92` | not executed | Engine.FullPayloadNotCopied | Engine.Packet |
| lifx.c:56-59 | `&devices[num]` is formed and `in_use` is read with only the upper bound checked | `lifx_get_device_from_num(-1)` reads before the start of the table | return NULL for any negative index | not executed | Registry.NegativeIndexReadsOutsideTable | Registry.DeviceFromNum |
| lifx.c:305 | `lifx_set_color_t set_color;` is not initialised, and lines 308-312 assign every field except `reserved` | any call on a light: payload byte 0 (datagram byte 36) is whatever the stack held | zero the struct, so the reserved byte is 0 as the protocol layout has it | not executed | Control.UninitialisedReservedByteSent | Control.SetLightColorZeroed |
