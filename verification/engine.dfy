/**
 The protocol engine of lifx.c: building and sending packets, discovery and
 polling, and the per-packet dispatcher that turns received datagrams into
 registry updates and follow-up queries.

 The library's globals become an explicit `State`; the transport callback
 becomes the list of datagrams a call sends; the clock becomes the `now`
 parameter (one reading per API call) and the random session source a
 parameter of `Init`.
 */
module Engine {
  import opened Maybe
  import opened Wire
  import opened Protocol
  import opened Units
  import opened Products
  import opened Registry

  /** `LIFX_BROADCAST_IPV4` (255.255.255.255) */
  const BroadcastIpv4: u32 := 0xFFFF_FFFF
  /** `LIFX_BROADCAST_PORT` */
  const BroadcastPort: u16 := 56700

  /** The library's globals: the device table, the session source value and
      the time of the last discovery broadcast. */
  datatype State = State(devices: seq<Device>, source: u32, lastDiscover: u64)

  /** A UDP datagram with the remote IPv4 address and port, in host order. */
  datatype Datagram = Datagram(bytes: Bytes, ipv4: u32, port: u16)

  /** The outcome of one call: the new state and the datagrams it sent, in order. */
  datatype Step = Step(state: State, sent: seq<Datagram>)

  ghost predicate Invariant(s: State)
  {
    Registry.Valid(s.devices)
  }

  /** `after` keeps every record of `before` in its slot, with the same MAC,
      and adds at most one. */
  ghost predicate Extends(before: seq<Device>, after: seq<Device>)
  {
    && |before| <= |after| <= |before| + 1
    && forall j | 0 <= j < |before| :: after[j].mac == before[j].mac
  }

  /** lifx_init: an empty table and a fresh session source; the time of the
      last discovery is not reset. */
  function Init(source: u32, lastDiscover: u64): (s: State)
    ensures Invariant(s) && |s.devices| == 0
    ensures s.source == source
  {
    State([], source, lastDiscover)
  }

  // --- outbound packets ---

  /** The header lifx_send_packet writes over a zeroed header: the size of
      header plus payload, protocol 1024, addressable, the session source,
      a response requested, the message type; the target MAC when there is a
      target device, and the tagged bit when there is not. */
  function RequestHeader(source: u32, target: Option<Bytes>, msgType: u16, payloadSize: nat): (h: Header)
    requires payloadSize <= MaxPayload
    requires target.Some? ==> |target.value| == MacSize
    ensures WellFormed(h)
    ensures h.size as int == HeaderSize + payloadSize && h.msgType == msgType && h.source == source
    ensures h.protocol == ProtocolNumber && h.addressable && h.origin == 0
    ensures h.resRequired && !h.ackRequired && h.sequence == 0
    ensures h.tagged <==> target.None?
    ensures target.Some? ==> h.target[..MacSize] == target.value
    ensures target.None? ==> h.target == Zeros(8)
  {
    Header(
      size := (HeaderSize + payloadSize) as u16,
      protocol := ProtocolNumber,
      addressable := true,
      tagged := target.None?,
      origin := 0,
      source := source,
      target := if target.Some? then target.value + Zeros(2) else Zeros(8),
      resRequired := true,
      ackRequired := false,
      sequence := 0,
      msgType := msgType)
  }

  /** The bytes lifx_send_packet hands to the transport, as written: the
      payload is copied behind the header only when `0 < size < 92`;
      otherwise the bytes after the header are whatever the 128-byte buffer
      held before (`stale`). Sizes above 92 read past that buffer and are
      not modelled. */
  function PacketAsWritten(h: Header, payload: Bytes, stale: Bytes): (r: Bytes)
    requires WellFormed(h) && |payload| <= MaxPayload && |stale| == |payload|
    ensures |r| == HeaderSize + |payload| <= MaxPacketSize
    ensures DecodeHeader(r) == h
    ensures 0 < |payload| < MaxPayload ==> r[HeaderSize..] == payload
    ensures |payload| == MaxPayload ==> r[HeaderSize..] == stale
  {
    var r := EncodeHeader(h) + (if 0 < |payload| < MaxPayload then payload else stale);
    HeaderRoundTrip(h);
    DecodeHeaderPrefix(EncodeHeader(h), if 0 < |payload| < MaxPayload then payload else stale);
    r
  }

  /** A payload that exactly fills the buffer (92 bytes) is not copied, yet
      the packet is still sent with its size field saying 128 bytes. */
  lemma FullPayloadNotCopied()
    ensures var payload, stale := seq(MaxPayload, _ => 1 as byte), Zeros(MaxPayload);
      var h := RequestHeader(0, None, SetColor, MaxPayload);
      var r := PacketAsWritten(h, payload, stale);
      && h.size as int == |r| == MaxPacketSize
      && r[HeaderSize..] != payload
  {
    var payload, stale := seq(MaxPayload, _ => 1 as byte), Zeros(MaxPayload);
    var r := PacketAsWritten(RequestHeader(0, None, SetColor, MaxPayload), payload, stale);
    assert r[HeaderSize..][0] == 0 != payload[0];
  }

  /** The bytes of an outbound packet with the copy bound corrected to
      `size <= 92`: every payload that fits the buffer is sent. */
  function Packet(h: Header, payload: Bytes): (r: Bytes)
    requires WellFormed(h) && |payload| <= MaxPayload
    ensures |r| == HeaderSize + |payload| <= MaxPacketSize
    ensures DecodeHeader(r) == h
    ensures r[HeaderSize..] == payload
    ensures |payload| < MaxPayload ==> forall stale | |stale| == |payload| ::
      (0 < |payload| || stale == payload) ==> r == PacketAsWritten(h, payload, stale)
  {
    HeaderRoundTrip(h);
    DecodeHeaderPrefix(EncodeHeader(h), payload);
    EncodeHeader(h) + payload
  }

  /** The datagram carries a request of this library: a header whose size
      field is the datagram's true length, protocol 1024, addressable, origin
      0, the session source, a response requested and no ack, sequence 0, the
      message type; then the payload. */
  predicate IsRequest(d: Datagram, source: u32, msgType: u16, payload: Bytes)
  {
    && |d.bytes| == HeaderSize + |payload|
    && var h := DecodeHeader(d.bytes);
    && h.size as int == |d.bytes|
    && h.protocol == ProtocolNumber
    && h.addressable
    && h.origin == 0
    && h.source == source
    && h.resRequired && !h.ackRequired
    && h.sequence == 0
    && h.msgType == msgType
    && d.bytes[HeaderSize..] == payload
  }

  /** Tagged, addressed to no device, sent to 255.255.255.255:56700. */
  predicate IsBroadcast(d: Datagram)
  {
    && |d.bytes| >= HeaderSize
    && DecodeHeader(d.bytes).tagged
    && DecodeHeader(d.bytes).target == Zeros(8)
    && d.ipv4 == BroadcastIpv4 && d.port == BroadcastPort
  }

  /** Not tagged, addressed to the device's MAC, sent to its IPv4 and port. */
  predicate IsUnicastTo(d: Datagram, dev: Device)
  {
    && |d.bytes| >= HeaderSize
    && !DecodeHeader(d.bytes).tagged
    && DecodeHeader(d.bytes).target == dev.mac + Zeros(2)
    && d.ipv4 == dev.ipv4 && d.port == dev.port
  }

  /** Replaces record `i`; a well-formed replacement with the same MAC keeps
      the invariant. */
  function Update(s: State, i: nat, dev: Device): (r: State)
    requires i < |s.devices|
    ensures Invariant(s) && dev.mac == s.devices[i].mac && WellFormedDevice(dev) ==> Invariant(r)
    ensures |r.devices| == |s.devices| && r.devices[i] == dev
    ensures forall j | 0 <= j < |s.devices| && j != i :: r.devices[j] == s.devices[j]
    ensures r.source == s.source && r.lastDiscover == s.lastDiscover
  {
    s.(devices := s.devices[i := dev])
  }

  /** lifx_send_packet: one datagram; a unicast to the target device (whose
      last-send time becomes `now`) or a broadcast when there is no target.
      The bytes behind the header are built as written (PacketAsWritten):
      a 92-byte payload is not copied and the datagram carries the `stale`
      bytes the buffer held instead. */
  function SendPacket(s: State, target: Option<nat>, msgType: u16, payload: Bytes, stale: Bytes, now: u64): (r: Step)
    requires Invariant(s)
    requires target.Some? ==> target.value < |s.devices|
    requires |payload| <= MaxPayload && |stale| == |payload|
    ensures |r.sent| == 1
    ensures |payload| < MaxPayload ==> IsRequest(r.sent[0], s.source, msgType, payload)
    ensures |payload| == MaxPayload ==> IsRequest(r.sent[0], s.source, msgType, stale)
    ensures target.None? ==> IsBroadcast(r.sent[0]) && r.state == s
    ensures target.Some? ==>
      && IsUnicastTo(r.sent[0], s.devices[target.value])
      && r.state == Update(s, target.value, s.devices[target.value].(lastSend := now))
    ensures Invariant(r.state)
  {
    match target
    case None =>
      var h := RequestHeader(s.source, None, msgType, |payload|);
      Step(s, [Datagram(PacketAsWritten(h, payload, stale), BroadcastIpv4, BroadcastPort)])
    case Some(i) =>
      var dev := s.devices[i];
      var h := RequestHeader(s.source, Some(dev.mac), msgType, |payload|);
      Step(Update(s, i, dev.(lastSend := now)), [Datagram(PacketAsWritten(h, payload, stale), dev.ipv4, dev.port)])
  }

  /** lifx_discover_devices: records the discovery time and broadcasts
      GetService with no payload. */
  function DiscoverDevices(s: State, now: u64): (r: Step)
    requires Invariant(s)
    ensures r.state == s.(lastDiscover := now)
    ensures |r.sent| == 1 && IsBroadcast(r.sent[0]) && IsRequest(r.sent[0], s.source, GetService, [])
  {
    var r := SendPacket(s.(lastDiscover := now), None, GetService, [], [], now);
    Step(r.state, r.sent)
  }

  /** lifx_poll_system: GetVersion, then GetHostFirmware, to the device; a
      NULL device makes both broadcasts. */
  function PollSystem(s: State, target: Option<nat>, now: u64): (r: Step)
    requires Invariant(s) && (target.Some? ==> target.value < |s.devices|)
    ensures |r.sent| == 2
    ensures IsRequest(r.sent[0], s.source, GetVersion, [])
    ensures IsRequest(r.sent[1], s.source, GetHostFirmware, [])
    ensures target.None? ==> IsBroadcast(r.sent[0]) && IsBroadcast(r.sent[1]) && r.state == s
    ensures target.Some? ==>
      && IsUnicastTo(r.sent[0], s.devices[target.value]) && IsUnicastTo(r.sent[1], s.devices[target.value])
      && r.state == Update(s, target.value, s.devices[target.value].(lastSend := now))
    ensures Invariant(r.state)
  {
    var first := SendPacket(s, target, GetVersion, [], [], now);
    var second := SendPacket(first.state, target, GetHostFirmware, [], [], now);
    Step(second.state, first.sent + second.sent)
  }

  /** lifx_poll_light: GetColor to the device, or broadcast for NULL. */
  function PollLight(s: State, target: Option<nat>, now: u64): (r: Step)
    requires Invariant(s) && (target.Some? ==> target.value < |s.devices|)
    ensures |r.sent| == 1 && IsRequest(r.sent[0], s.source, GetColor, [])
    ensures target.None? ==> IsBroadcast(r.sent[0]) && r.state == s
    ensures target.Some? ==>
      && IsUnicastTo(r.sent[0], s.devices[target.value])
      && r.state == Update(s, target.value, s.devices[target.value].(lastSend := now))
    ensures Invariant(r.state)
  {
    SendPacket(s, target, GetColor, [], [], now)
  }

  // --- inbound packets ---

  /** The datagram holds at least a header, and exactly as many bytes as its
      size field says. */
  predicate FrameFits(b: Bytes)
  {
    |b| >= HeaderSize && ReadU16(b, 0) as int == |b|
  }

  /** The MAC of the device that sent a packet: the first six target bytes. */
  function SenderMac(h: Header): (mac: Bytes)
    requires WellFormed(h)
    ensures |mac| == MacSize
  {
    h.target[..MacSize]
  }

  /** `latency = time_now - last_discover_timestamp`: an unsigned 64-bit
      difference stored in an `int` (its low 32 bits, two's complement).
      The two range clauses together fix the value for every input: a
      difference too large, or negative after the clock stepped back,
      still wraps to its low 32 bits. */
  function Latency(now: u64, discovered: u64): (ms: int)
    ensures -0x8000_0000 <= ms < 0x8000_0000
    ensures discovered <= now && now as int - discovered as int < 0x8000_0000 ==>
      ms == now as int - discovered as int
    ensures ms % 0x1_0000_0000 == (now as int - discovered as int) % 0x1_0000_0000
  {
    var diff := (now as int - discovered as int) % 0x1_0000_0000_0000_0000;
    Signed32((diff % 0x1_0000_0000) as u32)
  }

  /** The fields a UDP announcement writes on the sender's record: the
      address of the datagram, the service, the payload's `uint32_t` port
      stored in the 16-bit field, first and last update, and the latency. */
  function Stamp(dev: Device, ipv4: u32, service: byte, port: u32, lastDiscover: u64, now: u64): Device
  {
    dev.(ipv4 := ipv4, port := Unsigned16(port as int), service := service,
      firstUpdate := now, lastUpdate := now, latency := Latency(now, lastDiscover))
  }

  /** The StateService branch: only an exact-size UDP (service 1) announcement
      finds or creates the record. It then takes its address from the
      sender, its port from the payload (truncated to 16 bits), stamps first
      and last update and the latency, and polls the device. */
  function Announce(s: State, mac: Bytes, body: Body, ipv4: u32, now: u64): (r: Step)
    requires Invariant(s) && |mac| == MacSize
    ensures Invariant(r.state)
    ensures Extends(s.devices, r.state.devices)
    ensures r.state.source == s.source && r.state.lastDiscover == s.lastDiscover
  {
    match body
    case Service(service, port) =>
      if service != 1 then Step(s, [])
      else
        var found := FindOrCreate(s.devices, mac, true);
        (match found.handle
         case None => Step(s, [])
         case Some(i) =>
           var dev := Stamp(found.devices[i], ipv4, service, port, s.lastDiscover, now);
           PollSystem(Update(s.(devices := found.devices), i, dev), Some(i), now))
    case _ => Step(s, [])
  }

  /** The fields every accepted non-announcement packet refreshes on the
      sender's record: last update time, address and port of the datagram. */
  function Touched(dev: Device, ipv4: u32, port: u16, now: u64): Device
  {
    dev.(lastUpdate := now, ipv4 := ipv4, port := port)
  }

  /** Every accepted non-announcement packet refreshes the sender's last
      update time and network address, before its payload is looked at. */
  function Refresh(s: State, i: nat, ipv4: u32, port: u16, now: u64): (r: State)
    requires Invariant(s) && i < |s.devices|
    ensures Invariant(r)
  {
    Update(s, i, Touched(s.devices[i], ipv4, port, now))
  }

  /** The per-type branch for an accepted packet from record `i`. */
  function Respond(s: State, catalog: seq<Product>, i: nat, body: Body, now: u64): (r: Step)
    requires Invariant(s) && i < |s.devices|
    requires Parsed(body) ==> WellFormedBody(body)
    ensures Invariant(r.state)
    ensures |r.state.devices| == |s.devices|
    ensures forall j | 0 <= j < |s.devices| && j != i :: r.state.devices[j] == s.devices[j]
    ensures r.state.devices[i].mac == s.devices[i].mac
    ensures r.state.source == s.source && r.state.lastDiscover == s.lastDiscover
  {
    var dev := s.devices[i];
    match body
    case HostFirmware(build, minor, major) =>
      Step(Update(s, i, dev.(firmware := Firmware(build, major, minor))), [])
    case Version(vendor, product) =>
      var light := ProductIsLight(catalog, Signed32(product));
      var next := Update(s, i, dev.(vendor := vendor, product := product, isLight := light));
      if light then PollLight(next, Some(i), now) else SendPacket(next, Some(i), GetLabel, [], [], now)
    case Label(text) =>
      Step(Update(s, i, dev.(labelText := text)), [])
    case Light(hue, saturation, brightness, kelvin, power, text) =>
      var info := LightInfo(HueDegrees(hue), Fraction(saturation), Fraction(brightness), kelvin, power);
      Step(Update(s, i, dev.(light := info, labelText := text)), [])
    case LightPower(level) =>
      Step(Update(s, i, dev.(light := dev.light.(power := level))), [])
    case _ => Step(s, [])
  }

  /** lifx_handle_incoming_packet. */
  function HandleIncoming(s: State, catalog: seq<Product>, d: Datagram, now: u64): (r: Step)
    requires Invariant(s)
    ensures Invariant(r.state)
    ensures Extends(s.devices, r.state.devices)
    ensures r.state.source == s.source && r.state.lastDiscover == s.lastDiscover
  {
    if !FrameFits(d.bytes) then Step(s, [])
    else
      var h := DecodeHeader(d.bytes);
      var body := DecodeBody(h.msgType, d.bytes[HeaderSize..]);
      if h.msgType == StateService then Announce(s, SenderMac(h), body, d.ipv4, now)
      else if h.source != s.source then Step(s, [])
      else
        match FindIndex(s.devices, SenderMac(h))
        case None => Step(s, [])
        case Some(i) => Respond(Refresh(s, i, d.ipv4, d.port, now), catalog, i, body, now)
  }
}
