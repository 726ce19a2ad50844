/**
 Properties of the per-packet dispatcher (lifx_handle_incoming_packet): which
 datagrams are dropped, what each accepted message changes and sends, that
 replaying a datagram is harmless, and that the registry invariant holds over
 any run of the library.
 */
module Dispatch {
  import opened Maybe
  import opened Wire
  import opened Protocol
  import opened Units
  import opened Products
  import opened Registry
  import opened Engine

  /** The header of a datagram that passed the frame check. */
  function HeaderOf(d: Datagram): (h: Header)
    requires FrameFits(d.bytes)
    ensures WellFormed(h)
  {
    DecodeHeader(d.bytes)
  }

  /** The payload length of a datagram that passed the frame check. */
  function PayloadLength(d: Datagram): nat
    requires FrameFits(d.bytes)
  {
    |d.bytes| - HeaderSize
  }

  /** A datagram shorter than a header, or whose length differs from its
      size field, changes nothing and sends nothing. */
  lemma MalformedFrameDropped(s: State, catalog: seq<Product>, d: Datagram, now: u64)
    requires Invariant(s)
    requires |d.bytes| < HeaderSize || ReadU16(d.bytes, 0) as int != |d.bytes|
    ensures HandleIncoming(s, catalog, d, now) == Step(s, [])
  {
  }

  /** A StateService whose payload is not exactly 5 bytes, or whose service
      is not 1 (UDP), changes nothing and sends nothing. */
  lemma AnnouncementIgnored(s: State, catalog: seq<Product>, d: Datagram, now: u64)
    requires Invariant(s) && FrameFits(d.bytes)
    requires HeaderOf(d).msgType == StateService
    requires PayloadLength(d) != 5 || d.bytes[HeaderSize] != 1
    ensures HandleIncoming(s, catalog, d, now) == Step(s, [])
  {
  }

  /** The fields a UDP StateService sets on the sender's record, the last
      send of the poll that follows included. */
  function Announced(dev: Device, d: Datagram, lastDiscover: u64, now: u64): Device
    requires |d.bytes| == HeaderSize + 5
  {
    Stamp(dev, d.ipv4, 1, ReadU32(d.bytes, HeaderSize + 1), lastDiscover, now).(lastSend := now)
  }

  /** The service and port of a UDP announcement as its payload gives them. */
  lemma AnnouncementBody(d: Datagram)
    requires FrameFits(d.bytes) && HeaderOf(d).msgType == StateService && PayloadLength(d) == 5
    ensures DecodeBody(StateService, d.bytes[HeaderSize..]) ==
      Service(d.bytes[HeaderSize], ReadU32(d.bytes, HeaderSize + 1))
  {
    assert ReadU32(d.bytes[HeaderSize..], 1) == ReadU32(d.bytes, HeaderSize + 1);
  }

  /** A UDP StateService from a device already in slot `i` overwrites that
      record's address (from the datagram), port (from the payload), service,
      first and last update, last send and latency (the time since the last
      discovery), changes no other record, and sends exactly two unicast
      queries to the device: GetVersion, then GetHostFirmware. The session
      source is not checked. */
  lemma AnnouncementFromKnownDevice(s: State, catalog: seq<Product>, d: Datagram, now: u64, i: nat)
    requires Invariant(s) && FrameFits(d.bytes)
    requires HeaderOf(d).msgType == StateService
    requires PayloadLength(d) == 5 && d.bytes[HeaderSize] == 1
    requires i < |s.devices| && s.devices[i].mac == SenderMac(HeaderOf(d))
    ensures var r := HandleIncoming(s, catalog, d, now);
      && r.state == s.(devices := s.devices[i := Announced(s.devices[i], d, s.lastDiscover, now)])
      && |r.sent| == 2
      && IsRequest(r.sent[0], s.source, GetVersion, []) && IsUnicastTo(r.sent[0], r.state.devices[i])
      && IsRequest(r.sent[1], s.source, GetHostFirmware, []) && IsUnicastTo(r.sent[1], r.state.devices[i])
  {
    AnnouncementBody(d);
    FindIndexUnique(s.devices, i);
  }

  /** A UDP StateService from an unknown MAC, with room in the table, appends
      a zeroed record for it and then announces it as above: nothing already
      in the table changes. */
  lemma AnnouncementFromNewDevice(s: State, catalog: seq<Product>, d: Datagram, now: u64)
    requires Invariant(s) && FrameFits(d.bytes)
    requires HeaderOf(d).msgType == StateService
    requires PayloadLength(d) == 5 && d.bytes[HeaderSize] == 1
    requires forall j | 0 <= j < |s.devices| :: s.devices[j].mac != SenderMac(HeaderOf(d))
    requires |s.devices| < MaxDevices
    ensures var r := HandleIncoming(s, catalog, d, now);
      var mac := SenderMac(HeaderOf(d));
      && r.state == s.(devices := s.devices + [Announced(NewDevice(mac), d, s.lastDiscover, now)])
      && |r.sent| == 2
      && IsRequest(r.sent[0], s.source, GetVersion, []) && IsUnicastTo(r.sent[0], r.state.devices[|s.devices|])
      && IsRequest(r.sent[1], s.source, GetHostFirmware, []) && IsUnicastTo(r.sent[1], r.state.devices[|s.devices|])
  {
    AnnouncementBody(d);
    var mac := SenderMac(HeaderOf(d));
    var body := DecodeBody(StateService, d.bytes[HeaderSize..]);
    AnnounceNew(s, mac, body, d.ipv4, now);
    var st := Stamp(NewDevice(mac), d.ipv4, body.service, body.port, s.lastDiscover, now);
    assert st.(lastSend := now) == Announced(NewDevice(mac), d, s.lastDiscover, now);
    var grown := s.devices + [NewDevice(mac)];
    assert grown[|s.devices| := st][|s.devices| := st.(lastSend := now)]
      == s.devices + [Announced(NewDevice(mac), d, s.lastDiscover, now)];
  }

  /** A UDP StateService from an unknown MAC when all 16 slots are taken is
      dropped. */
  lemma AnnouncementTableFull(s: State, catalog: seq<Product>, d: Datagram, now: u64)
    requires Invariant(s) && FrameFits(d.bytes)
    requires HeaderOf(d).msgType == StateService
    requires PayloadLength(d) == 5 && d.bytes[HeaderSize] == 1
    requires forall j | 0 <= j < |s.devices| :: s.devices[j].mac != SenderMac(HeaderOf(d))
    requires |s.devices| == MaxDevices
    ensures HandleIncoming(s, catalog, d, now) == Step(s, [])
  {
    AnnouncementBody(d);
  }

  /** A non-announcement whose source is not the session's is dropped. */
  lemma ForeignSourceDropped(s: State, catalog: seq<Product>, d: Datagram, now: u64)
    requires Invariant(s) && FrameFits(d.bytes)
    requires HeaderOf(d).msgType != StateService
    requires HeaderOf(d).source != s.source
    ensures HandleIncoming(s, catalog, d, now) == Step(s, [])
  {
  }

  /** A non-announcement from a MAC not in the table is dropped: no record
      is created. */
  lemma UnknownSenderDropped(s: State, catalog: seq<Product>, d: Datagram, now: u64)
    requires Invariant(s) && FrameFits(d.bytes)
    requires HeaderOf(d).msgType != StateService
    requires forall j | 0 <= j < |s.devices| :: s.devices[j].mac != SenderMac(HeaderOf(d))
    ensures HandleIncoming(s, catalog, d, now) == Step(s, [])
  {
  }

  /** The conditions under which a non-announcement reaches its type branch. */
  predicate AcceptedFrom(s: State, d: Datagram, i: nat)
  {
    && FrameFits(d.bytes)
    && HeaderOf(d).msgType != StateService
    && HeaderOf(d).source == s.source
    && i < |s.devices|
    && s.devices[i].mac == SenderMac(HeaderOf(d))
  }

  /** An accepted non-announcement refreshes the sender's last update time,
      address and port (from the datagram, not the payload) even when its
      type is not handled or its payload has the wrong size; in those cases
      that is all it does. No record is created and no other record changes. */
  lemma AcceptedPacketRefreshes(s: State, catalog: seq<Product>, d: Datagram, now: u64, i: nat)
    requires Invariant(s) && AcceptedFrom(s, d, i)
    ensures var r := HandleIncoming(s, catalog, d, now);
      && |r.state.devices| == |s.devices|
      && r.state.devices[i].mac == s.devices[i].mac
      && r.state.devices[i].lastUpdate == now
      && r.state.devices[i].ipv4 == d.ipv4
      && r.state.devices[i].port == d.port
      && (forall j | 0 <= j < |s.devices| && j != i :: r.state.devices[j] == s.devices[j])
      && (PayloadSize(HeaderOf(d).msgType) != Some(PayloadLength(d)) ==>
            r == Step(Refresh(s, i, d.ipv4, d.port, now), []))
  {
    FindIndexUnique(s.devices, i);
  }

  /** An accepted StateVersion of 12 bytes stores vendor and product, derives
      `isLight` from the catalog, and sends exactly one query to the device:
      GetColor for a light, GetLabel otherwise. Apart from the refresh and
      the last-send time of that query, nothing else in the table changes. */
  lemma VersionResponse(s: State, catalog: seq<Product>, d: Datagram, now: u64, i: nat)
    requires Invariant(s) && AcceptedFrom(s, d, i)
    requires HeaderOf(d).msgType == StateVersion && PayloadLength(d) == 12
    ensures var r := HandleIncoming(s, catalog, d, now);
      var vendor, product := ReadU32(d.bytes, HeaderSize), ReadU32(d.bytes, HeaderSize + 4);
      var light := ProductIsLight(catalog, Signed32(product));
      && r.state == s.(devices := s.devices[i := Touched(s.devices[i], d.ipv4, d.port, now).(
           vendor := vendor, product := product, isLight := light, lastSend := now)])
      && |r.sent| == 1
      && IsUnicastTo(r.sent[0], r.state.devices[i])
      && IsRequest(r.sent[0], s.source, if light then GetColor else GetLabel, [])
  {
    FindIndexUnique(s.devices, i);
    var p := d.bytes[HeaderSize..];
    assert ReadU32(p, 0) == ReadU32(d.bytes, HeaderSize);
    assert ReadU32(p, 4) == ReadU32(d.bytes, HeaderSize + 4);
  }

  /** An accepted LightState of 52 bytes stores kelvin and power verbatim,
      the hue in degrees in [0, 360), saturation and brightness as fractions
      in [0, 1], and the 32-byte label; it sends nothing, and nothing else in
      the table changes apart from the refresh. */
  lemma LightStateResponse(s: State, catalog: seq<Product>, d: Datagram, now: u64, i: nat)
    requires Invariant(s) && AcceptedFrom(s, d, i)
    requires HeaderOf(d).msgType == LightState && PayloadLength(d) == 52
    ensures var r := HandleIncoming(s, catalog, d, now);
      var light := r.state.devices[i].light;
      && r.sent == []
      && r.state == s.(devices := s.devices[i := Touched(s.devices[i], d.ipv4, d.port, now).(
           light := light, labelText := d.bytes[HeaderSize + 12..HeaderSize + 44])])
      && light.hue == ReadU16(d.bytes, HeaderSize) as real * 360.0 / 65536.0
      && 0.0 <= light.hue < 360.0
      && light.saturation == ReadU16(d.bytes, HeaderSize + 2) as real / 65535.0
      && 0.0 <= light.saturation <= 1.0
      && light.brightness == ReadU16(d.bytes, HeaderSize + 4) as real / 65535.0
      && 0.0 <= light.brightness <= 1.0
      && light.kelvin == ReadU16(d.bytes, HeaderSize + 6)
      && light.power == ReadU16(d.bytes, HeaderSize + 10)
  {
    FindIndexUnique(s.devices, i);
    var p := d.bytes[HeaderSize..];
    assert ReadU16(p, 0) == ReadU16(d.bytes, HeaderSize);
    assert ReadU16(p, 2) == ReadU16(d.bytes, HeaderSize + 2);
    assert ReadU16(p, 4) == ReadU16(d.bytes, HeaderSize + 4);
    assert ReadU16(p, 6) == ReadU16(d.bytes, HeaderSize + 6);
    assert ReadU16(p, 10) == ReadU16(d.bytes, HeaderSize + 10);
    assert p[12..44] == d.bytes[HeaderSize + 12..HeaderSize + 44];
  }

  /** An accepted StateHostFirmware of 20 bytes stores build, major (offset
      18) and minor (offset 16), sends nothing, and changes nothing else in
      the table apart from the refresh. */
  lemma FirmwareResponse(s: State, catalog: seq<Product>, d: Datagram, now: u64, i: nat)
    requires Invariant(s) && AcceptedFrom(s, d, i)
    requires HeaderOf(d).msgType == StateHostFirmware && PayloadLength(d) == 20
    ensures var r := HandleIncoming(s, catalog, d, now);
      var firmware := Firmware(ReadU64(d.bytes, HeaderSize), ReadU16(d.bytes, HeaderSize + 18), ReadU16(d.bytes, HeaderSize + 16));
      && r.sent == []
      && r.state == s.(devices := s.devices[i := Touched(s.devices[i], d.ipv4, d.port, now).(firmware := firmware)])
  {
    FindIndexUnique(s.devices, i);
    var p := d.bytes[HeaderSize..];
    assert ReadU64(p, 0) == ReadU64(d.bytes, HeaderSize);
    assert ReadU16(p, 16) == ReadU16(d.bytes, HeaderSize + 16);
    assert ReadU16(p, 18) == ReadU16(d.bytes, HeaderSize + 18);
  }

  /** An accepted StateLabel of 32 bytes replaces the label, sends nothing,
      and changes nothing else in the table apart from the refresh. */
  lemma LabelResponse(s: State, catalog: seq<Product>, d: Datagram, now: u64, i: nat)
    requires Invariant(s) && AcceptedFrom(s, d, i)
    requires HeaderOf(d).msgType == StateLabel && PayloadLength(d) == 32
    ensures var r := HandleIncoming(s, catalog, d, now);
      && r.sent == []
      && r.state == s.(devices := s.devices[i := Touched(s.devices[i], d.ipv4, d.port, now).(labelText := d.bytes[HeaderSize..])])
  {
    FindIndexUnique(s.devices, i);
  }

  /** An accepted StateLightPower of 2 bytes stores the level, sends nothing,
      and changes nothing else in the table apart from the refresh. */
  lemma LightPowerResponse(s: State, catalog: seq<Product>, d: Datagram, now: u64, i: nat)
    requires Invariant(s) && AcceptedFrom(s, d, i)
    requires HeaderOf(d).msgType == StateLightPower && PayloadLength(d) == 2
    ensures var r := HandleIncoming(s, catalog, d, now);
      && r.sent == []
      && r.state == s.(devices := s.devices[i := Touched(s.devices[i], d.ipv4, d.port, now).(
           light := s.devices[i].light.(power := ReadU16(d.bytes, HeaderSize)))])
  {
    FindIndexUnique(s.devices, i);
    assert ReadU16(d.bytes[HeaderSize..], 0) == ReadU16(d.bytes, HeaderSize);
  }

  // --- replaying a datagram ---

  /** A send to a device overwrites its last-send time, so the time it held
      before does not matter. */
  lemma SendForgetsLastSend(s: State, i: nat, x: u64, msgType: u16, now: u64)
    requires Invariant(s) && i < |s.devices|
    ensures SendPacket(Update(s, i, s.devices[i].(lastSend := x)), Some(i), msgType, [], [], now)
         == SendPacket(s, Some(i), msgType, [], [], now)
  {
    assert Update(Update(s, i, s.devices[i].(lastSend := x)), i, s.devices[i].(lastSend := now))
        == Update(s, i, s.devices[i].(lastSend := now));
  }

  /** The same, for the two sends of lifx_poll_system. */
  lemma PollForgetsLastSend(s: State, i: nat, x: u64, now: u64)
    requires Invariant(s) && i < |s.devices|
    ensures PollSystem(Update(s, i, s.devices[i].(lastSend := x)), Some(i), now)
         == PollSystem(s, Some(i), now)
  {
    SendForgetsLastSend(s, i, x, GetVersion, now);
  }

  /** An announcement from the device in slot `i` stamps and polls it. */
  lemma AnnounceKnown(s: State, mac: Bytes, body: Body, ipv4: u32, now: u64, i: nat)
    requires Invariant(s) && |mac| == MacSize && i < |s.devices| && s.devices[i].mac == mac
    requires body.Service? && body.service == 1
    ensures Announce(s, mac, body, ipv4, now)
         == PollSystem(Update(s, i, Stamp(s.devices[i], ipv4, body.service, body.port, s.lastDiscover, now)), Some(i), now)
  {
    FindIndexUnique(s.devices, i);
  }

  /** An announcement from an unknown device, with room, appends a zeroed
      record, then stamps and polls it. */
  lemma AnnounceNew(s: State, mac: Bytes, body: Body, ipv4: u32, now: u64)
    requires Invariant(s) && |mac| == MacSize && |s.devices| < MaxDevices
    requires forall j | 0 <= j < |s.devices| :: s.devices[j].mac != mac
    requires body.Service? && body.service == 1
    ensures var grown := FindOrCreate(s.devices, mac, true).devices;
      && grown == s.devices + [NewDevice(mac)]
      && Announce(s, mac, body, ipv4, now)
         == PollSystem(Update(s.(devices := grown), |s.devices|, Stamp(NewDevice(mac), ipv4, body.service, body.port, s.lastDiscover, now)),
                       Some(|s.devices|), now)
  {
  }

  /** Announcing twice to the record in slot `i` of `s`, first at `t1` and
      then at `t2`, leaves the table as announcing once at `t2`, up to the
      last-send time of the first poll. */
  lemma StampTwice(s: State, i: nat, ipv4: u32, body: Body, t1: u64, t2: u64)
    requires Invariant(s) && i < |s.devices| && body.Service? && body.service == 1
    ensures var st1 := Stamp(s.devices[i], ipv4, body.service, body.port, s.lastDiscover, t1);
      var first := PollSystem(Update(s, i, st1), Some(i), t1).state;
      var once := Update(s, i, Stamp(s.devices[i], ipv4, body.service, body.port, s.lastDiscover, t2));
      Update(first, i, Stamp(first.devices[i], ipv4, body.service, body.port, s.lastDiscover, t2))
        == Update(once, i, once.devices[i].(lastSend := t1))
  {
    var st1 := Stamp(s.devices[i], ipv4, body.service, body.port, s.lastDiscover, t1);
    var st2 := Stamp(s.devices[i], ipv4, body.service, body.port, s.lastDiscover, t2);
    var first := PollSystem(Update(s, i, st1), Some(i), t1).state;
    assert first.devices == s.devices[i := st1.(lastSend := t1)];
    assert Stamp(first.devices[i], ipv4, body.service, body.port, s.lastDiscover, t2) == st2.(lastSend := t1);
  }

  /** A replayed announcement from a known device. */
  lemma ReplayAnnouncementKnown(s: State, mac: Bytes, body: Body, ipv4: u32, t1: u64, t2: u64, i: nat)
    requires Invariant(s) && |mac| == MacSize && i < |s.devices| && s.devices[i].mac == mac
    requires body.Service? && body.service == 1
    ensures Announce(Announce(s, mac, body, ipv4, t1).state, mac, body, ipv4, t2) == Announce(s, mac, body, ipv4, t2)
  {
    AnnounceKnown(s, mac, body, ipv4, t1, i);
    AnnounceKnown(s, mac, body, ipv4, t2, i);
    var first := Announce(s, mac, body, ipv4, t1).state;
    AnnounceKnown(first, mac, body, ipv4, t2, i);
    StampTwice(s, i, ipv4, body, t1, t2);
    PollForgetsLastSend(Update(s, i, Stamp(s.devices[i], ipv4, body.service, body.port, s.lastDiscover, t2)), i, t1, t2);
  }

  /** A replayed announcement from a device that was not yet in the table. */
  lemma ReplayAnnouncementNew(s: State, mac: Bytes, body: Body, ipv4: u32, t1: u64, t2: u64)
    requires Invariant(s) && |mac| == MacSize && |s.devices| < MaxDevices
    requires forall j | 0 <= j < |s.devices| :: s.devices[j].mac != mac
    requires body.Service? && body.service == 1
    ensures Announce(Announce(s, mac, body, ipv4, t1).state, mac, body, ipv4, t2) == Announce(s, mac, body, ipv4, t2)
  {
    var i := |s.devices|;
    var grown := s.(devices := FindOrCreate(s.devices, mac, true).devices);
    AnnounceNew(s, mac, body, ipv4, t1);
    AnnounceNew(s, mac, body, ipv4, t2);
    var first := Announce(s, mac, body, ipv4, t1).state;
    AnnounceKnown(first, mac, body, ipv4, t2, i);
    StampTwice(grown, i, ipv4, body, t1, t2);
    PollForgetsLastSend(Update(grown, i, Stamp(grown.devices[i], ipv4, body.service, body.port, s.lastDiscover, t2)), i, t1, t2);
  }

  /** The StateVersion branch: record vendor, product and kind, then one query. */
  lemma RespondVersion(s: State, catalog: seq<Product>, i: nat, body: Body, now: u64)
    requires Invariant(s) && i < |s.devices| && body.Version?
    ensures var light := ProductIsLight(catalog, Signed32(body.product));
      Respond(s, catalog, i, body, now)
        == SendPacket(Update(s, i, s.devices[i].(vendor := body.vendor, product := body.product, isLight := light)),
                      Some(i), if light then GetColor else GetLabel, [], [], now)
  {
  }

  /** A replayed StateVersion from the device in slot `i`: the follow-up
      query goes out again and the last-send time is that of the replay. */
  lemma ReplayVersion(s: State, catalog: seq<Product>, i: nat, ipv4: u32, port: u16, body: Body, t1: u64, t2: u64)
    requires Invariant(s) && i < |s.devices| && body.Version?
    ensures var first := Respond(Refresh(s, i, ipv4, port, t1), catalog, i, body, t1).state;
      Respond(Refresh(first, i, ipv4, port, t2), catalog, i, body, t2)
        == Respond(Refresh(s, i, ipv4, port, t2), catalog, i, body, t2)
  {
    var light := ProductIsLight(catalog, Signed32(body.product));
    var msgType := if light then GetColor else GetLabel;
    var r1 := Refresh(s, i, ipv4, port, t1);
    var r2 := Refresh(s, i, ipv4, port, t2);
    RespondVersion(r1, catalog, i, body, t1);
    RespondVersion(r2, catalog, i, body, t2);
    var first := Respond(r1, catalog, i, body, t1).state;
    var f2 := Refresh(first, i, ipv4, port, t2);
    RespondVersion(f2, catalog, i, body, t2);
    var next := Update(r2, i, r2.devices[i].(vendor := body.vendor, product := body.product, isLight := light));
    assert Update(f2, i, f2.devices[i].(vendor := body.vendor, product := body.product, isLight := light))
        == Update(next, i, next.devices[i].(lastSend := t1));
    SendForgetsLastSend(next, i, t1, msgType, t2);
  }

  /** A replayed response of any other kind from the device in slot `i`. */
  lemma ReplayResponse(s: State, catalog: seq<Product>, i: nat, ipv4: u32, port: u16, body: Body, t1: u64, t2: u64)
    requires Invariant(s) && i < |s.devices| && !body.Version?
    requires Parsed(body) ==> WellFormedBody(body)
    ensures var first := Respond(Refresh(s, i, ipv4, port, t1), catalog, i, body, t1).state;
      Respond(Refresh(first, i, ipv4, port, t2), catalog, i, body, t2)
        == Respond(Refresh(s, i, ipv4, port, t2), catalog, i, body, t2)
  {
    var first := Respond(Refresh(s, i, ipv4, port, t1), catalog, i, body, t1).state;
    var f2 := Refresh(first, i, ipv4, port, t2);
    var r2 := Refresh(s, i, ipv4, port, t2);
    match body
    case HostFirmware(build, minor, major) =>
      assert f2.devices[i].(firmware := Firmware(build, major, minor)) == r2.devices[i].(firmware := Firmware(build, major, minor));
    case Label(text) =>
      assert f2.devices[i].(labelText := text) == r2.devices[i].(labelText := text);
    case Light(hue, saturation, brightness, kelvin, power, text) =>
      var info := LightInfo(HueDegrees(hue), Fraction(saturation), Fraction(brightness), kelvin, power);
      assert f2.devices[i].(light := info, labelText := text) == r2.devices[i].(light := info, labelText := text);
    case LightPower(level) =>
      assert f2.devices[i].(light := f2.devices[i].light.(power := level))
          == r2.devices[i].(light := r2.devices[i].light.(power := level));
    case Service(_, _) =>
    case WrongSize(_) =>
    case Unhandled(_) =>
  }

  /** Delivering the same datagram twice, at `t1` and then at `t2`, ends
      exactly as delivering it once at `t2`: same table, same datagrams sent.
      Every field a message writes is overwritten by its replay, and an
      announced device is found again rather than added twice. */
  lemma ReplayTakesLatestTime(s: State, catalog: seq<Product>, d: Datagram, t1: u64, t2: u64)
    requires Invariant(s)
    ensures HandleIncoming(HandleIncoming(s, catalog, d, t1).state, catalog, d, t2)
         == HandleIncoming(s, catalog, d, t2)
  {
    if !FrameFits(d.bytes) {
      return;
    }
    var h := DecodeHeader(d.bytes);
    var body := DecodeBody(h.msgType, d.bytes[HeaderSize..]);
    var mac := SenderMac(h);
    var first := HandleIncoming(s, catalog, d, t1).state;
    if h.msgType == StateService {
      if body.Service? && body.service == 1 {
        match FindIndex(s.devices, mac)
        case Some(i) =>
          ReplayAnnouncementKnown(s, mac, body, d.ipv4, t1, t2, i);
        case None =>
          if |s.devices| < MaxDevices {
            ReplayAnnouncementNew(s, mac, body, d.ipv4, t1, t2);
          }
      }
    } else if h.source == s.source {
      match FindIndex(s.devices, mac)
      case Some(i) =>
        FindIndexUnique(first.devices, i);
        if body.Version? {
          ReplayVersion(s, catalog, i, d.ipv4, d.port, body, t1, t2);
        } else {
          ReplayResponse(s, catalog, i, d.ipv4, d.port, body, t1, t2);
        }
      case None =>
    }
  }

  /** Handling a datagram is idempotent at a fixed time. */
  lemma HandleIdempotent(s: State, catalog: seq<Product>, d: Datagram, now: u64)
    requires Invariant(s)
    ensures var r := HandleIncoming(s, catalog, d, now);
      HandleIncoming(r.state, catalog, d, now) == r
  {
    ReplayTakesLatestTime(s, catalog, d, now, now);
  }

  /** Re-applying a LightState from the device in slot `i` changes nothing
      but the record's last update time, and sends nothing. */
  lemma LightStateReplayTouchesOnlyLastUpdate(s: State, catalog: seq<Product>, d: Datagram, t1: u64, t2: u64, i: nat)
    requires Invariant(s) && AcceptedFrom(s, d, i)
    requires HeaderOf(d).msgType == LightState && PayloadLength(d) == 52
    ensures var first := HandleIncoming(s, catalog, d, t1).state;
      HandleIncoming(first, catalog, d, t2) == Step(Update(first, i, first.devices[i].(lastUpdate := t2)), [])
  {
    FindIndexUnique(s.devices, i);
    var first := HandleIncoming(s, catalog, d, t1).state;
    FindIndexUnique(first.devices, i);
    var body := DecodeBody(LightState, d.bytes[HeaderSize..]);
    assert body.Light?;
    var info := LightInfo(HueDegrees(body.hue), Fraction(body.saturation), Fraction(body.brightness), body.kelvin, body.power);
    var r1 := Refresh(s, i, d.ipv4, d.port, t1);
    assert first == Update(r1, i, r1.devices[i].(light := info, labelText := body.text));
    var f2 := Refresh(first, i, d.ipv4, d.port, t2);
    assert f2.devices[i].(light := info, labelText := body.text) == first.devices[i].(lastUpdate := t2);
  }

  /** Every query the engine sends (GetService from discovery, GetVersion and
      GetHostFirmware from lifx_poll_system, GetColor from lifx_poll_light,
      GetLabel after a non-light StateVersion) has a reply type that the
      dispatcher parses: a reply of the expected size decodes to a message of
      that type, which Announce or Respond acts on. */
  lemma QueriesAreAnswered(q: u16, p: Bytes)
    requires q in {GetService, GetVersion, GetHostFirmware, GetColor, GetLabel}
    ensures ResponseTo(q).Some?
    ensures var t := ResponseTo(q).value;
      |p| == PayloadSize(t).value ==> Parsed(DecodeBody(t, p)) && TypeOf(DecodeBody(t, p)) == t
  {
  }

  // --- growth of the table ---

  /** A datagram that announces a UDP service: a StateService of exactly 5
      payload bytes with service 1. */
  predicate IsUdpAnnouncement(d: Datagram)
  {
    && FrameFits(d.bytes)
    && HeaderOf(d).msgType == StateService
    && PayloadLength(d) == 5
    && d.bytes[HeaderSize] == 1
  }

  /** Only a UDP announcement from a MAC not yet in the table adds a record,
      and the record it adds carries that MAC. */
  lemma OnlyAnnouncementsCreate(s: State, catalog: seq<Product>, d: Datagram, now: u64)
    requires Invariant(s)
    ensures var r := HandleIncoming(s, catalog, d, now);
      |r.state.devices| > |s.devices| ==>
        && IsUdpAnnouncement(d)
        && r.state.devices[|s.devices|].mac == SenderMac(HeaderOf(d))
        && forall j | 0 <= j < |s.devices| :: s.devices[j].mac != SenderMac(HeaderOf(d))
  {
    if !FrameFits(d.bytes) {
      return;
    }
    var mac := SenderMac(HeaderOf(d));
    if HeaderOf(d).msgType == StateService {
      if !IsUdpAnnouncement(d) {
        AnnouncementIgnored(s, catalog, d, now);
      } else if exists j | 0 <= j < |s.devices| :: s.devices[j].mac == mac {
        var j :| 0 <= j < |s.devices| && s.devices[j].mac == mac;
        AnnouncementFromKnownDevice(s, catalog, d, now, j);
      } else if |s.devices| < MaxDevices {
        AnnouncementFromNewDevice(s, catalog, d, now);
      } else {
        AnnouncementTableFull(s, catalog, d, now);
      }
    } else if HeaderOf(d).source != s.source {
      ForeignSourceDropped(s, catalog, d, now);
    } else if exists j | 0 <= j < |s.devices| :: s.devices[j].mac == mac {
      var j :| 0 <= j < |s.devices| && s.devices[j].mac == mac;
      AcceptedPacketRefreshes(s, catalog, d, now, j);
    } else {
      UnknownSenderDropped(s, catalog, d, now);
    }
  }
}
