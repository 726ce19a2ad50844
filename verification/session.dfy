/**
 A session of the library: any interleaving of received datagrams and API
 calls, with the getters reading back what the dispatcher stored.
 Application code reaches a device through lifx_get_device(mac), so the
 calls here name their device by MAC; an unknown MAC is a NULL handle.
 */
module Session {
  import opened Maybe
  import opened Wire
  import opened Protocol
  import opened Units
  import opened Products
  import opened Registry
  import opened Engine
  import opened Dispatch
  import opened Control

  /** One thing that can happen to the library, with the clock reading of
      the call. */
  datatype Event =
    | Receive(d: Datagram, now: u64)
    | Discover(now: u64)
    | PollSystemOf(mac: Bytes, now: u64)
    | PollLightOf(mac: Bytes, now: u64)
    | SetColorOf(mac: Bytes, hue: real, saturation: real, brightness: real, kelvin: int, time: u32, reserved: byte, now: u64)
    | SetPoweredOf(mac: Bytes, powered: bool, time: u32, now: u64)

  /** The event is a call C's signatures allow: a 6-byte MAC, and a kelvin
      that is a `short`. */
  predicate Callable(e: Event)
  {
    match e
    case Receive(_, _) => true
    case Discover(_) => true
    case PollSystemOf(mac, _) => |mac| == MacSize
    case PollLightOf(mac, _) => |mac| == MacSize
    case SetColorOf(mac, _, _, _, kelvin, _, _, _) => |mac| == MacSize && -0x8000 <= kelvin < 0x8000
    case SetPoweredOf(mac, _, _, _) => |mac| == MacSize
  }

  /** The call has no undefined behaviour in state `s`: colour arguments
      must convert only when the MAC names an in-use light, because
      lifx_set_light_color returns before converting otherwise. */
  predicate Defined(s: State, e: Event)
  {
    && Callable(e)
    && (e.SetColorOf? && IsLightHandle(s, GetDevice(s.devices, e.mac)) ==>
          ColorArgumentsInRange(e.hue, e.saturation, e.brightness))
  }

  /** The table-preserving contract every API call meets: no record is added
      or removed, and every record keeps its MAC. */
  ghost predicate Preserves(s: State, r: Step)
  {
    && Invariant(r.state)
    && |r.state.devices| == |s.devices|
    && (forall j | 0 <= j < |s.devices| :: r.state.devices[j].mac == s.devices[j].mac)
    && r.state.source == s.source
  }

  /** Discovery and the two polls. */
  function ApplyPoll(s: State, e: Event): (r: Step)
    requires Invariant(s) && Callable(e) && (e.Discover? || e.PollSystemOf? || e.PollLightOf?)
    ensures Preserves(s, r)
  {
    match e
    case Discover(now) => DiscoverDevices(s, now)
    case PollSystemOf(mac, now) => PollSystem(s, GetDevice(s.devices, mac), now)
    case PollLightOf(mac, now) => PollLight(s, GetDevice(s.devices, mac), now)
  }

  /** The two light commands. */
  function ApplySet(s: State, e: Event): (r: Step)
    requires Invariant(s) && Defined(s, e) && (e.SetColorOf? || e.SetPoweredOf?)
    ensures Preserves(s, r)
  {
    match e
    case SetColorOf(mac, hue, saturation, brightness, kelvin, time, reserved, now) =>
      SetLightColor(s, GetDevice(s.devices, mac), hue, saturation, brightness, kelvin, time, reserved, now)
    case SetPoweredOf(mac, powered, time, now) =>
      SetLightPowered(s, GetDevice(s.devices, mac), powered, time, now)
  }

  /** One event. */
  function Apply(s: State, catalog: seq<Product>, e: Event): (r: Step)
    requires Invariant(s) && Defined(s, e)
    ensures Invariant(r.state)
    ensures Extends(s.devices, r.state.devices)
    ensures r.state.source == s.source
    ensures !e.Receive? ==> |r.state.devices| == |s.devices|
  {
    if e.Receive? then HandleIncoming(s, catalog, e.d, e.now)
    else if e.SetColorOf? || e.SetPoweredOf? then ApplySet(s, e)
    else ApplyPoll(s, e)
  }

  /** Every event of the run is defined in the state the run has reached
      when it happens. */
  predicate Runnable(s: State, catalog: seq<Product>, events: seq<Event>)
    requires Invariant(s)
    decreases |events|
  {
    |events| == 0
    || (Defined(s, events[0]) && Runnable(Apply(s, catalog, events[0]).state, catalog, events[1..]))
  }

  /** A run of events, collecting every datagram sent, in order. The
      registry invariant holds throughout; records keep their slot and MAC;
      the table never shrinks and the session source never changes. */
  function Run(s: State, catalog: seq<Product>, events: seq<Event>): (r: Step)
    requires Invariant(s)
    requires Runnable(s, catalog, events)
    ensures Invariant(r.state)
    ensures r.state.source == s.source
    ensures |s.devices| <= |r.state.devices| <= MaxDevices
    ensures forall j | 0 <= j < |s.devices| :: r.state.devices[j].mac == s.devices[j].mac
    decreases |events|
  {
    if |events| == 0 then Step(s, [])
    else
      var first := Apply(s, catalog, events[0]);
      var rest := Run(first.state, catalog, events[1..]);
      Step(rest.state, first.sent + rest.sent)
  }

  /** Some event of the run is a UDP announcement from `mac`. */
  ghost predicate AnnouncedIn(events: seq<Event>, mac: Bytes)
  {
    exists k | 0 <= k < |events| ::
      events[k].Receive? && IsUdpAnnouncement(events[k].d) && SenderMac(HeaderOf(events[k].d)) == mac
  }

  /** Every record a run adds was announced: its MAC is the sender of some
      UDP announcement received during the run. */
  lemma {:induction false} RunOnlyAnnouncedDevicesAppear(s: State, catalog: seq<Product>, events: seq<Event>)
    requires Invariant(s)
    requires Runnable(s, catalog, events)
    ensures var r := Run(s, catalog, events).state;
      forall i | |s.devices| <= i < |r.devices| :: AnnouncedIn(events, r.devices[i].mac)
    decreases |events|
  {
    var end := Run(s, catalog, events).state;
    if |events| == 0 {
      assert end == s;
      return;
    }
    var first := Apply(s, catalog, events[0]);
    assert end == Run(first.state, catalog, events[1..]).state;
    RunOnlyAnnouncedDevicesAppear(first.state, catalog, events[1..]);
    if events[0].Receive? {
      OnlyAnnouncementsCreate(s, catalog, events[0].d, events[0].now);
    }
    forall i | |s.devices| <= i < |end.devices|
      ensures AnnouncedIn(events, end.devices[i].mac)
    {
      if i < |first.state.devices| {
        assert i == |s.devices| && end.devices[i].mac == first.state.devices[i].mac;
        assert events[0].Receive? && IsUdpAnnouncement(events[0].d);
      } else {
        assert AnnouncedIn(events[1..], end.devices[i].mac);
        var k :| 0 <= k < |events[1..]| && events[1..][k].Receive? && IsUdpAnnouncement(events[1..][k].d)
          && SenderMac(HeaderOf(events[1..][k].d)) == end.devices[i].mac;
        assert events[k + 1] == events[1..][k];
      }
    }
  }

  /** A device stays reachable by its MAC whatever happens afterwards. */
  lemma {:induction false} DeviceStaysReachable(s: State, catalog: seq<Product>, events: seq<Event>, i: nat)
    requires Invariant(s) && i < |s.devices|
    requires Runnable(s, catalog, events)
    ensures GetDevice(Run(s, catalog, events).state.devices, s.devices[i].mac) == Some(i)
  {
    var r := Run(s, catalog, events).state;
    FindIndexUnique(r.devices, i);
  }

  // --- reading back what the dispatcher stored ---

  /** After an announcement from a device, known or newly added, its latency
      getter reports the time since the last discovery (as a C `int`). */
  lemma LatencyAfterAnnouncement(s: State, catalog: seq<Product>, d: Datagram, now: u64)
    requires Invariant(s) && IsUdpAnnouncement(d)
    requires (exists j | 0 <= j < |s.devices| :: s.devices[j].mac == SenderMac(HeaderOf(d)))
          || |s.devices| < MaxDevices
    ensures var r := HandleIncoming(s, catalog, d, now).state;
      DeviceLatency(r, GetDevice(r.devices, SenderMac(HeaderOf(d)))) == Latency(now, s.lastDiscover)
  {
    var r := HandleIncoming(s, catalog, d, now).state;
    if j :| 0 <= j < |s.devices| && s.devices[j].mac == SenderMac(HeaderOf(d)) {
      AnnouncementFromKnownDevice(s, catalog, d, now, j);
      FindIndexUnique(r.devices, j);
    } else {
      AnnouncementFromNewDevice(s, catalog, d, now);
      FindIndexUnique(r.devices, |s.devices|);
    }
  }

  /** After a StateHostFirmware, the firmware getters report its major and
      minor version. */
  lemma FirmwareAfterResponse(s: State, catalog: seq<Product>, d: Datagram, now: u64, i: nat)
    requires Invariant(s) && AcceptedFrom(s, d, i)
    requires HeaderOf(d).msgType == StateHostFirmware && PayloadLength(d) == 20
    ensures var r := HandleIncoming(s, catalog, d, now).state;
      && FirmwareMajor(r, Some(i)) == ReadU16(d.bytes, HeaderSize + 18) as int
      && FirmwareMinor(r, Some(i)) == ReadU16(d.bytes, HeaderSize + 16) as int
  {
    FirmwareResponse(s, catalog, d, now, i);
    AcceptedPacketRefreshes(s, catalog, d, now, i);
  }

  /** After a StateVersion, the product getter reports the product number as
      a C `int`, and the light getters answer exactly when the catalog says
      the product is a light. */
  lemma ProductAfterVersion(s: State, catalog: seq<Product>, d: Datagram, now: u64, i: nat)
    requires Invariant(s) && AcceptedFrom(s, d, i)
    requires HeaderOf(d).msgType == StateVersion && PayloadLength(d) == 12
    ensures var r := HandleIncoming(s, catalog, d, now).state;
      var product := Signed32(ReadU32(d.bytes, HeaderSize + 4));
      && DeviceProduct(r, Some(i)) == product
      && (GetLightColor(r, Some(i)).Some? <==> ProductIsLight(catalog, product))
  {
    VersionResponse(s, catalog, d, now, i);
    AcceptedPacketRefreshes(s, catalog, d, now, i);
  }

  /** After a StateLabel, the label getter reports the label up to its first
      zero byte. */
  lemma LabelAfterResponse(s: State, catalog: seq<Product>, d: Datagram, now: u64, i: nat)
    requires Invariant(s) && AcceptedFrom(s, d, i)
    requires HeaderOf(d).msgType == StateLabel && PayloadLength(d) == 32
    ensures var r := HandleIncoming(s, catalog, d, now).state;
      DeviceLabel(r, Some(i)) == Some(UntilNul(d.bytes[HeaderSize..] + [0]))
  {
    LabelResponse(s, catalog, d, now, i);
    AcceptedPacketRefreshes(s, catalog, d, now, i);
  }

  /** After a LightState to a light, the colour getter reports the hue in
      degrees, saturation and brightness as fractions and the kelvin as a
      `short`; the power predicate is true exactly at level 0xFFFF. */
  lemma ColorAfterLightState(s: State, catalog: seq<Product>, d: Datagram, now: u64, i: nat)
    requires Invariant(s) && AcceptedFrom(s, d, i) && s.devices[i].isLight
    requires HeaderOf(d).msgType == LightState && PayloadLength(d) == 52
    ensures var r := HandleIncoming(s, catalog, d, now).state;
      && GetLightColor(r, Some(i)) == Some(Color(
           HueDegrees(ReadU16(d.bytes, HeaderSize)),
           Fraction(ReadU16(d.bytes, HeaderSize + 2)),
           Fraction(ReadU16(d.bytes, HeaderSize + 4)),
           Signed16(ReadU16(d.bytes, HeaderSize + 6))))
      && (IsLightPowered(r, Some(i)) <==> ReadU16(d.bytes, HeaderSize + 10) == 0xFFFF)
  {
    LightStateResponse(s, catalog, d, now, i);
    AcceptedPacketRefreshes(s, catalog, d, now, i);
  }

  /** After a StateLightPower to a light, the power getter reports the level
      and the light reads as powered exactly at 0xFFFF. */
  lemma PowerAfterResponse(s: State, catalog: seq<Product>, d: Datagram, now: u64, i: nat)
    requires Invariant(s) && AcceptedFrom(s, d, i) && s.devices[i].isLight
    requires HeaderOf(d).msgType == StateLightPower && PayloadLength(d) == 2
    ensures var r := HandleIncoming(s, catalog, d, now).state;
      && GetLightPower(r, Some(i)) == Some(ReadU16(d.bytes, HeaderSize))
      && (IsLightPowered(r, Some(i)) <==> ReadU16(d.bytes, HeaderSize) == 0xFFFF)
  {
    LightPowerResponse(s, catalog, d, now, i);
    AcceptedPacketRefreshes(s, catalog, d, now, i);
  }

  /** A colour in range, sent with lifx_set_light_color and reported back by
      the light unchanged, reads back through lifx_get_light_color within one
      wire step below what was set (truncation, not rounding), with the same
      kelvin. */
  lemma SetColorReadsBack(hue: real, saturation: real, brightness: real, kelvin: int, time: u32)
    requires 0.0 <= hue < 360.0 && 0.0 <= saturation <= 1.0 && 0.0 <= brightness <= 1.0
    requires -0x8000 <= kelvin < 0x8000
    ensures ColorArgumentsInRange(hue, saturation, brightness)
    ensures var c := ColorCommandOf(hue, saturation, brightness, kelvin, time);
      && hue - 360.0 / 65536.0 < HueDegrees(c.hue) <= hue
      && saturation - 1.0 / 65535.0 < Fraction(c.saturation) <= saturation
      && brightness - 1.0 / 65535.0 < Fraction(c.brightness) <= brightness
      && Signed16(c.kelvin) == kelvin
  {
    HueQuantisation(hue);
    FractionQuantisation(saturation);
    FractionQuantisation(brightness);
  }

  /** Switching a light on or off and reading back the level it reports
      agrees: the power predicate reads the value that was set. */
  lemma SetPoweredReadsBack(s: State, catalog: seq<Product>, d: Datagram, now: u64, i: nat, powered: bool)
    requires Invariant(s) && AcceptedFrom(s, d, i) && s.devices[i].isLight
    requires HeaderOf(d).msgType == StateLightPower && PayloadLength(d) == 2
    requires ReadU16(d.bytes, HeaderSize) == PowerLevel(powered)
    ensures IsLightPowered(HandleIncoming(s, catalog, d, now).state, Some(i)) == powered
  {
    PowerAfterResponse(s, catalog, d, now, i);
  }
}
