/**
 The public device API of lifx.c: the getters, which answer a sentinel for a
 NULL or not-in-use device, and the two light commands, which do nothing
 unless the device is an in-use light.
 */
module Control {
  import opened Maybe
  import opened Wire
  import opened Protocol
  import opened Units
  import opened Registry
  import opened Engine

  /** The handle names an in-use slot (not NULL, not past the count). */
  predicate InUse(s: State, h: Option<nat>)
  {
    h.Some? && h.value < |s.devices|
  }

  /** The handle names an in-use slot that holds a light. */
  predicate IsLightHandle(s: State, h: Option<nat>)
  {
    InUse(s, h) && s.devices[h.value].isLight
  }

  /** lifx_get_device_latency: -1 when not in use. */
  function DeviceLatency(s: State, h: Option<nat>): (ms: int)
    ensures InUse(s, h) ==> ms == s.devices[h.value].latency
    ensures !InUse(s, h) ==> ms == -1
    ensures ms == -1 <==> !InUse(s, h) || s.devices[h.value].latency == -1
  {
    if InUse(s, h) then s.devices[h.value].latency else -1
  }

  /** The C string held in `b`: the bytes before the first zero byte (all of
      `b` when it holds none). */
  function UntilNul(b: Bytes): (r: Bytes)
    ensures r <= b
    ensures forall k | 0 <= k < |r| :: r[k] != 0
    ensures |r| == |b| || b[|r|] == 0
  {
    if |b| == 0 || b[0] == 0 then []
    else [b[0]] + UntilNul(b[1..])
  }

  /** lifx_get_device_label: the label as a C string, NULL when not in use.
      The zero terminator after the 32 label bytes bounds it. */
  function DeviceLabel(s: State, h: Option<nat>): (r: Option<Bytes>)
    requires Invariant(s)
    ensures r.Some? <==> InUse(s, h)
    ensures r.Some? ==>
      && |r.value| <= LabelSize
      && r.value <= s.devices[h.value].labelText
      && (forall k | 0 <= k < |r.value| :: r.value[k] != 0)
      && (|r.value| < LabelSize ==> s.devices[h.value].labelText[|r.value|] == 0)
  {
    if InUse(s, h) then
      var dev := s.devices[h.value];
      var stored := dev.labelText + [dev.terminator];
      var text := UntilNul(stored);
      assert stored[LabelSize] == 0;
      assert |text| <= LabelSize;
      assert text <= dev.labelText by {
        assert forall k | 0 <= k < |text| :: text[k] == stored[k] == dev.labelText[k];
      }
      Some(text)
    else None
  }

  /** lifx_get_device_mac: the six MAC bytes, NULL when not in use. */
  function DeviceMac(s: State, h: Option<nat>): (r: Option<Bytes>)
    requires Invariant(s)
    ensures r.Some? <==> InUse(s, h)
    ensures r.Some? ==> |r.value| == MacSize && GetDevice(s.devices, r.value) == h
  {
    if InUse(s, h) then
      FindIndexUnique(s.devices, h.value);
      Some(s.devices[h.value].mac)
    else None
  }

  /** lifx_get_device_ipv4: 0xFFFFFFFF (the broadcast address) when not in use. */
  function DeviceIpv4(s: State, h: Option<nat>): (r: u32)
    ensures InUse(s, h) ==> r == s.devices[h.value].ipv4
    ensures !InUse(s, h) ==> r == BroadcastIpv4
    ensures r == BroadcastIpv4 <==> !InUse(s, h) || s.devices[h.value].ipv4 == BroadcastIpv4
  {
    if InUse(s, h) then s.devices[h.value].ipv4 else BroadcastIpv4
  }

  /** lifx_get_device_product: the 32-bit product number returned as an
      `int`, -1 when not in use. */
  function DeviceProduct(s: State, h: Option<nat>): (r: int)
    ensures InUse(s, h) ==> r == Signed32(s.devices[h.value].product)
    ensures !InUse(s, h) ==> r == -1
    ensures r == -1 <==> !InUse(s, h) || s.devices[h.value].product == 0xFFFF_FFFF
  {
    if InUse(s, h) then Signed32(s.devices[h.value].product) else -1
  }

  /** lifx_get_device_firmware_major: non-negative exactly for an in-use device. */
  function FirmwareMajor(s: State, h: Option<nat>): (r: int)
    ensures r >= 0 <==> InUse(s, h)
    ensures r >= 0 ==> r == s.devices[h.value].firmware.major as int
    ensures r < 0 ==> r == -1
  {
    if InUse(s, h) then s.devices[h.value].firmware.major as int else -1
  }

  /** lifx_get_device_firmware_minor: non-negative exactly for an in-use device. */
  function FirmwareMinor(s: State, h: Option<nat>): (r: int)
    ensures r >= 0 <==> InUse(s, h)
    ensures r >= 0 ==> r == s.devices[h.value].firmware.minor as int
    ensures r < 0 ==> r == -1
  {
    if InUse(s, h) then s.devices[h.value].firmware.minor as int else -1
  }

  /** What lifx_get_light_color writes through its pointers: hue in
      degrees, saturation and brightness as fractions, kelvin as a `short`. */
  datatype Color = Color(hue: real, saturation: real, brightness: real, kelvin: int)

  /** lifx_get_light_color: -1 (None) unless the device is an in-use light. */
  function GetLightColor(s: State, h: Option<nat>): (r: Option<Color>)
    ensures r.Some? <==> IsLightHandle(s, h)
    ensures r.Some? ==> var light := s.devices[h.value].light;
      && r.value.hue == light.hue
      && r.value.saturation == light.saturation
      && r.value.brightness == light.brightness
      && -0x8000 <= r.value.kelvin < 0x8000
      && Unsigned16(r.value.kelvin) == light.kelvin
  {
    if IsLightHandle(s, h) then
      var light := s.devices[h.value].light;
      Some(Color(light.hue, light.saturation, light.brightness, Signed16(light.kelvin)))
    else None
  }

  /** lifx_get_light_power: -1 (None) unless the device is an in-use light. */
  function GetLightPower(s: State, h: Option<nat>): (r: Option<u16>)
    ensures r.Some? <==> IsLightHandle(s, h)
    ensures r.Some? ==> r.value == s.devices[h.value].light.power
  {
    if IsLightHandle(s, h) then Some(s.devices[h.value].light.power) else None
  }

  /** lifx_is_light_powered: an in-use light whose level is exactly 0xFFFF. */
  function IsLightPowered(s: State, h: Option<nat>): (r: bool)
    ensures r <==> IsLightHandle(s, h) && IsPowered(s.devices[h.value].light.power)
    ensures r <==> GetLightPower(s, h) == Some(PowerLevel(true))
  {
    IsLightHandle(s, h) && s.devices[h.value].light.power == 0xFFFF
  }

  /** The arguments of lifx_set_light_color are converted without undefined
      behaviour: the scaled hue fits an `int`, saturation and brightness
      convert to `uint16_t`. */
  predicate ColorArgumentsInRange(hue: real, saturation: real, brightness: real)
  {
    FitsInt(HueTurns(hue)) && FractionInRange(saturation) && FractionInRange(brightness)
  }

  /** The SetColor command lifx_set_light_color builds: the hue wrapped onto
      the 16-bit circle, saturation and brightness scaled to 0xFFFF and
      truncated, the `short` kelvin stored as its 16-bit pattern. */
  function ColorCommandOf(hue: real, saturation: real, brightness: real, kelvin: int, time: u32): (c: Command)
    requires ColorArgumentsInRange(hue, saturation, brightness)
    requires -0x8000 <= kelvin < 0x8000
    ensures c.ColorCommand? && c.duration == time
    ensures c.hue as int == HueTurns(hue) % 0x1_0000
    ensures saturation >= 0.0 ==> c.saturation as real <= saturation * 65535.0 < c.saturation as real + 1.0
    ensures brightness >= 0.0 ==> c.brightness as real <= brightness * 65535.0 < c.brightness as real + 1.0
    ensures saturation < 0.0 ==> c.saturation == 0
    ensures brightness < 0.0 ==> c.brightness == 0
    ensures Signed16(c.kelvin) == kelvin
  {
    Signed16Unsigned16(kelvin);
    ColorCommand(HueWire(hue), FractionWire(saturation), FractionWire(brightness), Unsigned16(kelvin), time)
  }

  /** The SetColor payload lifx_set_light_color hands to lifx_send_packet:
      `set_color` is a stack variable that is never initialised, and its
      reserved byte is never assigned, so the first payload byte is whatever
      the stack held (`reserved`). A device ignores that byte, so it still
      reads the command. */
  function SetColorPayload(c: Command, reserved: byte): (p: Bytes)
    requires c.ColorCommand?
    ensures |p| == |EncodeCommand(c)| && p[0] == reserved
    ensures forall k | 1 <= k < |p| :: p[k] == EncodeCommand(c)[k]
    ensures p == EncodeCommand(c) <==> reserved == 0
    ensures DecodeCommand(SetColor, p) == Some(c)
  {
    var e := EncodeCommand(c);
    var p := [reserved] + e[1..];
    assert ReadU16(p, 1) == ReadU16(e, 1) && ReadU16(p, 3) == ReadU16(e, 3);
    assert ReadU16(p, 5) == ReadU16(e, 5) && ReadU16(p, 7) == ReadU16(e, 7);
    assert ReadU32(p, 9) == ReadU32(e, 9);
    p
  }

  /** lifx_set_light_color as written: for an in-use light, one unicast
      SetColor with the converted colour behind the uninitialised reserved
      byte; otherwise nothing at all. The early return comes before the
      conversions, so only a light needs colour arguments that convert. (The stale buffer bytes of
      lifx_send_packet matter only for a 92-byte payload, so any 13 bytes do.) */
  function SetLightColor(s: State, h: Option<nat>, hue: real, saturation: real, brightness: real,
                         kelvin: int, time: u32, reserved: byte, now: u64): (r: Step)
    requires Invariant(s)
    requires IsLightHandle(s, h) ==> ColorArgumentsInRange(hue, saturation, brightness)
    requires -0x8000 <= kelvin < 0x8000
    ensures Invariant(r.state)
    ensures !IsLightHandle(s, h) ==> r == Step(s, [])
    ensures IsLightHandle(s, h) ==>
      && |r.sent| == 1
      && IsRequest(r.sent[0], s.source, SetColor,
           SetColorPayload(ColorCommandOf(hue, saturation, brightness, kelvin, time), reserved))
      && IsUnicastTo(r.sent[0], s.devices[h.value])
      && r.state == Update(s, h.value, s.devices[h.value].(lastSend := now))
  {
    if !IsLightHandle(s, h) then Step(s, [])
    else
      var payload := SetColorPayload(ColorCommandOf(hue, saturation, brightness, kelvin, time), reserved);
      SendPacket(s, h, SetColor, payload, Zeros(|payload|), now)
  }

  /** Whatever the stack held reaches the wire: with a non-zero reserved
      byte the datagram is not the protocol's SetColor encoding, whose
      reserved byte is zero. */
  lemma UninitialisedReservedByteSent(s: State, h: Option<nat>, time: u32, now: u64)
    requires Invariant(s) && IsLightHandle(s, h)
    ensures var r := SetLightColor(s, h, 0.0, 0.0, 0.0, 0, time, 1, now);
      && r.sent[0].bytes[HeaderSize] == 1
      && r.sent[0].bytes[HeaderSize..] != EncodeCommand(ColorCommandOf(0.0, 0.0, 0.0, 0, time))
  {
    var r := SetLightColor(s, h, 0.0, 0.0, 0.0, 0, time, 1, now);
    assert r.sent[0].bytes[HeaderSize..][0] == 1;
  }

  /** lifx_set_light_color with `set_color` zero-initialised: the datagram
      carries exactly the protocol's SetColor encoding of the converted
      colour, which a device reads back as that command. */
  function SetLightColorZeroed(s: State, h: Option<nat>, hue: real, saturation: real, brightness: real,
                               kelvin: int, time: u32, now: u64): (r: Step)
    requires Invariant(s)
    requires IsLightHandle(s, h) ==> ColorArgumentsInRange(hue, saturation, brightness)
    requires -0x8000 <= kelvin < 0x8000
    ensures Invariant(r.state)
    ensures !IsLightHandle(s, h) ==> r == Step(s, [])
    ensures IsLightHandle(s, h) ==>
      var c := ColorCommandOf(hue, saturation, brightness, kelvin, time);
      && |r.sent| == 1
      && IsRequest(r.sent[0], s.source, SetColor, EncodeCommand(c))
      && DecodeCommand(SetColor, r.sent[0].bytes[HeaderSize..]) == Some(c)
      && IsUnicastTo(r.sent[0], s.devices[h.value])
      && r.state == Update(s, h.value, s.devices[h.value].(lastSend := now))
  {
    SetLightColor(s, h, hue, saturation, brightness, kelvin, time, 0, now)
  }

  /** lifx_set_light_powered: for an in-use light, one unicast SetLightPower
      with level 0xFFFF (on) or 0 (off); otherwise nothing at all. */
  function SetLightPowered(s: State, h: Option<nat>, powered: bool, time: u32, now: u64): (r: Step)
    requires Invariant(s)
    ensures Invariant(r.state)
    ensures !IsLightHandle(s, h) ==> r == Step(s, [])
    ensures IsLightHandle(s, h) ==>
      && |r.sent| == 1
      && IsRequest(r.sent[0], s.source, SetLightPower, EncodeCommand(PowerCommand(PowerLevel(powered), time)))
      && IsUnicastTo(r.sent[0], s.devices[h.value])
      && r.state == Update(s, h.value, s.devices[h.value].(lastSend := now))
  {
    if !IsLightHandle(s, h) then Step(s, [])
    else
      var payload := EncodeCommand(PowerCommand(PowerLevel(powered), time));
      SendPacket(s, h, SetLightPower, payload, Zeros(|payload|), now)
  }
}
