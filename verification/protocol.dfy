/**
 The LIFX LAN wire format used by the library (lifx_protocol.h): the 36-byte
 header (frame, frame address and protocol sections), the message-type codes,
 and the payloads of the messages the library receives and sends.
 */
module Protocol {
  import opened Maybe
  import opened Wire

  newtype u12 = x: int | 0 <= x < 0x1000
  newtype u2 = x: int | 0 <= x < 4

  const FrameSize: nat := 8
  const FrameAddressSize: nat := 16
  const ProtocolHeaderSize: nat := 12
  const HeaderSize: nat := 36
  /** `LIFX_MAX_PACKET_SIZE`: the size of the buffer outbound packets are built in. */
  const MaxPacketSize: nat := 0x80
  /** The largest payload that fits in that buffer behind a header. */
  const MaxPayload: nat := MaxPacketSize - HeaderSize
  /** The protocol number every outbound frame carries. */
  const ProtocolNumber: u12 := 1024
  const LabelSize: nat := 32

  // Message-type codes used by the library.
  const GetService: u16 := 2
  const StateService: u16 := 3
  const GetHostFirmware: u16 := 14
  const StateHostFirmware: u16 := 15
  const GetLabel: u16 := 23
  const StateLabel: u16 := 25
  const GetVersion: u16 := 32
  const StateVersion: u16 := 33
  const GetColor: u16 := 101
  const SetColor: u16 := 102
  const LightState: u16 := 107
  const GetLightPowerType: u16 := 116  // apart from the getter Control.GetLightPower
  const SetLightPower: u16 := 117
  const StateLightPower: u16 := 118

  /** The reply a device sends to each query the library can issue. */
  function ResponseTo(query: u16): (r: Option<u16>)
    ensures r.Some? ==> PayloadSize(r.value).Some?
    ensures query == GetService ==> r == Some(StateService)
    ensures query == GetHostFirmware ==> r == Some(StateHostFirmware)
    ensures query == GetLabel ==> r == Some(StateLabel)
    ensures query == GetVersion ==> r == Some(StateVersion)
    ensures query == GetColor ==> r == Some(LightState)
    ensures query == GetLightPowerType ==> r == Some(StateLightPower)
    ensures r.Some? <==> query in {GetService, GetHostFirmware, GetLabel, GetVersion, GetColor, GetLightPowerType}
  {
    if query == GetService then Some(StateService)
    else if query == GetHostFirmware then Some(StateHostFirmware)
    else if query == GetLabel then Some(StateLabel)
    else if query == GetVersion then Some(StateVersion)
    else if query == GetColor then Some(LightState)
    else if query == GetLightPowerType then Some(StateLightPower)
    else None
  }

  // --- header ---

  /** The decoded header; the reserved fields are not kept (the library zeroes
      them when sending and ignores them when receiving). `target` is the
      8-byte address block: a 6-byte MAC followed by two pad bytes. */
  datatype Header = Header(
    size: u16,
    protocol: u12,
    addressable: bool,
    tagged: bool,
    origin: u2,
    source: u32,
    target: Bytes,
    resRequired: bool,
    ackRequired: bool,
    sequence: byte,
    msgType: u16)

  predicate WellFormed(h: Header)
  {
    |h.target| == 8
  }

  function Bit(b: bool): int
  {
    if b then 1 else 0
  }

  /** The 16-bit word after `size`: protocol in bits 0-11, addressable in
      bit 12, tagged in bit 13, origin in bits 14-15. */
  function FrameWord(h: Header): u16
  {
    (h.protocol as int + 0x1000 * Bit(h.addressable) + 0x2000 * Bit(h.tagged) + 0x4000 * h.origin as int) as u16
  }

  /** The flag byte of the frame address: res_required in bit 0, ack_required
      in bit 1, the six reserved bits zero. */
  function FlagByte(h: Header): byte
  {
    (Bit(h.resRequired) + 2 * Bit(h.ackRequired)) as byte
  }

  function EncodeFrame(h: Header): (r: Bytes)
    ensures |r| == FrameSize
  {
    U16(h.size) + U16(FrameWord(h)) + U32(h.source)
  }

  function EncodeFrameAddress(h: Header): (r: Bytes)
    requires WellFormed(h)
    ensures |r| == FrameAddressSize
  {
    h.target + Zeros(6) + [FlagByte(h), h.sequence]
  }

  function EncodeProtocolHeader(h: Header): (r: Bytes)
    ensures |r| == ProtocolHeaderSize
  {
    Zeros(8) + U16(h.msgType) + Zeros(2)
  }

  /** The 36 header bytes: an 8-byte frame, a 16-byte frame address and a
      12-byte protocol section, with every field at its wire offset. */
  function EncodeHeader(h: Header): (r: Bytes)
    requires WellFormed(h)
    ensures |r| == HeaderSize == FrameSize + FrameAddressSize + ProtocolHeaderSize
    ensures ReadU16(r, 0) == h.size
    ensures ReadU16(r, 2) as int % 0x1000 == h.protocol as int
    ensures (ReadU16(r, 2) as int / 0x1000 % 2 == 1) == h.addressable
    ensures (ReadU16(r, 2) as int / 0x2000 % 2 == 1) == h.tagged
    ensures ReadU16(r, 2) as int / 0x4000 == h.origin as int
    ensures ReadU32(r, 4) == h.source
    ensures r[8..16] == h.target
    ensures (r[22] as int % 2 == 1) == h.resRequired
    ensures (r[22] as int / 2 % 2 == 1) == h.ackRequired
    ensures r[23] == h.sequence
    ensures ReadU16(r, 32) == h.msgType
    ensures ReservedZero(r)
  {
    var frame, address, protocol := EncodeFrame(h), EncodeFrameAddress(h), EncodeProtocolHeader(h);
    var r := frame + address + protocol;
    assert ReadU32(r, 4) == ReadU32(U32(h.source), 0);
    assert ReadU16(r, 2) == ReadU16(U16(FrameWord(h)), 0);
    assert ReadU16(r, 32) == ReadU16(U16(h.msgType), 0);
    assert r[8..16] == h.target;
    r
  }

  /** The reserved header bits are all zero. */
  predicate ReservedZero(b: Bytes)
    requires |b| >= HeaderSize
  {
    && b[16..22] == Zeros(6)
    && b[22] as int / 4 == 0
    && b[24..32] == Zeros(8)
    && b[34..36] == Zeros(2)
  }

  /** Reads the header fields from their wire offsets. */
  function DecodeHeader(b: Bytes): (h: Header)
    requires |b| >= HeaderSize
    ensures WellFormed(h)
    ensures h.size == ReadU16(b, 0) && h.source == ReadU32(b, 4)
    ensures h.target == b[8..16] && h.msgType == ReadU16(b, 32)
  {
    var word := ReadU16(b, 2) as int;
    Header(
      size := ReadU16(b, 0),
      protocol := (word % 0x1000) as u12,
      addressable := word / 0x1000 % 2 == 1,
      tagged := word / 0x2000 % 2 == 1,
      origin := (word / 0x4000) as u2,
      source := ReadU32(b, 4),
      target := b[8..16],
      resRequired := b[22] as int % 2 == 1,
      ackRequired := b[22] as int / 2 % 2 == 1,
      sequence := b[23],
      msgType := ReadU16(b, 32))
  }

  /** Decoding an encoded header gives back every field. */
  lemma HeaderRoundTrip(h: Header)
    requires WellFormed(h)
    ensures DecodeHeader(EncodeHeader(h)) == h
  {
  }

  /** Decoding only looks at the first 36 bytes, so a payload after the header
      does not disturb it. */
  lemma DecodeHeaderPrefix(b: Bytes, rest: Bytes)
    requires |b| >= HeaderSize
    ensures DecodeHeader(b + rest) == DecodeHeader(b)
  {
    assert (b + rest)[8..16] == b[8..16];
  }

  /** The frame word splits into its four bit-fields and nothing else. */
  lemma FrameWordSplit(w: int)
    requires 0 <= w < 0x1_0000
    ensures w == w % 0x1000 + 0x1000 * (w / 0x1000 % 2) + 0x2000 * (w / 0x2000 % 2) + 0x4000 * (w / 0x4000)
  {
  }

  /** Conversely, a 36-byte header whose reserved bits are zero is exactly the
      encoding of what it decodes to. */
  lemma HeaderBytesRoundTrip(b: Bytes)
    requires |b| == HeaderSize && ReservedZero(b)
    ensures EncodeHeader(DecodeHeader(b)) == b
  {
    var h := DecodeHeader(b);
    FrameWordSplit(ReadU16(b, 2) as int);
    assert FrameWord(h) == ReadU16(b, 2);
    assert EncodeFrame(h) == b[..8] by {
      U16Onto(b[0..2]);
      U16Onto(b[2..4]);
      U32Onto(b[4..8]);
      assert ReadU16(b, 0) == ReadU16(b[0..2], 0);
      assert ReadU16(b, 2) == ReadU16(b[2..4], 0);
      assert ReadU32(b, 4) == ReadU32(b[4..8], 0);
      assert b[..8] == b[0..2] + b[2..4] + b[4..8];
    }
    assert EncodeFrameAddress(h) == b[8..24] by {
      assert FlagByte(h) == b[22];
      assert b[8..24] == b[8..16] + b[16..22] + [b[22], b[23]];
    }
    assert EncodeProtocolHeader(h) == b[24..36] by {
      U16Onto(b[32..34]);
      assert ReadU16(b, 32) == ReadU16(b[32..34], 0);
      assert b[24..36] == b[24..32] + b[32..34] + b[34..36];
    }
    assert b == b[..8] + b[8..24] + b[24..36];
  }

  // --- payloads of the messages the library receives ---

  /** A payload, classified by message type. A recognised type whose payload
      has the wrong length is `WrongSize`; any other type is `Unhandled`. */
  datatype Body =
    | Service(service: byte, port: u32)
    | HostFirmware(build: u64, minor: u16, major: u16)
    | Version(vendor: u32, product: u32)
    | Label(text: Bytes)
    | Light(hue: u16, saturation: u16, brightness: u16, kelvin: u16, power: u16, text: Bytes)
    | LightPower(level: u16)
    | WrongSize(msgType: u16)
    | Unhandled(msgType: u16)

  /** The exact payload length of each message type the library parses. */
  function PayloadSize(msgType: u16): (r: Option<nat>)
    ensures r.Some? <==> msgType in {StateService, StateHostFirmware, StateVersion, StateLabel, LightState, StateLightPower}
    ensures r.Some? ==> 0 < r.value < MaxPayload
  {
    if msgType == StateService then Some(5)
    else if msgType == StateHostFirmware then Some(20)
    else if msgType == StateVersion then Some(12)
    else if msgType == StateLabel then Some(LabelSize)
    else if msgType == LightState then Some(52)
    else if msgType == StateLightPower then Some(2)
    else None
  }

  predicate Parsed(b: Body)
  {
    !b.WrongSize? && !b.Unhandled?
  }

  function TypeOf(b: Body): u16
    requires Parsed(b)
  {
    match b
    case Service(_, _) => StateService
    case HostFirmware(_, _, _) => StateHostFirmware
    case Version(_, _) => StateVersion
    case Label(_) => StateLabel
    case Light(_, _, _, _, _, _) => LightState
    case LightPower(_) => StateLightPower
  }

  /** Classifies and parses a payload by message type, reading each field at
      its offset in the payload struct. */
  function DecodeBody(msgType: u16, p: Bytes): (r: Body)
    ensures r.Unhandled? <==> PayloadSize(msgType).None?
    ensures r.WrongSize? <==> PayloadSize(msgType).Some? && |p| != PayloadSize(msgType).value
    ensures Parsed(r) ==> TypeOf(r) == msgType && WellFormedBody(r)
  {
    match PayloadSize(msgType)
    case None => Unhandled(msgType)
    case Some(n) =>
      if |p| != n then WrongSize(msgType)
      else if msgType == StateService then Service(p[0], ReadU32(p, 1))
      else if msgType == StateHostFirmware then HostFirmware(ReadU64(p, 0), ReadU16(p, 16), ReadU16(p, 18))
      else if msgType == StateVersion then Version(ReadU32(p, 0), ReadU32(p, 4))
      else if msgType == StateLabel then Label(p)
      else if msgType == LightState then
        Light(ReadU16(p, 0), ReadU16(p, 2), ReadU16(p, 4), ReadU16(p, 6), ReadU16(p, 10), p[12..44])
      else LightPower(ReadU16(p, 0))
  }

  predicate WellFormedBody(b: Body)
  {
    && Parsed(b)
    && (b.Label? ==> |b.text| == LabelSize)
    && (b.Light? ==> |b.text| == LabelSize)
  }

  /** The payload a device sends for a message, reserved bytes zero. */
  function EncodeBody(b: Body): (r: Bytes)
    requires WellFormedBody(b)
    ensures PayloadSize(TypeOf(b)) == Some(|r|)
  {
    match b
    case Service(service, port) => [service] + U32(port)
    case HostFirmware(build, minor, major) => U64(build) + Zeros(8) + U16(minor) + U16(major)
    case Version(vendor, product) => U32(vendor) + U32(product) + Zeros(4)
    case Label(text) => text
    case Light(hue, saturation, brightness, kelvin, power, text) =>
      U16(hue) + U16(saturation) + U16(brightness) + U16(kelvin) + Zeros(2) + U16(power) + text + Zeros(8)
    case LightPower(level) => U16(level)
  }

  /** Parsing the payload a device would send gives back the message. */
  lemma BodyRoundTrip(b: Body)
    requires WellFormedBody(b)
    ensures DecodeBody(TypeOf(b), EncodeBody(b)) == b
  {
    var p := EncodeBody(b);
    match b
    case Service(service, port) =>
      assert ReadU32(p, 1) == ReadU32(U32(port), 0);
    case HostFirmware(build, minor, major) =>
      assert ReadU64(p, 0) == ReadU64(U64(build), 0);
      assert ReadU16(p, 16) == ReadU16(U16(minor), 0);
      assert ReadU16(p, 18) == ReadU16(U16(major), 0);
    case Version(vendor, product) =>
      assert ReadU32(p, 0) == ReadU32(U32(vendor), 0);
      assert ReadU32(p, 4) == ReadU32(U32(product), 0);
    case Label(_) =>
    case Light(_, _, _, _, _, _) =>
      LightStateRoundTrip(b);
    case LightPower(level) =>
  }

  /** The LightState case of BodyRoundTrip: every field at its offset. */
  lemma LightStateRoundTrip(b: Body)
    requires WellFormedBody(b) && b.Light?
    ensures DecodeBody(LightState, EncodeBody(b)) == b
  {
    var p := EncodeBody(b);
    assert ReadU16(p, 0) == ReadU16(U16(b.hue), 0);
    assert ReadU16(p, 2) == ReadU16(U16(b.saturation), 0);
    assert ReadU16(p, 4) == ReadU16(U16(b.brightness), 0);
    assert ReadU16(p, 6) == ReadU16(U16(b.kelvin), 0);
    assert ReadU16(p, 10) == ReadU16(U16(b.power), 0);
    assert p[12..44] == b.text;
  }

  // --- payloads of the commands the library sends ---

  datatype Command =
    | ColorCommand(hue: u16, saturation: u16, brightness: u16, kelvin: u16, duration: u32)
    | PowerCommand(level: u16, duration: u32)

  function CommandType(c: Command): u16
  {
    if c.ColorCommand? then SetColor else SetLightPower
  }

  /** SetColor: a reserved byte, then hue, saturation, brightness and kelvin
      as u16 and the transition time as u32 (13 bytes). SetLightPower: the
      level as u16, then the transition time as u32 (6 bytes). */
  function EncodeCommand(c: Command): (r: Bytes)
    ensures |r| <= MaxPayload
    ensures c.ColorCommand? ==>
      && |r| == 13 && r[0] == 0
      && ReadU16(r, 1) == c.hue && ReadU16(r, 3) == c.saturation
      && ReadU16(r, 5) == c.brightness && ReadU16(r, 7) == c.kelvin
      && ReadU32(r, 9) == c.duration
    ensures c.PowerCommand? ==>
      && |r| == 6 && ReadU16(r, 0) == c.level && ReadU32(r, 2) == c.duration
  {
    match c
    case ColorCommand(hue, saturation, brightness, kelvin, duration) =>
      var r := [0 as byte] + U16(hue) + U16(saturation) + U16(brightness) + U16(kelvin) + U32(duration);
      assert ReadU16(r, 1) == ReadU16(U16(hue), 0);
      assert ReadU16(r, 3) == ReadU16(U16(saturation), 0);
      assert ReadU16(r, 5) == ReadU16(U16(brightness), 0);
      assert ReadU16(r, 7) == ReadU16(U16(kelvin), 0);
      assert ReadU32(r, 9) == ReadU32(U32(duration), 0);
      r
    case PowerCommand(level, duration) =>
      var r := U16(level) + U32(duration);
      assert ReadU32(r, 2) == ReadU32(U32(duration), 0);
      r
  }

  /** How a device reads a command payload: by type and exact size, with the
      reserved byte of SetColor ignored. */
  function DecodeCommand(msgType: u16, p: Bytes): (r: Option<Command>)
    ensures r.Some? ==> CommandType(r.value) == msgType
    ensures r.Some? <==> (msgType == SetColor && |p| == 13) || (msgType == SetLightPower && |p| == 6)
  {
    if msgType == SetColor && |p| == 13 then
      Some(ColorCommand(ReadU16(p, 1), ReadU16(p, 3), ReadU16(p, 5), ReadU16(p, 7), ReadU32(p, 9)))
    else if msgType == SetLightPower && |p| == 6 then
      Some(PowerCommand(ReadU16(p, 0), ReadU32(p, 2)))
    else None
  }

  /** Every command the library sends reads back as itself. */
  lemma CommandRoundTrip(c: Command)
    ensures DecodeCommand(CommandType(c), EncodeCommand(c)) == Some(c)
  {
  }
}
