/**
 The device registry of lifx.c: a fixed-capacity table of device records keyed
 by the 6-byte MAC, filled in discovery order and never evicted.

 The table is modelled by its in-use prefix: record `i` of the sequence is
 slot `i` of the C array, and the slots at or past the count are the zeroed,
 not-in-use slots. A device handle (a `lifx_device_t *` in C) is the slot
 index, `None` for NULL.
 */
module Registry {
  import opened Maybe
  import opened Wire
  import opened Protocol

  /** `LIFX_MAX_DEVICE_COUNT` */
  const MaxDevices: nat := 16
  const MacSize: nat := 6

  datatype Firmware = Firmware(build: u64, major: u16, minor: u16)

  /** The light part of a record. Hue is in degrees, saturation and
      brightness are fractions; kelvin is kept as the 16-bit pattern stored in
      the C `short`, power as the raw level. */
  datatype LightInfo = LightInfo(hue: real, saturation: real, brightness: real, kelvin: u16, power: u16)

  /** A device record (`lifx_device_t`). The group and location sections are
      never written by the library and are not modelled. `labelText` is the
      32-byte label, `terminator` the byte after it. */
  datatype Device = Device(
    mac: Bytes,
    ipv4: u32,
    port: u16,
    service: byte,
    vendor: u32,
    product: u32,
    firmware: Firmware,
    labelText: Bytes,
    terminator: byte,
    latency: int,
    firstUpdate: u64,
    lastSend: u64,
    lastUpdate: u64,
    isLight: bool,
    light: LightInfo)

  /** A record has a 6-byte MAC and a 32-byte label followed by a zero byte. */
  predicate WellFormedDevice(d: Device)
  {
    |d.mac| == MacSize && |d.labelText| == LabelSize && d.terminator == 0
  }

  /** A freshly created record: every field zero except the MAC. */
  function NewDevice(mac: Bytes): (d: Device)
    requires |mac| == MacSize
    ensures WellFormedDevice(d) && d.mac == mac
    ensures d.labelText == Zeros(LabelSize) && d.terminator == 0
    ensures d.ipv4 == 0 && d.port == 0 && d.service == 0
    ensures d.vendor == 0 && d.product == 0 && d.firmware == Firmware(0, 0, 0)
    ensures d.latency == 0 && d.firstUpdate == 0 && d.lastSend == 0 && d.lastUpdate == 0
    ensures !d.isLight
    ensures d.light.hue == 0.0 && d.light.saturation == 0.0 && d.light.brightness == 0.0
    ensures d.light.kelvin == 0 && d.light.power == 0
  {
    Device(mac, 0, 0, 0, 0, 0, Firmware(0, 0, 0), Zeros(LabelSize), 0, 0, 0, 0, 0, false,
      LightInfo(0.0, 0.0, 0.0, 0, 0))
  }

  /** No two records share a MAC. */
  ghost predicate UniqueMacs(ds: seq<Device>)
  {
    forall i, j | 0 <= i < j < |ds| :: ds[i].mac != ds[j].mac
  }

  /** The registry invariant: within capacity, records well formed, MACs unique. */
  ghost predicate Valid(ds: seq<Device>)
  {
    && |ds| <= MaxDevices
    && (forall i | 0 <= i < |ds| :: WellFormedDevice(ds[i]))
    && UniqueMacs(ds)
  }

  /** The linear scan of lifx_get_device_internal, from slot `from` on: the
      first record with the MAC. */
  function FindFrom(ds: seq<Device>, mac: Bytes, from: nat): (r: Option<nat>)
    requires from <= |ds|
    ensures r.Some? ==> from <= r.value < |ds| && ds[r.value].mac == mac
    ensures r.Some? ==> forall j | from <= j < r.value :: ds[j].mac != mac
    ensures r.None? ==> forall j | from <= j < |ds| :: ds[j].mac != mac
    decreases |ds| - from
  {
    if from == |ds| then None
    else if ds[from].mac == mac then Some(from)
    else FindFrom(ds, mac, from + 1)
  }

  /** The slot holding `mac`, if any. */
  function FindIndex(ds: seq<Device>, mac: Bytes): (r: Option<nat>)
    ensures r.Some? ==> r.value < |ds| && ds[r.value].mac == mac
    ensures r.None? <==> forall j | 0 <= j < |ds| :: ds[j].mac != mac
  {
    FindFrom(ds, mac, 0)
  }

  /** With unique MACs the scan finds the one record that has the MAC. */
  lemma FindIndexUnique(ds: seq<Device>, i: nat)
    requires UniqueMacs(ds) && i < |ds|
    ensures FindIndex(ds, ds[i].mac) == Some(i)
  {
  }

  /** The result of a lookup: the (possibly extended) table and the handle. */
  datatype Lookup = Lookup(devices: seq<Device>, handle: Option<nat>)

  /** lifx_get_device_internal: an existing record is returned whatever
      `create` is; otherwise a zeroed record is appended when `create` is set
      and there is room; otherwise NULL and nothing changes. */
  function FindOrCreate(ds: seq<Device>, mac: Bytes, create: bool): (r: Lookup)
    requires |mac| == MacSize
    ensures (exists i | 0 <= i < |ds| :: ds[i].mac == mac) ==>
      r.devices == ds && r.handle.Some? && r.handle.value < |ds| && ds[r.handle.value].mac == mac
    ensures (forall i | 0 <= i < |ds| :: ds[i].mac != mac) && create && |ds| < MaxDevices ==>
      r.devices == ds + [NewDevice(mac)] && r.handle == Some(|ds|)
    ensures (forall i | 0 <= i < |ds| :: ds[i].mac != mac) && (!create || |ds| >= MaxDevices) ==>
      r.devices == ds && r.handle.None?
    ensures ds <= r.devices && |r.devices| <= |ds| + 1
    ensures r.handle.Some? ==> r.handle.value < |r.devices| && r.devices[r.handle.value].mac == mac
    ensures Valid(ds) ==> Valid(r.devices)
  {
    match FindIndex(ds, mac)
    case Some(i) => Lookup(ds, Some(i))
    case None =>
      if |ds| < MaxDevices && create then Lookup(ds + [NewDevice(mac)], Some(|ds|))
      else Lookup(ds, None)
  }

  /** lifx_get_device: lookup by MAC, never creating. */
  function GetDevice(ds: seq<Device>, mac: Bytes): (h: Option<nat>)
    requires |mac| == MacSize
    ensures h.Some? <==> exists i | 0 <= i < |ds| :: ds[i].mac == mac
    ensures h.Some? ==> h.value < |ds| && ds[h.value].mac == mac
    ensures FindOrCreate(ds, mac, false).devices == ds
  {
    FindOrCreate(ds, mac, false).handle
  }

  /** lifx_get_device_count. */
  function DeviceCount(ds: seq<Device>): (n: nat)
    requires Valid(ds)
    ensures n <= MaxDevices
    ensures forall i: nat :: i < n <==> DeviceFromNum(ds, i).Some?
  {
    |ds|
  }

  /** What a slot lookup yields: a handle, NULL, or a read outside the table
      (undefined behaviour in C). */
  datatype SlotAccess = Handle(index: nat) | Null | OutsideTable

  /** lifx_get_device_from_num as written: slot `num` is read before any check
      on the lower bound, so a negative `num` reads outside the table. */
  function DeviceFromNumAsWritten(ds: seq<Device>, num: int): (r: SlotAccess)
    ensures num < 0 ==> r == OutsideTable
    ensures 0 <= num ==> (r.Handle? <==> num < |ds| && num < MaxDevices)
    ensures r.Handle? ==> r.index == num
  {
    if num >= MaxDevices as int then Null
    else if num < 0 then OutsideTable
    else if num >= |ds| then Null
    else Handle(num)
  }

  /** A negative index reads before the first slot. */
  lemma NegativeIndexReadsOutsideTable(ds: seq<Device>)
    ensures DeviceFromNumAsWritten(ds, -1) == OutsideTable
  {
  }

  /** lifx_get_device_from_num as intended: NULL for any index outside the
      in-use slots, negative ones included. */
  function DeviceFromNum(ds: seq<Device>, num: int): (h: Option<nat>)
    ensures h.Some? <==> 0 <= num < |ds| && num < MaxDevices
    ensures h.Some? ==> h.value == num
    ensures 0 <= num ==> (h.Some? <==> DeviceFromNumAsWritten(ds, num).Handle?)
  {
    if num < 0 || num >= MaxDevices as int || num >= |ds| then None else Some(num)
  }

  // --- sequences of registry calls ---

  /** A call of lifx_get_device_internal. */
  datatype Call = Call(mac: Bytes, create: bool)

  function ApplyCalls(ds: seq<Device>, calls: seq<Call>): seq<Device>
    requires forall k | 0 <= k < |calls| :: |calls[k].mac| == MacSize
    decreases |calls|
  {
    if |calls| == 0 then ds
    else ApplyCalls(FindOrCreate(ds, calls[0].mac, calls[0].create).devices, calls[1..])
  }

  /** Some call in `calls` asked to create `mac`. */
  ghost predicate CreationRequested(calls: seq<Call>, mac: Bytes)
  {
    exists k | 0 <= k < |calls| :: calls[k].create && calls[k].mac == mac
  }

  /** For any sequence of calls the table stays valid (at most one record per
      MAC, never more than 16), records are only ever appended, and every
      record appended carries a MAC some creating call asked for. */
  lemma {:induction false} ApplyCallsKeepsValid(ds: seq<Device>, calls: seq<Call>)
    requires forall k | 0 <= k < |calls| :: |calls[k].mac| == MacSize
    requires Valid(ds)
    ensures Valid(ApplyCalls(ds, calls))
    ensures ds <= ApplyCalls(ds, calls)
    ensures forall i | |ds| <= i < |ApplyCalls(ds, calls)| :: CreationRequested(calls, ApplyCalls(ds, calls)[i].mac)
    decreases |calls|
  {
    var end := ApplyCalls(ds, calls);
    if |calls| == 0 {
      assert end == ds;
    } else {
      var next := FindOrCreate(ds, calls[0].mac, calls[0].create).devices;
      ApplyCallsKeepsValid(next, calls[1..]);
      assert end == ApplyCalls(next, calls[1..]);
      forall i | |ds| <= i < |end|
        ensures CreationRequested(calls, end[i].mac)
      {
        if i < |next| {
          assert next == ds + [NewDevice(calls[0].mac)] && i == |ds|;
          assert end[i] == next[i];
          assert calls[0].create && calls[0].mac == end[i].mac;
        } else {
          assert CreationRequested(calls[1..], end[i].mac);
          var k :| 0 <= k < |calls[1..]| && calls[1..][k].create && calls[1..][k].mac == end[i].mac;
          assert calls[k + 1] == calls[1..][k];
        }
      }
    }
  }

  /** Nothing is evicted: a MAC in the table stays in it whatever calls follow. */
  lemma {:induction false} CreatedMacStays(ds: seq<Device>, calls: seq<Call>, mac: Bytes)
    requires forall k | 0 <= k < |calls| :: |calls[k].mac| == MacSize
    requires exists i | 0 <= i < |ds| :: ds[i].mac == mac
    ensures exists i | 0 <= i < |ApplyCalls(ds, calls)| :: ApplyCalls(ds, calls)[i].mac == mac
    decreases |calls|
  {
    var i :| 0 <= i < |ds| && ds[i].mac == mac;
    if |calls| == 0 {
      assert ApplyCalls(ds, calls)[i].mac == mac;
    } else {
      var next := FindOrCreate(ds, calls[0].mac, calls[0].create).devices;
      assert ds <= next;
      assert next[i].mac == mac;
      CreatedMacStays(next, calls[1..], mac);
      assert ApplyCalls(ds, calls) == ApplyCalls(next, calls[1..]);
    }
  }
}
