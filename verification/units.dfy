/**
 Conversions between the wire integers of a light's colour and power and the
 engineering units the library exposes: hue in degrees, saturation and
 brightness as fractions, and the on/off power mapping. The C `double`
 arithmetic is modelled with exact reals; C's double-to-integer conversions
 (truncation toward zero) and its `%` are written out.
 */
module Units {
  import opened Wire

  /** Hue in degrees from its wire value: w * 360 / 65536. */
  function HueDegrees(w: u16): (d: real)
    ensures 0.0 <= d < 360.0
  {
    (w as int as real) * 360.0 / 65536.0
  }

  /** Saturation or brightness as a fraction of its full-scale wire value 65535. */
  function Fraction(w: u16): (f: real)
    ensures 0.0 <= f <= 1.0
    ensures f == 0.0 <==> w == 0
    ensures f == 1.0 <==> w == 0xFFFF
  {
    (w as int as real) / 65535.0
  }

  /** C's conversion of a `double` to an integer type: truncation toward zero. */
  function Trunc(x: real): (r: int)
    ensures 0.0 <= x ==> 0 <= r && r as real <= x < r as real + 1.0
    ensures x < 0.0 ==> r <= 0 && r as real - 1.0 < x <= r as real
  {
    if x >= 0.0 then x.Floor else -((-x).Floor)
  }

  /** C's `a % 0x10000` on `int`: the remainder takes the sign of the dividend. */
  function CRemTurn(a: int): (r: int)
    ensures a >= 0 ==> 0 <= r < 0x1_0000
    ensures a < 0 ==> -0x1_0000 < r <= 0
    ensures r % 0x1_0000 == a % 0x1_0000
  {
    if a >= 0 then a % 0x1_0000 else -((-a) % 0x1_0000)
  }

  /** The value fits a C `int`. */
  predicate FitsInt(x: int)
  {
    -0x8000_0000 <= x < 0x8000_0000
  }

  /** The scaled hue `(int)(65536 * hue / 360)` before it is reduced. */
  function HueTurns(hue: real): int
  {
    Trunc(65536.0 * hue / 360.0)
  }

  /** The hue wire value of lifx_set_light_color: the scaled hue truncated to
      `int`, then C's `% 0x10000`, then stored in a `uint16_t`. The two
      reductions together wrap the hue around the circle: the result is the
      scaled hue modulo 65536, negative hues included. */
  function HueWire(hue: real): (w: u16)
    requires FitsInt(HueTurns(hue))
    ensures w as int == HueTurns(hue) % 0x1_0000
  {
    Unsigned16(CRemTurn(HueTurns(hue)))
  }

  /** Converting a fraction to `uint16_t` is defined in C only when the
      truncated product lies in 0..65535. */
  predicate FractionInRange(f: real)
  {
    -1.0 < f * 65535.0 < 65536.0
  }

  /** The saturation/brightness wire value of lifx_set_light_color:
      `fraction * 0xFFFF` truncated into a `uint16_t` (not rounded). */
  function FractionWire(f: real): (w: u16)
    requires FractionInRange(f)
    ensures f >= 0.0 ==> w as real <= f * 65535.0 < w as real + 1.0
    ensures f < 0.0 ==> w == 0
  {
    Trunc(f * 65535.0) as u16
  }

  /** A hue read from the wire converts back to the same wire value. */
  lemma HueWireOfDegrees(w: u16)
    ensures FitsInt(HueTurns(HueDegrees(w)))
    ensures HueWire(HueDegrees(w)) == w
  {
    assert 65536.0 * HueDegrees(w) / 360.0 == w as int as real;
  }

  /** A hue in [0, 360) survives the wire up to one wire step (360/65536
      degree), rounded down. */
  lemma HueQuantisation(hue: real)
    requires 0.0 <= hue < 360.0
    ensures FitsInt(HueTurns(hue))
    ensures hue - 360.0 / 65536.0 < HueDegrees(HueWire(hue)) <= hue
  {
    var t := HueTurns(hue);
    assert 0 <= t < 0x1_0000;
    assert HueWire(hue) as int == t;
  }

  /** Hue wire values wrap: a full turn more gives the same wire value. */
  lemma HueWireWraps(hue: real)
    requires FitsInt(HueTurns(hue)) && FitsInt(HueTurns(hue + 360.0))
    requires hue >= 0.0
    ensures HueWire(hue + 360.0) == HueWire(hue)
  {
    assert 65536.0 * (hue + 360.0) / 360.0 == 65536.0 * hue / 360.0 + 65536.0;
    assert HueTurns(hue + 360.0) == HueTurns(hue) + 0x1_0000;
  }

  /** The wrap needs a non-negative hue: C truncates toward zero before the
      remainder, so a hue just below zero lands one step above the same hue
      a full turn later. */
  lemma NegativeHueWrapIsOffByOne()
    ensures FitsInt(HueTurns(-0.5)) && FitsInt(HueTurns(359.5))
    ensures HueWire(-0.5) == 65445 && HueWire(359.5) == 65444
  {
    assert HueTurns(-0.5) == -91;
    assert HueTurns(359.5) == 65444;
  }

  /** A fraction read from the wire converts back to the same wire value. */
  lemma FractionWireOfFraction(w: u16)
    ensures FractionInRange(Fraction(w))
    ensures FractionWire(Fraction(w)) == w
  {
    assert Fraction(w) * 65535.0 == w as int as real;
  }

  /** A fraction in [0, 1] survives the wire up to one wire step, rounded down. */
  lemma FractionQuantisation(f: real)
    requires 0.0 <= f <= 1.0
    ensures FractionInRange(f)
    ensures f - 1.0 / 65535.0 < Fraction(FractionWire(f)) <= f
  {
  }

  /** Half a turn: 180 degrees is wire value 0x8000 and reads back as 180. */
  lemma HalfTurn()
    ensures FitsInt(HueTurns(180.0))
    ensures HueWire(180.0) == 0x8000 && HueDegrees(0x8000) == 180.0
  {
    assert 65536.0 * 180.0 / 360.0 == 32768.0;
  }

  /** A half fraction is truncated to 32767, one step below the nearest
      wire value 32768, and so reads back a little under one half. */
  lemma HalfFractionTruncates()
    ensures FractionInRange(0.5)
    ensures FractionWire(0.5) == 32767 && Fraction(32767) < 0.5
  {
    assert 0.5 * 65535.0 == 32767.5;
  }

  // --- power ---

  /** A light reads as powered only at the exact full-scale level 0xFFFF. */
  predicate IsPowered(level: u16)
  {
    level == 0xFFFF
  }

  /** The level lifx_set_light_powered sends: 0xFFFF for on, 0 for off. */
  function PowerLevel(powered: bool): (level: u16)
    ensures IsPowered(level) == powered
    ensures powered || level == 0
  {
    if powered then 0xFFFF else 0
  }
}
