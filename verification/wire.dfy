/**
 Byte-level helpers for the LIFX LAN protocol: every multi-byte integer is
 little-endian on the wire, whatever the host byte order. Also models the
 host byte-swap macros `LE16` and `LE` of lifx_internal.h and the C integer
 conversions the library relies on.
 */
module Wire {

  newtype byte = x: int | 0 <= x < 0x100
  newtype u16 = x: int | 0 <= x < 0x1_0000
  newtype u32 = x: int | 0 <= x < 0x1_0000_0000
  newtype u64 = x: int | 0 <= x < 0x1_0000_0000_0000_0000

  type Bytes = seq<byte>

  /** `n` zero bytes (what `memset(…, 0, …)` leaves behind). */
  function Zeros(n: nat): (r: Bytes)
    ensures |r| == n
    ensures forall k | 0 <= k < n :: r[k] == 0
  {
    seq(n, _ => 0 as byte)
  }

  /** Reads the little-endian 16-bit value stored at `off`. */
  function ReadU16(b: Bytes, off: nat): u16
    requires off + 2 <= |b|
  {
    (b[off] as int + 0x100 * b[off + 1] as int) as u16
  }

  /** Reads the little-endian 32-bit value stored at `off`. */
  function ReadU32(b: Bytes, off: nat): u32
    requires off + 4 <= |b|
  {
    (ReadU16(b, off) as int + 0x1_0000 * ReadU16(b, off + 2) as int) as u32
  }

  /** Reads the little-endian 64-bit value stored at `off`. */
  function ReadU64(b: Bytes, off: nat): u64
    requires off + 8 <= |b|
  {
    (ReadU32(b, off) as int + 0x1_0000_0000 * ReadU32(b, off + 4) as int) as u64
  }

  /** The two wire bytes of a 16-bit value, low byte first. */
  function U16(x: u16): (r: Bytes)
    ensures |r| == 2
    ensures ReadU16(r, 0) == x
  {
    [(x % 0x100) as byte, (x / 0x100) as byte]
  }

  /** The four wire bytes of a 32-bit value, low byte first. */
  function U32(x: u32): (r: Bytes)
    ensures |r| == 4
    ensures ReadU32(r, 0) == x
  {
    U16((x % 0x1_0000) as u16) + U16((x / 0x1_0000) as u16)
  }

  /** The eight wire bytes of a 64-bit value, low byte first. */
  function U64(x: u64): (r: Bytes)
    ensures |r| == 8
    ensures ReadU64(r, 0) == x
  {
    var lo := U32((x % 0x1_0000_0000) as u32);
    var hi := U32((x / 0x1_0000_0000) as u32);
    assert ReadU32(lo + hi, 0) == ReadU32(lo, 0);
    assert ReadU32(lo + hi, 4) == ReadU32(hi, 0);
    lo + hi
  }

  /** Every pair of bytes is the encoding of the value it reads as. */
  lemma U16Onto(b: Bytes)
    requires |b| == 2
    ensures U16(ReadU16(b, 0)) == b
  {
  }

  /** Every four bytes are the encoding of the value they read as. */
  lemma U32Onto(b: Bytes)
    requires |b| == 4
    ensures U32(ReadU32(b, 0)) == b
  {
    U16Onto(b[..2]);
    U16Onto(b[2..]);
    assert ReadU16(b, 0) == ReadU16(b[..2], 0);
    assert ReadU16(b, 2) == ReadU16(b[2..], 0);
  }

  // --- host byte order (lifx_internal.h) ---

  /** How a 16-bit value is laid out in host memory. */
  function HostBytes16(bigEndian: bool, x: u16): (r: Bytes)
    ensures |r| == 2
  {
    if bigEndian then [(x / 0x100) as byte, (x % 0x100) as byte] else U16(x)
  }

  /** How a 32-bit value is laid out in host memory: a big-endian host stores
      the wire bytes in reverse order. */
  function HostBytes32(bigEndian: bool, x: u32): (r: Bytes)
    ensures |r| == 4
  {
    if bigEndian then Reverse4(U32(x)) else U32(x)
  }

  function Reverse4(b: Bytes): (r: Bytes)
    requires |b| == 4
    ensures |r| == 4
  {
    [b[3], b[2], b[1], b[0]]
  }

  /** `LE16` on a big-endian build: swap the two bytes, masked to 16 bits. */
  function Swap16(i: u16): (r: u16)
    ensures U16(r) == [U16(i)[1], U16(i)[0]]
  {
    (((i as int % 0x100) * 0x100 + (i as int / 0x100) % 0x100) % 0x1_0000) as u16
  }

  /** `LE` on a big-endian build, term by term: the top byte shifted down 24,
      the second byte down 8, the third byte up 8 and `i << 24` truncated to
      32 bits. The four terms occupy disjoint bytes, so `|` is their sum. */
  function Swap32(i: u32): u32
  {
    var x := i as int;
    (x / 0x100_0000
     + (x / 0x1_0000 % 0x100) * 0x100
     + (x / 0x100 % 0x100) * 0x1_0000
     + (x % 0x100) * 0x100_0000) as u32
  }

  /** The wire bytes of a 32-bit value are its base-256 digits, low first. */
  lemma U32Digits(x: u32)
    ensures U32(x) == [(x as int % 0x100) as byte, (x as int / 0x100 % 0x100) as byte,
                       (x as int / 0x1_0000 % 0x100) as byte, (x as int / 0x100_0000) as byte]
  {
    var lo := x as int % 0x1_0000;
    var hi := x as int / 0x1_0000;
    assert lo / 0x100 == x as int / 0x100 % 0x100;
    assert hi / 0x100 == x as int / 0x100_0000;
  }

  /** Four base-256 digits read back from the number they spell. */
  lemma DigitsOf(a: int, b: int, c: int, d: int)
    requires 0 <= a < 0x100 && 0 <= b < 0x100 && 0 <= c < 0x100 && 0 <= d < 0x100
    ensures var x := a + b * 0x100 + c * 0x1_0000 + d * 0x100_0000;
      && x % 0x100 == a && x / 0x100 % 0x100 == b
      && x / 0x1_0000 % 0x100 == c && x / 0x100_0000 == d
  {
    var x := a + b * 0x100 + c * 0x1_0000 + d * 0x100_0000;
    assert x / 0x100 == b + c * 0x100 + d * 0x1_0000;
    assert x / 0x1_0000 == c + d * 0x100;
    assert x / 0x100_0000 == d;
  }

  /** `LE16`: a swap on big-endian builds and the identity otherwise. Storing
      the result in host memory gives the little-endian wire bytes. */
  function Le16(bigEndian: bool, i: u16): (r: u16)
    ensures HostBytes16(bigEndian, r) == U16(i)
    ensures !bigEndian ==> r == i
  {
    if bigEndian then Swap16(i) else i
  }

  /** `LE`: a byte reversal on big-endian builds and the identity otherwise.
      Storing the result in host memory gives the little-endian wire bytes. */
  function Le32(bigEndian: bool, i: u32): (r: u32)
    ensures HostBytes32(bigEndian, r) == U32(i)
    ensures !bigEndian ==> r == i
  {
    if bigEndian then
      Swap32ReversesBytes(i);
      Swap32(i)
    else i
  }

  /** Both macros undo themselves: converting twice gives the value back. */
  lemma LeInvolutions(bigEndian: bool, i: u16, j: u32)
    ensures Le16(bigEndian, Le16(bigEndian, i)) == i
    ensures Le32(bigEndian, Le32(bigEndian, j)) == j
  {
    if bigEndian {
      Swap32ReversesBytes(j);
      Swap32ReversesBytes(Swap32(j));
      assert U32(Swap32(Swap32(j))) == U32(j);
      assert ReadU32(U32(Swap32(Swap32(j))), 0) == ReadU32(U32(j), 0);
    }
  }

  /** On a big-endian build `LE` reverses the order of the value's wire bytes. */
  lemma Swap32ReversesBytes(i: u32)
    ensures U32(Swap32(i)) == Reverse4(U32(i))
  {
    var x := i as int;
    var b0, b1, b2, b3 := x % 0x100, x / 0x100 % 0x100, x / 0x1_0000 % 0x100, x / 0x100_0000;
    U32Digits(i);
    DigitsOf(b3, b2, b1, b0);
    U32Digits(Swap32(i));
  }

  // --- C integer conversions ---

  /** Conversion of an unsigned 32-bit value to C `int` (two's complement). */
  function Signed32(x: u32): (r: int)
    ensures -0x8000_0000 <= r < 0x8000_0000
    ensures r % 0x1_0000_0000 == x as int
  {
    if x < 0x8000_0000 then x as int else x as int - 0x1_0000_0000
  }

  /** Conversion of a 16-bit bit pattern to C `short` (two's complement). */
  function Signed16(x: u16): (r: int)
    ensures -0x8000 <= r < 0x8000
    ensures r % 0x1_0000 == x as int
  {
    if x < 0x8000 then x as int else x as int - 0x1_0000
  }

  /** Conversion of any C integer to `uint16_t`: reduction modulo 2^16. */
  function Unsigned16(x: int): (r: u16)
    ensures r as int == x % 0x1_0000
  {
    (x % 0x1_0000) as u16
  }

  /** `short` -> `uint16_t` -> `short` gives the value back. */
  lemma Signed16Unsigned16(k: int)
    requires -0x8000 <= k < 0x8000
    ensures Signed16(Unsigned16(k)) == k
  {
  }
}
