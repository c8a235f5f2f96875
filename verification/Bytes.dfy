/** Bytes as the C code sees them: unsigned 8-bit values, 0xFF fill, bitwise AND and
    little-endian 32-bit words. */
module Bytes {

  newtype byte = i: int | 0 <= i < 0x100

  type Bytes = seq<byte>

  const U32: nat := 0x1_0000_0000

  /** `n` bytes of erased flash, or a `memset(p, 0xff, n)`. */
  function Blank(n: nat): (r: Bytes)
    ensures |r| == n
    ensures forall i :: 0 <= i < n ==> r[i] == 0xFF
  {
    seq(n, _ => 0xFF)
  }

  /** `memcpy(buf + off, data, |data|)`. */
  function Overlay(buf: Bytes, off: nat, data: Bytes): (r: Bytes)
    requires off + |data| <= |buf|
    ensures |r| == |buf|
    ensures forall i :: 0 <= i < |buf| ==> r[i] == if off <= i < off + |data| then data[i - off] else buf[i]
  {
    buf[..off] + data + buf[off + |data|..]
  }

  /** `a & b` */
  function And(a: byte, b: byte): byte {
    ((a as bv8) & (b as bv8)) as byte
  }

  /** Programming a 1 bit changes nothing; programming onto erased bits stores the value. */
  lemma AndErased(x: byte)
    ensures And(0xFF, x) == x == And(x, 0xFF)
  {
  }

  /** The four bytes of a `uint32_t` on the little-endian target: the byte of weight 1 comes first. */
  function Le32(v: nat): (r: Bytes)
    requires v < U32
    ensures |r| == 4
    ensures v == r[0] as nat + 0x100 * (r[1] as nat + 0x100 * (r[2] as nat + 0x100 * (r[3] as nat)))
  {
    Divide(v);
    [(v % 0x100) as byte, (v / 0x100 % 0x100) as byte, (v / 0x1_0000 % 0x100) as byte, (v / 0x100_0000) as byte]
  }

  /** The `uint32_t` stored in four bytes. */
  function FromLe32(b: Bytes): (v: nat)
    requires |b| == 4
    ensures v < U32
  {
    b[0] as nat + 0x100 * (b[1] as nat) + 0x1_0000 * (b[2] as nat) + 0x100_0000 * (b[3] as nat)
  }

  lemma Divide(v: nat)
    ensures v == v % 0x100 + 0x100 * (v / 0x100 % 0x100 + 0x100 * (v / 0x1_0000 % 0x100 + 0x100 * (v / 0x100_0000)))
  {
    var a := v / 0x100;
    var b := a / 0x100;
    assert v / 0x1_0000 == b && v / 0x100_0000 == b / 0x100;
  }

  lemma Le32RoundTrip(v: nat)
    requires v < U32
    ensures FromLe32(Le32(v)) == v
  {
  }
}
