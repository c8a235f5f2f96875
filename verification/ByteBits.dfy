/** The bits of a byte, for code that computes with bits: different bytes have different bits. */
module ByteBits {
  import opened Bytes

  predicate Bit(x: byte, weight: int)
    requires weight > 0
  {
    x as int / weight % 2 == 1
  }

  /** The eight bits of a byte. */
  function Bits(x: byte): bv8 {
    Assemble(Bit(x, 128), Bit(x, 64), Bit(x, 32), Bit(x, 16), Bit(x, 8), Bit(x, 4), Bit(x, 2), Bit(x, 1))
  }

  function Assemble(a: bool, b: bool, c: bool, d: bool, e: bool, f: bool, g: bool, h: bool): bv8 {
    (if a then 0x80 else 0) | (if b then 0x40 else 0) | (if c then 0x20 else 0) | (if d then 0x10 else 0) |
    (if e then 0x08 else 0) | (if f then 0x04 else 0) | (if g then 0x02 else 0) | (if h then 0x01 else 0)
  }

  lemma AssembleInjective(a: bool, b: bool, c: bool, d: bool, e: bool, f: bool, g: bool, h: bool,
                          a': bool, b': bool, c': bool, d': bool, e': bool, f': bool, g': bool, h': bool)
    requires Assemble(a, b, c, d, e, f, g, h) == Assemble(a', b', c', d', e', f', g', h')
    ensures a == a' && b == b' && c == c' && d == d' && e == e' && f == f' && g == g' && h == h'
  {
  }

  lemma Binary(x: int)
    requires 0 <= x < 256
    ensures x == 128 * (x / 128 % 2) + 64 * (x / 64 % 2) + 32 * (x / 32 % 2) + 16 * (x / 16 % 2)
              + 8 * (x / 8 % 2) + 4 * (x / 4 % 2) + 2 * (x / 2 % 2) + x / 1 % 2
  {
    assert x / 4 == x / 2 / 2 && x / 8 == x / 4 / 2 && x / 16 == x / 8 / 2 && x / 32 == x / 16 / 2;
    assert x / 64 == x / 32 / 2 && x / 128 == x / 64 / 2;
  }

  function When(b: bool, n: int): int {
    if b then n else 0
  }

  lemma BitsOf(x: byte)
    ensures x as int == When(Bit(x, 128), 128) + When(Bit(x, 64), 64) + When(Bit(x, 32), 32) + When(Bit(x, 16), 16)
                      + When(Bit(x, 8), 8) + When(Bit(x, 4), 4) + When(Bit(x, 2), 2) + When(Bit(x, 1), 1)
  {
    hide Bit, When;
    BitWeight(x, 128);
    BitWeight(x, 64);
    BitWeight(x, 32);
    BitWeight(x, 16);
    BitWeight(x, 8);
    BitWeight(x, 4);
    BitWeight(x, 2);
    BitWeight(x, 1);
    Binary(x as int);
  }

  lemma BitWeight(x: byte, w: int)
    requires w > 0
    ensures When(Bit(x, w), w) == w * (x as int / w % 2)
  {
  }

  lemma BitsDiffer(x: byte, y: byte)
    requires x != y
    ensures Bits(x) != Bits(y)
  {
    hide Assemble, Bit;
    BitsOf(x);
    BitsOf(y);
    if Bits(x) == Bits(y) {
      AssembleInjective(Bit(x, 128), Bit(x, 64), Bit(x, 32), Bit(x, 16), Bit(x, 8), Bit(x, 4), Bit(x, 2), Bit(x, 1),
                        Bit(y, 128), Bit(y, 64), Bit(y, 32), Bit(y, 16), Bit(y, 8), Bit(y, 4), Bit(y, 2), Bit(y, 1));
    }
  }

  lemma AssembleOnto(x: bv8)
    ensures x == Assemble(x & 0x80 != 0, x & 0x40 != 0, x & 0x20 != 0, x & 0x10 != 0, x & 0x08 != 0, x & 0x04 != 0,
            x & 0x02 != 0, x & 0x01 != 0)
  {
  }

  lemma Digit(n: int, m: int, b: bool)
    requires n == 2 * m + When(b, 1)
    ensures n / 2 == m && (n % 2 == 1 <==> b)
  {
  }

  /** Any eight bits are the bits of some byte. */
  lemma BitsOnto(x: bv8) returns (y: byte)
    ensures Bits(y) == x
  {
    hide Assemble;
    y := FromBits(x & 0x80 != 0, x & 0x40 != 0, x & 0x20 != 0, x & 0x10 != 0, x & 0x08 != 0, x & 0x04 != 0,
        x & 0x02 != 0, x & 0x01 != 0);
    AssembleOnto(x);
  }

  lemma FromBits(a: bool, b: bool, c: bool, d: bool, e: bool, f: bool, g: bool, h: bool) returns (y: byte)
    ensures Bit(y, 128) == a && Bit(y, 64) == b && Bit(y, 32) == c && Bit(y, 16) == d
    ensures Bit(y, 8) == e && Bit(y, 4) == f && Bit(y, 2) == g && Bit(y, 1) == h
  {
    var n7 := When(a, 1);
    var n6 := 2 * n7 + When(b, 1);
    var n5 := 2 * n6 + When(c, 1);
    var n4 := 2 * n5 + When(d, 1);
    var n3 := 2 * n4 + When(e, 1);
    var n2 := 2 * n3 + When(f, 1);
    var n1 := 2 * n2 + When(g, 1);
    var n := 2 * n1 + When(h, 1);
    Digit(n, n1, h);
    Digit(n1, n2, g);
    Digit(n2, n3, f);
    Digit(n3, n4, e);
    Digit(n4, n5, d);
    Digit(n5, n6, c);
    Digit(n6, n7, b);
    Halves(n);
    y := n as byte;
  }

  lemma Halves(x: int)
    requires 0 <= x < 256
    ensures x / 1 == x && x / 4 == x / 2 / 2 && x / 8 == x / 2 / 2 / 2 && x / 16 == x / 2 / 2 / 2 / 2
    ensures x / 32 == x / 2 / 2 / 2 / 2 / 2 && x / 64 == x / 2 / 2 / 2 / 2 / 2 / 2
    ensures x / 128 == x / 2 / 2 / 2 / 2 / 2 / 2 / 2
  {
    assert x / 4 == x / 2 / 2 && x / 8 == x / 4 / 2 && x / 16 == x / 8 / 2 && x / 32 == x / 16 / 2;
    assert x / 64 == x / 32 / 2 && x / 128 == x / 64 / 2;
  }
}
