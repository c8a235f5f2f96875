/** CRC-16 with polynomial x^16 + x^15 + x^2 + 1, reflected: the table-driven code against the
    bitwise shift register it stands for, and what it detects. */
module Crc16 {

  /** A checksum run over a message, one byte at a time. */
  function Fold<T>(step: (T, bv8) -> T, state: T, msg: seq<bv8>): T
    decreases |msg|
  {
    if msg == [] then state else Fold(step, step(state, msg[0]), msg[1..])
  }

  function Xor(x: bv16, y: bv16): bv16 {
    x ^ y
  }

  /** A byte folded into the low end of the register. */
  function FoldLow(x: bv16, e: bv8): bv16 {
    x ^ (e as bv16)
  }

  /** A byte folded into the high end. */
  function FoldHigh(x: bv16, e: bv8): bv16 {
    x ^ ((e as bv16) << 8)
  }

  /** One clock of the register. */
  function Feedback(x: bv16): bv16 {
    if x & 1 == 1 then (x >> 1) ^ 0xA001 else x >> 1
  }

  function Clocks(x: bv16, n: nat): bv16
    decreases n
  {
    if n == 0 then x else Clocks(Feedback(x), n - 1)
  }

  /** The register fed with one byte: fold it into the low end, then eight clocks. */
  function RegisterByte(crc: bv16, d: bv8): bv16 {
    Clocks(FoldLow(crc, d), 8)
  }

  /** The bitwise CRC of a message. */
  function Register(crc: bv16, msg: seq<bv8>): bv16 {
    Fold(RegisterByte, crc, msg)
  }

  /** Column `k` of a row of eight. */
  function Pick(k: bv16, a: bv16, b: bv16, c: bv16, d: bv16, e: bv16, f: bv16, g: bv16, h: bv16): bv16 {
    if k == 0 then a else if k == 1 then b else if k == 2 then c else if k == 3 then d
    else if k == 4 then e else if k == 5 then f else if k == 6 then g else h
  }

  /** `crc16_table[i]`, laid out in four blocks of eight rows of eight. */
  function Table(i: bv16): bv16
    requires i <= 0xFF
  {
    var r, k := (i >> 3) & 7, i & 7;
    if i < 0x40 then Block0(r, k)
    else if i < 0x80 then Block1(r, k)
    else if i < 0xC0 then Block2(r, k)
    else Block3(r, k)
  }

  function Block0(r: bv16, k: bv16): bv16 {
    if r == 0 then Pick(k, 0x0000, 0xC0C1, 0xC181, 0x0140, 0xC301, 0x03C0, 0x0280, 0xC241)
    else if r == 1 then Pick(k, 0xC601, 0x06C0, 0x0780, 0xC741, 0x0500, 0xC5C1, 0xC481, 0x0440)
    else if r == 2 then Pick(k, 0xCC01, 0x0CC0, 0x0D80, 0xCD41, 0x0F00, 0xCFC1, 0xCE81, 0x0E40)
    else if r == 3 then Pick(k, 0x0A00, 0xCAC1, 0xCB81, 0x0B40, 0xC901, 0x09C0, 0x0880, 0xC841)
    else if r == 4 then Pick(k, 0xD801, 0x18C0, 0x1980, 0xD941, 0x1B00, 0xDBC1, 0xDA81, 0x1A40)
    else if r == 5 then Pick(k, 0x1E00, 0xDEC1, 0xDF81, 0x1F40, 0xDD01, 0x1DC0, 0x1C80, 0xDC41)
    else if r == 6 then Pick(k, 0x1400, 0xD4C1, 0xD581, 0x1540, 0xD701, 0x17C0, 0x1680, 0xD641)
    else Pick(k, 0xD201, 0x12C0, 0x1380, 0xD341, 0x1100, 0xD1C1, 0xD081, 0x1040)
  }

  function Block1(r: bv16, k: bv16): bv16 {
    if r == 0 then Pick(k, 0xF001, 0x30C0, 0x3180, 0xF141, 0x3300, 0xF3C1, 0xF281, 0x3240)
    else if r == 1 then Pick(k, 0x3600, 0xF6C1, 0xF781, 0x3740, 0xF501, 0x35C0, 0x3480, 0xF441)
    else if r == 2 then Pick(k, 0x3C00, 0xFCC1, 0xFD81, 0x3D40, 0xFF01, 0x3FC0, 0x3E80, 0xFE41)
    else if r == 3 then Pick(k, 0xFA01, 0x3AC0, 0x3B80, 0xFB41, 0x3900, 0xF9C1, 0xF881, 0x3840)
    else if r == 4 then Pick(k, 0x2800, 0xE8C1, 0xE981, 0x2940, 0xEB01, 0x2BC0, 0x2A80, 0xEA41)
    else if r == 5 then Pick(k, 0xEE01, 0x2EC0, 0x2F80, 0xEF41, 0x2D00, 0xEDC1, 0xEC81, 0x2C40)
    else if r == 6 then Pick(k, 0xE401, 0x24C0, 0x2580, 0xE541, 0x2700, 0xE7C1, 0xE681, 0x2640)
    else Pick(k, 0x2200, 0xE2C1, 0xE381, 0x2340, 0xE101, 0x21C0, 0x2080, 0xE041)
  }

  function Block2(r: bv16, k: bv16): bv16 {
    if r == 0 then Pick(k, 0xA001, 0x60C0, 0x6180, 0xA141, 0x6300, 0xA3C1, 0xA281, 0x6240)
    else if r == 1 then Pick(k, 0x6600, 0xA6C1, 0xA781, 0x6740, 0xA501, 0x65C0, 0x6480, 0xA441)
    else if r == 2 then Pick(k, 0x6C00, 0xACC1, 0xAD81, 0x6D40, 0xAF01, 0x6FC0, 0x6E80, 0xAE41)
    else if r == 3 then Pick(k, 0xAA01, 0x6AC0, 0x6B80, 0xAB41, 0x6900, 0xA9C1, 0xA881, 0x6840)
    else if r == 4 then Pick(k, 0x7800, 0xB8C1, 0xB981, 0x7940, 0xBB01, 0x7BC0, 0x7A80, 0xBA41)
    else if r == 5 then Pick(k, 0xBE01, 0x7EC0, 0x7F80, 0xBF41, 0x7D00, 0xBDC1, 0xBC81, 0x7C40)
    else if r == 6 then Pick(k, 0xB401, 0x74C0, 0x7580, 0xB541, 0x7700, 0xB7C1, 0xB681, 0x7640)
    else Pick(k, 0x7200, 0xB2C1, 0xB381, 0x7340, 0xB101, 0x71C0, 0x7080, 0xB041)
  }

  function Block3(r: bv16, k: bv16): bv16 {
    if r == 0 then Pick(k, 0x5000, 0x90C1, 0x9181, 0x5140, 0x9301, 0x53C0, 0x5280, 0x9241)
    else if r == 1 then Pick(k, 0x9601, 0x56C0, 0x5780, 0x9741, 0x5500, 0x95C1, 0x9481, 0x5440)
    else if r == 2 then Pick(k, 0x9C01, 0x5CC0, 0x5D80, 0x9D41, 0x5F00, 0x9FC1, 0x9E81, 0x5E40)
    else if r == 3 then Pick(k, 0x5A00, 0x9AC1, 0x9B81, 0x5B40, 0x9901, 0x59C0, 0x5880, 0x9841)
    else if r == 4 then Pick(k, 0x8801, 0x48C0, 0x4980, 0x8941, 0x4B00, 0x8BC1, 0x8A81, 0x4A40)
    else if r == 5 then Pick(k, 0x4E00, 0x8EC1, 0x8F81, 0x4F40, 0x8D01, 0x4DC0, 0x4C80, 0x8C41)
    else if r == 6 then Pick(k, 0x4400, 0x84C1, 0x8581, 0x4540, 0x8701, 0x47C0, 0x4680, 0x8641)
    else Pick(k, 0x8201, 0x42C0, 0x4380, 0x8341, 0x4100, 0x81C1, 0x8081, 0x4040)
  }

  /** `crc16_byte` */
  function TableByte(crc: bv16, d: bv8): bv16 {
    Xor(crc >> 8, Table(FoldLow(crc, d) & 0xFF))
  }

  /** `crc16`: the loop over the buffer. */
  method ComputeCrc16(crc: bv16, buffer: seq<bv8>) returns (r: bv16)
    ensures r == Register(crc, buffer)
  {
    r := crc;
    var i := 0;
    while i < |buffer|
      invariant 0 <= i <= |buffer|
      invariant Fold(TableByte, r, buffer[i..]) == Fold(TableByte, crc, buffer)
    {
      assert buffer[i..][1..] == buffer[i + 1..];
      r := TableByte(r, buffer[i]);
      i := i + 1;
    }
    TableIsRegister(crc, buffer);
  }

  /** The same clock as wiring: bits move down one place and the lowest one goes to places 15, 13 and 0. */
  function Wired(x: bv16): bv16 {
    (x >> 1) ^ (x << 15) ^ ((x & 1) << 13) ^ (x & 1)
  }

  function Wired8(x: bv16): bv16 {
    Wired(Wired(Wired(Wired(Wired(Wired(Wired(Wired(x))))))))
  }

  lemma WiredIsFeedback(x: bv16)
    ensures Feedback(x) == Wired(x)
  {
    if x & 1 == 1 {
      assert x << 15 == 0x8000;
    } else {
      assert x << 15 == 0;
    }
  }

  lemma Wired8IsClocks(x: bv16)
    ensures Clocks(x, 8) == Wired8(x)
  {
    WiredIsFeedback(x);
    var a := Wired(x);
    WiredIsFeedback(a);
    var b := Wired(a);
    WiredIsFeedback(b);
    var c := Wired(b);
    WiredIsFeedback(c);
    var d := Wired(c);
    WiredIsFeedback(d);
    var e := Wired(d);
    WiredIsFeedback(e);
    var f := Wired(e);
    WiredIsFeedback(f);
    WiredIsFeedback(Wired(f));
  }

  lemma Block0Entries(r: bv16, k: bv16)
    requires r <= 7 && k <= 7
    ensures Block0(r, k) == Wired8((r << 3) | k)
  {
  }

  lemma Block1Entries(r: bv16, k: bv16)
    requires r <= 7 && k <= 7
    ensures Block1(r, k) == Wired8(0x40 | (r << 3) | k)
  {
  }

  lemma Block2Entries(r: bv16, k: bv16)
    requires r <= 7 && k <= 7
    ensures Block2(r, k) == Wired8(0x80 | (r << 3) | k)
  {
  }

  lemma Block3Entries(r: bv16, k: bv16)
    requires r <= 7 && k <= 7
    ensures Block3(r, k) == Wired8(0xC0 | (r << 3) | k)
  {
  }

  /** Every table entry is eight clocks of its index. */
  lemma TableEntry(i: bv16)
    requires i <= 0xFF
    ensures Table(i) == Wired8(i)
  {
    var r, k := (i >> 3) & 7, i & 7;
    if i < 0x40 {
      assert i == (r << 3) | k;
      Block0Entries(r, k);
    } else if i < 0x80 {
      assert i == 0x40 | (r << 3) | k;
      Block1Entries(r, k);
    } else if i < 0xC0 {
      assert i == 0x80 | (r << 3) | k;
      Block2Entries(r, k);
    } else {
      assert i == 0xC0 | (r << 3) | k;
      Block3Entries(r, k);
    }
  }

  /** A clock is linear over exclusive or. */
  lemma WiredXor(x: bv16, y: bv16)
    ensures Wired(Xor(x, y)) == Xor(Wired(x), Wired(y))
  {
  }

  lemma EightTimes<T(!new)>(f: T -> T, g: (T, T) -> T, x: T, y: T)
    requires forall a, b :: f(g(a, b)) == g(f(a), f(b))
    ensures f(f(f(f(f(f(f(f(g(x, y))))))))) == g(f(f(f(f(f(f(f(f(x)))))))), f(f(f(f(f(f(f(f(y)))))))))
  {
  }

  lemma Wired8Xor(x: bv16, y: bv16)
    ensures Wired8(Xor(x, y)) == Xor(Wired8(x), Wired8(y))
  {
    hide Wired, Xor;
    forall a, b ensures Wired(Xor(a, b)) == Xor(Wired(a), Wired(b)) {
      WiredXor(a, b);
    }
    EightTimes(Wired, Xor, x, y);
  }

  lemma WiredEven(x: bv16)
    requires x & 1 == 0
    ensures Wired(x) == x >> 1
  {
  }

  /** Eight clocks only shift a register whose low byte is clear. */
  lemma Wired8High(h: bv16)
    requires h & 0xFF == 0
    ensures Wired8(h) == h >> 8
  {
    hide Wired;
    WiredEven(h);
    WiredEven(h >> 1);
    WiredEven(h >> 2);
    WiredEven(h >> 3);
    WiredEven(h >> 4);
    WiredEven(h >> 5);
    WiredEven(h >> 6);
    WiredEven(h >> 7);
    assert (h >> 1) >> 1 == h >> 2 && (h >> 2) >> 1 == h >> 3 && (h >> 3) >> 1 == h >> 4;
    assert (h >> 4) >> 1 == h >> 5 && (h >> 5) >> 1 == h >> 6 && (h >> 6) >> 1 == h >> 7 && (h >> 7) >> 1 == h >> 8;
  }

  lemma WordSplits(crc: bv16, d: bv8)
    ensures var x := FoldLow(crc, d); x == Xor(x & 0xFF00, x & 0xFF) && (x & 0xFF00) >> 8 == crc >> 8
  {
  }

  /** Eight clocks act on the two bytes of a register separately. */
  lemma Wired8Splits(crc: bv16, d: bv8)
    ensures Wired8(FoldLow(crc, d)) == Xor(crc >> 8, Wired8(FoldLow(crc, d) & 0xFF))
  {
    hide Wired8, Xor, FoldLow;
    var x := FoldLow(crc, d);
    WordSplits(crc, d);
    Wired8Xor(x & 0xFF00, x & 0xFF);
    Wired8High(x & 0xFF00);
  }

  /** A byte through the table is the byte through the register. */
  lemma ByteStep(crc: bv16, d: bv8)
    ensures TableByte(crc, d) == RegisterByte(crc, d)
  {
    hide Wired8, Table, Clocks, Xor, FoldLow;
    Wired8Splits(crc, d);
    TableEntry(FoldLow(crc, d) & 0xFF);
    Wired8IsClocks(FoldLow(crc, d));
  }

  lemma {:induction false} FoldsAgree<T>(f: (T, bv8) -> T, g: (T, bv8) -> T, state: T, msg: seq<bv8>)
    requires forall t, d :: f(t, d) == g(t, d)
    ensures Fold(f, state, msg) == Fold(g, state, msg)
    decreases |msg|
  {
    if msg != [] {
      FoldsAgree(f, g, f(state, msg[0]), msg[1..]);
    }
  }

  /** The table-driven CRC is the bitwise one, for every message. */
  lemma TableIsRegister(crc: bv16, msg: seq<bv8>)
    ensures Fold(TableByte, crc, msg) == Register(crc, msg)
  {
    forall t: bv16, d: bv8 ensures TableByte(t, d) == RegisterByte(t, d) {
      ByteStep(t, d);
    }
    FoldsAgree(TableByte, RegisterByte, crc, msg);
  }

  lemma {:induction false} FoldContinues<T>(step: (T, bv8) -> T, state: T, p: seq<bv8>, q: seq<bv8>)
    ensures Fold(step, state, p + q) == Fold(step, Fold(step, state, p), q)
    decreases |p|
  {
    if p == [] {
      assert p + q == q;
    } else {
      assert (p + q)[1..] == p[1..] + q;
      FoldContinues(step, step(state, p[0]), p[1..], q);
    }
  }

  /** The CRC of a message can be continued from the CRC of a prefix. */
  lemma Continues(crc: bv16, p: seq<bv8>, q: seq<bv8>)
    ensures Register(crc, p + q) == Register(Register(crc, p), q)
  {
    FoldContinues(RegisterByte, crc, p, q);
  }

  lemma FeedbackInjective(x: bv16, y: bv16)
    requires Feedback(x) == Feedback(y)
    ensures x == y
  {
  }

  /** The register never merges two states. */
  lemma {:induction false} ClocksInjective(x: bv16, y: bv16, n: nat)
    requires Clocks(x, n) == Clocks(y, n)
    ensures x == y
    decreases n
  {
    if n > 0 {
      ClocksInjective(Feedback(x), Feedback(y), n - 1);
      FeedbackInjective(x, y);
    }
  }

  lemma XorCancels(a: bv16, b: bv16, d: bv8)
    requires FoldLow(a, d) == FoldLow(b, d)
    ensures a == b
  {
  }

  lemma RegisterByteInjective(a: bv16, b: bv16, d: bv8)
    requires RegisterByte(a, d) == RegisterByte(b, d)
    ensures a == b
  {
    ClocksInjective(FoldLow(a, d), FoldLow(b, d), 8);
    XorCancels(a, b, d);
  }

  lemma {:induction false} FoldInjective<T>(step: (T, bv8) -> T, a: T, b: T, tail: seq<bv8>)
    requires forall t, u, d :: step(t, d) == step(u, d) ==> t == u
    requires Fold(step, a, tail) == Fold(step, b, tail)
    ensures a == b
    decreases |tail|
  {
    if tail != [] {
      FoldInjective(step, step(a, tail[0]), step(b, tail[0]), tail[1..]);
    }
  }

  /** Two different registers stay different whatever is fed to both. */
  lemma TailKeepsDifference(a: bv16, b: bv16, tail: seq<bv8>)
    requires Register(a, tail) == Register(b, tail)
    ensures a == b
  {
    forall t: bv16, u: bv16, d: bv8 | RegisterByte(t, d) == RegisterByte(u, d) ensures t == u {
      RegisterByteInjective(t, u, d);
    }
    FoldInjective(RegisterByte, a, b, tail);
  }

  lemma FoldsAreXor(x: bv16, e: bv8)
    ensures FoldHigh(x, e) == Xor(x, (e as bv16) << 8) && FoldLow(x, e) == Xor(x, e as bv16)
    ensures ((e as bv16) << 8) & 0xFF == 0 && ((e as bv16) << 8) >> 8 == e as bv16
  {
  }

  lemma Wired8FoldsNextByte(x: bv16, e: bv8)
    ensures Wired8(FoldHigh(x, e)) == FoldLow(Wired8(x), e)
  {
    hide Wired8, Xor, FoldHigh, FoldLow;
    var h := (e as bv16) << 8;
    FoldsAreXor(x, e);
    Wired8Xor(x, h);
    Wired8High(h);
    FoldsAreXor(Wired8(x), e);
  }

  /** A second byte can be folded in eight clocks early, in the high end. */
  lemma ClocksFoldNextByte(x: bv16, e: bv8)
    ensures Clocks(FoldHigh(x, e), 8) == FoldLow(Clocks(x, 8), e)
  {
    Wired8FoldsNextByte(x, e);
    Wired8IsClocks(x);
    Wired8IsClocks(FoldHigh(x, e));
  }

  lemma BytesUnfold(crc: bv16, d: bv8, e: bv8, d': bv8, e': bv8)
    requires FoldHigh(FoldLow(crc, d), e) == FoldHigh(FoldLow(crc, d'), e')
    ensures d == d' && e == e'
  {
  }

  /** An injective step that lets the next byte be folded in early tells pairs of bytes apart. */
  lemma PairsSeparated(f: bv16 -> bv16, crc: bv16, d: bv8, e: bv8, d': bv8, e': bv8)
    requires forall x, y :: f(x) == f(y) ==> x == y
    requires forall x, b :: f(FoldHigh(x, b)) == FoldLow(f(x), b)
    requires f(FoldLow(f(FoldLow(crc, d)), e)) == f(FoldLow(f(FoldLow(crc, d')), e'))
    ensures d == d' && e == e'
  {
    assert f(FoldHigh(FoldLow(crc, d), e)) == f(FoldHigh(FoldLow(crc, d'), e'));
    BytesUnfold(crc, d, e, d', e');
  }

  /** From one register state, two different pairs of bytes lead to two different states. */
  lemma TwoBytesInjective(crc: bv16, d: bv8, e: bv8, d': bv8, e': bv8)
    requires RegisterByte(RegisterByte(crc, d), e) == RegisterByte(RegisterByte(crc, d'), e')
    ensures d == d' && e == e'
  {
    var f := x => Clocks(x, 8);
    forall x: bv16, y: bv16 | f(x) == f(y) ensures x == y {
      ClocksInjective(x, y, 8);
    }
    forall x: bv16, b: bv8 ensures f(FoldHigh(x, b)) == FoldLow(f(x), b) {
      ClocksFoldNextByte(x, b);
    }
    PairsSeparated(f, crc, d, e, d', e');
  }

  /** Any change confined to two adjacent bytes of a message, of any length, changes the CRC. */
  lemma DetectsTwoByteChange(crc: bv16, p: seq<bv8>, d: bv8, e: bv8, d': bv8, e': bv8, s: seq<bv8>)
    requires d != d' || e != e'
    ensures Register(crc, p + [d, e] + s) != Register(crc, p + [d', e'] + s)
  {
    if Register(crc, p + [d, e] + s) == Register(crc, p + [d', e'] + s) {
      var c := Register(crc, p);
      Continues(crc, p + [d, e], s);
      Continues(crc, p + [d', e'], s);
      Continues(crc, p, [d, e]);
      Continues(crc, p, [d', e']);
      TailKeepsDifference(Register(c, [d, e]), Register(c, [d', e']), s);
      FoldOfTwo(RegisterByte, c, d, e);
      FoldOfTwo(RegisterByte, c, d', e');
      TwoBytesInjective(c, d, e, d', e');
    }
  }

  lemma FoldOfTwo<T>(step: (T, bv8) -> T, state: T, d: bv8, e: bv8)
    ensures Fold(step, state, [d, e]) == step(step(state, d), e)
  {
    assert [d, e][1..] == [e];
    assert Fold(step, step(state, d), [e]) == step(step(state, d), e);
  }

  lemma FoldOfOne<T>(step: (T, bv8) -> T, state: T, d: bv8)
    ensures Fold(step, state, [d]) == step(state, d)
  {
    assert [d][1..] == [];
  }

  lemma OneByteInjective(crc: bv16, d: bv8, d': bv8)
    requires RegisterByte(crc, d) == RegisterByte(crc, d')
    ensures d == d'
  {
    ClocksInjective(FoldLow(crc, d), FoldLow(crc, d'), 8);
    BytesUnfold(crc, d, 0, d', 0);
  }

  /** Any change of a single byte of a message, of any length, changes the CRC. */
  lemma DetectsOneByteChange(crc: bv16, p: seq<bv8>, d: bv8, d': bv8, s: seq<bv8>)
    requires d != d'
    ensures Register(crc, p + [d] + s) != Register(crc, p + [d'] + s)
  {
    if Register(crc, p + [d] + s) == Register(crc, p + [d'] + s) {
      var c := Register(crc, p);
      Continues(crc, p + [d], s);
      Continues(crc, p + [d'], s);
      Continues(crc, p, [d]);
      Continues(crc, p, [d']);
      TailKeepsDifference(Register(c, [d]), Register(c, [d']), s);
      FoldOfOne(RegisterByte, c, d);
      FoldOfOne(RegisterByte, c, d');
      OneByteInjective(c, d, d');
    }
  }
}
