/** The protocol of the receiver on the bytes the peer writes and on the fields of the session, for every device. */
module OtaCommands {
  import opened Bytes
  import opened ByteBits
  import opened Ota

  /** The number of packets: those that are full, and one more for the rest. */
  function Needed(fw: nat, ps: nat): nat
    requires ps > 0
  {
    fw / ps + if fw % ps == 0 then 0 else 1
  }

  lemma CountIsNeeded(fw: nat, ps: nat)
    requires ps > 0
    ensures PacketCount(fw, ps) == Needed(fw, ps)
  {
    var q, r := fw / ps, fw % ps;
    assert fw == q * ps + r;
    if r == 0 {
      DivideExact(q, ps - 1, ps);
    } else {
      DivideUp(q, r, ps);
    }
  }

  /** A start command to an idle device: a firmware that does not fit behind the first `base` bytes, or a packet size
      above 8192, changes nothing; packet size 0 is divided by; any other opens a session with the sizes of the
      command, most significant byte first. */
  lemma StartCommand(d: Device, base: nat, a: byte, b: byte, c: byte, e: byte, f: byte, timeout: byte)
    requires Intact(d, base) && d.power == Running && d.up && d.s.st == Idle
    ensures var d' := Happened(d, base, Written([0xFF, 0x01, a, b, c, e, f, timeout, 0xFE]));
            var fw, ps := a as nat * 65536 + b as nat * 256 + c as nat, e as nat * 256 + f as nat;
            if base + fw > |d.s.partition| || ps > 8192 then d' == d
            else if ps == 0 then d' == d.(power := Faulted)
            else
              && d'.s == Session(Start, fw, ps, Needed(fw, ps) % 65536, 0, 0, false, 0, d.s.id, d.s.partition, [], 0,
                                 forall i :: 0 <= i < |d.s.partition| ==> d.s.partition[i] == 0xFF)
              && d' == d.(s := d'.s)
  {
    hide Pictured, PacketCount;
    var data := [0xFF, 0x01, a, b, c, e, f, timeout, 0xFE];
    var fw, ps := FirmwareSize(data), PacketSize(data);
    assert StartFrame(data);
    if 0 < ps {
      CountIsNeeded(fw, ps);
    }
    ErasedIsBlank(d.s.partition);
  }

  lemma ErasedIsBlank(b: Bytes)
    ensures b == Blank(|b|) <==> forall i :: 0 <= i < |b| ==> b[i] == 0xFF
  {
  }

  /** An idle device minds nothing else. */
  lemma IdleMindsOnlyStart(d: Device, base: nat, data: Bytes)
    requires d.power == Running && d.s.st == Idle
    requires !(|data| == 9 && data[0] == 0xFF && data[1] == 0x01 && data[8] == 0xFE)
    ensures Happened(d, base, Written(data)) == d
  {
  }

  /** A device that is not connected minds nothing that is written, and does not move on. */
  lemma Unconnected(d: Device, base: nat, data: Bytes)
    requires !d.up
    ensures Happened(d, base, Written(data)) == d && Happened(d, base, ProcessRuns) == d
  {
  }

  /** A new connection, and a subscription, leave the session alone. */
  lemma NewConnection(d: Device, base: nat, on: bool)
    requires d.power == Running
    ensures Happened(d, base, Connected(true)) == d.(up := true)
    ensures Happened(d, base, Subscribed(on)) == d.(notify := on)
  {
  }

  /** The checksum of a packet comes with its high byte first. */
  lemma ChecksumBytes(hi: byte, lo: byte)
    ensures WordBits(hi, lo) >> 8 == Bits(hi) as bv16 && WordBits(hi, lo) & 0xFF == Bits(lo) as bv16
  {
    hide Bits;
    HighFirst(Bits(hi), Bits(lo));
  }

  lemma HighFirst(hi: bv8, lo: bv8)
    ensures (((hi as bv16) << 8) | (lo as bv16)) >> 8 == hi as bv16
    ensures (((hi as bv16) << 8) | (lo as bv16)) & 0xFF == lo as bv16
  {
  }

  /** The head of a packet whose number is not below the count changes nothing. */
  lemma NumberOutOfRange(d: Device, base: nat, data: Bytes)
    requires d.power == Running && d.s.st == Dl && d.s.ps > 0 && d.s.expectLen == 0
    requires |data| > 6 && data[0] == 0xFF && data[1] == 0xFE && data[2] as nat * 256 + data[3] as nat >= d.s.count
    ensures Happened(d, base, Written(data)) == d
  {
    hide Checksum, WordBits, PacketLength;
  }

  /** A lost connection ends the session and erases the partition. */
  lemma LostConnection(d: Device, base: nat)
    requires d.power == Running
    ensures var d' := Happened(d, base, Connected(false));
            && !d'.up && d'.power == Running && d'.link == Link(0, []) && d'.notify == d.notify
            && |d'.s.partition| == |d.s.partition|
            && (forall i :: 0 <= i < |d.s.partition| ==> d'.s.partition[i] == 0xFF)
            && d'.s == Session(Idle, 0, 0, 0, 0, 0, false, 0, 0, d'.s.partition, [], 0, false)
  {
  }

  /** The turn that answers a start command: it waits until the peer has subscribed. */
  lemma StartTurn(d: Device, base: nat)
    requires d.power == Running && d.up && d.s.st == Start
    ensures Happened(d, base, ProcessRuns) == if d.notify then d.(s := d.s.(st := Request)) else d
  {
  }

  /** The turn that requests a packet: the bytes received are cleared and the timer is started, up to ten times
      between two packets; then the session ends, and the partition is kept. */
  lemma RequestTurn(d: Device, base: nat)
    requires d.power == Running && d.up && d.s.st == Request
    ensures var d' := Happened(d, base, ProcessRuns);
            && d' == d.(s := d'.s, link := Link(0, []))
            && d'.s == if d.s.retry < 10
                       then d.s.(st := Dl, retry := d.s.retry + 1, sent := d.s.sent + 1, timerOn := true,
                                 expectLen := 0, id := 0)
                       else Session(Idle, 0, 0, 0, 0, 0, false, 0, 0, d.s.partition, [], 0, false)
  {
  }

  /** The timer leads back to the request, and the bytes received are cleared. */
  lemma TimerTurn(d: Device, base: nat)
    requires d.power == Running
    ensures Happened(d, base, TimerFires) ==
            if d.s.timerOn
            then d.(s := d.s.(st := Request, timerOn := false, expectLen := 0, id := 0), link := Link(0, []))
            else d
  {
  }

  /** `flash'` is `flash` with `data` programmed at `off`: bits are cleared there, and no byte changes elsewhere. */
  ghost predicate WrittenAt(flash: Bytes, off: nat, data: Bytes, flash': Bytes) {
    && |flash'| == |flash|
    && forall i :: 0 <= i < |flash| ==>
         flash'[i] == if off <= i < off + |data| then And(flash[i], data[i - off]) else flash[i]
  }

  lemma ProgrammedIsWritten(flash: Bytes, off: nat, data: Bytes)
    requires off + |data| <= |flash|
    ensures WrittenAt(flash, off, data, Programmed(flash, off, data))
  {
    hide And, Overlay;
    var bits := seq(|data|, i requires 0 <= i < |data| => And(flash[off + i], data[i]));
    var flash' := Overlay(flash, off, bits);
    assert Programmed(flash, off, data) == flash';
    forall i | 0 <= i < |flash|
      ensures flash'[i] == if off <= i < off + |data| then And(flash[i], data[i - off]) else flash[i]
    {
      assert off <= i < off + |data| ==> bits[i - off] == And(flash[off + (i - off)], data[i - off]);
    }
  }

  /** The turn that flashes a packet: its bytes are programmed at their place, if they fit, and no others; the packet
      is counted, and the last one completes the session. */
  lemma FlashTurn(d: Device, base: nat)
    requires d.power == Running && d.up && d.s.st == Flash && d.s.expectLen <= |d.link.wire|
    ensures var d', payload, off := Happened(d, base, ProcessRuns), Payload(d), base + d.s.recv * d.s.ps;
            && |payload| == d.s.expectLen && payload <= d.link.wire
            && d' == d.(s := d.s.(st := if d.s.recv + 1 < d.s.count then Request else Complete, retry := 0,
                                  recv := d.s.recv + 1, accepted := d.s.accepted + payload,
                                  partition := d'.s.partition, faithful := d.s.faithful && d.s.id == d.s.recv))
            && d'.s.partition == if off + |payload| <= |d.s.partition| then Programmed(d.s.partition, off, payload)
                                 else d.s.partition
  {
    hide Programmed;
  }
}
