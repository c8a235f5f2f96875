/** The over-the-air update receiver: a request, receive, check and flash state machine with retries and
    fragmented packets. */
module Ota {
  import opened Bytes
  import opened ByteBits
  import Crc16

  const OTA_PACKET_SIZE: nat := 8192
  const PACKET_START: byte := 0xFF
  const PACKET_END: byte := 0xFE
  const CMD_START: byte := 0x01
  const CMD_STOP: byte := 0x02
  const CMD_COMPLETE: byte := 0x04
  const MAX_RETRIES: nat := 10
  const U16: nat := 0x1_0000

  datatype Phase = Idle | Start | Request | Dl | Flash | Stop | Complete

  function Word(hi: byte, lo: byte): nat {
    hi as nat * 0x100 + lo as nat
  }

  function WordBits(hi: byte, lo: byte): bv16 {
    ((Bits(hi) as bv16) << 8) | (Bits(lo) as bv16)
  }

  function Raw(b: Bytes): seq<bv8> {
    seq(|b|, i requires 0 <= i < |b| => Bits(b[i]))
  }

  /** `crc16(0, p, n)` */
  function Checksum(b: Bytes): bv16 {
    Crc16.Register(0, Raw(b))
  }

  /** A well-formed start frame. */
  predicate StartFrame(data: Bytes) {
    |data| == 9 && data[0] == PACKET_START && data[1] == CMD_START && data[8] == PACKET_END
  }

  function FirmwareSize(data: Bytes): nat
    requires |data| == 9
  {
    data[2] as nat * 0x1_0000 + data[3] as nat * 0x100 + data[4] as nat
  }

  function PacketSize(data: Bytes): nat
    requires |data| == 9
  {
    Word(data[5], data[6])
  }

  predicate ControlFrame(data: Bytes, cmd: byte) {
    |data| == 3 && data[0] == PACKET_START && data[1] == cmd && data[2] == PACKET_END
  }

  predicate DataFrame(data: Bytes) {
    |data| > 6 && data[0] == PACKET_START && data[1] == PACKET_END
  }

  /** Programming clears bits. */
  function Programmed(flash: Bytes, off: nat, data: Bytes): (r: Bytes)
    requires off + |data| <= |flash|
    ensures |r| == |flash|
  {
    Overlay(flash, off, seq(|data|, i requires 0 <= i < |data| => And(flash[off + i], data[i])))
  }

  /** Programming erased flash stores the data. */
  lemma ProgrammedBlank(flash: Bytes, off: nat, data: Bytes)
    requires off + |data| <= |flash| && forall i :: off <= i < |flash| ==> flash[i] == 0xFF
    ensures Programmed(flash, off, data) == flash[..off] + data + Blank(|flash| - off - |data|)
  {
    hide And;
    forall i | 0 <= i < |data| ensures And(flash[off + i], data[i]) == data[i] {
      AndErased(data[i]);
    }
  }

  /** Number of packets for a firmware of `fw` bytes. */
  function PacketCount(fw: nat, ps: nat): nat
    requires ps > 0
  {
    (fw + ps - 1) / ps
  }

  /** Length the receiver expects of packet `id`. */
  function PacketLength(fw: nat, ps: nat, count: nat, id: nat): nat
    requires ps > 0
  {
    if id + 1 == count then fw % ps else ps
  }

  /** How much of the firmware the first `recv` packets carry, if the receiver counts on `count` of them. */
  function ImageLength(fw: nat, ps: nat, count: nat, recv: nat): nat
    requires ps > 0
  {
    if recv == 0 || recv < count then recv * ps else (recv - 1) * ps + fw % ps
  }

  /** After `recv` packets the partition holds the accepted payloads behind its first `base` bytes, and is
      erased everywhere else. */
  ghost predicate Image(partition: Bytes, base: nat, fw: nat, ps: nat, count: nat, recv: nat, accepted: Bytes)
    requires ps > 0
  {
    && base + fw <= |partition| && recv <= count <= PacketCount(fw, ps)
    && |accepted| == ImageLength(fw, ps, count, recv) <= fw
    && partition == Blank(base) + accepted + Blank(|partition| - base - |accepted|)
  }

  /** The packets of a firmware whose last one is not full, also when the receiver counts on fewer of them. */
  lemma Packets(fw: nat, ps: nat, count: nat, recv: nat)
    requires ps > 0 && fw % ps != 0 && recv < count <= PacketCount(fw, ps)
    ensures ImageLength(fw, ps, count, recv) == recv * ps
    ensures ImageLength(fw, ps, count, recv + 1) == recv * ps + PacketLength(fw, ps, count, recv) <= fw
    ensures recv + 1 == count ==> (recv * ps + fw % ps == fw <==> count == PacketCount(fw, ps))
  {
    var q, r := fw / ps, fw % ps;
    assert fw == q * ps + r;
    DivideUp(q, r, ps);
    assert (recv + 1) * ps == recv * ps + ps;
    Ordered(recv, q, ps);
    if recv + 1 <= q {
      Ordered(recv + 1, q, ps);
    }
  }

  lemma DivideUp(q: nat, r: nat, ps: nat)
    requires 0 < r < ps
    ensures (q * ps + r + ps - 1) / ps == q + 1
  {
    var n := q * ps + r + ps - 1;
    assert n == (q + 1) * ps + (r - 1);
    DivideExact(q + 1, r - 1, ps);
  }

  lemma DivideExact(q: nat, r: nat, ps: nat)
    requires r < ps
    ensures (q * ps + r) / ps == q
  {
    var n := q * ps + r;
    assert n == n / ps * ps + n % ps;
    if n / ps < q {
      Ordered(n / ps + 1, q, ps);
    } else if n / ps > q {
      Ordered(q + 1, n / ps, ps);
    }
  }

  lemma Ordered(a: nat, b: nat, ps: nat)
    requires a <= b
    ensures a * ps <= b * ps
  {
  }

  lemma ImageStarts(partition: Bytes, base: nat, fw: nat, ps: nat, count: nat)
    requires ps > 0 && count <= PacketCount(fw, ps) && base + fw <= |partition| && partition == Blank(|partition|)
    ensures Image(partition, base, fw, ps, count, 0, [])
  {
    hide PacketCount;
    assert partition == Blank(base) + [] + Blank(|partition| - base);
  }

  /** Flashing one packet. */
  lemma ImageStep(partition: Bytes, base: nat, fw: nat, ps: nat, count: nat, recv: nat, accepted: Bytes, payload: Bytes)
    requires ps > 0 && fw % ps != 0 && Image(partition, base, fw, ps, count, recv, accepted) && recv < count
    requires |payload| == PacketLength(fw, ps, count, recv)
    ensures base + recv * ps + |payload| <= |partition|
    ensures Image(Programmed(partition, base + recv * ps, payload), base, fw, ps, count, recv + 1, accepted + payload)
  {
    hide PacketCount, PacketLength, ImageLength, Programmed;
    Packets(fw, ps, count, recv);
    var off := base + recv * ps;
    ProgrammedBlank(partition, off, payload);
    assert partition[..off] == Blank(base) + accepted;
    assert Blank(base) + accepted + payload == Blank(base) + (accepted + payload);
  }

  /** A session: the phase, the parameters of the start frame, the counters, the timer, the length and the number
      of the packet being received, and the partition. With it the payloads flashed and the requests sent since
      the start, and whether the session started on erased flash and every packet flashed was the one
      requested. */
  datatype Session =
    Session(st: Phase, fw: nat, ps: nat, count: nat, recv: nat, retry: nat, timerOn: bool, expectLen: nat, id: nat,
            partition: Bytes, accepted: Bytes, sent: nat, faithful: bool)

  /** A session is open between the start frame and the reset. */
  predicate Open(s: Session) {
    s.st !in {Idle, Stop}
  }

  ghost predicate Counted(s: Session) {
    && s.recv <= s.count < U16 && s.retry <= MAX_RETRIES && s.sent <= MAX_RETRIES * s.recv + s.retry
    && s.expectLen <= s.ps <= OTA_PACKET_SIZE && (s.recv == 0 ==> s.accepted == [])
    && (s.st in {Request, Dl, Flash} || s.timerOn ==> s.recv < s.count || s.count == 0)
    && (s.st == Flash ==> s.recv < s.count && s.expectLen > 0)
    && (s.st == Dl && s.expectLen > 0 ==> s.recv < s.count)
    && (s.st in {Dl, Flash} && s.expectLen > 0 ==>
          s.ps > 0 && s.id < s.count && s.expectLen == PacketLength(s.fw, s.ps, s.count, s.id))
    && (s.timerOn ==> s.st in {Dl, Complete})
    && (s.recv == s.count && s.count > 0 ==> s.retry == 0)
    && (s.st in {Idle, Start, Stop} ==> s.recv == 0 && s.retry == 0 && s.sent == 0 && s.expectLen == 0)
    && (if Open(s) then s.ps > 0 && s.count == PacketCount(s.fw, s.ps) % U16 else s.count == 0)
  }

  /** The last packet of the firmware is not full. */
  predicate Regular(fw: nat, ps: nat) {
    ps > 0 && fw % ps != 0
  }

  ghost predicate Pictured(s: Session, base: nat) {
    Open(s) && s.faithful && s.ps > 0 ==>
      if s.fw % s.ps == 0 then s.recv < s.count || s.count == 0
      else Image(s.partition, base, s.fw, s.ps, s.count, s.recv, s.accepted)
  }

  ghost predicate Sound(s: Session, base: nat) {
    base <= |s.partition| && Counted(s) && Pictured(s, base)
  }

  function Closed(s: Session): Session {
    Session(Idle, 0, 0, 0, 0, 0, false, 0, 0, s.partition, [], 0, false)
  }

  lemma CloseKeeps(s: Session, base: nat)
    requires base <= |s.partition|
    ensures Sound(Closed(s), base) && Sound(Closed(s).(st := Stop), base)
  {
  }

  function Started(s: Session, fw: nat, ps: nat): Session
    requires ps > 0
  {
    s.(st := Start, fw := fw, ps := ps, count := PacketCount(fw, ps) % U16, accepted := [], sent := 0,
       faithful := s.partition == Blank(|s.partition|))
  }

  lemma CountIsLess(fw: nat, ps: nat)
    requires ps > 0
    ensures PacketCount(fw, ps) % U16 <= PacketCount(fw, ps)
  {
    hide PacketCount;
  }

  lemma StartKeeps(s: Session, base: nat, fw: nat, ps: nat)
    requires Sound(s, base) && s.st == Idle && 0 < ps <= OTA_PACKET_SIZE && base + fw <= |s.partition|
    ensures Sound(Started(s, fw, ps), base)
  {
    hide Image, PacketCount;
    var s' := Started(s, fw, ps);
    CountIsLess(fw, ps);
    if s'.faithful && fw % ps != 0 {
      ImageStarts(s.partition, base, fw, ps, s'.count);
    }
  }

  /** A packet header for packet `id`. */
  function Headed(s: Session, id: nat): Session
    requires s.ps > 0
  {
    s.(expectLen := PacketLength(s.fw, s.ps, s.count, id), id := id)
  }

  lemma HeadKeeps(s: Session, base: nat, id: nat)
    requires Sound(s, base) && s.st == Dl && id < s.count
    ensures Sound(Headed(s, id), base)
  {
    hide Image, PacketCount;
  }

  /** The request of the next packet. */
  lemma RequestKeeps(s: Session, base: nat)
    requires Sound(s, base) && s.st == Request && s.retry < MAX_RETRIES
    ensures Sound(Requested(s), base)
  {
    hide Image, PacketCount, PacketLength;
  }

  /** The partition with the packet in the receive buffer at its place, if it fits. */
  function Burned(s: Session, base: nat, payload: Bytes): Bytes {
    var off := base + s.recv * s.ps;
    if off + |payload| <= |s.partition| then Programmed(s.partition, off, payload) else s.partition
  }

  /** The session after the packet in the receive buffer has been flashed. */
  function Flashed(s: Session, base: nat, payload: Bytes): Session {
    s.(st := if s.recv + 1 < s.count then Request else Complete, retry := 0, recv := s.recv + 1,
       accepted := s.accepted + payload, partition := Burned(s, base, payload),
       faithful := s.faithful && s.id == s.recv)
  }

  lemma FlashKeeps(s: Session, base: nat, payload: Bytes)
    requires Sound(s, base) && s.st == Flash && |payload| == s.expectLen
    ensures Sound(Flashed(s, base, payload), base)
    ensures s.faithful && s.id == s.recv && Regular(s.fw, s.ps) ==> base + s.recv * s.ps + |payload| <= |s.partition|
  {
    hide Image, PacketCount, Programmed;
    if s.faithful && s.id == s.recv && Regular(s.fw, s.ps) {
      ImageStep(s.partition, base, s.fw, s.ps, s.count, s.recv, s.accepted, payload);
    }
  }

  /** A phase change that keeps the counters: the packet is complete, the time is up, the peer says so. */
  lemma PhaseKeeps(s: Session, base: nat, st: Phase, timerOn: bool, expectLen: nat, id: nat)
    requires Sound(s, base) && (timerOn ==> s.timerOn)
    requires (expectLen == s.expectLen && id == s.id) || expectLen == id == 0
    requires || (s.st == Start && st == Request && !timerOn)
             || (s.st == Stop && st == Idle && !timerOn)
             || (s.st == Dl && st == Request && !timerOn)
             || (s.st == Dl && st == Flash && !timerOn && expectLen > 0)
             || (s.st == Dl && st == Complete)
             || (s.st == Complete && s.timerOn && st == Request && !timerOn)
    ensures Sound(s.(st := st, timerOn := timerOn, expectLen := expectLen, id := id), base)
  {
    hide Image, PacketCount, PacketLength;
  }

  /** The session after `data` has come in for the packet, behind `wire`: when all of it is there its checksum
      decides. */
  function Taken(s: Session, data: Bytes, wire: Bytes, crc: bv16): Session {
    var all := wire + data;
    if data == [] || s.expectLen == 0 || |all| < s.expectLen then s
    else s.(timerOn := false, st := if Checksum(all[..s.expectLen]) == crc then Flash else Request)
  }

  /** The session after a data frame, which carries a packet number and a checksum in front of its payload. */
  function Opened(s: Session, data: Bytes): Session
    requires DataFrame(data) && s.ps > 0
  {
    var id := Word(data[2], data[3]);
    if id >= s.count then s else Taken(Headed(s, id), data[6..], [], WordBits(data[4], data[5]))
  }

  /** A start frame with these parameters is refused. */
  predicate Unsupported(s: Session, base: nat, data: Bytes)
    requires |data| == 9
  {
    base + FirmwareSize(data) > |s.partition| || PacketSize(data) > OTA_PACKET_SIZE
  }

  /** A start frame on which the source divides by zero. */
  predicate Faults(s: Session, base: nat, data: Bytes) {
    s.st == Idle && StartFrame(data) && !Unsupported(s, base, data) && PacketSize(data) == 0
  }

  /** The session after the peer has written `data`. */
  function Heard(s: Session, base: nat, data: Bytes, wire: Bytes, crc: bv16): Session
    requires s.st == Dl ==> s.ps > 0
    requires !Faults(s, base, data)
  {
    if s.st == Idle && StartFrame(data) && !Unsupported(s, base, data) then
      Started(s, FirmwareSize(data), PacketSize(data))
    else if s.st != Dl then s
    else if ControlFrame(data, CMD_STOP) then Closed(s).(st := Stop)
    else if ControlFrame(data, CMD_COMPLETE) then s.(st := Complete)
    else if DataFrame(data) && s.expectLen == 0 then Opened(s, data)
    else Taken(s, data, wire, crc)
  }

  /** What has come in for the packet being received: its checksum and some bytes. */
  datatype Link = Link(crc: bv16, wire: Bytes)

  const NO_LINK := Link(0, [])

  /** The packet after the peer has written `data`. */
  function Fed(s: Session, link: Link, data: Bytes): Link {
    if s.st != Dl || ControlFrame(data, CMD_COMPLETE) then link
    else if ControlFrame(data, CMD_STOP) then NO_LINK
    else if s.expectLen > 0 then link.(wire := link.wire + data)
    else if !DataFrame(data) || s.ps == 0 || Word(data[2], data[3]) >= s.count then link
    else
      var id := Word(data[2], data[3]);
      Link(WordBits(data[4], data[5]), if PacketLength(s.fw, s.ps, s.count, id) == 0 then [] else data[6..])
  }

  /** The session after a request. */
  function Requested(s: Session): Session {
    s.(st := Dl, retry := s.retry + 1, sent := s.sent + 1, timerOn := true, expectLen := 0, id := 0)
  }

  /** The session after a turn of the processing task with a connected peer. */
  function Processed(s: Session, base: nat, notify: bool, payload: Bytes): Session {
    match s.st
    case Start => if notify then s.(st := Request) else s
    case Request => if s.retry + 1 > MAX_RETRIES then Closed(s) else Requested(s)
    case Flash => Flashed(s, base, payload)
    case Stop => s.(st := Idle)
    case _ => s
  }

  /** The session after the timer has fired. */
  function Lapsed(s: Session): Session {
    s.(st := Request, timerOn := false, expectLen := 0, id := 0)
  }

  /** Whether the device runs, has restarted with the new firmware, or has divided by zero. */
  datatype Power = Running | Rebooted | Faulted

  /** The receiver with its link to the peer. */
  datatype Device = Device(s: Session, link: Link, up: bool, notify: bool, power: Power)

  /** The receiver on an erased partition of `size` bytes. */
  function Factory(size: nat): Device {
    Device(Session(Idle, 0, 0, 0, 0, 0, false, 0, 0, Blank(size), [], 0, false), NO_LINK, false, false, Running)
  }

  /** What can happen to the receiver. */
  datatype Event = Connected(up: bool) | Subscribed(on: bool) | Written(data: Bytes) | TimerFires | ProcessRuns

  /** The payload in the receive buffer. */
  function Payload(d: Device): Bytes {
    if d.s.expectLen <= |d.link.wire| then d.link.wire[..d.s.expectLen] else d.link.wire
  }

  function Happened(d: Device, base: nat, event: Event): Device {
    if d.power != Running then d
    else match event
      case Connected(up) =>
        if up then d.(up := true)
        else d.(s := Closed(d.s).(partition := Blank(|d.s.partition|)), link := NO_LINK, up := false)
      case Subscribed(on) => d.(notify := on)
      case Written(data) =>
        if !d.up || (d.s.st == Dl && d.s.ps == 0) then d
        else if Faults(d.s, base, data) then d.(power := Faulted)
        else d.(s := Heard(d.s, base, data, d.link.wire, d.link.crc), link := Fed(d.s, d.link, data))
      case TimerFires => if d.s.timerOn then d.(s := Lapsed(d.s), link := NO_LINK) else d
      case ProcessRuns =>
        if !d.up then d
        else d.(s := Processed(d.s, base, d.notify, Payload(d)), link := if d.s.st == Request then NO_LINK else d.link,
                power := if d.s.st == Complete then Rebooted else Running)
  }

  /** The receiver after some events. */
  function After(d: Device, base: nat, events: seq<Event>): Device {
    if events == [] then d else Happened(After(d, base, events[..|events| - 1]), base, events[|events| - 1])
  }

  /** The receive buffer holds the first bytes of what has come in for the packet. */
  ghost predicate Rx(buf: Bytes, rxLen: nat, expectLen: nat, wire: Bytes) {
    rxLen <= expectLen <= |buf| && rxLen <= |wire| && (rxLen == expectLen || rxLen == |wire|)
        && buf[..rxLen] == wire[..rxLen]
  }

  lemma RxBounds(buf: Bytes, rxLen: nat, expectLen: nat, wire: Bytes)
    requires Rx(buf, rxLen, expectLen, wire)
    ensures rxLen <= expectLen <= |buf|
  {
  }

  lemma RxStep(buf: Bytes, rxLen: nat, expectLen: nat, wire: Bytes, data: Bytes, size: nat)
    requires Rx(buf, rxLen, expectLen, wire) && size == if expectLen - rxLen < |data| then expectLen - rxLen else |data|
    requires |wire| < expectLen
    ensures var buf' := Overlay(buf, rxLen, data[..size]);
            && Rx(buf', rxLen + size, expectLen, wire + data)
            && (rxLen + size == expectLen <==> |wire + data| >= expectLen)
            && (rxLen + size == expectLen ==> buf'[..expectLen] == (wire + data)[..expectLen])
  {
    var buf' := Overlay(buf, rxLen, data[..size]);
    assert buf'[..rxLen + size] == buf[..rxLen] + data[..size];
    assert (wire + data)[..rxLen + size] == wire + data[..size];
  }

  /** `ota_ctrl`: the state of a session, and its timer. */
  datatype Ctrl = Ctrl(st: Phase, firmwareSize: nat, packetSize: nat, timeout: byte, expectPacketCount: nat,
                       recvPacketCount: nat, retryCount: nat, timerOn: bool)

  const NO_SESSION := Ctrl(Idle, 0, 0, 0, 0, 0, 0, false)

  /** `ota_rx` without its buffer: the packet being received. */
  datatype Packet = Packet(rxLen: nat, expectLen: nat, packetId: nat, packetCrc: bv16)

  const NO_PACKET := Packet(0, 0, 0, 0)

  class OtaServer {
    var ctrl: Ctrl
    var rx: Packet
    const rxBuf: array<byte>

    /** The link, and the partition with its sector size. */
    var connected: bool
    var notify: bool
    var partition: Bytes
    const sector: nat
    const size: nat
    var power: Power

    /** Payload bytes received since the last request, and the history of the session. */
    ghost var wire: Bytes
    ghost var accepted: Bytes
    ghost var sent: nat
    ghost var faithful: bool

    ghost function Snap(): Session
      reads this
    {
      Session(ctrl.st, ctrl.firmwareSize, ctrl.packetSize, ctrl.expectPacketCount, ctrl.recvPacketCount,
              ctrl.retryCount, ctrl.timerOn, rx.expectLen, rx.packetId, partition, accepted, sent, faithful)
    }

    /** Everything the receiver is at the moment. */
    ghost function View(): Device
      reads this
    {
      Device(Snap(), Link(rx.packetCrc, wire), connected, notify, power)
    }

    ghost predicate Valid()
      reads this, rxBuf
    {
      && (ctrl.st == Dl && rx.expectLen > 0 ==> |wire| < rx.expectLen) && (rx.expectLen == 0 ==> wire == [])
      && Sound(Snap(), 2 * sector) && |partition| == size && rxBuf.Length == OTA_PACKET_SIZE
      && Rx(rxBuf[..], rx.rxLen, rx.expectLen, wire)
      && (ctrl.st == Flash ==> rx.rxLen == rx.expectLen && Checksum(rxBuf[..rx.rxLen]) == rx.packetCrc)
    }

    /** `ble_ota_init` */
    constructor (size: nat, sector: nat)
      requires 2 * sector <= size
      ensures Valid() && View() == Factory(size) && this.sector == sector && this.size == size && fresh(rxBuf)
    {
      ctrl, rx, rxBuf := NO_SESSION, NO_PACKET, new byte[OTA_PACKET_SIZE](_ => 0);
      connected, notify, partition, this.sector, this.size, power := false, false, Blank(size), sector, size, Running;
      wire, accepted, sent, faithful := [], [], 0, false;
    }

    /** `ota_reset_rx` */
    method ResetRx()
      modifies this`rx, this`wire, rxBuf
      ensures rx == NO_PACKET && wire == [] && Rx(rxBuf[..], 0, 0, [])
    {
      forall i | 0 <= i < rxBuf.Length {
        rxBuf[i] := 0;
      }
      rx, wire := NO_PACKET, [];
    }

    /** `ota_reset` */
    method Reset()
      requires 2 * sector <= |partition| == size && rxBuf.Length == OTA_PACKET_SIZE
      modifies this`ctrl, this`rx, this`wire, this`accepted, this`sent, this`faithful, rxBuf
      ensures Valid() && Snap() == Closed(old(Snap())) && ctrl == NO_SESSION && rx == NO_PACKET && wire == []
    {
      hide Rx, Counted, Pictured, Checksum;
      CloseKeeps(Snap(), 2 * sector);
      ctrl := NO_SESSION;
      ResetRx();
      accepted, sent, faithful := [], 0, false;
    }

    /** A start frame. The source divides by the packet size. */
    method OnStart(data: Bytes)
      requires Valid() && ctrl.st == Idle && StartFrame(data)
      modifies this`ctrl, this`accepted, this`sent, this`faithful, this`power
      ensures Valid()
      ensures if Unsupported(old(Snap()), 2 * sector, data) then Snap() == old(Snap()) && power == old(power)
              else if PacketSize(data) == 0 then Snap() == old(Snap()) && power == Faulted
              else Snap() == Started(old(Snap()), FirmwareSize(data), PacketSize(data)) && power == old(power)
    {
      hide Rx, Counted, Pictured, Checksum, FirmwareSize, PacketSize;
      var fw, ps := FirmwareSize(data), PacketSize(data);
      if fw + 2 * sector > |partition| || ps > OTA_PACKET_SIZE {
        return;
      }
      if ps == 0 {
        power := Faulted;
        return;
      }
      StartKeeps(Snap(), 2 * sector, fw, ps);
      ctrl := ctrl.(st := Start, firmwareSize := fw, packetSize := ps, timeout := data[7],
          expectPacketCount := PacketCount(fw, ps) % U16);
      accepted, sent, faithful := [], 0, partition == Blank(|partition|);
    }

    method CopyIn(at: nat, data: Bytes)
      requires at + |data| <= rxBuf.Length
      modifies rxBuf
      ensures rxBuf[..] == Overlay(old(rxBuf[..]), at, data)
    {
      forall i | 0 <= i < |data| {
        rxBuf[at + i] := data[i];
      }
    }

    /** What fits of `data` goes to the receive buffer. */
    method Store(data: Bytes)
      requires rx.expectLen > 0 && |wire| < rx.expectLen && Rx(rxBuf[..], rx.rxLen, rx.expectLen, wire)
      modifies this`rx, this`wire, rxBuf
      ensures rx == old(rx).(rxLen := rx.rxLen) && wire == old(wire) + data
      ensures Rx(rxBuf[..], rx.rxLen, rx.expectLen, wire)
      ensures rx.rxLen <= rxBuf.Length && (rx.rxLen >= rx.expectLen <==> |wire| >= rx.expectLen)
      ensures |wire| >= rx.expectLen ==> rx.rxLen == rx.expectLen && rxBuf[..rx.rxLen] == wire[..rx.expectLen]
    {
      hide Rx;
      RxBounds(rxBuf[..], rx.rxLen, rx.expectLen, wire);
      var size := if rx.expectLen - rx.rxLen < |data| then rx.expectLen - rx.rxLen else |data|;
      RxStep(rxBuf[..], rx.rxLen, rx.expectLen, wire, data, size);
      CopyIn(rx.rxLen, data[..size]);
      rx, wire := rx.(rxLen := rx.rxLen + size), wire + data;
      RxBounds(rxBuf[..], rx.rxLen, rx.expectLen, wire);
    }

    /** `ota_recv_data` */
    method RecvData(data: Bytes)
      requires Valid() && ctrl.st == Dl
      modifies this`ctrl, this`rx, this`wire, rxBuf
      ensures Valid() && rx == old(rx).(rxLen := rx.rxLen)
      ensures wire == (if rx.expectLen > 0 then old(wire) + data else old(wire))
      ensures Snap() == Taken(old(Snap()), data, old(wire), rx.packetCrc)
    {
      hide Counted, Pictured, Checksum, Rx;
      assert wire + [] == wire;
      if data == [] || rx.expectLen == 0 {
        return;
      }
      ghost var s := Snap();
      Store(data);
      if rx.rxLen >= rx.expectLen {
        var crc := Crc(rxBuf[..rx.rxLen]);
        PhaseKeeps(s, 2 * sector, if crc == rx.packetCrc then Flash else Request, false, s.expectLen, s.id);
        ctrl := ctrl.(timerOn := false, st := if crc == rx.packetCrc then Flash else Request);
      }
    }

    /** The first fragment of a packet. */
    method OnHeader(data: Bytes)
      requires Valid() && ctrl.st == Dl && rx.expectLen == 0 && DataFrame(data)
      modifies this`ctrl, this`rx, this`wire, rxBuf
      ensures Valid() && old(ctrl.packetSize) > 0 && Snap() == Opened(old(Snap()), data)
      ensures if Word(data[2], data[3]) >= old(ctrl.expectPacketCount) then rx == old(rx) && wire == old(wire)
              else
                && rx.packetId == Word(data[2], data[3]) && rx.packetCrc == WordBits(data[4], data[5])
                && wire == if rx.expectLen > 0 then data[6..] else []
      ensures Word(data[2], data[3]) < old(ctrl.expectPacketCount) ==>
              rx.expectLen == PacketLength(old(ctrl.firmwareSize), old(ctrl.packetSize), old(ctrl.expectPacketCount),
                  Word(data[2], data[3]))
    {
      hide Counted, Pictured, Checksum, PacketLength, Rx, Word, WordBits;
      var id := Word(data[2], data[3]);
      DlHasSize(Snap(), 2 * sector, id);
      if id >= ctrl.expectPacketCount {
        return;
      }
      HeadKeeps(Snap(), 2 * sector, id);
      EmptyRx(rxBuf[..], rx.rxLen, wire, PacketLength(ctrl.firmwareSize, ctrl.packetSize, ctrl.expectPacketCount, id));
      rx := Packet(rx.rxLen, PacketLength(ctrl.firmwareSize, ctrl.packetSize, ctrl.expectPacketCount, id), id,
          WordBits(data[4], data[5]));
      wire := [];
      RecvData(data[6..]);
    }

    /** `event_char_write` */
    method CharWrite(data: Bytes)
      requires Valid() && power == Running
      modifies this, rxBuf
      ensures Valid() && old(ctrl.st == Dl ==> ctrl.packetSize > 0)
      ensures View() == Happened(old(View()), 2 * sector, Written(data))
    {
      hide Counted, Pictured, Checksum, Rx, PacketSize, Word, WordBits, FirmwareSize, Taken, Opened, PacketLength;
      if ctrl.st == Dl {
        DlHasSize(Snap(), 2 * sector, 0);
      }
      if !connected {
        return;
      }
      if ctrl.st == Idle {
        if StartFrame(data) {
          OnStart(data);
        }
      } else if ctrl.st == Dl {
        if ControlFrame(data, CMD_STOP) {
          CloseKeeps(Snap(), 2 * sector);
          Reset();
          ctrl := ctrl.(st := Stop);
        } else if ControlFrame(data, CMD_COMPLETE) {
          PhaseKeeps(Snap(), 2 * sector, Complete, ctrl.timerOn, rx.expectLen, rx.packetId);
          ctrl := ctrl.(st := Complete);
        } else if DataFrame(data) && rx.expectLen == 0 {
          OnHeader(data);
        } else if rx.expectLen != 0 {
          RecvData(data);
        } else {
          NothingTaken(Snap(), data, wire, rx.packetCrc);
        }
      }
    }

    /** `ota_timeout`, when the timer is running. */
    method Timeout()
      requires Valid() && ctrl.timerOn
      modifies this`ctrl, this`rx, this`wire, rxBuf
      ensures Valid() && Snap() == Lapsed(old(Snap())) && rx == NO_PACKET && wire == []
    {
      hide Pictured, Checksum, Rx;
      PhaseKeeps(Snap(), 2 * sector, Request, false, 0, 0);
      ResetRx();
      ctrl := ctrl.(st := Request, timerOn := false);
    }

    /** A change of the connection. */
    method Connection(up: bool)
      requires Valid() && power == Running
      modifies this, rxBuf
      ensures Valid() && View() == Happened(old(View()), 2 * sector, Connected(up))
    {
      hide Counted, Pictured, Checksum, Rx;
      connected := up;
      if !up {
        partition := Blank(|partition|);
        Reset();
      }
    }

    /** `ota_request`: the receive buffer is cleared, the timer started, and the request sent. */
    method SendRequest()
      requires Valid() && ctrl.st == Request && ctrl.retryCount < MAX_RETRIES
      modifies this`ctrl, this`rx, this`wire, this`sent, rxBuf
      ensures Valid() && Snap() == Requested(old(Snap())) && rx == NO_PACKET && wire == []
    {
      hide Counted, Pictured, Checksum, Rx;
      RequestKeeps(Snap(), 2 * sector);
      ResetRx();
      ctrl, sent := ctrl.(st := Dl, retryCount := ctrl.retryCount + 1, timerOn := true), sent + 1;
    }

    /** The packet in the receive buffer goes to the partition, behind its first two sectors. */
    method FlashPacket()
      requires Valid() && ctrl.st == Flash
      modifies this`ctrl, this`partition, this`accepted, this`faithful
      ensures Valid() && Snap() == Flashed(old(Snap()), 2 * sector, wire[..rx.expectLen])
    {
      hide Counted, Pictured, Checksum, Programmed;
      var payload := rxBuf[..rx.rxLen];
      FlashKeeps(Snap(), 2 * sector, payload);
      var off := 2 * sector + ctrl.recvPacketCount * ctrl.packetSize;
      if off + |payload| <= |partition| {
        partition := Programmed(partition, off, payload);
      }
      var next := if ctrl.recvPacketCount + 1 < ctrl.expectPacketCount then Request else Complete;
      ctrl := ctrl.(st := next, retryCount := 0, recvPacketCount := ctrl.recvPacketCount + 1);
      accepted, faithful := accepted + payload, faithful && rx.packetId == old(ctrl.recvPacketCount);
    }

    /** `ble_ota_process` */
    method Process()
      requires Valid() && power == Running
      modifies this, rxBuf
      ensures Valid() && old(ctrl.st == Flash ==> rx.expectLen <= |wire|)
      ensures View() == Happened(old(View()), 2 * sector, ProcessRuns)
    {
      hide Pictured, Checksum, Flashed, Closed, Requested;
      if !connected {
        return;
      }
      match ctrl.st {
        case Start =>
          if notify {
            PhaseKeeps(Snap(), 2 * sector, Request, false, rx.expectLen, rx.packetId);
            ctrl := ctrl.(st := Request);
          }
        case Request =>
          if ctrl.retryCount + 1 > MAX_RETRIES {
            Reset();
          } else {
            SendRequest();
          }
        case Flash =>
          FlashPacket();
        case Stop =>
          PhaseKeeps(Snap(), 2 * sector, Idle, false, rx.expectLen, rx.packetId);
          ctrl := ctrl.(st := Idle);
        case Complete =>
          power := Rebooted;
        case _ =>
      }
    }
  }

  lemma NothingTaken(s: Session, data: Bytes, wire: Bytes, crc: bv16)
    requires s.expectLen == 0
    ensures Taken(s, data, wire, crc) == s
  {
  }

  lemma DlHasSize(s: Session, base: nat, id: nat)
    requires Sound(s, base) && s.st == Dl
    ensures s.ps > 0 && PacketLength(s.fw, s.ps, s.count, id) <= OTA_PACKET_SIZE
  {
    hide Pictured, PacketCount;
  }

  lemma EmptyRx(buf: Bytes, rxLen: nat, wire: Bytes, expectLen: nat)
    requires Rx(buf, rxLen, 0, wire) && expectLen <= |buf|
    ensures rxLen == 0 && Rx(buf, 0, expectLen, [])
  {
  }

  /** The checksum as the source computes it. */
  method Crc(b: Bytes) returns (crc: bv16)
    ensures crc == Checksum(b)
  {
    crc := Crc16.ComputeCrc16(0, Raw(b));
  }

  /** Requests between two flashed packets and in the whole session, and the lengths received. */
  predicate Bounded(s: Session) {
    && s.retry <= MAX_RETRIES && s.sent <= MAX_RETRIES * (if s.count == 0 then 1 else s.count)
    && s.expectLen <= s.ps <= OTA_PACKET_SIZE
  }

  /** All packets the receiver counts on are in place behind the first `base` bytes, and nothing else is. */
  predicate Delivered(s: Session, base: nat)
    requires s.ps > 0 && s.count > 0
  {
    && |s.accepted| == (s.count - 1) * s.ps + s.fw % s.ps && base + |s.accepted| <= |s.partition|
    && s.partition == Blank(base) + s.accepted + Blank(|s.partition| - base - |s.accepted|)
  }

  /** The firmware is a whole number of packets: the length computed for the last one is then zero. */
  predicate FullLastPacket(fw: nat, ps: nat) {
    ps > 0 && fw % ps == 0
  }

  /** A sound session with the packet it is receiving. */
  ghost predicate Intact(d: Device, base: nat) {
    && Sound(d.s, base) && (d.s.st == Flash ==> d.s.expectLen <= |d.link.wire|)
    && (d.s.st == Dl && d.s.expectLen > 0 ==> |d.link.wire| < d.s.expectLen)
  }

  /** What a sound session means for its outcome. The count of packets has 16 bits: all of the firmware is there
      if and only if the count did not wrap around, and a count that wrapped to 0 takes nothing. */
  lemma SessionFacts(s: Session, base: nat)
    requires Sound(s, base)
    ensures Bounded(s)
    ensures Open(s) ==> s.ps > 0
    ensures Open(s) && s.faithful && Regular(s.fw, s.ps) && s.recv == s.count > 0 ==>
        Delivered(s, base) && (|s.accepted| == s.fw <==> PacketCount(s.fw, s.ps) < U16)
    ensures Open(s) && s.faithful && FullLastPacket(s.fw, s.ps) ==> s.recv < s.count || s.count == 0
    ensures s.count == 0 ==> s.st != Flash && s.recv == 0 && s.accepted == []
  {
    hide PacketCount;
    if Open(s) && s.faithful && Regular(s.fw, s.ps) && s.recv == s.count > 0 {
      Packets(s.fw, s.ps, s.count, s.count - 1);
    }
  }

  lemma RawConcat(a: Bytes, b: Bytes)
    ensures Raw(a + b) == Raw(a) + Raw(b)
  {
  }

  /** A packet damaged in one byte, or in two adjacent ones, does not pass the check. */
  lemma DamageIsNoticed(p: Bytes, d: Bytes, d': Bytes, q: Bytes)
    requires |d| == |d'| && |d| in {1, 2} && d != d'
    ensures Checksum(p + d + q) != Checksum(p + d' + q)
  {
    hide Bits;
    RawConcat(p, d);
    RawConcat(p + d, q);
    RawConcat(p, d');
    RawConcat(p + d', q);
    if d[0] != d'[0] {
      BitsDiffer(d[0], d'[0]);
    } else {
      BitsDiffer(d[1], d'[1]);
    }
    if |d| == 1 {
      assert Raw(d) == [Bits(d[0])] && Raw(d') == [Bits(d'[0])];
      Crc16.DetectsOneByteChange(0, Raw(p), Bits(d[0]), Bits(d'[0]), Raw(q));
    } else {
      assert Raw(d) == [Bits(d[0]), Bits(d[1])] && Raw(d') == [Bits(d'[0]), Bits(d'[1])];
      Crc16.DetectsTwoByteChange(0, Raw(p), Bits(d[0]), Bits(d[1]), Bits(d'[0]), Bits(d'[1]), Raw(q));
    }
  }
}
