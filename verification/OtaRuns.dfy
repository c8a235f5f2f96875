/** Whole runs of the over-the-air receiver: what every sequence of events keeps, and the firmware it leaves in
    the partition. */
module OtaRuns {
  import opened Bytes
  import opened Ota

  lemma TimerPhase(s: Session, base: nat)
    requires Sound(s, base)
    ensures s.timerOn ==> s.st in {Dl, Complete}
    ensures s.st in {Idle, Start, Stop} ==> !s.timerOn
    ensures s.st == Dl || s.st == Flash ==> s.ps > 0
    ensures s.st in {Start, Request, Flash, Stop} ==> !s.timerOn
    ensures s.st == Stop ==> s.expectLen == 0
    ensures s.st == Start ==> s.expectLen == 0
  {
    hide Pictured, PacketCount;
  }

  /** Receiving some bytes keeps a session intact. */
  lemma TakenKeeps(s: Session, base: nat, data: Bytes, wire: Bytes, crc: bv16)
    requires Sound(s, base) && s.st == Dl && (s.expectLen > 0 ==> |wire| < s.expectLen)
    ensures var s' := Taken(s, data, wire, crc);
            && Sound(s', base) && s'.partition == s.partition && s'.expectLen == s.expectLen
            && (s'.st == Flash ==> 0 < s.expectLen <= |wire + data|)
            && (s'.st == Dl && s.expectLen > 0 ==> |wire + data| < s.expectLen)
  {
    hide Sound, Checksum;
    if data != [] && s.expectLen > 0 && |wire + data| >= s.expectLen {
      var all := wire + data;
      PhaseKeeps(s, base, if Checksum(all[..s.expectLen]) == crc then Flash else Request, false, s.expectLen, s.id);
    }
  }

  lemma WrittenKeeps(d: Device, base: nat, data: Bytes)
    requires Intact(d, base) && d.power == Running && d.up
    ensures Intact(Happened(d, base, Written(data)), base)
  {
    hide Sound, Counted, Pictured, Checksum, FirmwareSize, PacketSize, Taken, PacketLength, PacketCount, Word, WordBits;
    var s := d.s;
    TimerPhase(s, base);
    if s.st == Idle && StartFrame(data) && !Unsupported(s, base, data) && PacketSize(data) > 0 {
      StartKeeps(s, base, FirmwareSize(data), PacketSize(data));
    } else if s.st == Dl {
      if ControlFrame(data, CMD_STOP) {
        SoundBase(s, base);
        CloseKeeps(s, base);
      } else if ControlFrame(data, CMD_COMPLETE) {
        PhaseKeeps(s, base, Complete, s.timerOn, s.expectLen, s.id);
      } else if DataFrame(data) && s.expectLen == 0 {
        var id := Word(data[2], data[3]);
        if id < s.count {
          HeadKeeps(s, base, id);
          assert [] + data[6..] == data[6..];
          TakenKeeps(Headed(s, id), base, data[6..], [], WordBits(data[4], data[5]));
        }
      } else {
        TakenKeeps(s, base, data, d.link.wire, d.link.crc);
      }
    }
  }

  lemma SoundBase(s: Session, base: nat)
    requires Sound(s, base)
    ensures base <= |s.partition|
  {
  }

  lemma ProcessKeeps(d: Device, base: nat)
    requires Intact(d, base) && d.power == Running && d.up
    ensures Intact(Happened(d, base, ProcessRuns), base)
  {
    hide Sound, Counted, Pictured, Checksum, PacketLength, PacketCount, Programmed;
    var s := d.s;
    TimerPhase(s, base);
    SoundBase(s, base);
    match s.st {
      case Start =>
        PhaseKeeps(s, base, Request, false, s.expectLen, s.id);
      case Request =>
        if s.retry + 1 > MAX_RETRIES {
          CloseKeeps(s, base);
        } else {
          RequestKeeps(s, base);
        }
      case Flash =>
        FlashKeeps(s, base, Payload(d));
      case Stop =>
        PhaseKeeps(s, base, Idle, false, s.expectLen, s.id);
      case _ =>
    }
  }

  /** Every event keeps a receiver intact. */
  lemma EventKeeps(d: Device, base: nat, event: Event)
    requires Intact(d, base)
    ensures Intact(Happened(d, base, event), base)
  {
    hide Sound, Heard, Processed, Fed;
    if d.power == Running {
      SoundBase(d.s, base);
      match event {
        case Connected(up) =>
          CloseKeeps(d.s.(partition := Blank(|d.s.partition|)), base);
        case Subscribed(_) =>
        case Written(data) =>
          if d.up {
            WrittenKeeps(d, base, data);
          }
        case TimerFires =>
          TimerPhase(d.s, base);
          if d.s.timerOn {
            PhaseKeeps(d.s, base, Request, false, 0, 0);
          }
        case ProcessRuns =>
          if d.up {
            ProcessKeeps(d, base);
          }
      }
    }
  }

  lemma {:induction false} RunKeeps(size: nat, base: nat, events: seq<Event>)
    requires base <= size
    ensures Intact(After(Factory(size), base, events), base)
    decreases |events|
  {
    hide Happened;
    if events != [] {
      RunKeeps(size, base, events[..|events| - 1]);
      EventKeeps(After(Factory(size), base, events[..|events| - 1]), base, events[|events| - 1]);
    }
  }

  /** `n` bytes of a firmware. */
  function Piece(firmware: Bytes, at: nat, n: nat): Bytes {
    if at + n <= |firmware| then firmware[at..at + n] else []
  }

  /** If a packet has passed its checksum, it carries the bytes of the firmware at its number. */
  predicate TruthfulAt(d: Device, firmware: Bytes) {
    d.s.st == Flash && d.s.fw == |firmware| ==> Payload(d) == Piece(firmware, d.s.id * d.s.ps, d.s.expectLen)
  }

  /** No damage or fraud gets past a checksum during the run. */
  ghost predicate Truthful(d: Device, base: nat, events: seq<Event>, firmware: Bytes) {
    forall i :: 0 <= i <= |events| ==> TruthfulAt(After(d, base, events[..i]), firmware)
  }

  /** A session that started on erased flash and flashed only the packets it requested, for a firmware of this
      length whose last packet is not full. */
  predicate Proper(s: Session, firmware: Bytes) {
    Open(s) && s.faithful && Regular(s.fw, s.ps) && s.fw == |firmware|
  }

  ghost predicate Carries(d: Device, firmware: Bytes) {
    Proper(d.s, firmware) ==> d.s.accepted <= firmware
  }

  lemma PieceExtends(firmware: Bytes, at: nat, n: nat, accepted: Bytes)
    requires accepted <= firmware && |accepted| == at
    ensures accepted + Piece(firmware, at, n) <= firmware
  {
  }

  lemma FlashCarries(d: Device, base: nat, firmware: Bytes)
    requires Intact(d, base) && d.s.st == Flash && Carries(d, firmware) && TruthfulAt(d, firmware)
    ensures Proper(Flashed(d.s, base, Payload(d)), firmware) ==> d.s.accepted + Payload(d) <= firmware
  {
    hide PacketCount, Programmed, Piece, Regular;
    if Proper(d.s, firmware) {
      RegularImage(d.s, base);
      PieceExtends(firmware, d.s.recv * d.s.ps, d.s.expectLen, d.s.accepted);
    }
  }

  lemma RegularImage(s: Session, base: nat)
    requires Sound(s, base) && Open(s) && s.faithful && Regular(s.fw, s.ps) && s.st == Flash
    ensures s.expectLen > 0 && |s.accepted| == s.recv * s.ps
  {
    hide PacketCount, PacketLength;
  }

  lemma WrittenCarries(d: Device, base: nat, data: Bytes, firmware: Bytes)
    requires Intact(d, base) && d.power == Running && d.up && Carries(d, firmware)
    ensures Carries(Happened(d, base, Written(data)), firmware)
  {
    hide Sound, Checksum, FirmwareSize, PacketSize, PacketLength, PacketCount, Word, WordBits, Regular;
    TimerPhase(d.s, base);
  }

  lemma EventCarries(d: Device, base: nat, event: Event, firmware: Bytes)
    requires Intact(d, base) && Carries(d, firmware) && TruthfulAt(d, firmware)
    ensures Carries(Happened(d, base, event), firmware)
  {
    hide Sound, Heard, Fed, PacketCount, Programmed, Piece, Regular;
    TimerPhase(d.s, base);
    if d.power == Running {
      if event.Written? {
        if d.up {
          WrittenCarries(d, base, event.data, firmware);
        }
      } else if event.ProcessRuns? && d.s.st == Flash {
        FlashCarries(d, base, firmware);
      }
    }
  }

  lemma {:induction false} RunCarries(size: nat, base: nat, events: seq<Event>, firmware: Bytes)
    requires base <= size && Truthful(Factory(size), base, events, firmware)
    ensures Carries(After(Factory(size), base, events), firmware)
    decreases |events|
  {
    hide Happened, TruthfulAt, Intact;
    if events == [] {
      assert !Open(Factory(size).s);
    } else {
      var n := |events| - 1;
      assert forall i :: 0 <= i <= n ==> events[..n][..i] == events[..i];
      RunCarries(size, base, events[..n], firmware);
      RunKeeps(size, base, events[..n]);
      assert TruthfulAt(After(Factory(size), base, events[..n]), firmware);
      EventCarries(After(Factory(size), base, events[..n]), base, events[n], firmware);
    }
  }

  /** What a run leaves behind. Retries and lengths are bounded whatever happens. Let a session on flash erased at
      its start have flashed only requested packets and counted all of them. Then it took
      `(count - 1) * ps + fw % ps` bytes, which is all of the firmware if and only if fewer than 65536 packets
      carry it, and if no checksum was fooled the partition is that much of the firmware behind its first `base`
      bytes and erased everywhere else. A session whose count wrapped around to 0 takes no packet, and with a
      firmware that is a whole number of packets no session counts them all. */
  lemma RunDelivers(size: nat, base: nat, events: seq<Event>, firmware: Bytes)
    requires base <= size
    ensures Outcome(After(Factory(size), base, events).s)
    ensures var s := After(Factory(size), base, events).s;
            Truthful(Factory(size), base, events, firmware) && Proper(s, firmware) && s.recv == s.count > 0 ==>
              Holds(s.partition, base, firmware, (s.count - 1) * s.ps + s.fw % s.ps)
  {
    hide Truthful, After, Sound, Regular, FullLastPacket, PacketCount;
    var s := After(Factory(size), base, events).s;
    RunKeeps(size, base, events);
    SessionFacts(s, base);
    if Truthful(Factory(size), base, events, firmware) {
      RunCarries(size, base, events, firmware);
    }
  }

  /** What every session amounts to, whatever the packets carried. */
  ghost predicate Outcome(s: Session) {
    && Bounded(s) && (Open(s) ==> s.ps > 0)
    && (Open(s) && s.faithful && Regular(s.fw, s.ps) && s.recv == s.count > 0 ==>
          && |s.accepted| == (s.count - 1) * s.ps + s.fw % s.ps
          && (|s.accepted| == s.fw <==> PacketCount(s.fw, s.ps) < U16))
    && (Open(s) && s.faithful && FullLastPacket(s.fw, s.ps) ==> s.recv < s.count || s.count == 0)
    && (s.count == 0 ==> s.recv == 0 && s.accepted == [])
  }

  /** The partition holds the first `n` bytes of the firmware behind its first `base` bytes, and is erased
      everywhere else. */
  ghost predicate Holds(partition: Bytes, base: nat, firmware: Bytes, n: nat) {
    && n <= |firmware| && base + n <= |partition|
    && partition == Blank(base) + firmware[..n] + Blank(|partition| - base - n)
  }

  /** Any number of events in any order: connections, lost, repeated, damaged and fragmented packets, control
      frames, time-outs, and turns of the processing task. The receiver ends where the events take it, with the
      outcome that `RunDelivers` states. */
  method Run(size: nat, sector: nat, events: seq<Event>, ghost firmware: Bytes) returns (ota: OtaServer)
    requires 2 * sector <= size
    ensures ota.Valid() && ota.sector == sector && ota.View() == After(Factory(size), 2 * sector, events)
    ensures Outcome(ota.Snap())
    ensures Truthful(Factory(size), 2 * sector, events, firmware) && Proper(ota.Snap(), firmware) &&
            ota.ctrl.recvPacketCount == ota.ctrl.expectPacketCount > 0 ==>
              var n := (ota.ctrl.expectPacketCount - 1) * ota.ctrl.packetSize + |firmware| % ota.ctrl.packetSize;
              && Holds(ota.partition, 2 * sector, firmware, n)
              && (n == |firmware| <==> PacketCount(|firmware|, ota.ctrl.packetSize) < U16)
  {
    hide Pictured, Counted, Checksum, Rx, Happened, Truthful, PacketCount;
    ota := new OtaServer(size, sector);
    for i := 0 to |events|
      invariant fresh(ota) && fresh(ota.rxBuf) && ota.Valid() && ota.sector == sector
      invariant ota.View() == After(Factory(size), 2 * sector, events[..i])
    {
      assert events[..i + 1][..i] == events[..i];
      Occur(ota, events[i]);
    }
    assert events[..|events|] == events;
    RunDelivers(size, 2 * sector, events, firmware);
  }

  /** One event. */
  method Occur(ota: OtaServer, event: Event)
    requires ota.Valid()
    modifies ota, ota.rxBuf
    ensures ota.Valid() && ota.View() == Happened(old(ota.View()), 2 * ota.sector, event)
  {
    hide Pictured, Counted, Checksum, Rx;
    if ota.power != Running {
      return;
    }
    match event {
      case Connected(up) =>
        ota.Connection(up);
      case Subscribed(on) =>
        ota.notify := on;
      case Written(data) =>
        ota.CharWrite(data);
      case TimerFires =>
        if ota.ctrl.timerOn {
          ota.Timeout();
        }
      case ProcessRuns =>
        ota.Process();
    }
  }
}
