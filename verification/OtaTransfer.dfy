/** Transfers: a peer that answers the requests in the end leaves the firmware in place, as far as the receiver can
    count its packets. */
module OtaTransfer {
  import opened Bytes
  import opened Ota
  import opened OtaRuns
  import opened OtaPackets

  /** What the receiver takes of packet `k`. */
  function Expected(firmware: Bytes, ps: nat, count: nat, k: nat): Bytes
    requires ps > 0
  {
    Piece(firmware, k * ps, PacketLength(|firmware|, ps, count, k))
  }

  /** A request, what comes of it, and the time running out. */
  function Try(heard: seq<Bytes>): seq<Event> {
    [ProcessRuns] + Writes(heard) + [TimerFires]
  }

  function Tries(tries: seq<seq<Bytes>>): seq<Event> {
    if tries == [] then [] else Tries(tries[..|tries| - 1]) + Try(tries[|tries| - 1])
  }

  /** One packet: some requests that fail, one more, its answer in fragments, and the turn that flashes it. */
  function Round(tries: seq<seq<Bytes>>, parts: seq<Bytes>): seq<Event> {
    Tries(tries) + [ProcessRuns] + Writes(parts) + [ProcessRuns]
  }

  function Rounds(tries: seq<seq<seq<Bytes>>>, frags: seq<seq<Bytes>>): seq<Event>
    requires |tries| == |frags|
  {
    if frags == [] then []
    else Rounds(tries[..|tries| - 1], frags[..|frags| - 1]) + Round(tries[|tries| - 1], frags[|frags| - 1])
  }

  /** A session that has the first `k` packets of `firmware` and is going to request the next. */
  ghost predicate Ready(d: Device, base: nat, firmware: Bytes, ps: nat, count: nat, k: nat) {
    && d.power == Running && d.up && d.s.st == (if k < count then Request else Complete)
    && d.s.retry == 0 && d.s.recv == k <= d.s.count == count && d.s.ps == ps > 0
    && Proper(d.s, firmware) && d.s.accepted <= firmware && Intact(d, base)
  }

  /** The session has not moved but for its retries. */
  predicate Patient(d: Device, d': Device, n: nat) {
    d' == d.(s := d.s.(retry := d.s.retry + n, sent := d'.s.sent, timerOn := d'.s.timerOn,
                       expectLen := d'.s.expectLen, id := d'.s.id), link := d'.link)
  }

  lemma AfterTry(d: Device, base: nat, heard: seq<Bytes>)
    ensures var asked := Happened(d, base, ProcessRuns);
            After(d, base, Try(heard)) == Happened(After(asked, base, Writes(heard)), base, TimerFires)
  {
    hide Happened, After;
    AfterBoth(d, base, [ProcessRuns] + Writes(heard), [TimerFires]);
    AfterBoth(d, base, [ProcessRuns], Writes(heard));
    AfterOne(d, base, ProcessRuns);
    AfterOne(After(d, base, [ProcessRuns] + Writes(heard)), base, TimerFires);
  }

  lemma {:induction false} TriesPass(d: Device, base: nat, tries: seq<seq<Bytes>>)
    requires d.power == Running && d.up && d.s.st == Request && d.s.ps > 0 && d.s.retry + |tries| <= MAX_RETRIES
    requires forall j :: 0 <= j < |tries| ==> Fails(tries[j], d.s.fw, d.s.ps, d.s.count)
    ensures Patient(d, After(d, base, Tries(tries)), |tries|)
    decreases |tries|
  {
    hide After, Fails, Try, Writes;
    if tries == [] {
      NoEvent(d, base);
    } else {
      var n := |tries| - 1;
      TriesPass(d, base, tries[..n]);
      var d' := After(d, base, Tries(tries[..n]));
      AfterBoth(d, base, Tries(tries[..n]), Try(tries[n]));
      AfterTry(d', base, tries[n]);
      AttemptFails(Happened(d', base, ProcessRuns), base, tries[n]);
    }
  }

  lemma AfterRound(d: Device, base: nat, tries: seq<seq<Bytes>>, parts: seq<Bytes>)
    ensures var asked := Happened(After(d, base, Tries(tries)), base, ProcessRuns);
            After(d, base, Round(tries, parts)) == Happened(After(asked, base, Writes(parts)), base, ProcessRuns)
  {
    hide Happened, After;
    AfterBoth(d, base, Tries(tries) + [ProcessRuns] + Writes(parts), [ProcessRuns]);
    AfterBoth(d, base, Tries(tries) + [ProcessRuns], Writes(parts));
    AfterBoth(d, base, Tries(tries), [ProcessRuns]);
    AfterOne(After(d, base, Tries(tries)), base, ProcessRuns);
    AfterOne(After(d, base, Tries(tries) + [ProcessRuns] + Writes(parts)), base, ProcessRuns);
  }

  lemma ExpectedLength(firmware: Bytes, ps: nat, count: nat, k: nat)
    requires Regular(|firmware|, ps) && k < count <= PacketCount(|firmware|, ps)
    ensures 0 < |Expected(firmware, ps, count, k)| == PacketLength(|firmware|, ps, count, k)
  {
    hide PacketCount;
    Packets(|firmware|, ps, count, k);
  }

  lemma IntactIsSound(d: Device, base: nat)
    requires Intact(d, base)
    ensures Sound(d.s, base)
  {
  }

  /** The receiver counts on no more packets than there are. */
  lemma SoundCount(s: Session, base: nat)
    requires Sound(s, base) && Open(s)
    ensures s.ps > 0 && s.count <= PacketCount(s.fw, s.ps)
  {
    hide Pictured, PacketCount;
    CountIsLess(s.fw, s.ps);
  }

  /** Some requests fail, fewer than the receiver is ready to send. */
  ghost predicate FewFail(tries: seq<seq<Bytes>>, fw: nat, ps: nat, count: nat)
    requires ps > 0
  {
    |tries| < MAX_RETRIES && forall j :: 0 <= j < |tries| ==> Fails(tries[j], fw, ps, count)
  }

  /** The device once it has asked for packet `k`. */
  lemma Asked(d: Device, base: nat, firmware: Bytes, ps: nat, count: nat, k: nat, tries: seq<seq<Bytes>>)
    requires Ready(d, base, firmware, ps, count, k) && k < count && FewFail(tries, |firmware|, ps, count)
    ensures var asked := Happened(After(d, base, Tries(tries)), base, ProcessRuns);
            && Listening(asked) && asked.s.expectLen == 0 && asked.s.recv == k && asked.s.ps == ps
            && asked.s.count == count && Proper(asked.s, firmware) && asked.s.accepted == d.s.accepted
            && Intact(asked, base)
  {
    hide After, Intact, Regular, Fails;
    AfterKeeps(d, base, Tries(tries));
    TriesPass(d, base, tries);
    EventKeeps(After(d, base, Tries(tries)), base, ProcessRuns);
  }

  /** The packet that was asked for is flashed. */
  lemma Answered(d: Device, landed: Device, base: nat, firmware: Bytes, k: nat, payload: Bytes)
    requires Awaits(d, k, payload) && d.s.recv == k && Proper(d.s, firmware) && d.s.accepted <= firmware
    requires payload == Expected(firmware, d.s.ps, d.s.count, k)
    requires Received(d, landed, k, payload) && Intact(landed, base)
    ensures Ready(Happened(landed, base, ProcessRuns), base, firmware, d.s.ps, d.s.count, k + 1)
  {
    hide Intact, Regular, PacketCount, PacketLength, Piece, Checksum, Programmed;
    assert Payload(landed) == payload;
    EventKeeps(landed, base, ProcessRuns);
    IntactIsSound(landed, base);
    RegularImage(landed.s, base);
    PieceExtends(firmware, k * d.s.ps, |payload|, d.s.accepted);
  }

  /** One round takes the session one packet further. */
  lemma RoundAdvances(d: Device, base: nat, firmware: Bytes, ps: nat, count: nat, k: nat, tries: seq<seq<Bytes>>,
                      parts: seq<Bytes>)
    requires Ready(d, base, firmware, ps, count, k) && k < count
    requires AnswersAt(tries, parts, firmware, ps, count, k)
    ensures Ready(After(d, base, Round(tries, parts)), base, firmware, ps, count, k + 1)
  {
    hide After, Intact, PacketCount, PacketLength, Expected, Checksum, Happened, Tidy, Sends, Received, Sound, FewFail;
    var payload, asked := Expected(firmware, ps, count, k), Happened(After(d, base, Tries(tries)), base, ProcessRuns);
    AfterRound(d, base, tries, parts);
    Asked(d, base, firmware, ps, count, k, tries);
    IntactIsSound(asked, base);
    SoundCount(asked.s, base);
    ExpectedLength(firmware, ps, count, k);
    PacketDecides(asked, base, k, payload, parts);
    AfterKeeps(asked, base, Writes(parts));
    Answered(asked, After(asked, base, Writes(parts)), base, firmware, k, payload);
  }

  /** The peer answers every request in the end: at most nine requests for a packet fail, and the answer comes in
      tidy fragments. */
  ghost predicate Answers(tries: seq<seq<seq<Bytes>>>, frags: seq<seq<Bytes>>, firmware: Bytes, ps: nat, count: nat)
    requires ps > 0
  {
    && |tries| == |frags|
    && forall k :: 0 <= k < |frags| ==> AnswersAt(tries[k], frags[k], firmware, ps, count, k)
  }

  ghost predicate AnswersAt(tries: seq<seq<Bytes>>, parts: seq<Bytes>, firmware: Bytes, ps: nat, count: nat, k: nat)
    requires ps > 0
  {
    var payload := Expected(firmware, ps, count, k);
    FewFail(tries, |firmware|, ps, count) && Sends(parts, k, payload) && parts != [] && Tidy(parts, |payload|)
  }

  lemma {:induction false} RoundsAdvance(d: Device, base: nat, firmware: Bytes, ps: nat, count: nat,
                                         tries: seq<seq<seq<Bytes>>>, frags: seq<seq<Bytes>>)
    requires ps > 0 && Ready(d, base, firmware, ps, count, 0)
    requires Answers(tries, frags, firmware, ps, count) && |frags| <= count
    ensures Ready(After(d, base, Rounds(tries, frags)), base, firmware, ps, count, |frags|)
    decreases |frags|
  {
    hide After, Round, Ready, AnswersAt;
    if frags == [] {
      NoEvent(d, base);
    } else {
      var n := |frags| - 1;
      var tries', frags' := tries[..n], frags[..n];
      assert Answers(tries', frags', firmware, ps, count) by {
        forall k | 0 <= k < n ensures AnswersAt(tries'[k], frags'[k], firmware, ps, count, k) {
          assert AnswersAt(tries[k], frags[k], firmware, ps, count, k);
        }
      }
      RoundsAdvance(d, base, firmware, ps, count, tries', frags');
      AfterBoth(d, base, Rounds(tries', frags'), Round(tries[n], frags[n]));
      assert AnswersAt(tries[n], frags[n], firmware, ps, count, n);
      RoundAdvances(After(d, base, Rounds(tries', frags')), base, firmware, ps, count, n, tries[n], frags[n]);
    }
  }

  /** The peer connects, subscribes to notifications and announces a firmware of `fw` bytes; the device answers. */
  function Opening(fw: nat, ps: nat, timeout: byte): seq<Event>
    requires fw < 0x100_0000 && ps < U16
  {
    [Connected(true), Subscribed(true), Written(Announcement(fw, ps, timeout)), ProcessRuns]
  }

  function Announcement(fw: nat, ps: nat, timeout: byte): Bytes
    requires fw < 0x100_0000 && ps < U16
  {
    [0xFF, 0x01, (fw / 0x1_0000) as byte, (fw / 0x100 % 0x100) as byte, (fw % 0x100) as byte,
     (ps / 0x100) as byte, (ps % 0x100) as byte, timeout, 0xFE]
  }

  lemma AnnouncementReads(fw: nat, ps: nat, timeout: byte)
    requires fw < 0x100_0000 && ps < U16
    ensures var data := Announcement(fw, ps, timeout);
            StartFrame(data) && FirmwareSize(data) == fw && PacketSize(data) == ps
  {
    assert fw / 0x1_0000 == fw / 0x100 / 0x100;
  }

  /** The start frame opens a session on an idle device with erased flash. */
  lemma StartHeard(d: Device, base: nat, data: Bytes)
    requires d.power == Running && d.up && d.notify && d.s.st == Idle && StartFrame(data)
    requires base + FirmwareSize(data) <= |d.s.partition| && 0 < PacketSize(data) <= OTA_PACKET_SIZE
    ensures Happened(Happened(d, base, Written(data)), base, ProcessRuns) ==
            d.(s := Started(d.s, FirmwareSize(data), PacketSize(data)).(st := Request))
  {
    hide FirmwareSize, PacketSize, StartFrame, PacketCount, Checksum;
  }

  /** A device that runs, with no session, on an erased partition of `size` bytes. */
  predicate Fresh(d: Device, size: nat) {
    d.power == Running && d.s == Factory(size).s
  }

  lemma OpensSession(d: Device, size: nat, base: nat, firmware: Bytes, ps: nat, timeout: byte, count: nat)
    requires Fresh(d, size) && base + |firmware| <= size && |firmware| < 0x100_0000 && ps <= OTA_PACKET_SIZE
    requires Regular(|firmware|, ps) && count == PacketCount(|firmware|, ps) % U16 > 0
    ensures Ready(After(d, base, Opening(|firmware|, ps, timeout)), base, firmware, ps, count, 0)
  {
    hide After, FirmwareSize, PacketSize, StartFrame, Announcement, PacketCount, Heard, Processed, Intact;
    var data, events := Announcement(|firmware|, ps, timeout), Opening(|firmware|, ps, timeout);
    AnnouncementReads(|firmware|, ps, timeout);
    assert events == [Connected(true), Subscribed(true)] + [Written(data), ProcessRuns];
    AfterBoth(d, base, [Connected(true), Subscribed(true)], [Written(data), ProcessRuns]);
    AfterTwo(d, base, Connected(true), Subscribed(true));
    AfterTwo(d.(up := true, notify := true), base, Written(data), ProcessRuns);
    StartHeard(d.(up := true, notify := true), base, data);
    FreshIsIntact(d, size, base);
    AfterKeeps(d, base, events);
  }

  lemma FreshIsIntact(d: Device, size: nat, base: nat)
    requires Fresh(d, size) && base <= size
    ensures Intact(d, base)
  {
  }

  /** What a transfer to device `d` of `size` bytes comes to. */
  ghost predicate Completes(d: Device, size: nat, base: nat, firmware: Bytes, ps: nat, count: nat, transfer: seq<Event>)
    requires ps > 0 && count > 0
  {
    var d', n := After(d, base, transfer), (count - 1) * ps + |firmware| % ps;
    && d'.s.st == Complete && d'.s.fw == |firmware| && d'.s.ps == ps
    && d'.s.recv == d'.s.count == count && |d'.s.accepted| == n
    && |d'.s.partition| == size && Holds(d'.s.partition, base, firmware, n)
    && (n == |firmware| <==> PacketCount(|firmware|, ps) < U16)
    && Happened(d', base, ProcessRuns).power == Rebooted
  }

  /** A transfer completes: for any firmware whose last packet is not full, any packet size the receiver supports,
      unless the 16-bit count of packets is 0, and any peer that answers, the receiver counts all packets it counts
      on, and its next turn restarts the device. The partition is then what these packets carry behind the first
      `base` bytes and erased everywhere else. That is the whole firmware if and only if fewer than 65536 packets
      carry it. */
  lemma TransferCompletes(d: Device, size: nat, base: nat, firmware: Bytes, ps: nat, timeout: byte, count: nat,
                          tries: seq<seq<seq<Bytes>>>, frags: seq<seq<Bytes>>)
    requires Fresh(d, size) && base + |firmware| <= size && |firmware| < 0x100_0000 && ps <= OTA_PACKET_SIZE
    requires Regular(|firmware|, ps) && count == PacketCount(|firmware|, ps) % U16 > 0
    requires |frags| == count && Answers(tries, frags, firmware, ps, count)
    ensures Completes(d, size, base, firmware, ps, count, Opening(|firmware|, ps, timeout) + Rounds(tries, frags))
  {
    hide After, PacketCount, AnswersAt, Opening, Rounds;
    var ready := After(d, base, Opening(|firmware|, ps, timeout));
    OpensSession(d, size, base, firmware, ps, timeout, count);
    RoundsAdvance(ready, base, firmware, ps, count, tries, frags);
    AfterBoth(d, base, Opening(|firmware|, ps, timeout), Rounds(tries, frags));
    var d' := After(ready, base, Rounds(tries, frags));
    IntactIsSound(d', base);
    SessionFacts(d'.s, base);
    SizeStays(d, base, Opening(|firmware|, ps, timeout) + Rounds(tries, frags));
  }

  /** Whatever has happened to a device that still runs, a transfer completes after the peer has disconnected. */
  lemma CompletesAfterDisconnect(size: nat, base: nat, past: seq<Event>, firmware: Bytes, ps: nat, timeout: byte,
                                 count: nat, tries: seq<seq<seq<Bytes>>>, frags: seq<seq<Bytes>>)
    requires base + |firmware| <= size && |firmware| < 0x100_0000 && ps <= OTA_PACKET_SIZE
    requires Regular(|firmware|, ps) && count == PacketCount(|firmware|, ps) % U16 > 0
    requires |frags| == count && Answers(tries, frags, firmware, ps, count)
    requires After(Factory(size), base, past).power == Running
    ensures Completes(After(Factory(size), base, past + [Connected(false)]), size, base, firmware, ps, count,
                      Opening(|firmware|, ps, timeout) + Rounds(tries, frags))
  {
    hide After, PacketCount, Answers, Opening, Rounds, Completes, Regular;
    var d := After(Factory(size), base, past);
    AfterBoth(Factory(size), base, past, [Connected(false)]);
    AfterOne(d, base, Connected(false));
    SizeStays(Factory(size), base, past);
    TransferCompletes(Happened(d, base, Connected(false)), size, base, firmware, ps, timeout, count, tries, frags);
  }

  lemma EventSize(d: Device, base: nat, event: Event)
    ensures |Happened(d, base, event).s.partition| == |d.s.partition|
  {
    hide Checksum, PacketLength, PacketCount, Programmed, FirmwareSize, PacketSize, Fed, Word, WordBits, StartFrame;
  }

  /** The partition keeps its size. */
  lemma {:induction false} SizeStays(d: Device, base: nat, events: seq<Event>)
    ensures |After(d, base, events).s.partition| == |d.s.partition|
    decreases |events|
  {
    hide Happened;
    if events != [] {
      SizeStays(d, base, events[..|events| - 1]);
      EventSize(After(d, base, events[..|events| - 1]), base, events[|events| - 1]);
    }
  }

  /** The count wraps around: 131073 bytes in packets of two are 65537 packets, of which the receiver counts on
      one. It takes one byte and restarts with it. */
  lemma WrappedCountStopsShort(size: nat, base: nat, firmware: Bytes, timeout: byte) returns (events: seq<Event>)
    requires |firmware| == 131073 && base + |firmware| <= size
    ensures var d := After(Factory(size), base, events);
            && d.s.fw == 131073 && d.s.ps == 2 && d.s.recv == d.s.count == 1 && |d.s.accepted| == 1
            && Holds(d.s.partition, base, firmware, 1) && d.power == Rebooted
  {
    hide After, Opening, Sends, Tidy, Holds;
    var payload := firmware[0..1];
    assert PacketCount(131073, 2) == 65537;
    assert Expected(firmware, 2, 1, 0) == payload;
    var parts := OnePiece(0, payload);
    assert AnswersAt([], parts, firmware, 2, 1, 0);
    var transfer := Opening(|firmware|, 2, timeout) + Rounds([[]], [parts]);
    TransferCompletes(Factory(size), size, base, firmware, 2, timeout, 1, [[]], [parts]);
    events := transfer + [ProcessRuns];
    AfterBoth(Factory(size), base, transfer, [ProcessRuns]);
    AfterOne(After(Factory(size), base, transfer), base, ProcessRuns);
  }

  /** A start frame with packet size 0 passes the checks and the source divides by it. */
  lemma ZeroPacketSizeFaults(size: nat, base: nat, fw: nat, timeout: byte)
    requires base + fw <= size && fw < 0x100_0000
    ensures After(Factory(size), base, [Connected(true), Written(Announcement(fw, 0, timeout))]).power == Faulted
  {
    hide After, FirmwareSize, PacketSize, StartFrame, Announcement;
    AnnouncementReads(fw, 0, timeout);
    AfterTwo(Factory(size), base, Connected(true), Written(Announcement(fw, 0, timeout)));
  }
}
