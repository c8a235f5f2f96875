/** Packets and their fragments: exactly which fragmentations of a packet get through. */
module OtaPackets {
  import opened Bytes
  import opened ByteBits
  import opened Ota
  import opened OtaRuns

  lemma {:induction false} AfterBoth(d: Device, base: nat, a: seq<Event>, b: seq<Event>)
    ensures After(d, base, a + b) == After(After(d, base, a), base, b)
    decreases |b|
  {
    hide Happened;
    if b == [] {
      assert a + b == a;
    } else {
      var n := |b| - 1;
      assert (a + b)[..|a| + n] == a + b[..n] && (a + b)[|a| + n] == b[n];
      AfterBoth(d, base, a, b[..n]);
    }
  }

  lemma AfterOne(d: Device, base: nat, e: Event)
    ensures After(d, base, [e]) == Happened(d, base, e)
  {
    assert [e][..0] == [];
    assert After(d, base, []) == d;
  }

  lemma {:induction false} AfterKeeps(d: Device, base: nat, events: seq<Event>)
    requires Intact(d, base)
    ensures Intact(After(d, base, events), base)
    decreases |events|
  {
    hide Happened, Intact;
    if events != [] {
      AfterKeeps(d, base, events[..|events| - 1]);
      EventKeeps(After(d, base, events[..|events| - 1]), base, events[|events| - 1]);
    }
  }

  /** The fragments of a packet, written one after the other. */
  function Writes(parts: seq<Bytes>): seq<Event> {
    seq(|parts|, i requires 0 <= i < |parts| => Written(parts[i]))
  }

  function Joined(parts: seq<Bytes>): Bytes {
    if parts == [] then [] else parts[0] + Joined(parts[1..])
  }

  lemma AfterFirst(d: Device, base: nat, parts: seq<Bytes>)
    requires parts != []
    ensures After(d, base, Writes(parts)) == After(Happened(d, base, Written(parts[0])), base, Writes(parts[1..]))
  {
    hide Happened;
    assert Writes(parts) == [Written(parts[0])] + Writes(parts[1..]);
    AfterBoth(d, base, [Written(parts[0])], Writes(parts[1..]));
    AfterOne(d, base, Written(parts[0]));
  }

  lemma NoEvent(d: Device, base: nat)
    ensures After(d, base, []) == d
  {
  }

  lemma AfterTwo(d: Device, base: nat, e: Event, f: Event)
    ensures After(d, base, [e, f]) == Happened(Happened(d, base, e), base, f)
  {
    hide Happened, After;
    assert [e, f] == [e] + [f];
    AfterBoth(d, base, [e], [f]);
    AfterOne(d, base, e);
    AfterOne(Happened(d, base, e), base, f);
  }

  /** The stop command and the complete command. */
  const STOP: Bytes := [0xFF, 0x02, 0xFE]
  const COMPLETE: Bytes := [0xFF, 0x04, 0xFE]

  predicate Control(data: Bytes) {
    data == STOP || data == COMPLETE
  }

  lemma ControlBytes(data: Bytes)
    ensures ControlFrame(data, CMD_STOP) <==> data == STOP
    ensures ControlFrame(data, CMD_COMPLETE) <==> data == COMPLETE
  {
  }

  /** A stop command ends the session: counters, lengths and the bytes received are cleared, and the partition is
      kept. The next turn of the processing task makes the device idle; it does not restart. */
  lemma StopCommand(d: Device, base: nat)
    requires Listening(d)
    ensures var d' := Happened(d, base, Written(STOP));
            && d'.s == Session(Stop, 0, 0, 0, 0, 0, false, 0, 0, d.s.partition, [], 0, false)
            && d'.link == Link(0, []) && d'.power == Running && d'.up && d'.notify == d.notify
            && Happened(d', base, ProcessRuns) == d'.(s := d'.s.(st := Idle))
  {
    hide Checksum, PacketLength, Word, WordBits;
    ControlBytes(STOP);
  }

  /** A complete command keeps counters, packet and partition, whatever is still missing; the next turn of the
      processing task restarts the device. */
  lemma CompleteCommand(d: Device, base: nat)
    requires Listening(d)
    ensures var d' := Happened(d, base, Written(COMPLETE));
            && d' == d.(s := d.s.(st := Complete))
            && Happened(d', base, ProcessRuns) == d'.(power := Rebooted)
  {
    hide Checksum, PacketLength, Word, WordBits;
    ControlBytes(COMPLETE);
  }

  ghost predicate Fragments(parts: seq<Bytes>) {
    forall i :: 0 <= i < |parts| ==> parts[i] != []
  }

  /** With `missing` bytes of the payload to come, no fragment that starts inside the payload looks like a control
      frame. */
  ghost predicate TidyRest(parts: seq<Bytes>, missing: int)
    decreases |parts|
  {
    missing > 0 && parts != [] ==> !Control(parts[0]) && TidyRest(parts[1..], missing - |parts[0]|)
  }

  /** The first fragment inside the payload that looks like a control frame. */
  ghost function Breaker(parts: seq<Bytes>, missing: int): Bytes
    requires !TidyRest(parts, missing)
    decreases |parts|
  {
    if Control(parts[0]) then parts[0] else Breaker(parts[1..], missing - |parts[0]|)
  }

  /** What that fragment makes of the session. */
  ghost function Broken(parts: seq<Bytes>, missing: int): Phase
    requires !TidyRest(parts, missing)
  {
    if Breaker(parts, missing) == STOP then Stop else Complete
  }

  /** The fragments of a packet with `n` bytes of payload: the first one holds the six bytes in front of the
      payload and some of it, and no other looks like a control frame before the payload is complete. */
  ghost predicate Tidy(parts: seq<Bytes>, n: nat)
    requires parts != []
  {
    |parts[0]| > 6 && TidyRest(parts[1..], n + 6 - |parts[0]|)
  }

  const TAIL: Bytes := [0xFE, 0xFF]

  /** A device that listens to its peer. */
  predicate Listening(d: Device) {
    d.power == Running && d.up && d.s.st == Dl && d.s.ps > 0
  }

  /** In the other phases of a session what the peer writes changes nothing. */
  lemma {:induction false} Ignored(d: Device, base: nat, parts: seq<Bytes>)
    requires d.power == Running && d.s.st !in {Idle, Dl}
    ensures After(d, base, Writes(parts)) == d
    decreases |parts|
  {
    if parts != [] {
      AfterFirst(d, base, parts);
      assert Happened(d, base, Written(parts[0])) == d;
      Ignored(d, base, parts[1..]);
    } else {
      assert Writes(parts) == [];
    }
  }

  /** `d'` is `d` with the packet complete: its checksum has decided. */
  ghost predicate Decided(d: Device, d': Device, payload: Bytes) {
    && payload <= d'.link.wire
    && d' == d.(s := d.s.(timerOn := false, st := if Checksum(payload) == d.link.crc then Flash else Request),
                link := d.link.(wire := d'.link.wire))
  }

  /** A device in the middle of a packet. */
  predicate Midway(d: Device, payload: Bytes) {
    Listening(d) && 0 < d.s.expectLen == |payload| && |d.link.wire| < |payload|
  }

  /** What one more fragment does in the middle of a packet. */
  lemma NextFragment(d: Device, base: nat, payload: Bytes, part: Bytes)
    requires Midway(d, payload) && part != [] && d.link.wire + part <= payload + TAIL
    ensures var d', n := Happened(d, base, Written(part)), |d.link.wire + part|;
            && d'.power == Running && d'.up
            && (Control(part) ==> d'.s.st == if part == STOP then Stop else Complete)
            && (!Control(part) && n >= |payload| ==> Decided(d, d', payload))
            && (!Control(part) && n < |payload| ==> d' == d.(link := d.link.(wire := d.link.wire + part)))
  {
    hide Checksum, PacketLength, PacketCount;
    ControlBytes(part);
    var all := d.link.wire + part;
    if |all| >= |payload| {
      assert all[..|payload|] == (payload + TAIL)[..|payload|] == payload;
    }
  }

  /** What the fragments behind the first do, all of them or as many as arrive. */
  lemma {:induction false} RestReads(d: Device, base: nat, payload: Bytes, parts: seq<Bytes>)
    requires Midway(d, payload) && Fragments(parts) && d.link.wire + Joined(parts) <= payload + TAIL
    ensures var d', tidy := After(d, base, Writes(parts)), TidyRest(parts, |payload| - |d.link.wire|);
            && (!tidy ==> d'.s.st == Broken(parts, |payload| - |d.link.wire|))
            && (tidy && |d.link.wire + Joined(parts)| >= |payload| ==> Decided(d, d', payload))
            && (tidy && |d.link.wire + Joined(parts)| < |payload| ==>
                  d' == d.(link := d.link.(wire := d.link.wire + Joined(parts))))
    decreases |parts|
  {
    hide Checksum, Happened, Control, After, Writes;
    if parts == [] {
      NothingWritten(d, base);
      assert d.link.wire + [] == d.link.wire;
    } else {
      var d', rest := Happened(d, base, Written(parts[0])), parts[1..];
      AfterFirst(d, base, parts);
      assert (d.link.wire + parts[0]) + Joined(rest) == d.link.wire + Joined(parts);
      assert d.link.wire + parts[0] <= (d.link.wire + parts[0]) + Joined(rest);
      NextFragment(d, base, payload, parts[0]);
      var missing := |payload| - |d.link.wire| - |parts[0]|;
      if Control(parts[0]) || missing <= 0 {
        assert missing <= 0 ==> TidyRest(rest, missing);
        Ignored(d', base, rest);
      } else {
        RestReads(d', base, payload, rest);
      }
    }
  }

  lemma NothingWritten(d: Device, base: nat)
    ensures After(d, base, Writes([])) == d
  {
  }

  /** A packet on the wire: head, number, checksum, payload and tail. */
  function Frame(id: Bytes, crc: Bytes, payload: Bytes): Bytes {
    [0xFF, 0xFE] + id + crc + payload + TAIL
  }

  /** `parts` are the first fragments, or all, of a frame for packet `id`. */
  ghost predicate Begins(parts: seq<Bytes>, id: nat, payload: Bytes, i: Bytes, c: Bytes) {
    && |i| == |c| == 2 && Word(i[0], i[1]) == id
    && parts != [] && Fragments(parts) && Joined(parts) <= Frame(i, c, payload)
  }

  /** `parts` are fragments of packet `id` with its right checksum. */
  ghost predicate Sends(parts: seq<Bytes>, id: nat, payload: Bytes) {
    exists i: Bytes, c: Bytes :: SendsAs(parts, id, payload, i, c)
  }

  ghost predicate SendsAs(parts: seq<Bytes>, id: nat, payload: Bytes, i: Bytes, c: Bytes) {
    && Begins(parts, id, payload, i, c) && WordBits(c[0], c[1]) == Checksum(payload)
    && Joined(parts) == Frame(i, c, payload)
  }

  /** A device that has asked for a packet, and a packet it counts on. */
  predicate Awaits(d: Device, id: nat, payload: Bytes) {
    && Listening(d) && d.s.expectLen == 0 && id < d.s.count
    && 0 < |payload| == PacketLength(d.s.fw, d.s.ps, d.s.count, id)
  }

  /** The device behind the head of a packet. */
  function Begun(d: Device, id: nat, crc: bv16, wire: Bytes): Device
    requires d.s.ps > 0
  {
    d.(s := Headed(d.s, id), link := Link(crc, wire))
  }

  /** `d'` is `d` once packet `id` has been received right. */
  ghost predicate Received(d: Device, d': Device, id: nat, payload: Bytes)
    requires d.s.ps > 0
  {
    Decided(Begun(d, id, Checksum(payload), []), d', payload)
  }

  /** What the first fragment does. */
  lemma FirstFragment(d: Device, base: nat, id: nat, payload: Bytes, i: Bytes, c: Bytes, part: Bytes)
    requires Awaits(d, id, payload) && |i| == |c| == 2 && Word(i[0], i[1]) == id
    requires |part| > 6 && part <= Frame(i, c, payload)
    ensures var d', got, crc := Happened(d, base, Written(part)), part[6..], WordBits(c[0], c[1]);
            && got <= payload + TAIL
            && (|got| >= |payload| ==> Decided(Begun(d, id, crc, []), d', payload))
            && (|got| < |payload| ==> d' == Begun(d, id, crc, got))
  {
    hide Checksum, PacketLength, PacketCount, Word, WordBits, Frame;
    FrameParts(i, c, payload, part);
    var got := part[6..];
    assert [] + got == got;
    if |got| >= |payload| {
      assert got[..|payload|] == (payload + TAIL)[..|payload|] == payload;
    }
  }

  lemma FrameParts(i: Bytes, c: Bytes, payload: Bytes, part: Bytes)
    requires |i| == |c| == 2 && |part| > 6 && part <= Frame(i, c, payload)
    ensures DataFrame(part) && part[2] == i[0] && part[3] == i[1] && part[4] == c[0] && part[5] == c[1]
    ensures part[6..] <= payload + TAIL
  {
    var frame := Frame(i, c, payload);
    assert frame[..6] == [PACKET_START, PACKET_END] + i + c && frame[6..] == payload + TAIL;
    assert part[..6] == frame[..6];
    assert forall k :: 0 <= k < 6 ==> part[k] == part[..6][k];
    assert part[6..] == frame[6..][..|part| - 6];
  }

  /** What the fragments of a packet do, all of them or as many as arrive. */
  lemma FragmentsRead(d: Device, base: nat, id: nat, payload: Bytes, parts: seq<Bytes>, i: Bytes, c: Bytes)
    requires Awaits(d, id, payload) && Begins(parts, id, payload, i, c) && |parts[0]| > 6
    ensures |Joined(parts)| > 6
    ensures var d', crc := After(d, base, Writes(parts)), WordBits(c[0], c[1]);
            && (!Tidy(parts, |payload|) ==> d'.s.st == Broken(parts[1..], |payload| + 6 - |parts[0]|))
            && (Tidy(parts, |payload|) && |Joined(parts)| >= 6 + |payload| ==>
                  Decided(Begun(d, id, crc, []), d', payload))
            && (Tidy(parts, |payload|) && |Joined(parts)| < 6 + |payload| ==>
                  d' == Begun(d, id, crc, Joined(parts)[6..]))
  {
    hide Checksum, Happened, Control, After, Writes, Frame, Word, WordBits, PacketLength, Headed;
    var d', rest, crc := Happened(d, base, Written(parts[0])), parts[1..], WordBits(c[0], c[1]);
    var got := parts[0][6..];
    AfterFirst(d, base, parts);
    assert Joined(parts)[6..] == got + Joined(rest);
    PrefixOfFrame(i, c, payload, parts);
    FirstFragment(d, base, id, payload, i, c, parts[0]);
    if |got| >= |payload| {
      Ignored(d', base, rest);
    } else {
      HeadedIsListening(d, id);
      RestReads(d', base, payload, rest);
    }
  }

  lemma PrefixOfFrame(i: Bytes, c: Bytes, payload: Bytes, parts: seq<Bytes>)
    requires |i| == |c| == 2 && parts != [] && |parts[0]| > 6 && Joined(parts) <= Frame(i, c, payload)
    ensures parts[0] <= Frame(i, c, payload) && parts[0][6..] + Joined(parts[1..]) <= payload + TAIL
  {
    var all := Joined(parts);
    assert parts[0] <= all;
    FrameParts(i, c, payload, all);
    assert all[6..] == parts[0][6..] + Joined(parts[1..]);
  }

  lemma HeadedIsListening(d: Device, id: nat)
    requires Listening(d)
    ensures Headed(d.s, id).st == Dl && Headed(d.s, id).ps > 0
    ensures Headed(d.s, id).expectLen == PacketLength(d.s.fw, d.s.ps, d.s.count, id)
  {
  }

  /** Writes that are neither control frames nor data frames. */
  ghost predicate Plain(parts: seq<Bytes>) {
    forall k :: 0 <= k < |parts| ==> !Control(parts[k]) && !DataFrame(parts[k])
  }

  /** Between packets such writes do nothing. */
  lemma {:induction false} PlainIsIgnored(d: Device, base: nat, parts: seq<Bytes>)
    requires Listening(d) && d.s.expectLen == 0 && Plain(parts)
    ensures After(d, base, Writes(parts)) == d
    decreases |parts|
  {
    hide After, Writes;
    if parts == [] {
      NothingWritten(d, base);
    } else {
      AfterFirst(d, base, parts);
      ControlBytes(parts[0]);
      PlainIsIgnored(d, base, parts[1..]);
    }
  }

  /** A device that has asked for a packet takes it exactly if its fragments are tidy; otherwise the first fragment that
      looks like a command is taken for that command. Of a packet whose first
      fragment is too short to hold some payload the device takes nothing, as long as no later fragment looks like
      a frame of its own. */
  lemma PacketDecides(d: Device, base: nat, id: nat, payload: Bytes, parts: seq<Bytes>)
    requires Awaits(d, id, payload) && Sends(parts, id, payload) && parts != []
    ensures Tidy(parts, |payload|) ==> Received(d, After(d, base, Writes(parts)), id, payload)
    ensures !Tidy(parts, |payload|) && |parts[0]| > 6 ==>
            After(d, base, Writes(parts)).s.st == Broken(parts[1..], |payload| + 6 - |parts[0]|)
    ensures |parts[0]| <= 6 && Plain(parts[1..]) ==> After(d, base, Writes(parts)) == d
  {
    hide Checksum, Happened, Control, After, Writes, Word, WordBits, PacketLength, Headed, DataFrame, ControlFrame;
    var i: Bytes, c: Bytes :| SendsAs(parts, id, payload, i, c);
    if |parts[0]| > 6 {
      FragmentsRead(d, base, id, payload, parts, i, c);
    } else if Plain(parts[1..]) {
      HeadIsPlain(parts, Frame(i, c, payload));
      PlainIsIgnored(d, base, parts);
    }
  }

  lemma HeadIsPlain(parts: seq<Bytes>, frame: Bytes)
    requires parts != [] && |parts[0]| <= 6 && Plain(parts[1..]) && Joined(parts) <= frame
    requires |frame| > 1 && frame[1] == PACKET_END
    ensures Plain(parts)
  {
    assert |parts[0]| > 1 ==> parts[0][1] == Joined(parts)[1] == PACKET_END;
    forall k | 0 <= k < |parts| ensures !Control(parts[k]) && !DataFrame(parts[k]) {
      assert k > 0 ==> parts[k] == parts[1..][k - 1];
    }
  }

  /** What can come of a request that fails: nothing, some of the fragments of a packet, or all of them with a
      checksum that does not match. */
  ghost predicate Fails(heard: seq<Bytes>, fw: nat, ps: nat, count: nat)
    requires ps > 0
  {
    heard == [] || exists id: nat, payload: Bytes, i: Bytes, c: Bytes ::
        FailsAs(heard, fw, ps, count, id, payload, i, c)
  }

  ghost predicate FailsAs(heard: seq<Bytes>, fw: nat, ps: nat, count: nat, id: nat, payload: Bytes, i: Bytes, c: Bytes)
    requires ps > 0
  {
    && id < count && 0 < |payload| == PacketLength(fw, ps, count, id) && Begins(heard, id, payload, i, c)
    && Tidy(heard, |payload|) && (|Joined(heard)| < 6 + |payload| || WordBits(c[0], c[1]) != Checksum(payload))
  }

  /** After such an answer, and the time running out if it was not complete, the device asks again. */
  lemma AttemptFails(d: Device, base: nat, heard: seq<Bytes>)
    requires Listening(d) && d.s.expectLen == 0 && d.s.timerOn && Fails(heard, d.s.fw, d.s.ps, d.s.count)
    ensures var d' := Happened(After(d, base, Writes(heard)), base, TimerFires);
            d' == d.(s := d.s.(st := Request, timerOn := false, expectLen := d'.s.expectLen, id := d'.s.id),
                     link := d'.link)
  {
    hide Checksum, After, Writes, Word, WordBits, PacketLength, Tidy, Frame;
    if heard == [] {
      NothingWritten(d, base);
    } else {
      var id: nat, payload: Bytes, i: Bytes, c: Bytes :| FailsAs(heard, d.s.fw, d.s.ps, d.s.count, id, payload, i, c);
      FirstIsLong(heard, |payload|);
      FragmentsRead(d, base, id, payload, heard, i, c);
    }
  }

  lemma FirstIsLong(parts: seq<Bytes>, n: nat)
    requires parts != [] && Tidy(parts, n)
    ensures |parts[0]| > 6
  {
  }

  lemma Halves(crc: bv16) returns (hi: bv8, lo: bv8)
    ensures ((hi as bv16) << 8) | (lo as bv16) == crc
  {
    hi, lo := ((crc >> 8) & 0xFF) as bv8, (crc & 0xFF) as bv8;
  }

  /** Any checksum can be sent in two bytes. */
  lemma ChecksumOnTheWire(crc: bv16) returns (hi: byte, lo: byte)
    ensures WordBits(hi, lo) == crc
  {
    hide Bits;
    var h, l := Halves(crc);
    hi := BitsOnto(h);
    lo := BitsOnto(l);
  }

  /** Every packet can be sent: a packet written in one piece is tidy. */
  lemma OnePiece(id: nat, payload: Bytes) returns (parts: seq<Bytes>)
    requires id < U16 && payload != []
    ensures Sends(parts, id, payload) && |parts| == 1 && Tidy(parts, |payload|)
  {
    hide Checksum, WordBits;
    var hi, lo := ChecksumOnTheWire(Checksum(payload));
    var i, c: Bytes := [(id / 0x100) as byte, (id % 0x100) as byte], [hi, lo];
    parts := [Frame(i, c, payload)];
    assert parts[1..] == [] && Joined(parts) == parts[0] + [];
    assert SendsAs(parts, id, payload, i, c);
  }

  /** The number of a packet is not compared with the request: a packet that was not asked for is flashed in the
      place of the one that was. */
  lemma AnyPacketIsFlashed(d: Device, base: nat, id: nat, payload: Bytes, parts: seq<Bytes>, off: nat)
    requires Awaits(d, id, payload) && Sends(parts, id, payload) && parts != [] && Tidy(parts, |payload|)
    requires off == base + d.s.recv * d.s.ps && off + |payload| <= |d.s.partition|
    ensures var d' := Happened(After(d, base, Writes(parts)), base, ProcessRuns);
            && d'.s.recv == d.s.recv + 1 && d'.s.partition == Programmed(d.s.partition, off, payload)
            && d'.s.faithful == (d.s.faithful && id == d.s.recv)
  {
    hide After, PacketLength, Programmed, Checksum, Sends, Tidy;
    PacketDecides(d, base, id, payload, parts);
    assert Payload(After(d, base, Writes(parts))) == payload;
  }
}
