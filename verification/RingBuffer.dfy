/** The receive path of the UART: a ring buffer that the receive interrupt writes and a task reads, with the
    interrupt free to strike between any two statements of the reader. */
module RingBuffer {
  import opened Bytes

  /** What happens between two statements of the reader: nothing, or a receive interrupt that brings some bytes and
      may have `more` interrupts behind it before the reader goes on. */
  datatype Interrupt = Quiet | Received(data: Bytes, more: bool)

  /** What the interrupts of a stretch of the line bring, end to end. */
  function Arrived(line: seq<Interrupt>): Bytes {
    if line == [] then [] else Arrived(line[..|line| - 1]) + Brought(line[|line| - 1])
  }

  function Brought(now: Interrupt): Bytes {
    if now.Received? then now.data else []
  }

  /** One interrupt that has struck, how many bytes the reader had taken by then, and how many of its own
      bytes fitted. */
  datatype Strike = Strike(now: Interrupt, read: nat, kept: nat)

  /** The bytes that fitted, end to end. */
  function Stored(log: seq<Strike>): Bytes {
    if log == [] then [] else Stored(log[..|log| - 1]) + Kept(log[|log| - 1])
  }

  function Kept(s: Strike): Bytes {
    var data := Brought(s.now);
    if s.kept <= |data| then data[..s.kept] else data
  }

  /** Strike `j` of the log is entry `j` of the line, and it stored exactly what fitted beside the unread
      bytes. */
  ghost predicate Struck(wire: seq<Interrupt>, log: seq<Strike>, length: nat, j: nat)
    requires j < |log| <= |wire|
  {
    var unread := |Stored(log[..j])| - log[j].read;
    var data := Brought(wire[j]);
    log[j].now == wire[j] && 0 <= unread <= length
        && log[j].kept == if |data| <= length - unread then |data| else length - unread
  }

  /** `log` holds the interrupts of `wire` that have struck, in order. Only an interrupt that overflows the
      ring loses bytes, and it takes more than `length` bytes to do that. */
  ghost predicate Logged(wire: seq<Interrupt>, log: seq<Strike>, overflowed: bool, length: nat) {
    && |log| <= |wire| && (forall j :: 0 <= j < |log| ==> Struck(wire, log, length, j))
    && |Stored(log)| <= |Arrived(wire[..|log|])|
    && (overflowed <==> |Stored(log)| < |Arrived(wire[..|log|])|)
    && (if overflowed then |Arrived(wire[..|log|])| > length else Stored(log) == Arrived(wire[..|log|]))
  }

  /** The reader has taken at most `n` bytes at any strike so far. */
  ghost predicate ReadUpTo(log: seq<Strike>, n: nat) {
    forall j :: 0 <= j < |log| ==> log[j].read <= n
  }

  lemma ReadMore(log: seq<Strike>, n: nat, n': nat)
    requires ReadUpTo(log, n) && n <= n'
    ensures ReadUpTo(log, n')
  {
  }

  /** Some more interrupts have struck, after the reader had taken `n` bytes. */
  ghost predicate Grew(log: seq<Strike>, log': seq<Strike>, n: nat) {
    log <= log' && forall j :: |log| <= j < |log'| ==> n <= log'[j].read
  }

  lemma GrewTwice(a: seq<Strike>, b: seq<Strike>, c: seq<Strike>, n: nat, m: nat)
    requires Grew(a, b, n) && Grew(b, c, m) && n <= m
    ensures Grew(a, c, n)
  {
  }

  lemma GrewNot(log: seq<Strike>, n: nat)
    ensures Grew(log, log, n)
  {
  }

  /** An interrupt that stores all it brings sets the read event. */
  predicate Announces(s: Strike) {
    s.now.Received? && s.kept == |s.now.data|
  }

  /** Some interrupt from `from` up to `to` has set the read event. */
  ghost predicate Announced(log: seq<Strike>, from: nat, to: nat) {
    exists j :: from <= j < to <= |log| && Announces(log[j])
  }

  /** The read event is set if it was before, or some interrupt since then has set it. */
  ghost predicate Raised(log: seq<Strike>, log': seq<Strike>, before: bool, after: bool) {
    log <= log' && (after <==> before || Announced(log', |log|, |log'|))
  }

  lemma RaisedTwice(a: seq<Strike>, b: seq<Strike>, c: seq<Strike>, x: bool, y: bool, z: bool)
    requires Raised(a, b, x, y) && Raised(b, c, y, z)
    ensures Raised(a, c, x, z)
  {
    hide Announces;
    if Announced(b, |a|, |b|) {
      var j :| |a| <= j < |b| && Announces(b[j]);
      assert Announces(c[j]);
    }
    if Announced(c, |b|, |c|) {
      var j :| |b| <= j < |c| && Announces(c[j]);
    }
    if Announced(c, |a|, |c|) {
      var j :| |a| <= j < |c| && Announces(c[j]);
      assert j < |b| ==> Announces(b[j]);
    }
  }

  lemma RaisedPrefix(a: seq<Strike>, b: seq<Strike>, x: bool, y: bool)
    requires Raised(a, b, x, y)
    ensures a <= b
  {
  }

  lemma RaisedNot(log: seq<Strike>, up: bool)
    ensures Raised(log, log, up, up)
  {
  }

  lemma RaisedOnce(log: seq<Strike>, s: Strike, up: bool)
    ensures Raised(log, log + [s], up, up || Announces(s))
  {
    hide Announces;
    assert (log + [s])[|log|] == s;
  }

  lemma StoredMore(log: seq<Strike>, s: Strike)
    ensures Stored(log + [s]) == Stored(log) + Kept(s)
  {
    hide Kept;
    assert (log + [s])[..|log|] == log;
  }

  lemma ArrivedMore(wire: seq<Interrupt>, n: nat)
    requires n < |wire|
    ensures Arrived(wire[..n + 1]) == Arrived(wire[..n]) + Brought(wire[n])
  {
    hide Brought;
    assert wire[..n + 1][..n] == wire[..n];
  }

  lemma LoggedOnce(wire: seq<Interrupt>, log: seq<Strike>, overflowed: bool, length: nat, read: nat, kept: nat)
    requires Logged(wire, log, overflowed, length) && |log| < |wire| && ReadUpTo(log, read)
    requires var data, unread := Brought(wire[|log|]), |Stored(log)| - read;
             0 <= unread <= length && kept == if |data| <= length - unread then |data| else length - unread
    ensures var data, log' := Brought(wire[|log|]), log + [Strike(wire[|log|], read, kept)];
            && Stored(log') == Stored(log) + data[..kept] && ReadUpTo(log', read) && Grew(log, log', read)
            && Logged(wire, log', overflowed || kept < |data|, length)
  {
    hide Stored, Arrived, Brought;
    var n, data := |log|, Brought(wire[|log|]);
    var log' := log + [Strike(wire[n], read, kept)];
    StoredMore(log, log'[n]);
    ArrivedMore(wire, n);
    assert kept == |data| ==> data[..kept] == data;
    forall j | 0 <= j <= n ensures Struck(wire, log', length, j) {
      assert log'[..j] == log[..j];
      assert j < n ==> Struck(wire, log, length, j);
      assert log[..n] == log;
    }
  }

  lemma {:induction false} ArrivesMore(wire: seq<Interrupt>, n: nat)
    requires n <= |wire|
    ensures |Arrived(wire[..n])| <= |Arrived(wire)|
    decreases |wire|
  {
    if n < |wire| {
      var w := wire[..|wire| - 1];
      assert w[..n] == wire[..n];
      ArrivesMore(w, n);
    } else {
      assert wire[..n] == wire;
    }
  }

  /** Slot `j` places behind `h` in a ring of `n` slots. */
  function Slot(n: nat, h: nat, j: nat): nat {
    if h + j < n then h + j else h + j - n
  }

  /** `head` while the reader is between its increment and its wrap-around. */
  function Wrapped(n: nat, head: nat): nat {
    if head == n then 0 else head
  }

  /** The ring `b` holds `pending`, oldest byte at `head`. One slot always stays free. */
  ghost predicate Ring(b: Bytes, head: nat, tail: nat, pending: Bytes) {
    var n := |b|;
    var h := Wrapped(n, head);
    && head <= n && tail < n && |pending| < n && tail == Slot(n, h, |pending|)
    && forall j :: 0 <= j < |pending| ==> b[Slot(n, h, j)] == pending[j]
  }

  /** `ringbuffer_available_read_space`, for a ring of `length + 1` slots. */
  function ReadSpace(length: nat, head: nat, tail: nat): int {
    if head == tail then 0 else if head < tail then tail - head else length - (head - tail - 1)
  }

  /** The computed space is the number of unread bytes, also while `head` is past the end. */
  lemma SpaceIsPending(b: Bytes, head: nat, tail: nat, pending: Bytes)
    requires Ring(b, head, tail, pending)
    ensures ReadSpace(|b| - 1, head, tail) == |pending|
  {
  }

  lemma Push(b: Bytes, head: nat, tail: nat, pending: Bytes, c: byte)
    requires Ring(b, head, tail, pending) && |pending| + 1 < |b|
    ensures Ring(b[tail := c], head, if tail + 1 >= |b| then 0 else tail + 1, pending + [c])
  {
  }

  lemma Pop(b: Bytes, head: nat, tail: nat, pending: Bytes)
    requires Ring(b, head, tail, pending) && pending != [] && head < |b|
    ensures b[head] == pending[0] && Ring(b, head + 1, tail, pending[1..])
  {
    var n := |b|;
    var rest := pending[1..];
    assert b[Slot(n, head, 0)] == pending[0];
    forall j | 0 <= j < |rest| ensures b[Slot(n, Wrapped(n, head + 1), j)] == rest[j] {
      assert Slot(n, Wrapped(n, head + 1), j) == Slot(n, head, j + 1);
    }
  }

  /** `n` bytes have been received into `data` at `at`: those of `acc` from `start` on. The rest is as it
      was. */
  ghost predicate Got(data: Bytes, orig: Bytes, at: nat, n: nat, acc: Bytes, start: nat) {
    at + n <= |data| == |orig| && start + n <= |acc| && data == Overlay(orig, at, acc[start..start + n])
  }

  lemma GotMore(data: Bytes, orig: Bytes, at: nat, n: nat, acc: Bytes, start: nat, acc': Bytes, more: nat, data': Bytes)
    requires Got(data, orig, at, n, acc, start) && acc <= acc' && start + n + more <= |acc'| && at + n + more <= |data|
    requires data' == Overlay(data, at + n, acc'[start + n..start + n + more])
    ensures Got(data', orig, at, n + more, acc', start)
  {
    assert acc[start..start + n] == acc'[start..start + n];
    assert acc'[start..start + n + more] == acc'[start..start + n] + acc'[start + n..start + n + more];
  }

  lemma GotStays(data: Bytes, orig: Bytes, at: nat, n: nat, acc: Bytes, start: nat, acc': Bytes)
    requires Got(data, orig, at, n, acc, start) && acc <= acc'
    ensures Got(data, orig, at, n, acc', start)
  {
    assert acc[start..start + n] == acc'[start..start + n];
  }

  lemma Bounds(b: Bytes, head: nat, tail: nat, pending: Bytes)
    requires Ring(b, head, tail, pending)
    ensures head <= |b| && tail < |b| && |pending| < |b|
    ensures head == |b| ==> Ring(b, 0, tail, pending)
  {
  }

  /** Where the log stood at the end of wait `k` of a call that began at `start`. */
  ghost function Mark(start: nat, marks: seq<nat>, k: int): nat
    requires -1 <= k < |marks|
  {
    if k < 0 then start else marks[k]
  }

  /** Wait `k`: all its interrupts have struck, and at least two more in the read in front of it, unless the line is
      used up. It is notified if and only if the event was set or has been set since the wait before; only the last
      wait may time out. */
  ghost predicate WaitAt(total: nat, log: seq<Strike>, start: nat, up: bool, patience: seq<nat>, marks: seq<nat>,
                         timedOut: bool, k: nat)
    requires k < |marks| <= |patience|
  {
    var from, to := Mark(start, marks, k - 1), marks[k];
    && from <= to <= |log| && (to >= from + 2 + patience[k] || to == total)
    && ((k == 0 && up) || Announced(log, from, to) <==> !(timedOut && k == |marks| - 1))
  }

  ghost predicate ReadBelow(log: seq<Strike>, from: nat, to: nat, limit: nat) {
    forall j :: from <= j < to && j < |log| ==> log[j].read < limit
  }

  /** The waits of a call, all of them before it had taken `limit` bytes. */
  ghost predicate Waited(total: nat, log: seq<Strike>, start: nat, up: bool, patience: seq<nat>, marks: seq<nat>,
                         timedOut: bool, limit: nat) {
    && |marks| <= |patience| && (timedOut ==> marks != []) && Mark(start, marks, |marks| - 1) <= |log|
    && (forall k :: 0 <= k < |marks| ==> WaitAt(total, log, start, up, patience, marks, timedOut, k))
    && ReadBelow(log, start, Mark(start, marks, |marks| - 1), limit)
  }

  /** Where the log stood when the last read of a call began. */
  ghost function LastRead(start: nat, marks: seq<nat>, timedOut: bool): nat
    requires timedOut ==> marks != []
  {
    Mark(start, marks, |marks| - if timedOut then 2 else 1)
  }

  /** A call that returns short has waited as often as it may, or until a wait timed out, and has handed out every byte
      stored by the time its last read began. */
  ghost predicate Shorted(log: seq<Strike>, start: nat, patience: seq<nat>, marks: seq<nat>, timedOut: bool,
                          consumed: nat) {
    && (timedOut ==> marks != []) && (timedOut || |marks| == |patience|)
    && LastRead(start, marks, timedOut) <= |log|
    && |Stored(log[..LastRead(start, marks, timedOut)])| <= consumed
  }

  /** The log stands at the end of the last wait. */
  ghost predicate AtMark(log: seq<Strike>, start: nat, marks: seq<nat>) {
    |log| == Mark(start, marks, |marks| - 1)
  }

  /** The read event is set if some interrupt since the last wait has set it, or since before the call if there was no
      wait. */
  ghost predicate Since(log: seq<Strike>, start: nat, marks: seq<nat>, up: bool, up': bool) {
    var last := Mark(start, marks, |marks| - 1);
    last <= |log| && Raised(log[..last], log, marks == [] && up, up')
  }

  lemma WaitedMore(total: nat, log: seq<Strike>, log': seq<Strike>, start: nat, up: bool, patience: seq<nat>,
                   marks: seq<nat>, timedOut: bool, limit: nat)
    requires Waited(total, log, start, up, patience, marks, timedOut, limit) && log <= log'
    ensures Waited(total, log', start, up, patience, marks, timedOut, limit)
  {
    hide Announces;
    forall k | 0 <= k < |marks| ensures WaitAt(total, log', start, up, patience, marks, timedOut, k) {
      assert WaitAt(total, log, start, up, patience, marks, timedOut, k);
      AnnouncedIn(log, log', Mark(start, marks, k - 1), marks[k]);
    }
  }

  lemma AnnouncedIn(log: seq<Strike>, log': seq<Strike>, from: nat, to: nat)
    requires log <= log' && to <= |log|
    ensures Announced(log, from, to) <==> Announced(log', from, to)
  {
    hide Announces;
    if Announced(log, from, to) {
      var j :| from <= j < to && Announces(log[j]);
      assert Announces(log'[j]);
    }
    if Announced(log', from, to) {
      var j :| from <= j < to && Announces(log'[j]);
      assert Announces(log[j]);
    }
  }

  lemma OneMoreWait(total: nat, log: seq<Strike>, log': seq<Strike>, start: nat, up: bool, patience: seq<nat>,
                    marks: seq<nat>, limit: nat, read: nat, notified: bool)
    requires Waited(total, log, start, up, patience, marks, false, limit) && |marks| < |patience|
    requires AtMark(log, start, marks) && Raised(log, log', marks == [] && up, notified)
    requires |log'| >= |log| + 2 + patience[|marks|] || |log'| == total
    requires ReadUpTo(log', read) && read < limit
    ensures Waited(total, log', start, up, patience, marks + [|log'|], !notified, limit)
    ensures AtMark(log', start, marks + [|log'|])
  {
    hide Announces, Announced;
    WaitedMore(total, log, log', start, up, patience, marks, false, limit);
    var n, marks', timedOut := |marks|, marks + [|log'|], !notified;
    forall k | 0 <= k < n + 1 ensures WaitAt(total, log', start, up, patience, marks', timedOut, k) {
      if k < n {
        assert WaitAt(total, log', start, up, patience, marks, false, k);
      }
    }
  }

  lemma StartsWaiting(total: nat, log: seq<Strike>, up: bool, patience: seq<nat>, limit: nat)
    ensures Waited(total, log, |log|, up, patience, [], false, limit) && AtMark(log, |log|, [])
  {
  }

  /** The call ends behind a read. */
  lemma EndsInRead(total: nat, log: seq<Strike>, log': seq<Strike>, start: nat, up: bool, patience: seq<nat>,
                   marks: seq<nat>, limit: nat, up': bool, consumed: nat)
    requires Waited(total, log, start, up, patience, marks, false, limit) && AtMark(log, start, marks)
    requires Raised(log, log', marks == [] && up, up')
    ensures Waited(total, log', start, up, patience, marks, false, limit) && Since(log', start, marks, up, up')
    ensures |marks| == |patience| && |Stored(log)| <= consumed ==>
            Shorted(log', start, patience, marks, false, consumed)
  {
    hide Announced, Stored;
    WaitedMore(total, log, log', start, up, patience, marks, false, limit);
    assert log'[..|log|] == log;
  }

  /** The call ends when a wait times out. */
  lemma EndsInTime(log: seq<Strike>, log': seq<Strike>, start: nat, up: bool, patience: seq<nat>, marks: seq<nat>,
                   consumed: nat)
    requires AtMark(log, start, marks) && log <= log' && |Stored(log)| <= consumed
    ensures Since(log', start, marks + [|log'|], up, false)
    ensures Shorted(log', start, patience, marks + [|log'|], true, consumed)
  {
    hide Announced, Stored;
    assert log'[..|log|] == log && log'[..|log'|] == log';
    RaisedNot(log', false);
  }

  /** One more wait of a call that began at `start` and read between `was` and `log`. */
  lemma WaitsOnce(total: nat, was: seq<Strike>, log: seq<Strike>, log': seq<Strike>, start: nat, up: bool,
                  patience: seq<nat>, marks: seq<nat>, limit: nat, halfway: bool, notified: bool, consumed: nat)
    requires |marks| < |patience| && consumed < limit && ReadUpTo(log', consumed) && |Stored(was)| <= consumed
    requires Waited(total, was, start, up, patience, marks, false, limit) && AtMark(was, start, marks)
    requires Raised(was, log, marks == [] && up, halfway) && (|log| >= |was| + 2 || |log| == total)
    requires Raised(log, log', halfway, notified) && (|log'| >= |log| + patience[|marks|] || |log'| == total)
    requires |log'| <= total
    ensures Waited(total, log', start, up, patience, marks + [|log'|], !notified, limit)
    ensures AtMark(log', start, marks + [|log'|])
    ensures Since(log', start, marks + [|log'|], up, false)
    ensures !notified ==> Shorted(log', start, patience, marks + [|log'|], true, consumed)
  {
    RaisedPrefix(log, log', halfway, notified);
    hide Raised, Waited, AtMark, Since, Shorted, Stored, ReadUpTo;
    RaisedTwice(was, log, log', marks == [] && up, halfway, notified);
    RaisedPrefix(was, log', marks == [] && up, notified);
    OneMoreWait(total, was, log', start, up, patience, marks, limit, consumed, notified);
    EndsInTime(was, log', start, up, patience, marks, consumed);
  }

  class Uart {
    const buffer: array<byte>
    const length: nat
    var head: nat
    var tail: nat
    var eventRead: bool
    /** The interrupts to come. */
    var line: seq<Interrupt>

    /** All interrupts of the run, and those that have struck. */
    ghost const wire: seq<Interrupt>
    ghost var log: seq<Strike>
    /** Every byte `ringbuffer_write` has taken, how many of them have been read, and whether an interrupt has
        brought more than fitted. */
    ghost var accepted: Bytes
    ghost var consumed: nat
    ghost var overflowed: bool

    ghost predicate Sound()
      reads this, buffer
    {
      buffer.Length == length + 1 && consumed <= |accepted| && Ring(buffer[..], head, tail, accepted[consumed..])
    }

    ghost predicate Valid()
      reads this, buffer
    {
      && Sound() && |log| <= |wire| && Logged(wire, log, overflowed, length)
      && line == wire[|log|..] && accepted == Stored(log) && ReadUpTo(log, consumed)
    }

    ghost function Unread(): Bytes
      requires consumed <= |accepted|
      reads this
    {
      accepted[consumed..]
    }

    /** `ringbuffer_create` on a block of `size` bytes. */
    constructor (size: nat, line: seq<Interrupt>)
      requires size > 0
      ensures Valid() && head == tail == 0 && length == size - 1 && accepted == [] && consumed == 0 && !eventRead
      ensures !overflowed && fresh(buffer)
      ensures this.line == wire == line && log == []
    {
      buffer := new byte[size](_ => 0);
      length, head, tail, eventRead, this.line := size - 1, 0, 0, false, line;
      wire, log, accepted, consumed, overflowed := line, [], [], 0, false;
    }

    /** `ringbuffer_write`: takes what fits. */
    method Write(data: Bytes) returns (n: nat)
      requires Sound()
      modifies buffer, this`tail, this`accepted
      ensures Sound() && n == (if |data| <= length - old(|Unread()|) then |data| else length - old(|Unread()|))
      ensures accepted == old(accepted) + data[..n]
    {
      hide Ring, ReadSpace;
      SpaceIsPending(buffer[..], head, tail, accepted[consumed..]);
      Bounds(buffer[..], head, tail, accepted[consumed..]);
      var space := length - ReadSpace(length, head, tail);
      var count := if space < |data| then space else |data|;
      n := 0;
      while n < count
        invariant n <= count && Sound() && accepted == old(accepted) + data[..n]
      {
        ghost var b, pending := buffer[..], Unread();
        Bounds(b, head, tail, pending);
        Push(b, head, tail, pending, data[n]);
        buffer[tail] := data[n];
        assert buffer[..] == b[tail := data[n]];
        tail := tail + 1;
        if tail >= length + 1 {
          tail := 0;
        }
        accepted := accepted + [data[n]];
        assert accepted[consumed..] == pending + [data[n]];
        assert data[..n + 1] == data[..n] + [data[n]];
        n := n + 1;
      }
    }

    /** What an interrupt can change for the reader: more bytes to read. New bytes are announced, unless some
        did not fit. */
    twostate predicate Interrupted()
      reads this, buffer
    {
      && Valid() && old(accepted) <= accepted && Grew(old(log), log, old(consumed)) && head == old(head)
      && consumed == old(consumed)
      && Raised(old(log), log, old(eventRead), eventRead)
      && (old(eventRead) ==> eventRead) && (old(overflowed) ==> overflowed)
      && (accepted != old(accepted) ==> eventRead || overflowed)
    }

    /** The receive interrupt, if it strikes: the bytes go into the ring, and the reader is notified unless
        some did not fit. */
    method Isr()
      requires Valid()
      modifies this`line, buffer, this`tail, this`accepted, this`log, this`eventRead, this`overflowed
      ensures Interrupted() && |log| == old(|log|) + (if old(line) == [] then 0 else 1)
      ensures old(line) != [] && old(line)[0].Received? ==>
              var data, space := old(line)[0].data, length - old(|Unread()|);
              && accepted == old(accepted) + data[..if |data| <= space then |data| else space]
              && eventRead == (old(eventRead) || |data| <= space) && overflowed == (old(overflowed) || |data| > space)
    {
      hide Ring, Logged, Stored, Arrived, ReadUpTo;
      if line == [] {
        GrewNot(log, consumed);
        RaisedNot(log, eventRead);
        return;
      }
      Bounds(buffer[..], head, tail, accepted[consumed..]);
      var now := line[0];
      line := line[1..];
      var n := 0;
      if now.Received? {
        n := Write(now.data);
        if n == |now.data| {
          eventRead := true;
        } else {
          overflowed := true;
        }
      }
      LoggedOnce(wire, log, old(overflowed), length, consumed, n);
      RaisedOnce(log, Strike(now, consumed, n), old(eventRead));
      log := log + [Strike(now, consumed, n)];
    }

    /** The gap between two statements of the reader: any number of interrupts. */
    method Gap()
      requires Valid()
      modifies this`line, buffer, this`tail, this`accepted, this`log, this`eventRead, this`overflowed
      ensures Interrupted() && (|log| >= old(|log|) + 1 || line == [])
    {
      hide Ring, Logged, Stored, Arrived, ReadUpTo, Raised;
      var again := line != [] && line[0].Received? && line[0].more;
      Isr();
      while again
        invariant Interrupted() && (|log| >= old(|log|) + 1 || line == [])
        decreases |line|, again
      {
        again := line != [] && line[0].Received? && line[0].more;
        ghost var was, up := log, eventRead;
        Isr();
        RaisedTwice(old(log), was, log, old(eventRead), up, eventRead);
      }
    }

    /** `ringbuffer_available_read_space` as the reader calls it. */
    method Available() returns (n: nat)
      requires Valid()
      modifies this`line, buffer, this`tail, this`accepted, this`log, this`eventRead, this`overflowed
      ensures Interrupted() && old(|Unread()|) <= n <= |Unread()| && (|log| >= old(|log|) + 2 || line == [])
      ensures |Unread()| > n ==> eventRead || overflowed
    {
      hide Ring, ReadSpace, Logged, Stored, Arrived, ReadUpTo, Raised;
      var h := head;
      Gap();
      var t := tail;
      SpaceIsPending(buffer[..], head, tail, accepted[consumed..]);
      n := ReadSpace(length, h, t);
      ghost var was, up := log, eventRead;
      Gap();
      RaisedTwice(old(log), was, log, old(eventRead), up, eventRead);
    }

    /** The read of the slot at `head`. */
    method Peek() returns (c: byte)
      requires Valid() && head <= length && Unread() != []
      modifies this`line, buffer, this`tail, this`accepted, this`log, this`eventRead, this`overflowed
      ensures Interrupted() && c == accepted[consumed]
    {
      hide Ring, Logged, Stored, Arrived, ReadUpTo, Raised;
      Gap();
      Pop(buffer[..], head, tail, accepted[consumed..]);
      c := buffer[head];
      ghost var was, up := log, eventRead;
      Gap();
      RaisedTwice(old(log), was, log, old(eventRead), up, eventRead);
    }

    /** What the reader does to the ring while interrupts strike. */
    twostate predicate Advanced(count: nat)
      reads this, buffer
    {
      && Valid() && head <= length && old(accepted) <= accepted && Grew(old(log), log, old(consumed))
      && consumed == old(consumed) + count
      && Raised(old(log), log, old(eventRead), eventRead)
      && (old(eventRead) ==> eventRead) && (old(overflowed) ==> overflowed)
      && (accepted != old(accepted) ==> eventRead || overflowed)
    }

    /** The increment of `head` and its wrap-around. */
    method Advance()
      requires Valid() && head <= length && Unread() != []
      modifies this`head, this`consumed, this`line, buffer, this`tail, this`accepted, this`log, this`eventRead,
               this`overflowed
      ensures Advanced(1)
    {
      hide Ring, Logged, Stored, Arrived, ReadUpTo, Raised;
      Pop(buffer[..], head, tail, accepted[consumed..]);
      assert accepted[consumed..][1..] == accepted[consumed + 1..];
      ReadMore(log, consumed, consumed + 1);
      head, consumed := head + 1, consumed + 1;
      Gap();
      Bounds(buffer[..], head, tail, accepted[consumed..]);
      if head >= length + 1 {
        head := 0;
      }
      ghost var was, up := log, eventRead;
      Gap();
      RaisedTwice(old(log), was, log, old(eventRead), up, eventRead);
    }

    /** One turn of the copy loop of `ringbuffer_read`. */
    method Take() returns (c: byte)
      requires Valid() && head <= length && Unread() != []
      modifies this`head, this`consumed, this`line, buffer, this`tail, this`accepted, this`log, this`eventRead,
               this`overflowed
      ensures Advanced(1) && c == accepted[old(consumed)]
    {
      hide Ring, Logged, Stored, Arrived, ReadUpTo, Raised;
      c := Peek();
      ghost var was, up := log, eventRead;
      Advance();
      RaisedTwice(old(log), was, log, old(eventRead), up, eventRead);
    }

    /** The copy loop of `ringbuffer_read`. */
    method Copy(target: array<byte>, at: nat, count: nat)
      requires Valid() && head <= length && target != buffer && at + count <= target.Length && count <= |Unread()|
      modifies this`head, this`consumed, this`line, buffer, this`tail, this`accepted, this`log, this`eventRead,
               this`overflowed, target
      ensures Advanced(count) && target[..] == Overlay(old(target[..]), at, accepted[old(consumed)..consumed])
    {
      hide Ring, Logged, Stored, Arrived, ReadUpTo, Raised;
      var i: nat := 0;
      RaisedNot(log, eventRead);
      while i < count
        invariant i <= count && Advanced(i)
        invariant forall k :: at <= k < at + i ==> target[k] == accepted[old(consumed) + (k - at)]
        invariant forall k :: 0 <= k < target.Length && !(at <= k < at + i) ==> target[k] == old(target[k])
      {
        ghost var was, up := log, eventRead;
        var c := Take();
        RaisedTwice(old(log), was, log, old(eventRead), up, eventRead);
        target[at + i] := c;
        i := i + 1;
      }
      assert target[..] == Overlay(old(target[..]), at, accepted[old(consumed)..consumed]);
    }

    /** `ringbuffer_read` into `target` from `at` on. */
    method Read(target: array<byte>, at: nat, amount: nat) returns (n: int)
      requires Valid() && head <= length && target != buffer && at + amount <= target.Length
      modifies this`head, this`consumed, this`line, buffer, this`tail, this`accepted, this`log, this`eventRead,
               this`overflowed, target
      ensures Valid() && head <= length && old(accepted) <= accepted && Grew(old(log), log, old(consumed))
      ensures amount > 0 ==> |log| >= old(|log|) + 2 || line == []
      ensures amount == 0 ==>
              && n == -1 && consumed == old(consumed) && accepted == old(accepted)
              && eventRead == old(eventRead) && target[..] == old(target[..])
      ensures amount > 0 ==>
              && 0 <= n <= amount && (n < amount ==> n >= old(|Unread()|)) && consumed == old(consumed) + n
              && target[..] == Overlay(old(target[..]), at, accepted[old(consumed)..consumed])
              && (n < amount && Unread() != [] ==> eventRead || overflowed)
      ensures (old(eventRead) ==> eventRead) && (old(overflowed) ==> overflowed)
      ensures Raised(old(log), log, old(eventRead), eventRead)
    {
      hide Ring, Logged, Stored, Arrived, ReadUpTo, Raised;
      if amount == 0 {
        RaisedNot(log, eventRead);
        return -1;
      }
      var size := Available();
      if size == 0 {
        assert target[..] == Overlay(old(target[..]), at, []);
        return 0;
      }
      ghost var was, up := log, eventRead;
      size := Available();
      RaisedTwice(old(log), was, log, old(eventRead), up, eventRead);
      var count := if amount < size then amount else size;
      was, up := log, eventRead;
      Copy(target, at, count);
      RaisedTwice(old(log), was, log, old(eventRead), up, eventRead);
      n := count;
    }

    /** The wait for the read event, with some interrupts while it lasts: the event is taken, or the time is
        up. The time is up only on an empty ring, unless the ring has overflowed. */
    method Wait(strikes: nat) returns (notified: bool)
      requires Valid() && head <= length
      modifies this`line, buffer, this`tail, this`accepted, this`log, this`eventRead, this`overflowed
      ensures Valid() && head <= length && old(accepted) <= accepted && Grew(old(log), log, old(consumed))
      ensures old(overflowed) ==> overflowed
      ensures (old(eventRead) ==> notified) && !eventRead
      ensures Raised(old(log), log, old(eventRead), notified)
      ensures consumed == old(consumed) && (|log| >= old(|log|) + strikes || line == [])
      ensures old(Unread() == [] || eventRead) && !notified ==> Unread() == [] || overflowed
    {
      hide Ring, Logged, Stored, Arrived, ReadUpTo, Raised;
      var i := 0;
      RaisedNot(log, eventRead);
      GrewNot(log, consumed);
      while i < strikes
        invariant i <= strikes && (|log| >= old(|log|) + i || line == [])
        invariant Raised(old(log), log, old(eventRead), eventRead)
        invariant Valid() && head == old(head) && consumed == old(consumed) && old(accepted) <= accepted
        invariant Grew(old(log), log, old(consumed))
        invariant (old(overflowed) ==> overflowed) && (old(eventRead) ==> eventRead)
        invariant accepted != old(accepted) ==> eventRead || overflowed
      {
        ghost var was, up := log, eventRead;
        Isr();
        RaisedTwice(old(log), was, log, old(eventRead), up, eventRead);
        i := i + 1;
      }
      notified := eventRead;
      eventRead := false;
    }

    /** One more read of a call that has `n` bytes of `size`. */
    method ReadOn(data: array<byte>, at: nat, n: nat, size: nat, ghost orig: Bytes, ghost first: nat)
      returns (more: nat)
      requires Valid() && head <= length && data != buffer && n < size && at + size <= data.Length
      requires Got(data[..], orig, at, n, accepted, first) && consumed == first + n
      modifies this`head, this`consumed, this`line, buffer, this`tail, this`accepted, this`log, this`eventRead,
               this`overflowed, data
      ensures Valid() && head <= length && old(accepted) <= accepted && Grew(old(log), log, old(consumed))
      ensures old(overflowed) ==> overflowed
      ensures n + more <= size && consumed == old(consumed) + more
      ensures n + more < size ==> consumed >= |old(accepted)| && (Unread() == [] || eventRead || overflowed)
      ensures Got(data[..], orig, at, n + more, accepted, first)
      ensures Raised(old(log), log, old(eventRead), eventRead) && (|log| >= old(|log|) + 2 || line == [])
    {
      hide Ring, Got, Logged, Stored, Arrived, ReadUpTo, Raised;
      more := Read(data, at + n, size - n);
      GotMore(old(data[..]), orig, at, n, old(accepted), first, accepted, more, data[..]);
    }

    /** `uart_csky_recv` of at least one byte to `at`; `patience` holds, for each time it may still wait, how
        many interrupts that wait sees. It waits while it is short, the time is not up and it is notified. It hands
        out what was stored when it last read, and what it leaves behind when it returns early is announced. */
    method RecvSome(data: array<byte>, at: nat, size: nat, patience: seq<nat>)
      returns (n: nat, ghost marks: seq<nat>, ghost timedOut: bool)
      requires Valid() && head <= length && data != buffer && 0 < size && at + size <= data.Length
      modifies this`head, this`consumed, this`line, buffer, this`tail, this`accepted, this`log, this`eventRead,
               this`overflowed, data
      ensures Valid() && head <= length && old(accepted) <= accepted && Grew(old(log), log, old(consumed))
      ensures old(overflowed) ==> overflowed
      ensures |log| >= old(|log|) + 2 || line == []
      ensures n <= size && (n < size ==> n >= old(|Unread()|)) && consumed == old(consumed) + n
      ensures n < size ==> Unread() == [] || eventRead || overflowed
      ensures n < size && timedOut ==> Unread() == [] || overflowed
      ensures Got(data[..], old(data[..]), at, n, accepted, old(consumed))
      ensures Waited(|wire|, log, old(|log|), old(eventRead), patience, marks, timedOut, old(consumed) + size)
      ensures n < size ==> Shorted(log, old(|log|), patience, marks, timedOut, consumed)
      ensures Since(log, old(|log|), marks, old(eventRead), eventRead)
    {
      hide Ring, Got, Grew, Logged, Stored, Arrived, ReadUpTo, Raised, Waited, AtMark, Since, Shorted;
      StartsWaiting(|wire|, log, eventRead, patience, consumed + size);
      GrewNot(log, consumed);
      GotNothing(data[..], at, accepted, consumed);
      ghost var start, up, first, orig := |log|, eventRead, consumed, data[..];
      var k := 0;
      n, marks, timedOut := 0, [], false;
      while true
        invariant Valid() && head <= length && old(accepted) <= accepted && Grew(old(log), log, first)
        invariant old(overflowed) ==> overflowed
        invariant |log| >= start && n < size && |marks| == k <= |patience| && consumed == first + n && !timedOut
        invariant marks != [] ==> consumed >= |old(accepted)| && (|log| >= start + 2 || line == [])
        invariant Got(data[..], orig, at, n, accepted, first)
        invariant AtMark(log, start, marks) && eventRead == (marks == [] && up)
        invariant Waited(|wire|, log, start, up, patience, marks, false, first + size)
        decreases |patience| - k
      {
        ghost var was, before := log, consumed;
        var more := ReadOn(data, at, n, size, orig, first);
        GrewTwice(old(log), was, log, first, before);
        n := n + more;
        if k == |patience| || n == size {
          EndsInRead(|wire|, was, log, start, up, patience, marks, first + size, eventRead, consumed);
          break;
        }
        ghost var acc, halfway, raised := accepted, log, eventRead;
        ghost var out := data[..];
        var notified := Wait(patience[k]);
        GrewTwice(old(log), halfway, log, first, consumed);
        WaitsOnce(|wire|, was, halfway, log, start, up, patience, marks, first + size, raised, notified, consumed);
        GotStays(out, orig, at, n, acc, first, accepted);
        assert data[..] == out;
        k, marks, timedOut := k + 1, marks + [|log|], !notified;
        if !notified {
          break;
        }
      }
    }

    /** `uart_csky_recv`. Called with size 0 it takes the -1 of the first read for a count: the pointer moves
        one back, and if it is notified it stores one byte in front of the target. */
    method Recv(data: array<byte>, at: nat, size: nat, patience: seq<nat>)
      returns (n: int, ghost marks: seq<nat>, ghost timedOut: bool)
      requires Valid() && head <= length && data != buffer && at + size <= data.Length && (size == 0 ==> at > 0)
      modifies this`head, this`consumed, this`line, buffer, this`tail, this`accepted, this`log, this`eventRead,
               this`overflowed, data
      ensures Valid() && head <= length && old(accepted) <= accepted && Grew(old(log), log, old(consumed))
      ensures old(overflowed) ==> overflowed
      ensures size > 0 ==>
              && 0 <= n <= size && (|log| >= old(|log|) + 2 || line == []) && consumed == old(consumed) + n
              && (n < size ==> n >= old(|Unread()|) && (Unread() == [] || eventRead || overflowed))
              && (n < size && timedOut ==> Unread() == [] || overflowed)
              && Got(data[..], old(data[..]), at, n, accepted, old(consumed))
              && Waited(|wire|, log, old(|log|), old(eventRead), patience, marks, timedOut, old(consumed) + size)
              && (n < size ==> Shorted(log, old(|log|), patience, marks, timedOut, consumed))
              && Since(log, old(|log|), marks, old(eventRead), eventRead)
      ensures size == 0 ==>
              && n in {-1, 0} && consumed == old(consumed) + (n + 1)
              && (n == 0 ==> patience != []) && Got(data[..], old(data[..]), at - 1, n + 1, accepted, old(consumed))
      ensures size == 0 && patience != [] && old(eventRead && Unread() != []) ==> n == 0
    {
      hide Ring, Got, Logged, Stored, Arrived, ReadUpTo, Waited, Shorted, Since, Raised;
      if size > 0 {
        n, marks, timedOut := RecvSome(data, at, size, patience);
        return;
      }
      marks, timedOut := [], false;
      n := Read(data, at, 0);
      GotNothing(data[..], at - 1, accepted, consumed);
      if patience == [] {
        return;
      }
      var notified := Wait(patience[0]);
      GotNothing(data[..], at - 1, accepted, consumed);
      if notified {
        var one: int, _, _ := RecvSome(data, at - 1, 1, patience[1..]);
        n := one - 1;
      }
    }
  }

  lemma GotNothing(data: Bytes, at: nat, acc: Bytes, start: nat)
    requires start <= |acc| && at <= |data|
    ensures Got(data, data, at, 0, acc, start)
  {
  }

  /** The bytes handed out by some calls, end to end. */
  function Joined(parts: seq<Bytes>): Bytes {
    if parts == [] then [] else Joined(parts[..|parts| - 1]) + parts[|parts| - 1]
  }

  /** A receive call: how many interrupts had struck when it began and when it returned, whether the read event was
      set then, where its waits ended and whether the last one timed out. */
  datatype Call = Call(start: nat, end: nat, up: bool, up': bool, marks: seq<nat>, timedOut: bool)

  /** Call `c` of some `size`, made when `before` bytes had been handed out, handed out `part`. `log` is the log at its
      end. If it was short it had waited as often as it may, or until a wait timed out; it handed out all that was
      stored when its last read began; and if it timed out nothing is left, unless bytes have been lost. */
  ghost predicate Served(line: seq<Interrupt>, log: seq<Strike>, size: nat, patience: seq<nat>, before: nat,
                         part: Bytes, c: Call) {
    && c.start <= c.end == |log| <= |line| && |part| <= (if size == 0 then 1 else size)
    && (forall j :: c.start <= j < c.end ==> before <= log[j].read <= before + |part|)
    && (size > 0 ==>
          && (c.end >= c.start + 2 || c.end == |line|)
          && Waited(|line|, log, c.start, c.up, patience, c.marks, c.timedOut, before + size)
          && Since(log, c.start, c.marks, c.up, c.up')
          && (|part| < size ==>
                && |Stored(log[..c.start])| <= before + |part|
                && Shorted(log, c.start, patience, c.marks, c.timedOut, before + |part|)
                && (c.timedOut ==> |Stored(log)| == before + |part| || |Stored(log)| < |Arrived(line[..|log|])|)))
  }

  /** The calls of a run, one after the other. */
  ghost predicate AllServed(line: seq<Interrupt>, log: seq<Strike>, sizes: seq<nat>, patience: seq<seq<nat>>,
                            parts: seq<Bytes>, calls: seq<Call>, up: bool) {
    && |calls| == |parts| <= |sizes| == |patience|
    && (if calls == [] then log == [] && !up else calls[|calls| - 1].end == |log| && calls[|calls| - 1].up' == up)
    && (forall i :: 0 <= i < |calls| ==> ServedAt(line, log, sizes, patience, parts, calls, i))
  }

  /** Call `i` begins where the one before it ended. */
  ghost predicate ServedAt(line: seq<Interrupt>, log: seq<Strike>, sizes: seq<nat>, patience: seq<seq<nat>>,
                           parts: seq<Bytes>, calls: seq<Call>, i: nat)
    requires i < |calls| == |parts| <= |sizes| == |patience|
  {
    && calls[i].start == (if i == 0 then 0 else calls[i - 1].end) && calls[i].up == (i > 0 && calls[i - 1].up')
    && calls[i].end <= |log|
    && Served(line, log[..calls[i].end], sizes[i], patience[i], |Joined(parts[..i])|, parts[i], calls[i])
  }

  lemma JoinedNothing()
    ensures Joined([]) == []
  {
  }

  lemma JoinedMore(parts: seq<Bytes>, part: Bytes)
    ensures Joined(parts + [part]) == Joined(parts) + part
  {
    assert (parts + [part])[..|parts|] == parts;
  }

  lemma OneMoreServed(line: seq<Interrupt>, log: seq<Strike>, sizes: seq<nat>, patience: seq<seq<nat>>,
                      parts: seq<Bytes>, calls: seq<Call>, up: bool, log': seq<Strike>, part: Bytes, c: Call)
    requires AllServed(line, log, sizes, patience, parts, calls, up) && |parts| < |sizes| && log <= log'
    requires Served(line, log', sizes[|parts|], patience[|parts|], |Joined(parts)|, part, c)
    requires c.start == |log| && c.up == up
    ensures AllServed(line, log', sizes, patience, parts + [part], calls + [c], c.up')
    ensures Joined(parts + [part]) == Joined(parts) + part
  {
    hide Served, Joined;
    JoinedMore(parts, part);
    var n, parts', calls' := |parts|, parts + [part], calls + [c];
    assert parts'[..n] == parts && log'[..|log'|] == log';
    ServedEnds(line, log', sizes[n], patience[n], |Joined(parts)|, part, c);
    forall i | 0 <= i < n + 1 ensures ServedAt(line, log', sizes, patience, parts', calls', i) {
      if i < n {
        assert ServedAt(line, log, sizes, patience, parts, calls, i);
        assert parts'[..i] == parts[..i] && log'[..calls[i].end] == log[..calls[i].end];
      }
    }
  }

  lemma ServedEnds(line: seq<Interrupt>, log: seq<Strike>, size: nat, patience: seq<nat>, before: nat, part: Bytes,
                   c: Call)
    requires Served(line, log, size, patience, before, part, c)
    ensures c.end == |log|
  {
  }

  /** One call of `Recv`, and the bytes it took from the ring. */
  method Serve(uart: Uart, size: nat, patience: seq<nat>) returns (part: Bytes, ghost c: Call)
    requires uart.Valid() && uart.head <= uart.length
    modifies uart, uart.buffer
    ensures uart.Valid() && uart.head <= uart.length && old(uart.log) <= uart.log
    ensures uart.consumed == old(uart.consumed) + |part| && part == uart.accepted[old(uart.consumed)..uart.consumed]
    ensures old(uart.accepted) <= uart.accepted
    ensures Served(uart.wire, uart.log, size, patience, old(uart.consumed), part, c)
    ensures c.start == old(|uart.log|) && c.up == old(uart.eventRead) && c.up' == uart.eventRead
  {
    hide Ring, Logged, Stored, Arrived, Waited, Shorted, Since;
    var data := new byte[1 + size];
    var n;
    ghost var marks, timedOut;
    n, marks, timedOut := uart.Recv(data, 1, size, patience);
    part := if size > 0 then data[1..1 + n] else data[0..n + 1];
    c := Call(old(|uart.log|), |uart.log|, old(uart.eventRead), uart.eventRead, marks, timedOut);
    LostBytes(uart.wire, uart.log, uart.overflowed, uart.length);
    assert uart.log[..c.start] == old(uart.log);
  }

  lemma LostBytes(wire: seq<Interrupt>, log: seq<Strike>, overflowed: bool, length: nat)
    requires Logged(wire, log, overflowed, length)
    ensures |log| <= |wire| && (overflowed <==> |Stored(log)| < |Arrived(wire[..|log|])|)
  {
  }

  /** Any number of receive calls, with the interrupts of `line` striking anywhere between their statements and
      during their waits. The bytes handed out and then those left in the ring are the bytes the interrupts stored,
      in order, none lost, repeated or overwritten; each call waits as it should and hands out what was there. Unless
      the ring has overflowed these are all the bytes that arrived, and it never overflows if it is large enough for
      all of them. */
  method Run(size: nat, line: seq<Interrupt>, sizes: seq<nat>, patience: seq<seq<nat>>)
    returns (parts: seq<Bytes>, uart: Uart, ghost calls: seq<Call>)
    requires size > 0 && |sizes| == |patience|
    ensures |parts| == |sizes| && AllServed(line, uart.log, sizes, patience, parts, calls, uart.eventRead)
    ensures uart.Valid() && uart.wire == line && uart.length == size - 1
    ensures Joined(parts) + uart.Unread() == Stored(uart.log)
    ensures forall j :: 0 <= j < |uart.log| ==> Struck(line, uart.log, uart.length, j)
    ensures !uart.overflowed ==> Joined(parts) + uart.Unread() == Arrived(line[..|uart.log|])
    ensures |Arrived(line)| < size ==> !uart.overflowed
  {
    hide Ring, Stored, Arrived, Served, ServedAt, Struck, ReadUpTo, Joined;
    uart := new Uart(size, line);
    parts, calls := [], [];
    JoinedNothing();
    for k := 0 to |sizes|
      invariant uart.Valid() && uart.head <= uart.length && fresh(uart) && fresh(uart.buffer) && uart.wire == line
      invariant uart.length == size - 1
      invariant |parts| == k && AllServed(line, uart.log, sizes, patience, parts, calls, uart.eventRead)
      invariant Joined(parts) == uart.accepted[..uart.consumed]
    {
      ghost var log, was, up := uart.log, uart.consumed, uart.eventRead;
      var part;
      ghost var c;
      part, c := Serve(uart, sizes[k], patience[k]);
      OneMoreServed(line, log, sizes, patience, parts, calls, up, uart.log, part, c);
      parts, calls := parts + [part], calls + [c];
      assert uart.accepted[..was] + part == uart.accepted[..uart.consumed];
    }
    ArrivesMore(line, |uart.log|);
  }

  /** An interrupt that overflows the ring announces nothing, not even the bytes it stored. */
  method OverflowIsSilent() returns (uart: Uart)
    ensures uart.Valid() && uart.Unread() == [1, 2] && !uart.eventRead && uart.overflowed
  {
    var line := [Received([1, 2, 3], false)];
    uart := new Uart(3, line);
    assert line[0].data[..2] == [1, 2];
    uart.Isr();
  }
}
