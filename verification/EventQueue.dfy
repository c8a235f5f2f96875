/** The event queue of the event loop: a ring of pending events and a small ring of nodes to use again. */
module EventQueue {
  import opened Bytes
  import opened DList

  const MAX_CACHE: nat := 4

  type Event = Node<Bytes>

  ghost predicate Covers(nodes: set<Event>, inner: seq<Event>) {
    && (forall i :: 0 <= i < |inner| ==> inner[i] in nodes)
    && (forall n :: n in nodes ==> n in inner)
  }

  lemma CoversMore(nodes: set<Event>, inner: seq<Event>, evt: Event)
    requires Covers(nodes, inner) && evt !in nodes
    ensures evt !in inner && Covers(nodes + {evt}, [evt] + inner) && Covers(nodes + {evt}, inner + [evt])
    ensures forall n :: n in inner ==> n in nodes
  {
    forall n | n in nodes + {evt} ensures n in [evt] + inner {
      if n != evt {
        var i :| 0 <= i < |inner| && inner[i] == n;
        assert ([evt] + inner)[i + 1] == n;
      }
    }
  }

  lemma CoversLess(nodes: set<Event>, inner: seq<Event>)
    requires Covers(nodes, inner) && inner != [] && inner[0] !in inner[1..]
    ensures inner[0] in nodes && Covers(nodes - {inner[0]}, inner[1..])
  {
    forall i | 0 <= i < |inner| - 1 ensures inner[1..][i] in nodes - {inner[0]} {
      assert inner[1..][i] == inner[i + 1];
      assert inner[1..][i] in inner[1..];
    }
    forall n | n in nodes - {inner[0]} ensures n in inner[1..] {
      var i :| 0 <= i < |inner| && inner[i] == n;
      assert inner[1..][i - 1] == n;
    }
  }

  /** The payloads on the way around the ring. */
  ghost function Datas(inner: seq<Event>): (s: seq<Bytes>)
    reads inner
    ensures |s| == |inner| && forall i :: 0 <= i < |s| ==> s[i] == inner[i].data
  {
    seq(|inner|, i requires 0 <= i < |inner| reads inner => inner[i].data)
  }

  /** Every payload fills the buffer that was allocated for it. */
  ghost predicate Fitting(made: set<Event>)
    reads made`data
  {
    forall e :: e in made ==> |e.data| == e.mark
  }

  /** Every event node ever allocated is in exactly one place: pending, kept for reuse, freed, or in hand. */
  ghost predicate Partitioned(made: set<Event>, pending: set<Event>, cached: set<Event>, freed: set<Event>,
                              loose: set<Event>) {
    made == pending + cached + freed + loose && pending !! cached !! freed !! loose
  }

  lemma PartsOf(made: set<Event>, pending: set<Event>, cached: set<Event>, freed: set<Event>, loose: set<Event>)
    requires Partitioned(made, pending, cached, freed, loose)
    ensures pending <= made && cached <= made && loose <= made && pending !! cached && pending !! loose
    ensures cached !! loose
  {
  }

  lemma PickUp(made: set<Event>, pending: set<Event>, cached: set<Event>, freed: set<Event>, e: Event)
    requires Partitioned(made, pending, cached, freed, {})
    ensures e in pending ==> Partitioned(made, pending - {e}, cached, freed, {e})
    ensures e in cached ==> Partitioned(made, pending, cached - {e}, freed, {e})
    ensures e !in made ==> Partitioned(made + {e}, pending, cached, freed, {e})
  {
  }

  lemma NotFreed(made: set<Event>, pending: set<Event>, cached: set<Event>, freed: set<Event>, e: Event)
    requires Partitioned(made, pending, cached, freed, {e})
    ensures e !in freed
  {
  }

  lemma PutDown(made: set<Event>, pending: set<Event>, cached: set<Event>, freed: set<Event>, e: Event)
    requires Partitioned(made, pending, cached, freed, {e})
    ensures Partitioned(made, pending + {e}, cached, freed, {}) && Partitioned(made, pending, cached + {e}, freed, {})
    ensures Partitioned(made, pending, cached, freed + {e}, {})
  {
  }

  /** What the two sides of the queue do. */
  datatype Step = Writing(buf: Bytes, granted: bool) | Reading(len: nat)

  /** What a step returns: the length taken or -1, or the bytes read. */
  datatype Reply = Wrote(len: int) | Got(buf: Bytes)

  /** The payloads accepted so far, the lengths the successful reads asked for, and the sizes of the nodes kept
      for reuse. */
  datatype Log = Log(written: seq<Bytes>, asked: seq<nat>, spare: seq<nat>)

  const EmptyLog: Log := Log([], [], [])

  /** What a read of `len` bytes returns of a payload. */
  function Cut(payload: Bytes, len: nat): (r: Bytes)
    ensures r == payload[..if len < |payload| then len else |payload|]
  {
    if len < |payload| then payload[..len] else payload
  }

  /** The node in front of the cache has the right size. */
  predicate Hit(log: Log, buf: Bytes) {
    log.spare != [] && log.spare[0] == |buf|
  }

  lemma HitIs(log: Log, buf: Bytes)
    ensures Hit(log, buf) <==> log.spare != [] && log.spare[0] == |buf|
  {
  }

  predicate Found(log: Log) {
    |log.asked| < |log.written|
  }

  function Stepped(log: Log, step: Step): Log {
    match step
    case Writing(buf, granted) =>
      if Hit(log, buf) then log.(written := log.written + [buf], spare := log.spare[1..])
      else if granted then log.(written := log.written + [buf]) else log
    case Reading(len) =>
      if !Found(log) then log
      else log.(asked := log.asked + [len],
                spare := if |log.spare| < MAX_CACHE then [|log.written[|log.asked|]|] + log.spare else log.spare)
  }

  function Answer(log: Log, step: Step): Reply {
    match step
    case Writing(buf, granted) => Wrote(if Hit(log, buf) || granted then |buf| else -1)
    case Reading(len) => Got(if Found(log) then Cut(log.written[|log.asked|], len) else [])
  }

  /** What is pending. */
  function Pending(log: Log): seq<Bytes>
    requires |log.asked| <= |log.written|
  {
    log.written[|log.asked|..]
  }

  lemma WriteAppends(log: Log, buf: Bytes, granted: bool)
    requires |log.asked| <= |log.written| && |log.spare| <= MAX_CACHE
    ensures var log' := Stepped(log, Writing(buf, granted));
            && |log'.asked| <= |log'.written| && |log'.spare| <= MAX_CACHE
            && Pending(log') == Pending(log) + (if Hit(log, buf) || granted then [buf] else [])
            && log'.spare == if Hit(log, buf) then log.spare[1..] else log.spare
  {
  }

  lemma Refused(log: Log, buf: Bytes)
    requires !Hit(log, buf)
    ensures Stepped(log, Writing(buf, false)) == log
  {
  }

  lemma NothingFound(log: Log, len: nat)
    requires |log.asked| <= |log.written| && Pending(log) == []
    ensures !Found(log) && Stepped(log, Reading(len)) == log && Answer(log, Reading(len)) == Got([])
  {
  }

  lemma ReadTakesFirst(log: Log, len: nat)
    requires |log.asked| <= |log.written| && |log.spare| <= MAX_CACHE && Pending(log) != []
    ensures var log', d := Stepped(log, Reading(len)), Pending(log)[0];
            && Found(log) && |log'.asked| <= |log'.written| && |log'.spare| <= MAX_CACHE
            && Pending(log') == Pending(log)[1..]
            && log'.spare == (if |log.spare| < MAX_CACHE then [|d|] + log.spare else log.spare)
            && Answer(log, Reading(len)) == Got(Cut(d, len))
  {
  }

  function After(steps: seq<Step>): Log {
    if steps == [] then EmptyLog else Stepped(After(steps[..|steps| - 1]), steps[|steps| - 1])
  }

  /** No step takes back what was accepted or read, and no more is read than was accepted. */
  lemma {:induction false} LogGrows(steps: seq<Step>, k: nat)
    requires k <= |steps|
    ensures After(steps[..k]).written <= After(steps).written && After(steps[..k]).asked <= After(steps).asked
    ensures |After(steps).asked| <= |After(steps).written| && |After(steps).spare| <= MAX_CACHE
    decreases |steps|
  {
    if k == |steps| {
      assert steps[..k] == steps;
    }
    if steps != [] {
      var s := steps[..|steps| - 1];
      LogGrows(s, if k < |steps| then k else 0);
      assert k < |steps| ==> s[..k] == steps[..k];
    }
  }

  /** First in, first out: the read that comes after `j` successful reads returns what is `j`-th among all
      payloads accepted in the whole run. */
  lemma FirstInFirstOut(steps: seq<Step>, k: nat)
    requires k < |steps| && steps[k].Reading? && Found(After(steps[..k]))
    ensures var j := |After(steps[..k]).asked|;
            && j < |After(steps).asked| <= |After(steps).written| && After(steps).asked[j] == steps[k].len
            && var p, len := After(steps).written[j], steps[k].len;
               Answer(After(steps[..k]), steps[k]) == Got(p[..if len < |p| then len else |p|])
  {
    LogGrows(steps, k);
    LogGrows(steps, k + 1);
    assert steps[..k + 1][..k] == steps[..k];
  }

  /** The node last read is the first to be used again: a write of the same size needs no memory then. */
  lemma LastReadIsReused(log: Log, len: nat, buf: Bytes)
    requires |log.asked| <= |log.written| && Pending(log) != [] && |log.spare| < 4 && |buf| == |Pending(log)[0]|
    ensures Answer(Stepped(log, Reading(len)), Writing(buf, false)) == Wrote(|buf|)
    ensures Pending(Stepped(Stepped(log, Reading(len)), Writing(buf, false))) == Pending(log)[1..] + [buf]
  {
  }

  /** All payloads of the writes, in order. */
  function Payloads(steps: seq<Step>): seq<Bytes> {
    if steps == [] then []
    else Payloads(steps[..|steps| - 1]) + if steps[|steps| - 1].Writing? then [steps[|steps| - 1].buf] else []
  }

  /** While the allocator delivers, every payload is accepted. */
  lemma {:induction false} GrantedIsAccepted(steps: seq<Step>)
    requires forall i :: 0 <= i < |steps| && steps[i].Writing? ==> steps[i].granted
    ensures After(steps).written == Payloads(steps)
    decreases |steps|
  {
    if steps != [] {
      GrantedIsAccepted(steps[..|steps| - 1]);
    }
  }

  lemma DatasFirst(evt: Event, inner: seq<Event>)
    ensures Datas([evt] + inner) == [evt.data] + Datas(inner)
  {
  }

  lemma IsCircle(head: Event, inner: seq<Event>)
    requires Ring(Around(head, inner))
    ensures Circle(Around(head, inner))
  {
  }

  /** A ring of events with its length; the device keeps two of them. */
  class Chain {
    const head: Event
    var count: nat
    ghost var inner: seq<Event>
    ghost var nodes: set<Event>

    ghost predicate Valid()
      reads this, head, nodes
    {
      Covers(nodes, inner) && head !in nodes && Ring(Around(head, inner)) && count == |inner|
    }

    ghost function Contents(): seq<Bytes>
      requires Valid()
      reads this, head, nodes
    {
      Datas(inner)
    }

    constructor ()
      ensures Valid() && Contents() == [] && nodes == {} && fresh(head)
    {
      head := new Node([], 0);
      count, inner, nodes := 0, [], {};
      new;
      Init(head);
      assert Around(head, []) == [head, head];
    }

    /** `dlist_add` and one more. */
    method PutFirst(evt: Event)
      requires Valid() && evt !in nodes && evt != head
      modifies this, head`prev, head`next, nodes`prev, nodes`next, evt`prev, evt`next
      ensures Valid() && nodes == old(nodes) + {evt} && count == old(count) + 1
      ensures Contents() == [old(evt.data)] + old(Contents())
    {
      hide Covers, Ring, Around, Datas;
      CoversMore(nodes, inner, evt);
      AddFirst(evt, head, inner);
      DatasFirst(evt, inner);
      inner, nodes, count := [evt] + inner, nodes + {evt}, count + 1;
    }

    /** `dlist_add_tail` and one more. */
    method PutLast(evt: Event)
      requires Valid() && evt !in nodes && evt != head
      modifies this, head`prev, head`next, nodes`prev, nodes`next, evt`prev, evt`next
      ensures Valid() && nodes == old(nodes) + {evt} && count == old(count) + 1
      ensures Contents() == old(Contents()) + [old(evt.data)]
    {
      hide Covers, Ring, Around, Datas;
      CoversMore(nodes, inner, evt);
      AddLast(evt, head, inner);
      inner, nodes, count := inner + [evt], nodes + {evt}, count + 1;
    }

    /** `dlist_del` of the first and one less. */
    method TakeFirst() returns (evt: Event)
      requires Valid() && count > 0
      modifies this, head`prev, head`next, nodes`prev, nodes`next
      ensures Valid() && evt in old(nodes) && nodes == old(nodes) - {evt} && count == old(count) - 1
      ensures Contents() == old(Contents())[1..] && evt.data == old(Contents())[0]
    {
      hide Covers, Ring, Around;
      IsCircle(head, inner);
      HeadIsNotInner(head, inner);
      CoversLess(nodes, inner);
      evt := DelFirst(head, inner);
      inner, nodes, count := inner[1..], nodes - {evt}, count - 1;
    }

    lemma EmptyHasNoNodes()
      requires Valid() && count == 0
      ensures nodes == {}
    {
    }

    /** The length of the first event. */
    method FirstLength() returns (n: nat)
      requires Valid() && count > 0
      ensures n == |Contents()[0]|
    {
      assert Linked(Around(head, inner), 0);
      n := |head.next.data|;
    }
  }

  /** The sizes of some nodes. */
  ghost function Sizes(s: seq<Bytes>): (r: seq<nat>)
    ensures |r| == |s| && forall i :: 0 <= i < |s| ==> r[i] == |s[i]|
  {
    seq(|s|, i requires 0 <= i < |s| => |s[i]|)
  }

  lemma SizesOf(s: seq<Bytes>, d: Bytes)
    ensures Sizes([d] + s) == [|d|] + Sizes(s) && (s != [] ==> Sizes(s[1..]) == Sizes(s)[1..])
  {
  }

  class Queue {
    const bufs: Chain
    const cache: Chain

    /** All event nodes allocated so far, and those freed again. */
    ghost var made: set<Event>
    ghost var freed: set<Event>
    ghost var log: Log

    /** Both rings are sound and no node is in two places. */
    ghost predicate Sound()
      reads this, bufs, cache, bufs.head, cache.head, made
    {
      && bufs != cache && bufs.head != cache.head && bufs.head !in made && cache.head !in made
      && Partitioned(made, bufs.nodes, cache.nodes, freed, {})
      && (PartsOf(made, bufs.nodes, cache.nodes, freed, {}); true)
      && bufs.Valid() && cache.Valid() && Fitting(made)
    }

    ghost predicate Valid()
      reads this, bufs, cache, bufs.head, cache.head, made
    {
      && Sound() && |log.asked| <= |log.written| && |log.spare| <= MAX_CACHE
      && bufs.Contents() == Pending(log) && Sizes(cache.Contents()) == log.spare
    }

    /** `eventloop_local_event_init` */
    constructor ()
      ensures Valid() && log == EmptyLog && made == {} && fresh(bufs) && fresh(bufs.head) && fresh(cache)
      ensures fresh(cache.head)
    {
      bufs := new Chain();
      cache := new Chain();
      made, freed, log := {}, {}, EmptyLog;
    }

    /** An event node that is in neither ring: the first of the cache if it has the right size, or a new one. */
    method Obtain(buf: Bytes, granted: bool) returns (ok: bool, evt: Event)
      requires Valid()
      modifies this`made, cache, cache.head`prev, cache.head`next, cache.nodes`prev, cache.nodes`next
      ensures fresh(made - old(made)) && bufs.Valid() && bufs.Contents() == Pending(log) && cache.Valid()
      ensures ok == (Hit(log, buf) || granted) && (!ok ==> Valid() && made == old(made))
      ensures Sizes(cache.Contents()) == if Hit(log, buf) then log.spare[1..] else log.spare
      ensures ok ==> if Hit(log, buf) then made == old(made) else fresh(evt) && made == old(made) + {evt}
      ensures Fitting(made) && (ok ==> evt in made && |buf| == evt.mark)
      ensures ok ==>
              && evt !in {bufs.head, cache.head} && bufs.head !in made && cache.head !in made
              && Partitioned(made, bufs.nodes, cache.nodes, freed, {evt})
    {
      hide Ring, Covers, Partitioned, Datas, Around;
      PartsOf(made, bufs.nodes, cache.nodes, freed, {});
      SizesOf(cache.Contents(), []);
      var hit := cache.count > 0;
      if hit {
        var n := cache.FirstLength();
        hit := n == |buf|;
      }
      ok, evt := true, bufs.head;
      ghost var cached := cache.nodes;
      if hit {
        evt := cache.TakeFirst();
        PickUp(made, bufs.nodes, cached, freed, evt);
      } else if granted {
        evt := new Node(buf, |buf|);
        PickUp(made, bufs.nodes, cached, freed, evt);
        made := made + {evt};
      } else {
        ok := false;
      }
    }

    /** The payload goes into a node in hand, whose buffer has its size, and the node to the end of the ring. */
    method Append(evt: Event, buf: Bytes)
      requires bufs != cache && bufs.head != cache.head && bufs.head !in made && cache.head !in made
      requires evt !in {bufs.head, cache.head} && Fitting(made) && evt in made && |buf| == evt.mark
      requires Partitioned(made, bufs.nodes, cache.nodes, freed, {evt}) && bufs.Valid() && cache.Valid()
      modifies bufs, bufs.head, made
      ensures Sound() && bufs.Contents() == old(bufs.Contents()) + [buf] && cache.Contents() == old(cache.Contents())
    {
      hide Ring, Covers, Partitioned, Datas, Around;
      PartsOf(made, bufs.nodes, cache.nodes, freed, {evt});
      PutDown(made, bufs.nodes, cache.nodes, freed, evt);
      evt.data := buf;
      bufs.PutLast(evt);
    }

    /** `event_write` */
    method Write(buf: Bytes, granted: bool) returns (len: int)
      requires Valid()
      modifies this, bufs, bufs.head, cache, cache.head, made
      ensures Valid() && fresh(made - old(made)) && Wrote(len) == Answer(old(log), Writing(buf, granted))
      ensures log == Stepped(old(log), Writing(buf, granted))
      ensures made == old(made) <==> (old(log).spare != [] && old(log).spare[0] == |buf|) || !granted
      ensures len == if granted || (old(log).spare != [] && old(log).spare[0] == |buf|) then |buf| else -1
      ensures Pending(log) == Pending(old(log)) + (if len == -1 then [] else [buf])
    {
      hide Ring, Covers, Partitioned, Datas, Around, Sizes, Stepped, Pending, Hit, Fitting;
      PartsOf(made, bufs.nodes, cache.nodes, freed, {});
      WriteAppends(log, buf, granted);
      HitIs(log, buf);
      var ok, evt := Obtain(buf, granted);
      if !ok {
        Refused(log, buf);
        return -1;
      }
      PartsOf(made, bufs.nodes, cache.nodes, freed, {evt});
      Append(evt, buf);
      len, log := |buf|, Stepped(log, Writing(buf, granted));
    }

    /** The first node of the ring is taken in hand. */
    method Detach() returns (evt: Event)
      requires Sound() && bufs.count > 0
      modifies bufs, bufs.head`prev, bufs.head`next, bufs.nodes`prev, bufs.nodes`next
      ensures bufs.Valid() && cache.Valid() && bufs.head !in made && cache.head !in made && Fitting(made)
      ensures Partitioned(made, bufs.nodes, cache.nodes, freed, {evt})
      ensures old(bufs.Contents()) != [] && bufs.Contents() == old(bufs.Contents())[1..]
      ensures evt.data == old(bufs.Contents())[0]
      ensures cache.Contents() == old(cache.Contents())
    {
      hide Ring, Covers, Partitioned, Datas, Around, Fitting;
      PartsOf(made, bufs.nodes, cache.nodes, freed, {});
      ghost var pending := bufs.nodes;
      evt := bufs.TakeFirst();
      PickUp(made, pending, cache.nodes, freed, evt);
    }

    /** `event_read` */
    method Read(len: nat) returns (buf: Bytes)
      requires Valid()
      modifies this, bufs, bufs.head, cache, cache.head, made
      ensures Valid() && made == old(made) && Got(buf) == Answer(old(log), Reading(len))
      ensures log == Stepped(old(log), Reading(len))
      ensures freed == old(freed) <==> Pending(old(log)) == [] || |old(log).spare| < 4
      ensures if Pending(old(log)) == [] then buf == [] && Pending(log) == []
              else
                var first := Pending(old(log))[0];
                Pending(log) == Pending(old(log))[1..] && buf == first[..if len < |first| then len else |first|]
    {
      hide Ring, Covers, Partitioned, Datas, Around, Sizes, Stepped, Answer, Pending, Found, Fitting;
      buf := [];
      if bufs.count == 0 {
        NothingFound(log, len);
      } else {
        buf := ReadOldest(len);
      }
    }

    /** The first event is copied out and its node recycled. */
    method ReadOldest(len: nat) returns (buf: Bytes)
      requires Valid() && Pending(log) != []
      modifies this`log, this`freed, bufs, bufs.head, cache, cache.head, made
      ensures Valid() && Got(buf) == Answer(old(log), Reading(len)) && log == Stepped(old(log), Reading(len))
      ensures freed == old(freed) <==> |old(log).spare| < 4
      ensures Pending(log) == Pending(old(log))[1..]
      ensures var first := Pending(old(log))[0]; buf == first[..if len < |first| then len else |first|]
    {
      hide Ring, Covers, Partitioned, Datas, Around, Sizes, Stepped, Answer, Pending, Found, Fitting, Cut;
      PartsOf(made, bufs.nodes, cache.nodes, freed, {});
      ReadTakesFirst(log, len);
      ghost var log' := Stepped(log, Reading(len));
      var evt := Detach();
      PartsOf(made, bufs.nodes, cache.nodes, freed, {evt});
      buf := Cut(evt.data, len);
      Recycle(evt);
      log := log';
    }

    /** A node in hand is kept for reuse, if there is room, or freed. */
    method Recycle(evt: Event)
      requires bufs != cache && bufs.head != cache.head && bufs.head !in made && cache.head !in made
      requires bufs.Valid() && cache.Valid() && Fitting(made)
      requires Partitioned(made, bufs.nodes, cache.nodes, freed, {evt})
      modifies this`freed, cache, cache.head`prev, cache.head`next, made`prev, made`next
      ensures Sound() && bufs.Contents() == old(bufs.Contents())
      ensures Sizes(cache.Contents()) ==
              if |old(cache.Contents())| < 4 then [|evt.data|] + Sizes(old(cache.Contents()))
              else Sizes(old(cache.Contents()))
      ensures freed == (if |old(cache.Contents())| < 4 then old(freed) else old(freed) + {evt}) && evt !in old(freed)
    {
      hide Ring, Covers, Partitioned, Datas, Around, Fitting, Sizes;
      PartsOf(made, bufs.nodes, cache.nodes, freed, {evt});
      PutDown(made, bufs.nodes, cache.nodes, freed, evt);
      NotFreed(made, bufs.nodes, cache.nodes, freed, evt);
      SizesOf(cache.Contents(), evt.data);
      if cache.count < MAX_CACHE {
        cache.PutFirst(evt);
      } else {
        freed := freed + {evt};
      }
    }

    /** The pending events are freed. */
    method FreePending()
      requires Sound()
      modifies this, bufs, bufs.head, made
      ensures Sound() && made == old(made) && bufs.count == 0
    {
      hide Ring, Covers, Partitioned, Datas, Around, Fitting;
      while bufs.count > 0
        invariant Sound() && made == old(made)
        decreases bufs.count
      {
        PartsOf(made, bufs.nodes, cache.nodes, freed, {});
        var node := Detach();
        PutDown(made, bufs.nodes, cache.nodes, freed, node);
        freed := freed + {node};
      }
    }

    /** The nodes kept for reuse are freed. */
    method FreeCache()
      requires Sound() && bufs.count == 0
      modifies this, cache, cache.head, made
      ensures Sound() && made == old(made) && bufs.count == 0 && cache.count == 0
    {
      hide Ring, Covers, Partitioned, Datas, Around, Fitting;
      while cache.count > 0
        invariant Sound() && made == old(made) && bufs.count == 0
        decreases cache.count
      {
        PartsOf(made, bufs.nodes, cache.nodes, freed, {});
        ghost var cached := cache.nodes;
        var node := cache.TakeFirst();
        PickUp(made, bufs.nodes, cached, freed, node);
        PutDown(made, bufs.nodes, cache.nodes, freed, node);
        freed := freed + {node};
      }
    }

    /** `eventloop_local_event_deinit`: every node still held is freed. */
    method Deinit()
      requires Sound()
      modifies this, bufs, bufs.head, cache, cache.head, made
      ensures freed == made && bufs.nodes == {} && cache.nodes == {} && made == old(made)
    {
      hide Ring, Covers, Partitioned, Datas, Around, Fitting;
      FreePending();
      FreeCache();
      bufs.EmptyHasNoNodes();
      cache.EmptyHasNoNodes();
      AllFreed(made, freed);
    }
  }

  lemma AllFreed(made: set<Event>, freed: set<Event>)
    requires Partitioned(made, {}, {}, freed, {})
    ensures freed == made
  {
  }

  method Perform(queue: Queue, step: Step) returns (reply: Reply)
    requires queue.Valid()
    modifies queue, queue.bufs, queue.bufs.head, queue.cache, queue.cache.head, queue.made
    ensures queue.Valid() && fresh(queue.made - old(queue.made))
    ensures reply == Answer(old(queue.log), step) && queue.log == Stepped(old(queue.log), step)
  {
    hide Ring, Covers, Partitioned, Datas, Around, Answer, Stepped, Sizes, Pending;
    match step {
      case Writing(buf, granted) =>
        var len := queue.Write(buf, granted);
        reply := Wrote(len);
      case Reading(len) =>
        var buf := queue.Read(len);
        reply := Got(buf);
    }
  }

  /** Any sequence of writes and reads: every step is answered as the steps before it demand, and what has been
      accepted and not read is still pending, in order. */
  method Run(steps: seq<Step>) returns (replies: seq<Reply>, queue: Queue)
    ensures |replies| == |steps| && forall k :: 0 <= k < |steps| ==> replies[k] == Answer(After(steps[..k]), steps[k])
    ensures queue.Valid() && |After(steps).asked| <= |After(steps).written|
    ensures queue.bufs.Contents() == Pending(After(steps))
  {
    hide Ring, Covers, Partitioned, Datas, Around, Answer, Stepped, Sizes, Pending;
    queue := new Queue();
    replies := [];
    for k := 0 to |steps|
      invariant fresh(queue) && fresh(queue.bufs) && fresh(queue.cache) && fresh(queue.bufs.head)
      invariant fresh(queue.cache.head) && fresh(queue.made)
      invariant queue.Valid() && queue.log == After(steps[..k])
      invariant |replies| == k && forall i :: 0 <= i < k ==> replies[i] == Answer(After(steps[..i]), steps[i])
    {
      assert steps[..k + 1][..k] == steps[..k];
      var reply := Perform(queue, steps[k]);
      replies := replies + [reply];
    }
    assert steps[..|steps|] == steps;
  }
}
