/** The life of the buffer that the two sides of a remote procedure call share: every interleaving of
    callers and services, with memory that is reused after it is freed. */
module Rpc {

  /** How a call waits: until the reply, for a limited time, or not at all. */
  datatype Mode = Sync | Timed | Async

  /** Where the caller is: filling the request, in `rpc_wait`, back with a reply, back without one, or
      behind its `rpc_deinit`. */
  datatype Caller = Building | Waiting | Woken | Leaving | Gone

  /** Where the request is: not delivered, in the queue, being processed, its semaphore signalled, turned
      down by its handler, or behind the service's `rpc_deinit`. */
  datatype Service = Unsent | Queued | Processing | Signalled | Dropped | Done

  /** One call: the address of its buffer, the two sides, the count of its semaphore, and how often its
      buffer has been freed. */
  datatype Call = Call(addr: nat, mode: Mode, caller: Caller, service: Service, tokens: nat, frees: nat)

  /** All calls on one task, the addresses allocated, and the task's `rpc_buffer_gc_cache`. */
  datatype System = System(calls: seq<Call>, live: set<nat>, cache: seq<nat>)

  const START := System([], {}, [])

  /** Index of the first occurrence, or the length. */
  function Position(cache: seq<nat>, addr: nat): (i: nat)
    ensures i <= |cache| && (i < |cache| ==> cache[i] == addr) && forall j :: 0 <= j < i ==> cache[j] != addr
  {
    if cache == [] || cache[0] == addr then 0 else 1 + Position(cache[1..], addr)
  }

  /** What `rpc_deinit` does to the cache: the first side parks the buffer, the second takes it out. */
  function Handover(cache: seq<nat>, addr: nat): seq<nat> {
    var i := Position(cache, addr);
    if i < |cache| then cache[..i] + cache[i + 1..] else cache + [addr]
  }

  /** What `rpc_deinit` does to the heap: the second side frees the buffer. */
  function Survivors(live: set<nat>, cache: seq<nat>, addr: nat): set<nat> {
    if addr in cache then live - {addr} else live
  }

  /** A step of some caller or some service. */
  datatype Step =
    | Open(addr: nat, mode: Mode)
    | Fill(i: nat)
    | Send(i: nat, delivered: bool)
    | Wake(i: nat)
    | Expire(i: nat)
    | Read(i: nat)
    | CallerDeinit(i: nat)
    | Receive(i: nat)
    | Work(i: nat)
    | Refuse(i: nat)
    | Reply(i: nat)
    | ServiceDeinit(i: nat)

  /** The step can happen: the side is at that point, and what it waits for is there. */
  predicate Enabled(s: System, step: Step) {
    if step.Open? then step.addr !in s.live else step.i < |s.calls| && Ready(s.calls[step.i], step)
  }

  predicate Ready(c: Call, step: Step) {
    match step
    case Open(_, _) => false
    case Fill(_) => c.caller == Building
    case Send(_, _) => c.caller == Building
    case Wake(_) => c.caller == Waiting && c.tokens > 0
    case Expire(_) => c.caller == Waiting && c.mode == Timed
    case Read(_) => c.caller == Woken
    case CallerDeinit(_) => c.caller == Woken || c.caller == Leaving
    case Receive(_) => c.service == Queued
    case Work(_) => c.service == Processing
    case Refuse(_) => c.service == Processing
    case Reply(_) => c.service == Processing
    case ServiceDeinit(_) => c.service == Signalled
  }

  /** The call after one of its own steps. */
  function Moved(c: Call, step: Step): Call {
    match step
    case Send(_, delivered) =>
      if delivered then c.(caller := if c.mode == Async then Leaving else Waiting, service := Queued)
      else c.(caller := Leaving)
    case Wake(_) => if c.tokens > 0 then c.(caller := Woken, tokens := c.tokens - 1) else c
    case Expire(_) => c.(caller := Leaving)
    case CallerDeinit(_) => c.(caller := Gone)
    case Receive(_) => c.(service := Processing)
    case Refuse(_) => c.(service := Dropped)
    case Reply(_) => c.(service := Signalled, tokens := if c.mode == Async then c.tokens else c.tokens + 1)
    case ServiceDeinit(_) => c.(service := Done)
    case _ => c
  }

  predicate Deinits(step: Step) {
    step.CallerDeinit? || step.ServiceDeinit?
  }

  function Apply(s: System, step: Step): System
    requires Enabled(s, step)
  {
    match step
    case Open(addr, mode) => System(s.calls + [Call(addr, mode, Building, Unsent, 0, 0)], s.live + {addr}, s.cache)
    case _ =>
      var c := Moved(s.calls[step.i], step);
      if !Deinits(step) then s.(calls := s.calls[step.i := c])
      else
        var d := if c.addr in s.cache then c.(frees := c.frees + 1) else c;
        System(s.calls[step.i := d], Survivors(s.live, s.cache, c.addr), Handover(s.cache, c.addr))
  }

  /** The call still owns its buffer: it has not been freed. */
  predicate Alive(c: Call) {
    c.frees == 0
  }

  predicate Both(c: Call) {
    c.caller == Gone && c.service == Done
  }

  predicate One(c: Call) {
    (c.caller == Gone) != (c.service == Done)
  }

  predicate Replied(c: Call) {
    c.service == Signalled || c.service == Done
  }

  /** What holds of each call: its buffer has been freed once if both sides are done and not otherwise, and a
      caller is woken only by the reply. */
  predicate Consistent(c: Call) {
    && c.frees == (if Both(c) then 1 else 0)
    && (c.caller == Building ==> c.service == Unsent)
    && (c.caller == Waiting ==> c.mode != Async && c.service != Unsent)
    && (c.caller == Woken ==> c.mode != Async && Replied(c) && c.tokens == 0)
    && (c.tokens > 0 ==> Replied(c)) && c.tokens <= 1
    && (c.caller == Waiting && Replied(c) ==> c.tokens == 1)
    && (c.mode == Sync && c.caller in {Leaving, Gone} && c.service != Unsent ==> Replied(c))
  }

  ghost predicate Owns(s: System, c: Call) {
    Alive(c) ==> c.addr in s.live && (c.addr in s.cache <==> One(c))
  }

  /** Some call that has not freed its buffer has it at `a`. */
  ghost predicate Owned(calls: seq<Call>, a: nat) {
    exists i :: 0 <= i < |calls| && calls[i].addr == a && Alive(calls[i])
  }

  ghost predicate Invariant(s: System) {
    && (forall i :: 0 <= i < |s.calls| ==> Consistent(s.calls[i]) && Owns(s, s.calls[i]))
    && (forall i, j :: 0 <= i < j < |s.calls| && Alive(s.calls[i]) && Alive(s.calls[j]) ==>
         s.calls[i].addr != s.calls[j].addr)
    && (forall p, q :: 0 <= p < q < |s.cache| ==> s.cache[p] != s.cache[q])
    && (forall a :: a in s.cache ==> a in s.live)
    && (forall a :: a in s.live ==> Owned(s.calls, a))
  }

  /** A call that changes and stays alive, or a new one, takes no buffer from any owner. */
  lemma StillOwned(calls: seq<Call>, i: nat, c: Call, a: nat)
    requires Owned(calls, a) && i <= |calls|
    requires i < |calls| ==> c.addr == calls[i].addr && (Alive(c) || a != c.addr)
    ensures Owned(if i < |calls| then calls[i := c] else calls + [c], a)
    ensures Owned(if i < |calls| then calls[i := c] else calls + [c], c.addr) <== Alive(c)
  {
    var j :| 0 <= j < |calls| && calls[j].addr == a && Alive(calls[j]);
    var calls' := if i < |calls| then calls[i := c] else calls + [c];
    assert j != i ==> calls'[j] == calls[j];
    assert calls'[i] == c;
  }

  /** The hand-over changes the place of one address and of no other. */
  lemma HandoverMembers(cache: seq<nat>, addr: nat)
    requires forall p, q :: 0 <= p < q < |cache| ==> cache[p] != cache[q]
    ensures var cache' := Handover(cache, addr);
            && (forall p, q :: 0 <= p < q < |cache'| ==> cache'[p] != cache'[q])
            && (addr in cache' <==> addr !in cache)
            && (forall a :: a != addr ==> (a in cache' <==> a in cache))
  {
    var i, cache' := Position(cache, addr), Handover(cache, addr);
    if i < |cache| {
      assert cache == cache[..i] + [addr] + cache[i + 1..];
      forall a | a != addr ensures a in cache' <==> a in cache {
      }
    }
  }

  /** A side that still has a step to make still has its buffer. */
  lemma StepIsAlive(s: System, step: Step)
    requires Invariant(s) && Enabled(s, step) && !step.Open?
    ensures Alive(s.calls[step.i]) && s.calls[step.i].addr in s.live
  {
    assert Consistent(s.calls[step.i]) && Owns(s, s.calls[step.i]);
  }

  /** Every step keeps the invariant. */
  lemma StepKeeps(s: System, step: Step)
    requires Invariant(s) && Enabled(s, step)
    ensures Invariant(Apply(s, step))
  {
    if step.Open? {
      OpenKeeps(s, step);
    } else {
      StepIsAlive(s, step);
      if Deinits(step) {
        DeinitKeeps(s, step);
      } else {
        PlainStepKeeps(s, step);
      }
    }
  }

  lemma OpenKeeps(s: System, step: Step)
    requires Invariant(s) && Enabled(s, step) && step.Open?
    ensures Invariant(Apply(s, step))
  {
    var s', n := Apply(s, step), |s.calls|;
    assert s'.calls[n].addr == step.addr && Alive(s'.calls[n]);
    forall a | a in s'.live ensures Owned(s'.calls, a) {
      if a != step.addr {
        StillOwned(s.calls, n, s'.calls[n], a);
      }
    }
  }

  lemma PlainStepKeeps(s: System, step: Step)
    requires Invariant(s) && Enabled(s, step) && !step.Open? && !Deinits(step)
    ensures Invariant(Apply(s, step))
  {
    hide Handover, Owned, Survivors;
    var s' := Apply(s, step);
    forall j | 0 <= j < |s'.calls| ensures Consistent(s'.calls[j]) && Owns(s', s'.calls[j]) {
      assert Consistent(s.calls[j]) && Owns(s, s.calls[j]);
    }
    forall a | a in s'.live ensures Owned(s'.calls, a) {
      StillOwned(s.calls, step.i, s'.calls[step.i], a);
    }
  }

  lemma DeinitKeeps(s: System, step: Step)
    requires Invariant(s) && Enabled(s, step) && Deinits(step) && Alive(s.calls[step.i])
    ensures Invariant(Apply(s, step))
  {
    hide Handover, Owned, Position;
    var i, s' := step.i, Apply(s, step);
    var addr := s.calls[i].addr;
    HandoverMembers(s.cache, addr);
    assert Consistent(s.calls[i]) && Owns(s, s.calls[i]);
    forall j | 0 <= j < |s'.calls| ensures Consistent(s'.calls[j]) && Owns(s', s'.calls[j]) {
      assert Consistent(s.calls[j]) && Owns(s, s.calls[j]);
    }
    forall a | a in s'.live ensures Owned(s'.calls, a) {
      StillOwned(s.calls, i, s'.calls[i], a);
    }
  }

  /** The state after a run, if every step of it can happen. */
  datatype Outcome = Stuck | Reached(state: System)

  function Run(steps: seq<Step>): Outcome
    decreases |steps|
  {
    if steps == [] then Reached(START)
    else
      var last := steps[|steps| - 1];
      match Run(steps[..|steps| - 1])
      case Stuck => Stuck
      case Reached(s) => if Enabled(s, last) then Reached(Apply(s, last)) else Stuck
  }

  /** The invariant holds in every reachable state. */
  lemma {:induction false} RunKeeps(steps: seq<Step>)
    ensures Run(steps).Reached? ==> Invariant(Run(steps).state)
    decreases |steps|
  {
    if steps != [] {
      var before := steps[..|steps| - 1];
      RunKeeps(before);
      if Run(before).Reached? && Enabled(Run(before).state, steps[|steps| - 1]) {
        StepKeeps(Run(before).state, steps[|steps| - 1]);
      }
    }
  }

  /** No step of any run is made by a side whose buffer has been freed or belongs to another call. This
      covers the buffers that `rpc_deinit` walks along: all of the cache is live, and a call that one side has
      left owns each. */
  lemma NoUseAfterFree(steps: seq<Step>, step: Step)
    requires Run(steps).Reached? && Enabled(Run(steps).state, step) && !step.Open?
    ensures var s := Run(steps).state;
            var c := s.calls[step.i];
            && c.addr in s.live && c.frees == 0
            && (forall j :: 0 <= j < |s.calls| && j != step.i && s.calls[j].addr == c.addr ==> s.calls[j].frees == 1)
            && (forall a :: a in s.cache ==> a in s.live && Parked(s.calls, a))
  {
    var s := Run(steps).state;
    RunKeeps(steps);
    StepIsAlive(s, step);
    forall j | 0 <= j < |s.calls| && j != step.i && s.calls[j].addr == s.calls[step.i].addr
        ensures s.calls[j].frees == 1 {
      assert Consistent(s.calls[j]);
    }
    forall a | a in s.cache ensures Parked(s.calls, a) {
      CacheIsParked(s, a);
    }
  }

  /** Exactly one side of some call is done with its buffer at `a`. */
  ghost predicate Parked(calls: seq<Call>, a: nat) {
    exists i :: 0 <= i < |calls| && calls[i].addr == a && Alive(calls[i]) && One(calls[i])
  }

  /** The cache holds the parked buffers and nothing else. */
  lemma CacheIsParked(s: System, a: nat)
    requires Invariant(s)
    ensures a in s.cache <==> Parked(s.calls, a)
    ensures a in s.live <==> Owned(s.calls, a)
  {
    if a in s.cache {
      assert Owned(s.calls, a);
      var i :| 0 <= i < |s.calls| && s.calls[i].addr == a && Alive(s.calls[i]);
      assert Owns(s, s.calls[i]);
    }
    if Parked(s.calls, a) {
      var i :| 0 <= i < |s.calls| && s.calls[i].addr == a && Alive(s.calls[i]) && One(s.calls[i]);
      assert Owns(s, s.calls[i]);
    }
    if Owned(s.calls, a) {
      var i :| 0 <= i < |s.calls| && s.calls[i].addr == a && Alive(s.calls[i]);
      assert Owns(s, s.calls[i]);
    }
  }

  /** In every reachable state a buffer has been freed exactly once if both sides are done with it and
      never otherwise. Until then it is allocated, and in the cache exactly while one side is done; after that
      it is neither allocated nor in the cache, unless a later call has been given its address. */
  lemma FreedExactlyOnce(steps: seq<Step>, i: nat)
    requires Run(steps).Reached? && i < |Run(steps).state.calls|
    ensures var s := Run(steps).state;
            var c := s.calls[i];
            && c.frees == (if Both(c) then 1 else 0)
            && (c.frees == 0 ==> c.addr in s.live && (c.addr in s.cache <==> One(c)))
            && (c.frees == 1 && !Owned(s.calls, c.addr) ==> c.addr !in s.live && c.addr !in s.cache)
  {
    RunKeeps(steps);
    var s := Run(steps).state;
    assert Consistent(s.calls[i]) && Owns(s, s.calls[i]);
    CacheIsParked(s, s.calls[i].addr);
  }

  /** A call with nothing left to do. */
  predicate Finished(c: Call) {
    c.caller == Gone && c.service in {Unsent, Dropped, Done}
  }

  /** When a call is over its buffer has been freed and has left the cache exactly when the request was
      delivered and replied to; otherwise it stays in the cache for good. */
  lemma LeaksIffUnanswered(steps: seq<Step>, i: nat)
    requires Run(steps).Reached? && i < |Run(steps).state.calls| && Finished(Run(steps).state.calls[i])
    ensures var s := Run(steps).state;
            var c := s.calls[i];
            && (c.frees == 1 <==> c.service == Done)
            && (c.service != Done ==> c.addr in s.cache && c.addr in s.live)
            && (c.service == Done && !Owned(s.calls, c.addr) ==> c.addr !in s.cache && c.addr !in s.live)
  {
    FreedExactlyOnce(steps, i);
  }

  /** When all calls are over the cache and the heap hold exactly the buffers of the unanswered ones. */
  lemma OnlyUnansweredLeak(steps: seq<Step>, a: nat)
    requires Run(steps).Reached?
    requires forall i :: 0 <= i < |Run(steps).state.calls| ==> Finished(Run(steps).state.calls[i])
    ensures var s := Run(steps).state;
            && (a in s.cache <==> exists i :: 0 <= i < |s.calls| && s.calls[i].addr == a && s.calls[i].service != Done)
            && (a in s.live <==> a in s.cache)
  {
    RunKeeps(steps);
    var s := Run(steps).state;
    CacheIsParked(s, a);
    forall i | 0 <= i < |s.calls| ensures Alive(s.calls[i]) <==> s.calls[i].service != Done {
      assert Consistent(s.calls[i]) && Finished(s.calls[i]);
    }
  }

  /** A caller that reads a result reads it after the reply. */
  lemma ReadsAfterReply(steps: seq<Step>, i: nat)
    requires Run(steps).Reached? && i < |Run(steps).state.calls| && Enabled(Run(steps).state, Read(i))
    ensures Replied(Run(steps).state.calls[i])
  {
    RunKeeps(steps);
    assert Consistent(Run(steps).state.calls[i]);
  }

  /** A caller that waits without limit for a request that was delivered goes on only after the reply. */
  lemma SyncOutlastsReply(steps: seq<Step>, i: nat)
    requires Run(steps).Reached? && i < |Run(steps).state.calls|
    requires var c := Run(steps).state.calls[i]; c.mode == Sync && c.service != Unsent && c.caller != Waiting
    ensures Replied(Run(steps).state.calls[i])
  {
    RunKeeps(steps);
    assert Consistent(Run(steps).state.calls[i]);
  }

  /** No state of a delivered, answered call is a dead end: one of its sides has a step to make until its
      buffer is freed. */
  lemma NeverStuck(steps: seq<Step>, i: nat) returns (step: Step)
    requires Run(steps).Reached? && i < |Run(steps).state.calls|
    requires Run(steps).state.calls[i].frees == 0 && Run(steps).state.calls[i].service != Dropped
    requires Run(steps).state.calls[i].service == Unsent ==> Run(steps).state.calls[i].caller != Gone
    ensures Enabled(Run(steps).state, step) && !step.Open? && step.i == i
  {
    RunKeeps(steps);
    var c := Run(steps).state.calls[i];
    assert Consistent(c);
    if c.service == Queued {
      step := Receive(i);
    } else if c.service == Processing {
      step := Reply(i);
    } else if c.service == Signalled {
      step := ServiceDeinit(i);
    } else if c.caller == Building {
      step := Send(i, true);
    } else if c.caller == Waiting {
      step := Wake(i);
    } else {
      step := CallerDeinit(i);
    }
  }

  /** The part of a service task that calls hand their buffers over in. */
  class Task {
    var live: set<nat>
    var gcCache: seq<nat>

    constructor ()
      ensures live == {} && gcCache == []
    {
      live, gcCache := {}, [];
    }

    /** `rpc_deinit`, which runs under the task's lock. */
    method RpcDeinit(data: nat)
      requires data in live
      modifies this
      ensures gcCache == Handover(old(gcCache), data)
      ensures live == Survivors(old(live), old(gcCache), data)
      ensures data !in old(gcCache) ==> gcCache == old(gcCache) + [data] && live == old(live)
      ensures data in old(gcCache) ==>
              live == old(live) - {data} && multiset(old(gcCache)) == multiset(gcCache) + multiset{data}
    {
      var i := 0;
      var cached := false;
      while i < |gcCache| && !cached
        invariant 0 <= i <= |old(gcCache)| && live == Survivors(old(live), if cached then old(gcCache) else [], data)
        invariant forall j :: 0 <= j < i ==> old(gcCache)[j] != data
        invariant if cached then i < |old(gcCache)| && old(gcCache)[i] == data
                  && gcCache == old(gcCache)[..i] + old(gcCache)[i + 1..]
                  else gcCache == old(gcCache)
        decreases |gcCache| - i, !cached
      {
        if gcCache[i] == data {
          gcCache := gcCache[..i] + gcCache[i + 1..];
          live := live - {data};
          cached := true;
        } else {
          i := i + 1;
        }
      }
      PositionIs(old(gcCache), data, i);
      assert cached ==> old(gcCache) == old(gcCache)[..i] + [data] + old(gcCache)[i + 1..];
      if !cached {
        gcCache := gcCache + [data];
      }
    }
  }

  lemma PositionIs(cache: seq<nat>, addr: nat, i: nat)
    requires i <= |cache| && (i < |cache| ==> cache[i] == addr) && forall j :: 0 <= j < i ==> cache[j] != addr
    ensures Position(cache, addr) == i && (addr in cache <==> i < |cache|)
  {
  }
}
