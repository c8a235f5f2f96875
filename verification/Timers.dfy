/** The delayed actions of the event loop: a ring of timers sorted by deadline. */
module Timers {
  import opened DList

  /** A delayed action: when it is due, the delay it was posted with, the callback and its argument. */
  datatype Timer = Timer(deadline: int, ms: int, action: nat, param: nat)

  /** A null function pointer. */
  const NO_ACTION: nat := 0

  datatype Status = Ok | Einval | Enomem

  /** A pending timer with its place in the order of posting. */
  datatype Entry = Entry(timer: Timer, order: nat)

  /** Earlier deadline first; equal deadlines in the order of posting. */
  predicate Precedes(a: Entry, b: Entry) {
    a.timer.deadline < b.timer.deadline || (a.timer.deadline == b.timer.deadline && a.order < b.order)
  }

  ghost predicate Ordered(s: seq<Entry>) {
    forall i, j :: 0 <= i < j < |s| ==> Precedes(s[i], s[j])
  }

  ghost predicate OlderThan(s: seq<Entry>, order: nat) {
    forall i :: 0 <= i < |s| ==> s[i].order < order
  }

  /** Where the search loop of `aos_post_delayed_action` stops: at the first timer that is due later. */
  function Place(s: seq<Entry>, deadline: int): (k: nat)
    ensures k <= |s| && (k < |s| ==> deadline < s[k].timer.deadline)
    ensures forall i :: 0 <= i < k ==> s[i].timer.deadline <= deadline
  {
    if s == [] || deadline < s[0].timer.deadline then 0 else 1 + Place(s[1..], deadline)
  }

  function Inserted(s: seq<Entry>, e: Entry): seq<Entry> {
    var k := Place(s, e.timer.deadline);
    s[..k] + [e] + s[k..]
  }

  /** A new timer goes where it keeps the order, behind those with the same deadline. */
  lemma InsertKeepsOrder(s: seq<Entry>, e: Entry)
    requires Ordered(s) && OlderThan(s, e.order)
    ensures Ordered(Inserted(s, e)) && OlderThan(Inserted(s, e), e.order + 1)
  {
    hide Place;
    var k, s' := Place(s, e.timer.deadline), Inserted(s, e);
    forall i, j | 0 <= i < j < |s'| ensures Precedes(s'[i], s'[j]) {
      var a, b := if i < k then i else i - 1, if j < k then j else j - 1;
      if i != k && j != k {
        assert s'[i] == s[a] && s'[j] == s[b] && Precedes(s[a], s[b]);
      } else if i == k && b > k {
        assert s'[j] == s[b] && Precedes(s[k], s[b]);
      }
    }
    forall i | 0 <= i < |s'| ensures s'[i].order < e.order + 1 {
      assert i < k ==> s'[i] == s[i];
      assert i > k ==> s'[i] == s[i - 1];
    }
  }

  lemma InsertAdds(s: seq<Entry>, e: Entry)
    ensures multiset(Inserted(s, e)) == multiset(s) + multiset{e}
  {
    hide Place;
    var k := Place(s, e.timer.deadline);
    assert s == s[..k] + s[k..];
  }

  predicate Matches(t: Timer, ms: int, action: nat, param: nat) {
    (ms < 0 || t.ms == ms) && t.action == action && t.param == param
  }

  /** Where the search loop of `aos_cancel_delayed_action` stops, or the length: at the first timer with this action
      and parameter, and with this delay unless it is negative. */
  function FirstMatch(s: seq<Entry>, ms: int, action: nat, param: nat): (k: nat)
    ensures k <= |s|
    ensures k < |s| ==>
            var t := s[k].timer; t.action == action && t.param == param && (ms < 0 || t.ms == ms)
    ensures forall i :: 0 <= i < k ==>
            var t := s[i].timer; t.action != action || t.param != param || (ms >= 0 && t.ms != ms)
  {
    if s == [] || Matches(s[0].timer, ms, action, param) then 0 else 1 + FirstMatch(s[1..], ms, action, param)
  }

  function Removed(s: seq<Entry>, k: nat): seq<Entry>
    requires k < |s|
  {
    s[..k] + s[k + 1..]
  }

  lemma RemoveKeepsOrder(s: seq<Entry>, k: nat, order: nat)
    requires Ordered(s) && OlderThan(s, order) && k < |s|
    ensures Ordered(Removed(s, k)) && OlderThan(Removed(s, k), order)
  {
  }

  lemma RemoveTakes(s: seq<Entry>, k: nat)
    requires k < |s|
    ensures multiset(Removed(s, k)) + multiset{s[k]} == multiset(s)
  {
    assert s == s[..k] + [s[k]] + s[k + 1..];
  }

  ghost function EntryOf(n: Node<Timer>): Entry
    reads n
  {
    Entry(n.data, n.mark)
  }

  /** The timers on the way around the ring. */
  ghost function Entries(path: seq<Node<Timer>>): (s: seq<Entry>)
    requires |path| >= 2
    reads path
    ensures |s| == |path| - 2 && forall i :: 0 <= i < |s| ==> s[i] == EntryOf(path[i + 1])
  {
    seq(|path| - 2, i requires 0 <= i < |path| - 2 reads path => EntryOf(path[i + 1]))
  }

  /** A callback made at `now`, with the timers that were pending besides it. */
  datatype Firing = Firing(entry: Entry, now: int, rest: seq<Entry>)

  /** It was due, and nothing pending came before it. */
  predicate Timely(f: Firing) {
    f.entry.timer.deadline <= f.now && forall i :: 0 <= i < |f.rest| ==> Precedes(f.entry, f.rest[i])
  }

  function Callbacks(fired: seq<Firing>): multiset<Entry> {
    if fired == [] then multiset{} else Callbacks(fired[..|fired| - 1]) + multiset{fired[|fired| - 1].entry}
  }

  /** Every timer posted is pending, has been called, or has been cancelled, and only one of these. */
  ghost predicate Accounted(posted: multiset<Entry>, pending: seq<Entry>, fired: seq<Firing>,
                            cancelled: multiset<Entry>) {
    posted == multiset(pending) + Callbacks(fired) + cancelled && forall i :: 0 <= i < |fired| ==> Timely(fired[i])
  }

  /** The pending timers in the order of the ring, and what has happened to all timers so far. */
  datatype Book = Book(pending: seq<Entry>, posts: nat, posted: multiset<Entry>, fired: seq<Firing>,
    cancelled: multiset<Entry>)

  const EmptyBook: Book := Book([], 0, multiset{}, [], multiset{})

  ghost predicate Kept(b: Book) {
    Ordered(b.pending) && OlderThan(b.pending, b.posts) && Accounted(b.posted, b.pending, b.fired, b.cancelled)
  }

  function Posted(b: Book, t: Timer): Book {
    var e := Entry(t, b.posts);
    b.(pending := Inserted(b.pending, e), posts := b.posts + 1, posted := b.posted + multiset{e})
  }

  function Cancelled(b: Book, k: nat): Book
    requires k < |b.pending|
  {
    b.(pending := Removed(b.pending, k), cancelled := b.cancelled + multiset{b.pending[k]})
  }

  predicate Due(b: Book, now: int) {
    b.pending != [] && b.pending[0].timer.deadline <= now
  }

  function Fired(b: Book, now: int): Book
    requires Due(b, now)
  {
    var rest := Removed(b.pending, 0);
    b.(pending := rest, fired := b.fired + [Firing(b.pending[0], now, rest)])
  }

  lemma PostKeeps(b: Book, t: Timer)
    requires Kept(b)
    ensures Kept(Posted(b, t))
  {
    hide Inserted, Timely, Ordered, OlderThan;
    InsertKeepsOrder(b.pending, Entry(t, b.posts));
    InsertAdds(b.pending, Entry(t, b.posts));
  }

  lemma CancelKeeps(b: Book, k: nat)
    requires Kept(b) && k < |b.pending|
    ensures Kept(Cancelled(b, k))
  {
    hide Timely, Ordered, OlderThan;
    RemoveKeepsOrder(b.pending, k, b.posts);
    RemoveTakes(b.pending, k);
  }

  lemma FireKeeps(b: Book, now: int)
    requires Kept(b) && Due(b, now)
    ensures Kept(Fired(b, now))
  {
    var f := Firing(b.pending[0], now, Removed(b.pending, 0));
    RemoveKeepsOrder(b.pending, 0, b.posts);
    RemoveTakes(b.pending, 0);
    assert (b.fired + [f])[..|b.fired|] == b.fired;
    forall i | 0 <= i < |f.rest| ensures Precedes(f.entry, f.rest[i]) {
      assert f.rest[i] == b.pending[i + 1];
    }
  }

  /** What a callback, or any other code, does to the timers. */
  datatype Call = Posting(ms: int, action: nat, param: nat, granted: bool)
    | Cancelling(ms: int, action: nat, param: nat)

  function Effect(b: Book, now: int, call: Call): Book {
    match call
    case Posting(ms, action, param, granted) =>
      if action == NO_ACTION || ms < 0 || !granted then b else Posted(b, Timer(now + ms, ms, action, param))
    case Cancelling(ms, action, param) =>
      var k := FirstMatch(b.pending, ms, action, param);
      if action == NO_ACTION || k == |b.pending| then b else Cancelled(b, k)
  }

  function Effects(b: Book, now: int, calls: seq<Call>): Book {
    if calls == [] then b else Effect(Effects(b, now, calls[..|calls| - 1]), now, calls[|calls| - 1])
  }

  /** Calls take effect one after the other. */
  lemma {:induction false} EffectsInOrder(b: Book, now: int, first: seq<Call>, more: seq<Call>)
    ensures Effects(b, now, first + more) == Effects(Effects(b, now, first), now, more)
    decreases |more|
  {
    hide Effect;
    if more == [] {
      assert first + more == first;
    } else {
      var n := |more| - 1;
      assert (first + more)[..|first| + n] == first + more[..n] && (first + more)[|first| + n] == more[n];
      EffectsInOrder(b, now, first, more[..n]);
    }
  }

  /** What happens at time `now`: some code posts or cancels, or the loop takes a turn. */
  datatype Event = Outside(now: int, call: Call) | LoopTurn(now: int, callback: seq<Call>)

  /** The timers after one event, and after a whole script. */
  function Handled(b: Book, event: Event): Book {
    match event
    case Outside(now, call) => Effect(b, now, call)
    case LoopTurn(now, callback) => if Due(b, now) then Effects(Fired(b, now), now, callback) else b
  }

  function After(b: Book, script: seq<Event>): Book {
    if script == [] then b else Handled(After(b, script[..|script| - 1]), script[|script| - 1])
  }

  /** The calls an event makes, if the loop has something to call. */
  function CallsOf(event: Event): seq<Call> {
    if event.Outside? then [event.call] else event.callback
  }

  /** The event posts this timer. */
  predicate Posts(event: Event, t: Timer) {
    && t.deadline == event.now + t.ms && t.ms >= 0 && t.action != 0
    && Posting(t.ms, t.action, t.param, true) in CallsOf(event)
  }

  lemma {:induction false} EffectsPost(b: Book, now: int, calls: seq<Call>, e: Entry)
    requires e in Effects(b, now, calls).posted && e !in b.posted
    ensures var t := e.timer;
            && t.deadline == now + t.ms && t.ms >= 0 && t.action != 0
            && Posting(t.ms, t.action, t.param, true) in calls
    decreases |calls|
  {
    hide Inserted, FirstMatch;
    if calls != [] {
      var n := |calls| - 1;
      assert calls == calls[..n] + [calls[n]];
      if e in Effects(b, now, calls[..n]).posted {
        EffectsPost(b, now, calls[..n], e);
      }
    }
  }

  /** Every timer was posted by some event of the script, with its delay counted from then. */
  lemma {:induction false} TimersArePosted(script: seq<Event>, e: Entry) returns (i: nat)
    requires e in After(EmptyBook, script).posted
    ensures i < |script| && Posts(script[i], e.timer)
    decreases |script|
  {
    hide Effect, Effects;
    var n := |script| - 1;
    var b := After(EmptyBook, script[..n]);
    if e in b.posted {
      i := TimersArePosted(script[..n], e);
    } else {
      i := n;
      match script[n] {
        case Outside(now, call) =>
          OneEffect(b, now, call);
          EffectsPost(b, now, [call], e);
        case LoopTurn(now, callback) =>
          EffectsPost(Fired(b, now), now, callback, e);
      }
    }
  }

  lemma {:induction false} FiredIsCalled(fired: seq<Firing>, k: nat)
    requires k < |fired|
    ensures fired[k].entry in Callbacks(fired)
    decreases |fired|
  {
    if k < |fired| - 1 {
      FiredIsCalled(fired[..|fired| - 1], k);
    }
  }

  lemma {:induction false} EffectsKeep(b: Book, now: int, calls: seq<Call>)
    requires Kept(b)
    ensures Kept(Effects(b, now, calls))
    decreases |calls|
  {
    hide Kept, Posted, Cancelled, FirstMatch;
    if calls != [] {
      var n := |calls| - 1;
      var b' := Effects(b, now, calls[..n]);
      EffectsKeep(b, now, calls[..n]);
      match calls[n] {
        case Posting(ms, action, param, _) =>
          PostKeeps(b', Timer(now + ms, ms, action, param));
        case Cancelling(ms, action, param) =>
          var k := FirstMatch(b'.pending, ms, action, param);
          if k < |b'.pending| {
            CancelKeeps(b', k);
          }
      }
    }
  }

  /** The books are kept in every run. */
  lemma {:induction false} RunKeeps(script: seq<Event>)
    ensures Kept(After(EmptyBook, script))
    decreases |script|
  {
    if script != [] {
      hide Kept, Effect, Effects, Fired;
      var n := |script| - 1;
      var b := After(EmptyBook, script[..n]);
      RunKeeps(script[..n]);
      match script[n] {
        case Outside(now, call) =>
          OneEffect(b, now, call);
          EffectsKeep(b, now, [call]);
        case LoopTurn(now, callback) =>
          if Due(b, now) {
            FireKeeps(b, now);
            EffectsKeep(Fired(b, now), now, callback);
          }
      }
    }
  }

  /** Nothing is called that was not posted, and nothing before its delay has passed since then. */
  lemma NotBeforeItsDelay(script: seq<Event>, k: nat)
    requires k < |After(EmptyBook, script).fired|
    ensures var f := After(EmptyBook, script).fired[k];
            exists i :: 0 <= i < |script| && Posts(script[i], f.entry.timer) &&
                        script[i].now + f.entry.timer.ms <= f.now
  {
    hide Ordered, OlderThan;
    RunKeeps(script);
    var b := After(EmptyBook, script);
    FiredIsCalled(b.fired, k);
    assert b.fired[k].entry in b.posted;
    var i := TimersArePosted(script, b.fired[k].entry);
    assert Timely(b.fired[k]);
  }

  /** The function that was called, its argument and when. */
  datatype Callback = Callback(now: int, action: nat, param: nat)

  function Calls(fired: seq<Firing>): (r: seq<Callback>)
    ensures |r| == |fired|
  {
    seq(|fired|, i requires 0 <= i < |fired| =>
      Callback(fired[i].now, fired[i].entry.timer.action, fired[i].entry.timer.param))
  }

  /** Turns of the loop at the given times, with callbacks that do nothing. */
  function Turns(times: seq<int>): (r: seq<Event>)
    ensures |r| == |times|
  {
    seq(|times|, i requires 0 <= i < |times| => LoopTurn(times[i], []))
  }

  /** Once everything pending is due, as many turns of the loop as there are timers call them all, in the
      order of the ring. */
  lemma {:induction false} TurnsDrain(b: Book, times: seq<int>)
    requires |times| <= |b.pending|
    requires forall i, j :: 0 <= i < |times| && 0 <= j < |b.pending| ==> b.pending[j].timer.deadline <= times[i]
    ensures After(b, Turns(times)).pending == b.pending[|times|..]
    ensures |After(b, Turns(times)).fired| == |b.fired| + |times|
    ensures forall i :: 0 <= i < |times| ==> After(b, Turns(times)).fired[|b.fired| + i].entry == b.pending[i]
    decreases |times|
  {
    if times != [] {
      var n := |times| - 1;
      TurnsDrain(b, times[..n]);
      assert Turns(times)[..n] == Turns(times[..n]);
      var b' := After(b, Turns(times[..n]));
      assert b'.pending[0] == b.pending[n];
      assert After(b, Turns(times)) == Fired(b', times[n]);
      assert Removed(b'.pending, 0) == b.pending[n + 1..];
    }
  }

  ghost predicate Covers(repr: set<Node<Timer>>, path: seq<Node<Timer>>) {
    forall i :: 0 <= i < |path| ==> path[i] in repr
  }

  /** The nodes that are allocated are those in the ring and those in hand. */
  ghost predicate Held(live: set<Node<Timer>>, path: seq<Node<Timer>>, loose: set<Node<Timer>>) {
    && (forall n <- live :: n in path || n in loose) && (forall n <- path :: n in live)
    && (forall n <- loose :: n in live && n !in path)
  }

  lemma HeldMore(live: set<Node<Timer>>, path: seq<Node<Timer>>, loose: set<Node<Timer>>, k: nat, node: Node<Timer>)
    requires Held(live, path, loose) && k <= |path| && node !in live
    ensures Held(live + {node}, path[..k] + [node] + path[k..], loose)
  {
    assert path == path[..k] + path[k..];
  }

  lemma HeldLess(live: set<Node<Timer>>, path: seq<Node<Timer>>, loose: set<Node<Timer>>, i: nat)
    requires Held(live, path, loose) && Circle(path) && 0 < i < |path| - 1
    ensures path[i] !in loose && Held(live, path[..i] + path[i + 1..], loose + {path[i]})
  {
    var path', node := path[..i] + path[i + 1..], path[i];
    assert path == path[..i] + [node] + path[i + 1..];
    assert forall k :: 0 <= k < |path'| ==> path'[k] == path[if k < i then k else k + 1] != node;
  }

  lemma HeldFree(live: set<Node<Timer>>, path: seq<Node<Timer>>, loose: set<Node<Timer>>, node: Node<Timer>)
    requires Held(live, path, loose) && node in loose
    ensures node in live && Held(live - {node}, path, loose - {node})
  {
  }

  class EventLoop {
    const head: Node<Timer>
    ghost var path: seq<Node<Timer>>
    ghost var repr: set<Node<Timer>>

    /** The nodes that are allocated, and those of them that are unlinked and not yet freed. */
    ghost var live: set<Node<Timer>>
    ghost var loose: set<Node<Timer>>
    ghost var book: Book

    ghost predicate Valid()
      reads this, path
    {
      && Ring(path) && path[0] == head && Entries(path) == book.pending && Kept(book) && Covers(repr, path)
      && live <= repr && Held(live, path, loose)
    }

    /** `aos_loop_init` */
    constructor ()
      ensures Valid() && book == EmptyBook && loose == {} && fresh(repr)
    {
      head := new Node(Timer(0, 0, 0, 0), 0);
      path, repr, live, loose, book := [], {}, {}, {}, EmptyBook;
      new;
      Init(head);
      path, repr, live := [head, head], {head}, {head};
    }

    /** `DEBUG_FREE` of an unlinked node that is allocated. */
    ghost method Free(node: Node<Timer>)
      requires node in live && node in loose
      modifies this`live, this`loose
      ensures live == old(live) - {node} && loose == old(loose) - {node}
    {
      live, loose := live - {node}, loose - {node};
    }

    /** The search of `aos_post_delayed_action`. */
    method FindLater(deadline: int) returns (tmp: Node<Timer>, ghost k: nat)
      requires Valid()
      ensures k == Place(book.pending, deadline) && k + 1 < |path| && tmp == path[k + 1] && tmp.prev == path[k]
    {
      hide Kept, Place, Held;
      ghost var s := book.pending;
      assert Linked(path, 0);
      tmp, k := head.next, 0;
      while tmp != head && !(deadline < tmp.data.deadline)
        invariant k + 1 < |path| && tmp == path[k + 1] && forall i :: 0 <= i < k ==> s[i].timer.deadline <= deadline
        decreases |path| - k
      {
        assert k + 1 < |path| - 1;
        assert Linked(path, k + 1) && s[k] == EntryOf(tmp);
        tmp, k := tmp.next, k + 1;
      }
      assert Linked(path, k);
      if tmp == head {
        AtEnd(path, k + 1);
      }
      PlaceIs(s, deadline, k);
    }

    /** Puts a new node in front of `tmp`. */
    method Insert(timeout: Node<Timer>, tmp: Node<Timer>, ghost k: nat)
      requires Ring(path) && path[0] == head && k + 1 < |path| && tmp == path[k + 1] && tmp.prev == path[k]
      requires timeout !in path
      modifies this`path, path, timeout
      ensures Ring(path) && path[0] == head && path == old(path[..k + 1] + [timeout] + path[k + 1..])
      ensures Entries(path) == old(Entries(path)[..k] + [EntryOf(timeout)] + Entries(path)[k..])
    {
      ghost var s, e := Entries(path), EntryOf(timeout);
      Link(timeout, tmp.prev, tmp, path, k);
      path := path[..k + 1] + [timeout] + path[k + 1..];
      assert Entries(path) == s[..k] + [e] + s[k..];
    }

    /** `aos_post_delayed_action` */
    method Post(now: int, ms: int, action: nat, param: nat, granted: bool) returns (ret: Status)
      requires Valid()
      modifies this`path, this`repr, this`live, this`book, repr
      ensures Valid() && fresh(repr - old(repr))
      ensures ret == if action == NO_ACTION || ms < 0 then Einval else if granted then Ok else Enomem
      ensures book == if ret == Ok then Posted(old(book), Timer(now + ms, ms, action, param)) else old(book)
    {
      hide Kept, Place, Ring, Posted, Held;
      if action == NO_ACTION || ms < 0 {
        return Einval;
      }
      if !granted {
        return Enomem;
      }
      Add(Timer(now + ms, ms, action, param));
      ret := Ok;
    }

    /** Allocates a node for the timer and links it in. */
    method Add(t: Timer)
      requires Valid()
      modifies this`path, this`repr, this`live, this`book, repr
      ensures Valid() && fresh(repr - old(repr)) && book == Posted(old(book), t)
    {
      hide Kept, Place, Ring, Held;
      AtLeastTwo(path);
      PostKeeps(book, t);
      var tmp, k := FindLater(t.deadline);
      var timeout := new Node(t, book.posts);
      HeldMore(live, path, loose, k + 1, timeout);
      Insert(timeout, tmp, k);
      repr, live, book := repr + {timeout}, live + {timeout}, Posted(book, t);
    }

    /** Takes the node at `i` out of the ring. */
    method Remove(node: Node<Timer>, ghost i: nat)
      requires Ring(path) && 0 < i < |path| - 1 && node == path[i] && path[0] == head
      requires Held(live, path, loose)
      modifies this`path, this`loose, path
      ensures Ring(path) && path[0] == head && path == old(path[..i] + path[i + 1..])
      ensures Entries(path) == Removed(old(Entries(path)), i - 1) && node.data == old(node.data)
      ensures Held(live, path, loose) && node !in old(loose) && loose == old(loose) + {node}
    {
      hide Held;
      ghost var s := Entries(path);
      HeldLess(live, path, loose, i);
      Del(node, path, i);
      path, loose := path[..i] + path[i + 1..], loose + {node};
      assert Entries(path) == Removed(s, i - 1);
    }

    /** The search of `aos_cancel_delayed_action`. */
    method FindMatch(ms: int, action: nat, param: nat) returns (tmp: Node<Timer>, ghost k: nat)
      requires Valid()
      ensures k == FirstMatch(book.pending, ms, action, param) && k + 1 < |path| && tmp == path[k + 1]
      ensures tmp == head <==> k == |book.pending|
    {
      hide Kept, FirstMatch, Matches, Held;
      ghost var s := book.pending;
      assert Linked(path, 0);
      tmp, k := head.next, 0;
      while tmp != head && !Matches(tmp.data, ms, action, param)
        invariant k + 1 < |path| && tmp == path[k + 1]
        invariant forall i :: 0 <= i < k ==> !Matches(s[i].timer, ms, action, param)
        decreases |path| - k
      {
        assert k + 1 < |path| - 1;
        assert Linked(path, k + 1) && s[k] == EntryOf(tmp);
        tmp, k := tmp.next, k + 1;
      }
      if tmp == head {
        AtEnd(path, k + 1);
      }
      FirstMatchIs(s, ms, action, param, k);
    }

    /** `aos_cancel_delayed_action` */
    method Cancel(ms: int, action: nat, param: nat)
      requires Valid()
      modifies this`path, this`live, this`loose, this`book, repr
      ensures Valid() && loose == old(loose)
      ensures var k := FirstMatch(old(book).pending, ms, action, param);
              book == if action == NO_ACTION || k == |old(book).pending| then old(book) else Cancelled(old(book), k)
    {
      hide Kept, FirstMatch, Ring, Removed, Held;
      AtLeastTwo(path);
      if action == NO_ACTION {
        return;
      }
      var tmp, k := FindMatch(ms, action, param);
      if tmp != head {
        CancelKeeps(book, k);
        Remove(tmp, k + 1);
        HeldFree(live, path, loose, tmp);
        Free(tmp);
        book := Cancelled(book, k);
      }
    }

    /** How long `aos_loop_run` lets the poll sleep: not past the first deadline, and without limit only if
        there is none. */
    method Delay(now: int) returns (ms: int)
      requires Valid()
      ensures ms == -1 <==> book.pending == []
      ensures book.pending != [] ==>
              var first := book.pending[0].timer.deadline; ms == if now < first then first - now else 0
      ensures ms != -1 ==> ms >= 0 && forall i :: 0 <= i < |book.pending| ==>
              ms == 0 || now + ms <= book.pending[i].timer.deadline
    {
      hide OlderThan, Accounted;
      assert Linked(path, 0);
      ms := -1;
      if head.next == head {
        AtEnd(path, 1);
      } else {
        ghost var s := book.pending;
        assert s[0] == EntryOf(path[1]);
        forall i | 0 <= i < |s| ensures s[0].timer.deadline <= s[i].timer.deadline {
          assert i > 0 ==> Precedes(s[0], s[i]);
        }
        var tmo := head.next;
        ms := if now < tmo.data.deadline then tmo.data.deadline - now else 0;
      }
    }

    /** The part of `aos_loop_run` that looks at the timers: the first one is taken out and called if it is
        due. The callback may post and cancel. */
    method Turn(now: int, callback: seq<Call>) returns (called: seq<Callback>)
      requires Valid() && loose == {}
      modifies this`path, this`repr, this`live, this`loose, this`book, repr
      ensures Valid() && loose == {} && fresh(repr - old(repr))
      ensures book == Handled(old(book), LoopTurn(now, callback))
      ensures if old(book).pending != [] && old(book).pending[0].timer.deadline <= now then
                var t := old(book).pending[0].timer; called == [Callback(now, t.action, t.param)]
              else called == []
    {
      hide Kept, Ring, Effects, Fired, Held;
      var tmo;
      called, tmo := TakeDue(now);
      if called != [] {
        Perform(now, callback);
        HeldFree(live, path, loose, tmo);
        Free(tmo);
      }
    }

    method TakeDue(now: int) returns (called: seq<Callback>, tmo: Node<Timer>)
      requires Valid() && loose == {}
      modifies this`path, this`loose, this`book, repr
      ensures Valid()
      ensures if Due(old(book), now) then
                var t := old(book).pending[0].timer;
                && called == [Callback(now, t.action, t.param)] && book == Fired(old(book), now) && loose == {tmo}
              else called == [] && book == old(book) && loose == {}
    {
      hide Kept, Removed, Held;
      assert Linked(path, 0);
      called, tmo := [], head.next;
      if tmo == head {
        AtEnd(path, 1);
      } else {
        assert book.pending[0] == EntryOf(path[1]);
        if now >= tmo.data.deadline {
          FireKeeps(book, now);
          Remove(tmo, 1);
          book := Fired(book, now);
          called := [Callback(now, tmo.data.action, tmo.data.param)];
        }
      }
    }

    /** Posts and cancellations, one after the other. */
    method Perform(now: int, calls: seq<Call>)
      requires Valid()
      modifies this`path, this`repr, this`live, this`loose, this`book, repr
      ensures Valid() && loose == old(loose) && fresh(repr - old(repr)) && book == Effects(old(book), now, calls)
    {
      hide Kept, Ring, Posted, Cancelled, FirstMatch, Held;
      for i := 0 to |calls|
        invariant Valid() && loose == old(loose) && fresh(repr - old(repr))
        invariant book == Effects(old(book), now, calls[..i])
      {
        assert calls[..i + 1][..i] == calls[..i];
        match calls[i] {
          case Posting(ms, action, param, granted) =>
            var _ := Post(now, ms, action, param, granted);
          case Cancelling(ms, action, param) =>
            Cancel(ms, action, param);
        }
      }
      assert calls[..|calls|] == calls;
    }

    /** The part of `aos_loop_destroy` that frees the timers. */
    method Destroy()
      requires Valid() && loose == {}
      modifies this`path, this`live, this`loose, this`book, repr
      ensures live == {head} && path == [head, head]
    {
      hide Removed, Kept, Held;
      while head.next != head
        invariant Ring(path) && path[0] == head && Covers(repr, path) && Held(live, path, loose) && loose == {}
        decreases |path|
      {
        assert Linked(path, 0);
        var timeout := head.next;
        Remove(timeout, 1);
        HeldFree(live, path, loose, timeout);
        Free(timeout);
      }
      OnlyHead(path, live, loose);
    }
  }

  lemma OnlyHead(path: seq<Node<Timer>>, live: set<Node<Timer>>, loose: set<Node<Timer>>)
    requires Ring(path) && path[0].next == path[0] && Held(live, path, loose) && loose == {}
    ensures path == [path[0], path[0]] && live == {path[0]}
  {
    assert Linked(path, 0);
    AtEnd(path, 1);
  }

  /** Any interleaving of posts, cancellations and turns of the loop, with callbacks that post and cancel:
      the callbacks made are those the script calls for, the ring holds the timers it leaves pending, sorted, no
      action is called before its deadline or while one that precedes it is pending, and every action posted is
      pending, called once, or cancelled. The nodes that are allocated are those in the ring. */
  method Run(script: seq<Event>) returns (called: seq<Callback>, loop: EventLoop)
    ensures loop.Valid() && Kept(After(EmptyBook, script)) && Held(loop.live, loop.path, {})
    ensures Entries(loop.path) == After(EmptyBook, script).pending && called == Calls(After(EmptyBook, script).fired)
  {
    hide Kept, Ring, Effect, Effects, Fired;
    loop := new EventLoop();
    called := [];
    for i := 0 to |script|
      invariant fresh(loop) && fresh(loop.repr) && loop.Valid() && loop.loose == {}
      invariant loop.book == After(EmptyBook, script[..i]) && called == Calls(loop.book.fired)
    {
      assert script[..i + 1][..i] == script[..i];
      ghost var b := loop.book;
      var more := [];
      match script[i] {
        case Outside(now, call) =>
          loop.Perform(now, [call]);
          OneEffect(b, now, call);
        case LoopTurn(now, callback) =>
          more := loop.Turn(now, callback);
      }
      HandledCalls(b, script[i]);
      called := called + more;
    }
    assert script[..|script|] == script;
    AtLeastTwo(loop.path);
  }

  lemma OneEffect(b: Book, now: int, call: Call)
    ensures Effects(b, now, [call]) == Effect(b, now, call)
  {
    assert [call][..0] == [];
    assert Effects(b, now, []) == b;
  }

  /** Posts and cancellations call nothing. */
  lemma {:induction false} EffectsCall(b: Book, now: int, calls: seq<Call>)
    ensures Effects(b, now, calls).fired == b.fired
    decreases |calls|
  {
    if calls != [] {
      EffectsCall(b, now, calls[..|calls| - 1]);
    }
  }

  lemma HandledCalls(b: Book, event: Event)
    ensures Calls(Handled(b, event).fired) ==
            Calls(b.fired) + if event.LoopTurn? && Due(b, event.now)
                then [Callback(event.now, b.pending[0].timer.action, b.pending[0].timer.param)] else []
  {
    hide Inserted, FirstMatch;
    if event.LoopTurn? && Due(b, event.now) {
      EffectsCall(Fired(b, event.now), event.now, event.callback);
    }
  }

  lemma AtLeastTwo(path: seq<Node<Timer>>)
    requires Ring(path)
    ensures |path| >= 2
  {
  }

  lemma PlaceIs(s: seq<Entry>, deadline: int, k: nat)
    requires k <= |s| && (k < |s| ==> deadline < s[k].timer.deadline)
    requires forall i :: 0 <= i < k ==> s[i].timer.deadline <= deadline
    ensures Place(s, deadline) == k
  {
  }

  lemma FirstMatchIs(s: seq<Entry>, ms: int, action: nat, param: nat, k: nat)
    requires k <= |s| && (k < |s| ==> Matches(s[k].timer, ms, action, param))
    requires forall i :: 0 <= i < k ==> !Matches(s[i].timer, ms, action, param)
    ensures FirstMatch(s, ms, action, param) == k
  {
  }

  lemma AtEnd(path: seq<Node<Timer>>, i: nat)
    requires Circle(path) && 0 < i < |path| && path[i] == path[0]
    ensures i == |path| - 1
  {
  }
}
