/** Whole runs of a power-fail protected partition: any script of writes, reads and remounts, with the
    power going at any flash calls the oracle chooses, and a remount after each loss. */
module FtlRuns {
  import opened Bytes
  import opened NorFlash
  import opened FtlVolume
  import opened FtlIndex
  import opened FtlSpare
  import opened Ftl
  import opened FtlFlat
  import opened FtlAddresses

  /** `eftl_init` for one partition: build the tables from the flash. */
  method Mount(flash: FlashDevice, vnr: nat) returns (p: Partition)
    requires vnr <= |flash.pages| < NIL && WellFormed(flash.pages, vnr)
    ensures fresh(p) && fresh(p.mapTbl) && fresh(p.curVerTbl) && fresh(p.statTbl)
    ensures p.flash == flash && p.vnr == vnr && p.Valid() && MountStep(p.Snap(), vnr)
  {
    p := new Partition(flash, vnr);
    p.CreateTable();
  }

  /** A fresh mount of a durable volume rebuilds the live map. */
  method RemountRebuildsMap(p: Partition) returns (q: Partition)
    requires p.Valid() && Durable(p.flash.pages, p.mapTbl[..], p.vnr)
    ensures q.flash == p.flash && q.Valid() && q.mapTbl[..] == p.mapTbl[..]
    ensures Logical(q.Snap(), q.vnr) == Logical(p.Snap(), p.vnr)
  {
    ghost var s := p.Snap();
    DurableStores(s.v, s.m, s.st, p.vnr);
    q := Mount(p.flash, p.vnr);
    assert Stores(q.flash.pages, Logical(s, p.vnr));
    DurableMapIsUnique(s.v, s.m, s.st, q.mapTbl[..], q.statTbl[..], p.vnr);
  }

  /** `eftl_prot_addr_check`: inside the partition and inside the data part of one page. */
  predicate InPage(base: nat, vnr: nat, addr: nat, size: nat) {
    addr < base + vnr * PAGE_SIZE && addr + size <= addr - addr % PAGE_SIZE + DATA_SIZE
  }

  /** Logical page and offset of a protected address. */
  function PageOf(base: nat, addr: nat): nat
    requires base <= addr
  {
    addr / PAGE_SIZE - base / PAGE_SIZE
  }

  function OffsetOf(addr: nat): nat {
    addr % PAGE_SIZE
  }

  lemma PageInRange(base: nat, vnr: nat, addr: nat, size: nat)
    requires base % PAGE_SIZE == 0 && base <= addr && InPage(base, vnr, addr, size)
    ensures PageOf(base, addr) < vnr && OffsetOf(addr) + size <= DATA_SIZE
  {
    assert base == base / PAGE_SIZE * PAGE_SIZE;
  }

  /** A request is accepted exactly if its addresses lie in the data part of one page, and that is the page it goes
      to. */
  lemma AddressesFit(base: nat, vnr: nat, addr: nat, size: nat)
    requires base % PAGE_SIZE == 0 && base <= addr
    ensures InPage(base, vnr, addr, size) <==> Accepted(base, vnr, addr, size)
    ensures InPage(base, vnr, addr, size) ==>
            PageOf(base, addr) < vnr && addr == base + PageOf(base, addr) * 512 + OffsetOf(addr)
  {
    var k := PageOf(base, addr);
    assert addr == base + k * 512 + OffsetOf(addr);
    if InPage(base, vnr, addr, size) {
      PageInRange(base, vnr, addr, size);
      assert InsidePage(base, k, addr, size);
    }
    if Accepted(base, vnr, addr, size) {
      var k': nat :| k' < vnr && InsidePage(base, k', addr, size);
      assert k' * 512 <= k * 512 + OffsetOf(addr) <= k' * 512 + 500;
      assert k' == k;
    }
  }

  /** There is a byte of the pages at address `a`. */
  predicate Addressed(base: nat, c: seq<Bytes>, a: nat) {
    base <= a < base + |c| * 512 && (a - base) % 512 < |c[(a - base) / 512]|
  }

  function ByteAt(base: nat, c: seq<Bytes>, a: nat): byte
    requires Addressed(base, c, a)
  {
    c[(a - base) / 512][(a - base) % 512]
  }

  /** The memory that the pages make up. */
  function Image(base: nat, c: seq<Bytes>): Memory {
    map a: nat | a < base + |c| * 512 && Addressed(base, c, a) :: ByteAt(base, c, a)
  }

  lemma PlaceOf(base: nat, c: seq<Bytes>, k: nat, j: nat)
    requires PageSized(c) && k < |c| && j < DATA_SIZE
    ensures var a := base + k * 512 + j; Addressed(base, c, a) && ByteAt(base, c, a) == c[k][j]
  {
    var a := base + k * 512 + j;
    assert (a - base) / 512 == k && (a - base) % 512 == j;
  }

  lemma AddressedInPage(base: nat, c: seq<Bytes>, a: nat) returns (k: nat, j: nat)
    requires PageSized(c) && Addressed(base, c, a)
    ensures k < |c| && j < DATA_SIZE && a == base + k * 512 + j && ByteAt(base, c, a) == c[k][j]
  {
    k, j := (a - base) / 512, (a - base) % 512;
  }

  lemma ImageShows(base: nat, c: seq<Bytes>)
    requires PageSized(c)
    ensures Shows(base, c, Image(base, c))
  {
    hide Addressed, ByteAt;
    var m := Image(base, c);
    forall k, j | 0 <= k < |c| && 0 <= j < |c[k]| ensures base + k * 512 + j in m && m[base + k * 512 + j] == c[k][j] {
      PlaceOf(base, c, k, j);
    }
    forall a | a in m ensures Accepted(base, |c|, a, 1) {
      var k, j := AddressedInPage(base, c, a);
      assert InsidePage(base, k, a, 1);
    }
  }

  /** A page written is a range of addresses patched. */
  lemma PageIsPatched(base: nat, c: seq<Bytes>, lp: nat, off: nat, data: Bytes)
    requires PageSized(c) && lp < |c| && off + |data| <= DATA_SIZE
    ensures Image(base, c[lp := Overlay(c[lp], off, data)]) == Patched(Image(base, c), base + lp * 512 + off, data)
  {
    hide Addressed, ByteAt;
    var c', addr := c[lp := Overlay(c[lp], off, data)], base + lp * 512 + off;
    forall a: nat
      ensures Addressed(base, c', a) <==> Addressed(base, c, a)
      ensures Addressed(base, c, a) && Addressed(base, c', a) ==>
              ByteAt(base, c', a) == if addr <= a < addr + |data| then data[a - addr] else ByteAt(base, c, a)
    {
      if Addressed(base, c, a) {
        var k, j := AddressedInPage(base, c, a);
        PlaceOf(base, c', k, j);
      }
      if Addressed(base, c', a) {
        var k, j := AddressedInPage(base, c', a);
        PlaceOf(base, c, k, j);
      }
    }
  }

  /** A page read is a range of addresses read. */
  lemma PageIsRead(base: nat, c: seq<Bytes>, lp: nat, off: nat, data: Bytes, addr: nat)
    requires PageSized(c) && lp < |c| && off + |data| <= DATA_SIZE && addr == base + lp * 512 + off
    requires data == c[lp][off..off + |data|]
    ensures Reads(Image(base, c), addr, data)
  {
    hide Addressed, ByteAt;
    forall i | 0 <= i < |data| ensures Has(Image(base, c), addr + i, data[i]) {
      PlaceOf(base, c, lp, off + i);
      assert addr + i == base + lp * 512 + (off + i);
    }
  }

  /** What one command may do to the logical contents, and what it may answer. A write that power
      interrupts leaves its page wholly old or wholly new, and every other page alone. */
  ghost predicate Explains(base: nat, c: seq<Bytes>, cmd: Command, reply: Reply, c': seq<Bytes>)
    requires base % PAGE_SIZE == 0 && PageSized(c) && (!cmd.Remount? ==> base <= cmd.addr)
  {
    match cmd
    case Remount => reply == Remounted && c' == c
    case Read(addr, size) =>
      c' == c &&
      if InPage(base, |c|, addr, size) then
        PageInRange(base, |c|, addr, size);
        var off := OffsetOf(addr);
        reply == Got(c[PageOf(base, addr)][off..off + size])
      else reply == Refused
    case Write(addr, data) =>
      if InPage(base, |c|, addr, |data|) then
        PageInRange(base, |c|, addr, |data|);
        var lp := PageOf(base, addr);
        var written := c[lp := Overlay(c[lp], OffsetOf(addr), data)];
        match reply
        case Wrote => c' == written
        case NoSpace => c' == c
        case Interrupted => c' == c || c' == written
        case _ => false
      else reply == Refused && c' == c
  }

  /** Seen by address, a command does what the pages say. */
  lemma ExplainsObeys(base: nat, c: seq<Bytes>, cmd: Command, reply: Reply, c': seq<Bytes>)
    requires base % PAGE_SIZE == 0 && PageSized(c) && (!cmd.Remount? ==> base <= cmd.addr)
    requires Explains(base, c, cmd, reply, c')
    ensures Obeys(base, |c|, Image(base, c), cmd, reply, Image(base, c'))
  {
    hide Image, InPage, Accepted, PageOf, OffsetOf;
    match cmd {
      case Remount =>
      case Read(addr, size) =>
        AddressesFit(base, |c|, addr, size);
        if InPage(base, |c|, addr, size) {
          PageInRange(base, |c|, addr, size);
          PageIsRead(base, c, PageOf(base, addr), OffsetOf(addr), reply.data, addr);
        }
      case Write(addr, data) =>
        AddressesFit(base, |c|, addr, |data|);
        if InPage(base, |c|, addr, |data|) {
          PageInRange(base, |c|, addr, |data|);
          PageIsPatched(base, c, PageOf(base, addr), OffsetOf(addr), data);
        }
    }
  }

  /** The mounted partition holds `c`, on flash and through its tables. */
  ghost predicate Settled(s: Tables, vnr: nat, c: seq<Bytes>, n: nat) {
    Mounted(s, vnr) && Durable(s.v, s.m, vnr) && |c| == vnr && Logical(s, vnr) == c && Stores(s.v, c)
        && VersionsUpTo(s.v, n)
  }

  /** One command on a mounted partition; after a loss of power the partition is mounted again. */
  method Step(p: Partition, base: nat, cmd: Command, ghost c: seq<Bytes>, ghost n: nat)
    returns (q: Partition, reply: Reply, ghost c': seq<Bytes>)
    requires base % PAGE_SIZE == 0 && (!cmd.Remount? ==> base <= cmd.addr)
    requires p.Valid() && Settled(p.Snap(), p.vnr, c, n) && n + 1 < U32
    modifies p, p.flash, p.mapTbl, p.statTbl
    ensures q == p || (fresh(q) && fresh(q.mapTbl) && fresh(q.curVerTbl) && fresh(q.statTbl))
    ensures q.flash == p.flash && q.vnr == p.vnr && |q.flash.pages| == |old(p.flash.pages)|
    ensures q.Valid() && Settled(q.Snap(), q.vnr, c', n + 1)
    ensures PageSized(c) && PageSized(c') && Explains(base, c, cmd, reply, c')
    ensures Obeys(base, |c|, Image(base, c), cmd, reply, Image(base, c'))
    ensures Losses(q.flash.plan) + Lost(reply != Interrupted) == old(Losses(p.flash.plan))
    ensures old(HasSpare(p.Snap(), p.vnr)) ==> reply != NoSpace && HasSpare(q.Snap(), q.vnr)
  {
    hide Image, Obeys;
    q, c' := p, c;
    ghost var s := p.Snap();
    match cmd {
      case Remount =>
        q := Mount(p.flash, p.vnr);
        reply := Remounted;
      case Read(addr, size) =>
        if InPage(base, p.vnr, addr, size) {
          PageInRange(base, p.vnr, addr, size);
          var data := p.ReadData(PageOf(base, addr), OffsetOf(addr), size);
          reply := Got(data);
        } else {
          reply := Refused;
        }
      case Write(addr, data) =>
        if InPage(base, p.vnr, addr, |data|) {
          PageInRange(base, p.vnr, addr, |data|);
          q, reply, c' := StepWrite(p, PageOf(base, addr), OffsetOf(addr), data, c, n);
        } else {
          reply := Refused;
        }
    }
    ExplainsObeys(base, c, cmd, reply, c');
  }

  /** `eftl_pwr_down_prot_write` past its address check. */
  method StepWrite(p: Partition, lp: nat, off: nat, data: Bytes, ghost c: seq<Bytes>, ghost n: nat)
    returns (q: Partition, reply: Reply, ghost c': seq<Bytes>)
    requires p.Valid() && Settled(p.Snap(), p.vnr, c, n) && n + 1 < U32
    requires lp < p.vnr && off + |data| <= DATA_SIZE
    modifies p, p.flash, p.mapTbl, p.statTbl
    ensures q == p || (fresh(q) && fresh(q.mapTbl) && fresh(q.curVerTbl) && fresh(q.statTbl))
    ensures q.flash == p.flash && q.vnr == p.vnr && |q.flash.pages| == |old(p.flash.pages)|
    ensures q.Valid() && Settled(q.Snap(), q.vnr, c', n + 1)
    ensures PageSized(c) && |c'| == |c|
    ensures reply in {Wrote, NoSpace, Interrupted}
    ensures Losses(q.flash.plan) + Lost(reply != Interrupted) == old(Losses(p.flash.plan))
    ensures reply == Wrote ==> c' == c[lp := Overlay(c[lp], off, data)]
    ensures reply == NoSpace ==> c' == c
    ensures reply == Interrupted ==> c' == c || c' == c[lp := Overlay(c[lp], off, data)]
    ensures old(HasSpare(p.Snap(), p.vnr)) ==> reply != NoSpace && HasSpare(q.Snap(), q.vnr)
  {
    ghost var s := p.Snap();
    ghost var written := c[lp := Overlay(c[lp], off, data)];
    if HasSpare(s, p.vnr) {
      SpareIsEnough(s.v, s.m, s.st, p.vnr, s.last);
    }
    var ret := p.WritePage(lp, off, data, n);
    q := p;
    match ret {
      case Ok =>
        reply, c' := Wrote, written;
        DurableStores(p.Snap().v, p.Snap().m, p.Snap().st, p.vnr);
      case Eio =>
        reply, c' := NoSpace, c;
        DurableStores(p.Snap().v, p.Snap().m, p.Snap().st, p.vnr);
      case FlashFailed =>
        reply := Interrupted;
        c' := if Stores(p.flash.pages, c) then c else written;
        q := Mount(p.flash, p.vnr);
    }
  }

  /** Command `i` turned `history[i]` into `history[i + 1]` in a way its reply allows. */
  ghost predicate LegalAt(base: nat, script: seq<Command>, replies: seq<Reply>, history: seq<seq<Bytes>>, i: nat)
    requires base % PAGE_SIZE == 0 && i < |replies| <= |script| && |history| == |replies| + 1
  {
    && PageSized(history[i]) && (!script[i].Remount? ==> base <= script[i].addr)
    && Explains(base, history[i], script[i], replies[i], history[i + 1])
  }

  /** `history` explains the replies to the first commands of the script. */
  ghost predicate Legal(base: nat, script: seq<Command>, replies: seq<Reply>, history: seq<seq<Bytes>>)
    requires base % PAGE_SIZE == 0
  {
    && |replies| <= |script| && |history| == |replies| + 1
    && (forall i :: 0 <= i < |replies| ==> LegalAt(base, script, replies, history, i))
  }

  lemma LegalExtend(base: nat, script: seq<Command>, replies: seq<Reply>, history: seq<seq<Bytes>>, reply: Reply,
                    c': seq<Bytes>)
    requires base % PAGE_SIZE == 0 && Legal(base, script, replies, history) && |replies| < |script|
    requires var cmd := script[|replies|];
             && PageSized(history[|replies|]) && (!cmd.Remount? ==> base <= cmd.addr)
             && Explains(base, history[|replies|], cmd, reply, c')
    ensures Legal(base, script, replies + [reply], history + [c'])
  {
    var rs, h := replies + [reply], history + [c'];
    forall i | 0 <= i < |rs| ensures LegalAt(base, script, rs, h, i) {
      if i < |replies| {
        assert LegalAt(base, script, replies, history, i);
        assert h[i] == history[i] && h[i + 1] == history[i + 1] && rs[i] == replies[i];
      }
    }
  }

  /** The number of interrupted commands. */
  function Interruptions(replies: seq<Reply>): nat {
    if replies == [] then 0 else Interruptions(replies[..|replies| - 1]) + Lost(replies[|replies| - 1] != Interrupted)
  }

  lemma {:induction false} NoInterruption(replies: seq<Reply>)
    requires Interruptions(replies) == 0
    ensures Interrupted !in replies
    decreases |replies|
  {
    if replies != [] {
      var n := |replies| - 1;
      NoInterruption(replies[..n]);
      assert replies == replies[..n] + [replies[n]];
    }
  }

  /** The memories behind a history of contents. */
  ghost function Images(base: nat, history: seq<seq<Bytes>>): seq<Memory> {
    seq(|history|, i requires 0 <= i < |history| => Image(base, history[i]))
  }

  /** Seen by address, a run is one of a memory. */
  lemma LegalFollows(base: nat, vnr: nat, script: seq<Command>, replies: seq<Reply>, history: seq<seq<Bytes>>)
    requires base % PAGE_SIZE == 0 && |replies| == |script| && Legal(base, script, replies, history)
    requires forall i :: 0 <= i < |history| ==> |history[i]| == vnr
    ensures Follows(base, vnr, script, replies, Images(base, history))
    ensures forall i :: 0 <= i < |script| ==> ReadsLatest(script, replies, Image(base, history[0]), i)
  {
    hide Image, Explains, Obeys, ReadsLatest;
    var mems := Images(base, history);
    forall i | 0 <= i < |replies| ensures Obeys(base, vnr, mems[i], script[i], replies[i], mems[i + 1]) {
      assert LegalAt(base, script, replies, history, i);
      ExplainsObeys(base, history[i], script[i], replies[i], history[i + 1]);
    }
    forall i | 0 <= i < |script| ensures ReadsLatest(script, replies, Image(base, history[0]), i) {
      ReadsAreLatest(base, vnr, script, replies, mems, i);
    }
  }

  lemma StoresPages(v: Volume, c: seq<Bytes>)
    requires Stores(v, c)
    ensures PageSized(c)
  {
    forall lp | 0 <= lp < |c| ensures |c[lp]| == DATA_SIZE {
      assert Holds(v, lp, c[lp]);
    }
  }

  /** Power-fail atomicity over a whole run. Whatever the script, and whatever flash calls the power
      fails at, there is a history of logical contents, starting from what the volume stored, in which
      every command does what `Explains` allows; the volume stores the last of them. Seen by address, every
      read returns for each of its addresses the byte of the last write that covers it. Exactly as many
      commands are interrupted as the power goes during the run, none if it does not go. With a spare page
      no write is ever turned away for want of space. */
  method Run(flash: FlashDevice, vnr: nat, base: nat, script: seq<Command>, ghost c: seq<Bytes>, ghost n: nat)
    returns (replies: seq<Reply>, ghost history: seq<seq<Bytes>>)
    requires vnr <= |flash.pages| < NIL && base % PAGE_SIZE == 0
    requires |c| == vnr && Stores(flash.pages, c) && VersionsUpTo(flash.pages, n) && n + |script| < U32
    requires forall i :: 0 <= i < |script| && !script[i].Remount? ==> base <= script[i].addr
    modifies flash
    ensures |replies| == |script| && Legal(base, script, replies, history) && history[0] == c
    ensures Stores(flash.pages, history[|script|])
    ensures Shows(base, c, Image(base, c)) && Follows(base, vnr, script, replies, Images(base, history))
    ensures forall i :: 0 <= i < |script| ==> ReadsLatest(script, replies, Image(base, c), i)
    ensures |flash.pages| >= vnr + 1 ==> NoSpace !in replies
    ensures Losses(flash.plan) + Interruptions(replies) == old(Losses(flash.plan))
    ensures old(Losses(flash.plan)) == 0 ==> Interrupted !in replies
  {
    hide Losses, Explains, Indexed, Durable, Contents, HasHead, LogicPage, Ver, Holds, LegalAt, Image, Obeys, Shows,
      ReadsLatest;
    var p := Mount(flash, vnr);
    replies, history := [], [c];
    StoresPages(flash.pages, c);
    ghost var spare := |flash.pages| >= vnr + 1;
    for i := 0 to |script|
      invariant p.flash == flash && p.vnr == vnr && |flash.pages| == old(|flash.pages|)
      invariant fresh(p) && fresh(p.mapTbl) && fresh(p.curVerTbl) && fresh(p.statTbl)
      invariant |replies| == i && Legal(base, script, replies, history) && history[0] == c
      invariant forall k :: 0 <= k < |history| ==> |history[k]| == vnr && PageSized(history[k])
      invariant p.Valid() && Settled(p.Snap(), vnr, history[i], n + i)
      invariant spare ==> HasSpare(p.Snap(), vnr) && NoSpace !in replies
      invariant Losses(flash.plan) + Interruptions(replies) == old(Losses(flash.plan))
    {
      ghost var c';
      var reply;
      p, reply, c' := Step(p, base, script[i], history[i], n + i);
      LegalExtend(base, script, replies, history, reply, c');
      assert (replies + [reply])[..i] == replies;
      replies, history := replies + [reply], history + [c'];
    }
    LegalFollows(base, vnr, script, replies, history);
    ImageShows(base, c);
    if Interruptions(replies) == 0 {
      NoInterruption(replies);
    }
  }

  /** A blank volume is mounted with nothing mapped and nothing free. */
  method MountBlank(n: nat, vnr: nat) returns (p: Partition)
    requires vnr <= n < NIL
    ensures fresh(p) && fresh(p.flash) && fresh(p.mapTbl) && fresh(p.curVerTbl) && fresh(p.statTbl)
    ensures p.vnr == vnr && p.flash.pages == seq(n, _ => Erased) && p.flash.plan == [] && p.Valid()
    ensures Settled(p.Snap(), vnr, seq(vnr, _ => Blank(DATA_SIZE)), 0)
    ensures SpareReachable(p.mapTbl[..], p.statTbl[..], p.lastFreePage, vnr)
    ensures p.lastFreePage == 0 && forall q :: 0 <= q < n ==> p.statTbl[q] == Dirty
    ensures forall lp :: 0 <= lp < n ==> p.mapTbl[lp] == NIL
  {
    ErasedIsBlank();
    var flash := new FlashDevice(seq(n, _ => Erased), []);
    BlankVolume(flash.pages, vnr);
    p := Mount(flash, vnr);
  }

  /** Whatever the first write of the only logical page of a blank volume does with the spare page, the
      page is at hand for the next write. */
  lemma SpareAtHand(s: Tables, s': Tables)
    requires |s.st| == |s.m| == 2 && s.st[0] == s.st[1] == Dirty && HandedOut(s, s', 0)
    ensures AtHand(s'.st, s'.last) && s'.m[0] < 2
  {
    var f: nat :| Candidate(s.st, s.last, f) && s'.last == f + 1 && s'.m == s.m[0 := f]
        && s'.st == Collected(s.st)[f := Used];
    assert s'.st[1 - f] == Free;
  }

  /** On a volume of two pages, `q` holds an old copy of logical page 0 with data `a`, the other page a newer
      one. */
  ghost predicate StaleBeside(v: Volume, q: nat, a: Bytes) {
    && |v| == 2 && q < 2 && Tagged(v[q], 0) && Data(v[q]) == a && Ver(v[q]) >= 1
    && Tagged(v[1 - q], 0) && Ver(v[q]) < Ver(v[1 - q])
  }

  lemma NewerIsMapped(s: Tables, q: nat, a: Bytes)
    requires StaleBeside(s.v, q, a) && MountStep(s, 1)
    ensures s.m[0] == 1 - q
  {
    hide HasHead, LogicPage, Ver, Data;
    var v, c := s.v, [Data(s.v[1 - q])];
    assert Newest(v, 0, 1 - q);
    assert Stores(v, c) by {
      assert Holds(v, 0, c[0]);
    }
    assert !Absent(v, 0);
    assert Newest(v, 0, s.m[0]);
  }

  lemma OlderComesBack(s: Tables, s': Tables, q: nat, a: Bytes)
    requires StaleBeside(s.v, q, a) && MountStep(s, 1) && s.m[0] == 1 - q
    requires s'.v == s.v[1 - q := Erased] && MountStep(s', 1)
    ensures s'.m[0] != NIL && Logical(s', 1)[0] == a
  {
    hide HasHead, LogicPage, Ver, Data;
    EraseSurvivesRemount(s.v, s.m, s.st, 1, 0, s');
    ErasedIsBlank();
    assert Tagged(s'.v[s'.m[0]], 0);
  }

  lemma UpdateLeavesStale(s: Tables, v': Volume, a: Bytes, d: Bytes)
    requires |s.v| == 2 && Mounted(s, 1) && s.m[0] != NIL && Logical(s, 1) == [a] && Durable(s.v, s.m, 1)
    requires VersionsUpTo(s.v, 1)
    requires Superseded(s.v, v', s.m[0], 0, d)
    ensures StaleBeside(v', s.m[0], a)
  {
    hide HasHead, LogicPage, Ver, Data;
    assert Newest(s.v, 0, s.m[0]);
    assert Logical(s, 1)[0] == a;
    var f: nat, p: Page :| f < |s.v| && f != s.m[0] && v' == s.v[f := p] && Tagged(p, 0)
        && Ver(p) == (Ver(s.v[s.m[0]]) + 1) % U32;
    assert v'[1 - s.m[0]] == p;
  }

  /** A page is written and rewritten, and the power goes at the erase of the old copy. */
  method StrandOldCopy(a: Bytes, b: Bytes) returns (flash: FlashDevice, ghost q: nat)
    requires |a| == |b| == DATA_SIZE
    ensures fresh(flash) && flash.plan == [] && StaleBeside(flash.pages, q, a)
  {
    hide HasHead, LogicPage, Ver, Data, Stores, Superseded, StaleBeside, HandedOut, AtHand, BlankTag;
    var p := MountBlank(2, 1);
    flash := p.flash;
    ghost var s := p.Snap();
    SpareIsEnough(s.v, s.m, s.st, 1, s.last);
    var ret := p.WritePage(0, 0, a, 0);
    WholePage(Blank(DATA_SIZE), a);
    ghost var t := p.Snap();
    SpareAtHand(s, t);
    assert Logical(t, 1) == [a];
    flash.plan := [Success, Success, PowerLost(false, Erased)];
    ret := p.WritePage(0, 0, b, 1);
    q := t.m[0];
    UpdateLeavesStale(t, flash.pages, a, Overlay(a, 0, b));
  }

  /** A logical erase can be undone. A page is written and rewritten, and the power goes at the erase of the
      old copy; after a mount the page is erased, and the next mount reads the first data again. */
  method ErasedPageComesBack(a: Bytes, b: Bytes) returns (p: Partition, data: Bytes)
    requires |a| == |b| == DATA_SIZE
    ensures p.Valid() && p.vnr == 1 && p.mapTbl[0] != NIL && data == a
  {
    hide HasHead, LogicPage, Ver, Data, Stores, StaleBeside, BlankTag;
    var flash, q := StrandOldCopy(a, b);
    StaleIsWellFormed(flash.pages, q, a);
    p := Mount(flash, 1);
    ghost var s := p.Snap();
    NewerIsMapped(s, q, a);
    var ret := p.ErasePage(0);
    EraseIsWellFormed(s.v, 1 - q, 1);
    p := Mount(flash, 1);
    OlderComesBack(s, p.Snap(), q, a);
    data := p.ReadData(0, 0, DATA_SIZE);
    WholePage(a, a);
  }

  lemma StaleIsWellFormed(v: Volume, q: nat, a: Bytes)
    requires StaleBeside(v, q, a)
    ensures |v| == 2 && q < 2 && WellFormed(v, 1)
  {
  }

  lemma EraseIsWellFormed(v: Volume, q: nat, vnr: nat)
    requires WellFormed(v, vnr) && q < |v|
    ensures WellFormed(v[q := Erased], vnr)
  {
    ErasedIsBlank();
  }

  lemma WholePage(p: Bytes, d: Bytes)
    requires |p| == |d|
    ensures Overlay(p, 0, d) == d && d[0..|d|] == d
  {
  }

  /** Without a spare page a volume fills up: on one page the first write succeeds and the second is turned
      away. */
  method OnePageVolumeFills(a: Bytes, b: Bytes) returns (first: Status, second: Status)
    requires |a| == |b| == DATA_SIZE
    ensures first == Ok && second == Eio
  {
    hide HasHead, LogicPage, Ver, Data, Stores, BlankTag;
    var p := MountBlank(1, 1);
    ghost var s := p.Snap();
    assert Candidate(s.st, s.last, 0);
    first := p.WritePage(0, 0, a, 0);
    ghost var t := p.Snap();
    assert forall i: nat :: !Candidate(t.st, t.last, i);
    second := p.WritePage(0, 0, b, 1);
  }
}
