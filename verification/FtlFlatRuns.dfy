/** Whole error-free runs of an unprotected partition refine a flat byte array. */
module FtlFlatRuns {
  import opened Bytes
  import opened NorFlash
  import opened FtlVolume
  import opened FtlIndex
  import opened Ftl
  import opened FtlFlat
  import opened FtlRuns

  datatype FlatOp = FlatRead(addr: nat, size: nat) | FlatWrite(addr: nat, data: Bytes) | FlatErase(addr: nat, size: nat)

  datatype FlatReply = Done | Invalid | Data(data: Bytes)

  function SizeOf(op: FlatOp): nat {
    if op.FlatWrite? then |op.data| else op.size
  }

  function Cost(op: FlatOp): nat {
    if op.FlatWrite? then |op.data| else 0
  }

  /** Bytes a run writes, an upper bound on how often a version is bumped. */
  function BytesWritten(ops: seq<FlatOp>): nat {
    if ops == [] then 0
    else BytesWritten(ops[..|ops| - 1]) + Cost(ops[|ops| - 1])
  }

  /** The byte array after one operation. */
  ghost function FlatEffect(f: Bytes, base: nat, op: FlatOp): (f': Bytes)
    requires base <= op.addr
    ensures |f'| == |f|
  {
    if op.addr + SizeOf(op) > base + |f| then f
    else match op
      case FlatRead(_, _) => f
      case FlatWrite(addr, data) => Overlay(f, addr - base, data)
      case FlatErase(addr, size) => FlatErased(f, addr - base, size)
  }

  ghost function FlatAnswer(f: Bytes, base: nat, op: FlatOp): FlatReply
    requires base <= op.addr
  {
    if op.addr + SizeOf(op) > base + |f| then Invalid
    else if op.FlatRead? then Data(f[op.addr - base..op.addr - base + op.size])
    else Done
  }

  /** The byte array after a run. */
  ghost function FlatAfter(f: Bytes, base: nat, ops: seq<FlatOp>): (f': Bytes)
    requires forall i :: 0 <= i < |ops| ==> base <= ops[i].addr
    ensures |f'| == |f|
  {
    if ops == [] then f else FlatEffect(FlatAfter(f, base, ops[..|ops| - 1]), base, ops[|ops| - 1])
  }

  /** The operation sets the byte at address `base + i` of an array of `n` bytes: a write whose range covers it, or an
      erase whose range covers the whole 500-byte page that it is in. */
  predicate Sets(op: FlatOp, base: nat, n: nat, i: nat) {
    match op
    case FlatRead(_, _) => false
    case FlatWrite(addr, data) => addr + |data| <= base + n && addr <= base + i < addr + |data|
    case FlatErase(addr, size) =>
      addr + size <= base + n && addr <= base + i / 500 * 500 && base + i / 500 * 500 + 500 <= addr + size
  }

  /** After a run each byte is what the last operation that sets it has made it. */
  lemma {:induction false} FlatIsLatest(f: Bytes, base: nat, ops: seq<FlatOp>, i: nat) returns (j: int)
    requires i < |f| && forall k :: 0 <= k < |ops| ==> base <= ops[k].addr
    ensures -1 <= j < |ops| && (forall k :: j < k < |ops| ==> !Sets(ops[k], base, |f|, i))
    ensures j < 0 ==> FlatAfter(f, base, ops)[i] == f[i]
    ensures j >= 0 ==>
            && Sets(ops[j], base, |f|, i)
            && FlatAfter(f, base, ops)[i] ==
                 if ops[j].FlatWrite? then ops[j].data[base + i - ops[j].addr] else 0xFF
    decreases |ops|
  {
    j := -1;
    if ops != [] {
      var n := |ops| - 1;
      var g := FlatAfter(f, base, ops[..n]);
      OneSets(g, base, ops[n], i);
      if Sets(ops[n], base, |f|, i) {
        j := n;
      } else {
        j := FlatIsLatest(f, base, ops[..n], i);
      }
    }
  }

  lemma OneSets(f: Bytes, base: nat, op: FlatOp, i: nat)
    requires i < |f| && base <= op.addr
    ensures FlatEffect(f, base, op)[i] ==
            if !Sets(op, base, |f|, i) then f[i]
            else if op.FlatWrite? then op.data[base + i - op.addr] else 0xFF
  {
  }

  ghost predicate AnsweredAt(f: Bytes, base: nat, ops: seq<FlatOp>, replies: seq<FlatReply>, i: nat)
    requires i < |replies| <= |ops| && forall i :: 0 <= i < |ops| ==> base <= ops[i].addr
  {
    replies[i] == FlatAnswer(FlatAfter(f, base, ops[..i]), base, ops[i])
  }

  /** Every reply so far is the one the byte array `f` gives. */
  ghost predicate Answered(f: Bytes, base: nat, ops: seq<FlatOp>, replies: seq<FlatReply>)
    requires |replies| <= |ops| && forall i :: 0 <= i < |ops| ==> base <= ops[i].addr
  {
    forall i :: 0 <= i < |replies| ==> AnsweredAt(f, base, ops, replies, i)
  }

  lemma AnsweredExtend(f: Bytes, base: nat, ops: seq<FlatOp>, replies: seq<FlatReply>, reply: FlatReply)
    requires |replies| < |ops| && forall i :: 0 <= i < |ops| ==> base <= ops[i].addr
    requires Answered(f, base, ops, replies)
    requires reply == FlatAnswer(FlatAfter(f, base, ops[..|replies|]), base, ops[|replies|])
    ensures Answered(f, base, ops, replies + [reply])
  {
    forall i | 0 <= i < |replies| + 1 ensures AnsweredAt(f, base, ops, replies + [reply], i) {
      if i < |replies| {
        assert AnsweredAt(f, base, ops, replies, i);
      }
    }
  }

  /** State of a run over a healthy partition with a spare page. */
  ghost predicate Tracks(s: Tables, vnr: nat, f: Bytes, n: nat) {
    Healthy(s, vnr) && HasSpare(s, vnr) && VersionsUpTo(s.v, n) && FlatOf(s, vnr) == f
  }

  /** One operation: it answers as the byte array would, and leaves the partition tracking it. */
  method FlatStep(p: Partition, base: nat, op: FlatOp, ghost f: Bytes, ghost n: nat) returns (reply: FlatReply)
    requires p.Valid() && Losses(p.flash.plan) == 0 && base <= op.addr
    requires Tracks(p.Snap(), p.vnr, f, n) && n + Cost(op) < U32
    modifies p, p.flash, p.mapTbl, p.statTbl
    ensures p.Valid() && Losses(p.flash.plan) == 0
    ensures reply == FlatAnswer(f, base, op)
    ensures Tracks(p.Snap(), p.vnr, FlatEffect(f, base, op), n + Cost(op))
  {
    hide Tracks;
    match op {
      case FlatRead(addr, size) =>
        reply := FlatStepRead(p, base, addr, size, f, n);
      case FlatWrite(addr, data) =>
        reply := FlatStepWrite(p, base, addr, data, f, n);
      case FlatErase(addr, size) =>
        reply := FlatStepErase(p, base, addr, size, f, n);
    }
  }

  method FlatStepRead(p: Partition, base: nat, addr: nat, size: nat, ghost f: Bytes, ghost n: nat)
    returns (reply: FlatReply)
    requires p.Valid() && Losses(p.flash.plan) == 0 && base <= addr && Tracks(p.Snap(), p.vnr, f, n)
    ensures reply == FlatAnswer(f, base, FlatRead(addr, size))
  {
    var ret, data := NoProtRead(p, base, addr, size);
    reply := if ret == Ok then Data(data) else Invalid;
  }

  method FlatStepWrite(p: Partition, base: nat, addr: nat, data: Bytes, ghost f: Bytes, ghost n: nat)
    returns (reply: FlatReply)
    requires p.Valid() && Losses(p.flash.plan) == 0 && base <= addr
    requires Tracks(p.Snap(), p.vnr, f, n) && n + |data| < U32
    modifies p, p.flash, p.mapTbl, p.statTbl
    ensures p.Valid() && Losses(p.flash.plan) == 0
    ensures reply == FlatAnswer(f, base, FlatWrite(addr, data))
    ensures Tracks(p.Snap(), p.vnr, FlatEffect(f, base, FlatWrite(addr, data)), n + |data|)
  {
    hide Losses, Indexed, VersionsUpTo, Durable;
    var ret := NoProtWrite(p, base, addr, data, n);
    if ret != Ok {
      VersionsWeaken(p.flash.pages, n, n + |data|);
    }
    reply := if ret == Ok then Done else Invalid;
  }

  method FlatStepErase(p: Partition, base: nat, addr: nat, size: nat, ghost f: Bytes, ghost n: nat)
    returns (reply: FlatReply)
    requires p.Valid() && Losses(p.flash.plan) == 0 && base <= addr && Tracks(p.Snap(), p.vnr, f, n)
    modifies p.flash, p.mapTbl, p.statTbl
    ensures p.Valid() && Losses(p.flash.plan) == 0
    ensures reply == FlatAnswer(f, base, FlatErase(addr, size))
    ensures Tracks(p.Snap(), p.vnr, FlatEffect(f, base, FlatErase(addr, size)), n)
  {
    hide Losses, Indexed, Durable, FlatErased, Covered;
    ErasedIsBlank();
    var ret := NoProtErase(p, base, addr, size);
    reply := if ret == Ok then Done else Invalid;
  }

  /** Refinement over a whole run. Starting from a volume without tags, every answer is the one a byte
      array that starts as 0xFF would give, and a fresh mount at the end rebuilds the same map. */
  method FlatRun(flash: FlashDevice, vnr: nat, base: nat, ops: seq<FlatOp>)
    returns (replies: seq<FlatReply>, p: Partition, q: Partition)
    requires vnr + 1 <= |flash.pages| < NIL && Losses(flash.plan) == 0
    requires forall r :: 0 <= r < |flash.pages| ==> !HasHead(flash.pages[r])
    requires BytesWritten(ops) < U32 && forall i :: 0 <= i < |ops| ==> base <= ops[i].addr
    modifies flash
    ensures |replies| == |ops| && Answered(Blank(vnr * DATA_SIZE), base, ops, replies)
    ensures p.Valid() && p.vnr == vnr && FlatOf(p.Snap(), vnr) == FlatAfter(Blank(vnr * DATA_SIZE), base, ops)
    ensures q.flash == p.flash && q.Valid() && q.mapTbl[..] == p.mapTbl[..]
  {
    ghost var blank := Blank(vnr * DATA_SIZE);
    p := StartBlank(flash, vnr);
    replies := [];
    for i := 0 to |ops|
      invariant p.flash == flash && p.vnr == vnr && p.Valid() && Losses(flash.plan) == 0
      invariant fresh(p) && fresh(p.mapTbl) && fresh(p.statTbl)
      invariant |replies| == i && Answered(blank, base, ops, replies)
      invariant Tracks(p.Snap(), vnr, FlatAfter(blank, base, ops[..i]), BytesWritten(ops[..i]))
    {
      BytesWrittenPrefix(ops, i + 1);
      assert ops[..i + 1][..i] == ops[..i];
      var reply := FlatStep(p, base, ops[i], FlatAfter(blank, base, ops[..i]), BytesWritten(ops[..i]));
      AnsweredExtend(blank, base, ops, replies, reply);
      replies := replies + [reply];
    }
    assert ops[..|ops|] == ops;
    q := RemountRebuildsMap(p);
  }

  /** The first mount of a volume without tags. */
  method StartBlank(flash: FlashDevice, vnr: nat) returns (p: Partition)
    requires vnr + 1 <= |flash.pages| < NIL
    requires forall r :: 0 <= r < |flash.pages| ==> !HasHead(flash.pages[r])
    ensures fresh(p) && fresh(p.mapTbl) && fresh(p.statTbl) && p.flash == flash && p.vnr == vnr && p.Valid()
    ensures Tracks(p.Snap(), vnr, Blank(vnr * DATA_SIZE), 0)
  {
    BlankVolume(flash.pages, vnr);
    ghost var c := seq(vnr, _ => Blank(DATA_SIZE));
    assert Flat(c) == Blank(vnr * DATA_SIZE);
    p := Mount(flash, vnr);
    assert Stores(p.flash.pages, c);
  }

  lemma BytesWrittenPrefix(ops: seq<FlatOp>, k: nat)
    requires k <= |ops|
    ensures BytesWritten(ops[..k]) <= BytesWritten(ops)
  {
    if k == |ops| {
      assert ops[..k] == ops;
    } else {
      BytesWrittenPrefix(ops[..|ops| - 1], k);
      assert ops[..|ops| - 1][..k] == ops[..k];
    }
  }
}
