/** What a power-fail protected partition is to its users: bytes at addresses. Each page takes up 512 addresses from
    `base` on, of which the first 500 hold data. */
module FtlAddresses {
  import opened Bytes

  datatype Command = Write(addr: nat, data: Bytes) | Read(addr: nat, size: nat) | Remount

  datatype Reply = Wrote | Refused | NoSpace | Interrupted | Got(data: Bytes) | Remounted

  type Memory = map<nat, byte>

  /** The addresses from `addr` on lie in the data part of page `k`. */
  predicate InsidePage(base: nat, k: nat, addr: nat, size: nat) {
    base + k * 512 <= addr && addr + size <= base + k * 512 + 500
  }

  /** The addresses lie in the data part of one of `vnr` pages. */
  ghost predicate Accepted(base: nat, vnr: nat, addr: nat, size: nat) {
    exists k: nat :: k < vnr && InsidePage(base, k, addr, size)
  }

  /** The memory has the bytes of the pages at their addresses, and nothing else. */
  ghost predicate Shows(base: nat, c: seq<Bytes>, m: Memory) {
    && (forall k, j :: 0 <= k < |c| && 0 <= j < |c[k]| ==>
          base + k * 512 + j in m && m[base + k * 512 + j] == c[k][j])
    && (forall a :: a in m ==> Accepted(base, |c|, a, 1))
  }

  function Patched(m: Memory, addr: nat, data: Bytes): Memory {
    map a | a in m :: if addr <= a < addr + |data| then data[a - addr] else m[a]
  }

  predicate Has(m: Memory, a: nat, b: byte) {
    a in m && m[a] == b
  }

  ghost predicate Reads(m: Memory, addr: nat, data: Bytes) {
    forall i :: 0 <= i < |data| ==> Has(m, addr + i, data[i])
  }

  /** What one command may do to the memory, and what it may answer. */
  ghost predicate Obeys(base: nat, vnr: nat, m: Memory, cmd: Command, reply: Reply, m': Memory) {
    match cmd
    case Remount => reply == Remounted && m' == m
    case Read(addr, size) =>
      && m' == m
      && (if Accepted(base, vnr, addr, size) then reply.Got? && |reply.data| == size && Reads(m, addr, reply.data)
          else reply == Refused)
    case Write(addr, data) =>
      if Accepted(base, vnr, addr, |data|) then
        match reply
        case Wrote => m' == Patched(m, addr, data)
        case NoSpace => m' == m
        case Interrupted => m' == m || m' == Patched(m, addr, data)
        case _ => false
      else reply == Refused && m' == m
  }

  /** The memories of a run: each command turns one into the next. */
  ghost predicate Follows(base: nat, vnr: nat, script: seq<Command>, replies: seq<Reply>, mems: seq<Memory>) {
    && |replies| == |script| && |mems| == |replies| + 1
    && forall i :: 0 <= i < |replies| ==> Obeys(base, vnr, mems[i], script[i], replies[i], mems[i + 1])
  }

  /** Command `i` wrote to address `a`, or may have. */
  predicate Touches(script: seq<Command>, replies: seq<Reply>, i: nat, a: nat, surely: bool)
    requires i < |script| == |replies|
  {
    && script[i].Write? && script[i].addr <= a < script[i].addr + |script[i].data|
    && (replies[i] == Wrote || (!surely && replies[i] == Interrupted))
  }

  /** In front of command `i` address `a` holds what command `j` wrote there, and no later command surely wrote
      there; or it still holds the byte it started with. */
  ghost predicate FromCommand(script: seq<Command>, replies: seq<Reply>, m: Memory, i: nat, a: nat, b: byte, j: int)
    requires i <= |script| == |replies| && a in m && -1 <= j < i
  {
    && (forall x :: j < x < i ==> !Touches(script, replies, x, a, true))
    && (if j < 0 then b == m[a] else Touches(script, replies, j, a, false) && b == script[j].data[a - script[j].addr])
  }

  /** In front of command `i` address `a` holds the byte of the last write that covers it, or the byte it had at
      first. */
  ghost predicate Latest(script: seq<Command>, replies: seq<Reply>, m: Memory, i: nat, a: nat, b: byte)
    requires i <= |script| == |replies|
  {
    a in m && exists j :: -1 <= j < i && FromCommand(script, replies, m, i, a, b, j)
  }

  lemma {:induction false} MemoryIsLatest(base: nat, vnr: nat, script: seq<Command>, replies: seq<Reply>,
                                          mems: seq<Memory>, i: nat, a: nat)
    requires Follows(base, vnr, script, replies, mems) && i <= |script| && a in mems[i]
    ensures Latest(script, replies, mems[0], i, a, mems[i][a])
    decreases i
  {
    if i == 0 {
      assert FromCommand(script, replies, mems[0], 0, a, mems[0][a], -1);
    } else {
      var b := mems[i][a];
      assert Obeys(base, vnr, mems[i - 1], script[i - 1], replies[i - 1], mems[i]);
      MemoryIsLatest(base, vnr, script, replies, mems, i - 1, a);
      var b' := mems[i - 1][a];
      var j :| -1 <= j < i - 1 && FromCommand(script, replies, mems[0], i - 1, a, b', j);
      if Touches(script, replies, i - 1, a, false) && b == script[i - 1].data[a - script[i - 1].addr] {
        assert FromCommand(script, replies, mems[0], i, a, b, i - 1);
      } else {
        assert FromCommand(script, replies, mems[0], i, a, b, j);
      }
    }
  }

  /** Reply `i` is what the addresses hold. */
  ghost predicate ReadsLatest(script: seq<Command>, replies: seq<Reply>, m: Memory, i: nat)
    requires i < |script| == |replies|
  {
    script[i].Read? && replies[i].Got? ==>
      && |replies[i].data| == script[i].size
      && forall x :: 0 <= x < script[i].size ==>
           Latest(script, replies, m, i, script[i].addr + x, replies[i].data[x])
  }

  /** Every read returns, for each address, the byte of the last write that covers it, or the byte that was there
      before the run. */
  lemma ReadsAreLatest(base: nat, vnr: nat, script: seq<Command>, replies: seq<Reply>, mems: seq<Memory>, i: nat)
    requires Follows(base, vnr, script, replies, mems) && i < |script|
    ensures ReadsLatest(script, replies, mems[0], i)
  {
    assert Obeys(base, vnr, mems[i], script[i], replies[i], mems[i + 1]);
    if script[i].Read? && replies[i].Got? {
      var addr, data := script[i].addr, replies[i].data;
      forall x | 0 <= x < script[i].size
        ensures Latest(script, replies, mems[0], i, script[i].addr + x, replies[i].data[x])
      {
        assert Has(mems[i], addr + x, data[x]);
        MemoryIsLatest(base, vnr, script, replies, mems, i, addr + x);
      }
    }
  }

  /** A write leaves every address outside its range alone, and a write that succeeds stores its bytes. */
  lemma WriteIsLocal(base: nat, vnr: nat, m: Memory, addr: nat, data: Bytes, reply: Reply, m': Memory, a: nat)
    requires Obeys(base, vnr, m, Write(addr, data), reply, m') && a in m
    ensures a in m' && (a < addr || addr + |data| <= a ==> m'[a] == m[a])
    ensures addr <= a < addr + |data| && reply == Wrote ==> m'[a] == data[a - addr]
  {
  }
}
