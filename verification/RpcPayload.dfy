/** The arguments of a remote procedure call: a stream of byte strings, each behind its 32-bit length. */
module RpcPayload {
  import opened Bytes

  /** `buf_size` and `pos` are 16 bits wide. */
  const U16: nat := 0x1_0000

  /** One byte string as it is stored. */
  function Frame(data: Bytes): Bytes
    requires |data| < U32
  {
    Le32(|data|) + data
  }

  predicate Frameable(items: seq<Bytes>) {
    forall i :: 0 <= i < |items| ==> 0 < |items[i]| < U32
  }

  /** A stream of byte strings as it is stored. */
  function Stream(items: seq<Bytes>): Bytes
    requires Frameable(items)
  {
    if items == [] then [] else Frame(items[0]) + Stream(items[1..])
  }

  lemma StreamOfNothing()
    ensures Stream([]) == []
  {
  }

  lemma {:induction false} StreamAppend(items: seq<Bytes>, data: Bytes)
    requires Frameable(items) && 0 < |data| < U32
    ensures Stream(items + [data]) == Stream(items) + Frame(data)
    decreases |items|
  {
    hide Frame;
    if items == [] {
      assert items + [data] == [data] && [data][1..] == [];
      assert Stream([data]) == Frame(data) + [];
    } else {
      assert (items + [data])[1..] == items[1..] + [data];
      StreamAppend(items[1..], data);
      assert Frame(items[0]) + (Stream(items[1..]) + Frame(data)) ==
          (Frame(items[0]) + Stream(items[1..])) + Frame(data);
    }
  }

  lemma {:induction false} StreamSplits(items: seq<Bytes>, k: nat)
    requires Frameable(items) && k <= |items|
    ensures Stream(items) == Stream(items[..k]) + Stream(items[k..])
    decreases k
  {
    hide Frame;
    if k == 0 {
      assert items[..0] == [] && items[0..] == items;
    } else {
      StreamSplits(items[1..], k - 1);
      assert items[1..][..k - 1] == items[..k][1..] && items[1..][k - 1..] == items[k..];
      assert Frame(items[0]) + (Stream(items[..k][1..]) + Stream(items[k..])) ==
          (Frame(items[0]) + Stream(items[..k][1..])) + Stream(items[k..]);
    }
  }

  /** A frame in the middle of a buffer. */
  lemma FrameInside(s: Bytes, before: Bytes, data: Bytes, after: Bytes)
    requires |data| < U32 && s == before + (Frame(data) + after)
    ensures var at := |before|;
            && at + 4 + |data| <= |s| && FromLe32(s[at..at + 4]) == |data| && s[at + 4..at + 4 + |data|] == data
  {
    hide Le32, FromLe32;
    var at := |before|;
    assert s[at..at + 4] == Le32(|data|);
    Le32RoundTrip(|data|);
  }

  /** Reading at the start of the `k`-th frame finds the `k`-th byte string. */
  lemma FrameAt(items: seq<Bytes>, k: nat)
    requires Frameable(items) && k < |items|
    ensures var at := |Stream(items[..k])|;
            var s := Stream(items);
            && at + 4 + |items[k]| <= |s| && FromLe32(s[at..at + 4]) == |items[k]|
            && s[at + 4..at + 4 + |items[k]|] == items[k]
            && at + 4 + |items[k]| == |Stream(items[..k + 1])|
  {
    hide Le32, FromLe32;
    assert items[..k + 1] == items[..k] + [items[k]] && items[k..][1..] == items[k + 1..];
    StreamAppend(items[..k], items[k]);
    StreamSplits(items, k);
    FrameInside(Stream(items), Stream(items[..k]), items[k], Stream(items[k + 1..]));
  }

  /** All byte strings but the last. */
  function ButLast(items: seq<Bytes>): seq<Bytes> {
    if items == [] then [] else items[..|items| - 1]
  }

  /** What is in front of the last byte string stays below the 16 bits of the size. */
  predicate Fits(items: seq<Bytes>) {
    Frameable(items) && |Stream(ButLast(items))| < U16
  }

  lemma StreamPrefix(items: seq<Bytes>, k: nat)
    requires Frameable(items) && k <= |items|
    ensures |Stream(items[..k])| <= |Stream(items)|
  {
    if k < |items| {
      FrameAt(items, k);
    } else {
      assert items[..k] == items;
    }
  }

  /** In a stream that fits every frame starts below 65536. */
  lemma FitsBelow(items: seq<Bytes>, k: nat)
    requires Fits(items) && k < |items|
    ensures |Stream(items[..k])| < U16
  {
    hide Stream;
    assert ButLast(items)[..k] == items[..k];
    StreamPrefix(ButLast(items), k);
  }

  lemma FitsMore(items: seq<Bytes>, data: Bytes)
    requires Frameable(items) && 0 < |data| < U32
    ensures Frameable(items + [data]) && (Fits(items + [data]) <==> |Stream(items)| < U16)
    ensures |Stream(items)| < U16 ==> Fits(items)
  {
    hide Stream;
    assert ButLast(items + [data]) == items;
    if items != [] {
      StreamPrefix(items, |items| - 1);
    } else {
      StreamOfNothing();
    }
  }

  /** What `rpc_put_buffer` answers. */
  datatype Status = Ok | Einval | Enomem

  /** What `rpc_get_buffer` answers. `Missing` is the null pointer it returns when nothing was ever put;
      `Outside` is a frame that does not lie in the block, which the source does not check. */
  datatype Got = Missing | Outside | Data(bytes: Bytes)

  /** The frame at `pos`. */
  function FrameFrom(s: Bytes, pos: nat): Got {
    if pos + 4 > |s| then Outside
    else
      var len := FromLe32(s[pos..pos + 4]);
      if pos + 4 + len > |s| then Outside else Data(s[pos + 4..pos + 4 + len])
  }

  /** Reading at the start of the `k`-th frame gives the `k`-th byte string, and behind the last one nothing. */
  lemma FrameFromStream(items: seq<Bytes>, k: nat)
    requires Frameable(items) && k <= |items|
    ensures FrameFrom(Stream(items), |Stream(items[..k])|) == if k < |items| then Data(items[k]) else Outside
  {
    hide Stream, FromLe32;
    if k < |items| {
      FrameAt(items, k);
    } else {
      assert items[..k] == items;
    }
  }

  class RpcBuffer {
    /** Whether `rpc->data` is set. */
    var made: bool
    var buffer: array?<byte>
    var bufSize: nat
    var pos: nat

    /** The byte strings put since the last reset, and how many have been got. */
    ghost var items: seq<Bytes>
    ghost var taken: nat

    /** The block holds the byte strings put. */
    ghost predicate Valid()
      reads this, buffer
    {
      && Sound() && Fits(items) && taken <= |items|
      && bufSize == |Stream(items)| % U16 && pos == |Stream(items[..taken])| % U16
      && (if buffer == null then items == [] else buffer[..] == Stream(items))
    }

    /** The size never exceeds the block. */
    ghost predicate Sound()
      reads this
    {
      && bufSize <= (if buffer == null then 0 else buffer.Length) && bufSize < U16
      && (buffer == null ==> pos == 0 && items == []) && (buffer != null ==> made)
    }

    /** The bytes a larger block starts with. */
    ghost function Kept(): Bytes
      requires Sound()
      reads this, buffer
    {
      if buffer == null then [] else buffer[..bufSize]
    }

    /** `rpc_init`, which sets `data` up if a timeout is given. */
    constructor (made: bool)
      ensures Valid() && items == [] && taken == 0 && buffer == null && this.made == made
    {
      this.made, buffer, bufSize, pos, items, taken := made, null, 0, 0, [], 0;
      StreamOfNothing();
    }

    /** `rpc_buffer_need_size`: a larger block with the old bytes in front. */
    method NeedSize(size: nat, granted: bool) returns (ok: bool, at: nat)
      requires Sound()
      modifies this`buffer, this`bufSize
      ensures ok == granted
      ensures !ok ==> buffer == old(buffer) && bufSize == old(bufSize)
      ensures ok ==>
              && buffer != null && fresh(buffer) && buffer.Length == size + old(bufSize) && at == old(bufSize)
              && buffer[..at] == old(Kept()) && bufSize == (old(bufSize) + size) % U16
    {
      ok, at := granted, bufSize;
      if granted {
        var buf := new byte[size + bufSize];
        if buffer != null {
          forall i | 0 <= i < bufSize {
            buf[i] := buffer[i];
          }
        }
        buffer := buf;
        bufSize := (bufSize + size) % U16;
      }
    }

    /** `rpc_put_buffer`. The block grows by the frame. It holds everything put, old and new, exactly as long as
        the stream in front of the new frame is shorter than 65536 bytes. */
    method PutBuffer(data: Bytes, first: bool, granted: bool) returns (ret: Status)
      requires Sound() && |data| < U32
      modifies this
      ensures Sound() && ret == if data == [] then Einval else if (old(made) || first) && granted then Ok else Enomem
      ensures made == (old(made) || (data != [] && first))
      ensures ret != Ok ==>
              && buffer == old(buffer) && bufSize == old(bufSize) && pos == old(pos)
              && items == old(items) && taken == old(taken)
      ensures ret == Ok ==>
              && buffer != null && fresh(buffer) && buffer[..] == old(Kept()) + Frame(data)
              && bufSize == (old(bufSize) + 4 + |data|) % U16 && pos == old(pos)
              && items == old(items) + [data] && taken == old(taken)
      ensures old(Valid()) && (ret == Ok ==> |Stream(old(items))| < U16) ==> Valid()
    {
      hide Stream, Le32;
      if data == [] {
        return Einval;
      }
      if !made && !first {
        return Enomem;
      }
      made := true;
      ghost var before, valid := Kept(), Valid();
      StreamOfNothing();
      assert valid && |Stream(items)| < U16 ==> before == Stream(items);
      var ok, at := NeedSize(|data| + 4, granted);
      if !ok {
        return Enomem;
      }
      WriteFrame(at, data);
      if valid {
        StreamAppend(items, data);
        FitsMore(items, data);
        assert (items + [data])[..taken] == items[..taken];
      }
      items := items + [data];
      ret := Ok;
    }

    /** The length and the bytes of a frame. */
    method WriteFrame(at: nat, data: Bytes)
      requires buffer != null && |data| < U32 && buffer.Length == at + 4 + |data|
      modifies buffer
      ensures buffer[..] == old(buffer[..at]) + Frame(data)
    {
      hide Le32;
      var size := Le32(|data|);
      forall i | at <= i < buffer.Length {
        buffer[i] := if i < at + 4 then size[i - at] else data[i - at - 4];
      }
    }

    /** `rpc_get_buffer`. While there is a byte string that was put and not got, it gets the next one. */
    method GetBuffer() returns (got: Got)
      requires Sound()
      modifies this`pos, this`taken
      ensures Sound() && (!got.Data? ==> pos == old(pos) && taken == old(taken))
      ensures got == if !made then Missing else if buffer == null then Outside else FrameFrom(buffer[..], old(pos))
      ensures got.Data? ==> pos == (old(pos) + 4 + |got.bytes|) % U16 && taken == old(taken) + 1
      ensures old(Valid()) && old(taken) < |items| ==> Valid() && got == Data(items[old(taken)])
      ensures old(Valid()) && old(taken) == |items| && |Stream(items)| < U16 ==> Valid() && !got.Data?
    {
      hide FromLe32, Stream, FrameFrom;
      ghost var valid := Valid();
      if !made {
        return Missing;
      }
      got := Peek();
      if valid {
        ReadsNext();
      }
      if got.Data? {
        if valid && taken < |items| {
          FrameAt(items, taken);
          WrapStep(|Stream(items[..taken])|, 4 + |items[taken]|);
        }
        pos := (pos + 4 + |got.bytes|) % U16;
        taken := taken + 1;
      }
    }

    /** The length and the bytes at the position. */
    method Peek() returns (got: Got)
      ensures got == if buffer == null then Outside else FrameFrom(buffer[..], pos)
    {
      hide FromLe32;
      got := Outside;
      if buffer != null && pos + 4 <= buffer.Length {
        assert buffer[pos..pos + 4] == buffer[..][pos..pos + 4];
        var len := FromLe32(buffer[pos..pos + 4]);
        if pos + 4 + len <= buffer.Length {
          assert buffer[pos + 4..pos + 4 + len] == buffer[..][pos + 4..pos + 4 + len];
          got := Data(buffer[pos + 4..pos + 4 + len]);
        }
      }
    }

    /** What is at the position of a block that holds the byte strings put. */
    lemma ReadsNext()
      requires Valid()
      ensures taken < |items| ==> buffer != null && FrameFrom(buffer[..], pos) == Data(items[taken])
      ensures taken == |items| && |Stream(items)| < U16 && buffer != null ==> FrameFrom(buffer[..], pos) == Outside
    {
      hide FromLe32, Stream, FrameFrom;
      FrameFromStream(items, taken);
      if taken < |items| {
        FitsBelow(items, taken);
      } else {
        assert items[..taken] == items;
      }
    }

    /** `rpc_get_reset` */
    method GetReset()
      requires Sound()
      modifies this`pos, this`taken
      ensures Sound() && taken == 0 && pos == 0 && (old(Valid()) ==> Valid())
    {
      hide Stream;
      pos, taken := 0, 0;
      assert items[..0] == [];
      StreamOfNothing();
    }

    /** `rpc_put_reset` */
    method PutReset()
      requires Sound()
      modifies this
      ensures Valid() && items == [] && taken == 0
    {
      if buffer != null {
        buffer, bufSize, pos := null, 0, 0;
      }
      items, taken := [], 0;
      StreamOfNothing();
    }
  }

  lemma WrapStep(a: nat, b: nat)
    ensures (a % U16 + b) % U16 == (a + b) % U16
  {
  }

  /** For every list of non-empty byte strings that fits, that is whose stream without the last one is shorter than
      65536 bytes: the gets return the puts in order, and again after a reset of the reader. After a reset of the
      writer the same holds of what is put then, whatever was there before. */
  method RoundTrip(first: seq<Bytes>, second: seq<Bytes>, made: bool)
    returns (got: seq<Bytes>, again: seq<Bytes>, last: seq<Bytes>)
    requires Frameable(first) && Frameable(second)
    ensures Fits(first) ==> got == first && again == first
    ensures Fits(second) ==> last == second
  {
    hide Stream;
    var rpc := new RpcBuffer(made);
    PutAll(rpc, first);
    got := GetAll(rpc, |first|);
    rpc.GetReset();
    again := GetAll(rpc, |first|);
    rpc.PutReset();
    PutAll(rpc, second);
    last := GetAll(rpc, |second|);
  }

  /** The block holds the whole stream exactly if it fits; otherwise it has become too short for it. */
  method PutAll(rpc: RpcBuffer, items: seq<Bytes>)
    requires rpc.Valid() && rpc.items == [] && rpc.taken == 0 && Frameable(items)
    modifies rpc
    ensures rpc.Sound() && rpc.items == items && rpc.taken == 0
    ensures Fits(items) ==> rpc.Valid()
    ensures items != [] ==> rpc.buffer != null && (rpc.buffer[..] == Stream(items) <==> Fits(items))
  {
    hide Stream, Fits;
    for i := 0 to |items|
      invariant rpc.Sound() && rpc.items == items[..i] && rpc.taken == 0
      invariant Fits(items[..i]) ==> rpc.Valid()
      invariant i > 0 ==> rpc.buffer != null && rpc.buffer.Length < U16 + 4 + |items[i - 1]|
    {
      FitsMore(items[..i], items[i]);
      assert items[..i] + [items[i]] == items[..i + 1];
      var _ := rpc.PutBuffer(items[i], true, true);
    }
    assert items[..|items|] == items;
    if items != [] {
      LostIsShorter(items);
    }
  }

  lemma LostIsShorter(items: seq<Bytes>)
    requires Frameable(items) && items != []
    ensures !Fits(items) ==> |Stream(items)| >= U16 + 4 + |items[|items| - 1]|
  {
    var n := |items| - 1;
    FrameAt(items, n);
    assert items[..n + 1] == items;
  }

  method GetAll(rpc: RpcBuffer, n: nat) returns (got: seq<Bytes>)
    requires rpc.Sound() && rpc.taken == 0
    modifies rpc`pos, rpc`taken
    ensures rpc.Sound()
    ensures old(rpc.Valid()) && n == |rpc.items| ==> rpc.Valid() && got == rpc.items
  {
    got := [];
    for i := 0 to n
      invariant rpc.Sound() && rpc.taken == i
      invariant old(rpc.Valid()) && n == |rpc.items| ==> rpc.Valid() && got == rpc.items[..i]
    {
      var r := rpc.GetBuffer();
      if !r.Data? {
        return;
      }
      got := got + [r.bytes];
    }
  }

  /** When the stream in front of a put has reached 65536 bytes, the put drops what was there. */
  method OverflowDropsFrames(a: Bytes, b: Bytes) returns (rpc: RpcBuffer)
    requires |a| == U16 - 4 && 0 < |b| < U32
    ensures rpc.buffer != null && rpc.buffer[..] == Frame(b) && rpc.items == [a, b]
  {
    rpc := new RpcBuffer(true);
    var _ := rpc.PutBuffer(a, true, true);
    assert rpc.Kept() == [];
    var _ := rpc.PutBuffer(b, true, true);
    assert [] + Frame(b) == Frame(b);
  }
}
