/** The address-level operations: with power-down protection one page per call, without it loops that
    spread a byte range over 500-byte logical pages. */
module FtlFlat {
  import opened Bytes
  import opened NorFlash
  import opened FtlVolume
  import opened FtlIndex
  import opened FtlSpare
  import opened Ftl

  ghost predicate PageSized(c: seq<Bytes>) {
    forall lp :: 0 <= lp < |c| ==> |c[lp]| == DATA_SIZE
  }

  /** The logical pages laid end to end. */
  ghost function Flat(c: seq<Bytes>): (f: Bytes)
    requires PageSized(c)
    ensures |f| == |c| * DATA_SIZE
  {
    seq(|c| * DATA_SIZE, i requires 0 <= i < |c| * DATA_SIZE => c[i / DATA_SIZE][i % DATA_SIZE])
  }

  lemma FlatSlice(c: seq<Bytes>, lp: nat, off: nat, chunk: Bytes)
    requires PageSized(c) && lp < |c| && off + |chunk| <= DATA_SIZE && chunk == c[lp][off..off + |chunk|]
    ensures forall i :: 0 <= i < |chunk| ==> chunk[i] == Flat(c)[lp * DATA_SIZE + off + i]
  {
    var a := lp * DATA_SIZE + off;
    forall i | 0 <= i < |chunk| ensures chunk[i] == Flat(c)[a + i] {
      assert (a + i) / DATA_SIZE == lp && (a + i) % DATA_SIZE == off + i;
    }
  }

  /** Writing inside one page is writing at its flat address. */
  lemma FlatPatch(c: seq<Bytes>, lp: nat, off: nat, data: Bytes)
    requires PageSized(c) && lp < |c| && off + |data| <= DATA_SIZE
    ensures Flat(c[lp := Overlay(c[lp], off, data)]) == Overlay(Flat(c), lp * DATA_SIZE + off, data)
  {
    var a := lp * DATA_SIZE + off;
    var c' := c[lp := Overlay(c[lp], off, data)];
    forall i | 0 <= i < |c| * DATA_SIZE ensures Flat(c')[i] == Overlay(Flat(c), a, data)[i] {
      if i / DATA_SIZE == lp {
        assert i == lp * DATA_SIZE + i % DATA_SIZE;
      } else {
        assert !(a <= i < a + |data|);
      }
    }
  }

  lemma OverlayTwice(f: Bytes, a: nat, d: Bytes, e: Bytes)
    requires a + |d| + |e| <= |f|
    ensures Overlay(Overlay(f, a, d), a + |d|, e) == Overlay(f, a, d + e)
  {
  }

  /** Contents of a mounted partition as one byte array. */
  ghost function FlatOf(s: Tables, vnr: nat): (f: Bytes)
    requires Mounted(s, vnr)
    ensures |f| == vnr * DATA_SIZE
  {
    Flat(Logical(s, vnr))
  }

  /** Page, offset and size of the piece each loop takes next: up to the end of the range or of the
      page, whichever comes first. */
  method NextChunk(x: nat, left: nat, vnr: nat) returns (page: nat, off: nat, size: nat)
    requires 0 < left && x + left <= vnr * DATA_SIZE
    ensures page < vnr && off < DATA_SIZE && page * DATA_SIZE + off == x
    ensures 0 < size <= left && off + size <= DATA_SIZE && (size == left || off + size == DATA_SIZE)
  {
    off, page := x % DATA_SIZE, x / DATA_SIZE;
    size := if left <= DATA_SIZE - off then left else DATA_SIZE - off;
  }

  /** `eftl_no_pwr_down_prot_read`. `base` is `first_page_base`. */
  method NoProtRead(p: Partition, base: nat, addr: nat, size: nat) returns (ret: Status, data: Bytes)
    requires p.Valid() && base <= addr
    ensures ret == if addr + size > base + p.vnr * DATA_SIZE then Einval else Ok
    ensures ret == Ok ==> data == FlatOf(p.Snap(), p.vnr)[addr - base..addr - base + size]
  {
    hide Indexed, FlatOf;
    data := [];
    if addr + size > base + p.vnr * DATA_SIZE {
      return Einval, data;
    }
    var a, done := addr - base, 0;
    ghost var f := FlatOf(p.Snap(), p.vnr);
    while done < size
      invariant 0 <= done <= size && |data| == done
      invariant forall i :: 0 <= i < done ==> data[i] == f[a + i]
    {
      var chunk := ReadChunk(p, a + done, size - done);
      data := data + chunk;
      done := done + |chunk|;
    }
    assert data == f[a..a + size];
    ret := Ok;
  }

  /** The body of the read loop. */
  method ReadChunk(p: Partition, x: nat, left: nat) returns (chunk: Bytes)
    requires p.Valid() && 0 < left && x + left <= p.vnr * DATA_SIZE
    ensures 0 < |chunk| <= left && forall i :: 0 <= i < |chunk| ==> chunk[i] == FlatOf(p.Snap(), p.vnr)[x + i]
  {
    var page, off, readSize := NextChunk(x, left, p.vnr);
    chunk := p.ReadData(page, off, readSize);
    FlatSlice(Logical(p.Snap(), p.vnr), page, off, chunk);
  }

  ghost predicate HasSpare(s: Tables, vnr: nat) {
    |s.v| >= vnr + 1 && vnr <= |s.m| && SpareReachable(s.m, s.st, s.last, vnr)
  }

  /** A partition on which nothing was interrupted: no superseded copy, and a map the volume
      determines. */
  ghost predicate Healthy(s: Tables, vnr: nat) {
    Mounted(s, vnr) && Clean(s.v, s.st) && Durable(s.v, s.m, vnr)
  }

  /** `s'` is `s` with `d` written at flat offset `a`. */
  ghost predicate FlatWritten(s: Tables, s': Tables, vnr: nat, a: nat, d: Bytes, n: nat)
    requires Mounted(s, vnr)
  {
    && Mounted(s', vnr) && VersionsUpTo(s'.v, n + |d|) && |s'.v| == |s.v|
    && a + |d| <= vnr * DATA_SIZE && FlatOf(s', vnr) == Overlay(FlatOf(s, vnr), a, d)
    && (n + |d| < U32 && Healthy(s, vnr) ==> Healthy(s', vnr))
    && (HasSpare(s, vnr) ==> HasSpare(s', vnr))
  }

  lemma FlatNothingWritten(s: Tables, vnr: nat, a: nat, n: nat)
    requires Mounted(s, vnr) && VersionsUpTo(s.v, n) && a <= vnr * DATA_SIZE
    ensures FlatWritten(s, s, vnr, a, [], n)
  {
  }

  lemma FlatWriteMore(s: Tables, t: Tables, s': Tables, vnr: nat, a: nat, d: Bytes, lp: nat, off: nat, chunk: Bytes,
                      n: nat)
    requires Mounted(s, vnr) && FlatWritten(s, t, vnr, a, d, n)
    requires a + |d| == lp * DATA_SIZE + off && 0 < |chunk| && off + |chunk| <= DATA_SIZE && lp < vnr
    requires WriteStep(t, Ok, s', vnr, lp, Overlay(Logical(t, vnr)[lp], off, chunk), n + |d|)
    ensures FlatWritten(s, s', vnr, a, d + chunk, n)
  {
    FlatPatch(Logical(t, vnr), lp, off, chunk);
    OverlayTwice(FlatOf(s, vnr), a, d, chunk);
    VersionsWeaken(s'.v, n + |d| + 1, n + |d + chunk|);
  }

  /** `eftl_no_pwr_down_prot_write`, with a flash on which no call fails. It stops early only for want
      of a free page, which a spare page rules out. */
  method NoProtWrite(p: Partition, base: nat, addr: nat, data: Bytes, ghost n: nat) returns (ret: Status)
    requires p.Valid() && base <= addr && VersionsUpTo(p.flash.pages, n) && Losses(p.flash.plan) == 0
    modifies p, p.flash, p.mapTbl, p.statTbl
    ensures p.Valid() && Losses(p.flash.plan) == 0
    ensures ret == Einval <==> addr + |data| > base + p.vnr * DATA_SIZE
    ensures ret == Einval ==> p.Snap() == old(p.Snap())
    ensures ret == Ok ==> FlatWritten(old(p.Snap()), p.Snap(), p.vnr, addr - base, data, n)
    ensures ret == Eio ==> !HasSpare(old(p.Snap()), p.vnr)
    ensures ret == Eio ==>
            exists k :: 0 <= k < |data| && FlatOf(p.Snap(), p.vnr) ==
              Overlay(old(FlatOf(p.Snap(), p.vnr)), addr - base, data[..k])
    ensures ret != FlashFailed
  {
    if addr + |data| > base + p.vnr * DATA_SIZE {
      return Einval;
    }
    ghost var s := p.Snap();
    FlatNothingWritten(s, p.vnr, addr - base, n);
    var done := 0;
    assert data[..done] == [];
    while done < |data|
      invariant 0 <= done <= |data| && p.Valid() && Losses(p.flash.plan) == 0
      invariant FlatWritten(s, p.Snap(), p.vnr, addr - base, data[..done], n)
    {
      ret, done := WriteChunk(p, addr - base, data, done, s, n);
      if ret != Ok {
        return;
      }
    }
    assert data[..done] == data;
    ret := Ok;
  }

  /** The body of the write loop: the piece of `data` that starts at `done`. */
  method WriteChunk(p: Partition, a: nat, data: Bytes, done: nat, ghost s: Tables, ghost n: nat)
    returns (ret: Status, done': nat)
    requires p.Valid() && Losses(p.flash.plan) == 0 && done < |data| && a + |data| <= p.vnr * DATA_SIZE
    requires Mounted(s, p.vnr) && FlatWritten(s, p.Snap(), p.vnr, a, data[..done], n)
    modifies p, p.flash, p.mapTbl, p.statTbl
    ensures p.Valid() && Losses(p.flash.plan) == 0 && ret in {Ok, Eio}
    ensures ret == Ok ==> done < done' <= |data| && FlatWritten(s, p.Snap(), p.vnr, a, data[..done'], n)
    ensures ret == Eio ==> !HasSpare(s, p.vnr) && FlatOf(p.Snap(), p.vnr) == Overlay(FlatOf(s, p.vnr), a, data[..done])
  {
    var page, off, writeSize := NextChunk(a + done, |data| - done, p.vnr);
    done' := done + writeSize;
    var chunk := data[done..done'];
    ghost var t, d := p.Snap(), data[..done];
    assert data[..done'] == d + chunk;
    ret := p.WritePage(page, off, chunk, n + done);
    if ret == Ok {
      FlatWriteMore(s, t, p.Snap(), p.vnr, a, d, page, off, chunk, n);
    } else {
      NoSpaceMeansNoSpare(s, t, p.Snap(), p.vnr, a, d, page, Overlay(Logical(t, p.vnr)[page], off, chunk), n, ret);
    }
  }

  lemma NoSpaceMeansNoSpare(s: Tables, t: Tables, s': Tables, vnr: nat, a: nat, d: Bytes, lp: nat, page: Bytes, n: nat,
                            ret: Status)
    requires Mounted(s, vnr) && FlatWritten(s, t, vnr, a, d, n) && lp < vnr
    requires WriteStep(t, ret, s', vnr, lp, page, n + |d|) && ret in {Eio}
    ensures !HasSpare(s, vnr) && Mounted(s', vnr) && FlatOf(s', vnr) == Overlay(FlatOf(s, vnr), a, d)
  {
    if HasSpare(s, vnr) {
      SpareIsEnough(t.v, t.m, t.st, vnr, t.last);
    }
  }

  /** Logical page `k` lies wholly inside the range of `size` bytes at `a`. */
  predicate Covered(k: nat, a: nat, size: nat) {
    a <= k * DATA_SIZE && (k + 1) * DATA_SIZE <= a + size
  }

  /** What the erase loop makes of the byte array: pages wholly inside the range become 0xFF, and
      bytes of partly covered pages stay as they are, because programming 0xFF clears no bit. */
  ghost function FlatErased(f: Bytes, a: nat, size: nat): (r: Bytes)
    ensures |r| == |f|
  {
    seq(|f|, i requires 0 <= i < |f| => if Covered(i / DATA_SIZE, a, size) then 0xFF else f[i])
  }

  /** The erase loop blanks its whole range exactly when the part of the range that lies in partly
      covered pages was blank already; that part keeps its bytes. */
  lemma EraseBlanksRangeIff(f: Bytes, a: nat, size: nat)
    requires a + size <= |f|
    ensures (forall i :: a <= i < a + size ==> FlatErased(f, a, size)[i] == 0xFF) <==>
            (forall i :: a <= i < a + size && !Covered(i / DATA_SIZE, a, size) ==> f[i] == 0xFF)
    ensures forall i :: a <= i < a + size && !Covered(i / DATA_SIZE, a, size) ==> FlatErased(f, a, size)[i] == f[i]
  {
    if forall i :: a <= i < a + size ==> FlatErased(f, a, size)[i] == 0xFF {
      forall i | a <= i < a + size && !Covered(i / DATA_SIZE, a, size) ensures f[i] == 0xFF {
        assert FlatErased(f, a, size)[i] == f[i];
      }
    }
  }

  /** `s'` is `s` after the erase loop has passed `size` bytes at `a`. */
  ghost predicate EraseReached(s: Tables, s': Tables, vnr: nat, a: nat, size: nat)
    requires Mounted(s, vnr)
  {
    && Mounted(s', vnr) && OnlyErases(s.v, s'.v)
    && FlatOf(s', vnr) == FlatErased(FlatOf(s, vnr), a, size)
    && (Healthy(s, vnr) ==> Healthy(s', vnr))
    && (HasSpare(s, vnr) ==> HasSpare(s', vnr))
  }

  lemma FlatErasePart(f: Bytes, a: nat, size: nat, page: nat, off: nat, more: nat)
    requires a + size == page * DATA_SIZE + off && 0 < more && off + more <= DATA_SIZE && more < DATA_SIZE
    requires off > 0 ==> size == 0
    ensures FlatErased(f, a, size + more) == FlatErased(f, a, size)
  {
    forall k: nat ensures Covered(k, a, size + more) <==> Covered(k, a, size) {
    }
  }

  lemma FlatEraseWhole(s: Tables, t: Tables, s': Tables, vnr: nat, a: nat, size: nat, page: nat)
    requires Mounted(s, vnr) && EraseReached(s, t, vnr, a, size) && page < vnr && a + size == page * DATA_SIZE
    requires EraseStep(t, Ok, s', vnr, page)
    ensures EraseReached(s, s', vnr, a, size + DATA_SIZE)
  {
    var f, c := FlatOf(s, vnr), Logical(t, vnr);
    assert Overlay(c[page], 0, Blank(DATA_SIZE)) == Blank(DATA_SIZE);
    FlatPatch(c, page, 0, Blank(DATA_SIZE));
    var left, right := FlatErased(f, a, size + DATA_SIZE), Overlay(FlatErased(f, a, size), a + size, Blank(DATA_SIZE));
    forall i | 0 <= i < |f| ensures left[i] == right[i] {
      var k := i / DATA_SIZE;
      assert Covered(k, a, size + DATA_SIZE) <==> k == page || Covered(k, a, size);
      assert k == page <==> a + size <= i < a + size + DATA_SIZE;
    }
  }

  /** `eftl_no_pwr_down_prot_erase`, with a flash on which no call fails. */
  method NoProtErase(p: Partition, base: nat, addr: nat, size: nat) returns (ret: Status)
    requires p.Valid() && base <= addr && Losses(p.flash.plan) == 0
    modifies p.flash, p.mapTbl, p.statTbl
    ensures p.Valid() && Losses(p.flash.plan) == 0
    ensures ret == if addr + size > base + p.vnr * DATA_SIZE then Einval else Ok
    ensures ret == Einval ==> p.Snap() == old(p.Snap())
    ensures ret == Ok ==> EraseReached(old(p.Snap()), p.Snap(), p.vnr, addr - base, size)
    ensures ret == Ok ==> forall i :: 0 <= i < p.vnr * 500 ==>
              FlatOf(p.Snap(), p.vnr)[i] ==
                if addr <= base + i / 500 * 500 && base + (i / 500 + 1) * 500 <= addr + size then 0xFF
                else old(FlatOf(p.Snap(), p.vnr))[i]
  {
    if addr + size > base + p.vnr * DATA_SIZE {
      return Einval;
    }
    ghost var s := p.Snap();
    ghost var a := addr - base;
    assert FlatErased(FlatOf(s, p.vnr), a, 0) == FlatOf(s, p.vnr);
    var done := 0;
    ghost var next: nat := 0;
    while done < size
      invariant 0 <= done <= size && p.Valid() && Losses(p.flash.plan) == 0
      invariant done == 0 || done == size || a + done == next * DATA_SIZE
      invariant EraseReached(s, p.Snap(), p.vnr, a, done)
    {
      done, next := EraseChunk(p, addr - base, size, done, s, next);
    }
    ret := Ok;
  }

  lemma BoundaryOffset(page: nat, off: nat, next: nat)
    requires page * DATA_SIZE + off == next * DATA_SIZE && off < DATA_SIZE
    ensures off == 0 && page == next
  {
  }

  /** The body of the erase loop. */
  method EraseChunk(p: Partition, a: nat, size: nat, done: nat, ghost s: Tables, ghost next: nat)
    returns (done': nat, ghost next': nat)
    requires p.Valid() && Losses(p.flash.plan) == 0 && done < size && a + size <= p.vnr * DATA_SIZE
    requires Mounted(s, p.vnr) && EraseReached(s, p.Snap(), p.vnr, a, done)
    requires done == 0 || a + done == next * DATA_SIZE
    modifies p.flash, p.mapTbl, p.statTbl
    ensures p.Valid() && Losses(p.flash.plan) == 0 && done < done' <= size
    ensures EraseReached(s, p.Snap(), p.vnr, a, done') && (done' == size || a + done' == next' * DATA_SIZE)
  {
    hide FlatErased, Covered, Contents, Indexed, Clean, Durable, SpareReachable, VersionsUpTo, Losses;
    var page, off, eraseSize := NextChunk(a + done, size - done, p.vnr);
    ghost var t := p.Snap();
    if done != 0 {
      BoundaryOffset(page, off, next);
    }
    if eraseSize == DATA_SIZE {
      var ret := p.ErasePage(page);
      FlatEraseWhole(s, t, p.Snap(), p.vnr, a, done, page);
    } else {
      ErasePart(p, page, off, eraseSize);
      FlatErasePart(FlatOf(s, p.vnr), a, done, page, off, eraseSize);
    }
    done', next' := done + eraseSize, page + 1;
  }

  /** The partial-page branch, `eftl_flash_erase_part`: it programs 0xFF bytes. */
  method ErasePart(p: Partition, page: nat, off: nat, size: nat)
    requires p.Valid() && page < p.vnr && off + size <= DATA_SIZE && Losses(p.flash.plan) == 0
    modifies p.flash
    ensures Losses(p.flash.plan) == 0 && p.Snap() == old(p.Snap())
  {
    if p.mapTbl[page] != NIL {
      var q := p.mapTbl[page];
      ProgramBlank(p.flash.pages[q], off, size);
      var ok := p.flash.Program(q, off, Blank(size));
    }
  }

  lemma ProgramBlank(g: Page, off: nat, size: nat)
    requires off + size <= PAGE_SIZE
    ensures Programmed(g, off, Blank(size)) == g
  {
    forall i | 0 <= i < PAGE_SIZE ensures Programmed(g, off, Blank(size))[i] == g[i] {
      AndErased(g[i]);
    }
  }

  lemma VersionsWeaken(v: Volume, n: nat, n': nat)
    requires VersionsUpTo(v, n) && n <= n'
    ensures VersionsUpTo(v, n')
  {
  }
}
