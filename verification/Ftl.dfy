/** The mounted EFTL partition: mount scan, free-page search, garbage collection, and the
    out-of-place page write and erase, with the error exits the source has. */
module Ftl {
  import opened Bytes
  import opened NorFlash
  import opened FtlVolume
  import opened FtlIndex
  import opened FtlSteps

  class Partition {
    const tnr: nat
    const vnr: nat
    const flash: FlashDevice
    const mapTbl: array<nat>
    const curVerTbl: array<nat>
    const statTbl: array<Stat>
    var pageBuf: Page
    var lastFreePage: nat

    ghost predicate Sized()
      reads this, flash
    {
      && |flash.pages| == tnr == mapTbl.Length == curVerTbl.Length == statTbl.Length
      && mapTbl != curVerTbl && vnr <= tnr < NIL
    }

    ghost function Snap(): Tables
      reads this, flash, mapTbl, statTbl
    {
      Tables(flash.pages, mapTbl[..], statTbl[..], lastFreePage)
    }

    ghost predicate Valid()
      reads this, flash, mapTbl, statTbl
    {
      Sized() && Mounted(Snap(), vnr)
    }

    /** `eftl_init` up to the mount scan: tables allocated and filled. */
    constructor (flash: FlashDevice, vnr: nat)
      requires vnr <= |flash.pages| < NIL
      ensures this.flash == flash && this.vnr == vnr && tnr == |flash.pages| && Sized()
      ensures lastFreePage == 0
      ensures fresh(mapTbl) && fresh(curVerTbl) && fresh(statTbl)
      ensures forall i :: 0 <= i < tnr ==> mapTbl[i] == NIL && curVerTbl[i] == 0 && statTbl[i] == Unscanned
    {
      this.flash, this.vnr, tnr := flash, vnr, |flash.pages|;
      mapTbl := new nat[|flash.pages|](_ => NIL);
      curVerTbl := new nat[|flash.pages|](_ => 0);
      statTbl := new Stat[|flash.pages|](_ => Unscanned);
      pageBuf := Blank(PAGE_SIZE);
      lastFreePage := 0;
    }

    /** `eftl_create_table`: one pass over the tags, keeping the highest version seen. */
    method CreateTable()
      requires Sized() && lastFreePage == 0 && WellFormed(flash.pages, vnr)
      requires forall i :: 0 <= i < tnr ==> mapTbl[i] == NIL && curVerTbl[i] == 0 && statTbl[i] == Unscanned
      modifies this`lastFreePage, mapTbl, curVerTbl, statTbl
      ensures MountStep(Snap(), vnr)
    {
      ScanStarts(flash.pages, vnr, mapTbl[..], curVerTbl[..], statTbl[..]);
      hide ScanState, WellFormed, Stores, Durable;
      var page := 0;
      while page < tnr
        invariant page <= tnr
        invariant ScanState(flash.pages, vnr, page, mapTbl[..], curVerTbl[..], statTbl[..], lastFreePage)
      {
        ScanPage(page);
        page := page + 1;
      }
      ScanComplete(flash.pages, vnr, mapTbl[..], curVerTbl[..], statTbl[..], lastFreePage);
    }

    /** The body of the mount scan for one page. */
    method ScanPage(page: nat)
      requires Sized() && WellFormed(flash.pages, vnr) && page < tnr
      requires ScanState(flash.pages, vnr, page, mapTbl[..], curVerTbl[..], statTbl[..], lastFreePage)
      modifies this`lastFreePage, mapTbl, curVerTbl, statTbl
      ensures ScanState(flash.pages, vnr, page + 1, mapTbl[..], curVerTbl[..], statTbl[..], lastFreePage)
    {
      ghost var m, vers, st := mapTbl[..], curVerTbl[..], statTbl[..];
      var lp, ver := LogicPage(flash.pages[page]), Ver(flash.pages[page]);
      if HasHead(flash.pages[page]) && ver > curVerTbl[lp] {
        ScanTakes(flash.pages, vnr, page, m, vers, st, lastFreePage);
        if curVerTbl[lp] != 0 {
          statTbl[mapTbl[lp]] := Dirty;
        }
        mapTbl[lp] := page;
        curVerTbl[lp] := ver;
        statTbl[page] := Used;
        lastFreePage := page + 1;
        assert mapTbl[..] == m[lp := page];
        assert curVerTbl[..] == vers[lp := ver];
        assert statTbl[..] == (if vers[lp] != 0 then st[m[lp] := Dirty] else st)[page := Used];
      } else {
        ScanRejects(flash.pages, vnr, page, m, vers, st, lastFreePage);
        statTbl[page] := Dirty;
        assert statTbl[..] == st[page := Dirty];
      }
    }

    /** `eftl_garbage_collect` */
    method GarbageCollect() returns (ret: Status)
      requires Valid()
      modifies flash, statTbl
      ensures Losses(flash.plan) + Lost(ret != FlashFailed) == old(Losses(flash.plan))
      ensures CollectStep(old(Snap()), ret, Snap())
    {
      ghost var v, st := flash.pages, statTbl[..];
      var page := 0;
      while page < tnr
        invariant page <= tnr && |flash.pages| == tnr && mapTbl[..] == old(mapTbl[..])
        invariant Losses(flash.plan) == old(Losses(flash.plan))
        invariant Reclaimed(v, st, flash.pages)
        invariant forall q :: 0 <= q < page && st[q] == Dirty ==> flash.pages[q] == Erased
        invariant forall q :: 0 <= q < tnr ==> statTbl[q] == if q < page then Collected(st)[q] else st[q]
      {
        if statTbl[page] == Dirty {
          var ok := flash.Erase(page);
          if !ok {
            return FlashFailed;
          }
          statTbl[page] := Free;
        }
        page := page + 1;
      }
      assert statTbl[..] == Collected(st);
      ret := Ok;
    }

    /** One turn of the search in `eftl_find_free_page`: forward from the last page handed out, then
        from the start up to but not including the page just before it. */
    method SearchOnce() returns (found: bool, page: nat)
      requires Valid()
      modifies this`lastFreePage
      ensures found ==> page < tnr && statTbl[page] == Free && page + 1 != old(lastFreePage) && lastFreePage == page + 1
      ensures found && page >= old(lastFreePage) ==> forall i :: old(lastFreePage) <= i < page ==> statTbl[i] != Free
      ensures found && page < old(lastFreePage) ==>
              forall i :: 0 <= i < page || old(lastFreePage) <= i < tnr ==> statTbl[i] != Free
      ensures !found ==> lastFreePage == old(lastFreePage)
      ensures !found ==> forall i :: 0 <= i < tnr && i + 1 != lastFreePage ==> statTbl[i] != Free
    {
      page := lastFreePage;
      while page < tnr
        invariant lastFreePage <= page <= tnr
        invariant forall i :: lastFreePage <= i < page ==> statTbl[i] != Free
      {
        if statTbl[page] == Free {
          lastFreePage := page + 1;
          return true, page;
        }
        page := page + 1;
      }
      page := 1;
      while page < lastFreePage
        invariant 1 <= page && (page == 1 || page <= lastFreePage) && lastFreePage == old(lastFreePage)
        invariant forall i :: lastFreePage <= i < tnr ==> statTbl[i] != Free
        invariant forall i :: 0 <= i < page - 1 ==> statTbl[i] != Free
      {
        if statTbl[page - 1] == Free {
          lastFreePage := page;
          return true, page - 1;
        }
        page := page + 1;
      }
      found := false;
    }

    /** `eftl_find_free_page`: search, collect garbage, search and collect once more. */
    method FindFreePage() returns (ret: Status, free: nat)
      requires Valid()
      modifies this`lastFreePage, flash, statTbl
      ensures Losses(flash.plan) + Lost(ret != FlashFailed) == old(Losses(flash.plan))
      ensures |flash.pages| == tnr && SearchStep(old(Snap()), ret, free, Snap(), vnr)
      ensures old(AtHand(statTbl[..], lastFreePage)) ==>
              ret == Ok && flash.pages == old(flash.pages) && flash.plan == old(flash.plan)
    {
      ghost var s := Snap();
      var findNr := 2;
      while findNr != 0
        invariant 0 <= findNr <= 2
        invariant Sized() && mapTbl[..] == s.m
        invariant Losses(flash.plan) == old(Losses(flash.plan))
        invariant SearchTurn(s, findNr, Snap(), vnr)
        invariant if findNr == 2 then flash.pages == s.v && flash.plan == old(flash.plan) else !AtHand(s.st, s.last)
      {
        ghost var turn := Snap();
        var found, page := SearchOnce();
        if found {
          SearchFound(s, findNr, turn, vnr, page);
          return Ok, page;
        }
        ret := GarbageCollect();
        SearchMissed(s, findNr, turn, vnr, ret, Snap());
        if ret != Ok {
          return ret, 0;
        }
        findNr := findNr - 1;
      }
      ret, free := Eio, 0;
    }

    /** `eftl_read_data` */
    method ReadData(lp: nat, off: nat, size: nat) returns (data: Bytes)
      requires Valid() && lp < vnr && off + size <= DATA_SIZE
      ensures data == Logical(Snap(), vnr)[lp][off..off + size]
    {
      if mapTbl[lp] != NIL {
        data := flash.pages[mapTbl[lp]][off..off + size];
      } else {
        data := Blank(size);
      }
    }

    /** The two program calls both writers make on the chosen page: the buffer with a blank tag, then
        the tag. */
    method ProgramCopy(free: nat, lp: nat, ver: nat) returns (ok: bool)
      requires free < |flash.pages| && flash.pages[free] == Erased && BlankTag(pageBuf)
      requires lp < U32 && ver < U32
      modifies this`pageBuf, flash
      ensures Losses(flash.plan) + Lost(ok) == old(Losses(flash.plan))
      ensures ok == (Next(old(flash.plan)).Success? && Next(Rest(old(flash.plan))).Success?)
      ensures ok ==> flash.plan == Rest(Rest(old(flash.plan)))
      ensures |flash.pages| == |old(flash.pages)| && flash.pages == old(flash.pages)[free := flash.pages[free]]
      ensures BlankTag(flash.pages[free]) || flash.pages[free] == Stamped(old(pageBuf), lp, ver)
      ensures ok ==> flash.pages[free] == Stamped(old(pageBuf), lp, ver)
    {
      hide BlankTag, TagBytes, Losses, Torn, Tagged, Ver, Next, Rest, Programmed;
      ghost var buf := pageBuf;
      ProgramErased(buf);
      ErasedIsBlank();
      ok := flash.Program(free, 0, pageBuf);
      if !ok {
        if flash.pages[free] != Erased {
          TornKeepsTagBlank(buf, flash.pages[free]);
        }
        return;
      }
      pageBuf := Stamped(pageBuf, lp, ver);
      ProgramTag(buf, lp, ver);
      ok := flash.Program(free, TAG_OFFSET, pageBuf[TAG_OFFSET..]);
    }

    /** `eftl_write_empty_page`: first write of a logical page. */
    method WriteEmptyPage(lp: nat, off: nat, data: Bytes, ghost n: nat) returns (ret: Status)
      requires Valid() && lp < vnr && mapTbl[lp] == NIL && off + |data| <= DATA_SIZE
      requires VersionsUpTo(flash.pages, n)
      modifies this, flash, mapTbl, statTbl
      ensures Losses(flash.plan) + Lost(ret != FlashFailed) == old(Losses(flash.plan))
      ensures WriteStep(old(Snap()), ret, Snap(), vnr, lp, Overlay(old(Logical(Snap(), vnr)[lp]), off, data), n)
      ensures ret == Ok ==> HandedOut(old(Snap()), Snap(), lp)
    {
      ghost var s := Snap();
      pageBuf := Blank(PAGE_SIZE);
      pageBuf := Overlay(pageBuf, off, data);
      BlankBuffer(Erased, off, data);
      ghost var buf := pageBuf;
      var free;
      ret, free := FindFreePage();
      ghost var t := Snap();
      if ret != Ok {
        SearchFailed(s, ret, free, t, vnr, lp, Data(buf), n);
        return;
      }
      var ok := ProgramCopy(free, lp, 1);
      ghost var p := flash.pages[free];
      if !ok {
        CopyInterrupted(s, free, t, vnr, lp, buf, 1, n, p);
        return FlashFailed;
      }
      mapTbl[lp] := free;
      statTbl[free] := Used;
      FirstCopyDone(s, free, t, vnr, lp, buf, n, Snap());
      ret := Ok;
    }

    /** The second half of `eftl_update_page`, from the first program call on: program the new copy,
        erase the old one, then enter the change in the tables. */
    method ReplaceCopy(free: nat, lp: nat, ghost s: Tables, ghost n: nat) returns (ret: Status)
      requires Valid() && lp < vnr && mapTbl[lp] != NIL && BlankTag(pageBuf)
      requires Mounted(s, vnr) && SearchStep(s, Ok, free, Snap(), vnr) && VersionsUpTo(s.v, n)
      modifies this`pageBuf, flash, mapTbl, statTbl
      ensures Losses(flash.plan) + Lost(ret != FlashFailed) == old(Losses(flash.plan))
      ensures WriteStep(s, ret, Snap(), vnr, lp, Data(old(pageBuf)), n)
      ensures old(LostAtThird(flash.plan)) ==>
          ret == FlashFailed && flash.plan == old(Rest(Rest(Rest(flash.plan)))) &&
          flash.pages == old(flash.pages[free := Stamped(pageBuf, lp, (Ver(flash.pages[mapTbl[lp]]) + 1) % U32)])
    {
      hide WriteStep, Stamped, BlankTag, VersionsUpTo, HasHead, LogicPage, Candidate, Next, Rest, Losses, SearchStep,
        Ver, Data;
      SearchGives(s, free, Snap(), vnr);
      ghost var t, buf := Snap(), pageBuf;
      var lastPhyPage := mapTbl[lp];
      assert flash.pages[lastPhyPage] == s.v[lastPhyPage];
      var ver := (Ver(flash.pages[lastPhyPage]) + 1) % U32;
      var ok := ProgramCopy(free, lp, ver);
      ghost var p := flash.pages[free];
      if !ok {
        CopyInterrupted(s, free, t, vnr, lp, buf, ver, n, p);
        return FlashFailed;
      }
      ok := flash.Erase(lastPhyPage);
      if !ok {
        EraseInterrupted(s, free, t, vnr, lp, buf, ver, n, flash.pages);
        return FlashFailed;
      }
      mapTbl[lp] := free;
      statTbl[free] := Used;
      statTbl[lastPhyPage] := Free;
      assert Snap() == Tables(t.v[free := p][lastPhyPage := Erased], t.m[lp := free],
          t.st[free := Used][lastPhyPage := Free], t.last);
      NewCopyDone(s, free, t, vnr, lp, buf, ver, n, Snap());
      ret := Ok;
    }

    /** `eftl_update_page`: rewrite of a mapped logical page. */
    method UpdatePage(lp: nat, off: nat, data: Bytes, ghost n: nat) returns (ret: Status)
      requires Valid() && lp < vnr && mapTbl[lp] != NIL && off + |data| <= DATA_SIZE
      requires VersionsUpTo(flash.pages, n)
      modifies this, flash, mapTbl, statTbl
      ensures Losses(flash.plan) + Lost(ret != FlashFailed) == old(Losses(flash.plan))
      ensures WriteStep(old(Snap()), ret, Snap(), vnr, lp, Overlay(old(Logical(Snap(), vnr)[lp]), off, data), n)
      ensures old(AtHand(statTbl[..], lastFreePage) && LostAtThird(flash.plan)) ==>
          && ret == FlashFailed && flash.plan == old(Rest(Rest(Rest(flash.plan))))
          && Superseded(old(flash.pages), flash.pages, old(mapTbl[lp]), lp,
               Overlay(old(Logical(Snap(), vnr)[lp]), off, data))
    {
      hide WriteStep, Superseded, BlankTag, LostAtThird, Losses, Next, Rest, AtHand, HasHead, LogicPage, Ver, Stamped,
        Tagged, SearchStep;
      ghost var s := Snap();
      pageBuf := flash.pages[mapTbl[lp]];
      BlankBuffer(pageBuf, off, data);
      pageBuf := Overlay(pageBuf, TAG_OFFSET, Blank(TAG_SIZE));
      pageBuf := Overlay(pageBuf, off, data);
      var free;
      ret, free := FindFreePage();
      ghost var t, buf := Snap(), pageBuf;
      if ret != Ok {
        SearchFailed(s, ret, free, t, vnr, lp, Data(buf), n);
        return;
      }
      SearchGives(s, free, t, vnr);
      ret := ReplaceCopy(free, lp, s, n);
      if old(AtHand(statTbl[..], lastFreePage) && LostAtThird(flash.plan)) {
        BothCopies(s, free, t, vnr, lp, buf, Data(buf), flash.pages);
      }
    }

    /** The write of one page, as the protected write and the write loop both do it. */
    method WritePage(lp: nat, off: nat, data: Bytes, ghost n: nat) returns (ret: Status)
      requires Valid() && lp < vnr && off + |data| <= DATA_SIZE
      requires VersionsUpTo(flash.pages, n)
      modifies this, flash, mapTbl, statTbl
      ensures Losses(flash.plan) + Lost(ret != FlashFailed) == old(Losses(flash.plan))
      ensures WriteStep(old(Snap()), ret, Snap(), vnr, lp, Overlay(old(Logical(Snap(), vnr)[lp]), off, data), n)
      ensures ret == Ok && old(mapTbl[lp]) == NIL ==> HandedOut(old(Snap()), Snap(), lp)
      ensures old(mapTbl[lp] != NIL && AtHand(statTbl[..], lastFreePage) && LostAtThird(flash.plan)) ==>
          && ret == FlashFailed && flash.plan == old(Rest(Rest(Rest(flash.plan))))
          && Superseded(old(flash.pages), flash.pages, old(mapTbl[lp]), lp,
               Overlay(old(Logical(Snap(), vnr)[lp]), off, data))
    {
      if mapTbl[lp] != NIL {
        ret := UpdatePage(lp, off, data, n);
      } else {
        ret := WriteEmptyPage(lp, off, data, n);
      }
    }

    /** The whole-page branch of the erase loops. */
    method ErasePage(lp: nat) returns (ret: Status)
      requires Valid() && lp < vnr
      modifies flash, mapTbl, statTbl
      ensures Losses(flash.plan) + Lost(ret != FlashFailed) == old(Losses(flash.plan))
      ensures EraseStep(old(Snap()), ret, Snap(), vnr, lp)
      ensures ret == Ok && old(mapTbl[lp]) != NIL ==> flash.pages == old(flash.pages[mapTbl[lp] := Erased])
    {
      ghost var s := Snap();
      if mapTbl[lp] != NIL {
        var phyPage := mapTbl[lp];
        var ok := flash.Erase(phyPage);
        if !ok {
          return FlashFailed;
        }
        statTbl[phyPage] := Free;
        mapTbl[lp] := NIL;
        Unplace(s.v, s.m, s.st, vnr, lp);
        assert Snap() == Tables(s.v[phyPage := Erased], s.m[lp := NIL], s.st[phyPage := Free], s.last);
      } else {
        assert Logical(s, vnr) == Logical(s, vnr)[lp := Blank(DATA_SIZE)];
      }
      ret := Ok;
    }
  }
}
