/** Why the steps of the mounted partition do what they promise: the mount scan, the search for a
    free page, and every volume a write passes through. */
module FtlSteps {
  import opened Bytes
  import opened NorFlash
  import opened FtlVolume
  import opened FtlIndex

  /** State of the scan for logical page `lp` after the first `n` pages. */
  ghost predicate Scanned(v: Volume, lp: nat, n: nat, q: nat, ver: nat)
    requires n <= |v|
  {
    if q == NIL then ver == 0 && forall r :: 0 <= r < n ==> !Tagged(v[r], lp)
    else q < n && Tagged(v[q], lp) && ver == Ver(v[q]) >= 1 &&
         forall r :: 0 <= r < n && Tagged(v[r], lp) ==> Ver(v[r]) <= ver
  }

  /** The tables after the mount scan has seen the first `n` pages. */
  ghost predicate ScanState(v: Volume, vnr: nat, n: nat, m: seq<nat>, vers: seq<nat>, st: seq<Stat>, last: nat) {
    && n <= |v| == |m| == |vers| == |st| < NIL && vnr <= |v|
    && (forall lp :: 0 <= lp < |m| ==> Scanned(v, lp, n, m[lp], vers[lp]))
    && (forall lp :: 0 <= lp < |m| && m[lp] != NIL ==> lp < vnr && st[m[lp]] == Used)
    && (forall q :: 0 <= q < n && st[q] == Used ==> HasHead(v[q]) && LogicPage(v[q]) < |m| && m[LogicPage(v[q])] == q)
    && (forall q :: 0 <= q < n ==> st[q] == Used || st[q] == Dirty)
    && (last == 0 || (last <= n && st[last - 1] == Used)) && (forall q :: last <= q < n ==> st[q] != Used)
  }

  lemma ScanStarts(v: Volume, vnr: nat, m: seq<nat>, vers: seq<nat>, st: seq<Stat>)
    requires |v| == |m| == |vers| == |st| < NIL && vnr <= |v|
    requires forall i :: 0 <= i < |v| ==> m[i] == NIL && vers[i] == 0
    ensures ScanState(v, vnr, 0, m, vers, st, 0)
  {
  }

  lemma ScanTakes(v: Volume, vnr: nat, n: nat, m: seq<nat>, vers: seq<nat>, st: seq<Stat>, last: nat)
    requires ScanState(v, vnr, n, m, vers, st, last) && WellFormed(v, vnr)
    requires n < |v| && HasHead(v[n]) && Ver(v[n]) > vers[LogicPage(v[n])]
    ensures var lp := LogicPage(v[n]);
            var st' := if vers[lp] != 0 then st[m[lp] := Dirty] else st;
            ScanState(v, vnr, n + 1, m[lp := n], vers[lp := Ver(v[n])], st'[n := Used], n + 1)
  {
    var lp := LogicPage(v[n]);
    assert Scanned(v, lp, n, m[lp], vers[lp]);
    var m', vers' := m[lp := n], vers[lp := Ver(v[n])];
    forall l | 0 <= l < |m| ensures Scanned(v, l, n + 1, m'[l], vers'[l]) {
      assert Scanned(v, l, n, m[l], vers[l]);
    }
  }

  lemma ScanRejects(v: Volume, vnr: nat, n: nat, m: seq<nat>, vers: seq<nat>, st: seq<Stat>, last: nat)
    requires ScanState(v, vnr, n, m, vers, st, last) && WellFormed(v, vnr)
    requires n < |v| && (HasHead(v[n]) ==> Ver(v[n]) <= vers[LogicPage(v[n])])
    ensures ScanState(v, vnr, n + 1, m, vers, st[n := Dirty], last)
  {
    forall l | 0 <= l < |m| ensures Scanned(v, l, n + 1, m[l], vers[l]) {
      assert Scanned(v, l, n, m[l], vers[l]);
    }
  }

  /** A complete scan indexes the volume, and on a volume with well-defined contents its map is
      the one the volume determines. */
  lemma ScanComplete(v: Volume, vnr: nat, m: seq<nat>, vers: seq<nat>, st: seq<Stat>, last: nat)
    requires ScanState(v, vnr, |v|, m, vers, st, last) && WellFormed(v, vnr)
    ensures Indexed(v, m, st, vnr) && Free !in st && last <= |v| && (last == 0 || st[last - 1] == Used)
    ensures SpareReachable(m, st, last, vnr) && forall q :: last <= q < |st| ==> st[q] != Used
    ensures forall lp :: 0 <= lp < vnr && m[lp] == NIL ==> Absent(v, lp)
    ensures forall c :: |c| == vnr && Stores(v, c) ==> Durable(v, m, vnr) && Contents(v, m, vnr) == c
  {
    assert Indexed(v, m, st, vnr) by {
      forall lp | 0 <= lp < |m| && m[lp] != NIL ensures m[lp] < |v| && Tagged(v[m[lp]], lp) {
        assert Scanned(v, lp, |v|, m[lp], vers[lp]);
      }
    }
    forall lp | 0 <= lp < vnr && m[lp] == NIL ensures Absent(v, lp) {
      assert Scanned(v, lp, |v|, m[lp], vers[lp]);
    }
    forall c | |c| == vnr && Stores(v, c) ensures Durable(v, m, vnr) && Contents(v, m, vnr) == c {
      ScanFindsNewest(v, m, vers, c);
      DurableStores(v, m, st, vnr);
      StoresIsFunctional(v, c, Contents(v, m, vnr));
    }
  }

  lemma ScanFindsNewest(v: Volume, m: seq<nat>, vers: seq<nat>, c: seq<Bytes>)
    requires Stores(v, c) && |c| <= |v| == |m| == |vers|
    requires forall lp :: 0 <= lp < |m| ==> Scanned(v, lp, |v|, m[lp], vers[lp])
    ensures Durable(v, m, |c|)
  {
    forall lp | 0 <= lp < |c| ensures if m[lp] == NIL then Absent(v, lp) else Newest(v, lp, m[lp]) {
      assert Holds(v, lp, c[lp]);
      assert Scanned(v, lp, |v|, m[lp], vers[lp]);
      if m[lp] != NIL {
        var w: nat :| Newest(v, lp, w);
        assert w == m[lp];
      }
    }
  }

  /** State of the search before turn `findNr`, counting down from 2. */
  ghost predicate SearchTurn(s: Tables, findNr: nat, now: Tables, vnr: nat)
    requires Mounted(s, vnr)
  {
    && Mounted(now, vnr) && now.m == s.m && now.last == s.last && Reclaimed(s.v, s.st, now.v)
    && now.st == (if findNr == 2 then s.st else Collected(s.st))
    && (findNr == 0 ==> forall i :: !Candidate(s.st, s.last, i))
  }

  lemma SearchFound(s: Tables, findNr: nat, now: Tables, vnr: nat, page: nat)
    requires Mounted(s, vnr) && SearchTurn(s, findNr, now, vnr) && findNr > 0
    requires page < |now.v| && now.st[page] == Free && page + 1 != now.last
    ensures SearchStep(s, Ok, page, now.(last := page + 1), vnr)
  {
  }

  lemma SearchMissed(s: Tables, findNr: nat, now: Tables, vnr: nat, ret: Status, next: Tables)
    requires Mounted(s, vnr) && 0 < findNr <= 2 && SearchTurn(s, findNr, now, vnr) && CollectStep(now, ret, next)
    requires forall i :: 0 <= i < |now.v| && i + 1 != now.last ==> now.st[i] != Free
    ensures Reclaimed(s.v, s.st, next.v)
    ensures ret == Ok ==> SearchTurn(s, findNr - 1, next, vnr)
  {
    hide HasHead, Ver, LogicPage, Tagged, Candidate, Reclaimed;
    ReclaimTwice(s.v, s.st, now.v, now.st, next.v);
    if ret == Ok {
      ReclaimKeeps(now.v, now.m, now.st, vnr, next.v);
      CollectKeeps(next.v, next.m, now.st, vnr);
      assert Collected(Collected(s.st)) == Collected(s.st);
      if findNr == 1 {
        NothingLeft(s.v, s.m, s.st, s.last, vnr);
      }
    }
  }

  /** After garbage collection a search that finds nothing has no candidate. */
  lemma NothingLeft(v: Volume, m: seq<nat>, st: seq<Stat>, last: nat, vnr: nat)
    requires Indexed(v, m, st, vnr)
    requires forall i :: 0 <= i < |st| && i + 1 != last ==> Collected(st)[i] != Free
    ensures forall i :: !Candidate(st, last, i)
  {
    forall i: nat ensures !Candidate(st, last, i) {
      assert i < |st| ==> Collected(st)[i] == if st[i] == Dirty then Free else st[i];
    }
  }

  lemma ReclaimTwice(v: Volume, st: seq<Stat>, v': Volume, st': seq<Stat>, v'': Volume)
    requires |st| == |v| && st' in {st, Collected(st)}
    requires Reclaimed(v, st, v') && Reclaimed(v', st', v'')
    ensures Reclaimed(v, st, v'')
  {
  }

  lemma BlankBuffer(p: Page, off: nat, data: Bytes)
    requires off + |data| <= DATA_SIZE
    ensures var buf := Overlay(Overlay(p, TAG_OFFSET, Blank(TAG_SIZE)), off, data);
            BlankTag(buf) && Data(buf) == Overlay(Data(p), off, data)
    ensures p == Erased ==> Overlay(Overlay(p, TAG_OFFSET, Blank(TAG_SIZE)), off, data) == Overlay(p, off, data)
    ensures p == Erased ==> Data(p) == Blank(DATA_SIZE)
  {
    if p == Erased {
      assert Overlay(p, TAG_OFFSET, Blank(TAG_SIZE)) == p;
    }
  }

  /** Every volume a write passes through between choosing the free page and erasing the old copy
      stores the old contents or the new ones. */
  lemma WriteInFlight(v: Volume, m: seq<nat>, st: seq<Stat>, vnr: nat, lp: nat, f: nat, buf: Page, ver: nat, n: nat,
                      p: Page)
    requires Indexed(v, m, st, vnr) && lp < vnr && f < |v| && st[f] == Free
    requires 1 <= ver < U32 && VersionsUpTo(v, n) && ver <= n + 1
    requires m[lp] != NIL ==> ver == Ver(v[m[lp]]) + 1
    requires BlankTag(p) || p == Stamped(buf, lp, ver)
    ensures VersionsUpTo(v[f := p], n + 1)
    ensures var c := Contents(v, m, vnr);
            Durable(v, m, vnr) ==>
              && (Stores(v[f := p], c) || Stores(v[f := p], c[lp := Data(buf)]))
              && (p == Stamped(buf, lp, ver) ==>
                    Stores(v[f := p], c[lp := Data(buf)]) && Durable(v[f := p], m[lp := f], vnr))
  {
    ErasedIsBlank();
    if BlankTag(p) {
      BlankTagUntagged(p);
    }
    if Durable(v, m, vnr) {
      DurableStores(v, m, st, vnr);
      if p == Stamped(buf, lp, ver) {
        assert if m[lp] == NIL then Absent(v, lp) else Newest(v, lp, m[lp]);
        CommitTag(v, Contents(v, m, vnr), f, p, lp);
        CommitIsDurable(v, m, vnr, lp, f, p);
      } else {
        DropSuperseded(v, Contents(v, m, vnr), f, p);
      }
    }
  }

  lemma VersionsAfter(v: Volume, n: nat, f: nat, p: Page)
    requires (VersionsUpTo(v, n) || VersionsUpTo(v, n + 1)) && f < |v| && (BlankTag(p) || Ver(p) <= n + 1)
    ensures VersionsUpTo(v[f := p], n + 1)
  {
    if BlankTag(p) {
      BlankTagUntagged(p);
    }
  }

  /** The erase that ends an update, done or not, keeps what the tag has committed. */
  lemma OldCopyErased(v: Volume, c: seq<Bytes>, m: seq<nat>, lp: nat, q: nat)
    requires lp < |c| <= |m| && Durable(v, m, |c|) && Stores(v, c)
    requires m[lp] != NIL && m[lp] != q && q < |v| && Tagged(v[q], lp)
    ensures Stores(v[q := Erased], c) && Durable(v[q := Erased], m, |c|)
  {
    ErasedIsBlank();
    assert Newest(v, lp, m[lp]);
    DropSuperseded(v, c, q, Erased);
    var v' := v[q := Erased];
    forall l | 0 <= l < |c| ensures if m[l] == NIL then Absent(v', l) else Newest(v', l, m[l]) {
      assert if m[l] == NIL then Absent(v, l) else Newest(v, l, m[l]);
    }
  }

  lemma CommitIsDurable(v: Volume, m: seq<nat>, vnr: nat, lp: nat, f: nat, p: Page)
    requires vnr <= |m| && Durable(v, m, vnr) && lp < vnr && f < |v| && !HasHead(v[f])
    requires Tagged(p, lp) && Ver(p) >= 1
    requires forall r :: 0 <= r < |v| && Tagged(v[r], lp) ==> Ver(v[r]) < Ver(p)
    ensures f != NIL ==> Durable(v[f := p], m[lp := f], vnr)
  {
    var v', m' := v[f := p], m[lp := f];
    if f != NIL {
      forall l | 0 <= l < vnr ensures if m'[l] == NIL then Absent(v', l) else Newest(v', l, m'[l]) {
        if l != lp && m[l] == NIL {
          assert Absent(v, l);
        } else if l != lp {
          assert Newest(v, l, m[l]);
        }
      }
    }
  }

  /** A search that hands out no page changes no contents. */
  lemma SearchFailed(s: Tables, ret: Status, free: nat, t: Tables, vnr: nat, lp: nat, d: Bytes, n: nat)
    requires Mounted(s, vnr) && lp < vnr && SearchStep(s, ret, free, t, vnr) && ret != Ok && VersionsUpTo(s.v, n)
    ensures WriteStep(s, ret, t, vnr, lp, d, n)
  {
    ReclaimKeeps(s.v, s.m, s.st, vnr, t.v);
    if Durable(s.v, s.m, vnr) {
      DurableStores(t.v, t.m, s.st, vnr);
    }
  }

  /** What a successful search hands out. */
  lemma SearchGives(s: Tables, free: nat, t: Tables, vnr: nat)
    requires Mounted(s, vnr) && SearchStep(s, Ok, free, t, vnr)
    ensures Mounted(t, vnr) && t.m == s.m && free < |t.v| == |s.v| && t.v[free] == Erased
    ensures forall lp :: 0 <= lp < |s.m| && s.m[lp] != NIL ==> s.m[lp] != free && t.v[s.m[lp]] == s.v[s.m[lp]]
  {
  }

  /** What a successful search keeps. */
  lemma SearchKeeps(s: Tables, free: nat, t: Tables, vnr: nat, lp: nat, n: nat)
    requires Mounted(s, vnr) && lp < vnr && SearchStep(s, Ok, free, t, vnr) && VersionsUpTo(s.v, n)
    ensures Mounted(t, vnr) && Logical(t, vnr) == Logical(s, vnr) && VersionsUpTo(t.v, n)
    ensures Durable(s.v, s.m, vnr) ==> Durable(t.v, t.m, vnr)
    ensures Clean(s.v, s.st) ==> Clean(t.v, t.st)
    ensures s.m[lp] != NIL ==> t.v[s.m[lp]] == s.v[s.m[lp]]
  {
    ReclaimKeeps(s.v, s.m, s.st, vnr, t.v);
  }

  /** Power lost while the new copy is programmed. */
  lemma CopyInterrupted(s: Tables, free: nat, t: Tables, vnr: nat, lp: nat, buf: Page, ver: nat, n: nat, p: Page)
    requires Mounted(s, vnr) && lp < vnr && SearchStep(s, Ok, free, t, vnr) && VersionsUpTo(s.v, n) && ver < U32
    requires ver == if s.m[lp] == NIL then 1 else (Ver(s.v[s.m[lp]]) + 1) % U32
    requires BlankTag(p) || p == Stamped(buf, lp, ver)
    ensures WriteStep(s, FlashFailed, t.(v := t.v[free := p]), vnr, lp, Data(buf), n)
  {
    SearchKeeps(s, free, t, vnr, lp, n);
    CopyInFlight(t, free, vnr, lp, buf, ver, n, p);
  }

  lemma CopyInFlight(t: Tables, free: nat, vnr: nat, lp: nat, buf: Page, ver: nat, n: nat, p: Page)
    requires Mounted(t, vnr) && lp < vnr && free < |t.v| && t.st[free] == Free && VersionsUpTo(t.v, n) && ver < U32
    requires ver == if t.m[lp] == NIL then 1 else (Ver(t.v[t.m[lp]]) + 1) % U32
    requires BlankTag(p) || p == Stamped(buf, lp, ver)
    ensures VersionsUpTo(t.v[free := p], n + 1)
    ensures n + 1 < U32 && Durable(t.v, t.m, vnr) ==>
        Stores(t.v[free := p], Logical(t, vnr)) || Stores(t.v[free := p], Logical(t, vnr)[lp := Data(buf)])
  {
    assert ver <= n + 1;
    VersionsAfter(t.v, n, free, p);
    if n + 1 < U32 {
      WriteInFlight(t.v, t.m, t.st, vnr, lp, free, buf, ver, n, p);
    }
  }

  lemma FirstCopyDone(s: Tables, free: nat, t: Tables, vnr: nat, lp: nat, buf: Page, n: nat, s': Tables)
    requires Mounted(s, vnr) && lp < vnr && SearchStep(s, Ok, free, t, vnr) && VersionsUpTo(s.v, n)
    requires s.m[lp] == NIL
    requires s' == Tables(t.v[free := Stamped(buf, lp, 1)], t.m[lp := free], t.st[free := Used], t.last)
    ensures WriteStep(s, Ok, s', vnr, lp, Data(buf), n)
  {
    SearchKeeps(s, free, t, vnr, lp, n);
    WriteInFlight(t.v, t.m, t.st, vnr, lp, free, buf, 1, n, Stamped(buf, lp, 1));
    Place(t.v, t.m, t.st, vnr, lp, free, Stamped(buf, lp, 1));
  }

  /** Power lost during the erase that ends an update. */
  lemma EraseInterrupted(s: Tables, free: nat, t: Tables, vnr: nat, lp: nat, buf: Page, ver: nat, n: nat, v': Volume)
    requires Mounted(s, vnr) && lp < vnr && SearchStep(s, Ok, free, t, vnr) && VersionsUpTo(s.v, n)
    requires s.m[lp] != NIL && ver == (Ver(s.v[s.m[lp]]) + 1) % U32
    requires v' == t.v[free := Stamped(buf, lp, ver)] || v' == t.v[free := Stamped(buf, lp, ver)][t.m[lp] := Erased]
    ensures WriteStep(s, FlashFailed, t.(v := v'), vnr, lp, Data(buf), n)
  {
    SearchKeeps(s, free, t, vnr, lp, n);
    UpdateVolumes(t, free, vnr, lp, buf, ver, n);
  }

  /** The new copy is programmed and the old one not yet erased. */
  lemma BothCopies(s: Tables, free: nat, t: Tables, vnr: nat, lp: nat, buf: Page, d: Bytes, v': Volume)
    requires Mounted(s, vnr) && lp < vnr && SearchStep(s, Ok, free, t, vnr) && t.v == s.v && s.m[lp] != NIL
    requires Data(buf) == d
    requires v' == t.v[free := Stamped(buf, lp, (Ver(t.v[t.m[lp]]) + 1) % U32)]
    ensures Superseded(s.v, v', s.m[lp], lp, d)
  {
    ErasedIsBlank();
    var p := Stamped(buf, lp, (Ver(t.v[t.m[lp]]) + 1) % U32);
    assert free != s.m[lp] && v' == s.v[free := p];
  }

  lemma NewCopyDone(s: Tables, free: nat, t: Tables, vnr: nat, lp: nat, buf: Page, ver: nat, n: nat, s': Tables)
    requires Mounted(s, vnr) && lp < vnr && SearchStep(s, Ok, free, t, vnr) && VersionsUpTo(s.v, n)
    requires s.m[lp] != NIL && ver == (Ver(s.v[s.m[lp]]) + 1) % U32
    requires s' == Tables(t.v[free := Stamped(buf, lp, ver)][t.m[lp] := Erased], t.m[lp := free],
                          t.st[free := Used][t.m[lp] := Free], t.last)
    ensures WriteStep(s, Ok, s', vnr, lp, Data(buf), n)
  {
    SearchKeeps(s, free, t, vnr, lp, n);
    UpdateVolumes(t, free, vnr, lp, buf, ver, n);
    Relocate(t.v, t.m, t.st, vnr, lp, free, Stamped(buf, lp, ver));
  }

  /** The two volumes an update passes through once the tag is programmed. */
  lemma UpdateVolumes(t: Tables, free: nat, vnr: nat, lp: nat, buf: Page, ver: nat, n: nat)
    requires Mounted(t, vnr) && lp < vnr && free < |t.v| && t.st[free] == Free && VersionsUpTo(t.v, n)
    requires t.m[lp] != NIL && ver == (Ver(t.v[t.m[lp]]) + 1) % U32
    ensures var w := t.v[free := Stamped(buf, lp, ver)];
            var w' := w[t.m[lp] := Erased];
            && VersionsUpTo(w, n + 1) && VersionsUpTo(w', n + 1)
            && (n + 1 < U32 && Durable(t.v, t.m, vnr) ==>
                  && Stores(w, Logical(t, vnr)[lp := Data(buf)]) && Stores(w', Logical(t, vnr)[lp := Data(buf)])
                  && Durable(w', t.m[lp := free], vnr))
  {
    var p, q := Stamped(buf, lp, ver), t.m[lp];
    ErasedIsBlank();
    assert ver <= n + 1;
    VersionsAfter(t.v, n, free, p);
    VersionsAfter(t.v[free := p], n, q, Erased);
    if n + 1 < U32 && Durable(t.v, t.m, vnr) {
      UpdateCommits(t, free, vnr, lp, buf, ver, n);
    }
  }

  lemma UpdateCommits(t: Tables, free: nat, vnr: nat, lp: nat, buf: Page, ver: nat, n: nat)
    requires Mounted(t, vnr) && lp < vnr && free < |t.v| && t.st[free] == Free && VersionsUpTo(t.v, n) && n + 1 < U32
    requires t.m[lp] != NIL && ver == Ver(t.v[t.m[lp]]) + 1 && Durable(t.v, t.m, vnr)
    ensures var c, w := Logical(t, vnr)[lp := Data(buf)], t.v[free := Stamped(buf, lp, ver)];
            Stores(w, c) && Stores(w[t.m[lp] := Erased], c) && Durable(w[t.m[lp] := Erased], t.m[lp := free], vnr)
  {
    var p := Stamped(buf, lp, ver);
    WriteInFlight(t.v, t.m, t.st, vnr, lp, free, buf, ver, n, p);
    OldCopyErased(t.v[free := p], Logical(t, vnr)[lp := Data(buf)], t.m[lp := free], lp, t.m[lp]);
  }
}
