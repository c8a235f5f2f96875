/** How the RAM tables of a mounted EFTL partition agree with the volume. */
module FtlIndex {
  import opened Bytes
  import opened NorFlash
  import opened FtlVolume

  /** `page_stat_tbl` entries; `Unscanned` is the 0xFF the table is filled with before the scan. */
  datatype Stat = Free | Used | Dirty | Unscanned

  /** EFTL_PAGE_NIL */
  const NIL: nat := 0xFFFF

  /** A page is Used exactly when it is mapped, mapped pages carry the tag of their logical page,
      and Free pages are fully erased. */
  ghost predicate Indexed(v: Volume, m: seq<nat>, st: seq<Stat>, vnr: nat) {
    && |m| == |st| == |v| < NIL && vnr <= |v|
    && (forall lp :: 0 <= lp < |m| && m[lp] != NIL ==>
          lp < vnr && m[lp] < |v| && st[m[lp]] == Used && Tagged(v[m[lp]], lp))
    && (forall q :: 0 <= q < |v| && st[q] == Used ==>
          HasHead(v[q]) && LogicPage(v[q]) < |m| && m[LogicPage(v[q])] == q)
    && (forall q :: 0 <= q < |v| && st[q] == Free ==> v[q] == Erased)
    && (forall q :: 0 <= q < |v| ==> st[q] != Unscanned)
  }

  /** The map is what the volume alone determines. */
  ghost predicate Durable(v: Volume, m: seq<nat>, vnr: nat) {
    vnr <= |m| && WellFormed(v, vnr) &&
    forall lp :: 0 <= lp < vnr ==> if m[lp] == NIL then Absent(v, lp) else Newest(v, lp, m[lp])
  }

  /** No superseded copy is left on the volume: every tagged page is Used. */
  ghost predicate Clean(v: Volume, st: seq<Stat>)
    requires |st| == |v|
  {
    forall q :: 0 <= q < |v| && HasHead(v[q]) ==> st[q] == Used
  }

  /** The logical contents a mounted partition reads through its map. */
  ghost function Contents(v: Volume, m: seq<nat>, vnr: nat): (c: seq<Bytes>)
    requires vnr <= |m| && forall lp :: 0 <= lp < vnr && m[lp] != NIL ==> m[lp] < |v|
  {
    seq(vnr, lp requires 0 <= lp < vnr => if m[lp] == NIL then Blank(DATA_SIZE) else Data(v[m[lp]]))
  }

  /** `v'` is `v` with some of the dirty pages erased. */
  ghost predicate Reclaimed(v: Volume, st: seq<Stat>, v': Volume)
    requires |st| == |v|
  {
    |v'| == |v| && forall q :: 0 <= q < |v| ==> v'[q] == v[q] || (st[q] == Dirty && v'[q] == Erased)
  }

  /** The status table after a complete garbage collection. */
  function Collected(st: seq<Stat>): (r: seq<Stat>)
    ensures |r| == |st|
  {
    seq(|st|, i requires 0 <= i < |st| => if st[i] == Dirty then Free else st[i])
  }

  /** The search can hand out page `i`, at once or after garbage collection. It never looks at the
      page just before `last`. */
  predicate Candidate(st: seq<Stat>, last: nat, i: nat) {
    i < |st| && st[i] != Used && i + 1 != last
  }

  /** The search finds a page without garbage collection. */
  ghost predicate AtHand(st: seq<Stat>, last: nat) {
    exists i: nat :: i < |st| && st[i] == Free && i + 1 != last
  }

  /** What a first write of `lp` does to the tables. */
  ghost predicate HandedOut(s: Tables, s': Tables, lp: nat)
    requires lp < |s.m|
  {
    exists f: nat ::
      && Candidate(s.st, s.last, f) && s'.last == f + 1 && s'.m == s.m[lp := f]
      && (s'.st == s.st[f := Used] || s'.st == Collected(s.st)[f := Used])
      && (s.st[f] != Free ==> s'.st == Collected(s.st)[f := Used])
  }

  /** The new copy of `lp` is on the volume beside the old one. */
  ghost predicate Superseded(v: Volume, v': Volume, q: nat, lp: nat, d: Bytes)
    requires q < |v|
  {
    exists f: nat, p: Page ::
      f < |v| && f != q && v[f] == Erased && v' == v[f := p] && Tagged(p, lp) && Data(p) == d
          && Ver(p) == (Ver(v[q]) + 1) % U32
  }

  /** What keeps one spare page sufficient. */
  ghost predicate SpareReachable(m: seq<nat>, st: seq<Stat>, last: nat, vnr: nat)
    requires vnr <= |m|
  {
    last <= |st| && (last == 0 || st[last - 1] == Used || exists lp :: 0 <= lp < vnr && m[lp] == NIL)
  }

  /** Everything a mounted partition consists of: the volume, `map_tbl`, `page_stat_tbl` and
      `last_free_page`. */
  datatype Tables = Tables(v: Volume, m: seq<nat>, st: seq<Stat>, last: nat)

  ghost predicate Mounted(s: Tables, vnr: nat) {
    s.last <= |s.v| && Indexed(s.v, s.m, s.st, vnr)
  }

  ghost function Logical(s: Tables, vnr: nat): seq<Bytes>
    requires Mounted(s, vnr)
  {
    Contents(s.v, s.m, vnr)
  }

  /** `Eio` is "no free page"; `FlashFailed` is a flash call that did not return 0. */
  datatype Status = Ok | Einval | Eio | FlashFailed

  /** What `eftl_create_table` makes of a volume. */
  ghost predicate MountStep(s: Tables, vnr: nat) {
    && Mounted(s, vnr) && Free !in s.st && (s.last == 0 || s.st[s.last - 1] == Used)
    && (forall q :: s.last <= q < |s.st| ==> s.st[q] != Used)
    && SpareReachable(s.m, s.st, s.last, vnr)
    && (forall lp :: 0 <= lp < vnr && s.m[lp] == NIL ==> Absent(s.v, lp))
    && (forall c :: |c| == vnr && Stores(s.v, c) ==> Durable(s.v, s.m, vnr) && Logical(s, vnr) == c)
  }

  /** What `eftl_garbage_collect` does. */
  ghost predicate CollectStep(s: Tables, ret: Status, s': Tables)
    requires |s.st| == |s.v|
  {
    && s'.m == s.m && s'.last == s.last && Reclaimed(s.v, s.st, s'.v)
    && (ret == FlashFailed ||
        (ret == Ok && s'.st == Collected(s.st) && forall q :: 0 <= q < |s.v| && s.st[q] == Dirty ==> s'.v[q] == Erased))
  }

  /** What `eftl_find_free_page` does: it fails for want of a page exactly when there is no
      candidate. */
  ghost predicate SearchStep(s: Tables, ret: Status, free: nat, s': Tables, vnr: nat)
    requires Mounted(s, vnr)
  {
    && s'.m == s.m && Reclaimed(s.v, s.st, s'.v)
    && match ret
       case Ok => Mounted(s', vnr) && s'.st in {s.st, Collected(s.st)} && Candidate(s.st, s.last, free)
           && s'.st[free] == Free && s'.last == free + 1
       case Eio => Mounted(s', vnr) && s'.st in {s.st, Collected(s.st)} && (forall i :: !Candidate(s.st, s.last, i))
           && s'.last == s.last
       case FlashFailed => true
       case Einval => false
  }

  /** What writing logical page `lp` as `d` does. If it succeeds the tables are again in agreement
      with the volume and only `lp` changed; if it finds no page nothing changed. Whatever happens,
      the volume stores the old contents or the new ones, as long as the version can grow. */
  ghost predicate WriteStep(s: Tables, ret: Status, s': Tables, vnr: nat, lp: nat, d: Bytes, n: nat)
    requires Mounted(s, vnr) && lp < vnr
  {
    && ret != Einval && |s'.v| == |s.v| && VersionsUpTo(s'.v, n + 1)
    && (ret == Ok ==>
          && Mounted(s', vnr) && Logical(s', vnr) == Logical(s, vnr)[lp := d]
          && SpareReachable(s'.m, s'.st, s'.last, vnr) && (exists i :: Candidate(s.st, s.last, i))
          && (Clean(s.v, s.st) ==> Clean(s'.v, s'.st)))
    && (ret == Eio ==>
          && Mounted(s', vnr) && Logical(s', vnr) == Logical(s, vnr)
          && forall i :: !Candidate(s.st, s.last, i))
    && (n + 1 < U32 && Durable(s.v, s.m, vnr) ==>
          && (Stores(s'.v, Logical(s, vnr)) || Stores(s'.v, Logical(s, vnr)[lp := d]))
          && (ret != FlashFailed ==> Durable(s'.v, s'.m, vnr)))
  }

  ghost predicate OnlyErases(v: Volume, v': Volume) {
    |v'| == |v| && forall q :: 0 <= q < |v| ==> v'[q] == v[q] || v'[q] == Erased
  }

  /** What erasing logical page `lp` does. */
  ghost predicate EraseStep(s: Tables, ret: Status, s': Tables, vnr: nat, lp: nat)
    requires Mounted(s, vnr) && lp < vnr
  {
    && OnlyErases(s.v, s'.v) && ret in {Ok, FlashFailed}
    && (ret == Ok ==>
          && Mounted(s', vnr) && Logical(s', vnr) == Logical(s, vnr)[lp := Blank(DATA_SIZE)]
          && SpareReachable(s'.m, s'.st, s'.last, vnr)
          && (Clean(s.v, s.st) ==> Clean(s'.v, s'.st))
          && (Clean(s.v, s.st) && Durable(s.v, s.m, vnr) ==> Durable(s'.v, s'.m, vnr)))
  }

  lemma MapIsInjective(v: Volume, m: seq<nat>, st: seq<Stat>, vnr: nat, a: nat, b: nat)
    requires Indexed(v, m, st, vnr) && a < |m| && b < |m| && m[a] == m[b] != NIL
    ensures a == b
  {
  }

  lemma DurableStores(v: Volume, m: seq<nat>, st: seq<Stat>, vnr: nat)
    requires Indexed(v, m, st, vnr) && Durable(v, m, vnr)
    ensures Stores(v, Contents(v, m, vnr))
  {
    var c := Contents(v, m, vnr);
    forall lp | 0 <= lp < vnr ensures Holds(v, lp, c[lp]) {
      if m[lp] != NIL {
        assert Newest(v, lp, m[lp]) && c[lp] == Data(v[m[lp]]);
      }
    }
  }

  /** Two scans of the same volume, or a scan and the live tables, give the same map. */
  lemma DurableMapIsUnique(v: Volume, m: seq<nat>, st: seq<Stat>, m': seq<nat>, st': seq<Stat>, vnr: nat)
    requires Indexed(v, m, st, vnr) && Indexed(v, m', st', vnr)
    requires Durable(v, m, vnr) && Durable(v, m', vnr)
    ensures m == m'
  {
    forall lp | 0 <= lp < |m| ensures m[lp] == m'[lp] {
      if lp < vnr && m[lp] != NIL {
        assert Newest(v, lp, m[lp]);
        assert m'[lp] != NIL;
        assert Newest(v, lp, m'[lp]);
      } else if lp < vnr {
        assert Absent(v, lp);
      }
    }
  }

  /** Without superseded copies the tables are durable. */
  lemma CleanIsDurable(v: Volume, m: seq<nat>, st: seq<Stat>, vnr: nat)
    requires Indexed(v, m, st, vnr) && Clean(v, st) && WellFormed(v, vnr)
    ensures Durable(v, m, vnr)
  {
  }

  /** Garbage collection, complete or cut short, loses nothing. */
  lemma ReclaimKeeps(v: Volume, m: seq<nat>, st: seq<Stat>, vnr: nat, v': Volume)
    requires Indexed(v, m, st, vnr) && Reclaimed(v, st, v')
    ensures Contents(v', m, vnr) == Contents(v, m, vnr)
    ensures Indexed(v', m, st, vnr)
    ensures Durable(v, m, vnr) ==> Durable(v', m, vnr)
    ensures Clean(v, st) ==> Clean(v', st)
    ensures WellFormed(v, vnr) ==> WellFormed(v', vnr)
    ensures forall n :: VersionsUpTo(v, n) ==> VersionsUpTo(v', n)
  {
    ErasedIsBlank();
    if Durable(v, m, vnr) {
      forall lp | 0 <= lp < vnr ensures if m[lp] == NIL then Absent(v', lp) else Newest(v', lp, m[lp]) {
        if m[lp] == NIL {
          assert Absent(v, lp);
        } else {
          assert Newest(v, lp, m[lp]);
        }
      }
    }
  }

  lemma CollectKeeps(v: Volume, m: seq<nat>, st: seq<Stat>, vnr: nat)
    requires Indexed(v, m, st, vnr)
    requires forall q :: 0 <= q < |v| && st[q] == Dirty ==> v[q] == Erased
    ensures Indexed(v, m, Collected(st), vnr)
    ensures Clean(v, st) ==> Clean(v, Collected(st))
  {
    ErasedIsBlank();
  }

  /** The new copy takes over from the old one. */
  lemma Relocate(v: Volume, m: seq<nat>, st: seq<Stat>, vnr: nat, lp: nat, f: nat, p: Page)
    requires Indexed(v, m, st, vnr) && lp < vnr && m[lp] != NIL
    requires f < |v| && st[f] == Free && Tagged(p, lp)
    ensures var v', m', st' := v[f := p][m[lp] := Erased], m[lp := f], st[f := Used][m[lp] := Free];
            && Indexed(v', m', st', vnr)
            && Contents(v', m', vnr) == Contents(v, m, vnr)[lp := Data(p)]
            && (Clean(v, st) ==> Clean(v', st'))
  {
    ErasedIsBlank();
  }

  /** A first copy is added. */
  lemma Place(v: Volume, m: seq<nat>, st: seq<Stat>, vnr: nat, lp: nat, f: nat, p: Page)
    requires Indexed(v, m, st, vnr) && lp < vnr && m[lp] == NIL
    requires f < |v| && st[f] == Free && Tagged(p, lp)
    ensures var v', m', st' := v[f := p], m[lp := f], st[f := Used];
            && Indexed(v', m', st', vnr)
            && Contents(v', m', vnr) == Contents(v, m, vnr)[lp := Data(p)]
            && (Clean(v, st) ==> Clean(v', st'))
  {
    ErasedIsBlank();
  }

  /** A mapped page is erased and its logical page unmapped. */
  lemma Unplace(v: Volume, m: seq<nat>, st: seq<Stat>, vnr: nat, lp: nat)
    requires Indexed(v, m, st, vnr) && lp < vnr && m[lp] != NIL
    ensures var v', m', st' := v[m[lp] := Erased], m[lp := NIL], st[m[lp] := Free];
            && Indexed(v', m', st', vnr)
            && Contents(v', m', vnr) == Contents(v, m, vnr)[lp := Blank(DATA_SIZE)]
            && (Clean(v, st) ==> Clean(v', st'))
            && (Clean(v, st) && Durable(v, m, vnr) ==> Durable(v', m', vnr))
  {
    ErasedIsBlank();
    if Clean(v, st) && Durable(v, m, vnr) {
      CleanIsDurable(v[m[lp] := Erased], m[lp := NIL], st[m[lp] := Free], vnr);
    }
  }

  /** Whether a logical erase survives a remount. It does exactly when no superseded copy of the page
      is on the volume; otherwise the mount scan maps an old copy again. */
  lemma EraseSurvivesRemount(v: Volume, m: seq<nat>, st: seq<Stat>, vnr: nat, lp: nat, s': Tables)
    requires Indexed(v, m, st, vnr) && lp < vnr && m[lp] != NIL
    requires s'.v == v[m[lp] := Erased] && MountStep(s', vnr)
    ensures s'.m[lp] == NIL <==> forall r :: 0 <= r < |v| && r != m[lp] ==> !Tagged(v[r], lp)
  {
    ErasedIsBlank();
    if s'.m[lp] != NIL {
      assert Tagged(s'.v[s'.m[lp]], lp);
      assert s'.m[lp] != m[lp];
    } else {
      forall r | 0 <= r < |v| && r != m[lp] ensures !Tagged(v[r], lp) {
        assert s'.v[r] == v[r];
      }
    }
  }
}
