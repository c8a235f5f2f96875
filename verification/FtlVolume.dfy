/** What an EFTL volume means, independently of any RAM table: a logical page holds the data of
    the page tagged with it that has the highest version, and reads 0xFF when there is none. */
module FtlVolume {
  import opened Bytes
  import opened NorFlash

  type Volume = seq<Page>

  /** No page carries a tag for `lp`. */
  ghost predicate Absent(v: Volume, lp: nat) {
    forall r :: 0 <= r < |v| ==> !Tagged(v[r], lp)
  }

  /** Page `q` carries the newest tag for `lp`, strictly newer than every other one. */
  ghost predicate Newest(v: Volume, lp: nat, q: nat) {
    q < |v| && Tagged(v[q], lp) &&
    forall r :: 0 <= r < |v| && r != q && Tagged(v[r], lp) ==> Ver(v[r]) < Ver(v[q])
  }

  /** Every tag names a logical page of the volume and has a version the mount scan can see. */
  ghost predicate WellFormed(v: Volume, vnr: nat) {
    forall r :: 0 <= r < |v| && HasHead(v[r]) ==> LogicPage(v[r]) < vnr && Ver(v[r]) >= 1
  }

  ghost predicate VersionsUpTo(v: Volume, n: nat) {
    forall r :: 0 <= r < |v| && HasHead(v[r]) ==> Ver(v[r]) <= n
  }

  /** `lp` reads as `d` from the volume alone. */
  ghost predicate Holds(v: Volume, lp: nat, d: Bytes) {
    (Absent(v, lp) && d == Blank(DATA_SIZE)) || exists q: nat :: Newest(v, lp, q) && d == Data(v[q])
  }

  /** The volume holds exactly the logical contents `c`. */
  ghost predicate Stores(v: Volume, c: seq<Bytes>) {
    WellFormed(v, |c|) && forall lp :: 0 <= lp < |c| ==> Holds(v, lp, c[lp])
  }

  /** A volume stores at most one contents. */
  lemma StoresIsFunctional(v: Volume, c: seq<Bytes>, c': seq<Bytes>)
    requires Stores(v, c) && Stores(v, c') && |c| == |c'|
    ensures c == c'
  {
    forall lp | 0 <= lp < |c| ensures c[lp] == c'[lp] {
      HoldsIsFunctional(v, lp, c[lp], c'[lp]);
    }
  }

  lemma HoldsIsFunctional(v: Volume, lp: nat, d: Bytes, d': Bytes)
    requires Holds(v, lp, d) && Holds(v, lp, d')
    ensures d == d'
  {
    if !Absent(v, lp) {
      var q: nat :| Newest(v, lp, q) && d == Data(v[q]);
      var q': nat :| Newest(v, lp, q') && d' == Data(v[q']);
      assert q == q';
    }
  }

  lemma BlankVolume(v: Volume, vnr: nat)
    requires forall r :: 0 <= r < |v| ==> !HasHead(v[r])
    ensures Stores(v, seq(vnr, _ => Blank(DATA_SIZE)))
  {
    var c := seq(vnr, _ => Blank(DATA_SIZE));
    forall lp | 0 <= lp < vnr ensures Holds(v, lp, c[lp]) {
      assert Absent(v, lp);
    }
  }

  /** Replacing any page that is not the newest copy of its logical page by an untagged page
      leaves the stored contents alone. This covers a data program onto a blank page, whole or
      torn, the erase of a superseded copy and the erase of a dirty page. */
  lemma DropSuperseded(v: Volume, c: seq<Bytes>, q: nat, p: Page)
    requires Stores(v, c) && q < |v| && !HasHead(p)
    requires HasHead(v[q]) ==> !Newest(v, LogicPage(v[q]), q)
    ensures Stores(v[q := p], c)
  {
    var v' := v[q := p];
    forall lp | 0 <= lp < |c| ensures Holds(v', lp, c[lp]) {
      assert Holds(v, lp, c[lp]);
      if Absent(v, lp) {
        assert Absent(v', lp);
      } else {
        var w: nat :| Newest(v, lp, w) && c[lp] == Data(v[w]);
        assert w != q;
        assert Newest(v', lp, w) && v'[w] == v[w];
      }
    }
  }

  /** Programming a tag newer than every tag of its logical page commits the new data and touches
      nothing else. */
  lemma CommitTag(v: Volume, c: seq<Bytes>, q: nat, p: Page, lp: nat)
    requires Stores(v, c) && q < |v| && lp < |c|
    requires !HasHead(v[q]) && Tagged(p, lp) && Ver(p) >= 1
    requires forall r :: 0 <= r < |v| && Tagged(v[r], lp) ==> Ver(v[r]) < Ver(p)
    ensures Stores(v[q := p], c[lp := Data(p)])
  {
    var v', c' := v[q := p], c[lp := Data(p)];
    assert v'[q] == p;
    assert Newest(v', lp, q);
    forall l | 0 <= l < |c| ensures Holds(v', l, c'[l]) {
      assert Holds(v, l, c[l]);
      if l == lp {
        assert Newest(v', lp, q) && c'[lp] == Data(v'[q]);
      } else if Absent(v, l) {
        assert Absent(v', l);
      } else {
        var w: nat :| Newest(v, l, w) && c[l] == Data(v[w]);
        assert Newest(v', l, w) && v'[w] == v[w];
      }
    }
  }
}
