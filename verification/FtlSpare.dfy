/** One spare page is enough for the search for a free page to succeed. */
module FtlSpare {
  import opened Bytes
  import opened NorFlash
  import opened FtlVolume
  import opened FtlIndex

  ghost function Range(n: nat): (r: set<nat>)
    ensures forall i :: i in r <==> 0 <= i < n
    ensures |r| == n
  {
    if n == 0 then {} else Range(n - 1) + {n - 1}
  }

  /** Logical pages whose mapped page is among the first `n`. */
  ghost function MappedBelow(v: Volume, m: seq<nat>, n: nat): set<nat>
  {
    set lp | 0 <= lp < |m| && m[lp] < n
  }

  lemma MappedCount(v: Volume, m: seq<nat>, st: seq<Stat>, vnr: nat, n: nat, skip: nat)
    requires Indexed(v, m, st, vnr) && n <= |v|
    requires forall q :: 0 <= q < n && q != skip ==> st[q] == Used
    ensures |MappedBelow(v, m, n)| >= if skip < n then n - 1 else n
  {
    if n > 0 {
      MappedCount(v, m, st, vnr, n - 1, skip);
      var q := n - 1;
      if q != skip {
        var lp := LogicPage(v[q]);
        assert m[lp] == q && lp !in MappedBelow(v, m, q);
        assert MappedBelow(v, m, q) + {lp} <= MappedBelow(v, m, n);
        SubsetSize(MappedBelow(v, m, q) + {lp}, MappedBelow(v, m, n));
      } else {
        SubsetSize(MappedBelow(v, m, q), MappedBelow(v, m, n));
      }
    }
  }

  lemma SubsetSize<T>(a: set<T>, b: set<T>)
    requires a <= b
    ensures |a| <= |b|
  {
    assert b == a + (b - a);
  }

  /** With one page more than there are logical pages the search always has a candidate, although
      it skips the page just before the last one it handed out. */
  lemma SpareIsEnough(v: Volume, m: seq<nat>, st: seq<Stat>, vnr: nat, last: nat)
    requires Indexed(v, m, st, vnr) && |v| >= vnr + 1
    requires SpareReachable(m, st, last, vnr)
    ensures exists i :: Candidate(st, last, i)
  {
    if forall i: nat :: !Candidate(st, last, i) {
      var n := |v|;
      forall q | 0 <= q < n && q + 1 != last ensures st[q] == Used {
        assert !Candidate(st, last, q);
      }
      var all := MappedBelow(v, m, n);
      if last == 0 || st[last - 1] == Used {
        MappedCount(v, m, st, vnr, n, n);
        SubsetSize(all, Range(vnr));
      } else {
        MappedCount(v, m, st, vnr, n, last - 1);
        var lp :| 0 <= lp < vnr && m[lp] == NIL;
        assert lp !in all;
        assert all + {lp} <= Range(vnr);
        SubsetSize(all + {lp}, Range(vnr));
      }
    }
  }

  /** The pages the first `k` logical pages are mapped to. */
  ghost function Targets(m: seq<nat>, k: nat): set<nat>
    requires k <= |m|
  {
    set lp | 0 <= lp < k :: m[lp]
  }

  /** No page holds two logical pages. */
  lemma {:induction false} TargetCount(v: Volume, m: seq<nat>, st: seq<Stat>, vnr: nat, k: nat)
    requires Indexed(v, m, st, vnr) && k <= vnr && forall lp :: 0 <= lp < k ==> m[lp] != NIL
    ensures |Targets(m, k)| == k
  {
    hide HasHead, LogicPage;
    if k > 0 {
      TargetCount(v, m, st, vnr, k - 1);
      assert LogicPage(v[m[k - 1]]) == k - 1;
      assert m[k - 1] !in Targets(m, k - 1);
      assert Targets(m, k) == Targets(m, k - 1) + {m[k - 1]};
    }
  }

  /** With as many pages as logical pages, every page is in use exactly when every logical page is written. */
  lemma FullWhenWritten(v: Volume, m: seq<nat>, st: seq<Stat>, vnr: nat)
    requires Indexed(v, m, st, vnr) && |v| == vnr
    ensures (forall q :: 0 <= q < vnr ==> st[q] == Used) <==> (forall lp :: 0 <= lp < vnr ==> m[lp] != NIL)
  {
    if forall q :: 0 <= q < vnr ==> st[q] == Used {
      MappedCount(v, m, st, vnr, vnr, vnr);
      forall lp | 0 <= lp < vnr ensures m[lp] != NIL {
        var all := MappedBelow(v, m, vnr);
        if lp !in all {
          SubsetSize(all + {lp}, Range(vnr));
        }
      }
    }
    if forall lp :: 0 <= lp < vnr ==> m[lp] != NIL {
      TargetCount(v, m, st, vnr, vnr);
      forall q | 0 <= q < vnr ensures st[q] == Used {
        if q !in Targets(m, vnr) {
          SubsetSize(Targets(m, vnr) + {q}, Range(vnr));
        }
      }
    }
  }

  /** The spare page is also necessary: once every page is in use no write succeeds, and without a spare page
      that is so as soon as every logical page is written. */
  lemma FullVolumeRefusesWrites(s: Tables, ret: Status, s': Tables, vnr: nat, lp: nat, d: Bytes, n: nat)
    requires Mounted(s, vnr) && lp < vnr && WriteStep(s, ret, s', vnr, lp, d, n)
    requires || (forall q :: 0 <= q < |s.st| ==> s.st[q] == Used)
             || (|s.v| == vnr && forall k :: 0 <= k < vnr ==> s.m[k] != NIL)
    ensures ret in {Eio, FlashFailed}
  {
    if |s.v| == vnr {
      FullWhenWritten(s.v, s.m, s.st, vnr);
    }
    assert forall i: nat :: !Candidate(s.st, s.last, i);
  }
}
