/** What one pass does to one keyed table, proved for every production table, staging table and environment. */
module MirrorConvergence {
  import opened Ordering
  import opened MirrorDiff
  import opened MirrorTable
  import opened Wrappers

  /** Nothing on staging stands in the way: no failing or silent statement. */
  ghost predicate Unhindered(j: Job) {
    j.env.fault.NoFault? && !j.env.deleteFails && j.env.silent == {}
  }

  /** A Mirror pass without errors or guards replaces exactly what staging's window shows by what production's shows. */
  lemma {:induction false} MirrorPassReplacesTheWindow(j: Job)
    requires j.mode.Mirror? && Unhindered(j) && !j.Guarded()
    ensures j.Final() == (j.staging - j.Dst().Keys) + j.Src()
  {
    UnhinderedFinal(j);
    DstIsStaging(j);
    hide Job.Final, Job.Src, Job.Dst, Unhindered;
    var kept := (j.staging - j.Dst().Keys) + j.Src();
    assert forall k :: k in j.Final() <==> k in kept;
    assert forall k :: k in kept ==> j.Final()[k] == kept[k];
  }

  lemma {:induction false} UnhinderedFinal(j: Job)
    requires j.mode.Mirror? && Unhindered(j) && !j.Guarded()
    ensures j.Final() == (j.staging + j.Src()) - DeleteKeys(j.Src(), j.Dst(), j.mode)
  {
    assert j.Src() - {} == j.Src();
    assert j.Pending() - {} == j.Pending() == DeleteKeys(j.Src(), j.Dst(), j.mode);
    hide Visible, Fingerprints;
  }

  lemma {:induction false} DstIsStaging(j: Job)
    ensures forall k :: k in j.Dst() ==> k in j.staging && j.Dst()[k] == j.staging[k]
    ensures forall k :: k in DeleteKeys(j.Src(), j.Dst(), Mirror) <==> k in j.Dst() && k !in j.Src()
  {
  }

  /** Self-healing: whatever staging held, a full pass leaves the production snapshot, and the next pass finds
      nothing. */
  lemma {:induction false} FullPassHeals(j: Job, later: Job)
    requires j.mode.Mirror? && Unhindered(j) && !j.Guarded()
    requires j.srcWindow.Everything? && j.dstWindow.Everything?
    requires later.source == j.source && later.staging == j.Final()
    requires later.srcWindow == later.dstWindow
    ensures j.Final() == j.source
    ensures later.Src() == later.Dst() && later.Buckets() == {}
  {
    hide Visible, Job.Final, Fingerprints, DifferingBuckets;
    MirrorPassReplacesTheWindow(j);
    EverythingIsVisible(j.source);
    EverythingIsVisible(j.staging);
    NoBucketDiffersIffEqual(later.Src(), later.Dst());
  }

  lemma {:induction false} EverythingIsVisible(t: Table)
    ensures Visible(t, Everything) == t
  {
  }

  /** A hot pass takes a row away that production has exactly when staging's copy is in its window and production's is
      not: production moved the row out of the window, or the two clocks cut differently. */
  lemma {:induction false} HotPassDropsProductionRowIff(j: Job, k: Key)
    requires j.mode.Mirror? && Unhindered(j) && !j.Guarded()
    requires k in j.source && k in j.staging
    ensures k !in j.Final() <==> Sees(j.dstWindow, j.staging[k]) && !Sees(j.srcWindow, j.source[k])
  {
    MirrorPassReplacesTheWindow(j);
  }

  /** The two clocks alone are enough when production's cut is the later one, that is when production's clock is ahead
      by more than the time between the two transactions' beginnings: a row both sides share, between the cuts, is
      deleted. */
  lemma {:induction false} HotPassDropsRow(k: Key, row: Row, cut: int)
    requires row.ts == Some(cut)
    ensures var t: Table := map[k := row];
      var j := Job(Mirror, t, t, Since(cut + 1), Since(cut), 2000, Env(NoFault, false, {}), map[], {});
      j.Final() == map[]
  {
    var t: Table := map[k := row];
    var j := Job(Mirror, t, t, Since(cut + 1), Since(cut), 2000, Env(NoFault, false, {}), map[], {});
    assert j.Src() == map[] && j.Dst() == t;
    hide Visible, Fingerprints;
    assert DeleteKeys(j.Src(), j.Dst(), j.mode) == {k};
    MirrorPassReplacesTheWindow(j);
  }

  /** Between full passes: a hot pass ends with staging equal to production exactly when everything outside production's
      window is the same as what staging holds outside its own. */
  lemma {:induction false} HotPassConvergesIff(j: Job)
    requires j.mode.Mirror? && Unhindered(j) && !j.Guarded()
    ensures j.Final() == j.source <==> j.staging - j.Dst().Keys - j.Src().Keys == j.source - j.Src().Keys
  {
    MirrorPassReplacesTheWindow(j);
    SrcIsSource(j);
    hide Job.Final, Job.Src, Job.Dst, Unhindered, Job.Guarded;
    var kept := (j.staging - j.Dst().Keys) + j.Src();
    var outside := j.staging - j.Dst().Keys - j.Src().Keys;
    if kept == j.source {
      assert forall k :: k in outside <==> k in kept && k !in j.Src();
      assert outside == j.source - j.Src().Keys;
    }
    if outside == j.source - j.Src().Keys {
      forall k ensures k in kept <==> k in j.source { assert k in outside <==> k in j.source && k !in j.Src(); }
      forall k | k in kept ensures kept[k] == j.source[k] {
        assert k !in j.Src() ==> k in outside && outside[k] == (j.source - j.Src().Keys)[k];
      }
    }
  }

  lemma {:induction false} SrcIsSource(j: Job)
    ensures forall k :: k in j.Src() ==> k in j.source && j.Src()[k] == j.source[k]
  {
  }

  lemma {:induction false} UntouchedBucket(j: Job, k: Key)
    requires j.mode.Mirror?
    requires k in Visible(j.Final(), j.dstWindow) || k in j.Src()
    requires !(k in j.Src() && j.Src()[k].bucket in j.Buckets())
    requires !(k in Visible(j.Final(), j.dstWindow) && j.Final()[k].bucket in j.Buckets())
    ensures k in j.Src() && k in j.Final() && j.Final()[k] == j.Src()[k] && k in Visible(j.Final(), j.dstWindow)
  {
    if k in j.Src() {
      OutsideDifferingBuckets(j.Src(), j.Dst(), k);
    } else {
      assert j.Final()[k] == j.staging[k];
      assert k in j.Dst();
      OutsideDifferingBuckets(j.Src(), j.Dst(), k);
    }
  }

  /** Reading back only the buckets that differed decides equality of everything compared, also when statements were
      rolled back or silently matched no row. */
  lemma {:induction false} ReadBackIsExact(j: Job)
    requires j.mode.Mirror?
    ensures j.Equal() <==>
      forall b :: b in j.Buckets() ==> !Differs(Fingerprints(j.Src()), Fingerprints(Visible(j.Final(), j.dstWindow)), b)
  {
    var src, after := j.Src(), Visible(j.Final(), j.dstWindow);
    var fs, fa := Fingerprints(src), Fingerprints(after);
    if forall b :: b in j.Buckets() ==> !Differs(fs, fa, b) {
      forall k | k in src || k in after ensures k in src && k in after && after[k] == src[k] {
        if k in src && src[k].bucket in j.Buckets() {
          assert src[k].bucket !in DifferingBuckets(fs, fa);
          OutsideDifferingBuckets(src, after, k);
        } else if k in after && after[k].bucket in j.Buckets() {
          assert after[k].bucket !in DifferingBuckets(fs, fa);
          OutsideDifferingBuckets(src, after, k);
        } else {
          UntouchedBucket(j, k);
        }
      }
    }
  }

  /** No pass takes more than the limit from a table, and none empties it on an empty answer of more than ten rows. */
  lemma {:induction false} DeletesAreBounded(j: Job)
    ensures |j.staging.Keys - j.Final().Keys| <= j.maxDeletes
    ensures |j.Src()| == 0 && |j.Dst()| > EMPTY_SOURCE_ROWS ==> j.Final().Keys == j.staging.Keys
  {
    LostRowsArePending(j);
    SubsetSize(j.staging.Keys - j.Final().Keys, j.Pending());
  }

  lemma {:induction false} LostRowsArePending(j: Job)
    ensures j.staging.Keys - j.Final().Keys <= j.Pending()
    ensures |j.Pending()| <= j.maxDeletes
    ensures |j.Src()| == 0 && |j.Dst()| > EMPTY_SOURCE_ROWS ==> j.Final().Keys == j.staging.Keys
  {
    hide Visible, DeleteKeys;
    assert j.staging.Keys <= j.Upserted().Keys;
    if |j.Src()| == 0 && |j.Dst()| > EMPTY_SOURCE_ROWS {
      assert j.Src() == map[];
      assert j.Pending() == {};
      assert j.Upserted().Keys == j.staging.Keys;
    }
  }

  lemma {:induction false} SubsetSize<T>(a: set<T>, b: set<T>)
    requires a <= b
    ensures |a| <= |b|
  {
    assert b == a + (b - a);
  }

  /** The documentation has no deletes on an empty answer of production. The code keeps the rows only when there are
      more than ten of them, or more than the limit: up to ten rows are deleted. */
  lemma {:induction false} EmptySourceKeepsRowsIff(j: Job)
    requires j.mode.Mirror? && Unhindered(j) && |j.Src()| == 0
    ensures j.Final() == j.staging <==> |j.Dst()| == 0 || |j.Dst()| > EMPTY_SOURCE_ROWS || |j.Dst()| > j.maxDeletes
  {
    assert j.Src() == map[];
    assert DeleteKeys(j.Src(), j.Dst(), j.mode) == j.Dst().Keys;
    assert j.Src() - {} == map[];
    assert j.Upserted() == j.staging;
    if |j.Dst()| != 0 && !j.Guarded() {
      assert j.Dst().Keys != {};
      var k :| k in j.Dst().Keys;
      assert k in j.staging && k !in j.Final();
    }
  }

  /** Any table of up to ten rows is emptied under the default limit. */
  lemma {:induction false} EmptySourceDeletesTenRows(rows: Table)
    requires |rows| <= EMPTY_SOURCE_ROWS
    ensures var j := Job(Mirror, map[], rows, Everything, Everything, 2000, Env(NoFault, false, {}), map[], {});
      j.Final() == map[]
  {
    var j := Job(Mirror, map[], rows, Everything, Everything, 2000, Env(NoFault, false, {}), map[], {});
    EverythingIsVisible(j.source);
    EverythingIsVisible(rows);
    hide Visible, Fingerprints;
    assert DeleteKeys(j.Src(), j.Dst(), j.mode) == rows.Keys;
    assert |rows.Keys| == |rows|;
    MirrorPassReplacesTheWindow(j);
  }

  /** An AppendOnly pass never changes or removes a row, whatever fails; unhindered it adds every missing key. */
  lemma {:induction false} AppendOnlyAddsOnly(j: Job)
    requires j.mode.AppendOnly?
    ensures forall k :: k in j.staging ==> k in j.Final() && j.Final()[k] == j.staging[k]
    ensures forall k :: k in j.Final() && k !in j.staging ==> k in j.Src() && j.Final()[k] == j.Src()[k]
    ensures Unhindered(j) ==> j.Src().Keys <= j.Final().Keys
    ensures !j.Guarded() && !j.DeleteError()
  {
    assert DeleteKeys(j.Src(), j.Dst(), j.mode) == {};
    assert j.Pending() == {};
    if Unhindered(j) { assert j.Src() - {} == j.Src(); }
  }

  /** The divergent keys of a pass, in every window: staging's compared rows but for those production compares as equal.
      A re-run after the pass finds the same ones, whatever failed or was lost in between. */
  lemma {:induction false} DivergenceIsStable(j: Job)
    requires j.mode.AppendOnly?
    ensures DivergentKeys(j.Src(), j.Dst(), j.mode) ==
      set k | k in j.staging && Sees(j.dstWindow, j.staging[k]) &&
              !(k in j.source && j.source[k] == j.staging[k] && Sees(j.srcWindow, j.source[k]))
    ensures DivergentKeys(j.Src(), Visible(j.Final(), j.dstWindow), j.mode) == DivergentKeys(j.Src(), j.Dst(), j.mode)
  {
    AppendOnlyAddsOnly(j);
  }

  /** The staging rows that differ from production's or that production does not have. */
  function Apart(source: Table, staging: Table): set<Key> {
    set k | k in staging && !(k in source && source[k] == staging[k])
  }

  /** The count is of those exactly when staging's window shows each of them and production's window shows each equal
      row that staging's shows. A full pass counts exactly them. */
  lemma {:induction false} DivergentIsApartIff(j: Job)
    requires j.mode.AppendOnly?
    ensures DivergentKeys(j.Src(), j.Dst(), j.mode) == Apart(j.source, j.staging) <==>
      forall k :: k in j.staging ==>
        if k in Apart(j.source, j.staging) then Sees(j.dstWindow, j.staging[k])
        else Sees(j.dstWindow, j.staging[k]) ==> Sees(j.srcWindow, j.staging[k])
    ensures j.srcWindow.Everything? && j.dstWindow.Everything? ==>
      DivergentKeys(j.Src(), j.Dst(), j.mode) == Apart(j.source, j.staging)
  {
    DivergenceIsStable(j);
    var found, apart := DivergentKeys(j.Src(), j.Dst(), j.mode), Apart(j.source, j.staging);
    hide DivergentKeys, Visible, Job.Src, Job.Dst;
    if found == apart {
      forall k | k in j.staging
        ensures if k in apart then Sees(j.dstWindow, j.staging[k])
                else Sees(j.dstWindow, j.staging[k]) ==> Sees(j.srcWindow, j.staging[k])
      {
        assert k in found <==> k in apart;
      }
    }
  }

  /** A row that both sides share is counted when production's cut is past it and staging's is not. */
  lemma {:induction false} EqualRowDiverges(k: Key, row: Row, srcCut: int, dstCut: int)
    requires row.ts.Some? && dstCut <= row.ts.value < srcCut
    ensures var t: Table := map[k := row];
      Job(AppendOnly, t, t, Since(srcCut), Since(dstCut), 2000, Env(NoFault, false, {}), map[], {}).DivergentCount() ==
        1
  {
    var t: Table := map[k := row];
    var j := Job(AppendOnly, t, t, Since(srcCut), Since(dstCut), 2000, Env(NoFault, false, {}), map[], {});
    DivergenceIsStable(j);
    assert j.Src() == map[] && j.Dst() == t;
    hide DivergentKeys, Visible, Fingerprints;
    assert DivergentKeys(j.Src(), j.Dst(), j.mode) == {k};
  }

  /** A row that differs is not counted when staging's copy lies before the cut. */
  lemma {:induction false} DifferingRowIsMissed(k: Key, row: Row, other: Row, srcCut: int, dstCut: int)
    requires row != other && !Sees(Since(dstCut), other)
    ensures var j := Job(AppendOnly, map[k := row], map[k := other], Since(srcCut), Since(dstCut), 2000,
                         Env(NoFault, false, {}), map[], {});
      Apart(j.source, j.staging) == {k} && j.DivergentCount() == 0
  {
    var j := Job(AppendOnly, map[k := row], map[k := other], Since(srcCut), Since(dstCut), 2000,
                 Env(NoFault, false, {}), map[], {});
    DivergenceIsStable(j);
    hide DivergentKeys, Visible, Fingerprints;
    assert DivergentKeys(j.Src(), j.Dst(), j.mode) == {};
  }
}
