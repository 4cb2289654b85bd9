/** Where the rows of one pass end, stated from the two databases, the clocks and the limits alone. */
module MirrorEnds {
  import opened MirrorDiff
  import opened MirrorTable
  import opened MirrorPass

  /** Nothing on staging fails or is lost for this table. */
  ghost predicate Calm(p: PassJob, name: string) {
    name in p.weather.env ==> p.weather.env[name] == Env(NoFault, false, {})
  }

  lemma {:induction false} CalmTable(p: PassJob, i: nat)
    requires i < |p.specs| && p.Planned(i) && Calm(p, p.specs[i].name)
    ensures !RolledBack(p, i) && !DeletesFail(p, i) && forall k :: !Silenced(p, i, k)
  {
    hide ToWrite, ToDelete, FoundChanged, Refused;
  }

  lemma {:induction false} SameRowsSameTable(t: Table, u: Table)
    requires forall k :: SameRow(t, u, k)
    ensures t == u
  {
    forall k ensures k in t <==> k in u { assert SameRow(t, u, k); }
    forall k | k in t ensures t[k] == u[k] { assert SameRow(t, u, k); }
  }

  lemma {:induction false} WholeSides(p: PassJob, i: nat)
    requires i < |p.specs| && p.Planned(i) && (p.weather.full || !p.specs[i].hot)
    ensures ProductionSide(p, i) == p.production[p.specs[i].name]
    ensures StagingSide(p, p.staging, i) == p.staging[p.specs[i].name]
    ensures p.specs[i].mode == Mirror ==>
      ToDelete(p, i) == p.staging[p.specs[i].name].Keys - p.production[p.specs[i].name].Keys
  {
  }

  /** A Mirror table that is not hot, in any pass, and every Mirror table in a full pass, ends as production's. */
  lemma {:induction false} WholeTableEnds(p: PassJob, tx: Tables, i: nat)
    requires Ends(p, tx) && i < |p.specs| && p.Planned(i) && Calm(p, p.specs[i].name)
    requires p.specs[i].mode == Mirror && (p.weather.full || !p.specs[i].hot)
    requires var rows, before := p.production[p.specs[i].name], p.staging[p.specs[i].name];
      |before.Keys - rows.Keys| <= p.maxDeletes && (rows != map[] || |before| <= 10)
    ensures tx[p.specs[i].name] == p.production[p.specs[i].name]
  {
    CalmTable(p, i);
    WholeSides(p, i);
    var rows, t := p.production[p.specs[i].name], tx[p.specs[i].name];
    assert !Refused(p, i);
    forall k ensures SameRow(t, rows, k) {
      assert RowEnds(p, i, t, k);
      assert k in ToWrite(p, i) <==> k in rows && !SameRow(rows, p.staging[p.specs[i].name], k);
    }
    SameRowsSameTable(t, rows);
  }

  /** A hot Mirror table in a hot pass: the rows that production shows after its cut are staging's, the rows that only
      staging shows after its own cut are gone, and no other row moves. */
  lemma {:induction false} HotTableEnds(p: PassJob, tx: Tables, i: nat, k: Key)
    requires Ends(p, tx) && i < |p.specs| && p.Planned(i) && Calm(p, p.specs[i].name)
    requires p.specs[i].mode == Mirror && p.specs[i].hot && !p.weather.full
    requires var rows, before := p.production[p.specs[i].name], p.staging[p.specs[i].name];
      && |set x | x in before && Recent(before[x], p.weather.dstCut) &&
                  !(x in rows && Recent(rows[x], p.weather.srcCut))| <= p.maxDeletes
      && ((exists x :: x in rows && Recent(rows[x], p.weather.srcCut)) ||
          |set x | x in before && Recent(before[x], p.weather.dstCut)| <= 10)
    ensures var rows, before, t := p.production[p.specs[i].name], p.staging[p.specs[i].name], tx[p.specs[i].name];
      if k in rows && Recent(rows[k], p.weather.srcCut) then k in t && t[k] == rows[k]
      else if k in before && Recent(before[k], p.weather.dstCut) then k !in t
      else SameRow(t, before, k)
  {
    CalmTable(p, i);
    HotSides(p, i);
    assert !Refused(p, i) by { hide RolledBack; }
    var rows, before, t := p.production[p.specs[i].name], p.staging[p.specs[i].name], tx[p.specs[i].name];
    assert RowEnds(p, i, t, k);
    HotKeys(p, i, k);
    hide ToWrite, ToDelete, RolledBack, Refused, DeletesFail;
  }

  ghost predicate Recent(r: Row, cut: int) { r.ts.Some? && r.ts.value >= cut }

  lemma {:induction false} HotSides(p: PassJob, i: nat)
    requires i < |p.specs| && p.Planned(i) && p.specs[i].mode == Mirror && p.specs[i].hot && !p.weather.full
    ensures var rows, before := p.production[p.specs[i].name], p.staging[p.specs[i].name];
      && ToDelete(p, i) == (set x | x in before && Recent(before[x], p.weather.dstCut) &&
                                    !(x in rows && Recent(rows[x], p.weather.srcCut)))
      && |StagingSide(p, p.staging, i)| == |set x | x in before && Recent(before[x], p.weather.dstCut)|
      && (ProductionSide(p, i) == map[] <==> forall x :: x in rows ==> !Recent(rows[x], p.weather.srcCut))
  {
    var rows, before := p.production[p.specs[i].name], p.staging[p.specs[i].name];
    var shown := StagingSide(p, p.staging, i);
    assert shown.Keys == set x | x in before && Recent(before[x], p.weather.dstCut);
    assert |shown.Keys| == |shown|;
    assert forall x :: x in ProductionSide(p, i) <==> x in rows && Recent(rows[x], p.weather.srcCut);
  }

  lemma {:induction false} HotKeys(p: PassJob, i: nat, k: Key)
    requires i < |p.specs| && p.Planned(i) && p.specs[i].mode == Mirror && p.specs[i].hot && !p.weather.full
    ensures var rows, before := p.production[p.specs[i].name], p.staging[p.specs[i].name];
      && (k in ToWrite(p, i) ==> k in rows && Recent(rows[k], p.weather.srcCut))
      && (k in rows && Recent(rows[k], p.weather.srcCut) && k !in ToWrite(p, i) ==> SameRow(rows, before, k))
      && (k in ToDelete(p, i) <==> k in before && Recent(before[k], p.weather.dstCut) &&
                                   !(k in rows && Recent(rows[k], p.weather.srcCut)))
  {
  }

  /** An AppendOnly table keeps every row it has and gains the rows it lacks that the pass looks at. */
  lemma {:induction false} AppendTableEnds(p: PassJob, tx: Tables, i: nat, k: Key)
    requires Ends(p, tx) && i < |p.specs| && p.Planned(i) && Calm(p, p.specs[i].name)
    requires p.specs[i].mode == AppendOnly
    ensures var rows, before, t := p.production[p.specs[i].name], p.staging[p.specs[i].name], tx[p.specs[i].name];
      if k in before then k in t && t[k] == before[k]
      else if k in rows && (p.weather.full || !p.specs[i].hot || Recent(rows[k], p.weather.srcCut)) then
        k in t && t[k] == rows[k]
      else k !in t
  {
    CalmTable(p, i);
    assert RowEnds(p, i, tx[p.specs[i].name], k);
    hide RolledBack, Refused, DeletesFail;
  }

  /** A table whose fingerprint or rows cannot be read on staging, or one of whose needed upserts fails, stays. */
  lemma {:induction false} TroubledTableStays(p: PassJob, tx: Tables, i: nat)
    requires Ends(p, tx) && i < |p.specs| && p.Planned(i) && p.specs[i].name in p.weather.env
    requires p.weather.env[p.specs[i].name].fault in {FingerprintFails, RowsFail} ||
             (p.weather.env[p.specs[i].name].fault == UpsertFails && ToWrite(p, i) != {})
    ensures tx[p.specs[i].name] == p.staging[p.specs[i].name]
  {
    var before, t := p.staging[p.specs[i].name], tx[p.specs[i].name];
    forall k ensures SameRow(t, before, k) {
      assert RowEnds(p, i, t, k);
      if !RolledBack(p, i) { NothingDiffers(p, i, k); }
    }
    SameRowsSameTable(t, before);
  }

  lemma {:induction false} NothingDiffers(p: PassJob, i: nat, k: Key)
    requires i < |p.specs| && p.Planned(i) && Meets(p, i, RowsFail) && !RolledBack(p, i)
    ensures k !in ToWrite(p, i) && k !in ToDelete(p, i)
  {
    assert !FoundChanged(p, i);
    hide ProductionSide, StagingSide;
  }

  /** More deletes than the limit, or no row from production against more than ten: no row of the table leaves. */
  lemma {:induction false} GuardedTableKeeps(p: PassJob, tx: Tables, i: nat)
    requires Ends(p, tx) && i < |p.specs| && p.Planned(i) && (p.weather.full || !p.specs[i].hot)
    requires var rows, before := p.production[p.specs[i].name], p.staging[p.specs[i].name];
      |before.Keys - rows.Keys| > p.maxDeletes || (rows == map[] && |before| > 10)
    ensures p.staging[p.specs[i].name].Keys <= tx[p.specs[i].name].Keys
  {
    WholeSides(p, i);
    var before, t := p.staging[p.specs[i].name], tx[p.specs[i].name];
    forall k | k in before ensures k in t {
      assert RowEnds(p, i, t, k);
      WritesAreProductions(p, i, k);
      hide ToWrite, RolledBack, ProductionSide, StagingSide;
    }
  }

  lemma {:induction false} WritesAreProductions(p: PassJob, i: nat, k: Key)
    requires i < |p.specs| && p.Planned(i)
    ensures k in ToWrite(p, i) ==> k in p.production[p.specs[i].name]
    ensures k in ToDelete(p, i) ==> ToDelete(p, i) != {} && p.specs[i].mode == Mirror
  {
  }
}
