/** One keyed table of one pass (pass.go): diff by bucket and row, upsert, guards, delete, read back. */
module MirrorTable {
  import opened Ordering
  import opened MirrorDiff
  import opened Wrappers

  /** What a pass compares: everything, or (hot) the rows no older than a cut. Rows without a time are never hot. */
  datatype Window = Everything | Since(cut: int)

  predicate Sees(w: Window, r: Row) {
    w.Everything? || (r.ts.Some? && r.ts.value >= w.cut)
  }

  function Visible(t: Table, w: Window): Table {
    map k | k in t && Sees(w, t[k]) :: t[k]
  }

  /** A statement that fails on staging rolls the table back to its savepoint; `silent` holds the keys whose statement
      reports success and changes nothing. */
  datatype Fault = NoFault | FingerprintFails | RowsFail | UpsertFails
  datatype Env = Env(fault: Fault, deleteFails: bool, silent: set<Key>)

  const EMPTY_SOURCE_ROWS := 10

  ghost function Merged(staging: Table, rows: Table, mode: Mode): Table {
    if mode.Mirror? then staging + rows else rows + staging
  }

  /** The inputs of one table in one pass. The two sides take their cut from their own clock; `written` and `deleted`
      are what the reflector remembers of earlier passes. */
  datatype Job = Job(mode: Mode, source: Table, staging: Table, srcWindow: Window, dstWindow: Window,
                     maxDeletes: nat, env: Env, written: Table, deleted: set<Key>) {
    function Src(): Table { Visible(source, srcWindow) }

    function Dst(): Table { Visible(staging, dstWindow) }

    ghost function Buckets(): set<Bucket> { DifferingBuckets(Fingerprints(Src()), Fingerprints(Dst())) }

    ghost predicate Changed() { !env.fault.FingerprintFails? && Src() != Dst() }

    ghost predicate Fails() {
      || env.fault.FingerprintFails?
      || (Changed() && (env.fault.RowsFail? || (env.fault.UpsertFails? && UpsertKeys(Src(), Dst(), mode) != {})))
    }

    ghost predicate Guarded() {
      var n := |DeleteKeys(Src(), Dst(), mode)|;
      !Fails() && n > 0 && ((|Src()| == 0 && |Dst()| > EMPTY_SOURCE_ROWS) || n > maxDeletes)
    }

    ghost function Pending(): set<Key> {
      if Fails() || Guarded() then {} else DeleteKeys(Src(), Dst(), mode)
    }

    ghost predicate DeleteError() { env.deleteFails && Pending() != {} }

    ghost function Upserted(): Table {
      if Fails() then staging else Merged(staging, Src() - env.silent, mode)
    }

    ghost function Final(): Table {
      if env.deleteFails then Upserted() else Upserted() - (Pending() - env.silent)
    }

    ghost function UpsertCount(): nat { if Fails() then 0 else |UpsertKeys(Src(), Dst(), mode)| }

    /** Rows are diffed, and counted, before anything is written. */
    ghost predicate Diffed() { Changed() && !env.fault.RowsFail? }

    ghost function DivergentCount(): nat { if Diffed() then |DivergentKeys(Src(), Dst(), mode)| else 0 }

    ghost function StagingWriteCount(): nat {
      if Diffed() then
        |Rewritten(UpsertKeys(Src(), Dst(), mode), Src(), written)| + |DeleteKeys(Src(), Dst(), mode) * deleted|
      else 0
    }

    /** Staging's compared rows after the pass equal production's. */
    ghost predicate Equal() { Visible(Final(), dstWindow) == Src() }
  }

  lemma {:induction false} BucketsDifferIffChanged(j: Job)
    ensures j.Buckets() == {} <==> j.Src() == j.Dst()
  {
    NoBucketDiffersIffEqual(j.Src(), j.Dst());
  }

  method TotalRows(fp: map<Bucket, Fingerprint<Table>>, ghost t: Table) returns (n: nat)
    requires fp == Fingerprints(t)
    ensures n == |t|
  {
    n := 0;
    var todo := fp.Keys;
    ghost var counted: set<Key> := {};
    while todo != {}
      invariant todo <= fp.Keys
      invariant forall k :: k in counted <==> k in t && t[k].bucket !in todo
      invariant n == |counted|
    {
      var b :| b in todo;
      todo := todo - {b};
      ghost var more := Slice(t, b).Keys;
      assert counted !! more;
      assert |counted + more| == |counted| + |more|;
      n, counted := n + fp[b].n, counted + more;
    }
    assert counted == t.Keys;
  }

  /** INSERT … ON CONFLICT DO UPDATE (Mirror) or DO NOTHING (AppendOnly) of the listed production rows. */
  method Upsert(staging: Table, keys: seq<Key>, rows: Table, mode: Mode, silent: set<Key>, ghost listed: set<Key>)
    returns (t: Table)
    requires ListsExactly(keys, listed) && listed <= rows.Keys
    ensures forall k :: k in t <==> k in staging || k in listed - silent
    ensures forall k :: k in t ==>
      t[k] == if k in listed - silent && (mode.Mirror? || k !in staging) then rows[k] else staging[k]
  {
    t := staging;
    for i := 0 to |keys|
      invariant forall k :: k in t <==> k in staging || (k in keys[..i] && k !in silent)
      invariant forall k :: k in t ==>
        t[k] == if k in keys[..i] && k !in silent && (mode.Mirror? || k !in staging) then rows[k] else staging[k]
    {
      var k := keys[i];
      assert keys[..i+1] == keys[..i] + [k];
      if k !in silent && (mode.Mirror? || k !in t) { t := t[k := rows[k]]; }
    }
    assert keys[..|keys|] == keys;
  }

  lemma {:induction false} UpsertingTheDiffMerges(j: Job, t: Table)
    requires var listed := UpsertKeys(j.Src(), j.Dst(), j.mode) - j.env.silent;
      && (forall k :: k in t <==> k in j.staging || k in listed)
      && (forall k :: k in t ==>
            t[k] == if k in listed && (j.mode.Mirror? || k !in j.staging) then j.Src()[k] else j.staging[k])
    ensures t == Merged(j.staging, j.Src() - j.env.silent, j.mode)
  {
  }

  lemma {:induction false} OneMoreGone(staging: Table, gone: set<Key>, k: Key)
    ensures (staging - gone) - {k} == staging - (gone + {k})
    ensures k !in gone ==> |gone + {k}| == |gone| + 1
  {
  }

  lemma {:induction false} AllGone(keys: seq<Key>, listed: set<Key>, silent: set<Key>, gone: set<Key>)
    requires Lists(keys, listed) && forall k :: k in gone <==> k in keys[..|keys|] && k !in silent
    ensures gone == listed - silent
  {
    assert keys[..|keys|] == keys;
  }

  method DeleteListed(staging: Table, keys: seq<Key>, silent: set<Key>, ghost listed: set<Key>)
    returns (t: Table, n: nat)
    requires ListsExactly(keys, listed) && listed <= staging.Keys
    ensures t == staging - (listed - silent)
    ensures n == |listed - silent|
  {
    ListedOnce(keys, listed);
    hide ListsExactly, Lists;
    t, n := staging, 0;
    ghost var gone: set<Key> := {};
    for i := 0 to |keys|
      invariant forall k :: k in gone <==> k in keys[..i] && k !in silent
      invariant t == staging - gone && n == |gone|
    {
      var k := keys[i];
      ListedNext(keys, listed, i);
      OneMoreGone(staging, gone, k);
      if k !in silent { t, n, gone := t - {k}, n + 1, gone + {k}; }
    }
    AllGone(keys, listed, silent, gone);
  }

  /** What the loop over the tables keeps of one table until the deletes and the read-back. */
  datatype Outcome = Outcome(compared: bool, failed: bool, buckets: seq<Bucket>, table: Table, wrote: Table,
                             pending: seq<Key>, guarded: bool, upserts: nat, divergent: nat, stagingWrites: nat)

  ghost predicate IsOutcome(o: Outcome, j: Job) {
    var s, d := j.Src(), j.Dst();
    && o.compared == j.Changed()
    && o.failed == j.Fails()
    && (j.Changed() ==> ListsExactly(o.buckets, j.Buckets()))
    && o.table == j.Upserted()
    && o.guarded == j.Guarded()
    && ListsExactly(o.pending, j.Pending())
    && (forall k :: k in o.wrote <==> !j.Fails() && k in UpsertKeys(s, d, j.mode))
    && (forall k :: k in o.wrote ==> o.wrote[k] == s[k])
    && o.upserts == j.UpsertCount() && o.divergent == j.DivergentCount() && o.stagingWrites == j.StagingWriteCount()
  }

  lemma {:induction false} ListsNothingIffEmpty(s: seq<string>, keys: set<string>)
    requires ListsExactly(s, keys)
    ensures s == [] <==> keys == {}
  {
    if s != [] { assert s[0] in keys; }
  }

  /** Compares and diffs the rows of the differing buckets only. */
  method DiffChangedRows(j: Job, buckets: seq<Bucket>)
    returns (ops: Ops, rows: Table, stagingWrites: nat)
    requires j.Diffed() && ListsExactly(buckets, j.Buckets())
    ensures IsDiff(ops, j.Src(), j.Dst(), j.mode)
    ensures UpsertKeys(j.Src(), j.Dst(), j.mode) <= rows.Keys && forall k :: k in rows ==>
      k in j.Src() && rows[k] == j.Src()[k]
    ensures stagingWrites == j.StagingWriteCount()
  {
    hide ListsExactly;
    var bs := set b | b in buckets;
    assert bs == j.Buckets() by { SameElements(buckets, j.Buckets()); }
    rows := RowsOf(j.Src(), bs);
    var dstRows := RowsOf(j.Dst(), bs);
    BucketDiffIsWholeDiff(j.Src(), j.Dst(), bs, j.mode);
    ops := DiffRows(rows, dstRows, j.mode);
    ghost var ups, dels := UpsertKeys(j.Src(), j.Dst(), j.mode), DeleteKeys(j.Src(), j.Dst(), j.mode);
    assert ups == UpsertKeys(rows, dstRows, j.mode);
    stagingWrites := StagingWrites(ops, rows, j.written, j.deleted, ups, dels);
    assert Rewritten(ups, rows, j.written) == Rewritten(ups, j.Src(), j.written);
  }

  lemma {:induction false} SameElements(s: seq<string>, keys: set<string>)
    requires ListsExactly(s, keys)
    ensures (set k | k in s) == keys
  {
  }

  /** The guards of a keyed table: deletes are dropped when production shows no row while staging shows more than ten,
      or when there are more of them than the limit. */
  method GuardDeletes(j: Job, deletes: seq<Key>) returns (guarded: bool)
    requires ListsExactly(deletes, DeleteKeys(j.Src(), j.Dst(), j.mode))
    ensures guarded == (deletes != [] &&
      ((|j.Src()| == 0 && |j.Dst()| > EMPTY_SOURCE_ROWS) || |deletes| > j.maxDeletes))
  {
    guarded := false;
    if |deletes| > 0 {
      var srcTotal := TotalRows(Fingerprints(j.Src()), j.Src());
      var dstTotal := TotalRows(Fingerprints(j.Dst()), j.Dst());
      guarded := (srcTotal == 0 && dstTotal > EMPTY_SOURCE_ROWS) || |deletes| > j.maxDeletes;
    }
  }

  lemma {:induction false} ListedCount(s: seq<string>, keys: set<string>)
    requires Lists(s, keys)
    ensures |s| == |keys|
  {
    if s == [] {
      assert keys == {};
    } else {
      var k := s[|s|-1];
      var rest := s[..|s|-1];
      assert s == rest + [k];
      ListedCount(rest, keys - {k});
    }
  }

  /** Writes the diff and decides about its deletes. */
  method WriteDiff(j: Job, ops: Ops, rows: Table) returns (table: Table, pending: seq<Key>, guarded: bool)
    requires j.Changed() && !j.Fails() && IsDiff(ops, j.Src(), j.Dst(), j.mode)
    requires UpsertKeys(j.Src(), j.Dst(), j.mode) <= rows.Keys
    requires forall k :: k in rows ==> k in j.Src() && rows[k] == j.Src()[k]
    ensures table == j.Upserted() && guarded == j.Guarded() && ListsExactly(pending, j.Pending())
  {
    hide ListsExactly;
    ghost var ups, dels := UpsertKeys(j.Src(), j.Dst(), j.mode), DeleteKeys(j.Src(), j.Dst(), j.mode);
    table := Upsert(j.staging, ops.upsert, rows, j.mode, j.env.silent, ups);
    UpsertingTheDiffMerges(j, table);
    guarded := GuardDeletes(j, ops.delete);
    ListedOnce(ops.delete, dels);
    ListedCount(ops.delete, dels);
    pending := if guarded then [] else ops.delete;
    if guarded { ListsExactlyNothing(); }
  }

  lemma {:induction false} ListsExactlyNothing()
    ensures ListsExactly([], {})
  {
  }

  lemma {:induction false} UnchangedOutcome(j: Job)
    requires !j.env.fault.FingerprintFails? && j.Src() == j.Dst()
    ensures UpsertKeys(j.Src(), j.Dst(), j.mode) == {} && DeleteKeys(j.Src(), j.Dst(), j.mode) == {}
    ensures j.Upserted() == j.staging
  {
  }

  /** Everything a pass does to one table before the deletes. */
  method ReflectTable(j: Job) returns (o: Outcome)
    ensures IsOutcome(o, j)
  {
    hide ListsExactly, Lists, Merged, UpsertKeys, DeleteKeys, DivergentKeys, Rewritten, Visible;
    ListsExactlyNothing();
    o := Outcome(false, false, [], j.staging, map[], [], false, 0, 0, 0);
    if j.env.fault.FingerprintFails? { return o.(failed := true); }
    var buckets := DiffBuckets(Fingerprints(j.Src()), Fingerprints(j.Dst()));
    BucketsDifferIffChanged(j);
    ListsNothingIffEmpty(buckets, j.Buckets());
    if buckets == [] {
      UnchangedOutcome(j);
      return o;
    }
    o := o.(compared := true, buckets := buckets);
    if j.env.fault.RowsFail? { return o.(failed := true); }
    var ops, rows, writes := DiffChangedRows(j, buckets);
    o := o.(divergent := ops.divergent, stagingWrites := writes);
    ListsNothingIffEmpty(ops.upsert, UpsertKeys(j.Src(), j.Dst(), j.mode));
    if ops.upsert != [] && j.env.fault.UpsertFails? { return o.(failed := true); }
    o := FinishTable(j, ops, rows, o);
  }

  method FinishTable(j: Job, ops: Ops, rows: Table, sofar: Outcome)
    returns (o: Outcome)
    requires j.Changed() && !j.Fails() && IsDiff(ops, j.Src(), j.Dst(), j.mode)
    requires UpsertKeys(j.Src(), j.Dst(), j.mode) <= rows.Keys
    requires forall k :: k in rows ==> k in j.Src() && rows[k] == j.Src()[k]
    requires sofar.compared && !sofar.failed && ListsExactly(sofar.buckets, j.Buckets())
    requires sofar.divergent == j.DivergentCount() && sofar.stagingWrites == j.StagingWriteCount()
    ensures IsOutcome(o, j)
  {
    hide ListsExactly, Lists, Merged, UpsertKeys, DeleteKeys, DivergentKeys, Rewritten, Visible;
    var table, pending, guarded := WriteDiff(j, ops, rows);
    ghost var ups := UpsertKeys(j.Src(), j.Dst(), j.mode);
    ListedOnce(ops.upsert, ups);
    ListedCount(ops.upsert, ups);
    hide IsDiff, Job.Upserted, Job.Pending, Job.Guarded, Job.Changed, Job.Src, Job.Dst, Job.Buckets;
    var keys := set k | k in ops.upsert;
    assert keys == ups by { SameElements(ops.upsert, ups); }
    o := sofar.(table := table, wrote := map k | k in keys :: rows[k], guarded := guarded,
                pending := pending, upserts := |ops.upsert|);
  }
}