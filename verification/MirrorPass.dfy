/** One pass over all reflected tables (pass.go): reflect parents first, delete children first, read back, commit. */
module MirrorPass {
  import opened Ordering
  import opened MirrorDiff
  import opened MirrorTable
  import opened MirrorConvergence
  import opened Wrappers

  datatype Spec = Spec(name: string, mode: Mode, hot: bool)

  /** What one pass meets: its kind, the two clocks' cuts, the enterprise row count, the lock, a failing transaction,
      and the staging statements of each table. */
  datatype Weather = Weather(full: bool, srcCut: int, dstCut: int, enterpriseRows: nat, locked: bool, aborts: bool,
                             env: map<string, Env>)

  datatype PassResult = PassResult(kind: string, converged: bool, tables: nat, changed: nat, upserts: nat, deletes: nat,
                                   divergent: nat, guarded: nat, errors: nat, unconverged: nat, stagingWrites: nat)
  datatype PassOutcome = Failed | Skipped | Done(result: PassResult)

  const CAP_ROWS := 200000

  type Tables = map<string, Table>

  /** All inputs of a pass as one value. */
  datatype PassJob = PassJob(specs: seq<Spec>, production: Tables, staging: Tables, maxDeletes: nat, weather: Weather,
                             lastWritten: Tables, lastDeleted: map<string, set<Key>>) {
    ghost predicate Valid() {
      forall i, j :: 0 <= i < j < |specs| ==> specs[i].name != specs[j].name
    }

    /** buildPlan gives no plan for a table that is absent on a side. */
    predicate Planned(i: nat)
      requires i < |specs|
    {
      specs[i].name in production && specs[i].name in staging
    }

    function At(i: nat): Job
      requires i < |specs| && Planned(i)
    {
      var s := specs[i];
      var hot := !weather.full && s.hot;
      Job(s.mode, production[s.name], staging[s.name],
          if hot then Since(weather.srcCut) else Everything, if hot then Since(weather.dstCut) else Everything,
          maxDeletes, if s.name in weather.env then weather.env[s.name] else Env(NoFault, false, {}),
          if s.name in lastWritten then lastWritten[s.name] else map[],
          if s.name in lastDeleted then lastDeleted[s.name] else {})
    }

    /** The sum of a count over the first n planned tables. */
    ghost function Tally(n: nat, count: Job -> nat): nat
      requires n <= |specs|
    {
      if n == 0 then 0 else Tally(n - 1, count) + (if Planned(n - 1) then count(At(n - 1)) else 0)
    }

    /** No table of the pass failed, was guarded, or still differs in what the pass compares. */
    ghost predicate AllEqual() {
      forall i :: 0 <= i < |specs| && Planned(i) ==>
        !At(i).Fails() && !At(i).Guarded() && !At(i).DeleteError() && (At(i).mode.Mirror? ==> At(i).Equal())
    }
  }

  // ---- what a pass is for, said of the two databases alone ----

  /** Whether a pass looks at a row: it looks at all of them, but a hot pass over a hot table only at those whose time
      is not before the cut. */
  ghost predicate Compared(w: Weather, s: Spec, cut: int, r: Row) {
    w.full || !s.hot || (r.ts.Some? && cut <= r.ts.value)
  }

  ghost function ProductionSide(p: PassJob, i: nat): Table
    requires i < |p.specs| && p.Planned(i)
  {
    var rows := p.production[p.specs[i].name];
    map k | k in rows && Compared(p.weather, p.specs[i], p.weather.srcCut, rows[k]) :: rows[k]
  }

  ghost function StagingSide(p: PassJob, tables: Tables, i: nat): Table
    requires i < |p.specs| && p.specs[i].name in tables
  {
    var rows := tables[p.specs[i].name];
    map k | k in rows && Compared(p.weather, p.specs[i], p.weather.dstCut, rows[k]) :: rows[k]
  }

  ghost function ToWrite(p: PassJob, i: nat): set<Key>
    requires i < |p.specs| && p.Planned(i)
  {
    var prod, stag := ProductionSide(p, i), StagingSide(p, p.staging, i);
    set k | k in prod && !(k in stag && (p.specs[i].mode == AppendOnly || stag[k] == prod[k]))
  }

  ghost function ToDelete(p: PassJob, i: nat): set<Key>
    requires i < |p.specs| && p.Planned(i)
  {
    var prod, stag := ProductionSide(p, i), StagingSide(p, p.staging, i);
    set k | k in stag && k !in prod && p.specs[i].mode == Mirror
  }

  /** The keys of an AppendOnly table that the pass counts and leaves alone. */
  ghost function Foreign(p: PassJob, i: nat): set<Key>
    requires i < |p.specs| && p.Planned(i)
  {
    var prod, stag := ProductionSide(p, i), StagingSide(p, p.staging, i);
    set k | k in stag && !(k in prod && prod[k] == stag[k]) && p.specs[i].mode == AppendOnly
  }

  ghost predicate Meets(p: PassJob, i: nat, fault: Fault)
    requires i < |p.specs|
  {
    p.specs[i].name in p.weather.env && p.weather.env[p.specs[i].name].fault == fault
  }

  ghost predicate Silenced(p: PassJob, i: nat, k: Key)
    requires i < |p.specs|
  {
    p.specs[i].name in p.weather.env && k in p.weather.env[p.specs[i].name].silent
  }

  /** The two sides show different rows, and staging could be read. */
  ghost predicate FoundChanged(p: PassJob, i: nat)
    requires i < |p.specs| && p.Planned(i)
  {
    !Meets(p, i, FingerprintFails) && ProductionSide(p, i) != StagingSide(p, p.staging, i)
  }

  ghost predicate RolledBack(p: PassJob, i: nat)
    requires i < |p.specs| && p.Planned(i)
  {
    || Meets(p, i, FingerprintFails)
    || (Meets(p, i, RowsFail) && FoundChanged(p, i))
    || (Meets(p, i, UpsertFails) && ToWrite(p, i) != {})
  }

  /** The guards: production shows no row while staging shows more than ten, or there are more deletes than the
      limit. */
  ghost predicate Refused(p: PassJob, i: nat)
    requires i < |p.specs| && p.Planned(i)
  {
    && !RolledBack(p, i) && ToDelete(p, i) != {}
    && ((ProductionSide(p, i) == map[] && |StagingSide(p, p.staging, i)| > 10) || |ToDelete(p, i)| > p.maxDeletes)
  }

  ghost predicate DeletesFail(p: PassJob, i: nat)
    requires i < |p.specs| && p.Planned(i)
  {
    && !RolledBack(p, i) && !Refused(p, i) && ToDelete(p, i) != {}
    && p.specs[i].name in p.weather.env && p.weather.env[p.specs[i].name].deleteFails
  }

  ghost predicate SameRow(t: Table, u: Table, k: Key) {
    (k in t <==> k in u) && (k in t ==> t[k] == u[k])
  }

  /** Where one row of a table ends. */
  ghost predicate RowEnds(p: PassJob, i: nat, t: Table, k: Key)
    requires i < |p.specs| && p.Planned(i)
  {
    var rows, before := p.production[p.specs[i].name], p.staging[p.specs[i].name];
    if RolledBack(p, i) || Silenced(p, i, k) then SameRow(t, before, k)
    else if k in ToWrite(p, i) && (p.specs[i].mode == Mirror || k !in before) then SameRow(t, rows, k)
    else if k in ToDelete(p, i) && !Refused(p, i) && !DeletesFail(p, i) then k !in t
    else SameRow(t, before, k)
  }

  ghost predicate Ends(p: PassJob, tx: Tables) {
    && tx.Keys == p.staging.Keys
    && (forall i, k :: 0 <= i < |p.specs| && p.Planned(i) ==> RowEnds(p, i, tx[p.specs[i].name], k))
    && (forall name :: name in tx && (forall i :: 0 <= i < |p.specs| && p.Planned(i) ==> p.specs[i].name != name) ==>
          tx[name] == p.staging[name])
  }

  /** The rows the reflector remembers bringing about and has to bring about again. */
  ghost function BlamedRows(p: PassJob, i: nat): nat
    requires i < |p.specs| && p.Planned(i)
  {
    var name := p.specs[i].name;
    |set k | k in ToWrite(p, i) && name in p.lastWritten && k in p.lastWritten[name] &&
             p.lastWritten[name][k] == p.production[name][k]| +
    |set k | k in ToDelete(p, i) && name in p.lastDeleted && k in p.lastDeleted[name]|
  }

  /** A sum over the first n planned tables. */
  ghost function Sum(p: PassJob, tx: Tables, n: nat, f: (PassJob, Tables, nat) -> nat): nat
    requires n <= |p.specs|
  {
    if n == 0 then 0 else Sum(p, tx, n - 1, f) + if p.Planned(n - 1) then f(p, tx, n - 1) else 0
  }

  ghost predicate IsPlanned(p: PassJob, i: nat) { i < |p.specs| && p.Planned(i) }

  ghost function Planneds(p: PassJob, tx: Tables, i: nat): nat { 1 }
  ghost function Changeds(p: PassJob, tx: Tables, i: nat): nat {
    if IsPlanned(p, i) && FoundChanged(p, i) then 1 else 0
  }
  ghost function Writes(p: PassJob, tx: Tables, i: nat): nat {
    if IsPlanned(p, i) && !RolledBack(p, i) then |ToWrite(p, i)| else 0
  }
  ghost function Foreigns(p: PassJob, tx: Tables, i: nat): nat {
    if IsPlanned(p, i) && FoundChanged(p, i) && !Meets(p, i, RowsFail) then |Foreign(p, i)| else 0
  }
  ghost function Blames(p: PassJob, tx: Tables, i: nat): nat {
    if IsPlanned(p, i) && FoundChanged(p, i) && !Meets(p, i, RowsFail) then BlamedRows(p, i) else 0
  }
  ghost function Refusals(p: PassJob, tx: Tables, i: nat): nat {
    if IsPlanned(p, i) && Refused(p, i) then 1 else 0
  }
  ghost function Errors(p: PassJob, tx: Tables, i: nat): nat {
    if IsPlanned(p, i) && (RolledBack(p, i) || DeletesFail(p, i)) then 1 else 0
  }

  /** The rows that left staging. */
  ghost function Gone(p: PassJob, tx: Tables, i: nat): nat {
    if IsPlanned(p, i) && p.specs[i].name in tx then |p.staging[p.specs[i].name].Keys - tx[p.specs[i].name].Keys| else 0
  }

  /** A changed Mirror table that the pass leaves different from production in what it compares. */
  ghost function StillApart(p: PassJob, tx: Tables, i: nat): nat {
    if IsPlanned(p, i) && p.specs[i].name in tx && FoundChanged(p, i) && p.specs[i].mode == Mirror &&
       StagingSide(p, tx, i) != ProductionSide(p, i)
    then 1 else 0
  }

  /** The tables a pass compared and brought to production's state, as far as it looks. */
  ghost predicate Settled(p: PassJob, tx: Tables, i: nat)
    requires i < |p.specs| && p.Planned(i) && p.specs[i].name in tx
  {
    && !RolledBack(p, i) && !Refused(p, i) && !DeletesFail(p, i)
    && (p.specs[i].mode == Mirror ==> StagingSide(p, tx, i) == ProductionSide(p, i))
  }

  /** The result of a completed pass that leaves its transaction at tx. */
  ghost predicate Counts(p: PassJob, tx: Tables, r: PassResult, dryRun: bool)
    requires Ends(p, tx)
  {
    var n := |p.specs|;
    && r.kind == (if p.weather.full then "full" else "hot")
    && r.tables == Sum(p, tx, n, Planneds) && r.changed == Sum(p, tx, n, Changeds)
    && r.upserts == Sum(p, tx, n, Writes) && r.deletes == Sum(p, tx, n, Gone)
    && r.divergent == Sum(p, tx, n, Foreigns) && r.stagingWrites == Sum(p, tx, n, Blames)
    && r.guarded == Sum(p, tx, n, Refusals) && r.errors == Sum(p, tx, n, Errors)
    && r.unconverged == Sum(p, tx, n, StillApart)
    && (r.converged <==> !dryRun && forall i :: 0 <= i < n && p.Planned(i) ==> Settled(p, tx, i))
  }

  /** What the reflector remembers of a table after a completed pass: the memory grows by what the pass wrote and
      deleted, and is dropped first when it holds more than 200000 rows. */
  ghost predicate RecallsRows(p: PassJob, i: nat, written: Tables)
    requires i < |p.specs| && p.Planned(i)
  {
    var name := p.specs[i].name;
    var wrote := if RolledBack(p, i) then {} else ToWrite(p, i);
    var before: Table := if name in p.lastWritten then p.lastWritten[name] else map[];
    var now: Table := if name in written then written[name] else map[];
    && (forall k :: k in wrote ==> k in now && SameRow(now, p.production[name], k))
    && (forall k :: k !in wrote ==> SameRow(now, if |before| > 200000 && wrote != {} then map[] else before, k))
  }

  ghost predicate RecallsKeys(p: PassJob, i: nat, deleted: map<string, set<Key>>)
    requires i < |p.specs| && p.Planned(i)
  {
    var name := p.specs[i].name;
    var sent := if RolledBack(p, i) || Refused(p, i) || DeletesFail(p, i) then {} else ToDelete(p, i);
    var before := if name in p.lastDeleted then p.lastDeleted[name] else {};
    (if name in deleted then deleted[name] else {}) == (if |before| > 200000 && sent != {} then {} else before) + sent
  }

  ghost predicate Recalls(p: PassJob, written: Tables, deleted: map<string, set<Key>>) {
    && (forall i :: 0 <= i < |p.specs| && p.Planned(i) ==> RecallsRows(p, i, written) && RecallsKeys(p, i, deleted))
    && RemembersOthers(p, written, deleted)
  }

  ghost function One(b: bool): nat { if b then 1 else 0 }

  ghost function FailCount(j: Job): nat { One(j.Fails()) }
  ghost function GuardCount(j: Job): nat { One(j.Guarded()) }
  ghost function DeleteErrorCount(j: Job): nat { One(j.DeleteError()) }
  ghost function UnconvergedCount(j: Job): nat { One(j.mode.Mirror? && j.Changed() && !j.Equal()) }
  ghost function ChangedCount(j: Job): nat { One(j.Changed()) }
  ghost function UpsertCount(j: Job): nat { j.UpsertCount() }
  ghost function DivergentCount(j: Job): nat { j.DivergentCount() }
  ghost function StagingWriteCount(j: Job): nat { j.StagingWriteCount() }
  ghost function DeletedCount(j: Job): nat {
    if j.env.deleteFails then 0 else |j.Pending() - j.env.silent|
  }

  lemma {:induction false} TallyZeroIff(p: PassJob, n: nat, count: Job -> nat)
    requires n <= |p.specs|
    ensures p.Tally(n, count) == 0 <==> forall i :: 0 <= i < n && p.Planned(i) ==> count(p.At(i)) == 0
  {
    if n > 0 { TallyZeroIff(p, n - 1, count); }
  }

  lemma {:induction false} TallyStep(p: PassJob, n: nat, count: Job -> nat)
    requires n < |p.specs|
    ensures p.Tally(n + 1, count) == p.Tally(n, count) + if p.Planned(n) then count(p.At(n)) else 0
  {
  }

  lemma {:induction false} NothingTallied(p: PassJob, count: Job -> nat)
    ensures p.Tally(0, count) == 0
  {
  }

  lemma {:induction false} TallyGrows(p: PassJob, m: nat, n: nat, count: Job -> nat)
    requires m <= n <= |p.specs|
    ensures p.Tally(m, count) <= p.Tally(n, count)
    decreases n
  {
    if m < n { TallyGrows(p, m, n - 1, count); }
  }

  lemma {:induction false} SidesAt(p: PassJob, i: nat)
    requires i < |p.specs| && p.Planned(i)
    ensures p.At(i).Src() == ProductionSide(p, i) && p.At(i).Dst() == StagingSide(p, p.staging, i)
    ensures p.At(i).mode == p.specs[i].mode && p.At(i).maxDeletes == p.maxDeletes
    ensures p.At(i).staging == p.staging[p.specs[i].name] && p.At(i).source == p.production[p.specs[i].name]
    ensures forall fault | fault != NoFault :: p.At(i).env.fault == fault <==> Meets(p, i, fault)
    ensures forall k :: k in p.At(i).env.silent <==> Silenced(p, i, k)
  {
  }

  lemma {:induction false} KeysAt(p: PassJob, i: nat)
    requires i < |p.specs| && p.Planned(i)
    ensures var j := p.At(i);
      && UpsertKeys(j.Src(), j.Dst(), j.mode) == ToWrite(p, i) && DeleteKeys(j.Src(), j.Dst(), j.mode) == ToDelete(p, i)
      && DivergentKeys(j.Src(), j.Dst(), j.mode) == Foreign(p, i)
  {
    SidesAt(p, i);
    hide PassJob.At, Job.Src, Job.Dst, ProductionSide, StagingSide;
  }

  lemma {:induction false} NothingToWrite(j: Job)
    requires j.Src() == j.Dst()
    ensures UpsertKeys(j.Src(), j.Dst(), j.mode) == {}
  {
    hide Job.Src, Job.Dst;
  }

  lemma {:induction false} FlagsAt(p: PassJob, i: nat)
    requires i < |p.specs| && p.Planned(i)
    ensures var j := p.At(i);
      && (j.Changed() <==> FoundChanged(p, i)) && (j.Fails() <==> RolledBack(p, i))
      && (j.Guarded() <==> Refused(p, i)) && (j.DeleteError() <==> DeletesFail(p, i))
      && j.Pending() == if RolledBack(p, i) || Refused(p, i) then {} else ToDelete(p, i)
  {
    var j := p.At(i);
    SidesAt(p, i);
    KeysAt(p, i);
    if j.Src() == j.Dst() { NothingToWrite(j); }
    assert j.env.deleteFails <==> p.specs[i].name in p.weather.env && p.weather.env[p.specs[i].name].deleteFails;
    hide PassJob.At, Job.Src, Job.Dst, ProductionSide, StagingSide, ToWrite, ToDelete, UpsertKeys, DeleteKeys, Meets;
  }

  /** A Mirror table that has not changed is equal already. */
  lemma {:induction false} UnchangedIsEqual(j: Job)
    requires j.mode.Mirror? && !j.Fails() && !j.Changed()
    ensures j.Equal()
  {
    assert j.Src() == j.Dst();
    assert DeleteKeys(j.Src(), j.Dst(), j.mode) == {};
    assert j.Final() == j.staging by {
      forall k | k in j.Src() ensures k in j.staging && j.staging[k] == j.Src()[k] { assert k in j.Dst(); }
    }
  }

  /** The pass reports convergence exactly when nothing failed or was guarded and every compared Mirror row is equal. */
  lemma {:induction false} ConvergedIffAllEqual(p: PassJob)
    requires p.Valid()
    ensures var n := |p.specs|;
      (p.Tally(n, FailCount) + p.Tally(n, DeleteErrorCount) == 0 && p.Tally(n, GuardCount) == 0 &&
       p.Tally(n, UnconvergedCount) == 0) <==> p.AllEqual()
  {
    var n := |p.specs|;
    TallyZeroIff(p, n, FailCount);
    TallyZeroIff(p, n, DeleteErrorCount);
    TallyZeroIff(p, n, GuardCount);
    TallyZeroIff(p, n, UnconvergedCount);
    hide Job.Equal, Job.Fails, Job.Guarded, Job.DeleteError, Job.Changed;
    forall i | 0 <= i < n && p.Planned(i) && p.At(i).mode.Mirror? && !p.At(i).Fails() && !p.At(i).Changed()
      ensures p.At(i).Equal()
    {
      UnchangedIsEqual(p.At(i));
    }
  }

  const NOTHING := Outcome(false, false, [], map[], map[], [], false, 0, 0, 0)

  ghost predicate Reflected(p: PassJob, outs: seq<Outcome>, n: nat)
    requires n <= |p.specs|
  {
    && |outs| == n
    && forall i :: 0 <= i < n ==>
         if p.Planned(i) then IsOutcome(outs[i], p.At(i)) else outs[i] == NOTHING
  }

  /** The transaction's tables: the first n reflected ones at `done`, all others as they were. */
  ghost predicate Holds(p: PassJob, tx: Tables, from: nat, to: nat, before: Job -> Table, done: Job -> Table)
    requires to <= |p.specs|
  {
    && tx.Keys == p.staging.Keys
    && (forall i :: 0 <= i < |p.specs| && p.Planned(i) ==>
          tx[p.specs[i].name] == (if from <= i < to then done else before)(p.At(i)))
    && (forall name :: name in tx && (forall i :: 0 <= i < |p.specs| && p.Planned(i) ==> p.specs[i].name != name) ==>
          tx[name] == p.staging[name])
  }

  lemma {:induction false} HoldsNext(p: PassJob, tx: Tables, from: nat, to: nat, i: nat, t: Table, before: Job -> Table,
                                     done: Job -> Table)
    requires p.Valid() && from <= to <= |p.specs| && Holds(p, tx, from, to, before, done)
    requires i < |p.specs| && (i == to || i + 1 == from)
    requires p.Planned(i) ==> t == done(p.At(i))
    ensures Holds(p, if p.Planned(i) then tx[p.specs[i].name := t] else tx,
                  if i == to then from else i, if i == to then to + 1 else to, before, done)
  {
    hide PassJob.At;
    if p.Planned(i) {
      var next := tx[p.specs[i].name := t];
      PlannedIsStaged(p, i);
      assert next.Keys == tx.Keys;
      forall k | 0 <= k < |p.specs| && k != i ensures p.specs[k].name != p.specs[i].name {}
      hide PassJob.Planned;
    }
  }

  lemma {:induction false} PlannedIsStaged(p: PassJob, i: nat)
    requires p.Valid() && i < |p.specs| && p.Planned(i)
    ensures p.specs[i].name in p.staging
  {
  }

  ghost function Untouched(j: Job): Table { j.staging }
  ghost function AfterUpserts(j: Job): Table { j.Upserted() }
  ghost function AfterDeletes(j: Job): Table { j.Final() }

  lemma {:induction false} HoldsAtFirst(p: PassJob, before: Job -> Table, done: Job -> Table)
    requires forall j :: before(j) == j.staging
    ensures Holds(p, p.staging, 0, 0, before, done)
  {
  }

  lemma {:induction false} HoldsBefore(p: PassJob, tx: Tables, before: Job -> Table, done: Job -> Table,
                                       later: Job -> Table)
    requires Holds(p, tx, 0, |p.specs|, before, done)
    ensures Holds(p, tx, |p.specs|, |p.specs|, done, later)
  {
  }

  lemma {:induction false} HeldAt(p: PassJob, tx: Tables, from: nat, to: nat, i: nat, before: Job -> Table,
                                  done: Job -> Table)
    requires to <= |p.specs| && Holds(p, tx, from, to, before, done) && i < |p.specs| && p.Planned(i)
    ensures p.specs[i].name in tx && tx[p.specs[i].name] == (if from <= i < to then done else before)(p.At(i))
  {
  }

  /** The loop over the tables, parents first. */
  method ReflectAll(p: PassJob) returns (tx: Tables, outs: seq<Outcome>)
    requires p.Valid()
    ensures Reflected(p, outs, |p.specs|)
    ensures Holds(p, tx, 0, |p.specs|, Untouched, AfterUpserts)
  {
    hide IsOutcome, Job.Fails, Job.Guarded, Job.Upserted, Holds;
    assert Holds(p, p.staging, 0, 0, Untouched, AfterUpserts) by { HoldsAtFirst(p, Untouched, AfterUpserts); }
    tx, outs := p.staging, [];
    for i := 0 to |p.specs|
      invariant Reflected(p, outs, i)
      invariant Holds(p, tx, 0, i, Untouched, AfterUpserts)
    {
      HoldsNext(p, tx, 0, i, i, if p.Planned(i) then p.At(i).Upserted() else map[], Untouched, AfterUpserts);
      if p.Planned(i) {
        var o := ReflectTable(p.At(i));
        OutcomeFlags(o, p.At(i));
        tx := tx[p.specs[i].name := o.table];
        outs := outs + [o];
      } else {
        outs := outs + [NOTHING];
      }
    }
  }

  lemma {:induction false} OutcomeFlags(o: Outcome, j: Job)
    requires IsOutcome(o, j)
    ensures o.failed == j.Fails() && o.guarded == j.Guarded() && o.table == j.Upserted()
    ensures o.compared == j.Changed() && (j.Changed() ==> ListsExactly(o.buckets, j.Buckets()))
    ensures ListsExactly(o.pending, j.Pending()) && (o.pending == [] <==> j.Pending() == {})
  {
    ListsNothingIffEmpty(o.pending, j.Pending());
  }

  lemma {:induction false} DeletesAreRows(j: Job)
    ensures j.Pending() <= j.Upserted().Keys
    ensures j.Pending() == {} ==> j.Final() == j.Upserted() && DeletedCount(j) == 0 && DeleteErrorCount(j) == 0
    ensures j.Pending() != {} && j.env.deleteFails ==>
      j.Final() == j.Upserted() && DeletedCount(j) == 0 && DeleteErrorCount(j) == 1
    ensures j.Pending() != {} && !j.env.deleteFails ==>
      && j.Final() == j.Upserted() - (j.Pending() - j.env.silent)
      && DeletedCount(j) == |j.Pending() - j.env.silent| && DeleteErrorCount(j) == 0
  {
    assert j.Upserted() - {} == j.Upserted();
    assert {} - j.env.silent == {};
  }

  /** One table's deletes, in a savepoint of their own. */
  method DeleteOne(j: Job, table: Table, pending: seq<Key>) returns (t: Table, n: nat, failed: nat)
    requires table == j.Upserted() && ListsExactly(pending, j.Pending()) && (pending == [] <==> j.Pending() == {})
    ensures t == j.Final() && n == DeletedCount(j) && failed == DeleteErrorCount(j)
  {
    hide Job.Upserted, Job.Final, Job.Pending, DeletedCount, DeleteErrorCount, ListsExactly;
    DeletesAreRows(j);
    t, n, failed := table, 0, 0;
    if pending != [] {
      if j.env.deleteFails {
        failed := 1;
      } else {
        t, n := DeleteListed(table, pending, j.env.silent, j.Pending());
      }
    }
  }

  /** The deletes, children first. */
  method DeleteAll(p: PassJob, reflected: Tables, outs: seq<Outcome>) returns (tx: Tables, deletes: nat, failures: nat)
    requires p.Valid() && Reflected(p, outs, |p.specs|)
    requires Holds(p, reflected, 0, |p.specs|, Untouched, AfterUpserts)
    ensures Holds(p, tx, 0, |p.specs|, AfterUpserts, AfterDeletes)
    ensures deletes == p.Tally(|p.specs|, DeletedCount) && failures == p.Tally(|p.specs|, DeleteErrorCount)
  {
    hide IsOutcome, Job.Upserted, Job.Final, Job.Pending, DeletedCount, DeleteErrorCount, Holds, ListsExactly,
      PassJob.At, PassJob.Planned, PassJob.Tally;
    HoldsBefore(p, reflected, Untouched, AfterUpserts, AfterDeletes);
    NothingTallied(p, DeletedCount);
    NothingTallied(p, DeleteErrorCount);
    var i := |p.specs|;
    tx, deletes, failures := reflected, 0, 0;
    while i > 0
      invariant 0 <= i <= |p.specs|
      invariant Holds(p, tx, i, |p.specs|, AfterUpserts, AfterDeletes)
      invariant deletes == p.Tally(|p.specs|, DeletedCount) - p.Tally(i, DeletedCount)
      invariant failures == p.Tally(|p.specs|, DeleteErrorCount) - p.Tally(i, DeleteErrorCount)
    {
      i := i - 1;
      TallyStep(p, i, DeletedCount);
      TallyStep(p, i, DeleteErrorCount);
      if p.Planned(i) {
        var j := p.At(i);
        OutcomeFlags(outs[i], j);
        HeldAt(p, tx, i + 1, |p.specs|, i, AfterUpserts, AfterDeletes);
        var t, n, failed := DeleteOne(j, tx[p.specs[i].name], outs[i].pending);
        HoldsNext(p, tx, i + 1, |p.specs|, i, t, AfterUpserts, AfterDeletes);
        tx, deletes, failures := tx[p.specs[i].name := t], deletes + n, failures + failed;
      } else {
        HoldsNext(p, tx, i + 1, |p.specs|, i, map[], AfterUpserts, AfterDeletes);
      }
    }
  }

  lemma {:induction false} OutcomeCounts(o: Outcome, j: Job)
    requires IsOutcome(o, j)
    ensures One(o.failed) == FailCount(j) && One(o.guarded) == GuardCount(j) && One(o.compared) == ChangedCount(j)
    ensures o.upserts == UpsertCount(j) && o.divergent == DivergentCount(j) && o.stagingWrites == StagingWriteCount(j)
  {
  }

  ghost function PlannedCount(j: Job): nat { 1 }

  ghost predicate SumsUp(p: PassJob, r: PassResult, n: nat)
    requires n <= |p.specs|
  {
    && r.tables == p.Tally(n, PlannedCount) && r.changed == p.Tally(n, ChangedCount)
    && r.upserts == p.Tally(n, UpsertCount) && r.divergent == p.Tally(n, DivergentCount)
    && r.guarded == p.Tally(n, GuardCount) && r.stagingWrites == p.Tally(n, StagingWriteCount)
  }

  /** The counters of the loop over the tables. */
  method Count(p: PassJob, outs: seq<Outcome>) returns (r: PassResult)
    requires Reflected(p, outs, |p.specs|)
    ensures SumsUp(p, r, |p.specs|) && r.errors == p.Tally(|p.specs|, FailCount)
    ensures r.kind == (if p.weather.full then "full" else "hot")
  {
    hide IsOutcome, PlannedCount, ChangedCount, UpsertCount, DivergentCount, GuardCount, FailCount, StagingWriteCount;
    r := PassResult(if p.weather.full then "full" else "hot", false, 0, 0, 0, 0, 0, 0, 0, 0, 0);
    for i := 0 to |p.specs|
      invariant SumsUp(p, r, i) && r.errors == p.Tally(i, FailCount)
      invariant r.kind == (if p.weather.full then "full" else "hot")
    {
      if p.Planned(i) {
        var o := outs[i];
        OutcomeCounts(o, p.At(i));
        PlannedOne(p.At(i));
        r := r.(tables := r.tables + 1, changed := r.changed + (if o.compared then 1 else 0),
                upserts := r.upserts + o.upserts, divergent := r.divergent + o.divergent,
                guarded := r.guarded + (if o.guarded then 1 else 0), errors := r.errors + (if o.failed then 1 else 0),
                stagingWrites := r.stagingWrites + o.stagingWrites);
      }
    }
  }

  lemma {:induction false} PlannedOne(j: Job)
    ensures PlannedCount(j) == 1
  {
  }

  method StillDiffers(src: map<Bucket, Fingerprint<Table>>, after: map<Bucket, Fingerprint<Table>>,
                      buckets: seq<Bucket>)
    returns (differs: bool)
    ensures differs <==> exists b :: b in buckets && Differs(src, after, b)
  {
    differs := false;
    for i := 0 to |buckets|
      invariant differs <==> exists b :: b in buckets[..i] && Differs(src, after, b)
    {
      assert buckets[..i+1] == buckets[..i] + [buckets[i]];
      if Differs(src, after, buckets[i]) { differs := true; }
    }
    assert buckets[..|buckets|] == buckets;
  }

  /** Reads one changed table back: only the buckets that differed are compared again. */
  method ReadBackOne(j: Job, o: Outcome, table: Table) returns (unconverged: nat)
    requires IsOutcome(o, j) && table == j.Final()
    ensures unconverged == UnconvergedCount(j)
  {
    OutcomeFlags(o, j);
    hide IsOutcome, Job.Final, Job.Buckets, Visible;
    unconverged := 0;
    if o.compared && j.mode.Mirror? {
      var after := Fingerprints(Visible(table, j.dstWindow));
      var differs := StillDiffers(Fingerprints(j.Src()), after, o.buckets);
      ReadBackIsExact(j);
      if differs { unconverged := 1; }
    }
  }

  method ReadBackAll(p: PassJob, tx: Tables, outs: seq<Outcome>) returns (unconverged: nat)
    requires Reflected(p, outs, |p.specs|)
    requires Holds(p, tx, 0, |p.specs|, AfterUpserts, AfterDeletes)
    ensures unconverged == p.Tally(|p.specs|, UnconvergedCount)
  {
    hide IsOutcome, Job.Final, UnconvergedCount, Holds;
    unconverged := 0;
    for i := 0 to |p.specs|
      invariant unconverged == p.Tally(i, UnconvergedCount)
    {
      if p.Planned(i) {
        HeldAt(p, tx, 0, |p.specs|, i, AfterUpserts, AfterDeletes);
        var n := ReadBackOne(p.At(i), outs[i], tx[p.specs[i].name]);
        unconverged := unconverged + n;
      }
    }
  }

  /** Staging's tables, as one database that a transaction replaces. */
  class Database {
    var tables: Tables

    constructor (tables: Tables)
      ensures this.tables == tables
    {
      this.tables := tables;
    }
  }

  /** remember: a table's memory grows by what this pass did and is dropped first when it is over the cap. */
  function Remembered(m: Table, w: Table): Table {
    if w == map[] then m else if |m| <= CAP_ROWS then m + w else w
  }

  function RememberedKeys(m: set<Key>, d: set<Key>): set<Key> {
    if d == {} then m else if |m| <= CAP_ROWS then m + d else d
  }

  /** What the pass wrote to a table, and the keys whose deletes it sent. */
  ghost function Wrote(j: Job): Table {
    if j.Fails() then map[] else map k | k in UpsertKeys(j.Src(), j.Dst(), j.mode) :: j.Src()[k]
  }

  ghost function Sent(j: Job): set<Key> { if j.env.deleteFails then {} else j.Pending() }

  lemma {:induction false} OutcomeMemory(o: Outcome, j: Job)
    requires IsOutcome(o, j)
    ensures o.wrote == Wrote(j)
    ensures (if j.env.deleteFails then {} else set k | k in o.pending) == Sent(j)
  {
    SameElements(o.pending, j.Pending());
  }

  ghost predicate RemembersFirst(p: PassJob, written: Tables, deleted: map<string, set<Key>>, n: nat)
    requires n <= |p.specs|
  {
    forall i :: 0 <= i < |p.specs| && p.Planned(i) ==>
      var name := p.specs[i].name;
      && (if name in written then written[name] else map[]) ==
           Remembered(p.At(i).written, if i < n then Wrote(p.At(i)) else map[])
      && (if name in deleted then deleted[name] else {}) ==
           RememberedKeys(p.At(i).deleted, if i < n then Sent(p.At(i)) else {})
  }

  /** The memory of a table without a plan stays. */
  ghost predicate RemembersOthers(p: PassJob, written: Tables, deleted: map<string, set<Key>>) {
    forall name :: (forall i :: 0 <= i < |p.specs| && p.Planned(i) ==> p.specs[i].name != name) ==>
      && (name in written <==> name in p.lastWritten)
      && (name in written ==> written[name] == p.lastWritten[name])
      && (name in deleted <==> name in p.lastDeleted)
      && (name in deleted ==> deleted[name] == p.lastDeleted[name])
  }

  lemma {:induction false} RemembersNext(p: PassJob, written: Tables, deleted: map<string, set<Key>>, w: Table,
                                         d: set<Key>, n: nat)
    requires p.Valid() && n < |p.specs| && RemembersFirst(p, written, deleted, n)
    requires p.Planned(n) ==> w == Wrote(p.At(n)) && d == Sent(p.At(n))
    ensures p.Planned(n) ==>
      var name := p.specs[n].name;
      RemembersFirst(p, written[name := Remembered(p.At(n).written, w)],
                     deleted[name := RememberedKeys(p.At(n).deleted, d)], n + 1)
    ensures !p.Planned(n) ==> RemembersFirst(p, written, deleted, n + 1)
  {
    hide Wrote, Sent, Remembered, RememberedKeys;
    forall i | 0 <= i < |p.specs| && i != n ensures p.specs[i].name != p.specs[n].name {}
  }

  method Remember(p: PassJob, outs: seq<Outcome>) returns (written: Tables, deleted: map<string, set<Key>>)
    requires p.Valid() && Reflected(p, outs, |p.specs|)
    ensures RemembersFirst(p, written, deleted, |p.specs|) && RemembersOthers(p, written, deleted)
  {
    hide IsOutcome, Wrote, Sent, Remembered, RememberedKeys, RemembersFirst, RemembersOthers;
    written, deleted := p.lastWritten, p.lastDeleted;
    assert RemembersFirst(p, written, deleted, 0) && RemembersOthers(p, written, deleted) by { RemembersNothingYet(p); }
    for i := 0 to |p.specs|
      invariant RemembersFirst(p, written, deleted, i) && RemembersOthers(p, written, deleted)
    {
      RemembersNext(p, written, deleted, if p.Planned(i) then Wrote(p.At(i)) else map[],
                    if p.Planned(i) then Sent(p.At(i)) else {}, i);
      if p.Planned(i) {
        var j := p.At(i);
        OutcomeMemory(outs[i], j);
        var sent := if j.env.deleteFails then {} else set k | k in outs[i].pending;
        OthersStay(p, i, written, deleted, Remembered(j.written, outs[i].wrote), RememberedKeys(j.deleted, sent));
        written := written[p.specs[i].name := Remembered(j.written, outs[i].wrote)];
        deleted := deleted[p.specs[i].name := RememberedKeys(j.deleted, sent)];
      }
    }
  }

  lemma {:induction false} RemembersNothingYet(p: PassJob)
    ensures RemembersFirst(p, p.lastWritten, p.lastDeleted, 0) && RemembersOthers(p, p.lastWritten, p.lastDeleted)
  {
  }

  lemma {:induction false} OthersStay(p: PassJob, i: nat, written: Tables, deleted: map<string, set<Key>>, w: Table,
                                      d: set<Key>)
    requires i < |p.specs| && p.Planned(i) && RemembersOthers(p, written, deleted)
    ensures RemembersOthers(p, written[p.specs[i].name := w], deleted[p.specs[i].name := d])
  {
  }

  /** The result of a completed pass: the counters are the sums over the planned tables, and it is converged exactly
      when every planned table is equal. */
  ghost predicate Accounts(p: PassJob, r: PassResult, dryRun: bool) {
    && (r.converged <==> !dryRun && p.AllEqual())
    && r.kind == (if p.weather.full then "full" else "hot")
    && SumsUp(p, r, |p.specs|)
    && r.errors == p.Tally(|p.specs|, FailCount) + p.Tally(|p.specs|, DeleteErrorCount)
    && r.deletes == p.Tally(|p.specs|, DeletedCount)
    && r.unconverged == p.Tally(|p.specs|, UnconvergedCount)
  }

  lemma {:induction false} FinalAt(j: Job, k: Key)
    ensures var ups := UpsertKeys(j.Src(), j.Dst(), j.mode);
      if j.Fails() || k in j.env.silent then SameRow(j.Final(), j.staging, k)
      else if k in ups && (j.mode.Mirror? || k !in j.staging) then SameRow(j.Final(), j.source, k)
      else if k in j.Pending() && !j.DeleteError() then k !in j.Final()
      else SameRow(j.Final(), j.staging, k)
  {
    SrcIsSource(j);
    DstIsStaging(j);
    hide Fingerprints, DifferingBuckets, Job.Src, Job.Dst, Job.Guarded;
  }

  lemma {:induction false} RowEndsAt(p: PassJob, i: nat, k: Key)
    requires i < |p.specs| && p.Planned(i)
    ensures RowEnds(p, i, p.At(i).Final(), k)
  {
    SidesAt(p, i);
    KeysAt(p, i);
    FlagsAt(p, i);
    FinalAt(p.At(i), k);
    SidesAreRows(p, i, k);
    hide PassJob.At, Job.Final, Job.Fails, Job.Guarded, Job.DeleteError, Job.Pending, Job.Src, Job.Dst, RolledBack,
      Refused, DeletesFail, ProductionSide, StagingSide, ToWrite, ToDelete, UpsertKeys, DeleteKeys, Meets, Silenced;
  }

  lemma {:induction false} SidesAreRows(p: PassJob, i: nat, k: Key)
    requires i < |p.specs| && p.Planned(i)
    ensures k in ToWrite(p, i) ==> k in p.production[p.specs[i].name]
    ensures k in ToDelete(p, i) ==> k in p.staging[p.specs[i].name] && p.specs[i].mode == Mirror
  {
  }

  /** What the transaction holds at its end. */
  lemma {:induction false} HeldTablesEnd(p: PassJob, tx: Tables)
    requires Holds(p, tx, 0, |p.specs|, Untouched, AfterDeletes)
    ensures Ends(p, tx)
  {
    forall i: nat, k | i < |p.specs| && p.Planned(i) ensures RowEnds(p, i, tx[p.specs[i].name], k) {
      RowEndsAt(p, i, k);
    }
    hide RowEnds, Job.Final, PassJob.At;
  }

  lemma {:induction false} TallyIsSum(p: PassJob, tx: Tables, n: nat, count: Job -> nat,
                                      f: (PassJob, Tables, nat) -> nat)
    requires n <= |p.specs|
    requires forall i: nat :: i < n && p.Planned(i) ==> count(p.At(i)) == f(p, tx, i)
    ensures p.Tally(n, count) == Sum(p, tx, n, f)
  {
    hide PassJob.At;
    if n > 0 { TallyIsSum(p, tx, n - 1, count, f); }
  }

  lemma {:induction false} TwoTalliesAreSum(p: PassJob, tx: Tables, n: nat, count: Job -> nat, other: Job -> nat,
                                            f: (PassJob, Tables, nat) -> nat)
    requires n <= |p.specs|
    requires forall i: nat :: i < n && p.Planned(i) ==> count(p.At(i)) + other(p.At(i)) == f(p, tx, i)
    ensures p.Tally(n, count) + p.Tally(n, other) == Sum(p, tx, n, f)
  {
    hide PassJob.At;
    if n > 0 { TwoTalliesAreSum(p, tx, n - 1, count, other, f); }
  }

  lemma {:induction false} DeletedAreGone(j: Job)
    ensures DeletedCount(j) == |j.staging.Keys - j.Final().Keys|
  {
    DeletesAreRows(j);
    UpsertedKeepsKeys(j);
    hide Job.Final, Job.Upserted, Job.Pending, DeletedCount;
    var gone := j.staging.Keys - j.Final().Keys;
    if j.Pending() == {} || j.env.deleteFails {
      assert gone == {};
    } else {
      assert gone == j.Pending() - j.env.silent;
    }
  }

  lemma {:induction false} UpsertedKeepsKeys(j: Job)
    ensures j.staging.Keys <= j.Upserted().Keys && j.Pending() <= j.staging.Keys
    ensures j.mode.Mirror? || j.Pending() == {}
  {
    hide Fingerprints, DifferingBuckets, Visible, Job.Guarded, Job.Fails;
    DstIsStaging(j);
    assert j.Pending() <= DeleteKeys(j.Src(), j.Dst(), j.mode);
  }

  lemma {:induction false} BlamedAt(p: PassJob, i: nat)
    requires i < |p.specs| && p.Planned(i)
    ensures var j := p.At(i);
      |Rewritten(UpsertKeys(j.Src(), j.Dst(), j.mode), j.Src(), j.written)| +
      |DeleteKeys(j.Src(), j.Dst(), j.mode) * j.deleted| == BlamedRows(p, i)
  {
    var j := p.At(i);
    var name := p.specs[i].name;
    KeysAt(p, i);
    SidesAt(p, i);
    SrcIsSource(j);
    var ups, dels := ToWrite(p, i), ToDelete(p, i);
    assert ups <= j.Src().Keys;
    var again := set k | k in ToWrite(p, i) && name in p.lastWritten && k in p.lastWritten[name] &&
                         p.lastWritten[name][k] == p.production[name][k];
    var back := set k | k in ToDelete(p, i) && name in p.lastDeleted && k in p.lastDeleted[name];
    assert j.written == if name in p.lastWritten then p.lastWritten[name] else map[];
    assert j.deleted == if name in p.lastDeleted then p.lastDeleted[name] else {};
    hide PassJob.At, Job.Src, Job.Dst, ToWrite, ToDelete, ProductionSide, StagingSide;
    assert Rewritten(ups, j.Src(), j.written) == again;
    assert dels * j.deleted == back;
  }

  lemma {:induction false} CountsAt(p: PassJob, tx: Tables, i: nat)
    requires i < |p.specs| && p.Planned(i) && p.specs[i].name in tx && tx[p.specs[i].name] == p.At(i).Final()
    ensures var j := p.At(i);
      && PlannedCount(j) == Planneds(p, tx, i) && ChangedCount(j) == Changeds(p, tx, i)
      && UpsertCount(j) == Writes(p, tx, i) && DeletedCount(j) == Gone(p, tx, i)
      && DivergentCount(j) == Foreigns(p, tx, i) && StagingWriteCount(j) == Blames(p, tx, i)
      && GuardCount(j) == Refusals(p, tx, i) && FailCount(j) + DeleteErrorCount(j) == Errors(p, tx, i)
      && UnconvergedCount(j) == StillApart(p, tx, i)
  {
    hide PassJob.At, Job.Final, Job.Fails, Job.Changed, Job.Guarded, Job.DeleteError, Job.Src, Job.Dst, Job.Equal,
      FoundChanged, RolledBack, Refused, ToWrite, ToDelete, Foreign, BlamedRows, ProductionSide, StagingSide, Meets,
      UpsertKeys, DeleteKeys, DivergentKeys, Rewritten, DeletedCount;
    SidesAt(p, i);
    KeysAt(p, i);
    FlagsAt(p, i);
    BlamedAt(p, i);
    DeletedAreGone(p.At(i));
    AfterAt(p, tx, i);
  }

  lemma {:induction false} AfterAt(p: PassJob, tx: Tables, i: nat)
    requires i < |p.specs| && p.Planned(i) && p.specs[i].name in tx && tx[p.specs[i].name] == p.At(i).Final()
    ensures p.At(i).Equal() <==> StagingSide(p, tx, i) == ProductionSide(p, i)
  {
    hide Job.Final, Job.Src, Job.Dst, ProductionSide;
    SidesAt(p, i);
    var after := Visible(p.At(i).Final(), p.At(i).dstWindow);
    assert after == StagingSide(p, tx, i);
  }

  lemma {:induction false} EveryCountAt(p: PassJob, tx: Tables)
    requires Holds(p, tx, 0, |p.specs|, Untouched, AfterDeletes)
    ensures forall i: nat :: i < |p.specs| && p.Planned(i) ==>
      var j := p.At(i);
      && PlannedCount(j) == Planneds(p, tx, i) && ChangedCount(j) == Changeds(p, tx, i)
      && UpsertCount(j) == Writes(p, tx, i) && DeletedCount(j) == Gone(p, tx, i)
      && DivergentCount(j) == Foreigns(p, tx, i) && StagingWriteCount(j) == Blames(p, tx, i)
      && GuardCount(j) == Refusals(p, tx, i) && FailCount(j) + DeleteErrorCount(j) == Errors(p, tx, i)
      && UnconvergedCount(j) == StillApart(p, tx, i)
  {
    hide *;
    forall i: nat | i < |p.specs| && p.Planned(i)
      ensures var j := p.At(i);
        && PlannedCount(j) == Planneds(p, tx, i) && ChangedCount(j) == Changeds(p, tx, i)
        && UpsertCount(j) == Writes(p, tx, i) && DeletedCount(j) == Gone(p, tx, i)
        && DivergentCount(j) == Foreigns(p, tx, i) && StagingWriteCount(j) == Blames(p, tx, i)
        && GuardCount(j) == Refusals(p, tx, i) && FailCount(j) + DeleteErrorCount(j) == Errors(p, tx, i)
        && UnconvergedCount(j) == StillApart(p, tx, i)
    {
      FinalIsHeld(p, tx, i);
      CountsAt(p, tx, i);
    }
  }

  lemma {:induction false} FinalIsHeld(p: PassJob, tx: Tables, i: nat)
    requires Holds(p, tx, 0, |p.specs|, Untouched, AfterDeletes) && i < |p.specs| && p.Planned(i)
    ensures p.specs[i].name in tx && tx[p.specs[i].name] == p.At(i).Final()
  {
    hide Job.Final, PassJob.At;
    HeldAt(p, tx, 0, |p.specs|, i, Untouched, AfterDeletes);
  }

  lemma {:induction false} SettledAt(p: PassJob, tx: Tables)
    requires Holds(p, tx, 0, |p.specs|, Untouched, AfterDeletes) && Ends(p, tx)
    ensures p.AllEqual() <==> forall i :: 0 <= i < |p.specs| && p.Planned(i) ==> Settled(p, tx, i)
  {
    forall i: nat | i < |p.specs| && p.Planned(i)
      ensures Settled(p, tx, i) <==>
        !p.At(i).Fails() && !p.At(i).Guarded() && !p.At(i).DeleteError() && (p.At(i).mode.Mirror? ==> p.At(i).Equal())
    {
      FinalIsHeld(p, tx, i);
      SidesAt(p, i);
      FlagsAt(p, i);
      AfterAt(p, tx, i);
    }
    hide Ends, Holds, Settled, PassJob.At, Job.Fails, Job.Guarded, Job.DeleteError, Job.Equal;
  }

  lemma {:induction false} TalliesAreSums(p: PassJob, tx: Tables)
    requires Holds(p, tx, 0, |p.specs|, Untouched, AfterDeletes)
    ensures var n := |p.specs|;
      && p.Tally(n, PlannedCount) == Sum(p, tx, n, Planneds) && p.Tally(n, ChangedCount) == Sum(p, tx, n, Changeds)
      && p.Tally(n, UpsertCount) == Sum(p, tx, n, Writes) && p.Tally(n, DeletedCount) == Sum(p, tx, n, Gone)
      && p.Tally(n, DivergentCount) == Sum(p, tx, n, Foreigns)
      && p.Tally(n, StagingWriteCount) == Sum(p, tx, n, Blames)
      && p.Tally(n, GuardCount) == Sum(p, tx, n, Refusals)
      && p.Tally(n, UnconvergedCount) == Sum(p, tx, n, StillApart)
      && p.Tally(n, FailCount) + p.Tally(n, DeleteErrorCount) == Sum(p, tx, n, Errors)
  {
    hide *;
    var n := |p.specs|;
    EveryCountAt(p, tx);
    TallyIsSum(p, tx, n, PlannedCount, Planneds);
    TallyIsSum(p, tx, n, ChangedCount, Changeds);
    TallyIsSum(p, tx, n, UpsertCount, Writes);
    TallyIsSum(p, tx, n, DeletedCount, Gone);
    TallyIsSum(p, tx, n, DivergentCount, Foreigns);
    TallyIsSum(p, tx, n, StagingWriteCount, Blames);
    TallyIsSum(p, tx, n, GuardCount, Refusals);
    TallyIsSum(p, tx, n, UnconvergedCount, StillApart);
    TwoTalliesAreSum(p, tx, n, FailCount, DeleteErrorCount, Errors);
  }

  /** The counters, in terms of the two databases and the transaction's end. */
  lemma {:induction false} AccountsCount(p: PassJob, tx: Tables, r: PassResult, dryRun: bool)
    requires Holds(p, tx, 0, |p.specs|, Untouched, AfterDeletes) && Ends(p, tx) && Accounts(p, r, dryRun)
    ensures Counts(p, tx, r, dryRun)
  {
    hide Ends, Holds, Settled, PassJob.AllEqual, PassJob.At, PassJob.Tally, PassJob.Planned, Sum, Planneds, Changeds,
      Writes, Gone, Foreigns, Blames, Refusals, Errors, StillApart, PlannedCount, ChangedCount, UpsertCount,
      DeletedCount, DivergentCount, StagingWriteCount, GuardCount, FailCount, DeleteErrorCount, UnconvergedCount;
    TalliesAreSums(p, tx);
    SettledAt(p, tx);
  }

  lemma {:induction false} WroteAt(p: PassJob, i: nat)
    requires i < |p.specs| && p.Planned(i)
    ensures var j := p.At(i);
      && Wrote(j).Keys == (if RolledBack(p, i) then {} else ToWrite(p, i))
      && (forall k :: k in Wrote(j) ==>
            k in p.production[p.specs[i].name] && Wrote(j)[k] == p.production[p.specs[i].name][k])
      && Sent(j) == if RolledBack(p, i) || Refused(p, i) || DeletesFail(p, i) then {} else ToDelete(p, i)
  {
    KeysAt(p, i);
    SidesAt(p, i);
    FlagsAt(p, i);
    SrcIsSource(p.At(i));
    hide PassJob.At, Job.Fails, Job.Guarded, Job.Pending, Job.Src, Job.Dst, RolledBack, Refused, ToWrite, ToDelete,
      ProductionSide, StagingSide;
  }

  lemma {:induction false} RowsRecalledAt(p: PassJob, i: nat, written: Tables)
    requires i < |p.specs| && p.Planned(i)
    requires var name := p.specs[i].name;
      (if name in written then written[name] else map[]) == Remembered(p.At(i).written, Wrote(p.At(i)))
    ensures RecallsRows(p, i, written)
  {
    hide PassJob.At, Wrote, Sent, Remembered, RolledBack, Refused, DeletesFail, ToWrite, ToDelete,
      SameRow;
    WroteAt(p, i);
    KeptMemory(p, i);
    MemoryGrows(p.At(i).written, Wrote(p.At(i)), if RolledBack(p, i) then {} else ToWrite(p, i),
                p.production[p.specs[i].name]);
  }

  lemma {:induction false} KeysRecalledAt(p: PassJob, i: nat, deleted: map<string, set<Key>>)
    requires i < |p.specs| && p.Planned(i)
    requires var name := p.specs[i].name;
      (if name in deleted then deleted[name] else {}) == RememberedKeys(p.At(i).deleted, Sent(p.At(i)))
    ensures RecallsKeys(p, i, deleted)
  {
    hide PassJob.At, PassJob.Planned, Wrote, Sent, RememberedKeys, RolledBack, Refused, DeletesFail, ToWrite, ToDelete;
    WroteAt(p, i);
    KeptMemory(p, i);
    KeysGrow(p.At(i).deleted, Sent(p.At(i)));
  }

  lemma {:induction false} MemoryGrows(m: Table, w: Table, wrote: set<Key>, rows: Table)
    requires w.Keys == wrote && forall k :: k in w ==> k in rows && w[k] == rows[k]
    ensures forall k :: k in wrote ==> k in Remembered(m, w) && SameRow(Remembered(m, w), rows, k)
    ensures forall k :: k !in wrote ==> SameRow(Remembered(m, w), if |m| > 200000 && wrote != {} then map[] else m, k)
  {
    assert w == map[] <==> wrote == {};
  }

  lemma {:induction false} KeysGrow(d: set<Key>, sent: set<Key>)
    ensures RememberedKeys(d, sent) == (if |d| > 200000 && sent != {} then {} else d) + sent
  {
  }

  lemma {:induction false} MemoryRecalls(p: PassJob, written: Tables, deleted: map<string, set<Key>>)
    requires RemembersFirst(p, written, deleted, |p.specs|) && RemembersOthers(p, written, deleted)
    ensures Recalls(p, written, deleted)
  {
    hide *;
    forall i: nat | i < |p.specs| && p.Planned(i) ensures RecallsRows(p, i, written) && RecallsKeys(p, i, deleted) {
      MemoryOf(p, i, written, deleted);
      RowsRecalledAt(p, i, written);
      KeysRecalledAt(p, i, deleted);
    }
    RecalledByAll(p, written, deleted);
  }

  lemma {:induction false} MemoryOf(p: PassJob, i: nat, written: Tables, deleted: map<string, set<Key>>)
    requires RemembersFirst(p, written, deleted, |p.specs|) && i < |p.specs| && p.Planned(i)
    ensures var name := p.specs[i].name;
      && (if name in written then written[name] else map[]) == Remembered(p.At(i).written, Wrote(p.At(i)))
      && (if name in deleted then deleted[name] else {}) == RememberedKeys(p.At(i).deleted, Sent(p.At(i)))
  {
    hide PassJob.At, PassJob.Planned, Wrote, Sent, Remembered, RememberedKeys;
  }

  lemma {:induction false} RecalledByAll(p: PassJob, written: Tables, deleted: map<string, set<Key>>)
    requires forall i :: 0 <= i < |p.specs| && p.Planned(i) ==> RecallsRows(p, i, written) && RecallsKeys(p, i, deleted)
    requires RemembersOthers(p, written, deleted)
    ensures Recalls(p, written, deleted)
  {
    hide RecallsRows, RecallsKeys, RemembersOthers, PassJob.Planned;
  }

  lemma {:induction false} KeptMemory(p: PassJob, i: nat)
    requires i < |p.specs| && p.Planned(i)
    ensures p.At(i).written == (if p.specs[i].name in p.lastWritten then p.lastWritten[p.specs[i].name] else map[])
    ensures p.At(i).deleted == (if p.specs[i].name in p.lastDeleted then p.lastDeleted[p.specs[i].name] else {})
  {
  }

  /** Everything between the snapshots and the commit. */
  method Settle(p: PassJob, dryRun: bool)
    returns (tx: Tables, result: PassResult, written: Tables, deleted: map<string, set<Key>>)
    requires p.Valid()
    ensures Holds(p, tx, 0, |p.specs|, Untouched, AfterDeletes)
    ensures RemembersFirst(p, written, deleted, |p.specs|) && RemembersOthers(p, written, deleted)
    ensures Accounts(p, result, dryRun)
  {
    hide Reflected, PassJob.AllEqual, RemembersFirst, RemembersOthers, Holds, PassJob.Planned, PassJob.At,
      PassJob.Tally;
    var outs, deletes, failures;
    tx, outs := ReflectAll(p);
    result := Count(p, outs);
    tx, deletes, failures := DeleteAll(p, tx, outs);
    var unconverged := ReadBackAll(p, tx, outs);
    written, deleted := Remember(p, outs);
    HoldsAll(p, tx);
    ConvergedIffAllEqual(p);
    var errors := result.errors + failures;
    result := result.(deletes := deletes, errors := errors, unconverged := unconverged,
                      converged := errors == 0 && result.guarded == 0 && unconverged == 0 && !dryRun);
  }

  class Reflector {
    const maxDeletes: nat
    const dryRun: bool
    const staging: Database
    var lastWritten: Tables
    var lastDeleted: map<string, set<Key>>

    constructor (maxDeletes: nat, dryRun: bool, staging: Database)
      ensures this.maxDeletes == maxDeletes && this.dryRun == dryRun && this.staging == staging
      ensures lastWritten == map[] && lastDeleted == map[]
    {
      this.maxDeletes, this.dryRun, this.staging := maxDeletes, dryRun, staging;
      lastWritten, lastDeleted := map[], map[];
    }

    function Inputs(specs: seq<Spec>, production: Tables, w: Weather): PassJob
      reads this, staging
    {
      PassJob(specs, production, staging.tables, maxDeletes, w, lastWritten, lastDeleted)
    }

    /** One pass. A pass that fails, is skipped or is a dry run changes neither staging nor the memory; any other leaves
        every row where it belongs, and remembers what it did. */
    method Pass(specs: seq<Spec>, production: Tables, w: Weather) returns (r: PassOutcome)
      requires Inputs(specs, production, w).Valid()
      modifies this`lastWritten, this`lastDeleted, staging
      ensures r.Failed? <==> w.enterpriseRows != 1 || (w.locked && w.aborts)
      ensures r.Skipped? <==> w.enterpriseRows == 1 && !w.locked
      ensures !r.Done? || dryRun ==>
        staging.tables == old(staging.tables) && lastWritten == old(lastWritten) && lastDeleted == old(lastDeleted)
      ensures r.Done? ==> Accounts(old(Inputs(specs, production, w)), r.result, dryRun)
      ensures var p := old(Inputs(specs, production, w));
        r.Done? ==> exists tx :: Ends(p, tx) && Counts(p, tx, r.result, dryRun) && (!dryRun ==> staging.tables == tx)
      ensures var p := old(Inputs(specs, production, w));
        r.Done? && !dryRun ==>
          && Holds(p, staging.tables, 0, |specs|, Untouched, AfterDeletes)
          && RemembersFirst(p, lastWritten, lastDeleted, |specs|)
          && Recalls(p, lastWritten, lastDeleted)
    {
      if w.enterpriseRows != 1 { return Failed; }
      if !w.locked { return Skipped; }
      if w.aborts { return Failed; }
      var p := Inputs(specs, production, w);
      hide Accounts, Holds, Ends, Counts, RemembersFirst, RemembersOthers, Recalls;
      var tx, result, written, deleted := Settle(p, dryRun);
      HeldTablesEnd(p, tx);
      AccountsCount(p, tx, result, dryRun);
      MemoryRecalls(p, written, deleted);
      if !dryRun {
        staging.tables := tx;
        lastWritten, lastDeleted := written, deleted;
      }
      r := Done(result);
    }
  }

  lemma {:induction false} HoldsAll(p: PassJob, tx: Tables)
    requires Holds(p, tx, 0, |p.specs|, AfterUpserts, AfterDeletes)
    ensures Holds(p, tx, 0, |p.specs|, Untouched, AfterDeletes)
  {
  }

  ghost predicate AllTablesEqual(p: PassJob) {
    forall i :: 0 <= i < |p.specs| && p.Planned(i) ==> p.At(i).Final() == p.At(i).source
  }

  /** The missing rows of an AppendOnly table whose insert reports success and changes nothing. The read-back skips such
      tables, so nothing notices. */
  ghost function LostInserts(j: Job): set<Key> {
    if j.mode.AppendOnly? then UpsertKeys(j.Src(), j.Dst(), j.mode) * j.env.silent else {}
  }

  /** What the pass does not bring about by itself: for a Mirror table the rows neither window shows are the same, for
      an AppendOnly table no staging row is apart and every missing row was compared and not lost. */
  ghost predicate RestEqual(j: Job) {
    if j.mode.Mirror? then j.staging - j.Dst().Keys - j.Src().Keys == j.source - j.Src().Keys
    else
      && Apart(j.source, j.staging) == {}
      && forall k :: k in j.source && k !in j.staging ==> k in j.Src() && k !in j.env.silent
  }

  /** After any converged pass, hot or full, all planned tables equal production exactly when the rest does. */
  lemma {:induction false} ConvergedPassMeansEqualIff(p: PassJob)
    requires p.Valid() && p.AllEqual()
    ensures AllTablesEqual(p) <==> forall i :: 0 <= i < |p.specs| && p.Planned(i) ==> RestEqual(p.At(i))
  {
    forall i | 0 <= i < |p.specs| && p.Planned(i) ensures p.At(i).Final() == p.At(i).source <==> RestEqual(p.At(i)) {
      if p.At(i).mode.Mirror? { MirrorRestIff(p.At(i)); } else { AppendRestIff(p.At(i)); }
    }
    hide PassJob.At, Job.Final, RestEqual;
  }

  lemma {:induction false} OutsideFinal(j: Job, k: Key)
    requires j.mode.Mirror? && j.Equal()
    ensures k in j.Src() ==> k in j.source && j.Src()[k] == j.source[k] && k in j.Final() && j.Final()[k] == j.Src()[k]
    ensures k !in j.Src() ==> (k in j.Final() <==> k in j.staging && k !in j.Dst())
    ensures k !in j.Src() && k in j.Final() ==> j.Final()[k] == j.staging[k]
  {
    hide Fingerprints, DifferingBuckets;
    assert k in j.Src() <==> k in Visible(j.Final(), j.dstWindow);
    assert k in j.Src() ==> Visible(j.Final(), j.dstWindow)[k] == j.Src()[k];
  }

  lemma {:induction false} MirrorRestIff(j: Job)
    requires j.mode.Mirror? && j.Equal()
    ensures j.Final() == j.source <==> RestEqual(j)
  {
    forall k { OutsideFinal(j, k); }
    hide Job.Final, Job.Src, Job.Dst, Job.Equal;
    var rest, wanted := j.staging - j.Dst().Keys - j.Src().Keys, j.source - j.Src().Keys;
    if j.Final() == j.source {
      assert forall k :: k in rest <==> k in wanted;
      assert rest == wanted;
    }
    if rest == wanted {
      forall k ensures k in j.Final() <==> k in j.source { assert k in rest <==> k in wanted; }
      forall k | k in j.Final() ensures j.Final()[k] == j.source[k] {
        assert k !in j.Src() ==> k in rest && rest[k] == wanted[k];
      }
    }
  }

  lemma {:induction false} AppendAt(j: Job, k: Key)
    requires j.mode.AppendOnly? && !j.Fails()
    ensures k in j.Final() <==> k in j.staging || (k in j.Src() && k !in j.env.silent)
    ensures k in j.staging ==> j.Final()[k] == j.staging[k]
    ensures k in j.Src() ==> k in j.source && j.Src()[k] == j.source[k]
    ensures k in j.Final() && k !in j.staging ==> j.Final()[k] == j.Src()[k]
  {
    hide Fingerprints;
    assert DeleteKeys(j.Src(), j.Dst(), j.mode) == {};
    assert j.Pending() - j.env.silent == {};
  }

  lemma {:induction false} AppendRestIff(j: Job)
    requires j.mode.AppendOnly? && !j.Fails()
    ensures j.Final() == j.source <==> RestEqual(j)
  {
    forall k { AppendAt(j, k); }
    hide Job.Final, Job.Src, Job.Dst, Job.Fails;
    var apart := Apart(j.source, j.staging);
    if RestEqual(j) {
      forall k | k in j.staging ensures k in j.source && j.source[k] == j.staging[k] { assert k !in apart; }
      assert forall k :: k in j.Final() <==> k in j.source;
    }
    if j.Final() == j.source {
      forall k ensures k !in apart { assert k in j.staging ==> k in j.Final(); }
    }
  }

  /** MR3 takes a converged pass for one that left staging equal to production. For a full pass that is right exactly
      when no AppendOnly row diverges and no AppendOnly insert was lost: neither is converged, and the second is not
      even counted. */
  lemma {:induction false} ConvergedMeansEqualIff(p: PassJob)
    requires p.Valid() && p.weather.full && p.AllEqual()
    ensures AllTablesEqual(p) <==>
      && p.Tally(|p.specs|, DivergentCount) == 0
      && forall i :: 0 <= i < |p.specs| && p.Planned(i) ==> LostInserts(p.At(i)) == {}
  {
    TallyZeroIff(p, |p.specs|, DivergentCount);
    forall i | 0 <= i < |p.specs| && p.Planned(i)
      ensures p.At(i).Final() == p.At(i).source <==> DivergentCount(p.At(i)) == 0 && LostInserts(p.At(i)) == {}
    {
      FullTableEqualIff(p.At(i));
    }
    hide PassJob.At, Job.Final, DivergentCount, LostInserts, PassJob.Tally;
  }

  lemma {:induction false} FullTableEqualIff(j: Job)
    requires j.srcWindow.Everything? && j.dstWindow.Everything? && !j.Fails()
    requires j.mode.Mirror? ==> j.Equal()
    ensures j.Final() == j.source <==> DivergentCount(j) == 0 && LostInserts(j) == {}
  {
    EverythingIsVisible(j.source);
    EverythingIsVisible(j.staging);
    EverythingIsVisible(j.Final());
    if j.mode.Mirror? {
      assert DivergentKeys(j.Src(), j.Dst(), j.mode) == {};
    } else {
      AppendOnlyEqualIff(j);
    }
  }

  lemma {:induction false} AppendOnlyFinal(j: Job)
    requires j.mode.AppendOnly? && j.Src() == j.source && j.Dst() == j.staging && !j.Fails()
    ensures j.Final() == (j.source - j.env.silent) + j.staging
  {
    hide Fingerprints;
    assert DeleteKeys(j.Src(), j.Dst(), j.mode) == {};
    assert j.Pending() - j.env.silent == {};
  }

  lemma {:induction false} AppendOnlyEqualIff(j: Job)
    requires j.mode.AppendOnly? && j.Src() == j.source && j.Dst() == j.staging && !j.Fails()
    ensures j.Final() == j.source <==> DivergentCount(j) == 0 && LostInserts(j) == {}
  {
    AppendOnlyFinal(j);
    AppendOnlyDivergent(j);
    hide Job.Final, Job.Fails, DivergentCount, Job.Src, Job.Dst, Visible;
    var lost := LostInserts(j);
    assert forall k :: k in lost <==> k in j.source && k !in j.staging && k in j.env.silent;
    var final := (j.source - j.env.silent) + j.staging;
    if lost == {} && DivergentCount(j) == 0 {
      forall k ensures k in final <==> k in j.source { assert k !in lost; }
      assert final == j.source;
    }
    if final == j.source {
      forall k ensures k !in lost { assert k in j.source ==> k in final; }
      forall k | k in j.staging
        ensures k in j.source && j.source[k] == j.staging[k]
      {
        assert k in final && final[k] == j.staging[k];
      }
    }
  }

  lemma {:induction false} AppendOnlyDivergent(j: Job)
    requires j.mode.AppendOnly? && j.Src() == j.source && j.Dst() == j.staging && !j.Fails()
    ensures DivergentCount(j) == 0 <==> forall k :: k in j.staging ==> k in j.source && j.source[k] == j.staging[k]
  {
    var d := DivergentKeys(j.source, j.staging, j.mode);
    hide Job.Src, Job.Dst, Visible;
    assert forall k :: k in d <==> k in j.staging && (k !in j.source || j.source[k] != j.staging[k]);
    if d == {} {
      forall k | k in j.staging ensures k in j.source && j.source[k] == j.staging[k] { assert k !in d; }
    }
    if forall k :: k in j.staging ==> k in j.source && j.source[k] == j.staging[k] { assert d == {}; }
    if !j.Diffed() { assert j.source == j.staging; }
  }

  /** One AppendOnly table whose only insert is lost: the full pass converges and counts no divergence, and staging
      lacks the row. */
  lemma {:induction false} LostInsertConverges(k: Key, row: Row)
    ensures var t: Table := map[k := row];
      var calm := Weather(true, 0, 0, 1, true, false, map["t" := Env(NoFault, false, {k})]);
      var p := PassJob([Spec("t", AppendOnly, false)], map["t" := t], map["t" := map[]], 2000, calm, map[], map[]);
      p.Valid() && p.AllEqual() && p.Tally(1, DivergentCount) == 0 && !AllTablesEqual(p)
  {
    var t: Table := map[k := row];
    var calm := Weather(true, 0, 0, 1, true, false, map["t" := Env(NoFault, false, {k})]);
    var p := PassJob([Spec("t", AppendOnly, false)], map["t" := t], map["t" := map[]], 2000, calm, map[], map[]);
    var j := p.At(0);
    EverythingIsVisible(j.source);
    EverythingIsVisible(j.staging);
    AppendOnlyAddsOnly(j);
    AppendOnlyDivergent(j);
    AppendOnlyEqualIff(j);
    hide Visible, Job.Final, Job.Guarded, DivergentCount;
    assert k in LostInserts(j);
    assert p.Tally(1, DivergentCount) == p.Tally(0, DivergentCount) + DivergentCount(p.At(0));
  }

  /** A hot pass over one table that differs in a row before both cuts converges and changes nothing. */
  lemma {:induction false} UnseenRowConverges(k: Key, row: Row, other: Row, cut: int)
    requires row != other && !Sees(Since(cut), row) && !Sees(Since(cut), other)
    ensures var calm := Weather(false, cut, cut, 1, true, false, map[]);
      var p := PassJob([Spec("t", Mirror, true)], map["t" := map[k := row]], map["t" := map[k := other]], 2000, calm,
                       map[], map[]);
      p.Valid() && p.AllEqual() && !AllTablesEqual(p)
  {
    var calm := Weather(false, cut, cut, 1, true, false, map[]);
    var p := PassJob([Spec("t", Mirror, true)], map["t" := map[k := row]], map["t" := map[k := other]], 2000, calm,
                     map[], map[]);
    var j := p.At(0);
    assert j.Src() == map[] && j.Dst() == map[];
    NothingSeen(j);
    hide Visible, Job.Final, Job.Guarded, Job.Fails;
    assert j.staging[k] == other && j.source[k] == row;
  }

  lemma {:induction false} NothingSeen(j: Job)
    requires j.mode.Mirror? && j.env == Env(NoFault, false, {}) && j.Src() == map[] && j.Dst() == map[]
    ensures !j.Fails() && !j.Guarded() && !j.DeleteError() && j.Final() == j.staging && j.Equal()
  {
    hide Fingerprints;
    assert DeleteKeys(j.Src(), j.Dst(), j.mode) == {};
    assert j.Src() - {} == map[] && j.staging + map[] == j.staging && j.staging - {} == j.staging;
  }
}
