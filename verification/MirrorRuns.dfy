/** Whole runs of one reflected table: production writes, stray staging writes and passes in any order. */
module MirrorRuns {
  import opened Ordering
  import opened MirrorDiff
  import opened MirrorTable
  import opened MirrorConvergence
  import opened MirrorPass
  import opened Wrappers

  datatype World = World(production: Table, staging: Table, written: Table, deleted: set<Key>)

  datatype Event = Production(rows: Table) | Stray(rows: Table) | Reflect(srcWindow: Window, dstWindow: Window,
                              env: Env)

  ghost function JobOf(w: World, e: Event, mode: Mode, maxDeletes: nat): Job
    requires e.Reflect?
  {
    Job(mode, w.production, w.staging, e.srcWindow, e.dstWindow, maxDeletes, e.env, w.written, w.deleted)
  }

  ghost function Next(w: World, e: Event, mode: Mode, maxDeletes: nat): World {
    match e
    case Production(rows) => w.(production := rows)
    case Stray(rows) => w.(staging := rows)
    case Reflect(_, _, _) =>
      var j := JobOf(w, e, mode, maxDeletes);
      World(w.production, j.Final(), Remembered(w.written, Wrote(j)), RememberedKeys(w.deleted, Sent(j)))
  }

  ghost function Run(w: World, es: seq<Event>, mode: Mode, maxDeletes: nat): World {
    if es == [] then w else Next(Run(w, es[..|es|-1], mode, maxDeletes), es[|es|-1], mode, maxDeletes)
  }

  /** What the reflector remembers of a table it may know nothing of. */
  function Known(memory: Tables, name: string): Table { if name in memory then memory[name] else map[] }

  function KnownKeys(memory: map<string, set<Key>>, name: string): set<Key> {
    if name in memory then memory[name] else {}
  }

  /** A completed pass of the reflector over its databases is one such step of every table it has a plan for: with the
      two cuts in a hot pass over a hot table, and with none otherwise. */
  lemma {:induction false} PassIsNext(p: PassJob, tx: Tables, written: Tables, deleted: map<string, set<Key>>, i: nat)
    requires i < |p.specs| && p.Planned(i)
    requires Holds(p, tx, 0, |p.specs|, Untouched, AfterDeletes) && RemembersFirst(p, written, deleted, |p.specs|)
    ensures var s, w := p.specs[i], p.weather;
      var all := w.full || !s.hot;
      var env := if s.name in w.env then w.env[s.name] else CALM;
      var pass := Reflect(if all then Everything else Since(w.srcCut),
                          if all then Everything else Since(w.dstCut), env);
      var before := World(p.production[s.name], p.staging[s.name], Known(p.lastWritten, s.name),
                          KnownKeys(p.lastDeleted, s.name));
      && s.name in tx
      && Next(before, pass, s.mode, p.maxDeletes) ==
           World(p.production[s.name], tx[s.name], Known(written, s.name), KnownKeys(deleted, s.name))
  {
    hide Job.Final, Wrote, Sent, Remembered, RememberedKeys, RemembersFirst, Holds, Job.Src, Job.Dst;
    FinalIsHeld(p, tx, i);
    MemoryOf(p, i, written, deleted);
    KeptMemory(p, i);
  }

  /** A full pass that nothing hinders and no guard stops. */
  ghost predicate Clean(w: World, e: Event, mode: Mode, maxDeletes: nat) {
    && e.Reflect? && e.srcWindow.Everything? && e.dstWindow.Everything?
    && Unhindered(JobOf(w, e, mode, maxDeletes)) && !JobOf(w, e, mode, maxDeletes).Guarded()
  }

  /** Staging's cut is not before production's: as in the code, where staging's transaction begins later, when the
      clocks agree. */
  predicate InOrder(srcWindow: Window, dstWindow: Window) {
    srcWindow.Everything? || (dstWindow.Since? && srcWindow.cut <= dstWindow.cut)
  }

  /** A pass, hot or full, with its cuts in order, whatever fails in it. */
  ghost predicate Ordered(e: Event) { e.Reflect? && InOrder(e.srcWindow, e.dstWindow) }

  /** Whatever happened before, in whatever order, a clean full pass leaves staging equal to production, and it stays so
      over every further hot or full pass with its cuts in order, whatever fails there. */
  lemma {:induction false} HealsAfterAnyRun(w: World, es: seq<Event>, e: Event, tail: seq<Event>, maxDeletes: nat)
    requires Clean(Run(w, es, Mirror, maxDeletes), e, Mirror, maxDeletes)
    requires forall i :: 0 <= i < |tail| ==> Ordered(tail[i])
    ensures var r := Run(w, es + [e] + tail, Mirror, maxDeletes);
      r.staging == r.production == Run(w, es, Mirror, maxDeletes).production
    decreases |tail|
  {
    hide *;
    if tail == [] {
      assert es + [e] + [] == es + [e];
      CleanPassHeals(w, es, e, maxDeletes);
    } else {
      var rest, last := tail[..|tail|-1], tail[|tail|-1];
      HealsAfterAnyRun(w, es, e, rest, maxDeletes);
      assert es + [e] + tail == (es + [e] + rest) + [last];
      OrderedPassKeeps(w, es + [e] + rest, last, maxDeletes);
    }
  }

  lemma {:induction false} CleanPassHeals(w: World, es: seq<Event>, e: Event, maxDeletes: nat)
    requires Clean(Run(w, es, Mirror, maxDeletes), e, Mirror, maxDeletes)
    ensures var r := Run(w, es + [e], Mirror, maxDeletes);
      r.staging == r.production == Run(w, es, Mirror, maxDeletes).production
  {
    var j := JobOf(Run(w, es, Mirror, maxDeletes), e, Mirror, maxDeletes);
    RunIs(w, es, e, maxDeletes);
    FullPassHeals(j, j.(staging := j.Final()));
    hide Run, Job.Final, Job.Guarded, Visible;
  }

  lemma {:induction false} OrderedPassKeeps(w: World, es: seq<Event>, e: Event, maxDeletes: nat)
    requires Ordered(e)
    ensures var before, r := Run(w, es, Mirror, maxDeletes), Run(w, es + [e], Mirror, maxDeletes);
      before.staging == before.production ==> r.staging == r.production == before.production
  {
    RunIs(w, es, e, maxDeletes);
    var j := JobOf(Run(w, es, Mirror, maxDeletes), e, Mirror, maxDeletes);
    if j.source == j.staging { NothingToDo(j); }
    hide Run, Job.Final;
  }

  lemma {:induction false} NothingToDo(j: Job)
    requires j.mode.Mirror? && j.source == j.staging && InOrder(j.srcWindow, j.dstWindow)
    ensures j.Final() == j.staging
  {
    hide Fingerprints, DifferingBuckets;
    assert DeleteKeys(j.Src(), j.Dst(), j.mode) == {};
    assert j.staging + (j.Src() - j.env.silent) == j.staging;
    assert j.staging - ({} - j.env.silent) == j.staging;
  }

  /** A pass without any trouble over equal sides. */
  function EqualSides(t: Table, srcWindow: Window, dstWindow: Window, maxDeletes: nat): Job {
    Job(Mirror, t, t, srcWindow, dstWindow, maxDeletes, Env(NoFault, false, {}), map[], {})
  }

  /** The order of the cuts is exactly what keeps equal sides equal. */
  lemma {:induction false} EqualIsKeptIff(srcWindow: Window, dstWindow: Window, maxDeletes: nat)
    requires maxDeletes > 0
    ensures (forall t: Table :: EqualSides(t, srcWindow, dstWindow, maxDeletes).Final() == t) <==>
            InOrder(srcWindow, dstWindow)
  {
    if InOrder(srcWindow, dstWindow) {
      forall t: Table ensures EqualSides(t, srcWindow, dstWindow, maxDeletes).Final() == t {
        NothingToDo(EqualSides(t, srcWindow, dstWindow, maxDeletes));
      }
    } else {
      var row := Row("b", if dstWindow.Since? then Some(dstWindow.cut) else None, "");
      OutOfOrderDrops("k", row, srcWindow, dstWindow, maxDeletes);
    }
  }

  lemma {:induction false} OutOfOrderDrops(k: Key, row: Row, srcWindow: Window, dstWindow: Window, maxDeletes: nat)
    requires maxDeletes > 0 && Sees(dstWindow, row) && !Sees(srcWindow, row)
    ensures EqualSides(map[k := row], srcWindow, dstWindow, maxDeletes).Final() != map[k := row]
  {
    var t: Table := map[k := row];
    var j := EqualSides(t, srcWindow, dstWindow, maxDeletes);
    assert j.Src() == map[] && j.Dst() == t;
    hide Visible, Fingerprints;
    assert DeleteKeys(j.Src(), j.Dst(), j.mode) == {k};
    MirrorPassReplacesTheWindow(j);
    hide Job.Final;
    assert k !in j.Final();
  }

  /** AppendOnly is monotone over every run of production writes and passes, whatever fails. */
  lemma {:induction false} AppendOnlyRunsOnlyGrow(w: World, es: seq<Event>, maxDeletes: nat)
    requires forall i :: 0 <= i < |es| ==> !es[i].Stray?
    ensures forall k :: k in w.staging ==>
      var r := Run(w, es, AppendOnly, maxDeletes).staging; k in r && r[k] == w.staging[k]
  {
    if es != [] {
      var rest := es[..|es|-1];
      AppendOnlyRunsOnlyGrow(w, rest, maxDeletes);
      var mid, e := Run(w, rest, AppendOnly, maxDeletes), es[|es|-1];
      if e.Reflect? { AppendOnlyAddsOnly(JobOf(mid, e, AppendOnly, maxDeletes)); }
    }
  }

  // ---- the detector of stray staging writes ----

  /** The pass gets as far as comparing rows. */
  ghost predicate Looks(j: Job) { !j.env.fault.FingerprintFails? && !j.env.fault.RowsFail? }

  /** The keys a pass blames on staging: rows it has to write although it wrote them before and production kept them,
      and keys it has to delete although it deleted them before. */
  ghost function Blamed(j: Job): set<Key> {
    set k | k in j.Src().Keys + j.Dst().Keys && Blames(j, k)
  }

  ghost predicate Blames(j: Job, k: Key) {
    || (MustWrite(j.Src(), j.Dst(), j.mode, k) && WroteTheSame(j.Src(), j.written, k))
    || (MustDelete(j.Src(), j.Dst(), j.mode, k) && k in j.deleted)
  }

  lemma {:induction false} BlamedParts(j: Job)
    ensures var rewritten := Rewritten(UpsertKeys(j.Src(), j.Dst(), j.mode), j.Src(), j.written);
      var undone := DeleteKeys(j.Src(), j.Dst(), j.mode) * j.deleted;
      Blamed(j) == rewritten + undone && rewritten !! undone
  {
    hide Visible, Job.Src, Job.Dst;
    assert forall k :: k in Blamed(j) <==> k in j.Src().Keys + j.Dst().Keys && Blames(j, k);
  }

  /** In every mode, window and environment the alarm counts exactly the blamed keys. */
  lemma {:induction false} AlarmCountsBlamed(j: Job)
    ensures j.StagingWriteCount() == if Looks(j) then |Blamed(j)| else 0
  {
    BlamedParts(j);
    if j.Src() == j.Dst() { NobodyBlamed(j); }
    hide Visible, Rewritten, Blamed, Job.Src, Job.Dst, UpsertKeys, DeleteKeys;
  }

  lemma {:induction false} NobodyBlamed(j: Job)
    requires j.Src() == j.Dst()
    ensures Blamed(j) == {}
  {
    hide Visible, Job.Src, Job.Dst;
  }

  /** Nobody but the reflector writes on staging. Its passes may be hot or full, cut anywhere, fail or be guarded, and
      statements may report success without effect. */
  ghost predicate Undisturbed(es: seq<Event>) { forall i :: 0 <= i < |es| ==> !es[i].Stray? }

  /** An undisturbed run in which every statement that reports success has its effect. */
  ghost predicate Quiet(es: seq<Event>) {
    forall i :: 0 <= i < |es| ==> es[i].Production? || (es[i].Reflect? && es[i].env.silent == {})
  }

  /** The keys whose last write reported success without effect: the reflector remembers a row it did not write. */
  ghost function LostWrites(w: World, es: seq<Event>, mode: Mode, maxDeletes: nat): set<Key> {
    if es == [] then {}
    else
      var rest, e := es[..|es|-1], es[|es|-1];
      LostWritesNext(LostWrites(w, rest, mode, maxDeletes), Run(w, rest, mode, maxDeletes), e, mode, maxDeletes)
  }

  ghost function LostWritesNext(lost: set<Key>, r: World, e: Event, mode: Mode, maxDeletes: nat): set<Key> {
    if !e.Reflect? then lost
    else
      var wrote := Wrote(JobOf(r, e, mode, maxDeletes)).Keys;
      (lost - wrote) + wrote * e.env.silent
  }

  /** The keys whose last delete reported success without effect. */
  ghost function LostDeletes(w: World, es: seq<Event>, maxDeletes: nat): set<Key> {
    if es == [] then {}
    else
      var rest, e := es[..|es|-1], es[|es|-1];
      LostDeletesNext(LostDeletes(w, rest, maxDeletes), Run(w, rest, Mirror, maxDeletes), e, maxDeletes)
  }

  ghost function LostDeletesNext(lost: set<Key>, r: World, e: Event, maxDeletes: nat): set<Key> {
    if !e.Reflect? then lost
    else
      var sent := Sent(JobOf(r, e, Mirror, maxDeletes));
      (lost - sent) + sent * e.env.silent
  }

  lemma {:induction false} QuietLosesNothing(w: World, es: seq<Event>, mode: Mode, maxDeletes: nat)
    requires Quiet(es)
    ensures LostWrites(w, es, mode, maxDeletes) == {} && LostDeletes(w, es, maxDeletes) == {}
  {
    if es != [] {
      var rest := es[..|es|-1];
      assert Quiet(rest);
      QuietLosesNothing(w, rest, mode, maxDeletes);
      hide Run, Wrote, Sent;
    }
  }

  /** What staging still holds of the rows the reflector wrote is what it wrote. */
  ghost predicate MemoryFits(w: World) { FitsBut(w.written, w.staging, {}) }

  /** The same, but for the lost keys. */
  ghost predicate FitsBut(written: Table, staging: Table, lost: set<Key>) {
    forall k :: k in written && k in staging && k !in lost ==> written[k] == staging[k]
  }

  lemma {:induction false} FinalAt(j: Job, k: Key)
    requires j.mode.Mirror?
    ensures !j.Fails() && k in j.Src() && k !in j.env.silent ==> k in j.Final() && j.Final()[k] == j.Src()[k]
    ensures j.Fails() || k !in j.Src() || k in j.env.silent ==>
      (k in j.Final() ==> k in j.staging && j.Final()[k] == j.staging[k])
    ensures k in Sent(j) ==> k in j.staging && (k !in j.env.silent ==> k !in j.Final())
    ensures k in Wrote(j) <==> !j.Fails() && MustWrite(j.Src(), j.Dst(), j.mode, k)
    ensures k in Wrote(j) ==> Wrote(j)[k] == j.Src()[k]
    ensures k in j.Dst() ==> k in j.staging && j.Dst()[k] == j.staging[k]
    ensures k in j.Src() ==> k in j.source
  {
    hide Fingerprints, DifferingBuckets;
  }

  /** Any pass, hot or full, failing, guarded or with silent statements, keeps the memory true of the other keys. */
  lemma {:induction false} PassFits(j: Job, lost: set<Key>)
    requires j.mode.Mirror? && FitsBut(j.written, j.staging, lost)
    ensures FitsBut(Remembered(j.written, Wrote(j)), j.Final(), (lost - Wrote(j).Keys) + Wrote(j).Keys * j.env.silent)
  {
    var written := Remembered(j.written, Wrote(j));
    var still := (lost - Wrote(j).Keys) + Wrote(j).Keys * j.env.silent;
    hide Job.Final, Job.Fails, Wrote, Visible, Job.Src, Job.Dst, Sent;
    forall k | k in written && k in j.Final() && k !in still ensures written[k] == j.Final()[k] {
      FinalAt(j, k);
    }
  }

  lemma {:induction false} UndisturbedRunsFit(w: World, es: seq<Event>, maxDeletes: nat)
    requires MemoryFits(w) && Undisturbed(es)
    ensures var r := Run(w, es, Mirror, maxDeletes);
      FitsBut(r.written, r.staging, LostWrites(w, es, Mirror, maxDeletes))
  {
    if es != [] {
      var rest, e := es[..|es|-1], es[|es|-1];
      UndisturbedRunsFit(w, rest, maxDeletes);
      var r := Run(w, rest, Mirror, maxDeletes);
      if e.Reflect? { PassFits(JobOf(r, e, Mirror, maxDeletes), LostWrites(w, rest, Mirror, maxDeletes)); }
      hide FitsBut, Remembered, Wrote, Job.Final;
    }
  }

  /** Production shows a key again with the very row the reflector last wrote for it, and staging does not have it. */
  ghost function Returned(j: Job): set<Key> {
    set k | k in j.Src() && k !in j.staging && WroteTheSame(j.Src(), j.written, k)
  }

  /** A row the reflector wrote, equal on both sides, that production's cut shows and staging's does not. */
  ghost function CutApart(j: Job): set<Key> {
    set k | k in j.Src() && k in j.staging && j.staging[k] == j.Src()[k] && !Sees(j.dstWindow, j.staging[k]) &&
            WroteTheSame(j.Src(), j.written, k)
  }

  /** A key the reflector has deleted before is visible on staging and not on production. */
  ghost function DroppedAgain(j: Job): set<Key> { (j.Dst().Keys - j.Src().Keys) * j.deleted }

  /** A lost write over another row: production still shows the row that staging never took. */
  ghost function NeverTaken(j: Job, lost: set<Key>): set<Key> {
    set k | k in lost && k in j.Src() && k in j.staging && j.staging[k] != j.Src()[k] &&
      WroteTheSame(j.Src(), j.written, k)
  }

  lemma {:induction false} UndisturbedBlame(j: Job, lost: set<Key>)
    requires j.mode.Mirror? && FitsBut(j.written, j.staging, lost)
    ensures Blamed(j) == Returned(j) + CutApart(j) + DroppedAgain(j) + NeverTaken(j, lost)
    ensures |Blamed(j)| == |Returned(j)| + |CutApart(j)| + |DroppedAgain(j)| + |NeverTaken(j, lost)|
  {
    forall k { UndisturbedBlameAt(j, lost, k); }
    hide Blamed, Blames, Visible;
    assert Returned(j) !! CutApart(j);
    assert (Returned(j) + CutApart(j)) !! DroppedAgain(j);
    assert (Returned(j) + CutApart(j) + DroppedAgain(j)) !! NeverTaken(j, lost);
    FourParts(Blamed(j), Returned(j), CutApart(j), DroppedAgain(j), NeverTaken(j, lost));
    hide Returned, CutApart, DroppedAgain, NeverTaken;
  }

  lemma {:induction false} FourParts(all: set<Key>, a: set<Key>, b: set<Key>, c: set<Key>, d: set<Key>)
    requires a !! b && (a + b) !! c && (a + b + c) !! d
    requires forall k :: k in all <==> k in a || k in b || k in c || k in d
    ensures all == a + b + c + d && |all| == |a| + |b| + |c| + |d|
  {
    assert all == (a + b + c) + d;
  }

  lemma {:induction false} UndisturbedBlameAt(j: Job, lost: set<Key>, k: Key)
    requires j.mode.Mirror? && FitsBut(j.written, j.staging, lost)
    ensures k in Blamed(j) <==> k in Returned(j) || k in CutApart(j) || k in DroppedAgain(j) || k in NeverTaken(j, lost)
  {
  }

  /** The memory is never cleared, the two sides cut by their own clocks, and a statement without effect is remembered.
      So in every run in which only the reflector writes on staging the alarm is exactly the keys production brought
      back unchanged, the remembered rows between the two cuts, the keys that left the compared rows again, and the lost
      writes that staging never took. */
  lemma {:induction false} AlarmIsExactly(w: World, es: seq<Event>, e: Event, maxDeletes: nat)
    requires MemoryFits(w) && Undisturbed(es) && e.Reflect?
    ensures var j := JobOf(Run(w, es, Mirror, maxDeletes), e, Mirror, maxDeletes);
      var lost := LostWrites(w, es, Mirror, maxDeletes);
      && j.StagingWriteCount() ==
           (if Looks(j) then |Returned(j)| + |CutApart(j)| + |DroppedAgain(j)| + |NeverTaken(j, lost)| else 0)
      && (j.StagingWriteCount() == 0 <==>
            !Looks(j) || (Returned(j) == {} && CutApart(j) == {} && DroppedAgain(j) == {} && NeverTaken(j, lost) == {}))
  {
    UndisturbedRunsFit(w, es, maxDeletes);
    var j := JobOf(Run(w, es, Mirror, maxDeletes), e, Mirror, maxDeletes);
    AlarmCountsBlamed(j);
    UndisturbedBlame(j, LostWrites(w, es, Mirror, maxDeletes));
    hide Returned, CutApart, DroppedAgain, NeverTaken, Blamed, Job.StagingWriteCount, Looks, Run, LostWrites;
  }

  /** Without statements that report success in vain the last kind is empty. */
  lemma {:induction false} QuietAlarmIsExactly(w: World, es: seq<Event>, e: Event, maxDeletes: nat)
    requires MemoryFits(w) && Quiet(es) && e.Reflect?
    ensures var j := JobOf(Run(w, es, Mirror, maxDeletes), e, Mirror, maxDeletes);
      && j.StagingWriteCount() == (if Looks(j) then |Returned(j)| + |CutApart(j)| + |DroppedAgain(j)| else 0)
      && (j.StagingWriteCount() == 0 <==>
            !Looks(j) || (Returned(j) == {} && CutApart(j) == {} && DroppedAgain(j) == {}))
  {
    AlarmIsExactly(w, es, e, maxDeletes);
    QuietLosesNothing(w, es, Mirror, maxDeletes);
    var j := JobOf(Run(w, es, Mirror, maxDeletes), e, Mirror, maxDeletes);
    assert NeverTaken(j, {}) == {};
    hide Returned, CutApart, DroppedAgain, NeverTaken, Job.StagingWriteCount, Looks, Run, LostWrites, LostDeletes;
  }

  /** Rows can lie between the cuts only when staging's is the later one, as it is in the code: staging's transaction
      begins after production's. A full pass has no cuts. */
  lemma {:induction false} CutApartNeedsLaterCut(j: Job)
    requires CutApart(j) != {}
    ensures j.dstWindow.Since? && (j.srcWindow.Since? ==> j.srcWindow.cut < j.dstWindow.cut)
  {
    var k :| k in CutApart(j);
  }

  /** The keys whose staging row a stray write changes, removes or adds. */
  ghost function Touched(before: Table, stray: Table): set<Key> {
    set k | k in before.Keys + stray.Keys && !(k in before && k in stray && stray[k] == before[k])
  }

  /** The stray writes the alarm counts: those after which staging's window does not show the row that the reflector
      wrote and production still shows, and those that show a deleted key without production's. */
  ghost function Caught(before: Table, j: Job): set<Key> {
    set k | k in Touched(before, j.staging) && (
      || (WroteTheSame(j.Src(), j.written, k) && (k !in j.Dst() || j.Dst()[k] != j.Src()[k]))
      || (k in j.Dst() && k !in j.Src() && k in j.deleted))
  }

  lemma {:induction false} StrayBlameAt(w: World, stray: Table, e: Event, k: Key, maxDeletes: nat)
    requires e.Reflect?
    ensures var j0, j := JobOf(w, e, Mirror, maxDeletes), JobOf(w.(staging := stray), e, Mirror, maxDeletes);
      k in Blamed(j) <==> if k in Touched(w.staging, stray) then k in Caught(w.staging, j) else k in Blamed(j0)
  {
  }

  /** What a stray write does to the next alarm, from any state and in every window: it takes the touched keys out of it
      and adds those it catches. A stray change of a row the reflector never wrote is undone and not counted. */
  lemma {:induction false} StrayAlarmIsExactly(w: World, stray: Table, e: Event, maxDeletes: nat)
    requires e.Reflect?
    ensures var j0, j := JobOf(w, e, Mirror, maxDeletes), JobOf(w.(staging := stray), e, Mirror, maxDeletes);
      j.StagingWriteCount() ==
      if Looks(j) then |(Blamed(j0) - Touched(w.staging, stray)) + Caught(w.staging, j)| else 0
  {
    var j0, j := JobOf(w, e, Mirror, maxDeletes), JobOf(w.(staging := stray), e, Mirror, maxDeletes);
    AlarmCountsBlamed(j);
    forall k { StrayBlameAt(w, stray, e, k, maxDeletes); }
    CaughtIsTouched(w.staging, j);
    hide Blamed, Caught, Touched, Job.StagingWriteCount, Looks;
    assert Blamed(j) == (Blamed(j0) - Touched(w.staging, stray)) + Caught(w.staging, j);
  }

  /** While the memory is true, no stray write to a row that staging held escapes when production still shows what the
      reflector wrote for it. */
  lemma {:induction false} HeldRowIsCaught(w: World, stray: Table, e: Event, k: Key, maxDeletes: nat)
    requires MemoryFits(w) && e.Reflect? && k in w.staging && k in Touched(w.staging, stray)
    requires WroteTheSame(JobOf(w, e, Mirror, maxDeletes).Src(), w.written, k)
    ensures k in Caught(w.staging, JobOf(w.(staging := stray), e, Mirror, maxDeletes))
  {
  }

  lemma {:induction false} CaughtIsTouched(before: Table, j: Job)
    ensures Caught(before, j) <= Touched(before, j.staging)
  {
  }

  /** Keys that left staging at some point of the run. */
  ghost function Retired(w: World, es: seq<Event>, maxDeletes: nat): set<Key> {
    if es == [] then {}
    else Retired(w, es[..|es|-1], maxDeletes) +
         (Run(w, es[..|es|-1], Mirror, maxDeletes).staging.Keys - Run(w, es, Mirror, maxDeletes).staging.Keys)
  }

  /** Production never brings back a key that has left staging, as sequence-minted ids never do. */
  ghost predicate NeverReturns(w: World, es: seq<Event>, maxDeletes: nat) {
    es == [] ||
    (NeverReturns(w, es[..|es|-1], maxDeletes) &&
     Retired(w, es, maxDeletes) !! Run(w, es, Mirror, maxDeletes).production.Keys)
  }

  /** Whatever the memory holds that staging does not confirm has retired, or was lost. */
  ghost predicate MemoryIsOf(r: World, retired: set<Key>, lostWrites: set<Key>, lostDeletes: set<Key>) {
    && (forall k :: k in r.deleted ==> k in retired || k in lostDeletes)
    && (forall k :: k in r.written && k !in r.staging ==> k in retired || k in lostWrites)
    && (forall k :: k in retired ==> k !in r.staging)
  }

  lemma {:induction false} RememberedIsOf(written: Table, deleted: set<Key>, j: Job)
    ensures forall k :: k in RememberedKeys(deleted, Sent(j)) ==> k in deleted || k in Sent(j)
    ensures forall k :: k in Remembered(written, Wrote(j)) ==> k in written || k in Wrote(j)
  {
    hide Sent, Wrote;
  }

  lemma {:induction false} MemoryNext(r: World, e: Event, retired: set<Key>, lostWrites: set<Key>,
                                      lostDeletes: set<Key>, maxDeletes: nat)
    requires MemoryIsOf(r, retired, lostWrites, lostDeletes) && e.Reflect? && retired !! r.production.Keys
    ensures var next := Next(r, e, Mirror, maxDeletes);
      MemoryIsOf(next, retired + (r.staging.Keys - next.staging.Keys),
                 LostWritesNext(lostWrites, r, e, Mirror, maxDeletes), LostDeletesNext(lostDeletes, r, e, maxDeletes))
  {
    var j := JobOf(r, e, Mirror, maxDeletes);
    RememberedIsOf(r.written, r.deleted, j);
    hide Remembered, RememberedKeys, Wrote, Sent, Job.Final, Job.Fails, Visible, Job.Src, Job.Dst;
    forall k
      ensures k in Sent(j) ==> k in j.staging && (k !in j.env.silent ==> k !in j.Final())
      ensures k in Wrote(j) && k !in j.env.silent ==> k in j.Final()
      ensures k in j.Final() && k !in j.staging ==> k in r.production
    {
      FinalAt(j, k);
    }
  }

  lemma {:induction false} UndisturbedMemory(w: World, es: seq<Event>, maxDeletes: nat)
    requires w.written == map[] && w.deleted == {} && Undisturbed(es) && NeverReturns(w, es, maxDeletes)
    ensures MemoryIsOf(Run(w, es, Mirror, maxDeletes), Retired(w, es, maxDeletes),
                       LostWrites(w, es, Mirror, maxDeletes), LostDeletes(w, es, maxDeletes))
  {
    if es != [] {
      var rest, e := es[..|es|-1], es[|es|-1];
      UndisturbedMemory(w, rest, maxDeletes);
      if e.Reflect? {
        MemoryNext(Run(w, rest, Mirror, maxDeletes), e, Retired(w, rest, maxDeletes),
                   LostWrites(w, rest, Mirror, maxDeletes), LostDeletes(w, rest, maxDeletes), maxDeletes);
      }
      hide Remembered, RememberedKeys, Job.Final, LostWritesNext, LostDeletesNext;
      if !e.Reflect? {
        SameLosses(LostWrites(w, rest, Mirror, maxDeletes), LostDeletes(w, rest, maxDeletes),
                   Run(w, rest, Mirror, maxDeletes), e, maxDeletes);
      }
    }
  }

  lemma {:induction false} SameLosses(lostWrites: set<Key>, lostDeletes: set<Key>, r: World, e: Event, maxDeletes: nat)
    requires !e.Reflect?
    ensures LostWritesNext(lostWrites, r, e, Mirror, maxDeletes) == lostWrites
    ensures LostDeletesNext(lostDeletes, r, e, maxDeletes) == lostDeletes
  {
  }

  /** From a fresh reflector, when no key that left staging comes back, the alarm is the rows between the two cuts and
      otherwise lost statements only: rows that were never taken, and deletes that never happened. */
  lemma {:induction false} OnlyCutsAndLossesAlarm(w: World, es: seq<Event>, e: Event, maxDeletes: nat)
    requires w.written == map[] && w.deleted == {} && Undisturbed(es) && e.Reflect? && NeverReturns(w, es, maxDeletes)
    ensures var j := JobOf(Run(w, es, Mirror, maxDeletes), e, Mirror, maxDeletes);
      var lost := LostWrites(w, es, Mirror, maxDeletes);
      && Returned(j) <= lost && DroppedAgain(j) <= LostDeletes(w, es, maxDeletes)
      && j.StagingWriteCount() ==
           (if Looks(j) then |CutApart(j)| + |Returned(j)| + |NeverTaken(j, lost)| + |DroppedAgain(j)| else 0)
  {
    AlarmIsExactly(w, es, e, maxDeletes);
    UndisturbedMemory(w, es, maxDeletes);
    var r := Run(w, es, Mirror, maxDeletes);
    var j := JobOf(r, e, Mirror, maxDeletes);
    assert r.production.Keys !! Retired(w, es, maxDeletes) || es == [];
    OnlyLossesShow(r, j, Retired(w, es, maxDeletes), LostWrites(w, es, Mirror, maxDeletes),
                   LostDeletes(w, es, maxDeletes));
    hide CutApart, Returned, DroppedAgain, NeverTaken, Run, Job.StagingWriteCount, Undisturbed, Retired, NeverReturns,
      LostWrites, LostDeletes;
  }

  lemma {:induction false} OnlyLossesShow(r: World, j: Job, retired: set<Key>, lostWrites: set<Key>,
                                          lostDeletes: set<Key>)
    requires MemoryIsOf(r, retired, lostWrites, lostDeletes) && retired !! r.production.Keys
    requires j.source == r.production && j.staging == r.staging && j.written == r.written && j.deleted == r.deleted
    ensures Returned(j) <= lostWrites && DroppedAgain(j) <= lostDeletes
  {
  }

  /** In a quiet run that leaves the rows between the two cuts: nothing else production does is counted, and a full pass
      counts nothing. */
  lemma {:induction false} OnlyTheCutsAlarm(w: World, es: seq<Event>, e: Event, maxDeletes: nat)
    requires w.written == map[] && w.deleted == {} && Quiet(es) && e.Reflect? && NeverReturns(w, es, maxDeletes)
    ensures var j := JobOf(Run(w, es, Mirror, maxDeletes), e, Mirror, maxDeletes);
      && j.StagingWriteCount() == (if Looks(j) then |CutApart(j)| else 0)
      && (e.dstWindow.Everything? ==> j.StagingWriteCount() == 0)
  {
    OnlyCutsAndLossesAlarm(w, es, e, maxDeletes);
    QuietLosesNothing(w, es, Mirror, maxDeletes);
    var j := JobOf(Run(w, es, Mirror, maxDeletes), e, Mirror, maxDeletes);
    assert NeverTaken(j, {}) == {};
    if CutApart(j) != {} { CutApartNeedsLaterCut(j); }
    hide CutApart, Returned, DroppedAgain, NeverTaken, Run, Job.StagingWriteCount, NeverReturns, LostWrites,
      LostDeletes;
  }

  /** With the effects of the previous pass alone in memory the alarm is exactly the rows that pass wrote that now lie
      between the two cuts, and what it lost, whatever production did in between. */
  lemma {:induction false} OnePassMemoryAlarm(w: World, e: Event, rows: Table, later: Event, maxDeletes: nat)
    requires w.written == map[] && w.deleted == {} && e.Reflect? && later.Reflect?
    ensures var first := JobOf(w, e, Mirror, maxDeletes);
      var j := JobOf(Next(w, e, Mirror, maxDeletes).(production := rows), later, Mirror, maxDeletes);
      var lost := Wrote(first).Keys * e.env.silent;
      && Returned(j) <= lost && DroppedAgain(j) <= Sent(first) * e.env.silent
      && j.StagingWriteCount() ==
           (if Looks(j) then |CutApart(j)| + |Returned(j)| + |NeverTaken(j, lost)| + |DroppedAgain(j)| else 0)
      && (e.env.silent == {} ==> j.StagingWriteCount() == if Looks(j) then |CutApart(j)| else 0)
  {
    var first := JobOf(w, e, Mirror, maxDeletes);
    var j := JobOf(Next(w, e, Mirror, maxDeletes).(production := rows), later, Mirror, maxDeletes);
    var lost := Wrote(first).Keys * e.env.silent;
    PassFits(first, {});
    assert ({} - Wrote(first).Keys) + lost == lost;
    OnePassMemory(first);
    AlarmCountsBlamed(j);
    hide Remembered, RememberedKeys, Wrote, Sent, Job.Final, Blamed, Job.StagingWriteCount, Looks, FitsBut;
    UndisturbedBlame(j, lost);
    LossesShow(j, lost, Sent(first) * e.env.silent);
    hide CutApart, Returned, DroppedAgain, NeverTaken;
  }

  lemma {:induction false} OnePassMemory(first: Job)
    requires first.mode.Mirror?
    ensures forall k :: k in RememberedKeys({}, Sent(first)) && k in first.Final() ==>
      k in Sent(first) * first.env.silent
    ensures forall k :: k in Remembered(map[], Wrote(first)) && k !in first.Final() ==>
      k in Wrote(first).Keys * first.env.silent
  {
    RememberedIsOf(map[], {}, first);
    hide Remembered, RememberedKeys, Wrote, Sent, Job.Final, Job.Fails;
    forall k { FinalAt(first, k); }
  }

  lemma {:induction false} LossesShow(j: Job, lost: set<Key>, kept: set<Key>)
    requires forall k :: k in j.deleted && k in j.staging ==> k in kept
    requires forall k :: k in j.written && k !in j.staging ==> k in lost
    ensures Returned(j) <= lost && DroppedAgain(j) <= kept && NeverTaken(j, lost) <= lost
  {
  }

  // ---- alarms without a stray write ----

  const CALM := Env(NoFault, false, {})
  const FULL_PASS := Reflect(Everything, Everything, CALM)

  /** Nobody writes on staging: a full pass copies one row, and a hot pass whose staging cut lies past the row's time,
      and whose production cut does not, counts one staging write. */
  lemma {:induction false} HotFalseAlarm(k: Key, row: Row, srcCut: int, dstCut: int, maxDeletes: nat)
    requires row.ts.Some? && srcCut <= row.ts.value < dstCut && maxDeletes > 0
    ensures var rows: Table := map[k := row];
      var hot := Reflect(Since(srcCut), Since(dstCut), CALM);
      var after := Run(World(rows, map[], map[], {}), [FULL_PASS], Mirror, maxDeletes);
      Quiet([FULL_PASS, hot]) && JobOf(after, hot, Mirror, maxDeletes).StagingWriteCount() == 1
  {
    var rows: Table := map[k := row];
    var w := World(rows, map[], map[], {});
    var hot := Reflect(Since(srcCut), Since(dstCut), CALM);
    hide Next, Clean, JobOf, Run;
    RunOne(w, [], FULL_PASS, [FULL_PASS], maxDeletes);
    SmallPassIsClean(w, FULL_PASS, maxDeletes);
    FirstWrite(w, FULL_PASS, rows, maxDeletes);
    CutApartAlarm(World(rows, rows, rows, {}), k, srcCut, dstCut, maxDeletes);
  }

  lemma {:induction false} CutApartAlarm(w: World, k: Key, srcCut: int, dstCut: int, maxDeletes: nat)
    requires w.production.Keys == {k} && w.staging == w.production == w.written
    requires w.production[k].ts.Some? && srcCut <= w.production[k].ts.value < dstCut
    ensures JobOf(w, Reflect(Since(srcCut), Since(dstCut), CALM), Mirror, maxDeletes).StagingWriteCount() == 1
  {
    var j := JobOf(w, Reflect(Since(srcCut), Since(dstCut), CALM), Mirror, maxDeletes);
    assert j.Src() == w.production && j.Dst() == map[];
    OneBlamed(j, k);
    hide Visible, Job.StagingWriteCount;
  }

  lemma {:induction false} OneBlamed(j: Job, k: Key)
    requires j.mode.Mirror? && Looks(j) && j.Src().Keys == {k} && j.Dst() == map[] && j.written == j.Src()
    ensures j.StagingWriteCount() == 1
  {
    AlarmCountsBlamed(j);
    hide Visible, Job.Src, Job.Dst, Job.StagingWriteCount;
    assert Blamed(j) == {k};
  }

  /** A full pass whose only statement reports success without effect. */
  function LostPass(k: Key): Event { Reflect(Everything, Everything, Env(NoFault, false, {k})) }

  /** Nobody writes on staging: a full pass writes a row in vain, and the next full pass counts one staging write. */
  lemma {:induction false} SilentWriteAlarms(k: Key, row: Row, other: Row, maxDeletes: nat)
    requires row != other
    ensures var w := World(map[k := row], map[k := other], map[], {});
      var after := Run(w, [LostPass(k)], Mirror, maxDeletes);
      && Undisturbed([LostPass(k)]) && MemoryFits(w)
      && JobOf(after, FULL_PASS, Mirror, maxDeletes).StagingWriteCount() == 1
  {
    var w := World(map[k := row], map[k := other], map[], {});
    hide Run, Next;
    RunOne(w, [], LostPass(k), [LostPass(k)], maxDeletes);
    LostWriteStays(w, k, row, other, maxDeletes);
    var j := JobOf(World(map[k := row], map[k := other], map[k := row], {}), FULL_PASS, Mirror, maxDeletes);
    EverythingIsVisible(j.source);
    EverythingIsVisible(j.staging);
    AlarmCountsBlamed(j);
    hide Visible, Job.StagingWriteCount;
    assert Blamed(j) == {k};
  }

  lemma {:induction false} LostWriteStays(w: World, k: Key, row: Row, other: Row, maxDeletes: nat)
    requires row != other && w == World(map[k := row], map[k := other], map[], {})
    ensures Next(w, LostPass(k), Mirror, maxDeletes) == World(map[k := row], map[k := other], map[k := row], {})
  {
    var j := JobOf(w, LostPass(k), Mirror, maxDeletes);
    EverythingIsVisible(j.source);
    EverythingIsVisible(j.staging);
    hide Visible, Fingerprints;
    LostWriteMemory(j, k);
    LostWriteFinal(j, k);
    RememberedFresh(map[k := row]);
    hide Job.Final, Wrote, Sent, Remembered, RememberedKeys;
  }

  lemma {:induction false} LostWriteMemory(j: Job, k: Key)
    requires j.mode.Mirror? && j.env == Env(NoFault, false, {k})
    requires j.Src() == j.source && j.Dst() == j.staging && j.source.Keys == {k} && j.staging.Keys == {k}
    requires j.source[k] != j.staging[k]
    ensures Wrote(j) == j.source && Sent(j) == {}
  {
    hide Visible, Job.Src, Job.Dst, Fingerprints;
    assert UpsertKeys(j.Src(), j.Dst(), j.mode) == {k} && DeleteKeys(j.Src(), j.Dst(), j.mode) == {};
  }

  lemma {:induction false} LostWriteFinal(j: Job, k: Key)
    requires j.mode.Mirror? && j.env == Env(NoFault, false, {k})
    requires j.Src() == j.source && j.Dst() == j.staging && j.source.Keys == {k} && j.staging.Keys == {k}
    ensures j.Final() == j.staging
  {
    hide Visible, Job.Src, Job.Dst, Fingerprints;
    assert DeleteKeys(j.Src(), j.Dst(), j.mode) == {} && j.Src() - {k} == map[];
  }

  /** The same with a delete: production has lost the row, staging keeps it, and the next full pass counts one. */
  lemma {:induction false} SilentDeleteAlarms(k: Key, row: Row, maxDeletes: nat)
    requires maxDeletes > 0
    ensures var w := World(map[], map[k := row], map[], {});
      var after := Run(w, [LostPass(k)], Mirror, maxDeletes);
      && Undisturbed([LostPass(k)]) && MemoryFits(w)
      && JobOf(after, FULL_PASS, Mirror, maxDeletes).StagingWriteCount() == 1
  {
    var w := World(map[], map[k := row], map[], {});
    hide Run, Next;
    RunOne(w, [], LostPass(k), [LostPass(k)], maxDeletes);
    LostDeleteStays(w, k, row, maxDeletes);
    var j := JobOf(World(map[], map[k := row], map[], {k}), FULL_PASS, Mirror, maxDeletes);
    EverythingIsVisible(j.source);
    EverythingIsVisible(j.staging);
    AlarmCountsBlamed(j);
    hide Visible, Job.StagingWriteCount;
    assert Blamed(j) == {k};
  }

  lemma {:induction false} LostDeleteStays(w: World, k: Key, row: Row, maxDeletes: nat)
    requires maxDeletes > 0 && w == World(map[], map[k := row], map[], {})
    ensures Next(w, LostPass(k), Mirror, maxDeletes) == World(map[], map[k := row], map[], {k})
  {
    var j := JobOf(w, LostPass(k), Mirror, maxDeletes);
    EverythingIsVisible(j.source);
    EverythingIsVisible(j.staging);
    hide Visible, Fingerprints, Job.Final, Wrote, Sent, Remembered, RememberedKeys;
    LostDeleteEffect(j, k);
    RememberedDelete(k);
  }

  lemma {:induction false} RememberedDelete(k: Key)
    ensures Remembered(map[], map[]) == map[] && RememberedKeys({}, {k}) == {k}
  {
  }

  lemma {:induction false} LostDeleteEffect(j: Job, k: Key)
    requires j.mode.Mirror? && j.env == Env(NoFault, false, {k}) && j.maxDeletes > 0
    requires j.Src() == map[] && j.Dst() == j.staging && j.staging.Keys == {k}
    ensures Wrote(j) == map[] && Sent(j) == {k} && j.Final() == j.staging
  {
    hide Visible, Job.Src, Job.Dst, Fingerprints;
    assert UpsertKeys(j.Src(), j.Dst(), j.mode) == {} && DeleteKeys(j.Src(), j.Dst(), j.mode) == {k};
    assert |j.staging| == |j.staging.Keys| == 1;
    assert j.Pending() == {k} && j.Pending() - {k} == {};
    assert j.Src() - {k} == map[] && j.staging + map[] == j.staging;
  }

  /** Production drops a row between two passes and brings it back unchanged. */
  function DropAndReturn(rows: Table): seq<Event> { [FULL_PASS, Production(map[]), FULL_PASS, Production(rows)] }

  /** Nobody writes on staging in this run either, yet its next full pass counts one staging write. */
  lemma {:induction false} FalseAlarm(k: Key, row: Row, maxDeletes: nat)
    requires maxDeletes > 0
    ensures var rows: Table := map[k := row];
      var w, es := World(rows, map[], map[], {}), DropAndReturn(rows);
      Quiet(es) && JobOf(Run(w, es, Mirror, maxDeletes), FULL_PASS, Mirror, maxDeletes).StagingWriteCount() == 1
  {
    hide *;
    var rows: Table := map[k := row];
    var w0 := World(rows, map[], map[], {});
    DropAndReturnIsQuiet(rows);
    DropAndReturnRun(w0, rows, maxDeletes);
    ReturnedAlarm(Run(w0, DropAndReturn(rows), Mirror, maxDeletes), k, maxDeletes);
  }

  lemma {:induction false} DropAndReturnIsQuiet(rows: Table)
    ensures Quiet(DropAndReturn(rows))
  {
  }

  lemma {:induction false} ReturnedAlarm(w: World, k: Key, maxDeletes: nat)
    requires w.production.Keys == {k} && w.staging == map[] && w.written == w.production
    ensures JobOf(w, FULL_PASS, Mirror, maxDeletes).StagingWriteCount() == 1
  {
    EverythingIsVisible(w.production);
    EverythingIsVisible(w.staging);
    OneBlamed(JobOf(w, FULL_PASS, Mirror, maxDeletes), k);
    hide Visible, Job.StagingWriteCount;
  }

  lemma {:induction false} DropAndReturnRun(w0: World, rows: Table, maxDeletes: nat)
    requires maxDeletes > 0 && w0 == World(rows, map[], map[], {}) && |rows| == 1
    ensures var w4 := Run(w0, DropAndReturn(rows), Mirror, maxDeletes);
      w4.production == rows && w4.staging == map[] && w4.written == rows
  {
    hide Clean, Run, Next, Job.Final;
    var e1, e2 := FULL_PASS, Production(map[]);
    RunOne(w0, [], e1, [e1], maxDeletes);
    SmallPassIsClean(w0, e1, maxDeletes);
    FirstWrite(w0, e1, rows, maxDeletes);
    var w1 := Run(w0, [e1], Mirror, maxDeletes);
    RunOne(w0, [e1], e2, [e1, e2], maxDeletes);
    ProductionOnly(w1, map[], maxDeletes);
    var w2 := Run(w0, [e1, e2], Mirror, maxDeletes);
    RunOne(w0, [e1, e2], e1, [e1, e2, e1], maxDeletes);
    SmallPassIsClean(w2, e1, maxDeletes);
    NothingWritten(w2, e1, maxDeletes);
    var w3 := Run(w0, [e1, e2, e1], Mirror, maxDeletes);
    RunOne(w0, [e1, e2, e1], Production(rows), DropAndReturn(rows), maxDeletes);
    ProductionOnly(w3, rows, maxDeletes);
  }

  lemma {:induction false} RunOne(w: World, es: seq<Event>, e: Event, all: seq<Event>, maxDeletes: nat)
    requires all == es + [e]
    ensures es == [] ==> Run(w, es, Mirror, maxDeletes) == w
    ensures Run(w, all, Mirror, maxDeletes) == Next(Run(w, es, Mirror, maxDeletes), e, Mirror, maxDeletes)
  {
    RunIs(w, es, e, maxDeletes);
  }

  lemma {:induction false} ProductionOnly(w: World, rows: Table, maxDeletes: nat)
    ensures Next(w, Production(rows), Mirror, maxDeletes) == w.(production := rows)
  {
  }

  lemma {:induction false} RunIs(w: World, es: seq<Event>, e: Event, maxDeletes: nat)
    ensures Run(w, es + [e], Mirror, maxDeletes) == Next(Run(w, es, Mirror, maxDeletes), e, Mirror, maxDeletes)
  {
    assert (es + [e])[..|es|] == es;
  }

  lemma {:induction false} SmallPassIsClean(w: World, e: Event, maxDeletes: nat)
    requires e == Reflect(Everything, Everything, Env(NoFault, false, {})) && maxDeletes > 0
    requires |w.staging| <= 1
    ensures Clean(w, e, Mirror, maxDeletes)
  {
    EverythingIsVisible(w.production);
    EverythingIsVisible(w.staging);
    SubsetSize(DeleteKeys(w.production, w.staging, Mirror), w.staging.Keys);
  }

  lemma {:induction false} FillsEmptyStaging(j: Job)
    requires j.mode.Mirror? && j.srcWindow.Everything? && j.dstWindow.Everything? && j.staging == map[] && !j.Fails()
    ensures Wrote(j) == j.source && Sent(j) == {}
  {
    hide Visible, Job.Fails;
    EverythingIsVisible(j.source);
    EverythingIsVisible(j.staging);
  }

  lemma {:induction false} RememberedFresh(t: Table)
    ensures Remembered(map[], t) == t && RememberedKeys({}, {}) == {}
  {
    assert map[] + t == t;
  }

  lemma {:induction false} FirstWrite(w: World, e: Event, rows: Table, maxDeletes: nat)
    requires Clean(w, e, Mirror, maxDeletes) && w.staging == map[] && w.written == map[] && w.deleted == {}
    requires w.production == rows && rows != map[]
    ensures Next(w, e, Mirror, maxDeletes) == World(rows, rows, rows, {})
  {
    var j := JobOf(w, e, Mirror, maxDeletes);
    FullPassHeals(j, j.(staging := j.Final()));
    FillsEmptyStaging(j);
    RememberedFresh(rows);
    hide Visible, Job.Final, Job.Guarded, Job.Fails, Fingerprints, Wrote, Sent, Remembered, RememberedKeys, Unhindered;
  }

  lemma {:induction false} NothingWritten(w: World, e: Event, maxDeletes: nat)
    requires Clean(w, e, Mirror, maxDeletes) && w.production == map[] && |w.written| <= CAP_ROWS
    ensures var next := Next(w, e, Mirror, maxDeletes); next.staging == map[] && next.written == w.written
  {
    var j := JobOf(w, e, Mirror, maxDeletes);
    EverythingIsVisible(w.production);
    FullPassHeals(j, j.(staging := j.Final()));
    assert Wrote(j) == map[];
  }
}
