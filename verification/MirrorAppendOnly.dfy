/** The stray-write detector over runs of an append-only table: inserts never replace a row and nothing is deleted. */
module MirrorAppendOnly {
  import opened Ordering
  import opened MirrorDiff
  import opened MirrorTable
  import opened MirrorConvergence
  import opened MirrorPass
  import opened MirrorRuns
  import opened Wrappers

  /** Staging holds some row for every key the reflector remembers having written. */
  ghost predicate Held(w: World) { HeldBut(w.written, w.staging, {}) }

  /** The same, but for the keys whose insert was lost. */
  ghost predicate HeldBut(written: Table, staging: Table, lost: set<Key>) { written.Keys <= staging.Keys + lost }

  lemma {:induction false} WroteIsHeld(j: Job, k: Key)
    requires j.mode.AppendOnly?
    ensures (k in Wrote(j) && k !in j.env.silent) || k in j.staging ==> k in j.Final()
    ensures Sent(j) == {}
  {
    AppendOnlyAddsOnly(j);
    assert DeleteKeys(j.Src(), j.Dst(), j.mode) == {};
  }

  lemma {:induction false} PassHolds(j: Job, lost: set<Key>)
    requires j.mode.AppendOnly? && HeldBut(j.written, j.staging, lost)
    ensures HeldBut(Remembered(j.written, Wrote(j)), j.Final(), (lost - Wrote(j).Keys) + Wrote(j).Keys * j.env.silent)
  {
    hide Wrote, Job.Final;
    forall k { WroteIsHeld(j, k); }
  }

  lemma {:induction false} UndisturbedRunsHold(w: World, es: seq<Event>, maxDeletes: nat)
    requires Held(w) && Undisturbed(es)
    ensures var r := Run(w, es, AppendOnly, maxDeletes);
      HeldBut(r.written, r.staging, LostWrites(w, es, AppendOnly, maxDeletes))
  {
    if es != [] {
      var rest, e := es[..|es|-1], es[|es|-1];
      UndisturbedRunsHold(w, rest, maxDeletes);
      if e.Reflect? {
        PassHolds(JobOf(Run(w, rest, AppendOnly, maxDeletes), e, AppendOnly, maxDeletes),
                  LostWrites(w, rest, AppendOnly, maxDeletes));
      }
      hide Remembered, Wrote, Job.Final, HeldBut;
    }
  }

  /** Keys whose row on staging, equal or not, lies before staging's cut while production shows the very row the
      reflector tried to insert for them. */
  ghost function HiddenTwins(j: Job): set<Key> {
    set k | k in j.Src() && k in j.staging && !Sees(j.dstWindow, j.staging[k]) && WroteTheSame(j.Src(), j.written, k)
  }

  /** Lost inserts that never arrived, while production still shows the row. */
  ghost function NeverArrived(j: Job, lost: set<Key>): set<Key> {
    set k | k in lost && k in j.Src() && k !in j.staging && WroteTheSame(j.Src(), j.written, k)
  }

  lemma {:induction false} BlamedAppend(j: Job, lost: set<Key>)
    requires j.mode.AppendOnly? && HeldBut(j.written, j.staging, lost)
    ensures Blamed(j) == HiddenTwins(j) + NeverArrived(j, lost) && HiddenTwins(j) !! NeverArrived(j, lost)
  {
    forall k ensures k in Blamed(j) <==> k in HiddenTwins(j) || k in NeverArrived(j, lost) {}
  }

  /** Over every run of an append-only table in which only the reflector writes on staging, from an empty memory or one
      whose keys staging holds, the alarm is exactly its hidden twins and its lost inserts: the insert for a hidden twin
      does nothing and is tried, remembered and blamed again in every pass. A full pass counts the lost inserts only. */
  lemma {:induction false} AppendAlarmIsExactly(w: World, es: seq<Event>, e: Event, maxDeletes: nat)
    requires Held(w) && Undisturbed(es) && e.Reflect?
    ensures var j := JobOf(Run(w, es, AppendOnly, maxDeletes), e, AppendOnly, maxDeletes);
      var lost := LostWrites(w, es, AppendOnly, maxDeletes);
      && j.StagingWriteCount() == (if Looks(j) then |HiddenTwins(j)| + |NeverArrived(j, lost)| else 0)
      && (j.StagingWriteCount() == 0 <==> !Looks(j) || (HiddenTwins(j) == {} && NeverArrived(j, lost) == {}))
      && (e.dstWindow.Everything? ==> HiddenTwins(j) == {})
  {
    UndisturbedRunsHold(w, es, maxDeletes);
    var j := JobOf(Run(w, es, AppendOnly, maxDeletes), e, AppendOnly, maxDeletes);
    AlarmCountsBlamed(j);
    BlamedAppend(j, LostWrites(w, es, AppendOnly, maxDeletes));
    hide Blamed, WroteTheSame, Job.StagingWriteCount, Looks, Run, LostWrites;
    assert e.dstWindow.Everything? ==> HiddenTwins(j) == {};
  }

  /** Without lost inserts that leaves the hidden twins, and a full pass counts nothing. */
  lemma {:induction false} QuietAppendAlarm(w: World, es: seq<Event>, e: Event, maxDeletes: nat)
    requires Held(w) && Quiet(es) && e.Reflect?
    ensures var j := JobOf(Run(w, es, AppendOnly, maxDeletes), e, AppendOnly, maxDeletes);
      && j.StagingWriteCount() == (if Looks(j) then |HiddenTwins(j)| else 0)
      && (e.dstWindow.Everything? ==> j.StagingWriteCount() == 0)
  {
    AppendAlarmIsExactly(w, es, e, maxDeletes);
    QuietLosesNothing(w, es, AppendOnly, maxDeletes);
    var j := JobOf(Run(w, es, AppendOnly, maxDeletes), e, AppendOnly, maxDeletes);
    assert NeverArrived(j, {}) == {};
    hide HiddenTwins, NeverArrived, Job.StagingWriteCount, Looks, Run, LostWrites, LostDeletes;
  }

  /** The stray writes the alarm counts on an append-only table: those that take a row away, or move it before the cut,
      for which production still shows what the reflector tried to insert. */
  ghost function Missed(before: Table, j: Job): set<Key> {
    set k | k in Touched(before, j.staging) && k in j.Src() && k !in j.Dst() && WroteTheSame(j.Src(), j.written, k)
  }

  lemma {:induction false} AppendBlameAt(w: World, stray: Table, e: Event, k: Key, maxDeletes: nat)
    requires e.Reflect?
    ensures var j0 := JobOf(w, e, AppendOnly, maxDeletes);
      var j := JobOf(w.(staging := stray), e, AppendOnly, maxDeletes);
      k in Blamed(j) <==> if k in Touched(w.staging, stray) then k in Missed(w.staging, j) else k in Blamed(j0)
  {
  }

  /** What a stray write does to the next alarm of an append-only table, in every window. A row that is changed and
      stays in staging's window is not counted. */
  lemma {:induction false} AppendStrayAlarmIsExactly(w: World, stray: Table, e: Event, maxDeletes: nat)
    requires e.Reflect?
    ensures var j0 := JobOf(w, e, AppendOnly, maxDeletes);
      var j := JobOf(w.(staging := stray), e, AppendOnly, maxDeletes);
      j.StagingWriteCount() ==
      if Looks(j) then |(Blamed(j0) - Touched(w.staging, stray)) + Missed(w.staging, j)| else 0
  {
    var j0 := JobOf(w, e, AppendOnly, maxDeletes);
    var j := JobOf(w.(staging := stray), e, AppendOnly, maxDeletes);
    AlarmCountsBlamed(j);
    forall k { AppendBlameAt(w, stray, e, k, maxDeletes); }
    assert Missed(w.staging, j) <= Touched(w.staging, stray);
    hide Blamed, Missed, Touched, Job.StagingWriteCount, Looks;
    assert Blamed(j) == (Blamed(j0) - Touched(w.staging, stray)) + Missed(w.staging, j);
  }

  // ---- an alarm that repeats ----

  function Passes(e: Event, n: nat): seq<Event> { seq(n, i => e) }

  /** Production's row for a key is inside the cut and staging's own is before it. Nobody writes on staging, yet every
      hot pass after the first one counts a staging write. */
  lemma {:induction false} AppendAlarmRepeats(k: Key, row: Row, other: Row, cut: int, n: nat, maxDeletes: nat)
    requires Sees(Since(cut), row) && !Sees(Since(cut), other) && n > 0
    ensures var w := World(map[k := row], map[k := other], map[], {});
      var hot := Reflect(Since(cut), Since(cut), CALM);
      && Quiet(Passes(hot, n))
      && JobOf(Run(w, Passes(hot, n), AppendOnly, maxDeletes), hot, AppendOnly, maxDeletes).StagingWriteCount() == 1
  {
    var w := World(map[k := row], map[k := other], map[], {});
    var hot := Reflect(Since(cut), Since(cut), CALM);
    TwinStays(k, row, other, cut, n, maxDeletes);
    hide Run, Job.StagingWriteCount, Visible, LostWrites;
    QuietAppendAlarm(w, Passes(hot, n), hot, maxDeletes);
    var j := JobOf(Run(w, Passes(hot, n), AppendOnly, maxDeletes), hot, AppendOnly, maxDeletes);
    TwinWindow(k, row, other, cut);
    assert HiddenTwins(j) == {k};
  }

  lemma {:induction false} TwinStays(k: Key, row: Row, other: Row, cut: int, n: nat, maxDeletes: nat)
    requires Sees(Since(cut), row) && !Sees(Since(cut), other)
    ensures Run(World(map[k := row], map[k := other], map[], {}), Passes(Reflect(Since(cut), Since(cut), CALM), n),
                AppendOnly, maxDeletes) ==
            World(map[k := row], map[k := other], if n == 0 then map[] else map[k := row], {})
  {
    if n > 0 {
      var hot := Reflect(Since(cut), Since(cut), CALM);
      TwinStays(k, row, other, cut, n - 1, maxDeletes);
      assert Passes(hot, n)[..n - 1] == Passes(hot, n - 1) && Passes(hot, n)[n - 1] == hot;
      TwinPass(k, row, other, cut, if n == 1 then map[] else map[k := row], maxDeletes);
      hide Next;
    }
  }

  lemma {:induction false} TwinPass(k: Key, row: Row, other: Row, cut: int, written: Table, maxDeletes: nat)
    requires Sees(Since(cut), row) && !Sees(Since(cut), other) && (written == map[] || written == map[k := row])
    ensures Next(World(map[k := row], map[k := other], written, {}), Reflect(Since(cut), Since(cut), CALM), AppendOnly,
                 maxDeletes) == World(map[k := row], map[k := other], map[k := row], {})
  {
    var w := World(map[k := row], map[k := other], written, {});
    var j := JobOf(w, Reflect(Since(cut), Since(cut), CALM), AppendOnly, maxDeletes);
    hide Visible, Job.Final, Wrote, Sent, Remembered, RememberedKeys, Sees;
    TwinWindow(k, row, other, cut);
    TwinMemory(j, k, row);
    TwinFinal(j, k, other);
    RememberedTwin(written, k, row);
  }

  lemma {:induction false} TwinWindow(k: Key, row: Row, other: Row, cut: int)
    requires Sees(Since(cut), row) && !Sees(Since(cut), other)
    ensures Visible(map[k := row], Since(cut)) == map[k := row] && Visible(map[k := other], Since(cut)) == map[]
  {
  }

  lemma {:induction false} RememberedTwin(written: Table, k: Key, row: Row)
    requires written == map[] || written == map[k := row]
    ensures Remembered(written, map[k := row]) == map[k := row] && RememberedKeys({}, {}) == {}
  {
    RememberedFresh(map[k := row]);
    var t: Table := map[k := row];
    assert t + t == t && |t| == 1;
    hide RememberedKeys;
  }

  lemma {:induction false} TwinMemory(j: Job, k: Key, row: Row)
    requires j.mode.AppendOnly? && j.env == CALM && j.Src() == map[k := row] && j.Dst() == map[]
    ensures Wrote(j) == map[k := row] && Sent(j) == {}
  {
    WroteIsHeld(j, k);
    hide Visible, Job.Src, Job.Dst, Fingerprints, Sent;
    assert UpsertKeys(j.Src(), j.Dst(), j.mode) == {k};
  }

  lemma {:induction false} TwinFinal(j: Job, k: Key, other: Row)
    requires j.mode.AppendOnly? && j.staging == map[k := other] && j.Src().Keys == {k}
    ensures j.Final() == j.staging
  {
    AppendOnlyAddsOnly(j);
    hide Job.Final;
    assert j.Final().Keys == {k};
  }

  /** An insert that reports success without effect: the row never arrives, and the next full pass counts one. */
  lemma {:induction false} SilentInsertAlarms(k: Key, row: Row, maxDeletes: nat)
    ensures var w := World(map[k := row], map[], map[], {});
      var after := Run(w, [LostPass(k)], AppendOnly, maxDeletes);
      var j := JobOf(after, FULL_PASS, AppendOnly, maxDeletes);
      && Undisturbed([LostPass(k)]) && Held(w) && HiddenTwins(j) == {} && j.StagingWriteCount() == 1
  {
    var w := World(map[k := row], map[], map[], {});
    OneAppendPass(w, LostPass(k), maxDeletes);
    hide Run, Next, Visible, Job.StagingWriteCount;
    LostInsertStays(w, k, row, maxDeletes);
    var j := JobOf(World(map[k := row], map[], map[k := row], {}), FULL_PASS, AppendOnly, maxDeletes);
    EverythingIsVisible(j.source);
    EverythingIsVisible(j.staging);
    AlarmCountsBlamed(j);
    assert Blamed(j) == {k};
  }

  lemma {:induction false} OneAppendPass(w: World, e: Event, maxDeletes: nat)
    ensures Run(w, [e], AppendOnly, maxDeletes) == Next(w, e, AppendOnly, maxDeletes)
  {
    hide Next;
    assert [e][..0] == [];
  }

  lemma {:induction false} LostInsertStays(w: World, k: Key, row: Row, maxDeletes: nat)
    requires w == World(map[k := row], map[], map[], {})
    ensures Next(w, LostPass(k), AppendOnly, maxDeletes) == World(map[k := row], map[], map[k := row], {})
  {
    var j := JobOf(w, LostPass(k), AppendOnly, maxDeletes);
    EverythingIsVisible(j.source);
    EverythingIsVisible(j.staging);
    hide Visible, Fingerprints;
    LostInsertEffect(j, k);
    RememberedFresh(map[k := row]);
    hide Job.Final, Wrote, Sent, Remembered, RememberedKeys;
  }

  lemma {:induction false} LostInsertEffect(j: Job, k: Key)
    requires j.mode.AppendOnly? && j.env == Env(NoFault, false, {k})
    requires j.Src() == j.source && j.source.Keys == {k} && j.Dst() == map[] && j.staging == map[]
    ensures Wrote(j) == j.source && Sent(j) == {} && j.Final() == map[]
  {
    WroteIsHeld(j, k);
    hide Visible, Job.Src, Job.Dst, Fingerprints, Sent;
    assert UpsertKeys(j.Src(), j.Dst(), j.mode) == {k} && DeleteKeys(j.Src(), j.Dst(), j.mode) == {};
    assert j.Src() - {k} == map[];
  }
}
