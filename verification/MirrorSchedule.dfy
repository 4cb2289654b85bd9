/** The reflector's endless loop (run.go): which passes are full, what counts as converged, when the loop beats. */
module MirrorSchedule {
  import opened MirrorDiff
  import opened Wrappers

  datatype Result = Error | SkippedPass | Completed(converged: bool)

  /** One wake-up of the loop: when it decides, what the pass does, and the clock after it. Times are in seconds. */
  datatype Tick = Tick(start: int, result: Result, end: int)
  datatype Entry = Entry(full: bool, start: int, result: Result, end: int, beat: bool, checked: bool)

  ghost predicate Ordered(ticks: seq<Tick>) {
    && (forall i :: 0 <= i < |ticks| ==> ticks[i].start <= ticks[i].end)
    && (forall i, j :: 0 <= i < j < |ticks| ==> ticks[i].end <= ticks[j].start)
  }

  predicate FullDone(e: Entry) { e.full && e.result.Completed? }
  predicate ConvergedDone(e: Entry) { e.result.Completed? && e.result.converged }

  /** The end of the latest entry that satisfies p. */
  ghost function Latest(log: seq<Entry>, p: Entry -> bool): Option<int> {
    if log == [] then None
    else if p(log[|log|-1]) then Some(log[|log|-1].end)
    else Latest(log[..|log|-1], p)
  }

  predicate Due(last: Option<int>, now: int, every: nat) {
    last.None? || now - last.value >= every
  }

  /** The entry of a wake-up after the passes of `log`: full exactly when no full pass has completed within
      `fullEvery`. */
  ghost function EntryOf(log: seq<Entry>, t: Tick, fullEvery: nat, invariantEvery: nat): Entry {
    Entry(Due(Latest(log, FullDone), t.start, fullEvery), t.start, t.result, t.end, !t.result.Error?,
          invariantEvery > 0 && !t.result.Error? && Due(Latest(log, Checked), t.end, invariantEvery))
  }

  predicate Checked(e: Entry) { e.checked }

  ghost predicate IsLog(log: seq<Entry>, ticks: seq<Tick>, fullEvery: nat, invariantEvery: nat) {
    && |log| == |ticks|
    && forall i :: 0 <= i < |log| ==> log[i] == EntryOf(log[..i], ticks[i], fullEvery, invariantEvery)
  }

  lemma {:induction false} IsLogNext(log: seq<Entry>, ticks: seq<Tick>, t: Tick, fullEvery: nat, invariantEvery: nat)
    requires IsLog(log, ticks, fullEvery, invariantEvery)
    ensures IsLog(log + [EntryOf(log, t, fullEvery, invariantEvery)], ticks + [t], fullEvery, invariantEvery)
  {
    var more := log + [EntryOf(log, t, fullEvery, invariantEvery)];
    forall i | 0 <= i < |more| ensures more[i] == EntryOf(more[..i], (ticks + [t])[i], fullEvery, invariantEvery) {
      assert more[..i] == log[..i];
      assert log[..|log|] == log;
    }
  }

  lemma {:induction false} LatestNext(log: seq<Entry>, e: Entry, p: Entry -> bool)
    ensures Latest(log + [e], p) == if p(e) then Some(e.end) else Latest(log, p)
  {
    assert (log + [e])[..|log|] == log;
  }

  ghost function Beats(log: seq<Entry>): nat {
    if log == [] then 0 else Beats(log[..|log|-1]) + if log[|log|-1].beat then 1 else 0
  }

  class Loop {
    const fullEvery: nat
    const invariantEvery: nat
    var lastFull: Option<int>
    var lastConverged: Option<int>
    var lastInv: Option<int>
    var beats: nat
    ghost var log: seq<Entry>

    ghost predicate Valid()
      reads this
    {
      && lastFull == Latest(log, FullDone) && lastConverged == Latest(log, ConvergedDone)
      && lastInv == Latest(log, Checked) && beats == Beats(log)
    }

    constructor (fullEvery: nat, invariantEvery: nat)
      ensures this.fullEvery == fullEvery && this.invariantEvery == invariantEvery
      ensures Valid() && log == []
    {
      this.fullEvery, this.invariantEvery := fullEvery, invariantEvery;
      lastFull, lastConverged, lastInv, beats, log := None, None, None, 0, [];
    }

    /** One wake-up: choose the kind, run the pass, note what it achieved, beat unless it failed. */
    method Wake(t: Tick)
      requires Valid()
      modifies this
      ensures Valid() && log == old(log) + [EntryOf(old(log), t, fullEvery, invariantEvery)]
    {
      hide Latest, Beats;
      var full := Due(lastFull, t.start, fullEvery);
      ghost var e := EntryOf(log, t, fullEvery, invariantEvery);
      LatestNext(log, e, FullDone);
      LatestNext(log, e, ConvergedDone);
      LatestNext(log, e, Checked);
      BeatsNext(log, e);
      match t.result {
        case Error =>
        case SkippedPass =>
          beats := beats + 1;
        case Completed(converged) =>
          if converged { lastConverged := Some(t.end); }
          if full { lastFull := Some(t.end); }
          beats := beats + 1;
      }
      if invariantEvery > 0 && Due(lastInv, t.end, invariantEvery) && !t.result.Error? {
        lastInv := Some(t.end);
      }
      log := log + [e];
    }

    /** Runs until the context ends, after any number of wake-ups. */
    method RunForever(ticks: seq<Tick>)
      requires Valid() && log == []
      modifies this
      ensures Valid() && IsLog(log, ticks, fullEvery, invariantEvery)
    {
      for i := 0 to |ticks|
        invariant Valid() && IsLog(log, ticks[..i], fullEvery, invariantEvery)
      {
        IsLogNext(log, ticks[..i], ticks[i], fullEvery, invariantEvery);
        assert ticks[..i+1] == ticks[..i] + [ticks[i]];
        Wake(ticks[i]);
      }
      assert ticks[..|ticks|] == ticks;
    }
  }

  lemma {:induction false} BeatsNext(log: seq<Entry>, e: Entry)
    ensures Beats(log + [e]) == Beats(log) + if e.beat then 1 else 0
  {
    assert (log + [e])[..|log|] == log;
  }

  lemma {:induction false} EntryBeats(log: seq<Entry>, t: Tick, fullEvery: nat, invariantEvery: nat)
    ensures EntryOf(log, t, fullEvery, invariantEvery).beat <==> !t.result.Error?
  {
  }

  /** Every pass that completes or is skipped beats, and a failed pass never does. */
  lemma {:induction false} FailedPassNeverBeats(log: seq<Entry>, ticks: seq<Tick>, fullEvery: nat, invariantEvery: nat)
    requires IsLog(log, ticks, fullEvery, invariantEvery)
    ensures forall i :: 0 <= i < |log| ==> (log[i].beat <==> !ticks[i].result.Error?)
    ensures Beats(log) == |log| <==> forall i :: 0 <= i < |log| ==> !ticks[i].result.Error?
    ensures Beats(log) <= |log|
  {
    hide EntryOf, Latest, Due;
    if log != [] {
      var n := |log| - 1;
      assert forall i :: 0 <= i < n ==> log[..n][..i] == log[..i];
      FailedPassNeverBeats(log[..n], ticks[..n], fullEvery, invariantEvery);
      EntryBeats(log[..n], ticks[n], fullEvery, invariantEvery);
    }
  }

  lemma {:induction false} LatestIsSome(log: seq<Entry>, p: Entry -> bool)
    ensures Latest(log, p).None? <==> forall i :: 0 <= i < |log| ==> !p(log[i])
    ensures Latest(log, p).Some? ==>
      exists i :: 0 <= i < |log| && p(log[i]) && Latest(log, p).value == log[i].end &&
                  forall j :: i < j < |log| ==> !p(log[j])
  {
    if log != [] {
      var rest := log[..|log|-1];
      LatestIsSome(rest, p);
      if !p(log[|log|-1]) && Latest(rest, p).Some? {
        var i :| 0 <= i < |rest| && p(rest[i]) && Latest(rest, p).value == rest[i].end &&
                 forall j :: i < j < |rest| ==> !p(rest[j]);
        assert p(log[i]);
      }
    }
  }

  /** Each hot pass starts less than `fullEvery` after a completed full pass. */
  lemma {:induction false} HotPassFollowsFullPass(log: seq<Entry>, ticks: seq<Tick>, fullEvery: nat,
                                                  invariantEvery: nat, i: nat)
    requires IsLog(log, ticks, fullEvery, invariantEvery) && i < |log| && !log[i].full
    ensures exists j :: 0 <= j < i && FullDone(log[j]) && log[i].start - log[j].end < fullEvery
  {
    LatestIsSome(log[..i], FullDone);
    var j :| 0 <= j < i && FullDone(log[..i][j]) && Latest(log[..i], FullDone).value == log[..i][j].end;
    assert FullDone(log[j]);
  }

  /** A full pass that fails or is skipped makes the next pass full again. */
  lemma {:induction false} UnfinishedFullPassIsRetried(log: seq<Entry>, ticks: seq<Tick>, fullEvery: nat,
                                                       invariantEvery: nat, i: nat)
    requires Ordered(ticks) && IsLog(log, ticks, fullEvery, invariantEvery)
    requires i + 1 < |log| && log[i].full && !log[i].result.Completed?
    ensures log[i+1].full
  {
    assert log[..i+1][..i] == log[..i];
    assert Latest(log[..i+1], FullDone) == Latest(log[..i], FullDone);
  }

  lemma {:induction false} EndsAreTicks(log: seq<Entry>, ticks: seq<Tick>, fullEvery: nat, invariantEvery: nat)
    requires IsLog(log, ticks, fullEvery, invariantEvery)
    ensures |log| == |ticks| && forall i :: 0 <= i < |log| ==> log[i].end == ticks[i].end
  {
    hide Latest, Due;
  }

  lemma {:induction false} EndsInOrder(log: seq<Entry>, ticks: seq<Tick>, fullEvery: nat, invariantEvery: nat)
    requires Ordered(ticks) && IsLog(log, ticks, fullEvery, invariantEvery)
    ensures forall a, b :: 0 <= a <= b < |log| ==> log[a].end <= log[b].end
  {
    EndsAreTicks(log, ticks, fullEvery, invariantEvery);
    hide IsLog;
    forall a, b | 0 <= a <= b < |log| ensures log[a].end <= log[b].end {
      if a < b { assert ticks[a].end <= ticks[b].start <= ticks[b].end; }
    }
  }

  /** The stored times never move back, and lastConverged is the end of the latest converged pass. */
  lemma {:induction false} LatestNeverMovesBack(log: seq<Entry>, ticks: seq<Tick>, fullEvery: nat, invariantEvery: nat,
                                                p: Entry -> bool, i: nat, j: nat)
    requires Ordered(ticks) && IsLog(log, ticks, fullEvery, invariantEvery) && i <= j <= |log|
    requires Latest(log[..i], p).Some?
    ensures Latest(log[..j], p).Some? && Latest(log[..i], p).value <= Latest(log[..j], p).value
  {
    hide Latest, IsLog, EntryOf;
    EndsInOrder(log, ticks, fullEvery, invariantEvery);
    LatestIsSome(log[..i], p);
    LatestIsSome(log[..j], p);
    var a :| 0 <= a < i && p(log[..i][a]) && Latest(log[..i], p).value == log[..i][a].end;
    assert p(log[..j][a]);
    var b :| 0 <= b < j && p(log[..j][b]) && Latest(log[..j], p).value == log[..j][b].end &&
             forall k :: b < k < j ==> !p(log[..j][k]);
    assert a <= b;
    assert log[..i][a] == log[a] && log[..j][b] == log[b];
  }

  lemma {:induction false} LatestWithin(log: seq<Entry>, p: Entry -> bool, i: nat)
    requires i <= |log|
    ensures Latest(log[..i], p).None? <==> forall j :: 0 <= j < i ==> !p(log[j])
    ensures Latest(log[..i], p).Some? ==>
      exists b :: 0 <= b < i && p(log[b]) && Latest(log[..i], p).value == log[b].end &&
                  forall k :: b < k < i ==> !p(log[k])
  {
    LatestIsSome(log[..i], p);
    hide Latest;
    assert forall k :: 0 <= k < i ==> log[..i][k] == log[k];
  }

  /** Some stored time is recent exactly when the latest one is: times do not run backwards. */
  lemma {:induction false} DueIff(log: seq<Entry>, ticks: seq<Tick>, fullEvery: nat, invariantEvery: nat,
                                  p: Entry -> bool, i: nat, now: int, every: nat)
    requires Ordered(ticks) && IsLog(log, ticks, fullEvery, invariantEvery) && i <= |log|
    ensures Due(Latest(log[..i], p), now, every) <==>
      forall j :: 0 <= j < i && p(log[j]) ==> now - log[j].end >= every
  {
    hide IsLog, Latest, Ordered;
    EndsInOrder(log, ticks, fullEvery, invariantEvery);
    LatestWithin(log, p, i);
    if Latest(log[..i], p).Some? {
      var b :| 0 <= b < i && p(log[b]) && Latest(log[..i], p).value == log[b].end &&
               forall k :: b < k < i ==> !p(log[k]);
      assert forall j :: 0 <= j < i && p(log[j]) ==> j <= b;
    }
  }

  /** A pass is full exactly when no full pass completed less than `fullEvery` before it: never more often than that,
      and never less. */
  lemma {:induction false} FullIff(log: seq<Entry>, ticks: seq<Tick>, fullEvery: nat, invariantEvery: nat, i: nat)
    requires Ordered(ticks) && IsLog(log, ticks, fullEvery, invariantEvery) && i < |log|
    ensures log[i].full <==>
      forall j :: 0 <= j < i && log[j].full && log[j].result.Completed? ==> log[i].start - log[j].end >= fullEvery
    ensures log[i].start == ticks[i].start && log[i].end == ticks[i].end && log[i].result == ticks[i].result
  {
    DueIff(log, ticks, fullEvery, invariantEvery, FullDone, i, ticks[i].start, fullEvery);
    hide Latest, Due, Ordered;
  }

  /** The invariants are recorded after a pass exactly when recording is on, the pass did not fail, and they were not
      recorded less than `invariantEvery` before. */
  lemma {:induction false} CheckedIff(log: seq<Entry>, ticks: seq<Tick>, fullEvery: nat, invariantEvery: nat, i: nat)
    requires Ordered(ticks) && IsLog(log, ticks, fullEvery, invariantEvery) && i < |log|
    ensures log[i].checked <==>
      && invariantEvery > 0 && !log[i].result.Error?
      && forall j :: 0 <= j < i && log[j].checked ==> log[i].end - log[j].end >= invariantEvery
  {
    DueIff(log, ticks, fullEvery, invariantEvery, Checked, i, ticks[i].end, invariantEvery);
    hide Latest, Due, Ordered;
  }

  // ---- MR3: the lag since the last converged pass ----

  const NEVER := 365 * 24 * 3600

  function Lag(lastConverged: Option<int>, now: int): int {
    if lastConverged.None? then NEVER else now - lastConverged.value
  }

  /** MR3 is green exactly when a pass converged within maxLag; a limit of a year or more is also green with no
      converged pass at all. */
  lemma {:induction false} LagIsOkIff(log: seq<Entry>, now: int, maxLag: nat, ticks: seq<Tick>, fullEvery: nat,
                                      invariantEvery: nat)
    requires Ordered(ticks) && IsLog(log, ticks, fullEvery, invariantEvery)
    ensures Lag(Latest(log, ConvergedDone), now) <= maxLag <==>
      (exists i :: 0 <= i < |log| && ConvergedDone(log[i]) && now - log[i].end <= maxLag) ||
      (maxLag >= 31536000 && forall i :: 0 <= i < |log| ==> !ConvergedDone(log[i]))
  {
    LatestIsSome(log, ConvergedDone);
    EndsInOrder(log, ticks, fullEvery, invariantEvery);
    hide IsLog, EntryOf, Latest, ConvergedDone;
    if exists i :: 0 <= i < |log| && ConvergedDone(log[i]) && now - log[i].end <= maxLag {
      var i :| 0 <= i < |log| && ConvergedDone(log[i]) && now - log[i].end <= maxLag;
      var b :| 0 <= b < |log| && ConvergedDone(log[b]) && Latest(log, ConvergedDone).value == log[b].end &&
               forall k :: b < k < |log| ==> !ConvergedDone(log[k]);
      assert i <= b;
    }
  }

  /** With a limit of a year, one failed pass and nothing else leaves the invariant green. */
  lemma {:induction false} NeverConvergedIsGreen(now: int, fullEvery: nat, invariantEvery: nat)
    ensures var ticks := [Tick(0, Error, 1)];
      var log := [EntryOf([], ticks[0], fullEvery, invariantEvery)];
      && Ordered(ticks) && IsLog(log, ticks, fullEvery, invariantEvery) && !ConvergedDone(log[0])
      && Lag(Latest(log, ConvergedDone), now) == 31536000
  {
    var ticks := [Tick(0, Error, 1)];
    var log := [EntryOf([], ticks[0], fullEvery, invariantEvery)];
    assert log[..0] == [];
    assert Latest(log[..0], ConvergedDone) == None;
  }
}
