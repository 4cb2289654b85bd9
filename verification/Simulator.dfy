/** The synthetic machine of the simulator, tick by tick (simulator/simulator.py). */
module Simulator {
  import opened Wrappers

  datatype Mode = Running | Stopped

  /** The changing fields of a machine. */
  datatype State = State(state: Mode, stopTicks: int, stuckTicks: int, counter: int, scrapCtr: int)

  const FRESH := State(Running, 0, 0, 0, 0)

  /** What the random draws of one tick would answer; a tick that does not ask ignores the answer. */
  datatype Draws = Draws(stop: bool, fault: bool, stuck: int, start: bool, speed: real, jitter: real, scrap: bool)

  /** `interval` is SIM_INTERVAL in seconds; the module does not load with 0. */
  function MinStopTicks(interval: int): int
    requires interval != 0
  {
    if interval > 0 && 720 / interval > 1 then 720 / interval else 1
  }

  /** int(): towards zero. */
  function Truncated(r: real): int { if r >= 0.0 then r.Floor else -((-r).Floor) }

  function Increment(d: Draws, interval: int): int {
    var n := Truncated(d.speed * (interval as real) / 60.0 * d.jitter);
    if n > 0 then n else 0
  }

  function Switched(s: State, d: Draws, interval: int): State
    requires interval != 0
  {
    if s.state.Running? then (if d.stop then s.(state := Stopped, stopTicks := 0) else s)
    else
      var t := s.(stopTicks := s.stopTicks + 1);
      if t.stuckTicks > 0 then t.(stuckTicks := t.stuckTicks - 1)
      else if t.stopTicks < MinStopTicks(interval) then t
      else if d.fault then t.(stuckTicks := d.stuck)
      else if d.start then t.(state := Running)
      else t
  }

  function Next(s: State, d: Draws, interval: int): State
    requires interval != 0
  {
    var t := Switched(s, d, interval);
    if t.state.Stopped? then t
    else t.(counter := t.counter + Increment(d, interval), scrapCtr := t.scrapCtr + if d.scrap then 1 else 0)
  }

  datatype Kind = StateCurrent | UnitMode | Processed | Consumed | Defective | MachineSpeed
  datatype Metric = Metric(kind: Kind, value: int, counter: Option<int>)

  const STATE_RUNNING := 6
  const STATE_STOPPED := 10
  const MODE_PRODUCTION := 1
  const MODE_MANUAL := 3

  /** A running machine publishes how far its counters moved since the last tick, and where they stand. */
  function Published(was: State, s: State, speed: real): seq<Metric> {
    if s.state.Stopped? then
      [Metric(StateCurrent, STATE_STOPPED, None), Metric(UnitMode, MODE_MANUAL, None), Metric(MachineSpeed, 0, None)]
    else
      var net, scrap := s.counter - was.counter, s.scrapCtr - was.scrapCtr;
      [Metric(StateCurrent, STATE_RUNNING, None), Metric(UnitMode, MODE_PRODUCTION, None),
       Metric(Processed, net, Some(s.counter)), Metric(Consumed, net + scrap, Some(s.counter + s.scrapCtr))]
      + (if scrap == 0 then [] else [Metric(Defective, scrap, Some(s.scrapCtr))])
      + [Metric(MachineSpeed, Truncated(speed), None)]
  }

  // ---- what a tick is for, said of the published metrics and the draws themselves ----

  /** There is one metric of this kind, and it is this one. */
  ghost predicate Only(ms: seq<Metric>, m: Metric) {
    exists i :: 0 <= i < |ms| && ms[i] == m && forall j :: 0 <= j < |ms| && ms[j].kind == m.kind ==> j == i
  }

  ghost predicate Without(ms: seq<Metric>, kind: Kind) { forall j :: 0 <= j < |ms| ==> ms[j].kind != kind }

  /** n is r without its fraction. */
  ghost predicate WholePart(n: int, r: real) {
    if r >= 0.0 then n as real <= r < n as real + 1.0 else n as real - 1.0 < r <= n as real
  }

  /** What is published when the counters stand at `net` and `scrap` after moving by these. */
  ghost predicate Tells(ms: seq<Metric>, running: bool, moved: int, scrapped: int, net: int, scrap: int, speed: real) {
    if running then
      && Only(ms, Metric(StateCurrent, 6, None)) && Only(ms, Metric(UnitMode, 1, None))
      && Only(ms, Metric(Processed, moved, Some(net)))
      && Only(ms, Metric(Consumed, moved + scrapped, Some(net + scrap)))
      && (if scrapped == 0 then Without(ms, Defective) else Only(ms, Metric(Defective, scrapped, Some(scrap))))
      && exists v :: WholePart(v, speed) && Only(ms, Metric(MachineSpeed, v, None))
    else
      && Only(ms, Metric(StateCurrent, 10, None)) && Only(ms, Metric(UnitMode, 3, None))
      && Without(ms, Processed) && Without(ms, Consumed) && Without(ms, Defective)
      && Only(ms, Metric(MachineSpeed, 0, None))
  }

  /** A tick's counts: nothing while stopped; else the whole part of the speed over the interval, with its jitter, or
      zero, and at most one scrapped part. */
  ghost predicate Counts(was: State, s: State, d: Draws, interval: int) {
    if s.state.Running? then
      var parts := d.speed * (interval as real) / 60.0 * d.jitter;
      && s.scrapCtr == was.scrapCtr + (if d.scrap then 1 else 0)
      && (if parts < 0.0 then s.counter == was.counter else WholePart(s.counter - was.counter, parts))
    else s.counter == was.counter && s.scrapCtr == was.scrapCtr
  }

  /** When a machine runs, and how its stop and stuck ticks go. */
  ghost predicate Switches(was: State, s: State, d: Draws, interval: int)
    requires interval != 0
  {
    var waited := was.stopTicks + 1;
    var released := was.stuckTicks <= 0 && waited >= 1 && (interval > 0 ==> waited >= 720 / interval);
    && (s.state.Running? <==> if was.state.Running? then !d.stop else released && !d.fault && d.start)
    && s.stopTicks == (if was.state.Stopped? then waited else if d.stop then 0 else was.stopTicks)
    && s.stuckTicks == (if was.state.Running? then was.stuckTicks
                        else if was.stuckTicks > 0 then was.stuckTicks - 1
                        else if released && d.fault then d.stuck else was.stuckTicks)
  }

  lemma {:induction false} TruncatedIsWholePart(r: real)
    ensures WholePart(Truncated(r), r)
  {
  }

  lemma {:induction false} NextCounts(s: State, d: Draws, interval: int)
    requires interval != 0
    ensures Counts(s, Next(s, d, interval), d, interval)
  {
    var parts := d.speed * (interval as real) / 60.0 * d.jitter;
    TruncatedIsWholePart(parts);
    hide Truncated, MinStopTicks;
  }

  lemma {:induction false} NextSwitches(s: State, d: Draws, interval: int)
    requires interval != 0
    ensures Switches(s, Next(s, d, interval), d, interval)
  {
    MinimumWait(s.stopTicks + 1, interval);
    hide Increment, MinStopTicks;
  }

  lemma {:induction false} MinimumWait(waited: int, interval: int)
    requires interval != 0
    ensures waited >= MinStopTicks(interval) <==> waited >= 1 && (interval > 0 ==> waited >= 720 / interval)
  {
  }

  lemma {:induction false} TickTells(was: State, s: State, speed: real)
    ensures Tells(Published(was, s, speed), s.state.Running?, s.counter - was.counter, s.scrapCtr - was.scrapCtr,
                  s.counter, s.scrapCtr, speed)
  {
    hide Truncated, WholePart, Only;
    TruncatedIsWholePart(speed);
    var ms := Published(was, s, speed);
    OnlyAt(ms, 0);
    OnlyAt(ms, 1);
    OnlyAt(ms, |ms| - 1);
    if s.state.Running? {
      OnlyAt(ms, 2);
      OnlyAt(ms, 3);
      if s.scrapCtr != was.scrapCtr { OnlyAt(ms, 4); }
    }
  }

  lemma {:induction false} OnlyAt(ms: seq<Metric>, i: nat)
    requires i < |ms| && forall j :: 0 <= j < |ms| && ms[j].kind == ms[i].kind ==> j == i
    ensures Only(ms, ms[i])
  {
  }

  class MachineState {
    const interval: int
    const stuckMax: int
    var now: State

    constructor (interval: int, stuckMax: int)
      requires interval != 0
      ensures this.interval == interval && this.stuckMax >= 60 && (stuckMax >= 60 ==> this.stuckMax == stuckMax)
      ensures now == State(Running, 0, 0, 0, 0)
    {
      this.interval := interval;
      this.stuckMax := if stuckMax > 60 then stuckMax else 60;
      this.now := FRESH;
    }

    method Tick(d: Draws) returns (metrics: seq<Metric>)
      requires interval != 0 && 60 <= d.stuck <= stuckMax
      modifies this`now
      ensures now == Next(old(now), d, interval)
      ensures metrics == Published(old(now), now, d.speed)
      ensures Switches(old(now), now, d, interval)
      ensures Counts(old(now), now, d, interval)
      ensures Tells(metrics, now.state.Running?, now.counter - old(now.counter), now.scrapCtr - old(now.scrapCtr),
                    now.counter, now.scrapCtr, d.speed)
    {
      hide Counts, Switches, Tells, Increment, Truncated, MinStopTicks;
      NextCounts(now, d, interval);
      NextSwitches(now, d, interval);
      TickTells(now, Next(now, d, interval), d.speed);
      if now.state.Running? && d.stop {
        now := now.(state := Stopped, stopTicks := 0);
      } else if now.state.Stopped? {
        now := now.(stopTicks := now.stopTicks + 1);
        if now.stuckTicks > 0 {
          now := now.(stuckTicks := now.stuckTicks - 1);
        } else if now.stopTicks < MinStopTicks(interval) {
        } else if d.fault {
          now := now.(stuckTicks := d.stuck);
        } else if d.start {
          now := now.(state := Running);
        }
      }
      metrics := [Metric(StateCurrent, if now.state.Running? then STATE_RUNNING else STATE_STOPPED, None)];
      metrics := metrics + [Metric(UnitMode, if now.state.Running? then MODE_PRODUCTION else MODE_MANUAL, None)];
      if now.state.Running? {
        var incr := Increment(d, interval);
        var scrap := if d.scrap then 1 else 0;
        now := now.(counter := now.counter + incr, scrapCtr := now.scrapCtr + scrap);
        metrics := metrics + [Metric(Processed, incr, Some(now.counter))];
        metrics := metrics + [Metric(Consumed, incr + scrap, Some(now.counter + now.scrapCtr))];
        if scrap != 0 {
          metrics := metrics + [Metric(Defective, scrap, Some(now.scrapCtr))];
        }
        metrics := metrics + [Metric(MachineSpeed, Truncated(d.speed), None)];
      } else {
        metrics := metrics + [Metric(MachineSpeed, 0, None)];
      }
    }
  }

  // ---- runs ----

  /** The states from the first tick's start to the last tick's end. */
  function Trace(draws: seq<Draws>, interval: int): (t: seq<State>)
    requires interval != 0
    ensures |t| == |draws| + 1
  {
    if draws == [] then [FRESH]
    else var t := Trace(draws[..|draws|-1], interval); t + [Next(t[|t|-1], draws[|draws|-1], interval)]
  }

  /** What is published, tick by tick. */
  function Publications(draws: seq<Draws>, interval: int): (ps: seq<seq<Metric>>)
    requires interval != 0
    ensures |ps| == |draws|
  {
    var t := Trace(draws, interval);
    seq(|draws|, i requires 0 <= i < |draws| => Published(t[i], t[i + 1], draws[i].speed))
  }

  ghost predicate Drawable(draws: seq<Draws>, stuckMax: int) {
    forall i :: 0 <= i < |draws| ==> 60 <= draws[i].stuck <= stuckMax
  }

  lemma {:induction false} TraceStep(draws: seq<Draws>, interval: int, i: nat)
    requires interval != 0 && i < |draws|
    ensures Trace(draws, interval)[0] == FRESH
    ensures Trace(draws, interval)[i + 1] == Next(Trace(draws, interval)[i], draws[i], interval)
    decreases |draws|
  {
    var rest := draws[..|draws|-1];
    if i < |rest| {
      TraceStep(rest, interval, i);
    } else if |rest| > 0 {
      TraceStep(rest, interval, 0);
    }
  }

  lemma {:induction false} TraceStart(draws: seq<Draws>, interval: int)
    requires interval != 0
    ensures Trace(draws, interval)[0] == FRESH
  {
    if draws != [] { TraceStep(draws, interval, 0); }
  }

  // ---- counters ----

  /** The published increments of a kind, added up over one publication and over several. */
  ghost function ValueIn(ms: seq<Metric>, kind: Kind): int {
    if ms == [] then 0
    else ValueIn(ms[..|ms|-1], kind) + if ms[|ms|-1].kind == kind then ms[|ms|-1].value else 0
  }

  ghost function SumOf(ps: seq<seq<Metric>>, kind: Kind): int {
    if ps == [] then 0 else SumOf(ps[..|ps|-1], kind) + ValueIn(ps[|ps|-1], kind)
  }

  lemma {:induction false} WithoutIsZero(ms: seq<Metric>, kind: Kind)
    requires Without(ms, kind)
    ensures ValueIn(ms, kind) == 0
  {
    if ms != [] { WithoutIsZero(ms[..|ms|-1], kind); }
  }

  lemma {:induction false} OnlyIsValue(ms: seq<Metric>, m: Metric)
    requires Only(ms, m)
    ensures ValueIn(ms, m.kind) == m.value
  {
    var i :| 0 <= i < |ms| && ms[i] == m && forall j :: 0 <= j < |ms| && ms[j].kind == m.kind ==> j == i;
    var front := ms[..|ms|-1];
    if i == |ms| - 1 {
      WithoutIsZero(front, m.kind);
    } else {
      assert front[i] == m;
      OnlyIsValue(front, m);
    }
  }

  /** The values a publication tells. */
  lemma {:induction false} ToldValues(ms: seq<Metric>, running: bool, moved: int, scrapped: int, net: int, scrap: int,
                                      speed: real)
    requires Tells(ms, running, moved, scrapped, net, scrap, speed)
    ensures ValueIn(ms, Processed) == (if running then moved else 0)
    ensures ValueIn(ms, Consumed) == (if running then moved + scrapped else 0)
    ensures ValueIn(ms, Defective) == (if running then scrapped else 0)
    ensures forall m :: m in ms ==>
      && (m.kind.StateCurrent? ==> m == Metric(StateCurrent, if running then 6 else 10, None))
      && (m.kind.Processed? ==> running && m.value == moved && m.counter == Some(net))
      && (m.kind.Consumed? ==> running && m.value == moved + scrapped && m.counter == Some(net + scrap))
      && (m.kind.Defective? ==> running && scrapped != 0 && m.value == scrapped && m.counter == Some(scrap))
    ensures running <==> Metric(StateCurrent, 6, None) in ms
    ensures running <==> exists m :: m in ms && m.kind.Processed?
    ensures running <==> exists m :: m in ms && m.kind.Consumed?
  {
    forall m | Only(ms, m) ensures m in ms && ValueIn(ms, m.kind) == m.value {
      OnlyIsValue(ms, m);
    }
    forall kind | Without(ms, kind) ensures ValueIn(ms, kind) == 0 { WithoutIsZero(ms, kind); }
    forall m, x | Only(ms, m) && x in ms && x.kind == m.kind ensures x == m { OnlyOne(ms, m, x); }
    forall kind, x | Without(ms, kind) && x in ms ensures x.kind != kind {}
    hide Only, Without, ValueIn, WholePart;
  }

  lemma {:induction false} OnlyOne(ms: seq<Metric>, m: Metric, x: Metric)
    requires Only(ms, m) && x in ms && x.kind == m.kind
    ensures x == m
  {
  }

  lemma {:induction false} PublicationIs(draws: seq<Draws>, interval: int, i: nat)
    requires interval != 0 && i < |draws|
    ensures var t := Trace(draws, interval);
      Publications(draws, interval)[i] == Published(t[i], t[i + 1], draws[i].speed)
  {
    hide Published;
  }

  /** What the i-th publication tells, in terms of the machine's run. */
  lemma {:induction false} RunTells(draws: seq<Draws>, interval: int, i: nat)
    requires interval != 0 && i < |draws|
    ensures var was, s := Trace(draws, interval)[i], Trace(draws, interval)[i + 1];
      && Tells(Publications(draws, interval)[i], s.state.Running?, s.counter - was.counter, s.scrapCtr - was.scrapCtr,
               s.counter, s.scrapCtr, draws[i].speed)
      && s.counter >= was.counter && was.scrapCtr <= s.scrapCtr <= was.scrapCtr + 1
      && (s.state.Stopped? ==> s.counter == was.counter && s.scrapCtr == was.scrapCtr)
  {
    hide Trace, Publications, Published, Tells, Truncated, MinStopTicks;
    var was, s := Trace(draws, interval)[i], Trace(draws, interval)[i + 1];
    TraceStep(draws, interval, i);
    PublicationIs(draws, interval, i);
    TickTells(was, s, draws[i].speed);
  }

  lemma {:induction false} CountersAreSums(draws: seq<Draws>, interval: int, i: nat)
    requires interval != 0 && i <= |draws|
    ensures var ps, s := Publications(draws, interval)[..i], Trace(draws, interval)[i];
      && SumOf(ps, Processed) == s.counter && SumOf(ps, Defective) == s.scrapCtr
      && SumOf(ps, Consumed) == s.counter + s.scrapCtr
  {
    hide Trace, Publications, Tells, ValueIn;
    TraceStart(draws, interval);
    if i > 0 {
      var ps := Publications(draws, interval);
      var was, s := Trace(draws, interval)[i - 1], Trace(draws, interval)[i];
      CountersAreSums(draws, interval, i - 1);
      RunTells(draws, interval, i - 1);
      ToldValues(ps[i - 1], s.state.Running?, s.counter - was.counter, s.scrapCtr - was.scrapCtr, s.counter,
                 s.scrapCtr, draws[i - 1].speed);
      assert ps[..i][..i - 1] == ps[..i - 1];
    }
  }

  /** Every counter that is published, in every run, is the sum of the increments of its kind published so far; good and
      scrapped parts add up to the parts that went in, increment by increment and counter by counter; none goes back. */
  lemma {:induction false} PublishedCountersAreSums(draws: seq<Draws>, interval: int, i: nat)
    requires interval != 0 && i < |draws|
    ensures var ps := Publications(draws, interval);
      var ms, soFar := ps[i], ps[..i + 1];
      && (forall m :: m in ms && m.kind in {Processed, Consumed, Defective} ==>
            m.counter == Some(SumOf(soFar, m.kind)) && m.value >= 0 && (m.kind.Defective? ==> m.value == 1))
      && ValueIn(ms, Consumed) == ValueIn(ms, Processed) + ValueIn(ms, Defective)
      && SumOf(soFar, Consumed) == SumOf(soFar, Processed) + SumOf(soFar, Defective)
      && (Metric(StateCurrent, 6, None) in ms <==> exists m :: m in ms && m.kind.Processed?)
      && (Metric(StateCurrent, 6, None) in ms <==> exists m :: m in ms && m.kind.Consumed?)
  {
    hide Trace, Publications, Tells, ValueIn, SumOf;
    var ms := Publications(draws, interval)[i];
    var was, s := Trace(draws, interval)[i], Trace(draws, interval)[i + 1];
    RunTells(draws, interval, i);
    ToldValues(ms, s.state.Running?, s.counter - was.counter, s.scrapCtr - was.scrapCtr, s.counter, s.scrapCtr,
               draws[i].speed);
    CountersAreSums(draws, interval, i + 1);
  }

  // ---- stops ----

  /** A running machine has no stuck ticks left, and a stopped one at most the profile's maximum. */
  lemma {:induction false} RunningIsNotStuck(draws: seq<Draws>, interval: int, stuckMax: int, i: nat)
    requires interval != 0 && i <= |draws| && Drawable(draws, stuckMax) && stuckMax >= 60
    ensures var s := Trace(draws, interval)[i];
      0 <= s.stuckTicks <= stuckMax && (s.state.Running? ==> s.stuckTicks == 0)
  {
    TraceStart(draws, interval);
    if i > 0 {
      RunningIsNotStuck(draws, interval, stuckMax, i - 1);
      TraceStep(draws, interval, i - 1);
    }
  }

  /** The i-th publication says stopped. */
  ghost predicate StoppedAt(draws: seq<Draws>, interval: int, i: int)
    requires interval != 0
  {
    0 <= i < |draws| && Metric(StateCurrent, 10, None) in Publications(draws, interval)[i]
  }

  /** Publications `from` up to but not including `to` say stopped; those around them do not. */
  ghost predicate FinishedStop(draws: seq<Draws>, interval: int, from: nat, to: nat)
    requires interval != 0
  {
    && from < to < |draws| && (forall i :: from <= i < to ==> StoppedAt(draws, interval, i))
    && !StoppedAt(draws, interval, to) && !StoppedAt(draws, interval, from - 1)
  }

  lemma {:induction false} StoppedIs(draws: seq<Draws>, interval: int, i: nat)
    requires interval != 0 && i < |draws|
    ensures StoppedAt(draws, interval, i) <==> Trace(draws, interval)[i + 1].state.Stopped?
  {
    hide Trace, Publications, Tells;
    var ms := Publications(draws, interval)[i];
    var was, s := Trace(draws, interval)[i], Trace(draws, interval)[i + 1];
    RunTells(draws, interval, i);
    ToldValues(ms, s.state.Running?, s.counter - was.counter, s.scrapCtr - was.scrapCtr, s.counter, s.scrapCtr,
               draws[i].speed);
    if s.state.Stopped? { TellsStopped(ms, draws[i].speed, s.counter, s.scrapCtr); }
  }

  lemma {:induction false} TellsStopped(ms: seq<Metric>, speed: real, net: int, scrap: int)
    requires Tells(ms, false, 0, 0, net, scrap, speed)
    ensures Metric(StateCurrent, 10, None) in ms
  {
  }

  lemma {:induction false} StopStep(s: State, d: Draws, interval: int)
    requires interval != 0 && Next(s, d, interval).state.Stopped?
    ensures Next(s, d, interval).stopTicks == if s.state.Running? then 0 else s.stopTicks + 1
  {
    hide Increment, MinStopTicks;
  }

  /** While a stop lasts, the machine's stop ticks count its publications. */
  lemma {:induction false} StopTicksCount(draws: seq<Draws>, interval: int, from: nat, i: nat)
    requires interval != 0 && from <= i < |draws| && !StoppedAt(draws, interval, from - 1)
    requires forall k :: from <= k <= i ==> StoppedAt(draws, interval, k)
    ensures Trace(draws, interval)[i + 1].stopTicks == i - from
    decreases i
  {
    hide *;
    TraceStart(draws, interval);
    TraceStep(draws, interval, i);
    StoppedIs(draws, interval, i);
    assert StoppedAt(draws, interval, i);
    StopStep(Trace(draws, interval)[i], draws[i], interval);
    if i > 0 { StoppedIs(draws, interval, i - 1); }
    if i > from { StopTicksCount(draws, interval, from, i - 1); }
    assert FRESH.state.Running? by { FreshRuns(); }
  }

  lemma {:induction false} FreshRuns()
    ensures FRESH.state.Running?
  {
  }

  /** Only a machine that has waited long enough starts again. */
  lemma {:induction false} StartsLate(s: State, d: Draws, interval: int)
    requires interval != 0 && s.state.Stopped? && Next(s, d, interval).state.Running?
    ensures s.stopTicks + 1 >= MinStopTicks(interval)
  {
    hide Increment, MinStopTicks;
  }

  /** Every finished stop publishes at least the minimum number of stopped ticks. */
  lemma {:induction false} StopsLastLongEnough(draws: seq<Draws>, interval: int, from: nat, to: nat)
    requires interval != 0 && FinishedStop(draws, interval, from, to)
    ensures to - from >= MinStopTicks(interval)
  {
    hide StoppedAt, Publications, Trace, Next, MinStopTicks;
    assert StoppedAt(draws, interval, to - 1);
    StopTicksCount(draws, interval, from, to - 1);
    TraceStep(draws, interval, to);
    StoppedIs(draws, interval, to - 1);
    StoppedIs(draws, interval, to);
    StartsLate(Trace(draws, interval)[to], draws[to], interval);
  }

  // ---- how long that is ----

  /** Draws that always say yes to stopping and starting: the shortest stop there is. */
  const EAGER := Draws(true, false, 60, true, 1.0, 1.0, false)

  function EagerRun(interval: int): seq<Draws>
    requires interval != 0
  {
    seq(MinStopTicks(interval) + 1, i => EAGER)
  }

  lemma {:induction false} EagerWaits(interval: int, i: nat)
    requires interval != 0 && i < MinStopTicks(interval)
    ensures var s := Trace(EagerRun(interval), interval)[i + 1];
      s.state.Stopped? && s.stopTicks == i && s.stuckTicks == 0
  {
    TraceStep(EagerRun(interval), interval, i);
    if i > 0 { EagerWaits(interval, i - 1); }
    hide Trace, Increment, MinStopTicks;
  }

  lemma {:induction false} ShortestStop(interval: int)
    requires interval != 0
    ensures FinishedStop(EagerRun(interval), interval, 0, MinStopTicks(interval))
  {
    var n := MinStopTicks(interval);
    var draws := EagerRun(interval);
    forall i | 0 <= i < n ensures StoppedAt(draws, interval, i) {
      EagerWaits(interval, i);
      StoppedIs(draws, interval, i);
    }
    EagerWaits(interval, n - 1);
    TraceStep(draws, interval, n);
    StoppedIs(draws, interval, n);
    hide Trace, Publications, Increment, MinStopTicks, StoppedAt;
    assert !StoppedAt(draws, interval, -1) by { BeforeTheRun(draws, interval); }
  }

  lemma {:induction false} BeforeTheRun(draws: seq<Draws>, interval: int)
    requires interval != 0
    ensures !StoppedAt(draws, interval, -1)
  {
  }

  /** From the first stopped publication to the first running one, in seconds. */
  ghost predicate StopsAreLongerThan(interval: int, seconds: int)
    requires interval != 0
  {
    forall draws, from: nat, to: nat :: FinishedStop(draws, interval, from, to) ==> (to - from) * interval > seconds
  }

  lemma {:induction false} ShortestCounts(interval: int, seconds: int)
    requires interval > 0 && StopsAreLongerThan(interval, seconds)
    ensures MinStopTicks(interval) * interval > seconds
  {
    ShortestStop(interval);
    hide FinishedStop, MinStopTicks, EagerRun;
  }

  lemma {:induction false} StopFloor(interval: int, seconds: int)
    requires interval > 0
    ensures StopsAreLongerThan(interval, seconds) <==> MinStopTicks(interval) * interval > seconds
  {
    hide FinishedStop, MinStopTicks;
    if StopsAreLongerThan(interval, seconds) { ShortestCounts(interval, seconds); }
    forall draws, from: nat, to: nat | FinishedStop(draws, interval, from, to)
      ensures (to - from) * interval >= MinStopTicks(interval) * interval
    {
      StopsLastLongEnough(draws, interval, from, to);
      Scaled(MinStopTicks(interval), to - from, interval);
    }
  }

  lemma {:induction false} Scaled(a: int, b: int, k: int)
    requires a <= b && k > 0
    ensures a * k <= b * k
  {
  }

  lemma {:induction false} MinimumInSeconds(interval: int)
    requires interval > 0
    ensures MinStopTicks(interval) * interval == if interval > 720 then interval else 720 - 720 % interval
  {
    if interval <= 720 {
      assert 720 / interval >= 1;
    }
  }

  /** "Longer than 12 minutes" holds of every stop only when a single tick is; "longer than 10 minutes" exactly when the
      interval leaves less than two minutes of the twelve unused. */
  lemma {:induction false} DowntimeFloorIff(interval: int)
    requires interval > 0
    ensures StopsAreLongerThan(interval, 720) <==> interval > 720
    ensures StopsAreLongerThan(interval, 600) <==> interval > 720 || 720 % interval < 120
  {
    hide StopsAreLongerThan;
    StopFloor(interval, 720);
    StopFloor(interval, 600);
    MinimumInSeconds(interval);
  }

  /** At a tick of five seconds a stop can end after twelve minutes, and at one of 150 seconds after ten. */
  lemma {:induction false} ShortStops()
    ensures !StopsAreLongerThan(5, 720) && !StopsAreLongerThan(150, 600)
  {
    hide StopsAreLongerThan;
    DowntimeFloorIff(5);
    DowntimeFloorIff(150);
  }

  // ---- prolonged faults ----

  lemma {:induction false} StuckStep(s: State, d: Draws, interval: int)
    requires interval != 0 && s.state.Stopped? && s.stuckTicks > 0
    ensures Next(s, d, interval).state.Stopped? && Next(s, d, interval).stuckTicks == s.stuckTicks - 1
  {
  }

  /** A machine with stuck ticks left stays stopped for all of them, whatever is drawn. */
  lemma {:induction false} StuckHolds(draws: seq<Draws>, interval: int, stuckMax: int, i: nat, ahead: nat)
    requires interval != 0 && Drawable(draws, stuckMax) && stuckMax >= 60 && i + ahead < |draws|
    requires 0 < Trace(draws, interval)[i + 1].stuckTicks && ahead <= Trace(draws, interval)[i + 1].stuckTicks
    ensures Trace(draws, interval)[i + ahead + 1].state.Stopped? && StoppedAt(draws, interval, i + ahead)
    ensures Trace(draws, interval)[i + ahead + 1].stuckTicks == Trace(draws, interval)[i + 1].stuckTicks - ahead
  {
    hide *;
    if ahead == 0 {
      RunningIsNotStuck(draws, interval, stuckMax, i + 1);
    } else {
      StuckHolds(draws, interval, stuckMax, i, ahead - 1);
      TraceStep(draws, interval, i + ahead);
      StuckStep(Trace(draws, interval)[i + ahead], draws[i + ahead], interval);
    }
    StoppedIs(draws, interval, i + ahead);
  }

  /** A prolonged fault entered at a tick keeps at least sixty more publications stopped. */
  lemma {:induction false} FaultLastsSixtyTicks(draws: seq<Draws>, interval: int, stuckMax: int, i: nat, ahead: nat)
    requires interval != 0 && Drawable(draws, stuckMax) && stuckMax >= 60 && i + ahead < |draws| && ahead <= 60
    requires Trace(draws, interval)[i].stuckTicks == 0 && Trace(draws, interval)[i + 1].stuckTicks > 0
    ensures StoppedAt(draws, interval, i + ahead)
  {
    TraceStep(draws, interval, i);
    StuckHolds(draws, interval, stuckMax, i, ahead);
    hide Trace, Publications, Increment, StoppedAt;
  }
}
