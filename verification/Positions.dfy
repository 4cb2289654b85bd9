/** Positions in a list in rising order: what a filter keeps, said without the filter. */
module Positions {

  ghost predicate Rising(at: seq<nat>, n: nat) {
    (forall i :: 0 <= i < |at| ==> at[i] < n) && forall i, j :: 0 <= i < j < |at| ==> at[i] < at[j]
  }

  lemma {:induction false} NothingRises()
    ensures Rising([], 0)
  {
  }

  ghost function Shifted(at: seq<nat>): (r: seq<nat>)
    ensures |r| == |at|
  {
    seq(|at|, i requires 0 <= i < |at| => at[i] + 1)
  }

  lemma {:induction false} ShiftedPositions(at: seq<nat>, n: nat)
    requires Rising(at, n)
    ensures Rising(Shifted(at), n + 1) && forall p: nat :: p in Shifted(at) <==> p > 0 && p - 1 in at
  {
    forall p: nat ensures p in Shifted(at) <==> p > 0 && p - 1 in at {
      if p > 0 && p - 1 in at {
        var i :| 0 <= i < |at| && at[i] == p - 1;
        assert Shifted(at)[i] == p;
      }
    }
  }

  /** Positions in the rest of a list, as positions in the list, with or without its first. */
  ghost function Placed(rest: seq<nat>, keep: bool): (r: seq<nat>)
    ensures |r| == |rest| + if keep then 1 else 0
  {
    (if keep then [0] else []) + Shifted(rest)
  }

  lemma {:induction false} PlacedPositions(rest: seq<nat>, n: nat, keep: bool)
    requires Rising(rest, n)
    ensures Rising(Placed(rest, keep), n + 1)
    ensures forall p: nat :: p in Placed(rest, keep) <==> if p == 0 then keep else p - 1 in rest
  {
    ShiftedPositions(rest, n);
    hide Shifted;
    assert 0 !in Shifted(rest);
  }

  lemma {:induction false} PlacedAt(rest: seq<nat>, keep: bool, i: nat)
    requires i < |Placed(rest, keep)|
    ensures Placed(rest, keep)[i] == if keep && i == 0 then 0 else rest[if keep then i - 1 else i] + 1
  {
  }

  lemma {:induction false} PlacedValues<T>(out: seq<T>, ts: seq<T>, rest: seq<nat>, keep: bool)
    requires ts != [] && |out| == |rest| && Rising(rest, |ts| - 1)
    requires forall i :: 0 <= i < |rest| ==> out[i] == ts[1..][rest[i]]
    ensures var more, at := (if keep then [ts[0]] else []) + out, Placed(rest, keep);
      |at| == |more| && forall i :: 0 <= i < |at| ==> at[i] < |ts| && more[i] == ts[at[i]]
  {
    var at := Placed(rest, keep);
    forall i | 0 <= i < |at|
      ensures at[i] == if keep && i == 0 then 0 else rest[if keep then i - 1 else i] + 1
    {
      PlacedAt(rest, keep, i);
    }
    hide Placed;
  }
}
