/** The order in which continuous aggregates are created (scripts/promotion/transplant/build.py). */
module AggregateOrder {
  datatype Key = Key(schema: string, name: string)

  /** The aggregates in the order they were read, and which definition (first) names which aggregate (second). */
  datatype Aggregates = Aggregates(keys: seq<Key>, names: set<(Key, Key)>) {
    ghost predicate Valid() { Distinct(keys) }

    /** `k` waits for `d`: a definition that names its own aggregate waits for nothing. */
    ghost predicate WaitsFor(k: Key, d: Key) { d in keys && d != k && (k, d) in names }

    predicate Ready(k: Key, order: seq<Key>) { forall d :: d in keys && d != k && (k, d) in names ==> d in order }

    function Pending(order: seq<Key>): seq<Key> { Without(keys, order) }

    /** One pass of the outer loop, over the aggregates pending when it starts. */
    function Swept(ks: seq<Key>, order: seq<Key>): seq<Key>
      decreases |ks|
    {
      if ks == [] then order else Swept(ks[1..], if Ready(ks[0], order) then order + [ks[0]] else order)
    }

    function After(passes: nat): seq<Key> {
      if passes == 0 then [] else var order := After(passes - 1); Swept(Pending(order), order)
    }

    /** Each definition names the next aggregate, another one, and the walk comes back to its start. */
    ghost predicate Cycle(walk: seq<Key>) { |walk| >= 2 && Walk(walk) && walk[0] == walk[|walk|-1] && walk[0] in keys }

    ghost predicate Acyclic() { forall walk :: !Cycle(walk) }

    ghost predicate Walk(walk: seq<Key>) { forall i :: 0 <= i < |walk| - 1 ==> WaitsFor(walk[i], walk[i + 1]) }

    /** No aggregate twice, and each after everything its definition names. */
    ghost predicate Ordered(order: seq<Key>) {
      && (forall i, j :: 0 <= i < j < |order| ==> order[i] != order[j])
      && (forall i :: 0 <= i < |order| ==> order[i] in keys)
      && (forall i, d :: 0 <= i < |order| && WaitsFor(order[i], d) ==> d in order[..i])
    }
  }

  function Without(ks: seq<Key>, order: seq<Key>): (r: seq<Key>)
    ensures forall k :: k in r <==> k in ks && k !in order
    ensures |r| <= |ks|
  {
    if ks == [] then [] else (if ks[0] in order then [] else [ks[0]]) + Without(ks[1..], order)
  }

  ghost predicate Distinct(s: seq<Key>) { forall i, j :: 0 <= i < j < |s| ==> s[i] != s[j] }

  // ---- one pass ----

  lemma {:induction false} WithoutDistinct(ks: seq<Key>, order: seq<Key>)
    requires Distinct(ks)
    ensures Distinct(Without(ks, order))
  {
    if ks != [] {
      WithoutDistinct(ks[1..], order);
      assert ks[0] !in ks[1..];
    }
  }

  lemma {:induction false} ReadyGrows(a: Aggregates, k: Key, order: seq<Key>, more: seq<Key>)
    requires a.Ready(k, order) && forall d :: d in order ==> d in more
    ensures a.Ready(k, more)
  {
  }

  lemma {:induction false} OneMore(a: Aggregates, order: seq<Key>, k: Key)
    requires a.Ordered(order) && k in a.keys && k !in order && a.Ready(k, order)
    ensures a.Ordered(order + [k])
  {
    var r := order + [k];
    forall i | 0 <= i < |r| ensures a.Ready(r[i], r[..i]) {
      assert i < |order| ==> r[..i] == order[..i];
      assert i == |order| ==> r[..i] == order;
    }
    hide Aggregates.Ready;
  }

  /** A pass keeps the order right and only appends. */
  lemma {:induction false} SweptKeeps(a: Aggregates, ks: seq<Key>, order: seq<Key>)
    requires a.Ordered(order) && Distinct(ks) && forall k :: k in ks ==> k in a.keys && k !in order
    ensures a.Ordered(a.Swept(ks, order)) && order <= a.Swept(ks, order)
    decreases |ks|
  {
    if ks != [] {
      var next := if a.Ready(ks[0], order) then order + [ks[0]] else order;
      if a.Ready(ks[0], order) { OneMore(a, order, ks[0]); }
      assert ks[0] !in ks[1..];
      hide Aggregates.Ready, Aggregates.Ordered;
      SweptKeeps(a, ks[1..], next);
    }
  }

  /** A pass takes every aggregate that is ready when the pass starts. */
  lemma {:induction false} SweptTakes(a: Aggregates, ks: seq<Key>, order: seq<Key>, k: Key)
    requires k in order || (k in ks && a.Ready(k, order))
    ensures k in a.Swept(ks, order)
    decreases |ks|
  {
    if ks != [] {
      var next := if a.Ready(ks[0], order) then order + [ks[0]] else order;
      if k !in next { ReadyGrows(a, k, order, next); }
      hide Aggregates.Ready;
      SweptTakes(a, ks[1..], next, k);
    }
  }

  /** A set in which each waits for another of the set. */
  ghost predicate Stuck(a: Aggregates, stuck: set<Key>) {
    forall k :: k in stuck ==> exists d :: d in stuck && a.WaitsFor(k, d)
  }

  lemma {:induction false} SweptStep(a: Aggregates, ks: seq<Key>, order: seq<Key>)
    requires ks != []
    ensures a.Swept(ks, order) == a.Swept(ks[1..], if a.Ready(ks[0], order) then order + [ks[0]] else order)
  {
  }

  lemma {:induction false} WaitingIsNotReady(a: Aggregates, stuck: set<Key>, order: seq<Key>, k: Key)
    requires (exists d :: d in stuck && a.WaitsFor(k, d)) && forall s :: s in stuck ==> s !in order
    ensures !a.Ready(k, order)
  {
  }

  /** No pass ever touches a stuck set. */
  lemma {:induction false} StuckStays(a: Aggregates, stuck: set<Key>, ks: seq<Key>, order: seq<Key>)
    requires Stuck(a, stuck) && forall k :: k in stuck ==> k !in order
    ensures forall k :: k in stuck ==> k !in a.Swept(ks, order)
    decreases |ks|
  {
    if ks != [] {
      hide Aggregates.WaitsFor, Aggregates.Ready, Aggregates.Swept;
      if ks[0] in stuck { WaitingIsNotReady(a, stuck, order, ks[0]); }
      SweptStep(a, ks, order);
      hide Stuck;
      StuckStays(a, stuck, ks[1..], if a.Ready(ks[0], order) then order + [ks[0]] else order);
    }
  }

  lemma {:induction false} PassKeeps(a: Aggregates, order: seq<Key>)
    requires a.Valid() && a.Ordered(order)
    ensures var next := a.Swept(a.Pending(order), order); a.Ordered(next) && order <= next
  {
    WithoutDistinct(a.keys, order);
    hide Distinct, Aggregates.Ordered;
    SweptKeeps(a, a.Pending(order), order);
  }

  lemma {:induction false} AfterIs(a: Aggregates, n: nat)
    requires n > 0
    ensures var order := a.After(n - 1); a.After(n) == a.Swept(a.Pending(order), order)
  {
  }

  lemma {:induction false} AfterKeeps(a: Aggregates, n: nat)
    requires a.Valid()
    ensures a.Ordered(a.After(n))
  {
    hide *;
    if n == 0 {
      StartIsOrdered(a);
    } else {
      AfterIs(a, n);
      AfterKeeps(a, n - 1);
      PassKeeps(a, a.After(n - 1));
    }
  }

  lemma {:induction false} StartIsOrdered(a: Aggregates)
    ensures a.Ordered(a.After(0))
  {
  }

  // ---- progress ----

  /** A walk longer than the set it stays in comes back to an aggregate it has passed. */
  lemma {:induction false} LongWalkRepeats(walk: seq<Key>, all: set<Key>)
    requires (forall i :: 0 <= i < |walk| ==> walk[i] in all) && |walk| > |all|
    ensures !Distinct(walk)
    decreases |walk|
  {
    var last := walk[|walk|-1];
    var rest := walk[..|walk|-1];
    if last !in rest {
      LongWalkRepeats(rest, all - {last});
      var i, j :| 0 <= i < j < |rest| && rest[i] == rest[j];
      assert walk[i] == walk[j];
    } else {
      var i :| 0 <= i < |rest| && rest[i] == last;
      assert walk[i] == walk[|walk|-1];
    }
  }

  lemma {:induction false} RepeatIsCycle(a: Aggregates, walk: seq<Key>)
    requires a.Walk(walk) && !Distinct(walk) && forall i :: 0 <= i < |walk| ==> walk[i] in a.keys
    ensures exists c :: a.Cycle(c)
  {
    var i, j :| 0 <= i < j < |walk| && walk[i] == walk[j];
    var c := walk[i..j + 1];
    hide Aggregates.WaitsFor;
    forall k | 0 <= k < |c| - 1 ensures a.WaitsFor(c[k], c[k + 1]) {
      assert a.WaitsFor(walk[i + k], walk[i + k + 1]);
    }
    assert a.Cycle(c);
  }

  /** If none of a set is ready, walks of any length stay inside it. */
  lemma {:induction false} WalkOn(a: Aggregates, order: seq<Key>, start: Key, n: nat) returns (walk: seq<Key>)
    requires start in a.keys && start !in order
    requires forall k :: k in a.keys && k !in order ==> !a.Ready(k, order)
    ensures a.Walk(walk) && |walk| == n + 1 && forall i :: 0 <= i < |walk| ==> walk[i] in a.keys && walk[i] !in order
  {
    if n == 0 {
      walk := [start];
    } else {
      var shorter := WalkOn(a, order, start, n - 1);
      var last := shorter[n - 1];
      assert !a.Ready(last, order);
      var d :| d in a.keys && a.WaitsFor(last, d) && d !in order;
      hide Aggregates.WaitsFor, Aggregates.Ready;
      walk := shorter + [d];
    }
  }

  /** Without a cycle some pending aggregate is ready, so the pending set shrinks on every pass. */
  lemma {:induction false} SomeoneIsReady(a: Aggregates, order: seq<Key>, start: Key) returns (k: Key)
    requires start in a.keys && start !in order && a.Acyclic()
    ensures k in a.keys && k !in order && a.Ready(k, order)
  {
    if forall k :: k in a.keys && k !in order ==> !a.Ready(k, order) {
      var all := set k | k in a.keys;
      var walk := WalkOn(a, order, start, |all|);
      LongWalkRepeats(walk, all);
      RepeatIsCycle(a, walk);
      k := start;
    } else {
      k :| k in a.keys && k !in order && a.Ready(k, order);
    }
  }

  // ---- the loop ----

  /** `del pending[k]`. */
  function Deleted(pending: seq<Key>, k: Key): seq<Key> {
    if pending == [] then [] else if pending[0] == k then pending[1..] else [pending[0]] + Deleted(pending[1..], k)
  }

  lemma {:induction false} DeletedIs(ks: seq<Key>, order: seq<Key>, k: Key)
    requires Distinct(ks) && k !in order
    ensures Deleted(Without(ks, order), k) == Without(ks, order + [k])
  {
    if ks != [] {
      var head, rest := ks[0], ks[1..];
      assert head !in rest;
      DeletedIs(rest, order, k);
      hide Distinct;
      var left := Without(rest, order);
      assert head in order + [k] <==> head in order || head == k;
      assert ([head] + left)[1..] == left;
      if head == k { WithoutSame(rest, order, k); }
      assert Without(ks, order + [k]) == (if head in order + [k] then [] else [head]) + Without(rest, order + [k]);
      assert Without(ks, order) == (if head in order then [] else [head]) + left;
      assert [] + left == left;
    }
  }

  lemma {:induction false} WithoutSame(ks: seq<Key>, order: seq<Key>, k: Key)
    requires k !in ks
    ensures Without(ks, order + [k]) == Without(ks, order)
  {
    if ks != [] { WithoutSame(ks[1..], order, k); }
  }

  lemma {:induction false} WithoutShrinks(ks: seq<Key>, order: seq<Key>, more: seq<Key>, k: Key)
    requires k in ks && k !in order && order <= more && k in more
    ensures |Without(ks, more)| < |Without(ks, order)|
  {
    WithoutShrinksOrSame(ks[1..], order, more);
    if ks[0] != k { WithoutShrinks(ks[1..], order, more, k); }
  }

  lemma {:induction false} WithoutShrinksOrSame(ks: seq<Key>, order: seq<Key>, more: seq<Key>)
    requires order <= more
    ensures |Without(ks, more)| <= |Without(ks, order)|
  {
    if ks != [] { WithoutShrinksOrSame(ks[1..], order, more); }
  }

  /** One pass over a copy of the pending aggregates, deleting those that got their place. */
  method SweepPending(a: Aggregates, start: seq<Key>, before: seq<Key>) returns (order: seq<Key>, pending: seq<Key>)
    requires a.Valid() && a.Ordered(start) && before == a.Pending(start)
    ensures order == a.Swept(before, start) && pending == a.Pending(order)
  {
    order, pending := start, before;
    WithoutDistinct(a.keys, start);
    hide Aggregates.Ready, Aggregates.Ordered;
    for i := 0 to |before|
      invariant a.Swept(before[i..], order) == a.Swept(before, start)
      invariant pending == a.Pending(order)
      invariant forall k :: i <= k < |before| ==> before[k] !in order
    {
      assert before[i..][0] == before[i] && before[i..][1..] == before[i + 1..];
      if a.Ready(before[i], order) {
        DeletedIs(a.keys, order, before[i]);
        order := order + [before[i]];
        pending := Deleted(pending, before[i]);
      }
    }
    assert before[|before|..] == [];
  }

  /** On acyclic definitions the loop ends, with every aggregate once, after every other aggregate its definition
      names. */
  method CreationOrder(a: Aggregates) returns (order: seq<Key>)
    requires a.Valid() && a.Acyclic()
    ensures a.Ordered(order)
    ensures forall k :: k in order <==> k in a.keys
    ensures exists n :: 0 <= n <= |a.keys| && order == a.After(n)
  {
    order := [];
    NothingPlaced(a.keys);
    var pending := a.keys;
    ghost var n := 0;
    while pending != []
      invariant order == a.After(n) && a.Ordered(order) && a.Valid()
      invariant n + |pending| <= |a.keys|
      invariant pending == a.Pending(order)
      decreases |pending|
    {
      PassKeeps(a, order);
      hide Aggregates.Ready, Aggregates.Ordered, Aggregates.Acyclic;
      PassShrinks(a, order);
      order, pending := SweepPending(a, order, pending);
      n := n + 1;
    }
    forall k | k in a.keys ensures k in order { assert k !in pending; }
  }

  lemma {:induction false} NothingPlaced(ks: seq<Key>)
    ensures Without(ks, []) == ks
  {
    if ks != [] { NothingPlaced(ks[1..]); }
  }

  // ---- when the loop ends ----

  function Members(walk: seq<Key>): set<Key> { set k | k in walk }

  /** The aggregates on a circle wait for each other. */
  lemma {:induction false} CycleIsStuck(a: Aggregates, walk: seq<Key>)
    requires a.Cycle(walk)
    ensures Stuck(a, Members(walk))
  {
    hide Aggregates.WaitsFor;
    forall k | k in Members(walk) ensures exists d :: d in Members(walk) && a.WaitsFor(k, d) {
      var i :| 0 <= i < |walk| && walk[i] == k;
      var next := if i + 1 < |walk| then i + 1 else 1;
      assert a.WaitsFor(walk[next - 1], walk[next]) && walk[next] in Members(walk);
    }
  }

  lemma {:induction false} CycleIsNeverPlaced(a: Aggregates, walk: seq<Key>, n: nat)
    requires a.Cycle(walk)
    ensures forall k :: k in Members(walk) ==> k !in a.After(n)
  {
    hide Aggregates.Cycle, Aggregates.Swept, Stuck, Members, Without;
    if n > 0 {
      AfterIs(a, n);
      CycleIsNeverPlaced(a, walk, n - 1);
      CycleIsStuck(a, walk);
      var order := a.After(n - 1);
      StuckStays(a, Members(walk), a.Pending(order), order);
    }
  }

  /** A pass over a non-empty pending set places somebody. */
  lemma {:induction false} PassShrinks(a: Aggregates, order: seq<Key>)
    requires a.Valid() && a.Ordered(order) && a.Acyclic()
    ensures var pending := a.Pending(order);
      |a.Pending(a.Swept(pending, order))| <= |pending| - (if pending == [] then 0 else 1)
  {
    var pending := a.Pending(order);
    var next := a.Swept(pending, order);
    PassKeeps(a, order);
    hide Aggregates.Ready, Aggregates.Ordered, Aggregates.Valid, Aggregates.Acyclic, Aggregates.Swept;
    if pending != [] {
      var ready := SomeoneIsReady(a, order, pending[0]);
      SweptTakes(a, pending, order, ready);
      WithoutShrinks(a.keys, order, next, ready);
    }
  }

  lemma {:induction false} AcyclicEnds(a: Aggregates, n: nat)
    requires a.Valid() && a.Acyclic()
    ensures n + |a.Pending(a.After(n))| <= |a.keys| || a.Pending(a.After(n)) == []
  {
    hide Aggregates.Acyclic, Aggregates.Swept, Aggregates.Ready, Aggregates.Ordered, Aggregates.Valid, Without;
    if n > 0 {
      AfterIs(a, n);
      AcyclicEnds(a, n - 1);
      AfterKeeps(a, n - 1);
      var order := a.After(n - 1);
      PassShrinks(a, order);
    }
  }

  /** The loop ends exactly when no definitions name each other in a circle, and then within one pass per aggregate;
      otherwise the aggregates on the circle are pending for ever. */
  lemma {:induction false} EndsIffAcyclic(a: Aggregates)
    requires a.Valid()
    ensures (exists n :: a.Pending(a.After(n)) == []) <==> a.Acyclic()
    ensures (exists n :: a.Pending(a.After(n)) == []) <==> a.Pending(a.After(|a.keys|)) == []
  {
    if c :| a.Cycle(c) {
      forall n: nat ensures a.Pending(a.After(n)) != [] {
        CycleIsNeverPlaced(a, c, n);
        assert c[0] in Members(c);
        assert c[0] in a.Pending(a.After(n));
      }
    } else {
      AcyclicEnds(a, |a.keys|);
    }
  }

  /** Two aggregates that name each other: the loop never gets to the end. */
  lemma {:induction false} CircleRunsForever(x: Key, y: Key, n: nat)
    requires x != y
    ensures var a := Aggregates([x, y], {(x, y), (y, x)});
      a.Valid() && a.Pending(a.After(n)) == [x, y]
  {
    var a := Aggregates([x, y], {(x, y), (y, x)});
    hide Aggregates.After;
    assert a.Cycle([x, y, x]);
    CycleIsNeverPlaced(a, [x, y, x], n);
    assert [x, y, x][0] in Members([x, y, x]) && [x, y, x][1] in Members([x, y, x]);
    assert [x, y][1..] == [y] && [y][1..] == [];
  }
}
