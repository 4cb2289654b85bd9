/** Production and staging mint ids from sequences of their own (MR4, idBlock in invariant.go). */
module MirrorIdBlock {
  import opened MirrorDiff
  import opened Positions
  import opened Wrappers

  /** A sequence's last value; None is a sequence never used. */
  type Sequences = map<string, Option<int>>
  datatype Violation = OnStaging(name: string, last: int) | OnProduction(name: string, reading: Option<int>)

  /** One row of the query: None also for a sequence the reflector has no privilege to read. */
  datatype SeqRow = SeqRow(name: string, last: Option<int>)

  predicate StagingBad(r: SeqRow, block: int) { r.last.Some? && r.last.value >= block }
  predicate ProductionBad(r: SeqRow, block: int) { r.last.None? || r.last.value < block }

  /** The violations at these rising positions: a used staging sequence at or above the block, and then a production
      sequence below it or without a value. Each is named with its value. */
  ghost predicate ViolationsAt(bad: seq<Violation>, dst: seq<SeqRow>, src: seq<SeqRow>, block: int, a: seq<nat>,
                               b: seq<nat>) {
    && Rising(a, |dst|) && Rising(b, |src|) && |bad| == |a| + |b|
    && (forall p :: 0 <= p < |dst| ==> (p in a <==> dst[p].last.Some? && dst[p].last.value >= block))
    && (forall p :: 0 <= p < |src| ==> (p in b <==> src[p].last.None? || src[p].last.value < block))
    && (forall i :: 0 <= i < |a| ==> dst[a[i]].last.Some? && bad[i] == OnStaging(dst[a[i]].name, dst[a[i]].last.value))
    && (forall i :: 0 <= i < |b| ==> bad[|a| + i] == OnProduction(src[b[i]].name, src[b[i]].last))
  }

  ghost predicate IsIdBlock(bad: seq<Violation>, dst: seq<SeqRow>, src: seq<SeqRow>, block: int) {
    exists a, b :: ViolationsAt(bad, dst, src, block, a, b)
  }

  method ReadStaging(dst: seq<SeqRow>, block: int) returns (bad: seq<Violation>, ghost a: seq<nat>)
    ensures ViolationsAt(bad, dst, [], block, a, [])
  {
    bad, a := [], [];
    for i := 0 to |dst|
      invariant Rising(a, i) && |bad| == |a|
      invariant forall p :: 0 <= p < i ==> (p in a <==> StagingBad(dst[p], block))
      invariant forall k :: 0 <= k < |a| ==>
        dst[a[k]].last.Some? && bad[k] == OnStaging(dst[a[k]].name, dst[a[k]].last.value)
    {
      var r := dst[i];
      if StagingBad(r, block) { bad, a := bad + [OnStaging(r.name, r.last.value)], a + [i]; }
    }
  }

  method ReadProduction(src: seq<SeqRow>, block: int) returns (bad: seq<Violation>, ghost b: seq<nat>)
    ensures ViolationsAt(bad, [], src, block, [], b)
  {
    bad, b := [], [];
    for i := 0 to |src|
      invariant Rising(b, i) && |bad| == |b|
      invariant forall p :: 0 <= p < i ==> (p in b <==> ProductionBad(src[p], block))
      invariant forall k :: 0 <= k < |b| ==> bad[k] == OnProduction(src[b[k]].name, src[b[k]].last)
    {
      var r := src[i];
      if ProductionBad(r, block) { bad, b := bad + [OnProduction(r.name, r.last)], b + [i]; }
    }
  }

  /** Scans staging's sequences, then production's, and collects the violations in that order. */
  method IdBlock(dst: seq<SeqRow>, src: seq<SeqRow>, block: int) returns (bad: seq<Violation>)
    ensures IsIdBlock(bad, dst, src, block)
  {
    ghost var a, b;
    var staging, production;
    staging, a := ReadStaging(dst, block);
    production, b := ReadProduction(src, block);
    bad := staging + production;
    assert forall k :: 0 <= k < |b| ==> bad[|a| + k] == production[k];
    assert ViolationsAt(bad, dst, src, block, a, b);
  }

  lemma {:induction false} NoViolationIff(bad: seq<Violation>, dst: seq<SeqRow>, src: seq<SeqRow>, block: int)
    requires IsIdBlock(bad, dst, src, block)
    ensures bad == [] <==>
      (forall r :: r in dst ==> !StagingBad(r, block)) && (forall r :: r in src ==> !ProductionBad(r, block))
  {
    var a, b :| ViolationsAt(bad, dst, src, block, a, b);
    if a != [] { assert a[0] in a && dst[a[0]] in dst; }
    if b != [] { assert b[0] in b && src[b[0]] in src; }
  }

  // ---- runs of the two minters ----

  /** One side: its sequences, and the ids each of them has minted since the run began. */
  datatype Minter = Minter(last: Sequences, minted: map<string, set<int>>) {
    ghost predicate Valid() { last.Keys == minted.Keys }
    ghost predicate Fresh() { Valid() && forall t :: t in minted ==> minted[t] == {} }
  }

  /** Both sides, and the sequences of each that the reflector may read. */
  datatype World = World(staging: Minter, production: Minter, readable: set<string>, readableSrc: set<string>)

  /** nextval on one side: the sequence moves up, by one or past cached values, and the id is its new last value. */
  datatype Mint = Mint(onProduction: bool, table: string, id: int)

  predicate Possible(m: Minter, t: string, id: int) {
    t in m.last && t in m.minted && (m.last[t].Some? ==> id > m.last[t].value)
  }

  /** A sequence never hands out a value it has passed: an impossible mint does not happen. */
  function MintOn(m: Minter, t: string, id: int): Minter {
    if Possible(m, t, id) then Minter(m.last[t := Some(id)], m.minted[t := m.minted[t] + {id}]) else m
  }

  function Step(w: World, e: Mint): World {
    if e.onProduction then w.(production := MintOn(w.production, e.table, e.id))
    else w.(staging := MintOn(w.staging, e.table, e.id))
  }

  function Run(w: World, es: seq<Mint>): World {
    if es == [] then w else Step(Run(w, es[..|es|-1]), es[|es|-1])
  }

  /** The rows the query answers: one for each sequence, without a value when it may not be read. */
  ghost predicate Reads(rows: seq<SeqRow>, m: Minter, readable: set<string>) {
    && (forall r :: r in rows ==> r.name in m.last && r.last == if r.name in readable then m.last[r.name] else None)
    && (forall t :: t in m.last ==> SeqRow(t, if t in readable then m.last[t] else None) in rows)
  }

  /** What has to hold for MR4 to report zero. */
  ghost predicate Mr4Zero(w: World, block: int) {
    && (forall t :: t in w.staging.last && t in w.readable ==>
      w.staging.last[t].None? || w.staging.last[t].value < block)
    && (forall t :: t in w.production.last ==>
          t in w.readableSrc && w.production.last[t].Some? && w.production.last[t].value >= block)
  }

  /** MR4 is the emptiness of what idBlock collects from the readings: an unreadable production sequence is a violation,
      an unreadable staging sequence never is. */
  lemma {:induction false} Mr4IsIdBlock(w: World, bad: seq<Violation>, dst: seq<SeqRow>, src: seq<SeqRow>, block: int)
    requires Reads(dst, w.staging, w.readable) && Reads(src, w.production, w.readableSrc)
    requires IsIdBlock(bad, dst, src, block)
    ensures bad == [] <==> Mr4Zero(w, block)
  {
    NoViolationIff(bad, dst, src, block);
    forall t | t in w.staging.last
      ensures (forall r :: r in dst ==> !StagingBad(r, block)) ==>
        t in w.readable ==> w.staging.last[t].None? || w.staging.last[t].value < block
    {
      assert SeqRow(t, if t in w.readable then w.staging.last[t] else None) in dst;
    }
    forall t | t in w.production.last
      ensures (forall r :: r in src ==> !ProductionBad(r, block)) ==>
        t in w.readableSrc && w.production.last[t].Some? && w.production.last[t].value >= block
    {
      assert SeqRow(t, if t in w.readableSrc then w.production.last[t] else None) in src;
    }
  }

  ghost predicate IdsBounded(m: Minter, start: Minter) {
    && m.Valid() && m.last.Keys == start.last.Keys
    && (forall t, id :: t in m.minted && id in m.minted[t] ==>
          m.last[t].Some? && id <= m.last[t].value && (start.last[t].Some? ==> id > start.last[t].value))
    && (forall t :: t in m.last && start.last[t].Some? ==> m.last[t].Some? && m.last[t].value >= start.last[t].value)
    && (forall t :: t in m.last && m.last[t] != start.last[t] ==> m.last[t].Some? && m.last[t].value in m.minted[t])
  }

  lemma {:induction false} MintKeepsBounds(m: Minter, start: Minter, t: string, id: int)
    requires IdsBounded(m, start)
    ensures IdsBounded(MintOn(m, t, id), start)
  {
  }

  lemma {:induction false} RunsStayBounded(w: World, es: seq<Mint>)
    requires w.staging.Fresh() && w.production.Fresh()
    ensures var r := Run(w, es); IdsBounded(r.staging, w.staging) && IdsBounded(r.production, w.production)
  {
    if es != [] {
      var rest, e := es[..|es|-1], es[|es|-1];
      RunsStayBounded(w, rest);
      var mid := Run(w, rest);
      if e.onProduction { MintKeepsBounds(mid.production, w.production, e.table, e.id); }
      else { MintKeepsBounds(mid.staging, w.staging, e.table, e.id); }
    }
  }

  lemma {:induction false} RunKeepsPrivileges(w: World, es: seq<Mint>)
    ensures Run(w, es).readable == w.readable && Run(w, es).readableSrc == w.readableSrc
  {
    if es != [] { RunKeepsPrivileges(w, es[..|es|-1]); }
  }

  /** From a start without violations, MR4 still reports zero exactly when every id staging minted from a readable
      sequence lies below the block: production can no longer violate it. */
  lemma {:induction false} Mr4ZeroIff(w: World, es: seq<Mint>, block: int)
    requires w.staging.Fresh() && w.production.Fresh() && Mr4Zero(w, block)
    ensures var r := Run(w, es);
      Mr4Zero(r, block) <==>
      forall t, id :: t in w.readable && t in r.staging.minted && id in r.staging.minted[t] ==> id < block
  {
    RunsStayBounded(w, es);
    RunKeepsPrivileges(w, es);
    var r := Run(w, es);
    forall t | t in r.production.last ensures r.production.last[t].Some? && r.production.last[t].value >= block {
      assert t in w.production.last;
    }
    if forall t, id :: t in w.readable && t in r.staging.minted && id in r.staging.minted[t] ==> id < block {
      forall t | t in r.staging.last && t in w.readable
        ensures r.staging.last[t].None? || r.staging.last[t].value < block
      {
        assert t in w.staging.last;
      }
    }
  }

  /** As long as MR4 reports zero, no id of a table whose staging sequence is readable has been minted on both sides,
      whatever the two sides minted in whatever order: a row copied from production never lands on an id staging
      minted. */
  lemma {:induction false} NoIdMintedTwice(w: World, es: seq<Mint>, block: int, t: string)
    requires w.staging.Fresh() && w.production.Fresh() && Mr4Zero(w, block) && Mr4Zero(Run(w, es), block)
    requires t in w.readable && t in Run(w, es).staging.minted && t in Run(w, es).production.minted
    ensures Run(w, es).staging.minted[t] !! Run(w, es).production.minted[t]
  {
    RunsStayBounded(w, es);
    Mr4ZeroIff(w, es, block);
    var r := Run(w, es);
    forall id | id in r.production.minted[t] ensures id !in r.staging.minted[t] {
      assert w.production.last[t].Some?;
    }
  }

  /** A table is safe when no run from a clean start that ends with MR4 at zero mints an id of it on both sides. */
  ghost predicate Safe(readable: set<string>, t: string, block: int) {
    forall w: World, es: seq<Mint> ::
      (&& w.staging.Fresh() && w.production.Fresh() && w.readable == readable && Mr4Zero(w, block) &&
        Mr4Zero(Run(w, es), block)
       && t in Run(w, es).staging.minted && t in Run(w, es).production.minted) ==>
      Run(w, es).staging.minted[t] !! Run(w, es).production.minted[t]
  }

  /** MR4 guarantees it for a table exactly when the reflector may read the table's sequence on staging. */
  lemma {:induction false} SafeIffReadable(readable: set<string>, t: string, block: int)
    ensures Safe(readable, t, block) <==> t in readable
  {
    if t in readable {
      forall w: World, es: seq<Mint> |
          && w.staging.Fresh() && w.production.Fresh() && w.readable == readable && Mr4Zero(w, block) &&
            Mr4Zero(Run(w, es), block)
          && t in Run(w, es).staging.minted && t in Run(w, es).production.minted
        ensures Run(w, es).staging.minted[t] !! Run(w, es).production.minted[t]
      {
        NoIdMintedTwice(w, es, block, t);
      }
    } else {
      UnreadableCollision(readable, t, block);
      hide Run, Mr4Zero;
      assert !Safe(readable, t, block);
    }
  }

  function Collision(t: string, id: int): seq<Mint> { [Mint(true, t, id), Mint(false, t, id)] }

  function BothMinted(t: string, last: Option<int>): Minter { Minter(map[t := last], map[t := {}]) }

  /** Both sides mint the same id, one of them from a sequence that has never been used. */
  lemma {:induction false} CollisionRun(t: string, last: Option<int>, id: int, readable: set<string>)
    requires last.Some? ==> id > last.value
    ensures var w := World(BothMinted(t, None), BothMinted(t, last), readable, {t});
      var r := Run(w, Collision(t, id));
      var both := Minter(map[t := Some(id)], map[t := {id}]);
      w.staging.Fresh() && w.production.Fresh() && r == World(both, both, readable, {t})
  {
    var w := World(BothMinted(t, None), BothMinted(t, last), readable, {t});
    var e1, e2 := Mint(true, t, id), Mint(false, t, id);
    assert [e1, e2][..1] == [e1] && [e1][..0] == [];
    assert {} + {id} == {id};
    var minted := Minter(map[t := Some(id)], map[t := {id}]);
    assert MintOn(BothMinted(t, None), t, id) == minted && MintOn(BothMinted(t, last), t, id) == minted;
    assert Run(w, [e1]) == World(BothMinted(t, None), minted, readable, {t});
  }

  /** Staging mints past the block from a sequence the reflector may not read: MR4 stays at zero and the ids collide. */
  lemma {:induction false} UnreadableCollision(readable: set<string>, t: string, block: int)
    requires t !in readable
    ensures var w := World(BothMinted(t, None), BothMinted(t, Some(block)), readable, {t});
      var r := Run(w, Collision(t, block + 1));
      && w.staging.Fresh() && w.production.Fresh() && Mr4Zero(w, block) && Mr4Zero(r, block)
      && r.staging.minted == map[t := {block + 1}] && r.production.minted == map[t := {block + 1}]
      && !(r.staging.minted[t] !! r.production.minted[t])
  {
    CollisionRun(t, Some(block), block + 1, readable);
    hide Run;
    assert block + 1 in {block + 1} * {block + 1};
  }

  /** Without the start condition it fails too: production below the block mints an id staging minted. */
  lemma {:induction false} CollisionBelowTheBlock(t: string, block: int)
    requires block > 1
    ensures var w := World(BothMinted(t, None), BothMinted(t, None), {t}, {t});
      var r := Run(w, Collision(t, 1));
      && w.staging.Fresh() && w.production.Fresh() && !Mr4Zero(w, block)
      && r.staging.minted == map[t := {1}] && r.production.minted == map[t := {1}]
  {
    CollisionRun(t, None, 1, {t});
    hide Run;
  }
}
