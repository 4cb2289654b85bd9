/** CPACK config sync, apply: equipment columns, reason catalogue and links in one transaction
    (cpack-config-sync.py). */
module ConfigApply {
  import opened ConfigIdentity
  import opened ConfigReasons
  import opened Wrappers

  // ---- equipments ----

  function TargetOf(ok: Verification, base: Option<string>): Option<int> {
    if base.Some? && base.value in ok then Some(ok[base.value].tgt) else None
  }

  /** A reference is translated through the verified map; one that cannot be translated keeps the target's value. */
  function Translated(ref: Option<Ref>, was: Option<int>, ok: Verification): Option<int> {
    if ref.None? then None
    else if TargetOf(ok, ref.value.base).Some? then TargetOf(ok, ref.value.base) else was
  }

  function TranslatedAll(refs: seq<Option<Ref>>, was: seq<Option<int>>, ok: Verification): seq<Option<int>> {
    seq(|was|, i requires 0 <= i < |was| => Translated(if i < |refs| then refs[i] else None, was[i], ok))
  }

  /** The verified row of a target equipment. */
  function RowOf(ok: Verification, topics: Topics, id: int): Option<Snap> {
    if id in topics && topics[id] in ok && ok[topics[id]].tgt == id then Some(ok[topics[id]].snap) else None
  }

  /** Only rows where a column differs are written and stamped. */
  function UpdatedEquip(e: Equip, row: Option<Snap>, ok: Verification, now: int): Equip {
    if row.None? then e
    else
      var n := e.(values := row.value.values, refs := TranslatedAll(row.value.refs, e.refs, ok));
      if n == e then e else n.(updatedAt := now)
  }

  function UpdatedEquips(eqs: Equips, ok: Verification, topics: Topics, now: int): Equips {
    map id | id in eqs :: UpdatedEquip(eqs[id], RowOf(ok, topics, id), ok, now)
  }

  // ---- links ----

  /** The link rows by (equipment, reason); the value is their active flag. */
  type Links = map<(int, int), bool>

  function WantedPairs(links: seq<SnapLink>, ok: Verification, live: map<string, int>): set<(int, int)> {
    set i | 0 <= i < |links| && TargetOf(ok, links[i].base).Some? && IdOf(live, Some(links[i].code)).Some? ::
      (TargetOf(ok, links[i].base).value, IdOf(live, Some(links[i].code)).value)
  }

  /** Links of verified equipments that are not wanted go; wanted ones that are missing come, active. */
  function Relinked(db: Links, want: set<(int, int)>, verified: set<int>): Links {
    (map p | p in db && (p.0 !in verified || p in want) :: db[p]) + map p | p in want && p !in db :: true
  }

  function VerifiedTargets(ok: Verification): set<int> { set b | b in ok :: ok[b].tgt }

  // ---- the transaction ----

  /** The target's tables. */
  class Target {
    const topics: Topics
    var equipments: Equips
    var reasons: Reasons
    var links: Links
    var nextReason: int

    constructor (topics: Topics, equipments: Equips, reasons: Reasons, links: Links, nextReason: int)
      ensures this.topics == topics && this.equipments == equipments && this.reasons == reasons
      ensures this.links == links && this.nextReason == nextReason
    {
      this.topics, this.equipments, this.reasons, this.links, this.nextReason :=
        topics, equipments, reasons, links, nextReason;
    }

    /** Deactivate what staging no longer has, then update what changed. */
    method CleanReasons(catalog: Catalog, now: int)
      requires UniqueLive(reasons)
      modifies this`reasons
      ensures reasons == Cleaned(old(reasons), catalog, now)
      ensures UniqueLive(reasons) && reasons.Keys == old(reasons).Keys && ColumnsMatch(reasons, catalog)
      ensures forall id :: id in reasons ==>
        && reasons[id].code == old(reasons)[id].code
        && (Live(reasons[id]) <==> Live(old(reasons)[id]) && old(reasons)[id].code in catalog)
        && (!Live(old(reasons)[id]) ==> reasons[id] == old(reasons)[id])
    {
      CleanedRows(reasons, catalog, now);
      hide LiveByCode, Revised, ColumnsMatch;
      DeactivatedKeeps(reasons, catalog, now);
      reasons := Deactivated(reasons, catalog, now);
      hide UniqueLive, Deactivated;
      reasons := Revised(reasons, catalog, LiveByCode(reasons), now);
    }

    /** Insert the missing reasons of level 1, or of the other levels, with ids from the sequence. */
    method InsertReasons(order: seq<string>, catalog: Catalog, levelOne: bool, now: int)
      requires CatalogValid(catalog) && Lists(order, catalog) && UniqueLive(reasons) && Below(reasons, nextReason)
      modifies this`reasons, this`nextReason
      ensures reasons == InsertStep(old(reasons), order, catalog, levelOne, old(nextReason), now)
      ensures nextReason == old(nextReason) + |order|
      ensures UniqueLive(reasons) && Below(reasons, nextReason) && Extends(reasons, old(reasons), catalog)
      ensures forall c :: c in catalog && InStep(catalog[c], levelOne) ==> c in LiveByCode(reasons)
      ensures forall id :: id in reasons && id !in old(reasons) ==>
        IsNewRow(reasons[id], old(reasons), catalog, levelOne, now)
    {
      hide LiveByCode, UniqueLive, Lists, CatalogValid, Below, Inserted, Extends, InStep;
      InsertedKeeps(reasons, order, catalog, levelOne, nextReason, now);
      InsertStepCovers(reasons, order, catalog, levelOne, nextReason, now);
      NewRowsOfStep(reasons, order, catalog, levelOne, nextReason, now);
      reasons := Inserted(reasons, order, catalog, LiveByCode(reasons), levelOne, nextReason, now);
      nextReason := nextReason + |order|;
    }

    /** Step 2: clean up, insert level 1, insert the other levels, set the parents that came late. */
    method SyncReasons(order: seq<string>, catalog: Catalog, now: int)
      requires CatalogValid(catalog) && Lists(order, catalog) && UniqueLive(reasons) && Below(reasons, nextReason)
      modifies this`reasons, this`nextReason
      ensures reasons == Synced(old(reasons), order, catalog, old(nextReason), now)
      ensures UniqueLive(reasons) && Below(reasons, nextReason)
    {
      hide LiveByCode, UniqueLive, Lists, CatalogValid, Cleaned, InsertStep, Inserted, Reparented;
      KeysStayBelow(reasons, Cleaned(reasons, catalog, now), nextReason);
      CleanReasons(catalog, now);
      hide Below;
      InsertReasons(order, catalog, true, now);
      InsertReasons(order, catalog, false, now);
      ReparentedKeeps(reasons, catalog, now);
      KeysStayBelow(reasons, Reparented(reasons, catalog, LiveByCode(reasons), now), nextReason);
      reasons := Reparented(reasons, catalog, LiveByCode(reasons), now);
    }

    /** Refuses a database whose enterprise has another name; the identity is settled before anything is written. */
    method Apply(nameMatches: bool, snaps: seq<Snap>, order: seq<string>, catalog: Catalog, wanted: seq<SnapLink>,
                 now: int)
      returns (ok: Verification)
      requires CatalogValid(catalog) && Lists(order, catalog) && UniqueLive(reasons) && Below(reasons, nextReason)
      modifies this
      ensures !nameMatches ==>
        equipments == old(equipments) && reasons == old(reasons) && links == old(links) && nextReason == old(nextReason)
      ensures nameMatches ==> IsVerification(ok, snaps, old(equipments), topics)
      ensures nameMatches ==> equipments == UpdatedEquips(old(equipments), ok, topics, now)
      ensures nameMatches ==> reasons == Synced(old(reasons), order, catalog, old(nextReason), now)
      ensures UniqueLive(reasons) && Below(reasons, nextReason)
      ensures nameMatches ==>
        links == Relinked(old(links), WantedPairs(wanted, ok, LiveByCode(reasons)), VerifiedTargets(ok))
    {
      hide LiveByCode, UniqueLive, Lists, CatalogValid, IsVerification, UpdatedEquips, Below, Synced, Relinked,
        WantedPairs, VerifiedTargets;
      ok := map[];
      if !nameMatches { return; }
      ok := Verify(snaps, equipments, topics);
      equipments := UpdatedEquips(equipments, ok, topics, now);
      SyncReasons(order, catalog, now);
      links := Relinked(links, WantedPairs(wanted, ok, LiveByCode(reasons)), VerifiedTargets(ok));
    }
  }

  lemma {:induction false} CleanedRows(rs: Reasons, catalog: Catalog, now: int)
    requires UniqueLive(rs)
    ensures forall id :: id in rs ==>
      && Cleaned(rs, catalog, now)[id].code == rs[id].code
      && (Live(Cleaned(rs, catalog, now)[id]) <==> Live(rs[id]) && rs[id].code in catalog)
      && (!Live(rs[id]) ==> Cleaned(rs, catalog, now)[id] == rs[id])
  {
    forall id | id in rs { CleanedRow(rs, catalog, now, id); }
    hide Cleaned;
  }

  lemma {:induction false} InsertStepCovers(rs: Reasons, order: seq<string>, catalog: Catalog, levelOne: bool,
                                            next: int, now: int)
    requires CatalogValid(catalog) && Lists(order, catalog) && UniqueLive(rs) && Below(rs, next)
    ensures forall c :: c in catalog && InStep(catalog[c], levelOne) ==>
      c in LiveByCode(InsertStep(rs, order, catalog, levelOne, next, now))
  {
    hide LiveByCode, Inserted, UniqueLive, Lists, CatalogValid, Below;
    var r := InsertStep(rs, order, catalog, levelOne, next, now);
    forall c | c in catalog && InStep(catalog[c], levelOne) ensures c in LiveByCode(r) {
      InsertedCovers(rs, order, catalog, levelOne, next, now, c);
      var id :| id in r && Live(r[id]) && r[id].code == c;
      LiveAt(r, id);
    }
  }

  // ---- what an apply does to equipments ----

  /** The verified row of an equipment is the one of the pair it is verified in. */
  lemma {:induction false} RowOfIff(ok: Verification, snaps: seq<Snap>, eqs: Equips, topics: Topics, id: int, s: Snap)
    requires IsVerification(ok, snaps, eqs, topics)
    ensures RowOf(ok, topics, id) == Some(s) <==>
      exists i :: 0 <= i < |snaps| && snaps[i] == s && VerifiedPair(snaps, eqs, topics, i, id)
  {
    if RowOf(ok, topics, id) == Some(s) {
      var i :| 0 <= i < |snaps| && snaps[i] == ok[topics[id]].snap &&
        VerifiedPair(snaps, eqs, topics, i, ok[topics[id]].tgt);
    }
  }

  /** An equipment that failed identity keeps every column. */
  lemma {:induction false} UnverifiedIsUntouched(ok: Verification, snaps: seq<Snap>, eqs: Equips, topics: Topics,
                                                 now: int, id: int)
    requires IsVerification(ok, snaps, eqs, topics) && id in eqs
    requires forall i :: 0 <= i < |snaps| ==> !VerifiedPair(snaps, eqs, topics, i, id)
    ensures UpdatedEquips(eqs, ok, topics, now).Keys == eqs.Keys && UpdatedEquips(eqs, ok, topics, now)[id] == eqs[id]
  {
    forall s: Snap ensures RowOf(ok, topics, id) != Some(s) { RowOfIff(ok, snaps, eqs, topics, id, s); }
  }

  /** A verified equipment takes staging's values, keeps its identity columns, and is stamped exactly when it
      changed. */
  lemma {:induction false} VerifiedTakesStaging(ok: Verification, snaps: seq<Snap>, eqs: Equips, topics: Topics,
                                                now: int, i: nat, id: int)
    requires IsVerification(ok, snaps, eqs, topics) && i < |snaps| && VerifiedPair(snaps, eqs, topics, i, id)
    ensures var e := UpdatedEquips(eqs, ok, topics, now)[id];
      && e.values == snaps[i].values
      && e.ent == eqs[id].ent && e.tp == eqs[id].tp && e.nm == eqs[id].nm && e.cd == eqs[id].cd &&
        |e.refs| == |eqs[id].refs|
      && e.updatedAt == (if e.values == eqs[id].values && e.refs == eqs[id].refs then eqs[id].updatedAt else now)
  {
    RowOfIff(ok, snaps, eqs, topics, id, snaps[i]);
  }

  /** A machine reference ends null where staging's is null, at the verified counterpart of the equipment staging names,
      and at the target's own value when that equipment has no verified counterpart. */
  lemma {:induction false} ReferencesFollowTheMatch(ok: Verification, snaps: seq<Snap>, eqs: Equips, topics: Topics,
                                                    now: int, i: nat, id: int, c: nat)
    requires IsVerification(ok, snaps, eqs, topics) && i < |snaps| && VerifiedPair(snaps, eqs, topics, i, id)
    requires c < |snaps[i].refs| && c < |eqs[id].refs|
    ensures var e := UpdatedEquips(eqs, ok, topics, now)[id];
      && c < |e.refs|
      && (snaps[i].refs[c].None? ==> e.refs[c].None?)
      && (forall j, b :: (&& 0 <= j < |snaps| && VerifiedPair(snaps, eqs, topics, j, b)
                          && snaps[i].refs[c].Some? && snaps[i].refs[c].value.base == snaps[j].base) ==>
                            e.refs[c] == Some(b))
      && (snaps[i].refs[c].Some? &&
          (forall j, b :: 0 <= j < |snaps| && VerifiedPair(snaps, eqs, topics, j, b) ==>
            snaps[i].refs[c].value.base != snaps[j].base)
          ==> e.refs[c] == eqs[id].refs[c])
  {
    hide Agree;
    RowOfIff(ok, snaps, eqs, topics, id, snaps[i]);
  }

  lemma {:induction false} UpdatedTwice(e: Equip, row: Option<Snap>, ok: Verification, now: int, later: int)
    ensures UpdatedEquip(UpdatedEquip(e, row, ok, now), row, ok, later) == UpdatedEquip(e, row, ok, now)
  {
    if row.Some? {
      var n := UpdatedEquip(e, row, ok, now);
      assert TranslatedAll(row.value.refs, n.refs, ok) == n.refs;
    }
  }

  lemma {:induction false} UpdatedEquipsTwice(eqs: Equips, ok: Verification, topics: Topics, now: int, later: int)
    ensures var u := UpdatedEquips(eqs, ok, topics, now); UpdatedEquips(u, ok, topics, later) == u
  {
    forall id | id in eqs {
      UpdatedTwice(eqs[id], RowOf(ok, topics, id), ok, now, later);
    }
    hide UpdatedEquip, RowOf;
  }

  /** An apply writes no column that identity looks at. */
  lemma {:induction false} SamePairs(snaps: seq<Snap>, eqs: Equips, ok: Verification, topics: Topics, now: int, i: nat,
                                     id: int)
    requires i < |snaps|
    ensures VerifiedPair(snaps, UpdatedEquips(eqs, ok, topics, now), topics, i, id) <==>
      VerifiedPair(snaps, eqs, topics, i, id)
  {
    var u := UpdatedEquips(eqs, ok, topics, now);
    if snaps[i].base.Some? {
      forall other ensures At(u, topics, other, snaps[i].base.value) <==> At(eqs, topics, other, snaps[i].base.value) {}
    }
    hide At;
  }

  lemma {:induction false} VerificationIsUnique(a: Verification, b: Verification, snaps: seq<Snap>, eqs: Equips,
                                                topics: Topics)
    requires IsVerification(a, snaps, eqs, topics) && IsVerification(b, snaps, eqs, topics)
    ensures a == b
  {
    hide VerifiedPair;
    assert forall k :: k in a ==> k in b && a[k] == b[k];
    assert forall k :: k in b ==> k in a;
  }

  /** The next apply verifies the same pairs. */
  lemma {:induction false} VerificationSurvives(ok: Verification, snaps: seq<Snap>, eqs: Equips, topics: Topics,
                                                now: int)
    requires IsVerification(ok, snaps, eqs, topics)
    ensures IsVerification(ok, snaps, UpdatedEquips(eqs, ok, topics, now), topics)
  {
    forall i, id | 0 <= i < |snaps| { SamePairs(snaps, eqs, ok, topics, now, i, id); }
    hide VerifiedPair, UpdatedEquips;
  }

  // ---- what an apply does to links ----

  lemma {:induction false} WantedIff(links: seq<SnapLink>, ok: Verification, live: map<string, int>, p: (int, int))
    ensures p in WantedPairs(links, ok, live) <==>
      exists k :: 0 <= k < |links| && TargetOf(ok, links[k].base) == Some(p.0) &&
        IdOf(live, Some(links[k].code)) == Some(p.1)
  {
  }

  /** Links of equipments that failed identity keep their rows. */
  lemma {:induction false} UnverifiedLinksAreUntouched(db: Links, links: seq<SnapLink>, ok: Verification,
                                                       live: map<string, int>, p: (int, int))
    requires p.0 !in VerifiedTargets(ok)
    ensures var r := Relinked(db, WantedPairs(links, ok, live), VerifiedTargets(ok));
      (p in r <==> p in db) && (p in db ==> r[p] == db[p])
  {
    WantedIff(links, ok, live, p);
    hide WantedPairs;
  }

  /** After an apply a verified equipment is linked to exactly the active reasons whose code staging links it to; a link
      that was already there keeps its active flag, so it ends inactive exactly when it was there and inactive. */
  lemma {:induction false} VerifiedLinksEqualStaging(db: Links, links: seq<SnapLink>, ok: Verification,
                                                     snaps: seq<Snap>, eqs: Equips, topics: Topics, rs: Reasons, i: nat,
                                                     id: int, reason: int)
    requires IsVerification(ok, snaps, eqs, topics) && UniqueLive(rs)
    requires i < |snaps| && VerifiedPair(snaps, eqs, topics, i, id)
    ensures var r := Relinked(db, WantedPairs(links, ok, LiveByCode(rs)), VerifiedTargets(ok));
      && ((id, reason) in r <==>
            reason in rs && Live(rs[reason]) && SnapLink(snaps[i].base, rs[reason].code) in links)
      && ((id, reason) in r ==> (!r[(id, reason)] <==> (id, reason) in db && !db[(id, reason)]))
  {
    var p := (id, reason);
    var live := LiveByCode(rs);
    WantedIff(links, ok, live, p);
    assert id in VerifiedTargets(ok) by { assert snaps[i].base.value in ok; }
    LinkCodes(links, ok, snaps, eqs, topics, rs, i, id, reason);
    hide WantedPairs, IsVerification, UniqueLive, LiveByCode, VerifiedTargets, VerifiedPair;
  }

  lemma {:induction false} LinkCodes(links: seq<SnapLink>, ok: Verification, snaps: seq<Snap>, eqs: Equips,
                                     topics: Topics, rs: Reasons, i: nat, id: int, reason: int)
    requires IsVerification(ok, snaps, eqs, topics) && UniqueLive(rs)
    requires i < |snaps| && VerifiedPair(snaps, eqs, topics, i, id)
    ensures (exists k :: 0 <= k < |links| && TargetOf(ok, links[k].base) == Some(id) &&
                         IdOf(LiveByCode(rs), Some(links[k].code)) == Some(reason)) <==>
            (reason in rs && Live(rs[reason]) && SnapLink(snaps[i].base, rs[reason].code) in links)
  {
    forall k | 0 <= k < |links|
      ensures TargetOf(ok, links[k].base) == Some(id) <==> links[k].base == snaps[i].base
      ensures IdOf(LiveByCode(rs), Some(links[k].code)) == Some(reason) <==>
              (reason in rs && Live(rs[reason]) && rs[reason].code == links[k].code)
    {
      TargetIff(ok, snaps, eqs, topics, i, id, links[k].base);
      CodeIff(rs, links[k].code, reason);
    }
    hide IsVerification, UniqueLive, LiveByCode, VerifiedPair, TargetOf, IdOf;
  }

  lemma {:induction false} TargetIff(ok: Verification, snaps: seq<Snap>, eqs: Equips, topics: Topics, i: nat, id: int,
                                     base: Option<string>)
    requires IsVerification(ok, snaps, eqs, topics) && i < |snaps| && VerifiedPair(snaps, eqs, topics, i, id)
    ensures TargetOf(ok, base) == Some(id) <==> base == snaps[i].base
  {
    if TargetOf(ok, base) == Some(id) {
      var j :| 0 <= j < |snaps| && snaps[j].base == base && VerifiedPair(snaps, eqs, topics, j, id);
      VerifiedIsOneToOne(ok, snaps, eqs, topics, i, j, id, id);
    }
  }

  lemma {:induction false} RelinkedTwice(db: Links, want: set<(int, int)>, verified: set<int>)
    ensures var r := Relinked(db, want, verified); Relinked(r, want, verified) == r
  {
  }

  // ---- the whole transaction ----

  /** A second apply of the same snapshot, at any later time, changes nothing: it can only verify the same pairs, and
      leaves the same equipments, reasons and links. */
  lemma {:induction false} SecondApplyChangesNothing(snaps: seq<Snap>, order: seq<string>, catalog: Catalog,
                                                     wanted: seq<SnapLink>, topics: Topics, eqs: Equips, rs: Reasons,
                                                     db: Links, ok: Verification, next: int, now: int, nextAgain: int,
                                                     later: int)
    requires CatalogValid(catalog) && Lists(order, catalog) && UniqueLive(rs) && Below(rs, next)
    requires IsVerification(ok, snaps, eqs, topics) && nextAgain >= next + 2 * |order|
    ensures var e := UpdatedEquips(eqs, ok, topics, now);
      && IsVerification(ok, snaps, e, topics) &&
        (forall again :: IsVerification(again, snaps, e, topics) ==> again == ok)
      && UpdatedEquips(e, ok, topics, later) == e
    ensures var r := Synced(rs, order, catalog, next, now);
      && Below(r, nextAgain) && Synced(r, order, catalog, nextAgain, later) == r
      && var l := Relinked(db, WantedPairs(wanted, ok, LiveByCode(r)), VerifiedTargets(ok));
         Relinked(l, WantedPairs(wanted, ok, LiveByCode(Synced(r, order, catalog, nextAgain, later))),
           VerifiedTargets(ok)) == l
  {
    var e := UpdatedEquips(eqs, ok, topics, now);
    VerificationSurvives(ok, snaps, eqs, topics, now);
    forall again | IsVerification(again, snaps, e, topics) ensures again == ok {
      VerificationIsUnique(ok, again, snaps, e, topics);
    }
    UpdatedEquipsTwice(eqs, ok, topics, now, later);
    SyncSettles(rs, order, catalog, next, now);
    var r := Synced(rs, order, catalog, next, now);
    SyncedStaysBelow(rs, order, catalog, next, now);
    assert Below(r, nextAgain);
    SettledIsFixed(r, order, catalog, nextAgain, later);
    RelinkedTwice(db, WantedPairs(wanted, ok, LiveByCode(r)), VerifiedTargets(ok));
    hide IsVerification, UpdatedEquips, Synced, Settled, Relinked, WantedPairs, VerifiedTargets, LiveByCode, UniqueLive;
  }

  lemma {:induction false} SyncedStaysBelow(rs: Reasons, order: seq<string>, catalog: Catalog, next: int, now: int)
    requires CatalogValid(catalog) && Lists(order, catalog) && UniqueLive(rs) && Below(rs, next)
    ensures Below(Synced(rs, order, catalog, next, now), next + 2 * |order|)
  {
    hide LiveByCode, UniqueLive, Lists, CatalogValid, Cleaned, InsertStep, Inserted;
    var b := Cleaned(rs, catalog, now);
    KeysStayBelow(rs, b, next);
    hide Below;
    var d := InsertStep(InsertStep(b, order, catalog, true, next, now), order, catalog, false, next + |order|, now);
    ReparentedKeeps(d, catalog, now);
    KeysStayBelow(d, Reparented(d, catalog, LiveByCode(d), now), next + 2 * |order|);
    hide Reparented;
  }

  /** One verified equipment with one wanted link that is there and inactive: an apply leaves it inactive. */
  lemma {:induction false} InactiveLinkStays(attrs: Attrs)
    ensures var s := Snap(1, Some("t"), None, None, None, [], []);
      var eqs: Equips := map[7 := Equip(ENT, None, None, None, [], [], 0)];
      var topics: Topics := map[7 := "t"];
      var ok: Verification := map["t" := Match(7, s)];
      var rs: Reasons := map[5 := Reason(ENT, "c", attrs, None, true, None, 0)];
      var db: Links := map[(7, 5) := false];
      && IsVerification(ok, [s], eqs, topics) && UniqueLive(rs)
      && var r := Relinked(db, WantedPairs([SnapLink(Some("t"), "c")], ok, LiveByCode(rs)), VerifiedTargets(ok));
         (7, 5) in r && !r[(7, 5)]
  {
    var s := Snap(1, Some("t"), None, None, None, [], []);
    var eqs: Equips := map[7 := Equip(ENT, None, None, None, [], [], 0)];
    var topics: Topics := map[7 := "t"];
    var ok: Verification := map["t" := Match(7, s)];
    var rs: Reasons := map[5 := Reason(ENT, "c", attrs, None, true, None, 0)];
    var link := SnapLink(Some("t"), "c");
    assert VerifiedPair([s], eqs, topics, 0, 7);
    assert link in [link];
    VerifiedLinksEqualStaging(map[(7, 5) := false], [link], ok, [s], eqs, topics, rs, 0, 7, 5);
    hide Relinked, WantedPairs, LiveByCode;
  }
}
