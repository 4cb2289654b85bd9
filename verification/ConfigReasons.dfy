/** CPACK config sync, reason catalogue: deactivate, revise, insert in two levels, then set parents
    (cpack-config-sync.py). */
module ConfigReasons {
  import opened ConfigIdentity
  import opened Wrappers

  // ---- the statements ----

  /** The compared columns of a reason; the level decides the insert step, and a null level is in neither. */
  datatype Attrs = Attrs(level: Option<int>, body: string)
  datatype Reason = Reason(ent: int, code: string, attrs: Attrs, parent: Option<int>, active: bool,
                           validTo: Option<int>, updatedAt: int)
  datatype SnapReason = SnapReason(code: string, attrs: Attrs, parentCode: Option<string>)
  type Reasons = map<int, Reason>
  type Catalog = map<string, SnapReason>

  predicate Live(r: Reason) { r.ent == ENT && r.active }

  /** The unique index on (enterprise, code) of active rows. */
  ghost predicate UniqueLive(rs: Reasons) {
    forall a, b :: a in rs && b in rs && Live(rs[a]) && Live(rs[b]) && rs[a].code == rs[b].code ==> a == b
  }

  ghost predicate CatalogValid(snap: Catalog) { forall c :: c in snap ==> snap[c].code == c }

  /** The active rows by code. */
  function LiveByCode(rs: Reasons): map<string, int>
    requires UniqueLive(rs)
  {
    map id | id in rs && Live(rs[id]) :: rs[id].code := id
  }

  function IdOf(live: map<string, int>, code: Option<string>): Option<int> {
    if code.Some? && code.value in live then Some(live[code.value]) else None
  }

  function Deactivated(rs: Reasons, snap: Catalog, now: int): Reasons {
    map id | id in rs :: if Live(rs[id]) && rs[id].code !in snap
                         then rs[id].(active := false, validTo := Some(now), updatedAt := now) else rs[id]
  }

  predicate Differs(r: Reason, snap: Catalog) { Live(r) && r.code in snap && r.attrs != snap[r.code].attrs }

  /** Changed rows take the snapshot's columns and the parent that is active at this point. */
  function Revised(rs: Reasons, snap: Catalog, live: map<string, int>, now: int): Reasons {
    map id | id in rs ::
      if Differs(rs[id], snap) then
        var s := snap[rs[id].code];
        rs[id].(attrs := s.attrs, parent := IdOf(live, s.parentCode), updatedAt := now)
      else rs[id]
  }

  /** Level 1, or every other level: a null is neither equal to 1 nor different from it. */
  predicate InStep(s: SnapReason, levelOne: bool) {
    s.attrs.level.Some? && (s.attrs.level.value == 1) == levelOne
  }

  /** The rows one insert statement adds: the missing codes of its levels, in snapshot order. */
  predicate Missing(order: seq<string>, i: int, snap: Catalog, live: map<string, int>, levelOne: bool) {
    0 <= i < |order| && order[i] in snap && order[i] !in live && InStep(snap[order[i]], levelOne)
  }

  predicate NewId(id: int, next: int, order: seq<string>, snap: Catalog, live: map<string, int>, levelOne: bool) {
    Missing(order, id - next, snap, live, levelOne)
  }

  function NewRow(s: SnapReason, levelOne: bool, live: map<string, int>, now: int): Reason {
    Reason(ENT, s.code, s.attrs, if levelOne then None else IdOf(live, s.parentCode), true, None, now)
  }

  /** Fresh ids come from the sequence: next, next + 1, … */
  function Inserted(rs: Reasons, order: seq<string>, snap: Catalog, live: map<string, int>, levelOne: bool, next: int,
                    now: int): Reasons {
    rs + map id | next <= id < next + |order| && NewId(id, next, order, snap, live, levelOne) ::
           NewRow(snap[order[id - next]], levelOne, live, now)
  }

  predicate Misplaced(r: Reason, snap: Catalog, live: map<string, int>) {
    Live(r) && r.code in snap && IdOf(live, snap[r.code].parentCode).Some? &&
      r.parent != IdOf(live, snap[r.code].parentCode)
  }

  /** Parents that came after their children: only a parent that exists is set, none is cleared. */
  function Reparented(rs: Reasons, snap: Catalog, live: map<string, int>, now: int): Reasons {
    map id | id in rs :: if Misplaced(rs[id], snap, live)
                         then rs[id].(parent := IdOf(live, snap[rs[id].code].parentCode), updatedAt := now) else rs[id]
  }

  // ---- each step keeps the active rows unique ----

  lemma {:induction false} LiveAt(rs: Reasons, id: int)
    requires UniqueLive(rs) && id in rs && Live(rs[id])
    ensures rs[id].code in LiveByCode(rs) && LiveByCode(rs)[rs[id].code] == id
  {
  }

  lemma {:induction false} LiveOf(rs: Reasons, c: string)
    requires UniqueLive(rs) && c in LiveByCode(rs)
    ensures var id := LiveByCode(rs)[c]; id in rs && Live(rs[id]) && rs[id].code == c
  {
  }

  /** Tables that agree on which rows are active, and on their codes, have the same active row for each code. */
  lemma {:induction false} SameLiveByCode(a: Reasons, b: Reasons)
    requires UniqueLive(a) && a.Keys == b.Keys
    requires forall id :: id in a ==> Live(a[id]) == Live(b[id]) && a[id].code == b[id].code
    ensures UniqueLive(b) && LiveByCode(b) == LiveByCode(a)
  {
    forall c ensures c in LiveByCode(a) <==> c in LiveByCode(b) {
      if c in LiveByCode(a) { LiveOf(a, c); LiveAt(b, LiveByCode(a)[c]); }
      if c in LiveByCode(b) { LiveOf(b, c); LiveAt(a, LiveByCode(b)[c]); }
    }
    forall c | c in LiveByCode(a) ensures LiveByCode(a)[c] == LiveByCode(b)[c] {
      LiveOf(a, c);
      LiveAt(b, LiveByCode(a)[c]);
    }
  }

  ghost predicate Lists(order: seq<string>, snap: Catalog) {
    && (forall i, j :: 0 <= i < j < |order| ==> order[i] != order[j])
    && forall c :: c in order <==> c in snap
  }

  ghost predicate Below(rs: Reasons, next: int) { forall id :: id in rs ==> id < next }

  /** Every active code is the snapshot's, with the snapshot's columns. */
  ghost predicate ColumnsMatch(rs: Reasons, snap: Catalog) {
    forall id :: id in rs && Live(rs[id]) ==> rs[id].code in snap && rs[id].attrs == snap[rs[id].code].attrs
  }

  /** The rows of an insert: the old ones, and one per missing code. */
  lemma {:induction false} InsertedRow(rs: Reasons, order: seq<string>, snap: Catalog, live: map<string, int>,
                                       levelOne: bool, next: int, now: int, id: int)
    requires CatalogValid(snap) && Below(rs, next)
    ensures var r := Inserted(rs, order, snap, live, levelOne, next, now);
      && (id in rs ==> id in r && r[id] == rs[id])
      && (id in r && id !in rs ==>
            && next <= id < next + |order| && Missing(order, id - next, snap, live, levelOne)
            && r[id] == NewRow(snap[order[id - next]], levelOne, live, now))
      && (next <= id < next + |order| && Missing(order, id - next, snap, live, levelOne) ==> id in r && id !in rs)
  {
    assert NewId(id, next, order, snap, live, levelOne) == Missing(order, id - next, snap, live, levelOne);
  }

  ghost predicate Extends(r: Reasons, rs: Reasons, snap: Catalog)
    requires UniqueLive(rs)
  {
    && (forall id :: id in rs ==> id in r && r[id] == rs[id])
    && (forall id :: id in r && id !in rs ==>
          Live(r[id]) && r[id].code in snap && r[id].attrs == snap[r[id].code].attrs && r[id].attrs.level.Some?)
    && (forall id :: id in r && id !in rs ==> r[id].code !in LiveByCode(rs))
  }

  lemma {:induction false} InsertedKeeps(rs: Reasons, order: seq<string>, snap: Catalog, levelOne: bool, next: int,
                                         now: int)
    requires CatalogValid(snap) && Lists(order, snap) && UniqueLive(rs) && Below(rs, next)
    ensures var r := Inserted(rs, order, snap, LiveByCode(rs), levelOne, next, now);
      UniqueLive(r) && Below(r, next + |order|) && Extends(r, rs, snap)
  {
    hide LiveByCode, Inserted;
    var live := LiveByCode(rs);
    var r := Inserted(rs, order, snap, live, levelOne, next, now);
    forall id
      ensures id in rs ==> id in r && r[id] == rs[id]
      ensures id in r && id !in rs ==>
        next <= id < next + |order| && Live(r[id]) && r[id].code == order[id - next] && r[id].code !in live &&
        r[id].code in snap && r[id].attrs == snap[r[id].code].attrs && r[id].attrs.level.Some?
    {
      InsertedRow(rs, order, snap, live, levelOne, next, now, id);
    }
    forall a | a in rs && Live(rs[a]) ensures rs[a].code in live { LiveAt(rs, a); }
  }

  lemma {:induction false} InsertedCovers(rs: Reasons, order: seq<string>, snap: Catalog, levelOne: bool, next: int,
                                          now: int, c: string)
    requires CatalogValid(snap) && Lists(order, snap) && UniqueLive(rs) && Below(rs, next)
    requires c in snap && InStep(snap[c], levelOne)
    ensures var r := Inserted(rs, order, snap, LiveByCode(rs), levelOne, next, now);
      exists id :: id in r && Live(r[id]) && r[id].code == c
  {
    hide LiveByCode, Inserted;
    var live := LiveByCode(rs);
    if c in live {
      LiveOf(rs, c);
      InsertedRow(rs, order, snap, live, levelOne, next, now, live[c]);
    } else {
      var i :| 0 <= i < |order| && order[i] == c;
      assert Missing(order, i, snap, live, levelOne);
      InsertedRow(rs, order, snap, live, levelOne, next, now, next + i);
    }
  }

  lemma {:induction false} DeactivatedKeeps(rs: Reasons, snap: Catalog, now: int)
    requires UniqueLive(rs)
    ensures UniqueLive(Deactivated(rs, snap, now)) && Deactivated(rs, snap, now).Keys == rs.Keys
    ensures forall id :: id in rs && Live(Deactivated(rs, snap, now)[id]) ==>
      Live(rs[id]) && rs[id].code in snap && Deactivated(rs, snap, now)[id] == rs[id]
  {
  }

  lemma {:induction false} RevisedKeeps(rs: Reasons, snap: Catalog, now: int)
    requires UniqueLive(rs) && forall id :: id in rs && Live(rs[id]) ==> rs[id].code in snap
    ensures var r := Revised(rs, snap, LiveByCode(rs), now);
      r.Keys == rs.Keys && UniqueLive(r) && LiveByCode(r) == LiveByCode(rs) && ColumnsMatch(r, snap)
  {
    SameLiveByCode(rs, Revised(rs, snap, LiveByCode(rs), now));
  }

  lemma {:induction false} ReparentedKeeps(rs: Reasons, snap: Catalog, now: int)
    requires UniqueLive(rs)
    ensures var r := Reparented(rs, snap, LiveByCode(rs), now);
      r.Keys == rs.Keys && UniqueLive(r) && LiveByCode(r) == LiveByCode(rs)
  {
    SameLiveByCode(rs, Reparented(rs, snap, LiveByCode(rs), now));
  }

  // ---- the catalogue after an apply ----

  /** Deactivate, then revise. */
  function Cleaned(rs: Reasons, snap: Catalog, now: int): (r: Reasons)
    requires UniqueLive(rs)
    ensures UniqueLive(r) && r.Keys == rs.Keys && ColumnsMatch(r, snap)
  {
    DeactivatedKeeps(rs, snap, now);
    var a := Deactivated(rs, snap, now);
    RevisedKeeps(a, snap, now);
    Revised(a, snap, LiveByCode(a), now)
  }

  function InsertStep(rs: Reasons, order: seq<string>, snap: Catalog, levelOne: bool, next: int, now: int): (r: Reasons)
    requires CatalogValid(snap) && Lists(order, snap) && UniqueLive(rs) && Below(rs, next)
    ensures UniqueLive(r) && Below(r, next + |order|)
  {
    InsertedKeeps(rs, order, snap, levelOne, next, now);
    Inserted(rs, order, snap, LiveByCode(rs), levelOne, next, now)
  }

  /** Insert level 1, then the other levels. */
  function Filled(rs: Reasons, order: seq<string>, snap: Catalog, next: int, now: int): (r: Reasons)
    requires CatalogValid(snap) && Lists(order, snap) && UniqueLive(rs) && Below(rs, next)
    ensures UniqueLive(r)
  {
    InsertStep(InsertStep(rs, order, snap, true, next, now), order, snap, false, next + |order|, now)
  }

  function Synced(rs: Reasons, order: seq<string>, snap: Catalog, next: int, now: int): (r: Reasons)
    requires CatalogValid(snap) && Lists(order, snap) && UniqueLive(rs) && Below(rs, next)
    ensures UniqueLive(r)
  {
    var d := Filled(Cleaned(rs, snap, now), order, snap, next, now);
    ReparentedKeeps(d, snap, now);
    Reparented(d, snap, LiveByCode(d), now)
  }

  /** Each active row sits below the active row of its parent's code, when there is one. */
  ghost predicate Placed(rs: Reasons, snap: Catalog)
    requires UniqueLive(rs)
  {
    forall id :: id in rs ==> !Misplaced(rs[id], snap, LiveByCode(rs))
  }

  /** Every code of the snapshot that has a level is active. */
  ghost predicate Complete(rs: Reasons, snap: Catalog)
    requires UniqueLive(rs)
  {
    forall c :: c in snap && snap[c].attrs.level.Some? ==> c in LiveByCode(rs)
  }

  /** What an apply leaves: only the snapshot's codes are active, all that have a level, with its columns, in their
      place. */
  ghost predicate Settled(rs: Reasons, snap: Catalog) {
    UniqueLive(rs) && ColumnsMatch(rs, snap) && Placed(rs, snap) && Complete(rs, snap)
  }

  lemma {:induction false} FilledKeeps(rs: Reasons, order: seq<string>, snap: Catalog, next: int, now: int)
    requires CatalogValid(snap) && Lists(order, snap) && UniqueLive(rs) && Below(rs, next) && ColumnsMatch(rs, snap)
    ensures var d := Filled(rs, order, snap, next, now);
      && ColumnsMatch(d, snap) && (forall id :: id in rs ==> id in d && d[id] == rs[id])
      && forall id :: id in d && id !in rs ==> d[id].attrs.level.Some?
  {
    hide LiveByCode, Inserted, UniqueLive;
    InsertedKeeps(rs, order, snap, true, next, now);
    InsertedKeeps(InsertStep(rs, order, snap, true, next, now), order, snap, false, next + |order|, now);
  }

  lemma {:induction false} FilledCovers(rs: Reasons, order: seq<string>, snap: Catalog, next: int, now: int, c: string)
    requires CatalogValid(snap) && Lists(order, snap) && UniqueLive(rs) && Below(rs, next) && c in snap &&
      snap[c].attrs.level.Some?
    ensures c in LiveByCode(Filled(rs, order, snap, next, now))
  {
    hide LiveByCode, Inserted, UniqueLive;
    InsertedKeeps(rs, order, snap, true, next, now);
    var l := InsertStep(rs, order, snap, true, next, now);
    InsertedKeeps(l, order, snap, false, next + |order|, now);
    var d := Filled(rs, order, snap, next, now);
    if snap[c].attrs.level.value == 1 {
      InsertedCovers(rs, order, snap, true, next, now, c);
      var id :| id in l && Live(l[id]) && l[id].code == c;
      LiveAt(d, id);
    } else {
      InsertedCovers(l, order, snap, false, next + |order|, now, c);
      var id :| id in d && Live(d[id]) && d[id].code == c;
      LiveAt(d, id);
    }
  }

  /** The active reasons end with staging's columns and each child below its parent's active row, for every code that
      has a level. */
  lemma {:induction false} SyncSettles(rs: Reasons, order: seq<string>, snap: Catalog, next: int, now: int)
    requires CatalogValid(snap) && Lists(order, snap) && UniqueLive(rs) && Below(rs, next)
    ensures Settled(Synced(rs, order, snap, next, now), snap)
  {
    var b := Cleaned(rs, snap, now);
    FilledKeeps(b, order, snap, next, now);
    var d := Filled(b, order, snap, next, now);
    forall c | c in snap && snap[c].attrs.level.Some?
      ensures c in LiveByCode(d)
    {
      FilledCovers(b, order, snap, next, now, c);
    }
    ReparentedSettles(d, snap, now);
  }

  lemma {:induction false} ReparentedSettles(d: Reasons, snap: Catalog, now: int)
    requires UniqueLive(d) && ColumnsMatch(d, snap) && Complete(d, snap)
    ensures Settled(Reparented(d, snap, LiveByCode(d), now), snap)
  {
    ReparentedKeeps(d, snap, now);
    hide LiveByCode, UniqueLive;
  }

  /** A settled catalogue is left alone by every statement: a second apply changes nothing. */
  lemma {:induction false} SettledIsFixed(rs: Reasons, order: seq<string>, snap: Catalog, next: int, now: int)
    requires CatalogValid(snap) && Lists(order, snap) && Settled(rs, snap) && Below(rs, next)
    ensures Synced(rs, order, snap, next, now) == rs
  {
    ColumnsMatchIsClean(rs, snap, now);
    FilledIsFixed(rs, order, snap, next, now);
    PlacedIsFixed(rs, snap, now);
    hide LiveByCode, UniqueLive, Cleaned, Filled, Reparented, ColumnsMatch, Placed, Lists, Below, CatalogValid;
  }

  lemma {:induction false} FilledIsFixed(rs: Reasons, order: seq<string>, snap: Catalog, next: int, now: int)
    requires CatalogValid(snap) && Lists(order, snap) && UniqueLive(rs) && Below(rs, next)
    requires Complete(rs, snap)
    ensures Filled(rs, order, snap, next, now) == rs
  {
    InsertStepIsFixed(rs, order, snap, true, next, now);
    InsertStepIsFixed(rs, order, snap, false, next + |order|, now);
    hide LiveByCode, UniqueLive, Inserted, Lists, InsertStep, CatalogValid;
  }

  lemma {:induction false} InsertStepIsFixed(rs: Reasons, order: seq<string>, snap: Catalog, levelOne: bool, next: int,
                                             now: int)
    requires CatalogValid(snap) && Lists(order, snap) && UniqueLive(rs) && Below(rs, next)
    requires Complete(rs, snap)
    ensures InsertStep(rs, order, snap, levelOne, next, now) == rs
  {
    NothingMissing(rs, order, snap, levelOne, next, now);
    hide LiveByCode, UniqueLive, Inserted, Lists, CatalogValid, Below;
  }

  lemma {:induction false} ColumnsMatchIsClean(rs: Reasons, snap: Catalog, now: int)
    requires UniqueLive(rs) && ColumnsMatch(rs, snap)
    ensures Cleaned(rs, snap, now) == rs
  {
    hide LiveByCode;
    var a := Deactivated(rs, snap, now);
    forall id | id in rs ensures a[id] == rs[id] {}
    assert a == rs;
    var b := Revised(rs, snap, LiveByCode(rs), now);
    forall id | id in rs ensures b[id] == rs[id] {}
    assert b == rs;
  }

  lemma {:induction false} PlacedIsFixed(rs: Reasons, snap: Catalog, now: int)
    requires UniqueLive(rs) && Placed(rs, snap)
    ensures Reparented(rs, snap, LiveByCode(rs), now) == rs
  {
    hide LiveByCode, UniqueLive, Misplaced;
    var r := Reparented(rs, snap, LiveByCode(rs), now);
    forall id | id in rs ensures r[id] == rs[id] {}
  }

  lemma {:induction false} NothingMissing(rs: Reasons, order: seq<string>, snap: Catalog, levelOne: bool, next: int,
                                          now: int)
    requires Lists(order, snap) && UniqueLive(rs) && Complete(rs, snap)
    ensures Inserted(rs, order, snap, LiveByCode(rs), levelOne, next, now) == rs
  {
    hide LiveByCode, UniqueLive;
    forall i | 0 <= i < |order| ensures !Missing(order, i, snap, LiveByCode(rs), levelOne) {
      assert order[i] in order;
    }
  }

  /** What the statements after the clean-up do to one existing row: at most set its parent. */
  lemma {:induction false} SyncedRow(rs: Reasons, order: seq<string>, snap: Catalog, next: int, now: int, id: int)
    requires CatalogValid(snap) && Lists(order, snap) && UniqueLive(rs) && Below(rs, next) && id in rs
    ensures var b := Cleaned(rs, snap, now);
      var r := Synced(rs, order, snap, next, now);
      && id in b && id in r
      && r[id] == if Misplaced(b[id], snap, LiveByCode(r))
                  then b[id].(parent := IdOf(LiveByCode(r), snap[b[id].code].parentCode), updatedAt := now) else b[id]
  {
    var b := Cleaned(rs, snap, now);
    FilledKeeps(b, order, snap, next, now);
    ReparentedKeeps(Filled(b, order, snap, next, now), snap, now);
    hide LiveByCode, UniqueLive, Filled, Cleaned, Misplaced;
  }

  // ---- where each row ends, said of the catalogues alone ----

  /** The active row of enterprise 3 with this code. */
  ghost predicate Stands(rs: Reasons, id: int, code: Option<string>) {
    code.Some? && id in rs && rs[id].ent == 3 && rs[id].active && rs[id].code == code.value
  }

  /** The parent of a row is the active row of its parent's code, or `other` when there is none. */
  ghost predicate ParentIn(rs: Reasons, parent: Option<int>, code: Option<string>, other: Option<int>) {
    && (forall q :: Stands(rs, q, code) ==> parent == Some(q))
    && ((forall q :: !Stands(rs, q, code)) ==> parent == other)
  }

  lemma {:induction false} CodeIff(rs: Reasons, code: string, reason: int)
    requires UniqueLive(rs)
    ensures IdOf(LiveByCode(rs), Some(code)) == Some(reason) <==>
      (reason in rs && Live(rs[reason]) && rs[reason].code == code)
  {
    if code in LiveByCode(rs) { LiveOf(rs, code); }
    if reason in rs && Live(rs[reason]) { LiveAt(rs, reason); }
    hide LiveByCode;
  }

  lemma {:induction false} ParentIff(rs: Reasons, parent: Option<int>, code: Option<string>, other: Option<int>)
    requires UniqueLive(rs)
    ensures var at := IdOf(LiveByCode(rs), code);
      ParentIn(rs, parent, code, other) <==> parent == if at.Some? then at else other
  {
    forall q ensures Stands(rs, q, code) <==> IdOf(LiveByCode(rs), code) == Some(q) {
      if code.Some? { CodeIff(rs, code.value, q); }
    }
    hide LiveByCode, UniqueLive, Stands, IdOf;
  }

  /** A row that an insert adds. */
  ghost predicate IsNewRow(r: Reason, rs: Reasons, snap: Catalog, levelOne: bool, now: int) {
    && r.code in snap && (forall q :: !Stands(rs, q, Some(r.code)))
    && r.ent == 3 && r.active && r.attrs == snap[r.code].attrs && r.validTo == None && r.updatedAt == now
    && (if levelOne then r.attrs.level == Some(1) && r.parent == None
        else r.attrs.level.Some? && r.attrs.level != Some(1) && ParentIn(rs, r.parent, snap[r.code].parentCode, None))
  }

  lemma {:induction false} NewRowsOfStep(rs: Reasons, order: seq<string>, snap: Catalog, levelOne: bool, next: int,
                                         now: int)
    requires CatalogValid(snap) && UniqueLive(rs) && Below(rs, next)
    ensures var r := Inserted(rs, order, snap, LiveByCode(rs), levelOne, next, now);
      forall id :: id in r && id !in rs ==> IsNewRow(r[id], rs, snap, levelOne, now)
  {
    var live := LiveByCode(rs);
    var r := Inserted(rs, order, snap, live, levelOne, next, now);
    forall id | id in r && id !in rs ensures IsNewRow(r[id], rs, snap, levelOne, now) {
      InsertedRow(rs, order, snap, live, levelOne, next, now, id);
      hide Inserted, LiveByCode, UniqueLive, Below;
      var c := order[id - next];
      forall q ensures !Stands(rs, q, Some(c)) { CodeIff(rs, c, q); }
      ParentIff(rs, r[id].parent, snap[c].parentCode, None);
      hide Stands, ParentIn;
    }
  }

  /** What an apply makes of a row that was there: rows that are inactive or another enterprise's stay; an active row
      whose code staging dropped is closed; any other takes staging's columns and its parent's row, a parent that is not
      there clearing the old one only with another column, and is stamped exactly when something changes. */
  lemma {:induction false} ExistingRowEnds(rs: Reasons, order: seq<string>, snap: Catalog, next: int, now: int, id: int)
    requires CatalogValid(snap) && Lists(order, snap) && UniqueLive(rs) && Below(rs, next) && id in rs
    ensures var r := Synced(rs, order, snap, next, now);
      && id in r
      && var was, row := rs[id], r[id];
         if !(was.ent == 3 && was.active) then row == was
         else if was.code !in snap then
           row == Reason(was.ent, was.code, was.attrs, was.parent, false, Some(now), now)
         else
           var s := snap[was.code];
           && row.ent == was.ent && row.code == was.code && row.attrs == s.attrs && row.active
           && row.validTo == was.validTo
           && ParentIn(r, row.parent, s.parentCode, if was.attrs == s.attrs then was.parent else None)
           && row.updatedAt == if was.attrs == s.attrs && row.parent == was.parent then was.updatedAt else now
  {
    var was := rs[id];
    SyncedRow(rs, order, snap, next, now, id);
    CleanedRowIs(rs, snap, now, id);
    SyncSettles(rs, order, snap, next, now);
    if Live(was) && was.code in snap {
      var code := snap[was.code].parentCode;
      LiveStays(rs, order, snap, next, now, code);
      var r := Synced(rs, order, snap, next, now);
      ParentIff(r, r[id].parent, code, if was.attrs == snap[was.code].attrs then was.parent else None);
    }
    hide LiveByCode, UniqueLive, Synced, Cleaned, ParentIn, IdOf, Deactivated, Lists, CatalogValid, Below, Settled;
  }

  /** The clean-up of one row. */
  lemma {:induction false} CleanedRowIs(rs: Reasons, snap: Catalog, now: int, id: int)
    requires UniqueLive(rs) && id in rs
    ensures UniqueLive(Deactivated(rs, snap, now))
    ensures var live := LiveByCode(Deactivated(rs, snap, now));
      Cleaned(rs, snap, now)[id] ==
        if !Live(rs[id]) then rs[id]
        else if rs[id].code !in snap then rs[id].(active := false, validTo := Some(now), updatedAt := now)
        else if rs[id].attrs == snap[rs[id].code].attrs then rs[id]
        else
          var s := snap[rs[id].code];
          rs[id].(attrs := s.attrs, parent := IdOf(live, s.parentCode), updatedAt := now)
  {
    DeactivatedKeeps(rs, snap, now);
    hide LiveByCode, UniqueLive, IdOf;
  }

  /** A row that is active after the clean-up is active, under its code, at the end. */
  lemma {:induction false} LiveStays(rs: Reasons, order: seq<string>, snap: Catalog, next: int, now: int,
                                     code: Option<string>)
    requires CatalogValid(snap) && Lists(order, snap) && UniqueLive(rs) && Below(rs, next)
    requires UniqueLive(Deactivated(rs, snap, now)) && UniqueLive(Synced(rs, order, snap, next, now))
    ensures var clean, end := LiveByCode(Deactivated(rs, snap, now)), LiveByCode(Synced(rs, order, snap, next, now));
      IdOf(clean, code).Some? ==> IdOf(end, code) == IdOf(clean, code)
  {
    var a := Deactivated(rs, snap, now);
    if IdOf(LiveByCode(a), code).Some? {
      LiveOf(a, code.value);
      var q := LiveByCode(a)[code.value];
      DeactivatedKeeps(rs, snap, now);
      CleanedRow(rs, snap, now, q);
      SyncedRow(rs, order, snap, next, now, q);
      LiveAt(Synced(rs, order, snap, next, now), q);
    }
    hide LiveByCode, UniqueLive, Synced, Cleaned, Lists, CatalogValid, Below;
  }

  lemma {:induction false} KeysStayBelow(a: Reasons, b: Reasons, next: int)
    requires Below(a, next) && b.Keys == a.Keys
    ensures Below(b, next)
  {
  }

  /** What an apply adds: one row for a code of staging that had no active row, with a level, staging's columns and its
      parent's row. */
  lemma {:induction false} NewRowEnds(rs: Reasons, order: seq<string>, snap: Catalog, next: int, now: int, id: int)
    requires CatalogValid(snap) && Lists(order, snap) && UniqueLive(rs) && Below(rs, next) && id !in rs
    requires id in Synced(rs, order, snap, next, now)
    ensures var r := Synced(rs, order, snap, next, now);
      var row := r[id];
      && row.code in snap && (forall q :: !Stands(rs, q, Some(row.code)))
      && row.ent == 3 && row.active && row.attrs == snap[row.code].attrs && row.attrs.level.Some?
      && row.validTo == None && row.updatedAt == now && ParentIn(r, row.parent, snap[row.code].parentCode, None)
  {
    hide LiveByCode, UniqueLive, Cleaned, Filled, Lists, CatalogValid, Below, IdOf;
    var b := Cleaned(rs, snap, now);
    KeysStayBelow(rs, b, next);
    var d := Filled(b, order, snap, next, now);
    ReparentedKeeps(d, snap, now);
    FilledRow(b, order, snap, next, now, id);
    forall q ensures Stands(rs, q, Some(d[id].code)) ==> Stands(b, q, Some(d[id].code)) {
      if q in rs { CleanedRow(rs, snap, now, q); }
    }
    var code := snap[d[id].code].parentCode;
    var r := Synced(rs, order, snap, next, now);
    ParentIff(r, r[id].parent, code, None);
    if d[id].parent.Some? { CodeIff(d, code.value, d[id].parent.value); }
  }

  /** An added row before the last statement: a parent it has is an active row already. */
  lemma {:induction false} FilledRow(b: Reasons, order: seq<string>, snap: Catalog, next: int, now: int, id: int)
    requires CatalogValid(snap) && Lists(order, snap) && UniqueLive(b) && Below(b, next) && id !in b
    requires id in Filled(b, order, snap, next, now)
    ensures var d := Filled(b, order, snap, next, now);
      var row := d[id];
      && row.code in snap && (forall q :: !Stands(b, q, Some(row.code)))
      && row.ent == 3 && row.active && row.attrs == snap[row.code].attrs && row.attrs.level.Some?
      && row.validTo == None && row.updatedAt == now
      && (row.parent.Some? ==> Stands(d, row.parent.value, snap[row.code].parentCode))
  {
    hide *;
    var l := InsertStep(b, order, snap, true, next, now);
    StepAdds(b, order, snap, true, next, now);
    StepAdds(l, order, snap, false, next + |order|, now);
    var d := Filled(b, order, snap, next, now);
    assert d == InsertStep(l, order, snap, false, next + |order|, now) by { FilledIs(b, order, snap, next, now); }
    if id in l {
      NewRowIs(d[id], b, snap, true, now);
    } else {
      NewRowIs(d[id], l, snap, false, now);
      forall q
        ensures Stands(b, q, Some(d[id].code)) ==> Stands(l, q, Some(d[id].code))
      {
        StandsStill(b, l, q, d[id].code);
      }
      if d[id].parent.Some? && snap[d[id].code].parentCode.Some? {
        StandsStill(l, d, d[id].parent.value, snap[d[id].code].parentCode.value);
      }
    }
  }

  lemma {:induction false} FilledIs(b: Reasons, order: seq<string>, snap: Catalog, next: int, now: int)
    requires CatalogValid(snap) && Lists(order, snap) && UniqueLive(b) && Below(b, next)
    ensures Filled(b, order, snap, next, now) ==
      InsertStep(InsertStep(b, order, snap, true, next, now), order, snap, false, next + |order|, now)
  {
  }

  lemma {:induction false} StepAdds(rs: Reasons, order: seq<string>, snap: Catalog, levelOne: bool, next: int, now: int)
    requires CatalogValid(snap) && Lists(order, snap) && UniqueLive(rs) && Below(rs, next)
    ensures var r := InsertStep(rs, order, snap, levelOne, next, now);
      && (forall id :: id in rs ==> id in r && r[id] == rs[id])
      && (forall id :: id in r && id !in rs ==> IsNewRow(r[id], rs, snap, levelOne, now))
  {
    InsertedKeeps(rs, order, snap, levelOne, next, now);
    NewRowsOfStep(rs, order, snap, levelOne, next, now);
    hide IsNewRow, Inserted, LiveByCode, UniqueLive;
  }

  lemma {:induction false} NewRowIs(row: Reason, rs: Reasons, snap: Catalog, levelOne: bool, now: int)
    requires IsNewRow(row, rs, snap, levelOne, now)
    ensures row.code in snap && (forall q :: !Stands(rs, q, Some(row.code)))
    ensures row.ent == 3 && row.active && row.attrs == snap[row.code].attrs && row.attrs.level.Some?
    ensures row.validTo == None && row.updatedAt == now
    ensures row.parent.Some? ==>
      !levelOne && snap[row.code].parentCode.Some? && Stands(rs, row.parent.value, snap[row.code].parentCode)
  {
    if row.parent.Some? {
      var q :| Stands(rs, q, snap[row.code].parentCode);
    }
  }

  lemma {:induction false} StandsStill(a: Reasons, b: Reasons, q: int, code: string)
    requires forall id :: id in a ==> id in b && b[id] == a[id]
    ensures Stands(a, q, Some(code)) ==> Stands(b, q, Some(code))
  {
  }

  /** No row is deleted, renamed or moved to another enterprise, and rows that are inactive or another enterprise's stay
      as they are. An active row is rewritten exactly when staging dropped its code, when a column differs, or when the
      active row of its parent's code is another one. */
  lemma {:induction false} RewrittenIff(rs: Reasons, order: seq<string>, snap: Catalog, next: int, now: int, id: int)
    requires CatalogValid(snap) && Lists(order, snap) && UniqueLive(rs) && Below(rs, next) && id in rs
    ensures var r := Synced(rs, order, snap, next, now);
      && id in r && r[id].ent == rs[id].ent && r[id].code == rs[id].code
      && (r[id] != rs[id] <==>
            && Live(rs[id])
            && (|| rs[id].code !in snap || rs[id].attrs != snap[rs[id].code].attrs
                || Misplaced(rs[id], snap, LiveByCode(r))))
      && (Live(rs[id]) && rs[id].code !in snap ==>
        r[id] == rs[id].(active := false, validTo := Some(now), updatedAt := now))
  {
    SyncedRow(rs, order, snap, next, now, id);
    CleanedRow(rs, snap, now, id);
    hide LiveByCode, UniqueLive, Synced, Cleaned;
  }

  lemma {:induction false} CleanedRow(rs: Reasons, snap: Catalog, now: int, id: int)
    requires UniqueLive(rs) && id in rs
    ensures var b := Cleaned(rs, snap, now)[id];
      && b.ent == rs[id].ent && b.code == rs[id].code
      && (!Live(rs[id]) ==> b == rs[id])
      && (Live(rs[id]) && rs[id].code !in snap ==>
        b == rs[id].(active := false, validTo := Some(now), updatedAt := now))
      && (Live(rs[id]) && rs[id].code in snap ==>
            && Live(b) && b.attrs == snap[b.code].attrs
            && (rs[id].attrs == snap[b.code].attrs ==> b == rs[id])
            && (rs[id].attrs != snap[b.code].attrs && snap[b.code].parentCode.None? ==> b.parent.None?))
  {
    hide LiveByCode, UniqueLive;
  }

  /** The active codes after a sync, exactly: staging's, but for the codes without a level that were not active. */
  lemma {:induction false} ActiveCodesIff(rs: Reasons, order: seq<string>, snap: Catalog, next: int, now: int,
                                          c: string)
    requires CatalogValid(snap) && Lists(order, snap) && UniqueLive(rs) && Below(rs, next)
    ensures var r := Synced(rs, order, snap, next, now);
      c in LiveByCode(r) <==> c in snap && (c in LiveByCode(rs) || snap[c].attrs.level.Some?)
  {
    var r := Synced(rs, order, snap, next, now);
    SyncSettles(rs, order, snap, next, now);
    hide LiveByCode, UniqueLive, Synced, Lists, CatalogValid;
    if c in LiveByCode(r) {
      LiveOf(r, c);
      ActiveBefore(rs, order, snap, next, now, LiveByCode(r)[c]);
    } else if c in snap && c in LiveByCode(rs) {
      LiveOf(rs, c);
      ActiveAfter(rs, order, snap, next, now, LiveByCode(rs)[c]);
    }
  }

  lemma {:induction false} ActiveBefore(rs: Reasons, order: seq<string>, snap: Catalog, next: int, now: int, id: int)
    requires CatalogValid(snap) && Lists(order, snap) && UniqueLive(rs) && Below(rs, next)
    requires id in Synced(rs, order, snap, next, now) && Live(Synced(rs, order, snap, next, now)[id])
    ensures var c := Synced(rs, order, snap, next, now)[id].code;
      c in snap && (c in LiveByCode(rs) || snap[c].attrs.level.Some?)
  {
    var b := Cleaned(rs, snap, now);
    FilledKeeps(b, order, snap, next, now);
    ReparentedKeeps(Filled(b, order, snap, next, now), snap, now);
    if id in rs {
      SyncedRow(rs, order, snap, next, now, id);
      CleanedRow(rs, snap, now, id);
      LiveAt(rs, id);
    }
    hide LiveByCode, UniqueLive, Filled, Cleaned;
  }

  lemma {:induction false} ActiveAfter(rs: Reasons, order: seq<string>, snap: Catalog, next: int, now: int, id: int)
    requires CatalogValid(snap) && Lists(order, snap) && UniqueLive(rs) && Below(rs, next)
    requires id in rs && Live(rs[id]) && rs[id].code in snap
    ensures rs[id].code in LiveByCode(Synced(rs, order, snap, next, now))
  {
    SyncedRow(rs, order, snap, next, now, id);
    CleanedRow(rs, snap, now, id);
    hide LiveByCode, UniqueLive, Synced, Cleaned;
    LiveAt(Synced(rs, order, snap, next, now), id);
  }

  /** When every reason of the snapshot has a level, as the column demands, the active codes end equal to staging's. */
  lemma {:induction false} ActiveCodesAreStagings(rs: Reasons, order: seq<string>, snap: Catalog, next: int, now: int)
    requires CatalogValid(snap) && Lists(order, snap) && UniqueLive(rs) && Below(rs, next)
    requires forall c :: c in snap ==> snap[c].attrs.level.Some?
    ensures LiveByCode(Synced(rs, order, snap, next, now)).Keys == snap.Keys
  {
    forall c { ActiveCodesIff(rs, order, snap, next, now, c); }
    hide Synced, LiveByCode;
  }

  /** A reason without a level would never arrive. */
  lemma {:induction false} LevelessStaysOut(body: string, now: int)
    ensures var snap: Catalog := map["c" := SnapReason("c", Attrs(None, body), None)];
      && CatalogValid(snap) && Lists(["c"], snap) && UniqueLive(map[]) && Below(map[], 1)
      && "c" !in LiveByCode(Synced(map[], ["c"], snap, 1, now))
  {
    var snap: Catalog := map["c" := SnapReason("c", Attrs(None, body), None)];
    assert "c" in ["c"];
    ActiveCodesIff(map[], ["c"], snap, 1, now, "c");
    hide Synced;
  }

  /** A reason that is top level on staging loses a parent it has on the target exactly when the statements touch its
      row: a row whose other columns already agree keeps the old parent. */
  lemma {:induction false} TopLevelParentClearedIff(rs: Reasons, order: seq<string>, snap: Catalog, next: int, now: int,
                                                    id: int)
    requires CatalogValid(snap) && Lists(order, snap) && UniqueLive(rs) && Below(rs, next)
    requires id in rs && Live(rs[id]) && rs[id].code in snap && snap[rs[id].code].parentCode.None?
    ensures var r := Synced(rs, order, snap, next, now);
      && id in r && Live(r[id])
      && (r[id].parent.None? <==> rs[id].parent.None? || rs[id].attrs != snap[rs[id].code].attrs)
  {
    SyncedRow(rs, order, snap, next, now, id);
    CleanedRow(rs, snap, now, id);
    hide LiveByCode, UniqueLive, Synced, Cleaned;
  }

  /** A reason that is top level on staging and agrees in its columns keeps the parent it has on the target. */
  lemma {:induction false} StaleParentStays(attrs: Attrs, now: int)
    ensures var row := Reason(ENT, "c", attrs, Some(1), true, None, 0);
      var rs: Reasons := map[2 := row];
      var snap: Catalog := map["c" := SnapReason("c", attrs, None)];
      && CatalogValid(snap) && Lists(["c"], snap) && UniqueLive(rs) && Below(rs, 3)
      && 2 in Synced(rs, ["c"], snap, 3, now) && Synced(rs, ["c"], snap, 3, now)[2].parent != None
  {
    var row := Reason(ENT, "c", attrs, Some(1), true, None, 0);
    var rs: Reasons := map[2 := row];
    var snap: Catalog := map["c" := SnapReason("c", attrs, None)];
    assert "c" in ["c"];
    hide Synced;
    TopLevelParentClearedIff(rs, ["c"], snap, 3, now, 2);
  }
}
