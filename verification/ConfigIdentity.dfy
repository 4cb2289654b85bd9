/** CPACK config sync, identity: which staging equipment is which target equipment (cpack-config-sync.py). */
module ConfigIdentity {
  import opened Trimming
  import opened Wrappers

  const ENT := 3

  /** An equipment row of the target. `values` are the copied columns, `refs` the four machine references. */
  datatype Equip = Equip(ent: int, tp: Option<int>, nm: Option<string>, cd: Option<string>,
                         values: seq<Option<string>>, refs: seq<Option<int>>, updatedAt: int)
  type Equips = map<int, Equip>

  /** The base topic of each target equipment that has an active topic. */
  type Topics = map<int, string>

  /** A staging equipment of the snapshot; a machine reference carries the staging id and its base topic. */
  datatype Ref = Ref(src: int, base: Option<string>)
  datatype Snap = Snap(srcId: int, base: Option<string>, tp: Option<int>, nm: Option<string>, cd: Option<string>,
                       values: seq<Option<string>>, refs: seq<Option<Ref>>)

  // ---- build_payload ----

  datatype StagingEquip = StagingEquip(id: int, base: Option<string>, tp: Option<int>, nm: Option<string>,
                                       cd: Option<string>,
                                       values: seq<Option<string>>, refs: seq<Option<int>>)

  function BaseOf(byId: map<int, StagingEquip>, id: int): Option<string> { if id in byId then byId[id].base else None }

  function WithBases(refs: seq<Option<int>>, byId: map<int, StagingEquip>): seq<Option<Ref>> {
    seq(|refs|, i requires 0 <= i < |refs| =>
      if refs[i].None? then None else Some(Ref(refs[i].value, BaseOf(byId, refs[i].value))))
  }

  /** A link of the snapshot: the base topic of its equipment and the code of its reason. */
  datatype SnapLink = SnapLink(base: Option<string>, code: string)

  /** The base topic of the equipment with this id; none for an id the snapshot does not have. */
  ghost predicate HasBase(rows: seq<StagingEquip>, id: int, base: Option<string>) {
    && (forall j :: 0 <= j < |rows| && rows[j].id == id ==> base == rows[j].base)
    && ((forall j :: 0 <= j < |rows| ==> rows[j].id != id) ==> base == None)
  }

  /** Every equipment keeps its columns; references and links name equipments by base topic. */
  method BuildPayload(rows: seq<StagingEquip>, links: seq<(int, string)>)
    returns (snaps: seq<Snap>, wanted: seq<SnapLink>)
    requires forall i, j :: 0 <= i < j < |rows| ==> rows[i].id != rows[j].id
    ensures |snaps| == |rows| && |wanted| == |links|
    ensures forall i :: 0 <= i < |rows| ==>
      && snaps[i].srcId == rows[i].id && snaps[i].base == rows[i].base && snaps[i].values == rows[i].values
      && snaps[i].tp == rows[i].tp && snaps[i].nm == rows[i].nm && snaps[i].cd == rows[i].cd
      && |snaps[i].refs| == |rows[i].refs|
    ensures forall i, c :: 0 <= i < |rows| && 0 <= c < |rows[i].refs| ==>
      && (snaps[i].refs[c].None? <==> rows[i].refs[c].None?)
      && (snaps[i].refs[c].Some? ==>
            snaps[i].refs[c].value.src == rows[i].refs[c].value &&
              HasBase(rows, rows[i].refs[c].value, snaps[i].refs[c].value.base))
    ensures forall k :: 0 <= k < |links| ==> wanted[k].code == links[k].1 && HasBase(rows, links[k].0, wanted[k].base)
  {
    var byId: map<int, StagingEquip> := map[];
    for i := 0 to |rows|
      invariant forall k :: 0 <= k < i ==> rows[k].id in byId && byId[rows[k].id] == rows[k]
      invariant forall id :: id in byId ==> exists k :: 0 <= k < i && rows[k].id == id
    {
      byId := byId[rows[i].id := rows[i]];
    }
    assert forall id :: HasBase(rows, id, BaseOf(byId, id));
    snaps := [];
    for i := 0 to |rows|
      invariant |snaps| == i
      invariant forall k :: 0 <= k < i ==>
        snaps[k] == Snap(rows[k].id, rows[k].base, rows[k].tp, rows[k].nm, rows[k].cd, rows[k].values,
          WithBases(rows[k].refs, byId))
    {
      var e := rows[i];
      snaps := snaps + [Snap(e.id, e.base, e.tp, e.nm, e.cd, e.values, WithBases(e.refs, byId))];
    }
    hide BaseOf, HasBase;
    wanted := [];
    for i := 0 to |links|
      invariant |wanted| == i
      invariant forall k :: 0 <= k < i ==> wanted[k] == SnapLink(BaseOf(byId, links[k].0), links[k].1)
    {
      wanted := wanted + [SnapLink(BaseOf(byId, links[i].0), links[i].1)];
    }
  }

  // ---- identity ----

  function LowerChar(c: char): char { if 'A' <= c <= 'Z' then c - 'A' + 'a' else c }

  function NameKey(nm: Option<string>): Option<string> {
    if nm.None? then None
    else var t := Trim(nm.value, {' '}); Some(seq(|t|, i requires 0 <= i < |t| => LowerChar(t[i])))
  }

  /** The same letter but for its case; only the letters from A to Z have one. */
  ghost predicate SameLetter(a: char, b: char) {
    || a == b
    || ('A' <= a <= 'Z' && b as int == a as int + 32)
    || ('A' <= b <= 'Z' && a as int == b as int + 32)
  }

  /** Two names that agree but for outer spaces and the case of letters; a missing name agrees with a missing one. */
  ghost predicate SameName(a: Option<string>, b: Option<string>) {
    if a.Some? && b.Some? then
      exists s, t :: IsCore(a.value, s, {' '}) && IsCore(b.value, t, {' '}) && |s| == |t| &&
        forall i :: 0 <= i < |s| ==> SameLetter(s[i], t[i])
    else a.None? && b.None?
  }

  /** No two codes: one is missing or empty, or they are the same. */
  ghost predicate SameCode(a: Option<string>, b: Option<string>) {
    a.None? || b.None? || a.value == "" || b.value == "" || a.value == b.value
  }

  /** Names are compared as the source does by a normal form; that is the relation above. */
  lemma {:induction false} NameKeyIff(a: Option<string>, b: Option<string>)
    ensures NameKey(a) == NameKey(b) <==> SameName(a, b)
  {
    hide Trim, IsCore, SameLetter, LowerChar;
    if a.Some? && b.Some? {
      var s, t := Trim(a.value, {' '}), Trim(b.value, {' '});
      TrimIff(a.value, s, {' '});
      TrimIff(b.value, t, {' '});
      LettersIff(s, t);
      if SameName(a, b) {
        var u, v :| IsCore(a.value, u, {' '}) && IsCore(b.value, v, {' '}) && |u| == |v| &&
          forall i :: 0 <= i < |u| ==> SameLetter(u[i], v[i]);
        TrimIff(a.value, u, {' '});
        TrimIff(b.value, v, {' '});
      }
    }
  }

  lemma {:induction false} LettersIff(s: string, t: string)
    ensures seq(|s|, i requires 0 <= i < |s| => LowerChar(s[i])) == seq(|t|, i requires 0 <= i < |t| => LowerChar(t[i]))
      <==> |s| == |t| && forall i :: 0 <= i < |s| ==> SameLetter(s[i], t[i])
  {
    var ls := seq(|s|, i requires 0 <= i < |s| => LowerChar(s[i]));
    var lt := seq(|t|, i requires 0 <= i < |t| => LowerChar(t[i]));
    if ls == lt {
      assert |ls| == |s| && |lt| == |t|;
      forall i | 0 <= i < |s| ensures SameLetter(s[i], t[i]) { assert ls[i] == lt[i]; }
    }
  }

  predicate Filled(cd: Option<string>) { cd.Some? && cd.value != "" }

  /** A target equipment of enterprise 3 on this base topic. */
  ghost predicate At(eqs: Equips, topics: Topics, id: int, base: string) {
    id in eqs && eqs[id].ent == 3 && id in topics && topics[id] == base
  }

  /** A row of tgt with this base. */
  predicate Sits(eqs: Equips, topics: Topics, id: int, base: string) {
    id in eqs && eqs[id].ent == ENT && id in topics && topics[id] == base
  }

  datatype Status =
    NoTopic | AmbiguousStaging | AmbiguousTarget | NoTarget | KindDiffers | NameDiffers | CodeDiffers | Verified

  /** Kind, name and (when both sides have one) code of a matched pair. */
  function PairStatus(s: Snap, t: Equip): Status {
    if t.tp != s.tp then KindDiffers
    else if NameKey(t.nm) != NameKey(s.nm) then NameDiffers
    else if Filled(t.cd) && Filled(s.cd) && t.cd != s.cd then CodeDiffers
    else Verified
  }

  lemma {:induction false} PairStatusIff(s: Snap, t: Equip)
    ensures PairStatus(s, t).KindDiffers? <==> s.tp != t.tp
    ensures PairStatus(s, t).NameDiffers? <==> s.tp == t.tp && !SameName(s.nm, t.nm)
    ensures PairStatus(s, t).CodeDiffers? <==> s.tp == t.tp && SameName(s.nm, t.nm) && !SameCode(s.cd, t.cd)
    ensures PairStatus(s, t).Verified? <==> Agree(s, t)
  {
    NameKeyIff(s.nm, t.nm);
    hide NameKey, SameName;
  }

  /** Equal kind, names that agree but for outer spaces and case, and no two codes. */
  ghost predicate Agree(s: Snap, t: Equip) {
    s.tp == t.tp && SameName(s.nm, t.nm) && SameCode(s.cd, t.cd)
  }

  /** The only snapshot row, and the only target equipment, with this base topic. */
  ghost predicate Alone(snaps: seq<Snap>, i: nat)
    requires i < |snaps|
  {
    snaps[i].base.Some? && forall j :: 0 <= j < |snaps| && snaps[j].base == snaps[i].base ==> j == i
  }

  ghost predicate OnlyTarget(eqs: Equips, topics: Topics, id: int, base: string) {
    At(eqs, topics, id, base) && forall other :: At(eqs, topics, other, base) ==> other == id
  }

  ghost predicate VerifiedPair(snaps: seq<Snap>, eqs: Equips, topics: Topics, i: nat, id: int)
    requires i < |snaps|
  {
    Alone(snaps, i) && OnlyTarget(eqs, topics, id, snaps[i].base.value) && Agree(snaps[i], eqs[id])
  }

  ghost predicate TwoTargets(eqs: Equips, topics: Topics, base: string) {
    exists a, b :: a != b && At(eqs, topics, a, base) && At(eqs, topics, b, base)
  }

  datatype Match = Match(tgt: int, snap: Snap)

  /** The verified rows by base topic. */
  type Verification = map<string, Match>

  ghost predicate IsVerification(ok: Verification, snaps: seq<Snap>, eqs: Equips, topics: Topics) {
    && (forall b :: b in ok ==>
          exists i :: 0 <= i < |snaps| && snaps[i] == ok[b].snap && snaps[i].base == Some(b) &&
                      VerifiedPair(snaps, eqs, topics, i, ok[b].tgt))
    && (forall i, id :: 0 <= i < |snaps| && VerifiedPair(snaps, eqs, topics, i, id) ==>
          snaps[i].base.value in ok && ok[snaps[i].base.value] == Match(id, snaps[i]))
  }

  method StatusOf(snaps: seq<Snap>, eqs: Equips, topics: Topics, i: nat) returns (status: Status, tgt: int)
    requires i < |snaps|
    ensures status.NoTopic? <==> snaps[i].base.None?
    ensures status.AmbiguousStaging? <==> snaps[i].base.Some? && !Alone(snaps, i)
    ensures status.AmbiguousTarget? <==> Alone(snaps, i) && TwoTargets(eqs, topics, snaps[i].base.value)
    ensures status.NoTarget? <==> Alone(snaps, i) && forall id :: !At(eqs, topics, id, snaps[i].base.value)
    ensures status.KindDiffers? || status.NameDiffers? || status.CodeDiffers? || status.Verified? <==>
      Alone(snaps, i) && OnlyTarget(eqs, topics, tgt, snaps[i].base.value)
    ensures status.KindDiffers? || status.NameDiffers? || status.CodeDiffers? || status.Verified? ==>
      var s, t := snaps[i], eqs[tgt];
      && (status.KindDiffers? <==> s.tp != t.tp)
      && (status.NameDiffers? <==> s.tp == t.tp && !SameName(s.nm, t.nm))
      && (status.CodeDiffers? <==> s.tp == t.tp && SameName(s.nm, t.nm) && !SameCode(s.cd, t.cd))
      && (status.Verified? <==> s.tp == t.tp && SameName(s.nm, t.nm) && SameCode(s.cd, t.cd))
  {
    tgt := 0;
    if snaps[i].base.None? { return NoTopic, tgt; }
    var base := snaps[i].base.value;
    var alone := true;
    for j := 0 to |snaps|
      invariant alone <==> forall k :: 0 <= k < j && snaps[k].base == snaps[i].base ==> k == i
    {
      if j != i && snaps[j].base == snaps[i].base { alone := false; }
    }
    if !alone { return AmbiguousStaging, tgt; }
    var found := set id | id in eqs && Sits(eqs, topics, id, base);
    forall id ensures At(eqs, topics, id, base) <==> id in found {
      assert Sits(eqs, topics, id, base) <==> id in found;
    }
    if found == {} {
      return NoTarget, tgt;
    }
    tgt :| tgt in found;
    if found - {tgt} != {} {
      var other :| other in found - {tgt};
      return AmbiguousTarget, tgt;
    }
    forall other | At(eqs, topics, other, base)
      ensures other == tgt
    {
      assert other in found && other !in found - {tgt};
    }
    PairStatusIff(snaps[i], eqs[tgt]);
    status := PairStatus(snaps[i], eqs[tgt]);
  }

  method Verify(snaps: seq<Snap>, eqs: Equips, topics: Topics) returns (ok: Verification)
    ensures IsVerification(ok, snaps, eqs, topics)
  {
    ok := map[];
    for i := 0 to |snaps|
      invariant forall b :: b in ok ==>
        exists k :: 0 <= k < i && snaps[k] == ok[b].snap && snaps[k].base == Some(b) &&
          VerifiedPair(snaps, eqs, topics, k, ok[b].tgt)
      invariant forall k, id :: 0 <= k < i && VerifiedPair(snaps, eqs, topics, k, id) ==>
        snaps[k].base.value in ok && ok[snaps[k].base.value] == Match(id, snaps[k])
    {
      var status, tgt := StatusOf(snaps, eqs, topics, i);
      VerifiedIsAlone(snaps, eqs, topics, i, status, tgt);
      hide VerifiedPair;
      if status.Verified? {
        ok := ok[snaps[i].base.value := Match(tgt, snaps[i])];
      }
    }
  }

  lemma {:induction false} VerifiedIsAlone(snaps: seq<Snap>, eqs: Equips, topics: Topics, i: nat, status: Status,
                                           tgt: int)
    requires i < |snaps|
    requires status.AmbiguousTarget? ==> Alone(snaps, i) && TwoTargets(eqs, topics, snaps[i].base.value)
    requires status.NoTarget? ==> Alone(snaps, i) && forall id :: !At(eqs, topics, id, snaps[i].base.value)
    requires status.NoTopic? || status.AmbiguousStaging? ==> !Alone(snaps, i)
    requires status.KindDiffers? || status.NameDiffers? || status.CodeDiffers? || status.Verified? ==>
      && Alone(snaps, i) && OnlyTarget(eqs, topics, tgt, snaps[i].base.value)
      && (status.Verified? <==> Agree(snaps[i], eqs[tgt]))
    ensures forall id :: VerifiedPair(snaps, eqs, topics, i, id) <==> status.Verified? && id == tgt
    ensures status.Verified? ==>
      forall k, id :: 0 <= k < |snaps| && VerifiedPair(snaps, eqs, topics, k, id) && snaps[k].base == snaps[i].base ==>
        k == i
    ensures status.Verified? ==> snaps[i].base.Some?
    ensures forall k, id :: 0 <= k < |snaps| && VerifiedPair(snaps, eqs, topics, k, id) ==> snaps[k].base.Some?
  {
  }

  /** The verified matches are a one-to-one partial map: no staging equipment has two targets and no target two
      sources. */
  lemma {:induction false} VerifiedIsOneToOne(ok: Verification, snaps: seq<Snap>, eqs: Equips, topics: Topics, i: nat,
                                              j: nat, a: int, b: int)
    requires IsVerification(ok, snaps, eqs, topics) && i < |snaps| && j < |snaps|
    requires VerifiedPair(snaps, eqs, topics, i, a) && VerifiedPair(snaps, eqs, topics, j, b)
    ensures i == j <==> a == b
    ensures ok[snaps[i].base.value].tgt == a
  {
  }
}
