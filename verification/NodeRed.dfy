/** Node-RED flow surgery (node-red-import.ts): re-iding a pasted graph. */
module NodeRed {
  import opened Json
  import opened Positions
  import opened Wrappers

  /** A node is its own enumerable properties in order. */
  type Node = seq<Member>

  function Prop(n: Node, k: string): Option<Json> {
    if HasKey(n, k) then Some(Lookup(n, k)) else None
  }

  predicate StringProp(n: Node, k: string) { Prop(n, k).Some? && Prop(n, k).value.Str? }

  function StringOf(n: Node, k: string): string
    requires StringProp(n, k)
  {
    Prop(n, k).value.s
  }

  predicate IsNode(n: Node) { DistinctKeys(n) && StringProp(n, "id") && StringProp(n, "type") }

  function Id(n: Node): string
    requires IsNode(n)
  {
    StringOf(n, "id")
  }

  function Type(n: Node): string
    requires IsNode(n)
  {
    StringOf(n, "type")
  }

  lemma {:induction false} PropIff(n: Node, k: string, v: Json)
    requires DistinctKeys(n)
    ensures Prop(n, k) == Some(v) <==> Member(k, v) in n
  {
    if Member(k, v) in n {
      var i :| 0 <= i < |n| && n[i] == Member(k, v);
      LookupAt(n, i);
    }
  }

  /** What a node's id and container are, in terms of its members. */
  lemma {:induction false} NodeMembers(n: Node, s: string)
    requires IsNode(n)
    ensures Id(n) == s <==> Member("id", Str(s)) in n
    ensures StringProp(n, "z") && StringOf(n, "z") == s <==> Member("z", Str(s)) in n
  {
    PropIff(n, "id", Str(s));
    PropIff(n, "z", Str(s));
    hide Prop;
  }

  ghost predicate AllNodes(nodes: seq<Node>) { forall i :: 0 <= i < |nodes| ==> IsNode(nodes[i]) }

  // ---- reidNodes ----

  /** Assigning to this key sets the prototype instead of a property, so a copy made by assignment loses it. */
  const PROTO := "__proto__"
  const SUBFLOW := "subflow:"

  predicate FreeText(k: string) { k == "func" || k == "info" || k == "name" || k == "label" || k == "template" }
  predicate SubflowType(k: string, v: Json) { k == "type" && v.Str? && SUBFLOW <= v.s }

  function Rename(s: string, ids: map<string, string>): string { if s in ids then ids[s] else s }

  function Swap(v: Json, ids: map<string, string>): Json {
    match v
    case Str(s) => Str(Rename(s, ids))
    case Arr(items) => Arr(seq(|items|, i requires 0 <= i < |items| => Swap(items[i], ids)))
    case Obj(ms) => Obj(SwapMembers(ms, ids))
    case _ => v
  }

  function SwapMembers(ms: seq<Member>, ids: map<string, string>): seq<Member> {
    if ms == [] then []
    else (if ms[0].key == PROTO then [] else [Member(ms[0].key, Swap(ms[0].value, ids))]) + SwapMembers(ms[1..], ids)
  }

  function ReidProp(k: string, v: Json, ids: map<string, string>): Json {
    if SubflowType(k, v) then Str(SUBFLOW + Rename(v.s[|SUBFLOW|..], ids))
    else if FreeText(k) then v
    else Swap(v, ids)
  }

  function ReidNode(n: Node, ids: map<string, string>): Node {
    if n == [] then []
    else
      (if n[0].key == PROTO then [] else [Member(n[0].key, ReidProp(n[0].key, n[0].value, ids))]) +
      ReidNode(n[1..], ids)
  }

  function ReidAll(nodes: seq<Node>, ids: map<string, string>): (r: seq<Node>)
    ensures |r| == |nodes|
  {
    seq(|nodes|, i requires 0 <= i < |nodes| => ReidNode(nodes[i], ids))
  }

  function Ids(nodes: seq<Node>): seq<string>
    requires forall i :: 0 <= i < |nodes| ==> IsNode(nodes[i])
  {
    seq(|nodes|, i requires 0 <= i < |nodes| => Id(nodes[i]))
  }

  lemma {:induction false} IdsAre(nodes: seq<Node>)
    requires AllNodes(nodes)
    ensures forall i, s :: 0 <= i < |nodes| && Member("id", Str(s)) in nodes[i] ==> Ids(nodes)[i] == s
  {
    hide IsNode, Id;
    forall i, s | 0 <= i < |nodes| && Member("id", Str(s)) in nodes[i] ensures Ids(nodes)[i] == s {
      NodeMembers(nodes[i], s);
    }
  }

  /** The map built by one set per node: a repeated id keeps the last minted one. */
  ghost predicate IsIdMap(ids: map<string, string>, keys: seq<string>, minted: seq<string>)
    requires |minted| == |keys|
  {
    && (forall s :: s in ids ==> exists i :: 0 <= i < |keys| && keys[i] == s && ids[s] == minted[i])
    && (forall i :: 0 <= i < |keys| ==> keys[i] in ids)
    && (Distinct(keys) ==> forall i :: 0 <= i < |keys| ==> ids[keys[i]] == minted[i])
  }

  ghost predicate Distinct(s: seq<string>) { forall i, j :: 0 <= i < j < |s| ==> s[i] != s[j] }

  method MapIds(keys: seq<string>, minted: seq<string>) returns (ids: map<string, string>)
    requires |minted| == |keys|
    ensures IsIdMap(ids, keys, minted)
  {
    ids := map[];
    for i := 0 to |keys|
      invariant forall s :: s in ids ==> exists k :: 0 <= k < i && keys[k] == s && ids[s] == minted[k]
      invariant forall k :: 0 <= k < i ==> keys[k] in ids
      invariant Distinct(keys) ==> forall k :: 0 <= k < i ==> ids[keys[k]] == minted[k]
    {
      ids := ids[keys[i] := minted[i]];
    }
  }

  // ---- what a re-id is for, said of the members themselves ----

  /** A way into a value: an item of an array, a member of an object. */
  datatype Step = Item(i: nat) | Field(k: string)

  ghost function Reach(v: Json, path: seq<Step>): Option<Json> {
    if path == [] then Some(v)
    else match path[0]
      case Item(i) => if v.Arr? && i < |v.items| then Reach(v.items[i], path[1..]) else None
      case Field(k) => if v.Obj? && HasKey(v.members, k) then Reach(Lookup(v.members, k), path[1..]) else None
  }

  /** The members at these rising positions are all but the prototype's, and `out` has their keys. */
  ghost predicate KeysAt(out: seq<Member>, ms: seq<Member>, at: seq<nat>) {
    && Rising(at, |ms|) && |at| == |out|
    && (forall p :: 0 <= p < |ms| ==> (p in at <==> ms[p].key != "__proto__"))
    && forall i :: 0 <= i < |at| ==> out[i].key == ms[at[i]].key
  }

  /** w is what v becomes: an id gives way to its new one, everything else is of the same make. */
  ghost predicate Moved(w: Json, v: Json, ids: map<string, string>) {
    match v
    case Str(s) => w == Str(if s in ids then ids[s] else s)
    case Arr(items) => w.Arr? && |w.items| == |items|
    case Obj(ms) => w.Obj? && exists at :: KeysAt(w.members, ms, at)
    case _ => w == v
  }

  ghost predicate MovedThroughout(w: Json, v: Json, ids: map<string, string>) {
    forall path :: Field("__proto__") !in path ==>
      && (Reach(w, path).Some? <==> Reach(v, path).Some?)
      && (Reach(v, path).Some? ==> Moved(Reach(w, path).value, Reach(v, path).value, ids))
  }

  /** The types of subflow instances name an id after a prefix; five members hold the author's text and stay. */
  ghost predicate Reided(r: Member, m: Member, ids: map<string, string>) {
    && r.key == m.key
    && if m.key == "type" && m.value.Str? && "subflow:" <= m.value.s then
         var s := m.value.s[8..]; r.value == Str("subflow:" + if s in ids then ids[s] else s)
       else if m.key in ["func", "info", "name", "label", "template"] then r.value == m.value
       else MovedThroughout(r.value, m.value, ids)
  }

  ghost predicate ReidedAt(r: Node, n: Node, ids: map<string, string>, at: seq<nat>) {
    KeysAt(r, n, at) && forall i :: 0 <= i < |at| ==> Reided(r[i], n[at[i]], ids)
  }

  /** r is n, member by member in their order, but for the prototype's. */
  ghost predicate IsReided(r: Node, n: Node, ids: map<string, string>) { exists at :: ReidedAt(r, n, ids, at) }

  lemma {:induction false} HasKeySplits(n: Node, k: string)
    requires n != []
    ensures HasKey(n, k) <==> n[0].key == k || HasKey(n[1..], k)
  {
    if HasKey(n, k) && n[0].key != k {
      var i :| 0 <= i < |n| && n[i].key == k;
      assert n[1..][i-1].key == k;
    }
    if HasKey(n[1..], k) {
      var i :| 0 <= i < |n[1..]| && n[1..][i].key == k;
      assert n[i+1].key == k;
    }
  }

  lemma {:induction false} SwapKeepsMembers(ms: seq<Member>, ids: map<string, string>, k: string)
    requires k != PROTO
    ensures Prop(SwapMembers(ms, ids), k) == match Prop(ms, k) case None => None case Some(v) => Some(Swap(v, ids))
  {
    if ms != [] {
      SwapKeepsMembers(ms[1..], ids, k);
      HasKeySplits(ms, k);
      var r := SwapMembers(ms, ids);
      if ms[0].key == PROTO {
        assert r == SwapMembers(ms[1..], ids);
      } else {
        assert r[1..] == SwapMembers(ms[1..], ids);
        HasKeySplits(r, k);
      }
    }
  }

  lemma {:induction false} ReidKeepsProps(n: Node, ids: map<string, string>, k: string)
    requires k != PROTO
    ensures Prop(ReidNode(n, ids), k) == match Prop(n, k) case None => None case Some(v) => Some(ReidProp(k, v, ids))
  {
    if n != [] {
      ReidKeepsProps(n[1..], ids, k);
      HasKeySplits(n, k);
      var r := ReidNode(n, ids);
      if n[0].key == PROTO {
        assert r == ReidNode(n[1..], ids);
      } else {
        assert r[1..] == ReidNode(n[1..], ids);
        HasKeySplits(r, k);
      }
    }
  }

  ghost function Keys(ms: seq<Member>): (r: seq<string>)
    ensures |r| == |ms| && forall i :: 0 <= i < |ms| ==> r[i] == ms[i].key
  {
    seq(|ms|, i requires 0 <= i < |ms| => ms[i].key)
  }

  lemma {:induction false} KeysStep(head: Json, out: seq<Member>, ms: seq<Member>, rest: seq<nat>)
    requires ms != [] && KeysAt(out, ms[1..], rest)
    ensures var keep := ms[0].key != "__proto__";
      KeysAt((if keep then [Member(ms[0].key, head)] else []) + out, ms, Placed(rest, keep))
  {
    hide Placed, Keys;
    assert forall i :: 0 <= i < |rest| ==> rest[i] < |ms| - 1;
    hide Rising;
    var keep := ms[0].key != "__proto__";
    var more := (if keep then [Member(ms[0].key, head)] else []) + out;
    var at := Placed(rest, keep);
    PlacedPositions(rest, |ms| - 1, keep);
    assert Keys(ms)[1..] == Keys(ms[1..]);
    PlacedValues(Keys(out), Keys(ms), rest, keep);
    assert Keys(more) == (if keep then [Keys(ms)[0]] else []) + Keys(out);
    forall p | 0 <= p < |ms| ensures p in at <==> ms[p].key != "__proto__" {
      if p > 0 { assert ms[p] == ms[1..][p-1]; }
    }
    assert forall i :: 0 <= i < |at| ==> more[i].key == Keys(more)[i];
  }

  lemma {:induction false} SwapKeepsKeys(ms: seq<Member>, ids: map<string, string>)
    ensures exists at :: KeysAt(SwapMembers(ms, ids), ms, at)
  {
    hide KeysAt, Swap;
    if ms == [] {
      NoKeys();
      assert KeysAt(SwapMembers(ms, ids), ms, []);
    } else {
      SwapKeepsKeys(ms[1..], ids);
      var rest :| KeysAt(SwapMembers(ms[1..], ids), ms[1..], rest);
      KeysStep(Swap(ms[0].value, ids), SwapMembers(ms[1..], ids), ms, rest);
      hide Placed;
      assert KeysAt(SwapMembers(ms, ids), ms, Placed(rest, ms[0].key != "__proto__"));
    }
  }

  lemma {:induction false} NoKeys()
    ensures KeysAt([], [], [])
  {
  }

  lemma {:induction false} SwapMovesAt(v: Json, ids: map<string, string>, path: seq<Step>)
    requires Field("__proto__") !in path
    ensures Reach(Swap(v, ids), path).Some? <==> Reach(v, path).Some?
    ensures Reach(v, path).Some? ==> Moved(Reach(Swap(v, ids), path).value, Reach(v, path).value, ids)
    decreases |path|
  {
    if path == [] {
      if v.Obj? { SwapKeepsKeys(v.members, ids); }
    } else {
      match path[0] {
        case Item(i) =>
          if v.Arr? && i < |v.items| { SwapMovesAt(v.items[i], ids, path[1..]); }
        case Field(k) =>
          if v.Obj? {
            assert path[0] in path;
            SwapKeepsMembers(v.members, ids, k);
            if HasKey(v.members, k) { SwapMovesAt(Lookup(v.members, k), ids, path[1..]); }
          }
      }
    }
  }

  lemma {:induction false} PropIsReided(m: Member, ids: map<string, string>)
    ensures Reided(Member(m.key, ReidProp(m.key, m.value, ids)), m, ids)
  {
    if !SubflowType(m.key, m.value) && !FreeText(m.key) {
      forall path | Field("__proto__") !in path { SwapMovesAt(m.value, ids, path); }
    }
    hide Swap, Reach, Moved;
  }

  lemma {:induction false} ReidStep(head: Member, out: Node, n: Node, ids: map<string, string>, rest: seq<nat>)
    requires n != [] && ReidedAt(out, n[1..], ids, rest) && Reided(head, n[0], ids)
    ensures var keep := n[0].key != "__proto__";
      ReidedAt((if keep then [head] else []) + out, n, ids, Placed(rest, keep))
  {
    hide Reided, Placed;
    var keep := n[0].key != "__proto__";
    KeysStep(head.value, out, n, rest);
    ReidValues(head, out, n, ids, rest, keep);
    HeadKey(head, n[0], ids);
    hide KeysAt;
  }

  lemma {:induction false} HeadKey(r: Member, m: Member, ids: map<string, string>)
    requires Reided(r, m, ids)
    ensures r == Member(m.key, r.value)
  {
    hide MovedThroughout;
  }

  lemma {:induction false} ReidValues(head: Member, out: Node, n: Node, ids: map<string, string>, rest: seq<nat>,
                                      keep: bool)
    requires n != [] && Reided(head, n[0], ids) && |out| == |rest| && forall i :: 0 <= i < |rest| ==> rest[i] < |n| - 1
    requires forall i :: 0 <= i < |rest| ==> Reided(out[i], n[1..][rest[i]], ids)
    ensures var more, at := (if keep then [head] else []) + out, Placed(rest, keep);
      |at| == |more| && forall i :: 0 <= i < |at| ==> at[i] < |n| && Reided(more[i], n[at[i]], ids)
  {
    hide Reided, Placed;
    var more, at := (if keep then [head] else []) + out, Placed(rest, keep);
    forall i | 0 <= i < |at| ensures at[i] < |n| && Reided(more[i], n[at[i]], ids) {
      PlacedAt(rest, keep, i);
    }
  }

  lemma {:induction false} NodeIsReided(n: Node, ids: map<string, string>) returns (at: seq<nat>)
    ensures ReidedAt(ReidNode(n, ids), n, ids, at)
  {
    hide Reided, ReidProp, ReidedAt, Placed;
    if n == [] {
      at := [];
      NothingReided(ids);
    } else {
      var rest := NodeIsReided(n[1..], ids);
      PropIsReided(n[0], ids);
      ReidStep(Member(n[0].key, ReidProp(n[0].key, n[0].value, ids)), ReidNode(n[1..], ids), n, ids, rest);
      at := Placed(rest, n[0].key != "__proto__");
    }
  }

  lemma {:induction false} AllReided(nodes: seq<Node>, ids: map<string, string>)
    ensures forall i :: 0 <= i < |nodes| ==> IsReided(ReidAll(nodes, ids)[i], nodes[i], ids)
  {
    hide ReidedAt, ReidNode;
    forall i | 0 <= i < |nodes| ensures IsReided(ReidAll(nodes, ids)[i], nodes[i], ids) {
      var at := NodeIsReided(nodes[i], ids);
      assert ReidedAt(ReidAll(nodes, ids)[i], nodes[i], ids, at);
    }
  }

  lemma {:induction false} NoneNamesAnOldId(nodes: seq<Node>, ids: map<string, string>)
    requires forall s :: s in ids ==> ids[s] !in ids && !(SUBFLOW <= ids[s])
    ensures var out := ReidAll(nodes, ids);
      forall i, j :: 0 <= i < |out| && 0 <= j < |out[i]| ==> PropAvoids(out[i][j].key, out[i][j].value, ids)
  {
    hide PropAvoids, ReidNode;
    forall i | 0 <= i < |nodes| { ReidLeavesNoOldId(nodes[i], ids); }
  }

  lemma {:induction false} NothingReided(ids: map<string, string>)
    ensures ReidedAt([], [], ids, [])
  {
  }

  /** Ids that are minted once each and are new leave no old id behind, and the inverse map undoes the renaming. */
  method ReidNodes(nodes: seq<Node>, minted: seq<string>) returns (out: seq<Node>, ids: map<string, string>)
    requires AllNodes(nodes) && |minted| == |nodes|
    ensures forall i, s :: 0 <= i < |nodes| && Member("id", Str(s)) in nodes[i] ==> Ids(nodes)[i] == s
    ensures IsIdMap(ids, Ids(nodes), minted) && out == ReidAll(nodes, ids)
    ensures |out| == |nodes| && forall i :: 0 <= i < |nodes| ==> IsReided(out[i], nodes[i], ids)
    ensures (forall s :: s in minted ==> s !in Ids(nodes) && !(SUBFLOW <= s)) ==>
      forall i, j :: 0 <= i < |out| && 0 <= j < |out[i]| ==> PropAvoids(out[i][j].key, out[i][j].value, ids)
    ensures Distinct(Ids(nodes)) && Distinct(minted) ==>
      exists back :: Inverse(ids, back) && (Fresh(nodes, back) ==> ReidAll(out, back) == StripAll(nodes))
  {
    ids := MapIds(Ids(nodes), minted);
    out := ReidAll(nodes, ids);
    hide IsNode, PropAvoids, Inverse, StripAll, Fresh, Distinct, ReidAll, IsReided, IsIdMap, Ids;
    AllReided(nodes, ids);
    IdsAre(nodes);
    if forall s :: s in minted ==> s !in Ids(nodes) && !(SUBFLOW <= s) {
      MapIdsAreNew(ids, Ids(nodes), minted);
      NoneNamesAnOldId(nodes, ids);
    }
    if Distinct(Ids(nodes)) && Distinct(minted) {
      ghost var back := DistinctMintsInvert(Ids(nodes), minted, ids);
      if Fresh(nodes, back) { ReidBack(nodes, ids, back); }
    }
  }

  function StripAll(nodes: seq<Node>): seq<Node> {
    seq(|nodes|, i requires 0 <= i < |nodes| => StripNode(nodes[i]))
  }

  lemma {:induction false} MapIdsAreNew(ids: map<string, string>, keys: seq<string>, minted: seq<string>)
    requires |minted| == |keys| && IsIdMap(ids, keys, minted)
    requires forall s :: s in minted ==> s !in keys && !(SUBFLOW <= s)
    ensures forall s :: s in ids ==> ids[s] !in ids && !(SUBFLOW <= ids[s])
  {
    forall s | s in ids ensures ids[s] in minted && ids[s] !in keys {}
    forall s | s in ids ensures s in keys {}
  }

  lemma {:induction false} ReidBack(nodes: seq<Node>, ids: map<string, string>, back: map<string, string>)
    requires Inverse(ids, back) && Fresh(nodes, back)
    ensures ReidAll(ReidAll(nodes, ids), back) == StripAll(nodes)
  {
    forall i | 0 <= i < |nodes| ensures ReidNode(ReidNode(nodes[i], ids), back) == StripNode(nodes[i]) {
      NodeBack(nodes[i], ids, back);
    }
    hide ReidNode, StripNode;
  }

  // ---- what a re-id keeps ----

  ghost predicate Inverse(ids: map<string, string>, back: map<string, string>) {
    && (forall s :: s in ids ==> ids[s] in back && back[ids[s]] == s)
    && (forall s :: s in back ==> back[s] in ids && ids[back[s]] == s)
  }

  /** No string inside v is one of the given ids. */
  ghost predicate Avoids(v: Json, taken: map<string, string>) {
    match v
    case Str(s) => s !in taken
    case Arr(items) => forall i :: 0 <= i < |items| ==> Avoids(items[i], taken)
    case Obj(ms) => forall i :: 0 <= i < |ms| ==> Avoids(ms[i].value, taken)
    case _ => true
  }

  ghost predicate PropAvoids(k: string, v: Json, taken: map<string, string>) {
    if k == "type" && v.Str? && "subflow:" <= v.s then v.s[8..] !in taken
    else k in ["func", "info", "name", "label", "template"] || Avoids(v, taken)
  }

  /** The minted ids occur nowhere in the paste and none of them reads like a subflow type. */
  ghost predicate Fresh(nodes: seq<Node>, back: map<string, string>) {
    && (forall i, j :: 0 <= i < |nodes| && 0 <= j < |nodes[i]| ==> PropAvoids(nodes[i][j].key, nodes[i][j].value, back))
    && (forall s :: s in back ==> !(SUBFLOW <= s))
  }

  /** A value without its prototype members at every depth. */
  function Strip(v: Json): Json {
    match v
    case Arr(items) => Arr(seq(|items|, i requires 0 <= i < |items| => Strip(items[i])))
    case Obj(ms) => Obj(StripMembers(ms))
    case _ => v
  }

  function StripMembers(ms: seq<Member>): seq<Member> {
    if ms == [] then []
    else (if ms[0].key == PROTO then [] else [Member(ms[0].key, Strip(ms[0].value))]) + StripMembers(ms[1..])
  }

  function StripNode(n: Node): Node {
    if n == [] then []
    else (if n[0].key == PROTO then []
      else [Member(n[0].key, if FreeText(n[0].key) then n[0].value else Strip(n[0].value))]) +
         StripNode(n[1..])
  }

  lemma {:induction false} SwapBack(v: Json, ids: map<string, string>, back: map<string, string>)
    requires Inverse(ids, back) && Avoids(v, back)
    ensures Swap(Swap(v, ids), back) == Strip(v)
    decreases v, 1
  {
    match v {
      case Arr(items) =>
        forall i | 0 <= i < |items|
          ensures Swap(Swap(items[i], ids), back) == Strip(items[i])
        {
          SwapBack(items[i], ids, back);
        }
      case Obj(ms) => SwapMembersBack(ms, ids, back);
      case _ =>
    }
  }

  lemma {:induction false} SwapMembersBack(ms: seq<Member>, ids: map<string, string>, back: map<string, string>)
    requires Inverse(ids, back) && forall i :: 0 <= i < |ms| ==> Avoids(ms[i].value, back)
    ensures SwapMembers(SwapMembers(ms, ids), back) == StripMembers(ms)
    decreases ms, 0
  {
    if ms != [] {
      SwapBack(ms[0].value, ids, back);
      SwapMembersBack(ms[1..], ids, back);
      if ms[0].key == PROTO {
        assert SwapMembers(ms, ids) == SwapMembers(ms[1..], ids);
      } else {
        assert SwapMembers(ms, ids)[1..] == SwapMembers(ms[1..], ids);
      }
    }
  }

  lemma {:induction false} PropBack(k: string, v: Json, ids: map<string, string>, back: map<string, string>)
    requires Inverse(ids, back) && PropAvoids(k, v, back) && forall s :: s in back ==> !(SUBFLOW <= s)
    ensures ReidProp(k, ReidProp(k, v, ids), back) == if FreeText(k) then v else Strip(v)
  {
    if SubflowType(k, v) {
      var rest := v.s[|SUBFLOW|..];
      assert v.s == SUBFLOW + rest;
      assert (SUBFLOW + Rename(rest, ids))[|SUBFLOW|..] == Rename(rest, ids);
    } else if !FreeText(k) {
      SwapBack(v, ids, back);
      if k == "type" && v.Str? && v.s in ids { assert ids[v.s] in back; }
    }
  }

  lemma {:induction false} NodeBack(n: Node, ids: map<string, string>, back: map<string, string>)
    requires Inverse(ids, back) && forall s :: s in back ==> !(SUBFLOW <= s)
    requires forall j :: 0 <= j < |n| ==> PropAvoids(n[j].key, n[j].value, back)
    ensures ReidNode(ReidNode(n, ids), back) == StripNode(n)
  {
    if n != [] {
      PropBack(n[0].key, n[0].value, ids, back);
      NodeBack(n[1..], ids, back);
      if n[0].key == PROTO {
        assert ReidNode(n, ids) == ReidNode(n[1..], ids);
      } else {
        assert ReidNode(n, ids)[1..] == ReidNode(n[1..], ids);
      }
    }
  }

  /** No prototype member outside free text. */
  ghost predicate NoProto(v: Json) {
    match v
    case Arr(items) => forall i :: 0 <= i < |items| ==> NoProto(items[i])
    case Obj(ms) => forall i :: 0 <= i < |ms| ==> ms[i].key != PROTO && NoProto(ms[i].value)
    case _ => true
  }

  ghost predicate NodeHasNoProto(n: Node) {
    forall j :: 0 <= j < |n| ==>
      n[j].key != PROTO && (n[j].key in ["func", "info", "name", "label", "template"] || NoProto(n[j].value))
  }

  lemma {:induction false} StripIsIdentityIff(v: Json)
    ensures Strip(v) == v <==> NoProto(v)
    decreases v, 1
  {
    match v {
      case Arr(items) =>
        forall i | 0 <= i < |items|
          ensures Strip(items[i]) == items[i] <==> NoProto(items[i])
        {
          StripIsIdentityIff(items[i]);
        }
        if Strip(v) == v {
          forall i | 0 <= i < |items| ensures NoProto(items[i]) { assert Strip(v).items[i] == items[i]; }
        }
      case Obj(ms) => StripMembersIsIdentityIff(ms);
      case _ =>
    }
  }

  lemma {:induction false} StripMembersIsIdentityIff(ms: seq<Member>)
    ensures |StripMembers(ms)| <= |ms|
    ensures StripMembers(ms) == ms <==> forall i :: 0 <= i < |ms| ==> ms[i].key != PROTO && NoProto(ms[i].value)
    decreases ms, 0
  {
    if ms != [] {
      StripIsIdentityIff(ms[0].value);
      StripMembersIsIdentityIff(ms[1..]);
      hide Strip, NoProto;
      FirstAndRest(ms);
      var rest := StripMembers(ms[1..]);
      assert ms == [ms[0]] + ms[1..];
      if ms[0].key != PROTO { assert StripMembers(ms)[0].value == Strip(ms[0].value) && StripMembers(ms)[1..] == rest; }
    }
  }

  lemma {:induction false} FirstAndRest(ms: seq<Member>)
    requires ms != []
    ensures (forall i :: 0 <= i < |ms| ==> ms[i].key != PROTO && NoProto(ms[i].value)) <==>
      ms[0].key != PROTO && NoProto(ms[0].value) &&
      forall i :: 0 <= i < |ms[1..]| ==> ms[1..][i].key != PROTO && NoProto(ms[1..][i].value)
  {
    hide NoProto;
    if forall i :: 0 <= i < |ms[1..]| ==> ms[1..][i].key != PROTO && NoProto(ms[1..][i].value) {
      assert forall i :: 1 <= i < |ms| ==> ms[i] == ms[1..][i - 1];
    }
  }

  lemma {:induction false} StripNodeIsIdentityIff(n: Node)
    ensures |StripNode(n)| <= |n|
    ensures StripNode(n) == n <==> NodeHasNoProto(n)
  {
    if n != [] {
      StripIsIdentityIff(n[0].value);
      StripNodeIsIdentityIff(n[1..]);
      assert n == [n[0]] + n[1..];
      if n[0].key != PROTO { assert StripNode(n)[1..] == StripNode(n[1..]); }
      assert NodeHasNoProto(n) <==>
        n[0].key != PROTO && (FreeText(n[0].key) || NoProto(n[0].value)) && NodeHasNoProto(n[1..]);
    }
  }

  /** Re-iding back with the inverse map returns the paste exactly when it has no prototype member; those are lost. */
  lemma {:induction false} ReidRoundTripsIff(nodes: seq<Node>, ids: map<string, string>, back: map<string, string>)
    requires Inverse(ids, back) && Fresh(nodes, back)
    ensures ReidAll(ReidAll(nodes, ids), back) == nodes <==> forall i :: 0 <= i < |nodes| ==> NodeHasNoProto(nodes[i])
  {
    var again := ReidAll(ReidAll(nodes, ids), back);
    forall i | 0 <= i < |nodes|
      ensures again[i] == StripNode(nodes[i])
      ensures again[i] == nodes[i] <==> NodeHasNoProto(nodes[i])
    {
      NodeBack(nodes[i], ids, back);
      StripNodeIsIdentityIff(nodes[i]);
    }
    if again == nodes {
      forall i | 0 <= i < |nodes| ensures NodeHasNoProto(nodes[i]) { assert again[i] == nodes[i]; }
    }
  }

  // ---- every reference moves ----

  lemma {:induction false} SwapLeavesNoOldId(v: Json, ids: map<string, string>)
    requires forall s :: s in ids ==> ids[s] !in ids
    ensures Avoids(Swap(v, ids), ids)
    decreases v, 1
  {
    match v {
      case Arr(items) =>
        forall i | 0 <= i < |items| ensures Avoids(Swap(items[i], ids), ids) { SwapLeavesNoOldId(items[i], ids); }
      case Obj(ms) =>
        SwapMembersLeaveNoOldId(ms, ids);
      case _ =>
    }
  }

  lemma {:induction false} SwapMembersLeaveNoOldId(ms: seq<Member>, ids: map<string, string>)
    requires forall s :: s in ids ==> ids[s] !in ids
    ensures forall i :: 0 <= i < |SwapMembers(ms, ids)| ==> Avoids(SwapMembers(ms, ids)[i].value, ids)
    decreases ms, 0
  {
    if ms != [] {
      SwapLeavesNoOldId(ms[0].value, ids);
      SwapMembersLeaveNoOldId(ms[1..], ids);
    }
  }

  lemma {:induction false} PropLeavesNoOldId(k: string, v: Json, ids: map<string, string>)
    requires forall s :: s in ids ==> ids[s] !in ids && !(SUBFLOW <= ids[s])
    ensures PropAvoids(k, ReidProp(k, v, ids), ids)
  {
    if SubflowType(k, v) {
      var rest := Rename(v.s[|SUBFLOW|..], ids);
      assert (SUBFLOW + rest)[|SUBFLOW|..] == rest;
    } else {
      SwapLeavesNoOldId(v, ids);
    }
  }

  /** When no minted id is an old one, no re-ided node mentions an old id outside its free text: every reference has
      moved. */
  lemma {:induction false} ReidLeavesNoOldId(n: Node, ids: map<string, string>)
    requires forall s :: s in ids ==> ids[s] !in ids && !(SUBFLOW <= ids[s])
    ensures forall j :: 0 <= j < |ReidNode(n, ids)| ==>
      PropAvoids(ReidNode(n, ids)[j].key, ReidNode(n, ids)[j].value, ids)
  {
    if n != [] {
      PropLeavesNoOldId(n[0].key, n[0].value, ids);
      ReidLeavesNoOldId(n[1..], ids);
    }
  }

  /** Distinct ids and distinct minted ids give a map with an inverse. */
  lemma {:induction false} MintsAreDistinct(keys: seq<string>, minted: seq<string>, ids: map<string, string>, s: string,
                                            r: string)
    requires |minted| == |keys| && Distinct(minted) && IsIdMap(ids, keys, minted)
    requires s in ids && r in ids && ids[s] == ids[r]
    ensures s == r
  {
    var i :| 0 <= i < |keys| && keys[i] == s && ids[s] == minted[i];
    var j :| 0 <= j < |keys| && keys[j] == r && ids[r] == minted[j];
  }

  lemma {:induction false} MintedOf(keys: seq<string>, minted: seq<string>, ids: map<string, string>)
    requires |minted| == |keys| && Distinct(keys) && IsIdMap(ids, keys, minted)
    ensures forall s :: s in minted <==> exists k :: k in ids && ids[k] == s
  {
    forall s | s in minted ensures exists k :: k in ids && ids[k] == s {
      var i :| 0 <= i < |minted| && minted[i] == s;
      assert keys[i] in ids;
    }
  }

  lemma {:induction false} DistinctMintsInvert(keys: seq<string>, minted: seq<string>, ids: map<string, string>)
    returns (back: map<string, string>)
    requires |minted| == |keys| && Distinct(keys) && Distinct(minted) && IsIdMap(ids, keys, minted)
    ensures Inverse(ids, back) && forall s :: s in back <==> s in minted
  {
    hide Distinct, IsIdMap;
    forall s, r | s in ids && r in ids && ids[s] == ids[r] { MintsAreDistinct(keys, minted, ids, s, r); }
    MintedOf(keys, minted, ids);
    back := map s | s in ids :: ids[s] := s;
  }
}
