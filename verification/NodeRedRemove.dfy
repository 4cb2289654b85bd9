/** removeNodes (node-red-import.ts): dropping nodes and containers with every wire and link that points at them. */
module NodeRedRemove {
  import opened Json
  import opened NodeRed
  import opened NodeRedFlow
  import opened Positions
  import opened Wrappers

  /** The nodes that sit on one of the given containers. */
  predicate OnContainer(n: Node, drop: set<string>) { StringProp(n, "z") && StringOf(n, "z") in drop }

  /** The dropped ids, and the ids of the nodes on a dropped tab or subflow: one level deep. */
  ghost function Gone(nodes: seq<Node>, drop: set<string>): set<string>
    requires AllNodes(nodes)
  {
    drop + set i | 0 <= i < |nodes| && OnContainer(nodes[i], drop) :: Id(nodes[i])
  }

  /** The targets that are not gone. */
  function Keep(ts: seq<Json>, gone: set<string>): seq<Json> {
    if ts == [] then []
    else (if ts[0].Str? && ts[0].s in gone then [] else [ts[0]]) + Keep(ts[1..], gone)
  }

  function ScrubProp(k: string, v: Json, gone: set<string>): Json {
    if k == "wires" && v.Arr? then
      Arr(seq(|v.items|, i requires 0 <= i < |v.items| => Arr(Keep(WireLists(v.items)[i], gone))))
    else if k == "links" && v.Arr? then Arr(Keep(v.items, gone))
    else v
  }

  function Scrub(n: Node, gone: set<string>): Node {
    seq(|n|, i requires 0 <= i < |n| => Member(n[i].key, ScrubProp(n[i].key, n[i].value, gone)))
  }

  /** The remaining nodes, scrubbed, in their order. */
  function Removed(nodes: seq<Node>, gone: set<string>): seq<Node>
    requires forall i :: 0 <= i < |nodes| ==> IsNode(nodes[i])
  {
    if nodes == [] then []
    else (if Id(nodes[0]) in gone then [] else [Scrub(nodes[0], gone)]) + Removed(nodes[1..], gone)
  }

  method CollectGone(nodes: seq<Node>, drop: set<string>) returns (gone: set<string>)
    requires AllNodes(nodes)
    ensures gone == Gone(nodes, drop)
  {
    hide IsNode, StringProp, StringOf;
    gone := drop;
    for i := 0 to |nodes|
      invariant forall s :: s in gone <==> s in drop || exists k ::
        0 <= k < i && OnContainer(nodes[k], drop) && Id(nodes[k]) == s
    {
      if OnContainer(nodes[i], drop) { gone := gone + {Id(nodes[i])}; }
    }
  }

  // ---- what a removal is for, said of the members themselves ----

  /** An id that goes: a dropped one, or that of a node whose container is dropped. */
  ghost predicate Goes(nodes: seq<Node>, drop: set<string>, s: string) {
    s in drop || exists i, z ::
      0 <= i < |nodes| && z in drop && Member("z", Str(z)) in nodes[i] && Member("id", Str(s)) in nodes[i]
  }

  /** The list without the targets that are gone: every other one is there, as often and in the order it was. */
  ghost predicate Without(out: seq<Json>, list: seq<Json>, gone: set<string>) {
    exists at :: WithoutAt(out, list, gone, at)
  }

  ghost predicate WithoutAt(out: seq<Json>, list: seq<Json>, gone: set<string>, at: seq<nat>) {
    && Rising(at, |list|) && |at| == |out|
    && (forall i :: 0 <= i < |at| ==> out[i] == list[at[i]])
    && forall p :: 0 <= p < |list| ==> (p in at <==> !(list[p].Str? && list[p].s in gone))
  }

  /** The same member, but for the targets that are gone: those leave every output of the wires, and the links. */
  ghost predicate Cleared(r: Member, m: Member, gone: set<string>) {
    && r.key == m.key
    && (m.key !in ["wires", "links"] || !m.value.Arr? ==> r.value == m.value)
    && (m.key == "wires" && m.value.Arr? ==>
          && r.value.Arr? && |r.value.items| == |m.value.items|
          && forall w :: 0 <= w < |m.value.items| ==>
               && r.value.items[w].Arr?
               && Without(r.value.items[w].items, if m.value.items[w].Arr? then m.value.items[w].items else [], gone))
    && (m.key == "links" && m.value.Arr? ==> r.value.Arr? && Without(r.value.items, m.value.items, gone))
  }

  /** The nodes at these rising positions are those that do not go, and `out` holds them, cleared member by member. */
  ghost predicate RemainsAt(out: seq<Node>, nodes: seq<Node>, drop: set<string>, gone: set<string>, at: seq<nat>) {
    && Rising(at, |nodes|) && |at| == |out|
    && (forall i, s :: 0 <= i < |nodes| && Member("id", Str(s)) in nodes[i] ==> (i in at <==> !Goes(nodes, drop, s)))
    && forall i :: 0 <= i < |out| ==>
         |out[i]| == |nodes[at[i]]| && forall j :: 0 <= j < |out[i]| ==> Cleared(out[i][j], nodes[at[i]][j], gone)
  }

  lemma {:induction false} GoesIff(nodes: seq<Node>, drop: set<string>, s: string)
    requires AllNodes(nodes)
    ensures s in Gone(nodes, drop) <==> Goes(nodes, drop, s)
  {
    forall i, z | 0 <= i < |nodes|
      ensures Id(nodes[i]) == z <==> Member("id", Str(z)) in nodes[i]
      ensures StringProp(nodes[i], "z") && StringOf(nodes[i], "z") == z <==> Member("z", Str(z)) in nodes[i]
    {
      NodeMembers(nodes[i], z);
    }
    hide IsNode, StringProp, StringOf, Id;
    if s in Gone(nodes, drop) && s !in drop {
      var i :| 0 <= i < |nodes| && OnContainer(nodes[i], drop) && Id(nodes[i]) == s;
      assert Member("z", Str(StringOf(nodes[i], "z"))) in nodes[i];
    }
  }

  lemma {:induction false} KeepIsWithout(ts: seq<Json>, gone: set<string>)
    ensures Without(Keep(ts, gone), ts, gone)
  {
    hide Keep, WithoutAt;
    if ts == [] {
      KeepOfNothing(gone);
      assert WithoutAt([], ts, gone, []) by { NothingWithout(gone); }
    } else {
      KeepIsWithout(ts[1..], gone);
      KeepStep(ts, gone);
      WithoutStep(Keep(ts[1..], gone), ts, gone);
    }
  }

  lemma {:induction false} KeepOfNothing(gone: set<string>)
    ensures Keep([], gone) == []
  {
  }

  lemma {:induction false} NothingWithout(gone: set<string>)
    ensures WithoutAt([], [], gone, [])
  {
  }

  lemma {:induction false} WithoutStep(out: seq<Json>, ts: seq<Json>, gone: set<string>)
    requires ts != [] && Without(out, ts[1..], gone)
    ensures Without((if ts[0].Str? && ts[0].s in gone then [] else [ts[0]]) + out, ts, gone)
  {
    hide Placed;
    var rest :| WithoutAt(out, ts[1..], gone, rest);
    var keep := !(ts[0].Str? && ts[0].s in gone);
    var more := (if keep then [ts[0]] else []) + out;
    var at := Placed(rest, keep);
    PlacedPositions(rest, |ts| - 1, keep);
    PlacedValues(out, ts, rest, keep);
    forall p | 0 <= p < |ts| ensures p in at <==> !(ts[p].Str? && ts[p].s in gone) {
      if p > 0 { assert ts[p] == ts[1..][p-1]; }
    }
    hide Rising;
    assert WithoutAt(more, ts, gone, at);
  }

  lemma {:induction false} KeepStep(ts: seq<Json>, gone: set<string>)
    requires ts != []
    ensures Keep(ts, gone) == (if ts[0].Str? && ts[0].s in gone then [] else [ts[0]]) + Keep(ts[1..], gone)
  {
  }

  lemma {:induction false} ScrubClears(n: Node, gone: set<string>, j: nat)
    requires j < |n|
    ensures Cleared(Scrub(n, gone)[j], n[j], gone)
  {
    var m := n[j];
    if m.key == "wires" && m.value.Arr? {
      forall w | 0 <= w < |m.value.items| {
        KeepIsWithout(WireLists(m.value.items)[w], gone);
      }
    } else if m.key == "links" && m.value.Arr? {
      KeepIsWithout(m.value.items, gone);
    }
    hide Without, Keep;
  }

  lemma {:induction false} RemovedRemains(nodes: seq<Node>, gone: set<string>) returns (at: seq<nat>)
    requires AllNodes(nodes)
    ensures var out := Removed(nodes, gone);
      && Rising(at, |nodes|) && |at| == |out|
      && (forall i :: 0 <= i < |nodes| ==> (i in at <==> Id(nodes[i]) !in gone))
      && forall i :: 0 <= i < |at| ==> at[i] < |nodes| && out[i] == Scrub(nodes[at[i]], gone)
  {
    hide IsNode, Scrub, Rising, Id, Placed, Removed;
    RemovedStep(nodes, gone);
    if nodes == [] {
      at := [];
      NothingRises();
    } else {
      var rest := RemovedRemains(nodes[1..], gone);
      var keep := Id(nodes[0]) !in gone;
      at := Placed(rest, keep);
      PlacedPositions(rest, |nodes| - 1, keep);
      ScrubbedAll(nodes, gone, rest);
      PlacedValues(Removed(nodes[1..], gone), Scrubs(nodes, gone), rest, keep);
      forall i | 0 <= i < |nodes| ensures i in at <==> Id(nodes[i]) !in gone {
        if i > 0 { assert nodes[i] == nodes[1..][i-1]; }
      }
    }
  }

  ghost function Scrubs(nodes: seq<Node>, gone: set<string>): seq<Node> {
    seq(|nodes|, i requires 0 <= i < |nodes| => Scrub(nodes[i], gone))
  }

  lemma {:induction false} ScrubbedAll(nodes: seq<Node>, gone: set<string>, rest: seq<nat>)
    requires nodes != [] && forall i :: 0 <= i < |rest| ==> rest[i] < |nodes| - 1
    ensures Scrubs(nodes, gone)[0] == Scrub(nodes[0], gone)
    ensures forall i :: 0 <= i < |rest| ==> Scrubs(nodes, gone)[1..][rest[i]] == Scrub(nodes[1..][rest[i]], gone)
  {
    hide Scrub;
  }

  lemma {:induction false} RemovedStep(nodes: seq<Node>, gone: set<string>)
    requires AllNodes(nodes)
    ensures nodes == [] ==> Removed(nodes, gone) == []
    ensures nodes != [] ==>
      Removed(nodes, gone) == (if Id(nodes[0]) in gone then [] else [Scrub(nodes[0], gone)]) + Removed(nodes[1..], gone)
  {
  }

  lemma {:induction false} RemovedRemainsAt(nodes: seq<Node>, drop: set<string>)
    requires AllNodes(nodes)
    ensures exists at :: RemainsAt(Removed(nodes, Gone(nodes, drop)), nodes, drop, Gone(nodes, drop), at)
  {
    var gone := Gone(nodes, drop);
    var at := RemovedRemains(nodes, gone);
    var out := Removed(nodes, gone);
    forall i, s | 0 <= i < |nodes| && Member("id", Str(s)) in nodes[i] ensures i in at <==> !Goes(nodes, drop, s) {
      NodeMembers(nodes[i], s);
      GoesIff(nodes, drop, s);
    }
    forall i, j | 0 <= i < |out| && 0 <= j < |out[i]| ensures Cleared(out[i][j], nodes[at[i]][j], gone) {
      ScrubClears(nodes[at[i]], gone, j);
    }
    hide Removed, Gone, Goes, Cleared, IsNode;
    assert RemainsAt(out, nodes, drop, gone, at);
  }

  /** The nodes that do not go, in their order, with every wire and link but those to what goes: no other target leaves
      or moves, and no other member changes. */
  method RemoveNodes(nodes: seq<Node>, drop: set<string>) returns (out: seq<Node>)
    requires AllNodes(nodes)
    ensures forall s :: s in Gone(nodes, drop) <==> Goes(nodes, drop, s)
    ensures exists at :: RemainsAt(out, nodes, drop, Gone(nodes, drop), at)
    ensures out == Removed(nodes, Gone(nodes, drop))
    ensures forall r :: r in out ==>
      IsNode(r) && Id(r) !in Gone(nodes, drop) && !OnContainer(r, drop) && PointsOutside(r, Gone(nodes, drop))
  {
    hide Scrub, IsNode, OnContainer, PointsOutside, Gone, RemainsAt;
    var gone := CollectGone(nodes, drop);
    out := Removed(nodes, gone);
    RemovedRemainsAt(nodes, drop);
    forall s ensures s in gone <==> Goes(nodes, drop, s) { GoesIff(nodes, drop, s); }
    forall j | 0 <= j < |out| { NothingDangles(nodes, drop, j); }
  }

  // ---- what scrubbing keeps ----

  lemma {:induction false} ScrubKeepsProps(n: Node, gone: set<string>, k: string)
    ensures Prop(Scrub(n, gone), k) == match Prop(n, k) case None => None case Some(v) => Some(ScrubProp(k, v, gone))
  {
    if n != [] {
      ScrubKeepsProps(n[1..], gone, k);
      HasKeySplits(n, k);
      HasKeySplits(Scrub(n, gone), k);
      assert Scrub(n, gone)[1..] == Scrub(n[1..], gone);
    }
  }

  lemma {:induction false} ScrubbedNode(n: Node, gone: set<string>)
    requires IsNode(n)
    ensures var r := Scrub(n, gone);
      IsNode(r) && Id(r) == Id(n) && Type(r) == Type(n) && Prop(r, "z") == Prop(n, "z")
  {
    ScrubKeepsProps(n, gone, "id");
    ScrubKeepsProps(n, gone, "type");
    ScrubKeepsProps(n, gone, "z");
  }

  /** Every remaining node is the scrubbed copy of one that is not gone. */
  lemma {:induction false} RemovedOrigin(nodes: seq<Node>, gone: set<string>, j: nat) returns (i: nat)
    requires AllNodes(nodes) && j < |Removed(nodes, gone)|
    ensures i < |nodes| && Id(nodes[i]) !in gone && Removed(nodes, gone)[j] == Scrub(nodes[i], gone)
  {
    hide Scrub, IsNode;
    if Id(nodes[0]) in gone {
      var k := RemovedOrigin(nodes[1..], gone, j);
      i := k + 1;
    } else if j == 0 {
      i := 0;
    } else {
      var k := RemovedOrigin(nodes[1..], gone, j - 1);
      i := k + 1;
    }
  }

  lemma {:induction false} RemovedAreNodes(nodes: seq<Node>, gone: set<string>)
    requires AllNodes(nodes)
    ensures AllNodes(Removed(nodes, gone))
  {
    forall j | 0 <= j < |Removed(nodes, gone)| ensures IsNode(Removed(nodes, gone)[j]) {
      var i := RemovedOrigin(nodes, gone, j);
      ScrubbedNode(nodes[i], gone);
    }
  }

  lemma {:induction false} KeptTargets(ts: seq<Json>, gone: set<string>)
    ensures forall t :: t in Keep(ts, gone) <==> t in ts && !(t.Str? && t.s in gone)
  {
    if ts != [] { KeptTargets(ts[1..], gone); }
  }

  function Links(n: Node): seq<Json> {
    var l := Prop(n, "links");
    if l.Some? && l.value.Arr? then l.value.items else []
  }

  /** No wire or link of n names an id in gone. */
  ghost predicate PointsOutside(n: Node, gone: set<string>) {
    && (forall w, s :: 0 <= w < |Outputs(n)| && s in gone ==> Str(s) !in Outputs(n)[w])
    && (forall s :: s in gone ==> Str(s) !in Links(n))
  }

  lemma {:induction false} ScrubbedPointsOutside(n: Node, gone: set<string>)
    ensures PointsOutside(Scrub(n, gone), gone)
  {
    ScrubKeepsProps(n, gone, "wires");
    ScrubKeepsProps(n, gone, "links");
    var r := Scrub(n, gone);
    hide Scrub, Prop;
    forall w, s | 0 <= w < |Outputs(r)| && s in gone ensures Str(s) !in Outputs(r)[w] {
      KeptTargets(WireLists(Prop(n, "wires").value.items)[w], gone);
    }
    if Prop(n, "links").Some? && Prop(n, "links").value.Arr? { KeptTargets(Prop(n, "links").value.items, gone); }
  }

  /** Nothing dangles: every remaining node is not gone, sits on no dropped container, and points only at kept ids. */
  lemma {:induction false} NothingDangles(nodes: seq<Node>, drop: set<string>, j: nat)
    requires AllNodes(nodes) && j < |Removed(nodes, Gone(nodes, drop))|
    ensures var r := Removed(nodes, Gone(nodes, drop))[j];
      IsNode(r) && Id(r) !in Gone(nodes, drop) && !OnContainer(r, drop) && PointsOutside(r, Gone(nodes, drop))
  {
    var gone := Gone(nodes, drop);
    var i := RemovedOrigin(nodes, gone, j);
    ScrubbedNode(nodes[i], gone);
    ScrubbedPointsOutside(nodes[i], gone);
  }

  /** Only wires and links are scrubbed. Every other reference to a removed id stays: a subflow instance's type, a
      group, a configuration node. */
  lemma {:induction false} OtherReferencesStay(n: Node, gone: set<string>, k: string)
    requires k != "wires" && k != "links"
    ensures Prop(Scrub(n, gone), k) == Prop(n, k)
  {
    ScrubKeepsProps(n, gone, k);
    hide Scrub;
  }

  /** Node m sits on node c, which goes with its dropped container, and nothing else drops m. */
  ghost predicate Stranded(nodes: seq<Node>, drop: set<string>, m: int, c: int)
    requires AllNodes(nodes)
  {
    && 0 <= m < |nodes| && 0 <= c < |nodes| && StringProp(nodes[m], "z") && StringOf(nodes[m], "z") == Id(nodes[c])
    && OnContainer(nodes[c], drop) && Id(nodes[m]) !in drop
    && forall k :: 0 <= k < |nodes| && Id(nodes[k]) == Id(nodes[m]) ==> !OnContainer(nodes[k], drop)
  }

  lemma {:induction false} GoneIff(nodes: seq<Node>, drop: set<string>, s: string)
    requires AllNodes(nodes)
    ensures s in Gone(nodes, drop) <==> s in drop || exists k ::
      0 <= k < |nodes| && OnContainer(nodes[k], drop) && Id(nodes[k]) == s
  {
    hide IsNode, OnContainer, Id;
  }

  /** A node that remains sits on a removed container exactly when it is stranded. */
  lemma {:induction false} StrandedIff(nodes: seq<Node>, drop: set<string>, m: nat)
    requires AllNodes(nodes) && m < |nodes|
    ensures Id(nodes[m]) !in Gone(nodes, drop) && OnContainer(nodes[m], Gone(nodes, drop)) <==>
            exists c :: Stranded(nodes, drop, m, c)
  {
    GoneIff(nodes, drop, Id(nodes[m]));
    if StringProp(nodes[m], "z") { GoneIff(nodes, drop, StringOf(nodes[m], "z")); }
    hide Gone, IsNode, StringProp, StringOf, Id;
    if Id(nodes[m]) !in Gone(nodes, drop) && OnContainer(nodes[m], Gone(nodes, drop)) {
      var c :| 0 <= c < |nodes| && OnContainer(nodes[c], drop) && Id(nodes[c]) == StringOf(nodes[m], "z");
      assert Stranded(nodes, drop, m, c);
    }
  }

  /** Only one level of containers is followed: no remaining node sits on a removed one exactly when no pasted node is
      stranded. */
  lemma {:induction false} ContainersStayIff(nodes: seq<Node>, drop: set<string>)
    requires AllNodes(nodes)
    ensures (forall r :: r in Removed(nodes, Gone(nodes, drop)) ==> !OnContainer(r, Gone(nodes, drop))) <==>
            !exists m, c :: Stranded(nodes, drop, m, c)
  {
    var gone := Gone(nodes, drop);
    var out := Removed(nodes, gone);
    forall r | r in out ensures exists i :: 0 <= i < |nodes| && Id(nodes[i]) !in gone && r == Scrub(nodes[i], gone) {
      var j :| 0 <= j < |out| && out[j] == r;
      var i := RemovedOrigin(nodes, gone, j);
    }
    forall i | 0 <= i < |nodes| ensures OnContainer(Scrub(nodes[i], gone), gone) == OnContainer(nodes[i], gone) {
      ScrubbedNode(nodes[i], gone);
    }
    hide Gone, Removed, Scrub, IsNode, OnContainer, Stranded, Id;
    forall i | 0 <= i < |nodes|
      ensures Id(nodes[i]) !in gone ==> Scrub(nodes[i], gone) in out
      ensures Id(nodes[i]) !in gone && OnContainer(nodes[i], gone) <==> exists c :: Stranded(nodes, drop, i, c)
    {
      StrandedIff(nodes, drop, i);
      if Id(nodes[i]) !in gone { var j := KeptNodeRemains(nodes, gone, i); }
    }
    forall m, c | Stranded(nodes, drop, m, c) ensures 0 <= m < |nodes| { StrandedIsNode(nodes, drop, m, c); }
  }

  lemma {:induction false} StrandedIsNode(nodes: seq<Node>, drop: set<string>, m: int, c: int)
    requires AllNodes(nodes) && Stranded(nodes, drop, m, c)
    ensures 0 <= m < |nodes|
  {
  }

  // ---- what stays behind ----

  function Plain(id: string, kind: string): Node { [Member("id", Str(id)), Member("type", Str(kind))] }

  function OnTab(id: string, kind: string, z: string): Node { Plain(id, kind) + [Member("z", Str(z))] }

  lemma {:induction false} PlainIsNode(id: string, kind: string)
    ensures var n := Plain(id, kind); IsNode(n) && Id(n) == id && Type(n) == kind && !HasKey(n, "z")
  {
    LookupAt(Plain(id, kind), 0);
    LookupAt(Plain(id, kind), 1);
  }

  lemma {:induction false} OnTabIsNode(id: string, kind: string, z: string)
    ensures var n := OnTab(id, kind, z);
      IsNode(n) && Id(n) == id && Type(n) == kind && StringProp(n, "z") && StringOf(n, "z") == z
  {
    LookupAt(OnTab(id, kind, z), 0);
    LookupAt(OnTab(id, kind, z), 1);
    LookupAt(OnTab(id, kind, z), 2);
  }

  /** A node two levels below a dropped tab is stranded: it stays, and what it sits on is removed. */
  lemma {:induction false} NestedNodeIsStranded(tab: string, inner: string, leaf: string, kind: string)
    requires tab != inner && tab != leaf && inner != leaf
    ensures var nodes := [Plain(tab, "tab"), OnTab(inner, kind, tab), OnTab(leaf, kind, inner)];
      AllNodes(nodes) && Stranded(nodes, {tab}, 2, 1)
  {
    PlainIsNode(tab, "tab");
    OnTabIsNode(inner, kind, tab);
    OnTabIsNode(leaf, kind, inner);
    hide IsNode, Plain, OnTab, StringProp, StringOf, Id;
    var nodes := [Plain(tab, "tab"), OnTab(inner, kind, tab), OnTab(leaf, kind, inner)];
    assert AllNodes(nodes);
    forall k | 0 <= k < |nodes| && Id(nodes[k]) == Id(nodes[2]) ensures !OnContainer(nodes[k], {tab}) { assert k == 2; }
  }

  /** Removing a subflow leaves its instances, whose type still names it. */
  lemma {:induction false} InstanceOutlivesItsSubflow(sub: string, id: string)
    requires id != sub
    ensures var nodes := [Plain(sub, "subflow"), Plain(id, SUBFLOW + sub)];
      && AllNodes(nodes) && sub in Gone(nodes, {sub})
      && exists r :: r in Removed(nodes, Gone(nodes, {sub})) && IsNode(r) && Type(r) == SUBFLOW + sub
  {
    PlainIsNode(sub, "subflow");
    PlainIsNode(id, SUBFLOW + sub);
    hide IsNode, Plain, StringOf, Id, Scrub;
    var nodes := [Plain(sub, "subflow"), Plain(id, SUBFLOW + sub)];
    assert AllNodes(nodes);
    GoneIff(nodes, {sub}, sub);
    GoneIff(nodes, {sub}, id);
    var gone := Gone(nodes, {sub});
    assert id !in gone;
    var j := KeptNodeRemains(nodes, gone, 1);
    ScrubbedNode(nodes[1], gone);
    assert Removed(nodes, gone)[j] in Removed(nodes, gone);
  }

  lemma {:induction false} KeptNodeRemains(nodes: seq<Node>, gone: set<string>, i: nat) returns (j: nat)
    requires AllNodes(nodes) && i < |nodes| && Id(nodes[i]) !in gone
    ensures j < |Removed(nodes, gone)| && Removed(nodes, gone)[j] == Scrub(nodes[i], gone)
  {
    hide Scrub, IsNode;
    if i == 0 {
      j := 0;
    } else {
      var k := KeptNodeRemains(nodes[1..], gone, i - 1);
      j := if Id(nodes[0]) in gone then k else k + 1;
    }
  }

  // ---- composition ----

  lemma {:induction false} KeepTwice(ts: seq<Json>, a: set<string>, b: set<string>)
    ensures Keep(Keep(ts, a), b) == Keep(ts, a + b)
  {
    if ts != [] {
      KeepTwice(ts[1..], a, b);
      var k := Keep(ts, a);
      if ts[0].Str? && ts[0].s in a {
        assert k == Keep(ts[1..], a);
      } else {
        assert k[1..] == Keep(ts[1..], a);
      }
    }
  }

  lemma {:induction false} ScrubTwice(n: Node, a: set<string>, b: set<string>)
    ensures Scrub(Scrub(n, a), b) == Scrub(n, a + b)
  {
    forall i | 0 <= i < |n|
      ensures ScrubProp(n[i].key, ScrubProp(n[i].key, n[i].value, a), b) == ScrubProp(n[i].key, n[i].value, a + b)
    {
      ScrubPropTwice(n[i].key, n[i].value, a, b);
    }
  }

  lemma {:induction false} ScrubPropTwice(k: string, v: Json, a: set<string>, b: set<string>)
    ensures ScrubProp(k, ScrubProp(k, v, a), b) == ScrubProp(k, v, a + b)
  {
    if k == "wires" && v.Arr? {
      var once, both := ScrubProp(k, v, a), ScrubProp(k, v, a + b);
      var twice := ScrubProp(k, once, b);
      forall w | 0 <= w < |v.items| ensures twice.items[w] == both.items[w] {
        assert WireLists(once.items)[w] == Keep(WireLists(v.items)[w], a);
        KeepTwice(WireLists(v.items)[w], a, b);
      }
      assert twice.items == both.items;
    } else if k == "links" && v.Arr? {
      KeepTwice(v.items, a, b);
    }
  }

  lemma {:induction false} RemovedTwice(nodes: seq<Node>, a: set<string>, b: set<string>)
    requires AllNodes(nodes) && AllNodes(Removed(nodes, a))
    ensures Removed(Removed(nodes, a), b) == Removed(nodes, a + b)
  {
    if nodes != [] {
      RemovedAreNodes(nodes[1..], a);
      RemovedTwice(nodes[1..], a, b);
      ScrubbedNode(nodes[0], a);
      ScrubTwice(nodes[0], a, b);
      hide Scrub, IsNode;
      var once := Removed(nodes, a);
      if Id(nodes[0]) in a {
        assert once == Removed(nodes[1..], a);
      } else {
        assert once[1..] == Removed(nodes[1..], a);
      }
    }
  }

  lemma {:induction false} GoneLater(nodes: seq<Node>, a: set<string>, b: set<string>, s: string)
    requires AllNodes(nodes) && AllNodes(Removed(nodes, Gone(nodes, a)))
    requires s in Gone(Removed(nodes, Gone(nodes, a)), b)
    ensures s in Gone(nodes, a + b)
  {
    var ga := Gone(nodes, a);
    var mid := Removed(nodes, ga);
    if s !in b {
      var j :| 0 <= j < |mid| && OnContainer(mid[j], b) && Id(mid[j]) == s;
      var i := RemovedOrigin(nodes, ga, j);
      ScrubbedNode(nodes[i], ga);
      assert OnContainer(nodes[i], a + b);
    }
  }

  lemma {:induction false} GoneInTheEnd(nodes: seq<Node>, a: set<string>, b: set<string>, s: string)
    requires AllNodes(nodes) && AllNodes(Removed(nodes, Gone(nodes, a)))
    requires s in Gone(nodes, a + b) && s !in Gone(nodes, a)
    ensures s in Gone(Removed(nodes, Gone(nodes, a)), b)
  {
    var ga := Gone(nodes, a);
    if s !in a + b {
      var i :| 0 <= i < |nodes| && OnContainer(nodes[i], a + b) && Id(nodes[i]) == s;
      assert !OnContainer(nodes[i], a);
      var j := KeptNodeRemains(nodes, ga, i);
      ScrubbedNode(nodes[i], ga);
      assert OnContainer(Removed(nodes, ga)[j], b);
    }
  }

  lemma {:induction false} GoneInSteps(nodes: seq<Node>, a: set<string>, b: set<string>)
    requires AllNodes(nodes) && AllNodes(Removed(nodes, Gone(nodes, a)))
    ensures Gone(nodes, a) + Gone(Removed(nodes, Gone(nodes, a)), b) == Gone(nodes, a + b)
  {
    var ga, gb, all := Gone(nodes, a), Gone(Removed(nodes, Gone(nodes, a)), b), Gone(nodes, a + b);
    forall s | s in ga ensures s in all { GoneGrows(nodes, a, b, s); }
    hide Gone, Removed, IsNode;
    forall s | s in gb ensures s in all { GoneLater(nodes, a, b, s); }
    forall s | s in all && s !in ga ensures s in gb { GoneInTheEnd(nodes, a, b, s); }
  }

  lemma {:induction false} GoneGrows(nodes: seq<Node>, a: set<string>, b: set<string>, s: string)
    requires AllNodes(nodes) && s in Gone(nodes, a)
    ensures s in Gone(nodes, a + b)
  {
  }

  /** Removing A and then B is removing A ∪ B in one call, whatever the ids. */
  lemma {:induction false} RemovalComposes(nodes: seq<Node>, a: set<string>, b: set<string>)
    requires AllNodes(nodes)
    ensures AllNodes(Removed(nodes, Gone(nodes, a)))
    ensures var mid := Removed(nodes, Gone(nodes, a));
      Removed(mid, Gone(mid, b)) == Removed(nodes, Gone(nodes, a + b))
  {
    RemovedAreNodes(nodes, Gone(nodes, a));
    GoneInSteps(nodes, a, b);
    RemovedTwice(nodes, Gone(nodes, a), Gone(Removed(nodes, Gone(nodes, a)), b));
  }

  /** Removing again changes nothing. */
  lemma {:induction false} RemovalIsIdempotent(nodes: seq<Node>, drop: set<string>)
    requires AllNodes(nodes)
    ensures AllNodes(Removed(nodes, Gone(nodes, drop)))
    ensures var once := Removed(nodes, Gone(nodes, drop)); Removed(once, Gone(once, drop)) == once
  {
    RemovalComposes(nodes, drop, drop);
    assert drop + drop == drop;
  }
}
