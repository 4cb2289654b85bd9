/** Re-ided nodes as the analysis reads them: a copy made by assignment turns a `__proto__` member into its prototype,
    and reading `z` or `wires` then finds inherited members too (node-red-import.ts). */
module NodeRedCopies {
  import opened Json
  import opened NodeRed
  import opened NodeRedFlow
  import opened Wrappers

  // ---- prototypes ----

  /** What reading k finds on the chain that begins with an object made from v: its members, then its prototype's.
      Values that are no objects give no members that the analysis reads. */
  function Inherited(v: Json, k: string): Option<Json> {
    match v
    case Obj(ms) =>
      if k != PROTO && HasKey(ms, k) then Some(Lookup(ms, k))
      else if HasKey(ms, PROTO) then Inherited(Lookup(ms, PROTO), k)
      else None
    case _ => None
  }

  /** The same chain on the copy that swap makes. */
  function CopyInherited(v: Json, ids: map<string, string>, k: string): Option<Json> {
    match v
    case Obj(ms) =>
      if HasKey(SwapMembers(ms, ids), k) then Some(Lookup(SwapMembers(ms, ids), k))
      else if HasKey(ms, PROTO) then CopyInherited(Lookup(ms, PROTO), ids, k)
      else None
    case _ => None
  }

  function With(own: Node, k: string, inherited: Option<Json>): Node {
    if HasKey(own, k) || inherited.None? then own else own + [Member(k, inherited.value)]
  }

  /** A re-ided node with the inherited members that the analysis reads. */
  function CopyAsRead(n: Node, ids: map<string, string>): Node {
    var own := ReidNode(n, ids);
    if !HasKey(n, PROTO) then own
    else
      var proto := Lookup(n, PROTO);
      With(With(own, "z", CopyInherited(proto, ids, "z")), "wires", CopyInherited(proto, ids, "wires"))
  }

  function CopiesAsRead(nodes: seq<Node>, ids: map<string, string>): seq<Node> {
    seq(|nodes|, i requires 0 <= i < |nodes| => CopyAsRead(nodes[i], ids))
  }

  /** A pasted node with what its prototype member would give it. */
  function AsRead(n: Node): Node {
    if !HasKey(n, PROTO) then n
    else
      var proto := Lookup(n, PROTO);
      With(With(n, "z", Inherited(proto, "z")), "wires", Inherited(proto, "wires"))
  }

  function AllAsRead(nodes: seq<Node>): seq<Node> {
    seq(|nodes|, i requires 0 <= i < |nodes| => AsRead(nodes[i]))
  }

  // ---- a copy reads as the re-ided reading of the original ----

  lemma {:induction false} InheritedIsSwapped(v: Json, ids: map<string, string>, k: string)
    requires k != PROTO
    ensures CopyInherited(v, ids, k) == match Inherited(v, k) case None => None case Some(x) => Some(Swap(x, ids))
  {
    if v.Obj? {
      SwapKeepsMembers(v.members, ids, k);
      hide SwapMembers, Swap;
      if HasKey(v.members, PROTO) { InheritedIsSwapped(Lookup(v.members, PROTO), ids, k); }
    }
  }

  lemma {:induction false} ReidAppend(n: Node, m: Member, ids: map<string, string>)
    requires m.key != PROTO
    ensures ReidNode(n + [m], ids) == ReidNode(n, ids) + [Member(m.key, ReidProp(m.key, m.value, ids))]
  {
    if n == [] {
      assert [] + [m] == [m];
      assert [m][1..] == [];
    } else {
      ReidAppend(n[1..], m, ids);
      assert (n + [m])[1..] == n[1..] + [m];
    }
  }

  lemma {:induction false} ReidWith(n: Node, k: string, inherited: Option<Json>, ids: map<string, string>)
    requires k == "z" || k == "wires"
    ensures ReidNode(With(n, k, inherited), ids) ==
            With(ReidNode(n, ids), k, match inherited case None => None case Some(v) => Some(Swap(v, ids)))
  {
    ReidKeepsProps(n, ids, k);
    hide ReidNode;
    if !HasKey(n, k) && inherited.Some? {
      ReidAppend(n, Member(k, inherited.value), ids);
      assert !FreeText(k) && !SubflowType(k, inherited.value);
    }
  }

  lemma {:induction false} CopyReadsAs(n: Node, ids: map<string, string>)
    ensures CopyAsRead(n, ids) == ReidNode(AsRead(n), ids)
  {
    if HasKey(n, PROTO) {
      var proto := Lookup(n, PROTO);
      InheritedIsSwapped(proto, ids, "z");
      InheritedIsSwapped(proto, ids, "wires");
      ReidWith(n, "z", Inherited(proto, "z"), ids);
      ReidWith(With(n, "z", Inherited(proto, "z")), "wires", Inherited(proto, "wires"), ids);
      hide Inherited, CopyInherited, ReidNode, With, Swap;
    }
  }

  lemma {:induction false} CopiesReadAs(nodes: seq<Node>, ids: map<string, string>)
    ensures CopiesAsRead(nodes, ids) == ReidAll(AllAsRead(nodes), ids)
  {
    forall i | 0 <= i < |nodes| { CopyReadsAs(nodes[i], ids); }
    hide AsRead, CopyAsRead, ReidNode;
  }

  // ---- the reading is still a fresh node ----

  lemma {:induction false} WithIsNode(n: Node, k: string, inherited: Option<Json>)
    requires IsNode(n) && (k == "z" || k == "wires")
    ensures var r := With(n, k, inherited); IsNode(r) && Id(r) == Id(n) && Type(r) == Type(n)
  {
    if !HasKey(n, k) && inherited.Some? {
      var r := n + [Member(k, inherited.value)];
      AppendKeeps(n, Member(k, inherited.value), "id");
      AppendKeeps(n, Member(k, inherited.value), "type");
      forall i, j | 0 <= i < j < |r| ensures r[i].key != r[j].key {
        assert j == |n| ==> r[i].key == n[i].key && HasKey(n, n[i].key);
      }
    }
  }

  lemma {:induction false} AppendKeeps(n: Node, m: Member, k: string)
    requires HasKey(n, k)
    ensures Prop(n + [m], k) == Prop(n, k)
  {
    HasKeySplits(n, k);
    if n[0].key != k {
      AppendKeeps(n[1..], m, k);
      assert (n + [m])[1..] == n[1..] + [m];
    }
    assert (n + [m])[0] == n[0];
    HasKeySplits(n + [m], k);
  }

  lemma {:induction false} AsReadIsNode(n: Node)
    requires IsNode(n)
    ensures IsNode(AsRead(n)) && Id(AsRead(n)) == Id(n) && Type(AsRead(n)) == Type(n)
  {
    if HasKey(n, PROTO) {
      var proto := Lookup(n, PROTO);
      WithIsNode(n, "z", Inherited(proto, "z"));
      WithIsNode(With(n, "z", Inherited(proto, "z")), "wires", Inherited(proto, "wires"));
      hide IsNode, With, Inherited;
    }
  }

  lemma {:induction false} InheritedAvoids(v: Json, k: string, taken: map<string, string>)
    requires Avoids(v, taken) && Inherited(v, k).Some?
    ensures Avoids(Inherited(v, k).value, taken)
  {
    if v.Obj? && !(k != PROTO && HasKey(v.members, k)) {
      InheritedAvoids(Lookup(v.members, PROTO), k, taken);
    }
  }

  ghost predicate AvoidsAll(n: Node, back: map<string, string>) {
    forall j :: 0 <= j < |n| ==> PropAvoids(n[j].key, n[j].value, back)
  }

  lemma {:induction false} WithAvoids(n: Node, k: string, inherited: Option<Json>, back: map<string, string>)
    requires AvoidsAll(n, back) && (k == "z" || k == "wires") && (inherited.Some? ==> Avoids(inherited.value, back))
    ensures AvoidsAll(With(n, k, inherited), back)
  {
    if inherited.Some? { assert !SubflowType(k, inherited.value) && PropAvoids(k, inherited.value, back); }
    hide PropAvoids;
  }

  lemma {:induction false} AsReadAvoids(n: Node, back: map<string, string>)
    requires AvoidsAll(n, back)
    ensures AvoidsAll(AsRead(n), back)
  {
    if HasKey(n, PROTO) {
      var proto := Lookup(n, PROTO);
      assert Avoids(proto, back) by {
        var j :| 0 <= j < |n| && n[j].key == PROTO && n[j].value == proto;
        assert PropAvoids(n[j].key, n[j].value, back) && !FreeText(PROTO);
      }
      if Inherited(proto, "z").Some? { InheritedAvoids(proto, "z", back); }
      if Inherited(proto, "wires").Some? { InheritedAvoids(proto, "wires", back); }
      hide AvoidsAll, Inherited, Avoids, With;
      WithAvoids(n, "z", Inherited(proto, "z"), back);
      WithAvoids(With(n, "z", Inherited(proto, "z")), "wires", Inherited(proto, "wires"), back);
    }
  }

  lemma {:induction false} AllAsReadIsFresh(nodes: seq<Node>, back: map<string, string>)
    requires Fresh(nodes, back)
    ensures Fresh(AllAsRead(nodes), back)
  {
    forall i | 0 <= i < |nodes| ensures AvoidsAll(AsRead(nodes[i]), back) {
      assert AvoidsAll(nodes[i], back);
      AsReadAvoids(nodes[i], back);
    }
    hide AsRead, PropAvoids;
  }

  // ---- entries and exits ----

  /** Re-iding keeps the graph as the analysis reads it: a copy is wired into exactly when the original is, counting the
      wires that a prototype member gives. */
  lemma {:induction false} WiredIntoIsKept(nodes: seq<Node>, ids: map<string, string>, back: map<string, string>,
                                           s: string)
    requires Inverse(ids, back) && Fresh(nodes, back) && s in ids
    ensures WiredInto(CopiesAsRead(nodes, ids), Str(ids[s])) <==> WiredInto(AllAsRead(nodes), Str(s))
  {
    CopiesReadAs(nodes, ids);
    AllAsReadIsFresh(nodes, back);
    OwnWiresAreKept(AllAsRead(nodes), ids, back, s);
    hide WiredInto, Fresh, Inverse;
  }

  /** The analysis finds the entries and exits of the copies where it finds those of the nodes as their prototype
      members would have them. */
  lemma {:induction false} ReidKeepsEnds(nodes: seq<Node>, ids: map<string, string>, back: map<string, string>, i: nat)
    requires AllNodes(nodes) && Inverse(ids, back) && Fresh(nodes, back) && KeepsSpecialNames(ids, back)
    requires forall k :: 0 <= k < |nodes| ==> Id(nodes[k]) in ids
    requires i < |nodes|
    ensures AllNodes(CopiesAsRead(nodes, ids)) && AllNodes(AllAsRead(nodes))
    ensures IsEntry(CopiesAsRead(nodes, ids), i) <==> IsEntry(AllAsRead(nodes), i)
    ensures IsExit(CopiesAsRead(nodes, ids)[i]) <==> IsExit(AllAsRead(nodes)[i])
  {
    forall k | 0 <= k < |nodes| { AsReadIsNode(nodes[k]); }
    CopiesReadAs(nodes, ids);
    AllAsReadIsFresh(nodes, back);
    hide AsRead, IsNode, IsEntry, IsExit, Fresh, Inverse, KeepsSpecialNames, CopyAsRead;
    OwnMembersKeepEnds(AllAsRead(nodes), ids, back, i);
  }

  ghost predicate SameEnds(a: seq<Node>, b: seq<Node>)
    requires AllNodes(a) && AllNodes(b) && |a| == |b|
  {
    forall i :: 0 <= i < |a| ==> (IsEntry(a, i) <==> IsEntry(b, i)) && (IsExit(a[i]) <==> IsExit(b[i]))
  }

  /** So the analysis finds the same ends before and after exactly when giving the pasted nodes their prototypes'
      members changes none; in particular when no node has a prototype member. */
  lemma {:induction false} EndsAreKeptIff(nodes: seq<Node>, ids: map<string, string>, back: map<string, string>)
    requires AllNodes(nodes) && Inverse(ids, back) && Fresh(nodes, back) && KeepsSpecialNames(ids, back)
    requires forall k :: 0 <= k < |nodes| ==> Id(nodes[k]) in ids
    ensures AllNodes(CopiesAsRead(nodes, ids)) && AllNodes(AllAsRead(nodes))
    ensures SameEnds(CopiesAsRead(nodes, ids), nodes) <==> SameEnds(AllAsRead(nodes), nodes)
    ensures (forall k :: 0 <= k < |nodes| ==> !HasKey(nodes[k], PROTO)) ==> SameEnds(CopiesAsRead(nodes, ids), nodes)
  {
    hide *;
    CopiesAreNodes(nodes, ids, back);
    CopiesHaveTheseEnds(nodes, ids, back);
    Lengths(nodes, ids);
    SameEndsAs(CopiesAsRead(nodes, ids), AllAsRead(nodes), nodes);
    if forall k :: 0 <= k < |nodes| ==> !HasKey(nodes[k], PROTO) {
      NoPrototypes(nodes);
      SameEndsItself(nodes);
    }
  }

  lemma {:induction false} Lengths(nodes: seq<Node>, ids: map<string, string>)
    ensures |CopiesAsRead(nodes, ids)| == |AllAsRead(nodes)| == |nodes|
  {
  }

  lemma {:induction false} CopiesHaveTheseEnds(nodes: seq<Node>, ids: map<string, string>, back: map<string, string>)
    requires AllNodes(nodes) && Inverse(ids, back) && Fresh(nodes, back) && KeepsSpecialNames(ids, back)
    requires forall k :: 0 <= k < |nodes| ==> Id(nodes[k]) in ids
    requires AllNodes(CopiesAsRead(nodes, ids)) && AllNodes(AllAsRead(nodes))
    ensures SameEnds(CopiesAsRead(nodes, ids), AllAsRead(nodes))
  {
    hide IsNode, IsEntry, IsExit, CopyAsRead, AsRead, Fresh, Inverse, KeepsSpecialNames, AllNodes, Id;
    forall i | 0 <= i < |nodes| { ReidKeepsEnds(nodes, ids, back, i); }
  }

  lemma {:induction false} SameEndsAs(a: seq<Node>, b: seq<Node>, c: seq<Node>)
    requires AllNodes(a) && AllNodes(b) && AllNodes(c) && |a| == |b| == |c| && SameEnds(a, b)
    ensures SameEnds(a, c) <==> SameEnds(b, c)
  {
    hide IsNode, IsEntry, IsExit;
  }

  lemma {:induction false} SameEndsItself(a: seq<Node>)
    requires AllNodes(a)
    ensures SameEnds(a, a)
  {
  }

  lemma {:induction false} CopiesAreNodes(nodes: seq<Node>, ids: map<string, string>, back: map<string, string>)
    requires AllNodes(nodes) && Inverse(ids, back) && Fresh(nodes, back) && KeepsSpecialNames(ids, back)
    requires forall k :: 0 <= k < |nodes| ==> Id(nodes[k]) in ids
    ensures AllNodes(CopiesAsRead(nodes, ids)) && AllNodes(AllAsRead(nodes))
  {
    if nodes != [] { ReidKeepsEnds(nodes, ids, back, 0); }
    hide IsNode;
  }

  lemma {:induction false} NoPrototypes(nodes: seq<Node>)
    requires forall k :: 0 <= k < |nodes| ==> !HasKey(nodes[k], PROTO)
    ensures AllAsRead(nodes) == nodes
  {
  }

  /** A flow node without outputs of its own is no exit, and its copy is one when its prototype member holds an open
      output. */
  lemma {:induction false} OpenPrototype(n: Node, i: nat)
    requires IsNode(n) && IsFlowNode(n) && Type(n) != "link out" && !HasKey(n, "wires")
    requires i < |n| && n[i] == Member(PROTO, Obj([Member("wires", Arr([Arr([])]))]))
    ensures !IsExit(n) && IsNode(AsRead(n)) && IsExit(AsRead(n))
  {
    hide *;
    OpenAsRead(n, i);
    AsReadIsNode(n);
    KeepsZ(n, Member("wires", Arr([Arr([])])));
    OpenIsExit(AsRead(n), |n|);
    NoOutputsNoExit(n);
  }

  lemma {:induction false} NoOutputsNoExit(n: Node)
    requires IsNode(n) && !HasKey(n, "wires")
    ensures !IsExit(n)
  {
    hide IsNode;
  }

  lemma {:induction false} KeepsZ(n: Node, m: Member)
    requires IsNode(n) && IsFlowNode(n)
    ensures StringProp(n + [m], "z") && Type(n) !in CONTAINERS
  {
    AppendKeeps(n, m, "z");
  }

  lemma {:induction false} OpenAsRead(n: Node, i: nat)
    requires IsNode(n) && IsFlowNode(n) && !HasKey(n, "wires")
    requires i < |n| && n[i] == Member(PROTO, Obj([Member("wires", Arr([Arr([])]))]))
    ensures AsRead(n) == n + [Member("wires", Arr([Arr([])]))]
  {
    var ms := [Member("wires", Arr([Arr([])]))];
    LookupAt(n, i);
    LookupAt(ms, 0);
    hide DistinctKeys;
    assert Inherited(Obj(ms), "wires") == Some(Arr([Arr([])]));
  }

  lemma {:induction false} OpenIsExit(r: Node, i: nat)
    requires IsNode(r) && StringProp(r, "z") && Type(r) !in CONTAINERS && Type(r) != "link out"
    requires i < |r| && r[i] == Member("wires", Arr([Arr([])]))
    ensures IsExit(r)
  {
    LookupAt(r, i);
    hide DistinctKeys, StringProp;
    assert Prop(r, "wires") == Some(Arr([Arr([])]));
    assert Outputs(r)[0] == [];
  }

  const PASTED: Node := [Member("id", Str("a")), Member("type", Str("f")), Member("z", Str("t")),
                         Member(PROTO, Obj([Member("wires", Arr([Arr([])]))]))]

  /** Such a node passes every condition of the analysis, and re-iding turns it into an exit. */
  lemma {:induction false} PrototypeMakesAnExit(m: string)
    requires m != "a" && m !in SPECIAL && m != "f" && m != "t" && !(SUBFLOW <= m)
    ensures var ids, back: map<string, string> := map["a" := m], map[m := "a"];
      && IsNode(PASTED) && Id(PASTED) == "a" && Inverse(ids, back) && Fresh([PASTED], back) &&
        KeepsSpecialNames(ids, back)
      && AllNodes(CopiesAsRead([PASTED], ids)) && !IsExit(PASTED) && IsExit(CopiesAsRead([PASTED], ids)[0])
  {
    var ids, back: map<string, string> := map["a" := m], map[m := "a"];
    OneRename("a", m);
    PastedIsNode();
    PastedIsFresh(back);
    hide *;
    CopyOfOpenPrototype(PASTED, 3, ids, back);
  }

  lemma {:induction false} OneRename(s: string, m: string)
    requires s !in SPECIAL && m !in SPECIAL
    ensures Inverse(map[s := m], map[m := s]) && KeepsSpecialNames(map[s := m], map[m := s])
  {
    hide SPECIAL;
  }

  lemma {:induction false} CopyOfOpenPrototype(n: Node, i: nat, ids: map<string, string>, back: map<string, string>)
    requires IsNode(n) && IsFlowNode(n) && Type(n) != "link out" && !HasKey(n, "wires")
    requires i < |n| && n[i] == Member(PROTO, Obj([Member("wires", Arr([Arr([])]))]))
    requires Id(n) in ids && Inverse(ids, back) && Fresh([n], back) && KeepsSpecialNames(ids, back)
    ensures AllNodes(CopiesAsRead([n], ids)) && !IsExit(n) && IsExit(CopiesAsRead([n], ids)[0])
  {
    assert AllNodes([n]) && AllAsRead([n])[0] == AsRead(n);
    hide IsExit, IsNode, Fresh, Inverse, KeepsSpecialNames, AsRead, CopyAsRead, IsFlowNode;
    OpenPrototype(n, i);
    ReidKeepsEnds([n], ids, back, 0);
  }

  lemma {:induction false} PastedIsNode()
    ensures IsNode(PASTED) && Id(PASTED) == "a" && IsFlowNode(PASTED) && Type(PASTED) == "f" && !HasKey(PASTED, "wires")
    ensures |PASTED| == 4 && PASTED[3] == Member(PROTO, Obj([Member("wires", Arr([Arr([])]))]))
  {
    LookupAt(PASTED, 0);
    LookupAt(PASTED, 1);
    LookupAt(PASTED, 2);
  }

  lemma {:induction false} PastedIsFresh(back: map<string, string>)
    requires forall s :: s in ["a", "f", "t"] ==> s !in back
    requires forall s :: s in back ==> !(SUBFLOW <= s)
    ensures Fresh([PASTED], back)
  {
    assert "a" in ["a", "f", "t"] && "f" in ["a", "f", "t"] && "t" in ["a", "f", "t"];
    assert Avoids(Arr([]), back) && Avoids(Arr([Arr([])]), back);
    var ms := [Member("wires", Arr([Arr([])]))];
    assert Avoids(ms[0].value, back) && Avoids(Obj(ms), back);
  }

  /** And re-iding back does not return it: its prototype member is lost. */
  lemma {:induction false} PrototypeIsLost(m: string)
    requires m != "a" && m !in SPECIAL && m != "f" && m != "t" && !(SUBFLOW <= m)
    ensures var ids, back: map<string, string> := map["a" := m], map[m := "a"];
      Inverse(ids, back) && Fresh([PASTED], back) && ReidAll(ReidAll([PASTED], ids), back) != [PASTED]
  {
    var ids, back: map<string, string> := map["a" := m], map[m := "a"];
    PrototypeMakesAnExit(m);
    ReidRoundTripsIff([PASTED], ids, back);
    assert PASTED[3].key == PROTO && !NodeHasNoProto(PASTED);
    hide PASTED, NodeHasNoProto, Fresh, Inverse, ReidAll;
    assert [PASTED][0] == PASTED;
  }
}
