/** The flow inserter around re-iding: accepting a paste, finding entries and exits. */
module NodeRedFlow {
  import opened Json
  import opened NodeRed
  import opened Positions
  import opened Wrappers

  // ---- parseNodeRedPaste ----

  datatype Paste = Blank | BadJson | Parsed(value: Json)
  datatype PasteError =
    EmptyPaste | NotJson | NotAnArray | NotAnObject(at: nat) | NoId(at: nat) | NoType(at: nat) | Duplicate(at: nat)
  datatype Result<+T, +E> = Ok(value: T) | Err(error: E)

  predicate IsSpace(c: char) {
    c as int in {9, 10, 11, 12, 13, 32, 0xA0, 0x1680, 0x2028, 0x2029, 0x202F, 0x205F, 0x3000, 0xFEFF} ||
      0x2000 <= c as int <= 0x200A
  }

  /** The 25 white space characters and line terminators that trim() removes, one by one. */
  lemma {:induction false} SpacesOneByOne(c: char)
    ensures IsSpace(c) <==>
      c as int in {0x09, 0x0A, 0x0B, 0x0C, 0x0D, 0x20, 0xA0, 0x1680, 0x2000, 0x2001, 0x2002, 0x2003, 0x2004, 0x2005,
                   0x2006, 0x2007, 0x2008, 0x2009, 0x200A, 0x2028, 0x2029, 0x202F, 0x205F, 0x3000, 0xFEFF}
  {
  }

  predicate IsBlank(s: string) { forall c :: c in s ==> IsSpace(c) }

  /** The array inside every shape Node-RED hands out. */
  function Unwrapped(v: Json): Json {
    if v.Obj? then
      if HasKey(v.members, "flows") && Lookup(v.members, "flows").Arr? then Lookup(v.members, "flows")
      else if HasKey(v.members, "nodes") && Lookup(v.members, "nodes").Arr? then Lookup(v.members, "nodes")
      else Arr([v])
    else v
  }

  predicate NamedNode(v: Json) {
    && v.Obj?
    && StringProp(v.members, "id") && !IsBlank(StringOf(v.members, "id"))
    && StringProp(v.members, "type") && !IsBlank(StringOf(v.members, "type"))
  }

  ghost predicate GoodUpTo(items: seq<Json>, n: nat)
    requires n <= |items|
  {
    && (forall i :: 0 <= i < n ==> NamedNode(items[i]))
    && (forall i, j :: 0 <= i < j < n ==> StringOf(items[i].members, "id") != StringOf(items[j].members, "id"))
  }

  /** Why an item is refused: the first test it fails; a named node can only repeat an id. */
  function Reason(v: Json, at: nat): PasteError {
    if !v.Obj? then NotAnObject(at)
    else if !StringProp(v.members, "id") || IsBlank(StringOf(v.members, "id")) then NoId(at)
    else if !NamedNode(v) then NoType(at)
    else Duplicate(at)
  }

  /** The reported item is the first bad one, with its own reason. */
  ghost predicate RefusedAt(items: seq<Json>, e: PasteError) {
    && (e.NotAnObject? || e.NoId? || e.NoType? || e.Duplicate?)
    && e.at < |items| && GoodUpTo(items, e.at) && !GoodUpTo(items, e.at + 1) && e == Reason(items[e.at], e.at)
  }

  method CheckItem(v: Json, at: nat, seen: set<string>) returns (r: Result<string, PasteError>)
    ensures r.Ok? <==> NamedNode(v) && StringOf(v.members, "id") !in seen
    ensures r.Ok? ==> r.value == StringOf(v.members, "id")
    ensures r.Err? ==>
      (r.error.NotAnObject? || r.error.NoId? || r.error.NoType? || r.error.Duplicate?) && r.error.at == at
    ensures r.Err? ==> r.error == Reason(v, at)
  {
    if !v.Obj? { return Err(NotAnObject(at)); }
    if !StringProp(v.members, "id") || IsBlank(StringOf(v.members, "id")) { return Err(NoId(at)); }
    if !StringProp(v.members, "type") || IsBlank(StringOf(v.members, "type")) { return Err(NoType(at)); }
    var id := StringOf(v.members, "id");
    if id in seen { return Err(Duplicate(at)); }
    r := Ok(id);
  }

  function Members(items: seq<Json>): seq<Node>
    requires forall i :: 0 <= i < |items| ==> items[i].Obj?
  {
    seq(|items|, i requires 0 <= i < |items| => items[i].members)
  }

  /** Returns the nodes, or the first reason why the paste is refused. */
  method ParsePaste(p: Paste) returns (r: Result<seq<Node>, PasteError>)
    ensures p.Blank? <==> r == Err(EmptyPaste)
    ensures p.BadJson? <==> r == Err(NotJson)
    ensures p.Parsed? ==>
      var v := Unwrapped(p.value);
      && (r == Err(NotAnArray) <==> !v.Arr?)
      && (v.Arr? ==> (r.Ok? <==> GoodUpTo(v.items, |v.items|)) && (r.Ok? ==> r.value == Members(v.items)))
      && (v.Arr? && r.Err? ==> RefusedAt(v.items, r.error))
  {
    if p.Blank? { return Err(EmptyPaste); }
    if p.BadJson? { return Err(NotJson); }
    var v := Unwrapped(p.value);
    if !v.Arr? { return Err(NotAnArray); }
    hide Unwrapped, NamedNode, StringOf, Reason;
    var seen: set<string> := {};
    for i := 0 to |v.items|
      invariant GoodUpTo(v.items, i)
      invariant forall s :: s in seen <==> exists k :: 0 <= k < i && StringOf(v.items[k].members, "id") == s
    {
      var item := CheckItem(v.items[i], i, seen);
      if item.Err? {
        assert !GoodUpTo(v.items, i + 1);
        return Err(item.error);
      }
      seen := seen + {item.value};
    }
    r := Ok(Members(v.items));
  }

  ghost predicate HasArray(v: Json, k: string) {
    v.Obj? && exists items :: Member(k, Arr(items)) in v.members
  }

  /** The items a paste stands for: its own, those under "flows", else those under "nodes", else the object itself. */
  ghost predicate StandsFor(v: Json, items: seq<Json>) {
    || v == Arr(items)
    || (v.Obj? && Member("flows", Arr(items)) in v.members)
    || (v.Obj? && !HasArray(v, "flows") && Member("nodes", Arr(items)) in v.members)
    || (v.Obj? && !HasArray(v, "flows") && !HasArray(v, "nodes") && items == [v])
  }

  lemma {:induction false} HasArrayIff(v: Json, k: string)
    requires v.Obj? && DistinctKeys(v.members)
    ensures HasArray(v, k) <==> HasKey(v.members, k) && Lookup(v.members, k).Arr?
    ensures forall items :: Member(k, Arr(items)) in v.members <==>
      HasKey(v.members, k) && Lookup(v.members, k) == Arr(items)
  {
    forall items ensures Member(k, Arr(items)) in v.members <==> Prop(v.members, k) == Some(Arr(items)) {
      PropIff(v.members, k, Arr(items));
    }
    hide DistinctKeys, HasKey;
    if HasKey(v.members, k) && Lookup(v.members, k).Arr? {
      assert Prop(v.members, k) == Some(Arr(Lookup(v.members, k).items));
    }
  }

  lemma {:induction false} UnwrappedIff(v: Json, items: seq<Json>)
    requires v.Obj? ==> DistinctKeys(v.members)
    ensures Unwrapped(v) == Arr(items) <==> StandsFor(v, items)
  {
    if v.Obj? {
      HasArrayIff(v, "flows");
      HasArrayIff(v, "nodes");
      hide HasArray, DistinctKeys, HasKey, Lookup;
    }
  }

  /** An object with an id and a type that are not blank. */
  lemma {:induction false} NamedNodeIff(v: Json)
    requires v.Obj? ==> DistinctKeys(v.members)
    ensures NamedNode(v) <==>
      && v.Obj?
      && (exists s :: Member("id", Str(s)) in v.members && exists c :: c in s && !IsSpace(c))
      && (exists s :: Member("type", Str(s)) in v.members && exists c :: c in s && !IsSpace(c))
  {
    if v.Obj? {
      forall k, s ensures Member(k, Str(s)) in v.members <==> Prop(v.members, k) == Some(Str(s)) {
        PropIff(v.members, k, Str(s));
      }
      hide Prop, DistinctKeys, IsSpace;
      if NamedNode(v) {
        assert Member("id", Str(StringOf(v.members, "id"))) in v.members;
        assert Member("type", Str(StringOf(v.members, "type"))) in v.members;
      }
    }
  }

  /** An accepted paste is what re-iding asks for: nodes with distinct ids. */
  lemma {:induction false} AcceptedPasteHasDistinctIds(items: seq<Json>)
    requires GoodUpTo(items, |items|) && forall i :: 0 <= i < |items| ==> WellFormed(items[i])
    ensures AllNodes(Members(items)) && Distinct(Ids(Members(items)))
  {
    hide IsBlank, DistinctKeys;
    forall i | 0 <= i < |items| ensures IsNode(items[i].members) { NamedIsNode(items[i]); }
    hide IsNode, NamedNode, WellFormed;
  }

  lemma {:induction false} NamedIsNode(v: Json)
    requires NamedNode(v) && WellFormed(v)
    ensures IsNode(v.members)
  {
  }

  // ---- analyzeFlow: entries and exits ----

  const CONTAINERS := ["tab", "subflow"]
  const NOT_ENTRIES := ["comment", "link in", "inject"]

  /** Type names the analysis looks for. */
  const SPECIAL := ["tab", "subflow", "comment", "link in", "inject", "link out"]

  predicate IsFlowNode(n: Node)
    requires IsNode(n)
  {
    StringProp(n, "z") && Type(n) !in CONTAINERS
  }

  function Outputs(n: Node): seq<seq<Json>> {
    var w := Prop(n, "wires");
    if w.Some? && w.value.Arr? then WireLists(w.value.items) else []
  }

  function WireLists(ws: seq<Json>): seq<seq<Json>> {
    seq(|ws|, i requires 0 <= i < |ws| => if ws[i].Arr? then ws[i].items else [])
  }

  ghost predicate WiredInto(nodes: seq<Node>, t: Json) {
    exists i, w :: 0 <= i < |nodes| && 0 <= w < |Outputs(nodes[i])| && t in Outputs(nodes[i])[w]
  }

  ghost predicate IsEntry(nodes: seq<Node>, i: nat)
    requires AllNodes(nodes) && i < |nodes|
  {
    IsFlowNode(nodes[i]) && !WiredInto(nodes, Str(Id(nodes[i]))) && Type(nodes[i]) !in NOT_ENTRIES
  }

  ghost predicate IsExit(n: Node)
    requires IsNode(n)
  {
    IsFlowNode(n) && Type(n) != "link out" && exists w :: 0 <= w < |Outputs(n)| && Outputs(n)[w] == []
  }

  // ---- the same, said of the members themselves ----

  /** Some output of n names t. */
  ghost predicate Names(n: Node, t: Json) {
    exists ws: seq<Json>, w :: Member("wires", Arr(ws)) in n && 0 <= w < |ws| && ws[w].Arr? && t in ws[w].items
  }

  /** On a tab or inside a subflow, and neither of the two itself. */
  ghost predicate OnCanvas(n: Node) {
    && (exists z :: Member("z", Str(z)) in n)
    && Member("type", Str("tab")) !in n && Member("type", Str("subflow")) !in n
  }

  /** Where a tap feeds the snippet. */
  ghost predicate Entry(nodes: seq<Node>, i: nat)
    requires i < |nodes|
  {
    && OnCanvas(nodes[i])
    && (forall k, s :: 0 <= k < |nodes| && Member("id", Str(s)) in nodes[i] ==> !Names(nodes[k], Str(s)))
    && Member("type", Str("comment")) !in nodes[i] && Member("type", Str("link in")) !in nodes[i]
    && Member("type", Str("inject")) !in nodes[i]
  }

  /** Where publish is fed from: some output is not wired to anything. */
  ghost predicate Exit(n: Node) {
    && OnCanvas(n) && Member("type", Str("link out")) !in n
    && exists ws: seq<Json>, w :: Member("wires", Arr(ws)) in n && 0 <= w < |ws| && (!ws[w].Arr? || ws[w].items == [])
  }

  lemma {:induction false} TypeIs(n: Node, t: string)
    requires IsNode(n)
    ensures Type(n) == t <==> Member("type", Str(t)) in n
  {
    PropIff(n, "type", Str(t));
    hide Prop;
  }

  lemma {:induction false} OnCanvasIff(n: Node)
    requires IsNode(n)
    ensures IsFlowNode(n) <==> OnCanvas(n)
  {
    TypeIs(n, "tab");
    TypeIs(n, "subflow");
    if StringProp(n, "z") { NodeMembers(n, StringOf(n, "z")); }
    forall z ensures Member("z", Str(z)) in n <==> StringProp(n, "z") && StringOf(n, "z") == z { NodeMembers(n, z); }
    hide IsNode, StringProp, StringOf, Type;
  }

  lemma {:induction false} NamesIff(n: Node, t: Json)
    requires DistinctKeys(n)
    ensures Names(n, t) <==> exists w :: 0 <= w < |Outputs(n)| && t in Outputs(n)[w]
  {
    var p := Prop(n, "wires");
    if p.Some? { PropIff(n, "wires", p.value); }
    if Names(n, t) {
      var ws: seq<Json>, w :| Member("wires", Arr(ws)) in n && 0 <= w < |ws| && ws[w].Arr? && t in ws[w].items;
      PropIff(n, "wires", Arr(ws));
      hide Prop, DistinctKeys;
      assert t in Outputs(n)[w];
    }
    if w :| 0 <= w < |Outputs(n)| && t in Outputs(n)[w] {
      hide Prop, DistinctKeys;
      var ws := p.value.items;
      assert Member("wires", Arr(ws)) in n && ws[w].Arr? && t in ws[w].items;
    }
  }

  lemma {:induction false} EntryIff(nodes: seq<Node>, i: nat)
    requires AllNodes(nodes) && i < |nodes|
    ensures IsEntry(nodes, i) <==> Entry(nodes, i)
  {
    var id := Id(nodes[i]);
    OnCanvasIff(nodes[i]);
    TypeIs(nodes[i], "comment");
    TypeIs(nodes[i], "link in");
    TypeIs(nodes[i], "inject");
    forall s ensures id == s <==> Member("id", Str(s)) in nodes[i] { NodeMembers(nodes[i], s); }
    forall k | 0 <= k < |nodes|
      ensures Names(nodes[k], Str(id)) <==> exists w :: 0 <= w < |Outputs(nodes[k])| && Str(id) in Outputs(nodes[k])[w]
    {
      NamesIff(nodes[k], Str(id));
    }
    hide IsNode, Outputs, Names, OnCanvas, IsFlowNode, Id, Type;
  }

  lemma {:induction false} ExitIff(n: Node)
    requires IsNode(n)
    ensures IsExit(n) <==> Exit(n)
  {
    OnCanvasIff(n);
    TypeIs(n, "link out");
    OpenIff(n);
    hide IsNode, Outputs, OnCanvas, IsFlowNode, Type;
  }

  lemma {:induction false} OpenIff(n: Node)
    requires DistinctKeys(n)
    ensures (exists w :: 0 <= w < |Outputs(n)| && Outputs(n)[w] == []) <==>
      exists ws: seq<Json>, w :: Member("wires", Arr(ws)) in n && 0 <= w < |ws| && (!ws[w].Arr? || ws[w].items == [])
  {
    var p := Prop(n, "wires");
    if p.Some? { PropIff(n, "wires", p.value); }
    if ws: seq<Json>, w :| Member("wires", Arr(ws)) in n && 0 <= w < |ws| && (!ws[w].Arr? || ws[w].items == []) {
      PropIff(n, "wires", Arr(ws));
      hide Prop, DistinctKeys;
      assert Outputs(n)[w] == [];
    }
    if w :| 0 <= w < |Outputs(n)| && Outputs(n)[w] == [] {
      hide Prop, DistinctKeys;
      var ws := p.value.items;
      assert Member("wires", Arr(ws)) in n && (!ws[w].Arr? || ws[w].items == []);
    }
  }

  method Incoming(nodes: seq<Node>) returns (incoming: set<Json>)
    ensures forall t :: t in incoming <==> WiredInto(nodes, t)
  {
    hide Feeds, Outputs, WiredInto;
    incoming := {};
    for i := 0 to |nodes|
      invariant forall t :: t in incoming <==> exists k :: 0 <= k < i && Feeds(Outputs(nodes[k]), t)
    {
      var fed := Targets(Outputs(nodes[i]));
      incoming := incoming + fed;
    }
    forall t ensures t in incoming <==> WiredInto(nodes, t) { WiredIffFed(nodes, t); }
  }

  lemma {:induction false} WiredIffFed(nodes: seq<Node>, t: Json)
    ensures WiredInto(nodes, t) <==> exists k :: 0 <= k < |nodes| && Feeds(Outputs(nodes[k]), t)
  {
    hide Outputs;
    if WiredInto(nodes, t) {
      var i, w :| 0 <= i < |nodes| && 0 <= w < |Outputs(nodes[i])| && t in Outputs(nodes[i])[w];
      assert Feeds(Outputs(nodes[i]), t);
    }
    if exists k :: 0 <= k < |nodes| && Feeds(Outputs(nodes[k]), t) {
      var k :| 0 <= k < |nodes| && Feeds(Outputs(nodes[k]), t);
      var w :| 0 <= w < |Outputs(nodes[k])| && t in Outputs(nodes[k])[w];
    }
  }

  /** Some output is wired to t. */
  ghost predicate Feeds(outs: seq<seq<Json>>, t: Json) { exists w :: 0 <= w < |outs| && t in outs[w] }

  method Targets(outs: seq<seq<Json>>) returns (fed: set<Json>)
    ensures forall t :: t in fed <==> Feeds(outs, t)
  {
    fed := {};
    for w := 0 to |outs|
      invariant forall t :: t in fed <==> exists x :: 0 <= x < w && t in outs[x]
    {
      fed := fed + set t | t in outs[w];
    }
  }

  method HasOpenOutput(outs: seq<seq<Json>>) returns (open: bool)
    ensures open <==> exists w :: 0 <= w < |outs| && outs[w] == []
  {
    open := false;
    for w := 0 to |outs|
      invariant open <==> exists x :: 0 <= x < w && outs[x] == []
    {
      if outs[w] == [] { open := true; }
    }
  }

  method CheckEntry(nodes: seq<Node>, i: nat, incoming: set<Json>) returns (entry: bool)
    requires AllNodes(nodes) && i < |nodes| && forall t :: t in incoming <==> WiredInto(nodes, t)
    ensures entry <==> Entry(nodes, i)
  {
    EntryIff(nodes, i);
    hide Entry, WiredInto;
    entry := IsFlowNode(nodes[i]) && Str(Id(nodes[i])) !in incoming && Type(nodes[i]) !in NOT_ENTRIES;
  }

  method CheckExit(n: Node) returns (exit: bool)
    requires IsNode(n)
    ensures exit <==> Exit(n)
  {
    ExitIff(n);
    hide Exit;
    var open := HasOpenOutput(Outputs(n));
    exit := IsFlowNode(n) && Type(n) != "link out" && open;
  }

  /** The positions, in order, of the flow nodes nothing wires into and of those with an output wired to nothing. */
  method AnalyzeFlow(nodes: seq<Node>) returns (entries: seq<nat>, exits: seq<nat>)
    requires AllNodes(nodes)
    ensures Rising(entries, |nodes|) && forall i :: i in entries <==> 0 <= i < |nodes| && Entry(nodes, i)
    ensures Rising(exits, |nodes|) && forall i :: i in exits <==> 0 <= i < |nodes| && Exit(nodes[i])
  {
    hide WiredInto, IsNode, Entry, Exit;
    var incoming := Incoming(nodes);
    entries, exits := [], [];
    for i := 0 to |nodes|
      invariant Rising(entries, i) && forall k :: k in entries <==> 0 <= k < i && Entry(nodes, k)
      invariant Rising(exits, i) && forall k :: k in exits <==> 0 <= k < i && Exit(nodes[k])
    {
      var entry := CheckEntry(nodes, i, incoming);
      var exit := CheckExit(nodes[i]);
      assert forall a :: 0 <= a < |entries| ==> entries[a] in entries;
      assert forall a :: 0 <= a < |exits| ==> exits[a] in exits;
      if entry { entries := entries + [i]; }
      if exit { exits := exits + [i]; }
    }
  }

  // ---- re-iding keeps the ends ----

  lemma {:induction false} ReidKeepsDistinctKeys(n: Node, ids: map<string, string>)
    requires DistinctKeys(n)
    ensures DistinctKeys(ReidNode(n, ids))
    ensures forall i :: 0 <= i < |ReidNode(n, ids)| ==> HasKey(n, ReidNode(n, ids)[i].key)
  {
    if n != [] {
      ReidKeepsDistinctKeys(n[1..], ids);
      var r, rest := ReidNode(n, ids), ReidNode(n[1..], ids);
      forall k | HasKey(n[1..], k) ensures HasKey(n, k) && k != n[0].key {
        HasKeySplits(n, k);
        var i :| 0 <= i < |n[1..]| && n[1..][i].key == k;
        assert n[i+1].key == k;
      }
      if n[0].key == PROTO {
        assert r == rest;
      } else {
        assert r[1..] == rest && r[0].key == n[0].key;
        assert HasKey(n, n[0].key);
        forall i | 0 < i < |r| ensures HasKey(n, r[i].key) && r[i].key != r[0].key {
          assert r[i] == rest[i-1];
        }
      }
    }
  }

  /** Ids and types of a re-ided node; a special type is never an id and no id is minted as one. */
  ghost predicate KeepsSpecialNames(ids: map<string, string>, back: map<string, string>) {
    forall s :: s in SPECIAL ==> s !in ids && s !in back
  }

  lemma {:induction false} ReidedNode(n: Node, ids: map<string, string>, back: map<string, string>)
    requires IsNode(n) && Id(n) in ids && Inverse(ids, back) && KeepsSpecialNames(ids, back)
    ensures var r := ReidNode(n, ids);
      && IsNode(r) && Id(r) == ids[Id(n)] && StringProp(r, "z") == StringProp(n, "z")
      && forall s :: s in SPECIAL ==> (Type(r) == s <==> Type(n) == s)
  {
    ReidKeepsDistinctKeys(n, ids);
    ReidKeepsProps(n, ids, "id");
    ReidKeepsProps(n, ids, "type");
    ReidKeepsProps(n, ids, "z");
    ReidedType(Type(n), ids, back);
    ReidedString("id", Id(n), ids);
    if Prop(n, "z").Some? { ReidedKind("z", n, ids); }
    hide ReidNode, DistinctKeys, Inverse, Rename, Swap, Prop, ReidProp, KeepsSpecialNames;
  }

  lemma {:induction false} ReidedString(k: string, s: string, ids: map<string, string>)
    requires k == "id" && s in ids
    ensures ReidProp(k, Str(s), ids) == Str(ids[s])
  {
    assert !FreeText(k);
  }

  lemma {:induction false} ReidedKind(k: string, n: Node, ids: map<string, string>)
    requires k == "z" && Prop(n, k).Some?
    ensures ReidProp(k, Prop(n, k).value, ids).Str? <==> Prop(n, k).value.Str?
  {
    assert !FreeText(k);
  }

  lemma {:induction false} ReidedType(t: string, ids: map<string, string>, back: map<string, string>)
    requires Inverse(ids, back) && KeepsSpecialNames(ids, back)
    ensures var u := ReidProp("type", Str(t), ids); u.Str? && forall s :: s in SPECIAL ==> (u.s == s <==> t == s)
  {
    assert !FreeText("type");
    if SUBFLOW <= t {
      NoSpecialIsSubflow(t);
      NoSpecialIsSubflow(SUBFLOW + Rename(t[|SUBFLOW|..], ids));
    } else if t in ids {
      assert ids[t] in back;
    }
  }

  lemma {:induction false} NoSpecialIsSubflow(t: string)
    requires SUBFLOW <= t
    ensures t !in SPECIAL
  {
    assert t[7] == ':';
  }

  lemma {:induction false} ReidedOutputs(n: Node, ids: map<string, string>)
    ensures |Outputs(ReidNode(n, ids))| == |Outputs(n)|
    ensures forall w :: 0 <= w < |Outputs(n)| ==> SwappedList(Outputs(ReidNode(n, ids))[w], Outputs(n)[w], ids)
  {
    ReidKeepsProps(n, ids, "wires");
    var v := Prop(n, "wires");
    hide ReidNode, Prop;
    if v.Some? {
      assert !FreeText("wires");
      assert ReidProp("wires", v.value, ids) == Swap(v.value, ids);
      if v.value.Arr? { WireListsSwap(v.value.items, ids); }
    }
  }

  ghost predicate SwappedList(after: seq<Json>, before: seq<Json>, ids: map<string, string>) {
    |after| == |before| && forall x :: 0 <= x < |before| ==> after[x] == Swap(before[x], ids)
  }

  lemma {:induction false} WireListsSwap(ws: seq<Json>, ids: map<string, string>)
    ensures var ss := Swap(Arr(ws), ids).items;
      |WireLists(ss)| == |ws| && forall w :: 0 <= w < |ws| ==> SwappedList(WireLists(ss)[w], WireLists(ws)[w], ids)
  {
    var ss := Swap(Arr(ws), ids).items;
    forall w | 0 <= w < |ws| ensures SwappedList(WireLists(ss)[w], WireLists(ws)[w], ids) {
      assert ss[w] == Swap(ws[w], ids);
    }
  }

  lemma {:induction false} WiresAvoid(nodes: seq<Node>, back: map<string, string>, i: nat)
    requires Fresh(nodes, back) && i < |nodes| && Prop(nodes[i], "wires").Some? && Prop(nodes[i], "wires").value.Arr?
    ensures Avoids(Prop(nodes[i], "wires").value, back)
  {
    var n := nodes[i];
    var j :| 0 <= j < |n| && n[j].key == "wires" && n[j].value == Prop(n, "wires").value;
    assert PropAvoids(n[j].key, n[j].value, back);
    hide Fresh, Prop, Avoids;
    assert !FreeText("wires");
  }

  lemma {:induction false} TargetsOf(nodes: seq<Node>, back: map<string, string>, i: nat, w: nat, x: nat)
    requires Fresh(nodes, back) && i < |nodes| && w < |Outputs(nodes[i])| && x < |Outputs(nodes[i])[w]|
    ensures Avoids(Outputs(nodes[i])[w][x], back)
  {
    WiresAvoid(nodes, back, i);
    hide Fresh, Prop, PropAvoids;
    assert Avoids(Prop(nodes[i], "wires").value.items[w], back);
  }

  lemma {:induction false} SwapHitsOnlyItsId(t: Json, s: string, ids: map<string, string>, back: map<string, string>)
    requires Inverse(ids, back) && Avoids(t, back) && s in ids
    ensures Swap(t, ids) == Str(ids[s]) <==> t == Str(s)
  {
    if t.Str? && t.s !in ids { assert ids[s] in back; }
  }

  lemma {:induction false} OwnWiresAreKept(nodes: seq<Node>, ids: map<string, string>, back: map<string, string>,
                                           s: string)
    requires Inverse(ids, back) && Fresh(nodes, back) && s in ids
    ensures WiredInto(ReidAll(nodes, ids), Str(ids[s])) <==> WiredInto(nodes, Str(s))
  {
    if WiredInto(nodes, Str(s)) { WireMoves(nodes, ids, s); }
    if WiredInto(ReidAll(nodes, ids), Str(ids[s])) { WireCameFrom(nodes, ids, back, s); }
    hide WiredInto, ReidAll, Inverse, Fresh;
  }

  lemma {:induction false} WireMoves(nodes: seq<Node>, ids: map<string, string>, s: string)
    requires s in ids && WiredInto(nodes, Str(s))
    ensures WiredInto(ReidAll(nodes, ids), Str(ids[s]))
  {
    hide Outputs, ReidNode;
    var out := ReidAll(nodes, ids);
    var i, w :| 0 <= i < |nodes| && 0 <= w < |Outputs(nodes[i])| && Str(s) in Outputs(nodes[i])[w];
    var x :| 0 <= x < |Outputs(nodes[i])[w]| && Outputs(nodes[i])[w][x] == Str(s);
    ReidedOutputs(nodes[i], ids);
    assert SwappedList(Outputs(out[i])[w], Outputs(nodes[i])[w], ids);
    assert Outputs(out[i])[w][x] == Str(ids[s]);
  }

  lemma {:induction false} WireCameFrom(nodes: seq<Node>, ids: map<string, string>, back: map<string, string>,
                                        s: string)
    requires Inverse(ids, back) && Fresh(nodes, back) && s in ids && WiredInto(ReidAll(nodes, ids), Str(ids[s]))
    ensures WiredInto(nodes, Str(s))
  {
    hide Outputs, ReidNode, Inverse, Fresh;
    var out := ReidAll(nodes, ids);
    var i, w :| 0 <= i < |out| && 0 <= w < |Outputs(out[i])| && Str(ids[s]) in Outputs(out[i])[w];
    var x :| 0 <= x < |Outputs(out[i])[w]| && Outputs(out[i])[w][x] == Str(ids[s]);
    ReidedOutputs(nodes[i], ids);
    assert SwappedList(Outputs(out[i])[w], Outputs(nodes[i])[w], ids);
    TargetsOf(nodes, back, i, w, x);
    SwapHitsOnlyItsId(Outputs(nodes[i])[w][x], s, ids, back);
  }

  /** Read by their own members alone, re-iding keeps entries and exits at the same positions. */
  lemma {:induction false} OwnMembersKeepEnds(nodes: seq<Node>, ids: map<string, string>, back: map<string, string>,
                                              i: nat)
    requires AllNodes(nodes) && Inverse(ids, back) && Fresh(nodes, back) && KeepsSpecialNames(ids, back)
    requires forall k :: 0 <= k < |nodes| ==> Id(nodes[k]) in ids
    requires i < |nodes|
    ensures AllNodes(ReidAll(nodes, ids))
    ensures IsEntry(ReidAll(nodes, ids), i) <==> IsEntry(nodes, i)
    ensures IsExit(ReidAll(nodes, ids)[i]) <==> IsExit(nodes[i])
  {
    var out := ReidAll(nodes, ids);
    forall k | 0 <= k < |nodes| ensures IsNode(out[k]) { ReidedNode(nodes[k], ids, back); }
    ReidedNode(nodes[i], ids, back);
    OwnWiresAreKept(nodes, ids, back, Id(nodes[i]));
    ReidedOutputs(nodes[i], ids);
    SpecialTypes(nodes[i], out[i]);
    hide IsNode, Outputs, WiredInto, Inverse, Fresh;
    assert IsFlowNode(out[i]) == IsFlowNode(nodes[i]);
    assert (exists w :: 0 <= w < |Outputs(out[i])| && Outputs(out[i])[w] == []) <==>
           (exists w :: 0 <= w < |Outputs(nodes[i])| && Outputs(nodes[i])[w] == []) by {
      assert forall w :: 0 <= w < |Outputs(nodes[i])| ==> |Outputs(out[i])[w]| == |Outputs(nodes[i])[w]|;
      if w :| 0 <= w < |Outputs(out[i])| && Outputs(out[i])[w] == [] { assert Outputs(nodes[i])[w] == []; }
      if w :| 0 <= w < |Outputs(nodes[i])| && Outputs(nodes[i])[w] == [] { assert Outputs(out[i])[w] == []; }
    }
  }

  lemma {:induction false} SpecialTypes(n: Node, r: Node)
    requires IsNode(n) && IsNode(r) && forall s :: s in SPECIAL ==> (Type(r) == s <==> Type(n) == s)
    ensures Type(r) in CONTAINERS <==> Type(n) in CONTAINERS
    ensures Type(r) in NOT_ENTRIES <==> Type(n) in NOT_ENTRIES
    ensures Type(r) == "link out" <==> Type(n) == "link out"
  {
    assert "tab" in SPECIAL && "subflow" in SPECIAL && "comment" in SPECIAL;
    assert "link in" in SPECIAL && "inject" in SPECIAL && "link out" in SPECIAL;
  }
}
