/** Calculation paths: how a rule names another machine's counter, and how the name is read back
    (customize/src/lib/calc-builder.ts, customize/src/lib/derive-rules.ts). */
module CalcPaths {
  import opened Decimals
  import opened Wrappers

  datatype Machine = Machine(id: int, topic: string, name: string, index: Option<int>)

  const COUNTERS: seq<(string, string)> := [
    ("ProdProcessedCount", "Good parts made"),
    ("ProdConsumedCount", "Everything that went in"),
    ("ProdDefectiveCount", "Scrap / rejects")
  ]

  function CounterLabel(leaf: string): (r: string)
    ensures leaf == "ProdProcessedCount" ==> r == "Good parts made"
    ensures leaf == "ProdConsumedCount" ==> r == "Everything that went in"
    ensures leaf == "ProdDefectiveCount" ==> r == "Scrap / rejects"
    ensures r != leaf ==> leaf in ["ProdProcessedCount", "ProdConsumedCount", "ProdDefectiveCount"]
  {
    if leaf == COUNTERS[0].0 then COUNTERS[0].1
    else if leaf == COUNTERS[1].0 then COUNTERS[1].1
    else if leaf == COUNTERS[2].0 then COUNTERS[2].1
    else leaf
  }

  function Digits(n: nat): (s: string)
    ensures s != "" && '/' !in s && '{' !in s
  {
    var digit := [(n % 10) as char + '0'];
    if n < 10 then digit else Digits(n / 10) + digit
  }

  function IntText(n: int): (s: string)
    ensures s != "" && '/' !in s && '{' !in s
  {
    if n < 0 then "-" + Digits(-n) else Digits(n)
  }

  /** n in decimal digits, behind a minus sign when it is negative. */
  ghost predicate Decimal(s: string, n: int) {
    if n < 0 then s != "" && s[0] == '-' && Numeral(s[1..], -n) else Numeral(s, n)
  }

  lemma {:induction false} DigitsAreDecimal(n: nat)
    ensures Decimal(Digits(n), n)
  {
    var digit := [(n % 10) as char + '0'];
    if n >= 10 {
      DigitsAreDecimal(n / 10);
      var s := Digits(n);
      assert s == Digits(n / 10) + digit && s[..|s|-1] == Digits(n / 10);
      assert Digits(n / 10)[0] == s[0];
      assert Evaluated("0") == 0 by { assert "0"[..0] == ""; }
    } else {
      assert digit[..0] == "" && Evaluated(digit) == n;
    }
  }

  lemma {:induction false} IntTextIsDecimal(n: int)
    ensures Decimal(IntText(n), n)
  {
    DigitsAreDecimal(if n < 0 then -n else n);
    if n < 0 { assert ("-" + Digits(-n))[1..] == Digits(-n); }
  }

  // ---- inputPath ----

  function Leaf(counter: string, index: string): string { "/Admin/" + counter + "/" + index + "/Unit" }

  /** None is the refusal: the other machine has no counter number yet. */
  function InputPath(target: Machine, source: Machine, counter: string): Option<string> {
    if source.id == target.id then Some(Leaf(counter, "{idx}"))
    else if source.index.None? then None
    else Some(source.topic + Leaf(counter, IntText(source.index.value)))
  }

  /** An input of the rule's own machine leaves the number open; any other names the machine's topic and its number. */
  lemma {:induction false} InputPathIs(target: Machine, source: Machine, counter: string)
    ensures var path := InputPath(target, source, counter);
      if source.id == target.id then path == Some("/Admin/" + counter + "/{idx}/Unit")
      else if source.index.None? then path == None
      else exists text ::
        Decimal(text, source.index.value) && path == Some(source.topic + "/Admin/" + counter + "/" + text + "/Unit")
  {
    if source.id == target.id {
      assert "/" + "{idx}" + "/Unit" == "/{idx}/Unit";
      assert Leaf(counter, "{idx}") == "/Admin/" + counter + "/{idx}/Unit";
    } else if source.index.Some? {
      var text := IntText(source.index.value);
      IntTextIsDecimal(source.index.value);
      assert source.topic + Leaf(counter, text) == source.topic + "/Admin/" + counter + "/" + text + "/Unit";
    }
  }

  // ---- describeInput ----

  function LastSlash(s: string): (k: int)
    ensures -1 <= k < |s| && (k >= 0 ==> s[k] == '/') && '/' !in s[k + 1..]
  {
    if s == "" then -1 else if s[|s|-1] == '/' then |s| - 1 else LastSlash(s[..|s|-1])
  }

  predicate EndsWith(s: string, end: string) { |s| >= |end| && s[|s| - |end|..] == end }

  /** The text after the last slash, when there is a slash and some text. */
  function LastSegment(s: string): Option<(string, string)> {
    var k := LastSlash(s);
    if k < 0 || k + 1 == |s| then None else Some((s[..k], s[k + 1..]))
  }

  /** The group of the regular expression: the counter of a path that ends in /Admin/<counter>/<index>/Unit. */
  function CounterIn(path: string): Option<string> {
    if !EndsWith(path, "/Unit") then None
    else
      var index := LastSegment(path[..|path| - 5]);
      if index.None? then None
      else
        var counter := LastSegment(index.value.0);
        if counter.None? || !EndsWith(counter.value.0, "/Admin") then None else Some(counter.value.1)
  }

  predicate Segment(s: string) { s != "" && '/' !in s }

  /** What the regular expression accepts. */
  ghost predicate Names(path: string, counter: string) {
    Segment(counter) && exists head, index :: Segment(index) && path == head + Leaf(counter, index)
  }

  /** Longest topic first; machines with equally long topics keep their order. */
  function InsertByLength(m: Machine, ms: seq<Machine>): (r: seq<Machine>)
    ensures forall x :: x in r <==> x == m || x in ms
  {
    if ms == [] || |ms[0].topic| <= |m.topic| then [m] + ms else [ms[0]] + InsertByLength(m, ms[1..])
  }

  function ByLength(ms: seq<Machine>): (r: seq<Machine>)
    ensures forall x :: x in r <==> x in ms
  {
    if ms == [] then [] else InsertByLength(ms[0], ByLength(ms[1..]))
  }

  predicate Below(path: string, topic: string) { topic + "/" <= path }

  function FirstAbove(path: string, ms: seq<Machine>): Option<Machine> {
    if ms == [] then None else if Below(path, ms[0].topic) then Some(ms[0]) else FirstAbove(path, ms[1..])
  }

  function SourceOf(path: string, machines: seq<Machine>): Option<Machine> { FirstAbove(path, ByLength(machines)) }

  function DescribeInput(path: string, owner: Machine, machines: seq<Machine>): string {
    var named := CounterIn(path);
    var counter := if named.Some? then CounterLabel(named.value) else path;
    if path != "" && path[0] == '/' then owner.name + " \U{B7} " + counter
    else
      var src := SourceOf(path, machines);
      (if src.Some? then src.value.name else "another machine") + " \U{B7} " + counter
  }

  // ---- the counter is read back ----

  lemma {:induction false} LastSlashIs(a: string, b: string)
    requires '/' !in b
    ensures LastSlash(a + "/" + b) == |a|
    decreases |b|
  {
    var s := a + "/" + b;
    if b == "" {
      assert s == a + "/";
    } else {
      LastSlashIs(a, b[..|b|-1]);
      assert s[|s|-1] == b[|b|-1] && s[..|s|-1] == a + "/" + b[..|b|-1];
      assert b[|b|-1] in b;
    }
  }

  lemma {:induction false} LastSegmentIff(s: string, a: string, b: string)
    ensures LastSegment(s) == Some((a, b)) <==> s == a + "/" + b && Segment(b)
  {
    var k := LastSlash(s);
    if s == a + "/" + b && Segment(b) {
      LastSlashIs(a, b);
      assert s[..k] == a && s[k + 1..] == b;
    }
    if LastSegment(s) == Some((a, b)) {
      assert s == s[..k] + [s[k]] + s[k + 1..];
    }
  }

  lemma {:induction false} LeafForm(head: string, counter: string, index: string)
    ensures head + Leaf(counter, index) == head + "/Admin" + "/" + counter + "/" + index + "/Unit"
  {
    assert "/Admin/" == "/Admin" + "/";
  }

  lemma {:induction false} EndsWithForm(s: string, end: string)
    ensures EndsWith(s, end) ==> s == s[..|s| - |end|] + end
  {
  }

  lemma {:induction false} Appended(s: string, end: string)
    ensures EndsWith(s + end, end) && (s + end)[..|s|] == s
  {
  }

  lemma {:induction false} NamedIsFound(head: string, counter: string, index: string)
    requires Segment(counter) && Segment(index)
    ensures CounterIn(head + Leaf(counter, index)) == Some(counter)
  {
    var outer := head + "/Admin";
    var middle := outer + "/" + counter;
    var inner := middle + "/" + index;
    LeafForm(head, counter, index);
    Appended(inner, "/Unit");
    LastSegmentIff(inner, middle, index);
    LastSegmentIff(middle, outer, counter);
    Appended(head, "/Admin");
    hide Leaf, LastSegment, EndsWith, Segment;
  }

  lemma {:induction false} FoundIsNamed(path: string, counter: string)
    requires CounterIn(path) == Some(counter)
    ensures Names(path, counter)
  {
    var inner := path[..|path| - 5];
    var (middle, index) := LastSegment(inner).value;
    var outer := LastSegment(middle).value.0;
    var head := outer[..|outer| - 6];
    EndsWithForm(path, "/Unit");
    LastSegmentIff(inner, middle, index);
    LastSegmentIff(middle, outer, counter);
    EndsWithForm(outer, "/Admin");
    LeafForm(head, counter, index);
    hide Leaf, LastSegment, EndsWith, Segment;
    assert path == head + Leaf(counter, index);
  }

  /** The counter read out of a path is exactly the one the regular expression captures. */
  lemma {:induction false} CounterInIff(path: string, counter: string)
    ensures CounterIn(path) == Some(counter) <==> Names(path, counter)
  {
    if CounterIn(path) == Some(counter) { FoundIsNamed(path, counter); }
    if Names(path, counter) {
      var head, index :| Segment(index) && path == head + Leaf(counter, index);
      NamedIsFound(head, counter, index);
    }
  }

  // ---- the machine is read back ----

  predicate LongestFirst(ms: seq<Machine>) { forall i, j :: 0 <= i < j < |ms| ==> |ms[i].topic| >= |ms[j].topic| }

  lemma {:induction false} InsertKeepsOrder(m: Machine, ms: seq<Machine>)
    requires LongestFirst(ms)
    ensures LongestFirst(InsertByLength(m, ms))
  {
    if ms != [] && |ms[0].topic| > |m.topic| {
      InsertKeepsOrder(m, ms[1..]);
      var r := InsertByLength(m, ms[1..]);
      forall i | 0 <= i < |r| ensures |ms[0].topic| >= |r[i].topic| { assert r[i] in r; }
    }
  }

  lemma {:induction false} ByLengthIsLongestFirst(ms: seq<Machine>)
    ensures LongestFirst(ByLength(ms))
  {
    if ms != [] {
      ByLengthIsLongestFirst(ms[1..]);
      InsertKeepsOrder(ms[0], ByLength(ms[1..]));
    }
  }

  lemma {:induction false} FirstAboveIsLongest(path: string, ms: seq<Machine>, m: Machine)
    requires LongestFirst(ms) && m in ms && Below(path, m.topic)
    ensures var r := FirstAbove(path, ms);
      r.Some? && r.value in ms && Below(path, r.value.topic) && |r.value.topic| >= |m.topic|
  {
    if !Below(path, ms[0].topic) {
      assert m in ms[1..];
      FirstAboveIsLongest(path, ms[1..], m);
    }
  }

  predicate DistinctTopics(ms: seq<Machine>) { forall a, b :: a in ms && b in ms && a.topic == b.topic ==> a == b }

  /** A machine whose topic sits inside the path itself, below the topic of the machine that is named. */
  predicate Shadows(topic: string, t: string, counter: string, index: string) {
    topic == t + "/Admin" || topic == t + "/Admin" + "/" + counter ||
      topic == t + "/Admin" + "/" + counter + "/" + index
  }

  lemma {:induction false} NextSlash(path: string, p: string, seg: string, rest: string)
    requires path == p + "/" + seg + rest && '/' !in seg
    ensures forall k :: |p| < k < |path| && path[k] == '/' ==> k >= |p| + 1 + |seg|
  {
    forall k | |p| < k < |p| + 1 + |seg| ensures path[k] != '/' {
      assert path[k] == seg[k - |p| - 1];
    }
  }

  lemma {:induction false} BelowIff(path: string, topic: string)
    ensures Below(path, topic) <==> |topic| < |path| && path[|topic|] == '/' && path[..|topic|] == topic
  {
    if Below(path, topic) {
      assert path[..|topic|] == (topic + "/")[..|topic|];
    }
    if |topic| < |path| && path[|topic|] == '/' && path[..|topic|] == topic {
      assert path[..|topic| + 1] == topic + "/";
    }
  }

  /** The topics at or below `t` that a path of `t` is below: `t` itself, and those inside the path. */
  lemma {:induction false} TopicsAbove(t: string, counter: string, index: string, topic: string)
    requires Segment(counter) && Segment(index)
    ensures Below(t + Leaf(counter, index), topic) && |topic| >= |t| <==>
      topic == t || Shadows(topic, t, counter, index)
  {
    var path := t + Leaf(counter, index);
    LeafForm(t, counter, index);
    var a := t + "/Admin";
    var b := a + "/" + counter;
    var c := b + "/" + index;
    BelowIff(path, topic);
    Cuts(path, t, a, b, c, counter, index);
    SlashesAfter(path, t, a, b, c, counter, index, |topic|);
    hide Below, Leaf, Segment;
  }

  lemma {:induction false} SlashesAfter(path: string, t: string, a: string, b: string, c: string, counter: string,
                                        index: string, k: nat)
    requires Segment(counter) && Segment(index)
    requires a == t + "/Admin" && b == a + "/" + counter && c == b + "/" + index && path == c + "/Unit"
    ensures |t| <= k < |path| && path[k] == '/' ==> k == |t| || k == |a| || k == |b| || k == |c|
  {
    Cuts(path, t, a, b, c, counter, index);
    assert a == t + "/" + "Admin" by { assert "/Admin" == "/" + "Admin"; }
    NextSlash(path, t, "Admin", path[|a|..]);
    NextSlash(path, a, counter, path[|b|..]);
    NextSlash(path, b, index, path[|c|..]);
    NextSlash(path, c, "Unit", "");
  }

  lemma {:induction false} Cuts(path: string, t: string, a: string, b: string, c: string, counter: string,
                                index: string)
    requires a == t + "/Admin" && b == a + "/" + counter && c == b + "/" + index && path == c + "/Unit"
    ensures path[..|t|] == t && path[..|a|] == a && path[..|b|] == b && path[..|c|] == c
    ensures path[|t|] == '/' && path[|a|] == '/' && path[|b|] == '/' && path[|c|] == '/'
    ensures path == a + path[|a|..] && path == b + path[|b|..] && path == c + path[|c|..] &&
      path == c + "/" + "Unit" + ""
  {
    assert "/Unit" == "/" + "Unit" + "";
  }

  /** Reading a path back finds the machine it was written for exactly when no other machine's topic sits inside the
      path (topics distinct). */
  lemma {:induction false} SourceIsRecoveredIff(machines: seq<Machine>, source: Machine, counter: string)
    requires source in machines && DistinctTopics(machines) && source.index.Some? && Segment(counter)
    ensures var index := IntText(source.index.value);
      SourceOf(source.topic + Leaf(counter, index), machines) == Some(source) <==>
      !exists m :: m in machines && Shadows(m.topic, source.topic, counter, index)
  {
    var index := IntText(source.index.value);
    var path := source.topic + Leaf(counter, index);
    var ms := ByLength(machines);
    ByLengthIsLongestFirst(machines);
    forall m | m in machines { TopicsAbove(source.topic, counter, index, m.topic); }
    forall m | m in machines && Below(path, m.topic) { FirstAboveIsLongest(path, ms, m); }
    hide Below, Leaf, LongestFirst, ByLength, FirstAbove;
    if m :| m in machines && Shadows(m.topic, source.topic, counter, index) {
      assert |m.topic| > |source.topic|;
    }
  }

  /** Nobody else's topic sits inside the path of this input. */
  ghost predicate Unshadowed(machines: seq<Machine>, source: Machine, counter: string)
    requires source.index.Some?
  {
    !exists m :: m in machines && Shadows(m.topic, source.topic, counter, IntText(source.index.value))
  }

  /** What a stored input reads as. The rule's own machine always reads as itself, and so does, wrongly, a machine whose
      topic is empty or starts with a slash. Any other machine reads as the one whose topic the path is found below,
      which is the right one exactly when no topic sits inside the path. */
  lemma {:induction false} DescriptionInvertsPath(target: Machine, source: Machine, counter: string,
                                                  machines: seq<Machine>)
    requires Segment(counter)
    ensures InputPath(target, source, counter).None? <==> source.id != target.id && source.index.None?
    ensures InputPath(target, source, counter).Some? ==>
      var path := InputPath(target, source, counter).value;
      var read := DescribeInput(path, target, machines);
      if source.id == target.id || source.topic == "" || source.topic[0] == '/' then
        read == target.name + " \U{B7} " + CounterLabel(counter)
      else
        source in machines && DistinctTopics(machines) ==>
          && SourceOf(path, machines).Some?
          && read == SourceOf(path, machines).value.name + " \U{B7} " + CounterLabel(counter)
          && (SourceOf(path, machines) == Some(source) <==> Unshadowed(machines, source, counter))
  {
    if source.id == target.id {
      OwnPath(target, counter, machines);
    } else if source.index.Some? {
      OtherPath(target, source, counter, machines);
    }
    hide DescribeInput, Leaf, CounterLabel, Unshadowed, SourceOf, DistinctTopics;
  }

  lemma {:induction false} OwnPath(target: Machine, counter: string, machines: seq<Machine>)
    requires Segment(counter)
    ensures DescribeInput(Leaf(counter, "{idx}"), target, machines) == target.name + " \U{B7} " + CounterLabel(counter)
  {
    var path := Leaf(counter, "{idx}");
    assert "" + path == path && path[0] == '/';
    NamedIsFound("", counter, "{idx}");
    hide CounterIn, SourceOf, Leaf, CounterLabel;
    assert CounterIn(path) == Some(counter);
  }

  lemma {:induction false} OtherPath(target: Machine, source: Machine, counter: string, machines: seq<Machine>)
    requires Segment(counter) && source.index.Some?
    ensures var path := source.topic + Leaf(counter, IntText(source.index.value));
      var read := DescribeInput(path, target, machines);
      if source.topic == "" || source.topic[0] == '/' then read == target.name + " \U{B7} " + CounterLabel(counter)
      else
        source in machines && DistinctTopics(machines) ==>
          && SourceOf(path, machines).Some?
          && read == SourceOf(path, machines).value.name + " \U{B7} " + CounterLabel(counter)
          && (SourceOf(path, machines) == Some(source) <==> Unshadowed(machines, source, counter))
  {
    var index := IntText(source.index.value);
    NamedIsFound(source.topic, counter, index);
    if source in machines { SomeoneIsAbove(machines, source, counter, index); }
    if source in machines && DistinctTopics(machines) { SourceIsRecoveredIff(machines, source, counter); }
    assert Leaf(counter, index)[0] == '/';
    hide CounterIn, SourceOf, Shadows, DistinctTopics, Leaf, Segment, CounterLabel, IntText;
    assert (source.topic + Leaf(counter, index))[0] == if source.topic == "" then '/' else source.topic[0];
  }

  lemma {:induction false} SomeoneIsAbove(machines: seq<Machine>, source: Machine, counter: string, index: string)
    requires source in machines && Segment(counter) && Segment(index)
    ensures SourceOf(source.topic + Leaf(counter, index), machines).Some?
  {
    ByLengthIsLongestFirst(machines);
    TopicsAbove(source.topic, counter, index, source.topic);
    FirstAboveIsLongest(source.topic + Leaf(counter, index), ByLength(machines), source);
    hide Below, Leaf, LongestFirst, ByLength, FirstAbove;
  }

  /** What the end of a path tells: its topic, counter and counter number. */
  ghost function Parts(path: string): Option<(string, string, string)> {
    if |path| < 5 || LastSegment(path[..|path| - 5]).None? then None
    else
      var (middle, index) := LastSegment(path[..|path| - 5]).value;
      if LastSegment(middle).None? || |LastSegment(middle).value.0| < 6 then None
      else
        var (outer, counter) := LastSegment(middle).value;
        Some((outer[..|outer| - 6], counter, index))
  }

  /** A path determines the topic, the counter and the counter number it was written from. */
  lemma {:induction false} PartsOfPath(topic: string, counter: string, index: string)
    requires Segment(counter) && Segment(index)
    ensures Parts(topic + Leaf(counter, index)) == Some((topic, counter, index))
  {
    var outer := topic + "/Admin";
    var middle := outer + "/" + counter;
    var inner := middle + "/" + index;
    LeafForm(topic, counter, index);
    Appended(inner, "/Unit");
    LastSegmentIff(inner, middle, index);
    LastSegmentIff(middle, outer, counter);
    Appended(topic, "/Admin");
    hide Leaf, LastSegment, Segment;
  }

  /** So no two inputs share a path. */
  lemma {:induction false} PathsAreDistinct(machines: seq<Machine>, a: Machine, b: Machine, counterA: string,
                                            counterB: string)
    requires a in machines && b in machines && DistinctTopics(machines) && Segment(counterA) && Segment(counterB)
    requires a.index.Some? && b.index.Some?
    requires a.topic + Leaf(counterA, IntText(a.index.value)) == b.topic + Leaf(counterB, IntText(b.index.value))
    ensures a == b && counterA == counterB
  {
    PartsOfPath(a.topic, counterA, IntText(a.index.value));
    PartsOfPath(b.topic, counterB, IntText(b.index.value));
    hide Leaf, IntText, Parts;
  }

  // ---- the sample a rule is tried with ----

  function LocalSegment(topic: string, prefix: Option<string>): string {
    if prefix.Some? && prefix.value != "" && prefix.value <= topic then topic[|prefix.value|..] else topic
  }

  /** replaceAll("{idx}", text). */
  function Filled(s: string, text: string): string {
    if s == "" then "" else if "{idx}" <= s then text + Filled(s[5..], text) else [s[0]] + Filled(s[1..], text)
  }

  /** What a rule on an equipment waits for, for a path relative to it. */
  function RuleInput(path: string, segment: string, index: Option<int>): string {
    segment + (if index.Some? then Filled(path, IntText(index.value)) else path)
  }

  function SampleSource(target: Machine, machines: seq<Machine>, id: int): Machine {
    if machines == [] then target else if machines[0].id == id then machines[0]
      else SampleSource(target, machines[1..], id)
  }

  /** The metric of a simulator sample; a machine without a counter number counts as 0. */
  function SampleMetric(src: Machine, counter: string, prefix: Option<string>): string {
    LocalSegment(src.topic, prefix) + Leaf(counter, IntText(if src.index.Some? then src.index.value else 0))
  }

  /** A sample names the topic behind the tenant prefix and the machine's number, 0 when it has none. */
  lemma {:induction false} SampleMetricIs(src: Machine, counter: string, prefix: Option<string>)
    ensures exists segment, text ::
      && (if prefix.Some? && prefix.value != "" && prefix.value <= src.topic then src.topic == prefix.value + segment
          else segment == src.topic)
      && Decimal(text, if src.index.Some? then src.index.value else 0)
      && SampleMetric(src, counter, prefix) == segment + "/Admin/" + counter + "/" + text + "/Unit"
  {
    hide Decimal, IntText;
    var n := if src.index.Some? then src.index.value else 0;
    var segment, text := LocalSegment(src.topic, prefix), IntText(n);
    IntTextIsDecimal(n);
    LeafText(segment, counter, text);
    assert SampleMetric(src, counter, prefix) == segment + Leaf(counter, text);
    hide SampleMetric, Leaf;
  }

  lemma {:induction false} LeafText(segment: string, counter: string, text: string)
    ensures segment + Leaf(counter, text) == segment + "/Admin/" + counter + "/" + text + "/Unit"
  {
  }

  lemma {:induction false} FilledStep(s: string, text: string)
    requires s != "" && s[0] != '{'
    ensures Filled(s, text) == [s[0]] + Filled(s[1..], text)
  {
  }

  lemma {:induction false} FilledSkips(a: string, s: string, text: string)
    requires '{' !in a
    ensures Filled(a + s, text) == a + Filled(s, text)
  {
    hide Filled;
    if a == "" {
      assert a + s == s;
    } else {
      FilledSkips(a[1..], s, text);
      FilledStep(a + s, text);
      assert (a + s)[1..] == a[1..] + s;
    }
  }

  lemma {:induction false} FilledLeaf(counter: string, text: string)
    requires '{' !in counter
    ensures Filled(Leaf(counter, "{idx}"), text) == Leaf(counter, text)
  {
    var head := "/Admin/" + counter + "/";
    assert Leaf(counter, "{idx}") == head + ("{idx}" + "/Unit");
    FilledSkips(head, "{idx}" + "/Unit", text);
    assert ("{idx}" + "/Unit")[5..] == "/Unit";
    assert "/Unit" + "" == "/Unit";
    FilledSkips("/Unit", "", text);
  }

  lemma {:induction false} FilledMark(s: string, text: string)
    requires "{idx}" <= s
    ensures Filled(s, text) == text + Filled(s[5..], text)
  {
  }

  lemma {:induction false} FilledOther(s: string, text: string)
    requires s != "" && !("{idx}" <= s)
    ensures Filled(s, text) == [s[0]] + Filled(s[1..], text)
  {
  }

  lemma {:induction false} MarkEndsBefore(a: string, b: string)
    requires b != "" && b[0] == '/'
    ensures "{idx}" <= a + b <==> "{idx}" <= a
  {
    var s := a + b;
    if "{idx}" <= s {
      assert forall k :: 0 <= k < 5 ==> s[k] == "{idx}"[k] && s[k] != '/';
      assert s[|a|] == '/';
      assert forall k :: 0 <= k < 5 ==> a[k] == s[k];
    }
  }

  /** No placeholder reaches across a slash. */
  lemma {:induction false} FilledSplits(a: string, b: string, text: string)
    requires b != "" && b[0] == '/'
    ensures Filled(a + b, text) == Filled(a, text) + Filled(b, text)
    decreases |a|
  {
    hide Filled;
    if a == "" {
      assert a + b == b;
      FilledPlain("", text);
      assert "" + Filled(b, text) == Filled(b, text);
    } else if "{idx}" <= a {
      MarkEndsBefore(a, b);
      FilledSplits(a[5..], b, text);
      FilledMark(a, text);
      FilledMark(a + b, text);
      assert (a + b)[5..] == a[5..] + b;
    } else {
      MarkEndsBefore(a, b);
      FilledSplits(a[1..], b, text);
      FilledOther(a, text);
      FilledOther(a + b, text);
      assert (a + b)[1..] == a[1..] + b;
    }
  }

  lemma {:induction false} FilledPlain(s: string, text: string)
    requires '{' !in s
    ensures Filled(s, text) == s
  {
    FilledSkips(s, "", text);
    assert s + "" == s;
  }

  /** The topic as the rule's own placeholder leaves it. */
  function Topic(src: Machine, index: Option<int>): string {
    if index.Some? then Filled(src.topic, IntText(index.value)) else src.topic
  }

  lemma {:induction false} SameStart(a: string, b: string, c: string, end: string)
    ensures a + end == b + (c + end) <==> a == b + c
  {
    assert b + (c + end) == (b + c) + end;
    if a + end == (b + c) + end {
      assert a == (a + end)[..|a|] && b + c == ((b + c) + end)[..|a|];
    }
  }

  lemma {:induction false} OwnSample(target: Machine, counter: string, prefix: Option<string>)
    requires '{' !in counter
    ensures SampleMetric(target, counter, prefix) ==
            RuleInput(InputPath(target, target, counter).value, LocalSegment(target.topic, prefix), target.index)
            <==> target.index.Some?
  {
    if target.index.Some? {
      FilledLeaf(counter, IntText(target.index.value));
    } else {
      LeafDiffers(counter);
    }
  }

  lemma {:induction false} LeafIsPlain(counter: string, index: string)
    requires '{' !in counter && '{' !in index
    ensures Leaf(counter, index) != "" && Leaf(counter, index)[0] == '/' && '{' !in Leaf(counter, index)
  {
  }

  lemma {:induction false} OtherSample(target: Machine, src: Machine, counter: string, prefix: Option<string>)
    requires '{' !in counter && src.id != target.id && src.index.Some?
    ensures SampleMetric(src, counter, prefix) ==
            RuleInput(InputPath(target, src, counter).value, LocalSegment(target.topic, prefix), target.index)
            <==> LocalSegment(src.topic, prefix) == LocalSegment(target.topic, prefix) + Topic(src, target.index)
  {
    hide Leaf, Filled, LocalSegment, IntText;
    var leaf := Leaf(counter, IntText(src.index.value));
    LeafIsPlain(counter, IntText(src.index.value));
    if target.index.Some? {
      FilledSplits(src.topic, leaf, IntText(target.index.value));
      FilledPlain(leaf, IntText(target.index.value));
    }
    SameStart(LocalSegment(src.topic, prefix), LocalSegment(target.topic, prefix), Topic(src, target.index), leaf);
  }

  /** Whose sample it is: the first machine with the id, and the rule's own for an id nobody has. */
  lemma {:induction false} SampleSourceIs(target: Machine, machines: seq<Machine>, id: int)
    ensures SampleSource(target, machines, id).id == id || SampleSource(target, machines, id) == target
    ensures (forall m :: m in machines ==> m.id != id) ==> SampleSource(target, machines, id) == target
  {
    if machines != [] { SampleSourceIs(target, machines[1..], id); }
  }

  /** A sample carries the metric the rule waits for: for a value of the rule's own machine, or of an id nobody has,
      exactly when that machine has its counter number; for another machine's value exactly when that machine's topic
      without the tenant prefix is the rule's own segment with the whole topic behind it. */
  lemma {:induction false} SampleMatchesRule(target: Machine, machines: seq<Machine>, id: int, counter: string,
                                             prefix: Option<string>)
    requires '{' !in counter && SampleSource(target, machines, target.id) == target
    ensures var src := SampleSource(target, machines, id);
      var path := InputPath(target, src, counter);
      path.Some? ==>
        (SampleMetric(src, counter, prefix) ==
          RuleInput(path.value, LocalSegment(target.topic, prefix), target.index) <==>
         if src.id == target.id then target.index.Some?
         else LocalSegment(src.topic, prefix) == LocalSegment(target.topic, prefix) + Topic(src, target.index))
    ensures (forall m :: m in machines ==> m.id != id) ==> SampleSource(target, machines, id) == target
  {
    var src := SampleSource(target, machines, id);
    SampleSourceIs(target, machines, id);
    hide SampleSource, SampleMetric, RuleInput, LocalSegment, Leaf, Topic;
    if src.id == target.id {
      assert src == target;
      OwnSample(target, counter, prefix);
    } else if src.index.Some? {
      OtherSample(target, src, counter, prefix);
    }
  }

  /** For a topic without placeholders that leaves one case: the rule sits at the tenant prefix itself, and the other
      machine outside it. Below a common prefix no sample of another machine matches. */
  lemma {:induction false} OtherSampleMatchesIff(target: Machine, src: Machine, counter: string, prefix: Option<string>)
    requires '{' !in counter && '{' !in src.topic && src.id != target.id && src.index.Some?
    ensures SampleMetric(src, counter, prefix) ==
            RuleInput(InputPath(target, src, counter).value, LocalSegment(target.topic, prefix), target.index)
            <==> LocalSegment(target.topic, prefix) == "" && LocalSegment(src.topic, prefix) == src.topic
  {
    OtherSample(target, src, counter, prefix);
    if target.index.Some? { FilledPlain(src.topic, IntText(target.index.value)); }
    var segment := LocalSegment(target.topic, prefix);
    assert Topic(src, target.index) == src.topic;
    assert |LocalSegment(src.topic, prefix)| <= |src.topic|;
    assert segment == "" ==> segment + src.topic == src.topic;
    hide SampleMetric, RuleInput, InputPath, LocalSegment, Topic, Filled;
  }

  /** Line L01 reading its machine S3, both below the tenant prefix BIS/SP: the sample is not the metric of
      `ruleInputs`. */
  lemma {:induction false} MachineSampleIsMissed(counter: string)
    requires '{' !in counter
    ensures var line := Machine(100, "BIS/SP/L01", "Line 01", Some(100));
      var s3 := Machine(103, "BIS/SP/L01/S3", "S3", Some(103));
      && SampleSource(line, [line, s3], 103) == s3
      && SampleMetric(s3, counter, Some("BIS/SP")) !=
         RuleInput(InputPath(line, s3, counter).value, LocalSegment(line.topic, Some("BIS/SP")), line.index)
  {
    var line := Machine(100, "BIS/SP/L01", "Line 01", Some(100));
    var s3 := Machine(103, "BIS/SP/L01/S3", "S3", Some(103));
    OtherSampleMatchesIff(line, s3, counter, Some("BIS/SP"));
    assert LocalSegment(line.topic, Some("BIS/SP")) != "" by { assert "BIS/SP" <= line.topic; }
    hide SampleMetric, RuleInput, InputPath, LocalSegment;
  }

  lemma {:induction false} LeafDiffers(counter: string)
    requires '{' !in counter
    ensures Leaf(counter, "{idx}") != Leaf(counter, IntText(0))
  {
    assert Leaf(counter, "{idx}")[8 + |counter|] == '{';
    assert Leaf(counter, IntText(0))[8 + |counter|] == IntText(0)[0];
  }

  /** A machine whose topic is another's with `/Admin` behind it takes over every path of the other. */
  lemma {:induction false} AdminTopicShadows(t: string, counter: string, i: int, j: int)
    requires Segment(counter)
    ensures var source := Machine(1, t, "source", Some(i));
      var other := Machine(2, t + "/Admin", "other", Some(j));
      && DistinctTopics([source, other])
      && SourceOf(t + Leaf(counter, IntText(i)), [source, other]) != Some(source)
  {
    var source := Machine(1, t, "source", Some(i));
    var other := Machine(2, t + "/Admin", "other", Some(j));
    assert other in [source, other] && source in [source, other];
    SourceIsRecoveredIff([source, other], source, counter);
    hide SourceOf, Leaf, IntText;
    assert Shadows(other.topic, t, counter, IntText(i));
  }
}
