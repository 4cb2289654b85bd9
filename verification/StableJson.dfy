/** stableJson: key-order-independent printing (node-red-customizations.ts). */
module StableJson {
  import opened Ordering
  import opened Decimals
  import opened Json
  import opened Wrappers

  // ---- the order in which a normalized object's keys are printed ----

  predicate Digits(k: string) { forall c :: c in k ==> '0' <= c <= '9' }

  /** The keys a JavaScript engine enumerates first, in numeric order, whatever the insertion order was. */
  predicate IsArrayIndex(k: string) {
    && 0 < |k| <= 10 && Digits(k) && (k[0] == '0' ==> k == "0")
    && (|k| == 10 ==> k == "4294967294" || ByteBefore(k, "4294967294"))
  }

  /** The rank of a character in UTF-16 order: supplementary characters sort with the surrogates, below U+E000. */
  function Utf16Rank(c: char): int {
    var n := c as int;
    if n < 0xE000 then n else if n < 0x10000 then n + 0x200000 else n
  }

  lemma {:induction false} Utf16RankIsInjective()
    ensures Injective(Utf16Rank)
  {
  }

  /** Array.sort() order, with the engine's rule for array indexes: shorter decimal numerals are smaller. */
  predicate KeyBefore(a: string, b: string) {
    if IsArrayIndex(a) != IsArrayIndex(b) then IsArrayIndex(a)
    else if IsArrayIndex(a) && |a| != |b| then |a| < |b|
    else LexBefore(a, b, Utf16Rank)
  }

  // ---- the same order, by numbers and code units ----

  /** The number of an array index: at most 2^32 - 2. */
  ghost predicate IndexOf(k: string, n: int) { 0 <= n <= 4294967294 && Numeral(k, n) }

  ghost predicate HasIndex(k: string) { exists n :: IndexOf(k, n) }

  /** The UTF-16 code units of a character. */
  ghost function Units(c: char): (r: seq<int>)
    ensures r != []
  {
    var n := c as int;
    if n < 0x10000 then [n] else [0xD800 + (n - 0x10000) / 0x400, 0xDC00 + (n - 0x10000) % 0x400]
  }

  ghost function Encoded(s: string): seq<int> { if s == "" then [] else Units(s[0]) + Encoded(s[1..]) }

  ghost predicate UnitsBefore(u: seq<int>, v: seq<int>) {
    if v == [] then false
    else if u == [] then true
    else if u[0] == v[0] then UnitsBefore(u[1..], v[1..])
    else u[0] < v[0]
  }

  /** Array indexes come first, by number; then the other keys, by code units. */
  ghost predicate EnumeratesBefore(a: string, b: string) {
    || (exists m, n :: IndexOf(a, m) && IndexOf(b, n) && m < n)
    || (HasIndex(a) && !HasIndex(b))
    || (!HasIndex(a) && !HasIndex(b) && UnitsBefore(Encoded(a), Encoded(b)))
  }

  lemma {:induction false} LargestIndex()
    ensures Evaluated("4294967294") == 4294967294
    ensures Power(9) == 1000000000 && Power(10) == 10000000000
  {
    var k := "4294967294";
    assert Evaluated(k[..0]) == 0;
    for i := 0 to 10
      invariant Evaluated(k[..i]) == [0, 4, 42, 429, 4294, 42949, 429496, 4294967, 42949672, 429496729, 4294967294][i]
      invariant Power(i) == [1, 10, 100, 1000, 10000, 100000, 1000000, 10000000, 100000000, 1000000000, 10000000000][i]
    {
      assert k[..i+1][..i] == k[..i];
    }
    assert k[..10] == k;
    assert Power(10) == 10 * Power(9);
  }

  lemma {:induction false} IsArrayIndexIff(k: string)
    ensures IsArrayIndex(k) <==> HasIndex(k)
  {
    var n := Evaluated(k);
    LargestIndex();
    if k != "" && AllDigits(k) {
      Size(k);
      if |k| < 10 { PowersGrow(|k|, 9); }
      if |k| > 10 { PowersGrow(10, |k| - 1); }
      if |k| == 10 { LexIsValue(k, "4294967294", (c: char) => c as int); }
    }
    assert Digits(k) <==> AllDigits(k) by {
      if Digits(k) { assert forall i :: 0 <= i < |k| ==> k[i] in k; }
    }
    if IsArrayIndex(k) { assert IndexOf(k, n); }
    hide Evaluated, Power;
  }

  lemma {:induction false} CommonUnits(u: seq<int>, v: seq<int>, w: seq<int>)
    ensures UnitsBefore(u + v, u + w) <==> UnitsBefore(v, w)
  {
    if u == [] {
      assert u + v == v && u + w == w;
    } else {
      CommonUnits(u[1..], v, w);
      assert (u + v)[1..] == u[1..] + v && (u + w)[1..] == u[1..] + w;
    }
  }

  lemma {:induction false} UnitsOfTwo(c: char, d: char, v: seq<int>, w: seq<int>)
    requires c != d
    ensures UnitsBefore(Units(c) + v, Units(d) + w) <==> Utf16Rank(c) < Utf16Rank(d)
  {
    var x, y := Units(c), Units(d);
    assert (x + v)[0] == x[0] && (y + w)[0] == y[0];
    if x[0] == y[0] {
      assert (x + v)[1..] == x[1..] + v && (y + w)[1..] == y[1..] + w;
      assert (x[1..] + v)[0] == x[1] && (y[1..] + w)[0] == y[1];
    }
  }

  lemma {:induction false} LexIsUnits(a: string, b: string)
    ensures LexBefore(a, b, Utf16Rank) <==> UnitsBefore(Encoded(a), Encoded(b))
  {
    if a != "" && b != "" {
      if a[0] == b[0] {
        LexIsUnits(a[1..], b[1..]);
        CommonUnits(Units(a[0]), Encoded(a[1..]), Encoded(b[1..]));
      } else {
        UnitsOfTwo(a[0], b[0], Encoded(a[1..]), Encoded(b[1..]));
      }
    }
  }

  /** The keys are compared by length and characters; that is the order of numbers and code units. */
  lemma {:induction false} KeyBeforeIff(a: string, b: string)
    ensures KeyBefore(a, b) <==> EnumeratesBefore(a, b)
  {
    IsArrayIndexIff(a);
    IsArrayIndexIff(b);
    LexIsUnits(a, b);
    hide IsArrayIndex, UnitsBefore, Encoded, LexBefore;
    if HasIndex(a) && HasIndex(b) { IndexesCompare(a, b); }
  }

  lemma {:induction false} IndexesCompare(a: string, b: string)
    requires HasIndex(a) && HasIndex(b)
    ensures (if |a| != |b| then |a| < |b| else LexBefore(a, b, Utf16Rank)) <==>
      exists m, n :: IndexOf(a, m) && IndexOf(b, n) && m < n
  {
    var m, n := Evaluated(a), Evaluated(b);
    assert IndexOf(a, m) && IndexOf(b, n);
    if |a| < |b| { LongerIsLarger(a, m, b, n); }
    if |b| < |a| { LongerIsLarger(b, n, a, m); }
    if |a| == |b| {
      Utf16RankIsInjective();
      LexIsValue(a, b, Utf16Rank);
    }
    hide Evaluated, LexBefore;
  }

  lemma {:induction false} KeyOrderIsStrictTotal()
    ensures StrictTotal(KeyBefore)
  {
    Utf16RankIsInjective();
    forall x: string ensures !KeyBefore(x, x) { LexIrreflexive(x, Utf16Rank); }
    forall x: string, y: string, z: string | KeyBefore(x, y) && KeyBefore(y, z) ensures KeyBefore(x, z) {
      if LexBefore(x, y, Utf16Rank) && LexBefore(y, z, Utf16Rank) { LexTransitive(x, y, z, Utf16Rank); }
    }
    forall x: string, y: string | x != y ensures KeyBefore(x, y) || KeyBefore(y, x) { LexTotal(x, y, Utf16Rank); }
  }

  function Keys(ms: seq<Member>): seq<string> {
    seq(|ms|, i requires 0 <= i < |ms| => ms[i].key)
  }

  lemma {:induction false} SortedKeys(ms: seq<Member>)
    requires DistinctKeys(ms)
    ensures Ascending(Sort(Keys(ms), KeyBefore), KeyBefore)
    ensures forall k :: k in Sort(Keys(ms), KeyBefore) <==> HasKey(ms, k)
  {
    KeyOrderIsStrictTotal();
    assert forall i, j :: 0 <= i < j < |ms| ==> Keys(ms)[i] != Keys(ms)[j];
    SortAscends(Keys(ms), KeyBefore);
    forall k ensures k in Keys(ms) <==> HasKey(ms, k) {
      if HasKey(ms, k) {
        var i :| 0 <= i < |ms| && ms[i].key == k;
        assert Keys(ms)[i] == k;
      }
    }
  }

  /** norm: arrays keep their order, objects get sorted keys, at every depth. */
  function Norm(v: Json): Json {
    match v
    case Arr(items) => Arr(seq(|items|, i requires 0 <= i < |items| => Norm(items[i])))
    case Obj(ms) =>
      var keys := Sort(Keys(ms), KeyBefore);
      Obj(seq(|keys|, i requires 0 <= i < |keys| =>
        assert keys[i] in Keys(ms);
        Member(keys[i], Norm(Lookup(ms, keys[i])))))
    case _ => v
  }

  /** Equal up to the order of object keys at every depth; array order counts. */
  ghost predicate Same(a: Json, b: Json) {
    match a
    case Arr(xs) => b.Arr? && |xs| == |b.items| && forall i :: 0 <= i < |xs| ==> Same(xs[i], b.items[i])
    case Obj(ms) =>
      && b.Obj?
      && (forall k :: HasKey(ms, k) <==> HasKey(b.members, k))
      && (forall i :: 0 <= i < |ms| ==> HasKey(b.members, ms[i].key) && Same(ms[i].value, Lookup(b.members, ms[i].key)))
    case _ => a == b
  }

  lemma {:induction false} NormDecidesSame(a: Json, b: Json)
    requires WellFormed(a) && WellFormed(b)
    ensures Norm(a) == Norm(b) <==> Same(a, b)
    decreases a, 1
  {
    if a.Arr? && b.Arr? {
      NormDecidesSameItems(a, b);
    } else if a.Obj? && b.Obj? {
      NormDecidesSameMembers(a, b);
    }
  }

  lemma {:induction false} NormDecidesSameItems(a: Json, b: Json)
    requires WellFormed(a) && WellFormed(b) && a.Arr? && b.Arr?
    ensures Norm(a) == Norm(b) <==> Same(a, b)
    decreases a, 0
  {
    var xs, ys := a.items, b.items;
    if |xs| == |ys| {
      forall i | 0 <= i < |xs| ensures Norm(xs[i]) == Norm(ys[i]) <==> Same(xs[i], ys[i]) {
        NormDecidesSame(xs[i], ys[i]);
      }
      if Norm(a) == Norm(b) {
        forall i | 0 <= i < |xs| ensures Norm(xs[i]) == Norm(ys[i]) {
          assert Norm(a).items[i] == Norm(b).items[i];
        }
      }
    } else {
      assert |Norm(a).items| != |Norm(b).items|;
    }
  }

  lemma {:induction false} WellFormedLookup(ms: seq<Member>, k: string)
    requires WellFormed(Obj(ms)) && HasKey(ms, k)
    ensures WellFormed(Lookup(ms, k)) && Lookup(ms, k) < Obj(ms)
  {
  }

  lemma {:induction false} NormDecidesSameMembers(a: Json, b: Json)
    requires WellFormed(a) && WellFormed(b) && a.Obj? && b.Obj?
    ensures Norm(a) == Norm(b) <==> Same(a, b)
    decreases a, 0
  {
    var ms, ns := a.members, b.members;
    forall i, j | 0 <= i < |ms| && 0 <= j < |ns|
      ensures Norm(ms[i].value) == Norm(ns[j].value) <==> Same(ms[i].value, ns[j].value)
    {
      NormDecidesSame(ms[i].value, ns[j].value);
    }
    assert ValuesDecide(ms, ns);
    if Norm(a) == Norm(b) { SameMembers(a, b); }
    if Same(a, b) { NormMembers(a, b); }
  }

  ghost predicate ValuesDecide(ms: seq<Member>, ns: seq<Member>) {
    forall i, j :: 0 <= i < |ms| && 0 <= j < |ns| ==>
      (Norm(ms[i].value) == Norm(ns[j].value) <==> Same(ms[i].value, ns[j].value))
  }

  /** The member of a normalised object at a sorted key. */
  lemma {:induction false} NormAt(a: Json, i: nat) returns (j: nat)
    requires WellFormed(a) && a.Obj? && i < |a.members|
    ensures var ks := Sort(Keys(a.members), KeyBefore);
      j < |ks| && ks[j] == a.members[i].key && |Norm(a).members| == |ks| &&
        Norm(a).members[j] == Member(ks[j], Norm(a.members[i].value))
  {
    SortedKeys(a.members);
    LookupAt(a.members, i);
    var ks := Sort(Keys(a.members), KeyBefore);
    assert a.members[i].key in ks;
    j :| 0 <= j < |ks| && ks[j] == a.members[i].key;
    hide KeyBefore;
  }

  lemma {:induction false} SameKeys(a: Json, b: Json)
    requires WellFormed(a) && WellFormed(b) && a.Obj? && b.Obj? && Norm(a) == Norm(b)
    ensures Sort(Keys(a.members), KeyBefore) == Sort(Keys(b.members), KeyBefore)
    ensures Ascending(Sort(Keys(a.members), KeyBefore), KeyBefore)
    ensures forall k :: HasKey(a.members, k) <==> HasKey(b.members, k)
  {
    SortedKeys(a.members);
    SortedKeys(b.members);
    NormKeys(a);
    NormKeys(b);
    hide KeyBefore, HasKey, Norm, Ascending;
  }

  lemma {:induction false} SameMembers(a: Json, b: Json)
    requires WellFormed(a) && WellFormed(b) && a.Obj? && b.Obj? && ValuesDecide(a.members, b.members) &&
      Norm(a) == Norm(b)
    ensures Same(a, b)
  {
    SameKeys(a, b);
    hide Norm, KeyBefore, ValuesDecide, WellFormed, Sort, Ascending;
    forall i | 0 <= i < |a.members|
      ensures HasKey(b.members, a.members[i].key) && Same(a.members[i].value, Lookup(b.members, a.members[i].key))
    {
      assert HasKey(a.members, a.members[i].key);
      SameMember(a, b, i);
    }
  }

  lemma {:induction false} SameMember(a: Json, b: Json, i: nat)
    requires WellFormed(a) && WellFormed(b) && a.Obj? && b.Obj? && ValuesDecide(a.members, b.members) &&
      Norm(a) == Norm(b)
    requires i < |a.members| && HasKey(b.members, a.members[i].key)
    requires Sort(Keys(a.members), KeyBefore) == Sort(Keys(b.members), KeyBefore)
    requires Ascending(Sort(Keys(a.members), KeyBefore), KeyBefore)
    ensures Same(a.members[i].value, Lookup(b.members, a.members[i].key))
  {
    var k :| 0 <= k < |b.members| && b.members[k].key == a.members[i].key;
    var j := NormAt(a, i);
    var l := NormAt(b, k);
    LookupAt(b.members, k);
    SortedAtOnce(Sort(Keys(a.members), KeyBefore), j, l);
    hide Norm, KeyBefore, Same;
  }

  lemma {:induction false} SortedAtOnce(ks: seq<string>, i: nat, j: nat)
    requires Ascending(ks, KeyBefore) && i < |ks| && j < |ks| && ks[i] == ks[j]
    ensures i == j
  {
    KeyOrderIsStrictTotal();
    hide KeyBefore;
  }

  lemma {:induction false} NormMembers(a: Json, b: Json)
    requires WellFormed(a) && WellFormed(b) && a.Obj? && b.Obj? && ValuesDecide(a.members, b.members) && Same(a, b)
    ensures Norm(a) == Norm(b)
  {
    var ms, ns := a.members, b.members;
    SortedKeys(ms);
    SortedKeys(ns);
    KeyOrderIsStrictTotal();
    var ks, ls := Sort(Keys(ms), KeyBefore), Sort(Keys(ns), KeyBefore);
    UniqueListing(ks, ls, KeyBefore);
    forall j | 0 <= j < |ks| ensures Norm(a).members[j] == Norm(b).members[j] {
      NormMember(a, b, j);
    }
    assert Norm(a).members == Norm(b).members;
  }

  lemma {:induction false} NormMember(a: Json, b: Json, j: nat)
    requires WellFormed(a) && WellFormed(b) && a.Obj? && b.Obj? && ValuesDecide(a.members, b.members) && Same(a, b)
    requires Sort(Keys(a.members), KeyBefore) == Sort(Keys(b.members), KeyBefore) && j < |Keys(a.members)|
    requires Ascending(Sort(Keys(a.members), KeyBefore), KeyBefore)
    requires HasKey(a.members, Sort(Keys(a.members), KeyBefore)[j])
    ensures |Norm(a).members| == |Norm(b).members| == |Keys(a.members)|
    ensures Norm(a).members[j] == Norm(b).members[j]
  {
    hide Norm, KeyBefore, Sort, ValuesDecide;
    var ks := Sort(Keys(a.members), KeyBefore);
    var i :| 0 <= i < |a.members| && a.members[i].key == ks[j];
    SameHasKey(a, b, i);
    var k :| 0 <= k < |b.members| && b.members[k].key == ks[j];
    LookupAt(b.members, k);
    var x := NormAt(a, i);
    var y := NormAt(b, k);
    SortedAtOnce(ks, j, x);
    SortedAtOnce(ks, j, y);
    ValuesDecided(a.members, b.members, i, k);
  }

  lemma {:induction false} SameHasKey(a: Json, b: Json, i: nat)
    requires a.Obj? && b.Obj? && Same(a, b) && i < |a.members|
    ensures HasKey(b.members, a.members[i].key) && Same(a.members[i].value, Lookup(b.members, a.members[i].key))
  {
  }

  lemma {:induction false} ValuesDecided(ms: seq<Member>, ns: seq<Member>, i: nat, j: nat)
    requires ValuesDecide(ms, ns) && i < |ms| && j < |ns|
    ensures Norm(ms[i].value) == Norm(ns[j].value) <==> Same(ms[i].value, ns[j].value)
  {
  }

  lemma {:induction false} NormKeys(a: Json)
    requires a.Obj?
    ensures Keys(Norm(a).members) == Sort(Keys(a.members), KeyBefore)
  {
  }

  // ---- JSON.stringify ----

  function Hex(n: nat): char
    requires n < 16
  {
    "0123456789abcdef"[n]
  }

  /** One character inside a quoted string. */
  function Escaped(c: char): string {
    if c == '\"' then ['\\', '\"']
    else if c == '\\' then ['\\', '\\']
    else if c as int >= 0x20 then [c]
    else if c as int == 8 then ['\\', 'b']
    else if c as int == 9 then ['\\', 't']
    else if c as int == 10 then ['\\', 'n']
    else if c as int == 12 then ['\\', 'f']
    else if c as int == 13 then ['\\', 'r']
    else ['\\', 'u', '0', '0', Hex(c as int / 16), Hex(c as int % 16)]
  }

  /** The rest of a quoted string, with its closing quote. */
  function Quoted(s: string): string {
    if s == "" then ['\"'] else Escaped(s[0]) + Quoted(s[1..])
  }

  function Text(v: Json): string
    decreases v, 1
  {
    match v
    case Null => "null"
    case Bool(b) => if b then "true" else "false"
    case Num(text) => text
    case Str(s) => ['\"'] + Quoted(s)
    case Arr(items) => "[" + ItemsText(items, true)
    case Obj(ms) => "{" + MembersText(ms, true)
  }

  function ItemsText(items: seq<Json>, first: bool): string
    decreases items, 0
  {
    if items == [] then "]"
    else (if first then "" else ",") + Text(items[0]) + ItemsText(items[1..], false)
  }

  function MembersText(ms: seq<Member>, first: bool): string
    decreases ms, 0
  {
    if ms == [] then "}"
    else
      (if first then "" else ",") + ['\"'] + Quoted(ms[0].key) + ":" + Text(ms[0].value) + MembersText(ms[1..], false)
  }

  // ---- reading JSON ----

  /** The value of a hexadecimal digit. */
  function HexValue(c: char): (r: Option<nat>)
    ensures r.Some? ==> r.value < 16
  {
    if '0' <= c <= '9' then Some(c as int - '0' as int)
    else if 'a' <= c <= 'f' then Some(c as int - 'a' as int + 10)
    else if 'A' <= c <= 'F' then Some(c as int - 'A' as int + 10)
    else None
  }

  /** The character of a \\u escape; surrogates are not read. */
  function CodeUnit(a: char, b: char, c: char, d: char): Option<char> {
    var w, x, y, z := HexValue(a), HexValue(b), HexValue(c), HexValue(d);
    if w.None? || x.None? || y.None? || z.None? then None
    else
      var n := ((w.value * 16 + x.value) * 16 + y.value) * 16 + z.value;
      if 0xD800 <= n < 0xE000 then None else Some(n as char)
  }

  /** One character of a quoted string, section 7 of RFC 8259. */
  function ReadChar(s: string): (r: Option<(char, string)>)
    ensures r.Some? ==> |r.value.1| < |s|
  {
    if s == "" || s[0] == '\"' || s[0] as int < 0x20 then None
    else if s[0] != '\\' then Some((s[0], s[1..]))
    else if |s| == 1 then None
    else match s[1]
      case '\"' => Some(('\"', s[2..]))
      case '\\' => Some(('\\', s[2..]))
      case '/' => Some(('/', s[2..]))
      case 'b' => Some((8 as char, s[2..]))
      case 'f' => Some((12 as char, s[2..]))
      case 'n' => Some((10 as char, s[2..]))
      case 'r' => Some((13 as char, s[2..]))
      case 't' => Some((9 as char, s[2..]))
      case 'u' =>
        if |s| < 6 then None
        else
          var c := CodeUnit(s[2], s[3], s[4], s[5]);
          if c.None? then None else Some((c.value, s[6..]))
      case _ => None
  }

  /** The rest of a quoted string, and what is behind its closing quote. */
  function ReadString(s: string): (r: Option<(string, string)>)
    ensures r.Some? ==> |r.value.1| < |s|
    decreases |s|
  {
    if s != "" && s[0] == '\"' then Some(("", s[1..]))
    else
      var c := ReadChar(s);
      if c.None? then None
      else
        var rest := ReadString(c.value.1);
        if rest.None? then None else Some(([c.value.0] + rest.value.0, rest.value.1))
  }

  /** The characters of a number at the front. */
  function ReadNumber(s: string): (r: (string, string))
    ensures s == r.0 + r.1
  {
    if s == "" || !NumChar(s[0]) then ("", s)
    else var rest := ReadNumber(s[1..]); ([s[0]] + rest.0, rest.1)
  }

  /** A value at the front of a text without blanks between its tokens (RFC 8259), and what is behind it. */
  function Read(s: string): (r: Option<(Json, string)>)
    ensures r.Some? ==> |r.value.1| < |s|
    decreases |s|, 1
  {
    if "null" <= s then Some((Null, s[4..]))
    else if "true" <= s then Some((Bool(true), s[4..]))
    else if "false" <= s then Some((Bool(false), s[5..]))
    else if s == "" then None
    else if NumChar(s[0]) then Some((Num(ReadNumber(s).0), ReadNumber(s).1))
    else if s[0] == '\"' then
      var r := ReadString(s[1..]);
      if r.None? then None else Some((Str(r.value.0), r.value.1))
    else if s[0] == '[' then
      var r := ReadItems(s[1..], true);
      if r.None? then None else Some((Arr(r.value.0), r.value.1))
    else if s[0] == '{' then
      var r := ReadMembers(s[1..], true);
      if r.None? then None else Some((Obj(r.value.0), r.value.1))
    else None
  }

  /** The rest of an array: a comma stands between two items, and only there. */
  function ReadItems(s: string, first: bool): (r: Option<(seq<Json>, string)>)
    ensures r.Some? ==> |r.value.1| < |s|
    decreases |s|, 2
  {
    if s != "" && s[0] == ']' then Some(([], s[1..]))
    else if !first && (s == "" || s[0] != ',') then None
    else
      var v := Read(if first then s else s[1..]);
      if v.None? then None
      else
        var rest := ReadItems(v.value.1, false);
        if rest.None? then None else Some(([v.value.0] + rest.value.0, rest.value.1))
  }

  function ReadMembers(s: string, first: bool): (r: Option<(seq<Member>, string)>)
    ensures r.Some? ==> |r.value.1| < |s|
    decreases |s|, 2
  {
    if s != "" && s[0] == '}' then Some(([], s[1..]))
    else if !first && (s == "" || s[0] != ',') then None
    else
      var t := if first then s else s[1..];
      if t == "" || t[0] != '\"' then None
      else
        var k := ReadString(t[1..]);
        if k.None? || k.value.1 == "" || k.value.1[0] != ':' then None
        else
          var v := Read(k.value.1[1..]);
          if v.None? then None
          else
            var rest := ReadMembers(v.value.1, false);
            if rest.None? then None else Some(([Member(k.value.0, v.value.0)] + rest.value.0, rest.value.1))
  }

  // ---- printed text reads back ----

  /** What can follow a printed value: nothing, or a character that no value contains at its end. */
  predicate Delimited(s: string) { s == "" || s[0] == ',' || s[0] == ']' || s[0] == '}' }

  lemma {:induction false} HexReadsBack(n: nat)
    requires n < 16
    ensures HexValue(Hex(n)) == Some(n)
  {
  }

  lemma {:induction false} CodeReadsBack(c: char)
    requires c as int < 0x20
    ensures CodeUnit('0', '0', Hex(c as int / 16), Hex(c as int % 16)) == Some(c)
  {
    HexReadsBack(c as int / 16);
    HexReadsBack(c as int % 16);
    assert HexValue('0') == Some(0);
    hide HexValue, Hex;
  }

  lemma {:induction false} EscapeReadsBack(c: char, s: string)
    ensures ReadChar(Escaped(c) + s) == Some((c, s)) && (Escaped(c) + s)[0] != '\"'
  {
    hide CodeUnit, Hex;
    var t := Escaped(c) + s;
    assert t[|Escaped(c)|..] == s;
    if |Escaped(c)| == 6 { CodeReadsBack(c); }
  }

  lemma {:induction false} StringReadsBack(x: string, s: string)
    ensures ReadString(Quoted(x) + s) == Some((x, s))
  {
    hide Escaped, ReadChar;
    if x == "" {
      assert (Quoted(x) + s)[1..] == s;
    } else {
      EscapeReadsBack(x[0], Quoted(x[1..]) + s);
      StringReadsBack(x[1..], s);
      assert Quoted(x) + s == Escaped(x[0]) + (Quoted(x[1..]) + s);
      assert [x[0]] + x[1..] == x;
    }
  }

  lemma {:induction false} NumberReadsBack(x: string, s: string)
    requires Delimited(s) && forall c :: c in x ==> NumChar(c)
    ensures ReadNumber(x + s) == (x, s)
  {
    if x == "" {
      assert x + s == s;
    } else {
      assert x[0] in x && (x + s)[1..] == x[1..] + s;
      NumberReadsBack(x[1..], s);
      assert [x[0]] + x[1..] == x;
    }
  }

  lemma {:induction false} FirstChar(v: Json)
    requires WellFormed(v)
    ensures Text(v) != "" && Text(v)[0] != ']' && Text(v)[0] != '}'
  {
    if v.Num? { assert v.text[0] in v.text; }
  }

  function Separator(first: bool): string { if first then "" else "," }

  lemma {:induction false} ItemsTextSplits(xs: seq<Json>, first: bool, s: string)
    ensures xs == [] ==> ItemsText(xs, first) + s == "]" + s
    ensures xs != [] ==>
      ItemsText(xs, first) + s == Separator(first) + (Text(xs[0]) + (ItemsText(xs[1..], false) + s))
    ensures Delimited(ItemsText(xs, false) + s)
  {
  }

  lemma {:induction false} MembersTextSplits(xs: seq<Member>, first: bool, s: string)
    ensures xs == [] ==> MembersText(xs, first) + s == "}" + s
    ensures xs != [] ==>
      MembersText(xs, first) + s ==
        Separator(first) +
        (['\"'] + (Quoted(xs[0].key) + (":" + (Text(xs[0].value) + (MembersText(xs[1..], false) + s)))))
    ensures Delimited(MembersText(xs, false) + s)
  {
    MembersTextStep(xs, first);
    MembersTextStep(xs, false);
    hide MembersText, Text, Quoted;
    if xs != [] {
      var key, value, rest := Quoted(xs[0].key), Text(xs[0].value), MembersText(xs[1..], false);
      assert ['\"'] + key + ":" + value + rest + s == ['\"'] + (key + (":" + (value + (rest + s))));
    }
  }

  lemma {:induction false} MembersTextStep(xs: seq<Member>, first: bool)
    ensures xs == [] ==> MembersText(xs, first) == "}"
    ensures xs != [] ==>
      MembersText(xs, first) ==
        Separator(first) + (['\"'] + Quoted(xs[0].key) + ":" + Text(xs[0].value) + MembersText(xs[1..], false))
  {
  }

  /** Reading what is printed returns the value, whatever follows it. */
  lemma {:induction false} TextReadsBack(v: Json, s: string)
    requires WellFormed(v) && Delimited(s)
    ensures Read(Text(v) + s) == Some((v, s))
    decreases v, 1
  {
    hide Read, ReadItems, ReadMembers, ReadString, ReadNumber, ItemsText, MembersText, Quoted, NumChar;
    var t := Text(v) + s;
    if v.Num? { assert v.text[0] in v.text && t[0] == v.text[0]; }
    if !v.Null? && !v.Bool? { ReadBegins(t); }
    match v {
      case Num(x) =>
        NumberReadsBack(x, s);
      case Str(x) =>
        assert t[1..] == Quoted(x) + s;
        StringReadsBack(x, s);
      case Arr(xs) =>
        assert t[1..] == ItemsText(xs, true) + s;
        ItemsReadBack(xs, true, s);
      case Obj(ms) =>
        assert t[1..] == MembersText(ms, true) + s;
        MembersReadBack(ms, true, s);
      case _ => WordReadsBack(v, s);
    }
  }

  /** The first character tells what is read. */
  lemma {:induction false} ReadBegins(t: string)
    requires t != "" && (NumChar(t[0]) || t[0] in "\"[{")
    ensures NumChar(t[0]) ==> Read(t) == Some((Num(ReadNumber(t).0), ReadNumber(t).1))
    ensures t[0] == '\"' ==>
      var r := ReadString(t[1..]); Read(t) == if r.None? then None else Some((Str(r.value.0), r.value.1))
    ensures t[0] == '[' ==>
      var r := ReadItems(t[1..], true); Read(t) == if r.None? then None else Some((Arr(r.value.0), r.value.1))
    ensures t[0] == '{' ==>
      var r := ReadMembers(t[1..], true); Read(t) == if r.None? then None else Some((Obj(r.value.0), r.value.1))
  {
    hide ReadItems, ReadMembers, ReadString, ReadNumber;
  }

  lemma {:induction false} WordReadsBack(v: Json, s: string)
    requires v.Null? || v.Bool?
    ensures Read(Text(v) + s) == Some((v, s))
  {
    hide ReadItems, ReadMembers, ReadString, ReadNumber;
    var t := Text(v) + s;
    assert t[|Text(v)|..] == s && t[..|Text(v)|] == Text(v);
    assert t[0] == Text(v)[0];
  }

  lemma {:induction false} ItemsReadBack(xs: seq<Json>, first: bool, s: string)
    requires forall i :: 0 <= i < |xs| ==> WellFormed(xs[i])
    ensures ReadItems(ItemsText(xs, first) + s, first) == Some((xs, s))
    decreases xs, 0
  {
    ItemsTextSplits(xs, first, s);
    hide Text, ItemsText, Read;
    if xs == [] {
      assert ("]" + s)[1..] == s;
    } else {
      var rest := ItemsText(xs[1..], false) + s;
      FirstChar(xs[0]);
      ItemsTextSplits(xs[1..], false, s);
      TextReadsBack(xs[0], rest);
      ItemsReadBack(xs[1..], false, s);
      assert (Separator(first) + (Text(xs[0]) + rest))[|Separator(first)|..] == Text(xs[0]) + rest;
      assert [xs[0]] + xs[1..] == xs;
    }
  }

  lemma {:induction false} MembersReadBack(xs: seq<Member>, first: bool, s: string)
    requires forall i :: 0 <= i < |xs| ==> WellFormed(xs[i].value)
    ensures ReadMembers(MembersText(xs, first) + s, first) == Some((xs, s))
    decreases xs, 0
  {
    MembersTextSplits(xs, first, s);
    hide Text, MembersText, Read, Quoted, ReadString;
    if xs == [] {
      assert ("}" + s)[1..] == s;
    } else {
      var rest := MembersText(xs[1..], false) + s;
      var value := ":" + (Text(xs[0].value) + rest);
      var member := ['\"'] + (Quoted(xs[0].key) + value);
      MembersTextSplits(xs[1..], false, s);
      StringReadsBack(xs[0].key, value);
      TextReadsBack(xs[0].value, rest);
      MembersReadBack(xs[1..], false, s);
      assert (Separator(first) + member)[|Separator(first)|..] == member;
      assert member[1..] == Quoted(xs[0].key) + value && value[1..] == Text(xs[0].value) + rest;
      assert [xs[0]] + xs[1..] == xs;
    }
  }

  /** So text is a prefix code: a printed value is recovered from the front of any text it starts. */
  lemma {:induction false} TextIsPrefixCode(a: Json, b: Json, s: string, t: string)
    requires WellFormed(a) && WellFormed(b) && Delimited(s) && Delimited(t)
    requires Text(a) + s == Text(b) + t
    ensures a == b && s == t
  {
    TextReadsBack(a, s);
    TextReadsBack(b, t);
    hide Text, Read;
  }

  // ---- stableJson ----

  function StableText(v: Json): string { Text(Norm(v)) }

  lemma {:induction false} NormIsWellFormed(v: Json)
    requires WellFormed(v)
    ensures WellFormed(Norm(v))
  {
    match v {
      case Arr(items) =>
        forall i | 0 <= i < |items| ensures WellFormed(Norm(items[i])) { NormIsWellFormed(items[i]); }
      case Obj(ms) =>
        SortedKeys(ms);
        KeyOrderIsStrictTotal();
        var keys := Sort(Keys(ms), KeyBefore);
        forall i | 0 <= i < |keys| ensures HasKey(ms, keys[i]) && WellFormed(Norm(Lookup(ms, keys[i]))) {
          assert keys[i] in keys;
          WellFormedLookup(ms, keys[i]);
          NormIsWellFormed(Lookup(ms, keys[i]));
        }
      case _ =>
    }
  }

  /** Sorting the keys again changes nothing. */
  lemma {:induction false} NormTwice(v: Json)
    requires WellFormed(v)
    ensures Norm(Norm(v)) == Norm(v)
  {
    match v {
      case Arr(items) =>
        forall i | 0 <= i < |items| ensures Norm(Norm(items[i])) == Norm(items[i]) { NormTwice(items[i]); }
      case Obj(ms) =>
        var keys := Sort(Keys(ms), KeyBefore);
        var once := Norm(v).members;
        NormKeys(v);
        NormIsWellFormed(v);
        SortedKeys(ms);
        SortedKeys(once);
        KeyOrderIsStrictTotal();
        forall k ensures k in Sort(keys, KeyBefore) <==> k in keys {}
        UniqueListing(Sort(keys, KeyBefore), keys, KeyBefore);
        NormKeys(Norm(v));
        forall i | 0 <= i < |keys| ensures Norm(Norm(v)).members[i] == once[i] {
          LookupAt(once, i);
          assert keys[i] in keys;
          WellFormedLookup(ms, keys[i]);
          NormTwice(Lookup(ms, keys[i]));
        }
        assert Norm(Norm(v)).members == once;
      case _ =>
    }
  }

  /** The keys of every object inside v come in enumeration order. */
  ghost predicate InKeyOrder(v: Json) {
    match v
    case Arr(items) => forall i :: 0 <= i < |items| ==> InKeyOrder(items[i])
    case Obj(ms) =>
      && (forall i, j :: 0 <= i < j < |ms| ==> EnumeratesBefore(ms[i].key, ms[j].key))
      && forall i :: 0 <= i < |ms| ==> InKeyOrder(ms[i].value)
    case _ => true
  }

  lemma {:induction false} NormIsInKeyOrder(v: Json)
    requires WellFormed(v)
    ensures InKeyOrder(Norm(v))
  {
    match v {
      case Arr(items) =>
        forall i | 0 <= i < |items| ensures InKeyOrder(Norm(items[i])) { NormIsInKeyOrder(items[i]); }
      case Obj(ms) =>
        SortedKeys(ms);
        NormKeys(v);
        var keys := Sort(Keys(ms), KeyBefore);
        forall i, j | 0 <= i < j < |keys| ensures EnumeratesBefore(keys[i], keys[j]) { KeyBeforeIff(keys[i], keys[j]); }
        forall i | 0 <= i < |keys| ensures InKeyOrder(Norm(v).members[i].value) {
          assert keys[i] in keys;
          WellFormedLookup(ms, keys[i]);
          NormIsInKeyOrder(Lookup(ms, keys[i]));
        }
        hide KeyBefore, EnumeratesBefore;
      case _ =>
    }
  }

  /** The text is JSON of a value that is the same up to the order of object keys, in the one order of keys that there
      is: array indexes by number, then the others by their UTF-16 code units. */
  lemma {:induction false} StableTextReadsBack(v: Json)
    requires WellFormed(v)
    ensures exists w :: Read(StableText(v)) == Some((w, "")) && Same(v, w) && InKeyOrder(w)
  {
    var w := Norm(v);
    NormIsWellFormed(v);
    NormIsInKeyOrder(v);
    NormTwice(v);
    NormDecidesSame(v, w);
    TextReadsBack(w, "");
    assert Text(w) + "" == StableText(v);
    hide Norm, Text, Read, Same, InKeyOrder;
  }

  /** The dirty check is exact: two values print the same if and only if they are equal up to the order of object
      keys. */
  lemma {:induction false} StableTextIsCanonical(a: Json, b: Json)
    requires WellFormed(a) && WellFormed(b)
    ensures StableText(a) == StableText(b) <==> Same(a, b)
  {
    NormDecidesSame(a, b);
    if StableText(a) == StableText(b) {
      NormIsWellFormed(a);
      NormIsWellFormed(b);
      assert Text(Norm(a)) + "" == Text(Norm(b)) + "";
      TextIsPrefixCode(Norm(a), Norm(b), "", "");
    }
  }
}
