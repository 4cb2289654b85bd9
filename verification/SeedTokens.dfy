/** The tenant tokens shared by the dev-seed anonymizer and its leak gate, and the gate's indexed search. */
module SeedTokens {
  import opened Trimming
  import opened Wrappers

  const MIN_TOKEN := 4

  /** Case folding, one character to one character. */
  type Fold = char -> char

  function Lower(s: string, fold: Fold): string {
    seq(|s|, i requires 0 <= i < |s| => fold(s[i]))
  }

  /** What str.strip() removes. */
  predicate IsSpace(c: char) {
    var n := c as int;
    9 <= n <= 13 || 28 <= n <= 32 || n in {0x85, 0xA0, 0x1680, 0x2028, 0x2029, 0x202F, 0x205F, 0x3000} ||
      0x2000 <= n <= 0x200A
  }

  /** The 29 white space characters, one by one. */
  lemma {:induction false} SpacesOneByOne(c: char)
    ensures IsSpace(c) <==>
      c as int in {0x09, 0x0A, 0x0B, 0x0C, 0x0D, 0x1C, 0x1D, 0x1E, 0x1F, 0x20, 0x85, 0xA0, 0x1680, 0x2000, 0x2001,
                   0x2002, 0x2003, 0x2004, 0x2005, 0x2006, 0x2007, 0x2008, 0x2009, 0x200A, 0x2028, 0x2029, 0x202F,
                   0x205F, 0x3000}
  {
  }

  const SPACES: set<char> := set c: char | IsSpace(c)

  function Strip(s: string): string { Trim(s, SPACES) }

  /** line.split("\t", 1): the category and the rest; a line without a tab raises. */
  function SplitTab(line: string): Option<(string, string)> {
    if line == "" then None
    else if line[0] == '\t' then Some(("", line[1..]))
    else match SplitTab(line[1..])
      case None => None
      case Some((cat, raw)) => Some(([line[0]] + cat, raw))
  }

  // ---- the token set of a file ----

  /** A category without a tab, a tab, and a text with this value between its outer blanks. */
  ghost predicate Reads(line: string, cat: string, value: string) {
    '\t' !in cat && exists rest :: line == cat + "\t" + rest && IsCore(rest, value, SPACES)
  }

  ghost predicate LowerOf(t: string, value: string, fold: Fold) {
    |t| == |value| && forall i :: 0 <= i < |t| ==> t[i] == fold(value[i])
  }

  /** The line has this token: its value, lowered, when it has at least four characters. */
  ghost predicate Contributes(line: string, fold: Fold, t: string) {
    exists cat, value :: Reads(line, cat, value) && |value| >= 4 && LowerOf(t, value, fold)
  }

  /** A line that is not all blanks has a tab. */
  ghost predicate Readable(lines: seq<string>) {
    forall i :: 0 <= i < |lines| && !AllBlank(lines[i], SPACES) ==> '\t' in lines[i]
  }

  ghost predicate IsTokenOf(lines: seq<string>, fold: Fold, t: string) {
    exists i :: 0 <= i < |lines| && Contributes(lines[i], fold, t)
  }

  lemma {:induction false} SplitTabJoins(line: string)
    ensures SplitTab(line).Some? ==>
      var (cat, raw) := SplitTab(line).value; line == cat + "\t" + raw && '\t' !in cat
    ensures SplitTab(line).None? <==> '\t' !in line
  {
    if line != "" {
      assert line == [line[0]] + line[1..];
      SplitTabJoins(line[1..]);
    }
  }

  lemma {:induction false} SplitTabOf(cat: string, raw: string)
    requires '\t' !in cat
    ensures SplitTab(cat + "\t" + raw) == Some((cat, raw))
  {
    var line := cat + "\t" + raw;
    if cat == "" {
      assert line[1..] == raw;
    } else {
      SplitTabOf(cat[1..], raw);
      assert line[1..] == cat[1..] + "\t" + raw;
      assert [line[0]] + cat[1..] == cat;
    }
  }

  /** The split is at the first tab. */
  lemma {:induction false} SplitTabIff(line: string, cat: string, raw: string)
    ensures SplitTab(line) == Some((cat, raw)) <==> line == cat + "\t" + raw && '\t' !in cat
    ensures SplitTab(line).None? <==> '\t' !in line
  {
    hide SplitTab;
    SplitTabJoins(line);
    if '\t' !in cat { SplitTabOf(cat, raw); }
  }

  /** The value of a line is what stripping the rest after its first tab leaves. */
  lemma {:induction false} ReadsIff(line: string, cat: string, value: string)
    ensures Reads(line, cat, value) <==>
      SplitTab(line).Some? && SplitTab(line).value.0 == cat && Strip(SplitTab(line).value.1) == value
  {
    if Reads(line, cat, value) {
      var rest :| line == cat + "\t" + rest && IsCore(rest, value, SPACES);
      SplitTabIff(line, cat, rest);
      TrimIff(rest, value, SPACES);
    }
    if SplitTab(line).Some? && SplitTab(line).value.0 == cat && Strip(SplitTab(line).value.1) == value {
      var rest := SplitTab(line).value.1;
      SplitTabIff(line, cat, rest);
      TrimIff(rest, value, SPACES);
    }
  }

  lemma {:induction false} LowerIff(t: string, value: string, fold: Fold)
    ensures t == Lower(value, fold) <==> LowerOf(t, value, fold)
  {
  }

  // ---- longest first ----

  ghost predicate LongestFirst(s: seq<string>) { forall i, j :: 0 <= i < j < |s| ==> |s[i]| >= |s[j]| }

  function InsertByLength(t: string, s: seq<string>): (r: seq<string>)
    ensures forall u :: u in r <==> u == t || u in s
  {
    if s == [] || |t| >= |s[0]| then [t] + s else [s[0]] + InsertByLength(t, s[1..])
  }

  function SortByLength(s: seq<string>): (r: seq<string>)
    ensures forall u :: u in r <==> u in s
  {
    if s == [] then [] else InsertByLength(s[0], SortByLength(s[1..]))
  }

  lemma {:induction false} InsertKeepsLongestFirst(t: string, s: seq<string>)
    requires LongestFirst(s)
    ensures LongestFirst(InsertByLength(t, s))
  {
    if s != [] && |t| < |s[0]| {
      var rest := InsertByLength(t, s[1..]);
      InsertKeepsLongestFirst(t, s[1..]);
      forall i | 0 <= i < |rest| ensures |s[0]| >= |rest[i]| { assert rest[i] in rest; }
    }
  }

  lemma {:induction false} SortsByLength(s: seq<string>)
    ensures LongestFirst(SortByLength(s))
  {
    if s != [] {
      SortsByLength(s[1..]);
      InsertKeepsLongestFirst(s[0], SortByLength(s[1..]));
    }
  }

  /** leakgate.load_tokens; None is the exception of a line without a tab. */
  method LoadTokens(lines: seq<string>, fold: Fold) returns (r: Option<seq<string>>)
    ensures r.Some? <==> Readable(lines)
    ensures r.Some? ==> LongestFirst(r.value) && forall t :: t in r.value <==> IsTokenOf(lines, fold, t)
  {
    var toks: seq<string> := [];
    for i := 0 to |lines|
      invariant forall k :: 0 <= k < i && !AllBlank(lines[k], SPACES) ==> '\t' in lines[k]
      invariant forall t :: t in toks <==> exists k :: 0 <= k < i && Contributes(lines[k], fold, t)
    {
      hide Contributes, AllBlank;
      var t := TokenOfLine(lines[i], fold);
      if t.None? { return None; }
      if t.value.Some? && t.value.value !in toks { toks := toks + [t.value.value]; }
    }
    SortsByLength(toks);
    r := Some(SortByLength(toks));
  }

  /** One line: None raises, Some(None) contributes nothing. */
  method TokenOfLine(line: string, fold: Fold) returns (r: Option<Option<string>>)
    ensures r.None? <==> !AllBlank(line, SPACES) && '\t' !in line
    ensures r.Some? ==> forall t :: Contributes(line, fold, t) <==> r.value == Some(t)
  {
    LineContributes(line, fold);
    TrimIsEmptyIff(line, SPACES);
    SplitTabIff(line, "", "");
    hide Contributes, AllBlank, SplitTab, Trim, SPACES;
    if Strip(line) == "" { return Some(None); }
    var split := SplitTab(line);
    if split.None? { return None; }
    var raw := Lower(Strip(split.value.1), fold);
    r := Some(if |raw| >= MIN_TOKEN then Some(raw) else None);
  }

  /** What a line contributes, by the steps the two programs take. */
  lemma {:induction false} LineContributes(line: string, fold: Fold)
    ensures forall t :: Contributes(line, fold, t) <==>
      && SplitTab(line).Some? && |Strip(SplitTab(line).value.1)| >= MIN_TOKEN
      && t == Lower(Strip(SplitTab(line).value.1), fold)
    ensures Strip(line) == "" && SplitTab(line).Some? ==> Strip(SplitTab(line).value.1) == ""
  {
    forall t
      ensures Contributes(line, fold, t) <==>
        && SplitTab(line).Some? && |Strip(SplitTab(line).value.1)| >= MIN_TOKEN
        && t == Lower(Strip(SplitTab(line).value.1), fold)
    {
      hide Reads, Strip, SplitTab, LowerOf, Lower;
      if Contributes(line, fold, t) {
        var cat, value :| Reads(line, cat, value) && |value| >= 4 && LowerOf(t, value, fold);
        ReadsIff(line, cat, value);
        LowerIff(t, value, fold);
      }
      if SplitTab(line).Some? {
        var (cat, raw) := SplitTab(line).value;
        ReadsIff(line, cat, Strip(raw));
        LowerIff(t, Strip(raw), fold);
      }
    }
    if Strip(line) == "" && SplitTab(line).Some? {
      var (cat, raw) := SplitTab(line).value;
      SplitTabIff(line, cat, raw);
      TrimIsEmptyIff(line, SPACES);
      TrimIsEmptyIff(raw, SPACES);
      assert forall i :: 0 <= i < |raw| ==> raw[i] == line[|cat| + 1 + i];
    }
  }

  // ---- occurrences ----

  predicate StartsAt(v: string, t: string, i: int) { 0 <= i <= |v| - |t| && v[i..i+|t|] == t }

  ghost predicate Occurs(v: string, t: string) { exists i :: StartsAt(v, t, i) }

  /** The token stands at this place of the value, up to case. */
  ghost predicate TokenAt(value: string, t: string, i: int, fold: Fold) {
    0 <= i <= |value| - |t| && forall k :: 0 <= k < |t| ==> fold(value[i+k]) == t[k]
  }

  lemma {:induction false} StartsAtIff(value: string, t: string, i: int, fold: Fold)
    ensures StartsAt(Lower(value, fold), t, i) <==> TokenAt(value, t, i, fold)
  {
    var v := Lower(value, fold);
    if StartsAt(v, t, i) {
      forall k | 0 <= k < |t| ensures fold(value[i+k]) == t[k] { assert v[i..i+|t|][k] == v[i+k]; }
    }
  }

  lemma {:induction false} OccursIff(value: string, t: string, fold: Fold)
    ensures Occurs(Lower(value, fold), t) <==> exists i :: TokenAt(value, t, i, fold)
  {
    hide StartsAt, Lower, TokenAt;
    if Occurs(Lower(value, fold), t) {
      var i :| StartsAt(Lower(value, fold), t, i);
      StartsAtIff(value, t, i, fold);
    }
    if exists i :: TokenAt(value, t, i, fold) {
      var i :| TokenAt(value, t, i, fold);
      StartsAtIff(value, t, i, fold);
    }
  }

  function Prefix(t: string): string { if |t| <= MIN_TOKEN then t else t[..MIN_TOKEN] }

  lemma {:induction false} PrefixAt(v: string, t: string, i: nat)
    requires |t| >= MIN_TOKEN && StartsAt(v, t, i)
    ensures i + MIN_TOKEN <= |v| && Prefix(t) == v[i..i+MIN_TOKEN]
  {
    assert v[i..i+|t|][..MIN_TOKEN] == v[i..i+MIN_TOKEN];
  }

  /** "Does any token occur in this string", one dictionary lookup per position. */
  class TokenIndex {
    var byPrefix: map<string, seq<string>>

    ghost predicate Indexes(tokens: seq<string>)
      reads this
    {
      && (forall t :: t in tokens ==> Prefix(t) in byPrefix && t in byPrefix[Prefix(t)])
      && (forall p :: p in byPrefix ==> byPrefix[p] != [] && forall t :: t in byPrefix[p] ==>
        t in tokens && Prefix(t) == p)
    }

    constructor (tokens: seq<string>)
      ensures Indexes(tokens)
    {
      byPrefix := map[];
      new;
      for i := 0 to |tokens|
        invariant Indexes(tokens[..i])
      {
        var t := tokens[i];
        assert tokens[..i+1] == tokens[..i] + [t];
        var p := Prefix(t);
        byPrefix := byPrefix[p := (if p in byPrefix then byPrefix[p] else []) + [t]];
      }
      assert tokens[..|tokens|] == tokens;
    }

    /** Agrees with the naive substring check of every token long enough, on every string. */
    method Search(value: string, fold: Fold, ghost tokens: seq<string>) returns (found: bool)
      requires Indexes(tokens)
      ensures found <==> exists t, i :: t in tokens && |t| >= 4 && TokenAt(value, t, i, fold)
    {
      forall t, i ensures StartsAt(Lower(value, fold), t, i) <==> TokenAt(value, t, i, fold) {
        StartsAtIff(value, t, i, fold);
      }
      hide TokenAt;
      var v := Lower(value, fold);
      if byPrefix == map[] { return false; }
      var i := 0;
      while i + MIN_TOKEN <= |v|
        invariant 0 <= i
        invariant forall t, k :: t in tokens && |t| >= MIN_TOKEN && 0 <= k < i ==> !StartsAt(v, t, k)
      {
        var p := v[i..i+MIN_TOKEN];
        if p in byPrefix {
          var hit := AnyStartsAt(byPrefix[p], v, i);
          if hit { return true; }
        }
        forall t | t in tokens && |t| >= MIN_TOKEN && StartsAt(v, t, i) ensures Prefix(t) == p {
          PrefixAt(v, t, i);
        }
        i := i + 1;
      }
      found := false;
    }

    static method AnyStartsAt(cands: seq<string>, v: string, i: nat) returns (hit: bool)
      ensures hit <==> exists t :: t in cands && StartsAt(v, t, i)
    {
      hit := false;
      for k := 0 to |cands|
        invariant hit <==> exists t :: t in cands[..k] && StartsAt(v, t, i)
      {
        assert cands[..k+1] == cands[..k] + [cands[k]];
        if StartsAt(v, cands[k], i) { hit := true; }
      }
      assert cands[..|cands|] == cands;
    }
  }
}
