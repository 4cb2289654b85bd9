/** The anonymizer's token table and its leftmost-longest, case-insensitive replacement (anonymize.py). */
module SeedScrub {
  import opened SeedTokens
  import opened Trimming
  import opened Wrappers

  /** The keyed hash stands for any function to a non-empty pseudonym. */
  type Pseudo = (string, string) -> string

  ghost predicate NonEmpty(pseudo: Pseudo) { forall c, r :: pseudo(c, r) != "" }

  predicate Matches(value: string, t: string, fold: Fold) {
    |t| <= |value| && Lower(value[..|t|], fold) == t
  }

  /** The first token of `alts` that the value starts with, up to case. */
  function FirstMatch(value: string, alts: seq<string>, fold: Fold): Option<string> {
    if alts == [] then None
    else if Matches(value, alts[0], fold) then Some(alts[0])
    else FirstMatch(value, alts[1..], fold)
  }

  lemma {:induction false} FirstMatchIsLongest(value: string, alts: seq<string>, fold: Fold)
    requires LongestFirst(alts)
    ensures var m := FirstMatch(value, alts, fold);
      && (m.None? <==> forall t :: t in alts ==> !Matches(value, t, fold))
      && (m.Some? ==>
            && m.value in alts && Matches(value, m.value, fold)
            && forall t :: t in alts && Matches(value, t, fold) ==> |t| <= |m.value|)
  {
    hide Matches;
    if alts != [] {
      FirstMatchIsLongest(value, alts[1..], fold);
      assert forall u :: u in alts <==> u == alts[0] || u in alts[1..];
    }
  }

  /** Text with, for each character, whether a pseudonym put it there. */
  datatype Scrubbed = Scrubbed(text: string, mark: seq<bool>)

  function Marks(n: nat): (r: seq<bool>)
    ensures |r| == n && forall i :: 0 <= i < n ==> r[i]
  {
    seq(n, i => true)
  }

  ghost predicate Table(pairs: map<string, string>, alts: seq<string>) {
    && LongestFirst(alts) && (forall t :: t in alts <==> t in pairs)
    && forall t :: t in pairs ==> |t| >= MIN_TOKEN && pairs[t] != ""
  }

  /** re.sub: at each position replace the longest token that starts there, else keep one character. */
  function Replace(value: string, pairs: map<string, string>, alts: seq<string>, fold: Fold): (r: Scrubbed)
    requires forall t :: t in alts ==> t in pairs && t != ""
    ensures |r.mark| == |r.text|
    decreases |value|
  {
    if value == "" then Scrubbed("", [])
    else
      var m := FirstMatch(value, alts, fold);
      if m.Some? then
        assert m.value in alts && |m.value| <= |value| by { MatchIsToken(value, alts, fold); }
        var rest := Replace(value[|m.value|..], pairs, alts, fold);
        Scrubbed(pairs[m.value] + rest.text, Marks(|pairs[m.value]|) + rest.mark)
      else
        var rest := Replace(value[1..], pairs, alts, fold);
        Scrubbed([value[0]] + rest.text, [false] + rest.mark)
  }

  lemma {:induction false} MatchIsToken(value: string, alts: seq<string>, fold: Fold)
    ensures var m := FirstMatch(value, alts, fold); m.Some? ==> m.value in alts && |m.value| <= |value|
  {
    if alts != [] { MatchIsToken(value, alts[1..], fold); }
  }

  /** How much input the next step uses up, and what it puts out. */
  function Used(value: string, alts: seq<string>, fold: Fold): nat {
    var m := FirstMatch(value, alts, fold);
    if m.Some? then |m.value| else 1
  }

  function Piece(value: string, pairs: map<string, string>, alts: seq<string>, fold: Fold): string
    requires value != "" && forall t :: t in alts ==> t in pairs
  {
    var m := FirstMatch(value, alts, fold);
    if m.Some? then
      assert m.value in alts by { MatchIsToken(value, alts, fold); }
      pairs[m.value]
    else [value[0]]
  }

  /** What one step puts in front of the rest, whether it is a pseudonym, and how much input it uses up. */
  lemma {:induction false} ReplaceStep(value: string, pairs: map<string, string>, alts: seq<string>, fold: Fold)
    returns (head: string, marked: bool, used: nat)
    requires Table(pairs, alts) && value != ""
    ensures 0 < used <= |value| && head != ""
    ensures var r, rest := Replace(value, pairs, alts, fold), Replace(value[used..], pairs, alts, fold);
      && r.text == head + rest.text
      && (forall k :: 0 <= k < |head| ==> r.mark[k] == marked)
      && (forall k :: 0 <= k < |rest.mark| ==> r.mark[|head| + k] == rest.mark[k])
    ensures marked == FirstMatch(value, alts, fold).Some?
    ensures used == Used(value, alts, fold) && head == Piece(value, pairs, alts, fold)
    ensures !marked ==> used == 1 && head == [value[0]]
    ensures marked ==> exists u :: u in alts && head == pairs[u]
  {
    hide FirstMatch, Table;
    MatchIsToken(value, alts, fold);
    TableIs(pairs, alts);
    var m := FirstMatch(value, alts, fold);
    if m.Some? { return pairs[m.value], true, |m.value|; }
    return [value[0]], false, 1;
  }

  /** A position where tokens start gives way to the pseudonym of the longest of them, marked; any other character is
      kept, unmarked. */
  lemma {:induction false} LongestIsReplaced(value: string, pairs: map<string, string>, alts: seq<string>, fold: Fold,
                                             t: string)
    requires Table(pairs, alts)
    ensures value == "" ==> Replace(value, pairs, alts, fold) == Scrubbed("", [])
    ensures
      (t in alts && TokenAt(value, t, 0, fold) && forall u :: u in alts && TokenAt(value, u, 0, fold) ==>
        |u| <= |t|) ==>
      var r, rest := Replace(value, pairs, alts, fold), Replace(value[|t|..], pairs, alts, fold);
      && r.text == pairs[t] + rest.text
      && (forall k :: 0 <= k < |pairs[t]| ==> r.mark[k]) && r.mark[|pairs[t]|..] == rest.mark
    ensures value != "" && (forall u :: u in alts ==> !TokenAt(value, u, 0, fold)) ==>
      var r, rest := Replace(value, pairs, alts, fold), Replace(value[1..], pairs, alts, fold);
      r.text == [value[0]] + rest.text && r.mark == [false] + rest.mark
  {
    hide *;
    TableIs(pairs, alts);
    if value == "" {
      NothingIsNothing(pairs, alts, fold);
      NoTokenHere(t, fold);
    } else {
      FirstMatchIsLongest(value, alts, fold);
      forall u ensures Matches(value, u, fold) <==> TokenAt(value, u, 0, fold) { MatchesIff(value, u, fold); }
      var m := FirstMatch(value, alts, fold);
      if m.Some? && |m.value| == |t| && TokenAt(value, t, 0, fold) { SameToken(value, t, m.value, fold); }
      UsedOf(value, pairs, alts, fold);
      var head, marked, used := ReplaceStep(value, pairs, alts, fold);
      var r, rest := Replace(value, pairs, alts, fold), Replace(value[used..], pairs, alts, fold);
      assert r.mark[|head|..] == rest.mark;
    }
  }

  lemma {:induction false} NoTokenHere(t: string, fold: Fold)
    ensures TokenAt("", t, 0, fold) ==> t == ""
  {
  }

  lemma {:induction false} UsedOf(value: string, pairs: map<string, string>, alts: seq<string>, fold: Fold)
    requires value != "" && forall u :: u in alts ==> u in pairs
    ensures var m := FirstMatch(value, alts, fold);
      m.Some? ==>
        && m.value in alts && Used(value, alts, fold) == |m.value|
        && Piece(value, pairs, alts, fold) == pairs[m.value]
  {
    MatchIsToken(value, alts, fold);
  }

  lemma {:induction false} SameToken(value: string, t: string, u: string, fold: Fold)
    requires |t| == |u| && Matches(value, t, fold) && Matches(value, u, fold)
    ensures t == u
  {
  }

  lemma {:induction false} MatchesIff(value: string, t: string, fold: Fold)
    ensures Matches(value, t, fold) <==> TokenAt(value, t, 0, fold)
  {
    if |t| <= |value| {
      var v := Lower(value[..|t|], fold);
      assert forall k :: 0 <= k < |t| ==> v[k] == fold(value[0+k]);
    }
  }

  // ---- no token survives outside a pseudonym ----

  lemma {:induction false} KeptOneMore(value: string, text: string, rest: string, n: nat)
    requires 0 < n <= |text| && value != "" && text == [value[0]] + rest
    requires n - 1 <= |value| - 1 && rest[..n-1] == value[1..][..n-1]
    ensures n <= |value| && text[..n] == value[..n]
  {
    assert text[..n] == [value[0]] + rest[..n-1];
    assert value[..n] == [value[0]] + value[1..][..n-1];
  }

  /** Text in front of the first pseudonym is the input's own. */
  lemma {:induction false} UnmarkedIsKept(value: string, pairs: map<string, string>, alts: seq<string>, fold: Fold,
                                          n: nat)
    requires Table(pairs, alts)
    requires var r := Replace(value, pairs, alts, fold); n <= |r.text| && forall k :: 0 <= k < n ==> !r.mark[k]
    ensures n <= |value| && Replace(value, pairs, alts, fold).text[..n] == value[..n]
    decreases |value|
  {
    if n > 0 {
      var head, marked, used := ReplaceStep(value, pairs, alts, fold);
      var r, rest := Replace(value, pairs, alts, fold), Replace(value[used..], pairs, alts, fold);
      hide Table, FirstMatch, Replace;
      assert r.mark[0] == marked;
      forall k | 0 <= k < n - 1 ensures !rest.mark[k] { assert r.mark[|head| + k] == rest.mark[k]; }
      UnmarkedIsKept(value[1..], pairs, alts, fold, n - 1);
      KeptOneMore(value, r.text, rest.text, n);
    }
  }

  ghost predicate Touched(r: Scrubbed, i: int, n: nat)
    requires |r.mark| == |r.text| && 0 <= i <= |r.text| - n
  {
    exists k :: i <= k < i + n && r.mark[k]
  }

  /** Every occurrence of a token in the scrubbed text overlaps an inserted pseudonym. */
  lemma {:induction false} OccurrenceIsTouched(value: string, pairs: map<string, string>, alts: seq<string>, fold: Fold,
                                               t: string, i: nat)
    requires Table(pairs, alts) && t in alts
    requires StartsAt(Lower(Replace(value, pairs, alts, fold).text, fold), t, i)
    ensures Touched(Replace(value, pairs, alts, fold), i, |t|)
    decreases |value|
  {
    hide Table, FirstMatch, Replace, Piece, Used, Lower, StartsAt;
    TableIs(pairs, alts);
    NothingIsNothing(pairs, alts, fold);
    var r := Replace(value, pairs, alts, fold);
    OccursWithin(r.text, t, i, fold);
    var head, marked, used := ReplaceStep(value, pairs, alts, fold);
    var rest := Replace(value[used..], pairs, alts, fold);
    if i >= |head| {
      ShiftOccurrence(head, rest, r, fold, t, i);
      OccursWithin(rest.text, t, i - |head|, fold);
      OccurrenceIsTouched(value[used..], pairs, alts, fold, t, i - |head|);
      var k :| i - |head| <= k < i - |head| + |t| && rest.mark[k];
      assert r.mark[|head| + k];
    } else if marked {
      assert r.mark[i];
    } else {
      TouchedAtTheFront(value, pairs, alts, fold, t);
    }
  }

  lemma {:induction false} TouchedAtTheFront(value: string, pairs: map<string, string>, alts: seq<string>, fold: Fold,
                                             t: string)
    requires Table(pairs, alts) && t in alts && FirstMatch(value, alts, fold).None?
    requires StartsAt(Lower(Replace(value, pairs, alts, fold).text, fold), t, 0)
    ensures Touched(Replace(value, pairs, alts, fold), 0, |t|)
  {
    var r := Replace(value, pairs, alts, fold);
    FirstMatchIsLongest(value, alts, fold);
    assert !Matches(value, t, fold);
    hide Table, FirstMatch, Replace;
    if !Touched(r, 0, |t|) {
      UnmarkedIsKept(value, pairs, alts, fold, |t|);
      KeptTextMatches(value, r.text, t, fold);
    }
  }

  lemma {:induction false} KeptTextMatches(value: string, text: string, t: string, fold: Fold)
    requires |t| <= |value| && |t| <= |text| && text[..|t|] == value[..|t|] && StartsAt(Lower(text, fold), t, 0)
    ensures Matches(value, t, fold)
  {
    assert Lower(value[..|t|], fold) == Lower(text, fold)[0..0+|t|];
  }

  lemma {:induction false} ShiftOccurrence(p: string, rest: Scrubbed, r: Scrubbed, fold: Fold, t: string, i: nat)
    requires r.text == p + rest.text && i >= |p| && StartsAt(Lower(r.text, fold), t, i)
    ensures StartsAt(Lower(rest.text, fold), t, i - |p|)
  {
    assert Lower(r.text, fold)[i..i+|t|] == Lower(rest.text, fold)[i-|p|..i-|p|+|t|];
  }

  // ---- the anonymizer ----

  datatype Entry = Entry(cat: string, raw: string, low: string)

  /** The category, the stripped value and the lowered token of a line, when the line contributes one. */
  method EntryOfLine(line: string, fold: Fold) returns (r: Option<Entry>)
    requires !AllBlank(line, SPACES) ==> '\t' in line
    ensures forall t :: Contributes(line, fold, t) <==> r.Some? && r.value.low == t
    ensures r.Some? ==>
      Reads(line, r.value.cat, r.value.raw) && |r.value.raw| >= 4 && LowerOf(r.value.low, r.value.raw, fold)
    ensures r.Some? ==> |r.value.low| >= MIN_TOKEN
  {
    LineContributes(line, fold);
    TrimIsEmptyIff(line, SPACES);
    SplitTabIff(line, "", "");
    hide Contributes, AllBlank, SplitTab, Trim, SPACES, Reads, LowerOf;
    if Strip(line) == "" { return None; }
    var split := SplitTab(line).value;
    var raw := Strip(split.1);
    ReadsIff(line, split.0, raw);
    LowerIff(Lower(raw, fold), raw, fold);
    r := if |raw| >= MIN_TOKEN then Some(Entry(split.0, raw, Lower(raw, fold))) else None;
  }

  /** The first line that contributes a token gives its pseudonym, from its own spelling. */
  ghost predicate FromFirstSpelling(t: string, pseudonym: string, fold: Fold, pseudo: Pseudo, lines: seq<string>,
                                    n: nat)
    requires n <= |lines|
  {
    exists i, cat, value ::
      && 0 <= i < n && Reads(lines[i], cat, value) && |value| >= 4 && LowerOf(t, value, fold)
      && (forall k :: 0 <= k < i ==> !Contributes(lines[k], fold, t))
      && pseudonym == pseudo(cat, value)
  }

  method BuildPairs(fold: Fold, pseudo: Pseudo, lines: seq<string>)
    returns (pairs: map<string, string>, keys: seq<string>)
    requires NonEmpty(pseudo) && Readable(lines)
    ensures forall t :: t in pairs <==> IsTokenOf(lines, fold, t)
    ensures forall t :: t in keys <==> t in pairs
    ensures forall t :: t in pairs ==> |t| >= MIN_TOKEN && pairs[t] != ""
    ensures forall t :: t in pairs ==> FromFirstSpelling(t, pairs[t], fold, pseudo, lines, |lines|)
  {
    hide Contributes, FromFirstSpelling, Reads, LowerOf, AllBlank;
    pairs, keys := map[], [];
    for i := 0 to |lines|
      invariant forall t :: t in pairs <==> exists k :: 0 <= k < i && Contributes(lines[k], fold, t)
      invariant forall t :: t in keys <==> t in pairs
      invariant forall t :: t in pairs ==> |t| >= MIN_TOKEN && pairs[t] != ""
      invariant forall t :: t in pairs ==> FromFirstSpelling(t, pairs[t], fold, pseudo, lines, i)
    {
      var entry := EntryOfLine(lines[i], fold);
      forall t | t in pairs ensures FromFirstSpelling(t, pairs[t], fold, pseudo, lines, i + 1) {
        StillFirst(t, pairs[t], fold, pseudo, lines, i);
      }
      if entry.Some? && entry.value.low !in pairs {
        NewIsFirst(entry.value, fold, pseudo, lines, i);
        pairs := pairs[entry.value.low := pseudo(entry.value.cat, entry.value.raw)];
        keys := keys + [entry.value.low];
      }
    }
  }

  lemma {:induction false} NewIsFirst(e: Entry, fold: Fold, pseudo: Pseudo, lines: seq<string>, i: nat)
    requires i < |lines| && Reads(lines[i], e.cat, e.raw) && |e.raw| >= 4 && LowerOf(e.low, e.raw, fold)
    requires forall k :: 0 <= k < i ==> !Contributes(lines[k], fold, e.low)
    ensures FromFirstSpelling(e.low, pseudo(e.cat, e.raw), fold, pseudo, lines, i + 1)
  {
    hide Contributes, Reads, LowerOf;
  }

  lemma {:induction false} StillFirst(t: string, pseudonym: string, fold: Fold, pseudo: Pseudo, lines: seq<string>,
                                      i: nat)
    requires i < |lines| && FromFirstSpelling(t, pseudonym, fold, pseudo, lines, i)
    ensures FromFirstSpelling(t, pseudonym, fold, pseudo, lines, i + 1)
  {
    hide Contributes, Reads, LowerOf;
  }

  /** The dictionary of lowered tokens, with the pseudonym of the first spelling, and its keys longest first. */
  class Anonymizer {
    const fold: Fold
    const pairs: map<string, string>
    const alts: seq<string>

    /** `lines` are the lines of the tokens file; a line without a tab raises before. */
    constructor (fold: Fold, pseudo: Pseudo, lines: seq<string>)
      requires NonEmpty(pseudo) && Readable(lines)
      ensures this.fold == fold && Table(pairs, alts)
      ensures forall t :: t in pairs <==> IsTokenOf(lines, fold, t)
      ensures forall t :: t in pairs ==> FromFirstSpelling(t, pairs[t], fold, pseudo, lines, |lines|)
    {
      var built, keys := BuildPairs(fold, pseudo, lines);
      SortsByLength(keys);
      this.fold, pairs, alts := fold, built, SortByLength(keys);
    }

    /** The piece the next match or character gives, and how much of the input it uses up. */
    method Next(rest: string) returns (piece: string, used: nat)
      requires Table(pairs, alts) && rest != ""
      ensures 0 < used <= |rest|
      ensures Replace(rest, pairs, alts, fold).text == piece + Replace(rest[used..], pairs, alts, fold).text
    {
      var m := FirstMatch(rest, alts, fold);
      MatchIsToken(rest, alts, fold);
      if m.Some? { return pairs[m.value], |m.value|; }
      return [rest[0]], 1;
    }

    /** Scans from the left; `out` is what Replace computes. */
    method Scrub(value: string) returns (out: string)
      requires Table(pairs, alts)
      ensures out == Replace(value, pairs, alts, fold).text
    {
      if alts == [] {
        NothingToReplace(value, pairs, fold);
        return value;
      }
      out := "";
      var rest := value;
      ghost var left := Replace(value, pairs, alts, fold).text;
      while rest != ""
        invariant left == Replace(rest, pairs, alts, fold).text
        invariant out + left == Replace(value, pairs, alts, fold).text
        decreases |rest|
      {
        var piece, used := Next(rest);
        out, rest := out + piece, rest[used..];
        left := left[|piece|..];
      }
    }
  }

  lemma {:induction false} NothingToReplace(value: string, pairs: map<string, string>, fold: Fold)
    ensures Replace(value, pairs, [], fold).text == value
    decreases |value|
  {
    if value != "" { NothingToReplace(value[1..], pairs, fold); }
  }

  /** The gate and the anonymizer read the same tokens, so when the gate's search finds one in scrubbed text, each of
      its occurrences overlaps a pseudonym: nothing kept from the input leaks. */
  lemma {:induction false} GateFindsOnlyPseudonyms(lines: seq<string>, tokens: seq<string>, value: string,
                                                   pairs: map<string, string>, alts: seq<string>, fold: Fold, t: string,
                                                   i: nat)
    requires Table(pairs, alts) && (forall u :: u in pairs <==> IsTokenOf(lines, fold, u))
    requires forall u :: u in tokens <==> IsTokenOf(lines, fold, u)
    requires t in tokens && StartsAt(Lower(Replace(value, pairs, alts, fold).text, fold), t, i)
    ensures (forall u :: u in tokens <==> u in alts) && Touched(Replace(value, pairs, alts, fold), i, |t|)
  {
    OccurrenceIsTouched(value, pairs, alts, fold, t, i);
  }

  // ---- when a pseudonym leaks ----

  /** Token t and text p, laid d places after the start of t, agree on all the places they share, and share one. */
  ghost predicate Clash(t: string, p: string, d: int) {
    && d < |t| && 0 < d + |p|
    && forall x :: 0 <= x < |t| && 0 <= x - d < |p| ==> t[x] == p[x - d]
  }

  /** The scan can leave the first d characters of t in front of the pseudonym of u: no token starts among them and ends
      there or in u. */
  ghost predicate Stands(t: string, u: string, d: int, alts: seq<string>)
    requires d <= |t|
  {
    forall i, v :: 0 <= i < d && v in alts ==> !(v <= t[i..d] + u)
  }

  /** Token t can lie over the pseudonym of u, d places in front of it, where they agree, and over text kept before
      it. */
  ghost predicate RealClash(t: string, u: string, d: int, pairs: map<string, string>, alts: seq<string>, fold: Fold) {
    t in alts && u in alts && u in pairs && Clash(t, Lower(pairs[u], fold), d) && Stands(t, u, d, alts)
  }

  ghost predicate NoClash(pairs: map<string, string>, alts: seq<string>, fold: Fold) {
    forall t, u, d :: !RealClash(t, u, d, pairs, alts, fold)
  }

  /** No token starts among the characters t[..o] when the text behind them is value. */
  ghost predicate Kept(t: string, o: nat, value: string, alts: seq<string>, fold: Fold)
    requires o <= |t|
  {
    forall i, v :: 0 <= i < o && v in alts ==> !(v <= t[i..o] + Lower(value, fold))
  }

  lemma {:induction false} MatchIsPrefix(value: string, t: string, fold: Fold)
    ensures Matches(value, t, fold) <==> t <= Lower(value, fold)
  {
    if |t| <= |value| { assert Lower(value[..|t|], fold) == Lower(value, fold)[..|t|]; }
  }

  lemma {:induction false} KeptNext(t: string, o: nat, value: string, alts: seq<string>, fold: Fold)
    requires o < |t| && value != "" && fold(value[0]) == t[o] && Kept(t, o, value, alts, fold)
    requires forall v :: v in alts ==> !(v <= Lower(value, fold))
    ensures Kept(t, o + 1, value[1..], alts, fold)
  {
    var low, d := Lower(value, fold), o + 1;
    assert low == [t[o]] + Lower(value[1..], fold);
    forall i, v | 0 <= i < d && v in alts ensures !(v <= t[i..d] + Lower(value[1..], fold)) {
      assert t[i..d] + Lower(value[1..], fold) == t[i..o] + low;
      if i == o { assert t[i..o] + low == low; }
    }
  }

  lemma {:induction false} KeptStands(t: string, o: nat, value: string, u: string, alts: seq<string>, fold: Fold)
    requires o <= |t| && Kept(t, o, value, alts, fold) && u <= Lower(value, fold)
    ensures Stands(t, u, o, alts)
  {
    forall i, v | 0 <= i < o && v in alts ensures !(v <= t[i..o] + u) {
      assert t[i..o] + u <= t[i..o] + Lower(value, fold);
    }
  }

  /** Which token a step replaces, or that none starts there. */
  lemma {:induction false} StepToken(value: string, pairs: map<string, string>, alts: seq<string>, fold: Fold)
    returns (u: string)
    requires Table(pairs, alts) && value != ""
    ensures FirstMatch(value, alts, fold).Some? ==>
      u in alts && u in pairs && u <= Lower(value, fold) && Piece(value, pairs, alts, fold) == pairs[u]
    ensures FirstMatch(value, alts, fold).None? ==> forall v :: v in alts ==> !(v <= Lower(value, fold))
  {
    FirstMatchIsLongest(value, alts, fold);
    forall v { MatchIsPrefix(value, v, fold); }
    hide Matches, FirstMatch, Lower;
    var m := FirstMatch(value, alts, fold);
    u := if m.Some? then m.value else "";
  }

  /** Text that agrees with the end of a token, from place o on, and holds part of a pseudonym, makes a clash. */
  lemma {:induction false} TouchedTextClashes(value: string, pairs: map<string, string>, alts: seq<string>, fold: Fold,
                                              t: string, o: nat)
    returns (u: string, d: int)
    requires Table(pairs, alts) && t in alts && o <= |t|
    requires Agrees(Replace(value, pairs, alts, fold), t, o, fold) && Kept(t, o, value, alts, fold)
    ensures RealClash(t, u, d, pairs, alts, fold)
    decreases |value|
  {
    hide *;
    TableIs(pairs, alts);
    EmptyTextIsUntouched(value, pairs, alts, fold, t, o);
    var r := Replace(value, pairs, alts, fold);
    var head, marked, used := ReplaceStep(value, pairs, alts, fold);
    var rest := Replace(value[used..], pairs, alts, fold);
    u := StepToken(value, pairs, alts, fold);
    if marked {
      d := o;
      PrefixClashes(t, r, head, o, fold);
      KeptStands(t, o, value, u, alts, fold);
      ClashIsReal(t, u, o, pairs, alts, fold);
    } else {
      TextMovesOn(r, rest, head, t, o, fold);
      FirstAgrees(r, value[0], t, o, fold);
      KeptNext(t, o, value, alts, fold);
      u, d := TouchedTextClashes(value[used..], pairs, alts, fold, t, o + 1);
    }
  }

  lemma {:induction false} ClashIsReal(t: string, u: string, d: int, pairs: map<string, string>, alts: seq<string>,
                                       fold: Fold)
    requires t in alts && u in alts && u in pairs && Clash(t, Lower(pairs[u], fold), d) && d <= |t| &&
      Stands(t, u, d, alts)
    ensures RealClash(t, u, d, pairs, alts, fold)
  {
  }

  lemma {:induction false} FirstAgrees(r: Scrubbed, c: char, t: string, o: nat, fold: Fold)
    requires |r.mark| == |r.text| && o < |t| && Agrees(r, t, o, fold) && [c] <= r.text
    ensures fold(c) == t[o]
  {
    assert Lower(r.text, fold)[..|t| - o][0] == t[o..][0];
  }

  /** The text begins with the end of t, up to case, and holds part of a pseudonym there. */
  ghost predicate Agrees(r: Scrubbed, t: string, o: nat, fold: Fold)
    requires |r.mark| == |r.text| && o <= |t|
  {
    |t| - o <= |r.text| && Lower(r.text, fold)[..|t| - o] == t[o..] && exists k :: 0 <= k < |t| - o && r.mark[k]
  }

  lemma {:induction false} EmptyTextIsUntouched(value: string, pairs: map<string, string>, alts: seq<string>,
                                                fold: Fold, t: string, o: nat)
    requires Table(pairs, alts) && o <= |t| && Agrees(Replace(value, pairs, alts, fold), t, o, fold)
    ensures value != ""
  {
  }

  lemma {:induction false} TableIs(pairs: map<string, string>, alts: seq<string>)
    requires Table(pairs, alts)
    ensures LongestFirst(alts) && forall t :: t in alts ==> t in pairs && t != "" && pairs[t] != ""
  {
  }

  lemma {:induction false} TextMovesOn(r: Scrubbed, rest: Scrubbed, head: string, t: string, o: nat, fold: Fold)
    requires |r.mark| == |r.text| && |rest.mark| == |rest.text| && |head| == 1 && r.text == head + rest.text
    requires forall k :: 0 <= k < |head| ==> r.mark[k] == false
    requires forall k :: 0 <= k < |rest.mark| ==> r.mark[|head| + k] == rest.mark[k]
    requires o <= |t| && Agrees(r, t, o, fold)
    ensures o < |t| && Agrees(rest, t, o + 1, fold)
  {
    var k :| 0 <= k < |t| - o && r.mark[k];
    assert rest.mark[k - 1] == r.mark[|head| + (k - 1)];
    forall x | 0 <= x < |t| - (o + 1) ensures Lower(rest.text, fold)[x] == t[o + 1..][x] {
      assert Lower(r.text, fold)[..|t| - o][x + 1] == t[o..][x + 1];
    }
  }

  lemma {:induction false} PrefixClashes(t: string, r: Scrubbed, p: string, o: nat, fold: Fold)
    requires |r.mark| == |r.text| && o <= |t| && Agrees(r, t, o, fold) && p != "" && p <= r.text
    ensures Clash(t, Lower(p, fold), o)
  {
    forall x | 0 <= x < |t| && 0 <= x - o < |p| ensures t[x] == Lower(p, fold)[x - o] {
      assert Lower(r.text, fold)[..|t| - o][x - o] == t[o..][x - o];
    }
  }

  lemma {:induction false} InsideClashes(t: string, text: string, p: string, i: nat, fold: Fold)
    requires t != "" && p <= text && i < |p| && StartsAt(Lower(text, fold), t, i)
    ensures Clash(t, Lower(p, fold), 0 - i)
  {
    forall x | 0 <= x < |t| && 0 <= x + i < |p| ensures t[x] == Lower(p, fold)[x + i] {
      assert Lower(text, fold)[i..i + |t|][x] == t[x];
    }
  }

  /** Every occurrence of a token in scrubbed text is a clash of the table, at the first pseudonym it touches. */
  lemma {:induction false} LeakIsClash(value: string, pairs: map<string, string>, alts: seq<string>, fold: Fold,
                                       t: string, i: nat)
    requires Table(pairs, alts) && t in alts && StartsAt(Lower(Replace(value, pairs, alts, fold).text, fold), t, i)
    ensures exists u, d :: RealClash(t, u, d, pairs, alts, fold)
    decreases |value|
  {
    TableIs(pairs, alts);
    var rest, at, marked, head := DropSteps(value, pairs, alts, fold, t, i);
    var r := Replace(rest, pairs, alts, fold);
    OccurrenceIsTouched(rest, pairs, alts, fold, t, at);
    hide Table, FirstMatch, Replace, Clash, Used, Piece, Lower, RealClash;
    if marked {
      var u :| u in alts && head == pairs[u];
      InsideClashes(t, r.text, head, at, fold);
      var inside: int := at;
      ClashIsReal(t, u, 0 - inside, pairs, alts, fold);
    } else {
      FrontAgrees(r, t, fold);
      var u, d := TouchedTextClashes(rest, pairs, alts, fold, t, 0);
    }
  }

  lemma {:induction false} FrontAgrees(r: Scrubbed, t: string, fold: Fold)
    requires |r.mark| == |r.text| && StartsAt(Lower(r.text, fold), t, 0) && Touched(r, 0, |t|)
    ensures Agrees(r, t, 0, fold)
  {
    assert t[0..] == t;
  }

  /** Steps in front of an occurrence can be dropped. */
  lemma {:induction false} DropSteps(value: string, pairs: map<string, string>, alts: seq<string>, fold: Fold,
                                     t: string, i: nat)
    returns (rest: string, at: nat, marked: bool, head: string)
    requires Table(pairs, alts) && t in alts && StartsAt(Lower(Replace(value, pairs, alts, fold).text, fold), t, i)
    ensures rest != "" && StartsAt(Lower(Replace(rest, pairs, alts, fold).text, fold), t, at)
    ensures head == Piece(rest, pairs, alts, fold) && head <= Replace(rest, pairs, alts, fold).text && at < |head|
    ensures if marked then exists u :: u in alts && head == pairs[u] else at == 0
    decreases |value|
  {
    hide *;
    TableIs(pairs, alts);
    TextIsNotEmpty(value, pairs, alts, fold, t, i);
    var used;
    head, marked, used := ReplaceStep(value, pairs, alts, fold);
    var r, after := Replace(value, pairs, alts, fold), Replace(value[used..], pairs, alts, fold);
    if i >= |head| {
      ShiftOccurrence(head, after, r, fold, t, i);
      rest, at, marked, head := DropSteps(value[used..], pairs, alts, fold, t, i - |head|);
    } else {
      rest, at := value, i;
    }
  }

  lemma {:induction false} TextIsNotEmpty(value: string, pairs: map<string, string>, alts: seq<string>, fold: Fold,
                                          t: string, i: nat)
    requires Table(pairs, alts) && t in alts && StartsAt(Lower(Replace(value, pairs, alts, fold).text, fold), t, i)
    ensures value != ""
  {
  }

  /** The gate finds a token in the scrubbed text. */
  ghost predicate Leaks(value: string, pairs: map<string, string>, alts: seq<string>, fold: Fold)
    requires Table(pairs, alts)
  {
    exists t :: t in alts && Occurs(Lower(Replace(value, pairs, alts, fold).text, fold), t)
  }

  /** A condition on the table alone: without a clash scrubbed text always passes the gate. */
  lemma {:induction false} NoClashNeverLeaks(value: string, pairs: map<string, string>, alts: seq<string>, fold: Fold)
    requires Table(pairs, alts) && NoClash(pairs, alts, fold)
    ensures !Leaks(value, pairs, alts, fold)
  {
    forall t, i: nat | t in alts ensures !StartsAt(Lower(Replace(value, pairs, alts, fold).text, fold), t, i) {
      if StartsAt(Lower(Replace(value, pairs, alts, fold).text, fold), t, i) {
        LeakIsClash(value, pairs, alts, fold, t, i);
      }
    }
  }

  /** The token ends where the pseudonym does, or before. */
  ghost predicate Fits(t: string, u: string, d: int, pairs: map<string, string>)
    requires u in pairs
  {
    0 <= d <= |t| <= d + |pairs[u]|
  }

  /** The scan keeps characters in front of a token when no token starts among them. */
  lemma {:induction false} ScanKeeps(x: string, y: string, t: string, u: string, o: nat, pairs: map<string, string>,
                                     alts: seq<string>, fold: Fold)
    requires Table(pairs, alts) && u in alts && u in pairs && Lower(y, fold) == u
    requires o + |x| <= |t| && Lower(x, fold) == t[o..o + |x|] && Stands(t, u, o + |x|, alts)
    ensures Replace(x + y, pairs, alts, fold).text == x + pairs[u]
    decreases |x|
  {
    hide *;
    TableIs(pairs, alts);
    if x == "" {
      WholeTokenIsReplaced(y, u, pairs, alts, fold);
      assert x + y == y && x + pairs[u] == pairs[u];
    } else {
      LowerParts(x, y, fold);
      assert t[o..o + |x|] + u == Lower(x + y, fold);
      NothingStarts(x + y, t, u, o, o + |x|, alts, fold);
      LongestIsReplaced(x + y, pairs, alts, fold, u);
      LowerTail(x, t, o, fold);
      ScanKeeps(x[1..], y, t, u, o + 1, pairs, alts, fold);
      assert (x + y)[1..] == x[1..] + y && (x + y)[0] == x[0];
      assert [x[0]] + (x[1..] + pairs[u]) == x + pairs[u];
    }
  }

  lemma {:induction false} LowerParts(x: string, y: string, fold: Fold)
    ensures Lower(x + y, fold) == Lower(x, fold) + Lower(y, fold)
  {
  }

  lemma {:induction false} LowerTail(x: string, t: string, o: nat, fold: Fold)
    requires x != "" && o + |x| <= |t| && Lower(x, fold) == t[o..o + |x|]
    ensures Lower(x[1..], fold) == t[o + 1..o + |x|]
  {
    assert Lower(x[1..], fold) == Lower(x, fold)[1..];
    assert t[o..o + |x|][1..] == t[o + 1..o + |x|];
  }

  lemma {:induction false} NothingStarts(value: string, t: string, u: string, o: nat, d: nat, alts: seq<string>,
                                         fold: Fold)
    requires o < d <= |t| && Stands(t, u, d, alts) && Lower(value, fold) == t[o..d] + u
    ensures forall v :: v in alts ==> !TokenAt(value, v, 0, fold)
  {
    forall v ensures TokenAt(value, v, 0, fold) ==> v <= Lower(value, fold) {
      MatchesIff(value, v, fold);
      MatchIsPrefix(value, v, fold);
    }
    hide TokenAt, Lower;
  }

  lemma {:induction false} WholeTokenIsReplaced(y: string, u: string, pairs: map<string, string>, alts: seq<string>,
                                                fold: Fold)
    requires Table(pairs, alts) && u in alts && u in pairs && Lower(y, fold) == u
    ensures Replace(y, pairs, alts, fold).text == pairs[u]
  {
    assert |y| == |u| && y != "";
    assert y[..|u|] == y && y[|u|..] == "";
    LongestIsReplaced(y, pairs, alts, fold, u);
    assert pairs[u] + "" == pairs[u];
  }

  /** A clash in which the token ends inside the pseudonym is a leak: of any text that reads as the start of t and then
      as u, up to case. */
  lemma {:induction false} FittingClashLeaks(x: string, y: string, t: string, u: string, d: nat,
                                             pairs: map<string, string>, alts: seq<string>, fold: Fold)
    requires Table(pairs, alts) && RealClash(t, u, d, pairs, alts, fold) && Fits(t, u, d, pairs)
    requires Lower(x, fold) == t[..d] && Lower(y, fold) == u
    ensures Leaks(x + y, pairs, alts, fold)
  {
    assert |x| == d && t[0..0 + |x|] == t[..d];
    ScanKeeps(x, y, t, u, 0, pairs, alts, fold);
    LowerParts(x, pairs[u], fold);
    ClashCovers(t, Lower(pairs[u], fold), d, Lower(x + pairs[u], fold));
    hide Replace, Lower, RealClash, Table;
  }

  lemma {:induction false} ClashCovers(t: string, p: string, d: nat, text: string)
    requires Clash(t, p, d) && |t| <= d + |p| && text == t[..d] + p
    ensures StartsAt(text, t, 0) && Occurs(text, t)
  {
    forall x | 0 <= x < |t| ensures text[x] == t[x] {}
    assert text[0..0 + |t|] == t;
    assert StartsAt(text, t, 0);
  }

  /** Every token is the lower case of some spelling, as the tokens read from a file are. */
  ghost predicate Spelled(alts: seq<string>, fold: Fold) {
    forall t :: t in alts ==> exists raw :: Lower(raw, fold) == t
  }

  /** On tables in which every clash fits, the absence of clashes is exactly what makes every text pass the gate. */
  lemma {:induction false} PassesIffNoClash(pairs: map<string, string>, alts: seq<string>, fold: Fold)
    requires Table(pairs, alts) && Spelled(alts, fold)
    requires forall t, u, d :: RealClash(t, u, d, pairs, alts, fold) ==> Fits(t, u, d, pairs)
    ensures (forall value: string :: !Leaks(value, pairs, alts, fold)) <==> NoClash(pairs, alts, fold)
  {
    if NoClash(pairs, alts, fold) {
      forall value: string ensures !Leaks(value, pairs, alts, fold) { NoClashNeverLeaks(value, pairs, alts, fold); }
    } else {
      var t, u, d :| RealClash(t, u, d, pairs, alts, fold);
      var rawT :| Lower(rawT, fold) == t;
      var rawU :| Lower(rawU, fold) == u;
      assert Lower(rawT[..d], fold) == t[..d];
      FittingClashLeaks(rawT[..d], rawU, t, u, d, pairs, alts, fold);
    }
    hide Leaks, RealClash, Clash, Stands, Table, Fits;
  }

  /** The text of a token alone fails the gate exactly when its pseudonym holds a token. */
  lemma {:induction false} TokenLeaksIff(value: string, pairs: map<string, string>, alts: seq<string>, fold: Fold)
    requires Table(pairs, alts) && Lower(value, fold) in alts
    ensures Leaks(value, pairs, alts, fold) <==>
            exists t :: t in alts && Occurs(Lower(pairs[Lower(value, fold)], fold), t)
  {
    var u := Lower(value, fold);
    assert value[..|u|] == value && value[|u|..] == "";
    assert Matches(value, u, fold);
    LongestIsReplaced(value, pairs, alts, fold, u);
    assert pairs[u] + "" == pairs[u];
  }

  /** The readable prefix of a site's pseudonym holds the token of a site named "Site". */
  lemma {:induction false} PseudonymCanLeak(fold: Fold)
    requires fold('S') == 's' && forall c :: c in "site 0123456789" ==> fold(c) == c
    ensures var pairs := map["site" := "Site 0123456789"];
      && Table(pairs, ["site"])
      && Occurs(Lower(Replace("site", pairs, ["site"], fold).text, fold), "site")
  {
    var pairs := map["site" := "Site 0123456789"];
    assert Lower("site"[..4], fold) == "site";
    assert Matches("site", "site", fold);
    assert FirstMatch("site", ["site"], fold) == Some("site");
    assert "site"[4..] == "";
    var text := Replace("site", pairs, ["site"], fold).text;
    assert text == "Site 0123456789";
    assert Lower(text, fold)[0..4] == "site";
    assert StartsAt(Lower(text, fold), "site", 0);
  }

  // ---- small texts decide ----

  /** A bound on the length of the tokens. */
  ghost predicate Bounds(alts: seq<string>, longest: nat) { longest > 0 && forall t :: t in alts ==> |t| <= longest }

  lemma {:induction false} FirstMatchOfFront(value: string, m: nat, alts: seq<string>, fold: Fold)
    requires m <= |value|
    ensures var f := FirstMatch(value, alts, fold);
      (f.None? || |f.value| <= m) ==> FirstMatch(value[..m], alts, fold) == f
  {
    if alts != [] {
      FirstMatchOfFront(value, m, alts[1..], fold);
      var t := alts[0];
      if |t| <= m { assert value[..m][..|t|] == value[..|t|]; }
    }
  }

  /** Cutting the input behind the next step changes nothing in front of the cut. */
  lemma {:induction false} StepOfFront(value: string, pairs: map<string, string>, alts: seq<string>, fold: Fold, m: nat,
                                       longest: nat)
    requires Table(pairs, alts) && Bounds(alts, longest) && value != "" && Used(value, alts, fold) <= m <= |value|
    ensures 0 < Used(value, alts, fold) <= longest
    ensures Replace(value[..m], pairs, alts, fold).text ==
            Piece(value, pairs, alts, fold) + Replace(value[Used(value, alts, fold)..m], pairs, alts, fold).text
  {
    MatchIsToken(value, alts, fold);
    FirstMatchOfFront(value, m, alts, fold);
    TableIs(pairs, alts);
    hide FirstMatch;
    var used := Used(value, alts, fold);
    assert value[..m][used..] == value[used..m] && value[..m][0] == value[0];
  }

  lemma {:induction false} NothingIsNothing(pairs: map<string, string>, alts: seq<string>, fold: Fold)
    requires Table(pairs, alts)
    ensures Replace("", pairs, alts, fold) == Scrubbed("", [])
  {
  }

  /** The front of a scrubbed text comes from a short front of the input: `need` places take at most `need` steps. */
  lemma {:induction false} Front(value: string, pairs: map<string, string>, alts: seq<string>, fold: Fold, need: nat,
                                 longest: nat)
    returns (m: nat)
    requires Table(pairs, alts) && Bounds(alts, longest) && need <= |Replace(value, pairs, alts, fold).text|
    ensures m <= |value| && m <= need * longest
    ensures var short, full := Replace(value[..m], pairs, alts, fold).text, Replace(value, pairs, alts, fold).text;
      need <= |short| && short <= full
    decreases |value|, 1
  {
    hide *;
    TableIs(pairs, alts);
    NothingIsNothing(pairs, alts, fold);
    if need == 0 {
      m := 0;
      assert value[..0] == "";
    } else {
      var head, marked, used := ReplaceStep(value, pairs, alts, fold);
      m := FrontAfter(value, pairs, alts, fold, need, 0, longest);
    }
  }

  /** The same when the first step already reaches beyond `skip`. */
  lemma {:induction false} FrontAfter(value: string, pairs: map<string, string>, alts: seq<string>, fold: Fold,
                                      need: nat, skip: nat, longest: nat)
    returns (m: nat)
    requires Table(pairs, alts) && Bounds(alts, longest) && value != ""
    requires skip < need <= |Replace(value, pairs, alts, fold).text| && skip < |Piece(value, pairs, alts, fold)|
    ensures m <= |value| && m <= (need - skip) * longest
    ensures var short, full := Replace(value[..m], pairs, alts, fold).text, Replace(value, pairs, alts, fold).text;
      need <= |short| && short <= full
    decreases |value|, 0
  {
    hide *;
    TableIs(pairs, alts);
    var head, marked, used := ReplaceStep(value, pairs, alts, fold);
    var rest := value[used..];
    var left := if need <= |head| then 0 else need - |head|;
    var n := Front(rest, pairs, alts, fold, left, longest);
    m := used + n;
    assert value[used..m] == rest[..n];
    StepOfFront(value, pairs, alts, fold, m, longest);
    Longer(head, Replace(rest[..n], pairs, alts, fold).text, Replace(rest, pairs, alts, fold).text);
    Sum(need - skip, left, n, longest, used);
  }

  lemma {:induction false} Longer(head: string, short: string, full: string)
    requires short <= full
    ensures head + short <= head + full
  {
  }

  lemma {:induction false} Sum(need: nat, left: nat, n: nat, longest: nat, used: nat)
    requires left < need && n <= left * longest && used <= longest
    ensures used + n <= need * longest
  {
    assert left * longest + longest == (left + 1) * longest <= need * longest;
  }

  /** A leak, if there is one at all, shows in a text of at most the square of the longest token: finitely many small
      texts decide whether the table is safe for every text. */
  lemma {:induction false} SmallTextsDecide(pairs: map<string, string>, alts: seq<string>, fold: Fold, longest: nat)
    requires Table(pairs, alts) && Bounds(alts, longest)
    ensures (forall value: string :: !Leaks(value, pairs, alts, fold)) <==>
            (forall value: string :: |value| <= longest * longest ==> !Leaks(value, pairs, alts, fold))
  {
    forall value: string | Leaks(value, pairs, alts, fold)
      ensures exists small: string :: |small| <= longest * longest && Leaks(small, pairs, alts, fold)
    {
      var small := SmallLeak(value, pairs, alts, fold, longest);
    }
    hide Leaks;
  }

  lemma {:induction false} SmallLeak(value: string, pairs: map<string, string>, alts: seq<string>, fold: Fold,
                                     longest: nat)
    returns (small: string)
    requires Table(pairs, alts) && Bounds(alts, longest) && Leaks(value, pairs, alts, fold)
    ensures |small| <= longest * longest && Leaks(small, pairs, alts, fold)
  {
    hide Table, FirstMatch, Replace, Piece, Used, Lower, StartsAt;
    TableIs(pairs, alts);
    var t :| t in alts && Occurs(Lower(Replace(value, pairs, alts, fold).text, fold), t);
    var i :| StartsAt(Lower(Replace(value, pairs, alts, fold).text, fold), t, i);
    OccursWithin(Replace(value, pairs, alts, fold).text, t, i, fold);
    var rest, at, marked, head := DropSteps(value, pairs, alts, fold, t, i);
    OccursWithin(Replace(rest, pairs, alts, fold).text, t, at, fold);
    var m := FrontAfter(rest, pairs, alts, fold, at + |t|, at, longest);
    small := rest[..m];
    ShortKeeps(Replace(small, pairs, alts, fold).text, Replace(rest, pairs, alts, fold).text, t, at, fold);
    Product(|t|, longest);
  }

  lemma {:induction false} OccursWithin(text: string, t: string, i: int, fold: Fold)
    requires StartsAt(Lower(text, fold), t, i)
    ensures 0 <= i && i + |t| <= |text|
  {
  }

  lemma {:induction false} ShortKeeps(short: string, full: string, t: string, at: nat, fold: Fold)
    requires short <= full && at + |t| <= |short| && StartsAt(Lower(full, fold), t, at)
    ensures Occurs(Lower(short, fold), t)
  {
    assert Lower(short, fold)[at..at + |t|] == Lower(full, fold)[at..at + |t|];
    assert StartsAt(Lower(short, fold), t, at);
  }

  lemma {:induction false} Product(n: nat, longest: nat)
    requires n <= longest
    ensures n * longest <= longest * longest
  {
  }
}
