/** Removing blanks around a text (SQL's btrim, Python's strip). */
module Trimming {

  function TrimLeft(s: string, blanks: set<char>): string {
    if s != "" && s[0] in blanks then TrimLeft(s[1..], blanks) else s
  }

  function TrimRight(s: string, blanks: set<char>): string {
    if s != "" && s[|s|-1] in blanks then TrimRight(s[..|s|-1], blanks) else s
  }

  function Trim(s: string, blanks: set<char>): string { TrimRight(TrimLeft(s, blanks), blanks) }

  ghost predicate AllBlank(s: string, blanks: set<char>) { forall i :: 0 <= i < |s| ==> s[i] in blanks }

  /** The text is blanks, the core, and blanks again; the core has no blanks at either end. */
  ghost predicate IsCore(s: string, core: string, blanks: set<char>) {
    && (core != "" ==> core[0] !in blanks && core[|core|-1] !in blanks)
    && exists left, right :: AllBlank(left, blanks) && AllBlank(right, blanks) && s == left + core + right
  }

  lemma {:induction false} TrimLeftSplits(s: string, blanks: set<char>) returns (left: string)
    ensures AllBlank(left, blanks) && s == left + TrimLeft(s, blanks)
    ensures TrimLeft(s, blanks) != "" ==> TrimLeft(s, blanks)[0] !in blanks
  {
    left := "";
    if s != "" && s[0] in blanks {
      var rest := TrimLeftSplits(s[1..], blanks);
      left := [s[0]] + rest;
      assert s == [s[0]] + s[1..];
    }
  }

  lemma {:induction false} TrimRightSplits(s: string, blanks: set<char>) returns (right: string)
    ensures AllBlank(right, blanks) && s == TrimRight(s, blanks) + right
    ensures TrimRight(s, blanks) != "" ==> TrimRight(s, blanks)[|TrimRight(s, blanks)|-1] !in blanks
  {
    right := "";
    if s != "" && s[|s|-1] in blanks {
      var rest := TrimRightSplits(s[..|s|-1], blanks);
      right := rest + [s[|s|-1]];
      assert s == s[..|s|-1] + [s[|s|-1]];
    }
  }

  lemma {:induction false} TrimIsCore(s: string, blanks: set<char>)
    ensures IsCore(s, Trim(s, blanks), blanks)
  {
    hide TrimLeft, TrimRight, AllBlank;
    var left := TrimLeftSplits(s, blanks);
    var rest := TrimLeft(s, blanks);
    var right := TrimRightSplits(rest, blanks);
    var core := TrimRight(rest, blanks);
    assert core != "" ==> core[0] == rest[0];
    assert s == left + core + right;
  }

  lemma {:induction false} CoreIsFirst(s: string, left: string, core: string, right: string, blanks: set<char>, i: nat)
    requires s == left + core + right && AllBlank(left, blanks) && AllBlank(right, blanks)
    requires i < |s| && s[i] !in blanks
    ensures |left| <= i < |left| + |core| && core[i - |left|] == s[i]
  {
    assert forall k :: 0 <= k < |left| ==> s[k] == left[k];
    assert forall k :: 0 <= k < |right| ==> s[|left| + |core| + k] == right[k];
  }

  lemma {:induction false} OneCore(s: string, a: string, b: string, blanks: set<char>)
    requires IsCore(s, a, blanks) && IsCore(s, b, blanks)
    ensures a == b
  {
    var al, ar :| AllBlank(al, blanks) && AllBlank(ar, blanks) && s == al + a + ar;
    var bl, br :| AllBlank(bl, blanks) && AllBlank(br, blanks) && s == bl + b + br;
    if a != "" {
      assert s[|al|] == a[0] && s[|al| + |a| - 1] == a[|a|-1];
      CoreIsFirst(s, bl, b, br, blanks, |al|);
      CoreIsFirst(s, bl, b, br, blanks, |al| + |a| - 1);
    }
    if b != "" {
      assert s[|bl|] == b[0] && s[|bl| + |b| - 1] == b[|b|-1];
      CoreIsFirst(s, al, a, ar, blanks, |bl|);
      CoreIsFirst(s, al, a, ar, blanks, |bl| + |b| - 1);
    }
    if a != "" {
      assert a == s[|al|..|al| + |a|] && b == s[|bl|..|bl| + |b|];
    }
  }

  /** The trimmed text is the one and only core. */
  lemma {:induction false} TrimIff(s: string, core: string, blanks: set<char>)
    ensures core == Trim(s, blanks) <==> IsCore(s, core, blanks)
  {
    TrimIsCore(s, blanks);
    if IsCore(s, core, blanks) { OneCore(s, core, Trim(s, blanks), blanks); }
  }

  /** Nothing is left exactly of a text of blanks. */
  lemma {:induction false} TrimIsEmptyIff(s: string, blanks: set<char>)
    ensures Trim(s, blanks) == "" <==> AllBlank(s, blanks)
  {
    TrimIff(s, "", blanks);
    if AllBlank(s, blanks) {
      assert s == s + "" + "";
      assert AllBlank("", blanks);
    }
    if Trim(s, blanks) == "" {
      var left, right :| AllBlank(left, blanks) && AllBlank(right, blanks) && s == left + "" + right;
    }
  }
}
