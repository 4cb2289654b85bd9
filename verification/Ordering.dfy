/** Strict total orders, insertion sort, and the uniqueness of a strictly ascending listing. */
module Ordering {

  ghost predicate StrictTotal<T(!new)>(before: (T, T) -> bool) {
    && (forall x :: !before(x, x))
    && (forall x, y, z :: before(x, y) && before(y, z) ==> before(x, z))
    && (forall x, y :: x != y ==> before(x, y) || before(y, x))
  }

  ghost predicate Ascending<T>(s: seq<T>, before: (T, T) -> bool) {
    forall i, j :: 0 <= i < j < |s| ==> before(s[i], s[j])
  }

  predicate NoDuplicates<T(==)>(s: seq<T>) {
    forall i, j :: 0 <= i < j < |s| ==> s[i] != s[j]
  }

  /** Puts x in front of the first element that does not come before it. */
  function Insert<T(!new)>(x: T, s: seq<T>, before: (T, T) -> bool): (r: seq<T>)
    ensures |r| == |s| + 1
    ensures forall y :: y in r <==> y == x || y in s
  {
    if s == [] || !before(s[0], x) then [x] + s
    else [s[0]] + Insert(x, s[1..], before)
  }

  function Sort<T(!new)>(s: seq<T>, before: (T, T) -> bool): (r: seq<T>)
    ensures |r| == |s|
    ensures forall y :: y in r <==> y in s
  {
    if s == [] then [] else Insert(s[0], Sort(s[1..], before), before)
  }

  lemma {:induction false} InsertKeepsAscending<T(!new)>(x: T, s: seq<T>, before: (T, T) -> bool)
    requires StrictTotal(before) && Ascending(s, before) && x !in s
    ensures Ascending(Insert(x, s, before), before)
  {
    if s != [] && before(s[0], x) {
      InsertKeepsAscending(x, s[1..], before);
      var r := Insert(x, s[1..], before);
      forall i | 0 <= i < |r| ensures before(s[0], r[i]) {
        assert r[i] in r;
      }
    }
  }

  lemma {:induction false} SortAscends<T(!new)>(s: seq<T>, before: (T, T) -> bool)
    requires StrictTotal(before) && NoDuplicates(s)
    ensures Ascending(Sort(s, before), before)
  {
    if s != [] {
      SortAscends(s[1..], before);
      InsertKeepsAscending(s[0], Sort(s[1..], before), before);
    }
  }

  /** A set has only one strictly ascending listing, so a sorted result does not depend on the order of discovery. */
  lemma {:induction false} UniqueListing<T(!new)>(s: seq<T>, t: seq<T>, before: (T, T) -> bool)
    requires StrictTotal(before) && Ascending(s, before) && Ascending(t, before)
    requires forall x :: x in s <==> x in t
    ensures s == t
  {
    assert t != [] ==> t[0] in t;
    if s != [] {
      assert s[0] in t;
      assert t[0] in s;
      assert s[0] == t[0];
      forall x ensures x in s[1..] <==> x in t[1..] {
        if x in s[1..] { assert x in t; }
        if x in t[1..] { assert x in s; }
      }
      UniqueListing(s[1..], t[1..], before);
      assert s == [s[0]] + s[1..] && t == [t[0]] + t[1..];
    }
  }

  /** Lexicographic order of strings by an injective rank of their characters. */
  predicate LexBefore(a: string, b: string, rank: char -> int) {
    if b == [] then false
    else if a == [] then true
    else if a[0] == b[0] then LexBefore(a[1..], b[1..], rank)
    else rank(a[0]) < rank(b[0])
  }

  ghost predicate Injective(rank: char -> int) {
    forall c, d :: rank(c) == rank(d) ==> c == d
  }

  lemma {:induction false} LexIrreflexive(a: string, rank: char -> int)
    ensures !LexBefore(a, a, rank)
  {
    if a != [] { LexIrreflexive(a[1..], rank); }
  }

  lemma {:induction false} LexTransitive(a: string, b: string, c: string, rank: char -> int)
    requires LexBefore(a, b, rank) && LexBefore(b, c, rank)
    ensures LexBefore(a, c, rank)
  {
    if a != [] && a[0] == b[0] == c[0] { LexTransitive(a[1..], b[1..], c[1..], rank); }
  }

  lemma {:induction false} LexTotal(a: string, b: string, rank: char -> int)
    requires Injective(rank) && a != b
    ensures LexBefore(a, b, rank) || LexBefore(b, a, rank)
  {
    if a != [] && b != [] && a[0] == b[0] {
      assert a == [a[0]] + a[1..] && b == [b[0]] + b[1..];
      LexTotal(a[1..], b[1..], rank);
    }
  }

  /** The byte order of Go's sort.Strings: UTF-8 sorts as its code points do. */
  predicate ByteBefore(a: string, b: string) {
    LexBefore(a, b, (c: char) => c as int)
  }

  lemma {:induction false} ByteOrderIsStrictTotal()
    ensures StrictTotal(ByteBefore)
  {
    var rank := (c: char) => c as int;
    forall x: string ensures !ByteBefore(x, x) { LexIrreflexive(x, rank); }
    forall x: string, y: string, z: string | ByteBefore(x, y) && ByteBefore(y, z) ensures ByteBefore(x, z) {
      LexTransitive(x, y, z, rank);
    }
    forall x: string, y: string | x != y ensures ByteBefore(x, y) || ByteBefore(y, x) {
      LexTotal(x, y, rank);
    }
  }
}
