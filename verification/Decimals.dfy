/** Decimal numerals: what a string of digits stands for, and how numerals compare. */
module Decimals {
  import opened Ordering

  predicate IsDigit(c: char) { '0' <= c <= '9' }

  /** The number a string of digits stands for. */
  ghost function Evaluated(s: string): int {
    if s == "" then 0 else 10 * Evaluated(s[..|s|-1]) + (s[|s|-1] as int - '0' as int)
  }

  ghost predicate AllDigits(s: string) { forall i :: 0 <= i < |s| ==> '0' <= s[i] <= '9' }

  /** n in digits, without a leading zero. */
  ghost predicate Numeral(s: string, n: int) {
    s != "" && AllDigits(s) && Evaluated(s) == n && (s[0] == '0' ==> s == "0")
  }

  ghost function Power(n: nat): int { if n == 0 then 1 else 10 * Power(n - 1) }

  lemma {:induction false} PowersGrow(m: nat, n: nat)
    requires m <= n
    ensures 0 < Power(m) <= Power(n)
    decreases n
  {
    if m < n { PowersGrow(m, n - 1); }
    if n > 0 { PowersGrow(0, n - 1); }
  }

  /** A numeral of so many digits. */
  lemma {:induction false} Size(s: string)
    requires s != "" && AllDigits(s)
    ensures 0 <= Evaluated(s) < Power(|s|)
    ensures s[0] != '0' ==> Evaluated(s) >= Power(|s| - 1)
  {
    var front := s[..|s|-1];
    if front == "" {
      assert Evaluated(front) == 0 && Power(0) == 1;
    } else {
      Size(front);
      assert front[0] == s[0];
    }
  }

  lemma {:induction false} LexAtTheEnd(a: string, b: string, x: char, y: char, rank: char -> int)
    requires |a| == |b| && (forall c, d :: rank(c) == rank(d) ==> c == d)
    ensures LexBefore(a + [x], b + [y], rank) <==> LexBefore(a, b, rank) || (a == b && rank(x) < rank(y))
  {
    if a == "" {
      assert [x][1..] == "" && [y][1..] == "";
      assert a + [x] == [x] && b + [y] == [y];
    } else {
      assert (a + [x])[1..] == a[1..] + [x] && (b + [y])[1..] == b[1..] + [y];
      LexAtTheEnd(a[1..], b[1..], x, y, rank);
      assert a == [a[0]] + a[1..] && b == [b[0]] + b[1..];
    }
  }

  /** Strings of as many digits compare as their numbers do. */
  lemma {:induction false} LexIsValue(a: string, b: string, rank: char -> int)
    requires |a| == |b| && AllDigits(a) && AllDigits(b) && (forall c, d :: rank(c) == rank(d) ==> c == d)
    requires forall c, d :: IsDigit(c) && IsDigit(d) ==> (rank(c) < rank(d) <==> c < d)
    ensures LexBefore(a, b, rank) <==> Evaluated(a) < Evaluated(b)
    ensures a == b <==> Evaluated(a) == Evaluated(b)
  {
    if a != "" {
      var n := |a| - 1;
      LexIsValue(a[..n], b[..n], rank);
      LexAtTheEnd(a[..n], b[..n], a[n], b[n], rank);
      assert a == a[..n] + [a[n]] && b == b[..n] + [b[n]];
      assert IsDigit(a[n]) && IsDigit(b[n]);
      hide LexBefore;
    }
  }

  /** A longer numeral is larger. */
  lemma {:induction false} LongerIsLarger(a: string, m: int, b: string, n: int)
    requires Numeral(a, m) && Numeral(b, n) && |a| < |b|
    ensures m < n
  {
    Size(a);
    Size(b);
    PowersGrow(|a|, |b| - 1);
  }
}
