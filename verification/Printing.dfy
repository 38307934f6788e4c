/** Printing numbers and lists of numbers, and reading them back. */
module Printing {
  const DIGITS: string := "0123456789"

  function Decimal(n: nat): (s: string)
    ensures s != []
  {
    if n < 10 then [DIGITS[n]] else Decimal(n / 10) + [DIGITS[n % 10]]
  }

  predicate AllDigits(s: string) {
    forall i | 0 <= i < |s| :: '0' <= s[i] <= '9'
  }

  function DigitValue(c: char): nat
    requires '0' <= c <= '9'
  {
    c as int - '0' as int
  }

  function Number(s: string): nat
    requires AllDigits(s)
  {
    if s == [] then 0 else 10 * Number(s[..|s| - 1]) + DigitValue(s[|s| - 1])
  }

  /** A printed number is all digits and reads back as itself. */
  lemma {:induction false} DecimalReads(n: nat)
    ensures AllDigits(Decimal(n)) && Number(Decimal(n)) == n
  {
    if n < 10 {
      assert DIGITS[n] as int == '0' as int + n;
      assert Decimal(n)[..0] == [];
    } else {
      DecimalReads(n / 10);
      assert Decimal(n)[..|Decimal(n)| - 1] == Decimal(n / 10);
      assert DIGITS[n % 10] as int == '0' as int + n % 10;
    }
  }

  lemma DecimalInjective(a: nat, b: nat)
    ensures Decimal(a) == Decimal(b) ==> a == b
  {
    DecimalReads(a);
    DecimalReads(b);
  }

  /** The parts with `sep` between each two. */
  function Join(parts: seq<string>, sep: char): string {
    if parts == [] then ""
    else if |parts| == 1 then parts[0]
    else Join(parts[..|parts| - 1], sep) + [sep] + parts[|parts| - 1]
  }

  /** A number is printed digit by digit, the last one last. */
  lemma DecimalShows(n: nat, d: nat)
    requires d < 10
    ensures Decimal(d) == ["0123456789"[d]]
    ensures n > 0 ==> Decimal(10 * n + d) == Decimal(n) + ["0123456789"[d]]
  {
    if n > 0 {
      assert (10 * n + d) / 10 == n && (10 * n + d) % 10 == d;
    }
  }

  function Decimals(ns: seq<nat>): (r: seq<string>)
    ensures |r| == |ns| && forall i | 0 <= i < |ns| :: r[i] == Decimal(ns[i])
  {
    seq(|ns|, i requires 0 <= i < |ns| => Decimal(ns[i]))
  }

  function Printed(ns: seq<nat>): string {
    Join(Decimals(ns), '.')
  }

  /** Numbers are printed in order with a dot between each two. */
  lemma PrintedShows(ns: seq<nat>, n: nat)
    ensures Printed([]) == "" && Printed([n]) == Decimal(n)
    ensures ns != [] ==> Printed(ns + [n]) == Printed(ns) + "." + Decimal(n)
  {
    var all := Decimals(ns + [n]);
    assert all[..|all| - 1] == Decimals(ns);
  }

  lemma {:induction false} PrintedChars(ns: seq<nat>)
    ensures forall i | 0 <= i < |Printed(ns)| :: Printed(ns)[i] == '.' || '0' <= Printed(ns)[i] <= '9'
    ensures Printed(ns) == [] <==> ns == []
  {
    if ns != [] {
      var front, last := ns[..|ns| - 1], ns[|ns| - 1];
      DecimalReads(last);
      PrintedChars(front);
      assert Decimals(ns)[..|ns| - 1] == Decimals(front);
    }
  }

  lemma EarlierMark(x: string, y: string, s: string, t: string, mark: char)
    requires x + [mark] + s == y + [mark] + t && |x| < |y|
    ensures mark in s
  {
    var w := x + [mark] + s;
    assert w[|y|] == s[|y| - |x| - 1];
    assert w[|y|] == (y + [mark] + t)[|y|] == mark;
  }

  /** Two texts cut at the same mark, neither tail holding it, are cut alike. */
  lemma CutAtLast(x: string, y: string, s: string, t: string, mark: char)
    requires x + [mark] + s == y + [mark] + t
    requires mark !in s && mark !in t
    ensures x == y && s == t
  {
    var w := x + [mark] + s;
    assert |x| == |y| by {
      if |x| < |y| {
        EarlierMark(x, y, s, t, mark);
      } else if |y| < |x| {
        EarlierMark(y, x, t, s, mark);
      }
    }
    assert x == w[..|x|] == y;
    assert s == w[|x| + 1..] == t;
  }

  lemma DigitsHoldNoDot(n: nat)
    ensures '.' !in Decimal(n)
  {
    DecimalReads(n);
  }

  /** Only a list of two or more prints a dot. */
  lemma DotsCount(ns: seq<nat>)
    ensures '.' in Printed(ns) <==> |ns| > 1
  {
    if |ns| == 1 {
      DigitsHoldNoDot(ns[0]);
    } else if |ns| > 1 {
      var front := Join(Decimals(ns)[..|ns| - 1], '.');
      assert Printed(ns)[|front|] == '.';
    }
  }

  /** A printed list determines the list. */
  lemma {:induction false} PrintedInjective(a: seq<nat>, b: seq<nat>)
    requires Printed(a) == Printed(b)
    ensures a == b
  {
    PrintedChars(a);
    PrintedChars(b);
    DotsCount(a);
    DotsCount(b);
    if a != [] {
      var fa, la, fb, lb := a[..|a| - 1], a[|a| - 1], b[..|b| - 1], b[|b| - 1];
      assert Decimals(a)[..|a| - 1] == Decimals(fa) && Decimals(b)[..|b| - 1] == Decimals(fb);
      if |a| > 1 {
        DigitsHoldNoDot(la);
        DigitsHoldNoDot(lb);
        CutAtLast(Printed(fa), Printed(fb), Decimal(la), Decimal(lb), '.');
        PrintedInjective(fa, fb);
      }
      DecimalInjective(la, lb);
      assert a == fa + [la] && b == fb + [lb];
    }
  }
}
