/** The string operations the date helpers rely on: JavaScript's `String(n)`
    for integers, `padStart(2, "0")`, `split("-")`, `Number` on a string of
    decimal digits, and the code-unit order that `sort()` and `<` use. */
module Strings {

  predicate IsDigit(c: char) { '0' <= c <= '9' }

  function DigitValue(c: char): (n: nat)
    requires IsDigit(c)
    ensures n < 10
  {
    (c as int) - ('0' as int)
  }

  function DigitChar(n: nat): (c: char)
    requires n < 10
    ensures IsDigit(c) && DigitValue(c) == n
  {
    (('0' as int) + n) as char
  }

  predicate IsDigits(s: string) { forall i :: 0 <= i < |s| ==> IsDigit(s[i]) }

  /** A digit string contains no other character (such as a separator). */
  lemma DigitsExclude(s: string, c: char)
    requires IsDigits(s) && !IsDigit(c)
    ensures c !in s
  {
  }

  /** The value of a string of decimal digits (leading zeros allowed), as
      `Number(s)` reads it. */
  function DigitsValue(s: string): nat
    requires IsDigits(s)
    decreases |s|
  {
    if |s| == 0 then 0 else DigitsValue(s[..|s| - 1]) * 10 + DigitValue(s[|s| - 1])
  }

  function Pow10(k: nat): (p: nat)
    ensures p >= 1
  {
    if k == 0 then 1 else 10 * Pow10(k - 1)
  }

  lemma {:induction false} Pow10Monotone(j: nat, k: nat)
    requires j <= k
    ensures Pow10(j) <= Pow10(k)
  {
    if j < k {
      Pow10Monotone(j, k - 1);
    }
  }

  /** A string of `k` digits denotes a number below `10^k`. */
  lemma {:induction false} DigitsValueBound(s: string)
    requires IsDigits(s)
    ensures DigitsValue(s) < Pow10(|s|)
  {
    if |s| > 0 {
      DigitsValueBound(s[..|s| - 1]);
    }
  }

  /** Reading the digits from the front: the first digit weighs `10^(k-1)`. */
  lemma {:induction false} DigitsValueFront(s: string)
    requires IsDigits(s) && |s| > 0
    ensures DigitsValue(s) == DigitValue(s[0]) * Pow10(|s| - 1) + DigitsValue(s[1..])
    decreases |s|
  {
    var n := |s|;
    if n > 1 {
      var init := s[..n - 1];
      DigitsValueFront(init);
      assert init[1..] == s[1..][..n - 2];
      var d0 := DigitValue(s[0]);
      calc {
        DigitsValue(s);
        DigitsValue(init) * 10 + DigitValue(s[n - 1]);
        (d0 * Pow10(n - 2) + DigitsValue(init[1..])) * 10 + DigitValue(s[n - 1]);
        { assert (d0 * Pow10(n - 2)) * 10 == d0 * (10 * Pow10(n - 2)); }
        d0 * Pow10(n - 1) + (DigitsValue(init[1..]) * 10 + DigitValue(s[n - 1]));
        d0 * Pow10(n - 1) + DigitsValue(s[1..]);
      }
    }
  }

  /** A digit string with a non-zero first digit denotes at least `10^(k-1)`. */
  lemma LeadingDigitLowerBound(s: string)
    requires IsDigits(s) && |s| > 0 && s[0] != '0'
    ensures Pow10(|s| - 1) <= DigitsValue(s)
  {
    DigitsValueFront(s);
    MulMonotone(1, DigitValue(s[0]), Pow10(|s| - 1));
  }

  lemma MulMonotone(a: int, b: int, c: int)
    requires a <= b && 0 <= c
    ensures a * c <= b * c
  {
  }

  /** JavaScript's `String(n)` for a non-negative integer: decimal, no
      leading zeros, `"0"` for zero. */
  function NatToString(n: nat): string
  {
    if n < 10 then [DigitChar(n)] else NatToString(n / 10) + [DigitChar(n % 10)]
  }

  /** `String(n)` is a non-empty digit string without a leading zero that
      reads back as `n`. */
  lemma {:induction false} NatToStringDigits(n: nat)
    ensures var s := NatToString(n);
      IsDigits(s) && |s| >= 1 && DigitsValue(s) == n && (|s| > 1 ==> s[0] != '0')
  {
    var s := NatToString(n);
    if n < 10 {
      assert s[..0] == [];
    } else {
      var init := NatToString(n / 10);
      NatToStringDigits(n / 10);
      assert s[..|s| - 1] == init;
      assert |init| == 1 ==> DigitsValue(init) == DigitValue(init[0]) by {
        if |init| == 1 { assert init[..0] == []; }
      }
    }
  }

  /** The number of digits of `String(n)` is pinned by the value of `n`. */
  lemma NatToStringLength(n: nat)
    ensures n < Pow10(|NatToString(n)|)
    ensures |NatToString(n)| > 1 ==> Pow10(|NatToString(n)| - 1) <= n
  {
    var s := NatToString(n);
    NatToStringDigits(n);
    DigitsValueBound(s);
    if |s| > 1 {
      LeadingDigitLowerBound(s);
    }
  }

  /** Four-digit years print with exactly four digits, months and days
      below 10 with one and the others below 100 with two. */
  lemma NatToStringWidth(n: nat)
    ensures n < 10 ==> |NatToString(n)| == 1
    ensures 10 <= n < 100 ==> |NatToString(n)| == 2
    ensures 1000 <= n < 10000 ==> |NatToString(n)| == 4
  {
    var k := |NatToString(n)|;
    NatToStringLength(n);
    assert Pow10(1) == 10 && Pow10(2) == 100 && Pow10(3) == 1000 && Pow10(4) == 10000;
    if k >= 5 { Pow10Monotone(4, k - 1); }
    if k >= 3 { Pow10Monotone(2, k - 1); }
    if k >= 2 { Pow10Monotone(1, k - 1); }
    if k <= 3 { Pow10Monotone(k, 3); }
    if k <= 1 { Pow10Monotone(k, 1); }
  }

  /** `String(Number(t)) == t` for digit strings without a leading zero. */
  lemma {:induction false} NatToStringOfDigits(t: string)
    requires IsDigits(t) && |t| >= 1 && (|t| > 1 ==> t[0] != '0')
    ensures NatToString(DigitsValue(t)) == t
    decreases |t|
  {
    var n := |t|;
    var v := DigitsValue(t);
    if n == 1 {
      assert t[..0] == [] && DigitsValue(t[..0]) == 0;
      assert v == DigitsValue(t[..0]) * 10 + DigitValue(t[0]);
      assert DigitChar(v) as int == t[0] as int;
      assert t == [DigitChar(v)];
    } else {
      var init := t[..n - 1];
      assert init[0] == t[0];
      NatToStringOfDigits(init);
      LeadingDigitLowerBound(init);
      assert DigitsValue(init) >= Pow10(n - 2) >= 1;
      assert v == DigitsValue(init) * 10 + DigitValue(t[n - 1]);
      assert v >= 10;
      assert v / 10 == DigitsValue(init) && v % 10 == DigitValue(t[n - 1]);
      assert NatToString(v) == NatToString(v / 10) + [DigitChar(v % 10)];
      assert t == init + [t[n - 1]];
    }
  }

  /** `String(n)` never repeats: different numbers print differently. */
  lemma NatToStringInjective(a: nat, b: nat)
    requires NatToString(a) == NatToString(b)
    ensures a == b
  {
    NatToStringDigits(a);
    NatToStringDigits(b);
  }

  /** `padStart(2, "0")`. */
  function PadStart2(s: string): string
  {
    if |s| >= 2 then s else seq(2 - |s|, _ => '0') + s
  }

  /** `String(n).padStart(2, "0")`: what the date formatter does to a month
      or a day. */
  function TwoDigits(n: nat): string
  {
    PadStart2(NatToString(n))
  }

  /** Below 100 the padded form has exactly two digits and denotes `n`. */
  lemma TwoDigitsValue(n: nat)
    requires n < 100
    ensures |TwoDigits(n)| == 2 && IsDigits(TwoDigits(n)) && DigitsValue(TwoDigits(n)) == n
  {
    NatToStringWidth(n);
    NatToStringDigits(n);
    var s := NatToString(n);
    var r := TwoDigits(n);
    if n < 10 {
      assert s[..0] == [];
      assert r == ['0'] + s;
      assert r[..1] == ['0'];
    }
  }

  /** Every two-digit string is the padded form of the number it denotes. */
  lemma TwoDigitsOfDigits(t: string)
    requires |t| == 2 && IsDigits(t)
    ensures TwoDigits(DigitsValue(t)) == t
  {
    assert t[..1][..0] == [];
    var v := DigitsValue(t);
    assert DigitsValue(t[..1]) == DigitValue(t[0]);
    assert v == DigitValue(t[0]) * 10 + DigitValue(t[1]);
    if t[0] == '0' {
      assert v == DigitValue(t[1]);
      assert NatToString(v) == [t[1]];
      assert PadStart2([t[1]]) == ['0', t[1]];
    } else {
      NatToStringOfDigits(t);
      NatToStringWidth(v);
    }
  }

  /** JavaScript's `String(i)` for any integer. */
  function IntToString(i: int): string
  {
    if i < 0 then "-" + NatToString(-i) else NatToString(i)
  }

  lemma IntToStringInjective(a: int, b: int)
    requires IntToString(a) == IntToString(b)
    ensures a == b
  {
    var sa, sb := IntToString(a), IntToString(b);
    NatToStringDigits(if a < 0 then -a else a);
    NatToStringDigits(if b < 0 then -b else b);
    if a < 0 && b < 0 {
      assert NatToString(-a) == sa[1..] == sb[1..] == NatToString(-b);
    }
  }

  /** `s.split(sep)` with a one-character separator: the pieces between
      separators, including empty ones; `""` splits into `[""]`. */
  function Split(s: string, sep: char): (parts: seq<string>)
    ensures |parts| >= 1
    decreases |s|
  {
    if |s| == 0 then [""]
    else
      var rest := Split(s[1..], sep);
      if s[0] == sep then [""] + rest else [[s[0]] + rest[0]] + rest[1..]
  }

  /** A piece without the separator, then the separator: the piece comes
      off first. */
  lemma {:induction false} SplitPrefix(a: string, sep: char, b: string)
    requires sep !in a
    ensures Split(a + [sep] + b, sep) == [a] + Split(b, sep)
    decreases |a|
  {
    if |a| == 0 {
      assert a + [sep] + b == [sep] + b;
      assert ([sep] + b)[1..] == b;
    } else {
      assert (a + [sep] + b)[1..] == a[1..] + [sep] + b;
      SplitPrefix(a[1..], sep, b);
      assert [a[0]] + a[1..] == a;
    }
  }

  /** A string without the separator is one piece. */
  lemma {:induction false} SplitWhole(a: string, sep: char)
    requires sep !in a
    ensures Split(a, sep) == [a]
    decreases |a|
  {
    if |a| > 0 {
      SplitWhole(a[1..], sep);
      assert [a[0]] + a[1..] == a;
    }
  }

  /** Code-unit lexicographic order: the order of `Array.prototype.sort()`
      without a comparator and of `<` on strings. */
  predicate LexLess(a: string, b: string)
    decreases |a|
  {
    if |a| == 0 then |b| > 0
    else if |b| == 0 then false
    else if a[0] != b[0] then a[0] < b[0]
    else LexLess(a[1..], b[1..])
  }

  predicate LexLeq(a: string, b: string) { a == b || LexLess(a, b) }

  lemma {:induction false} LexLessIrreflexive(a: string)
    ensures !LexLess(a, a)
    decreases |a|
  {
    if |a| > 0 { LexLessIrreflexive(a[1..]); }
  }

  lemma {:induction false} LexLessAsymmetric(a: string, b: string)
    requires LexLess(a, b)
    ensures !LexLess(b, a)
    decreases |a|
  {
    if |a| > 0 && |b| > 0 && a[0] == b[0] { LexLessAsymmetric(a[1..], b[1..]); }
  }

  lemma {:induction false} LexLessTransitive(a: string, b: string, c: string)
    requires LexLess(a, b) && LexLess(b, c)
    ensures LexLess(a, c)
    decreases |a|
  {
    if |a| > 0 && a[0] == b[0] && b[0] == c[0] {
      LexLessTransitive(a[1..], b[1..], c[1..]);
    }
  }

  lemma {:induction false} LexLessTotal(a: string, b: string)
    requires a != b
    ensures LexLess(a, b) || LexLess(b, a)
    decreases |a|
  {
    if |a| > 0 && |b| > 0 && a[0] == b[0] {
      assert a == [a[0]] + a[1..] && b == [b[0]] + b[1..];
      LexLessTotal(a[1..], b[1..]);
    }
  }

  /** Comparing two concatenations whose first parts have equal length:
      the first parts decide unless they are equal. */
  lemma {:induction false} LexLessConcat(p: string, x: string, q: string, y: string)
    requires |p| == |q|
    ensures LexLess(p + x, q + y) <==> (if p != q then LexLess(p, q) else LexLess(x, y))
    decreases |p|
  {
    if |p| == 0 {
      assert p + x == x && q + y == y;
    } else {
      assert (p + x)[1..] == p[1..] + x && (q + y)[1..] == q[1..] + y;
      LexLessConcat(p[1..], x, q[1..], y);
      if p[0] == q[0] && p[1..] == q[1..] {
        assert p == [p[0]] + p[1..] && q == [q[0]] + q[1..];
      }
    }
  }

  /** On digit strings of one width, the code-unit order is numeric order. */
  lemma {:induction false} LexLessDigits(x: string, y: string)
    requires |x| == |y| && IsDigits(x) && IsDigits(y)
    ensures LexLess(x, y) <==> DigitsValue(x) < DigitsValue(y)
    decreases |x|
  {
    if |x| > 0 {
      var n := |x|;
      var p := Pow10(n - 1);
      DigitsValueFront(x);
      DigitsValueFront(y);
      DigitsValueBound(x[1..]);
      DigitsValueBound(y[1..]);
      var dx, dy := DigitValue(x[0]), DigitValue(y[0]);
      if x[0] == y[0] {
        LexLessDigits(x[1..], y[1..]);
      } else if dx < dy {
        LeadingDigitDecides(dx, DigitsValue(x[1..]), dy, DigitsValue(y[1..]), p);
      } else {
        LeadingDigitDecides(dy, DigitsValue(y[1..]), dx, DigitsValue(x[1..]), p);
      }
    }
  }

  /** `dx·p + rx < dy·p + ry` when `dx < dy` and both remainders are below `p`. */
  lemma LeadingDigitDecides(dx: nat, rx: nat, dy: nat, ry: nat, p: nat)
    requires dx < dy && rx < p && ry < p
    ensures dx * p + rx < dy * p + ry
  {
    MulMonotone(dx + 1, dy, p);
  }
}
