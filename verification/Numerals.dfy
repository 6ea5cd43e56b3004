/** Numerals in bases 2 to 36: the digit generator shared by the printers and the
    valuation used by the parser. */
module Numerals {
  import opened Machine

  predicate IsDigit(c: char) {
    '0' <= c <= '9'
  }

  /** `char_to_digit`: the value of a digit character in either letter case, -1 otherwise. */
  function DigitOf(c: char): (d: int)
    ensures -1 <= d < 36
  {
    if IsDigit(c) then c as int - '0' as int
    else if 'A' <= c <= 'Z' then c as int - 'A' as int + 10
    else if 'a' <= c <= 'z' then c as int - 'a' as int + 10
    else -1
  }

  /** The character written for one digit. */
  function DigitChar(d: nat, upper: bool): (c: char)
    requires d < 36
    ensures DigitOf(c) == d
    ensures c != '\0' && c != ' ' && c != '-' && c != '+' && c != '\t'
  {
    if d < 10 then ('0' as int + d) as char
    else ((if upper then 'A' else 'a') as int + d - 10) as char
  }

  /** The digit characters, by their place among all of them. */
  lemma DigitCharIs(d: nat, upper: bool)
    requires d < 36
    ensures DigitChar(d, upper) ==
      (if upper then "0123456789ABCDEFGHIJKLMNOPQRSTUVWXYZ" else "0123456789abcdefghijklmnopqrstuvwxyz")[d]
  {
  }

  lemma DecimalDigits(c: char)
    ensures IsDigit(c) <==> c in "0123456789"
  {
  }

  lemma NoUpperDigit(c: char)
    requires DigitOf(c) < 0
    ensures c !in "0123456789ABCDEFGHIJKLMNOPQRSTUVWXYZ"
  {
  }

  lemma NoLowerDigit(c: char)
    requires DigitOf(c) < 0
    ensures c !in "0123456789abcdefghijklmnopqrstuvwxyz"
  {
  }

  /** The digits in both letter cases, and no other characters, have a value, by their place. */
  lemma DigitOfIs(c: char)
    ensures IsDigit(c) <==> c in "0123456789"
    ensures 0 <= DigitOf(c) ==>
      c == "0123456789ABCDEFGHIJKLMNOPQRSTUVWXYZ"[DigitOf(c)] || c == "0123456789abcdefghijklmnopqrstuvwxyz"[DigitOf(c)]
    ensures DigitOf(c) < 0 ==>
      c !in "0123456789ABCDEFGHIJKLMNOPQRSTUVWXYZ" && c !in "0123456789abcdefghijklmnopqrstuvwxyz"
  {
    DecimalDigits(c);
    if 0 <= DigitOf(c) {
      DigitCharIs(DigitOf(c), true);
      DigitCharIs(DigitOf(c), false);
    } else {
      NoUpperDigit(c);
      NoLowerDigit(c);
    }
  }

  lemma DivShrinks(v: nat, d: nat)
    requires 0 < d
    ensures 0 <= v / d <= v && v % d < d
  {
    MulLe(1, d, v / d);
  }

  /** The least significant `cap` digits of `v`, most significant first and without
      leading zeros unless `v` has more than `cap` digits. */
  function Digits(v: nat, base: nat, cap: nat, upper: bool): (s: string)
    requires 2 <= base <= 36 && 0 < cap
    ensures 1 <= |s| <= cap
    decreases v, cap
  {
    if v < base || cap == 1 then [DigitChar(v % base, upper)]
    else
      DivShrinks(v, base);
      Digits(v / base, base, cap - 1, upper) + [DigitChar(v % base, upper)]
  }

  /** One turn of the digit loop: the digit moves from the number to the text. */
  lemma DigitsStep(v: nat, base: nat, cap: nat, upper: bool, text: string)
    requires 2 <= base <= 36 && 0 < cap
    ensures var text' := [DigitChar(v % base, upper)] + text;
      Digits(v, base, cap, upper) + text ==
        if v / base != 0 && cap > 1 then Digits(v / base, base, cap - 1, upper) + text' else text'
  {
    if v < base {
      SmallMod(v, base);
    } else {
      DivPositive(v, base);
    }
  }

  /** Every character of `s` is a digit below `base`. */
  predicate IsNumeral(s: string, base: int) {
    forall i :: 0 <= i < |s| ==> 0 <= DigitOf(s[i]) < base
  }

  /** The number a digit string denotes, accumulated from the left. */
  function Value(s: string, base: int): int
  {
    if s == [] then 0 else Value(s[..|s| - 1], base) * base + DigitOf(s[|s| - 1])
  }

  lemma NumeralClean(s: string, base: int)
    requires IsNumeral(s, base)
    ensures '\0' !in s
  {
    forall i | 0 <= i < |s| ensures s[i] != '\0' {
      assert DigitOf(s[i]) >= 0;
    }
  }

  lemma ValuePush(s: string, c: char, base: int)
    ensures Value(s + [c], base) == Value(s, base) * base + DigitOf(c)
  {
    assert (s + [c])[..|s|] == s;
  }

  /** Leading zeros do not change the value. */
  lemma {:induction false} ValueZeros(n: int, s: string, base: int)
    ensures Value(Fill('0', n) + s, base) == Value(s, base)
  {
    if s == [] {
      assert Fill('0', n) + s == Fill('0', n);
      ValueFill(n, base);
    } else {
      var z := Fill('0', n);
      ValueZeros(n, s[..|s| - 1], base);
      assert (z + s)[..|z + s| - 1] == z + s[..|s| - 1];
    }
  }

  lemma {:induction false} ValueFill(n: int, base: int)
    ensures Value(Fill('0', n), base) == 0
    decreases Max(0, n)
  {
    if n > 0 {
      FillPush('0', n - 1);
      ValuePush(Fill('0', n - 1), '0', base);
      ValueFill(n - 1, base);
    }
  }

  lemma {:induction false} ValueBounds(s: string, base: nat)
    requires IsNumeral(s, base)
    ensures 0 <= Value(s, base) < Pow(base, |s|) || s == []
    ensures 0 <= Value(s, base)
  {
    if s != [] {
      var p := s[..|s| - 1];
      ValueBounds(p, base);
      var v, d, m := Value(p, base), DigitOf(s[|s| - 1]), Pow(base, |p|);
      assert 0 <= d < base && 0 <= v <= m - 1;
      HornerBound(v, d, base, m);
      assert Pow(base, |s|) == base * m;
    }
  }

  lemma HornerBound(v: nat, d: nat, base: nat, m: int)
    requires v <= m - 1 && d < base
    ensures 0 <= v * base + d < base * m
  {
    MulLe(v, m - 1, base);
  }

  /** The value only grows from one prefix of a numeral to the next. */
  lemma {:induction false} ValuePrefix(s: string, k: nat, base: int)
    requires IsNumeral(s, base) && k <= |s|
    ensures 0 <= Value(s[..k], base) <= Value(s, base)
  {
    if k == |s| {
      assert s[..k] == s;
      if s != [] {
        ValuePrefix(s[..k - 1], k - 1, base);
        assert s[..k - 1][..k - 1] == s[..k - 1];
        assert 0 <= DigitOf(s[k - 1]) < base;
        MulLe(0, Value(s[..k - 1], base), base);
      }
    } else {
      var p := s[..|s| - 1];
      assert p[..k] == s[..k];
      ValuePrefix(p, k, base);
      assert 0 <= DigitOf(s[|s| - 1]) < base;
      MulLe(1, base, Value(p, base));
    }
  }

  lemma {:induction false} ValueConcat(a: string, b: string, base: nat)
    ensures Value(a + b, base) == Value(a, base) * Pow(base, |b|) + Value(b, base)
  {
    if b == "" {
      assert a + b == a;
    } else {
      var c, d := b[..|b| - 1], DigitOf(b[|b| - 1]);
      ValueConcat(a, c, base);
      assert (a + b)[..|a + b| - 1] == a + c;
      var x, m, y := Value(a, base), Pow(base, |c|), Value(c, base);
      assert Pow(base, |b|) == base * m;
      Horner(x, m, y, base);
    }
  }

  lemma Horner(x: int, m: int, y: int, base: int)
    ensures (x * m + y) * base == x * (base * m) + y * base
  {
  }

  /** Dropping leading digits of a numeral without leading zero makes it smaller. */
  lemma DropShrinks(s: string, j: nat, base: nat)
    requires 2 <= base && IsNumeral(s, base) && 0 < j <= |s| && DigitOf(s[0]) != 0
    ensures Value(s[j..], base) < Value(s, base)
  {
    assert s == s[..j] + s[j..];
    ValueConcat(s[..j], s[j..], base);
    ValuePrefix(s[..j], 1, base);
    assert s[..j][..1] == [] + [s[0]];
    ValuePush([], s[0], base);
    MulLe(1, Value(s[..j], base), Pow(base, |s[j..]|));
  }

  /** So does dropping trailing ones. */
  lemma TakeShrinks(s: string, j: nat, base: nat)
    requires 2 <= base && IsNumeral(s, base) && j < |s| && DigitOf(s[0]) != 0
    ensures Value(s[..j], base) < Value(s, base)
  {
    ValuePrefix(s, j + 1, base);
    assert s[..j + 1] == s[..j] + [s[j]];
    ValuePush(s[..j], s[j], base);
    if j > 0 {
      ValuePrefix(s[..j], 1, base);
      assert s[..j][..1] == [] + [s[0]];
      ValuePush([], s[0], base);
      MulLe(2, base, Value(s[..j], base));
    }
  }

  lemma HornerLess(x: nat, y: nat, b: nat, c: nat)
    requires x <= y && b < c
    ensures x * b <= y * c && (0 < y ==> x * b < y * c)
  {
    MulLe(x, y, b);
    MulLe(b + 1, c, y);
  }

  /** The same digits denote less in a smaller base. */
  lemma {:induction false} SmallerBase(s: string, b: nat, c: nat)
    requires b < c && IsNumeral(s, b)
    ensures 0 <= Value(s, b) <= Value(s, c)
    ensures |s| >= 2 && DigitOf(s[0]) != 0 ==> Value(s, b) < Value(s, c)
  {
    if s != [] {
      var p := s[..|s| - 1];
      SmallerBase(p, b, c);
      HornerLess(Value(p, b), Value(p, c), b, c);
      MulLe(0, Value(p, b), b);
      if |s| >= 2 && DigitOf(s[0]) != 0 {
        ValuePrefix(p, 1, b);
        assert p[..1] == [] + [s[0]];
        ValuePush([], s[0], b);
      }
    }
  }

  lemma DigitsValueStep(v: nat, base: nat, m: nat, p: string, last: char)
    requires 2 <= base && 0 < m && IsNumeral(p, base) && Value(p, base) == (v / base) % m
    requires DigitOf(last) == v % base
    ensures IsNumeral(p + [last], base) && Value(p + [last], base) == v % (base * m)
  {
    ValuePush(p, last, base);
    SplitMod(v, base, m);
    assert forall i :: 0 <= i < |p| ==> (p + [last])[i] == p[i];
  }

  lemma OneDigit(v: nat, base: nat, cap: nat)
    requires 2 <= base && 0 < cap && (v < base || cap == 1)
    ensures v % Pow(base, cap) == v % base
  {
    if cap == 1 {
      assert Pow(base, 1) == base * Pow(base, 0) == base;
    } else {
      PowAtLeast(base, cap);
      SmallMod(v, base);
      SmallMod(v, Pow(base, cap));
    }
  }

  lemma DigitAlone(c: char, base: nat)
    requires 0 <= DigitOf(c) < base
    ensures IsNumeral([c], base) && Value([c], base) == DigitOf(c)
  {
    var s := [c];
    assert s[..|s| - 1] == "";
    assert Value(s[..|s| - 1], base) == 0;
  }

  /** The digits written are digits of the base, and reading them back gives the
      original number modulo base to the number of digits kept. */
  lemma {:induction false} DigitsValue(v: nat, base: nat, cap: nat, upper: bool)
    requires 2 <= base <= 36 && 0 < cap
    ensures IsNumeral(Digits(v, base, cap, upper), base)
    ensures Value(Digits(v, base, cap, upper), base) == v % Pow(base, cap)
    decreases cap
  {
    var last := DigitChar(v % base, upper);
    if v < base || cap == 1 {
      OneDigit(v, base, cap);
      DigitAlone(last, base);
    } else {
      DigitsValue(v / base, base, cap - 1, upper);
      DigitsValueStep(v, base, Pow(base, cap - 1), Digits(v / base, base, cap - 1, upper), last);
    }
  }

  lemma SmallMod(v: nat, m: nat)
    requires v < m
    ensures v % m == v && v / m == 0
  {
    ModUnique(v, m, 0, v);
  }

  lemma PowAtLeast(base: nat, n: nat)
    requires 2 <= base && 0 < n
    ensures base <= Pow(base, n)
  {
    if n > 1 {
      PowAtLeast(base, n - 1);
      assert Pow(base, n) == base * Pow(base, n - 1);
      assert base * 1 <= base * Pow(base, n - 1);
    }
  }

  lemma Redistribute(base: nat, m: nat, q: nat, r: nat, d: nat)
    ensures base * (q * m + r) + d == q * (base * m) + (r * base + d)
  {
    MulAssoc(base, q, m);
    MulAssoc(q, base, m);
  }

  lemma SplitMod(v: nat, base: nat, m: nat)
    requires 0 < base && 0 < m
    ensures v % (base * m) == ((v / base) % m) * base + v % base
  {
    var h, d := v / base, v % base;
    var q, r := h / m, h % m;
    Redistribute(base, m, q, r, d);
    MulLe(r + 1, m, base);
    MulLe(0, r, base);
    ModUnique(v, base * m, q, r * base + d);
  }

  /** Letters come in the case asked for. */
  lemma {:induction false} DigitsCase(v: nat, base: nat, cap: nat, upper: bool)
    requires 2 <= base <= 36 && 0 < cap
    ensures forall c :: c in Digits(v, base, cap, upper) ==>
      IsDigit(c) || (if upper then 'A' <= c <= 'Z' else 'a' <= c <= 'z')
    decreases cap
  {
    if v >= base && cap > 1 {
      DigitsCase(v / base, base, cap - 1, upper);
    }
  }

  lemma DivLess(v: nat, d: nat)
    requires 2 <= d && 0 < v
    ensures 0 <= v / d < v
  {
    DivShrinks(v, d);
    if v / d == v {
      MulLe(2, d, v);
    }
  }

  /** The number of digits of a number. */
  function DigitCount(v: nat, base: nat): (n: nat)
    requires 2 <= base
    ensures 0 < n
  {
    if v < base then 1
    else
      DivLess(v, base);
      1 + DigitCount(v / base, base)
  }

  /** The digit loop writes all digits that fit. */
  lemma {:induction false} DigitsCount(v: nat, base: nat, cap: nat, upper: bool)
    requires 2 <= base <= 36 && 0 < cap
    ensures |Digits(v, base, cap, upper)| == Min(cap, DigitCount(v, base))
    decreases cap
  {
    if v >= base && cap > 1 {
      DivLess(v, base);
      DigitsCount(v / base, base, cap - 1, upper);
    }
  }

  lemma CountStep(v: nat, base: nat, m: nat)
    requires 2 <= base && m <= v / base
    ensures base * m <= v
  {
    MulLe(m, v / base, base);
  }

  lemma CountBound(v: nat, base: nat, m: nat)
    requires 2 <= base && v / base < m
    ensures v < base * m
  {
    MulLe(v / base + 1, m, base);
  }

  /** The number of digits tells the magnitude. */
  lemma {:induction false} DigitCountIs(v: nat, base: nat)
    requires 2 <= base && 0 < v
    ensures Pow(base, DigitCount(v, base) - 1) <= v < Pow(base, DigitCount(v, base))
  {
    if v < base {
      assert Pow(base, 0) == 1 && Pow(base, 1) == base * Pow(base, 0);
    } else {
      DivLess(v, base);
      MulLe(base, v, 1);
      DivPositive(v, base);
      DigitCountIs(v / base, base);
      var n := DigitCount(v / base, base);
      CountStep(v, base, Pow(base, n - 1));
      CountBound(v, base, Pow(base, n));
    }
  }

  /** A number below base to the n has at most n digits. */
  lemma {:induction false} DigitsLength(v: nat, base: nat, cap: nat, upper: bool, n: nat)
    requires 2 <= base <= 36 && 0 < n <= cap
    requires v < Pow(base, n)
    ensures |Digits(v, base, cap, upper)| <= n
    decreases n
  {
    if v >= base && cap > 1 && n > 1 {
      DivBound(v, base, Pow(base, n - 1));
      DigitsLength(v / base, base, cap - 1, upper, n - 1);
    } else if n == 1 {
      assert Pow(base, 1) == base * Pow(base, 0) == base;
    }
  }

  /** No superfluous leading zero: the first digit is zero only for zero itself. */
  lemma {:induction false} DigitsLeading(v: nat, base: nat, cap: nat, upper: bool)
    requires 2 <= base <= 36 && 0 < cap && v < Pow(base, cap)
    ensures DigitOf(Digits(v, base, cap, upper)[0]) == 0 <==> v == 0
    decreases cap
  {
    if cap == 1 {
      assert Pow(base, 1) == base * Pow(base, 0) == base;
    }
    if v < base {
      SmallMod(v, base);
    } else {
      DivBound(v, base, Pow(base, cap - 1));
      DigitsLeading(v / base, base, cap - 1, upper);
      DivPositive(v, base);
    }
  }

  lemma DivPositive(v: nat, d: nat)
    requires 0 < d <= v
    ensures 0 < v / d
  {
  }
}
