/** `kstrtol`: blanks, a sign, an optional base prefix, then the longest run of digits. */
module Kstrtol {
  import opened Machine
  import opened Numerals
  import opened PrintfSpec

  predicate IsBlank(c: char) {
    c == ' ' || c == '\t'
  }

  function SkipBlanks(s: string, i: nat): (j: nat)
    requires i <= |s|
    ensures i <= j <= |s|
    decreases |s| - i
  {
    if IsBlank(At(s, i)) then SkipBlanks(s, i + 1) else i
  }

  predicate IsSignChar(c: char) {
    c == '-' || c == '+'
  }

  predicate IsX(c: char) {
    c == 'x' || c == 'X'
  }

  /** The base that applies from position `i` on and where its digits begin. */
  datatype BaseScan = BaseScan(base: int, pos: nat)

  function ScanBase(s: string, i: nat, base: int): (r: BaseScan)
    requires i <= |s|
    ensures i <= r.pos <= |s|
  {
    if At(s, i) == '0' && IsX(At(s, i + 1)) && (base == 0 || base == 16) then BaseScan(16, i + 2)
    else if base != 0 then BaseScan(base, i)
    else if At(s, i) == '0' then BaseScan(8, i + 1)
    else BaseScan(10, i)
  }

  /** The end of the run of digits below `base` that starts at `i`. */
  function DigitRun(s: string, i: nat, base: int): (j: nat)
    requires i <= |s|
    ensures i <= j <= |s|
    ensures IsNumeral(s[i..j], base)
    ensures j < |s| ==> !(0 <= DigitOf(s[j]) < base)
    decreases |s| - i
  {
    if i < |s| && 0 <= DigitOf(s[i]) < base then
      var j := DigitRun(s, i + 1, base);
      assert s[i..j] == [s[i]] + s[i + 1..j];
      j
    else i
  }

  /** What a call reads: the sign, the base in force and the digits at `start..end`. */
  datatype Reading = Reading(negative: bool, base: int, start: nat, end: nat)

  function Read(s: string, base: int): (r: Reading)
    ensures r.start <= r.end <= |s|
  {
    var i := SkipBlanks(s, 0);
    var j := if IsSignChar(At(s, i)) then i + 1 else i;
    var b := ScanBase(s, j, base);
    Reading(At(s, i) == '-', b.base, b.pos, DigitRun(s, b.pos, b.base))
  }

  /** The magnitude read; the C code is defined while it fits a `long`. */
  function ReadMagnitude(s: string, base: int): int {
    var r := Read(s, base);
    Value(s[r.start..r.end], r.base)
  }

  function ReadValue(s: string, base: int): int {
    if Read(s, base).negative then -ReadMagnitude(s, base) else ReadMagnitude(s, base)
  }

  /** The call is defined, no digit taking the accumulator out of `long`, and returns `v`. */
  predicate ReadsAs(s: string, base: int, v: int) {
    ReadMagnitude(s, base) < TWO63 && ReadValue(s, base) == v
  }

  lemma MagnitudeNatural(s: string, base: int)
    ensures 0 <= ReadMagnitude(s, base)
  {
    var r := Read(s, base);
    var t := s[r.start..r.end];
    ValuePrefix(t, 0, r.base);
    assert t[..0] == "";
  }

  /** What fits a `long` is read as what it denotes, anything larger as nothing at all. */
  lemma ReadsAsIff(s: string, base: int, v: int)
    requires -TWO63 < v
    ensures ReadsAs(s, base, v) <==> v < TWO63 && ReadValue(s, base) == v
  {
    MagnitudeNatural(s, base);
  }

  /** One more digit of the run, still no larger than the whole. */
  lemma DigitAdds(s: string, start: nat, i: nat, end: nat, base: int)
    requires start <= i < end <= |s| && IsNumeral(s[start..end], base)
    ensures Value(s[start..i + 1], base) == Value(s[start..i], base) * base + DigitOf(s[i])
    ensures 0 <= Value(s[start..i + 1], base) <= Value(s[start..end], base)
  {
    assert s[start..i + 1] == s[start..i] + [s[i]];
    ValuePush(s[start..i], s[i], base);
    ValuePrefix(s[start..end], i + 1 - start, base);
    assert s[start..end][..i + 1 - start] == s[start..i + 1];
  }

  /** The digit loop; the accumulator never leaves the range of `long`. */
  method ReadDigits(s: CString, start: nat, base: int) returns (result: int, i: nat)
    requires start <= |s| && Value(s[start..DigitRun(s, start, base)], base) < TWO63
    ensures i == DigitRun(s, start, base) && result == Value(s[start..i], base)
    ensures 0 <= result < TWO63
  {
    result, i := 0, start;
    ghost var end := DigitRun(s, start, base);
    while i < |s|
      invariant start <= i <= end && end == DigitRun(s, i, base)
      invariant result == Value(s[start..i], base) && 0 <= result < TWO63
    {
      var digit := DigitOf(s[i]);
      if digit < 0 || digit >= base {
        break;
      }
      DigitAdds(s, start, i, end, base);
      result := result * base + digit;
      i := i + 1;
    }
  }

  /** Blanks and sign. */
  method ReadSign(s: CString) returns (sign: int, i: nat)
    ensures var k := SkipBlanks(s, 0);
      sign == (if At(s, k) == '-' then -1 else 1) && i == (if IsSignChar(At(s, k)) then k + 1 else k)
    ensures i <= |s|
  {
    sign, i := 1, 0;
    while At(s, i) == ' ' || At(s, i) == '\t'
      invariant 0 <= i <= |s| && SkipBlanks(s, 0) == SkipBlanks(s, i)
      decreases |s| - i
    {
      i := i + 1;
    }
    if At(s, i) == '-' {
      sign := -1;
      i := i + 1;
    } else if At(s, i) == '+' {
      i := i + 1;
    }
  }

  /** Base detection. */
  method ReadBase(s: CString, start: nat, base: int) returns (b: int, i: nat)
    requires start <= |s|
    ensures BaseScan(b, i) == ScanBase(s, start, base)
  {
    b, i := base, start;
    if b == 0 {
      if At(s, i) == '0' {
        if At(s, i + 1) == 'x' || At(s, i + 1) == 'X' {
          b := 16;
          i := i + 2;
        } else {
          b := 8;
          i := i + 1;
        }
      } else {
        b := 10;
      }
    } else if b == 16 && At(s, i) == '0' && (At(s, i + 1) == 'x' || At(s, i + 1) == 'X') {
      i := i + 2;
    }
  }

  /** `kstrtol`: the value and the end position. The source accumulates in a `long`, so
      its callers owe it a magnitude that fits. */
  method Parse(s: CString, base: int) returns (v: int, end: nat)
    requires ReadMagnitude(s, base) < TWO63
    ensures ReadsAs(s, base, v) && end == Read(s, base).end
    ensures -TWO63 < v < TWO63
  {
    var sign, i := ReadSign(s);
    var b, start := ReadBase(s, i, base);
    assert Read(s, base) == Reading(sign == -1, b, start, DigitRun(s, start, b));
    var result;
    result, end := ReadDigits(s, start, b);
    v := result * sign;
  }

  // ---------------------------------------------------------------- what a layout reads as

  /** `s` starts with `n` spaces or tabs, a sign if any, and something that is neither. */
  predicate Opens(s: string, n: nat, sign: string) {
    && (sign == "" || sign == "-" || sign == "+")
    && n + |sign| <= |s|
    && (forall i :: 0 <= i < n ==> s[i] == ' ' || s[i] == '\t')
    && s[n..n + |sign|] == sign
    && (sign == "" ==> At(s, n) !in {' ', '\t', '-', '+'})
  }

  lemma {:induction false} BlanksSkipped(s: string, n: nat, i: nat)
    requires i <= n <= |s| && !IsBlank(At(s, n)) && forall j :: 0 <= j < n ==> s[j] == ' ' || s[j] == '\t'
    ensures SkipBlanks(s, i) == n
    decreases n - i
  {
    if i < n {
      assert At(s, i) == s[i];
      BlanksSkipped(s, n, i + 1);
    }
  }

  lemma SignReads(s: string, n: nat, sign: string, base: int)
    requires Opens(s, n, sign)
    ensures var b := ScanBase(s, n + |sign|, base);
      Read(s, base) == Reading(sign == "-", b.base, b.pos, DigitRun(s, b.pos, b.base))
  {
    if sign != "" {
      assert s[n] == s[n..n + 1][0] == sign[0];
    }
    BlanksSkipped(s, n, 0);
  }

  /** The run of digits ends where the numeral ends. */
  lemma {:induction false} RunIs(s: string, start: nat, end: nat, base: int, i: nat)
    requires start <= i <= end <= |s| && IsNumeral(s[start..end], base)
    requires end < |s| ==> !(0 <= DigitOf(s[end]) < base)
    ensures DigitRun(s, i, base) == end
    decreases end - i
  {
    if i < end {
      assert s[i] == s[start..end][i - start];
      RunIs(s, start, end, base, i + 1);
    }
  }

  /** A run of digits does not pass a character that is none. */
  lemma {:induction false} RunStops(s: string, i: nat, k: nat, base: int)
    requires i <= k < |s| && !(0 <= DigitOf(s[k]) < base)
    ensures DigitRun(s, i, base) <= k
    decreases k - i
  {
    if i < k && 0 <= DigitOf(s[i]) < base {
      RunStops(s, i + 1, k, base);
    }
  }

  /** Blanks, a sign, an optional prefix that selects base `b`, a numeral in that base and
      whatever else: the call returns the number and the position behind it. */
  lemma LayoutReads(s: string, n: nat, sign: string, start: nat, end: nat, base: int, b: int)
    requires Opens(s, n, sign) && n + |sign| <= start <= end <= |s|
    requires ScanBase(s, n + |sign|, base) == BaseScan(b, start)
    requires IsNumeral(s[start..end], b) && (end < |s| ==> !(0 <= DigitOf(s[end]) < b))
    ensures Read(s, base) == Reading(sign == "-", b, start, end)
    ensures ReadMagnitude(s, base) == Value(s[start..end], b)
    ensures ReadValue(s, base) == if sign == "-" then -Value(s[start..end], b) else Value(s[start..end], b)
  {
    SignReads(s, n, sign, base);
    RunIs(s, start, end, b, start);
  }
}
