/** Printer and parser together: which renderings `kstrtol` reads back, exactly. */
module RoundTrip {
  import opened Machine
  import opened Numerals
  import opened PrintfSpec
  import opened Kstrtol
  import PrintfLaws

  // ---------------------------------------------------------------- the shape of a field

  lemma FillSplit(c: char, m: int, n: nat)
    requires 0 <= m
    ensures Fill(c, m) + Fill(c, n) == Fill(c, m + n)
  {
  }

  /** Zero padding is some number of zeros in front of the digits. */
  lemma ZeroPaddedIs(digits: string, prec: nat, w: nat, fl: Flags)
    ensures ZeroPadded(digits, prec, w, fl) == Fill('0', |ZeroPadded(digits, prec, w, fl)| - |digits|) + digits
  {
    if !fl.left {
      var inner := PadZeros(digits, prec);
      var t := if fl.zero then w else 0;
      var m, n := Max(0, Min(t, BUFFER_SIZE) - |inner|), Max(0, Min(prec, BUFFER_SIZE) - |digits|);
      FillSplit('0', m, n);
      assert PadZeros(inner, t) == Fill('0', m) + (Fill('0', n) + digits) == Fill('0', m + n) + digits;
    }
  }

  /** Blanks on either side of a body, whichever side the flags choose. */
  lemma JustifyIs(body: string, w: nat, fl: Flags) returns (p: nat, q: nat)
    ensures Justify(body, w, fl) == Fill(' ', p) + body + Fill(' ', q)
    ensures (fl.left || fl.zero ==> p == 0) && (!fl.left ==> q == 0)
    ensures p + q == if fl.zero && !fl.left then 0 else Max(0, w - |body|)
  {
    p, q := 0, 0;
    if fl.left {
      q := Max(0, w - |body|);
    } else if !fl.zero {
      p := Max(0, w - |body|);
    }
  }

  /** The sign is printed unless the digit buffer is full. */
  predicate SignFits(digits: string, negative: bool, prec: nat, width: nat, fl: Flags) {
    |ZeroPadded(digits, prec, ZeroWidth(negative, width, fl), fl)| < BUFFER_SIZE
  }

  lemma Middle(a: string, b: string, c: string)
    ensures var t := a + b + c;
      t[|a|..|a| + |b|] == b && t[..|a|] == a && t[|a| + |b|..] == c
  {
  }

  lemma SliceSplit(t: string, i: nat, j: nat, s: string, num: string)
    requires i <= j <= |t| && t[i..j] == s + num
    ensures i + |s| + |num| == j && t[i..i + |s|] == s && t[i + |s|..j] == num
  {
    assert |t[i..j]| == |s + num|;
    assert t[i..i + |s|] == t[i..j][..|s|];
    assert t[i + |s|..j] == t[i..j][|s|..];
  }

  /** `t` is `n` blanks, a sign, `num` and `q` blanks. */
  predicate Surrounded(t: string, n: nat, sign: string, num: string, q: nat) {
    && |t| == n + |sign| + |num| + q
    && (forall i :: 0 <= i < n ==> t[i] == ' ')
    && t[n..n + |sign|] == sign
    && t[n + |sign|..n + |sign| + |num|] == num
    && (forall i :: n + |sign| + |num| <= i < |t| ==> t[i] == ' ')
  }

  lemma SurroundedIs(n: nat, sign: string, num: string, q: nat)
    ensures Surrounded(Fill(' ', n) + (sign + num) + Fill(' ', q), n, sign, num, q)
  {
    var t := Fill(' ', n) + (sign + num) + Fill(' ', q);
    Middle(Fill(' ', n), sign + num, Fill(' ', q));
    SliceSplit(t, n, n + |sign + num|, sign, num);
    assert forall i :: 0 <= i < n ==> t[i] == t[..n][i];
    var k := n + |sign + num|;
    assert forall i :: k <= i < |t| ==> t[i] == t[k..][i - k];
  }

  predicate IsSign(sign: string) {
    sign == "" || sign == "-" || sign == "+"
  }

  /** How a text opens whose number begins with a digit or letter. */
  lemma NumberAt(t: string, n: nat, sign: string, num: string, q: nat)
    requires Surrounded(t, n, sign, num, q) && IsSign(sign) && num != ""
    requires !IsBlank(num[0]) && !IsSignChar(num[0])
    ensures var k := n + |sign|;
      && Opens(t, n, sign) && k + |num| <= |t| && At(t, k) == num[0] && (|num| >= 2 ==> At(t, k + 1) == num[1])
      && (k + |num| < |t| ==> t[k + |num|] == ' ')
  {
    var k := n + |sign|;
    assert t[k] == t[k..k + |num|][0];
    assert |num| >= 2 ==> t[k + 1] == t[k..k + |num|][1];
  }

  lemma SubSlice(t: string, n: nat, k: nat, i: nat, j: nat)
    requires n <= k <= |t| && i <= j <= k - n
    ensures t[n..k][i..j] == t[n + i..n + j]
  {
    assert forall x :: 0 <= x < j - i ==> t[n..k][i..j][x] == t[n + i..n + j][x];
  }

  /** A value with the sign that was printed. */
  function Signing(sign: string, v: int): int {
    if sign == "-" then -v else v
  }

  lemma PartAt(t: string, n: nat, sign: string, num: string, i: nat, j: nat, q: nat)
    requires Surrounded(t, n, sign, num, q) && i <= j <= |num|
    ensures var k := n + |sign|;
      && k + j <= |t| && t[k + i..k + j] == num[i..j]
      && (k + j < |t| ==> t[k + j] == if j < |num| then num[j] else ' ')
  {
    var k := n + |sign|;
    SubSlice(t, k, k + |num|, i, j);
    assert j < |num| ==> t[k + j] == t[k..k + |num|][j];
  }

  lemma PartLayout(t: string, n: nat, sign: string, start: nat, end: nat, part: string, base: int, b: int)
    requires Opens(t, n, sign) && n + |sign| <= start <= end <= |t| && t[start..end] == part
    requires ScanBase(t, n + |sign|, base) == BaseScan(b, start)
    requires IsNumeral(part, b) && (end < |t| ==> !(0 <= DigitOf(t[end]) < b))
    ensures ReadValue(t, base) == Signing(sign, Value(part, b))
  {
    LayoutReads(t, n, sign, start, end, base, b);
  }

  /** Blanks and sign aside, the digits `i..j` of a number are read when they are all there are
      from where base detection points to. */
  lemma PartReads(t: string, n: nat, sign: string, num: string, i: nat, j: nat, q: nat, base: int, b: int)
    requires Surrounded(t, n, sign, num, q) && IsSign(sign) && num != ""
    requires !IsBlank(num[0]) && !IsSignChar(num[0]) && i <= j <= |num|
    requires ScanBase(t, n + |sign|, base) == BaseScan(b, n + |sign| + i)
    requires IsNumeral(num[i..j], b) && (j < |num| ==> !(0 <= DigitOf(num[j]) < b))
    ensures ReadValue(t, base) == Signing(sign, Value(num[i..j], b))
  {
    NumberAt(t, n, sign, num, q);
    PartAt(t, n, sign, num, i, j, q);
    PartLayout(t, n, sign, n + |sign| + i, n + |sign| + j, num[i..j], base, b);
  }

  /** Without any digit the value is that of the empty numeral. */
  lemma NothingReads(t: string, n: nat, sign: string, q: nat, base: int, b: int)
    requires Surrounded(t, n, sign, "", q) && IsSign(sign)
    requires var k := n + |sign| + (if sign == "" then q else 0); ScanBase(t, k, base) == BaseScan(b, k)
    ensures ReadValue(t, base) == 0
  {
    if sign == "" {
      assert Opens(t, n + q, "");
      assert t[n + q..n + q] == "";
      LayoutReads(t, n + q, "", n + q, n + q, base, b);
    } else {
      var k := n + |sign|;
      assert Opens(t, n, sign);
      assert t[k..k] == "";
      LayoutReads(t, n, sign, k, k, base, b);
    }
  }

  /** Read in a base its characters are digits of, a surrounded numeral is its value. */
  lemma SurroundedReads(t: string, n: nat, sign: string, num: string, q: nat, base: nat)
    requires Surrounded(t, n, sign, num, q) && IsSign(sign)
    requires 2 <= base <= 36 && IsNumeral(num, base)
    requires ScanBase(t, n + |sign|, base) == BaseScan(base, n + |sign|)
    ensures ReadValue(t, base) == Signing(sign, Value(num, base))
  {
    if num == "" {
      NothingReads(t, n, sign, q, base, base);
    } else {
      assert 0 <= DigitOf(num[0]) && num[0..|num|] == num;
      PartReads(t, n, sign, num, 0, |num|, q, base, base);
    }
  }

  lemma BodyShape(digits: string, negative: bool, base: nat, prec: nat, w: nat, fl: Flags)
    requires !fl.hash
    ensures var padded := ZeroPadded(digits, prec, w, fl);
      Body(digits, negative, base, prec, w, fl) == (if |padded| < BUFFER_SIZE then Sign(negative, fl) else "") + padded
  {
  }

  lemma FieldParts(digits: string, negative: bool, base: nat, prec: nat, width: nat, fl: Flags,
                   mark: string, padded: string)
    returns (n: nat, q: nat)
    requires var w := ZeroWidth(negative, width, fl);
      padded == ZeroPadded(digits, prec, w, fl) && mark + padded == Body(digits, negative, base, prec, w, fl)
    ensures Surrounded(FieldText(digits, negative, base, prec, width, fl), n, mark, padded, q)
    ensures (fl.left || fl.zero ==> n == 0) && (!fl.left ==> q == 0)
  {
    n, q := JustifyIs(mark + padded, ZeroWidth(negative, width, fl), fl);
    SurroundedIs(n, mark, padded, q);
  }

  /** A field without alternate form: blanks on the side the flags choose, the sign if the
      buffer has room for it, zeros and the digits. */
  lemma FieldShape(digits: string, negative: bool, base: nat, prec: nat, width: nat, fl: Flags)
    returns (n: nat, mark: string, z: nat, q: nat)
    requires !fl.hash
    ensures Surrounded(FieldText(digits, negative, base, prec, width, fl), n, mark, Fill('0', z) + digits, q)
    ensures z == |ZeroPadded(digits, prec, ZeroWidth(negative, width, fl), fl)| - |digits|
    ensures mark == if SignFits(digits, negative, prec, width, fl) then Sign(negative, fl) else ""
    ensures (fl.left || fl.zero ==> n == 0) && (!fl.left ==> q == 0)
  {
    var w := ZeroWidth(negative, width, fl);
    var padded := ZeroPadded(digits, prec, w, fl);
    ZeroPaddedIs(digits, prec, w, fl);
    BodyShape(digits, negative, base, prec, w, fl);
    z := |padded| - |digits|;
    mark := if |padded| < BUFFER_SIZE then Sign(negative, fl) else "";
    n, q := FieldParts(digits, negative, base, prec, width, fl, mark, padded);
  }

  /** The blank of the space flag counts as padding. */
  lemma BlankMark(t: string, n: nat, num: string, q: nat)
    requires Surrounded(t, n, " ", num, q)
    ensures Surrounded(t, n + 1, "", num, q)
  {
    assert t[n] == t[n..n + 1][0];
  }

  /** Where `#` has no say, the flag makes no difference. */
  lemma HashFree(v: nat, negative: bool, base: nat, prec: nat, width: nat, fl: Flags, digits: string)
    requires 2 <= base <= 36 && (!fl.hash || v == 0) && digits == DigitText(v, base, fl)
    ensures IntegerText(v, negative, base, prec, width, fl) ==
      FieldText(digits, negative, base, prec, width, fl.(hash := false))
    ensures ZeroPadded(digits, prec, ZeroWidth(negative, width, fl), fl) ==
      ZeroPadded(digits, prec, ZeroWidth(negative, width, fl.(hash := false)), fl.(hash := false))
  {
  }

  /** Without alternate form, an integer is blanks, a sign, zeros, its digits and blanks. */
  lemma IntegerShape(v: nat, negative: bool, base: nat, prec: nat, width: nat, fl: Flags)
    returns (n: nat, sign: string, z: nat, q: nat)
    requires 2 <= base <= 36 && (!fl.hash || v == 0)
    ensures Surrounded(IntegerText(v, negative, base, prec, width, fl), n, sign,
                       Fill('0', z) + DigitText(v, base, fl), q)
    ensures sign == (if !SignFits(DigitText(v, base, fl), negative, prec, width, fl) then ""
                     else if negative then "-" else if fl.plus then "+" else "")
    ensures var digits := DigitText(v, base, fl);
      z == |ZeroPadded(digits, prec, ZeroWidth(negative, width, fl), fl)| - |digits|
  {
    var digits := DigitText(v, base, fl);
    HashFree(v, negative, base, prec, width, fl, digits);
    n, sign, z, q := FieldShape(digits, negative, base, prec, width, fl.(hash := false));
    if sign == " " {
      BlankMark(IntegerText(v, negative, base, prec, width, fl), n, Fill('0', z) + digits, q);
      n, sign := n + 1, "";
    }
  }

  // ---------------------------------------------------------------- decimal

  /** The number of digits a 64-bit value has at most. */
  function MaxDigits(base: nat): nat {
    if base == 16 then 16 else if base == 10 then 20 else 22
  }

  lemma PowersOf16()
    ensures Pow(16, 4) == 0x1_0000 && Pow(16, 16) == TWO64
  {
    PowAdd(16, 4, 4);
    PowAdd(16, 8, 8);
  }

  lemma PowersOf10()
    ensures Pow(10, 20) > TWO64
  {
    assert Pow(10, 5) == 100000;
    PowAdd(10, 5, 5);
    PowAdd(10, 10, 10);
  }

  lemma PowersOf8()
    ensures Pow(8, 22) > TWO64
  {
    assert Pow(8, 5) == 0x8000;
    PowAdd(8, 5, 6);
    PowAdd(8, 11, 11);
  }

  lemma PowersOf2()
    ensures Pow(2, 32) == TWO32
  {
    assert Pow(2, 8) == 0x100;
    PowAdd(2, 8, 8);
    PowAdd(2, 16, 16);
  }

  /** The digit loop on 64-bit values: a numeral of the value within 22, 20 or 16 digits
      in bases 8, 10 and 16, never a superfluous zero in front. */
  lemma DigitLoop(v: U64, base: nat, upper: bool)
    requires base in {8, 10, 16}
    ensures var s := Digits(v, base, BUFFER_SIZE, upper);
      IsNumeral(s, base) && Value(s, base) == v && |s| <= MaxDigits(base) && (DigitOf(s[0]) == 0 <==> v == 0)
  {
    PowersOf16();
    PowersOf10();
    PowersOf8();
    PowMonotone(base, MaxDigits(base), BUFFER_SIZE);
    DigitsValue(v, base, BUFFER_SIZE, upper);
    SmallMod(v, Pow(base, BUFFER_SIZE));
    DigitsLength(v, base, BUFFER_SIZE, upper, MaxDigits(base));
    DigitsLeading(v, base, BUFFER_SIZE, upper);
  }

  /** In base 2 the buffer keeps the low 32 bits. */
  lemma BinaryLoop(v: U64, upper: bool)
    ensures Value(Digits(v, 2, BUFFER_SIZE, upper), 2) == v % TWO32
  {
    PowersOf2();
    DigitsValue(v, 2, BUFFER_SIZE, upper);
  }

  lemma DigitTextValue(v: U64, base: nat, fl: Flags)
    requires base in {8, 10, 16}
    ensures var s := DigitText(v, base, fl);
      IsNumeral(s, base) && Value(s, base) == v && |s| <= MaxDigits(base)
  {
    DigitLoop(v, base, fl.upper);
  }

  lemma ZerosNumeral(z: nat, s: string, base: nat)
    requires 1 <= base && IsNumeral(s, base)
    ensures IsNumeral(Fill('0', z) + s, base) && Value(Fill('0', z) + s, base) == Value(s, base)
  {
    ValueZeros(z, s, base);
    var t := Fill('0', z) + s;
    forall i | 0 <= i < |t| ensures 0 <= DigitOf(t[i]) < base {
      assert t[i] == if i < z then '0' else s[i - z];
    }
  }

  /** The flag combinations under which a full digit buffer swallows the sign. */
  predicate SignLost(d: Directive) {
    !d.flags.left && (d.precision >= BUFFER_SIZE || (d.flags.zero && !d.flags.precision && d.width > BUFFER_SIZE))
  }

  /** A negative number keeps its sign exactly when zeros do not fill the buffer. */
  lemma SignFitsIff(digits: string, prec: nat, width: nat, fl: Flags)
    requires |digits| < BUFFER_SIZE
    ensures SignFits(digits, true, prec, width, fl) <==>
      fl.left || (prec < BUFFER_SIZE && (fl.zero ==> width <= BUFFER_SIZE))
  {
    PrintfLaws.ZeroPaddedLength(digits, prec, ZeroWidth(true, width, fl), fl);
  }

  /** Base 10 reads any decimal rendering as its magnitude, negated if the sign was printed. */
  lemma DecimalReads(m: int, negative: bool, prec: nat, width: nat, fl: Flags)
    requires 0 <= m < TWO64 && !fl.hash
    ensures ReadValue(IntegerText(m, negative, 10, prec, width, fl), 10) ==
      if negative && SignFits(DigitText(m, 10, fl), negative, prec, width, fl) then -m else m
  {
    var digits := DigitText(m, 10, fl);
    var n, sign, z, q := IntegerShape(m, negative, 10, prec, width, fl);
    DigitTextValue(m, 10, fl);
    ZerosNumeral(z, digits, 10);
    SurroundedReads(IntegerText(m, negative, 10, prec, width, fl), n, sign, Fill('0', z) + digits, q, 10);
  }

  lemma SignedReads(v: int, prec: nat, width: nat, fl: Flags)
    requires -TWO63 < v < TWO63 && !fl.hash
    ensures ReadValue(IntegerText(Magnitude(v), v < 0, 10, prec, width, fl), 10) == v <==>
      v >= 0 || fl.left || (prec < BUFFER_SIZE && (fl.zero ==> width <= BUFFER_SIZE))
  {
    var m := Magnitude(v);
    DecimalReads(m, v < 0, prec, width, fl);
    DigitTextValue(m, 10, fl);
    SignFitsIff(DigitText(m, 10, fl), prec, width, fl);
  }

  /** Printing a signed integer with `%d` or `%i`, any flags, width, precision and length
      modifier, and reading it back in base 10 gives the same integer, except that a
      negative one loses its sign when the zero padding fills the digit buffer. */
  lemma DecimalRoundTrip(d: Directive, bits: U64)
    requires IsSigned(d.conv) && Negatable(d, ArgValue(d, bits)) && (d.flags.precision || d.precision == 0)
    ensures var v := ArgValue(d, bits);
      ReadsAs(IntegerConversion(d, v), 10, v) <==> v >= 0 || !SignLost(d)
  {
    var v, fl := ArgValue(d, bits), IntegerFlags(d);
    assert -TWO63 < v < TWO63 && BaseOf(d.conv) == 10 && !fl.hash;
    ReadsAsIff(IntegerConversion(d, v), 10, v);
    SignedReads(v, d.precision, d.width, fl);
  }

  // ---------------------------------------------------------------- unsigned conversions

  /** A numeral of a base up to 16 never looks like a prefix of base 16. */
  lemma NoPrefixSeen(t: string, n: nat, sign: string, num: string, q: nat, base: nat)
    requires Surrounded(t, n, sign, num, q) && 2 <= base <= 16 && IsNumeral(num, base)
    ensures ScanBase(t, n + |sign|, base) == BaseScan(base, n + |sign|)
  {
    var k := n + |sign|;
    if |num| >= 2 {
      assert t[k + 1] == t[k..k + |num|][1];
    }
    assert !IsX(At(t, k + 1));
  }

  /** The digits of a number that the buffer keeps, for every base of the formatter. */
  lemma KeptDigits(v: U64, base: nat, fl: Flags)
    requires base in {2, 8, 10, 16}
    ensures var s := DigitText(v, base, fl);
      IsNumeral(s, base) && Value(s, base) == if base == 2 then v % TWO32 else v
  {
    if base == 2 {
      BinaryLoop(v, fl.upper);
      DigitsValue(v, 2, BUFFER_SIZE, fl.upper);
    } else {
      DigitTextValue(v, base, fl);
    }
  }

  lemma UnsignedReads(v: U64, base: nat, prec: nat, width: nat, fl: Flags)
    requires base in {2, 8, 10, 16} && (!fl.hash || v == 0)
    ensures ReadValue(IntegerText(v, false, base, prec, width, fl), base) == if base == 2 then v % TWO32 else v
  {
    var t, digits := IntegerText(v, false, base, prec, width, fl), DigitText(v, base, fl);
    var n, sign, z, q := IntegerShape(v, false, base, prec, width, fl);
    KeptDigits(v, base, fl);
    ZerosNumeral(z, digits, base);
    NoPrefixSeen(t, n, sign, Fill('0', z) + digits, q, base);
    SurroundedReads(t, n, sign, Fill('0', z) + digits, q, base);
  }

  /** Printing with `%u`, `%x`, `%X`, `%o` or `%b` without `#`, any other flags, width,
      precision and length, and reading in the same base gives the number back exactly when it
      fits the `long` that is read; `%b` keeps the low 32 bits of any number. */
  lemma UnsignedRoundTrip(d: Directive, bits: U64)
    requires IsInteger(d.conv) && !IsSigned(d.conv) && !d.flags.hash
    ensures var v := ArgValue(d, bits);
      var base := if d.conv in {'x', 'X'} then 16 else if d.conv == 'o' then 8 else if d.conv == 'b' then 2 else 10;
      ReadsAs(IntegerConversion(d, v), base, if d.conv == 'b' then v % TWO32 else v) <==> d.conv == 'b' || v < TWO63
  {
    var v, fl := ArgValue(d, bits), IntegerFlags(d);
    assert 0 <= v < TWO64 && !fl.hash;
    UnsignedReads(v, BaseOf(d.conv), d.precision, d.width, fl);
    ReadsAsIff(IntegerConversion(d, v), BaseOf(d.conv), if d.conv == 'b' then v % TWO32 else v);
  }

  /** `%p` without `#` is a numeral of the whole pointer in base 16; pointers to the higher half
      of the address space do not fit a `long`. */
  lemma PointerReads(d: Directive, bits: U64)
    requires !d.flags.hash
    ensures ReadsAs(PointerConversion(d, bits), 16, bits) <==> bits < TWO63
  {
    UnsignedReads(bits, 16, d.precision, POINTER_WIDTH, d.flags.(zero := true, upper := true));
    ReadsAsIff(PointerConversion(d, bits), 16, bits);
  }
}
