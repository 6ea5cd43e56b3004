/** The alternate form (`#`): which of its renderings `kstrtol` reads back. */
module HashRoundTrip {
  import opened Machine
  import opened Numerals
  import opened PrintfSpec
  import opened Kstrtol
  import opened RoundTrip
  import opened AutoBase
  import PrintfLaws

  // ---------------------------------------------------------------- the shape of a field

  /** Cutting `k` characters off zeros and digits keeps the value iff they were all zeros. */
  lemma KeptValue(z: nat, digits: string, k: nat, base: nat)
    requires 2 <= base && IsNumeral(digits, base) && digits != "" && DigitOf(digits[0]) != 0
    requires k <= z + |digits|
    ensures var kept := (Fill('0', z) + digits)[k..];
      IsNumeral(kept, base) && (Value(kept, base) == Value(digits, base) <==> k <= z)
  {
    var kept := (Fill('0', z) + digits)[k..];
    if k <= z {
      assert kept == Fill('0', z - k) + digits;
      ZerosNumeral(z - k, digits, base);
    } else {
      assert kept == digits[k - z..];
      DropShrinks(digits, k - z, base);
    }
  }

  function XChar(fl: Flags): char {
    if fl.upper then 'X' else 'x'
  }

  /** The prefix of the alternate form. */
  function Prefix(base: nat, fl: Flags): string {
    if base == 16 then ['0', XChar(fl)] else if base == 2 then "0b" else "0"
  }

  /** As much of the prefix as the buffer has room for, in front of what is kept. */
  function Affixed(base: nat, fl: Flags, kept: string): string
    requires |kept| <= BUFFER_SIZE
  {
    var p := Prefix(base, fl);
    p[|p| - Min(|p|, BUFFER_SIZE - |kept|)..] + kept
  }

  lemma HashedForm(padded: string, base: nat, prec: nat, w: nat, fl: Flags)
    requires base in {2, 8, 16} && |padded| <= BUFFER_SIZE
    ensures var kept := padded[HashDrop(|padded|, base, prec, w, fl)..];
      Hashed(padded, base, prec, w, fl) == Affixed(base, fl, kept)
  {
    var kept := padded[HashDrop(|padded|, base, prec, w, fl)..];
    AffixedCases(base, fl, kept);
  }

  /** The three cases: the whole prefix, its last character, nothing. */
  lemma AffixedCases(base: nat, fl: Flags, kept: string)
    requires base in {2, 8, 16} && |kept| <= BUFFER_SIZE
    ensures var p := Prefix(base, fl);
      var room := BUFFER_SIZE - |kept|;
      Affixed(base, fl, kept) == if room >= |p| then p + kept else if room == 1 then [p[1]] + kept else kept
  {
    var p := Prefix(base, fl);
    assert p[0..] == p;
    assert |p| == 2 ==> p[1..] == [p[1]];
    assert p[|p|..] + kept == kept;
  }

  /** The characters an alternate-form field keeps of its padded digits. */
  function KeptLength(n: nat, base: nat, prec: nat, width: nat, fl: Flags): nat {
    var len := PrintfLaws.ZeroedLength(n, prec, ZeroWidth(false, width, fl), fl);
    len - HashDrop(len, base, prec, ZeroWidth(false, width, fl), fl)
  }

  lemma HashBody(digits: string, base: nat, prec: nat, w: nat, fl: Flags)
    requires fl.hash
    ensures var h := Hashed(ZeroPadded(digits, prec, w, fl), base, prec, w, fl);
      Body(digits, false, base, prec, w, fl) == (if |h| < BUFFER_SIZE then Sign(false, fl) else "") + h
  {
  }

  /** The padded digits and what `#` makes of them. */
  lemma HashedIs(digits: string, base: nat, prec: nat, width: nat, fl: Flags) returns (z: nat, k: nat, kept: string)
    requires base in {2, 8, 16} && 0 < |digits| <= BUFFER_SIZE
    ensures k <= z + |digits| <= BUFFER_SIZE && kept == (Fill('0', z) + digits)[k..]
    ensures |kept| == KeptLength(|digits|, base, prec, width, fl)
    ensures var w := ZeroWidth(false, width, fl);
      Hashed(ZeroPadded(digits, prec, w, fl), base, prec, w, fl) == Affixed(base, fl, kept)
  {
    var w := ZeroWidth(false, width, fl);
    var padded := ZeroPadded(digits, prec, w, fl);
    ZeroPaddedIs(digits, prec, w, fl);
    PrintfLaws.ZeroPaddedLength(digits, prec, w, fl);
    z, k := |padded| - |digits|, HashDrop(|padded|, base, prec, w, fl);
    kept := padded[k..];
    HashedForm(padded, base, prec, w, fl);
  }

  lemma HashedField(digits: string, base: nat, prec: nat, width: nat, fl: Flags, h: string)
    returns (n: nat, sign: string, q: nat)
    requires var w := ZeroWidth(false, width, fl);
      fl.hash && h == Hashed(ZeroPadded(digits, prec, w, fl), base, prec, w, fl)
    ensures sign == "" || sign == "+"
    ensures Surrounded(FieldText(digits, false, base, prec, width, fl), n, sign, h, q)
  {
    var w := ZeroWidth(false, width, fl);
    sign := if |h| < BUFFER_SIZE then Sign(false, fl) else "";
    HashBody(digits, base, prec, w, fl);
    n, q := JustifyIs(sign + h, w, fl);
    SurroundedIs(n, sign, h, q);
    if sign == " " {
      BlankMark(FieldText(digits, false, base, prec, width, fl), n, h, q);
      n, sign := n + 1, "";
    }
  }

  /** An alternate-form field is blanks, perhaps a sign, and the prefix with what is kept. */
  lemma HashShape(digits: string, base: nat, prec: nat, width: nat, fl: Flags)
    returns (n: nat, sign: string, z: nat, k: nat, kept: string, q: nat)
    requires base in {2, 8, 16} && 0 < |digits| <= BUFFER_SIZE && fl.hash
    ensures k <= z + |digits| <= BUFFER_SIZE && kept == (Fill('0', z) + digits)[k..]
    ensures |kept| == KeptLength(|digits|, base, prec, width, fl)
    ensures sign == "" || sign == "+"
    ensures Surrounded(FieldText(digits, false, base, prec, width, fl), n, sign, Affixed(base, fl, kept), q)
  {
    z, k, kept := HashedIs(digits, base, prec, width, fl);
    n, sign, q := HashedField(digits, base, prec, width, fl, Affixed(base, fl, kept));
  }

  // ---------------------------------------------------------------- base 16

  /** With the `0x` prefix, base 16 and base 0 both read the digits behind it. */
  lemma PrefixReads(t: string, n: nat, sign: string, num: string, q: nat, base: int)
    requires Surrounded(t, n, sign, num, q) && IsSign(sign) && |num| >= 2 && num[0] == '0' && IsX(num[1])
    requires IsNumeral(num[2..], 16) && (base == 0 || base == 16)
    ensures ReadValue(t, base) == Signing(sign, Value(num[2..], 16))
  {
    NumberAt(t, n, sign, num, q);
    assert num[2..|num|] == num[2..];
    PartReads(t, n, sign, num, 2, |num|, q, base, 16);
  }

  /** A lone prefix letter is no digit, so nothing is read. */
  lemma LetterReads(t: string, n: nat, sign: string, num: string, q: nat, base: int)
    requires Surrounded(t, n, sign, num, q) && IsSign(sign) && num != ""
    requires (IsX(num[0]) && (base == 0 || base == 16)) || (num[0] == 'b' && base == 2)
    ensures ReadValue(t, base) == 0
  {
    NumberAt(t, n, sign, num, q);
    assert num[0..0] == "";
    PartReads(t, n, sign, num, 0, 0, q, base, if base == 0 then 10 else base);
  }

  lemma WholePrefix(t: string, n: nat, sign: string, fl: Flags, kept: string, q: nat)
    requires |kept| <= BUFFER_SIZE && Surrounded(t, n, sign, Affixed(16, fl, kept), q) && (sign == "" || sign == "+")
    requires IsNumeral(kept, 16) && |kept| <= BUFFER_SIZE - 2
    ensures ReadValue(t, 16) == ReadValue(t, 0) == Value(kept, 16)
  {
    AffixedCases(16, fl, kept);
    var num := ['0', XChar(fl)] + kept;
    assert num[2..] == kept;
    PrefixReads(t, n, sign, num, q, 16);
    PrefixReads(t, n, sign, num, q, 0);
  }

  lemma LonePrefix(t: string, n: nat, sign: string, fl: Flags, kept: string, q: nat)
    requires |kept| == BUFFER_SIZE - 1
    requires Surrounded(t, n, sign, Affixed(16, fl, kept), q) && (sign == "" || sign == "+")
    ensures ReadValue(t, 16) == ReadValue(t, 0) == 0
  {
    AffixedCases(16, fl, kept);
    LetterReads(t, n, sign, [XChar(fl)] + kept, q, 16);
    LetterReads(t, n, sign, [XChar(fl)] + kept, q, 0);
  }

  /** What is read from the `kept` characters of `z` zeros and the digits. */
  lemma HexCases(t: string, n: nat, sign: string, z: nat, k: nat, kept: string, q: nat, v: U64, fl: Flags)
    requires 0 < v && (sign == "" || sign == "+")
    requires var digits := Digits(v, 16, BUFFER_SIZE, fl.upper);
      k <= z + |digits| <= BUFFER_SIZE && kept == (Fill('0', z) + digits)[k..]
    requires Surrounded(t, n, sign, Affixed(16, fl, kept), q)
    ensures ReadValue(t, 16) == v <==> k <= z && |kept| != BUFFER_SIZE - 1
    ensures ReadValue(t, 0) == v <==> k <= z && |kept| != BUFFER_SIZE - 1 && (|kept| == BUFFER_SIZE ==> v < 8)
  {
    var digits := Digits(v, 16, BUFFER_SIZE, fl.upper);
    DigitLoop(v, 16, fl.upper);
    KeptValue(z, digits, k, 16);
    if |kept| <= BUFFER_SIZE - 2 {
      WholePrefix(t, n, sign, fl, kept, q);
    } else if |kept| == BUFFER_SIZE - 1 {
      LonePrefix(t, n, sign, fl, kept, q);
    } else {
      AffixedCases(16, fl, kept);
      assert kept == Fill('0', z) + digits;
      FullReads(t, n, sign, z, v, fl.upper, q);
    }
  }

  /** What base 16 and base detection read from an alternate-form hexadecimal field. */
  lemma HexReads(v: U64, prec: nat, width: nat, fl: Flags)
    requires 0 < v && fl.hash
    ensures var t := IntegerText(v, false, 16, prec, width, fl);
      var n := DigitCount(v, 16);
      var kept := KeptLength(n, 16, prec, width, fl);
      && (ReadValue(t, 16) == v <==> n <= kept != BUFFER_SIZE - 1)
      && (ReadValue(t, 0) == v <==> n <= kept != BUFFER_SIZE - 1 && (kept == BUFFER_SIZE ==> v < 8))
  {
    DigitLoop(v, 16, fl.upper);
    DigitsCount(v, 16, BUFFER_SIZE, fl.upper);
    var n, sign, z, k, kept, q := HashShape(Digits(v, 16, BUFFER_SIZE, fl.upper), 16, prec, width, fl);
    HexCases(IntegerText(v, false, 16, prec, width, fl), n, sign, z, k, kept, q, v, fl);
  }

  /** Without room for a prefix, base 16 reads the digits and base detection octal ones. */
  lemma FullReads(t: string, n: nat, sign: string, z: nat, v: U64, upper: bool, q: nat)
    requires 0 < v && 1 <= z && (sign == "" || sign == "+")
    requires Surrounded(t, n, sign, Fill('0', z) + Digits(v, 16, BUFFER_SIZE, upper), q)
    ensures ReadValue(t, 16) == v && (ReadValue(t, 0) == v <==> v < 8)
  {
    var digits := Digits(v, 16, BUFFER_SIZE, upper);
    DigitLoop(v, 16, upper);
    ZerosNumeral(z, digits, 16);
    NoPrefixSeen(t, n, sign, Fill('0', z) + digits, q, 16);
    SurroundedReads(t, n, sign, Fill('0', z) + digits, q, 16);
    var o := MistakenForOctal(t, n, sign, z, digits, q, 16);
    SingleDigit(v, upper);
  }

  lemma SingleDigit(v: U64, upper: bool)
    ensures var s := Digits(v, 16, BUFFER_SIZE, upper);
      (|s| == 1 <==> v < 16) && (v < 16 ==> DigitOf(s[0]) == v)
  {
    if v < 16 {
      SmallMod(v, 16);
    }
  }

  // ---------------------------------------------------------------- bases 8 and 2

  lemma LeadingZero(z: nat, digits: string)
    requires 1 <= z && IsNumeral(digits, 8)
    ensures var num := Fill('0', z) + digits;
      num[0] == '0' && IsNumeral(num[1..], 8) && Value(num[1..], 8) == Value(digits, 8)
  {
    ZerosNumeral(z - 1, digits, 8);
    assert (Fill('0', z) + digits)[1..] == Fill('0', z - 1) + digits;
  }

  /** An octal field is a zero and a numeral, of the whole value unless a digit is lost. */
  lemma OctalShape(digits: string, prec: nat, width: nat, fl: Flags) returns (n: nat, sign: string, num: string, q: nat)
    requires 0 < |digits| <= 22 && IsNumeral(digits, 8) && DigitOf(digits[0]) != 0 && fl.hash
    ensures Surrounded(FieldText(digits, false, 8, prec, width, fl), n, sign, num, q)
    ensures (sign == "" || sign == "+") && num != "" && num[0] == '0' && IsNumeral(num[1..], 8)
    ensures Value(num[1..], 8) == Value(digits, 8) <==> |digits| <= KeptLength(|digits|, 8, prec, width, fl)
  {
    var z, k, kept;
    n, sign, z, k, kept, q := HashShape(digits, 8, prec, width, fl);
    AffixedCases(8, fl, kept);
    KeptValue(z, digits, k, 8);
    num := Affixed(8, fl, kept);
    if |kept| == BUFFER_SIZE {
      assert kept == Fill('0', z) + digits;
      LeadingZero(z, digits);
    } else {
      assert num == ['0'] + kept && num[1..] == kept;
    }
  }

  /** Base 8 and base detection read an octal field of a nonzero number alike. */
  lemma OctalReads(v: U64, prec: nat, width: nat, fl: Flags)
    requires 0 < v && fl.hash
    ensures var t := IntegerText(v, false, 8, prec, width, fl);
      && (ReadValue(t, 8) == v <==> DigitCount(v, 8) <= KeptLength(DigitCount(v, 8), 8, prec, width, fl))
      && ReadValue(t, 0) == ReadValue(t, 8)
  {
    var digits := Digits(v, 8, BUFFER_SIZE, fl.upper);
    DigitLoop(v, 8, fl.upper);
    DigitsCount(v, 8, BUFFER_SIZE, fl.upper);
    var n, sign, num, q := OctalShape(digits, prec, width, fl);
    ZeroThenReads(IntegerText(v, false, 8, prec, width, fl), n, sign, num, q);
  }

  lemma ZeroThenReads(t: string, n: nat, sign: string, num: string, q: nat)
    requires Surrounded(t, n, sign, num, q) && IsSign(sign) && num != "" && num[0] == '0' && IsNumeral(num[1..], 8)
    ensures ReadValue(t, 8) == ReadValue(t, 0) == Signing(sign, Value(num[1..], 8))
  {
    LeadingZeroReads(t, n, sign, num, q);
    assert num == Fill('0', 1) + num[1..];
    ZerosNumeral(1, num[1..], 8);
    SurroundedReads(t, n, sign, num, q, 8);
  }

  /** Base 2 stops at the `b` of the prefix. */
  lemma BinaryPrefixReads(t: string, n: nat, sign: string, num: string, q: nat)
    requires Surrounded(t, n, sign, num, q) && IsSign(sign) && |num| >= 2 && num[0] == '0' && num[1] == 'b'
    ensures ReadValue(t, 2) == 0
  {
    NumberAt(t, n, sign, num, q);
    assert num[0..1] == ['0'];
    DigitAlone('0', 2);
    PartReads(t, n, sign, num, 0, 1, q, 2, 2);
  }

  /** What base 2 reads from the `kept` characters behind their prefix. */
  lemma BinaryCases(t: string, n: nat, sign: string, kept: string, q: nat, fl: Flags)
    requires |kept| <= BUFFER_SIZE && (sign == "" || sign == "+") && IsNumeral(kept, 2)
    requires Surrounded(t, n, sign, Affixed(2, fl, kept), q)
    ensures ReadValue(t, 2) == if |kept| == BUFFER_SIZE then Value(kept, 2) else 0
  {
    AffixedCases(2, fl, kept);
    if |kept| <= BUFFER_SIZE - 2 {
      BinaryPrefixReads(t, n, sign, "0b" + kept, q);
    } else if |kept| == BUFFER_SIZE - 1 {
      LetterReads(t, n, sign, ['b'] + kept, q, 2);
    } else {
      NumberAt(t, n, sign, kept, q);
      SurroundedReads(t, n, sign, kept, q, 2);
    }
  }

  lemma KeptNumeral(z: nat, digits: string, k: nat, base: nat)
    requires 1 <= base && IsNumeral(digits, base) && k <= z + |digits|
    ensures IsNumeral((Fill('0', z) + digits)[k..], base)
    ensures k == 0 ==> Value((Fill('0', z) + digits)[k..], base) == Value(digits, base)
  {
    ZerosNumeral(z, digits, base);
    assert (Fill('0', z) + digits)[0..] == Fill('0', z) + digits;
  }

  /** What base 2 reads from a binary field: nothing but zero behind a prefix, and the low 32
      bits when the digits leave no room for one. */
  lemma BinaryReads(v: U64, prec: nat, width: nat, fl: Flags)
    requires 0 < v && fl.hash
    ensures ReadValue(IntegerText(v, false, 2, prec, width, fl), 2) ==
      if KeptLength(Min(BUFFER_SIZE, DigitCount(v, 2)), 2, prec, width, fl) == BUFFER_SIZE then v % TWO32 else 0
  {
    var digits := Digits(v, 2, BUFFER_SIZE, fl.upper);
    DigitsCount(v, 2, BUFFER_SIZE, fl.upper);
    BinaryLoop(v, fl.upper);
    DigitsValue(v, 2, BUFFER_SIZE, fl.upper);
    var n, sign, z, k, kept, q := HashShape(digits, 2, prec, width, fl);
    KeptNumeral(z, digits, k, 2);
    BinaryCases(IntegerText(v, false, 2, prec, width, fl), n, sign, kept, q, fl);
  }

  // ---------------------------------------------------------------- over directives

  /** `#` takes digits away: the width equals the number of digits, or with zero padding in
      base 16 exceeds it by one. A precision prevents that. */
  predicate DigitsLost(d: Directive, n: nat) {
    && !d.flags.precision
    && (d.width == n || (BaseOf(d.conv) == 16 && d.flags.zero && !d.flags.left && d.width == n + 1))
  }

  /** A precision of 31 leaves room for the letter of the prefix only. */
  predicate HalfPrefix(d: Directive) {
    d.flags.precision && !d.flags.left && d.precision == BUFFER_SIZE - 1
  }

  /** Zeros fill the whole buffer, so that no prefix fits. */
  predicate NoPrefix(d: Directive) {
    !d.flags.left && if d.flags.precision then d.precision >= BUFFER_SIZE else d.flags.zero && d.width > BUFFER_SIZE
  }

  predicate IsHashed(d: Directive) {
    d.flags.hash && (d.flags.precision || d.precision == 0)
  }

  /** `%#x` and `%#X` of any value, with any other flags, width, precision and length: base 16
      reads a value below 2^63 back unless digits are lost or half the prefix is; base
      detection also needs the prefix, or a value below 8. */
  lemma HexRoundTrip(d: Directive, bits: U64)
    requires (d.conv == 'x' || d.conv == 'X') && IsHashed(d)
    ensures var v := ArgValue(d, bits);
      var t := IntegerConversion(d, v);
      var right := !DigitsLost(d, DigitCount(v, 16)) && !HalfPrefix(d);
      && (ReadsAs(t, 16, v) <==> v == 0 || (v < TWO63 && right))
      && (ReadsAs(t, 0, v) <==> v == 0 || (v < TWO63 && right && (NoPrefix(d) ==> v < 8)))
  {
    var v, fl := ArgValue(d, bits), IntegerFlags(d);
    assert 0 <= v < TWO64;
    ReadsAsIff(IntegerConversion(d, v), 16, v);
    ReadsAsIff(IntegerConversion(d, v), 0, v);
    if v == 0 {
      UnsignedReads(v, 16, d.precision, d.width, fl);
      ZeroReadsAuto(16, false, d.precision, d.width, fl);
    } else {
      HexReads(v, d.precision, d.width, fl);
      CountAtMost(v, 16);
      HexKept(d, fl, DigitCount(v, 16));
    }
  }

  lemma CountAtMost(v: U64, base: nat)
    requires base in {8, 10, 16}
    ensures DigitCount(v, base) <= MaxDigits(base)
  {
    DigitLoop(v, base, false);
    DigitsCount(v, base, BUFFER_SIZE, false);
  }

  lemma HexKept(d: Directive, fl: Flags, n: nat)
    requires (d.conv == 'x' || d.conv == 'X') && IsHashed(d) && fl == IntegerFlags(d) && 0 < n <= 16
    ensures var kept := KeptLength(n, 16, d.precision, d.width, fl);
      && (n <= kept <==> !DigitsLost(d, n)) && (kept == BUFFER_SIZE - 1 <==> HalfPrefix(d))
      && (kept == BUFFER_SIZE <==> NoPrefix(d))
  {
  }

  /** `%#o` of a value below 2^63 reads back, in base 8 and with base detection, unless a digit
      is lost. */
  lemma OctalRoundTrip(d: Directive, bits: U64)
    requires d.conv == 'o' && IsHashed(d)
    ensures var v := ArgValue(d, bits);
      var t := IntegerConversion(d, v);
      && (ReadsAs(t, 8, v) <==> v == 0 || (v < TWO63 && !DigitsLost(d, DigitCount(v, 8))))
      && (ReadsAs(t, 0, v) <==> ReadsAs(t, 8, v))
  {
    var v, fl := ArgValue(d, bits), IntegerFlags(d);
    assert 0 <= v < TWO64;
    ReadsAsIff(IntegerConversion(d, v), 8, v);
    ReadsAsIff(IntegerConversion(d, v), 0, v);
    if v == 0 {
      UnsignedReads(v, 8, d.precision, d.width, fl);
      ZeroReadsAuto(8, false, d.precision, d.width, fl);
    } else {
      OctalReads(v, d.precision, d.width, fl);
      CountAtMost(v, 8);
      OctalKept(d, fl, DigitCount(v, 8));
    }
  }

  lemma OctalKept(d: Directive, fl: Flags, n: nat)
    requires d.conv == 'o' && IsHashed(d) && fl == IntegerFlags(d) && 0 < n <= 22
    ensures n <= KeptLength(n, 8, d.precision, d.width, fl) <==> !DigitsLost(d, n)
  {
  }

  /** The digits of a binary field fill the buffer, and `#` takes none of them away. */
  predicate BinaryFull(d: Directive, v: nat) {
    && (v >= TWO31 || (!d.flags.left && if d.flags.precision then d.precision >= BUFFER_SIZE
                                        else d.flags.zero && d.width >= BUFFER_SIZE))
    && (d.flags.precision || d.width != BUFFER_SIZE)
  }

  lemma LowHalf(v: nat)
    ensures v % TWO32 == v <==> v < TWO32
  {
  }

  /** `%#b` reads back in base 2 only when there is no room for its prefix: base 2 stops at
      the `b`. */
  lemma BinaryRoundTrip(d: Directive, bits: U64)
    requires d.conv == 'b' && IsHashed(d)
    ensures var v := ArgValue(d, bits);
      ReadsAs(IntegerConversion(d, v), 2, v) <==> v == 0 || (BinaryFull(d, v) && v < TWO32)
  {
    var v, fl := ArgValue(d, bits), IntegerFlags(d);
    assert 0 <= v < TWO64;
    ReadsAsIff(IntegerConversion(d, v), 2, v);
    if v == 0 {
      UnsignedReads(v, 2, d.precision, d.width, fl);
    } else {
      BinaryValue(d, v, fl);
      LowHalf(v);
    }
  }

  lemma BinaryValue(d: Directive, v: U64, fl: Flags)
    requires d.conv == 'b' && IsHashed(d) && fl == IntegerFlags(d) && 0 < v
    ensures ReadValue(IntegerText(v, false, 2, d.precision, d.width, fl), 2) ==
      if BinaryFull(d, v) then v % TWO32 else 0
  {
    BinaryReads(v, d.precision, d.width, fl);
    BinaryCount(v);
    BinaryKept(d, fl, Min(BUFFER_SIZE, DigitCount(v, 2)), v);
  }

  lemma BinaryCount(v: U64)
    requires 0 < v
    ensures DigitCount(v, 2) >= BUFFER_SIZE <==> v >= TWO31
  {
    PowersOf2();
    assert Pow(2, 32) == 2 * Pow(2, 31);
    DigitCountIs(v, 2);
    var n := DigitCount(v, 2);
    if n >= BUFFER_SIZE {
      PowMonotone(2, BUFFER_SIZE - 1, n - 1);
    } else {
      PowMonotone(2, n, BUFFER_SIZE - 1);
    }
  }

  lemma BinaryKept(d: Directive, fl: Flags, n: nat, v: nat)
    requires d.conv == 'b' && IsHashed(d) && fl == IntegerFlags(d) && 0 < n <= BUFFER_SIZE
    requires n == BUFFER_SIZE <==> v >= TWO31
    ensures KeptLength(n, 2, d.precision, d.width, fl) == BUFFER_SIZE <==> BinaryFull(d, v)
  {
  }

  // ---------------------------------------------------------------- pointers

  /** The fixed width of 16 makes `#` take digits away from long pointers. */
  predicate PointerLost(d: Directive, n: nat) {
    && !d.flags.precision
    && if d.flags.left then n == POINTER_WIDTH
       else if d.flags.plus || d.flags.space then n == 14 || n == 15
       else n >= 15
  }

  /** `%#p`: base 16 reads a pointer below 2^63 back unless digits or half the prefix are lost;
      base detection also needs the prefix, or a pointer below 8. */
  lemma PointerRoundTrip(d: Directive, bits: U64)
    requires IsHashed(d)
    ensures var t := PointerConversion(d, bits);
      var right := !PointerLost(d, DigitCount(bits, 16)) && !HalfPrefix(d);
      var full := d.flags.precision && !d.flags.left && d.precision >= BUFFER_SIZE;
      && (ReadsAs(t, 16, bits) <==> bits == 0 || (bits < TWO63 && right))
      && (ReadsAs(t, 0, bits) <==> bits == 0 || (bits < TWO63 && right && (full ==> bits < 8)))
  {
    var fl := d.flags.(zero := true, upper := true);
    ReadsAsIff(PointerConversion(d, bits), 16, bits);
    ReadsAsIff(PointerConversion(d, bits), 0, bits);
    if bits == 0 {
      UnsignedReads(bits, 16, d.precision, POINTER_WIDTH, fl);
      ZeroReadsAuto(16, false, d.precision, POINTER_WIDTH, fl);
    } else {
      HexReads(bits, d.precision, POINTER_WIDTH, fl);
      CountAtMost(bits, 16);
      PointerKept(d, fl, DigitCount(bits, 16));
    }
  }

  lemma PointerKept(d: Directive, fl: Flags, n: nat)
    requires IsHashed(d) && fl == d.flags.(zero := true, upper := true) && 0 < n <= 16
    ensures var kept := KeptLength(n, 16, d.precision, POINTER_WIDTH, fl);
      && (n <= kept <==> !PointerLost(d, n)) && (kept == BUFFER_SIZE - 1 <==> HalfPrefix(d))
      && (kept == BUFFER_SIZE <==> d.flags.precision && !d.flags.left && d.precision >= BUFFER_SIZE)
  {
  }
}
