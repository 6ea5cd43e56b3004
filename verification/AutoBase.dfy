/** Base detection on printed integers: which decimal renderings it reads as what they are. */
module AutoBase {
  import opened Machine
  import opened Numerals
  import opened PrintfSpec
  import opened Kstrtol
  import opened RoundTrip
  import PrintfLaws

  // ---------------------------------------------------------------- texts that begin with zero

  /** Base detection reads a number with a leading zero as octal, as far as octal digits go. */
  lemma OctalNumberReads(t: string, n: nat, sign: string, num: string, j: nat, q: nat)
    requires Surrounded(t, n, sign, num, q) && IsSign(sign) && num != "" && num[0] == '0'
    requires (|num| >= 2 ==> !IsX(num[1])) && 1 <= j <= |num|
    requires IsNumeral(num[1..j], 8) && (j < |num| ==> !(0 <= DigitOf(num[j]) < 8))
    ensures ReadValue(t, 0) == Signing(sign, Value(num[1..j], 8))
  {
    NumberAt(t, n, sign, num, q);
    PartReads(t, n, sign, num, 1, j, q, 0, 8);
  }

  /** A numeral with a leading zero is octal to base detection. */
  lemma LeadingZeroReads(t: string, n: nat, sign: string, num: string, q: nat)
    requires Surrounded(t, n, sign, num, q) && IsSign(sign) && num != "" && num[0] == '0' && IsNumeral(num[1..], 8)
    ensures ReadValue(t, 0) == Signing(sign, Value(num[1..], 8))
  {
    assert num[1..|num|] == num[1..];
    assert |num| >= 2 ==> num[1] == num[1..][0];
    OctalNumberReads(t, n, sign, num, |num|, q);
  }

  /** Zeros are zero to base detection, however many there are. */
  lemma ZerosRead(t: string, n: nat, sign: string, m: nat, q: nat)
    requires Surrounded(t, n, sign, Fill('0', m), q) && IsSign(sign)
    ensures ReadValue(t, 0) == 0
  {
    if m > 0 {
      assert Fill('0', m)[1..] == Fill('0', m - 1);
      ValueFill(m - 1, 8);
      LeadingZeroReads(t, n, sign, Fill('0', m), q);
    } else {
      NothingReads(t, n, sign, q, 0, 10);
    }
  }

  lemma TailNumeral(a: string, b: string, base: int)
    requires IsNumeral(a + b, base)
    ensures IsNumeral(b, base)
  {
    forall i | 0 <= i < |b| ensures 0 <= DigitOf(b[i]) < base {
      assert b[i] == (a + b)[|a| + i];
    }
  }

  lemma ZerosSplit(z: nat, digits: string, r: nat)
    requires 1 <= z && r <= |digits|
    ensures (Fill('0', z) + digits)[1..z + r] == Fill('0', z - 1) + digits[..r]
  {
  }

  /** The run of octal digits behind the first zero covers the other zeros and `r` of the digits. */
  lemma OctalRun(num: string, z: nat, digits: string) returns (j: nat, r: nat)
    requires 1 <= z && num == Fill('0', z) + digits
    ensures j == z + r <= |num| && num[1..j] == Fill('0', z - 1) + digits[..r]
    ensures IsNumeral(digits[..r], 8) && IsNumeral(num[1..j], 8)
    ensures r < |digits| ==> num[j] == digits[r] && !(0 <= DigitOf(digits[r]) < 8)
  {
    j := DigitRun(num, 1, 8);
    RunCovers(num, 1, z, 8);
    r := j - z;
    ZerosSplit(z, digits, r);
    TailNumeral(Fill('0', z - 1), digits[..r], 8);
  }

  /** A run of digits reaches at least as far as there are zeros. */
  lemma {:induction false} RunCovers(t: string, i: nat, k: nat, base: int)
    requires i <= k <= |t| && 1 <= base && forall j :: i <= j < k ==> t[j] == '0'
    ensures k <= DigitRun(t, i, base)
    decreases k - i
  {
    if i < k {
      RunCovers(t, i + 1, k, base);
    }
  }

  /** Digits of a larger base, read as octal as far as that goes, denote the same only if
      there is a single octal digit. */
  lemma OctalPart(digits: string, r: nat, z: nat, run: string, base: nat)
    requires 1 <= z && r <= |digits| && run == Fill('0', z - 1) + digits[..r] && 8 < base
    requires IsNumeral(digits, base) && digits != "" && DigitOf(digits[0]) != 0
    requires IsNumeral(digits[..r], 8) && (r < |digits| ==> !(0 <= DigitOf(digits[r]) < 8))
    ensures 0 <= Value(run, 8) && (Value(run, 8) == Value(digits, base) <==> |digits| == 1 && DigitOf(digits[0]) < 8)
  {
    ZerosNumeral(z - 1, digits[..r], 8);
    SmallerBase(digits[..r], 8, base);
    if r < |digits| {
      TakeShrinks(digits, r, base);
      assert r > 0 ==> digits[..r][0] == digits[0];
    } else {
      assert digits[..r] == digits;
      if |digits| == 1 {
        DigitAlone(digits[0], base);
        DigitAlone(digits[0], 8);
        assert digits == [digits[0]];
      }
    }
  }

  lemma PaddedIsNoPrefix(z: nat, digits: string, base: nat)
    requires 1 <= z && base <= 16 && IsNumeral(digits, base)
    ensures var num := Fill('0', z) + digits; num[0] == '0' && (|num| >= 2 ==> !IsX(num[1]))
  {
    var num := Fill('0', z) + digits;
    assert |num| >= 2 ==> num[1] == if z >= 2 then '0' else digits[0];
  }

  /** Behind zeros, base detection takes the digits for octal, which is right only for a
      single octal digit. */
  lemma MistakenForOctal(t: string, n: nat, sign: string, z: nat, digits: string, q: nat, base: nat) returns (o: int)
    requires Surrounded(t, n, sign, Fill('0', z) + digits, q) && IsSign(sign) && 1 <= z && 8 < base <= 16
    requires IsNumeral(digits, base) && digits != "" && DigitOf(digits[0]) != 0
    ensures ReadValue(t, 0) == Signing(sign, o) && 0 <= o
    ensures o == Value(digits, base) <==> |digits| == 1 && DigitOf(digits[0]) < 8
  {
    var num := Fill('0', z) + digits;
    PaddedIsNoPrefix(z, digits, base);
    var j, r := OctalRun(num, z, digits);
    OctalNumberReads(t, n, sign, num, j, q);
    o := Value(num[1..j], 8);
    OctalPart(digits, r, z, num[1..j], base);
  }

  // ---------------------------------------------------------------- texts that do not

  /** A numeral that does not begin with zero is decimal to base detection. */
  lemma NonzeroReads(t: string, n: nat, sign: string, digits: string, q: nat)
    requires Surrounded(t, n, sign, digits, q) && IsSign(sign)
    requires IsNumeral(digits, 10) && digits != "" && DigitOf(digits[0]) != 0
    ensures ReadValue(t, 0) == Signing(sign, Value(digits, 10))
  {
    NumberAt(t, n, sign, digits, q);
    assert digits[0..|digits|] == digits;
    PartReads(t, n, sign, digits, 0, |digits|, q, 0, 10);
  }

  // ---------------------------------------------------------------- decimal conversions

  /** The number of zeros in front of the digits of a decimal conversion. */
  function ZerosInFront(d: Directive, v: int): nat {
    var n := if v == 0 && d.flags.precision then 0 else DigitCount(Magnitude(v), 10);
    var signed := v < 0 || d.flags.plus || d.flags.space;
    Max(0, if d.flags.left then 0
           else if d.flags.precision then Min(d.precision, BUFFER_SIZE) - n
           else if d.flags.zero then Min(if signed then d.width - 1 else d.width, BUFFER_SIZE) - n
           else 0)
  }

  lemma CountSmall(v: U64)
    ensures DigitCount(v, 10) <= 20 && |Digits(v, 10, BUFFER_SIZE, false)| == DigitCount(v, 10)
    ensures |Digits(v, 10, BUFFER_SIZE, true)| == DigitCount(v, 10)
  {
    DigitsCount(v, 10, BUFFER_SIZE, false);
    DigitsCount(v, 10, BUFFER_SIZE, true);
    DigitLoop(v, 10, false);
  }

  /** One digit below 8 is the whole of the numbers below 8. */
  lemma OctalDigit(v: U64, upper: bool)
    requires 0 < v
    ensures var s := Digits(v, 10, BUFFER_SIZE, upper); |s| == 1 && DigitOf(s[0]) < 8 <==> v < 8
  {
    var s := Digits(v, 10, BUFFER_SIZE, upper);
    DigitLoop(v, 10, upper);
    if |s| == 1 {
      DigitAlone(s[0], 10);
      assert s == [s[0]];
    }
    if v < 8 {
      SmallMod(v, 10);
    }
  }

  /** What base detection reads from a decimal field of a nonzero number with `z` zeros in
      front of its digits. */
  lemma DecimalReadsAuto(t: string, n: nat, sign: string, z: nat, m: U64, upper: bool, q: nat) returns (o: int)
    requires 0 < m && IsSign(sign)
    requires Surrounded(t, n, sign, Fill('0', z) + Digits(m, 10, BUFFER_SIZE, upper), q)
    ensures ReadValue(t, 0) == Signing(sign, o) && 0 <= o && (o == m <==> z == 0 || m < 8)
  {
    var digits := Digits(m, 10, BUFFER_SIZE, upper);
    DigitLoop(m, 10, upper);
    if z == 0 {
      assert Fill('0', 0) + digits == digits;
      NonzeroReads(t, n, sign, digits, q);
      o := m;
    } else {
      o := MistakenForOctal(t, n, sign, z, digits, q, 10);
      OctalDigit(m, upper);
    }
  }

  /** A text of zero, with whatever zeros and sign, is zero to base detection. */
  lemma ZeroReadsAuto(base: nat, negative: bool, prec: nat, width: nat, fl: Flags)
    requires base in {2, 8, 10, 16}
    ensures ReadValue(IntegerText(0, negative, base, prec, width, fl), 0) == 0
  {
    var n, sign, z, q := IntegerShape(0, negative, base, prec, width, fl);
    var m := if fl.precision then z else z + 1;
    SmallMod(0, base);
    FillPush('0', z);
    assert Fill('0', z) + "" == Fill('0', z);
    assert Fill('0', z) + DigitText(0, base, fl) == Fill('0', m);
    ZerosRead(IntegerText(0, negative, base, prec, width, fl), n, sign, m, q);
  }

  /** The zeros of a field are those the directive asks for. */
  lemma ZerosAre(d: Directive, v: int)
    requires -TWO63 < v < TWO63 && IsSigned(d.conv) && (d.flags.precision || d.precision == 0)
    ensures var fl := IntegerFlags(d);
      var digits := DigitText(Magnitude(v), 10, fl);
      |ZeroPadded(digits, d.precision, ZeroWidth(v < 0, d.width, fl), fl)| - |digits| == ZerosInFront(d, v)
  {
    var fl := IntegerFlags(d);
    var digits := DigitText(Magnitude(v), 10, fl);
    CountSmall(Magnitude(v));
    PrintfLaws.ZeroPaddedLength(digits, d.precision, ZeroWidth(v < 0, d.width, fl), fl);
  }

  /** Base detection reads a `%d` or `%i` rendering back exactly when there is no zero in front
      of the digits, or the number is a single octal digit, and the sign was not lost; zero is
      always read as zero. */
  lemma DecimalAutoRoundTrip(d: Directive, bits: U64)
    requires IsSigned(d.conv) && Negatable(d, ArgValue(d, bits)) && (d.flags.precision || d.precision == 0)
    ensures var v := ArgValue(d, bits);
      ReadsAs(IntegerConversion(d, v), 0, v) <==>
        v == 0 || ((ZerosInFront(d, v) == 0 || Magnitude(v) < 8) && (v > 0 || !SignLost(d)))
  {
    var v, fl := ArgValue(d, bits), IntegerFlags(d);
    var m := Magnitude(v);
    assert -TWO63 < v < TWO63 && BaseOf(d.conv) == 10 && !fl.hash;
    ReadsAsIff(IntegerConversion(d, v), 0, v);
    if v == 0 {
      ZeroReadsAuto(10, false, d.precision, d.width, fl);
    } else {
      SignedAuto(d, v, fl);
    }
  }

  lemma SignedAuto(d: Directive, v: int, fl: Flags)
    requires -TWO63 < v < TWO63 && v != 0 && IsSigned(d.conv) && (d.flags.precision || d.precision == 0)
    requires fl == IntegerFlags(d)
    ensures ReadValue(IntegerText(Magnitude(v), v < 0, 10, d.precision, d.width, fl), 0) == v <==>
      (ZerosInFront(d, v) == 0 || Magnitude(v) < 8) && (v > 0 || !SignLost(d))
  {
    var m := Magnitude(v);
    var t := IntegerText(m, v < 0, 10, d.precision, d.width, fl);
    var n, sign, z, q := IntegerShape(m, v < 0, 10, d.precision, d.width, fl);
    ZerosAre(d, v);
    CountSmall(m);
    var o := DecimalReadsAuto(t, n, sign, z, m, fl.upper, q);
    SignFitsIff(DigitText(m, 10, fl), d.precision, d.width, fl);
  }
}
