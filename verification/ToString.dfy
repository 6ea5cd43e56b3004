/** The integer-to-string helpers of the C string library, which write into static buffers. */
module ToString {
  import opened Machine
  import opened Numerals
  import opened PrintfSpec
  import opened Kstrtol
  import opened RoundTrip
  import AutoBase
  import CStrings
  import PrintfLaws

  const BUFFER: nat := 128

  /** The decimal numeral of a 64-bit value, as `%lu` prints it. */
  function Decimal(v: U64): string {
    Digits(v, 10, BUFFER_SIZE, false)
  }

  function SignedDecimal(v: int): string
    requires -TWO63 < v < TWO63
  {
    if v < 0 then "-" + Decimal(-v) else Decimal(v)
  }

  lemma MoreDigits(v: nat, cap: nat)
    requires 1 < cap
    ensures v / 10 > 0 ==> Digits(v, 10, cap, false) == Digits(v / 10, 10, cap - 1, false) + [DigitChar(v % 10, false)]
    ensures v / 10 == 0 ==> Digits(v, 10, cap, false) == [DigitChar(v % 10, false)]
  {
    if v < 10 {
      SmallMod(v, 10);
    }
  }

  /** The first loop: one less than the number of digits. */
  method CountDigits(value: U64) returns (size: nat)
    ensures size + 1 == |Decimal(value)| <= 20
  {
    DigitLoop(value, 10, false);
    size := 0;
    var v: nat, cap: nat := value, BUFFER_SIZE;
    MoreDigits(v, cap);
    while v / 10 > 0
      invariant size < 20 && cap == BUFFER_SIZE - size
      invariant |Decimal(value)| == size + |Digits(v, 10, cap, false)|
    {
      MoreDigits(v, cap);
      v := v / 10;
      size, cap := size + 1, cap - 1;
    }
    MoreDigits(v, cap);
  }

  /** The last `index` digits of `s` stand in the buffer; `v` holds the others. */
  ghost predicate Placed(buf: array<char>, offset: nat, s: string, v: nat, index: nat)
    reads buf
  {
    && buf.Length == BUFFER && offset <= 1 && index < |s| <= 20
    && s == Digits(v, 10, BUFFER_SIZE - index, false) + s[|s| - index..]
    && forall i {:trigger s[i]} :: |s| - index <= i < |s| ==> buf[offset + i] == s[i]
  }

  /** Where the next digit goes and what it is. */
  lemma NextPlace(s: string, v: nat, index: nat)
    requires index < |s| <= 20 && s == Digits(v, 10, BUFFER_SIZE - index, false) + s[|s| - index..]
    ensures s[|s| - 1 - index] == DigitChar(v % 10, false)
    ensures if v / 10 > 0 then index + 1 < |s| &&
              s == Digits(v / 10, 10, BUFFER_SIZE - index - 1, false) + s[|s| - index - 1..]
            else index + 1 == |s|
  {
    MoreDigits(v, BUFFER_SIZE - index);
    var front := if v / 10 > 0 then Digits(v / 10, 10, BUFFER_SIZE - index - 1, false) else [];
    assert [] + [DigitChar(v % 10, false)] == [DigitChar(v % 10, false)];
    LastCut(s, front, DigitChar(v % 10, false), index);
  }

  /** What stands in front of the digits is as it was. */
  ghost predicate Kept(buf: array<char>, was: string, offset: nat)
    reads buf
  {
    offset <= buf.Length == |was| && forall i :: 0 <= i < offset ==> buf[i] == was[i]
  }

  /** `buffer[size - index] = remainder + '0'`: one more digit stands where it belongs. */
  method PutDigit(buf: array<char>, offset: nat, v: nat, index: nat, size: nat, ghost s: string, ghost was: string)
    requires Placed(buf, offset, s, v, index) && Kept(buf, was, offset) && size + 1 == |s|
    modifies buf
    ensures Kept(buf, was, offset)
    ensures if v / 10 > 0 then Placed(buf, offset, s, v / 10, index + 1) else Written(buf, offset, s)
  {
    NextPlace(s, v, index);
    buf[offset + size - index] := DigitChar(v % 10, false);
  }

  /** The whole text stands in the buffer. */
  ghost predicate Written(buf: array<char>, offset: nat, s: string)
    reads buf
  {
    offset + |s| < buf.Length && forall i {:trigger s[i]} :: 0 <= i < |s| ==> buf[offset + i] == s[i]
  }

  method Terminate(buf: array<char>, offset: nat, size: nat, ghost s: string, ghost was: string)
    requires Written(buf, offset, s) && Kept(buf, was, offset) && size + 1 == |s|
    modifies buf
    ensures buf[offset..offset + |s|] == s && buf[offset + |s|] == '\0' && Kept(buf, was, offset)
  {
    buf[offset + size + 1] := '\0';
    assert Written(buf, offset, s);
  }

  /** No digit has been written yet. */
  lemma NonePlaced(buf: array<char>, offset: nat, value: U64, s: string)
    requires buf.Length == BUFFER && offset <= 1 && s == Decimal(value) && |s| <= 20
    ensures Placed(buf, offset, s, value, 0) && Kept(buf, buf[..], offset)
  {
    assert s + s[|s|..] == s;
  }

  /** The second loop: digits from the last position down, then the terminator. */
  method WriteDigits(buf: array<char>, offset: nat, value: U64)
    requires buf.Length == BUFFER && offset <= 1
    modifies buf
    ensures var s := Decimal(value);
      |s| <= 20 && buf[offset..offset + |s|] == s && buf[offset + |s|] == '\0'
    ensures Kept(buf, old(buf[..]), offset)
  {
    var size := CountDigits(value);
    var v: nat, index: nat := value, 0;
    ghost var s, was := Decimal(value), buf[..];
    NonePlaced(buf, offset, value, s);
    while v / 10 > 0
      invariant size + 1 == |s| && Placed(buf, offset, s, v, index) && Kept(buf, was, offset)
      decreases v
    {
      PutDigit(buf, offset, v, index, size, s, was);
      v := v / 10;
      index := index + 1;
    }
    PutDigit(buf, offset, v, index, size, s, was);
    Terminate(buf, offset, size, s, was);
  }

  lemma LastCut(s: string, front: string, c: char, index: nat)
    requires index < |s| && s == (front + [c]) + s[|s| - index..]
    ensures s == front + s[|s| - index - 1..] && s[|s| - index - 1] == c && |front| == |s| - index - 1
  {
    assert |front| + 1 + index == |s|;
    assert s[|s| - index - 1] == ((front + [c]) + s[|s| - index..])[|front|];
    assert s[..|front|] == front;
    assert s == s[..|front|] + s[|front|..];
  }

  lemma DecimalClean(v: U64)
    ensures '\0' !in Decimal(v) && IsNumeral(Decimal(v), 10) && Value(Decimal(v), 10) == v
    ensures Decimal(v)[0] == '0' <==> v == 0
  {
    DigitLoop(v, 10, false);
    NumeralClean(Decimal(v), 10);
  }

  /** `toString(uint64_t)`: the buffer holds the numeral as a C string. */
  method FromUnsigned(buf: array<char>, value: U64)
    requires buf.Length == BUFFER
    modifies buf
    ensures CStrings.StringAt(buf[..], 0) == Decimal(value)
    ensures var t := CStrings.StringAt(buf[..], 0);
      t != "" && IsNumeral(t, 10) && Value(t, 10) == value && (t[0] == '0' <==> value == 0)
  {
    WriteDigits(buf, 0, value);
    DecimalClean(value);
    CStrings.StringAtIs(buf[..], 0, Decimal(value));
  }

  /** A buffer that holds an optional sign, the digits and a terminator. */
  lemma SignedString(memory: string, value: int)
    requires -TWO63 < value < TWO63
    requires var s := Decimal(Magnitude(value));
      var offset := if value < 0 then 1 else 0;
      '\0' !in s && offset + |s| < |memory| && memory[offset..offset + |s|] == s && memory[offset + |s|] == '\0'
    requires value < 0 ==> memory[0] == '-'
    ensures CStrings.StringAt(memory, 0) == SignedDecimal(value)
  {
    var s := Decimal(Magnitude(value));
    CStrings.StringAtIs(memory, if value < 0 then 1 else 0, s);
  }

  /** `toString(int64_t)`; negating the most negative value would overflow. */
  method FromSigned(buf: array<char>, value: int)
    requires buf.Length == BUFFER && -TWO63 < value < TWO63
    modifies buf
    ensures CStrings.StringAt(buf[..], 0) == SignedDecimal(value)
  {
    var negative, v := 0, value;
    if v < 0 {
      negative := 1;
      v := v * -1;
      buf[0] := '-';
    }
    WriteDigits(buf, negative, v);
    DecimalClean(v);
    SignedString(buf[..], value);
  }

  /** The parser reads the result back, in base 10 and with base detection. */
  lemma FromSignedReads(v: int)
    requires -TWO63 < v < TWO63
    ensures ReadsAs(SignedDecimal(v), 10, v) && ReadsAs(SignedDecimal(v), 0, v)
  {
    DecimalDenotes(v);
    ReadsAsIff(SignedDecimal(v), 10, v);
    ReadsAsIff(SignedDecimal(v), 0, v);
  }

  lemma DecimalDenotes(v: int)
    requires -TWO63 < v < TWO63
    ensures ReadValue(SignedDecimal(v), 10) == v && ReadValue(SignedDecimal(v), 0) == v
  {
    var m := if v < 0 then -v else v;
    var t, sign, digits := SignedDecimal(v), if v < 0 then "-" else "", Decimal(m);
    DigitLoop(m, 10, false);
    assert t[0..|sign|] == sign && t[|sign|..|t|] == digits;
    assert Surrounded(t, 0, sign, digits, 0);
    SurroundedReads(t, 0, sign, digits, 0, 10);
    if v == 0 {
      SmallMod(0, 10);
      assert digits == Fill('0', 1);
      AutoBase.ZerosRead(t, 0, sign, 1, 0);
    } else {
      AutoBase.NonzeroReads(t, 0, sign, digits, 0);
    }
  }

  lemma PlainField(digits: string, negative: bool)
    requires |digits| < BUFFER_SIZE
    ensures FieldText(digits, negative, 10, 0, 0, NO_FLAGS) == (if negative then "-" else "") + digits
  {
    ZeroPaddedIs(digits, 0, 0, NO_FLAGS);
    PrintfLaws.ZeroPaddedLength(digits, 0, 0, NO_FLAGS);
    assert Body(digits, negative, 10, 0, 0, NO_FLAGS) == (if negative then "-" else "") + digits;
  }

  /** The two printers agree: this is what `%ld` and `%lu` print without flags. */
  lemma AgreesWithPrintf(v: int)
    requires -TWO63 < v < TWO63
    ensures IntegerText(Magnitude(v), v < 0, 10, 0, 0, NO_FLAGS) == SignedDecimal(v)
  {
    DigitLoop(Magnitude(v), 10, false);
    PlainField(Decimal(Magnitude(v)), v < 0);
  }

  /** `toHString(uint8_t)`: two upper-case digits. */
  function HexPair(v: nat): (s: string)
    requires v < 0x100
    ensures |s| == 2
  {
    [DigitChar(v / 16, true), DigitChar(v % 16, true)]
  }

  lemma PairValue(v: nat)
    requires v < 0x100
    ensures IsNumeral(HexPair(v), 16) && Value(HexPair(v), 16) == v
  {
    var high := [DigitChar(v / 16, true)];
    DigitAlone(high[0], 16);
    assert HexPair(v) == high + [DigitChar(v % 16, true)];
    ValuePush(high, DigitChar(v % 16, true), 16);
  }

  /** Two upper-case hexadecimal digits whose value in base 16 is the byte; the parser reads them
      back as that. */
  lemma HexPairReads(v: nat)
    requires v < 0x100
    ensures var t := HexPair(v);
      && |t| == 2 && IsNumeral(t, 16) && Value(t, 16) == v && ReadsAs(t, 16, v)
      && forall c :: c in t ==> '0' <= c <= '9' || 'A' <= c <= 'F'
  {
    var t := HexPair(v);
    PairValue(v);
    assert t[0..0] == "" && t[0..2] == t;
    assert Surrounded(t, 0, "", t, 0);
    NoPrefixSeen(t, 0, "", t, 0, 16);
    SurroundedReads(t, 0, "", t, 0, 16);
    ReadsAsIff(t, 16, v);
  }

  method FromByte(buf: array<char>, v: nat)
    requires buf.Length == BUFFER && v < 0x100
    modifies buf
    ensures var t := CStrings.StringAt(buf[..], 0);
      && |t| == 2 && IsNumeral(t, 16) && Value(t, 16) == v && ReadsAs(t, 16, v)
      && forall c :: c in t ==> '0' <= c <= '9' || 'A' <= c <= 'F'
    ensures CStrings.StringAt(buf[..], 0) == HexPair(v) && buf[..3] == HexPair(v) + ['\0']
  {
    var size, i := 1, 0;
    while i < size
      invariant 0 <= i <= size && (i == 1 ==> buf[0] == HexPair(v)[0] && buf[1] == HexPair(v)[1])
    {
      buf[size - (i * 2 + 1)] := DigitChar(v / 16, true);
      buf[size - i * 2] := DigitChar(v % 16, true);
      i := i + 1;
    }
    buf[size + 1] := '\0';
    assert buf[..][0..2] == HexPair(v);
    HexPairReads(v);
    CStrings.StringAtIs(buf[..], 0, HexPair(v));
  }
}
