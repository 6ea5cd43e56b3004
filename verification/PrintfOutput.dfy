/** What directives print, character by character: formats, arguments and texts as a caller sees
    them, independent of the functions by which the model assigns texts to directives. */
module PrintfOutput {
  import opened Machine
  import opened Numerals
  import opened PrintfSpec
  import opened PrintfComposition
  import opened RoundTrip
  import opened Directives
  import PrintfLaws

  // ---------------------------------------------------------------- how a directive is written

  /** The number behind a width or a dot. */
  lemma AmountIs(m: Amount) returns (text: string)
    ensures text == AmountText(m) && (m.Starred? ==> text == "*")
    ensures m.Given? ==> IsNumeral(text, 10) && Value(text, 10) == m.number && (text != "" ==> text[0] != '0')
  {
    text := AmountText(m);
    if m.Given? && m.number != 0 {
      DigitLoop(m.number, 10, false);
    }
  }

  /** The flag characters in any order, a numeral or `*`, a dot with another if there is a
      precision, a length modifier and the specifier. */
  lemma FormIs(f: Form, d: Directive) returns (width: string, precision: string)
    requires Means(f, d)
    ensures FormText(f) ==
      f.marks + (width + ((if d.flags.precision then "." + precision else "") + (f.length + [d.conv])))
    ensures forall c :: c in f.marks ==> c == '0' || c == '-' || c == '+' || c == ' ' || c == '#'
    ensures d.flags.zero == ('0' in f.marks) && d.flags.plus == ('+' in f.marks) && d.flags.space == (' ' in f.marks)
    ensures d.flags.hash == ('#' in f.marks)
    ensures d.flags.left == ('-' in f.marks || (f.width.Starred? && f.width.value < 0))
    ensures f.width.Starred? ==> width == "*"
    ensures f.width.Starred? ==> d.width == if f.width.value < 0 then -f.width.value else f.width.value
    ensures f.width.Given? ==>
      && IsNumeral(width, 10) && Value(width, 10) == d.width
      && (width != "" ==> width[0] != '0')
    ensures f.precision.Starred? ==> precision == "*"
    ensures f.precision.Starred? && d.flags.precision ==>
      d.precision == if f.precision.value < 0 then 0 else f.precision.value
    ensures f.precision.Given? && d.flags.precision ==>
      && IsNumeral(precision, 10) && Value(precision, 10) == d.precision
      && (precision != "" ==> precision[0] != '0')
    ensures match d.length {
      case IntLength => f.length == ""
      case ShortLength => f.length == "h"
      case CharLength => f.length == "hh"
      case LongLength => f.length in {"l", "z", "j", "t"}
      case LongLongLength => f.length == "ll"
    }
  {
    width := AmountIs(f.width);
    precision := AmountIs(f.precision);
  }

  // ---------------------------------------------------------------- strings and characters

  lemma BlanksAre(width: nat, len: nat, text: string, left: bool) returns (n: nat, q: nat)
    ensures Blanks(width, len, text, left) == Fill(' ', n) + text + Fill(' ', q)
    ensures n + q == Max(0, width - len) && if left then n == 0 else q == 0
  {
    n, q := if left then 0 else Max(0, width - len), if left then Max(0, width - len) else 0;
    assert Fill(' ', 0) + text == text && (Fill(' ', n) + text) + Fill(' ', 0) == Fill(' ', n) + text;
  }

  lemma StringShape(d: Directive, t: string) returns (k: nat, n: nat, q: nat)
    ensures k <= |t| && k == (if d.flags.precision && d.precision < |t| then d.precision else |t|)
    ensures StringConversion(d, t) == Fill(' ', n) + t[..k] + Fill(' ', q)
    ensures n + q == Max(0, d.width - k % 0x1_0000_0000) && if d.flags.left then n == 0 else q == 0
  {
    k := if d.flags.precision && d.precision < |t| then d.precision else |t|;
    assert t[..|t|] == t;
    n, q := BlanksAre(d.width, ToU32(k), t[..k], d.flags.left);
  }

  /** `%s`, however it is written: blanks, the first characters of the string up to the precision,
      blanks. The blanks fill the width, less the length as an `unsigned int`, on one side. */
  lemma StringOutput(f: Form, d: Directive, s: string, a: U64, t: CString) returns (k: nat, n: nat, q: nat)
    requires Means(f, d) && d.conv == 's' && s == FormText(f)
    ensures k <= |t| && k == (if d.flags.precision && d.precision < |t| then d.precision else |t|)
    ensures Prints("%" + s, FormArgs(f) + [Str(a, t)], Fill(' ', n) + t[..k] + Fill(' ', q))
    ensures n + q == Max(0, d.width - k % 0x1_0000_0000) && if d.flags.left then n == 0 else q == 0
  {
    k, n, q := StringShape(d, t);
    FormPrints(f, d, Str(a, t), s, FormArgs(f), Fill(' ', n) + t[..k] + Fill(' ', q));
  }

  /** `%c`, however it is written: the low byte of its argument between such blanks. */
  lemma CharOutput(f: Form, d: Directive, s: string, bits: U64) returns (n: nat, q: nat)
    requires Means(f, d) && d.conv == 'c' && s == FormText(f)
    ensures Prints("%" + s, FormArgs(f) + [Num(bits)], Fill(' ', n) + [(bits % 0x100) as char] + Fill(' ', q))
    ensures n + q == Max(0, d.width - 1) && if d.flags.left then n == 0 else q == 0
  {
    n, q := BlanksAre(d.width, 1, [(bits % 0x100) as char], d.flags.left);
    FormPrints(f, d, Num(bits), s, FormArgs(f), Fill(' ', n) + [(bits % 0x100) as char] + Fill(' ', q));
  }

  /** A directive without flags, width and precision. */
  function Bare(conv: char, l: Length): Directive {
    Directive(NO_FLAGS, 0, 0, l, conv)
  }

  function BareForm(conv: char, length: string): Form {
    Form("", Given(0), false, Given(0), length, conv)
  }

  lemma BareText(conv: char, length: string)
    ensures FormText(BareForm(conv, length)) == length + [conv]
    ensures FormArgs(BareForm(conv, length)) == []
  {
    assert "" + (length + [conv]) == length + [conv];
  }

  lemma BarePrints(fmt: string, conv: char, length: string, l: Length, x: Arg, text: string)
    requires SpellsLength(length, l) && IsSpecifier(conv) && NeedsArgument(conv)
    requires ConvertArgument(Bare(conv, l), x) == Text(text) && fmt == "%" + (length + [conv])
    ensures Prints(fmt, [x], text)
  {
    BareText(conv, length);
    FormPrints(BareForm(conv, length), Bare(conv, l), x, length + [conv], [], text);
    assert [] + [x] == [x];
  }

  /** `%s` prints its string. */
  lemma PlainString(a: U64, t: CString)
    ensures Prints("%s", [Str(a, t)], t)
  {
    var k, n, q := StringShape(Bare('s', IntLength), t);
    assert Fill(' ', n) + t[..k] + Fill(' ', q) == t;
    assert "%" + ("" + ['s']) == "%s";
    BarePrints("%s", 's', "", IntLength, Str(a, t), t);
  }

  /** `%c` prints its character. */
  lemma PlainChar(b: U64)
    requires b < 0x100
    ensures Prints("%c", [Num(b)], [b as char])
  {
    SmallMod(b, 0x100);
    assert Fill(' ', 0) + [b as char] == [b as char];
    assert "%" + ("" + ['c']) == "%c";
    BarePrints("%c", 'c', "", IntLength, Num(b), [b as char]);
  }

  // ---------------------------------------------------------------- numbers as arguments

  lemma FormPrintsAs(fmt: string, f: Form, d: Directive, args: seq<Arg>, x: Arg, text: string)
    requires Means(f, d) && NeedsArgument(d.conv) && ConvertArgument(d, x) == Text(text)
    requires fmt == "%" + FormText(f) && args == FormArgs(f) + [x]
    ensures Prints(fmt, args, text)
  {
    FormPrints(f, d, x, FormText(f), FormArgs(f), text);
  }

  /** A string with a `*` for its width. */
  lemma StarredWidth(bits: U64, w: int) returns (f: Form, d: Directive)
    requires -TWO31 < w < TWO31 && (bits - w) % TWO32 == 0
    ensures Means(f, d) && "%" + FormText(f) == "%*s" && FormArgs(f) == [Num(bits)]
    ensures d == Directive(NO_FLAGS.(left := w < 0), if w < 0 then -w else w, 0, IntLength, 's')
  {
    f := Form("", Starred(w, bits), false, Given(0), "", 's');
    d := Directive(NO_FLAGS.(left := w < 0), if w < 0 then -w else w, 0, IntLength, 's');
  }

  /** A string with a `*` for its precision. */
  lemma StarredPrecision(bits: U64, p: int) returns (f: Form, d: Directive)
    requires -TWO31 < p < TWO31 && (bits - p) % TWO32 == 0
    ensures Means(f, d) && "%" + FormText(f) == "%.*s" && FormArgs(f) == [Num(bits)]
    ensures d == Directive(NO_FLAGS.(precision := true), 0, if p < 0 then 0 else p, IntLength, 's')
  {
    f := Form("", Given(0), true, Starred(p, bits), "", 's');
    d := Directive(NO_FLAGS.(precision := true), 0, if p < 0 then 0 else p, IntLength, 's');
  }

  /** `%*s` pads its string to the magnitude of the `int` in front of it, on the left for a width
      from 0 on, on the right for a negative one. */
  lemma StarWidth(bits: U64, w: int, a: U64, t: CString) returns (n: nat, q: nat)
    requires -0x8000_0000 < w < 0x8000_0000 && (bits - w) % 0x1_0000_0000 == 0
    ensures Prints("%*s", [Num(bits), Str(a, t)], Fill(' ', n) + t + Fill(' ', q))
    ensures n + q == Max(0, (if w < 0 then -w else w) - |t| % 0x1_0000_0000) && if w < 0 then n == 0 else q == 0
  {
    var f, d := StarredWidth(bits, w);
    var k;
    k, n, q := StringShape(d, t);
    assert t[..k] == t;
    FormPrintsAs("%*s", f, d, [Num(bits), Str(a, t)], Str(a, t), Fill(' ', n) + t + Fill(' ', q));
  }

  lemma Unpadded(d: Directive, t: string) returns (k: nat)
    requires d.width == 0
    ensures k <= |t| && k == (if d.flags.precision && d.precision < |t| then d.precision else |t|)
    ensures StringConversion(d, t) == t[..k]
  {
    var n, q;
    k, n, q := StringShape(d, t);
    assert Fill(' ', 0) + t[..k] + Fill(' ', 0) == t[..k];
  }

  /** `%.*s` prints as many characters as the `int` in front of its string says, none if that is
      negative. */
  lemma StarPrecision(bits: U64, p: int, a: U64, t: CString)
    requires -0x8000_0000 < p < 0x8000_0000 && (bits - p) % 0x1_0000_0000 == 0
    ensures Prints("%.*s", [Num(bits), Str(a, t)], if p < 0 then "" else if p < |t| then t[..p] else t)
  {
    var f, d := StarredPrecision(bits, p);
    var k := Unpadded(d, t);
    var text := if p < 0 then "" else if p < |t| then t[..p] else t;
    assert t[..k] == text;
    FormPrintsAs("%.*s", f, d, [Num(bits), Str(a, t)], Str(a, t), text);
  }

  // ---------------------------------------------------------------- integers

  /** The integer a slot holds for a directive: the value of its C type, which the length modifier
      and the specifier choose, that agrees with the slot on the bits of that type. The least
      `int` and `long`, which C cannot negate, are none. */
  predicate IsArgument(d: Directive, bits: U64, v: int) {
    var m := match d.length
      case CharLength => 0x100
      case ShortLength => 0x1_0000
      case IntLength => 0x1_0000_0000
      case LongLength => 0x1_0000_0000_0000_0000
      case LongLongLength => 0x1_0000_0000_0000_0000;
    && (bits - v) % m == 0
    && (if d.conv == 'd' || d.conv == 'i' then -(m / 2) <= v < m / 2 else 0 <= v < m)
    && (m >= 0x1_0000_0000 ==> v != -(m / 2))
  }

  lemma ArgumentIs(d: Directive, bits: U64, v: int)
    requires IsArgument(d, bits, v)
    ensures ArgValue(d, bits) == v && Negatable(d, v)
  {
    var m := TypeModulus(d.length);
    if IsSigned(d.conv) {
      SignedIs(bits, m, v);
    } else {
      ModUnique(bits, m, (bits - v) / m, v);
    }
  }

  /** The zeros in front of `len` digits: up to the precision and up to the width they are to fill,
      none beyond 32 characters and none on the left side. */
  function Zeros(len: nat, left: bool, precision: nat, width: nat): nat {
    if left then 0 else Max(0, Min(Max(precision, width), 32) - len)
  }

  /** The width that zeros fill: all of it, or all but the place of a sign. */
  function Filled(zero: bool, width: nat, signed: bool): nat {
    if !zero then 0 else if signed && 0 < width then width - 1 else width
  }

  lemma ZerosOf(digits: string, negative: bool, prec: nat, width: nat, fl: Flags, z: nat)
    requires |digits| <= BUFFER_SIZE
    requires z == |ZeroPadded(digits, prec, ZeroWidth(negative, width, fl), fl)| - |digits|
    ensures z == Zeros(|digits|, fl.left, prec, Filled(fl.zero, width, Sign(negative, fl) != ""))
  {
    PrintfLaws.ZeroPaddedLength(digits, prec, ZeroWidth(negative, width, fl), fl);
  }

  lemma Justified(body: string, negative: bool, width: nat, fl: Flags) returns (n: nat, q: nat)
    ensures Justify(body, ZeroWidth(negative, width, fl), fl) == Fill(' ', n) + body + Fill(' ', q)
    ensures if fl.left then n == 0 else q == 0
    ensures n + q == if fl.zero && !fl.left then 0 else Max(0, width - |body|)
  {
    n, q := JustifyIs(body, ZeroWidth(negative, width, fl), fl);
  }

  lemma BodyLayout(digits: string, negative: bool, base: nat, prec: nat, width: nat, fl: Flags)
    returns (mark: string, z: nat)
    requires !fl.hash && |digits| <= BUFFER_SIZE
    ensures Body(digits, negative, base, prec, ZeroWidth(negative, width, fl), fl) == mark + (Fill('0', z) + digits)
    ensures z == Zeros(|digits|, fl.left, prec, Filled(fl.zero, width, Sign(negative, fl) != ""))
    ensures mark == if z + |digits| < 32 then Sign(negative, fl) else ""
  {
    var w := ZeroWidth(negative, width, fl);
    var padded := ZeroPadded(digits, prec, w, fl);
    ZeroPaddedIs(digits, prec, w, fl);
    BodyShape(digits, negative, base, prec, w, fl);
    z := |padded| - |digits|;
    ZerosOf(digits, negative, prec, width, fl, z);
    mark := if |padded| < BUFFER_SIZE then Sign(negative, fl) else "";
  }

  lemma FieldLayout(digits: string, negative: bool, base: nat, prec: nat, width: nat, fl: Flags)
    returns (n: nat, mark: string, z: nat, q: nat)
    requires !fl.hash && |digits| <= BUFFER_SIZE
    ensures FieldText(digits, negative, base, prec, width, fl) ==
      Fill(' ', n) + (mark + (Fill('0', z) + digits)) + Fill(' ', q)
    ensures z == Zeros(|digits|, fl.left, prec, Filled(fl.zero, width, Sign(negative, fl) != ""))
    ensures mark == if z + |digits| < 32 then Sign(negative, fl) else ""
    ensures if fl.left then n == 0 else q == 0
    ensures n + q == if fl.zero && !fl.left then 0 else Max(0, width - (|mark| + z + |digits|))
  {
    mark, z := BodyLayout(digits, negative, base, prec, width, fl);
    n, q := Justified(mark + (Fill('0', z) + digits), negative, width, fl);
  }

  /** The sign of a number of which `len` characters stand in the buffer. */
  function SignText(len: nat, d: Directive, v: int): string {
    if len >= 32 then ""
    else if v < 0 then "-"
    else if d.conv in {'u', 'x', 'X', 'o', 'b'} then ""
    else if d.flags.plus then "+"
    else if d.flags.space then " "
    else ""
  }

  lemma IntegerLayout(d: Directive, v: int, digits: string) returns (n: nat, sign: string, z: nat, q: nat)
    requires IsInteger(d.conv) && (!d.flags.hash || v == 0 || BaseOf(d.conv) == 10)
    requires d.flags.precision || d.precision == 0
    requires v < 0 ==> IsSigned(d.conv)
    requires digits == DigitText(Magnitude(v), BaseOf(d.conv), IntegerFlags(d))
    ensures IntegerConversion(d, v) == Fill(' ', n) + (sign + (Fill('0', z) + digits)) + Fill(' ', q)
    ensures z == Zeros(|digits|, d.flags.left, d.precision,
                       Filled(d.flags.zero && !d.flags.precision, d.width, SignText(0, d, v) != ""))
    ensures sign == SignText(z + |digits|, d, v)
    ensures if d.flags.left then n == 0 else q == 0
    ensures n + q == if d.flags.zero && !d.flags.left && !d.flags.precision then 0
                     else Max(0, d.width - (|sign| + z + |digits|))
  {
    var fl := IntegerFlags(d);
    HashFree(Magnitude(v), v < 0, BaseOf(d.conv), d.precision, d.width, fl, digits);
    n, sign, z, q := FieldLayout(digits, v < 0, BaseOf(d.conv), d.precision, d.width, fl.(hash := false));
  }

  /** The base a specifier prints in. */
  function Base(conv: char): (b: nat)
    requires conv in {'d', 'i', 'u', 'x', 'X', 'o', 'b'}
    ensures 2 <= b <= 16
  {
    if conv == 'x' || conv == 'X' then 16 else if conv == 'o' then 8 else if conv == 'b' then 2 else 10
  }

  lemma IntegerConverts(d: Directive, bits: U64, v: int) returns (digits: string)
    requires Spellable(d) && d.conv in {'d', 'i', 'u', 'x', 'X', 'o', 'b'} && IsArgument(d, bits, v)
    ensures ConvertArgument(d, Num(bits)) == Text(IntegerConversion(d, v))
    ensures NeedsArgument(d.conv) && IsInteger(d.conv) && Base(d.conv) == BaseOf(d.conv)
    ensures digits == DigitText(Magnitude(v), BaseOf(d.conv), IntegerFlags(d))
    ensures digits == if d.flags.precision && v == 0 then ""
                      else Digits(if v < 0 then -v else v, Base(d.conv), 32, d.conv == 'X')
    ensures v < 0 ==> IsSigned(d.conv)
  {
    ArgumentIs(d, bits, v);
    digits := DigitText(Magnitude(v), BaseOf(d.conv), IntegerFlags(d));
  }

  /** An integer without alternate form, however its directive is written: blanks, a sign, zeros,
      the digits of the magnitude and blanks, each as many as flags, width and precision ask for. */
  lemma IntegerOutput(f: Form, d: Directive, s: string, bits: U64, v: int)
    returns (n: nat, sign: string, z: nat, digits: string, q: nat)
    requires Means(f, d) && s == FormText(f) && d.conv in {'d', 'i', 'u', 'x', 'X', 'o', 'b'}
    requires IsArgument(d, bits, v) && (!d.flags.hash || v == 0 || d.conv in {'d', 'i', 'u'})
    ensures digits == if d.flags.precision && v == 0 then ""
                      else Digits(if v < 0 then -v else v, Base(d.conv), 32, d.conv == 'X')
    ensures Prints("%" + s, FormArgs(f) + [Num(bits)], Fill(' ', n) + (sign + (Fill('0', z) + digits)) + Fill(' ', q))
    ensures z == Zeros(|digits|, d.flags.left, d.precision,
                       Filled(d.flags.zero && !d.flags.precision, d.width, SignText(0, d, v) != ""))
    ensures sign == SignText(z + |digits|, d, v)
    ensures if d.flags.left then n == 0 else q == 0
    ensures n + q == if d.flags.zero && !d.flags.left && !d.flags.precision then 0
                     else Max(0, d.width - (|sign| + z + |digits|))
  {
    digits := IntegerConverts(d, bits, v);
    n, sign, z, q := IntegerLayout(d, v, digits);
    FormPrints(f, d, Num(bits), s, FormArgs(f), Fill(' ', n) + (sign + (Fill('0', z) + digits)) + Fill(' ', q));
  }

  // ---------------------------------------------------------------- directives without width and precision

  /** Two to the number of bits that a length modifier selects. */
  function Modulus(length: string): int
    requires length in {"", "h", "hh", "l", "ll", "z", "j", "t"}
  {
    if length == "hh" then 0x100 else if length == "h" then 0x1_0000
    else if length == "" then 0x1_0000_0000 else 0x1_0000_0000_0000_0000
  }

  /** `digits` denotes `v` without superfluous zeros, in base 2 its low 32 bits. */
  predicate DigitsOf(digits: string, v: nat, conv: char)
    requires conv in {'d', 'i', 'u', 'x', 'X', 'o', 'b'}
  {
    && IsNumeral(digits, Base(conv))
    && Value(digits, Base(conv)) == (if conv == 'b' then v % 0x1_0000_0000 else v)
    && digits != "" && (conv != 'b' ==> (digits[0] == '0' <==> v == 0))
    && forall c :: c in digits ==> '0' <= c <= '9' || if conv == 'X' then 'A' <= c <= 'F' else 'a' <= c <= 'f'
  }

  lemma DigitLetters(v: nat, base: nat, upper: bool)
    requires 2 <= base <= 16
    ensures forall c :: c in Digits(v, base, 32, upper) ==>
      '0' <= c <= '9' || if upper then 'A' <= c <= 'F' else 'a' <= c <= 'f'
  {
    var digits := Digits(v, base, 32, upper);
    DigitsCase(v, base, 32, upper);
    DigitsValue(v, base, 32, upper);
    forall c | c in digits ensures '0' <= c <= '9' || if upper then 'A' <= c <= 'F' else 'a' <= c <= 'f' {
      var i :| 0 <= i < |digits| && digits[i] == c;
      assert 0 <= DigitOf(digits[i]) < 16;
    }
  }

  lemma DigitsAre(v: U64, conv: char) returns (digits: string)
    requires conv in {'d', 'i', 'u', 'x', 'X', 'o', 'b'}
    ensures digits == Digits(v, Base(conv), 32, conv == 'X') && DigitsOf(digits, v, conv)
    ensures |digits| <= if conv == 'b' then 32 else 22
  {
    digits := Digits(v, Base(conv), 32, conv == 'X');
    DigitLetters(v, Base(conv), conv == 'X');
    if conv == 'b' {
      DigitsValue(v, 2, 32, false);
      BinaryLoop(v, false);
    } else {
      DigitLoop(v, Base(conv), conv == 'X');
    }
  }

  /** `bits` holds `v` as the C type that the length modifier selects, signed or not. */
  predicate Holding(bits: U64, length: string, signed: bool, v: int)
    requires length in {"", "h", "hh", "l", "ll", "z", "j", "t"}
  {
    var m := Modulus(length);
    && (bits - v) % m == 0 && (if signed then -(m / 2) <= v < m / 2 else 0 <= v < m)
    && (m >= 0x1_0000_0000 ==> v != -(m / 2))
  }

  lemma Lengths(length: string, conv: char, bits: U64, v: int) returns (l: Length)
    requires length in {"", "h", "hh", "l", "ll", "z", "j", "t"} && Holding(bits, length, conv == 'd' || conv == 'i', v)
    ensures SpellsLength(length, l) && IsArgument(Bare(conv, l), bits, v)
  {
    l := if length == "hh" then CharLength else if length == "h" then ShortLength
         else if length == "" then IntLength else if length == "ll" then LongLongLength else LongLength;
  }

  lemma BareInteger(conv: char, l: Length, v: int, digits: string, text: string)
    requires IsInteger(conv) && (v < 0 ==> IsSigned(conv) && |digits| < 32)
    requires digits == DigitText(Magnitude(v), BaseOf(conv), IntegerFlags(Bare(conv, l)))
    requires text == (if v < 0 then "-" else "") + digits
    ensures IntegerConversion(Bare(conv, l), v) == text
  {
    var n, sign, z, q := IntegerLayout(Bare(conv, l), v, digits);
    assert n == 0 && z == 0 && q == 0;
    assert Fill('0', 0) + digits == digits;
    assert Fill(' ', 0) + (sign + digits) + Fill(' ', 0) == sign + digits;
  }

  /** Every integer specifier with every length modifier: the sign of a negative number and the
      numeral of its magnitude. */
  lemma PlainInteger(fmt: string, length: string, conv: char, bits: U64, v: int) returns (digits: string)
    requires length in {"", "h", "hh", "l", "ll", "z", "j", "t"} && conv in {'d', 'i', 'u', 'x', 'X', 'o', 'b'}
    requires fmt == "%" + (length + [conv]) && Holding(bits, length, conv == 'd' || conv == 'i', v)
    ensures DigitsOf(digits, if v < 0 then -v else v, conv)
    ensures Prints(fmt, [Num(bits)], (if v < 0 then "-" else "") + digits)
  {
    var l := Lengths(length, conv, bits, v);
    var text := IntegerConverts(Bare(conv, l), bits, v);
    digits := DigitsAre(if v < 0 then -v else v, conv);
    text := (if v < 0 then "-" else "") + digits;
    BareInteger(conv, l, v, digits, text);
    BarePrints(fmt, conv, length, l, Num(bits), text);
  }

  // ---------------------------------------------------------------- prefixes, pointers and plain characters

  /** What `#` puts in front of the digits. */
  function Prefix(conv: char): string
    requires conv in {'x', 'X', 'o', 'b'}
  {
    if conv == 'x' then "0x" else if conv == 'X' then "0X" else if conv == 'b' then "0b" else "0"
  }

  function HashDirective(conv: char, l: Length): Directive {
    Directive(NO_FLAGS.(hash := true), 0, 0, l, conv)
  }

  lemma PrefixIs(conv: char, digits: string, upper: bool)
    requires conv in {'x', 'X', 'o', 'b'} && 1 <= |digits| <= 30 && upper == (conv == 'X')
    ensures Hashed(digits, Base(conv), 0, 0, NO_FLAGS.(hash := true, upper := upper)) == Prefix(conv) + digits
  {
    assert digits[0..] == digits;
    assert ['0'] + (['x'] + digits) == "0x" + digits && ['0'] + (['X'] + digits) == "0X" + digits;
    assert ['0'] + (['b'] + digits) == "0b" + digits;
  }

  lemma Unfilled(text: string)
    ensures Fill('0', 0) + text == text && Fill(' ', 0) + text == text && "" + text == text
  {
  }

  lemma HashedIs(conv: char, digits: string, fl: Flags)
    requires conv in {'x', 'X', 'o', 'b'} && 1 <= |digits| <= 30
    requires fl == NO_FLAGS.(hash := true, upper := conv == 'X')
    ensures FieldText(digits, false, Base(conv), 0, 0, fl) == Prefix(conv) + digits
  {
    Unfilled(digits);
    assert ZeroPadded(digits, 0, 0, fl) == digits;
    PrefixIs(conv, digits, conv == 'X');
    Unfilled(Prefix(conv) + digits);
  }

  lemma HashConverts(conv: char, l: Length, bits: U64, v: U64, digits: string)
    requires conv in {'x', 'X', 'o', 'b'} && 0 < v && IsArgument(Bare(conv, l), bits, v)
    requires digits == Digits(v, Base(conv), 32, conv == 'X') && |digits| <= 30
    ensures ConvertArgument(HashDirective(conv, l), Num(bits)) == Text(Prefix(conv) + digits)
  {
    var d := HashDirective(conv, l);
    assert IsArgument(d, bits, v);
    var digits' := IntegerConverts(d, bits, v);
    HashedIs(conv, digits, IntegerFlags(d));
  }

  lemma ShortBinary(v: nat, digits: string)
    requires v < 0x4000_0000 && digits == Digits(v, 2, 32, false)
    ensures |digits| <= 30
  {
    assert Pow(2, 10) == 0x400;
    PowAdd(2, 10, 10);
    PowAdd(2, 20, 10);
    DigitsLength(v, 2, 32, false, 30);
  }

  lemma HashForm(fmt: string, conv: char, length: string, l: Length, x: Arg) returns (f: Form)
    requires SpellsLength(length, l) && IsSpecifier(conv) && fmt == "%#" + (length + [conv])
    ensures Means(f, HashDirective(conv, l)) && fmt == "%" + FormText(f) && [x] == FormArgs(f) + [x]
  {
    f := Form("#", Given(0), false, Given(0), length, conv);
    assert FormText(f) == "#" + (length + [conv]);
  }

  /** With `#` the prefix of the base stands in front of the digits of a positive number, for `b`
      of one that leaves room for it. */
  lemma PlainHash(fmt: string, length: string, conv: char, bits: U64, v: int) returns (digits: string)
    requires length in {"", "h", "hh", "l", "ll", "z", "j", "t"} && conv in {'x', 'X', 'o', 'b'}
    requires fmt == "%#" + (length + [conv]) && Holding(bits, length, false, v) && 0 < v
    requires conv == 'b' ==> v < 0x4000_0000
    ensures DigitsOf(digits, v, conv)
    ensures Prints(fmt, [Num(bits)], Prefix(conv) + digits)
  {
    var l := Lengths(length, conv, bits, v);
    digits := DigitsAre(v, conv);
    if conv == 'b' {
      ShortBinary(v, digits);
    }
    HashConverts(conv, l, bits, v, digits);
    var f := HashForm(fmt, conv, length, l, Num(bits));
    FormPrintsAs(fmt, f, HashDirective(conv, l), [Num(bits)], Num(bits), Prefix(conv) + digits);
  }

  lemma NoBlanks(text: string)
    ensures Fill(' ', 0) + text == text
  {
  }

  lemma PointerLayout(d: Directive, p: U64, digits: string) returns (sign: string, z: nat, q: nat)
    requires d.conv == 'p' && (!d.flags.hash || p == 0)
    requires digits == if d.flags.precision && p == 0 then "" else Digits(p, 16, 32, true)
    ensures PointerConversion(d, p) == sign + (Fill('0', z) + digits) + Fill(' ', q)
    ensures z == Zeros(|digits|, d.flags.left, d.precision, if SignText(0, d, 0) != "" then 15 else 16)
    ensures sign == SignText(z + |digits|, d, 0)
    ensures q == if d.flags.left then Max(0, 16 - (|sign| + z + |digits|)) else 0
  {
    var fl := d.flags.(zero := true, upper := true);
    HashFree(p, false, 16, d.precision, POINTER_WIDTH, fl, digits);
    var n;
    n, sign, z, q := FieldLayout(digits, false, 16, d.precision, POINTER_WIDTH, fl.(hash := false));
    NoBlanks(sign + (Fill('0', z) + digits));
  }

  lemma PointerText(p: U64) returns (text: string)
    ensures text == PointerConversion(Bare('p', IntLength), p)
    ensures |text| == 16 && IsNumeral(text, 16) && Value(text, 16) == p
    ensures forall c :: c in text ==> '0' <= c <= '9' || 'A' <= c <= 'F'
  {
    var digits := Digits(p, 16, 32, true);
    DigitLoop(p, 16, true);
    DigitLetters(p, 16, true);
    var sign, z, q := PointerLayout(Bare('p', IntLength), p, digits);
    text := Fill('0', z) + digits;
    assert "" + text + Fill(' ', 0) == text;
    ZerosNumeral(z, digits, 16);
  }

  /** A pointer without alternate form, however its directive is written: a sign, zeros up to the
      precision and to 16 characters, its digits and, on the left side, blanks. */
  lemma PointerOutput(f: Form, d: Directive, s: string, x: Arg) returns (sign: string, z: nat, digits: string, q: nat)
    requires Means(f, d) && d.conv == 'p' && s == FormText(f)
    requires !d.flags.hash || (x.Num? && x.bits == 0) || (x.Str? && x.address == 0)
    ensures var p := if x.Num? then x.bits else x.address;
      digits == if d.flags.precision && p == 0 then "" else Digits(p, 16, 32, true)
    ensures Prints("%" + s, FormArgs(f) + [x], sign + (Fill('0', z) + digits) + Fill(' ', q))
    ensures z == Zeros(|digits|, d.flags.left, d.precision, if d.flags.plus || d.flags.space then 15 else 16)
    ensures sign == if z + |digits| >= 32 then "" else if d.flags.plus then "+" else if d.flags.space then " " else ""
    ensures q == if d.flags.left then Max(0, 16 - (|sign| + z + |digits|)) else 0
  {
    digits := if d.flags.precision && Pointer(x) == 0 then "" else Digits(Pointer(x), 16, 32, true);
    sign, z, q := PointerLayout(d, Pointer(x), digits);
    FormPrints(f, d, x, s, FormArgs(f), sign + (Fill('0', z) + digits) + Fill(' ', q));
  }

  /** `%p` prints a pointer, that of a string too, as a numeral of exactly 16 upper-case digits. */
  lemma PlainPointer(x: Arg) returns (text: string)
    ensures Prints("%p", [x], text) && |text| == 16
    ensures IsNumeral(text, 16) && Value(text, 16) == if x.Num? then x.bits else x.address
    ensures forall c :: c in text ==> '0' <= c <= '9' || 'A' <= c <= 'F'
  {
    text := PointerText(Pointer(x));
    assert "%" + ("" + ['p']) == "%p";
    BarePrints("%p", 'p', "", IntLength, x, text);
  }

  lemma VerbatimConverts(d: Directive, pos: nat)
    requires d.conv !in {'d', 'i', 'u', 'x', 'X', 'o', 'b', 'c', 's', 'p', 'f', 'F', 'e', 'E', 'g', 'G', '\0'}
    ensures Convert(d, pos, [], 0) == Piece([d.conv], pos + 1, 0)
  {
  }

  /** A specifier that is none, `%` among them, prints itself and reads no argument. */
  lemma VerbatimOutput(d: Directive, s: string)
    requires Spellable(d) && s == Spelling(d)
    requires d.conv !in {'d', 'i', 'u', 'x', 'X', 'o', 'b', 'c', 's', 'p', 'f', 'F', 'e', 'E', 'g', 'G', '\0'}
    ensures Prints("%" + s, [], [d.conv])
  {
    BehindPercent(s);
    DirectiveSpelled("%" + s, 1, d, [], 0);
    VerbatimConverts(d, |s|);
    DirectivePrints("%" + s, d, [], 0, Piece([d.conv], |s| + 1, 0));
  }

  /** `%%` prints a percent sign. */
  lemma PercentPrints()
    ensures Prints("%%", [], "%")
  {
    FlagTextIs(NO_FLAGS);
    assert Spelling(Bare('%', IntLength)) == "%" && "%" + "%" == "%%";
    VerbatimOutput(Bare('%', IntLength), "%");
  }
}
