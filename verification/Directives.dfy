/** The grammar of directives: every flag set, width, precision, length and specifier has a
    spelling, and the scanner reads that spelling back as exactly this directive. */
module Directives {
  import opened Machine
  import opened Numerals
  import opened PrintfSpec
  import opened RoundTrip
  import opened PrintfComposition

  function Shown(b: bool, c: char): string {
    if b then [c] else ""
  }

  /** A flag and its character. */
  datatype Mark = Mark(up: bool, sign: char)

  function MarkText(marks: seq<Mark>): string {
    if marks == [] then "" else Shown(marks[0].up, marks[0].sign) + MarkText(marks[1..])
  }

  function Marks(fl: Flags): seq<Mark> {
    [Mark(fl.zero, '0'), Mark(fl.left, '-'), Mark(fl.plus, '+'), Mark(fl.space, ' '), Mark(fl.hash, '#')]
  }

  function FlagText(fl: Flags): string {
    MarkText(Marks(fl))
  }

  function NumberText(n: U32): string {
    if n == 0 then "" else Digits(n, 10, BUFFER_SIZE, false)
  }

  function PrecisionText(d: Directive): string {
    if d.flags.precision then "." + NumberText(d.precision) else ""
  }

  function LengthText(l: Length): string {
    match l
    case IntLength => ""
    case ShortLength => "h"
    case CharLength => "hh"
    case LongLength => "l"
    case LongLongLength => "ll"
  }

  lemma MarkPush(m: Mark, marks: seq<Mark>) returns (all: seq<Mark>)
    ensures all == [m] + marks && MarkText(all) == Shown(m.up, m.sign) + MarkText(marks)
  {
    all := [m] + marks;
    assert all[1..] == marks;
  }

  lemma FlagTextIs(fl: Flags)
    ensures FlagText(fl) ==
      Shown(fl.zero, '0') + (Shown(fl.left, '-') + (Shown(fl.plus, '+') + (Shown(fl.space, ' ') + Shown(fl.hash, '#'))))
  {
    var m5: seq<Mark> := [];
    var m4 := MarkPush(Mark(fl.hash, '#'), m5);
    var m3 := MarkPush(Mark(fl.space, ' '), m4);
    var m2 := MarkPush(Mark(fl.plus, '+'), m3);
    var m1 := MarkPush(Mark(fl.left, '-'), m2);
    var m0 := MarkPush(Mark(fl.zero, '0'), m1);
    assert m0 == Marks(fl);
    assert Shown(fl.hash, '#') + "" == Shown(fl.hash, '#');
  }

  /** What stands behind the `%`. */
  function Spelling(d: Directive): string {
    FlagText(d.flags) + (NumberText(d.width) + (PrecisionText(d) + (LengthText(d.length) + [d.conv])))
  }

  predicate IsFlag(c: char) {
    c in {'0', '-', '+', ' ', '#'}
  }

  /** A character that can end a directive: no flag, digit, dot, star or length modifier. */
  predicate IsSpecifier(c: char) {
    !IsFlag(c) && !IsDigit(c) && c !in {'.', '*', 'l', 'h', 't', 'j', 'z'}
  }

  /** Flags as the scanner leaves them. */
  predicate Spellable(d: Directive) {
    IsSpecifier(d.conv) && !d.flags.upper && (d.flags.precision || d.precision == 0)
  }

  // ---------------------------------------------------------------- pieces of the text

  /** `text` stands in `fmt` at `i`. */
  predicate Here(fmt: string, i: nat, text: string) {
    i + |text| <= |fmt| && fmt[i..i + |text|] == text
  }

  lemma HereSplit(fmt: string, i: nat, a: string, b: string)
    requires Here(fmt, i, a + b)
    ensures Here(fmt, i, a) && Here(fmt, i + |a|, b)
  {
    assert fmt[i..i + |a|] == fmt[i..i + |a + b|][..|a|];
    assert fmt[i + |a|..i + |a + b|] == fmt[i..i + |a + b|][|a|..];
  }

  lemma HereFirst(fmt: string, i: nat, text: string)
    requires Here(fmt, i, text) && text != ""
    ensures At(fmt, i) == text[0]
  {
    assert fmt[i..i + |text|][0] == fmt[i];
  }

  // ---------------------------------------------------------------- flags

  predicate AreFlags(marks: string) {
    forall c :: c in marks ==> IsFlag(c)
  }

  /** The flags after these characters, in whatever order and however often they are written. */
  function Raised(fl: Flags, marks: string): Flags {
    Flags(fl.zero || '0' in marks, fl.left || '-' in marks, fl.plus || '+' in marks, fl.space || ' ' in marks,
          fl.hash || '#' in marks, fl.upper, fl.precision)
  }

  lemma FlagRaised(c: char, fl: Flags)
    requires IsFlag(c)
    ensures FlagSet(c, fl) == Some(Raised(fl, [c]))
  {
  }

  lemma RaisedTwice(fl: Flags, c: char, marks: string)
    ensures Raised(Raised(fl, [c]), marks) == Raised(fl, [c] + marks)
  {
  }

  lemma {:induction false} FlagsGathered(fmt: string, i: nat, marks: string, rest: string, fl: Flags)
    requires AreFlags(marks) && Here(fmt, i, marks + rest) && rest != "" && !IsFlag(rest[0])
    ensures Here(fmt, i + |marks|, rest) && ParseFlags(fmt, i, fl) == FlagScan(Raised(fl, marks), i + |marks|)
    decreases |marks|
  {
    if marks == "" {
      assert "" + rest == rest;
      NoFlagRead(fmt, i, rest, fl);
    } else {
      var c, tail := marks[0], marks[1..];
      assert marks == [c] + tail && c in marks;
      Reassociate([c], tail, rest);
      HereSplit(fmt, i, [c], tail + rest);
      HereFirst(fmt, i, [c]);
      FlagRaised(c, fl);
      FlagsGathered(fmt, i + 1, tail, rest, Raised(fl, [c]));
      RaisedTwice(fl, c, tail);
    }
  }

  /** The flag set that characters stand for. */
  function FlagsOf(marks: string, precision: bool): Flags {
    Raised(NO_FLAGS, marks).(precision := precision)
  }

  lemma ShownIn(b: bool, sign: char, rest: string, c: char)
    ensures c in Shown(b, sign) + rest <==> (b && c == sign) || c in rest
  {
  }

  lemma InFlagText(fl: Flags, c: char)
    ensures c in FlagText(fl) <==>
      || (fl.zero && c == '0') || (fl.left && c == '-') || (fl.plus && c == '+') || (fl.space && c == ' ')
      || (fl.hash && c == '#')
  {
    FlagTextIs(fl);
    var t4 := Shown(fl.hash, '#');
    var t3 := Shown(fl.space, ' ') + t4;
    var t2 := Shown(fl.plus, '+') + t3;
    var t1 := Shown(fl.left, '-') + t2;
    ShownIn(fl.space, ' ', t4, c);
    ShownIn(fl.plus, '+', t3, c);
    ShownIn(fl.left, '-', t2, c);
    ShownIn(fl.zero, '0', t1, c);
  }

  lemma FlagTextFlags(fl: Flags)
    requires !fl.upper
    ensures AreFlags(FlagText(fl)) && FlagsOf(FlagText(fl), fl.precision) == fl
  {
    forall c: char
      ensures c in FlagText(fl) <==>
        || (fl.zero && c == '0') || (fl.left && c == '-') || (fl.plus && c == '+') || (fl.space && c == ' ')
        || (fl.hash && c == '#')
    {
      InFlagText(fl, c);
    }
  }

  lemma NoFlagRead(fmt: string, i: nat, rest: string, fl: Flags)
    requires Here(fmt, i, rest) && rest != "" && !IsFlag(rest[0])
    ensures ParseFlags(fmt, i, fl) == FlagScan(fl, i)
  {
    HereFirst(fmt, i, rest);
  }

  lemma Reassociate(a: string, b: string, c: string)
    ensures (a + b) + c == a + (b + c)
  {
  }

  // ---------------------------------------------------------------- numbers

  /** One more digit, wrapping around as `unsigned int` does. */
  lemma NextNumberIs(v: nat, c: char)
    requires IsDigit(c)
    ensures NextNumber(v % TWO32, c) == (v * 10 + DigitOf(c)) % TWO32
  {
    var q, r := v / TWO32, v % TWO32;
    assert v * 10 + DigitOf(c) == (r * 10 + DigitOf(c)) + (q * 10) * TWO32;
    ModShift(v * 10 + DigitOf(c), q * 10, TWO32);
  }

  lemma NumberStep(text: string, k: nat)
    requires IsNumeral(text, 10) && k < |text|
    ensures IsDigit(text[k]) && 0 <= Value(text[..k], 10)
    ensures NextNumber(Value(text[..k], 10) % TWO32, text[k]) == Value(text[..k + 1], 10) % TWO32
  {
    ValuePrefix(text, k, 10);
    assert text[..k + 1] == text[..k] + [text[k]];
    ValuePush(text[..k], text[k], 10);
    NextNumberIs(Value(text[..k], 10), text[k]);
  }

  /** The accumulator holds the value of the digits read, modulo 2^32. */
  lemma {:induction false} NumberReads(fmt: string, i: nat, text: string, k: nat)
    requires Here(fmt, i, text) && IsNumeral(text, 10) && k <= |text|
    requires !IsDigit(At(fmt, i + |text|))
    ensures ParseNumber(fmt, i + k, Value(text[..k], 10) % TWO32) ==
      NumberScan(Value(text, 10) % TWO32, i + |text|)
    decreases |text| - k
  {
    if k == |text| {
      assert text[..k] == text;
    } else {
      NumberReads(fmt, i, text, k + 1);
      NumberStep(text, k);
      assert fmt[i + k] == fmt[i..i + |text|][k];
    }
  }

  lemma NumberTextIs(n: U32) returns (text: string)
    requires 0 < n
    ensures text == NumberText(n) && text != "" && IsNumeral(text, 10) && Value(text, 10) == n
    ensures IsDigit(text[0]) && !IsFlag(text[0])
  {
    text := NumberText(n);
    DigitLoop(n, 10, false);
  }

  lemma TextRead(fmt: string, i: nat, text: string, n: U32, rest: string)
    requires text != "" && IsNumeral(text, 10) && Value(text, 10) == n
    requires Here(fmt, i, text + rest) && rest != "" && !IsDigit(rest[0])
    ensures Here(fmt, i + |text|, rest) && At(fmt, i) == text[0]
    ensures ParseNumber(fmt, i, 0) == NumberScan(n, i + |text|)
  {
    HereSplit(fmt, i, text, rest);
    HereFirst(fmt, i, text);
    HereFirst(fmt, i + |text|, rest);
    assert text[..0] == "" && Value(text[..0], 10) == 0;
    SmallMod(n, TWO32);
    NumberReads(fmt, i, text, 0);
  }

  lemma NumberRead(fmt: string, i: nat, n: U32, rest: string)
    requires 0 < n && Here(fmt, i, NumberText(n) + rest) && rest != "" && !IsDigit(rest[0])
    ensures var text := NumberText(n);
      text != "" && Here(fmt, i + |text|, rest) && IsDigit(At(fmt, i)) && !IsFlag(text[0]) &&
      ParseNumber(fmt, i, 0) == NumberScan(n, i + |text|)
  {
    var text := NumberTextIs(n);
    TextRead(fmt, i, text, n, rest);
  }

  lemma WidthRead(fmt: string, i: nat, n: U32, rest: string, args: seq<Arg>, a: nat, fl: Flags)
    requires Here(fmt, i, NumberText(n) + rest) && rest != "" && !IsDigit(rest[0]) && rest[0] != '*'
    ensures var j := i + |NumberText(n)|;
      Here(fmt, j, rest) && ParseWidth(fmt, i, args, a, fl) == Field(fl, n, j, a)
  {
    if n == 0 {
      assert "" + rest == rest;
      HereFirst(fmt, i, rest);
    } else {
      NumberRead(fmt, i, n, rest);
    }
  }

  lemma PrecisionRead(fmt: string, i: nat, d: Directive, rest: string, args: seq<Arg>, a: nat, fl: Flags)
    requires Spellable(d) && Here(fmt, i, PrecisionText(d) + rest) && !fl.precision
    requires rest != "" && !IsDigit(rest[0]) && rest[0] != '*' && rest[0] != '.'
    ensures var j := i + |PrecisionText(d)|;
      Here(fmt, j, rest) &&
      ParsePrecision(fmt, i, args, a, fl) == Field(fl.(precision := d.flags.precision), d.precision, j, a)
  {
    if d.flags.precision {
      var text := NumberText(d.precision);
      Reassociate(".", text, rest);
      HereSplit(fmt, i, ".", text + rest);
      HereFirst(fmt, i, ".");
      if d.precision == 0 {
        assert "" + rest == rest;
        HereFirst(fmt, i + 1, rest);
      } else {
        NumberRead(fmt, i + 1, d.precision, rest);
      }
    } else {
      assert "" + rest == rest;
      HereFirst(fmt, i, rest);
    }
  }

  /** The texts that spell a length modifier: `size_t`, `intmax_t` and `ptrdiff_t` are `long`. */
  predicate SpellsLength(text: string, l: Length) {
    text == LengthText(l) || (l == LongLength && text in {"z", "j", "t"})
  }

  lemma LengthRead(fmt: string, i: nat, text: string, l: Length, c: char)
    requires SpellsLength(text, l) && Here(fmt, i, text + [c]) && IsSpecifier(c)
    ensures ParseLength(fmt, i) == LengthScan(l, i + |text|) && At(fmt, i + |text|) == c
  {
    HereSplit(fmt, i, text, [c]);
    HereFirst(fmt, i + |text|, [c]);
    if l != IntLength {
      assert fmt[i] == fmt[i..i + |text|][0];
      if l == CharLength || l == LongLongLength {
        assert fmt[i + 1] == fmt[i..i + 2][1];
      }
    }
  }

  // ---------------------------------------------------------------- the whole directive

  /** A width or precision as it is written: digits, or `*` and an argument slot that holds the
      `int` `value`. */
  datatype Amount = Given(number: U32) | Starred(value: int, bits: U64)

  predicate Holds(m: Amount) {
    m.Starred? ==> -TWO31 < m.value < TWO31 && (m.bits - m.value) % TWO32 == 0
  }

  function AmountText(m: Amount): string {
    if m.Given? then NumberText(m.number) else "*"
  }

  function AmountArgs(m: Amount): seq<Arg> {
    if m.Given? then [] else [Num(m.bits)]
  }

  /** The parts of a directive as they are written: flag characters in any order, the precision
      only behind a dot, the length modifier in any of its spellings. */
  datatype Form = Form(marks: string, width: Amount, dot: bool, precision: Amount, length: string, conv: char)

  function DotText(f: Form): string {
    if f.dot then "." + AmountText(f.precision) else ""
  }

  function FormText(f: Form): string {
    f.marks + (AmountText(f.width) + (DotText(f) + (f.length + [f.conv])))
  }

  function FormArgs(f: Form): seq<Arg> {
    AmountArgs(f.width) + if f.dot then AmountArgs(f.precision) else []
  }

  /** What an amount means for the width: a negative argument asks for the left side. */
  predicate MeansWidth(m: Amount, fl: Flags, d: Directive) {
    if m.Given? then d.width == m.number && d.flags == fl
    else d.width == Magnitude(m.value) && d.flags == if m.value < 0 then fl.(left := true) else fl
  }

  /** What it means for the precision: a negative argument counts as zero. */
  predicate MeansPrecision(m: Amount, d: Directive) {
    d.precision == if m.Given? then m.number else Max(0, m.value)
  }

  /** The form is a way to write the directive. */
  predicate Means(f: Form, d: Directive) {
    && Spellable(d) && f.conv == d.conv && SpellsLength(f.length, d.length) && AreFlags(f.marks)
    && Holds(f.width) && MeansWidth(f.width, FlagsOf(f.marks, f.dot), d)
    && Holds(f.precision) && (f.dot ==> MeansPrecision(f.precision, d))
  }

  /** The slots `xs` are there at `a`. */
  predicate Supplied(xs: seq<Arg>, args: seq<Arg>, a: nat) {
    xs != [] ==> ArgsInside(xs, args, a)
  }

  /** The form in which nothing is an argument. */
  function FormOf(d: Directive): Form {
    Form(FlagText(d.flags), Given(d.width), d.flags.precision, Given(d.precision), LengthText(d.length), d.conv)
  }

  lemma SignedIs(x: int, m: int, v: int)
    requires 2 <= m && m % 2 == 0 && (x - v) % m == 0 && -(m / 2) <= v < m / 2
    ensures Signed(x, m) == v
  {
    var k := (x - v) / m;
    if v >= 0 {
      ModUnique(x, m, k, v);
    } else {
      ModUnique(x, m, k - 1, v + m);
    }
  }

  lemma AmountBegins(m: Amount, rest: string)
    requires rest != "" && !IsFlag(rest[0])
    ensures !IsFlag((AmountText(m) + rest)[0])
  {
    if m.Given? && m.number != 0 {
      var text := NumberTextIs(m.number);
      assert (text + rest)[0] == text[0];
    }
  }

  /** How the parts of a form begin. */
  lemma Beginnings(f: Form, l: Length)
    requires IsSpecifier(f.conv) && SpellsLength(f.length, l)
    ensures var r3 := f.length + [f.conv];
      var r2 := DotText(f) + r3;
      var r1 := AmountText(f.width) + r2;
      && r3 != "" && !IsDigit(r3[0]) && r3[0] != '*' && r3[0] != '.' && !IsFlag(r3[0])
      && r2 != "" && !IsDigit(r2[0]) && r2[0] != '*' && !IsFlag(r2[0])
      && r1 != "" && !IsFlag(r1[0])
  {
    AmountBegins(f.width, DotText(f) + (f.length + [f.conv]));
  }

  lemma StarRead(fmt: string, i: nat, rest: string)
    requires Here(fmt, i, "*" + rest)
    ensures At(fmt, i) == '*' && i < |fmt| && Here(fmt, i + 1, rest)
  {
    HereSplit(fmt, i, "*", rest);
    HereFirst(fmt, i, "*");
  }

  /** The cursor behind the arguments of an amount. */
  function Behind(m: Amount, a: nat): nat {
    a + |AmountArgs(m)|
  }

  lemma WidthFormed(fmt: string, i: nat, m: Amount, d: Directive, rest: string, args: seq<Arg>, a: nat,
                    fl: Flags, fl': Flags)
    returns (w: FieldScan)
    requires Here(fmt, i, AmountText(m) + rest) && rest != "" && !IsDigit(rest[0]) && rest[0] != '*'
    requires Holds(m) && Supplied(AmountArgs(m), args, a)
    requires MeansWidth(m, fl', d) && fl == fl'.(precision := false)
    ensures w == ParseWidth(fmt, i, args, a, fl)
    ensures w == Field(d.flags.(precision := false), d.width, i + |AmountText(m)|, Behind(m, a))
    ensures Here(fmt, w.pos, rest)
  {
    if m.Given? {
      WidthRead(fmt, i, d.width, rest, args, a, fl);
    } else {
      StarRead(fmt, i, rest);
      assert args[a] == args[a..a + 1][0] == Num(m.bits);
      SignedIs(m.bits, TWO32, m.value);
    }
    w := Field(d.flags.(precision := false), d.width, i + |AmountText(m)|, Behind(m, a));
  }

  /** Behind a dot. */
  lemma StarredPrecision(fmt: string, i: nat, m: Amount, rest: string, args: seq<Arg>, a: nat, fl: Flags)
    requires m.Starred? && Holds(m) && Here(fmt, i, "." + ("*" + rest)) && !fl.precision
    requires Supplied(AmountArgs(m), args, a)
    ensures ParsePrecision(fmt, i, args, a, fl) == Field(fl.(precision := true), Max(0, m.value), i + 2, a + 1)
    ensures Here(fmt, i + 2, rest)
  {
    HereSplit(fmt, i, ".", "*" + rest);
    HereFirst(fmt, i, ".");
    StarRead(fmt, i + 1, rest);
    assert args[a] == args[a..a + 1][0] == Num(m.bits);
    SignedIs(m.bits, TWO32, m.value);
  }

  lemma PrecisionFormed(fmt: string, i: nat, f: Form, d: Directive, rest: string, args: seq<Arg>, a: nat, fl: Flags)
    returns (p: FieldScan)
    requires Spellable(d) && f.dot == d.flags.precision && Here(fmt, i, DotText(f) + rest)
    requires Holds(f.precision) && (d.flags.precision ==> MeansPrecision(f.precision, d))
    requires rest != "" && !IsDigit(rest[0]) && rest[0] != '*' && rest[0] != '.'
    requires fl == d.flags.(precision := false)
    requires d.flags.precision ==> Supplied(AmountArgs(f.precision), args, a)
    ensures p == ParsePrecision(fmt, i, args, a, fl)
    ensures p == Field(d.flags, d.precision, i + |DotText(f)|, if d.flags.precision then Behind(f.precision, a) else a)
    ensures Here(fmt, p.pos, rest)
  {
    if d.flags.precision && f.precision.Starred? {
      Reassociate(".", "*", rest);
      StarredPrecision(fmt, i, f.precision, rest, args, a, fl);
    } else {
      PrecisionRead(fmt, i, d, rest, args, a, fl);
    }
    p := Field(d.flags, d.precision, i + |DotText(f)|, if d.flags.precision then Behind(f.precision, a) else a);
  }

  lemma LengthFormed(fmt: string, i: nat, text: string, d: Directive) returns (l: LengthScan)
    requires SpellsLength(text, d.length) && Here(fmt, i, text + [d.conv]) && IsSpecifier(d.conv)
    ensures l == ParseLength(fmt, i) && l == LengthScan(d.length, i + |text|) && At(fmt, l.pos) == d.conv
  {
    LengthRead(fmt, i, text, d.length, d.conv);
    l := LengthScan(d.length, i + |text|);
  }

  lemma SlotsSplit(first: seq<Arg>, second: seq<Arg>, args: seq<Arg>, a: nat)
    requires Supplied(first + second, args, a)
    ensures Supplied(first, args, a) && Supplied(second, args, a + |first|)
  {
    if first + second != [] {
      assert args[a..a + |first|] == args[a..a + |first + second|][..|first|];
      assert args[a + |first|..a + |first + second|] == args[a..a + |first + second|][|first|..];
    }
  }

  /** The slots of a form, in turn. */
  lemma FormSlots(f: Form, args: seq<Arg>, a: nat)
    requires Supplied(FormArgs(f), args, a)
    ensures Supplied(AmountArgs(f.width), args, a)
    ensures f.dot ==> Supplied(AmountArgs(f.precision), args, Behind(f.width, a))
    ensures a + |FormArgs(f)| == Behind(f.width, a) + if f.dot then |AmountArgs(f.precision)| else 0
  {
    SlotsSplit(AmountArgs(f.width), if f.dot then AmountArgs(f.precision) else [], args, a);
  }

  /** Precision and length modifier. */
  lemma BackFormed(fmt: string, i: nat, f: Form, d: Directive, args: seq<Arg>, a: nat, fl: Flags)
    returns (p: FieldScan, l: LengthScan)
    requires Means(f, d) && f.dot == d.flags.precision && fl == d.flags.(precision := false)
    requires f.dot ==> Supplied(AmountArgs(f.precision), args, a)
    requires Here(fmt, i, DotText(f) + (f.length + [f.conv]))
    ensures p == ParsePrecision(fmt, i, args, a, fl) && p.Field? && p.num == d.precision && p.flags == d.flags
    ensures p.arg == if f.dot then Behind(f.precision, a) else a
    ensures l == ParseLength(fmt, p.pos) && l.length == d.length && At(fmt, l.pos) == d.conv
    ensures l.pos == i + |DotText(f)| + |f.length|
  {
    Beginnings(f, d.length);
    p := PrecisionFormed(fmt, i, f, d, f.length + [f.conv], args, a, fl);
    l := LengthFormed(fmt, p.pos, f.length, d);
  }

  lemma FrontFormed(fmt: string, i: nat, f: Form, d: Directive, args: seq<Arg>, a: nat, fl: Flags)
    returns (w: FieldScan)
    requires Means(f, d) && fl == FlagsOf(f.marks, false) && Supplied(AmountArgs(f.width), args, a)
    requires Here(fmt, i, AmountText(f.width) + (DotText(f) + (f.length + [f.conv])))
    ensures w == ParseWidth(fmt, i, args, a, fl)
    ensures w == Field(d.flags.(precision := false), d.width, i + |AmountText(f.width)|, Behind(f.width, a))
    ensures Here(fmt, w.pos, DotText(f) + (f.length + [f.conv]))
  {
    Beginnings(f, d.length);
    w := WidthFormed(fmt, i, f.width, d, DotText(f) + (f.length + [f.conv]), args, a, fl, FlagsOf(f.marks, f.dot));
  }

  lemma SamePrecision(f: Form, d: Directive)
    requires Means(f, d)
    ensures f.dot == d.flags.precision
  {
  }

  /** The flags at the head of a form. */
  lemma HeadFormed(fmt: string, i: nat, f: Form, l: Length) returns (s: FlagScan)
    requires AreFlags(f.marks) && IsSpecifier(f.conv) && SpellsLength(f.length, l) && Here(fmt, i, FormText(f))
    ensures s == ParseFlags(fmt, i, NO_FLAGS) && s == FlagScan(FlagsOf(f.marks, false), i + |f.marks|)
    ensures Here(fmt, s.pos, AmountText(f.width) + (DotText(f) + (f.length + [f.conv])))
  {
    Beginnings(f, l);
    FlagsGathered(fmt, i, f.marks, AmountText(f.width) + (DotText(f) + (f.length + [f.conv])), NO_FLAGS);
    s := FlagScan(FlagsOf(f.marks, false), i + |f.marks|);
  }

  lemma FormLength(f: Form)
    ensures |FormText(f)| == |f.marks| + |AmountText(f.width)| + |DotText(f)| + |f.length| + 1
  {
  }

  lemma FormParts(fmt: string, i: nat, f: Form, d: Directive, args: seq<Arg>, a: nat)
    returns (s: FlagScan, w: FieldScan, p: FieldScan, l: LengthScan)
    requires Means(f, d) && Here(fmt, i, FormText(f)) && Supplied(FormArgs(f), args, a)
    ensures s == ParseFlags(fmt, i, NO_FLAGS)
    ensures w == ParseWidth(fmt, s.pos, args, a, s.flags) && w.Field? && w.num == d.width
    ensures p == ParsePrecision(fmt, w.pos, args, w.arg, w.flags) && p.Field? && p.num == d.precision
    ensures p.flags == d.flags && p.arg == a + |FormArgs(f)|
    ensures l == ParseLength(fmt, p.pos) && l.length == d.length && At(fmt, l.pos) == d.conv
    ensures l.pos == i + |FormText(f)| - 1
  {
    FormSlots(f, args, a);
    SamePrecision(f, d);
    s := HeadFormed(fmt, i, f, d.length);
    w := FrontFormed(fmt, s.pos, f, d, args, a, s.flags);
    p, l := BackFormed(fmt, w.pos, f, d, args, w.arg, w.flags);
    FormLength(f);
  }

  /** However a directive is written, the scanner reads it and its arguments. */
  lemma FormScans(fmt: string, i: nat, f: Form, d: Directive, args: seq<Arg>, a: nat)
    requires Means(f, d) && Here(fmt, i, FormText(f)) && Supplied(FormArgs(f), args, a)
    ensures ParseDirective(fmt, i, args, a) == Parsed(d, i + |FormText(f)| - 1, a + |FormArgs(f)|)
  {
    var s, w, p, l := FormParts(fmt, i, f, d, args, a);
    DirectiveIs(fmt, args, i, a, s, w, p, l);
  }

  /** The scanner reads back every directive from its spelling, using up exactly that. */
  lemma DirectiveSpelled(fmt: string, i: nat, d: Directive, args: seq<Arg>, a: nat)
    requires Spellable(d) && Here(fmt, i, Spelling(d))
    ensures ParseDirective(fmt, i, args, a) == Parsed(d, i + |Spelling(d)| - 1, a)
  {
    FlagTextFlags(d.flags);
    FormScans(fmt, i, FormOf(d), d, args, a);
  }

  lemma BehindPercent(s: string)
    ensures Here("%" + s, 1, s)
  {
    assert ("%" + s)[1..1 + |s|] == s;
  }

  lemma ConvertsTo(d: Directive, x: Arg, pos: nat, args: seq<Arg>, text: string)
    requires NeedsArgument(d.conv) && ConvertArgument(d, x) == Text(text)
    ensures Convert(d, pos, args + [x], |args|) == Piece(text, pos + 1, |args| + 1)
  {
    assert (args + [x])[|args|] == x;
  }

  lemma FormRead(f: Form, d: Directive, x: Arg, s: string, args: seq<Arg>)
    requires Means(f, d) && s == FormText(f) && args == FormArgs(f)
    ensures ParseDirective("%" + s, 1, args + [x], 0) == Parsed(d, |s|, |args|)
  {
    BehindPercent(s);
    assert (args + [x])[0..|args|] == args;
    FormScans("%" + s, 1, f, d, args + [x], 0);
  }

  /** However a directive is written, with its width and precision in the format or as arguments,
      it prints the conversion of the argument behind them. */
  lemma FormPrints(f: Form, d: Directive, x: Arg, s: string, args: seq<Arg>, text: string)
    requires Means(f, d) && NeedsArgument(d.conv) && ConvertArgument(d, x) == Text(text)
    requires s == FormText(f) && args == FormArgs(f)
    ensures Prints("%" + s, args + [x], text)
  {
    FormRead(f, d, x, s, args);
    ConvertsTo(d, x, |s|, args, text);
    ScannedPrints("%" + s, d, args + [x], |args|, text);
  }

  lemma ScannedPrints(fmt: string, d: Directive, all: seq<Arg>, a: nat, text: string)
    requires fmt != "" && fmt[0] == '%' && a + 1 == |all|
    requires ParseDirective(fmt, 1, all, 0) == Parsed(d, |fmt| - 1, a)
    requires Convert(d, |fmt| - 1, all, a) == Piece(text, |fmt|, a + 1)
    ensures Prints(fmt, all, text)
  {
    DirectivePrints(fmt, d, all, a, Piece(text, |fmt|, a + 1));
  }

  /** Printing the spelling of a directive prints the conversion of its argument. */
  lemma SpelledPrints(d: Directive, s: string, x: Arg, text: string)
    requires Spellable(d) && s == Spelling(d) && NeedsArgument(d.conv) && ConvertArgument(d, x) == Text(text)
    ensures Prints("%" + s, [x], text)
  {
    FlagTextFlags(d.flags);
    FormPrints(FormOf(d), d, x, s, [], text);
    assert [] + [x] == [x];
  }

  /** The same for an integer. */
  lemma IntegerPrints(d: Directive, s: string, bits: U64)
    requires Spellable(d) && s == Spelling(d) && IsInteger(d.conv) && Negatable(d, ArgValue(d, bits))
    ensures Prints("%" + s, [Num(bits)], IntegerConversion(d, ArgValue(d, bits)))
  {
    SpelledPrints(d, s, Num(bits), IntegerConversion(d, ArgValue(d, bits)));
  }
}
