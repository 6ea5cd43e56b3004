/** What a format string and its arguments denote: the unbounded character sequence that
    `_vsnprintf` hands to its output function, written left to right. */
module PrintfSpec {
  import opened Machine
  import opened Numerals

  /** PRINTF_NTOA_BUFFER_SIZE. */
  const BUFFER_SIZE: nat := 32

  /** A C string without its terminator; it fits the address space. */
  type CString = s: string | '\0' !in s && |s| < TWO64

  /** One variadic argument slot: a machine word (smaller types live in its low bits)
      or a pointer to a string, its address and what stands there. */
  datatype Arg = Num(bits: U64) | Str(address: U64, text: CString)

  /** The slot as a pointer. */
  function Pointer(x: Arg): U64 {
    if x.Num? then x.bits else x.address
  }

  /** The FLAGS_* bits other than those of the length modifiers. */
  datatype Flags = Flags(zero: bool, left: bool, plus: bool, space: bool, hash: bool,
                         upper: bool, precision: bool)

  const NO_FLAGS := Flags(false, false, false, false, false, false, false)

  /** The length modifiers: none, `h`, `hh`, `l` and `ll`. */
  datatype Length = IntLength | ShortLength | CharLength | LongLength | LongLongLength

  /** A conversion specification `%[flags][width][.precision][length]` and its specifier. */
  datatype Directive = Directive(flags: Flags, width: U32, precision: U32, length: Length, conv: char)

  // ---------------------------------------------------------------- one integer field

  /** Leading zeros up to `target` characters, as far as the digit buffer reaches. */
  function PadZeros(digits: string, target: nat): string {
    Fill('0', Min(target, BUFFER_SIZE) - |digits|) + digits
  }

  /** The zero padding of an integer: none when left-justified. */
  function ZeroPadded(digits: string, prec: nat, w: nat, fl: Flags): string {
    if fl.left then digits
    else PadZeros(PadZeros(digits, prec), if fl.zero then w else 0)
  }

  /** How many leading characters the alternate form gives up to make room for its prefix. */
  function HashDrop(len: nat, base: nat, prec: nat, w: nat, fl: Flags): (k: nat)
    ensures k <= len && k <= 2
  {
    if fl.precision || len == 0 || (len != prec && len != w) then 0
    else if base == 16 && len >= 2 then 2 else 1
  }

  function Prepend(c: char, s: string): string {
    if |s| < BUFFER_SIZE then [c] + s else s
  }

  /** The alternate form (`#`): prefix `0x`, `0X`, `0b` or `0`. */
  function Hashed(z: string, base: nat, prec: nat, w: nat, fl: Flags): string {
    var kept := z[HashDrop(|z|, base, prec, w, fl)..];
    var marked := if base == 16 then Prepend(if fl.upper then 'X' else 'x', kept)
                  else if base == 2 then Prepend('b', kept) else kept;
    Prepend('0', marked)
  }

  function Sign(negative: bool, fl: Flags): string {
    if negative then "-" else if fl.plus then "+" else if fl.space then " " else ""
  }

  /** The width that remains for zero padding once a sign position is set aside. */
  function ZeroWidth(negative: bool, width: nat, fl: Flags): nat {
    if !fl.left && width > 0 && fl.zero && Sign(negative, fl) != "" then width - 1 else width
  }

  /** Sign, prefix, zeros and digits, without blanks. */
  function Body(digits: string, negative: bool, base: nat, prec: nat, w: nat, fl: Flags): string {
    var z := ZeroPadded(digits, prec, w, fl);
    var h := if fl.hash then Hashed(z, base, prec, w, fl) else z;
    if |h| < BUFFER_SIZE then Sign(negative, fl) + h else h
  }

  /** Blank padding on the side the flags ask for. */
  function Justify(body: string, w: nat, fl: Flags): string {
    if fl.left then body + Fill(' ', w - |body|)
    else if fl.zero then body
    else Fill(' ', w - |body|) + body
  }

  function FieldText(digits: string, negative: bool, base: nat, prec: nat, width: nat, fl: Flags): string {
    var w := ZeroWidth(negative, width, fl);
    Justify(Body(digits, negative, base, prec, w, fl), w, fl)
  }

  /** No digits at all for zero with a precision. */
  function DigitText(v: nat, base: nat, fl: Flags): (s: string)
    requires 2 <= base <= 36
    ensures |s| <= BUFFER_SIZE
  {
    if fl.precision && v == 0 then "" else Digits(v, base, BUFFER_SIZE, fl.upper)
  }

  /** One converted integer. */
  function IntegerText(v: nat, negative: bool, base: nat, prec: nat, width: nat, fl: Flags): string
    requires 2 <= base <= 36
  {
    FieldText(DigitText(v, base, fl), negative, base, prec, width, if v == 0 then fl.(hash := false) else fl)
  }

  // ---------------------------------------------------------------- parsing a directive

  /** The character at `i`, with the terminator just past the end. */
  function At(s: string, i: nat): char {
    if i < |s| then s[i] else '\0'
  }

  function FlagSet(c: char, fl: Flags): (f: Option<Flags>)
    ensures f.Some? ==> f.value.precision == fl.precision
  {
    match c
    case '0' => Some(fl.(zero := true))
    case '-' => Some(fl.(left := true))
    case '+' => Some(fl.(plus := true))
    case ' ' => Some(fl.(space := true))
    case '#' => Some(fl.(hash := true))
    case _ => None
  }

  datatype FlagScan = FlagScan(flags: Flags, pos: nat)
  datatype NumberScan = NumberScan(num: U32, pos: nat)
  datatype LengthScan = LengthScan(length: Length, pos: nat)

  /** A width or precision, the flags afterwards, and the cursors behind it. */
  datatype FieldScan = NoField | Field(flags: Flags, num: U32, pos: nat, arg: nat)

  /** A directive and the cursors behind it; `pos` is at the specifier. */
  datatype DirectiveScan = NoDirective | Parsed(directive: Directive, pos: nat, arg: nat)

  function ParseFlags(fmt: string, i: nat, fl: Flags): (r: FlagScan)
    requires i <= |fmt|
    ensures i <= r.pos <= |fmt|
    ensures r.flags.precision == fl.precision
    decreases |fmt| - i
  {
    var f := FlagSet(At(fmt, i), fl);
    if f.None? then FlagScan(fl, i) else ParseFlags(fmt, i + 1, f.value)
  }

  /** `_atoi`: a run of decimal digits, accumulated modulo 2^32. */
  function ParseNumber(fmt: string, i: nat, acc: U32): (r: NumberScan)
    requires i <= |fmt|
    ensures i <= r.pos <= |fmt|
    decreases |fmt| - i
  {
    if IsDigit(At(fmt, i)) then ParseNumber(fmt, i + 1, NextNumber(acc, fmt[i]))
    else NumberScan(acc, i)
  }

  function NextNumber(acc: U32, c: char): U32
    requires IsDigit(c)
  {
    ToU32(acc * 10 + (c as int - '0' as int))
  }

  predicate IsNum(args: seq<Arg>, a: nat) {
    a < |args| && args[a].Num?
  }

  /** The width: digits, or `*` and an `int` whose negative values mean left-justify.
      The negation of INT_MIN is undefined. */
  function ParseWidth(fmt: string, i: nat, args: seq<Arg>, a: nat, fl: Flags): (r: FieldScan)
    requires i <= |fmt|
    ensures r.Field? ==> i <= r.pos <= |fmt| && r.flags.precision == fl.precision
  {
    if IsDigit(At(fmt, i)) then
      var n := ParseNumber(fmt, i, 0);
      Field(fl, n.num, n.pos, a)
    else if At(fmt, i) == '*' then
      if IsNum(args, a) then StarWidth(Signed(args[a].bits, TWO32), i, a, fl) else NoField
    else Field(fl, 0, i, a)
  }

  function StarWidth(w: int, i: nat, a: nat, fl: Flags): FieldScan
    requires -TWO31 <= w < TWO31
  {
    if w == -TWO31 then NoField
    else if w < 0 then Field(fl.(left := true), -w, i + 1, a + 1)
    else Field(fl, w, i + 1, a + 1)
  }

  /** The precision: a negative `*` argument counts as zero. */
  function ParsePrecision(fmt: string, i: nat, args: seq<Arg>, a: nat, fl: Flags): (r: FieldScan)
    requires i <= |fmt| && !fl.precision
    ensures r.Field? ==> i <= r.pos <= |fmt| && (r.flags.precision || r.num == 0)
  {
    if At(fmt, i) != '.' then Field(fl, 0, i, a)
    else if IsDigit(At(fmt, i + 1)) then
      var n := ParseNumber(fmt, i + 1, 0);
      Field(fl.(precision := true), n.num, n.pos, a)
    else if At(fmt, i + 1) == '*' then
      if IsNum(args, a) then
        Field(fl.(precision := true), Max(0, Signed(args[a].bits, TWO32)), i + 2, a + 1)
      else NoField
    else Field(fl.(precision := true), 0, i + 1, a)
  }

  /** The length modifiers. `t`, `j` and `z` are `long` on this target. */
  function ParseLength(fmt: string, i: nat): (r: LengthScan)
    requires i <= |fmt|
    ensures i <= r.pos <= |fmt|
  {
    var c := At(fmt, i);
    if c == 'l' then
      if At(fmt, i + 1) == 'l' then LengthScan(LongLongLength, i + 2) else LengthScan(LongLength, i + 1)
    else if c == 'h' then
      if At(fmt, i + 1) == 'h' then LengthScan(CharLength, i + 2) else LengthScan(ShortLength, i + 1)
    else if c == 't' || c == 'j' || c == 'z' then LengthScan(LongLength, i + 1)
    else LengthScan(IntLength, i)
  }

  /** Everything from behind the `%` up to the specifier, which `pos` points at. */
  function ParseDirective(fmt: string, i: nat, args: seq<Arg>, a: nat): (r: DirectiveScan)
    requires i <= |fmt|
    ensures r.Parsed? ==> i <= r.pos <= |fmt| && r.directive.conv == At(fmt, r.pos)
    ensures r.Parsed? ==> r.directive.flags.precision || r.directive.precision == 0
  {
    var f := ParseFlags(fmt, i, NO_FLAGS);
    var w := ParseWidth(fmt, f.pos, args, a, f.flags);
    if w.NoField? then NoDirective else
    var p := ParsePrecision(fmt, w.pos, args, w.arg, w.flags);
    if p.NoField? then NoDirective else
    var l := ParseLength(fmt, p.pos);
    Parsed(Directive(p.flags, w.num, p.num, l.length, At(fmt, l.pos)), l.pos, p.arg)
  }

  // ---------------------------------------------------------------- conversions

  predicate IsInteger(conv: char) {
    conv in {'d', 'i', 'u', 'x', 'X', 'o', 'b'}
  }

  predicate IsSigned(conv: char) {
    conv == 'd' || conv == 'i'
  }

  function BaseOf(conv: char): (base: nat)
    ensures base in {2, 8, 10, 16}
  {
    match conv
    case 'x' => 16
    case 'X' => 16
    case 'o' => 8
    case 'b' => 2
    case _ => 10
  }

  /** The flags that stay in force for an integer conversion. */
  function IntegerFlags(d: Directive): Flags {
    var fl := d.flags.(upper := d.flags.upper || d.conv == 'X', hash := d.flags.hash && BaseOf(d.conv) != 10);
    fl.(plus := fl.plus && IsSigned(d.conv), space := fl.space && IsSigned(d.conv), zero := fl.zero && !fl.precision)
  }

  /** Two to the number of bits of the argument's C type. */
  function TypeModulus(length: Length): (m: int)
    ensures m in {0x100, 0x1_0000, TWO32, TWO64}
  {
    match length
    case LongLongLength => TWO64
    case LongLength => TWO64
    case CharLength => 0x100
    case ShortLength => 0x1_0000
    case IntLength => TWO32
  }

  /** The integer an argument slot holds for this directive. */
  function ArgValue(d: Directive, bits: U64): int {
    if IsSigned(d.conv) then Signed(bits, TypeModulus(d.length)) else bits % TypeModulus(d.length)
  }

  /** The most negative `int` and `long` have no negation: printing them is undefined. */
  predicate Negatable(d: Directive, v: int) {
    !(IsSigned(d.conv) && TypeModulus(d.length) >= TWO32 && v == -(TypeModulus(d.length) / 2))
  }

  function Magnitude(v: int): nat {
    if v < 0 then -v else v
  }

  function IntegerConversion(d: Directive, v: int): string {
    IntegerText(Magnitude(v), v < 0, BaseOf(d.conv), d.precision, d.width, IntegerFlags(d))
  }

  function Blanks(width: nat, len: nat, text: string, left: bool): string {
    if left then text + Fill(' ', width - len) else Fill(' ', width - len) + text
  }

  /** The characters of a `%s` argument that are printed. */
  function Clipped(d: Directive, s: string): string {
    if d.flags.precision then s[..Min(|s|, d.precision)] else s
  }

  /** `%s` with its padding; the length that governs the padding is an `unsigned int`. */
  function StringConversion(d: Directive, s: string): string {
    Blanks(d.width, ToU32(|Clipped(d, s)|), Clipped(d, s), d.flags.left)
  }

  function CharConversion(d: Directive, bits: U64): string {
    Blanks(d.width, 1, [(bits % 0x100) as char], d.flags.left)
  }

  const POINTER_WIDTH: nat := 16

  function PointerConversion(d: Directive, bits: U64): string {
    IntegerText(bits, false, 16, d.precision, POINTER_WIDTH, d.flags.(zero := true, upper := true))
  }

  predicate IsFloating(conv: char) {
    conv in {'f', 'F', 'e', 'E', 'g', 'G'}
  }

  predicate NeedsArgument(conv: char) {
    IsInteger(conv) || conv == 'c' || conv == 's' || conv == 'p'
  }

  /** The text output in one turn of the main loop and the cursors behind it. */
  datatype Piece = Undefined | Piece(text: string, pos: nat, arg: nat)

  /** A text, if the C code defines one. */
  datatype Rendering = Failed | Text(text: string)

  /** The output of a directive for its argument. It fails for an argument of the wrong kind
      and for the negation of the most negative integer. */
  function ConvertArgument(d: Directive, x: Arg): Rendering {
    if d.conv == 's' then if x.Str? then Text(StringConversion(d, x.text)) else Failed
    else if d.conv == 'p' then Text(PointerConversion(d, Pointer(x)))
    else if x.Str? then Failed
    else if d.conv == 'c' then Text(CharConversion(d, x.bits))
    else if Negatable(d, ArgValue(d, x.bits)) then Text(IntegerConversion(d, ArgValue(d, x.bits)))
    else Failed
  }

  function Placed(t: Rendering, pos: nat, arg: nat): Piece {
    if t.Failed? then Undefined else Piece(t.text, pos, arg)
  }

  /** The output of a directive with its specifier at `pos` and the next unread argument.
      `Undefined` also marks a missing argument, a format that ends inside the directive
      (both undefined in C) and the floating-point conversions (not modelled). */
  function Convert(d: Directive, pos: nat, args: seq<Arg>, a: nat): (r: Piece)
    ensures r.Piece? ==> r.pos == pos + 1 && d.conv != '\0'
  {
    if NeedsArgument(d.conv) then
      if a < |args| then Placed(ConvertArgument(d, args[a]), pos + 1, a + 1) else Undefined
    else if d.conv == '\0' || IsFloating(d.conv) then Undefined
    else Piece([d.conv], pos + 1, a)
  }

  function Interpret(p: DirectiveScan, args: seq<Arg>): Piece {
    if p.NoDirective? then Undefined else Convert(p.directive, p.pos, args, p.arg)
  }

  // ---------------------------------------------------------------- whole formats

  /** One turn of the main loop: a literal character or a whole directive. */
  function Item(fmt: string, i: nat, args: seq<Arg>, a: nat): (r: Piece)
    requires i < |fmt|
    ensures r.Piece? ==> i < r.pos <= |fmt|
  {
    if fmt[i] != '%' then Piece([fmt[i]], i + 1, a)
    else Interpret(ParseDirective(fmt, i + 1, args, a), args)
  }

  /** The output of the format from position `i`, reading arguments from slot `a`. */
  function RenderFrom(fmt: string, i: nat, args: seq<Arg>, a: nat): Rendering
    decreases |fmt| - i
  {
    if i >= |fmt| then Text("")
    else
      var item := Item(fmt, i, args, a);
      if item.Undefined? then Failed else
      var rest := RenderFrom(fmt, item.pos, args, item.arg);
      if rest.Failed? then Failed else Text(item.text + rest.text)
  }

  /** The call is one the C code defines (and does not print floating-point numbers). */
  predicate Defined(fmt: CString, args: seq<Arg>) {
    RenderFrom(fmt, 0, args, 0).Text?
  }

  function Output(fmt: CString, args: seq<Arg>): string
    requires Defined(fmt, args)
  {
    RenderFrom(fmt, 0, args, 0).text
  }
}
