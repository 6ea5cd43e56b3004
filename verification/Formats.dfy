/** Concrete formats of the kernel: the names of PCI functions in the file system and the long
    conversions that round-trip. */
module Formats {
  import opened Machine
  import opened Numerals
  import opened PrintfSpec
  import opened PrintfComposition
  import opened Directives
  import opened Kstrtol
  import opened RoundTrip
  import opened AutoBase
  import opened HashRoundTrip
  import PrintfLaws
  import PrintfOutput

  // ---------------------------------------------------------------- PCI names

  /** `%.<digits>x` of an `unsigned int`. */
  function HexDirective(digits: U32): Directive {
    Directive(NO_FLAGS.(precision := true), 0, digits, IntLength, 'x')
  }

  /** The hexadecimal numeral of a number, with zeros up to `digits` digits. */
  function HexName(v: nat, digits: nat): string {
    var s := if v == 0 then "" else Digits(v, 16, BUFFER_SIZE, false);
    Fill('0', digits - |s|) + s
  }

  lemma PaddedField(s: string, prec: nat, fl: Flags)
    requires fl == NO_FLAGS.(precision := true) && |s| < BUFFER_SIZE && prec < BUFFER_SIZE
    ensures FieldText(s, false, 16, prec, 0, fl) == Fill('0', prec - |s|) + s
  {
    ZeroPaddedIs(s, prec, 0, fl);
    PrintfLaws.ZeroPaddedLength(s, prec, 0, fl);
    assert Body(s, false, 16, prec, 0, fl) == "" + ZeroPadded(s, prec, 0, fl);
    assert Fill(' ', 0) + Body(s, false, 16, prec, 0, fl) == Body(s, false, 16, prec, 0, fl);
  }

  /** Two (or one) hexadecimal digits denote the number and nothing is padded or cut. */
  lemma HexNameIs(v: nat, digits: nat)
    requires (digits == 2 && v < 0x100) || (digits == 1 && v < 0x10)
    ensures |HexName(v, digits)| == digits && Value(HexName(v, digits), 16) == v
    ensures IsNumeral(HexName(v, digits), 16)
  {
    var s := if v == 0 then "" else Digits(v, 16, BUFFER_SIZE, false);
    DigitLoop(v, 16, false);
    assert Pow(16, 2) == 0x100 && Pow(16, 1) == 0x10;
    DigitsLength(v, 16, BUFFER_SIZE, false, digits);
    ZerosNumeral(digits - |s|, s, 16);
  }

  lemma HexConversion(v: nat, digits: U32)
    requires v < 0x100 && digits <= 2
    ensures IntegerConversion(HexDirective(digits), v) == HexName(v, digits)
  {
    DigitLoop(v, 16, false);
    PaddedField(if v == 0 then "" else Digits(v, 16, BUFFER_SIZE, false), digits, NO_FLAGS.(precision := true));
  }

  lemma HexSpelling(digits: U32)
    requires digits == 1 || digits == 2
    ensures Spelling(HexDirective(digits)) == if digits == 1 then ".1x" else ".2x"
  {
    FlagTextIs(HexDirective(digits).flags);
    SmallMod(digits, 10);
    assert NumberText(digits) == (if digits == 1 then "1" else "2");
  }

  lemma HexArgument(digits: U32, v: nat)
    requires digits <= 2 && v < 0x100
    ensures ConvertArgument(HexDirective(digits), Num(v)) == Text(HexName(v, digits))
  {
    SmallMod(v, TWO32);
    HexConversion(v, digits);
  }

  lemma HexFormat(digits: U32) returns (s: string)
    requires digits == 1 || digits == 2
    ensures s == Spelling(HexDirective(digits)) && "%" + s == if digits == 1 then "%.1x" else "%.2x"
  {
    HexSpelling(digits);
    s := if digits == 1 then ".1x" else ".2x";
  }

  lemma HexSpelled(s: string, digits: U32, v: nat)
    requires s == Spelling(HexDirective(digits)) && digits <= 2 && v < 0x100
    ensures Prints("%" + s, [Num(v)], HexName(v, digits))
  {
    HexArgument(digits, v);
    SpelledPrints(HexDirective(digits), s, Num(v), HexName(v, digits));
  }

  /** `%.1x` and `%.2x` of a byte. */
  lemma HexPrints(fmt: string, digits: U32, v: nat)
    requires fmt == (if digits == 1 then "%.1x" else "%.2x") && (digits == 1 || digits == 2) && v < 0x100
    ensures Prints(fmt, [Num(v)], HexName(v, digits))
  {
    var s := HexFormat(digits);
    HexSpelled(s, digits, v);
  }

  const PCI_DIRECTORY := "/proc/bus/pci/"
  /** The format "/proc/bus/pci/%.2x/%.2x.%.1x" in its parts. */
  const PCI_PATH: CString := PCI_DIRECTORY + ("%.2x" + ("/" + ("%.2x" + ("." + "%.1x"))))
  const PATH_BUFFER_SIZE := 128

  lemma PathFormat()
    ensures PCI_PATH == "/proc/bus/pci/%.2x/%.2x.%.1x"
  {
  }

  function PathOf(b: string, d: string, f: string): string {
    PCI_DIRECTORY + (b + ("/" + (d + ("." + f))))
  }

  function PathText(bus: nat, device: nat, fn: nat): string {
    PathOf(HexName(bus, 2), HexName(device, 2), HexName(fn, 1))
  }

  function PathArgs(bus: U32, device: U32, fn: U32): seq<Arg> {
    [Num(bus), Num(device), Num(fn)]
  }

  /** Plain text in front of a format. */
  lemma TextThen(literal: string, g: string, args: seq<Arg>, t: string)
    requires '%' !in literal && Prints(g, args, t)
    ensures Prints(literal + g, args, literal + t)
  {
    LiteralPrints(literal);
    PrintsConcat(literal, g, [], args, literal, t);
    assert [] + args == args;
  }

  /** A byte in hexadecimal in front of a format. */
  lemma HexThen(v: nat, g: string, args: seq<Arg>, t: string)
    requires v < 0x100 && Prints(g, args, t)
    ensures Prints("%.2x" + g, [Num(v)] + args, HexName(v, 2) + t)
  {
    HexPrints("%.2x", 2, v);
    PrintsConcat("%.2x", g, [Num(v)], args, HexName(v, 2), t);
  }

  lemma DevicePrints(device: U32, fn: U32)
    requires device < 0x100 && fn < 0x100
    ensures Prints("%.2x" + ("." + "%.1x"), [Num(device)] + [Num(fn)], HexName(device, 2) + ("." + HexName(fn, 1)))
  {
    HexPrints("%.1x", 1, fn);
    TextThen(".", "%.1x", [Num(fn)], HexName(fn, 1));
    HexThen(device, "." + "%.1x", [Num(fn)], "." + HexName(fn, 1));
  }

  lemma BusPrints(bus: U32, g: string, args: seq<Arg>, t: string)
    requires bus < 0x100 && Prints(g, args, t)
    ensures Prints(PCI_DIRECTORY + ("%.2x" + ("/" + g)), [Num(bus)] + args,
                   PCI_DIRECTORY + (HexName(bus, 2) + ("/" + t)))
  {
    TextThen("/", g, args, t);
    HexThen(bus, "/" + g, args, "/" + t);
    TextThen(PCI_DIRECTORY, "%.2x" + ("/" + g), [Num(bus)] + args, HexName(bus, 2) + ("/" + t));
  }

  /** The path of a function is the fixed text with two, two and one hexadecimal digits. */
  lemma PathIs(bus: U32, device: U32, fn: U32)
    requires bus < 0x100 && device < 0x20 && fn < 8
    ensures Prints(PCI_PATH, PathArgs(bus, device, fn), PathText(bus, device, fn))
  {
    DevicePrints(device, fn);
    BusPrints(bus, "%.2x" + ("." + "%.1x"), [Num(device)] + [Num(fn)], HexName(device, 2) + ("." + HexName(fn, 1)));
    assert PathArgs(bus, device, fn) == [Num(bus)] + ([Num(device)] + [Num(fn)]);
  }

  /** It fits its buffer, so that nothing is truncated. */
  lemma PathFits(bus: U32, device: U32, fn: U32)
    requires bus < 0x100 && device < 0x20 && fn < 8
    ensures |PathText(bus, device, fn)| == 21 < PATH_BUFFER_SIZE
  {
    HexNameIs(bus, 2);
    HexNameIs(device, 2);
    HexNameIs(fn, 1);
  }

  lemma PathFields(b: string, d: string, f: string)
    requires |b| == 2 && |d| == 2 && |f| == 1
    ensures var t := PathOf(b, d, f);
      |t| == 21 && t[14..16] == b && t[17..19] == d && t[20..21] == f
  {
  }

  lemma PathPunctuation(b: string, d: string, f: string)
    requires |b| == 2 && |d| == 2 && |f| == 1
    ensures var t := PathOf(b, d, f);
      |t| == 21 && t[..14] == "/proc/bus/pci/" && t[16] == '/' && t[19] == '.'
  {
  }

  lemma HexNameLetters(v: nat, digits: nat)
    requires (digits == 2 && v < 0x100) || (digits == 1 && v < 0x10)
    ensures forall c :: c in HexName(v, digits) ==> '0' <= c <= '9' || 'a' <= c <= 'f'
  {
    var t, s := HexName(v, digits), if v == 0 then "" else Digits(v, 16, BUFFER_SIZE, false);
    PrintfOutput.DigitLetters(v, 16, false);
    forall i | 0 <= i < |t| ensures '0' <= t[i] <= '9' || 'a' <= t[i] <= 'f' {
      var z := Max(0, digits - |s|);
      assert t[i] == if i < z then '0' else s[i - z];
      if z <= i {
        assert s[i - z] in s;
      }
    }
  }

  /** The name of a field. */
  predicate IsHexName(t: string, v: nat) {
    IsNumeral(t, 16) && Value(t, 16) == v && forall c :: c in t ==> '0' <= c <= '9' || 'a' <= c <= 'f'
  }

  /** Character by character: directory, bus, device and function in lower-case hexadecimal. */
  lemma PathReads(bus: U32, device: U32, fn: U32)
    requires bus < 0x100 && device < 0x20 && fn < 8
    ensures var t := PathText(bus, device, fn);
      && |t| == 21 && t[..14] == "/proc/bus/pci/" && t[16] == '/' && t[19] == '.'
      && IsHexName(t[14..16], bus) && IsHexName(t[17..19], device) && IsHexName(t[20..21], fn)
  {
    HexNameIs(bus, 2);
    HexNameIs(device, 2);
    HexNameIs(fn, 1);
    HexNameLetters(bus, 2);
    HexNameLetters(device, 2);
    HexNameLetters(fn, 1);
    PathFields(HexName(bus, 2), HexName(device, 2), HexName(fn, 1));
    PathPunctuation(HexName(bus, 2), HexName(device, 2), HexName(fn, 1));
  }

  lemma PathTextClean(b: string, d: string, f: string)
    requires '\0' !in b && '\0' !in d && '\0' !in f
    ensures '\0' !in PathOf(b, d, f)
  {
    assert '\0' !in "/" + (d + ("." + f));
  }

  /** No NUL character in a path. */
  lemma PathClean(bus: U32, device: U32, fn: U32)
    requires bus < 0x100 && device < 0x20 && fn < 8
    ensures '\0' !in PathText(bus, device, fn)
  {
    HexNameClean(bus, 2);
    HexNameClean(device, 2);
    HexNameClean(fn, 1);
    PathTextClean(HexName(bus, 2), HexName(device, 2), HexName(fn, 1));
  }

  lemma HexNameClean(v: nat, digits: U32)
    requires (digits == 2 && v < 0x100) || (digits == 1 && v < 0x10)
    ensures '\0' !in HexName(v, digits)
  {
    HexNameIs(v, digits);
    NumeralClean(HexName(v, digits), 16);
  }

  /** Different functions have different paths: the path determines the triple. */
  lemma PathInjective(b: U32, d: U32, f: U32, b': U32, d': U32, f': U32)
    requires b < 0x100 && d < 0x20 && f < 8 && b' < 0x100 && d' < 0x20 && f' < 8
    requires PathText(b, d, f) == PathText(b', d', f')
    ensures b == b' && d == d' && f == f'
  {
    HexNameIs(b, 2);
    HexNameIs(d, 2);
    HexNameIs(f, 1);
    HexNameIs(b', 2);
    HexNameIs(d', 2);
    HexNameIs(f', 1);
    PathFields(HexName(b, 2), HexName(d, 2), HexName(f, 1));
    PathFields(HexName(b', 2), HexName(d', 2), HexName(f', 1));
  }

  // ---------------------------------------------------------------- long conversions

  function LongDirective(hash: bool, conv: char): Directive {
    Directive(NO_FLAGS.(hash := hash), 0, 0, LongLength, conv)
  }

  lemma LongSpelling(hash: bool, conv: char)
    ensures Spelling(LongDirective(hash, conv)) == if hash then ['#', 'l', conv] else ['l', conv]
  {
    FlagTextIs(LongDirective(hash, conv).flags);
  }

  /** `%l<conv>` and `%#l<conv>`. */
  lemma LongPrints(fmt: string, hash: bool, conv: char, v: int)
    requires fmt == (if hash then ['%', '#', 'l', conv] else ['%', 'l', conv]) && conv in {'d', 'x', 'X', 'o'}
    requires -TWO63 < v < TWO63 && (conv == 'd' || 0 <= v)
    ensures Prints(fmt, [Num(ToU64(v))], IntegerConversion(LongDirective(hash, conv), v))
  {
    var d, s := LongDirective(hash, conv), fmt[1..];
    LongValue(d, v);
    LongSpelling(hash, conv);
    assert fmt == "%" + s;
    IntegerPrints(d, s, ToU64(v));
  }

  lemma LongValue(d: Directive, v: int)
    requires d.length == LongLength && -TWO63 < v < TWO63 && (IsSigned(d.conv) || 0 <= v)
    ensures ArgValue(d, ToU64(v)) == v && Negatable(d, v)
  {
    if v < 0 {
      ModUnique(v, TWO64, -1, v + TWO64);
    } else {
      SmallMod(v, TWO64);
    }
    SmallMod(ToU64(v), TWO64);
  }

  /** `%ld` comes back in base 10 and with base detection. */
  lemma LongDecimal(v: int)
    requires -TWO63 < v < TWO63
    ensures var r := RenderFrom("%ld", 0, [Num(ToU64(v))], 0);
      r.Text? && ReadsAs(r.text, 10, v) && ReadsAs(r.text, 0, v)
  {
    var d := LongDirective(false, 'd');
    LongPrints("%ld", false, 'd', v);
    LongValue(d, v);
    DecimalRoundTrip(d, ToU64(v));
    DecimalAutoRoundTrip(d, ToU64(v));
  }

  lemma HashValue(v: nat, conv: char)
    requires v < TWO63 && conv in {'x', 'X', 'o'}
    ensures ReadsAs(IntegerConversion(LongDirective(true, conv), v), 0, v)
  {
    var d := LongDirective(true, conv);
    LongValue(d, v);
    if conv == 'o' {
      OctalRoundTrip(d, ToU64(v));
    } else {
      HexRoundTrip(d, ToU64(v));
    }
  }

  /** `%#lx`, `%#lX` and `%#lo` describe their base themselves, zero included. */
  lemma LongSelfDescribing(v: nat)
    requires v < TWO63
    ensures forall fmt :: fmt in {"%#lx", "%#lX", "%#lo"} ==>
      var r := RenderFrom(fmt, 0, [Num(ToU64(v))], 0); r.Text? && ReadsAs(r.text, 0, v)
  {
    LongPrints("%#lx", true, 'x', v);
    LongPrints("%#lX", true, 'X', v);
    LongPrints("%#lo", true, 'o', v);
    HashValue(v, 'x');
    HashValue(v, 'X');
    HashValue(v, 'o');
  }
}
