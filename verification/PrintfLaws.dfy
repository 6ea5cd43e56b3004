/** Laws of the formatter that hold for every format, argument list and buffer size. */
module PrintfLaws {
  import opened Machine
  import opened PrintfSpec
  import opened Printf
  import opened CStrings

  // ---------------------------------------------------------------- the snprintf contract

  /** The buffer holds the longest prefix of the text that fits, up to the first NUL the text
      itself may contain, and nothing behind the terminator changes. */
  lemma StoredPrefix(initial: string, text: string, count: nat)
    requires 0 < count && Min(count, |text| + 1) <= |initial|
    ensures var k := Min(|text|, count - 1);
      && Stored(initial, text, count)[..k] == text[..k] && Stored(initial, text, count)[k] == '\0'
      && StringAt(Stored(initial, text, count), 0) == StringAt(text[..k], 0)
      && ('\0' !in text ==> StringAt(text[..k], 0) == text[..k])
    ensures forall i :: Min(count, |text| + 1) <= i < |initial| ==> Stored(initial, text, count)[i] == initial[i]
  {
    var k := Min(|text|, count - 1);
    var memory := Stored(initial, text, count);
    assert memory[..k] == text[..k];
    StringAtFront(memory, text[..k], 0);
    StringAtWhole(text[..k], 0);
  }

  /** What is stored is the whole text, as a C string, iff the text is shorter than `count`
      and contains no NUL. */
  lemma CompleteIff(initial: string, text: string, count: nat)
    requires 0 < count && Min(count, |text| + 1) <= |initial|
    ensures StringAt(Stored(initial, text, count), 0) == text <==> |text| < count && '\0' !in text
  {
    StoredPrefix(initial, text, count);
    StringEnds(Stored(initial, text, count), 0);
    assert |text| < count ==> text[..|text|] == text;
  }

  lemma {:induction false} NonNulConcat(s: string, t: string)
    ensures NonNul(s + t) == NonNul(s) + NonNul(t)
    decreases |t|
  {
    if t == "" {
      assert s + t == s;
    } else {
      NonNulConcat(s, t[..|t| - 1]);
      assert (s + t)[..|s + t| - 1] == s + t[..|t| - 1];
    }
  }

  lemma {:induction false} NonNulClean(t: string)
    ensures '\0' !in NonNul(t) && ('\0' !in t ==> NonNul(t) == t)
    decreases |t|
  {
    if t != "" {
      NonNulClean(t[..|t| - 1]);
      assert t == t[..|t| - 1] + [t[|t| - 1]];
    }
  }

  /** What a user function sees: a text without NUL characters as it is, a concatenation as one
      part after the other, and a NUL not at all. */
  lemma NonNulIs(s: string, t: string)
    ensures '\0' !in NonNul(t) && ('\0' !in t ==> NonNul(t) == t)
    ensures NonNul(s + t) == NonNul(s) + NonNul(t) && NonNul("\0") == ""
  {
    NonNulClean(t);
    NonNulConcat(s, t);
  }

  // How callers are told to read the result: if it is not negative and below `count`, nothing
  // was cut off.

  /** The result of the call is non-negative and less than `count`. */
  predicate Claimed(fmt: CString, args: seq<Arg>, count: U64)
    requires Defined(fmt, args)
  {
    0 <= Result(fmt, args) < count
  }

  /** The whole text and its terminator go into `count` characters. */
  predicate Whole(fmt: CString, args: seq<Arg>, count: U64)
    requires Defined(fmt, args)
  {
    |Output(fmt, args)| < count
  }

  /** This reading is right for one `count` unless the length has wrapped around to a
      non-negative `int` below it, and for every `count` exactly when the length does not wrap to
      a non-negative `int`, in particular for every output below 4 GiB. */
  lemma ResultContract(fmt: CString, args: seq<Arg>)
    requires Defined(fmt, args) && |Output(fmt, args)| < TWO64
    ensures var n := |Output(fmt, args)|;
      forall count: U64 :: (Claimed(fmt, args, count) ==> Whole(fmt, args, count)) <==>
        n < count || n % TWO32 >= TWO31 || n % TWO32 >= count
    ensures (forall count: U64 :: Claimed(fmt, args, count) ==> Whole(fmt, args, count)) <==>
      |Output(fmt, args)| < TWO32 || |Output(fmt, args)| % TWO32 >= TWO31
  {
    var n := |Output(fmt, args)|;
    if n < TWO32 {
      ToU32Small(n);
    } else if n % TWO32 < TWO31 {
      var count: U64 := n % TWO32 + 1;
      assert Claimed(fmt, args, count) && !Whole(fmt, args, count);
    }
  }

  // ---------------------------------------------------------------- field widths

  /** The length of `n` digits after zero padding. */
  function ZeroedLength(n: nat, prec: nat, w: nat, fl: Flags): nat {
    if fl.left then n
    else Max(Max(n, Min(prec, BUFFER_SIZE)), if fl.zero then Min(w, BUFFER_SIZE) else 0)
  }

  lemma ZeroPaddedLength(digits: string, prec: nat, w: nat, fl: Flags)
    requires |digits| <= BUFFER_SIZE
    ensures |ZeroPadded(digits, prec, w, fl)| == ZeroedLength(|digits|, prec, w, fl)
  {
  }

  /** The length of a field without alternate form. */
  lemma FieldLength(digits: string, negative: bool, base: nat, prec: nat, width: nat, fl: Flags)
    requires |digits| <= BUFFER_SIZE && !fl.hash
    ensures var w := ZeroWidth(negative, width, fl);
      var z := |ZeroPadded(digits, prec, w, fl)|;
      var body := if z < BUFFER_SIZE then z + |Sign(negative, fl)| else z;
      z <= BUFFER_SIZE &&
      |FieldText(digits, negative, base, prec, width, fl)| == if fl.zero && !fl.left then body else Max(w, body)
  {
    var w := ZeroWidth(negative, width, fl);
    ZeroPaddedLength(digits, prec, w, fl);
  }

  lemma FieldWidth(digits: string, negative: bool, base: nat, prec: nat, width: nat, fl: Flags)
    requires |digits| <= BUFFER_SIZE && !fl.hash
    ensures |FieldText(digits, negative, base, prec, width, fl)| ==
              Max(width, |FieldText(digits, negative, base, prec, 0, fl)|)
            <==> !(fl.zero && !fl.left && width > BUFFER_SIZE)
  {
    FieldLength(digits, negative, base, prec, width, fl);
    FieldLength(digits, negative, base, prec, 0, fl);
    ZeroPaddedLength(digits, prec, ZeroWidth(negative, width, fl), fl);
    ZeroPaddedLength(digits, prec, ZeroWidth(negative, 0, fl), fl);
  }

  /** Without the alternate form a width stretches the field to exactly that many
      characters, unless zeros would have to fill more than the digit buffer holds. */
  lemma IntegerWidth(v: nat, negative: bool, base: nat, prec: nat, width: nat, fl: Flags)
    requires 2 <= base <= 36 && (!fl.hash || v == 0)
    ensures |IntegerText(v, negative, base, prec, width, fl)| ==
              Max(width, |IntegerText(v, negative, base, prec, 0, fl)|)
            <==> !(fl.zero && !fl.left && width > BUFFER_SIZE)
  {
    FieldWidth(DigitText(v, base, fl), negative, base, prec, width, fl.(hash := false));
  }

  /** `%s` fills its width unless the length, reduced to 32 bits, looks too short. */
  lemma StringWidth(d: Directive, s: string)
    ensures |StringConversion(d, s)| == Max(d.width, |Clipped(d, s)|)
            <==> |Clipped(d, s)| < TWO32 || |Clipped(d, s)| % TWO32 >= d.width
  {
    var n := |Clipped(d, s)|;
    if n < TWO32 {
      ToU32Small(n);
    }
    assert |Blanks(d.width, ToU32(n), Clipped(d, s), d.flags.left)| == n + Max(0, d.width - ToU32(n));
  }

  // ---------------------------------------------------------------- a bound on the output

  lemma FieldBound(digits: string, negative: bool, base: nat, prec: nat, width: nat, fl: Flags)
    requires |digits| <= BUFFER_SIZE
    ensures |FieldText(digits, negative, base, prec, width, fl)| <= Max(width, BUFFER_SIZE)
  {
    var w := ZeroWidth(negative, width, fl);
    ZeroPaddedLength(digits, prec, w, fl);
    assert |Body(digits, negative, base, prec, w, fl)| <= BUFFER_SIZE;
  }

  /** An argument is printed with at most its width, its own length and a digit buffer. */
  function ArgumentBound(d: Directive, x: Arg): nat {
    d.width + BUFFER_SIZE + if x.Str? then |x.text| else 0
  }

  lemma IntegerBounded(v: nat, negative: bool, base: nat, prec: nat, width: nat, fl: Flags)
    requires 2 <= base <= 36
    ensures |IntegerText(v, negative, base, prec, width, fl)| <= Max(width, BUFFER_SIZE)
  {
    FieldBound(DigitText(v, base, fl), negative, base, prec, width, if v == 0 then fl.(hash := false) else fl);
  }

  lemma StringBounded(d: Directive, s: string)
    ensures |StringConversion(d, s)| <= d.width + |s|
  {
  }

  lemma CharBounded(d: Directive, bits: U64)
    ensures |CharConversion(d, bits)| <= d.width + 1
  {
  }

  /** `%c` prints one character in its width, or alone. */
  lemma CharWidth(d: Directive, bits: U64)
    ensures |CharConversion(d, bits)| == Max(d.width, 1)
  {
    assert |Fill(' ', d.width - 1)| == Max(0, d.width - 1);
  }

  lemma ArgumentBounded(d: Directive, x: Arg)
    ensures var t := ConvertArgument(d, x); t.Text? ==> |t.text| <= ArgumentBound(d, x)
  {
    if d.conv == 'p' {
      IntegerBounded(Pointer(x), false, 16, d.precision, POINTER_WIDTH, d.flags.(zero := true, upper := true));
    } else if x.Str? {
      StringBounded(d, x.text);
    } else if d.conv == 'c' {
      CharBounded(d, x.bits);
    } else {
      var v := ArgValue(d, x.bits);
      IntegerBounded(Magnitude(v), v < 0, BaseOf(d.conv), d.precision, d.width, IntegerFlags(d));
    }
  }

  function ItemBound(fmt: string, i: nat, args: seq<Arg>, a: nat): nat
    requires i < |fmt|
  {
    if fmt[i] != '%' then 1
    else
      var p := ParseDirective(fmt, i + 1, args, a);
      if p.Parsed? && p.arg < |args| then 1 + ArgumentBound(p.directive, args[p.arg]) else 1
  }

  lemma ItemBounded(fmt: string, i: nat, args: seq<Arg>, a: nat)
    requires i < |fmt|
    ensures var t := Item(fmt, i, args, a); t.Piece? ==> |t.text| <= ItemBound(fmt, i, args, a)
  {
    if fmt[i] == '%' {
      var p := ParseDirective(fmt, i + 1, args, a);
      if p.Parsed? && p.arg < |args| {
        ArgumentBounded(p.directive, args[p.arg]);
      }
    }
  }

  /** What a caller can add up before the call: one for each character, and for each directive
      its width, 32 and the length of its string. */
  function CallBound(fmt: string, i: nat, args: seq<Arg>, a: nat): nat
    decreases |fmt| - i
  {
    if i >= |fmt| then 0
    else
      var item := Item(fmt, i, args, a);
      ItemBound(fmt, i, args, a) + if item.Piece? then CallBound(fmt, item.pos, args, item.arg) else 0
  }

  lemma {:induction false} OutputBounded(fmt: string, i: nat, args: seq<Arg>, a: nat)
    ensures var t := RenderFrom(fmt, i, args, a); t.Text? ==> |t.text| <= CallBound(fmt, i, args, a)
    decreases |fmt| - i
  {
    if i < |fmt| {
      var item := Item(fmt, i, args, a);
      ItemBounded(fmt, i, args, a);
      if item.Piece? {
        OutputBounded(fmt, item.pos, args, item.arg);
      }
    }
  }

  /** Calls within 2 GiB, as widths and strings tell beforehand, return the exact length. */
  lemma ExactResult(fmt: CString, args: seq<Arg>)
    requires Defined(fmt, args) && CallBound(fmt, 0, args, 0) < TWO31
    ensures Result(fmt, args) == |Output(fmt, args)|
  {
    OutputBounded(fmt, 0, args, 0);
    ToU32Small(|Output(fmt, args)|);
  }
}
