/** The formatter as the C code runs it: a reversed digit buffer, a format cursor that only
    moves forward, and an output function that receives one character at a time. Every
    method is proved against the text that PrintfSpec assigns to the same arguments. */
module Printf {
  import opened Machine
  import opened Numerals
  import opened PrintfSpec

  /** The output functions `_out_buffer`, `_out_null` and `_out_fct`. */
  datatype OutFct = OutBuffer | OutNull | OutFct

  /** What reaches a user-supplied output function: everything but NUL characters. */
  function NonNul(s: string): string {
    if s == [] then []
    else NonNul(s[..|s| - 1]) + (if s[|s| - 1] != '\0' then [s[|s| - 1]] else [])
  }

  /** The memory a bounded print of `text` leaves behind: at most `count - 1` characters,
      one terminator, and nothing else changed. */
  function Stored(initial: string, text: string, count: nat): (r: string)
    requires Min(count, |text| + 1) <= |initial|
    ensures |r| == |initial|
  {
    if count == 0 then initial
    else var k := Min(|text|, count - 1); text[..k] + ['\0'] + initial[k + 1..]
  }

  /** The caller's memory after the call: only `_out_buffer` stores anything. */
  function Memory(out: OutFct, initial: string, text: string, count: nat): string
    requires out.OutBuffer? ==> Min(count, |text| + 1) <= |initial|
  {
    if out.OutBuffer? then Stored(initial, text, count) else initial
  }

  /** The triple (output function, buffer, maxlen) passed down through the C functions,
      with the characters handed to a user function. `emitted` is the sequence of all
      characters output so far, whatever became of them. */
  class Sink {
    var out: OutFct
    const buffer: array?<char>
    const maxlen: U64
    var delivered: string
    ghost var emitted: string
    ghost const initial: string
    ghost const limit: nat

    /** `limit` bounds the number of characters that will be output: the caller's memory
        holds what is stored of them. */
    constructor (out: OutFct, buffer: array?<char>, maxlen: U64, ghost limit: nat)
      requires limit < TWO64
      requires out.OutBuffer? && buffer != null ==> Min(maxlen, limit + 1) <= buffer.Length
      ensures Ready() && this.limit == limit
      ensures this.out == out && this.buffer == buffer && this.maxlen == maxlen
    {
      this.out, this.buffer, this.maxlen, this.limit := out, buffer, maxlen, limit;
      delivered, emitted := "", "";
      initial := if buffer == null then "" else buffer[..];
    }

    /** Nothing has been output yet. */
    ghost predicate Ready()
      reads this, buffer
    {
      && emitted == "" && delivered == "" && limit < TWO64
      && (buffer != null ==> initial == buffer[..])
      && (out.OutBuffer? && buffer != null ==> Min(maxlen, limit + 1) <= buffer.Length)
    }

    ghost predicate Valid()
      reads this, buffer
    {
      && |emitted| <= limit < TWO64
      && (out.OutBuffer? ==> buffer != null && Min(maxlen, limit + 1) <= buffer.Length)
      && (buffer != null ==> BufferHolds())
      && delivered == (if out.OutFct? then NonNul(emitted) else "")
    }

    /** The buffer is the initial one overlaid with what was emitted, up to `maxlen`. */
    ghost predicate BufferHolds()
      requires buffer != null
      reads this, buffer
    {
      && buffer.Length == |initial|
      && forall i :: 0 <= i < buffer.Length ==>
           buffer[i] == if out.OutBuffer? && i < |emitted| && i < maxlen then emitted[i] else initial[i]
    }

    /** `n` more characters stay within the limit. */
    ghost predicate Room(idx: nat, n: nat)
      reads this
    {
      idx == |emitted| && |emitted| + n <= limit
    }

    /** One call of the output function. */
    method Out(c: char, idx: U64)
      requires out.OutBuffer? && idx < maxlen ==> buffer != null && idx < buffer.Length
      modifies this`delivered, buffer
      ensures buffer != null ==>
        buffer[..] == if out.OutBuffer? && idx < maxlen then old(buffer[..])[idx := c] else old(buffer[..])
      ensures delivered == if out.OutFct? && c != '\0' then old(delivered) + [c] else old(delivered)
    {
      match out
      case OutBuffer =>
        if idx < maxlen {
          buffer[idx] := c;
        }
      case OutNull =>
      case OutFct =>
        if c != '\0' {
          delivered := delivered + [c];
        }
    }

    /** `out(c, buffer, idx++, maxlen)`. */
    method Put(c: char, idx: nat) returns (next: nat)
      requires Valid() && Room(idx, 1)
      modifies this`delivered, this`emitted, buffer
      ensures Valid() && emitted == old(emitted) + [c] && next == |emitted|
    {
      Out(c, idx);
      emitted := emitted + [c];
      next := idx + 1;
      assert emitted[..|emitted| - 1] == old(emitted);
      if buffer != null {
        assert forall i :: 0 <= i < buffer.Length ==> buffer[i] == buffer[..][i];
      }
    }

    /** The padding loops: one blank for every position from `len` up to `width`. */
    method PutBlanks(idx: nat, len: nat, width: nat) returns (next: nat)
      requires Valid() && Room(idx, Max(0, width - len))
      modifies this`delivered, this`emitted, buffer
      ensures Valid() && emitted == old(emitted) + Fill(' ', width - len) && next == |emitted|
    {
      next := idx;
      var i := len;
      while i < width
        invariant len <= i && (i <= width || i == len)
        invariant Valid() && next == |emitted| == idx + (i - len)
        invariant emitted == old(emitted) + Fill(' ', i - len)
      {
        FillPush(' ', i - len);
        next := Put(' ', next);
        i := i + 1;
      }
    }

    /** The digit buffer, printed from its end. */
    method PutReversed(idx: nat, buf: array<char>, len: nat, ghost text: string) returns (next: nat)
      requires Holds(buf, len, text) && buffer != buf
      requires Valid() && Room(idx, len)
      modifies this`delivered, this`emitted, buffer
      ensures Valid() && emitted == old(emitted) + text && next == |emitted|
    {
      next := idx;
      var n := len;
      while n > 0
        invariant 0 <= n <= len && Holds(buf, len, text)
        invariant Valid() && next == |emitted| == idx + (len - n)
        invariant emitted == old(emitted) + text[..len - n]
      {
        n := n - 1;
        assert text[..len - n] == text[..len - n - 1] + [buf[n]];
        next := Put(buf[n], next);
      }
      assert text[..len] == text;
    }
  }

  /** The first `len` cells of the digit buffer, read from the end, are `text`. */
  ghost predicate Holds(buf: array<char>, len: nat, text: string)
    reads buf
  {
    && |text| == len <= buf.Length
    && forall i :: 0 <= i < len ==> buf[i] == text[len - 1 - i]
  }

  lemma Assoc(a: string, b: string, c: string)
    ensures (a + b) + c == a + (b + c)
  {
  }

  /** `_out_rev`: blanks, the digit buffer from its end, blanks. */
  method OutRev(sink: Sink, idx: nat, buf: array<char>, len: nat, width: nat, fl: Flags, ghost text: string)
    returns (next: nat)
    requires Holds(buf, len, text) && sink.buffer != buf
    requires sink.Valid() && sink.Room(idx, |Justify(text, width, fl)|)
    modifies sink`delivered, sink`emitted, sink.buffer
    ensures sink.Valid() && next == |sink.emitted|
    ensures sink.emitted == old(sink.emitted) + Justify(text, width, fl)
  {
    next := idx;
    ghost var before, pad := sink.emitted, Fill(' ', width - len);
    if !fl.left && !fl.zero {
      next := sink.PutBlanks(next, len, width);
      Assoc(before, pad, text);
    }
    next := sink.PutReversed(next, buf, len, text);
    if fl.left {
      Assoc(before, text, pad);
      next := sink.PutBlanks(next, next - idx, width);
    }
  }

  /** `buf[len++] = c`. */
  method PushChar(buf: array<char>, len: nat, c: char, ghost text: string) returns (len': nat)
    requires len < buf.Length && Holds(buf, len, text)
    modifies buf
    ensures len' == len + 1 && Holds(buf, len', [c] + text)
  {
    buf[len] := c;
    len' := len + 1;
  }

  /** The zero-padding loop, bounded by the target and by the buffer. */
  method PushZeros(buf: array<char>, len: nat, target: nat, ghost text: string) returns (len': nat)
    requires buf.Length == BUFFER_SIZE && Holds(buf, len, text)
    modifies buf
    ensures Holds(buf, len', PadZeros(text, target))
  {
    len' := len;
    while len' < target && len' < BUFFER_SIZE
      invariant len <= len' <= BUFFER_SIZE && (len' <= target || len' == len)
      invariant Holds(buf, len', Fill('0', len' - len) + text)
    {
      ghost var now := Fill('0', len' - len) + text;
      len' := PushChar(buf, len', '0', now);
      assert Fill('0', len' - len) + text == ['0'] + now;
    }
  }

  /** The alternate form: give up leading characters, then push the prefix. */
  method PushHash(buf: array<char>, len: nat, base: nat, prec: nat, w: nat, fl: Flags, ghost z: string)
    returns (len': nat)
    requires buf.Length == BUFFER_SIZE && Holds(buf, len, z)
    modifies buf
    ensures Holds(buf, len', Hashed(z, base, prec, w, fl))
  {
    len' := len;
    if !fl.precision && len' > 0 && (len' == prec || len' == w) {
      len' := len' - 1;
      if len' > 0 && base == 16 {
        len' := len' - 1;
      }
    }
    ghost var text := z[HashDrop(|z|, base, prec, w, fl)..];
    assert Holds(buf, len', text);
    if base == 16 && !fl.upper && len' < BUFFER_SIZE {
      len' := PushChar(buf, len', 'x', text);
      text := ['x'] + text;
    } else if base == 16 && fl.upper && len' < BUFFER_SIZE {
      len' := PushChar(buf, len', 'X', text);
      text := ['X'] + text;
    } else if base == 2 && len' < BUFFER_SIZE {
      len' := PushChar(buf, len', 'b', text);
      text := ['b'] + text;
    }
    if len' < BUFFER_SIZE {
      len' := PushChar(buf, len', '0', text);
    }
  }

  /** The zeros behind the digits, none when the field is left-justified. */
  method PushPadding(buf: array<char>, len: nat, prec: U32, w: U32, fl: Flags, ghost digits: string) returns (n: nat)
    requires buf.Length == BUFFER_SIZE && Holds(buf, len, digits)
    modifies buf
    ensures Holds(buf, n, ZeroPadded(digits, prec, w, fl))
  {
    n := len;
    if !fl.left {
      n := PushZeros(buf, n, prec, digits);
      ghost var inner := PadZeros(digits, prec);
      if fl.zero {
        n := PushZeros(buf, n, w, inner);
      }
      assert PadZeros(inner, if fl.zero then w else 0) == ZeroPadded(digits, prec, w, fl);
    }
  }

  /** The sign, if the buffer has room for it. */
  method PushSign(buf: array<char>, len: nat, negative: bool, fl: Flags, ghost text: string) returns (n: nat)
    requires buf.Length == BUFFER_SIZE && Holds(buf, len, text)
    modifies buf
    ensures Holds(buf, n, if |text| < BUFFER_SIZE then Sign(negative, fl) + text else text)
  {
    n := len;
    if n < BUFFER_SIZE {
      if negative {
        n := PushChar(buf, n, '-', text);
      } else if fl.plus {
        n := PushChar(buf, n, '+', text);
      } else if fl.space {
        n := PushChar(buf, n, ' ', text);
      } else {
        assert "" + text == text;
      }
    }
  }

  /** The first part of `_ntoa_format`: zeros, prefix and sign pushed behind the digits.
      The buffer index never exceeds BUFFER_SIZE. */
  method PushBody(buf: array<char>, len: nat, negative: bool, base: nat, prec: U32, width: U32, fl: Flags,
                  ghost digits: string) returns (n: nat, w: nat)
    requires buf.Length == BUFFER_SIZE && Holds(buf, len, digits)
    modifies buf
    ensures w == ZeroWidth(negative, width, fl) && n <= BUFFER_SIZE
    ensures Holds(buf, n, Body(digits, negative, base, prec, w, fl))
  {
    w := width;
    if !fl.left && w > 0 && fl.zero && (negative || fl.plus || fl.space) {
      w := w - 1;
    }
    n := PushPadding(buf, len, prec, w, fl, digits);
    ghost var text := ZeroPadded(digits, prec, w, fl);
    if fl.hash {
      n := PushHash(buf, n, base, prec, w, fl, text);
      text := Hashed(text, base, prec, w, fl);
    }
    n := PushSign(buf, n, negative, fl, text);
  }

  /** `_ntoa_format`. */
  method NtoaFormat(sink: Sink, idx: nat, buf: array<char>, len: nat, negative: bool, base: nat,
                    prec: U32, width: U32, fl: Flags, ghost digits: string) returns (next: nat)
    requires buf.Length == BUFFER_SIZE && Holds(buf, len, digits) && sink.buffer != buf
    requires sink.Valid() && sink.Room(idx, |FieldText(digits, negative, base, prec, width, fl)|)
    modifies sink`delivered, sink`emitted, sink.buffer, buf
    ensures sink.Valid() && next == |sink.emitted|
    ensures sink.emitted == old(sink.emitted) + FieldText(digits, negative, base, prec, width, fl)
  {
    var n, w := PushBody(buf, len, negative, base, prec, width, fl, digits);
    next := OutRev(sink, idx, buf, n, w, fl, Body(digits, negative, base, prec, w, fl));
  }

  /** `value % base` as a character, and `value /= base`. */
  method NextDigit(v: nat, base: nat, upper: bool) returns (digit: char, rest: nat)
    requires 2 <= base <= 36
    ensures digit == DigitChar(v % base, upper) && rest == v / base
  {
    digit := DigitChar(v % base, upper);
    rest := v / base;
  }

  /** The digit loop of `_ntoa_long`: least significant digit first. */
  method PushDigits(buf: array<char>, value: nat, base: nat, upper: bool) returns (len: nat)
    requires buf.Length == BUFFER_SIZE && 2 <= base <= 36
    modifies buf
    ensures Holds(buf, len, Digits(value, base, BUFFER_SIZE, upper))
  {
    len := 0;
    var v: nat, more := value, true;
    ghost var text := "";
    ghost var all := Digits(value, base, BUFFER_SIZE, upper);
    assert all == all + text;
    while more
      invariant Holds(buf, len, text) && (more ==> len < BUFFER_SIZE)
      invariant all == if more then Digits(v, base, BUFFER_SIZE - len, upper) + text else text
      decreases more, BUFFER_SIZE - len
    {
      DigitsStep(v, base, BUFFER_SIZE - len, upper, text);
      var digit;
      digit, v := NextDigit(v, base, upper);
      len := PushChar(buf, len, digit, text);
      text := [digit] + text;
      more := v != 0 && len < BUFFER_SIZE;
    }
  }

  /** The digits of `_ntoa_long`, none for zero with a precision. */
  method PushNumber(buf: array<char>, value: nat, base: nat, fl: Flags) returns (len: nat)
    requires buf.Length == BUFFER_SIZE && 2 <= base <= 36
    modifies buf
    ensures Holds(buf, len, DigitText(value, base, fl))
  {
    len := 0;
    if !fl.precision || value != 0 {
      len := PushDigits(buf, value, base, fl.upper);
    }
  }

  /** `_ntoa_long` and `_ntoa_long_long`, which are the same code on this target. */
  method NtoaLong(sink: Sink, idx: nat, value: U64, negative: bool, base: nat,
                  prec: U32, width: U32, fl: Flags) returns (next: nat)
    requires 2 <= base <= 36
    requires sink.Valid() && sink.Room(idx, |IntegerText(value, negative, base, prec, width, fl)|)
    modifies sink`delivered, sink`emitted, sink.buffer
    ensures sink.Valid() && next == |sink.emitted|
    ensures sink.emitted == old(sink.emitted) + IntegerText(value, negative, base, prec, width, fl)
  {
    var buf := new char[BUFFER_SIZE];
    var fl' := fl;
    if value == 0 {
      fl' := fl'.(hash := false);
    }
    var len := PushNumber(buf, value, base, fl);
    next := NtoaFormat(sink, idx, buf, len, negative, base, prec, width, fl', DigitText(value, base, fl));
  }

  /** The flag loop. */
  method ScanFlags(fmt: string, i: nat) returns (fl: Flags, j: nat)
    requires i <= |fmt|
    ensures FlagScan(fl, j) == ParseFlags(fmt, i, NO_FLAGS)
  {
    fl, j := NO_FLAGS, i;
    var n := true;
    while n
      invariant i <= j <= |fmt|
      invariant ParseFlags(fmt, i, NO_FLAGS) == if n then ParseFlags(fmt, j, fl) else FlagScan(fl, j)
      decreases |fmt| - j, n
    {
      match At(fmt, j)
      case '0' => fl := fl.(zero := true); j := j + 1;
      case '-' => fl := fl.(left := true); j := j + 1;
      case '+' => fl := fl.(plus := true); j := j + 1;
      case ' ' => fl := fl.(space := true); j := j + 1;
      case '#' => fl := fl.(hash := true); j := j + 1;
      case _ => n := false;
    }
  }

  /** `_atoi`. */
  method Atoi(fmt: string, i: nat) returns (v: U32, j: nat)
    requires i <= |fmt|
    ensures NumberScan(v, j) == ParseNumber(fmt, i, 0)
  {
    v, j := 0, i;
    while IsDigit(At(fmt, j))
      invariant i <= j <= |fmt|
      invariant ParseNumber(fmt, i, 0) == ParseNumber(fmt, j, v)
      decreases |fmt| - j
    {
      v := NextNumber(v, fmt[j]);
      j := j + 1;
    }
  }

  /** The width field. */
  method ScanWidth(fmt: string, i: nat, args: seq<Arg>, a: nat, fl: Flags)
    returns (fl': Flags, width: U32, j: nat, a': nat)
    requires i <= |fmt| && ParseWidth(fmt, i, args, a, fl).Field?
    ensures Field(fl', width, j, a') == ParseWidth(fmt, i, args, a, fl)
  {
    fl', width, j, a' := fl, 0, i, a;
    if IsDigit(At(fmt, j)) {
      width, j := Atoi(fmt, j);
    } else if At(fmt, j) == '*' {
      var w := Signed(args[a].bits, TWO32);
      if w < 0 {
        fl' := fl'.(left := true);
        width := -w;
      } else {
        width := w;
      }
      j, a' := j + 1, a' + 1;
    }
  }

  /** The precision field. */
  method ScanPrecision(fmt: string, i: nat, args: seq<Arg>, a: nat, fl: Flags)
    returns (fl': Flags, precision: U32, j: nat, a': nat)
    requires i <= |fmt| && !fl.precision && ParsePrecision(fmt, i, args, a, fl).Field?
    ensures Field(fl', precision, j, a') == ParsePrecision(fmt, i, args, a, fl)
  {
    fl', precision, j, a' := fl, 0, i, a;
    if At(fmt, j) == '.' {
      fl' := fl'.(precision := true);
      j := j + 1;
      if IsDigit(At(fmt, j)) {
        precision, j := Atoi(fmt, j);
      } else if At(fmt, j) == '*' {
        var p := Signed(args[a].bits, TWO32);
        precision := if p > 0 then p else 0;
        j, a' := j + 1, a' + 1;
      }
    }
  }

  /** The length modifier. */
  method ScanLength(fmt: string, i: nat) returns (length: Length, j: nat)
    requires i <= |fmt|
    ensures LengthScan(length, j) == ParseLength(fmt, i)
  {
    length, j := IntLength, i;
    var c := At(fmt, j);
    if c == 'l' {
      length := LongLength;
      j := j + 1;
      if At(fmt, j) == 'l' {
        length := LongLongLength;
        j := j + 1;
      }
    } else if c == 'h' {
      length := ShortLength;
      j := j + 1;
      if At(fmt, j) == 'h' {
        length := CharLength;
        j := j + 1;
      }
    } else if c == 't' || c == 'j' || c == 'z' {
      length := LongLength;
      j := j + 1;
    }
  }

  /** Everything from behind the `%` up to the specifier. */
  method ScanDirective(fmt: string, i: nat, args: seq<Arg>, a: nat) returns (d: Directive, j: nat, a': nat)
    requires i <= |fmt| && ParseDirective(fmt, i, args, a).Parsed?
    ensures Parsed(d, j, a') == ParseDirective(fmt, i, args, a)
  {
    var fl, width, precision;
    fl, j := ScanFlags(fmt, i);
    fl, width, j, a' := ScanWidth(fmt, j, args, a, fl);
    fl, precision, j, a' := ScanPrecision(fmt, j, args, a', fl);
    var length;
    length, j := ScanLength(fmt, j);
    d := Directive(fl, width, precision, length, At(fmt, j));
  }

  /** Base and flags of an integer specifier. */
  method SettleFlags(d: Directive) returns (base: nat, fl: Flags)
    requires IsInteger(d.conv)
    ensures base == BaseOf(d.conv) && fl == IntegerFlags(d)
  {
    base, fl := 10, d.flags;
    if d.conv == 'x' || d.conv == 'X' {
      base := 16;
    } else if d.conv == 'o' {
      base := 8;
    } else if d.conv == 'b' {
      base := 2;
    } else {
      fl := fl.(hash := false);
    }
    if d.conv == 'X' {
      fl := fl.(upper := true);
    }
    if d.conv != 'i' && d.conv != 'd' {
      fl := fl.(plus := false, space := false);
    }
    if fl.precision {
      fl := fl.(zero := false);
    }
  }

  /** Sign and magnitude of an integer argument, read at the width of its C type. */
  method FetchInteger(d: Directive, bits: U64) returns (value: U64, negative: bool)
    ensures value == Magnitude(ArgValue(d, bits)) && negative == (ArgValue(d, bits) < 0)
  {
    var modulus := if d.length.LongLongLength? || d.length.LongLength? then TWO64
                   else if d.length.CharLength? then 0x100
                   else if d.length.ShortLength? then 0x1_0000 else TWO32;
    if d.conv == 'i' || d.conv == 'd' {
      var v := Signed(bits, modulus);
      value, negative := if v > 0 then v else 0 - v, v < 0;
    } else {
      value, negative := bits % modulus, false;
    }
  }

  /** The `%d %i %u %x %X %o %b` cases. */
  method PrintInteger(sink: Sink, idx: nat, d: Directive, bits: U64) returns (next: nat)
    requires IsInteger(d.conv)
    requires sink.Valid() && sink.Room(idx, |IntegerConversion(d, ArgValue(d, bits))|)
    modifies sink`delivered, sink`emitted, sink.buffer
    ensures sink.Valid() && next == |sink.emitted|
    ensures sink.emitted == old(sink.emitted) + IntegerConversion(d, ArgValue(d, bits))
  {
    var base, fl := SettleFlags(d);
    var value, negative := FetchInteger(d, bits);
    next := NtoaLong(sink, idx, value, negative, base, d.precision, d.width, fl);
  }

  /** `_strnlen_s`, before its conversion to `unsigned int`. */
  method StrnlenS(s: CString, maxsize: nat) returns (n: nat)
    ensures n == Min(|s|, maxsize)
  {
    n := 0;
    while At(s, n) != '\0' && n < maxsize
      invariant n <= |s| && n <= maxsize
      decreases |s| - n
    {
      n := n + 1;
    }
  }

  /** The length that governs the padding of `%s`. */
  method PaddedLength(d: Directive, s: CString) returns (l: U32)
    requires d.flags.precision || d.precision == 0
    ensures l == ToU32(|Clipped(d, s)|)
  {
    var n := StrnlenS(s, if d.precision != 0 then d.precision else TWO64 - 1);
    l := ToU32(n);
    if d.flags.precision {
      if d.precision != 0 {
        ToU32Small(n);
      }
      l := Min(l, d.precision);
      ToU32Small(l);
    }
  }

  /** The characters of a string, up to the precision. */
  method PutText(sink: Sink, idx: nat, d: Directive, s: CString) returns (next: nat)
    requires sink.Valid() && sink.Room(idx, if d.flags.precision && d.precision < |s| then d.precision else |s|)
    modifies sink`delivered, sink`emitted, sink.buffer
    ensures sink.Valid() && next == |sink.emitted|
    ensures sink.emitted == old(sink.emitted) + s[..if d.flags.precision && d.precision < |s| then d.precision else |s|]
  {
    next := idx;
    ghost var text := s[..if d.flags.precision && d.precision < |s| then d.precision else |s|];
    var i, left := 0, d.precision as int;
    while At(s, i) != '\0' && (!d.flags.precision || left > 0)
      invariant 0 <= i <= |text| && (d.flags.precision ==> left == d.precision - i)
      invariant sink.Valid() && next == |sink.emitted| == idx + i
      invariant sink.emitted == old(sink.emitted) + text[..i]
      decreases |s| - i
    {
      assert text[..i + 1] == text[..i] + [s[i]];
      next := sink.Put(s[i], next);
      i, left := i + 1, left - 1;
    }
    assert text[..i] == text;
  }

  lemma ClippedIs(d: Directive, s: string)
    ensures Clipped(d, s) == s[..if d.flags.precision && d.precision < |s| then d.precision else |s|]
  {
    assert s[..|s|] == s;
  }

  /** The padding on one side. */
  function Padding(now: bool, width: nat, l: nat): string {
    if now then Fill(' ', width - l) else ""
  }

  lemma BlanksAround(before: string, width: nat, l: nat, text: string, left: bool)
    ensures var front, back, all := Padding(!left, width, l), Padding(left, width, l), Blanks(width, l, text, left);
      |all| == |front| + |text| + |back| && before + all == before + front + text + back
  {
    Assoc(before, text, Fill(' ', width - l));
    Assoc(before, Fill(' ', width - l), text);
    assert before + "" == before && before + Fill(' ', width - l) + text + "" == before + Fill(' ', width - l) + text;
  }

  /** One of the two padding loops of `%c` and `%s`. */
  method PutPadding(sink: Sink, idx: nat, now: bool, width: nat, l: nat) returns (next: nat)
    requires sink.Valid() && sink.Room(idx, |Padding(now, width, l)|)
    modifies sink`delivered, sink`emitted, sink.buffer
    ensures sink.Valid() && next == |sink.emitted| && sink.emitted == old(sink.emitted) + Padding(now, width, l)
  {
    next := idx;
    if now {
      next := sink.PutBlanks(next, l, width);
    }
  }

  /** A string between its blanks, `l` being the length that governs the padding. */
  method PrintBlanked(sink: Sink, idx: nat, d: Directive, s: CString, l: nat) returns (next: nat)
    requires sink.Valid() && sink.Room(idx, |Blanks(d.width, l, Clipped(d, s), d.flags.left)|)
    modifies sink`delivered, sink`emitted, sink.buffer
    ensures sink.Valid() && next == |sink.emitted|
    ensures sink.emitted == old(sink.emitted) + Blanks(d.width, l, Clipped(d, s), d.flags.left)
  {
    next := idx;
    ClippedIs(d, s);
    BlanksAround(sink.emitted, d.width, l, Clipped(d, s), d.flags.left);
    next := PutPadding(sink, idx, !d.flags.left, d.width, l);
    next := PutText(sink, next, d, s);
    next := PutPadding(sink, next, d.flags.left, d.width, l);
  }

  /** The `%s` case. */
  method PrintString(sink: Sink, idx: nat, d: Directive, s: CString) returns (next: nat)
    requires d.flags.precision || d.precision == 0
    requires sink.Valid() && sink.Room(idx, |StringConversion(d, s)|)
    modifies sink`delivered, sink`emitted, sink.buffer
    ensures sink.Valid() && next == |sink.emitted|
    ensures sink.emitted == old(sink.emitted) + StringConversion(d, s)
    ensures var text := s[..if d.flags.precision && d.precision < |s| then d.precision else |s|];
      var blanks := Fill(' ', d.width - |text| % 0x1_0000_0000);
      sink.emitted == old(sink.emitted) + if d.flags.left then text + blanks else blanks + text
  {
    ClippedIs(d, s);
    var l := PaddedLength(d, s);
    next := PrintBlanked(sink, idx, d, s, l);
  }

  /** The `%c` case. */
  method PrintChar(sink: Sink, idx: nat, d: Directive, bits: U64) returns (next: nat)
    requires sink.Valid() && sink.Room(idx, |CharConversion(d, bits)|)
    modifies sink`delivered, sink`emitted, sink.buffer
    ensures sink.Valid() && next == |sink.emitted|
    ensures sink.emitted == old(sink.emitted) + CharConversion(d, bits)
    ensures var text, blanks := [(bits % 0x100) as char], Fill(' ', d.width - 1);
      sink.emitted == old(sink.emitted) + if d.flags.left then text + blanks else blanks + text
  {
    var c := (bits % 0x100) as char;
    BlanksAround(sink.emitted, d.width, 1, [c], d.flags.left);
    next := PutPadding(sink, idx, !d.flags.left, d.width, 1);
    next := sink.Put(c, next);
    next := PutPadding(sink, next, d.flags.left, d.width, 1);
  }

  /** The specifier switch: one directive, one step of the argument list. */
  method PrintDirective(sink: Sink, idx: nat, d: Directive, pos: nat, args: seq<Arg>, a: nat)
    returns (next: nat, a': nat)
    requires Convert(d, pos, args, a).Piece? && (d.flags.precision || d.precision == 0)
    requires sink.Valid() && sink.Room(idx, |Convert(d, pos, args, a).text|)
    modifies sink`delivered, sink`emitted, sink.buffer
    ensures sink.Valid() && next == |sink.emitted|
    ensures sink.emitted == old(sink.emitted) + Convert(d, pos, args, a).text
    ensures a' == Convert(d, pos, args, a).arg
  {
    next, a' := idx, a;
    if d.conv in {'d', 'i', 'u', 'x', 'X', 'o', 'b'} {
      next := PrintInteger(sink, idx, d, args[a].bits);
      a' := a + 1;
    } else if d.conv == 'c' {
      next := PrintChar(sink, idx, d, args[a].bits);
      a' := a + 1;
    } else if d.conv == 's' {
      next := PrintString(sink, idx, d, args[a].text);
      a' := a + 1;
    } else if d.conv == 'p' {
      var fl := d.flags.(zero := true, upper := true);
      next := NtoaLong(sink, idx, Pointer(args[a]), false, 16, d.precision, POINTER_WIDTH, fl);
      a' := a + 1;
    } else {
      next := sink.Put(d.conv, next);
    }
  }

  /** One turn of the main loop: a literal character or a directive. */
  method PrintItem(sink: Sink, idx: nat, fmt: CString, i: nat, args: seq<Arg>, a: nat)
    returns (next: nat, i': nat, a': nat)
    requires i < |fmt| && Item(fmt, i, args, a).Piece?
    requires sink.Valid() && sink.Room(idx, |Item(fmt, i, args, a).text|)
    modifies sink`delivered, sink`emitted, sink.buffer
    ensures sink.Valid() && next == |sink.emitted|
    ensures sink.emitted == old(sink.emitted) + Item(fmt, i, args, a).text
    ensures i' == Item(fmt, i, args, a).pos && a' == Item(fmt, i, args, a).arg
  {
    if fmt[i] != '%' {
      next := sink.Put(fmt[i], idx);
      i', a' := i + 1, a;
    } else {
      var d, j, b := ScanDirective(fmt, i + 1, args, a);
      next, a' := PrintDirective(sink, idx, d, j, args, b);
      i' := j + 1;
    }
  }

  /** The main loop of `_vsnprintf`: the sink receives exactly the denoted text. */
  method PrintAll(sink: Sink, fmt: CString, args: seq<Arg>) returns (idx: nat)
    requires Defined(fmt, args)
    requires sink.Valid() && sink.emitted == "" && |Output(fmt, args)| <= sink.limit
    modifies sink`delivered, sink`emitted, sink.buffer
    ensures sink.Valid() && sink.emitted == Output(fmt, args) && idx == |sink.emitted|
  {
    ghost var text := Output(fmt, args);
    var i, a := 0, 0;
    idx := 0;
    while i < |fmt|
      invariant 0 <= i <= |fmt| && 0 <= a && sink.Valid() && idx == |sink.emitted|
      invariant RenderFrom(fmt, i, args, a).Text?
      invariant text == sink.emitted + RenderFrom(fmt, i, args, a).text
      decreases |fmt| - i
    {
      ghost var item := Item(fmt, i, args, a);
      ghost var rest := RenderFrom(fmt, item.pos, args, item.arg).text;
      assert text == (sink.emitted + item.text) + rest;
      idx, i, a := PrintItem(sink, idx, fmt, i, args, a);
    }
  }

  /** Where the terminator goes. */
  function TerminatorIndex(length: nat, maxlen: U64): nat {
    if length < maxlen then length else ToU64(maxlen - 1)
  }

  lemma Terminated(out: OutFct, initial: string, text: string, maxlen: U64, b: string)
    requires out.OutBuffer? ==> Min(maxlen, |text| + 1) <= |initial|
    requires |b| == |initial|
    requires forall i :: 0 <= i < |b| ==>
      b[i] == if out.OutBuffer? && i < |text| && i < maxlen then text[i] else initial[i]
    ensures var k := TerminatorIndex(|text|, maxlen);
      if out.OutBuffer? && k < maxlen then k < |b| && b[k := '\0'] == Memory(out, initial, text, maxlen)
      else b == Memory(out, initial, text, maxlen)
  {
  }

  /** The terminator goes behind the text or into the last position; with `maxlen` zero
      the index wraps around and nothing is stored. */
  method Terminate(sink: Sink, idx: nat)
    requires sink.Valid() && idx == |sink.emitted| == sink.limit
    modifies sink`delivered, sink.buffer
    ensures sink.delivered == old(sink.delivered)
    ensures sink.buffer != null ==> sink.buffer[..] == Memory(sink.out, sink.initial, sink.emitted, sink.maxlen)
  {
    if sink.buffer != null {
      Terminated(sink.out, sink.initial, sink.emitted, sink.maxlen, sink.buffer[..]);
    }
    sink.Out('\0', if idx < sink.maxlen then idx else ToU64(sink.maxlen - 1));
  }

  /** What the calls return: the length of the whole output, converted to `int`. */
  function Result(fmt: CString, args: seq<Arg>): int
    requires Defined(fmt, args)
  {
    Signed(|Output(fmt, args)|, TWO32)
  }

  /** `_vsnprintf`. The returned count is the whole length, converted to `int`. */
  method Vsnprintf(sink: Sink, fmt: CString, args: seq<Arg>) returns (r: int)
    requires Defined(fmt, args) && sink.Ready() && sink.limit == |Output(fmt, args)|
    modifies sink, sink.buffer
    ensures r == Result(fmt, args)
    ensures sink.buffer != null ==>
      sink.buffer[..] == Memory(old(sink.out), old(sink.buffer[..]), Output(fmt, args), sink.maxlen)
    ensures sink.delivered ==
      if old(sink.out).OutFct? && sink.buffer != null then NonNul(Output(fmt, args)) else ""
  {
    if sink.buffer == null {
      sink.out := OutNull;
    }
    var idx := PrintAll(sink, fmt, args);
    Terminate(sink, idx);
    r := Signed(idx, TWO32);
  }

  /** `snprintf_` and `vsnprintf_`. */
  method Snprintf(buffer: array?<char>, count: U64, fmt: CString, args: seq<Arg>) returns (r: int)
    requires Defined(fmt, args) && |Output(fmt, args)| < TWO64
    requires buffer != null ==> Min(count, |Output(fmt, args)| + 1) <= buffer.Length
    modifies buffer
    ensures r == Result(fmt, args)
    ensures buffer != null ==> buffer[..] == Stored(old(buffer[..]), Output(fmt, args), count)
  {
    var sink := new Sink(OutBuffer, buffer, count, |Output(fmt, args)|);
    r := Vsnprintf(sink, fmt, args);
  }

  /** `fctprintf`: the user function sees the text without its NUL characters. The wrapper
      structure stands where the buffer would, so the buffer is never null. */
  method Fctprintf(fmt: CString, args: seq<Arg>) returns (r: int, delivered: string)
    requires Defined(fmt, args) && |Output(fmt, args)| < TWO64
    ensures r == Result(fmt, args)
    ensures delivered == NonNul(Output(fmt, args))
  {
    var wrap := new char[0];
    var sink := new Sink(OutFct, wrap, TWO64 - 1, |Output(fmt, args)|);
    r := Vsnprintf(sink, fmt, args);
    delivered := sink.delivered;
  }
}
