/** Formatting is compositional: a format inside a longer one, with its arguments inside longer
    ones, is read and printed as if it stood alone. */
module PrintfComposition {
  import opened Machine
  import opened Numerals
  import opened PrintfSpec

  /** `fmt` sits inside `fmt'` at offset `k`. */
  predicate Inside(fmt: string, fmt': string, k: nat) {
    k + |fmt| <= |fmt'| && fmt'[k..k + |fmt|] == fmt
  }

  predicate ArgsInside(args: seq<Arg>, args': seq<Arg>, m: nat) {
    m + |args| <= |args'| && args'[m..m + |args|] == args
  }

  lemma {:induction false} FlagsEmbed(fmt: string, fmt': string, k: nat, i: nat, fl: Flags)
    requires Inside(fmt, fmt', k) && i <= |fmt| && ParseFlags(fmt, i, fl).pos < |fmt|
    ensures var r := ParseFlags(fmt, i, fl);
      ParseFlags(fmt', k + i, fl) == FlagScan(r.flags, k + r.pos)
    decreases |fmt| - i
  {
    assert At(fmt', k + i) == At(fmt, i);
    var f := FlagSet(At(fmt, i), fl);
    if f.Some? {
      FlagsEmbed(fmt, fmt', k, i + 1, f.value);
    }
  }

  lemma {:induction false} NumberEmbed(fmt: string, fmt': string, k: nat, i: nat, acc: U32)
    requires Inside(fmt, fmt', k) && i <= |fmt| && ParseNumber(fmt, i, acc).pos < |fmt|
    ensures var r := ParseNumber(fmt, i, acc);
      ParseNumber(fmt', k + i, acc) == NumberScan(r.num, k + r.pos)
    decreases |fmt| - i
  {
    assert At(fmt', k + i) == At(fmt, i);
    if IsDigit(At(fmt, i)) {
      NumberEmbed(fmt, fmt', k, i + 1, NextNumber(acc, fmt[i]));
    }
  }

  lemma WidthEmbed(fmt: string, args: seq<Arg>, fmt': string, k: nat, args': seq<Arg>, m: nat,
                   i: nat, a: nat, fl: Flags)
    requires Inside(fmt, fmt', k) && ArgsInside(args, args', m) && i <= |fmt|
    requires var r := ParseWidth(fmt, i, args, a, fl); r.Field? && r.pos < |fmt|
    ensures var r := ParseWidth(fmt, i, args, a, fl);
      ParseWidth(fmt', k + i, args', m + a, fl) == Field(r.flags, r.num, k + r.pos, m + r.arg)
  {
    assert At(fmt', k + i) == At(fmt, i);
    if IsDigit(At(fmt, i)) {
      NumberEmbed(fmt, fmt', k, i, 0);
    } else if At(fmt, i) == '*' {
      assert args'[m + a] == args[a];
    }
  }

  lemma PrecisionEmbed(fmt: string, args: seq<Arg>, fmt': string, k: nat, args': seq<Arg>, m: nat,
                       i: nat, a: nat, fl: Flags)
    requires Inside(fmt, fmt', k) && ArgsInside(args, args', m) && i <= |fmt| && !fl.precision
    requires var r := ParsePrecision(fmt, i, args, a, fl); r.Field? && r.pos < |fmt|
    ensures var r := ParsePrecision(fmt, i, args, a, fl);
      ParsePrecision(fmt', k + i, args', m + a, fl) == Field(r.flags, r.num, k + r.pos, m + r.arg)
  {
    assert At(fmt', k + i) == At(fmt, i);
    if At(fmt, i) == '.' {
      assert At(fmt', k + (i + 1)) == At(fmt, i + 1);
      if IsDigit(At(fmt, i + 1)) {
        NumberEmbed(fmt, fmt', k, i + 1, 0);
      } else if At(fmt, i + 1) == '*' {
        assert args'[m + a] == args[a];
      }
    }
  }

  lemma LengthEmbed(fmt: string, fmt': string, k: nat, i: nat)
    requires Inside(fmt, fmt', k) && i <= |fmt| && ParseLength(fmt, i).pos < |fmt|
    ensures var r := ParseLength(fmt, i);
      ParseLength(fmt', k + i) == LengthScan(r.length, k + r.pos) && At(fmt', k + r.pos) == At(fmt, r.pos)
  {
    assert At(fmt', k + i) == At(fmt, i);
    assert i + 1 < |fmt| ==> At(fmt', k + (i + 1)) == At(fmt, i + 1);
  }

  /** A parse of a directive from the parses of its parts. */
  lemma DirectiveIs(fmt: string, args: seq<Arg>, i: nat, a: nat, f: FlagScan, w: FieldScan, p: FieldScan, l: LengthScan)
    requires i <= |fmt| && f == ParseFlags(fmt, i, NO_FLAGS)
    requires w == ParseWidth(fmt, f.pos, args, a, f.flags) && w.Field?
    requires p == ParsePrecision(fmt, w.pos, args, w.arg, w.flags) && p.Field? && l == ParseLength(fmt, p.pos)
    ensures ParseDirective(fmt, i, args, a) ==
      Parsed(Directive(p.flags, w.num, p.num, l.length, At(fmt, l.pos)), l.pos, p.arg)
  {
  }

  lemma DirectiveParts(fmt: string, args: seq<Arg>, i: nat, a: nat)
    returns (f: FlagScan, w: FieldScan, p: FieldScan, l: LengthScan)
    requires i <= |fmt| && ParseDirective(fmt, i, args, a).Parsed?
    ensures f == ParseFlags(fmt, i, NO_FLAGS)
    ensures w == ParseWidth(fmt, f.pos, args, a, f.flags) && w.Field?
    ensures p == ParsePrecision(fmt, w.pos, args, w.arg, w.flags) && p.Field? && l == ParseLength(fmt, p.pos)
    ensures f.pos <= w.pos <= p.pos <= l.pos == ParseDirective(fmt, i, args, a).pos
  {
    f := ParseFlags(fmt, i, NO_FLAGS);
    w := ParseWidth(fmt, f.pos, args, a, f.flags);
    p := ParsePrecision(fmt, w.pos, args, w.arg, w.flags);
    l := ParseLength(fmt, p.pos);
  }

  lemma HeadEmbed(fmt: string, args: seq<Arg>, fmt': string, k: nat, args': seq<Arg>, m: nat, i: nat, a: nat,
                  f: FlagScan, w: FieldScan) returns (f': FlagScan, w': FieldScan)
    requires Inside(fmt, fmt', k) && ArgsInside(args, args', m) && i <= |fmt|
    requires f == ParseFlags(fmt, i, NO_FLAGS) && f.pos < |fmt|
    requires w == ParseWidth(fmt, f.pos, args, a, f.flags) && w.Field? && w.pos < |fmt|
    ensures f' == ParseFlags(fmt', k + i, NO_FLAGS)
    ensures w' == ParseWidth(fmt', f'.pos, args', m + a, f'.flags)
    ensures w' == Field(w.flags, w.num, k + w.pos, m + w.arg)
  {
    FlagsEmbed(fmt, fmt', k, i, NO_FLAGS);
    f' := FlagScan(f.flags, k + f.pos);
    WidthEmbed(fmt, args, fmt', k, args', m, f.pos, a, f.flags);
    w' := Field(w.flags, w.num, k + w.pos, m + w.arg);
  }

  lemma TailEmbed(fmt: string, args: seq<Arg>, fmt': string, k: nat, args': seq<Arg>, m: nat, i: nat, a: nat,
                  fl: Flags, p: FieldScan, l: LengthScan) returns (p': FieldScan, l': LengthScan)
    requires Inside(fmt, fmt', k) && ArgsInside(args, args', m) && i <= |fmt| && !fl.precision
    requires p == ParsePrecision(fmt, i, args, a, fl) && p.Field? && p.pos < |fmt|
    requires l == ParseLength(fmt, p.pos) && l.pos < |fmt|
    ensures p' == ParsePrecision(fmt', k + i, args', m + a, fl)
    ensures p' == Field(p.flags, p.num, k + p.pos, m + p.arg)
    ensures l' == ParseLength(fmt', p'.pos) && l' == LengthScan(l.length, k + l.pos)
    ensures At(fmt', l'.pos) == At(fmt, l.pos)
  {
    PrecisionEmbed(fmt, args, fmt', k, args', m, i, a, fl);
    p' := Field(p.flags, p.num, k + p.pos, m + p.arg);
    LengthEmbed(fmt, fmt', k, p.pos);
    l' := LengthScan(l.length, k + l.pos);
  }

  lemma DirectiveEmbed(fmt: string, args: seq<Arg>, fmt': string, k: nat, args': seq<Arg>, m: nat, i: nat, a: nat)
    requires Inside(fmt, fmt', k) && ArgsInside(args, args', m) && i <= |fmt|
    requires var r := ParseDirective(fmt, i, args, a); r.Parsed? && r.pos < |fmt|
    ensures var r := ParseDirective(fmt, i, args, a);
      ParseDirective(fmt', k + i, args', m + a) == Parsed(r.directive, k + r.pos, m + r.arg)
  {
    var f, w, p, l := DirectiveParts(fmt, args, i, a);
    DirectiveIs(fmt, args, i, a, f, w, p, l);
    var f', w' := HeadEmbed(fmt, args, fmt', k, args', m, i, a, f, w);
    var p', l' := TailEmbed(fmt, args, fmt', k, args', m, w.pos, w.arg, w.flags, p, l);
    DirectiveIs(fmt', args', k + i, m + a, f', w', p', l');
  }

  function Shift(item: Piece, k: nat, m: nat): Piece {
    if item.Undefined? then Undefined else Piece(item.text, k + item.pos, m + item.arg)
  }

  /** Arguments other than the one a directive reads do not matter. */
  lemma ConvertEmbed(d: Directive, pos: nat, k: nat, args: seq<Arg>, args': seq<Arg>, m: nat, a: nat)
    returns (r: Piece, r': Piece)
    requires ArgsInside(args, args', m)
    ensures r == Convert(d, pos, args, a) && r' == Convert(d, k + pos, args', m + a)
    ensures r.Piece? ==> r' == Shift(r, k, m)
  {
    r, r' := Convert(d, pos, args, a), Convert(d, k + pos, args', m + a);
    if r.Piece? && NeedsArgument(d.conv) {
      assert args'[m + a] == args[a];
    }
  }

  lemma InterpretIs(d: Directive, pos: nat, a: nat, args: seq<Arg>, r: Piece)
    requires r == Convert(d, pos, args, a)
    ensures Interpret(Parsed(d, pos, a), args) == r
  {
  }

  lemma InterpretEmbed(d: Directive, pos: nat, a: nat, k: nat, args: seq<Arg>, args': seq<Arg>, m: nat)
    returns (r: Piece, r': Piece)
    requires ArgsInside(args, args', m)
    ensures r == Interpret(Parsed(d, pos, a), args) && r' == Interpret(Parsed(d, k + pos, m + a), args')
    ensures r.Piece? ==> r' == Shift(r, k, m) && d.conv != '\0' && r.pos == pos + 1
  {
    r, r' := ConvertEmbed(d, pos, k, args, args', m, a);
    InterpretIs(d, pos, a, args, r);
    InterpretIs(d, k + pos, m + a, args', r');
  }

  // The two halves of a directive as functions: finding it at the two cursors, and its output.
  // A turn of the main loop is stated for any such functions.
  type Scanner = (nat, nat) -> DirectiveScan
  type Interpreter = DirectiveScan -> Piece

  function ScannerOf(fmt: string, args: seq<Arg>): Scanner {
    (i: nat, a: nat) => if i <= |fmt| then ParseDirective(fmt, i, args, a) else NoDirective
  }

  function InterpreterOf(args: seq<Arg>): Interpreter {
    p => Interpret(p, args)
  }

  function ItemBy(scan: Scanner, interpret: Interpreter, fmt: string, i: nat, a: nat): Piece
    requires i < |fmt|
  {
    if fmt[i] != '%' then Piece([fmt[i]], i + 1, a) else interpret(scan(i + 1, a))
  }

  lemma ItemIs(fmt: string, i: nat, args: seq<Arg>, a: nat)
    requires i < |fmt|
    ensures Item(fmt, i, args, a) == ItemBy(ScannerOf(fmt, args), InterpreterOf(args), fmt, i, a)
  {
  }

  /** Shifting a directive shifts its output. */
  predicate ReadMatches(read: Interpreter, read': Interpreter, k: nat, m: nat, p: DirectiveScan) {
    read(p).Piece? ==>
      p.Parsed? && p.directive.conv != '\0' && read(p).pos == p.pos + 1 &&
      read'(Parsed(p.directive, k + p.pos, m + p.arg)) == Shift(read(p), k, m)
  }

  ghost predicate ReadAlike(read: Interpreter, read': Interpreter, k: nat, m: nat) {
    forall p: DirectiveScan :: ReadMatches(read, read', k, m, p)
  }

  lemma ReaderIs(args: seq<Arg>, p: DirectiveScan, r: Piece)
    requires r == Interpret(p, args)
    ensures InterpreterOf(args)(p) == r
  {
  }

  lemma ReadsBoth(args: seq<Arg>, args': seq<Arg>, k: nat, m: nat, d: Directive, pos: nat, a: nat)
    returns (r: Piece, r': Piece)
    requires ArgsInside(args, args', m)
    ensures r == InterpreterOf(args)(Parsed(d, pos, a)) && r' == InterpreterOf(args')(Parsed(d, k + pos, m + a))
    ensures r.Piece? ==> r' == Shift(r, k, m) && d.conv != '\0' && r.pos == pos + 1
  {
    r, r' := InterpretEmbed(d, pos, a, k, args, args', m);
    ReaderIs(args, Parsed(d, pos, a), r);
    ReaderIs(args', Parsed(d, k + pos, m + a), r');
  }

  lemma MatchBy(read: Interpreter, read': Interpreter, k: nat, m: nat, d: Directive, pos: nat, a: nat,
                r: Piece, r': Piece)
    requires r == read(Parsed(d, pos, a)) && r' == read'(Parsed(d, k + pos, m + a))
    requires r.Piece? ==> r' == Shift(r, k, m) && d.conv != '\0' && r.pos == pos + 1
    ensures ReadMatches(read, read', k, m, Parsed(d, pos, a))
  {
  }

  lemma DirectiveMatches(args: seq<Arg>, args': seq<Arg>, k: nat, m: nat, d: Directive, pos: nat, a: nat)
    requires ArgsInside(args, args', m)
    ensures ReadMatches(InterpreterOf(args), InterpreterOf(args'), k, m, Parsed(d, pos, a))
  {
    var r, r' := ReadsBoth(args, args', k, m, d, pos, a);
    MatchBy(InterpreterOf(args), InterpreterOf(args'), k, m, d, pos, a, r, r');
  }

  lemma InterpretersMatch(args: seq<Arg>, args': seq<Arg>, k: nat, m: nat, p: DirectiveScan)
    requires ArgsInside(args, args', m)
    ensures ReadMatches(InterpreterOf(args), InterpreterOf(args'), k, m, p)
  {
    match p {
      case NoDirective =>
      case Parsed(d, pos, a) => DirectiveMatches(args, args', k, m, d, pos, a);
    }
  }

  lemma InterpretersAlike(args: seq<Arg>, args': seq<Arg>, k: nat, m: nat)
    requires ArgsInside(args, args', m)
    ensures ReadAlike(InterpreterOf(args), InterpreterOf(args'), k, m)
  {
    forall p: DirectiveScan ensures ReadMatches(InterpreterOf(args), InterpreterOf(args'), k, m, p) {
      InterpretersMatch(args, args', k, m, p);
    }
  }

  /** A directive that ends before `n` is found `k` characters and `m` slots further on, too. */
  predicate ScanMatches(scan: Scanner, n: nat, scan': Scanner, k: nat, m: nat, i: nat, a: nat) {
    var p := scan(i, a);
    p.Parsed? && p.directive.conv != '\0' ==>
      p.pos < n && scan'(k + i, m + a) == Parsed(p.directive, k + p.pos, m + p.arg)
  }

  ghost predicate ScansAlike(scan: Scanner, n: nat, scan': Scanner, k: nat, m: nat) {
    forall i: nat, a: nat :: ScanMatches(scan, n, scan', k, m, i, a)
  }

  lemma ScannerIs(fmt: string, args: seq<Arg>, i: nat, a: nat) returns (p: DirectiveScan)
    ensures p == ScannerOf(fmt, args)(i, a)
    ensures i <= |fmt| ==> p == ParseDirective(fmt, i, args, a)
    ensures p.Parsed? && p.directive.conv != '\0' ==> i <= |fmt| && p.pos < |fmt|
  {
    p := ScannerOf(fmt, args)(i, a);
  }

  lemma ScansBoth(fmt: string, args: seq<Arg>, fmt': string, k: nat, args': seq<Arg>, m: nat, i: nat, a: nat)
    returns (p: DirectiveScan, p': DirectiveScan)
    requires Inside(fmt, fmt', k) && ArgsInside(args, args', m)
    ensures p == ScannerOf(fmt, args)(i, a) && p' == ScannerOf(fmt', args')(k + i, m + a)
    ensures p.Parsed? && p.directive.conv != '\0' ==>
      p.pos < |fmt| && p' == Parsed(p.directive, k + p.pos, m + p.arg)
  {
    p := ScannerIs(fmt, args, i, a);
    p' := ScannerIs(fmt', args', k + i, m + a);
    if p.Parsed? && p.directive.conv != '\0' {
      DirectiveEmbed(fmt, args, fmt', k, args', m, i, a);
    }
  }

  lemma ScannersMatch(fmt: string, args: seq<Arg>, fmt': string, k: nat, args': seq<Arg>, m: nat, i: nat, a: nat)
    requires Inside(fmt, fmt', k) && ArgsInside(args, args', m)
    ensures ScanMatches(ScannerOf(fmt, args), |fmt|, ScannerOf(fmt', args'), k, m, i, a)
  {
    var p, p' := ScansBoth(fmt, args, fmt', k, args', m, i, a);
  }

  lemma ScannersAlike(fmt: string, args: seq<Arg>, fmt': string, k: nat, args': seq<Arg>, m: nat)
    requires Inside(fmt, fmt', k) && ArgsInside(args, args', m)
    ensures ScansAlike(ScannerOf(fmt, args), |fmt|, ScannerOf(fmt', args'), k, m)
  {
    forall i: nat, a: nat
      ensures ScanMatches(ScannerOf(fmt, args), |fmt|, ScannerOf(fmt', args'), k, m, i, a)
    {
      ScannersMatch(fmt, args, fmt', k, args', m, i, a);
    }
  }

  lemma ItemEmbed(scan: Scanner, read: Interpreter, fmt: string, scan': Scanner, read': Interpreter, fmt': string,
                  k: nat, m: nat, i: nat, a: nat)
    requires Inside(fmt, fmt', k) && ScansAlike(scan, |fmt|, scan', k, m) && ReadAlike(read, read', k, m)
    requires i < |fmt| && ItemBy(scan, read, fmt, i, a).Piece?
    ensures ItemBy(scan, read, fmt, i, a).pos <= |fmt|
    ensures ItemBy(scan', read', fmt', k + i, m + a) == Shift(ItemBy(scan, read, fmt, i, a), k, m)
  {
    assert fmt'[k + i] == fmt[i];
    if fmt[i] == '%' {
      assert ReadMatches(read, read', k, m, scan(i + 1, a));
      assert ScanMatches(scan, |fmt|, scan', k, m, i + 1, a);
    }
  }

  // A turn of the main loop as a function of the two cursors. What follows about loops
  // holds for any such step, so it is stated for all of them.
  type Step = (nat, nat) -> Piece

  function StepBy(scan: Scanner, read: Interpreter, fmt: string): Step {
    (i: nat, a: nat) => if i < |fmt| then ItemBy(scan, read, fmt, i, a) else Undefined
  }

  function Stepper(fmt: string, args: seq<Arg>): Step {
    StepBy(ScannerOf(fmt, args), InterpreterOf(args), fmt)
  }

  function Joined(first: string, rest: Rendering): Rendering {
    if rest.Failed? then Failed else Text(first + rest.text)
  }

  /** The main loop over a step: its text. */
  function Run(step: Step, n: nat, i: nat, a: nat): Rendering
    decreases n - i
  {
    if i >= n then Text("")
    else if step(i, a).Undefined? || step(i, a).pos <= i then Failed
    else Joined(step(i, a).text, Run(step, n, step(i, a).pos, step(i, a).arg))
  }

  /** The argument slot that is next after the loop. */
  function RunArgs(step: Step, n: nat, i: nat, a: nat): nat
    decreases n - i
  {
    if i >= n || step(i, a).Undefined? || step(i, a).pos <= i then a
    else RunArgs(step, n, step(i, a).pos, step(i, a).arg)
  }

  lemma {:induction false} RenderIsRun(fmt: string, args: seq<Arg>, i: nat, a: nat)
    ensures RenderFrom(fmt, i, args, a) == Run(Stepper(fmt, args), |fmt|, i, a)
    decreases |fmt| - i
  {
    if i < |fmt| {
      var item := Item(fmt, i, args, a);
      ItemIs(fmt, i, args, a);
      assert Stepper(fmt, args)(i, a) == item;
      if item.Piece? {
        RenderIsRun(fmt, args, item.pos, item.arg);
      }
    }
  }

  /** If `step` is defined at these cursors, `big` does the same `k` characters and `m`
      slots further on. */
  predicate Matches(step: Step, n: nat, big: Step, k: nat, m: nat, i: nat, a: nat) {
    step(i, a).Piece? ==> step(i, a).pos <= n && big(k + i, m + a) == Shift(step(i, a), k, m)
  }

  ghost predicate Simulates(step: Step, n: nat, big: Step, k: nat, m: nat) {
    forall i: nat, a: nat :: i < n ==> Matches(step, n, big, k, m, i, a)
  }

  lemma StepMatches(scan: Scanner, read: Interpreter, fmt: string, scan': Scanner, read': Interpreter, fmt': string,
                    k: nat, m: nat, i: nat, a: nat)
    requires Inside(fmt, fmt', k) && ScansAlike(scan, |fmt|, scan', k, m) && ReadAlike(read, read', k, m) && i < |fmt|
    ensures Matches(StepBy(scan, read, fmt), |fmt|, StepBy(scan', read', fmt'), k, m, i, a)
  {
    if ItemBy(scan, read, fmt, i, a).Piece? {
      ItemEmbed(scan, read, fmt, scan', read', fmt', k, m, i, a);
    }
  }

  lemma StepSimulates(scan: Scanner, read: Interpreter, fmt: string, scan': Scanner, read': Interpreter, fmt': string,
                      k: nat, m: nat)
    requires Inside(fmt, fmt', k) && ScansAlike(scan, |fmt|, scan', k, m) && ReadAlike(read, read', k, m)
    ensures Simulates(StepBy(scan, read, fmt), |fmt|, StepBy(scan', read', fmt'), k, m)
  {
    forall i: nat, a: nat | i < |fmt|
      ensures Matches(StepBy(scan, read, fmt), |fmt|, StepBy(scan', read', fmt'), k, m, i, a)
    {
      StepMatches(scan, read, fmt, scan', read', fmt', k, m, i, a);
    }
  }

  lemma StepperSimulates(fmt: string, args: seq<Arg>, fmt': string, k: nat, args': seq<Arg>, m: nat)
    requires Inside(fmt, fmt', k) && ArgsInside(args, args', m)
    ensures Simulates(Stepper(fmt, args), |fmt|, Stepper(fmt', args'), k, m)
  {
    ScannersAlike(fmt, args, fmt', k, args', m);
    InterpretersAlike(args, args', k, m);
    StepSimulates(ScannerOf(fmt, args), InterpreterOf(args), fmt, ScannerOf(fmt', args'), InterpreterOf(args'), fmt',
                  k, m);
  }

  lemma RunTurn(step: Step, n: nat, i: nat, a: nat, item: Piece)
    requires i < n && step(i, a) == item && item.Piece? && i < item.pos
    ensures Run(step, n, i, a) == Joined(item.text, Run(step, n, item.pos, item.arg))
    ensures RunArgs(step, n, i, a) == RunArgs(step, n, item.pos, item.arg)
  {
  }

  lemma JoinedTwice(a: string, b: string, rest: Rendering)
    ensures Joined(a, Joined(b, rest)) == Joined(a + b, rest)
  {
    assert rest.Text? ==> a + (b + rest.text) == (a + b) + rest.text;
  }

  /** A loop that simulates a smaller one outputs its text and goes on behind it. */
  lemma {:induction false} RunEmbed(step: Step, n: nat, big: Step, n': nat, k: nat, m: nat, i: nat, a: nat)
    requires Simulates(step, n, big, k, m) && k + n <= n' && i <= n && Run(step, n, i, a).Text?
    ensures Run(big, n', k + i, m + a) ==
      Joined(Run(step, n, i, a).text, Run(big, n', k + n, m + RunArgs(step, n, i, a)))
    ensures RunArgs(big, n', k + i, m + a) == RunArgs(big, n', k + n, m + RunArgs(step, n, i, a))
    decreases n - i
  {
    if i < n {
      var item := step(i, a);
      assert Matches(step, n, big, k, m, i, a);
      RunEmbed(step, n, big, n', k, m, item.pos, item.arg);
      RunTurn(big, n', k + i, m + a, Shift(item, k, m));
      JoinedTwice(item.text, Run(step, n, item.pos, item.arg).text, Run(big, n', k + n, m + RunArgs(step, n, i, a)));
    }
  }

  /** Two loops that follow one another inside a third. */
  lemma RunConcat(first: Step, n: nat, second: Step, n': nat, big: Step, total: nat, m: nat)
    requires Simulates(first, n, big, 0, 0) && Run(first, n, 0, 0).Text? && RunArgs(first, n, 0, 0) == m
    requires Simulates(second, n', big, n, m) && Run(second, n', 0, 0).Text? && total == n + n'
    ensures Run(big, total, 0, 0) == Text(Run(first, n, 0, 0).text + Run(second, n', 0, 0).text)
    ensures RunArgs(big, total, 0, 0) == m + RunArgs(second, n', 0, 0)
  {
    RunEmbed(first, n, big, total, 0, 0, 0, 0);
    RunEmbed(second, n', big, total, n, m, 0, 0);
    assert Run(second, n', 0, 0).text + "" == Run(second, n', 0, 0).text;
  }

  /** The number of argument slots a format reads. */
  function ArgsRead(fmt: string, args: seq<Arg>): nat {
    RunArgs(Stepper(fmt, args), |fmt|, 0, 0)
  }

  lemma AppendSimulates(f: string, g: string, args: seq<Arg>, more: seq<Arg>)
    ensures Simulates(Stepper(f, args), |f|, Stepper(f + g, args + more), 0, 0)
    ensures Simulates(Stepper(g, more), |g|, Stepper(f + g, args + more), |f|, |args|)
  {
    StepperSimulates(f, args, f + g, 0, args + more, 0);
    StepperSimulates(g, more, f + g, |f|, args + more, |args|);
  }

  /** The loop over a format as a loop over steps. */
  lemma LoopIs(fmt: string, args: seq<Arg>, step: Step)
    requires step == Stepper(fmt, args)
    ensures RenderFrom(fmt, 0, args, 0) == Run(step, |fmt|, 0, 0) && ArgsRead(fmt, args) == RunArgs(step, |fmt|, 0, 0)
  {
    RenderIsRun(fmt, args, 0, 0);
  }

  /** The loops over two formats and over their concatenation. */
  lemma Loops(f: string, g: string, args: seq<Arg>, more: seq<Arg>) returns (first: Step, second: Step, big: Step)
    ensures first == Stepper(f, args) && second == Stepper(g, more) && big == Stepper(f + g, args + more)
    ensures Simulates(first, |f|, big, 0, 0) && Simulates(second, |g|, big, |f|, |args|)
  {
    first, second, big := Stepper(f, args), Stepper(g, more), Stepper(f + g, args + more);
    AppendSimulates(f, g, args, more);
  }

  /** The format prints `text` and reads all these arguments and no more. */
  predicate Prints(fmt: string, args: seq<Arg>, text: string) {
    RenderFrom(fmt, 0, args, 0) == Text(text) && ArgsRead(fmt, args) == |args|
  }

  /** Formatting is a homomorphism: printing a concatenated format with concatenated
      arguments is printing the two parts one after the other. */
  lemma PrintsConcat(f: string, g: string, args: seq<Arg>, more: seq<Arg>, s: string, t: string)
    requires Prints(f, args, s) && Prints(g, more, t)
    ensures Prints(f + g, args + more, s + t)
  {
    var first, second, big := Loops(f, g, args, more);
    LoopIs(f, args, first);
    LoopIs(g, more, second);
    LoopIs(f + g, args + more, big);
    RunConcat(first, |f|, second, |g|, big, |f + g|, |args|);
  }

  /** A format without directives prints itself. */
  lemma {:induction false} LiteralFrom(fmt: string, i: nat)
    requires '%' !in fmt && i <= |fmt|
    ensures RenderFrom(fmt, i, [], 0) == Text(fmt[i..]) && RunArgs(Stepper(fmt, []), |fmt|, i, 0) == 0
    decreases |fmt| - i
  {
    if i < |fmt| {
      LiteralFrom(fmt, i + 1);
      assert fmt[i] in fmt;
      assert Item(fmt, i, [], 0) == Piece([fmt[i]], i + 1, 0);
      ItemIs(fmt, i, [], 0);
      assert Stepper(fmt, [])(i, 0) == Piece([fmt[i]], i + 1, 0);
      assert fmt[i..] == [fmt[i]] + fmt[i + 1..];
    }
  }

  lemma LiteralPrints(fmt: string)
    requires '%' !in fmt
    ensures Prints(fmt, [], fmt)
  {
    LiteralFrom(fmt, 0);
    assert fmt[0..] == fmt;
  }

  /** A format that is one directive prints its conversion. */
  lemma DirectivePrints(fmt: string, d: Directive, args: seq<Arg>, a: nat, c: Piece)
    requires fmt != "" && fmt[0] == '%' && ParseDirective(fmt, 1, args, 0) == Parsed(d, |fmt| - 1, a)
    requires Convert(d, |fmt| - 1, args, a) == c && c.Piece? && c.arg == |args|
    ensures Prints(fmt, args, c.text)
  {
    ItemIs(fmt, 0, args, 0);
    var step := Stepper(fmt, args);
    assert Item(fmt, 0, args, 0) == c;
    assert step(0, 0) == c;
    LoopIs(fmt, args, step);
    RunTurn(step, |fmt|, 0, 0, c);
    assert c.text + "" == c.text;
  }
}
