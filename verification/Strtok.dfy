/** The re-entrant tokenizer, which cuts a string in memory into pieces and keeps its place
    in a pointer of the caller. Memory is an array of characters and a pointer an index. */
module Strtok {
  import opened Machine
  import opened PrintfSpec
  import CStrings

  /** The string that starts at `p` ends at `end`. */
  predicate EndsAt(m: seq<char>, p: nat, end: nat) {
    p <= end < |m| && m[end] == '\0' && forall i :: p <= i < end ==> m[i] != '\0'
  }

  /** The first position from `p` on that is no delimiter, or the end. */
  function SkipDelims(m: seq<char>, p: nat, end: nat, delim: string): (a: nat)
    requires p <= end <= |m|
    ensures p <= a <= end && (a < end ==> m[a] !in delim)
    ensures forall i :: p <= i < a ==> m[i] in delim
    decreases end - p
  {
    if p < end && m[p] in delim then SkipDelims(m, p + 1, end, delim) else p
  }

  /** The first delimiter from `a` on, or the end. */
  function TokenEnd(m: seq<char>, a: nat, end: nat, delim: string): (b: nat)
    requires a <= end <= |m|
    ensures a <= b <= end && (b < end ==> m[b] in delim)
    ensures forall i :: a <= i < b ==> m[i] !in delim
    decreases end - a
  {
    if a < end && m[a] !in delim then TokenEnd(m, a + 1, end, delim) else a
  }

  /** `is_delim`. */
  method IsDelim(c: char, delim: CString) returns (r: bool)
    ensures r == (c in delim)
  {
    var i := 0;
    while At(delim, i) != '\0'
      invariant 0 <= i <= |delim| && c !in delim[..i]
      decreases |delim| - i
    {
      if c == delim[i] {
        return true;
      }
      assert delim[..i + 1] == delim[..i] + [delim[i]];
      i := i + 1;
    }
    assert delim[..i] == delim;
    r := false;
  }

  /** What one call on the string at `p` returns and leaves in memory: the first token and the
      place behind it, with a NUL over the delimiter that ends it, or null and the end. */
  predicate CallIs(m: seq<char>, p: nat, end: nat, delim: string, token: Option<nat>, saved: nat, m': seq<char>)
    requires p <= end <= |m|
  {
    var a := SkipDelims(m, p, end, delim);
    var b := TokenEnd(m, a, end, delim);
    && token == (if a == end then None else Some(a))
    && m' == (if a == end || b == end then m else m[b := '\0'])
    && saved == (if a == end || b == end then end else b + 1)
  }

  /** `strtok_r`: `str` starts a new string, otherwise the saved place is used. `end` is where
      that string ends. */
  method StrtokR(mem: array<char>, str: Option<nat>, delim: CString, saveptr: nat, ghost end: nat)
    returns (token: Option<nat>, saved: nat)
    requires EndsAt(mem[..], if str.Some? then str.value else saveptr, end)
    modifies mem
    ensures CallIs(old(mem[..]), if str.Some? then str.value else saveptr, end, delim, token, saved, mem[..])
    ensures EndsAt(mem[..], saved, end)
  {
    var p := if str.Some? then str.value else saveptr;
    ghost var m := mem[..];
    var token_start := p;
    while mem[token_start] != '\0'
      invariant p <= token_start <= end && mem[..] == m
      invariant SkipDelims(m, p, end, delim) == SkipDelims(m, token_start, end, delim)
      decreases end - token_start
    {
      var d := IsDelim(mem[token_start], delim);
      if !d {
        break;
      }
      token_start := token_start + 1;
    }
    if mem[token_start] == '\0' {
      return None, token_start;
    }
    var token_end := token_start;
    while mem[token_end] != '\0'
      invariant token_start <= token_end <= end && mem[..] == m
      invariant TokenEnd(m, token_start, end, delim) == TokenEnd(m, token_end, end, delim)
      decreases end - token_end
    {
      var d := IsDelim(mem[token_end], delim);
      if d {
        break;
      }
      token_end := token_end + 1;
    }
    if mem[token_end] == '\0' {
      saved := token_end;
    } else {
      mem[token_end] := '\0';
      saved := token_end + 1;
    }
    token := Some(token_start);
  }

  // ---------------------------------------------------------------- a whole iteration

  datatype Token = Token(start: nat, end: nat)

  /** Where the next call resumes after a token ending at `b`. */
  function Resume(b: nat, end: nat): nat {
    if b == end then end else b + 1
  }

  /** The tokens of consecutive calls with these delimiter sets, up to the first null. */
  function Split(m: seq<char>, p: nat, end: nat, delims: seq<CString>): (ts: seq<Token>)
    requires p <= end <= |m|
    ensures |ts| <= |delims|
    decreases |delims|
  {
    if delims == [] then []
    else
      var a := SkipDelims(m, p, end, delims[0]);
      if a == end then []
      else
        var b := TokenEnd(m, a, end, delims[0]);
        [Token(a, b)] + Split(m, Resume(b, end), end, delims[1..])
  }

  /** Memory with a NUL over the delimiter behind each token. */
  function Cut(m: seq<char>, ts: seq<Token>, end: nat): (r: seq<char>)
    requires end <= |m|
    ensures |r| == |m|
  {
    if ts == [] then m
    else
      var before, b := Cut(m, ts[..|ts| - 1], end), ts[|ts| - 1].end;
      if b < end then before[b := '\0'] else before
  }

  lemma {:induction false} SkipAgrees(m: seq<char>, m': seq<char>, p: nat, end: nat, delim: string)
    requires p <= end <= |m| && end <= |m'| && forall i :: p <= i < end ==> m[i] == m'[i]
    ensures SkipDelims(m, p, end, delim) == SkipDelims(m', p, end, delim)
    decreases end - p
  {
    if p < end && m[p] in delim {
      SkipAgrees(m, m', p + 1, end, delim);
    }
  }

  lemma {:induction false} TokenAgrees(m: seq<char>, m': seq<char>, a: nat, end: nat, delim: string)
    requires a <= end <= |m| && end <= |m'| && forall i :: a <= i < end ==> m[i] == m'[i]
    ensures TokenEnd(m, a, end, delim) == TokenEnd(m', a, end, delim)
    decreases end - a
  {
    if a < end && m[a] !in delim {
      TokenAgrees(m, m', a + 1, end, delim);
    }
  }

  lemma CutPush(m: seq<char>, ts: seq<Token>, t: Token, end: nat)
    requires end <= |m|
    ensures Cut(m, ts + [t], end) == if t.end < end then Cut(m, ts, end)[t.end := '\0'] else Cut(m, ts, end)
  {
    assert (ts + [t])[..|ts|] == ts;
  }

  /** The tokens `done` have been cut, and the text from `save` on is as it was. */
  ghost predicate Progress(now: seq<char>, m: seq<char>, start: nat, end: nat, save: nat, done: seq<Token>) {
    && start <= save && EndsAt(m, start, end) && EndsAt(now, save, end)
    && now == Cut(m, done, end) && (forall j :: save <= j < end ==> now[j] == m[j])
  }

  /** What a call does, as the text in the beginning tells. */
  lemma CallScan(now: seq<char>, m: seq<char>, start: nat, end: nat, delim: CString, p: nat, done: seq<Token>,
                 token: Option<nat>, save: nat, now': seq<char>) returns (t: Token)
    requires Progress(now, m, start, end, p, done) && CallIs(now, p, end, delim, token, save, now')
    ensures t.start == SkipDelims(m, p, end, delim) && t.end == TokenEnd(m, t.start, end, delim)
    ensures if t.start == end then token == None && now' == now else token == Some(t.start)
    ensures t.start < end ==> save == Resume(t.end, end) && now' == if t.end == end then now else now[t.end := '\0']
  {
    SkipAgrees(m, now, p, end, delim);
    t := Token(SkipDelims(m, p, end, delim), TokenEnd(m, SkipDelims(m, p, end, delim), end, delim));
    TokenAgrees(m, now, t.start, end, delim);
  }

  lemma ProgressStep(now: seq<char>, m: seq<char>, start: nat, end: nat, p: nat, done: seq<Token>, t: Token,
                     now': seq<char>)
    requires Progress(now, m, start, end, p, done) && p <= t.start <= t.end <= end
    requires now' == if t.end == end then now else now[t.end := '\0']
    ensures Progress(now', m, start, end, Resume(t.end, end), done + [t])
  {
    CutPush(m, done, t, end);
  }

  /** The first of the tokens and the others. */
  lemma SplitHead(m: seq<char>, p: nat, end: nat, delims: seq<CString>, t: Token)
    requires p <= end <= |m| && delims != []
    requires t.start == SkipDelims(m, p, end, delims[0]) && t.end == TokenEnd(m, t.start, end, delims[0])
    ensures Split(m, p, end, delims) ==
      if t.start == end then [] else [t] + Split(m, Resume(t.end, end), end, delims[1..])
  {
  }

  /** One more call of an iteration: it cuts the first of the tokens that are left. */
  method NextToken(mem: array<char>, str: Option<nat>, saveptr: nat, ghost end: nat, delim: CString,
                   ghost rest: seq<CString>, ghost m: seq<char>, ghost start: nat, ghost done: seq<Token>)
    returns (token: Option<nat>, save: nat, ghost t: Token)
    requires Progress(mem[..], m, start, end, saveptr, done) && (str == None || str == Some(saveptr))
    requires rest != [] && rest[0] == delim
    modifies mem
    ensures token == None ==> Split(m, saveptr, end, rest) == [] && mem[..] == old(mem[..])
    ensures token != None ==> token == Some(t.start) && Progress(mem[..], m, start, end, save, done + [t])
    ensures token != None ==> Split(m, saveptr, end, rest) == [t] + Split(m, save, end, rest[1..])
  {
    ghost var now := mem[..];
    token, save := StrtokR(mem, str, delim, saveptr, end);
    t := CallScan(now, m, start, end, delim, saveptr, done, token, save, mem[..]);
    SplitHead(m, saveptr, end, rest, t);
    if t.start < end {
      ProgressStep(now, m, start, end, saveptr, done, t, mem[..]);
    }
  }

  lemma Regroup(a: seq<Token>, t: Token, b: seq<Token>)
    ensures a + ([t] + b) == (a + [t]) + b
  {
  }

  /** `strtok_r` called until it returns null, the first time with the string and then with a
      null pointer, with a delimiter set of its own each time. */
  method Tokenize(mem: array<char>, start: nat, delims: seq<CString>, ghost end: nat) returns (starts: seq<nat>)
    requires EndsAt(mem[..], start, end)
    modifies mem
    ensures var ts := Split(old(mem[..]), start, end, delims);
      && |starts| == |ts| && (forall i :: 0 <= i < |ts| ==> starts[i] == ts[i].start)
      && mem[..] == Cut(old(mem[..]), ts, end)
  {
    starts := [];
    ghost var m, rest := mem[..], delims;
    ghost var done, todo: seq<Token> := [], Split(mem[..], start, end, delims);
    ghost var all := todo;
    var save, i: nat := start, 0;
    assert all == done + todo;
    while i < |delims|
      invariant i <= |delims| && rest == delims[i..] && (i == 0 ==> save == start)
      invariant Progress(mem[..], m, start, end, save, done)
      invariant all == done + todo && todo == Split(m, save, end, rest)
      invariant |starts| == |done| && forall k :: 0 <= k < |done| ==> starts[k] == done[k].start
    {
      var token;
      ghost var t;
      token, save, t :=
        NextToken(mem, if i == 0 then Some(start) else None, save, end, delims[i], rest, m, start, done);
      if token == None {
        assert all == done;
        return;
      }
      todo := todo[1..];
      Regroup(done, t, todo);
      starts, done, i, rest := starts + [token.value], done + [t], i + 1, rest[1..];
    }
    assert all == done;
  }

  // ---------------------------------------------------------------- what the tokens are

  /** Where the call after `k` tokens starts. */
  function From(p: nat, end: nat, ts: seq<Token>, k: nat): nat
    requires k <= |ts|
  {
    if k == 0 then p else Resume(ts[k - 1].end, end)
  }

  /** Token `k` is a maximal stretch without delimiters of its call, and only delimiters of
      that call come between the place where the call resumed and the token. */
  predicate IsToken(m: seq<char>, p: nat, end: nat, delim: CString, t: Token) {
    && p <= t.start < t.end <= end <= |m|
    && (forall i :: p <= i < t.start ==> m[i] in delim)
    && (forall i :: t.start <= i < t.end ==> m[i] !in delim)
    && (t.end < end ==> m[t.end] in delim)
  }

  lemma SplitTail(m: seq<char>, p: nat, end: nat, delims: seq<CString>, k: nat)
    requires p <= end <= |m| && 0 < k <= |Split(m, p, end, delims)|
    ensures var ts := Split(m, p, end, delims);
      var q := Resume(ts[0].end, end);
      && q <= end && |delims| > 0 && ts[1..] == Split(m, q, end, delims[1..])
      && From(p, end, ts, k) == From(q, end, ts[1..], k - 1)
  {
  }

  /** Every token is a non-empty maximal stretch of its call. */
  lemma {:induction false} TokenIs(m: seq<char>, p: nat, end: nat, delims: seq<CString>, k: nat)
    requires p <= end <= |m| && k < |Split(m, p, end, delims)|
    ensures var ts := Split(m, p, end, delims); IsToken(m, From(p, end, ts, k), end, delims[k], ts[k])
    decreases k
  {
    if k > 0 {
      SplitTail(m, p, end, delims, k);
      var q := Resume(Split(m, p, end, delims)[0].end, end);
      TokenIs(m, q, end, delims[1..], k - 1);
    }
  }

  /** When there are fewer tokens than calls, nothing but delimiters is left. */
  lemma {:induction false} LeftoverIs(m: seq<char>, p: nat, end: nat, delims: seq<CString>)
    requires p <= end <= |m| && |Split(m, p, end, delims)| < |delims|
    ensures var ts := Split(m, p, end, delims);
      From(p, end, ts, |ts|) <= end && forall i :: From(p, end, ts, |ts|) <= i < end ==> m[i] in delims[|ts|]
    decreases |delims|
  {
    var ts := Split(m, p, end, delims);
    if ts != [] {
      SplitTail(m, p, end, delims, |ts|);
      LeftoverIs(m, Resume(ts[0].end, end), end, delims[1..]);
    }
  }

  /** Once the end is reached, every further call returns null, whatever its delimiters. */
  lemma StaysNull(m: seq<char>, end: nat, delims: seq<CString>)
    requires end <= |m|
    ensures Split(m, end, end, delims) == []
  {
  }

  lemma {:induction false} CutAt(m: seq<char>, ts: seq<Token>, end: nat, i: nat)
    requires end <= |m| && i < |m|
    ensures Cut(m, ts, end)[i] == if i < end && exists k :: 0 <= k < |ts| && ts[k].end == i then '\0' else m[i]
  {
    if ts != [] {
      CutAt(m, ts[..|ts| - 1], end, i);
    }
  }

  /** Later tokens lie behind earlier ones, with at least one character between them. */
  lemma {:induction false} Ordered(m: seq<char>, p: nat, end: nat, delims: seq<CString>, j: nat, k: nat)
    requires p <= end <= |m| && j < k < |Split(m, p, end, delims)|
    ensures Split(m, p, end, delims)[j].end < Split(m, p, end, delims)[k].start
    decreases k
  {
    TokenIs(m, p, end, delims, k - 1);
    TokenIs(m, p, end, delims, k);
    if j < k - 1 {
      Ordered(m, p, end, delims, j, k - 1);
    }
  }

  lemma Behind(m: seq<char>, p: nat, end: nat, delims: seq<CString>, k: nat)
    requires p <= end <= |m| && k < |Split(m, p, end, delims)|
    ensures p <= Split(m, p, end, delims)[k].start
  {
    TokenIs(m, p, end, delims, 0);
    TokenIs(m, p, end, delims, k);
    if k > 0 {
      Ordered(m, p, end, delims, 0, k);
    }
  }

  /** No token ends inside another one. */
  lemma EndsOutside(m: seq<char>, p: nat, end: nat, delims: seq<CString>, k: nat, i: nat)
    requires p <= end <= |m| && k < |Split(m, p, end, delims)|
    requires var t := Split(m, p, end, delims)[k]; t.start <= i < t.end
    ensures forall j :: 0 <= j < |Split(m, p, end, delims)| ==> Split(m, p, end, delims)[j].end != i
  {
    var ts := Split(m, p, end, delims);
    forall j | 0 <= j < |ts| ensures ts[j].end != i {
      TokenIs(m, p, end, delims, j);
      if j < k {
        Ordered(m, p, end, delims, j, k);
      } else if k < j {
        Ordered(m, p, end, delims, k, j);
      }
    }
  }

  lemma TokenKept(m: seq<char>, p: nat, end: nat, delims: seq<CString>, k: nat)
    requires EndsAt(m, p, end) && k < |Split(m, p, end, delims)|
    ensures var ts := Split(m, p, end, delims);
      var t, after := ts[k], Cut(m, ts, end);
      && p <= t.start < t.end <= end && after[t.end] == '\0'
      && forall i :: t.start <= i < t.end ==> after[i] == m[i]
  {
    var ts := Split(m, p, end, delims);
    var t, after := ts[k], Cut(m, ts, end);
    TokenIs(m, p, end, delims, k);
    Behind(m, p, end, delims, k);
    CutAt(m, ts, end, t.end);
    forall i | t.start <= i < t.end ensures after[i] == m[i] {
      CutAt(m, ts, end, i);
      EndsOutside(m, p, end, delims, k, i);
    }
  }

  /** After the iteration every token is a C string of its own where it stood in the text. */
  lemma TokensReadable(m: seq<char>, p: nat, end: nat, delims: seq<CString>, k: nat)
    requires EndsAt(m, p, end) && k < |Split(m, p, end, delims)|
    ensures var ts := Split(m, p, end, delims);
      ts[k].start < ts[k].end <= end &&
      CStrings.StringAt(Cut(m, ts, end), ts[k].start) == m[ts[k].start..ts[k].end]
  {
    TokenKept(m, p, end, delims, k);
    var ts := Split(m, p, end, delims);
    var t, after := ts[k], Cut(m, ts, end);
    assert after[t.start..t.end] == m[t.start..t.end];
    CStrings.StringAtIs(after, t.start, m[t.start..t.end]);
  }

  // ---------------------------------------------------------------- one delimiter set

  /** The fields of a text, found by looking at one character after the other. */
  function Fields(s: string, delim: string, field: string): seq<string>
    decreases |s|
  {
    if s == "" then (if field == "" then [] else [field])
    else if s[0] in delim then (if field == "" then [] else [field]) + Fields(s[1..], delim, "")
    else Fields(s[1..], delim, field + [s[0]])
  }

  function Texts(m: seq<char>, ts: seq<Token>): seq<string>
    requires forall t :: t in ts ==> t.start <= t.end <= |m|
  {
    if ts == [] then [] else [m[ts[0].start..ts[0].end]] + Texts(m, ts[1..])
  }

  lemma {:induction false} FieldsSkip(m: seq<char>, p: nat, end: nat, delim: string)
    requires p <= end <= |m|
    ensures Fields(m[p..end], delim, "") == Fields(m[SkipDelims(m, p, end, delim)..end], delim, "")
    decreases end - p
  {
    if p < end && m[p] in delim {
      FieldsSkip(m, p + 1, end, delim);
      assert m[p..end][1..] == m[p + 1..end];
      assert [] + Fields(m[p + 1..end], delim, "") == Fields(m[p + 1..end], delim, "");
    }
  }

  lemma {:induction false} FieldsTake(m: seq<char>, a: nat, i: nat, end: nat, delim: string)
    requires a <= i <= end <= |m| && (a < i || (i < end && m[i] !in delim))
    ensures var b := TokenEnd(m, i, end, delim);
      Fields(m[i..end], delim, m[a..i]) == [m[a..b]] + Fields(m[Resume(b, end)..end], delim, "")
    decreases end - i
  {
    if i < end && m[i] !in delim {
      FieldsTake(m, a, i + 1, end, delim);
      assert m[i..end][1..] == m[i + 1..end];
      assert m[a..i] + [m[i]] == m[a..i + 1];
    } else if i < end {
      assert m[i..end][1..] == m[i + 1..end];
    }
  }

  lemma {:induction false} TokensInside(m: seq<char>, p: nat, end: nat, delims: seq<CString>)
    requires p <= end <= |m|
    ensures forall t :: t in Split(m, p, end, delims) ==> t.start <= t.end <= |m|
    decreases |delims|
  {
    var ts := Split(m, p, end, delims);
    if ts != [] {
      TokensInside(m, Resume(ts[0].end, end), end, delims[1..]);
    }
  }

  /** With one delimiter set throughout and enough calls, the tokens are the fields. */
  lemma {:induction false} SplitFields(m: seq<char>, p: nat, end: nat, delims: seq<CString>, delim: CString)
    requires p <= end <= |m| && |delims| > end - p && forall i :: 0 <= i < |delims| ==> delims[i] == delim
    ensures forall t :: t in Split(m, p, end, delims) ==> t.start <= t.end <= |m|
    ensures Texts(m, Split(m, p, end, delims)) == Fields(m[p..end], delim, "")
    decreases |delims|
  {
    TokensInside(m, p, end, delims);
    var a := SkipDelims(m, p, end, delim);
    FieldsSkip(m, p, end, delim);
    assert delims[0] == delim;
    if a < end {
      var b := TokenEnd(m, a, end, delim);
      assert m[a..a] == "";
      FieldsTake(m, a, a, end, delim);
      SplitFields(m, Resume(b, end), end, delims[1..], delim);
    }
  }
}
