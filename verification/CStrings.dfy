/** The string helpers that work on NUL-terminated arrays: `strcat` and `strstr`. */
module CStrings {
  /** The C string that starts at `i`: everything up to the first NUL. */
  function StringAt(memory: string, i: nat): (s: string)
    requires i <= |memory|
    ensures i + |s| <= |memory| && s == memory[i..i + |s|]
    decreases |memory| - i
  {
    if i == |memory| || memory[i] == '\0' then "" else [memory[i]] + StringAt(memory, i + 1)
  }

  lemma {:induction false} StringAtIs(memory: string, i: nat, s: string)
    requires i + |s| < |memory| && memory[i..i + |s|] == s
    requires '\0' !in s && memory[i + |s|] == '\0'
    ensures StringAt(memory, i) == s
    decreases |s|
  {
    if s != "" {
      assert memory[i] == s[0];
      assert memory[i + 1..i + |s|] == s[1..];
      StringAtIs(memory, i + 1, s[1..]);
      assert s == [s[0]] + s[1..];
    }
  }

  /** A terminator ends the string in front of it. */
  lemma {:induction false} StringAtFront(memory: string, front: string, i: nat)
    requires i <= |front| < |memory| && memory[..|front|] == front && memory[|front|] == '\0'
    ensures StringAt(memory, i) == StringAt(front, i)
    decreases |front| - i
  {
    if i < |front| {
      assert memory[i] == memory[..|front|][i];
      StringAtFront(memory, front, i + 1);
    }
  }

  /** Without a NUL the string reaches to the end. */
  lemma {:induction false} StringAtWhole(s: string, i: nat)
    requires i <= |s|
    ensures '\0' !in s ==> StringAt(s, i) == s[i..]
    decreases |s| - i
  {
    if i < |s| {
      StringAtWhole(s, i + 1);
      assert s[i..] == [s[i]] + s[i + 1..];
    }
  }

  /** There is a terminator at or behind `i`. */
  predicate Terminated(memory: string, i: nat)
    requires i <= |memory|
  {
    i + |StringAt(memory, i)| < |memory|
  }

  /** A string ends at its first NUL. */
  lemma {:induction false} StringEnds(memory: string, i: nat)
    requires i <= |memory|
    ensures var s := StringAt(memory, i);
      '\0' !in s && (i + |s| < |memory| ==> memory[i + |s|] == '\0')
    decreases |memory| - i
  {
    if i < |memory| && memory[i] != '\0' {
      StringEnds(memory, i + 1);
    }
  }

  lemma FirstNul(memory: string, n: nat)
    requires n < |memory| && n <= |StringAt(memory, 0)| && memory[n] == '\0'
    ensures n == |StringAt(memory, 0)|
  {
    StringEnds(memory, 0);
    var s := StringAt(memory, 0);
    assert forall i :: 0 <= i < |s| ==> memory[i] in s;
  }

  /** The first loop: the place of the terminator. */
  method FindEnd(destination: array<char>) returns (ptr: nat)
    requires Terminated(destination[..], 0)
    ensures ptr == |StringAt(destination[..], 0)| < destination.Length
  {
    StringEnds(destination[..], 0);
    ghost var front := StringAt(destination[..], 0);
    ptr := 0;
    while destination[ptr] != '\0'
      invariant ptr <= |front|
      decreases |front| - ptr
    {
      ptr := ptr + 1;
    }
    FirstNul(destination[..], ptr);
  }

  lemma CopyTurn(was: seq<char>, now: seq<char>, front: string, back: string, from: nat)
    requires from < |back| && |now| == |was| > |front| + from
    requires now[..|front| + from] == front + back[..from] && now[|front| + from..] == was[|front| + from..]
    ensures var next := now[|front| + from := back[from]];
      next[..|front| + from + 1] == front + back[..from + 1] && next[|front| + from + 1..] == was[|front| + from + 1..]
  {
    var ptr := |front| + from;
    var next := now[ptr := back[from]];
    assert next[..ptr + 1] == now[..ptr] + [back[from]];
    assert now[ptr + 1..] == now[ptr..][1..] && was[ptr + 1..] == was[ptr..][1..];
  }

  /** The second loop: everything before the source's terminator is copied. */
  method CopyBehind(destination: array<char>, source: array<char>, start: nat, ghost front: string)
    returns (ptr: nat)
    requires destination != source && Terminated(source[..], 0) && start == |front|
    requires start + |StringAt(source[..], 0)| < destination.Length && destination[..start] == front
    modifies destination
    ensures ptr == start + |StringAt(source[..], 0)|
    ensures destination[..ptr] == front + StringAt(source[..], 0) && destination[ptr..] == old(destination[ptr..])
  {
    StringEnds(source[..], 0);
    ghost var was, back := destination[..], StringAt(source[..], 0);
    var from: nat := 0;
    ptr := start;
    while source[from] != '\0'
      invariant from <= |back| && ptr == start + from
      invariant destination[..ptr] == front + back[..from] && destination[ptr..] == was[ptr..]
      decreases |back| - from
    {
      CopyTurn(was, destination[..], front, back, from);
      destination[ptr] := source[from];
      ptr, from := ptr + 1, from + 1;
    }
    FirstNul(source[..], from);
  }

  /** `strcat`: the result is the concatenation, and nothing behind its terminator changes.
      The two arrays must not overlap. */
  method Strcat(destination: array<char>, source: array<char>)
    requires destination != source && Terminated(destination[..], 0) && Terminated(source[..], 0)
    requires |StringAt(destination[..], 0)| + |StringAt(source[..], 0)| < destination.Length
    modifies destination
    ensures StringAt(destination[..], 0) == old(StringAt(destination[..], 0)) + StringAt(source[..], 0)
    ensures forall i :: |StringAt(destination[..], 0)| < i < destination.Length ==>
      destination[i] == old(destination[i])
  {
    ghost var was, front, back := destination[..], StringAt(destination[..], 0), StringAt(source[..], 0);
    StringEnds(destination[..], 0);
    StringEnds(source[..], 0);
    var start := FindEnd(destination);
    var ptr := CopyBehind(destination, source, start, front);
    ghost var copied := destination[..];
    assert forall i :: ptr <= i < destination.Length ==> copied[i] == copied[ptr..][i - ptr] == was[ptr..][i - ptr];
    destination[ptr] := '\0';
    assert destination[..][0..ptr] == front + back;
    StringAtIs(destination[..], 0, front + back);
  }

  /** `needle` stands in `text` at `i`. */
  predicate OccursAt(text: string, needle: string, i: nat) {
    i + |needle| <= |text| && text[i..i + |needle|] == needle
  }

  lemma OccurrenceMatches(text: string, needle: string, i: nat, j: nat)
    requires OccursAt(text, needle, i) && j < |needle|
    ensures text[i + j] == needle[j]
  {
    assert text[i..i + |needle|][j] == text[i + j];
  }

  /** The inner loop: how far the two strings agree from `i` on. */
  method Match(text: string, needle: string, i: nat) returns (found: bool)
    requires i <= |text|
    ensures found <==> OccursAt(text, needle, i)
  {
    var j: nat := 0;
    while i + j < |text| && j < |needle| && text[i + j] == needle[j]
      invariant i + j <= |text| && j <= |needle| && text[i..i + j] == needle[..j]
    {
      assert text[i..i + j + 1] == text[i..i + j] + [text[i + j]];
      j := j + 1;
    }
    found := j == |needle|;
    if j < |needle| && OccursAt(text, needle, i) {
      OccurrenceMatches(text, needle, i, j);
    }
  }

  /** `strstr`: the first place where the needle stands, if there is one. */
  method Strstr(text: string, needle: string) returns (found: bool, at: nat)
    ensures found <==> exists i :: OccursAt(text, needle, i)
    ensures found ==> OccursAt(text, needle, at) && forall i :: 0 <= i < at ==> !OccursAt(text, needle, i)
  {
    at := 0;
    if |needle| == 0 {
      assert OccursAt(text, needle, 0);
      return true, 0;
    }
    while at < |text|
      invariant at <= |text|
      invariant forall i :: 0 <= i < at ==> !OccursAt(text, needle, i)
    {
      found := Match(text, needle, at);
      if found {
        return true, at;
      }
      at := at + 1;
    }
    found := false;
  }
}
