/** The xorshift generator and the random hexadecimal strings made from it. */
module Random {
  import CStrings
  import Numerals
  import ToString

  function Mix(x: bv32, h: bv32): bv32 {
    x ^ h
  }

  /** The three shift-xor stages of `random`. */
  function Left13(x: bv32): bv32 {
    Mix(x, x << 13)
  }

  function Right17(x: bv32): bv32 {
    Mix(x, x >> 17)
  }

  function Left5(x: bv32): bv32 {
    Mix(x, x << 5)
  }

  function Next(x: bv32): bv32 {
    Left5(Right17(Left13(x)))
  }

  // ---------------------------------------------------------------- every stage is a bijection

  lemma Cancel(x: bv32, y: bv32, h: bv32)
    requires Mix(x, h) == Mix(y, h)
    ensures x == y
  {
  }

  lemma Left13OneToOne(x: bv32, y: bv32)
    requires Left13(x) == Left13(y)
    ensures x == y
  {
  }

  /** The stage leaves the high bits alone. */
  lemma SameHighBits(x: bv32, y: bv32)
    requires Right17(x) == Right17(y)
    ensures x >> 17 == y >> 17
  {
  }

  lemma Right17OneToOne(x: bv32, y: bv32)
    requires Right17(x) == Right17(y)
    ensures x == y
  {
    SameHighBits(x, y);
    Cancel(x, y, x >> 17);
  }

  lemma Left5OneToOne(x: bv32, y: bv32)
    requires Left5(x) == Left5(y)
    ensures x == y
  {
  }

  lemma Left13Onto(y: bv32) returns (x: bv32)
    ensures Left13(x) == y
  {
    x := y ^ (y << 13) ^ (y << 26);
  }

  lemma Right17Onto(y: bv32) returns (x: bv32)
    ensures Right17(x) == y
  {
    x := y ^ (y >> 17);
  }

  lemma Left5Onto(y: bv32) returns (x: bv32)
    ensures Left5(x) == y
  {
    x := y ^ (y << 5) ^ (y << 10) ^ (y << 15) ^ (y << 20) ^ (y << 25) ^ (y << 30);
  }

  /** Different states have different successors. */
  lemma NextOneToOne(x: bv32, y: bv32)
    requires Next(x) == Next(y)
    ensures x == y
  {
    Left5OneToOne(Right17(Left13(x)), Right17(Left13(y)));
    Right17OneToOne(Left13(x), Left13(y));
    Left13OneToOne(x, y);
  }

  /** Every state has a predecessor. */
  lemma NextOnto(y: bv32) returns (x: bv32)
    ensures Next(x) == y
  {
    var c := Left5Onto(y);
    var b := Right17Onto(c);
    x := Left13Onto(b);
  }

  lemma NextNotZero(x: bv32)
    requires x != 0
    ensures Next(x) != 0
  {
  }

  // ---------------------------------------------------------------- runs

  /** The state after `n` draws from a seed. */
  function State(seed: bv32, n: nat): bv32 {
    if n == 0 then (if seed == 0 then 1 else seed) else Next(State(seed, n - 1))
  }

  lemma Left13Is(x: bv32)
    ensures Left13(x) == x ^ (x << 13)
  {
  }

  lemma Right17Is(x: bv32)
    ensures Right17(x) == x ^ (x >> 17)
  {
  }

  lemma Left5Is(x: bv32)
    ensures Left5(x) == x ^ (x << 5)
  {
  }

  lemma NextStages(x: bv32, y: bv32, z: bv32)
    requires y == Left13(x) && z == Right17(y)
    ensures Next(x) == Left5(z)
  {
  }

  /** One draw, shift by shift. */
  lemma NextIs(x: bv32) returns (y: bv32, z: bv32)
    ensures y == x ^ (x << 13) && z == y ^ (y >> 17) && Next(x) == z ^ (z << 5)
  {
    y := Left13(x);
    z := Right17(y);
    NextStages(x, y, z);
    Left13Is(x);
    Right17Is(y);
    Left5Is(z);
  }

  lemma NextExamples()
    ensures Next(1) == 0x0004_2021 && Next(0x8000_0000) == 0x8008_4000
  {
  }

  /** A run starts from its seed, or from 1 for the seed 0, and takes these steps. */
  lemma RunBegins(seed: bv32, n: nat) returns (x: bv32, y: bv32, z: bv32)
    ensures State(seed, 0) == if seed == 0 then 1 else seed
    ensures x == State(seed, n) && y == x ^ (x << 13) && z == y ^ (y >> 17) && State(seed, n + 1) == z ^ (z << 5)
    ensures State(0, 1) == State(1, 1) == 0x0004_2021 && State(0x8000_0000, 1) == 0x8008_4000
  {
    x := State(seed, n);
    y, z := NextIs(x);
    NextExamples();
    assert State(0, 1) == Next(State(0, 0)) && State(1, 1) == Next(State(1, 0));
    assert State(0x8000_0000, 1) == Next(State(0x8000_0000, 0));
  }

  /** A run can be taken up at any of its states. */
  lemma {:induction false} StateAdd(x: bv32, m: nat, n: nat)
    requires x != 0
    ensures State(State(x, m), n) == State(x, m + n)
  {
    NeverZero(x, m);
    if n > 0 {
      StateAdd(x, m, n - 1);
    }
  }

  /** The state is never zero, whatever the seed. */
  lemma {:induction false} NeverZero(seed: bv32, n: nat)
    ensures State(seed, n) != 0
  {
    if n > 0 {
      NeverZero(seed, n - 1);
      NextNotZero(State(seed, n - 1));
    }
  }

  /** A run that returns to an earlier state has returned to its start: no state leads into
      a cycle from outside. */
  lemma {:induction false} RunsCycle(seed: bv32, m: nat, n: nat)
    requires m <= n && State(seed, m) == State(seed, n)
    ensures State(seed, 0) == State(seed, n - m)
  {
    if m > 0 {
      NextOneToOne(State(seed, m - 1), State(seed, n - 1));
      RunsCycle(seed, m - 1, n - 1);
    }
  }

  // ---------------------------------------------------------------- the retry loop

  function Low(x: bv32): bv32 {
    x & 0xFF
  }

  /** The retry loop finds a nonzero low byte within `fuel` draws. */
  predicate DrawsWithin(x: bv32, fuel: nat)
    decreases fuel, x
  {
    fuel > 0 && (Low(Next(x)) != 0 || DrawsWithin(Next(x), fuel - 1))
  }

  lemma FiveLowBytes(x: bv32)
    requires x != 0
    ensures var a := Next(x); var b := Next(a); var c := Next(b); var d := Next(c);
      Low(a) != 0 || Low(b) != 0 || Low(c) != 0 || Low(d) != 0 || Low(Next(d)) != 0
  {
  }

  lemma DrawsNow(x: bv32, fuel: nat)
    requires 0 < fuel && Low(Next(x)) != 0
    ensures DrawsWithin(x, fuel)
  {
  }

  lemma DrawsLater(x: bv32, fuel: nat)
    requires DrawsWithin(Next(x), fuel)
    ensures DrawsWithin(x, fuel + 1)
  {
  }

  /** Of five consecutive draws from any state but zero, one has a nonzero low byte, so the
      retry loop always ends. */
  lemma FiveDraws(x: bv32)
    requires x != 0
    ensures DrawsWithin(x, 5)
  {
    var a := Next(x);
    var b := Next(a);
    var c := Next(b);
    FiveLowBytes(x);
    if Low(a) != 0 {
      DrawsNow(x, 5);
    } else {
      if Low(b) != 0 {
        DrawsNow(a, 4);
      } else {
        if Low(c) != 0 {
          DrawsNow(b, 3);
        } else {
          if Low(Next(c)) != 0 {
            DrawsNow(c, 2);
          } else {
            DrawsNow(Next(c), 1);
            DrawsLater(c, 1);
          }
          DrawsLater(b, 2);
        }
        DrawsLater(a, 3);
      }
      DrawsLater(x, 4);
    }
  }

  /** Four draws are not always enough. */
  lemma FourDrawsFail()
    ensures !DrawsWithin(0xE4C3_7601, 4)
  {
    assert Next(0xE4C3_7601) == 0xCA61_7300 && Next(0xCA61_7300) == 0x6421_2100;
    assert Next(0x6421_2100) == 0x4021_2100 && Next(0x4021_2100) == 0xE423_7300;
    assert !DrawsWithin(0x4021_2100, 1);
    assert !DrawsWithin(0x6421_2100, 2);
    assert !DrawsWithin(0xCA61_7300, 3);
  }

  /** The state in which the retry loop stops. */
  function Drawn(x: bv32, fuel: nat): bv32
    requires DrawsWithin(x, fuel)
    decreases fuel, x
  {
    if Low(Next(x)) != 0 then Next(x) else Drawn(Next(x), fuel - 1)
  }

  // ---------------------------------------------------------------- random strings

  lemma LowByte(x: bv32)
    ensures Low(x) <= 0xFF
  {
  }

  type Octet = x: nat | x < 0x100

  function Byte(x: bv32): (b: Octet)
    ensures b == 0 <==> Low(x) == 0
  {
    LowByte(x);
    Low(x) as int
  }

  lemma {:induction false} DrawnNotZero(x: bv32, fuel: nat)
    requires DrawsWithin(x, fuel)
    ensures Low(Drawn(x, fuel)) != 0 && Drawn(x, fuel) != 0
    decreases fuel, x
  {
    assert Low(0) == 0;
    if Low(Next(x)) == 0 {
      DrawnNotZero(Next(x), fuel - 1);
    }
  }

  /** The state in which the retry loop stops, five draws being enough. */
  function Accepted(x: bv32): (y: bv32)
    requires x != 0
    ensures y != 0 && Low(y) != 0
  {
    FiveDraws(x);
    DrawnNotZero(x, 5);
    Drawn(x, 5)
  }

  /** The state after `pairs` passes through the retry loop. */
  function After(x: bv32, pairs: nat): (y: bv32)
    requires x != 0
    ensures y != 0
  {
    if pairs == 0 then x else Accepted(After(x, pairs - 1))
  }

  /** The bytes that come out of it, never zero. */
  function Bytes(x: bv32, pairs: nat): (s: seq<Octet>)
    requires x != 0
    ensures |s| == pairs && 0 !in s
  {
    if pairs == 0 then [] else Bytes(x, pairs - 1) + [Byte(Accepted(After(x, pairs - 1)))]
  }

  lemma ByteIs(x: bv32)
    ensures Byte(x) == (x % 0x100) as int
  {
    assert Low(x) == x % 0x100;
  }

  /** The retry loop stops in the first state behind `x` whose low byte is not zero. */
  lemma {:induction false} DrawnIs(x: bv32, fuel: nat) returns (n: nat)
    requires x != 0 && DrawsWithin(x, fuel)
    ensures 1 <= n <= fuel && Drawn(x, fuel) == State(x, n) && Byte(State(x, n)) != 0
    ensures forall j :: 0 < j < n ==> Byte(State(x, j)) == 0
    decreases fuel
  {
    assert State(x, 1) == Next(State(x, 0));
    if Low(Next(x)) != 0 {
      n := 1;
    } else {
      NextNotZero(x);
      var m := DrawnIs(Next(x), fuel - 1);
      n := m + 1;
      StateAdd(x, 1, m);
      forall j | 0 < j < n ensures Byte(State(x, j)) == 0 {
        StateAdd(x, 1, j - 1);
        assert j > 1 ==> Byte(State(Next(x), j - 1)) == 0;
      }
    }
  }

  /** The low bytes of the first `n` draws of a run, those that are zero left out. */
  function NonzeroDraws(x: bv32, n: nat): seq<Octet> {
    if n == 0 then []
    else NonzeroDraws(x, n - 1) + (if Byte(State(x, n)) != 0 then [Byte(State(x, n))] else [])
  }

  lemma {:induction false} ZerosSkipped(x: bv32, start: nat, n: nat)
    requires start <= n && forall j :: start < j <= n ==> Byte(State(x, j)) == 0
    ensures NonzeroDraws(x, n) == NonzeroDraws(x, start)
    decreases n
  {
    if start < n {
      ZerosSkipped(x, start, n - 1);
    }
  }

  /** The bytes drawn are the low bytes that are not zero among so many draws, none left out. */
  lemma {:induction false} BytesAre(x: bv32, pairs: nat) returns (n: nat)
    requires x != 0
    ensures Bytes(x, pairs) == NonzeroDraws(x, n) && After(x, pairs) == State(x, n)
  {
    n := 0;
    if pairs > 0 {
      n := BytesAre(x, pairs - 1);
      n := NextByte(x, pairs - 1, n);
    }
  }

  lemma ZerosBetween(x: bv32, start: nat, n: nat)
    requires x != 0 && forall j :: 0 < j < n ==> Byte(State(State(x, start), j)) == 0
    ensures forall j :: start < j < start + n ==> Byte(State(x, j)) == 0
  {
    forall j | start < j < start + n ensures Byte(State(x, j)) == 0 {
      StateAdd(x, start, j - start);
      assert Byte(State(State(x, start), j - start)) == 0;
    }
  }

  lemma NextByte(x: bv32, pairs: nat, start: nat) returns (next: nat)
    requires x != 0 && After(x, pairs) == State(x, start) && Bytes(x, pairs) == NonzeroDraws(x, start)
    ensures Bytes(x, pairs + 1) == NonzeroDraws(x, next) && After(x, pairs + 1) == State(x, next)
  {
    FiveDraws(State(x, start));
    var n := DrawnIs(State(x, start), 5);
    StateAdd(x, start, n);
    ZerosBetween(x, start, n);
    next := start + n;
    ZerosSkipped(x, start, next - 1);
  }

  function HexText(bytes: seq<Octet>): string {
    if bytes == [] then "" else HexText(bytes[..|bytes| - 1]) + ToString.HexPair(bytes[|bytes| - 1])
  }

  predicate IsHex(c: char) {
    '0' <= c <= '9' || 'A' <= c <= 'F'
  }

  predicate AllHex(s: string) {
    forall i :: 0 <= i < |s| ==> IsHex(s[i])
  }

  lemma HexPairIs(v: Octet)
    ensures AllHex(ToString.HexPair(v))
  {
  }

  /** Two upper-case digits for every byte. */
  lemma {:induction false} HexTextIs(bytes: seq<Octet>)
    ensures |HexText(bytes)| == 2 * |bytes| && AllHex(HexText(bytes))
  {
    if bytes != [] {
      HexTextIs(bytes[..|bytes| - 1]);
      HexPairIs(bytes[|bytes| - 1]);
    }
  }

  /** The digits of byte `i`. */
  lemma {:induction false} HexTextAt(bytes: seq<Octet>, i: nat)
    requires i < |bytes|
    ensures |HexText(bytes)| == 2 * |bytes| && HexText(bytes)[2 * i..2 * i + 2] == ToString.HexPair(bytes[i])
    decreases |bytes|
  {
    var front := bytes[..|bytes| - 1];
    HexTextIs(bytes);
    HexTextIs(front);
    if i == |front| {
      assert HexText(bytes)[2 * i..] == ToString.HexPair(bytes[i]);
    } else {
      HexTextAt(front, i);
      assert HexText(bytes)[2 * i..2 * i + 2] == HexText(front)[2 * i..2 * i + 2];
    }
  }

  lemma HexTextPush(x: bv32, n: nat)
    requires x != 0
    ensures HexText(Bytes(x, n + 1)) == HexText(Bytes(x, n)) + ToString.HexPair(Byte(After(x, n + 1)))
  {
    assert Bytes(x, n + 1)[..n] == Bytes(x, n);
  }

  lemma TextClean(s: string)
    requires AllHex(s)
    ensures '\0' !in s
  {
  }

  function Pairs(length: nat): nat {
    (length + 1) / 2
  }

  /** The digits of as many bytes as are needed, cut to the length asked for. */
  function RandomText(x: bv32, length: nat): string
    requires x != 0
  {
    HexTextIs(Bytes(x, Pairs(length)));
    HexText(Bytes(x, Pairs(length)))[..length]
  }

  /** A random string has exactly the length asked for and consists of upper-case digits. */
  lemma RandomTextIs(x: bv32, length: nat)
    requires x != 0
    ensures |RandomText(x, length)| == length && AllHex(RandomText(x, length))
  {
    HexTextIs(Bytes(x, Pairs(length)));
  }

  lemma SliceOfPrefix(s: string, length: nat, i: nat, j: nat)
    requires i <= j <= length <= |s|
    ensures s[..length][i..j] == s[i..j]
  {
  }

  /** Two digits in turn are a base-16 numeral of each byte drawn; an odd length ends with the
      high digit of the last one. */
  lemma RandomTextReads(x: bv32, length: nat, i: nat)
    requires x != 0 && 2 * i < length
    ensures |RandomText(x, length)| == length && i < |Bytes(x, Pairs(length))|
    ensures var text, b := RandomText(x, length), Bytes(x, Pairs(length))[i];
      if 2 * i + 2 <= length
      then Numerals.IsNumeral(text[2 * i..2 * i + 2], 16) && Numerals.Value(text[2 * i..2 * i + 2], 16) == b
      else Numerals.DigitOf(text[length - 1]) == b / 16
  {
    RandomTextIs(x, length);
    var bytes := Bytes(x, Pairs(length));
    var all := HexText(bytes);
    HexTextAt(bytes, i);
    ToString.PairValue(bytes[i]);
    if 2 * i + 2 <= length {
      SliceOfPrefix(all, length, 2 * i, 2 * i + 2);
    } else {
      assert all[2 * i] == all[2 * i..2 * i + 2][0];
    }
  }

  // ---------------------------------------------------------------- the generator

  /** The size of `random_string_buffer`. */
  const RANDOM_BUFFER: nat := 257

  /** The global state, the buffer of `random_string` and the one `toHString` writes to. */
  lemma PairsStep(length: nat, drawn: nat)
    requires drawn <= Pairs(length)
    ensures 2 * drawn < length <==> drawn < Pairs(length)
  {
  }

  class Generator {
    var state: bv32
    const buffer: array<char>
    const pair: array<char>

    ghost predicate Valid()
      reads this
    {
      state != 0 && buffer != pair && buffer.Length == RANDOM_BUFFER && pair.Length == ToString.BUFFER
    }

    /** `rand_init`. */
    constructor (seed: bv32)
      ensures Valid() && state == State(seed, 0) && fresh(buffer) && fresh(pair)
    {
      state := if seed == 0 then 1 else seed;
      buffer := new char[RANDOM_BUFFER];
      pair := new char[ToString.BUFFER];
    }

    /** `random`. */
    method Draw() returns (r: bv32)
      requires Valid()
      modifies this`state
      ensures Valid() && r == state == Next(old(state))
    {
      NextNotZero(state);
      var x := state;
      x := Left13(x);
      x := Right17(x);
      x := Left5(x);
      state := x;
      r := x;
    }

    /** The retry loop: draws until the low byte is not zero. */
    method DrawByte() returns (b: Octet)
      requires Valid()
      modifies this`state
      ensures Valid() && state == Accepted(old(state)) && b == Byte(state) != 0
    {
      ghost var start, fuel := state, 5;
      FiveDraws(state);
      var r := Draw();
      while Low(r) == 0
        invariant Valid() && r == state && 0 < fuel
        invariant Low(r) == 0 ==> DrawsWithin(state, fuel - 1) && Drawn(start, 5) == Drawn(state, fuel - 1)
        invariant Low(r) != 0 ==> Drawn(start, 5) == state
        decreases fuel
      {
        r := Draw();
        fuel := fuel - 1;
      }
      b := Byte(r);
    }

    /** The `memset` to zero. */
    method Clear()
      requires Valid()
      modifies buffer
      ensures CStrings.StringAt(buffer[..], 0) == ""
    {
      for j := 0 to RANDOM_BUFFER
        invariant forall k :: 0 <= k < j ==> buffer[k] == '\0'
      {
        buffer[j] := '\0';
      }
    }

    /** `drawn` bytes have been drawn since `start` and their digits stand in the buffer. */
    ghost predicate Progress(start: bv32, drawn: nat)
      requires start != 0
      reads this, buffer
    {
      state == After(start, drawn) && CStrings.StringAt(buffer[..], 0) == HexText(Bytes(start, drawn))
    }

    /** One turn of the loop. */
    method AppendRandom(ghost start: bv32, ghost drawn: nat)
      requires Valid() && start != 0 && drawn < 128 && Progress(start, drawn)
      modifies this`state, buffer, pair
      ensures Valid() && Progress(start, drawn + 1)
    {
      HexTextIs(Bytes(start, drawn));
      var b := DrawByte();
      Append(b);
      HexTextPush(start, drawn);
    }

    /** `strcat(random_string_buffer, toHString(rand))`. */
    method Append(b: Octet)
      requires Valid() && |CStrings.StringAt(buffer[..], 0)| + 2 < RANDOM_BUFFER
      modifies buffer, pair
      ensures CStrings.StringAt(buffer[..], 0) == old(CStrings.StringAt(buffer[..], 0)) + ToString.HexPair(b)
    {
      ToString.FromByte(pair, b);
      CStrings.Strcat(buffer, pair);
    }

    method Truncate(length: nat)
      requires Valid() && length <= |CStrings.StringAt(buffer[..], 0)| < RANDOM_BUFFER
      requires AllHex(CStrings.StringAt(buffer[..], 0))
      modifies buffer
      ensures CStrings.StringAt(buffer[..], 0) == old(CStrings.StringAt(buffer[..], 0))[..length]
    {
      ghost var text := CStrings.StringAt(buffer[..], 0)[..length];
      TextClean(text);
      buffer[length] := '\0';
      CStrings.StringAtIs(buffer[..], 0, text);
    }

    /** `random_string`: the buffer holds a random hexadecimal string of the length asked for.
        A length of 255 uses every byte of the buffer. */
    method RandomString(length: nat)
      requires Valid() && length < 0x100
      modifies this`state, buffer, pair
      ensures Valid() && state == After(old(state), Pairs(length))
      ensures CStrings.StringAt(buffer[..], 0) == RandomText(old(state), length)
    {
      Clear();
      ghost var start := state;
      FillPairs(length, start);
      HexTextIs(Bytes(start, Pairs(length)));
      Truncate(length);
    }

    /** The loop. */
    method FillPairs(length: nat, ghost start: bv32)
      requires Valid() && length < 0x100 && start != 0 && Progress(start, 0)
      modifies this`state, buffer, pair
      ensures Valid() && Progress(start, Pairs(length))
    {
      ghost var drawn: nat := 0;
      var i: nat := 0;
      while i < length
        invariant Valid() && i == 2 * drawn && drawn <= Pairs(length) && Progress(start, drawn)
      {
        PairsStep(length, drawn);
        AppendRandom(start, drawn);
        i, drawn := i + 2, drawn + 1;
      }
      PairsStep(length, drawn);
    }
  }
}
