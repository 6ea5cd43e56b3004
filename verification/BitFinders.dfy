/** The halving bit finders and the power-of-two rounding macros. */
module BitFinders {
  import opened Machine

  /** A width that the macros can halve down to a single bit. */
  predicate IsWidth(w: nat) {
    w == 1 || (w > 1 && w % 2 == 0 && IsWidth(w / 2))
  }

  /** `(UINTw) a`. */
  function Cast(a: int, w: nat): nat {
    a % Pow(2, w)
  }

  /** `a >> n`; negative numbers are shifted arithmetically. */
  function Shifted(a: int, n: nat): int {
    a / Pow(2, n)
  }

  /** Some bit of the upper half of the low `w` bits is set. */
  predicate UpperHalf(a: int, w: nat) {
    Cast(a, w) >= Pow(2, w / 2)
  }

  /** Some bit of the lower half is set. */
  predicate LowerHalf(a: int, w: nat) {
    Cast(a, w / 2) != 0
  }

  /** `__ACPI_FIND_LAST_BIT_w (a, r)`. */
  function FindLast(a: int, w: nat, r: nat): nat
    requires IsWidth(w)
    decreases w
  {
    if w == 1 then r
    else if UpperHalf(a, w) then FindLast(Shifted(a, w / 2), w / 2, r + w / 2)
    else FindLast(a, w / 2, r)
  }

  /** `__ACPI_FIND_FIRST_BIT_w (a, r)`. */
  function FindFirst(a: int, w: nat, r: nat): nat
    requires IsWidth(w)
    decreases w
  {
    if w == 1 then r
    else if LowerHalf(a, w) then FindFirst(a, w / 2, r)
    else FindFirst(Shifted(a, w / 2), w / 2, r + w / 2)
  }

  /** `ACPI_FIND_LAST_BIT_w (a)`. */
  function LastBit(a: int, w: nat): nat
    requires IsWidth(w)
  {
    if a == 0 then 0 else FindLast(a, w, 1)
  }

  /** `ACPI_FIND_FIRST_BIT_w (a)`. */
  function FirstBit(a: int, w: nat): nat
    requires IsWidth(w)
  {
    if a == 0 then 0 else FindFirst(a, w, 1)
  }

  lemma Half(w: nat)
    requires IsWidth(w) && w > 1
    ensures IsWidth(w / 2) && w / 2 + w / 2 == w && Pow(2, w) == Pow(2, w / 2) * Pow(2, w / 2)
  {
    PowAdd(2, w / 2, w / 2);
  }

  lemma CastSmall(a: nat, w: nat)
    requires a < Pow(2, w)
    ensures Cast(a, w) == a
  {
    ModUnique(a, Pow(2, w), 0, a);
  }

  // ---------------------------------------------------------------- the highest bit

  /** The `k`-th bit, counted from 1, is the highest one set. */
  predicate IsHighest(a: int, k: nat) {
    0 < k && Pow(2, k - 1) <= a < Pow(2, k)
  }

  lemma ShiftHighest(a: nat, h: nat, k: nat)
    requires IsHighest(Shifted(a, h), k)
    ensures IsHighest(a, h + k)
  {
    PowAdd(2, h, k - 1);
    PowAdd(2, h, k);
    ScaledBounds(a, Pow(2, h), Pow(2, k - 1), Pow(2, k));
  }

  lemma ScaledBounds(a: nat, m: nat, lo: nat, hi: nat)
    requires 0 < m && lo <= a / m < hi
    ensures m * lo <= a < m * hi
  {
    var q := a / m;
    MulLe(lo, q, m);
    MulLe(q + 1, hi, m);
  }

  lemma {:induction false} FindLastIs(a: nat, w: nat, r: nat) returns (k: nat)
    requires IsWidth(w) && 0 < a < Pow(2, w)
    ensures FindLast(a, w, r) == r + k - 1 && k <= w && IsHighest(a, k)
    decreases w
  {
    if w == 1 {
      return 1;
    }
    Half(w);
    CastSmall(a, w);
    var m := Pow(2, w / 2);
    if a >= m {
      DivBound(a, m, m);
      MulLe(1, a / m, m);
      var b := a / m;
      k := FindLastIs(b, w / 2, r + w / 2);
      ShiftHighest(a, w / 2, k);
      k := k + w / 2;
    } else {
      k := FindLastIs(a, w / 2, r);
    }
  }

  /** The finder returns the position of the highest set bit, 0 for 0. */
  lemma LastBitIs(a: nat, w: nat)
    requires IsWidth(w) && a < Pow(2, w)
    ensures LastBit(a, w) <= w && if a == 0 then LastBit(a, w) == 0 else IsHighest(a, LastBit(a, w))
  {
    if a != 0 {
      var k := FindLastIs(a, w, 1);
    }
  }

  // ---------------------------------------------------------------- the lowest bit

  /** The `k`-th bit, counted from 1, is the lowest one set. */
  predicate IsLowest(a: int, k: nat) {
    0 < k && a % Pow(2, k - 1) == 0 && a % Pow(2, k) != 0
  }

  lemma ScaledMod(b: int, m: nat, n: nat)
    requires 0 < m && 0 < n
    ensures (m * b) % (m * n) == m * (b % n)
  {
    var q, r := b / n, b % n;
    assert b == q * n + r;
    assert m * b == q * (m * n) + m * r;
    MulLe(r + 1, n, m);
    ModUnique(m * b, m * n, q, m * r);
  }

  lemma ShiftLowest(b: int, h: nat, k: nat)
    requires IsLowest(b, k)
    ensures IsLowest(Pow(2, h) * b, h + k)
  {
    PowAdd(2, h, k - 1);
    PowAdd(2, h, k);
    ScaledMod(b, Pow(2, h), Pow(2, k - 1));
    ScaledMod(b, Pow(2, h), Pow(2, k));
  }

  /** With an empty lower half, the number is its upper half shifted, which is not empty. */
  lemma UpperPart(a: int, w: nat) returns (b: int)
    requires IsWidth(w) && w > 1 && Cast(a, w) != 0 && !LowerHalf(a, w)
    ensures b == Shifted(a, w / 2) && a == Pow(2, w / 2) * b && Cast(b, w / 2) != 0
  {
    Half(w);
    var m := Pow(2, w / 2);
    b := Shifted(a, w / 2);
    assert a == m * b;
    ScaledMod(b, m, m);
  }

  lemma {:induction false} FindFirstIs(a: int, w: nat, r: nat) returns (k: nat)
    requires IsWidth(w) && Cast(a, w) != 0
    ensures FindFirst(a, w, r) == r + k - 1 && k <= w && IsLowest(a, k)
    decreases w
  {
    if w == 1 {
      return 1;
    }
    Half(w);
    if LowerHalf(a, w) {
      k := FindFirstIs(a, w / 2, r);
    } else {
      var b := UpperPart(a, w);
      k := FindFirstIs(b, w / 2, r + w / 2);
      ShiftLowest(b, w / 2, k);
      k := k + w / 2;
    }
  }

  /** The finder returns the position of the lowest set bit, 0 for 0. */
  lemma FirstBitIs(a: nat, w: nat)
    requires IsWidth(w) && a < Pow(2, w)
    ensures FirstBit(a, w) <= w && if a == 0 then FirstBit(a, w) == 0 else IsLowest(a, FirstBit(a, w))
  {
    if a != 0 {
      CastSmall(a, w);
      var k := FindFirstIs(a, w, 1);
    }
  }

  // ---------------------------------------------------------------- rounding

  /** `a - 1` in C: `unsigned int` wraps around, narrower types are promoted to `int`. */
  function Decrement(a: nat, w: nat): int {
    if a == 0 && w == 32 then Pow(2, w) - 1 else a - 1
  }

  /** `ACPI_ROUND_UP_POWER_OF_TWO_w (a)`. */
  function RoundUp(a: nat, w: nat): nat
    requires IsWidth(w)
  {
    Cast(Pow(2, LastBit(Decrement(a, w), w)), w)
  }

  /** `ACPI_ROUND_DOWN_POWER_OF_TWO_w (a)`; shifting by -1 for zero is undefined. */
  function RoundDown(a: nat, w: nat): nat
    requires IsWidth(w) && 0 < a < Pow(2, w)
  {
    LastBitIs(a, w);
    Cast(Pow(2, LastBit(a, w) - 1), w)
  }

  ghost predicate IsPower(p: int) {
    exists n: nat :: p == Pow(2, n)
  }

  /** All bits of minus one are set. */
  lemma {:induction false} LastOfMinusOne(w: nat, r: nat)
    requires IsWidth(w)
    ensures FindLast(-1, w, r) == r + w - 1
    decreases w
  {
    if w > 1 {
      Half(w);
      ModUnique(-1, Pow(2, w), -1, Pow(2, w) - 1);
      ModUnique(-1, Pow(2, w / 2), -1, Pow(2, w / 2) - 1);
      MulLe(2, Pow(2, w / 2), Pow(2, w / 2));
      LastOfMinusOne(w / 2, r + w / 2);
    }
  }

  /** The least power of two that is at least `a`. */
  ghost predicate IsLeastAbove(p: nat, a: nat) {
    a <= p && IsPower(p) && forall n: nat :: a <= Pow(2, n) ==> p <= Pow(2, n)
  }

  /** The greatest power of two that is at most `a`. */
  ghost predicate IsGreatestBelow(p: nat, a: nat) {
    p <= a && IsPower(p) && forall n: nat :: Pow(2, n) <= a ==> Pow(2, n) <= p
  }

  lemma LeastAbove(a: nat, k: nat)
    requires if a == 1 then k == 0 else IsHighest(a - 1, k)
    ensures IsLeastAbove(Pow(2, k), a)
  {
    forall n: nat | a <= Pow(2, n) ensures Pow(2, k) <= Pow(2, n) {
      if n < k {
        PowMonotone(2, n, k - 1);
      }
      PowMonotone(2, Max(0, k - 1), k);
      if k <= n {
        PowMonotone(2, k, n);
      }
    }
  }

  lemma GreatestBelow(a: nat, k: nat)
    requires IsHighest(a, k)
    ensures IsGreatestBelow(Pow(2, k - 1), a)
  {
    forall n: nat | Pow(2, n) <= a ensures Pow(2, n) <= Pow(2, k - 1) {
      if k <= n {
        PowMonotone(2, k, n);
      } else {
        PowMonotone(2, n, k - 1);
      }
    }
  }

  lemma HighestUnique(a: int, j: nat, k: nat)
    requires IsHighest(a, j) && IsHighest(a, k)
    ensures j == k
  {
    if j < k {
      PowMonotone(2, j, k - 1);
    } else if k < j {
      PowMonotone(2, k, j - 1);
    }
  }

  /** Outside the range of a power of two the shifted bit is cast away. */
  lemma RoundUpOverflows(a: nat, w: nat)
    requires IsWidth(w) && a < Pow(2, w) && (a == 0 || Pow(2, w - 1) < a)
    ensures RoundUp(a, w) == 0
  {
    var d := Decrement(a, w);
    if d == -1 {
      LastOfMinusOne(w, 1);
    } else {
      LastBitIs(d, w);
      HighestUnique(d, w, LastBit(d, w));
    }
    ModUnique(Pow(2, w), Pow(2, w), 1, 0);
  }

  lemma RoundUpFits(a: nat, w: nat)
    requires IsWidth(w) && 1 <= a <= Pow(2, w - 1)
    ensures IsLeastAbove(RoundUp(a, w), a)
  {
    var k := LastBit(a - 1, w);
    LastBitIs(a - 1, w);
    LeastAbove(a, k);
    assert Pow(2, k) <= Pow(2, w - 1);
    CastSmall(Pow(2, k), w);
  }

  /** Rounding up yields the least power of two from `a` on exactly when that power fits the
      type; otherwise it yields 0, also for 0. */
  lemma RoundUpIff(a: nat, w: nat)
    requires IsWidth(w) && a < Pow(2, w)
    ensures IsLeastAbove(RoundUp(a, w), a) <==> 1 <= a <= Pow(2, w - 1)
    ensures RoundUp(a, w) == 0 <==> !(1 <= a <= Pow(2, w - 1))
  {
    if 1 <= a <= Pow(2, w - 1) {
      RoundUpFits(a, w);
    } else {
      RoundUpOverflows(a, w);
    }
  }

  /** Rounding down yields the greatest power of two up to `a`. */
  lemma RoundDownIs(a: nat, w: nat)
    requires IsWidth(w) && 0 < a < Pow(2, w)
    ensures IsGreatestBelow(RoundDown(a, w), a)
  {
    LastBitIs(a, w);
    var k := LastBit(a, w);
    GreatestBelow(a, k);
    CastSmall(Pow(2, k - 1), w);
  }
}
