/** Machine arithmetic of the kernel's x86-64 target: unsigned wrap-around and
    two's-complement reinterpretation, spelled out over unbounded integers. */
module Machine {
  const TWO31: int := 0x8000_0000
  const TWO32: int := 0x1_0000_0000
  const TWO63: int := 0x8000_0000_0000_0000
  const TWO64: int := 0x1_0000_0000_0000_0000

  type U32 = x: int | 0 <= x < TWO32
  type U64 = x: int | 0 <= x < TWO64

  datatype Option<+T> = None | Some(value: T)

  /** Conversion to `unsigned int`. */
  function ToU32(x: int): U32 {
    x % TWO32
  }

  /** Conversion to a 64-bit unsigned type (`size_t`, `uint64_t`). */
  function ToU64(x: int): U64 {
    x % TWO64
  }

  lemma ToU32Small(x: U32)
    ensures ToU32(x) == x
  {
  }

  /** The signed reading of the low bits of `x`, where `modulus` is two to the width. */
  function Signed(x: int, modulus: int): (r: int)
    requires 2 <= modulus && modulus % 2 == 0
    ensures -(modulus / 2) <= r < modulus / 2
  {
    var low := x % modulus;
    if low < modulus / 2 then low else low - modulus
  }

  function Max(a: int, b: int): int {
    if a < b then b else a
  }

  function Min(a: int, b: int): int {
    if a < b then a else b
  }

  function Pow(b: nat, n: nat): (r: nat)
    ensures 0 < b ==> 0 < r
  {
    if n == 0 then 1 else b * Pow(b, n - 1)
  }

  lemma MulLe(a: int, b: int, c: int)
    requires a <= b && 0 <= c
    ensures a * c <= b * c
  {
  }

  lemma MulAssoc(a: int, b: int, c: int)
    ensures a * (b * c) == (a * b) * c
  {
  }

  lemma {:induction false} PowAdd(b: nat, m: nat, n: nat)
    ensures Pow(b, m + n) == Pow(b, m) * Pow(b, n)
  {
    if m > 0 {
      PowAdd(b, m - 1, n);
      MulAssoc(b, Pow(b, m - 1), Pow(b, n));
    }
  }

  lemma {:induction false} PowMonotone(b: nat, m: nat, n: nat)
    requires 1 <= b && m <= n
    ensures Pow(b, m) <= Pow(b, n)
    decreases n
  {
    if m < n {
      PowMonotone(b, m, n - 1);
      MulLe(1, b, Pow(b, n - 1));
    }
  }

  /** Quotient and remainder are unique. */
  lemma ModUnique(v: int, m: int, q: int, r: int)
    requires 0 <= r < m && v == q * m + r
    ensures v / m == q && v % m == r
  {
    var q', r' := v / m, v % m;
    assert v == q' * m + r' && 0 <= r' < m;
    if q' < q {
      MulLe(q' + 1, q, m);
    } else if q < q' {
      MulLe(q + 1, q', m);
    }
  }

  lemma ModShift(a: int, q: int, m: int)
    requires 0 < m
    ensures (a - q * m) % m == a % m
  {
    ModUnique(a - q * m, m, a / m - q, a % m);
  }

  /** Cutting to a signed width before a multiplication makes no difference to the result. */
  lemma SignedScaled(x: int, k: int, m: int)
    requires 2 <= m && m % 2 == 0
    ensures Signed(Signed(x, m) * k, m) == Signed(x * k, m)
  {
    var q := x / m + if x % m < m / 2 then 0 else 1;
    assert Signed(x, m) == x - q * m;
    MulAssoc(k, q, m);
    assert (x - q * m) * k == x * k - (k * q) * m;
    ModShift(x * k, k * q, m);
  }

  lemma DivBound(v: nat, d: nat, m: nat)
    requires 0 < d && v < d * m
    ensures v / d < m
  {
    if m <= v / d {
      MulLe(m, v / d, d);
    }
  }

  /** `n` copies of `c`, none when `n` is negative. */
  function Fill(c: char, n: int): (s: string)
    ensures |s| == Max(0, n)
    ensures forall i :: 0 <= i < |s| ==> s[i] == c
    decreases Max(0, n)
  {
    if n <= 0 then [] else [c] + Fill(c, n - 1)
  }

  lemma FillPush(c: char, n: nat)
    ensures Fill(c, n + 1) == Fill(c, n) + [c]
  {
  }
}
