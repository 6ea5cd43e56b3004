/** memcpy, memmove and memset on one byte-addressed memory. The scalar, SSE, AVX and
    AVX-512 forms differ in how many bytes one load-store moves. */
module KernelMemory {
  import opened Machine

  type Byte = x: int | 0 <= x < 0x100

  /** is_sse_enabled, is_avx_enabled, is_avx2_enabled and is_avx512_enabled. */
  datatype Cpu = Cpu(sse: bool, avx: bool, avx2: bool, avx512: bool)

  /** The memory after the `n` bytes at `s` have been moved to `d`. */
  function Moved(m: seq<Byte>, d: nat, s: nat, n: nat): (r: seq<Byte>)
    requires d + n <= |m| && s + n <= |m|
    ensures |r| == |m|
  {
    m[..d] + m[s..s + n] + m[d + n..]
  }

  lemma MovedAt(m: seq<Byte>, d: nat, s: nat, n: nat, i: nat)
    requires d + n <= |m| && s + n <= |m| && i < |m|
    ensures Moved(m, d, s, n)[i] == if d <= i < d + n then m[s + (i - d)] else m[i]
  {
  }

  lemma MovedParts(m: seq<Byte>, m': seq<Byte>, d: nat, s: nat, n: nat)
    requires d + n <= |m| && s + n <= |m| && m' == Moved(m, d, s, n)
    ensures m'[d..d + n] == m[s..s + n] && m'[..d] == m[..d] && m'[d + n..] == m[d + n..]
  {
  }

  /** One load of `width` bytes followed by one store. */
  method CopyChunk(mem: array<Byte>, d: nat, s: nat, width: nat)
    requires d + width <= mem.Length && s + width <= mem.Length
    modifies mem
    ensures forall i :: 0 <= i < mem.Length ==>
      mem[i] == if d <= i < d + width then old(mem[s + (i - d)]) else old(mem[i])
  {
    forall i | d <= i < d + width {
      mem[i] := mem[s + (i - d)];
    }
  }

  /** The bytes `lo..hi` of the region have arrived and the rest of memory is as it was. */
  ghost predicate Arrived(mem: array<Byte>, m0: seq<Byte>, d: nat, s: nat, n: nat, lo: int, hi: int)
    reads mem
  {
    && mem.Length == |m0| && d + n <= |m0| && s + n <= |m0| && 0 <= lo <= hi <= n
    && forall i {:trigger mem[i]} :: 0 <= i < |m0| ==>
         mem[i] == if d + lo <= i < d + hi then m0[s + (i - d)] else m0[i]
  }

  /** A chunk that continues a forward move is read before anything overwrites it. */
  method ForwardStep(mem: array<Byte>, d: nat, s: nat, n: nat, k: nat, width: nat, ghost m0: seq<Byte>)
    requires Arrived(mem, m0, d, s, n, 0, k) && k + width <= n && (d <= s || s + n <= d)
    modifies mem
    ensures Arrived(mem, m0, d, s, n, 0, k + width)
  {
    CopyChunk(mem, d + k, s + k, width);
    forall i | d + k <= i < d + k + width ensures mem[i] == m0[s + (i - d)] {
      assert old(mem[s + k + (i - (d + k))]) == m0[s + (i - d)];
    }
  }

  method BackwardStep(mem: array<Byte>, d: nat, s: nat, n: nat, k: nat, width: nat, ghost m0: seq<Byte>)
    requires Arrived(mem, m0, d, s, n, k + width, n) && s < d
    modifies mem
    ensures Arrived(mem, m0, d, s, n, k, n)
  {
    CopyChunk(mem, d + k, s + k, width);
    forall i | d + k <= i < d + k + width ensures mem[i] == m0[s + (i - d)] {
      assert old(mem[s + k + (i - (d + k))]) == m0[s + (i - d)];
    }
  }

  lemma AllArrived(mem: array<Byte>, m0: seq<Byte>, d: nat, s: nat, n: nat)
    requires Arrived(mem, m0, d, s, n, 0, n)
    ensures mem[..] == Moved(m0, d, s, n)
  {
    forall i | 0 <= i < |m0| ensures mem[i] == Moved(m0, d, s, n)[i] {
      MovedAt(m0, d, s, n, i);
    }
  }

  /** `memcpy_scalar`, `memcpy_sse`, `memcpy_avx` and `memcpy_avx512`: whole chunks forward,
      then single bytes. Overlap is harmless when the destination lies below the source. */
  method CopyForward(mem: array<Byte>, d: nat, s: nat, n: nat, width: nat)
    requires 1 <= width && d + n <= mem.Length && s + n <= mem.Length
    requires d <= s || s + n <= d
    modifies mem
    ensures mem[..] == Moved(old(mem[..]), d, s, n)
  {
    ghost var m0 := mem[..];
    var k := 0;
    while n - k >= width
      invariant Arrived(mem, m0, d, s, n, 0, k)
    {
      ForwardStep(mem, d, s, n, k, width, m0);
      k := k + width;
    }
    while k < n
      invariant Arrived(mem, m0, d, s, n, 0, k)
    {
      ForwardStep(mem, d, s, n, k, 1, m0);
      k := k + 1;
    }
    AllArrived(mem, m0, d, s, n);
  }

  /** The backward half of the memmove forms: whole chunks from the end, then single bytes. */
  method CopyBackward(mem: array<Byte>, d: nat, s: nat, n: nat, width: nat)
    requires 1 <= width && d + n <= mem.Length && s + n <= mem.Length && s < d
    modifies mem
    ensures mem[..] == Moved(old(mem[..]), d, s, n)
  {
    ghost var m0 := mem[..];
    var k: int := n;
    while k >= width
      invariant Arrived(mem, m0, d, s, n, k, n)
    {
      k := k - width;
      BackwardStep(mem, d, s, n, k, width, m0);
    }
    while k > 0
      invariant Arrived(mem, m0, d, s, n, k, n)
    {
      k := k - 1;
      BackwardStep(mem, d, s, n, k, 1, m0);
    }
    AllArrived(mem, m0, d, s, n);
  }

  /** `memmove_scalar`, `memmove_sse`, `memmove_avx` and `memmove_avx512`. */
  method MoveChunked(mem: array<Byte>, d: nat, s: nat, n: nat, width: nat) returns (dest: nat)
    requires 1 <= width && d + n <= mem.Length && s + n <= mem.Length
    modifies mem
    ensures mem[..] == Moved(old(mem[..]), d, s, n) && dest == d
  {
    dest := d;
    if d == s {
      return;
    }
    if d < s {
      CopyForward(mem, d, s, n, width);
    } else {
      CopyBackward(mem, d, s, n, width);
    }
  }

  /** `memmove`: whatever the processor supports and however source and destination
      overlap, the destination holds the old source and nothing else changes. */
  method Memmove(mem: array<Byte>, d: nat, s: nat, n: nat, cpu: Cpu) returns (dest: nat)
    requires d + n <= mem.Length && s + n <= mem.Length
    modifies mem
    ensures mem[..] == Moved(old(mem[..]), d, s, n) && dest == d
    ensures mem[d..d + n] == old(mem[s..s + n])
    ensures mem[..d] == old(mem[..d]) && mem[d + n..] == old(mem[d + n..])
  {
    ghost var before := mem[..];
    if n < 64 {
      dest := MoveChunked(mem, d, s, n, 8);
    } else if cpu.avx512 {
      dest := MoveChunked(mem, d, s, n, 64);
    } else if cpu.avx {
      dest := MoveChunked(mem, d, s, n, 32);
    } else if cpu.sse {
      dest := MoveChunked(mem, d, s, n, 16);
    } else {
      dest := MoveChunked(mem, d, s, n, 8);
    }
    MovedParts(before, mem[..], d, s, n);
  }

  /** `memcpy`, whose regions must not overlap; a destination below the source is no harm. */
  method Memcpy(mem: array<Byte>, d: nat, s: nat, n: nat, cpu: Cpu) returns (dest: nat)
    requires d + n <= mem.Length && s + n <= mem.Length && (d <= s || s + n <= d)
    modifies mem
    ensures mem[..] == Moved(old(mem[..]), d, s, n) && dest == d
    ensures mem[d..d + n] == old(mem[s..s + n])
    ensures mem[..d] == old(mem[..d]) && mem[d + n..] == old(mem[d + n..])
  {
    ghost var before := mem[..];
    CopyForward(mem, d, s, n, if cpu.avx512 then 64 else if cpu.avx then 32 else if cpu.sse then 16 else 8);
    dest := d;
    MovedParts(before, mem[..], d, s, n);
  }

  // ---------------------------------------------------------------- memset

  function Filled(m: seq<Byte>, start: nat, fill: seq<Byte>): (r: seq<Byte>)
    requires start + |fill| <= |m|
    ensures |r| == |m|
  {
    m[..start] + fill + m[start + |fill|..]
  }

  /** `num` copies of one byte: what memset is for. */
  function ByteFill(b: Byte, num: nat): (f: seq<Byte>)
    ensures |f| == num && forall i :: 0 <= i < num ==> f[i] == b
  {
    seq(num, _ => b)
  }

  /** `memset_sse`, `memset_avx`, `memset_avx2` and `memset_avx512`. */
  method FillChunked(mem: array<Byte>, start: nat, b: Byte, num: nat, width: nat)
    requires 1 <= width && start + num <= mem.Length
    modifies mem
    ensures mem[..] == Filled(old(mem[..]), start, ByteFill(b, num))
  {
    var k := 0;
    while num - k >= width
      invariant 0 <= k <= num
      invariant forall i :: 0 <= i < mem.Length ==> mem[i] == if start <= i < start + k then b else old(mem[i])
    {
      forall i | start + k <= i < start + k + width {
        mem[i] := b;
      }
      k := k + width;
    }
    while k < num
      invariant 0 <= k <= num
      invariant forall i :: 0 <= i < mem.Length ==> mem[i] == if start <= i < start + k then b else old(mem[i])
    {
      mem[start + k] := b;
      k := k + 1;
    }
  }

  /** Byte `j` of a little-endian 32-bit word. */
  function ByteOf(value: U32, j: nat): Byte
    requires j < 4
  {
    if j == 0 then value % 0x100
    else if j == 1 then value / 0x100 % 0x100
    else if j == 2 then value / 0x1_0000 % 0x100
    else value / 0x100_0000 % 0x100
  }

  /** `b & (0xFF << j)` cut to a byte: the low `j` bits cleared. */
  function LowCleared(b: Byte, j: nat): Byte
    requires j < 4
  {
    var p := if j == 0 then 1 else if j == 1 then 2 else if j == 2 then 4 else 8;
    b - b % p
  }

  /** Byte `i` of `num` bytes set by `memset_scalar`: whole words carry the whole value, the
      bytes after the last word the low byte shifted by bits, not bytes. */
  function ScalarByte(value: U32, num: nat, i: nat): Byte
    requires i < num
  {
    if i < num - num % 4 then ByteOf(value, i % 4) else LowCleared(ByteOf(value, 0), i % 4)
  }

  function ScalarFill(value: U32, num: nat): (f: seq<Byte>)
    ensures |f| == num && forall i :: 0 <= i < num ==> f[i] == ScalarByte(value, num, i)
  {
    seq(num, i requires 0 <= i < num => ScalarByte(value, num, i))
  }

  /** The bytes `start..start + k` are set as `memset_scalar` sets them. */
  ghost predicate ScalarDone(mem: array<Byte>, m0: seq<Byte>, start: nat, value: U32, num: nat, k: int)
    reads mem
  {
    && mem.Length == |m0| && 0 <= k <= num && start + num <= |m0|
    && forall p :: 0 <= p < |m0| ==>
         mem[p] == if start <= p < start + k then ScalarByte(value, num, p - start) else m0[p]
  }

  /** One 32-bit store. */
  method StoreWord(mem: array<Byte>, at: nat, value: U32)
    requires at + 4 <= mem.Length
    modifies mem
    ensures forall p :: 0 <= p < mem.Length ==>
      mem[p] == if at <= p < at + 4 then ByteOf(value, p - at) else old(mem[p])
  {
    mem[at] := ByteOf(value, 0);
    mem[at + 1] := ByteOf(value, 1);
    mem[at + 2] := ByteOf(value, 2);
    mem[at + 3] := ByteOf(value, 3);
  }

  lemma WordBytes(value: U32, num: nat, i: nat, j: nat)
    requires i % 4 == 0 && i + 4 <= num && j < 4
    ensures ScalarByte(value, num, i + j) == ByteOf(value, j)
  {
  }

  lemma TailByte(value: U32, num: nat, i: nat)
    requires i < num < i + 4 && (i % 4 == 0 || i >= num - num % 4)
    ensures ScalarByte(value, num, i) == LowCleared(ByteOf(value, 0), i % 4) && i + 1 >= num - num % 4
  {
  }

  method WordStep(mem: array<Byte>, start: nat, value: U32, num: nat, i: nat, ghost m0: seq<Byte>)
    requires ScalarDone(mem, m0, start, value, num, i) && i + 4 <= num && i % 4 == 0
    modifies mem
    ensures ScalarDone(mem, m0, start, value, num, i + 4)
  {
    StoreWord(mem, start + i, value);
    forall p | start + i <= p < start + i + 4 ensures mem[p] == ScalarByte(value, num, p - start) {
      WordBytes(value, num, i, p - start - i);
    }
  }

  method ByteStep(mem: array<Byte>, start: nat, value: U32, num: nat, i: nat, ghost m0: seq<Byte>)
    requires ScalarDone(mem, m0, start, value, num, i) && i < num < i + 4 && (i % 4 == 0 || i >= num - num % 4)
    modifies mem
    ensures ScalarDone(mem, m0, start, value, num, i + 1)
  {
    TailByte(value, num, i);
    mem[start + i] := LowCleared(ByteOf(value, 0), i % 4);
  }

  /** One turn of the loop: a word while four bytes are left, then a byte. */
  method ScalarStep(mem: array<Byte>, start: nat, value: U32, num: nat, i: nat, ghost m0: seq<Byte>)
    returns (next: nat)
    requires ScalarDone(mem, m0, start, value, num, i) && i < num
    requires i % 4 == 0 || (num < i + 4 && i >= num - num % 4)
    modifies mem
    ensures i < next && ScalarDone(mem, m0, start, value, num, next)
    ensures next % 4 == 0 || (num < next + 4 && next >= num - num % 4)
  {
    if num - i >= 4 {
      WordStep(mem, start, value, num, i, m0);
      next := i + 4;
    } else {
      ByteStep(mem, start, value, num, i, m0);
      TailByte(value, num, i);
      next := i + 1;
    }
  }

  /** The word at `i`, the low byte first. */
  predicate WordAt(f: seq<Byte>, i: nat, value: U32)
    requires i + 4 <= |f|
  {
    var b0: int, b1: int, b2: int, b3: int := f[i], f[i + 1], f[i + 2], f[i + 3];
    b0 + b1 * 0x100 + b2 * 0x1_0000 + b3 * 0x100_0000 == value
  }

  /** Behind the last word, its low byte with no, one and two low bits cleared. */
  predicate TailAt(f: seq<Byte>, t: nat, value: U32)
    requires t <= |f|
  {
    && (t < |f| ==> f[t] == value % 0x100)
    && (t + 1 < |f| ==> f[t + 1] % 2 == 0 && 0 <= value % 0x100 - f[t + 1] < 2)
    && (t + 2 < |f| ==> f[t + 2] % 4 == 0 && 0 <= value % 0x100 - f[t + 2] < 4)
  }

  /** What `memset_scalar` leaves in the bytes it sets: the value in every whole word, then the
      bytes behind the last one. */
  predicate ScalarStored(f: seq<Byte>, value: U32) {
    && (forall i :: 0 <= i && i + 4 <= |f| && i % 4 == 0 ==> WordAt(f, i, value))
    && TailAt(f, |f| - |f| % 4, value)
  }

  lemma BytesSum(value: U32)
    ensures ByteOf(value, 0) as int + ByteOf(value, 1) * 0x100 + ByteOf(value, 2) * 0x1_0000 +
      ByteOf(value, 3) * 0x100_0000 == value
  {
    var q1 := value / 0x100;
    var q2 := q1 / 0x100;
    var q3 := q2 / 0x100;
    ModUnique(value, 0x1_0000, q2, q1 % 0x100 * 0x100 + value % 0x100);
    ModUnique(value, 0x100_0000, q3, q2 % 0x100 * 0x1_0000 + q1 % 0x100 * 0x100 + value % 0x100);
  }

  /** A word is its bytes, the least significant first, and no other bytes. */
  lemma LittleEndian(value: U32, b0: int, b1: int, b2: int, b3: int)
    requires 0 <= b0 < 0x100 && 0 <= b1 < 0x100 && 0 <= b2 < 0x100 && 0 <= b3 < 0x100
    ensures b0 + b1 * 0x100 + b2 * 0x1_0000 + b3 * 0x100_0000 == value <==>
      b0 == ByteOf(value, 0) && b1 == ByteOf(value, 1) && b2 == ByteOf(value, 2) && b3 == ByteOf(value, 3)
  {
    BytesSum(value);
    if b0 + b1 * 0x100 + b2 * 0x1_0000 + b3 * 0x100_0000 == value {
      ModUnique(value, 0x100, b1 + b2 * 0x100 + b3 * 0x1_0000, b0);
      ModUnique(value / 0x100, 0x100, b2 + b3 * 0x100, b1);
      ModUnique(value, 0x1_0000, b2 + b3 * 0x100, b0 + b1 * 0x100);
      ModUnique(value / 0x1_0000, 0x100, b3, b2);
      ModUnique(value, 0x100_0000, b3, b0 + b1 * 0x100 + b2 * 0x1_0000);
    }
  }

  lemma ClearedIs(b: Byte, c: Byte)
    ensures LowCleared(b, 0) == b
    ensures c == LowCleared(b, 1) <==> c % 2 == 0 && 0 <= b - c < 2
    ensures c == LowCleared(b, 2) <==> c % 4 == 0 && 0 <= b - c < 4
  {
  }

  lemma WordStored(value: U32, f: seq<Byte>, g: seq<Byte>, i: nat)
    requires i + 4 <= |f| && i % 4 == 0 && g == ScalarFill(value, |f|)
    ensures WordAt(f, i, value) <==>
      f[i] == g[i] && f[i + 1] == g[i + 1] && f[i + 2] == g[i + 2] && f[i + 3] == g[i + 3]
  {
    LittleEndian(value, f[i], f[i + 1], f[i + 2], f[i + 3]);
    WordBytes(value, |f|, i, 0);
    WordBytes(value, |f|, i, 1);
    WordBytes(value, |f|, i, 2);
    WordBytes(value, |f|, i, 3);
  }

  /** Byte `j` behind the last word. */
  lemma TailByteIs(value: U32, f: seq<Byte>, g: seq<Byte>, t: nat, j: nat)
    requires t == |f| - |f| % 4 && t + j < |f| && g == ScalarFill(value, |f|)
    ensures j < 3 && g[t + j] == LowCleared(value % 0x100, j)
  {
    ModUnique(t + j, 4, t / 4, j);
  }

  lemma TailStored(value: U32, f: seq<Byte>, g: seq<Byte>, t: nat)
    requires t == |f| - |f| % 4 && g == ScalarFill(value, |f|)
    ensures TailAt(f, t, value) <==> f[t..] == g[t..]
  {
    if t < |f| {
      ClearedIs(value % 0x100, f[t]);
      TailByteIs(value, f, g, t, 0);
    }
    if t + 1 < |f| {
      ClearedIs(value % 0x100, f[t + 1]);
      TailByteIs(value, f, g, t, 1);
    }
    if t + 2 < |f| {
      ClearedIs(value % 0x100, f[t + 2]);
      TailByteIs(value, f, g, t, 2);
    }
    assert f[t..] == g[t..] <==> forall i :: t <= i < |f| ==> f[i] == g[i] by {
      if f[t..] == g[t..] {
        assert forall i :: t <= i < |f| ==> f[i] == f[t..][i - t] && g[i] == g[t..][i - t];
      }
    }
  }

  lemma WordsStored(value: U32, f: seq<Byte>, g: seq<Byte>, t: nat)
    requires t == |f| - |f| % 4 && g == ScalarFill(value, |f|)
    requires forall i :: 0 <= i && i + 4 <= |f| && i % 4 == 0 ==> WordAt(f, i, value)
    ensures f[..t] == g[..t]
  {
    forall i | 0 <= i < t ensures f[i] == g[i] {
      var k := i - i % 4;
      assert WordAt(f, k, value);
      WordStored(value, f, g, k);
      assert i == k || i == k + 1 || i == k + 2 || i == k + 3;
    }
  }

  lemma StoredWords(value: U32, f: seq<Byte>, g: seq<Byte>)
    requires f == g == ScalarFill(value, |f|)
    ensures forall i :: 0 <= i && i + 4 <= |f| && i % 4 == 0 ==> WordAt(f, i, value)
  {
    forall i | 0 <= i && i + 4 <= |f| && i % 4 == 0 ensures WordAt(f, i, value) {
      WordStored(value, f, g, i);
    }
  }

  /** These bytes, and no others, are those of the scalar form. */
  lemma ScalarStoredIff(value: U32, f: seq<Byte>)
    ensures ScalarStored(f, value) <==> f == ScalarFill(value, |f|)
  {
    var g, t := ScalarFill(value, |f|), |f| - |f| % 4;
    TailStored(value, f, g, t);
    if f == g {
      StoredWords(value, f, g);
    } else {
      assert f == f[..t] + f[t..] && g == g[..t] + g[t..];
      if ScalarStored(f, value) {
        WordsStored(value, f, g, t);
      }
    }
  }

  lemma AllDone(mem: array<Byte>, m0: seq<Byte>, start: nat, value: U32, num: nat)
    requires ScalarDone(mem, m0, start, value, num, num)
    ensures mem[..] == Filled(m0, start, ScalarFill(value, num))
  {
  }

  lemma FilledParts(m: seq<Byte>, m': seq<Byte>, start: nat, fill: seq<Byte>)
    requires start + |fill| <= |m| && m' == Filled(m, start, fill)
    ensures m'[start..start + |fill|] == fill
    ensures m'[..start] == m[..start] && m'[start + |fill|..] == m[start + |fill|..]
  {
  }

  /** `memset_scalar`. */
  method FillScalar(mem: array<Byte>, start: nat, value: U32, num: nat)
    requires start + num <= mem.Length
    modifies mem
    ensures mem[..] == Filled(old(mem[..]), start, ScalarFill(value, num))
    ensures ScalarStored(mem[start..start + num], value)
    ensures mem[..start] == old(mem[..start]) && mem[start + num..] == old(mem[start + num..])
  {
    ghost var m0 := mem[..];
    var i: nat := 0;
    while i < num
      invariant ScalarDone(mem, m0, start, value, num, i)
      invariant i % 4 == 0 || (num < i + 4 && i >= num - num % 4)
    {
      i := ScalarStep(mem, start, value, num, i, m0);
    }
    AllDone(mem, m0, start, value, num);
    FilledParts(m0, mem[..], start, ScalarFill(value, num));
    ScalarStoredIff(value, ScalarFill(value, num));
  }

  /** `memset`. */
  method Memset(mem: array<Byte>, start: nat, value: U32, num: nat, cpu: Cpu) returns (dest: nat)
    requires start + num <= mem.Length
    modifies mem
    ensures dest == start && mem[..] == Filled(old(mem[..]), start, FillOf(value, num, cpu))
    ensures if cpu.avx512 || cpu.avx2 || cpu.avx || cpu.sse
            then forall i :: start <= i < start + num ==> mem[i] == value % 0x100
            else ScalarStored(mem[start..start + num], value)
    ensures mem[..start] == old(mem[..start]) && mem[start + num..] == old(mem[start + num..])
  {
    ghost var m0 := mem[..];
    dest := start;
    if cpu.avx512 {
      FillChunked(mem, start, ByteOf(value, 0), num, 64);
    } else if cpu.avx2 || cpu.avx {
      FillChunked(mem, start, ByteOf(value, 0), num, 32);
    } else if cpu.sse {
      FillChunked(mem, start, ByteOf(value, 0), num, 16);
    } else {
      FillScalar(mem, start, value, num);
    }
    FilledParts(m0, mem[..], start, FillOf(value, num, cpu));
    FillIs(mem[..], start, value, num, cpu);
  }

  lemma FillIs(m: seq<Byte>, start: nat, value: U32, num: nat, cpu: Cpu)
    requires start + num <= |m| && m[start..start + num] == FillOf(value, num, cpu)
    ensures if cpu.avx512 || cpu.avx2 || cpu.avx || cpu.sse
            then forall i :: start <= i < start + num ==> m[i] == value % 0x100
            else ScalarStored(m[start..start + num], value)
  {
    if cpu.avx512 || cpu.avx2 || cpu.avx || cpu.sse {
      forall i | start <= i < start + num ensures m[i] == value % 0x100 {
        assert m[i] == m[start..start + num][i - start];
      }
    } else {
      ScalarStoredIff(value, ScalarFill(value, num));
    }
  }

  function FillOf(value: U32, num: nat, cpu: Cpu): (f: seq<Byte>)
    ensures |f| == num
  {
    if cpu.avx512 || cpu.avx2 || cpu.avx || cpu.sse then ByteFill(ByteOf(value, 0), num) else ScalarFill(value, num)
  }

  /** The four bytes of the value are its low byte. */
  predicate EqualBytes(value: U32) {
    value == value % 0x100 * 0x0101_0101
  }

  lemma EqualBytesIs(value: U32)
    ensures EqualBytes(value) <==> ByteOf(value, 0) == ByteOf(value, 1) == ByteOf(value, 2) == ByteOf(value, 3)
  {
    var b := value % 0x100;
    LittleEndian(value, b, b, b, b);
  }

  /** What a length asks of the value for the scalar form to be a byte fill. */
  predicate Fillable(value: U32, num: nat) {
    && (num >= 4 ==> EqualBytes(value))
    && (num % 4 >= 2 ==> value % 2 == 0)
    && (num % 4 == 3 ==> value % 4 == 0)
  }

  /** For one length, the scalar form is the byte fill exactly for these values. */
  lemma ScalarFillIff(value: U32, num: nat)
    ensures ScalarFill(value, num) == ByteFill(value % 0x100, num) <==> Fillable(value, num)
  {
    var f, g, b := ScalarFill(value, num), ByteFill(value % 0x100, num), ByteOf(value, 0);
    EqualBytesIs(value);
    LowBits(value);
    if f == g {
      if num >= 4 {
        assert f[1] == ByteOf(value, 1) && f[2] == ByteOf(value, 2) && f[3] == ByteOf(value, 3);
        assert g[1] == b && g[2] == b && g[3] == b;
      }
      var t := num - num % 4;
      if num % 4 >= 2 {
        assert f[t + 1] == LowCleared(b, 1) && g[t + 1] == b;
      }
      if num % 4 == 3 {
        assert f[t + 2] == LowCleared(b, 2) && g[t + 2] == b;
      }
    } else if Fillable(value, num) {
      forall i | 0 <= i < num ensures f[i] == g[i] {
        FillableByte(value, num, i);
      }
    }
  }

  lemma LowBits(value: U32)
    ensures value % 2 == value % 0x100 % 2 && value % 4 == value % 0x100 % 4
  {
    var q, low := value / 0x100, value % 0x100;
    ModUnique(value, 2, 0x80 * q + low / 2, low % 2);
    ModUnique(value, 4, 0x40 * q + low / 4, low % 4);
  }

  lemma FourTwo(value: U32)
    ensures value % 4 == 0 ==> value % 2 == 0
  {
    if value % 4 == 0 {
      ModUnique(value, 2, 2 * (value / 4), 0);
    }
  }

  /** All lengths together ask for this. */
  lemma FillableAlways(value: U32, num: nat)
    ensures Fillable(value, 7) <==> EqualBytes(value) && value % 4 == 0
    ensures EqualBytes(value) && value % 4 == 0 ==> Fillable(value, num)
  {
    FourTwo(value);
  }

  lemma FillableByte(value: U32, num: nat, i: nat)
    requires Fillable(value, num) && i < num
    ensures ScalarByte(value, num, i) == value % 0x100
  {
    EqualBytesIs(value);
    LowBits(value);
  }

  /** memset does the same on every processor, for every length, exactly when the four bytes
      of the value are equal and a multiple of 4 - for zero in particular. */
  lemma MemsetPortable(value: U32)
    ensures (forall num: nat, cpu: Cpu :: FillOf(value, num, cpu) == ByteFill(value % 0x100, num))
            <==> value == value % 0x100 * 0x0101_0101 && value % 4 == 0
  {
    var bare := Cpu(false, false, false, false);
    ScalarFillIff(value, 7);
    FillableAlways(value, 7);
    assert FillOf(value, 7, bare) == ScalarFill(value, 7);
    if Fillable(value, 7) {
      forall num: nat, cpu: Cpu
        ensures FillOf(value, num, cpu) == ByteFill(value % 0x100, num)
      {
        FillableAlways(value, num);
        ScalarFillIff(value, num);
      }
    }
  }
}
