/**
  The radix-2 decimation-in-time FFT of the GF16 datapath.

  The complex operations and the twiddle table are parameters: the refinement
  theorem holds for every interpretation of them, rounding GF16 arithmetic
  included.
 */
module Fft {
  import opened Widths
  import opened Words

  /** The operations the butterfly is built from; `twiddle(k, len)` is W_len^k. */
  datatype Ops<!T> = Ops(
    add: (T, T) -> T,
    sub: (T, T) -> T,
    mul: (T, T) -> T,
    twiddle: (nat, nat) -> T)

  // ---------------------------------------------------------------- powers of two

  predicate IsPowerOfTwo(n: nat) {
    n == 1 || (n > 0 && n % 2 == 0 && IsPowerOfTwo(n / 2))
  }

  function TrailingZeros(n: nat): (b: nat)
    requires n > 0
    ensures IsPowerOfTwo(n) ==> Pow2(b) == n
  {
    if n % 2 == 1 then 0 else 1 + TrailingZeros(n / 2)
  }

  // ---------------------------------------------------------------- bit reversal

  /** The number whose low `b` bits are those of `i` in reverse order. */
  function Rev(i: nat, b: nat): (r: nat)
    ensures r < Pow2(b)
  {
    if b == 0 then 0 else (if i % 2 == 1 then Pow2(b - 1) else 0) + Rev(i / 2, b - 1)
  }

  lemma {:induction false} RevLow(i: nat, b: nat)
    requires b > 0 && i < Pow2(b - 1)
    ensures Rev(i, b) == 2 * Rev(i, b - 1)
  {
    if b > 1 {
      RevLow(i / 2, b - 1);
    }
  }

  lemma {:induction false} RevHigh(i: nat, b: nat)
    requires b > 0 && i < Pow2(b - 1)
    ensures Rev(i + Pow2(b - 1), b) == 2 * Rev(i, b - 1) + 1
  {
    if b > 1 {
      var h := Pow2(b - 2);
      assert Pow2(b - 1) == 2 * h;
      assert (i + 2 * h) / 2 == i / 2 + h && (i + 2 * h) % 2 == i % 2;
      RevHigh(i / 2, b - 1);
    }
  }

  lemma {:induction false} RevInvolution(i: nat, b: nat)
    requires i < Pow2(b)
    ensures Rev(Rev(i, b), b) == i
  {
    if b > 0 {
      var r := Rev(i / 2, b - 1);
      RevInvolution(i / 2, b - 1);
      if i % 2 == 0 {
        RevLow(r, b);
      } else {
        assert Rev(i, b) == r + Pow2(b - 1);
        RevHigh(r, b);
      }
    }
  }

  lemma RevSwaps(i: nat, k: nat, b: nat)
    requires i < Pow2(b) && k < Pow2(b)
    ensures Rev(k, b) == i <==> k == Rev(i, b)
  {
    RevInvolution(i, b);
    RevInvolution(k, b);
  }

  /** Reversing a `w`-bit word and shifting it down reverses just the low `b` bits. */
  lemma {:induction false} RevShift(i: nat, b: nat, w: nat)
    requires b <= w && i < Pow2(b)
    ensures Shr(Rev(i, w), w - b) == Rev(i, b)
    decreases w
  {
    if b < w {
      Pow2Mono(b, w - 1);
      RevLow(i, w);
      RevShift(i, b, w - 1);
    }
  }

  // ---------------------------------------------------------------- the recursive transform

  function Evens<T>(x: seq<T>): (e: seq<T>)
    ensures |e| == (|x| + 1) / 2
    ensures forall k :: 0 <= k < |e| ==> e[k] == x[2 * k]
  {
    if x == [] then [] else [x[0]] + Odds(x[1..])
  }

  function Odds<T>(x: seq<T>): (o: seq<T>)
    ensures |o| == |x| / 2
    ensures forall k :: 0 <= k < |o| ==> o[k] == x[2 * k + 1]
  {
    if x == [] then [] else Evens(x[1..])
  }

  /** One butterfly pass: the two half transforms `e` and `o` become one of twice the length. */
  function Combine<T>(ops: Ops<T>, e: seq<T>, o: seq<T>): (r: seq<T>)
    requires |e| == |o|
    ensures |r| == 2 * |e|
  {
    var len := 2 * |e|;
    seq(|e|, k requires 0 <= k < |e| => ops.add(e[k], ops.mul(ops.twiddle(k, len), o[k])))
    + seq(|e|, k requires 0 <= k < |e| => ops.sub(e[k], ops.mul(ops.twiddle(k, len), o[k])))
  }

  /** The textbook even/odd decimation-in-time recursion. */
  function RecFft<T>(ops: Ops<T>, x: seq<T>): (r: seq<T>)
    requires IsPowerOfTwo(|x|)
    ensures |r| == |x|
    decreases |x|
  {
    if |x| == 1 then x
    else Combine(ops, RecFft(ops, Evens(x)), RecFft(ops, Odds(x)))
  }

  // ---------------------------------------------------------------- the iterative transform on values

  function BitReversed<T>(x: seq<T>): (r: seq<T>)
    requires IsPowerOfTwo(|x|)
    ensures |r| == |x|
    decreases |x|
  {
    if |x| == 1 then x else BitReversed(Evens(x)) + BitReversed(Odds(x))
  }

  /** One stage: every block of `2 * half` elements goes through a butterfly. */
  function Stage<T>(ops: Ops<T>, a: seq<T>, half: nat): (r: seq<T>)
    requires half > 0
    ensures |r| == |a|
    decreases |a|
  {
    if |a| < 2 * half then a
    else Combine(ops, a[..half], a[half..2 * half]) + Stage(ops, a[2 * half..], half)
  }

  /** All remaining stages, from block length `2 * half` up to the whole array. */
  function Stages<T>(ops: Ops<T>, a: seq<T>, half: nat): (r: seq<T>)
    requires half > 0
    ensures |r| == |a|
    decreases |a| - half
  {
    if 2 * half > |a| then a else Stages(ops, Stage(ops, a, half), 2 * half)
  }

  /** `n` is a whole number of blocks of length `len`. */
  predicate Blocks(n: nat, len: nat)
    requires len > 0
  {
    n == 0 || (n >= len && Blocks(n - len, len))
  }

  /** Doubling `h` often enough arrives at `m` exactly. */
  predicate Reaches(h: nat, m: nat)
    requires h > 0
    decreases m - h
  {
    h == m || (2 * h <= m && Reaches(2 * h, m))
  }

  lemma {:induction false} ReachesDouble(h: nat, m: nat)
    requires h > 0 && Reaches(h, m)
    ensures Reaches(2 * h, 2 * m)
    decreases m - h
  {
    if h != m {
      ReachesDouble(2 * h, m);
    }
  }

  lemma {:induction false} ReachesFromOne(m: nat)
    requires IsPowerOfTwo(m)
    ensures Reaches(1, m)
  {
    if m != 1 {
      ReachesFromOne(m / 2);
      ReachesDouble(1, m / 2);
    }
  }

  lemma {:induction false} HalveBlocks(n: nat, len: nat)
    requires len > 0 && Blocks(n, 2 * len)
    ensures Blocks(n, len)
  {
    if n > 0 {
      HalveBlocks(n - 2 * len, len);
      assert Blocks(n - len, len);
    }
  }

  lemma {:induction false} ReachesBlocks(h: nat, m: nat)
    requires h > 0 && Reaches(h, m)
    ensures Blocks(m, h)
    decreases m - h
  {
    if h == m {
      assert Blocks(m - h, h);
    } else {
      ReachesBlocks(2 * h, m);
      HalveBlocks(m, h);
    }
  }

  /** A stage treats disjoint runs of whole blocks independently. */
  lemma {:induction false} StageSplit<T>(ops: Ops<T>, a: seq<T>, b: seq<T>, half: nat)
    requires half > 0 && Blocks(|a|, 2 * half)
    ensures Stage(ops, a + b, half) == Stage(ops, a, half) + Stage(ops, b, half)
    decreases |a|
  {
    var len := 2 * half;
    if a == [] {
      assert a + b == b;
    } else {
      assert (a + b)[..half] == a[..half] && (a + b)[half..len] == a[half..len];
      assert (a + b)[len..] == a[len..] + b;
      StageSplit(ops, a[len..], b, half);
    }
  }

  /** On two arrays side by side the stages run separately until the last one joins them. */
  lemma {:induction false} StagesJoin<T>(ops: Ops<T>, a: seq<T>, b: seq<T>, half: nat)
    requires half > 0 && |a| == |b| && Reaches(half, |a|)
    ensures Stages(ops, a + b, half) == Combine(ops, Stages(ops, a, half), Stages(ops, b, half))
    decreases |a| - half
  {
    if half == |a| {
      assert (a + b)[..half] == a && (a + b)[half..2 * half] == b && (a + b)[2 * half..] == [];
      assert Stage(ops, a + b, half) == Combine(ops, a, b) + [];
    } else {
      ReachesBlocks(2 * half, |a|);
      StageSplit(ops, a, b, half);
      StagesJoin(ops, Stage(ops, a, half), Stage(ops, b, half), 2 * half);
    }
  }

  /** The stage schedule over bit-reversed input is the recursion, operation for operation. */
  lemma {:induction false} StagesAreRecursion<T>(ops: Ops<T>, x: seq<T>)
    requires IsPowerOfTwo(|x|)
    ensures Stages(ops, BitReversed(x), 1) == RecFft(ops, x)
    decreases |x|
  {
    if |x| > 1 {
      StagesAreRecursion(ops, Evens(x));
      StagesAreRecursion(ops, Odds(x));
      ReachesFromOne(|x| / 2);
      StagesJoin(ops, BitReversed(Evens(x)), BitReversed(Odds(x)), 1);
    }
  }

  lemma {:induction false} BitReversedAt<T>(x: seq<T>, b: nat, k: nat)
    requires |x| == Pow2(b) && IsPowerOfTwo(|x|) && k < |x|
    ensures BitReversed(x)[k] == x[Rev(k, b)]
    decreases b
  {
    if b > 0 {
      var half, e, o := Pow2(b - 1), Evens(x), Odds(x);
      assert |e| == half == |o|;
      if k < half {
        BitReversedAt(e, b - 1, k);
        RevLow(k, b);
        assert e[Rev(k, b - 1)] == x[2 * Rev(k, b - 1)];
      } else {
        var j := k - half;
        BitReversedAt(o, b - 1, j);
        RevHigh(j, b);
        assert o[Rev(j, b - 1)] == x[2 * Rev(j, b - 1) + 1];
      }
    }
  }

  // ---------------------------------------------------------------- the code

  /** The first `i` elements of `x` are in their bit-reversed places. */
  ghost predicate Scattered<T>(x: seq<T>, bits: nat, i: nat, out: seq<T>)
    requires |x| == Pow2(bits)
  {
    |out| == |x| && forall k | 0 <= k < |x| && Rev(k, bits) < i :: out[k] == x[Rev(k, bits)]
  }

  lemma ScatterOne<T>(x: seq<T>, bits: nat, i: nat, out: seq<T>)
    requires |x| == Pow2(bits) && i < |x| && Scattered(x, bits, i, out)
    ensures Scattered(x, bits, i + 1, out[Rev(i, bits) := x[i]])
  {
    var r := Rev(i, bits);
    forall k | 0 <= k < |x| && Rev(k, bits) < i + 1
      ensures out[r := x[i]][k] == x[Rev(k, bits)]
    {
      RevSwaps(i, k, bits);
    }
  }

  lemma ScatteredAll<T>(x: seq<T>, bits: nat, out: seq<T>)
    requires |x| == Pow2(bits) && IsPowerOfTwo(|x|) && Scattered(x, bits, |x|, out)
    ensures out == BitReversed(x)
  {
    forall k | 0 <= k < |x|
      ensures out[k] == BitReversed(x)[k]
    {
      BitReversedAt(x, bits, k);
    }
  }

  lemma BitsFit(bits: nat)
    requires Pow2(bits) <= TWO_32
    ensures bits <= 32
  {
    if bits > 32 {
      Pow2Of64();
      Pow2Mono(32, bits - 1);
    }
  }

  /** The shift of `bit_reverse` is within the 32-bit word if and only if there are two elements or more. */
  lemma ShiftFits(n: nat)
    requires IsPowerOfTwo(n) && n <= TWO_32
    ensures var bits := TrailingZeros(n); bits <= 32 && (32 - bits < 32 <==> n >= 2)
  {
    BitsFit(TrailingZeros(n));
  }

  /** Reverse the whole 32-bit word and shift the low `bits` back down. */
  method ReversedIndex(i: nat, bits: nat) returns (r: nat)
    requires bits <= 32 && i < Pow2(bits)
    ensures r == Rev(i, bits)
  {
    r := Shr(Rev(i, 32), 32 - bits);
    RevShift(i, bits, 32);
  }

  /** `bit_reverse`: scatter every element to its 32-bit reversed, shifted index. */
  method BitReverse<T(0)>(x: array<T>) returns (out: array<T>)
    requires IsPowerOfTwo(x.Length) && 2 <= x.Length <= TWO_32
    ensures fresh(out) && out[..] == BitReversed(x[..])
  {
    var n := x.Length;
    var bits := TrailingZeros(n);
    BitsFit(bits);
    out := new T[n];
    for i := 0 to n
      invariant Scattered(x[..], bits, i, out[..])
    {
      var r := ReversedIndex(i, bits);
      ScatterOne(x[..], bits, i, out[..]);
      out[r] := x[i];
    }
    ScatteredAll(x[..], bits, out[..]);
  }

  /** Element `i` once the first `k` butterflies of the block at `start` are done. */
  function Partial<T>(ops: Ops<T>, s: seq<T>, start: nat, half: nat, k: nat, i: nat): T
    requires k <= half && start + 2 * half <= |s| && i < |s|
  {
    if start <= i < start + k then ops.add(s[i], ops.mul(ops.twiddle(i - start, 2 * half), s[i + half]))
    else if start + half <= i < start + half + k then
      ops.sub(s[i - half], ops.mul(ops.twiddle(i - half - start, 2 * half), s[i]))
    else s[i]
  }

  ghost predicate IsPartial<T>(ops: Ops<T>, s: seq<T>, start: nat, half: nat, k: nat, t: seq<T>)
    requires k <= half && start + 2 * half <= |s|
  {
    |t| == |s| && forall i | 0 <= i < |s| :: t[i] == Partial(ops, s, start, half, k, i)
  }

  /** The innermost loop: the butterflies of the block at `start`. */
  method BlockButterflies<T>(ops: Ops<T>, a: array<T>, start: nat, half: nat)
    requires half > 0 && start + 2 * half <= a.Length
    modifies a
    ensures IsPartial(ops, old(a[..]), start, half, half, a[..])
  {
    ghost var s := a[..];
    for k := 0 to half
      invariant IsPartial(ops, s, start, half, k, a[..])
    {
      ghost var t := a[..];
      assert t[start + k] == s[start + k] && t[start + k + half] == s[start + k + half];
      var w := ops.twiddle(k, 2 * half);
      var u := a[start + k];
      var v := ops.mul(w, a[start + k + half]);
      a[start + k] := ops.add(u, v);
      a[start + k + half] := ops.sub(u, v);
      assert a[..] == t[start + k := ops.add(u, v)][start + k + half := ops.sub(u, v)];
    }
  }

  /** All butterflies of a block together combine its halves, and leave the rest alone. */
  lemma BlockDone<T>(ops: Ops<T>, s: seq<T>, start: nat, half: nat, t: seq<T>)
    requires start + 2 * half <= |s| && IsPartial(ops, s, start, half, half, t)
    ensures t[start..start + 2 * half] == Combine(ops, s[start..start + half], s[start + half..start + 2 * half])
    ensures t[..start] == s[..start] && t[start + 2 * half..] == s[start + 2 * half..]
  {
    var c := Combine(ops, s[start..start + half], s[start + half..start + 2 * half]);
    forall i | 0 <= i < 2 * half
      ensures c[i] == Partial(ops, s, start, half, half, start + i)
    {
    }
  }

  lemma DropSlice<T>(s: seq<T>, start: nat, lo: nat, hi: nat)
    requires lo <= hi && start + hi <= |s|
    ensures s[start..][lo..hi] == s[start + lo..start + hi]
  {
  }

  lemma DropDrop<T>(s: seq<T>, start: nat, k: nat)
    requires start + k <= |s|
    ensures s[start..][k..] == s[start + k..]
  {
  }

  lemma ConcatAssoc<T>(a: seq<T>, b: seq<T>, c: seq<T>)
    ensures (a + b) + c == a + (b + c)
  {
  }

  /** The array once the stage is run on everything from `start` on. */
  ghost function StageFrom<T>(ops: Ops<T>, a: seq<T>, start: nat, half: nat): seq<T>
    requires half > 0 && start <= |a|
  {
    a[..start] + Stage(ops, a[start..], half)
  }

  lemma StageFromEnd<T>(ops: Ops<T>, a: seq<T>, half: nat)
    requires half > 0
    ensures StageFrom(ops, a, 0, half) == Stage(ops, a, half) && StageFrom(ops, a, |a|, half) == a
  {
    assert a[0..] == a && a[..|a|] == a && a[|a|..] == [];
  }

  /** Running the butterflies of the first remaining block advances the stage by that block. */
  lemma StageAdvance<T>(ops: Ops<T>, before: seq<T>, after: seq<T>, start: nat, half: nat)
    requires half > 0 && start + 2 * half <= |before| == |after|
    requires IsPartial(ops, before, start, half, half, after)
    ensures StageFrom(ops, after, start + 2 * half, half) == StageFrom(ops, before, start, half)
  {
    var len, rest := 2 * half, before[start..];
    BlockDone(ops, before, start, half, after);
    assert rest[..half] == before[start..start + half] by { DropSlice(before, start, 0, half); }
    DropSlice(before, start, half, len);
    DropDrop(before, start, len);
    StageHead(ops, rest, half);
    TakeMore(after, start, len);
    ConcatAssoc(before[..start], after[start..start + len], Stage(ops, rest[len..], half));
  }

  lemma TakeMore<T>(s: seq<T>, start: nat, k: nat)
    requires start + k <= |s|
    ensures s[..start + k] == s[..start] + s[start..start + k]
  {
  }

  lemma StageHead<T>(ops: Ops<T>, a: seq<T>, half: nat)
    requires half > 0 && |a| >= 2 * half
    ensures Stage(ops, a, half) == Combine(ops, a[..half], a[half..2 * half]) + Stage(ops, a[2 * half..], half)
  {
  }

  /** `from(a, i)` is `StageFrom`; under a name of its own the loop proof does not unfold butterflies it has no use for. */
  ghost predicate Finishes<T(!new)>(from: (seq<T>, nat) -> seq<T>, ops: Ops<T>, half: nat)
    requires half > 0
  {
    forall a, i: nat {:trigger StageFrom(ops, a, i, half)} :: i <= |a| ==> from(a, i) == StageFrom(ops, a, i, half)
  }

  /** One turn of the middle loop. */
  method AdvanceStage<T(!new)>(ops: Ops<T>, a: array<T>, start: nat, half: nat, ghost from: (seq<T>, nat) -> seq<T>)
    requires half > 0 && start + 2 * half <= a.Length && Finishes(from, ops, half)
    modifies a
    ensures from(a[..], start + 2 * half) == old(from(a[..], start))
  {
    ghost var before := a[..];
    BlockButterflies(ops, a, start, half);
    StageAdvance(ops, before, a[..], start, half);
  }

  /** The middle loop. */
  method RunBlocks<T(!new)>(ops: Ops<T>, a: array<T>, half: nat, ghost from: (seq<T>, nat) -> seq<T>)
    requires half > 0 && Blocks(a.Length, 2 * half) && Finishes(from, ops, half)
    modifies a
    ensures from(a[..], a.Length) == old(from(a[..], 0))
  {
    ghost var spec := from(a[..], 0);
    var start := 0;
    while start < a.Length
      invariant 0 <= start <= a.Length && Blocks(a.Length - start, 2 * half)
      invariant from(a[..], start) == spec
    {
      AdvanceStage(ops, a, start, half, from);
      start := start + 2 * half;
    }
  }

  /** One stage over all blocks of length `2 * half`. */
  method RunStage<T(!new)>(ops: Ops<T>, a: array<T>, half: nat)
    requires half > 0 && Blocks(a.Length, 2 * half)
    modifies a
    ensures a[..] == Stage(ops, old(a[..]), half)
  {
    ghost var from := (s: seq<T>, i: nat) => if i <= |s| then StageFrom(ops, s, i, half) else s;
    StageFromEnd(ops, a[..], half);
    RunBlocks(ops, a, half, from);
    StageFromEnd(ops, a[..], half);
  }

  /** `fft`: bit reversal, then the stages `len = 2, 4, .., n` in place. */
  method Transform<T(0,!new)>(ops: Ops<T>, x: array<T>) returns (a: array<T>)
    requires IsPowerOfTwo(x.Length) && 2 <= x.Length <= TWO_32
    ensures fresh(a) && a[..] == RecFft(ops, x[..])
  {
    var n := x.Length;
    a := BitReverse(x);
    ReachesFromOne(n);
    StagesAreRecursion(ops, x[..]);
    ghost var spec := RecFft(ops, x[..]);
    var len := 2;
    while len <= n
      invariant len >= 2 && len % 2 == 0 && Reaches(len / 2, n)
      invariant a.Length == n && Stages(ops, a[..], len / 2) == spec
      decreases n - len
    {
      var half := len / 2;
      ReachesBlocks(2 * half, n);
      RunStage(ops, a, half);
      len := 2 * len;
      assert len / 2 == 2 * half;
    }
  }
}
