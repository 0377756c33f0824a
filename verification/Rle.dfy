/** The nibble run-length coder on 32-bit words. */
module Rle {
  import opened Widths

  type nibble = x: int | 0 <= x < 16

  /** `(w << 4) | v` on a 32-bit word: the top nibble falls out. */
  function Push(w: u32, v: nibble): u32 {
    16 * (w % 0x1000_0000) + v
  }

  function Pow16(k: nat): (p: nat)
    ensures p >= 1
  {
    if k == 0 then 1 else 16 * Pow16(k - 1)
  }

  /** The number with these nibbles, least significant first. */
  function FromNibbles(ns: seq<nibble>): (x: nat)
    ensures x < Pow16(|ns|)
  {
    if ns == [] then 0 else ns[0] + 16 * FromNibbles(ns[1..])
  }

  /** The `n` low nibbles of `x`, least significant first. */
  function Nibbles(x: nat, n: nat): (ns: seq<nibble>)
    ensures |ns| == n
  {
    if n == 0 then [] else [x % 16] + Nibbles(x / 16, n - 1)
  }

  /** `x >> 4k`. */
  function Shr4(x: nat, k: nat): nat {
    if k == 0 then x else Shr4(x / 16, k - 1)
  }

  lemma {:induction false} NibbleAt(x: nat, n: nat, i: nat)
    requires i < n
    ensures Nibbles(x, n)[i] == Shr4(x, i) % 16
  {
    if i > 0 {
      NibbleAt(x / 16, n - 1, i - 1);
    }
  }

  lemma {:induction false} FromNibblesOf(x: nat, n: nat)
    requires x < Pow16(n)
    ensures FromNibbles(Nibbles(x, n)) == x
  {
    if n > 0 {
      FromNibblesOf(x / 16, n - 1);
      assert Nibbles(x, n)[1..] == Nibbles(x / 16, n - 1);
    }
  }

  /** Dropping low nibbles shifts the number down. */
  lemma {:induction false} DropIsShift(ns: seq<nibble>, k: nat)
    requires k <= |ns|
    ensures FromNibbles(ns[k..]) == Shr4(FromNibbles(ns), k)
    decreases k
  {
    if k > 0 {
      assert ns[1..][k - 1..] == ns[k..];
      DropIsShift(ns[1..], k - 1);
    } else {
      assert ns[0..] == ns;
    }
  }

  // ---------------------------------------------------------------- runs

  datatype Run = Run(value: nibble, count: nat)

  function RunsOf(ns: seq<nibble>): (rs: seq<Run>)
    ensures rs == [] <==> ns == []
  {
    if ns == [] then []
    else
      var n := |ns| - 1;
      var rs := RunsOf(ns[..n]);
      if rs != [] && rs[|rs| - 1].value == ns[n]
      then rs[|rs| - 1 := Run(ns[n], rs[|rs| - 1].count + 1)]
      else rs + [Run(ns[n], 1)]
  }

  function Copies(v: nibble, n: nat): (s: seq<nibble>)
    ensures |s| == n
  {
    seq(n, _ => v)
  }

  function Expand(rs: seq<Run>): seq<nibble> {
    if rs == [] then [] else Expand(rs[..|rs| - 1]) + Copies(rs[|rs| - 1].value, rs[|rs| - 1].count)
  }

  /** Expanding the runs gives the nibbles back. */
  lemma {:induction false} ExpandRunsOf(ns: seq<nibble>)
    ensures Expand(RunsOf(ns)) == ns
  {
    if ns != [] {
      var n := |ns| - 1;
      var rs, v := RunsOf(ns[..n]), ns[n];
      ExpandRunsOf(ns[..n]);
      assert ns == ns[..n] + [v];
      if rs != [] && rs[|rs| - 1].value == v {
        var m := |rs| - 1;
        assert rs[m := Run(v, rs[m].count + 1)][..m] == rs[..m];
        assert Copies(v, rs[m].count + 1) == Copies(v, rs[m].count) + [v];
      } else {
        assert (rs + [Run(v, 1)])[..|rs|] == rs;
        assert Copies(v, 1) == [v];
      }
    }
  }

  lemma {:induction false} ExpandConcat(rs: seq<Run>, ts: seq<Run>)
    ensures Expand(rs + ts) == Expand(rs) + Expand(ts)
    decreases |ts|
  {
    if ts == [] {
      assert rs + ts == rs;
    } else {
      var m := |ts| - 1;
      assert (rs + ts)[..|rs| + m] == rs + ts[..m];
      ExpandConcat(rs, ts[..m]);
    }
  }

  /** Neighbouring runs have different values, so the runs are as long as can be. */
  lemma {:induction false} RunsAreMaximal(ns: seq<nibble>, i: nat)
    requires i + 1 < |RunsOf(ns)|
    ensures RunsOf(ns)[i].value != RunsOf(ns)[i + 1].value
  {
    var n := |ns| - 1;
    var rs := RunsOf(ns[..n]);
    if i + 1 < |rs| {
      RunsAreMaximal(ns[..n], i);
    }
  }

  /** Every run counts at least one nibble and no more than there are. */
  lemma {:induction false} RunCounts(ns: seq<nibble>)
    ensures forall r | r in RunsOf(ns) :: 1 <= r.count <= |ns|
  {
    if ns != [] {
      RunCounts(ns[..|ns| - 1]);
    }
  }

  lemma {:induction false} EqualNibblesOneRun(ns: seq<nibble>, v: nibble)
    requires forall i | 0 <= i < |ns| :: ns[i] == v
    ensures |RunsOf(ns)| <= 1 && (ns != [] ==> RunsOf(ns) == [Run(v, |ns|)])
  {
    if ns != [] {
      EqualNibblesOneRun(ns[..|ns| - 1], v);
    }
  }

  // ---------------------------------------------------------------- packing

  function Code(r: Run): (b: nat)
    requires r.count < 16
    ensures b < 256
  {
    16 * r.count + r.value
  }

  /** Two pushes per run; only the last four survive in 32 bits. */
  function Packed(rs: seq<Run>): (w: u32)
    requires forall r | r in rs :: r.count < 16
  {
    if rs == [] then 0
    else
      var m := |rs| - 1;
      Push(Push(Packed(rs[..m]), rs[m].count), rs[m].value)
  }

  lemma TruncShift(w: nat, c: nibble)
    ensures (16 * (w % 0x1000_0000) + c) % 0x1000_0000 == 16 * (w % 0x100_0000) + c
  {
    var r := w % 0x1000_0000;
    var q, s := r / 0x100_0000, r % 0x100_0000;
    assert w % 0x100_0000 == s;
    assert 16 * r + c == 0x1000_0000 * q + (16 * s + c);
  }

  /** Two pushes: a new low byte, and the three low bytes of the word above it. */
  lemma PushTwice(w: u32, c: nibble, v: nibble)
    ensures Push(Push(w, c), v) == 256 * (w % 0x100_0000) + (16 * c + v)
  {
    TruncShift(w, c);
  }

  /** `w >> 8k`. */
  function Shr8(w: nat, k: nat): nat {
    if k == 0 then w else Shr8(w / 256, k - 1)
  }

  lemma {:induction false} Shr8Step(w: nat, k: nat)
    ensures Shr8(w, k + 1) == Shr8(w, k) / 256
  {
    if k > 0 {
      Shr8Step(w / 256, k - 1);
    }
  }

  /** Byte `j` of a word, from the low end. */
  function ByteOf(w: nat, j: nat): (b: nat)
    ensures b < 256
  {
    Shr8(w, j) % 256
  }

  lemma TruncDiv24(w: nat)
    ensures (w % 0x100_0000) / 256 == (w / 256) % 0x1_0000 && (w % 0x100_0000) % 256 == w % 256
  {
    var q, t := w / 0x100_0000, w % 0x100_0000;
    assert w == 256 * (0x1_0000 * q + t / 256) + t % 256;
    assert w / 256 == 0x1_0000 * q + t / 256;
  }

  lemma TruncDiv16(w: nat)
    ensures (w % 0x1_0000) / 256 == (w / 256) % 0x100 && (w % 0x1_0000) % 256 == w % 256
  {
    var q, t := w / 0x1_0000, w % 0x1_0000;
    assert w == 256 * (0x100 * q + t / 256) + t % 256;
    assert w / 256 == 0x100 * q + t / 256;
  }

  lemma LowBytes(w: nat, j: nat)
    requires j < 3
    ensures ByteOf(w % 0x100_0000, j) == ByteOf(w, j)
  {
    var t := w % 0x100_0000;
    TruncDiv24(w);
    TruncDiv16(w / 256);
    if j == 1 {
      assert Shr8(w, 1) == w / 256 && Shr8(t, 1) == t / 256;
    } else if j == 2 {
      Shr8Step(w, 1);
      Shr8Step(t, 1);
      assert Shr8(w, 1) == w / 256 && Shr8(t, 1) == t / 256;
    }
  }

  lemma PackedStep(rs: seq<Run>)
    requires rs != [] && forall r | r in rs :: r.count < 16
    ensures Packed(rs) == 256 * (Packed(rs[..|rs| - 1]) % 0x100_0000) + Code(rs[|rs| - 1])
  {
    var m := |rs| - 1;
    PushTwice(Packed(rs[..m]), rs[m].count, rs[m].value);
  }

  /** Byte `j` of the packed word is the code of the j-th run from the end. */
  lemma {:induction false} PackedByte(rs: seq<Run>, j: nat)
    requires (forall r | r in rs :: r.count < 16) && j < 4
    ensures ByteOf(Packed(rs), j) == if j < |rs| then 16 * rs[|rs| - 1 - j].count + rs[|rs| - 1 - j].value else 0
  {
    if rs == [] {
      ZeroByte(j);
    } else {
      var m := |rs| - 1;
      var w := Packed(rs[..m]);
      PackedStep(rs);
      NewLowByte(w % 0x100_0000, Code(rs[m]), j);
      if j > 0 {
        PackedByte(rs[..m], j - 1);
        LowBytes(w, j - 1);
      }
    }
  }

  lemma NewLowByte(w: nat, b: nat, j: nat)
    requires b < 256
    ensures ByteOf(256 * w + b, j) == if j == 0 then b else ByteOf(w, j - 1)
  {
    assert (256 * w + b) / 256 == w && (256 * w + b) % 256 == b;
  }

  lemma {:induction false} ZeroByte(j: nat)
    ensures ByteOf(0, j) == 0
  {
    if j > 0 {
      ZeroByte(j - 1);
    }
  }

  // ---------------------------------------------------------------- the code

  function Min8(n: nat): nat { if n < 8 then n else 8 }

  /** The pairs `compress_rle` emits: the runs, or an empty run for no nibbles. */
  function Emitted(data: u32, length: nat): (rs: seq<Run>)
    ensures forall r | r in rs :: r.count < 16
  {
    RunCounts(Nibbles(data, Min8(length)));
    if length == 0 then [Run(data % 16, 0)] else RunsOf(Nibbles(data, Min8(length)))
  }

  lemma PackedPush(rs: seq<Run>, r: Run)
    requires (forall t | t in rs :: t.count < 16) && r.count < 16
    ensures Packed(rs + [r]) == Push(Push(Packed(rs), r.count), r.value)
  {
    assert (rs + [r])[..|rs|] == rs;
  }

  /** One more nibble lengthens the open run or closes it. */
  lemma RunsGrow(ns: seq<nibble>, i: nat, closed: seq<Run>, r: Run)
    requires i < |ns| && RunsOf(ns[..i]) == closed + [r]
    ensures ns[i] == r.value ==> RunsOf(ns[..i + 1]) == closed + [Run(r.value, r.count + 1)]
    ensures ns[i] != r.value ==> RunsOf(ns[..i + 1]) == closed + [r] + [Run(ns[i], 1)]
  {
    assert ns[..i + 1][..i] == ns[..i];
  }

  method CompressRle(data: u32, length: nat) returns (compressed: u32)
    ensures compressed == Packed(Emitted(data, length))
  {
    ghost var ns := Nibbles(data, Min8(length));
    compressed := 0;
    var count: nat := 0;
    var current: nibble := data % 16;
    var i := 0;
    ghost var closed: seq<Run> := [];
    while i < length && i < 8
      invariant 0 <= i <= Min8(length) && count <= i
      invariant i == 0 ==> closed == [] && count == 0 && current == data % 16
      invariant i > 0 ==> RunsOf(ns[..i]) == closed + [Run(current, count)]
      invariant (forall r | r in closed :: r.count < 16) && compressed == Packed(closed)
      decreases 8 - i
    {
      var value := Shr4(data, i) % 16;
      NibbleAt(data, Min8(length), i);
      if i > 0 {
        RunsGrow(ns, i, closed, Run(current, count));
      }
      if value == current {
        count := count + 1;
      } else {
        PackedPush(closed, Run(current, count));
        compressed := Push(compressed, count);
        compressed := Push(compressed, current);
        closed := closed + [Run(current, count)];
        current := value;
        count := 1;
      }
      i := i + 1;
    }
    assert ns[..Min8(length)] == ns;
    PackedPush(closed, Run(current, count));
    compressed := Push(compressed, count);
    compressed := Push(compressed, current);
  }

  /** `count` pushes of `value`, at most eight. */
  function Poured(w: u32, value: nibble, count: nat): u32 {
    if count == 0 then w else Push(Poured(w, value, count - 1), value)
  }

  function PouredByte(w: u32, b: nat): u32
    requires b < 256
  {
    Poured(w, b % 16, Min8(b / 16))
  }

  /** The `k` low bytes of `c`, poured lowest first. */
  function PouredUpTo(c: u32, k: nat): u32 {
    if k == 0 then 0 else PouredByte(PouredUpTo(c, k - 1), ByteOf(c, k - 1))
  }

  function Decompressed(c: u32): u32 {
    PouredUpTo(c, 4)
  }

  /** The inner loop of `decompress_rle`, on one count and value pair. */
  method PourPair(start: u32, b: nat) returns (d: u32)
    requires b < 256
    ensures d == PouredByte(start, b)
  {
    d := start;
    var value, count := b % 16, b / 16;
    var i := 0;
    while i < count && i < 8
      invariant 0 <= i <= Min8(count) && d == Poured(start, value, i)
    {
      d := Push(d, value);
      i := i + 1;
    }
  }

  method DecompressRle(c: u32) returns (d: u32)
    ensures d == Decompressed(c)
  {
    d := 0;
    var pos := 0;
    ghost var k := 0;
    while pos < 32
      invariant 0 <= k <= 4 && pos == 8 * k && d == PouredUpTo(c, k)
    {
      assert pos / 8 == k;
      d := PourPair(d, Shr8(c, pos / 8) % 256);
      pos, k := pos + 8, k + 1;
    }
  }

  // ---------------------------------------------------------------- the round trip

  lemma PushSmall(w: u32, v: nibble)
    requires w < 0x1000_0000
    ensures Push(w, v) == 16 * w + v
  {
  }

  lemma FitsSeven(t: seq<nibble>)
    requires |t| <= 7
    ensures FromNibbles(t) < 0x1000_0000
  {
    Pow16Mono(|t|, 7);
    assert Pow16(7) == 0x1000_0000;
  }

  lemma PushNibble(t: seq<nibble>, v: nibble)
    requires |t| <= 7 && FromNibbles(t) < TWO_32
    ensures Push(FromNibbles(t), v) == FromNibbles([v] + t)
  {
    var w := FromNibbles(t);
    assert FromNibbles([v] + t) == v + 16 * w by {
      assert ([v] + t)[1..] == t;
    }
    FitsSeven(t);
    PushSmall(w, v);
  }

  /** Pouring is prepending copies to the nibbles, as long as they fit. */
  lemma {:induction false} PourPrepends(s: seq<nibble>, v: nibble, n: nat)
    requires n + |s| <= 8
    ensures FromNibbles(s) < TWO_32
    ensures Poured(FromNibbles(s), v, n) == FromNibbles(Copies(v, n) + s)
    decreases n
  {
    FitsWord(s);
    if n == 0 {
      assert Copies(v, n) + s == s;
    } else {
      var t := Copies(v, n - 1) + s;
      PourPrepends(s, v, n - 1);
      FitsWord(t);
      PushNibble(t, v);
      assert Copies(v, n) + s == [v] + t;
    }
  }

  lemma FitsWord(s: seq<nibble>)
    requires |s| <= 8
    ensures FromNibbles(s) < TWO_32
  {
    Pow16Mono(|s|, 8);
    assert Pow16(8) == TWO_32;
  }

  lemma {:induction false} Pow16Mono(a: nat, b: nat)
    requires a <= b
    ensures Pow16(a) <= Pow16(b)
    decreases b
  {
    if a < b {
      Pow16Mono(a, b - 1);
    }
  }

  /** The last `k` runs, or all of them. */
  function LastRuns(rs: seq<Run>, k: nat): seq<Run> {
    if k <= |rs| then rs[|rs| - k..] else rs
  }

  lemma LastRunsGrow(rs: seq<Run>, k: nat)
    requires k < |rs|
    ensures Expand(LastRuns(rs, k + 1)) == Copies(rs[|rs| - 1 - k].value, rs[|rs| - 1 - k].count) + Expand(LastRuns(rs, k))
  {
    var r := rs[|rs| - 1 - k];
    assert LastRuns(rs, k + 1) == [r] + LastRuns(rs, k);
    ExpandConcat([r], LastRuns(rs, k));
    assert [r][..0] == [];
    assert Expand([r]) == Expand([]) + Copies(r.value, r.count);
  }

  /** A byte that codes a run pours the run in front of what is already there. */
  lemma PourNext(c: u32, k: nat, s: seq<nibble>, r: Run)
    requires r.count + |s| <= 8 && ByteOf(c, k) == Code(r) && PouredUpTo(c, k) == FromNibbles(s)
    ensures PouredUpTo(c, k + 1) == FromNibbles(Copies(r.value, r.count) + s)
  {
    CodeParts(r);
    PourPrepends(s, r.value, r.count);
  }

  lemma PourNothing(c: u32, k: nat)
    requires ByteOf(c, k) == 0
    ensures PouredUpTo(c, k + 1) == PouredUpTo(c, k)
  {
  }

  /** The k lowest bytes of the packed word pour out the last k runs, in order. */
  lemma {:induction false} PourRuns(rs: seq<Run>, k: nat)
    requires (forall r | r in rs :: r.count <= 8) && |Expand(rs)| <= 8 && k <= 4
    ensures PouredUpTo(Packed(rs), k) == FromNibbles(Expand(LastRuns(rs, k)))
  {
    if k == 0 {
      assert LastRuns(rs, 0) == [];
    } else {
      var j, c := k - 1, Packed(rs);
      PourRuns(rs, j);
      PackedByte(rs, j);
      if j < |rs| {
        LastRunsGrow(rs, j);
        SuffixShort(rs, k);
        PourNext(c, j, Expand(LastRuns(rs, j)), rs[|rs| - 1 - j]);
      } else {
        assert LastRuns(rs, k) == rs && LastRuns(rs, j) == rs;
        PourNothing(c, j);
      }
    }
  }

  lemma CodeParts(r: Run)
    requires r.count < 16
    ensures Code(r) % 16 == r.value && Code(r) / 16 == r.count
  {
  }

  lemma SuffixShort(rs: seq<Run>, k: nat)
    ensures |Expand(LastRuns(rs, k))| <= |Expand(rs)|
    ensures k <= |rs| ==> Expand(rs) == Expand(rs[..|rs| - k]) + Expand(LastRuns(rs, k))
  {
    if k <= |rs| {
      assert rs == rs[..|rs| - k] + LastRuns(rs, k);
      ExpandConcat(rs[..|rs| - k], LastRuns(rs, k));
    }
  }

  /** The nibbles of all but the last four runs. */
  function Dropped(rs: seq<Run>): nat {
    if |rs| <= 4 then 0 else |Expand(rs[..|rs| - 4])|
  }

  /** No nibbles at all are coded as an empty run of the lowest one. */
  lemma EmptyCode(x: u32)
    ensures Packed(Emitted(x, 0)) == x % 16
  {
    var r := Run(x % 16, 0);
    assert [r][..0] == [];
    PackedStep([r]);
  }

  // ---------------------------------------------------------------- decoding any word

  /** Eight nibbles fit a word. */
  function First8(ns: seq<nibble>): (r: seq<nibble>)
    ensures |r| <= 8
  {
    if |ns| <= 8 then ns else ns[..8]
  }

  lemma WordOfFirst8(ns: seq<nibble>)
    ensures FromNibbles(First8(ns)) < TWO_32
  {
    FitsWord(First8(ns));
  }

  /** The number of eight nibbles, less its top nibble. */
  lemma {:induction false} TopNibble(ns: seq<nibble>, k: nat)
    requires |ns| == k + 1
    ensures FromNibbles(ns) == FromNibbles(ns[..k]) + Pow16(k) * ns[k]
  {
    if k > 0 {
      assert ns[..k][1..] == ns[1..][..k - 1];
      TopNibble(ns[1..], k - 1);
      Carry(FromNibbles(ns[1..][..k - 1]), Pow16(k - 1), ns[k], ns[0]);
    } else {
      assert ns[1..] == [] && ns[..0] == [];
    }
  }

  lemma Carry(a: nat, p: nat, t: nat, v: nat)
    ensures v + 16 * (a + p * t) == (v + 16 * a) + (16 * p) * t
  {
    assert 16 * (p * t) == (16 * p) * t;
  }

  lemma DropTop(x: nat, q: nat)
    requires x < 0x1000_0000
    ensures (x + 0x1000_0000 * q) % 0x1000_0000 == x
  {
  }

  /** Pushing drops whatever no longer fits. */
  lemma PushDrops(ns: seq<nibble>, v: nibble)
    requires FromNibbles(First8(ns)) < TWO_32
    ensures Push(FromNibbles(First8(ns)), v) == FromNibbles(First8([v] + ns))
  {
    var f := First8(ns);
    if |f| <= 7 {
      PushNibble(f, v);
      assert First8([v] + ns) == [v] + f;
    } else {
      var t := f[..7];
      TopNibble(f, 7);
      assert Pow16(7) == 0x1000_0000;
      FitsSeven(t);
      DropTop(FromNibbles(t), f[7]);
      FitsWord(t);
      PushNibble(t, v);
      PushSmall(FromNibbles(t), v);
      assert First8([v] + ns) == [v] + t;
    }
  }

  lemma {:induction false} PourDrops(ns: seq<nibble>, v: nibble, n: nat)
    requires FromNibbles(First8(ns)) < TWO_32
    ensures Poured(FromNibbles(First8(ns)), v, n) == FromNibbles(First8(Copies(v, n) + ns))
    decreases n
  {
    if n == 0 {
      assert Copies(v, 0) + ns == ns;
    } else {
      PourDrops(ns, v, n - 1);
      var t := Copies(v, n - 1) + ns;
      WordOfFirst8(t);
      PushDrops(t, v);
      assert Copies(v, n) + ns == [v] + t;
    }
  }

  /** The nibbles that the `k` low bytes stand for: high half the count, at most eight, low half the value; the lowest byte comes last. */
  function Meant(c: u32, k: nat): seq<nibble> {
    if k == 0 then [] else Copies(ByteOf(c, k - 1) % 16, Min8(ByteOf(c, k - 1) / 16)) + Meant(c, k - 1)
  }

  lemma {:induction false} PouredIsMeant(c: u32, k: nat)
    ensures PouredUpTo(c, k) == FromNibbles(First8(Meant(c, k)))
  {
    if k > 0 {
      PouredIsMeant(c, k - 1);
      WordOfFirst8(Meant(c, k - 1));
      PourDrops(Meant(c, k - 1), ByteOf(c, k - 1) % 16, Min8(ByteOf(c, k - 1) / 16));
    }
  }

  /** Any word at all, a product of the coder or not, decodes to the first eight nibbles it stands for. */
  lemma DecodesAnyWord(c: u32)
    ensures Decompressed(c) == FromNibbles(First8(Meant(c, 4)))
  {
    PouredIsMeant(c, 4);
  }

  // ---------------------------------------------------------------- there and back

  /** Coding and decoding the first `length` nibbles of a word shifts out the nibbles of all but their last four runs. */
  lemma RoundTrip(x: u32, length: nat)
    ensures var ns := Nibbles(x, Min8(length));
      Decompressed(Packed(Emitted(x, length))) == Shr4(FromNibbles(ns), Dropped(RunsOf(ns)))
  {
    var ns, rs := Nibbles(x, Min8(length)), Emitted(x, length);
    if length == 0 {
      assert rs[..0] == [];
      assert Expand(rs) == [];
    } else {
      ExpandRunsOf(ns);
      RunCounts(ns);
    }
    assert Expand(rs) == ns;
    PourRuns(rs, 4);
    SuffixShort(rs, 4);
    var k := Dropped(RunsOf(ns));
    assert Expand(LastRuns(rs, 4)) == ns[k..];
    DropIsShift(ns, k);
  }

  /** For whole words the round trip is exact if and only if the eight nibbles form at most four runs. */
  lemma ExactIffFourRuns(x: u32)
    ensures Decompressed(Packed(Emitted(x, 8))) == x <==> |RunsOf(Nibbles(x, 8))| <= 4
  {
    var ns := Nibbles(x, 8);
    var rs := RunsOf(ns);
    RoundTrip(x, 8);
    assert Pow16(8) == TWO_32;
    FromNibblesOf(x, 8);
    if |rs| > 4 {
      RunCounts(ns);
      assert Dropped(rs) >= 1 by {
        var h := rs[..|rs| - 4];
        assert h[|h| - 1] in rs;
      }
      if Shr4(x, Dropped(rs)) == x {
        ShrFixed(x, Dropped(rs));
        ZeroNibbles(8);
        EqualNibblesOneRun(ns, 0);
      }
    }
  }

  lemma {:induction false} ShrSmaller(x: nat, k: nat)
    ensures Shr4(x, k) <= x
  {
    if k > 0 {
      ShrSmaller(x / 16, k - 1);
    }
  }

  lemma ShrFixed(x: nat, k: nat)
    requires k >= 1 && Shr4(x, k) == x
    ensures x == 0
  {
    ShrSmaller(x / 16, k - 1);
  }

  lemma {:induction false} ZeroNibbles(n: nat)
    ensures forall i | 0 <= i < n :: Nibbles(0, n)[i] == 0
  {
    if n > 0 {
      ZeroNibbles(n - 1);
    }
  }
}
