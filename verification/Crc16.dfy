/** The CRC-16-CCITT checksum, fed least significant bit first, and the bursts it detects. */
module Crc16 {

  const POLY: bv16 := 0x1021
  const INIT: bv16 := 0xFFFF

  function UpdateBit(crc: bv16, bit: bool): bv16 {
    if ((crc >> 15) & 1 == 1) != bit then (crc << 1) ^ POLY else crc << 1
  }

  /** Bit `i` of a byte. */
  predicate ByteBit(b: bv8, i: nat)
    requires i < 8
  {
    (match i
     case 0 => b
     case 1 => b >> 1
     case 2 => b >> 2
     case 3 => b >> 3
     case 4 => b >> 4
     case 5 => b >> 5
     case 6 => b >> 6
     case _ => b >> 7) & 1 == 1
  }

  function UpdateByte(crc: bv16, b: bv8): bv16 {
    UpdateBit(UpdateBit(UpdateBit(UpdateBit(UpdateBit(UpdateBit(UpdateBit(UpdateBit(crc,
      ByteBit(b, 0)), ByteBit(b, 1)), ByteBit(b, 2)), ByteBit(b, 3)),
      ByteBit(b, 4)), ByteBit(b, 5)), ByteBit(b, 6)), ByteBit(b, 7))
  }

  function Crc4(b0: bv8, b1: bv8, b2: bv8, b3: bv8): bv16 {
    UpdateByte(UpdateByte(UpdateByte(UpdateByte(INIT, b0), b1), b2), b3)
  }

  predicate Verify4(b0: bv8, b1: bv8, b2: bv8, b3: bv8, received: bv16) {
    Crc4(b0, b1, b2, b3) == received
  }

  /** The checksum of a message of any length. */
  function Crc(crc: bv16, msg: seq<bv8>): bv16
    decreases |msg|
  {
    if msg == [] then crc else Crc(UpdateByte(crc, msg[0]), msg[1..])
  }

  // ---------------------------------------------------------------- bit by bit

  function Feed(crc: bv16, bits: seq<bool>): bv16
    decreases |bits|
  {
    if bits == [] then crc else Feed(UpdateBit(crc, bits[0]), bits[1..])
  }

  function ByteBits(b: bv8): (s: seq<bool>)
    ensures |s| == 8 && forall i | 0 <= i < 8 :: s[i] == ByteBit(b, i)
  {
    [ByteBit(b, 0), ByteBit(b, 1), ByteBit(b, 2), ByteBit(b, 3), ByteBit(b, 4), ByteBit(b, 5), ByteBit(b, 6), ByteBit(b, 7)]
  }

  /** The message in processing order. */
  function Stream(msg: seq<bv8>): (s: seq<bool>)
    ensures |s| == 8 * |msg|
  {
    if msg == [] then [] else ByteBits(msg[0]) + Stream(msg[1..])
  }

  lemma {:induction false} FeedConcat(crc: bv16, s: seq<bool>, t: seq<bool>)
    ensures Feed(crc, s + t) == Feed(Feed(crc, s), t)
    decreases |s|
  {
    if s == [] {
      assert s + t == t;
    } else {
      assert (s + t)[1..] == s[1..] + t;
      FeedConcat(UpdateBit(crc, s[0]), s[1..], t);
    }
  }

  lemma FeedByte(crc: bv16, b: bv8)
    ensures Feed(crc, ByteBits(b)) == UpdateByte(crc, b)
  {
    var s := ByteBits(b);
    var c4 := UpdateBit(UpdateBit(UpdateBit(UpdateBit(crc, s[0]), s[1]), s[2]), s[3]);
    FeedFour(crc, s);
    FeedFour(c4, s[4..]);
  }

  lemma FeedFour(crc: bv16, s: seq<bool>)
    requires |s| >= 4
    ensures Feed(crc, s) == Feed(UpdateBit(UpdateBit(UpdateBit(UpdateBit(crc, s[0]), s[1]), s[2]), s[3]), s[4..])
  {
    FeedTwo(crc, s);
    FeedTwo(UpdateBit(UpdateBit(crc, s[0]), s[1]), s[2..]);
    assert s[2..][2..] == s[4..];
  }

  lemma FeedTwo(crc: bv16, s: seq<bool>)
    requires |s| >= 2
    ensures Feed(crc, s) == Feed(UpdateBit(UpdateBit(crc, s[0]), s[1]), s[2..])
  {
    assert s[1..][1..] == s[2..];
  }

  /** The byte-wise checksum feeds the bits in processing order. */
  lemma {:induction false} CrcIsFeed(crc: bv16, msg: seq<bv8>)
    ensures Crc(crc, msg) == Feed(crc, Stream(msg))
    decreases |msg|
  {
    if msg != [] {
      FeedConcat(crc, ByteBits(msg[0]), Stream(msg[1..]));
      FeedByte(crc, msg[0]);
      CrcIsFeed(UpdateByte(crc, msg[0]), msg[1..]);
    }
  }

  // ---------------------------------------------------------------- the register as sixteen bits

  /** Bit `i` of the register. */
  predicate WordBit(c: bv16, i: nat)
    requires i < 16
  {
    (match i
     case 0 => c
     case 1 => c >> 1
     case 2 => c >> 2
     case 3 => c >> 3
     case 4 => c >> 4
     case 5 => c >> 5
     case 6 => c >> 6
     case 7 => c >> 7
     case 8 => c >> 8
     case 9 => c >> 9
     case 10 => c >> 10
     case 11 => c >> 11
     case 12 => c >> 12
     case 13 => c >> 13
     case 14 => c >> 14
     case _ => c >> 15) & 1 == 1
  }

  type Register = r: seq<bool> | |r| == 16 witness seq(16, _ => false)

  function Bits(c: bv16): Register {
    seq(16, i requires 0 <= i < 16 => WordBit(c, i))
  }

  /** One step: shift up, and on a carry flip bits 0, 5 and 12. */
  function Clock(r: Register, bit: bool): Register {
    var carry := r[15] != bit;
    seq(16, i requires 0 <= i < 16 => if i == 0 then carry else r[i - 1] != (carry && (i == 5 || i == 12)))
  }

  lemma UpdateWordBit(c: bv16, bit: bool, i: nat)
    requires i < 16
    ensures WordBit(UpdateBit(c, bit), i)
      == var carry := WordBit(c, 15) != bit; if i == 0 then carry else WordBit(c, i - 1) != (carry && (i == 5 || i == 12))
  {
    if i < 8 {
      match i { case 0 => case 1 => case 2 => case 3 => case 4 => case 5 => case 6 => case _ => }
    } else {
      match i { case 8 => case 9 => case 10 => case 11 => case 12 => case 13 => case 14 => case _ => }
    }
  }

  lemma UpdateIsClock(c: bv16, bit: bool)
    ensures Bits(UpdateBit(c, bit)) == Clock(Bits(c), bit)
  {
    forall i | 0 <= i < 16
      ensures Bits(UpdateBit(c, bit))[i] == Clock(Bits(c), bit)[i]
    {
      UpdateWordBit(c, bit, i);
    }
  }

  function Clocked(r: Register, bits: seq<bool>): Register
    decreases |bits|
  {
    if bits == [] then r else Clocked(Clock(r, bits[0]), bits[1..])
  }

  lemma {:induction false} FeedIsClocked(c: bv16, bits: seq<bool>)
    ensures Bits(Feed(c, bits)) == Clocked(Bits(c), bits)
    decreases |bits|
  {
    if bits != [] {
      UpdateIsClock(c, bits[0]);
      FeedIsClocked(UpdateBit(c, bits[0]), bits[1..]);
    }
  }

  // ---------------------------------------------------------------- differences

  function Differ(s: seq<bool>, t: seq<bool>): (d: seq<bool>)
    requires |s| == |t|
    ensures |d| == |s| && forall i | 0 <= i < |s| :: d[i] == (s[i] != t[i])
  {
    seq(|s|, i requires 0 <= i < |s| => s[i] != t[i])
  }

  lemma ClockLinear(a: Register, x: bool, b: Register, y: bool)
    ensures Differ(Clock(a, x), Clock(b, y)) == Clock(Differ(a, b), x != y)
  {
  }

  /** The difference of two registers develops like a register fed the difference. */
  lemma {:induction false} ClockedLinear(a: Register, s: seq<bool>, b: Register, t: seq<bool>)
    requires |s| == |t|
    ensures Differ(Clocked(a, s), Clocked(b, t)) == Clocked(Differ(a, b), Differ(s, t))
    decreases |s|
  {
    if s != [] {
      ClockLinear(a, s[0], b, t[0]);
      assert Differ(s, t)[1..] == Differ(s[1..], t[1..]);
      ClockedLinear(Clock(a, s[0]), s[1..], Clock(b, t[0]), t[1..]);
    }
  }

  // ---------------------------------------------------------------- the checksum as a remainder

  /** The generator x^16 + x^12 + x^5 + 1 without its leading term, highest power first: the powers 12, 5 and 0. */
  predicate InGenerator(j: nat) { j == 3 || j == 10 || j == 15 }

  /** Polynomials over two elements, highest power first: the remainder of dividing by the generator, by long division. */
  function Remainder(s: seq<bool>): (r: seq<bool>)
    requires |s| >= 16
    ensures |r| == 16
    decreases |s|
  {
    if |s| == 16 then s else Remainder(if s[0] then Subtracted(s[1..]) else s[1..])
  }

  /** One subtraction of the generator, its leading term already gone. */
  function Subtracted(s: seq<bool>): (r: seq<bool>)
    ensures |r| == |s| && forall j | 0 <= j < |s| :: r[j] == (s[j] != InGenerator(j))
  {
    seq(|s|, j requires 0 <= j < |s| => s[j] != InGenerator(j))
  }

  /** The register's bits, highest first, added onto the head of a stream. */
  function Overlay(r: Register, s: seq<bool>): (t: seq<bool>)
    requires |s| >= 16
    ensures |t| == |s| && forall j | 0 <= j < |s| :: t[j] == if j < 16 then r[15 - j] != s[j] else s[j]
  {
    seq(|s|, j requires 0 <= j < |s| => if j < 16 then r[15 - j] != s[j] else s[j])
  }

  function HighFirst(r: Register): (t: seq<bool>)
    ensures |t| == 16 && forall j | 0 <= j < 16 :: t[j] == r[15 - j]
  {
    seq(16, j requires 0 <= j < 16 => r[15 - j])
  }

  function Zeros(n: nat): (z: seq<bool>)
    ensures |z| == n && forall j | 0 <= j < n :: !z[j]
  {
    seq(n, _ => false)
  }

  /** One clock is one step of the division. */
  lemma ClockDivides(r: Register, bit: bool, s: seq<bool>)
    requires |s| >= 16
    ensures var t := Overlay(r, [bit] + s);
      Overlay(Clock(r, bit), s) == if t[0] then Subtracted(t[1..]) else t[1..]
  {
    var all := [bit] + s;
    var t, u := Overlay(r, all), Overlay(Clock(r, bit), s);
    var v := if t[0] then Subtracted(t[1..]) else t[1..];
    assert t[0] == (r[15] != bit);
    forall j | 0 <= j < |s|
      ensures u[j] == v[j]
    {
      assert t[1..][j] == t[j + 1] && all[j + 1] == s[j];
      if j < 15 {
        assert Clock(r, bit)[15 - j] == (r[14 - j] != (t[0] && (15 - j == 5 || 15 - j == 12)));
      } else if j == 15 {
        assert Clock(r, bit)[0] == t[0];
      }
    }
  }

  /** Clocking a stream through a register divides the stream, sixteen zeros appended and the register added to its head. */
  lemma {:induction false} ClockedIsRemainder(r: Register, bits: seq<bool>)
    ensures HighFirst(Clocked(r, bits)) == Remainder(Overlay(r, bits + Zeros(16)))
    decreases |bits|
  {
    if bits == [] {
      assert bits + Zeros(16) == Zeros(16);
      assert Overlay(r, Zeros(16)) == HighFirst(r);
    } else {
      var rest := bits[1..] + Zeros(16);
      assert bits + Zeros(16) == [bits[0]] + rest;
      ClockDivides(r, bits[0], rest);
      ClockedIsRemainder(Clock(r, bits[0]), bits[1..]);
    }
  }

  /** The message with sixteen zeros appended and its first sixteen bits inverted. */
  function Prepared(bits: seq<bool>): (t: seq<bool>)
    ensures |t| == |bits| + 16
  {
    var s := bits + Zeros(16);
    seq(|s|, j requires 0 <= j < |s| => if j < 16 then !s[j] else s[j])
  }

  /** The checksum of any message, highest bit first, is the remainder of the prepared message by the generator. */
  lemma CrcIsRemainder(msg: seq<bv8>)
    ensures HighFirst(Bits(Crc(INIT, msg))) == Remainder(Prepared(Stream(msg)))
  {
    CrcIsFeed(INIT, msg);
    FeedIsClocked(INIT, Stream(msg));
    ClockedIsRemainder(Bits(INIT), Stream(msg));
    InitialBits();
    assert Overlay(Bits(INIT), Stream(msg) + Zeros(16)) == Prepared(Stream(msg));
  }

  lemma InitialBits()
    ensures forall i | 0 <= i < 16 :: Bits(INIT)[i]
  {
    forall i | 0 <= i < 16
      ensures WordBit(INIT, i)
    {
      if i < 8 {
        match i { case 0 => case 1 => case 2 => case 3 => case 4 => case 5 => case 6 => case _ => }
      } else {
        match i { case 8 => case 9 => case 10 => case 11 => case 12 => case 13 => case 14 => case _ => }
      }
    }
  }

  // ---------------------------------------------------------------- bursts

  ghost predicate Clear(r: Register, m: nat)
    requires m <= 16
  {
    forall i | 0 <= i < m :: !r[i]
  }

  lemma {:induction false} ClockedConcat(r: Register, s: seq<bool>, t: seq<bool>)
    ensures Clocked(r, s + t) == Clocked(Clocked(r, s), t)
    decreases |s|
  {
    if s == [] {
      assert s + t == t;
    } else {
      assert (s + t)[1..] == s[1..] + t;
      ClockedConcat(Clock(r, s[0]), s[1..], t);
    }
  }

  /** Going back one step from a register with its low bits clear clears one bit less. */
  lemma BackStep(r: Register, bit: bool, m: nat)
    requires m < 16 && Clear(Clock(r, bit), m + 1)
    ensures Clear(r, m)
  {
    forall i | 0 <= i < m
      ensures !r[i]
    {
      assert !Clock(r, bit)[0] && !Clock(r, bit)[i + 1];
    }
  }

  /** A register that `n` more bits lead to zero has its low 16 - n bits clear. */
  lemma {:induction false} LowBitsClear(r: Register, bits: seq<bool>)
    requires |bits| <= 16 && Clear(Clocked(r, bits), 16)
    ensures Clear(r, 16 - |bits|)
    decreases |bits|
  {
    if bits != [] {
      LowBitsClear(Clock(r, bits[0]), bits[1..]);
      BackStep(r, bits[0], 16 - |bits|);
    }
  }

  lemma ClockKeepsNonZero(r: Register)
    requires !Clear(r, 16)
    ensures !Clear(Clock(r, false), 16)
  {
    var i :| 0 <= i < 16 && r[i];
    var n := Clock(r, false);
    assert n[0] == r[15];
    if !r[15] {
      assert n[i + 1] == r[i];
    }
  }

  lemma {:induction false} QuietKeepsNonZero(r: Register, bits: seq<bool>)
    requires !Clear(r, 16) && forall i | 0 <= i < |bits| :: !bits[i]
    ensures !Clear(Clocked(r, bits), 16)
    decreases |bits|
  {
    if bits != [] {
      ClockKeepsNonZero(r);
      QuietKeepsNonZero(Clock(r, false), bits[1..]);
    }
  }

  /** A difference whose first set bit starts a burst of at most 16 bits never cancels. */
  lemma BurstFromStart(zero: Register, bits: seq<bool>)
    requires Clear(zero, 16) && bits != [] && bits[0] && forall i | 16 <= i < |bits| :: !bits[i]
    ensures !Clear(Clocked(zero, bits), 16)
  {
    var n := if |bits| < 16 then |bits| else 16;
    var r, head, tail := Clock(zero, true), bits[1..n], bits[n..];
    assert bits[1..] == head + tail;
    ClockedConcat(r, head, tail);
    assert r[0];
    if Clear(Clocked(r, head), 16) {
      LowBitsClear(r, head);
    } else {
      QuietKeepsNonZero(Clocked(r, head), tail);
    }
  }

  lemma {:induction false} BurstNeverCancels(zero: Register, bits: seq<bool>, p: nat)
    requires Clear(zero, 16) && p < |bits| && bits[p]
    requires forall i | 0 <= i < |bits| && !(p <= i < p + 16) :: !bits[i]
    ensures !Clear(Clocked(zero, bits), 16)
    decreases p
  {
    if p == 0 {
      BurstFromStart(zero, bits);
    } else {
      BurstNeverCancels(Clock(zero, bits[0]), bits[1..], p - 1);
    }
  }

  /** All differing bits of the two streams lie within 16 consecutive ones. */
  ghost predicate Burst(s: seq<bool>, t: seq<bool>) {
    |s| == |t| && s != t && exists p :: 0 <= p && BurstAt(s, t, p)
  }

  ghost predicate BurstAt(s: seq<bool>, t: seq<bool>, p: int)
    requires |s| == |t|
  {
    forall i | 0 <= i < |s| && s[i] != t[i] :: p <= i < p + 16
  }

  lemma {:induction false} FirstDifference(s: seq<bool>, t: seq<bool>, r: nat) returns (q: nat)
    requires |s| == |t| && r < |s| && s[r] != t[r]
    ensures q < |s| && s[q] != t[q] && forall i | 0 <= i < q :: s[i] == t[i]
  {
    if i :| 0 <= i < r && s[i] != t[i] {
      q := FirstDifference(s, t, i);
    } else {
      q := r;
    }
  }

  /** Two messages of equal length, any length, that differ in a burst of at most 16 bits get different checksums. */
  lemma BurstDetected(crc: bv16, a: seq<bv8>, b: seq<bv8>)
    requires Burst(Stream(a), Stream(b))
    ensures Crc(crc, a) != Crc(crc, b)
  {
    var s, t := Stream(a), Stream(b);
    var p: int :| 0 <= p && BurstAt(s, t, p);
    var r: nat :| r < |s| && s[r] != t[r];
    var q := FirstDifference(s, t, r);
    CrcIsFeed(crc, a);
    CrcIsFeed(crc, b);
    FeedIsClocked(crc, s);
    FeedIsClocked(crc, t);
    ClockedLinear(Bits(crc), s, Bits(crc), t);
    BurstNeverCancels(Differ(Bits(crc), Bits(crc)), Differ(s, t), q);
  }

  /** The frame check rejects every such burst. */
  lemma Verify4RejectsBurst(a: seq<bv8>, b: seq<bv8>)
    requires |a| == 4 && |b| == 4 && Burst(Stream(a), Stream(b))
    ensures !Verify4(b[0], b[1], b[2], b[3], Crc4(a[0], a[1], a[2], a[3]))
  {
    BurstDetected(INIT, a, b);
    CrcOfFour(a);
    CrcOfFour(b);
  }

  lemma CrcOfFour(m: seq<bv8>)
    requires |m| == 4
    ensures Crc(INIT, m) == Crc4(m[0], m[1], m[2], m[3])
  {
    assert m[1..][1..] == m[2..] && m[2..][1..] == m[3..] && m[3..][1..] == [];
    var c1 := UpdateByte(INIT, m[0]);
    var c2 := UpdateByte(c1, m[1]);
    var c3 := UpdateByte(c2, m[2]);
    assert Crc(c1, m[1..]) == Crc(c2, m[2..]);
    assert Crc(c2, m[2..]) == Crc(c3, m[3..]);
    assert Crc(c3, m[3..]) == Crc(UpdateByte(c3, m[3]), []);
  }

  // ---------------------------------------------------------------- seventeen bits

  /** The generator polynomial x^16 + x^12 + x^5 + 1, highest power first, at position `p` of a stream. */
  function GeneratorAt(p: nat, i: int): bool { i == p || i == p + 4 || i == p + 11 || i == p + 16 }

  function GeneratorStream(p: nat, n: nat): (s: seq<bool>)
    ensures |s| == n && forall i | 0 <= i < n :: s[i] == GeneratorAt(p, i)
  {
    seq(n, i requires 0 <= i < n => GeneratorAt(p, i))
  }

  /** Fed into an empty register, the generator leaves it empty. */
  lemma GeneratorCancels(g: seq<bool>)
    requires g == GeneratorStream(0, 17)
    ensures Feed(0, g) == 0
  {
    FeedFour(0, g);
    var c4 := UpdateBit(UpdateBit(UpdateBit(UpdateBit(0, true), false), false), false);
    assert c4 == 0x8108;
    FeedFour(c4, g[4..]);
    var c8 := UpdateBit(UpdateBit(UpdateBit(UpdateBit(c4, true), false), false), false);
    assert c8 == 0x1080 && g[4..][4..] == g[8..];
    FeedFour(c8, g[8..]);
    var c12 := UpdateBit(UpdateBit(UpdateBit(UpdateBit(c8, false), false), false), true);
    assert c12 == 0x0800 && g[8..][4..] == g[12..];
    FeedFour(c12, g[12..]);
    var c16 := UpdateBit(UpdateBit(UpdateBit(UpdateBit(c12, false), false), false), false);
    assert c16 == 0x8000 && g[12..][4..] == [g[16]];
    assert UpdateBit(c16, true) == 0;
  }

  lemma AllClear(r: Register)
    requires Clear(r, 16)
    ensures r == Bits(0)
  {
    forall i | 0 <= i < 16
      ensures !WordBit(0, i)
    {
    }
  }

  lemma ClockKeepsZero(r: Register)
    requires Clear(r, 16)
    ensures Clear(Clock(r, false), 16)
  {
  }

  lemma {:induction false} QuietKeepsZero(r: Register, bits: seq<bool>)
    requires Clear(r, 16) && forall i | 0 <= i < |bits| :: !bits[i]
    ensures Clear(Clocked(r, bits), 16)
    decreases |bits|
  {
    if bits != [] {
      ClockKeepsZero(r);
      QuietKeepsZero(Clock(r, false), bits[1..]);
    }
  }

  lemma GeneratorClears(zero: Register, g: seq<bool>)
    requires Clear(zero, 16) && g == GeneratorStream(0, 17)
    ensures Clear(Clocked(zero, g), 16)
  {
    AllClear(zero);
    FeedIsClocked(0, g);
    GeneratorCancels(g);
  }

  /** So it does anywhere in a stream of zeros. */
  lemma {:induction false} GeneratorStreamCancels(zero: Register, p: nat, n: nat)
    requires Clear(zero, 16) && p + 16 < n
    ensures Clear(Clocked(zero, GeneratorStream(p, n)), 16)
    decreases p
  {
    var s := GeneratorStream(p, n);
    if p == 0 {
      var g := s[..17];
      assert g == GeneratorStream(0, 17) && s == g + s[17..];
      GeneratorClears(zero, g);
      ClockedConcat(zero, g, s[17..]);
      QuietKeepsZero(Clocked(zero, g), s[17..]);
    } else {
      assert s[1..] == GeneratorStream(p - 1, n - 1);
      ClockKeepsZero(zero);
      GeneratorStreamCancels(Clock(zero, false), p - 1, n - 1);
    }
  }

  /** Any other difference that starts with the generator's first bit and stays within its 17 does not cancel. */
  lemma OnlyGeneratorCancels(zero: Register, d: seq<bool>, p: nat)
    requires Clear(zero, 16) && p + 16 < |d| && d[p] && forall i | 0 <= i < |d| && !(p <= i <= p + 16) :: !d[i]
    ensures Clear(Clocked(zero, d), 16) <==> d == GeneratorStream(p, |d|)
  {
    var g := GeneratorStream(p, |d|);
    GeneratorStreamCancels(zero, p, |d|);
    if d != g {
      var r: nat :| r < |d| && d[r] != g[r];
      var q := FirstDifference(d, g, r);
      var z := Differ(zero, zero);
      BurstNeverCancels(z, Differ(d, g), q);
      ClockedLinear(zero, d, zero, g);
    }
  }

  /** Two checksums agree exactly when the difference of the streams cancels. */
  lemma EqualIffCancels(crc: bv16, a: seq<bv8>, b: seq<bv8>)
    requires |a| == |b|
    ensures var z := Differ(Bits(crc), Bits(crc));
      Clear(z, 16) && (Crc(crc, a) == Crc(crc, b) <==> Clear(Clocked(z, Differ(Stream(a), Stream(b))), 16))
  {
    CrcIsFeed(crc, a);
    CrcIsFeed(crc, b);
    FeedIsClocked(crc, Stream(a));
    FeedIsClocked(crc, Stream(b));
    ClockedLinear(Bits(crc), Stream(a), Bits(crc), Stream(b));
    if Clear(Differ(Bits(Crc(crc, a)), Bits(Crc(crc, b))), 16) {
      SameBits(Crc(crc, a), Crc(crc, b));
    }
  }

  lemma SameBits(x: bv16, y: bv16)
    requires Clear(Differ(Bits(x), Bits(y)), 16)
    ensures x == y
  {
    var d := Differ(Bits(x), Bits(y));
    assert !d[0] && !d[1] && !d[2] && !d[3] && !d[4] && !d[5] && !d[6] && !d[7];
    assert !d[8] && !d[9] && !d[10] && !d[11] && !d[12] && !d[13] && !d[14] && !d[15];
    LowHalf(x, y);
    HighHalf(x, y);
    Halves(x, y);
  }

  lemma LowHalf(x: bv16, y: bv16)
    requires WordBit(x, 0) == WordBit(y, 0) && WordBit(x, 1) == WordBit(y, 1) && WordBit(x, 2) == WordBit(y, 2)
    requires WordBit(x, 3) == WordBit(y, 3) && WordBit(x, 4) == WordBit(y, 4) && WordBit(x, 5) == WordBit(y, 5)
    requires WordBit(x, 6) == WordBit(y, 6) && WordBit(x, 7) == WordBit(y, 7)
    ensures x & 0xFF == y & 0xFF
  {
  }

  lemma HighHalf(x: bv16, y: bv16)
    requires WordBit(x, 8) == WordBit(y, 8) && WordBit(x, 9) == WordBit(y, 9) && WordBit(x, 10) == WordBit(y, 10)
    requires WordBit(x, 11) == WordBit(y, 11) && WordBit(x, 12) == WordBit(y, 12) && WordBit(x, 13) == WordBit(y, 13)
    requires WordBit(x, 14) == WordBit(y, 14) && WordBit(x, 15) == WordBit(y, 15)
    ensures x & 0xFF00 == y & 0xFF00
  {
  }

  lemma Halves(x: bv16, y: bv16)
    requires x & 0xFF == y & 0xFF && x & 0xFF00 == y & 0xFF00
    ensures x == y
  {
  }

  /**
    Sixteen is the limit, for every message and position: a difference that
    starts at bit p and ends by bit p + 16 goes unnoticed if and only if it is
    the generator, the bits p, p + 4, p + 11 and p + 16.
   */
  lemma SeventeenBitBurst(crc: bv16, a: seq<bv8>, b: seq<bv8>, p: nat)
    requires |a| == |b| && p + 16 < 8 * |a| && Stream(a)[p] != Stream(b)[p]
    requires forall i | 0 <= i < 8 * |a| && !(p <= i <= p + 16) :: Stream(a)[i] == Stream(b)[i]
    ensures Crc(crc, a) == Crc(crc, b)
       <==> forall i | p <= i <= p + 16 :: Stream(a)[i] != Stream(b)[i] <==> i in {p, p + 4, p + 11, p + 16}
  {
    var d, z := Differ(Stream(a), Stream(b)), Differ(Bits(crc), Bits(crc));
    EqualIffCancels(crc, a, b);
    OnlyGeneratorCancels(z, d, p);
    if forall i | p <= i <= p + 16 :: Stream(a)[i] != Stream(b)[i] <==> i in {p, p + 4, p + 11, p + 16} {
      assert d == GeneratorStream(p, |d|);
    } else {
      var i :| p <= i <= p + 16 && !(Stream(a)[i] != Stream(b)[i] <==> i in {p, p + 4, p + 11, p + 16});
      assert d[i] != GeneratorStream(p, |d|)[i];
    }
  }

  /** Such a difference between two frames of four bytes: their streams differ by the generator, and their checksums agree. */
  lemma SeventeenBitBurstMissed(last: bv8)
    ensures Differ(Stream([0, 0, 0, last]), Stream([0x11, 0x08, 0x01, last])) == GeneratorStream(0, 32)
    ensures Crc4(0, 0, 0, last) == Crc4(0x11, 0x08, 0x01, last)
  {
    var a, b := [0, 0, 0, last], [0x11, 0x08, 0x01, last];
    StreamOfFour(a);
    StreamOfFour(b);
    ZeroBits();
    GeneratorBits();
    assert Differ(Stream(a), Stream(b)) == GeneratorStream(0, 32);
    GeneratorStreamCancels(Differ(Bits(INIT), Bits(INIT)), 0, 32);
    EqualIffCancels(INIT, a, b);
    CrcOfFour(a);
    CrcOfFour(b);
  }

  lemma StreamOfFour(m: seq<bv8>)
    requires |m| == 4
    ensures Stream(m) == ByteBits(m[0]) + (ByteBits(m[1]) + (ByteBits(m[2]) + ByteBits(m[3])))
  {
    StreamStep(m, m[1..]);
    StreamStep(m[1..], m[2..]);
    StreamStep(m[2..], m[3..]);
    StreamStep(m[3..], []);
    EmptyTail(ByteBits(m[3]));
  }

  lemma StreamStep(m: seq<bv8>, rest: seq<bv8>)
    requires m != [] && rest == m[1..]
    ensures Stream(m) == ByteBits(m[0]) + Stream(rest)
  {
  }

  lemma EmptyTail(s: seq<bool>)
    ensures s + [] == s
  {
  }

  lemma ZeroBits()
    ensures ByteBits(0) == [false, false, false, false, false, false, false, false]
  {
  }

  lemma GeneratorBits()
    ensures ByteBits(0x11) == [true, false, false, false, true, false, false, false]
    ensures ByteBits(0x08) == [false, false, false, true, false, false, false, false]
    ensures ByteBits(0x01) == [true, false, false, false, false, false, false, false]
  {
  }
}
