/**
  What the FFT loop nest computes when its operations are those of a
  commutative ring and its twiddles the powers of principal roots of -1:
  the discrete Fourier transform sum, at every output index.
 */
module Dft {
  import opened Widths
  import opened Fft

  datatype Ring<!T> = Ring(ops: Ops<T>, zero: T, one: T, neg: T -> T, root: nat -> T)

  // Each ring law is a named instance, so that a proof step cites the instance it uses.
  ghost predicate AddComm<T>(r: Ring<T>, a: T, b: T) { r.ops.add(a, b) == r.ops.add(b, a) }
  ghost predicate AddAssoc<T>(r: Ring<T>, a: T, b: T, c: T) {
    r.ops.add(r.ops.add(a, b), c) == r.ops.add(a, r.ops.add(b, c))
  }
  ghost predicate AddZero<T>(r: Ring<T>, a: T) { r.ops.add(a, r.zero) == a }
  ghost predicate AddNeg<T>(r: Ring<T>, a: T) { r.ops.add(a, r.neg(a)) == r.zero }
  ghost predicate SubNeg<T>(r: Ring<T>, a: T, b: T) { r.ops.sub(a, b) == r.ops.add(a, r.neg(b)) }
  ghost predicate MulComm<T>(r: Ring<T>, a: T, b: T) { r.ops.mul(a, b) == r.ops.mul(b, a) }
  ghost predicate MulAssoc<T>(r: Ring<T>, a: T, b: T, c: T) {
    r.ops.mul(r.ops.mul(a, b), c) == r.ops.mul(a, r.ops.mul(b, c))
  }
  ghost predicate MulOne<T>(r: Ring<T>, a: T) { r.ops.mul(a, r.one) == a }
  ghost predicate Distrib<T>(r: Ring<T>, a: T, b: T, c: T) {
    r.ops.mul(a, r.ops.add(b, c)) == r.ops.add(r.ops.mul(a, b), r.ops.mul(a, c))
  }

  ghost predicate CommutativeRing<T(!new)>(r: Ring<T>) {
    && (forall a, b :: AddComm(r, a, b))
    && (forall a, b, c :: AddAssoc(r, a, b, c))
    && (forall a :: AddZero(r, a))
    && (forall a :: AddNeg(r, a))
    && (forall a, b :: SubNeg(r, a, b))
    && (forall a, b :: MulComm(r, a, b))
    && (forall a, b, c :: MulAssoc(r, a, b, c))
    && (forall a :: MulOne(r, a))
    && (forall a, b, c :: Distrib(r, a, b, c))
  }

  ghost function Pow<T>(r: Ring<T>, a: T, k: nat): T {
    if k == 0 then r.one else r.ops.mul(Pow(r, a, k - 1), a)
  }

  /** `root(len)` is a `len`-th root of unity of the FFT's tower, `twiddle(k, len)` its k-th power. */
  ghost predicate RootAt<T>(r: Ring<T>, len: nat)
    requires len > 0
  {
    && r.ops.mul(r.root(len), r.root(len)) == r.root(len / 2)
    && Pow(r, r.root(len), len / 2) == r.neg(r.one)
    && forall k: nat :: k < len / 2 ==> r.ops.twiddle(k, len) == Pow(r, r.root(len), k)
  }

  ghost predicate Roots<T>(r: Ring<T>, n: nat)
    requires n > 0
    decreases n
  {
    n == 1 || (RootAt(r, n) && Roots(r, n / 2))
  }

  /** The k-th coefficient, summed from term `j` on: x[j] w^(jk) + x[j+1] w^((j+1)k) + ... */
  ghost function DftFrom<T>(r: Ring<T>, x: seq<T>, k: nat, j: nat): T
    requires j <= |x|
    decreases |x| - j
  {
    if j == |x| then r.zero
    else r.ops.add(r.ops.mul(x[j], Pow(r, r.root(|x|), j * k)), DftFrom(r, x, k, j + 1))
  }

  /** The naive transform. */
  ghost function DftSum<T>(r: Ring<T>, x: seq<T>, k: nat): T {
    DftFrom(r, x, k, 0)
  }

  /** The polynomial with coefficients `x`, evaluated at `z` by Horner's rule. */
  ghost function Poly<T>(r: Ring<T>, x: seq<T>, z: T): T {
    if x == [] then r.zero else r.ops.add(x[0], r.ops.mul(z, Poly(r, x[1..], z)))
  }

  // ---------------------------------------------------------------- ring facts

  lemma MulZero<T(!new)>(r: Ring<T>, a: T)
    requires CommutativeRing(r)
    ensures r.ops.mul(a, r.zero) == r.zero
  {
    var add, p := r.ops.add, r.ops.mul(a, r.zero);
    calc {
      p;
      { assert AddZero(r, p); }
      add(p, r.zero);
      { assert AddNeg(r, p); }
      add(p, add(p, r.neg(p)));
      { assert AddAssoc(r, p, p, r.neg(p)); }
      add(add(p, p), r.neg(p));
      { assert Distrib(r, a, r.zero, r.zero); assert AddZero(r, r.zero); }
      add(p, r.neg(p));
      { assert AddNeg(r, p); }
      r.zero;
    }
  }

  lemma NegUnique<T(!new)>(r: Ring<T>, a: T, b: T)
    requires CommutativeRing(r) && r.ops.add(a, b) == r.zero
    ensures b == r.neg(a)
  {
    var add := r.ops.add;
    calc {
      b;
      { assert AddZero(r, b); assert AddNeg(r, a); }
      add(b, add(a, r.neg(a)));
      { assert AddAssoc(r, b, a, r.neg(a)); }
      add(add(b, a), r.neg(a));
      { assert AddComm(r, a, b); }
      add(r.zero, r.neg(a));
      { assert AddComm(r, r.zero, r.neg(a)); assert AddZero(r, r.neg(a)); }
      r.neg(a);
    }
  }

  lemma MulNeg<T(!new)>(r: Ring<T>, a: T, b: T)
    requires CommutativeRing(r)
    ensures r.ops.mul(a, r.neg(b)) == r.neg(r.ops.mul(a, b))
  {
    assert Distrib(r, a, b, r.neg(b));
    assert AddNeg(r, b);
    MulZero(r, a);
    NegUnique(r, r.ops.mul(a, b), r.ops.mul(a, r.neg(b)));
  }

  lemma NegSquare<T(!new)>(r: Ring<T>, z: T)
    requires CommutativeRing(r)
    ensures r.ops.mul(r.neg(z), r.neg(z)) == r.ops.mul(z, z)
  {
    var nz, mul := r.neg(z), r.ops.mul;
    MulNeg(r, nz, z);
    assert MulComm(r, nz, z);
    MulNeg(r, z, z);
    assert AddNeg(r, mul(z, z));
    assert AddComm(r, mul(z, z), r.neg(mul(z, z)));
    NegUnique(r, r.neg(mul(z, z)), mul(z, z));
  }

  lemma {:induction false} PowAdd<T(!new)>(r: Ring<T>, a: T, j: nat, k: nat)
    requires CommutativeRing(r)
    ensures Pow(r, a, j + k) == r.ops.mul(Pow(r, a, j), Pow(r, a, k))
  {
    if k == 0 {
      assert MulOne(r, Pow(r, a, j));
    } else {
      PowAdd(r, a, j, k - 1);
      assert MulAssoc(r, Pow(r, a, j), Pow(r, a, k - 1), a);
    }
  }

  lemma {:induction false} PowSquare<T(!new)>(r: Ring<T>, a: T, k: nat)
    requires CommutativeRing(r)
    ensures Pow(r, r.ops.mul(a, a), k) == r.ops.mul(Pow(r, a, k), Pow(r, a, k))
  {
    var mul := r.ops.mul;
    if k == 0 {
      assert MulOne(r, r.one);
    } else {
      var p := Pow(r, a, k - 1);
      PowSquare(r, a, k - 1);
      calc {
        mul(mul(p, p), mul(a, a));
        { assert MulAssoc(r, p, p, mul(a, a)); }
        mul(p, mul(p, mul(a, a)));
        { assert MulAssoc(r, p, a, a); }
        mul(p, mul(mul(p, a), a));
        { assert MulComm(r, mul(p, a), a); }
        mul(p, mul(a, mul(p, a)));
        { assert MulAssoc(r, p, a, mul(p, a)); }
        mul(mul(p, a), mul(p, a));
      }
    }
  }

  // ---------------------------------------------------------------- the polynomial form

  /** P(z) = E(z^2) + z O(z^2), with E and O the even and odd coefficients. */
  lemma {:induction false} PolySplit<T(!new)>(r: Ring<T>, x: seq<T>, z: T)
    requires CommutativeRing(r)
    ensures var zz := r.ops.mul(z, z);
      Poly(r, x, z) == r.ops.add(Poly(r, Evens(x), zz), r.ops.mul(z, Poly(r, Odds(x), zz)))
  {
    var add, mul, zz := r.ops.add, r.ops.mul, r.ops.mul(z, z);
    if x == [] {
      MulZero(r, z);
      assert AddZero(r, r.zero);
    } else {
      var t := x[1..];
      var e, o := Poly(r, Evens(t), zz), Poly(r, Odds(t), zz);
      assert Evens(x)[1..] == Odds(t) && Odds(x) == Evens(t);
      calc {
        Poly(r, x, z);
        { PolySplit(r, t, z); }
        add(x[0], mul(z, add(e, mul(z, o))));
        { assert Distrib(r, z, e, mul(z, o)); assert MulAssoc(r, z, z, o); }
        add(x[0], add(mul(z, e), mul(zz, o)));
        { assert AddComm(r, mul(z, e), mul(zz, o)); assert AddAssoc(r, x[0], mul(zz, o), mul(z, e)); }
        add(add(x[0], mul(zz, o)), mul(z, e));
      }
    }
  }

  /** w^(i + n/2) = -w^i. */
  lemma ShiftedRoot<T(!new)>(r: Ring<T>, n: nat, i: nat, k: nat)
    requires CommutativeRing(r) && n > 0 && RootAt(r, n) && k == i + n / 2
    ensures Pow(r, r.root(n), k) == r.neg(Pow(r, r.root(n), i))
  {
    var p := Pow(r, r.root(n), i);
    PowAdd(r, r.root(n), i, n / 2);
    MulNeg(r, p, r.one);
    assert MulOne(r, p);
  }

  /** A butterfly turns the half transforms' values at w^2 into the whole's at w and -w. */
  lemma ButterflyEvaluates<T(!new)>(r: Ring<T>, x: seq<T>, w: T)
    requires CommutativeRing(r)
    ensures var e, t := Poly(r, Evens(x), r.ops.mul(w, w)), r.ops.mul(w, Poly(r, Odds(x), r.ops.mul(w, w)));
      r.ops.add(e, t) == Poly(r, x, w) && r.ops.sub(e, t) == Poly(r, x, r.neg(w))
  {
    var ww := r.ops.mul(w, w);
    var e, o := Poly(r, Evens(x), ww), Poly(r, Odds(x), ww);
    PolySplit(r, x, w);
    PolySplit(r, x, r.neg(w));
    NegSquare(r, w);
    MulNeg(r, o, w);
    assert MulComm(r, o, r.neg(w)) && MulComm(r, o, w);
    assert SubNeg(r, e, r.ops.mul(w, o));
  }

  /** The root of the half transform is the square of the whole's. */
  lemma HalfRoot<T(!new)>(r: Ring<T>, n: nat, i: nat)
    requires CommutativeRing(r) && n > 0 && RootAt(r, n)
    ensures Pow(r, r.root(n / 2), i) == r.ops.mul(Pow(r, r.root(n), i), Pow(r, r.root(n), i))
    ensures i < n / 2 ==> r.ops.twiddle(i, n) == Pow(r, r.root(n), i)
  {
    PowSquare(r, r.root(n), i);
  }

  /** Combining half transforms evaluates the whole polynomial at w and at -w. */
  lemma CombineEvaluates<T(!new)>(r: Ring<T>, x: seq<T>, e: seq<T>, o: seq<T>, i: nat, w: T)
    requires CommutativeRing(r) && i < |e| == |o| && r.ops.twiddle(i, 2 * |e|) == w
    requires e[i] == Poly(r, Evens(x), r.ops.mul(w, w)) && o[i] == Poly(r, Odds(x), r.ops.mul(w, w))
    ensures Combine(r.ops, e, o)[i] == Poly(r, x, w) && Combine(r.ops, e, o)[i + |e|] == Poly(r, x, r.neg(w))
  {
    ButterflyEvaluates(r, x, w);
  }

  lemma CombineAtRoot<T(!new)>(r: Ring<T>, x: seq<T>, e: seq<T>, o: seq<T>, i: nat, k: nat)
    requires CommutativeRing(r) && i < |e| == |o| && RootAt(r, 2 * |e|) && (k == i || k == i + |e|)
    requires e[i] == Poly(r, Evens(x), Pow(r, r.root(|e|), i)) && o[i] == Poly(r, Odds(x), Pow(r, r.root(|e|), i))
    ensures Combine(r.ops, e, o)[k] == Poly(r, x, Pow(r, r.root(2 * |e|), k))
  {
    var n := 2 * |e|;
    HalfRoot(r, n, i);
    CombineEvaluates(r, x, e, o, i, Pow(r, r.root(n), i));
    if k != i {
      ShiftedRoot(r, n, i, k);
    }
  }

  lemma PolyConstant<T(!new)>(r: Ring<T>, a: T, z: T)
    requires CommutativeRing(r)
    ensures Poly(r, [a], z) == a
  {
    MulZero(r, z);
    assert AddZero(r, a);
  }

  /** Output `k` of the recursive transform is the input polynomial at w^k. */
  lemma {:induction false} RecFftEvaluates<T(!new)>(r: Ring<T>, x: seq<T>, k: nat)
    requires CommutativeRing(r) && IsPowerOfTwo(|x|) && Roots(r, |x|) && k < |x|
    ensures RecFft(r.ops, x)[k] == Poly(r, x, Pow(r, r.root(|x|), k))
    decreases |x|
  {
    var n := |x|;
    if n == 1 {
      PolyConstant(r, x[0], Pow(r, r.root(n), k));
      assert x == [x[0]];
    } else {
      var h := n / 2;
      var i := if k < h then k else k - h;
      assert |Evens(x)| == h && |Odds(x)| == h && 2 * h == n;
      RecFftEvaluates(r, Evens(x), i);
      RecFftEvaluates(r, Odds(x), i);
      CombineAtRoot(r, x, RecFft(r.ops, Evens(x)), RecFft(r.ops, Odds(x)), i, k);
    }
  }

  /** The tail of the naive sum is w^(jk) times the tail polynomial at w^k. */
  lemma {:induction false} DftFromIsPoly<T(!new)>(r: Ring<T>, x: seq<T>, k: nat, j: nat)
    requires CommutativeRing(r) && j <= |x|
    ensures DftFrom(r, x, k, j)
         == r.ops.mul(Pow(r, r.root(|x|), j * k), Poly(r, x[j..], Pow(r, r.root(|x|), k)))
    decreases |x| - j
  {
    var w := r.root(|x|);
    var p, z := Pow(r, w, j * k), Pow(r, w, k);
    if j == |x| {
      MulZero(r, p);
    } else {
      var rest := Poly(r, x[j + 1..], z);
      assert x[j..][1..] == x[j + 1..];
      DftFromIsPoly(r, x, k, j + 1);
      assert (j + 1) * k == j * k + k;
      PowAdd(r, w, j * k, k);
      assert MulAssoc(r, p, z, rest);
      assert Distrib(r, p, x[j], r.ops.mul(z, rest));
      assert MulComm(r, p, x[j]);
    }
  }

  /** The transform computed by the loop nest is the naive DFT at every index. */
  lemma RecFftIsDft<T(!new)>(r: Ring<T>, x: seq<T>, k: nat)
    requires CommutativeRing(r) && IsPowerOfTwo(|x|) && Roots(r, |x|) && k < |x|
    ensures RecFft(r.ops, x)[k] == DftSum(r, x, k)
  {
    var v := Poly(r, x, Pow(r, r.root(|x|), k));
    RecFftEvaluates(r, x, k);
    DftFromIsPoly(r, x, k, 0);
    assert x[0..] == x;
    assert 0 * k == 0;
    assert MulComm(r, r.one, v);
    assert MulOne(r, v);
  }

  /** `fft` over a ring: in place, and equal to the DFT sums. */
  method TransformComputesDft<T(!new, 0)>(ops: Ops<T>, ghost r: Ring<T>, x: array<T>) returns (a: array<T>)
    requires IsPowerOfTwo(x.Length) && 2 <= x.Length <= TWO_32
    requires r.ops == ops && CommutativeRing(r) && Roots(r, x.Length)
    ensures fresh(a) && a.Length == x.Length
    ensures forall k :: 0 <= k < a.Length ==> a[k] == DftSum(r, x[..], k)
  {
    a := Transform(ops, x);
    forall k | 0 <= k < a.Length
      ensures a[k] == DftSum(r, x[..], k)
    {
      RecFftIsDft(r, x[..], k);
      assert a[..][k] == a[k];
    }
  }
}
