/** Unsigned machine words as naturals, with the bitwise operators defined digit by digit. */
module Words {

  function Pow2(b: nat): (p: nat)
    ensures p >= 1
  {
    if b == 0 then 1 else 2 * Pow2(b - 1)
  }

  lemma {:induction false} Pow2Mono(a: nat, b: nat)
    requires a <= b
    ensures Pow2(a) <= Pow2(b)
    decreases b
  {
    if a < b {
      Pow2Mono(a, b - 1);
    }
  }

  lemma {:induction false} Pow2Byte(b: nat)
    ensures Pow2(b + 8) == 256 * Pow2(b)
  {
    assert Pow2(b + 4) == 16 * Pow2(b) by {
      assert Pow2(b + 2) == 4 * Pow2(b);
    }
    assert Pow2(b + 6) == 4 * Pow2(b + 4);
  }

  lemma {:induction false} Pow2Add(a: nat, b: nat)
    ensures Pow2(a + b) == Pow2(a) * Pow2(b)
  {
    if b > 0 {
      Pow2Add(a, b - 1);
      assert Pow2(a + b) == 2 * Pow2(a + (b - 1));
    }
  }

  lemma Pow2Double(a: nat, b: nat, p: nat)
    requires Pow2(a) == p && b == a + a
    ensures Pow2(b) == p * p
  {
    Pow2Add(a, a);
  }

  lemma Pow2Of64()
    ensures Pow2(32) == 0x1_0000_0000 && Pow2(64) == 0x1_0000_0000_0000_0000
  {
    Pow2Byte(0);
    Pow2Double(8, 16, 0x100);
    Pow2Double(16, 32, 0x1_0000);
    Pow2Double(32, 64, 0x1_0000_0000);
  }

  /** Logical right shift by `k` bits. */
  function Shr(x: nat, k: nat): (r: nat) {
    if k == 0 then x else Shr(x / 2, k - 1)
  }

  predicate Bit(x: nat, d: nat) {
    if d == 0 then x % 2 == 1 else Bit(x / 2, d - 1)
  }

  /** The low `w` bits of `x`. */
  function Trunc(x: nat, w: nat): (r: nat)
    ensures r < Pow2(w)
  {
    if w == 0 then 0 else 2 * Trunc(x / 2, w - 1) + x % 2
  }

  /** Left shift of a `w`-bit word. */
  function Shl(x: nat, k: nat, w: nat): (r: nat)
    ensures r < Pow2(w)
    decreases k
  {
    if k == 0 then Trunc(x, w) else Shl(2 * x, k - 1, w)
  }

  function Or(a: nat, b: nat): (r: nat)
    decreases a + b
  {
    if a == 0 then b else if b == 0 then a
    else 2 * Or(a / 2, b / 2) + (if a % 2 == 1 || b % 2 == 1 then 1 else 0)
  }

  function And(a: nat, b: nat): (r: nat)
    decreases a + b
  {
    if a == 0 || b == 0 then 0
    else 2 * And(a / 2, b / 2) + (if a % 2 == 1 && b % 2 == 1 then 1 else 0)
  }

  lemma {:induction false} TruncPow2(j: nat, w: nat)
    requires j < w
    ensures Trunc(Pow2(j), w) == Pow2(j)
  {
    if j > 0 {
      TruncPow2(j - 1, w - 1);
    } else {
      TruncZero(w - 1);
    }
  }

  lemma {:induction false} TruncZero(w: nat)
    ensures Trunc(0, w) == 0
  {
    if w > 0 {
      TruncZero(w - 1);
    }
  }

  lemma {:induction false} ShlPow2(j: nat, k: nat, w: nat)
    requires j + k < w
    ensures Shl(Pow2(j), k, w) == Pow2(j + k)
    decreases k
  {
    if k == 0 {
      TruncPow2(j, w);
    } else {
      ShlPow2(j + 1, k - 1, w);
    }
  }

  lemma {:induction false} ZeroBit(d: nat)
    ensures !Bit(0, d)
  {
    if d > 0 {
      ZeroBit(d - 1);
    }
  }

  lemma {:induction false} TruncBit(x: nat, w: nat, d: nat)
    ensures Bit(Trunc(x, w), d) <==> d < w && Bit(x, d)
  {
    if w == 0 {
      ZeroBit(d);
    } else if d > 0 {
      assert Trunc(x, w) / 2 == Trunc(x / 2, w - 1);
      TruncBit(x / 2, w - 1, d - 1);
    }
  }

  lemma {:induction false} ShlBit(x: nat, k: nat, w: nat, d: nat)
    ensures Bit(Shl(x, k, w), d) <==> k <= d < w && Bit(x, d - k)
    decreases k
  {
    if k == 0 {
      TruncBit(x, w, d);
    } else {
      ShlBit(2 * x, k - 1, w, d);
    }
  }

  lemma {:induction false} OrBit(a: nat, b: nat, d: nat)
    ensures Bit(Or(a, b), d) <==> Bit(a, d) || Bit(b, d)
    decreases a + b
  {
    if a == 0 || b == 0 {
      ZeroBit(d);
    } else if d > 0 {
      assert Or(a, b) / 2 == Or(a / 2, b / 2);
      OrBit(a / 2, b / 2, d - 1);
    }
  }

  lemma {:induction false} OrBound(a: nat, b: nat, w: nat)
    requires a < Pow2(w) && b < Pow2(w)
    ensures Or(a, b) < Pow2(w)
    decreases w
  {
    if w > 0 && a != 0 && b != 0 {
      OrBound(a / 2, b / 2, w - 1);
    }
  }

  /** Bit `d` of the mask `1 << k`. */
  lemma {:induction false} MaskBit(k: nat, d: nat)
    ensures Bit(Pow2(k), d) <==> d == k
  {
    if k == 0 {
      if d > 0 {
        ZeroBit(d - 1);
      }
    } else if d > 0 {
      MaskBit(k - 1, d - 1);
    }
  }

  /** Testing a word against the mask `1 << k` reads bit `k`. */
  lemma {:induction false} AndMask(x: nat, k: nat)
    ensures And(x, Pow2(k)) != 0 <==> Bit(x, k)
  {
    if x == 0 {
      ZeroBit(k);
    } else if k > 0 {
      AndMask(x / 2, k - 1);
    }
  }
}
