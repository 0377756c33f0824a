/** Big-endian integers in byte strings. */
module Bytes {
  import opened Widths

  datatype Option<+T> = None | Some(value: T)

  function Pow256(k: nat): (p: nat)
    ensures p >= 1
  {
    if k == 0 then 1 else 256 * Pow256(k - 1)
  }

  /** The low `k` bytes of `n`, most significant first. */
  function BE(n: nat, k: nat): (s: seq<byte>)
    ensures |s| == k
  {
    if k == 0 then [] else BE(n / 256, k - 1) + [n % 256]
  }

  function FromBE(s: seq<byte>): (n: nat)
    ensures n < Pow256(|s|)
  {
    if s == [] then 0 else 256 * FromBE(s[..|s| - 1]) + s[|s| - 1]
  }

  lemma {:induction false} FromBEofBE(n: nat, k: nat)
    requires n < Pow256(k)
    ensures FromBE(BE(n, k)) == n
  {
    if k > 0 {
      FromBEofBE(n / 256, k - 1);
    }
  }

  lemma {:induction false} BEofFromBE(s: seq<byte>)
    ensures BE(FromBE(s), |s|) == s
  {
    if s != [] {
      BEofFromBE(s[..|s| - 1]);
    }
  }

  lemma {:induction false} BEInjective(a: nat, b: nat, k: nat)
    requires a < Pow256(k) && b < Pow256(k) && BE(a, k) == BE(b, k)
    ensures a == b
  {
    FromBEofBE(a, k);
    FromBEofBE(b, k);
  }

  /** Dropping the most significant byte keeps the low ones. */
  lemma {:induction false} BETail(n: nat, k: nat)
    ensures BE(n, k + 1)[1..] == BE(n, k)
  {
    if k > 0 {
      BETail(n / 256, k - 1);
      assert BE(n, k + 1)[1..] == BE(n / 256, k)[1..] + [n % 256];
    }
  }

  /** Only the low `k` bytes count. */
  lemma {:induction false} BELow(n: nat, m: nat, q: nat, k: nat)
    requires n == m + q * Pow256(k)
    ensures BE(n, k) == BE(m, k)
  {
    if k > 0 {
      var h := q * Pow256(k - 1);
      assert n == m + 256 * h;
      BELow(n / 256, m / 256, q, k - 1);
    }
  }

  lemma BELow56(n: nat)
    ensures Pow256(7) == TWO_56
    ensures BE(n, 7) == BE(n % TWO_56, 7)
  {
    assert Pow256(7) == 256 * 256 * 256 * 256 * 256 * 256 * 256 * Pow256(0);
    BELow(n, n % TWO_56, n / TWO_56, 7);
  }
}
