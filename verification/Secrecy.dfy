/**
  Forward secrecy of the ratchet: what a captured node can compute from the
  keys it holds, with HKDF as a free term algebra.
 */
module Secrecy {
  import opened Session

  /** What is held after `held[s]` ratchet steps of each session `s`: its chain key and its AEAD key. */
  ghost predicate Held(held: map<nat, nat>, t: Term) {
    exists s :: s in held && (t == ChainAt(s, held[s]) || t == KeyAt(s, held[s]))
  }

  /** What can be computed: anything held, and any extraction or expansion of what can be computed. */
  ghost predicate Derivable(held: map<nat, nat>, t: Term) {
    || Held(held, t)
    || match t
       case Shared(_) => false
       case Extract(_, ikm) => Derivable(held, ikm)
       case Expand(prk, _) => Derivable(held, prk)
  }

  lemma ChainIsNoKey(s: nat, i: nat, t: nat, j: nat)
    ensures ChainAt(s, i) != KeyAt(t, j)
  {
    assert |HKDF_INFO_CHAIN| == 13 && |HKDF_INFO| == 8 && |HKDF_INFO_RATCHET| == 10;
  }

  lemma ChainHeld(held: map<nat, nat>, s: nat, j: nat)
    ensures Held(held, ChainAt(s, j)) <==> s in held && held[s] == j
  {
    forall t | t in held
      ensures ChainAt(s, j) != KeyAt(t, held[t])
      ensures ChainAt(s, j) == ChainAt(t, held[t]) ==> t == s && held[s] == j
    {
      ChainIsNoKey(s, j, t, held[t]);
      if ChainAt(s, j) == ChainAt(t, held[t]) {
        ChainInjective(s, j, t, held[t]);
      }
    }
  }

  lemma KeyHeld(held: map<nat, nat>, s: nat, j: nat)
    ensures Held(held, KeyAt(s, j)) <==> s in held && held[s] == j
  {
    forall t | t in held
      ensures KeyAt(s, j) != ChainAt(t, held[t])
      ensures KeyAt(s, j) == KeyAt(t, held[t]) ==> t == s && held[s] == j
    {
      ChainIsNoKey(t, held[t], s, j);
      KeyInjective(s, j, t, held[t]);
    }
  }

  lemma {:induction false} ChainDerivable(held: map<nat, nat>, s: nat, j: nat)
    ensures Derivable(held, ChainAt(s, j)) <==> s in held && held[s] <= j
  {
    ChainHeld(held, s, j);
    if j > 0 {
      ChainDerivable(held, s, j - 1);
    } else {
      var x := Extract(HKDF_SALT, Shared(s));
      assert !Held(held, Shared(s)) && !Held(held, x);
      assert !Derivable(held, Shared(s));
      assert !Derivable(held, x);
    }
  }

  /** From the keys in hand, an AEAD key can be computed if and only if its session is captured and it is not from an earlier ratchet step. */
  lemma ForwardSecrecy(held: map<nat, nat>, s: nat, j: nat)
    ensures Derivable(held, KeyAt(s, j)) <==> s in held && held[s] <= j
  {
    KeyHeld(held, s, j);
    ChainDerivable(held, s, j);
  }
}
