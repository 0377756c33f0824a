/**
  One end of a ratcheting AEAD session.

  HKDF (section 2.3 of RFC 5869) is a free term algebra and ChaCha20-Poly1305
  (section 2.8 of RFC 8439) an ideal cipher: a ciphertext opens under exactly
  the key, nonce and associated data it was made with.  `State` is the
  specification of a session: a ratchet index instead of key material, and a
  set of accepted counters instead of a bitmap.  The class refines it.
 */
module Session {
  import opened Widths
  import opened Bytes
  import Window = Replay

  // ---------------------------------------------------------------- key schedule

  datatype Term =
    | Shared(id: nat)
    | Extract(salt: string, ikm: Term)
    | Expand(prk: Term, info: string)

  const HKDF_SALT := "trios-mesh/v1/session"
  const HKDF_INFO := "aead-key"
  const HKDF_INFO_RATCHET := "aead-rekey"
  const HKDF_INFO_CHAIN := "ratchet-chain"

  /** The chain key after `i` ratchet steps. */
  function ChainAt(shared: nat, i: nat): Term {
    if i == 0 then Expand(Extract(HKDF_SALT, Shared(shared)), HKDF_INFO_CHAIN)
    else Expand(ChainAt(shared, i - 1), HKDF_INFO_CHAIN)
  }

  /** The AEAD key after `i` ratchet steps. */
  function KeyAt(shared: nat, i: nat): Term {
    Expand(ChainAt(shared, i), if i == 0 then HKDF_INFO else HKDF_INFO_RATCHET)
  }

  lemma {:induction false} ChainInjective(s: nat, i: nat, t: nat, j: nat)
    requires ChainAt(s, i) == ChainAt(t, j)
    ensures s == t && i == j
  {
    if i > 0 && j > 0 {
      ChainInjective(s, i - 1, t, j - 1);
    }
  }

  /** Keys of different sessions or different ratchet steps never coincide. */
  lemma KeyInjective(s: nat, i: nat, t: nat, j: nat)
    ensures KeyAt(s, i) == KeyAt(t, j) <==> s == t && i == j
  {
    if KeyAt(s, i) == KeyAt(t, j) {
      ChainInjective(s, i, t, j);
    }
  }

  // ---------------------------------------------------------------- nonces and frames

  const REKEY_EVERY_FRAMES: nat := 0x10_0000
  const REKEY_HARD_CAP: nat := 0x100_0000

  /** 0 for the initiator's frames, 1 for the responder's. */
  type Direction = x: int | 0 <= x <= 1

  /** `[dir:1][epoch:4][counter:7]`; the top byte of the counter is dropped. */
  function MakeNonce(dir: byte, epoch: nat, ctr: nat): (n: seq<byte>)
    ensures |n| == 12
  {
    [dir] + BE(epoch, 4) + BE(ctr, 8)[1..8]
  }

  lemma NonceParts(dir: byte, epoch: nat, ctr: nat)
    ensures var n := MakeNonce(dir, epoch, ctr);
      n[0] == dir && n[1..5] == BE(epoch, 4) && n[5..12] == BE(ctr, 7)
  {
    BETail(ctr, 7);
    assert BE(ctr, 8)[1..8] == BE(ctr, 8)[1..];
  }

  /** Exactly the counters congruent modulo 2^56 share a nonce. */
  lemma NonceInjective(d: byte, e: nat, c: nat, d': byte, e': nat, c': nat)
    requires e < TWO_32 && e' < TWO_32
    ensures MakeNonce(d, e, c) == MakeNonce(d', e', c') <==> d == d' && e == e' && c % TWO_56 == c' % TWO_56
  {
    NonceParts(d, e, c);
    NonceParts(d', e', c');
    BELow56(c);
    BELow56(c');
    if MakeNonce(d, e, c) == MakeNonce(d', e', c') {
      BEInjective(e, e', 4);
      BEInjective(c % TWO_56, c' % TWO_56, 7);
    } else {
      var n, n' := MakeNonce(d, e, c), MakeNonce(d', e', c');
      assert n == [n[0]] + n[1..5] + n[5..12];
      assert n' == [n'[0]] + n'[1..5] + n'[5..12];
    }
  }

  datatype Sealed =
    | Enc(key: Term, nonce: seq<byte>, aad: seq<byte>, msg: seq<byte>)
    | Junk(bytes: seq<byte>)

  function Decrypt(key: Term, nonce: seq<byte>, aad: seq<byte>, ct: Sealed): Option<seq<byte>> {
    if ct.Enc? && ct.key == key && ct.nonce == nonce && ct.aad == aad then Some(ct.msg) else None
  }

  /** The first (at most 12) bytes of a frame and what follows them. */
  datatype Frame = Frame(prefix: seq<byte>, ct: Sealed)

  function WirePrefix(epoch: nat, ctr: nat): (s: seq<byte>) {
    BE(epoch, 4) + BE(ctr, 8)
  }

  function WireEpoch(f: Frame): (e: nat)
    requires |f.prefix| >= 12
    ensures e < TWO_32
  {
    assert Pow256(4) == TWO_32;
    FromBE(f.prefix[..4])
  }

  function WireCounter(f: Frame): (c: nat)
    requires |f.prefix| >= 12
    ensures c < TWO_64
  {
    assert Pow256(8) == TWO_64;
    FromBE(f.prefix[4..12])
  }

  lemma PrefixRoundTrip(epoch: nat, ctr: nat, ct: Sealed)
    requires epoch < TWO_32 && ctr < TWO_64
    ensures var f := Frame(WirePrefix(epoch, ctr), ct);
      |f.prefix| == 12 && WireEpoch(f) == epoch && WireCounter(f) == ctr
  {
    var p := WirePrefix(epoch, ctr);
    assert p[..4] == BE(epoch, 4) && p[4..12] == BE(ctr, 8);
    assert Pow256(4) == TWO_32 && Pow256(8) == TWO_64;
    FromBEofBE(epoch, 4);
    FromBEofBE(ctr, 8);
  }

  // ---------------------------------------------------------------- specification

  datatype MeshError = Auth | Replay | ShortFrame | RekeyRequired
  datatype Result<+T> = Ok(value: T) | Err(error: MeshError)

  /** `index` counts ratchet steps; the wire epoch is `index` modulo 2^32. */
  datatype State = State(shared: nat, dir: Direction, index: nat, tx: nat, accepted: set<nat>)

  function Initial(shared: nat, initiator: bool): State {
    State(shared, if initiator then 0 else 1, 0, 0, {})
  }

  function Ratcheted(s: State): State {
    s.(index := s.index + 1, tx := 0, accepted := {})
  }

  /** The state from which `seal` takes its counter. */
  function Rekeyed(s: State): State {
    if s.tx >= REKEY_EVERY_FRAMES then Ratcheted(s) else s
  }

  function Ciphertext(s: State, aad: seq<byte>, msg: seq<byte>): Sealed {
    Enc(KeyAt(s.shared, s.index), MakeNonce(s.dir, s.index % TWO_32, s.tx), aad, msg)
  }

  function SealStep(s: State, aad: seq<byte>, msg: seq<byte>): (State, Result<Frame>) {
    if s.tx >= REKEY_HARD_CAP then (s, Err(RekeyRequired))
    else
      var r := Rekeyed(s);
      (r.(tx := r.tx + 1), Ok(Frame(WirePrefix(r.index % TWO_32, r.tx), Ciphertext(r, aad, msg))))
  }

  function OpenStep(s: State, aad: seq<byte>, f: Frame): (State, Result<seq<byte>>)
  {
    if |f.prefix| < 12 then (s, Err(ShortFrame))
    else
      var nonce := MakeNonce(1 - s.dir, WireEpoch(f), WireCounter(f));
      match Decrypt(KeyAt(s.shared, s.index), nonce, aad, f.ct)
      case None => (s, Err(Auth))
      case Some(msg) =>
        if Window.Fresh(s.accepted, WireCounter(f))
        then (s.(accepted := s.accepted + {WireCounter(f)}), Ok(msg))
        else (s, Err(Replay))
  }

  // ---------------------------------------------------------------- the code

  class Session {
    var cipher: Term
    var chainKey: Term
    var epoch: nat
    var txDir: Direction
    var txCounter: nat
    var rx: Window.ReplayWindow
    ghost var shared: nat
    /** Ratchet steps taken. */
    ghost var index: nat

    ghost predicate Valid()
      reads this, rx
    {
      && rx.Valid()
      && chainKey == ChainAt(shared, index)
      && cipher == KeyAt(shared, index)
      && epoch == index % TWO_32
    }

    ghost function Abstract(): State
      reads this, rx
    {
      State(shared, txDir, index, txCounter, rx.accepted)
    }

    constructor FromShared(secret: nat, initiator: bool)
      ensures Valid() && fresh(rx) && Abstract() == Initial(secret, initiator)
    {
      var window := new Window.ReplayWindow();
      var chain := Expand(Extract(HKDF_SALT, Shared(secret)), HKDF_INFO_CHAIN);
      cipher := Expand(chain, HKDF_INFO);
      chainKey := chain;
      epoch, txCounter := 0, 0;
      txDir := if initiator then 0 else 1;
      rx := window;
      shared, index := secret, 0;
    }

    method Ratchet()
      requires Valid()
      modifies this
      ensures Valid() && fresh(rx) && Abstract() == Ratcheted(old(Abstract()))
    {
      var nextChain := Expand(chainKey, HKDF_INFO_CHAIN);
      cipher := Expand(nextChain, HKDF_INFO_RATCHET);
      chainKey := nextChain;
      epoch := (epoch + 1) % TWO_32;
      txCounter := 0;
      rx := new Window.ReplayWindow();
      index := index + 1;
    }

    method Seal(aad: seq<byte>, plaintext: seq<byte>) returns (r: Result<Frame>)
      requires Valid()
      modifies this
      ensures Valid() && (rx == old(rx) || fresh(rx))
      ensures (Abstract(), r) == SealStep(old(Abstract()), aad, plaintext)
    {
      if txCounter >= REKEY_HARD_CAP {
        return Err(RekeyRequired);
      }
      if txCounter >= REKEY_EVERY_FRAMES {
        Ratchet();
      }
      var ctr := txCounter;
      txCounter := txCounter + 1;
      var nonce := MakeNonce(txDir, epoch, ctr);
      r := Ok(Frame(WirePrefix(epoch, ctr), Enc(cipher, nonce, aad, plaintext)));
    }

    method Open(aad: seq<byte>, frame: Frame) returns (r: Result<seq<byte>>)
      requires Valid()
      modifies rx
      ensures Valid()
      ensures (Abstract(), r) == OpenStep(old(Abstract()), aad, frame)
    {
      if |frame.prefix| < 12 {
        return Err(ShortFrame);
      }
      var ep, ctr := WireEpoch(frame), WireCounter(frame);
      var nonce := MakeNonce(1 - txDir, ep, ctr);
      match Decrypt(cipher, nonce, aad, frame.ct) {
        case None =>
          return Err(Auth);
        case Some(pt) =>
          var ok := rx.CheckAndSet(ctr);
          if !ok {
            return Err(Replay);
          }
          return Ok(pt);
      }
    }
  }
}
