/** HELLO beacons: their wire form and the input of their message authentication code. */
module Hello {

  import opened Widths
  import opened Bytes

  type tag = s: seq<byte> | |s| == 16 witness [0, 0, 0, 0, 0, 0, 0, 0, 0, 0, 0, 0, 0, 0, 0, 0]
  type key = seq<byte>

  datatype Beacon = Beacon(src: u32, number: u32, ts: u64, heard: seq<u32>, mac: tag)

  const HELLO_MAC_KEY: key := [
    0x74, 0x72, 0x69, 0x6f, 0x73, 0x2d, 0x6d, 0x65, 0x73, 0x68, 0x2d, 0x68, 0x65, 0x6c, 0x6c, 0x6f,
    0x2d, 0x6d, 0x61, 0x63, 0x2d, 0x6b, 0x65, 0x79, 0x2d, 0x76, 0x31, 0x00, 0x00, 0x00, 0x00, 0x00]

  // ---------------------------------------------------------------- neighbour lists

  /** A beacon has room for 255 neighbours. */
  function Sent(heard: seq<u32>): (r: seq<u32>)
    ensures |r| <= 255 && r <= heard && (|heard| <= 255 ==> r == heard)
  {
    if |heard| <= 255 then heard else heard[..255]
  }

  function Ids(ids: seq<u32>): (s: seq<byte>)
    ensures |s| == 4 * |ids|
  {
    if ids == [] then [] else Ids(ids[..|ids| - 1]) + BE(ids[|ids| - 1], 4)
  }

  /** Four bytes at position `i` of a list. */
  function Slot(s: seq<byte>, i: nat): (r: seq<byte>)
    requires 4 * i + 4 <= |s|
    ensures |r| == 4
  {
    s[4 * i..4 * i + 4]
  }

  lemma SlotOfPrefix(s: seq<byte>, tail: seq<byte>, i: nat)
    requires 4 * i + 4 <= |s|
    ensures Slot(s + tail, i) == Slot(s, i)
  {
  }

  lemma SliceOfSlice(b: seq<byte>, lo: nat, hi: nat, at: nat)
    requires lo + at + 4 <= hi <= |b|
    ensures b[lo..hi][at..at + 4] == b[lo + at..lo + at + 4]
  {
    var s, t := b[lo..hi][at..at + 4], b[lo + at..lo + at + 4];
    forall j | 0 <= j < |t| ensures s[j] == t[j] {
      assert b[lo..hi][at + j] == b[lo + at + j];
    }
  }

  lemma SlotOfSlice(b: seq<byte>, lo: nat, hi: nat, i: nat)
    requires lo + 4 * i + 4 <= hi <= |b|
    ensures Slot(b[lo..hi], i) == b[lo + 4 * i..lo + 4 * i + 4]
  {
    SliceOfSlice(b, lo, hi, 4 * i);
  }

  lemma {:induction false} IdAt(ids: seq<u32>, i: nat)
    requires i < |ids|
    ensures Slot(Ids(ids), i) == BE(ids[i], 4)
  {
    var m := |ids| - 1;
    if i < m {
      IdAt(ids[..m], i);
      SlotOfPrefix(Ids(ids[..m]), BE(ids[m], 4), i);
    }
  }

  function Word32(s: seq<byte>): u32
    requires |s| == 4
  {
    assert Pow256(4) == 0x1_0000_0000;
    FromBE(s)
  }

  function Word64(s: seq<byte>): u64
    requires |s| == 8
  {
    assert Pow256(8) == 0x1_0000_0000_0000_0000;
    FromBE(s)
  }

  lemma Word32OfBE(x: u32)
    ensures Word32(BE(x, 4)) == x
  {
    assert Pow256(4) == 0x1_0000_0000;
    FromBEofBE(x, 4);
  }

  lemma Word64OfBE(x: u64)
    ensures Word64(BE(x, 8)) == x
  {
    assert Pow256(8) == 0x1_0000_0000_0000_0000;
    FromBEofBE(x, 8);
  }

  function ReadIds(s: seq<byte>, n: nat): (ids: seq<u32>)
    requires 4 * n <= |s|
    ensures |ids| == n
    ensures forall i | 0 <= i < n :: ids[i] == Word32(Slot(s, i))
  {
    seq(n, i requires 0 <= i < n => Word32(Slot(s, i)))
  }

  lemma ReadIdsOfIds(ids: seq<u32>)
    ensures ReadIds(Ids(ids), |ids|) == ids
  {
    forall i | 0 <= i < |ids| ensures ReadIds(Ids(ids), |ids|)[i] == ids[i] {
      IdAt(ids, i);
      Word32OfBE(ids[i]);
    }
  }

  lemma {:induction false} IdsOfReadIds(s: seq<byte>, n: nat)
    requires 4 * n <= |s|
    ensures Ids(ReadIds(s, n)) == s[..4 * n]
  {
    if n > 0 {
      var m, ids := n - 1, ReadIds(s, n);
      IdsOfReadIds(s, m);
      assert ids[..m] == ReadIds(s, m);
      assert BE(ids[m], 4) == Slot(s, m) by { BEofFromBE(Slot(s, m)); }
      assert Ids(ids) == s[..4 * m] + Slot(s, m);
      TakeSlot(s, m);
    }
  }

  lemma TakeSlot(s: seq<byte>, m: nat)
    requires 4 * m + 4 <= |s|
    ensures s[..4 * m] + Slot(s, m) == s[..4 * m + 4]
  {
  }

  // ---------------------------------------------------------------- wire form

  function Prefix(src: u32, number: u32, ts: u64): (s: seq<byte>)
    ensures |s| == 16
  {
    BE(src, 4) + BE(number, 4) + BE(ts, 8)
  }

  lemma PrefixReads(src: u32, number: u32, ts: u64)
    ensures var s := Prefix(src, number, ts);
      Word32(s[..4]) == src && Word32(s[4..8]) == number && Word64(s[8..16]) == ts
  {
    var s := Prefix(src, number, ts);
    assert s[..4] == BE(src, 4) && s[4..8] == BE(number, 4) && s[8..16] == BE(ts, 8);
    Word32OfBE(src);
    Word32OfBE(number);
    Word64OfBE(ts);
  }

  lemma PrefixOfReads(s: seq<byte>)
    requires |s| == 16
    ensures Prefix(Word32(s[..4]), Word32(s[4..8]), Word64(s[8..16])) == s
  {
    BEofFromBE(s[..4]);
    BEofFromBE(s[4..8]);
    BEofFromBE(s[8..16]);
  }

  function Serialized(h: Beacon): seq<byte> {
    Prefix(h.src, h.number, h.ts) + [|Sent(h.heard)|] + Ids(Sent(h.heard)) + h.mac
  }

  function Announced(b: seq<byte>): (n: nat)
    requires |b| >= 17
    ensures n <= 255
  {
    b[16]
  }

  /** An input is long enough for the neighbours it announces and for a tag. */
  predicate Complete(b: seq<byte>) {
    |b| >= 17 && |b| >= 33 + 4 * Announced(b)
  }

  function Parsed(b: seq<byte>): (r: Option<Beacon>)
    ensures r.Some? <==> Complete(b)
  {
    if !Complete(b) then None
    else
      var end := 17 + 4 * Announced(b);
      Some(Assembled(b[..16], b[17..end], b[end..end + 16]))
  }

  function Assembled(prefix: seq<byte>, ids: seq<byte>, mac: tag): Beacon
    requires |prefix| == 16
  {
    Beacon(Word32(prefix[..4]), Word32(prefix[4..8]), Word64(prefix[8..16]), ReadIds(ids, |ids| / 4), mac)
  }

  method ToBytes(h: Beacon) returns (b: seq<byte>)
    ensures b == Serialized(h)
  {
    var n := if |h.heard| < 255 then |h.heard| else 255;
    b := BE(h.src, 4);
    b := b + BE(h.number, 4);
    b := b + BE(h.ts, 8);
    b := b + [n];
    ghost var sent := Sent(h.heard);
    var i := 0;
    while i < n
      invariant 0 <= i <= n == |sent|
      invariant b == Prefix(h.src, h.number, h.ts) + [n] + Ids(sent[..i])
    {
      assert sent[..i + 1][..i] == sent[..i];
      b := b + BE(h.heard[i], 4);
      i := i + 1;
    }
    assert sent[..n] == sent;
    b := b + h.mac;
  }

  method Parse(b: seq<byte>) returns (r: Option<Beacon>)
    ensures r == Parsed(b)
  {
    if |b| < 17 {
      return None;
    }
    var src, number, ts := Word32(b[..4]), Word32(b[4..8]), Word64(b[8..16]);
    assert b[..16][..4] == b[..4] && b[..16][4..8] == b[4..8] && b[..16][8..16] == b[8..16];
    var n := Announced(b);
    if |b| < 17 + 4 * n {
      return None;
    }
    ghost var ids := b[17..17 + 4 * n];
    var heard: seq<u32> := [];
    var i := 0;
    while i < n
      invariant 0 <= i <= n && heard == ReadIds(ids, i)
    {
      var off := 17 + 4 * i;
      SlotOfSlice(b, 17, 17 + 4 * n, i);
      heard := heard + [Word32(b[off..off + 4])];
      i := i + 1;
    }
    var macOff := 17 + 4 * n;
    if |b| < macOff + 16 {
      return None;
    }
    r := Some(Beacon(src, number, ts, heard, b[macOff..macOff + 16]));
  }

  lemma ParseExact(h: Beacon)
    ensures Parsed(Serialized(h)) == Some(h.(heard := Sent(h.heard)))
  {
    var sent, b := Sent(h.heard), Serialized(h);
    var end := 17 + 4 * |sent|;
    assert b[..16] == Prefix(h.src, h.number, h.ts) && Announced(b) == |sent|;
    assert b[17..end] == Ids(sent) && b[end..end + 16] == h.mac;
    PrefixReads(h.src, h.number, h.ts);
    ReadIdsOfIds(sent);
  }

  lemma TailIgnored(b: seq<byte>, tail: seq<byte>)
    requires Complete(b)
    ensures Parsed(b + tail) == Parsed(b)
  {
    var end := 17 + 4 * Announced(b);
    assert (b + tail)[..16] == b[..16] && (b + tail)[17..end] == b[17..end];
    assert (b + tail)[end..end + 16] == b[end..end + 16];
  }

  /** A beacon comes back from the wire with its first 255 neighbours, whatever bytes follow it. */
  lemma ParseSerialized(h: Beacon, tail: seq<byte>)
    ensures Parsed(Serialized(h) + tail) == Some(h.(heard := Sent(h.heard)))
  {
    ParseExact(h);
    TailIgnored(Serialized(h), tail);
  }

  lemma SerializeAssembled(prefix: seq<byte>, n: byte, ids: seq<byte>, mac: tag)
    requires |prefix| == 16 && |ids| == 4 * (n as int)
    ensures Serialized(Assembled(prefix, ids, mac)) == prefix + [n] + ids + mac
  {
    var heard := ReadIds(ids, n);
    assert Ids(heard) == ids by {
      IdsOfReadIds(ids, n);
      assert ids[..|ids|] == ids;
    }
    assert Assembled(prefix, ids, mac).heard == heard == Sent(heard);
    PrefixOfReads(prefix);
  }

  lemma Pieces(b: seq<byte>, end: nat)
    requires 17 <= end && end + 16 <= |b|
    ensures b[..16] + [b[16]] + b[17..end] + b[end..end + 16] == b[..end + 16]
  {
    assert b[..16] + [b[16]] == b[..17];
    assert b[..17] + b[17..end] == b[..end];
  }

  /** Any accepted input begins with the wire form of the beacon read from it. */
  lemma SerializeParsed(b: seq<byte>)
    requires Complete(b)
    ensures Serialized(Parsed(b).value) == b[..33 + 4 * Announced(b)]
  {
    var end := 17 + 4 * Announced(b);
    SerializeAssembled(b[..16], b[16], b[17..end], b[end..end + 16]);
    Pieces(b, end);
  }

  /** Where each field stands on the wire. */
  lemma Layout(h: Beacon, i: nat)
    ensures var b, n := Serialized(h), |Sent(h.heard)|;
      && |b| == 33 + 4 * n && b[16] == n
      && FromBE(b[0..4]) == h.src && FromBE(b[4..8]) == h.number && FromBE(b[8..16]) == h.ts
      && (i < n ==> FromBE(b[17 + 4 * i..21 + 4 * i]) == h.heard[i])
      && b[17 + 4 * n..] == h.mac
  {
    var sent, b := Sent(h.heard), Serialized(h);
    var n := |sent|;
    var ids := Ids(sent);
    assert b[..16] == Prefix(h.src, h.number, h.ts);
    assert b[..16][..4] == b[0..4] && b[..16][4..8] == b[4..8] && b[..16][8..16] == b[8..16];
    PrefixReads(h.src, h.number, h.ts);
    assert b[17..17 + 4 * n] == ids;
    if i < n {
      SlotOfSlice(b, 17, 17 + 4 * n, i);
      IdAt(sent, i);
      Word32OfBE(sent[i]);
    }
  }

  /** Cutting an accepted input keeps its meaning if and only if the whole wire form is left; a shorter cut is rejected. */
  lemma CutInput(b: seq<byte>, k: nat)
    requires Complete(b) && k <= |b|
    ensures Parsed(b[..k]) == if |Serialized(Parsed(b).value)| <= k then Parsed(b) else None
  {
    SerializeParsed(b);
    if Complete(b[..k]) {
      assert b == b[..k] + b[k..];
      TailIgnored(b[..k], b[k..]);
    }
  }

  /** Two beacons share their wire form if and only if they agree on everything but neighbours past the 255th. */
  lemma SerializedInjective(g: Beacon, h: Beacon)
    ensures Serialized(g) == Serialized(h) <==> g.(heard := Sent(g.heard)) == h.(heard := Sent(h.heard))
  {
    ParseExact(g);
    ParseExact(h);
  }

  // ---------------------------------------------------------------- authentication

  function MacInput(src: u32, number: u32, ts: u64, heard: seq<u32>): seq<byte> {
    Prefix(src, number, ts) + Ids(Sent(heard))
  }

  /** `tagOf` is ChaCha20-Poly1305 with an empty plaintext and a zero nonce. */
  method ComputeMac(tagOf: (key, seq<byte>) -> tag, src: u32, number: u32, ts: u64, heard: seq<u32>, macKey: Option<key>)
    returns (mac: tag)
    ensures mac == Mac(tagOf, src, number, ts, heard, macKey)
  {
    var n := if |heard| < 255 then |heard| else 255;
    var aad := BE(src, 4);
    aad := aad + BE(number, 4);
    aad := aad + BE(ts, 8);
    ghost var sent := Sent(heard);
    var i := 0;
    while i < n
      invariant 0 <= i <= n == |sent|
      invariant aad == Prefix(src, number, ts) + Ids(sent[..i])
    {
      assert sent[..i + 1][..i] == sent[..i];
      aad := aad + BE(heard[i], 4);
      i := i + 1;
    }
    assert sent[..n] == sent;
    mac := tagOf(if macKey.Some? then macKey.value else HELLO_MAC_KEY, aad);
  }

  function Mac(tagOf: (key, seq<byte>) -> tag, src: u32, number: u32, ts: u64, heard: seq<u32>, macKey: Option<key>): tag {
    tagOf(if macKey.Some? then macKey.value else HELLO_MAC_KEY, MacInput(src, number, ts, heard))
  }

  predicate VerifyMac(tagOf: (key, seq<byte>) -> tag, h: Beacon, macKey: Option<key>) {
    h.mac == Mac(tagOf, h.src, h.number, h.ts, h.heard, macKey)
  }

  /** A given key is the one used; without a key it is the built-in one. */
  lemma KeyChoice(tagOf: (key, seq<byte>) -> tag, h: Beacon, k: key)
    ensures VerifyMac(tagOf, h, Some(k))
       <==> h.mac == tagOf(k, BE(h.src, 4) + BE(h.number, 4) + BE(h.ts, 8) + Ids(Sent(h.heard)))
    ensures VerifyMac(tagOf, h, None) <==> VerifyMac(tagOf, h, Some(HELLO_MAC_KEY))
    ensures |HELLO_MAC_KEY| == 32
  {
  }

  /** Where tags under two keys differ, a beacon verifies under one of them at most. */
  lemma OneKeyVerifies(tagOf: (key, seq<byte>) -> tag, h: Beacon, j: key, k: key)
    requires tagOf(j, MacInput(h.src, h.number, h.ts, h.heard)) != tagOf(k, MacInput(h.src, h.number, h.ts, h.heard))
    ensures !(VerifyMac(tagOf, h, Some(j)) && VerifyMac(tagOf, h, Some(k)))
  {
  }

  /** The code covers exactly the fields that are sent. */
  lemma MacInputInjective(g: Beacon, h: Beacon)
    ensures MacInput(g.src, g.number, g.ts, g.heard) == MacInput(h.src, h.number, h.ts, h.heard)
       <==> (g.src, g.number, g.ts, Sent(g.heard)) == (h.src, h.number, h.ts, Sent(h.heard))
  {
    var a, b := MacInput(g.src, g.number, g.ts, g.heard), MacInput(h.src, h.number, h.ts, h.heard);
    if a == b {
      assert a[..16] == Prefix(g.src, g.number, g.ts) && a[16..] == Ids(Sent(g.heard));
      assert b[..16] == Prefix(h.src, h.number, h.ts) && b[16..] == Ids(Sent(h.heard));
      PrefixReads(g.src, g.number, g.ts);
      PrefixReads(h.src, h.number, h.ts);
      ReadIdsOfIds(Sent(g.heard));
      ReadIdsOfIds(Sent(h.heard));
    }
  }

  /** The trip over the wire leaves the verdict on the code unchanged under every key. */
  lemma VerdictSurvivesWire(tagOf: (key, seq<byte>) -> tag, h: Beacon, tail: seq<byte>, macKey: Option<key>)
    ensures Complete(Serialized(h) + tail)
    ensures VerifyMac(tagOf, Parsed(Serialized(h) + tail).value, macKey) == VerifyMac(tagOf, h, macKey)
  {
    ParseSerialized(h, tail);
    assert Sent(Sent(h.heard)) == Sent(h.heard);
  }

  /** Unless the two inputs collide, a verified beacon's tag verifies on another exactly when all sent fields agree. */
  lemma TagBindsFields(tagOf: (key, seq<byte>) -> tag, g: Beacon, h: Beacon, macKey: Option<key>)
    requires VerifyMac(tagOf, g, macKey) && g.mac == h.mac
    requires Mac(tagOf, g.src, g.number, g.ts, g.heard, macKey) == Mac(tagOf, h.src, h.number, h.ts, h.heard, macKey)
      ==> MacInput(g.src, g.number, g.ts, g.heard) == MacInput(h.src, h.number, h.ts, h.heard)
    ensures VerifyMac(tagOf, h, macKey) <==> Serialized(g) == Serialized(h)
  {
    MacInputInjective(g, h);
    SerializedInjective(g, h);
  }
}
