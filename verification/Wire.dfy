/** The 11-byte mesh header `[ver:1][kind:1][src:4][dst:4][ttl:1]`, which doubles as associated data. */
module Wire {
  import opened Widths
  import opened Bytes

  const VERSION: byte := 1
  const HEADER_LEN: nat := 11

  datatype FrameKind = Hello | Data {
    function Code(): byte { if Hello? then 0 else 1 }
  }

  datatype Header = Header(kind: FrameKind, src: u32, dst: u32, ttl: byte)

  /** Byte `i` of the header, most significant byte of each id first. */
  function HeaderByte(h: Header, i: nat): byte {
    if i == 0 then VERSION
    else if i == 1 then h.kind.Code()
    else if i <= 5 then BeByte(h.src, i - 2)
    else if i <= 9 then BeByte(h.dst, i - 6)
    else h.ttl
  }

  function BeByte(w: u32, i: nat): byte {
    if i == 0 then w / 0x100_0000 % 256
    else if i == 1 then w / 0x1_0000 % 256
    else if i == 2 then w / 0x100 % 256
    else w % 256
  }

  /** The layout, field by field. */
  function Encode(h: Header): (b: seq<byte>)
    ensures |b| == HEADER_LEN
  {
    [VERSION, h.kind.Code()] + BE(h.src, 4) + BE(h.dst, 4) + [h.ttl]
  }

  function U32Be(b0: byte, b1: byte, b2: byte, b3: byte): u32 {
    b0 * 0x100_0000 + b1 * 0x1_0000 + b2 * 0x100 + b3
  }

  function Parse(b: seq<byte>): Option<Header> {
    if |b| < HEADER_LEN then None
    else if b[0] != VERSION || b[1] > 1 then None
    else Some(Header(if b[1] == 0 then Hello else Data,
                     U32Be(b[2], b[3], b[4], b[5]), U32Be(b[6], b[7], b[8], b[9]), b[10]))
  }

  lemma BE4(w: u32)
    ensures BE(w, 4) == [BeByte(w, 0), BeByte(w, 1), BeByte(w, 2), BeByte(w, 3)]
  {
    assert BE(w, 1) == [w % 256];
    assert BE(w / 0x100_0000, 1) == [w / 0x100_0000 % 256] by {
      assert BE(w / 0x100_0000, 0) == [];
    }
    assert w / 0x100 / 256 == w / 0x1_0000 && w / 0x1_0000 / 256 == w / 0x100_0000;
    assert BE(w / 0x1_0000, 2) == BE(w / 0x100_0000, 1) + [w / 0x1_0000 % 256];
    assert BE(w / 0x100, 3) == BE(w / 0x1_0000, 2) + [w / 0x100 % 256];
  }

  lemma U32BeIsFromBE(b0: byte, b1: byte, b2: byte, b3: byte)
    ensures U32Be(b0, b1, b2, b3) == FromBE([b0, b1, b2, b3])
  {
    var s := [b0, b1, b2, b3];
    assert s[..3] == [b0, b1, b2] && s[..3][..2] == [b0, b1] && s[..3][..2][..1] == [b0];
    assert FromBE([b0]) == b0 by { assert [b0][..0] == []; }
    assert FromBE([b0, b1]) == 256 * b0 + b1;
    assert FromBE([b0, b1, b2]) == 256 * (256 * b0 + b1) + b2;
  }

  lemma U32BeRoundTrip(w: u32)
    ensures U32Be(BeByte(w, 0), BeByte(w, 1), BeByte(w, 2), BeByte(w, 3)) == w
  {
    BE4(w);
    U32BeIsFromBE(BeByte(w, 0), BeByte(w, 1), BeByte(w, 2), BeByte(w, 3));
    assert Pow256(4) == 0x1_0000_0000;
    FromBEofBE(w, 4);
  }

  /** `to_bytes` fills the buffer byte by byte; the result is the field layout. */
  method ToBytes(h: Header) returns (b: array<byte>)
    ensures fresh(b) && b[..] == Encode(h)
  {
    b := new byte[HEADER_LEN](_ => 0);
    for i := 0 to HEADER_LEN
      invariant forall k | 0 <= k < i :: b[k] == HeaderByte(h, k)
    {
      b[i] := HeaderByte(h, i);
    }
    BE4(h.src);
    BE4(h.dst);
  }

  /** Parsing inverts encoding, also with bytes appended. */
  lemma ParseEncode(h: Header, rest: seq<byte>)
    ensures Parse(Encode(h) + rest) == Some(h)
  {
    BE4(h.src);
    BE4(h.dst);
    U32BeRoundTrip(h.src);
    U32BeRoundTrip(h.dst);
  }

  /** Whatever parses starts with the encoding of what it parsed to. */
  lemma EncodeParse(b: seq<byte>)
    requires Parse(b).Some?
    ensures Encode(Parse(b).value) == b[..HEADER_LEN]
  {
    var h := Parse(b).value;
    BE4(h.src);
    BE4(h.dst);
    U32BeBytes(b[2], b[3], b[4], b[5]);
    U32BeBytes(b[6], b[7], b[8], b[9]);
  }

  lemma U32BeBytes(b0: byte, b1: byte, b2: byte, b3: byte)
    ensures var w := U32Be(b0, b1, b2, b3);
      [BeByte(w, 0), BeByte(w, 1), BeByte(w, 2), BeByte(w, 3)] == [b0, b1, b2, b3]
  {
    U32BeIsFromBE(b0, b1, b2, b3);
    BEofFromBE([b0, b1, b2, b3]);
    BE4(U32Be(b0, b1, b2, b3));
  }

  lemma EncodeInjective(g: Header, h: Header)
    requires Encode(g) == Encode(h)
    ensures g == h
  {
    ParseEncode(g, []);
    ParseEncode(h, []);
    assert Encode(g) + [] == Encode(g);
  }

  /** Exactly the inputs of 11 bytes or more with version 1 and kind 0 or 1 parse. */
  lemma ParseAccepts(b: seq<byte>)
    ensures Parse(b).Some? <==> |b| >= 11 && b[0] == 1 && b[1] <= 1
    ensures Parse(b).Some? ==> (Parse(b).value.kind == Hello <==> b[1] == 0)
  {
  }

  /** Where each field stands on the wire. */
  lemma Layout(h: Header)
    ensures var b := Encode(h);
      && b[0] == 1 && (b[1] == 0 <==> h.kind == Hello) && b[10] == h.ttl
      && FromBE(b[2..6]) == h.src && FromBE(b[6..10]) == h.dst
  {
    var b := Encode(h);
    assert b[2..6] == BE(h.src, 4) && b[6..10] == BE(h.dst, 4);
    assert Pow256(4) == TWO_32;
    FromBEofBE(h.src, 4);
    FromBEofBE(h.dst, 4);
  }
}
