/**
 * The frame header serialiser (`MsgUtil`): fixed-layout big-endian headers
 * for client-bound frames (16 bytes) and server-bound frames (24 bytes,
 * led by an 8-byte user id), followed by the body when there is one.
 */
module FrameCodec {
  import opened JavaTypes

  const CLIENT_HEADER_LENGTH: nat := 16
  const SERVER_HEADER_LENGTH: nat := 24

  // ---------------------------------------------------------------------
  // Big-endian integers
  // ---------------------------------------------------------------------

  /** 256 to the power n: the number of values n bytes can hold. */
  function Pow256(n: nat): (p: nat)
    ensures p >= 1
  {
    if n == 0 then 1 else 256 * Pow256(n - 1)
  }

  /** The low n bytes of u, most significant first. */
  function ToBE(u: nat, n: nat): (bs: seq<uint8>)
    ensures |bs| == n
  {
    if n == 0 then [] else ToBE(u / 256, n - 1) + [u % 256]
  }

  /** The unsigned value of big-endian bytes. */
  function FromBE(bs: seq<uint8>): (u: nat)
    ensures u < Pow256(|bs|)
  {
    if bs == [] then 0 else FromBE(bs[..|bs| - 1]) * 256 + bs[|bs| - 1]
  }

  lemma {:induction false} MulAtLeast(d: nat, k: nat)
    requires k >= 1
    ensures d * k >= d
  {
    if k > 1 {
      MulAtLeast(d, k - 1);
      assert d * k == d * (k - 1) + d;
    }
  }

  /** Euclidean division has one quotient and one remainder. */
  lemma DivModUnique(u: int, d: int, a: int, b: int)
    requires d > 0 && u == d * a + b && 0 <= b < d
    ensures u / d == a && u % d == b
  {
    var q := u / d;
    var r := u % d;
    assert u == d * q + r;
    if a > q {
      assert d * a == d * q + d * (a - q);
      MulAtLeast(d, a - q);
      assert false;
    } else if a < q {
      assert d * q == d * a + d * (q - a);
      MulAtLeast(d, q - a);
      assert false;
    }
  }

  lemma DivModSplit(u: nat, p: nat)
    requires p >= 1
    ensures (u / 256) % p * 256 + u % 256 == u % (256 * p)
  {
    var q := u / 256;
    var r := u % 256;
    var a := q / p;
    var b := q % p;
    assert q == p * a + b;
    assert u == 256 * q + r;
    assert u == (256 * p) * a + (256 * b + r) by {
      assert 256 * q == 256 * (p * a) + 256 * b;
      assert 256 * (p * a) == (256 * p) * a;
    }
    assert 256 * b + r < 256 * p by {
      assert b <= p - 1;
      assert 256 * b <= 256 * (p - 1);
    }
    DivModUnique(u, 256 * p, a, 256 * b + r);
  }

  /** Reading back n written bytes yields the value modulo 256^n. */
  lemma {:induction false} FromToBE(u: nat, n: nat)
    ensures FromBE(ToBE(u, n)) == u % Pow256(n)
  {
    if n > 0 {
      var bs := ToBE(u, n);
      assert bs[..n - 1] == ToBE(u / 256, n - 1);
      FromToBE(u / 256, n - 1);
      DivModSplit(u, Pow256(n - 1));
    }
  }

  /** Writing back the value of n bytes yields the same bytes. */
  lemma {:induction false} ToFromBE(bs: seq<uint8>)
    ensures ToBE(FromBE(bs), |bs|) == bs
  {
    if bs != [] {
      var init := bs[..|bs| - 1];
      var last := bs[|bs| - 1];
      var u := FromBE(bs);
      assert u / 256 == FromBE(init) && u % 256 == last;
      ToFromBE(init);
    }
  }

  /** The two's-complement bit pattern of a signed value in n bytes. */
  function Unsigned(v: int, n: nat): (u: nat)
    ensures u < Pow256(n)
  {
    v % Pow256(n)
  }

  /** 2^(8n-1): the first bit pattern of n bytes that reads as negative. */
  function Half(n: nat): (h: int)
    requires n > 0
    ensures Pow256(n) == 2 * h
  {
    128 * Pow256(n - 1)
  }

  /** The signed value of an n-byte two's-complement bit pattern. */
  function Signed(u: nat, n: nat): (v: int)
    requires 0 < n && u < Pow256(n)
    ensures -Half(n) <= v < Half(n)
  {
    if u < Half(n) then u else u - Pow256(n)
  }

  lemma SignedUnsigned(v: int, n: nat)
    requires 0 < n && -Half(n) <= v < Half(n)
    ensures Signed(Unsigned(v, n), n) == v
  {
    if v < 0 {
      DivModUnique(v, Pow256(n), -1, v + Pow256(n));
    } else {
      DivModUnique(v, Pow256(n), 0, v);
    }
  }

  lemma UnsignedSigned(u: nat, n: nat)
    requires 0 < n && u < Pow256(n)
    ensures Unsigned(Signed(u, n), n) == u
  {
    if u < Half(n) {
      DivModUnique(u, Pow256(n), 0, u);
    } else {
      DivModUnique(u - Pow256(n), Pow256(n), -1, u);
    }
  }

  /** `writeLong`, `writeInt`, `writeShort`, `writeByte`: the low n bytes, big-endian. */
  function EncodeBE(v: int, n: nat): (bs: seq<uint8>)
    ensures |bs| == n
  {
    ToBE(Unsigned(v, n), n)
  }

  /** A signed big-endian field read at a fixed offset. */
  function ReadSigned(bs: seq<uint8>, offset: nat, n: nat): int
    requires 0 < n && offset + n <= |bs|
  {
    Signed(FromBE(bs[offset..offset + n]), n)
  }

  lemma Pow256Values()
    ensures Pow256(1) == 0x100 && Pow256(2) == 0x1_0000 && Pow256(4) == 0x1_0000_0000
    ensures Pow256(8) == 0x1_0000_0000_0000_0000
    ensures Half(1) == 0x80 && Half(2) == 0x8000 && Half(4) == 0x8000_0000
    ensures Half(8) == 0x8000_0000_0000_0000
  {
  }

  /** A field written in n bytes reads back, unsigned, as the value modulo 256^n. */
  lemma UnsignedReadBack(v: int, n: nat)
    ensures FromBE(EncodeBE(v, n)) == Unsigned(v, n)
  {
    var u := Unsigned(v, n);
    FromToBE(u, n);
    DivModUnique(u, Pow256(n), 0, u);
  }

  /** A field written in n bytes reads back as the value written, when it fits. */
  lemma EncodeReadBack(v: int, n: nat)
    requires 0 < n && -Half(n) <= v < Half(n)
    ensures Signed(FromBE(EncodeBE(v, n)), n) == v
  {
    UnsignedReadBack(v, n);
    SignedUnsigned(v, n);
  }

  // ---------------------------------------------------------------------
  // Header layout
  // ---------------------------------------------------------------------

  /** The fields of a client header, with each flag as the byte on the wire. */
  datatype ClientHeader = ClientHeader(
    cid: int32,
    errorCode: int32,
    protocolId: int32,
    zip: uint8,
    encrypted: uint8,
    length: int16)

  /**
   * Client header layout: cid at 0-3, errorCode at 4-7, protocolId at 8-11,
   * zip at 12, encrypted at 13, length at 14-15.
   */
  function EncodeClientHeader(h: ClientHeader): (bs: seq<uint8>)
    ensures |bs| == CLIENT_HEADER_LENGTH
  {
    EncodeBE(h.cid, 4) + EncodeBE(h.errorCode, 4) + EncodeBE(h.protocolId, 4)
      + [h.zip] + [h.encrypted] + EncodeBE(h.length, 2)
  }

  /** Reads the client header fields back from their fixed offsets. */
  function DecodeClientHeader(bs: seq<uint8>): (h: ClientHeader)
    requires |bs| >= CLIENT_HEADER_LENGTH
  {
    Pow256Values();
    ClientHeader(ReadSigned(bs, 0, 4), ReadSigned(bs, 4, 4), ReadSigned(bs, 8, 4),
                 bs[12], bs[13], ReadSigned(bs, 14, 2))
  }

  /** Decoding reads the first 16 bytes only: a body after them does not change the fields. */
  lemma DecodeClientHeaderIgnoresBody(header: seq<uint8>, body: seq<uint8>)
    requires |header| >= CLIENT_HEADER_LENGTH
    ensures DecodeClientHeader(header + body) == DecodeClientHeader(header)
  {
    var bs := header + body;
    assert bs[0..4] == header[0..4] && bs[4..8] == header[4..8];
    assert bs[8..12] == header[8..12] && bs[14..16] == header[14..16];
  }

  /** Every header field reads back from its offset as written. */
  lemma ClientHeaderRoundTrip(h: ClientHeader)
    ensures DecodeClientHeader(EncodeClientHeader(h)) == h
  {
    var bs := EncodeClientHeader(h);
    Pow256Values();
    assert bs[0..4] == EncodeBE(h.cid, 4);
    assert bs[4..8] == EncodeBE(h.errorCode, 4);
    assert bs[8..12] == EncodeBE(h.protocolId, 4);
    assert bs[14..16] == EncodeBE(h.length, 2);
    EncodeReadBack(h.cid, 4);
    EncodeReadBack(h.errorCode, 4);
    EncodeReadBack(h.protocolId, 4);
    EncodeReadBack(h.length, 2);
  }

  lemma {:induction false} FieldReencodes(bs: seq<uint8>, n: nat)
    requires 0 < n && |bs| == n
    ensures EncodeBE(Signed(FromBE(bs), n), n) == bs
  {
    UnsignedSigned(FromBE(bs), n);
    ToFromBE(bs);
  }

  /** Every 16 bytes are the header of exactly one set of fields. */
  lemma ClientHeaderBytesRoundTrip(bs: seq<uint8>)
    requires |bs| == CLIENT_HEADER_LENGTH
    ensures EncodeClientHeader(DecodeClientHeader(bs)) == bs
  {
    FieldReencodes(bs[0..4], 4);
    FieldReencodes(bs[4..8], 4);
    FieldReencodes(bs[8..12], 4);
    FieldReencodes(bs[14..16], 2);
    assert bs == bs[0..4] + bs[4..8] + bs[8..12] + [bs[12]] + [bs[13]] + bs[14..16];
  }

  /**
   * Server header layout: userId at 0-7, then the client header layout
   * shifted by 8.
   */
  function EncodeServerHeader(userId: int64, h: ClientHeader): (bs: seq<uint8>)
    ensures |bs| == SERVER_HEADER_LENGTH
  {
    EncodeBE(userId, 8) + EncodeClientHeader(h)
  }

  /** The user id and the header fields read back from a server header. */
  lemma ServerHeaderRoundTrip(userId: int64, h: ClientHeader)
    ensures ReadSigned(EncodeServerHeader(userId, h), 0, 8) == userId
    ensures DecodeClientHeader(EncodeServerHeader(userId, h)[8..]) == h
  {
    var bs := EncodeServerHeader(userId, h);
    assert bs[0..8] == EncodeBE(userId, 8);
    assert bs[8..] == EncodeClientHeader(h);
    Pow256Values();
    EncodeReadBack(userId, 8);
    ClientHeaderRoundTrip(h);
  }

  // ---------------------------------------------------------------------
  // The output buffer and the two builders
  // ---------------------------------------------------------------------

  /** The bytes written so far into a Netty output buffer. */
  class ByteBuf {
    var bytes: seq<uint8>

    constructor ()
      ensures bytes == []
    {
      bytes := [];
    }

    method WriteLong(v: int64)
      modifies this
      ensures bytes == old(bytes) + EncodeBE(v, 8)
    {
      bytes := bytes + EncodeBE(v, 8);
    }

    method WriteInt(v: int32)
      modifies this
      ensures bytes == old(bytes) + EncodeBE(v, 4)
    {
      bytes := bytes + EncodeBE(v, 4);
    }

    /** Takes an int and keeps its low 16 bits. */
    method WriteShort(v: int)
      modifies this
      ensures bytes == old(bytes) + EncodeBE(v, 2)
    {
      bytes := bytes + EncodeBE(v, 2);
    }

    /** Takes an int and keeps its low 8 bits. */
    method WriteByte(v: int)
      modifies this
      ensures bytes == old(bytes) + [Unsigned(v, 1)]
    {
      Pow256Values();
      bytes := bytes + [Unsigned(v, 1)];
    }
  }

  /** The bytes of an optional body: none for null. */
  function BodyBytes(body: Option<seq<uint8>>): seq<uint8> {
    if body.Some? then body.value else []
  }

  /** The facts a client frame built from a header and a body gives its reader. */
  lemma ClientFrameLayout(h: ClientHeader, bodyBytes: seq<uint8>)
    ensures var frame := EncodeClientHeader(h) + bodyBytes;
            && |frame| == CLIENT_HEADER_LENGTH + |bodyBytes|
            && frame[..CLIENT_HEADER_LENGTH] == EncodeClientHeader(h)
            && DecodeClientHeader(frame) == h
            && frame[12] == h.zip && frame[13] == h.encrypted
            && FromBE(frame[14..16]) == h.length % 0x1_0000
            && frame[CLIENT_HEADER_LENGTH..] == bodyBytes
  {
    var header := EncodeClientHeader(h);
    var frame := header + bodyBytes;
    Pow256Values();
    ClientHeaderRoundTrip(h);
    DecodeClientHeaderIgnoresBody(header, bodyBytes);
    assert frame[14..16] == header[14..16] == EncodeBE(h.length, 2);
    UnsignedReadBack(h.length, 2);
  }

  /** The facts a server frame built from a user id, a header and a body gives its reader. */
  lemma ServerFrameLayout(userId: int64, h: ClientHeader, bodyBytes: seq<uint8>)
    ensures var frame := EncodeServerHeader(userId, h) + bodyBytes;
            && |frame| == SERVER_HEADER_LENGTH + |bodyBytes|
            && frame[..SERVER_HEADER_LENGTH] == EncodeBE(userId, 8) + EncodeClientHeader(h)
            && ReadSigned(frame, 0, 8) == userId
            && DecodeClientHeader(frame[8..]) == h
            && frame[SERVER_HEADER_LENGTH..] == bodyBytes
  {
    var header := EncodeServerHeader(userId, h);
    var frame := header + bodyBytes;
    ServerHeaderRoundTrip(userId, h);
    assert frame[0..8] == header[0..8];
    assert frame[8..] == header[8..] + bodyBytes;
    DecodeClientHeaderIgnoresBody(header[8..], bodyBytes);
  }

  /**
   * `buildClientMsg`: the 16-byte client header, then the body's bytes
   * unchanged when there is a body.  The length field is written as given,
   * whatever the body's size.
   */
  method BuildClientMsg(cid: int32, errorCode: int32, protocolId: int32, zip: int8, encrypted: int8,
                        length: int16, body: Option<seq<uint8>>) returns (frame: seq<uint8>)
    ensures |frame| == CLIENT_HEADER_LENGTH + |BodyBytes(body)|
    ensures frame[..CLIENT_HEADER_LENGTH]
         == EncodeClientHeader(ClientHeader(cid, errorCode, protocolId, zip % 256, encrypted % 256, length))
    ensures DecodeClientHeader(frame) == ClientHeader(cid, errorCode, protocolId, zip % 256, encrypted % 256, length)
    ensures Signed(frame[12], 1) == zip && Signed(frame[13], 1) == encrypted
    ensures FromBE(frame[14..16]) == length % 0x1_0000
    ensures frame[CLIENT_HEADER_LENGTH..] == BodyBytes(body)
  {
    Pow256Values();
    var out := new ByteBuf();
    out.WriteInt(cid);
    out.WriteInt(errorCode);
    out.WriteInt(protocolId);
    out.WriteByte(zip);
    out.WriteByte(encrypted);
    out.WriteShort(length);
    var h := ClientHeader(cid, errorCode, protocolId, zip % 256, encrypted % 256, length);
    assert out.bytes == EncodeClientHeader(h);
    if body != None {
      frame := out.bytes + body.value;
    } else {
      frame := out.bytes;
    }
    assert frame == EncodeClientHeader(h) + BodyBytes(body);
    ClientFrameLayout(h, BodyBytes(body));
    SignedUnsigned(zip, 1);
    SignedUnsigned(encrypted, 1);
  }

  /**
   * `buildServerMsg`: the 8-byte user id, the client header layout with the
   * int flags cut to their low 8 bits, then the body's bytes unchanged when
   * there is a body.
   */
  method BuildServerMsg(userId: int64, cid: int32, errorCode: int32, protocolId: int32, zip: int32,
                        encrypted: int32, length: int16, body: Option<seq<uint8>>) returns (frame: seq<uint8>)
    ensures |frame| == SERVER_HEADER_LENGTH + |BodyBytes(body)|
    ensures frame[..SERVER_HEADER_LENGTH]
         == EncodeBE(userId, 8) + EncodeClientHeader(ClientHeader(cid, errorCode, protocolId, zip % 256, encrypted % 256, length))
    ensures ReadSigned(frame, 0, 8) == userId
    ensures DecodeClientHeader(frame[8..]) == ClientHeader(cid, errorCode, protocolId, zip % 256, encrypted % 256, length)
    ensures frame[SERVER_HEADER_LENGTH..] == BodyBytes(body)
  {
    Pow256Values();
    var out := new ByteBuf();
    out.WriteLong(userId);
    out.WriteInt(cid);
    out.WriteInt(errorCode);
    out.WriteInt(protocolId);
    out.WriteByte(zip);
    out.WriteByte(encrypted);
    out.WriteShort(length);
    var h := ClientHeader(cid, errorCode, protocolId, zip % 256, encrypted % 256, length);
    assert out.bytes == EncodeServerHeader(userId, h);
    if body != None {
      frame := out.bytes + body.value;
    } else {
      frame := out.bytes;
    }
    assert frame == EncodeServerHeader(userId, h) + BodyBytes(body);
    ServerFrameLayout(userId, h, BodyBytes(body));
  }
}
