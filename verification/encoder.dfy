/** The server-side frame encoder, `sendFrameTo` in src/WebSocketServer.php:
    one unmasked frame with FIN set, the opcode in the low bits of byte 0,
    then the payload length in one of the three forms of section 5.2 of
    RFC 6455, then the payload verbatim. The 64-bit form is reproduced as the
    source writes it, which is not what the RFC prescribes. */
module Encoder {
  import opened Base
  import opened Arith

  const Continuation: Byte := 0x0
  const Text: Byte := 0x1
  const Binary: Byte := 0x2
  const Close: Byte := 0x8
  const Ping: Byte := 0x9
  const Pong: Byte := 0xA

  /** `($length >> k) & 0b11111111` on PHP's 64-bit integers, where a shift
      by 64 bits or more of a non-negative value gives 0. */
  function ShrByte(len: nat, k: nat): Byte
  {
    if k >= 64 then 0 else Shr(len, k) % 256
  }

  /** The byte is the k-th group of eight bits of the length: the length
      divided by 2^k, modulo 256, or 0 once the shift reaches 64. */
  lemma ShrByteValue(len: nat, k: nat)
    ensures k < 64 ==> ShrByte(len, k) == len / Pow2(k) % 256
    ensures k >= 64 ==> ShrByte(len, k) == 0
  {
    ShrIsDiv(len, k);
  }

  /** The length field that follows byte 0. The eight-byte form starts with
      the byte `len >> 64` and leaves out the byte `len >> 8`. */
  function LengthField(len: nat): (r: Bytes)
    ensures len <= 125 ==> |r| == 1 && r[0] == len
    ensures 125 < len < 65536 ==> |r| == 3 && r[0] == 126 && BigEndian(r[1..]) == len
    ensures 65536 <= len ==> |r| == 9 && r[0] == 127 && r[1] == 0
    ensures 65536 <= len ==> r[8] == len % 256
  {
    if len <= 125 then
      [len]
    else if len < 65536 then
      var r := [126, ShrByte(len, 8), ShrByte(len, 0)];
      assert Shr(len, 8) == len / 256 by { ShrByte8(len); }
      assert r[1..][..1] == [r[1]];
      assert BigEndian([r[1]]) == r[1] by { BigEndianSnoc([], r[1]); }
      r
    else
      [127, ShrByte(len, 64), ShrByte(len, 56), ShrByte(len, 48), ShrByte(len, 40),
       ShrByte(len, 32), ShrByte(len, 24), ShrByte(len, 16), ShrByte(len, 0)]
  }

  /** `sendFrameTo($socket, $data, $opcode)`: the bytes handed to the socket. */
  function EncodeFrame(opcode: Byte, data: Bytes): (r: Bytes)
    ensures |r| >= 2 + |data|
    ensures r[0] == SetHighBit(opcode)
    ensures |r| == 1 + |LengthField(|data|)| + |data|
    ensures r[1..|r| - |data|] == LengthField(|data|)
    ensures r[|r| - |data|..] == data
  {
    [SetHighBit(opcode)] + LengthField(|data|) + data
  }

  /** `doPing`: a ping carrying the three bytes "hey". */
  function PingFrame(): (r: Bytes)
    ensures r == [0x89, 0x03, 0x68, 0x65, 0x79]
  {
    EncodeFrame(Ping, [0x68, 0x65, 0x79])
  }

  /** The close frame `wsDisconnect` sends: the code travels as its decimal
      text, not as the two-byte status of section 5.5.1 of RFC 6455. */
  function CloseFrame(code: nat): (r: Bytes)
    ensures |r| >= 2 + |DecimalBytes(code)|
    ensures r[0] == 0x88
    ensures r[|r| - |DecimalBytes(code)|..] == DecimalBytes(code)
  {
    EncodeFrame(Close, DecimalBytes(code))
  }

  /** A close code of four digits gives a six-byte frame whose payload reads
      back as the code. */
  lemma CloseFrameCarriesCode(code: nat)
    requires 1000 <= code < 10000
    ensures |CloseFrame(code)| == 6 && CloseFrame(code)[1] == 4
    ensures DecimalValue(CloseFrame(code)[2..]) == code
  {
    FourDigitCodes(code);
    DecimalRoundTrip(code);
  }

  /** The empty pong the decoder sends back for a ping. */
  function EmptyPongFrame(): (r: Bytes)
    ensures r == [0x8A, 0x00]
  {
    EncodeFrame(Pong, [])
  }

  /** One exact step of Horner's rule over the bytes `(len >> k) & 255`:
      the bytes above bit k + 8, reduced modulo p, followed by the byte at
      bit k are the bytes above bit k reduced modulo 256 * p. */
  lemma HornerExact(len: nat, k: nat, v: nat, p: nat)
    requires k < 64 && p > 0
    requires v == Shr(len, k + 8) % p
    ensures v * 256 + ShrByte(len, k) == Shr(len, k) % (256 * p)
  {
    ShrStep(len, k);
    ModStep(Shr(len, k), p);
  }

  /** The number the eight-byte form spells: the byte `len >> 64` is 0 and
      the byte `len >> 8` is missing, so what is written is bits 16 to 63 of
      the length followed by its low byte. */
  lemma LongLengthFieldValue(len: nat)
    requires 65536 <= len
    ensures BigEndian(LengthField(len)[1..])
      == (len / 0x1_0000) % 0x1_0000_0000_0000 * 256 + len % 256
  {
    var b := LengthField(len)[1..];
    assert b == [0, ShrByte(len, 56), ShrByte(len, 48), ShrByte(len, 40),
                 ShrByte(len, 32), ShrByte(len, 24), ShrByte(len, 16), len % 256];
    SkippedByteValue(len, b);
  }

  /** Horner's rule over the bytes the eight-byte form writes. */
  lemma SkippedByteValue(len: nat, b: Bytes)
    requires b == [0, ShrByte(len, 56), ShrByte(len, 48), ShrByte(len, 40),
                   ShrByte(len, 32), ShrByte(len, 24), ShrByte(len, 16), len % 256]
    ensures BigEndian(b) == (len / 0x1_0000) % 0x1_0000_0000_0000 * 256 + len % 256
  {
    forall j | 1 <= j < 7
      ensures b[j] == ShrByte(len, 64 - 8 * j)
    {
      if j == 1 {} else if j == 2 {} else if j == 3 {} else if j == 4 {} else if j == 5 {} else {}
    }
    HornerPrefix(len, b, 7);
    NextByte(b, 7);
    assert b[..8] == b;
    assert Pow256(6) == 0x1_0000_0000_0000;
    assert Shr(len, 16) == len / 0x1_0000 by {
      ShrStep(len, 8);
      ShrByte8(len);
    }
  }

  /** The first i bytes of a zero byte followed by bytes 56, 48, ... of a
      length spell bits 72 - 8i and up of it, reduced to i - 1 bytes. */
  lemma {:induction false} HornerPrefix(len: nat, b: Bytes, i: nat)
    requires |b| == 8 && b[0] == 0
    requires forall j :: 1 <= j < 7 ==> b[j] == ShrByte(len, 64 - 8 * j)
    requires 1 <= i <= 7
    ensures BigEndian(b[..i]) == Shr(len, 72 - 8 * i) % Pow256(i - 1)
  {
    if i == 1 {
      assert b[..1] == [] + [b[0]];
      BigEndianSnoc([], b[0]);
    } else {
      HornerPrefix(len, b, i - 1);
      NextByte(b, i - 1);
      HornerExact(len, 72 - 8 * i, BigEndian(b[..i - 1]), Pow256(i - 2));
    }
  }

  lemma NextByte(b: Bytes, i: nat)
    requires i < |b|
    ensures BigEndian(b[..i + 1]) == BigEndian(b[..i]) * 256 + b[i]
  {
    assert b[..i + 1] == b[..i] + [b[i]];
    BigEndianSnoc(b[..i], b[i]);
  }

  /** For every length of the eight-byte form, the number the eight bytes
      spell is strictly smaller than the length, and below 2^56, so a reader
      that takes the bytes at face value reads a short, non-negative length. */
  lemma LongLengthUnderstated(len: nat)
    requires 65536 <= len
    ensures BigEndian(LengthField(len)[1..]) < len
    ensures BigEndian(LengthField(len)[1..]) < 0x0100_0000_0000_0000
  {
    LongLengthFieldValue(len);
    DroppedByteBound(len);
  }

  /** Bits 16 to 63 followed by the low byte spell less than the number
      itself, and less than 2^56. */
  lemma DroppedByteBound(len: nat)
    requires 65536 <= len
    ensures (len / 0x1_0000) % 0x1_0000_0000_0000 * 256 + len % 256 < len
    ensures (len / 0x1_0000) % 0x1_0000_0000_0000 * 256 + len % 256 < 0x0100_0000_0000_0000
  {
    var high := len / 0x1_0000;
    assert len / 256 == high * 256 + (len / 256) % 256 by {
      assert len / 0x1_0000 == (len / 256) / 256;
    }
    assert len == (len / 256) * 256 + len % 256;
    assert high % 0x1_0000_0000_0000 <= high;
  }
}
