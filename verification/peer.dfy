/** Frames as a client writes them, following section 5.2 of RFC 6455: any
    FIN bit and opcode, the shortest length form, and an optional masking
    key with the payload masked under it. This serializer is the reference
    the decoder is checked against. */
module Peer {
  import opened Base
  import opened Arith
  import opened Decoder

  datatype PeerFrame = PeerFrame(fin: bool, opcode: Byte, key: Option<Bytes>, payload: Bytes)

  /** A four-bit opcode, a four-byte key when masked, and a length that fits
      the 63 bits a length field can carry. */
  predicate WellFormed(f: PeerFrame)
  {
    && f.opcode < 0x10
    && (f.key.Some? ==> |f.key.value| == 4)
    && |f.payload| < 0x8000_0000_0000_0000
  }

  predicate AllWellFormed(fs: seq<PeerFrame>)
  {
    forall i :: 0 <= i < |fs| ==> WellFormed(fs[i])
  }

  /** The low n bytes of x, most significant first. */
  function BytesOf(x: nat, n: nat): (r: Bytes)
    ensures |r| == n
  {
    if n == 0 then [] else BytesOf(x / 256, n - 1) + [x % 256]
  }

  lemma {:induction false} BytesOfValue(x: nat, n: nat)
    requires x < Pow256(n)
    ensures BigEndian(BytesOf(x, n)) == x
  {
    if n > 0 {
      DivBound(x, Pow256(n - 1));
      BytesOfValue(x / 256, n - 1);
      BigEndianSnoc(BytesOf(x / 256, n - 1), x % 256);
    }
  }

  /** Byte 1 (mask bit and 7-bit length) and the extended length. */
  function PeerLengthField(len: nat, masked: bool): (r: Bytes)
    ensures |r| >= 1
  {
    var m := if masked then 0x80 else 0;
    if len <= 125 then [m + len]
    else if len <= 0xFFFF then [m + 126] + BytesOf(len, 2)
    else [m + 127] + BytesOf(len, 8)
  }

  function Serialize(f: PeerFrame): (r: Bytes)
    requires WellFormed(f)
    ensures |r| >= 2
  {
    [(if f.fin then 0x80 else 0) + f.opcode] + PeerLengthField(|f.payload|, f.key.Some?) + PeerBody(f)
  }

  /** Frames written back to back. */
  function Wire(fs: seq<PeerFrame>): Bytes
    requires AllWellFormed(fs)
  {
    if |fs| == 0 then [] else Serialize(fs[0]) + Wire(fs[1..])
  }

  /** Masking twice with the same key gives the payload back. */
  lemma MaskInvolution(data: Bytes, key: Bytes)
    requires |key| == 4
    ensures ApplyMask(ApplyMask(data, key), key) == data
  {
    forall i | 0 <= i < |data|
      ensures ApplyMask(ApplyMask(data, key), key)[i] == data[i]
    {
      XorInvolution(data[i], key[i % 4]);
    }
  }

  /** PHP's string XOR combines byte i of the chunk with byte i of the key. */
  lemma {:induction false} XorKeyBytes(chunk: Bytes, key: Bytes)
    requires |chunk| <= |key|
    ensures forall i :: 0 <= i < |chunk| ==> XorKey(chunk, key)[i] == Xor(chunk[i], key[i])
  {
    if |chunk| > 0 {
      XorKeyBytes(chunk[1..], key[1..]);
    }
  }

  lemma XorKeyIsMask(chunk: Bytes, key: Bytes)
    requires |key| == 4 && |chunk| <= 4
    ensures XorKey(chunk, key) == ApplyMask(chunk, key)
  {
    var a := XorKey(chunk, key);
    var b := ApplyMask(chunk, key);
    XorKeyBytes(chunk, key);
    forall i | 0 <= i < |chunk| ensures a[i] == b[i] {
      assert i % 4 == i;
    }
  }

  lemma MaskConcat(a: Bytes, b: Bytes, key: Bytes)
    requires |key| == 4 && |a| == 4
    ensures ApplyMask(a + b, key) == ApplyMask(a, key) + ApplyMask(b, key)
  {
    var l, r := ApplyMask(a + b, key), ApplyMask(a, key) + ApplyMask(b, key);
    forall i | 0 <= i < |l| ensures l[i] == r[i] {
      if i >= 4 {
        assert (i - 4) % 4 == i % 4;
      }
    }
  }

  /** The source's loop over chunks of at most four bytes, each XORed with
      the key from its start, unmasks exactly like XOR over the whole buffer,
      and fails exactly when fewer than `remaining` bytes are left. */
  lemma {:induction false} MaskedChunksWhole(input: Bytes, key: Bytes, remaining: int)
    requires |key| == 4
    ensures remaining <= 0 ==> ReadMaskedChunks(input, key, remaining) == Some(([], input))
    ensures 0 < remaining && |input| < remaining ==> ReadMaskedChunks(input, key, remaining).None?
    ensures 0 < remaining <= |input| ==>
      ReadMaskedChunks(input, key, remaining) == Some((ApplyMask(input[..remaining], key), input[remaining..]))
    decreases remaining
  {
    if remaining > 0 {
      var n := if remaining < 4 then remaining else 4;
      if n <= |input| {
        var chunk, rest := input[..n], input[n..];
        assert Take(input, n) == Some((chunk, rest));
        MaskedChunksWhole(rest, key, remaining - n);
        XorKeyIsMask(chunk, key);
        if remaining <= |input| {
          var r := ReadMaskedChunks(rest, key, remaining - n);
          assert r.Some?;
          assert ReadMaskedChunks(input, key, remaining) == Some((XorKey(chunk, key) + r.value.0, r.value.1));
          if remaining > 4 {
            assert input[..remaining] == chunk + rest[..remaining - n];
            MaskConcat(chunk, rest[..remaining - n], key);
            assert r.value.0 == ApplyMask(rest[..remaining - n], key);
          } else {
            assert chunk == input[..remaining];
            assert r.value.0 == [];
            assert XorKey(chunk, key) + r.value.0 == ApplyMask(input[..remaining], key);
          }
          assert rest[remaining - n..] == input[remaining..];
        }
      }
    }
  }

  /** The bytes after the length field: the key, if any, then the payload
      masked under it. */
  function PeerBody(f: PeerFrame): Bytes
    requires WellFormed(f)
  {
    if f.key.Some? then f.key.value + ApplyMask(f.payload, f.key.value) else f.payload
  }

  lemma ReadPeerBody(f: PeerFrame, tail: Bytes)
    requires WellFormed(f)
    ensures ReadPayload(f.key.Some?, |f.payload|, PeerBody(f) + tail) == Some((f.payload, tail))
  {
    var len := |f.payload|;
    var input := PeerBody(f) + tail;
    if f.key.Some? {
      var key := f.key.value;
      var masked := ApplyMask(f.payload, key);
      assert input[..4] == key;
      assert input[4..] == masked + tail;
      assert Take(input, 4) == Some((key, masked + tail));
      MaskedChunksWhole(masked + tail, key, len);
      assert (masked + tail)[..len] == masked;
      assert (masked + tail)[len..] == tail;
      MaskInvolution(f.payload, key);
    } else if len > 0 {
      assert input[..len] == f.payload;
      assert input[len..] == tail;
      assert Take(input, len) == Some((f.payload, tail));
    } else {
      assert input == tail;
    }
  }

  /** The decoder reads a well-formed peer frame back: FIN, opcode and
      payload come out as they went in, and the bytes after it are left. */
  lemma ParseSerialized(f: PeerFrame, tail: Bytes)
    requires WellFormed(f)
    ensures (Serialize(f) + tail)[0] != FalsyByte
    ensures ParseFrame(Serialize(f) + tail) == Some((Frame(f.fin, f.opcode, f.payload), tail))
  {
    var input := Serialize(f) + tail;
    var len := |f.payload|;
    var field := PeerLengthField(len, f.key.Some?);
    var head: Byte := (if f.fin then 0x80 else 0) + f.opcode;
    assert input == [head] + field + PeerBody(f) + tail;
    assert input[0] == head && input[1] == field[0];
    assert input[2..] == field[1..] + (PeerBody(f) + tail);
    ReadLengthOfPeerField(len, f.key.Some?, PeerBody(f) + tail);
    var lr := ReadLength(Low7(input[1]), input[2..]);
    assert lr == Some((len as int, PeerBody(f) + tail));
    ReadPeerBody(f, tail);
    var pr := ReadPayload(HighBit(input[1]), lr.value.0, lr.value.1);
    assert pr == Some((f.payload, tail));
    assert HighBit(head) == f.fin && Low4(head) == f.opcode;
  }

  /** The length reader recovers the length from every form the reference
      writes. */
  lemma ReadLengthOfPeerField(len: nat, masked: bool, after: Bytes)
    requires len < 0x8000_0000_0000_0000
    ensures var field := PeerLengthField(len, masked);
      && HighBit(field[0]) == masked
      && ReadLength(Low7(field[0]), field[1..] + after) == Some((len as int, after))
  {
    var field := PeerLengthField(len, masked);
    if 125 < len <= 0xFFFF {
      assert Pow256(2) == 0x1_0000;
      BytesOfValue(len, 2);
      assert (field[1..] + after)[..2] == BytesOf(len, 2);
      assert (field[1..] + after)[2..] == after;
    } else if 0xFFFF < len {
      assert Pow256(8) == 0x1_0000_0000_0000_0000;
      BytesOfValue(len, 8);
      assert (field[1..] + after)[..8] == BytesOf(len, 8);
      assert (field[1..] + after)[8..] == after;
    } else {
      assert field[1..] + after == after;
    }
  }
}
