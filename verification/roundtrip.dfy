/** The server's own frames read back through the server's decoder: frames
    up to 65535 bytes of payload come back as sent, longer ones do not, and
    the opcode of the first frame decides how everything after it is read. */
module RoundTrip {
  import opened Base
  import opened Arith
  import opened Encoder
  import opened Decoder
  import opened Peer
  import opened Reassembly

  /** For lengths the two- and one-byte forms cover, the server writes the
      length field exactly as the reference does for an unmasked frame. */
  lemma ShortLengthFieldsAgree(len: nat)
    requires len <= 0xFFFF
    ensures LengthField(len) == PeerLengthField(len, false)
  {
    if 125 < len {
      ShrByte8(len);
      assert BytesOf(len, 2) == BytesOf(len / 256, 1) + [len % 256];
      assert BytesOf(len / 256, 1) == [(len / 256) % 256];
    }
  }

  /** A server frame with at most 65535 payload bytes is the unmasked final
      frame of the reference serializer. */
  lemma ServerFrameIsPeerFrame(opcode: Byte, data: Bytes)
    requires opcode < 0x10 && |data| <= 0xFFFF
    ensures EncodeFrame(opcode, data) == Serialize(PeerFrame(true, opcode, None, data))
  {
    ShortLengthFieldsAgree(|data|);
    assert SetHighBit(opcode) == 0x80 + opcode;
  }

  /** What `wsSendTo` puts on the wire for a list of messages, one frame
      each. */
  function EncodeAll(opcode: Byte, messages: seq<Bytes>): Bytes
  {
    if |messages| == 0 then [] else EncodeFrame(opcode, messages[0]) + EncodeAll(opcode, messages[1..])
  }

  function ServerFrames(opcode: Byte, messages: seq<Bytes>): (r: seq<PeerFrame>)
    ensures |r| == |messages|
    ensures forall i :: 0 <= i < |messages| ==> r[i] == PeerFrame(true, opcode, None, messages[i])
  {
    seq(|messages|, i requires 0 <= i < |messages| => PeerFrame(true, opcode, None, messages[i]))
  }

  predicate Short(messages: seq<Bytes>)
  {
    forall i :: 0 <= i < |messages| ==> |messages[i]| <= 0xFFFF
  }

  lemma {:induction false} EncodeAllIsWire(opcode: Byte, messages: seq<Bytes>)
    requires opcode < 0x10 && Short(messages)
    ensures AllWellFormed(ServerFrames(opcode, messages))
    ensures EncodeAll(opcode, messages) == Wire(ServerFrames(opcode, messages))
  {
    var fs := ServerFrames(opcode, messages);
    if |messages| > 0 {
      EncodeAllIsWire(opcode, messages[1..]);
      assert fs[1..] == ServerFrames(opcode, messages[1..]);
      ServerFrameIsPeerFrame(opcode, messages[0]);
    }
  }

  /** Frames that are all final group into one entry each. */
  lemma {:induction false} GroupAllFinal(frames: seq<Frame>)
    requires forall i :: 0 <= i < |frames| ==> frames[i].fin
    ensures Group(frames, None).1 == None
    ensures |Group(frames, None).0| == |frames|
    ensures forall i :: 0 <= i < |frames| ==> Group(frames, None).0[i] == frames[i].payload
  {
    if |frames| > 0 {
      GroupAllFinal(frames[1..]);
      assert [] + frames[0].payload == frames[0].payload;
    }
  }

  /** Messages the server encodes with a data opcode, at most 65535 bytes
      each, decode back to the same messages in the same order. */
  lemma ServerRoundTrip(opcode: Byte, messages: seq<Bytes>)
    requires IsData(opcode) && Short(messages)
    ensures ReadFrames(EncodeAll(opcode, messages)) == Decoded(Some(messages), [], [])
  {
    if |messages| > 0 {
      EncodeAllIsWire(opcode, messages);
      ServerFramesDecode(opcode, messages);
    }
  }

  lemma ServerFramesDecode(opcode: Byte, messages: seq<Bytes>)
    requires IsData(opcode) && Short(messages) && |messages| > 0
    requires AllWellFormed(ServerFrames(opcode, messages))
    ensures ReadFrames(Wire(ServerFrames(opcode, messages))) == Decoded(Some(messages), [], [])
  {
    var fs := ServerFrames(opcode, messages);
    DataFramesDecode(fs);
    var frames := Received(fs);
    GroupAllFinal(frames);
    assert Group(frames, None).0 == messages;
    assert Messages(frames) == messages + [];
    assert messages + [] == messages;
  }

  /** The opcode of the first frame governs the call: a close frame after a
      text frame is taken as a second text message, and no disconnect is
      asked for. */
  lemma StickyOpcodeSwallowsClose(text: Bytes, reason: Bytes)
    requires |text| <= 0xFFFF && |reason| <= 0xFFFF
    ensures ReadFrames(EncodeFrame(Text, text) + EncodeFrame(Close, reason))
      == Decoded(Some([text, reason]), [], [])
  {
    TextThenCloseIsWire(text, reason);
    TextThenCloseDecode(text, reason);
  }

  function TextThenClose(text: Bytes, reason: Bytes): seq<PeerFrame>
  {
    [PeerFrame(true, Text, None, text), PeerFrame(true, Close, None, reason)]
  }

  lemma TextThenCloseIsWire(text: Bytes, reason: Bytes)
    requires |text| <= 0xFFFF && |reason| <= 0xFFFF
    ensures AllWellFormed(TextThenClose(text, reason))
    ensures Wire(TextThenClose(text, reason)) == EncodeFrame(Text, text) + EncodeFrame(Close, reason)
  {
    var fs := TextThenClose(text, reason);
    ServerFrameIsPeerFrame(Text, text);
    ServerFrameIsPeerFrame(Close, reason);
    assert fs[1..][1..] == [];
    assert Wire(fs[1..]) == Serialize(fs[1]) + [];
  }

  lemma TextThenCloseDecode(text: Bytes, reason: Bytes)
    requires AllWellFormed(TextThenClose(text, reason))
    ensures ReadFrames(Wire(TextThenClose(text, reason))) == Decoded(Some([text, reason]), [], [])
  {
    var fs := TextThenClose(text, reason);
    DataFramesDecode(fs);
    var frames := Received(fs);
    GroupAllFinal(frames);
    assert Group(frames, None).0 == [text, reason];
    assert Messages(frames) == [text, reason] + [];
    assert [text, reason] + [] == [text, reason];
  }

  /** The first frame of a server frame longer than 65535 bytes: the
      length field spells a shorter length, so only part of the payload is
      read as that frame's payload. */
  lemma LongFrameFirstRead(opcode: Byte, data: Bytes)
    requires opcode < 0x10 && 0xFFFF < |data|
    ensures var input := EncodeFrame(opcode, data);
      && input[0] != FalsyByte
      && ParseFrame(input).Some?
      && ParseFrame(input).value.0.fin
      && ParseFrame(input).value.0.opcode == opcode
      && |ParseFrame(input).value.0.payload| < |data|
  {
    var input := EncodeFrame(opcode, data);
    var len := |data|;
    var field := LengthField(len);
    LongLengthUnderstated(len);
    var shown := BigEndian(field[1..]);
    assert input[1] == 127;
    assert input[2..] == field[1..] + data;
    assert Take(input[2..], 8) == Some((field[1..], data));
    assert ReadLength(Low7(input[1]), input[2..]) == Some((shown as int, data));
    assert ReadPayload(false, shown, data).Some?;
    assert |ReadPayload(false, shown, data).value.0| <= shown;
    assert Low4(input[0]) == opcode;
  }

  /** A server frame longer than 65535 bytes does not decode back to its
      payload when sent with a data opcode. */
  lemma LongFrameNotRoundTrip(opcode: Byte, data: Bytes)
    requires IsData(opcode) && 0xFFFF < |data|
    ensures ReadFrames(EncodeFrame(opcode, data)).result != Some([data])
  {
    LongFrameFirstRead(opcode, data);
    FirstEntryIsFirstPayload(EncodeFrame(opcode, data));
  }

  /** A final ping from a client is answered with an empty pong, and its
      payload is returned as an entry. */
  lemma PingAnsweredWithEmptyPong(key: Option<Bytes>, data: Bytes)
    requires WellFormed(PeerFrame(true, Ping, key, data))
    ensures ReadFrames(Serialize(PeerFrame(true, Ping, key, data)))
      == Decoded(Some([data]), [], [Reply([0x8A, 0x00])])
  {
    var f := PeerFrame(true, Ping, key, data);
    var input := Serialize(f);
    var frames := [Frame(true, Ping, data)];
    assert ParsesTo(input, frames, []) by {
      ParseSerialized(f, []);
      assert input + [] == input;
      ParsesCons(input, frames[0], [], [], []);
      assert [frames[0]] + [] == frames;
    }
    ControlDecode(input, frames);
    assert frames[1..] == [];
    assert AllPayloads(frames) == data by {
      assert AllPayloads(frames) == data + AllPayloads([]);
    }
    assert ControlEffects(Ping, frames) == [Reply(EmptyPongFrame())] by {
      assert ControlEffects(Ping, frames) == ControlEffect(Ping) + ControlEffects(Ping, []);
    }
  }

  /** A final close from a client asks for a disconnect with code 1000, and
      its payload is returned as an entry; what follows it is left unread. */
  lemma ClientCloseDisconnects(key: Option<Bytes>, data: Bytes, tail: Bytes)
    requires WellFormed(PeerFrame(true, Close, key, data))
    ensures ReadFrames(Serialize(PeerFrame(true, Close, key, data)) + tail)
      == Decoded(Some([data]), tail, [Disconnect(1000)])
  {
    var f := PeerFrame(true, Close, key, data);
    var input := Serialize(f) + tail;
    var frames := [Frame(true, Close, data)];
    assert ParsesTo(input, frames, tail) by {
      ParseSerialized(f, tail);
      ParsesCons(input, frames[0], tail, [], tail);
      assert [frames[0]] + [] == frames;
    }
    CloseFirstDisconnects(input, frames, tail);
    assert frames[1..] == [];
    assert AllPayloads(frames) == data by {
      assert AllPayloads(frames) == data + AllPayloads([]);
    }
  }

  /** A final pong from a client asks for a last-activity refresh, and its
      payload is returned as an entry. */
  lemma PongRequestsRefresh(key: Option<Bytes>, data: Bytes)
    requires WellFormed(PeerFrame(true, Pong, key, data))
    ensures ReadFrames(Serialize(PeerFrame(true, Pong, key, data))) == Decoded(Some([data]), [], [PongSeen])
  {
    var f := PeerFrame(true, Pong, key, data);
    var input := Serialize(f);
    var frames := [Frame(true, Pong, data)];
    assert ParsesTo(input, frames, []) by {
      ParseSerialized(f, []);
      assert input + [] == input;
      ParsesCons(input, frames[0], [], [], []);
      assert [frames[0]] + [] == frames;
    }
    ControlDecode(input, frames);
    assert frames[1..] == [];
    assert AllPayloads(frames) == data by {
      assert AllPayloads(frames) == data + AllPayloads([]);
    }
    assert ControlEffects(Pong, frames) == [PongSeen] by {
      assert ControlEffects(Pong, frames) == ControlEffect(Pong) + ControlEffects(Pong, []);
    }
  }
}
