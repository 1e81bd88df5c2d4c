/** The frame decoder, `readFramesFrom` with its reader `_readFrom` in
    src/WebSocketServer.php, over a finite input consumed from the front.

    A read of n bytes that finds fewer than n left stands for the source's
    retry budget running out, which raises LengthException and makes the
    whole call return `false`. Finding no byte where a frame starts ends the
    call normally with the entries collected so far. */
module Decoder {
  import opened Base
  import opened Arith
  import opened Encoder

  /** One frame after its length field was read and its payload unmasked. */
  datatype Frame = Frame(fin: bool, opcode: Byte, payload: Bytes)

  /** What the decoder asks of the rest of the server while it runs. */
  datatype Effect =
    | Reply(frame: Bytes)      // a frame written back on the same socket
    | PongSeen                 // `onPong`: refresh the last-activity time
    | Disconnect(code: nat)    // `wsDisconnect` of the connection with this code

  /** The value `readFramesFrom` returns (`None` for PHP's `false`), the
      input left unread, and the effects in the order they happened. */
  datatype Decoded = Decoded(result: Option<seq<Bytes>>, rest: Bytes, effects: seq<Effect>)

  /** `_readFrom($socket, $n)` with `$need` set: exactly n bytes, or a
      shortfall when the input holds fewer. */
  function Take(input: Bytes, n: nat): (r: Option<(Bytes, Bytes)>)
    ensures r.Some? <==> n <= |input|
    ensures r.Some? ==> |r.value.0| == n && |r.value.1| == |input| - n
    ensures r.Some? ==> r.value.0 + r.value.1 == input
  {
    if n <= |input| then Some((input[..n], input[n..])) else None
  }

  /** The 64-bit PHP integer whose two's-complement bits are `u`. */
  function Signed64(u: nat): (r: int)
    ensures u < 0x8000_0000_0000_0000 ==> r == u
    ensures u < 0x1_0000_0000_0000_0000 ==>
      -0x8000_0000_0000_0000 <= r < 0x8000_0000_0000_0000 && r % 0x1_0000_0000_0000_0000 == u
  {
    if u >= 0x8000_0000_0000_0000 then u - 0x1_0000_0000_0000_0000 else u
  }

  /** The payload length: the 7-bit value, or 2 or 8 extension bytes read
      most significant first. Eight bytes fill a signed 64-bit integer, so a
      top bit of 1 gives a negative length. */
  function ReadLength(len7: Byte, input: Bytes): (r: Option<(int, Bytes)>)
    ensures r.Some? ==> |r.value.1| <= |input|
    ensures len7 < 126 ==> r == Some((len7 as int, input))
    ensures r.None? <==> (len7 == 126 && |input| < 2) || (len7 == 127 && |input| < 8)
    ensures len7 == 126 && 2 <= |input| ==> r == Some((BigEndian(input[..2]) as int, input[2..]))
    ensures len7 == 127 && 8 <= |input| ==> r == Some((Signed64(BigEndian(input[..8])), input[8..]))
  {
    if len7 == 126 then
      match Take(input, 2)
      case None => None
      case Some((ext, rest)) => Some((BigEndian(ext) as int, rest))
    else if len7 == 127 then
      match Take(input, 8)
      case None => None
      case Some((ext, rest)) => Some((Signed64(BigEndian(ext)), rest))
    else
      Some((len7 as int, input))
  }

  /** Masking per section 5.3 of RFC 6455: byte i is XORed with key byte
      i mod 4. Masking and unmasking are the same operation. */
  function ApplyMask(data: Bytes, key: Bytes): (r: Bytes)
    requires |key| == 4
    ensures |r| == |data|
    ensures forall i :: 0 <= i < |data| ==> r[i] == Xor(data[i], key[i % 4])
  {
    seq(|data|, i requires 0 <= i < |data| => Xor(data[i], key[i % 4]))
  }

  /** PHP's `$chunk ^ $mask` on strings: as long as the shorter operand. */
  function XorKey(chunk: Bytes, key: Bytes): (r: Bytes)
    requires |chunk| <= |key|
    ensures |r| == |chunk|
  {
    if |chunk| == 0 then [] else [Xor(chunk[0], key[0])] + XorKey(chunk[1..], key[1..])
  }

  /** The masked-payload loop: `$remaining` is `$length - $j`, and each pass
      reads `min($remaining, 4)` bytes and XORs them with the key. */
  function ReadMaskedChunks(input: Bytes, key: Bytes, remaining: int): (r: Option<(Bytes, Bytes)>)
    requires |key| == 4
    ensures r.Some? ==> |r.value.1| <= |input|
    decreases remaining
  {
    if remaining <= 0 then
      Some(([], input))
    else
      var n := if remaining < 4 then remaining else 4;
      match Take(input, n)
      case None => None
      case Some((chunk, rest)) =>
        match ReadMaskedChunks(rest, key, remaining - n)
        case None => None
        case Some((tail, left)) => Some((XorKey(chunk, key) + tail, left))
  }

  /** Reading `length` payload bytes, with the 4-byte key first when the
      mask bit is set. A length of zero or less reads no payload byte. */
  function ReadPayload(masked: bool, length: int, input: Bytes): (r: Option<(Bytes, Bytes)>)
    ensures r.Some? ==> |r.value.1| <= |input|
  {
    if masked then
      match Take(input, 4)
      case None => None
      case Some((key, body)) => ReadMaskedChunks(body, key, length)
    else if length <= 0 then
      Some(([], input))
    else
      Take(input, length)
  }

  /** One frame whose first byte is `input[0]`: FIN and opcode from byte 0,
      mask bit and 7-bit length from byte 1, then the extended length, the
      key and the payload. `None` is a shortfall. */
  function ParseFrame(input: Bytes): (r: Option<(Frame, Bytes)>)
    requires |input| >= 1
    ensures r.Some? ==> |r.value.1| < |input|
    ensures r.Some? ==> r.value.0.fin == HighBit(input[0]) && r.value.0.opcode == Low4(input[0])
  {
    if |input| < 2 then None
    else
      var length := ReadLength(Low7(input[1]), input[2..]);
      if length.None? then None
      else
        var payload := ReadPayload(HighBit(input[1]), length.value.0, length.value.1);
        if payload.None? then None
        else Some((Frame(HighBit(input[0]), Low4(input[0]), payload.value.0), payload.value.1))
  }

  /** An eight-byte length whose top bit is set is a negative PHP integer:
      the frame parses with an empty payload, masked or not, and the bytes
      it announced are left to be read as further frames. */
  lemma NegativeLengthEmptyPayload(b0: Byte, masked: bool, ext: Bytes, key: Bytes, rest: Bytes)
    requires |ext| == 8 && HighBit(ext[0])
    requires |key| == (if masked then 4 else 0)
    ensures Signed64(BigEndian(ext)) < 0
    ensures ParseFrame([b0, if masked then 0xFF else 0x7F] + ext + key + rest)
      == Some((Frame(HighBit(b0), Low4(b0), []), rest))
  {
    BigEndianBelow(ext);
    BigEndianAtLeastLead(ext);
    assert Pow256(7) == 0x100_0000_0000_0000;
    assert Pow256(8) == 0x1_0000_0000_0000_0000;
    var input := [b0, if masked then 0xFF else 0x7F] + ext + key + rest;
    assert input[2..] == ext + (key + rest);
    assert (ext + (key + rest))[..8] == ext;
    assert (ext + (key + rest))[8..] == key + rest;
    if masked {
      assert (key + rest)[..4] == key;
      assert (key + rest)[4..] == rest;
    }
  }

  /** The byte '0' is falsy in PHP, so a frame starting with it reads as
      "no byte available". */
  const FalsyByte: Byte := 0x30

  /** The entry at index `$frames` of `$result`, when it is set. */
  function OpenEntries(open: Option<Bytes>): seq<Bytes>
  {
    if open.Some? then [open.value] else []
  }

  predicate NoDisconnect(effects: seq<Effect>)
  {
    forall i :: 0 <= i < |effects| ==> !effects[i].Disconnect?
  }

  /** A disconnect, if any, is the last thing the decoder asks for. */
  predicate DisconnectOnlyLast(effects: seq<Effect>)
  {
    forall i :: 0 <= i < |effects| - 1 ==> !effects[i].Disconnect?
  }

  /** What happens after a frame with FIN set: either the loop goes on
      with new state, or the call ends with a value. */
  datatype Step =
    | Continue(done: seq<Bytes>, open: Option<Bytes>, effects: seq<Effect>)
    | Stop(result: Option<seq<Bytes>>, effects: seq<Effect>)

  /** The `switch ($opcode)` after a FIN frame, and the `unset` that
      follows it for opcodes other than 0x1 and 0x2. `entry` is the finished
      `$result[$frames]`. Line 253 unsets the index just past it, so the
      finished entry stays open and later payloads are appended to it. */
  function Complete(op: Byte, done: seq<Bytes>, entry: Bytes, effects: seq<Effect>): (s: Step)
    ensures s.Continue? ==> |done| <= |s.done| && s.done[..|done|] == done
    ensures s.Continue? ==> |effects| <= |s.effects| && s.effects[..|effects|] == effects
    ensures s.Continue? ==> (NoDisconnect(effects) ==> NoDisconnect(s.effects))
    ensures s.Stop? ==> |s.effects| == |effects| + 1 && s.effects[..|effects|] == effects
    ensures s.Stop? ==> s.effects[|effects|].Disconnect?
    ensures s.Stop? && s.result.Some? ==> |done| <= |s.result.value| && s.result.value[..|done|] == done
  {
    if op == Text || op == Binary then
      Continue(done + [entry], None, effects)
    else if op == Close then
      // `wsDisconnect` closes the socket: nothing more can be read
      Stop(Some(done + [entry]), effects + [Disconnect(1000)])
    else if op == Continuation then
      Stop(None, effects + [Disconnect(1002)])
    else if op == Ping then
      // the pong carries `$result[$frames]` after `$frames++`: unset, so empty
      Continue(done, Some(entry), effects + [Reply(EmptyPongFrame())])
    else if op == Pong then
      Continue(done, Some(entry), effects + [PongSeen])
    else
      Continue(done, Some(entry), effects)
  }

  /** The loop of `readFramesFrom`. `opcode` is the opcode captured from the
      first frame of the call, `done` the entries below `$frames`, `open`
      the entry at `$frames`, `effects` what was asked so far. */
  function Loop(input: Bytes, opcode: Option<Byte>, done: seq<Bytes>, open: Option<Bytes>,
                effects: seq<Effect>): Decoded
    decreases |input|, 1
  {
    if |input| == 0 then
      Decoded(Some(done + OpenEntries(open)), input, effects)
    else if input[0] == FalsyByte then
      Decoded(Some(done + OpenEntries(open)), input[1..], effects)
    else
      var p := ParseFrame(input);
      if p.None? then Decoded(None, [], effects)
      else Advance(p.value.0, p.value.1, opcode, done, open, effects)
  }

  /** The loop after it read `frame`, with `rest` still to read: the opcode
      is fixed by the first frame of the call, and the payload goes into the
      open entry. */
  function Advance(frame: Frame, rest: Bytes, opcode: Option<Byte>, done: seq<Bytes>,
                   open: Option<Bytes>, effects: seq<Effect>): Decoded
    decreases |rest|, 2
  {
    var op := if opcode.Some? then opcode.value else frame.opcode;
    var entry := (if open.Some? then open.value else []) + frame.payload;
    if !frame.fin then
      Loop(rest, Some(op), done, Some(entry), effects)
    else
      var s := Complete(op, done, entry, effects);
      if s.Continue? then Loop(rest, Some(op), s.done, s.open, s.effects)
      else Decoded(s.result, rest, s.effects)
  }

  /** What a run of the loop keeps of the state it started from: it leaves
      at most `n` bytes unread, it never takes back an effect or a finished
      entry, and it asks for a disconnect only as its very last effect. */
  predicate Keeps(r: Decoded, n: nat, done: seq<Bytes>, effects: seq<Effect>)
  {
    && |r.rest| <= n
    && |effects| <= |r.effects| && r.effects[..|effects|] == effects
    && (NoDisconnect(effects) ==> DisconnectOnlyLast(r.effects))
    && (r.result.Some? ==> |done| <= |r.result.value| && r.result.value[..|done|] == done)
  }

  lemma KeepsFrom(r: Decoded, n: nat, done: seq<Bytes>, effects: seq<Effect>,
                  done': seq<Bytes>, effects': seq<Effect>)
    requires Keeps(r, n, done', effects')
    requires |done| <= |done'| && done'[..|done|] == done
    requires |effects| <= |effects'| && effects'[..|effects|] == effects
    requires NoDisconnect(effects) ==> NoDisconnect(effects')
    ensures Keeps(r, n, done, effects)
  {
    assert r.effects[..|effects|] == r.effects[..|effects'|][..|effects|];
    if r.result.Some? {
      assert r.result.value[..|done|] == r.result.value[..|done'|][..|done|];
    }
  }

  lemma {:induction false} LoopInvariants(input: Bytes, opcode: Option<Byte>, done: seq<Bytes>,
                                          open: Option<Bytes>, effects: seq<Effect>)
    ensures Keeps(Loop(input, opcode, done, open, effects), |input|, done, effects)
    decreases |input|, 1
  {
    if |input| > 0 && input[0] != FalsyByte {
      var p := ParseFrame(input);
      if p.Some? {
        AdvanceInvariants(p.value.0, p.value.1, opcode, done, open, effects);
      }
    }
  }

  lemma {:induction false} AdvanceInvariants(frame: Frame, rest: Bytes, opcode: Option<Byte>,
                                             done: seq<Bytes>, open: Option<Bytes>, effects: seq<Effect>)
    ensures Keeps(Advance(frame, rest, opcode, done, open, effects), |rest|, done, effects)
    decreases |rest|, 2
  {
    var op := if opcode.Some? then opcode.value else frame.opcode;
    var entry := (if open.Some? then open.value else []) + frame.payload;
    if !frame.fin {
      LoopInvariants(rest, Some(op), done, Some(entry), effects);
    } else {
      var s := Complete(op, done, entry, effects);
      if s.Continue? {
        LoopInvariants(rest, Some(op), s.done, s.open, s.effects);
        KeepsFrom(Loop(rest, Some(op), s.done, s.open, s.effects), |rest|, done, effects, s.done, s.effects);
      } else if NoDisconnect(effects) {
        forall i | 0 <= i < |s.effects| - 1 ensures !s.effects[i].Disconnect? {
          assert s.effects[i] == s.effects[..|effects|][i];
        }
      }
    }
  }

  /** `readFramesFrom($socket)`. */
  function ReadFrames(input: Bytes): (r: Decoded)
    ensures |r.rest| <= |input|
    ensures DisconnectOnlyLast(r.effects)
  {
    LoopInvariants(input, None, [], None, []);
    Loop(input, None, [], None, [])
  }

  /** Every frame the decoder writes back is the empty pong. */
  predicate OnlyPongReplies(effects: seq<Effect>)
  {
    forall i :: 0 <= i < |effects| && effects[i].Reply? ==> effects[i].frame == EmptyPongFrame()
  }

  lemma CompleteReplies(op: Byte, done: seq<Bytes>, entry: Bytes, effects: seq<Effect>)
    requires OnlyPongReplies(effects)
    ensures OnlyPongReplies(Complete(op, done, entry, effects).effects)
  {
  }

  lemma {:induction false} LoopReplies(input: Bytes, opcode: Option<Byte>, done: seq<Bytes>,
                                       open: Option<Bytes>, effects: seq<Effect>)
    requires OnlyPongReplies(effects)
    ensures OnlyPongReplies(Loop(input, opcode, done, open, effects).effects)
    decreases |input|, 1
  {
    if |input| > 0 && input[0] != FalsyByte {
      var p := ParseFrame(input);
      if p.Some? {
        AdvanceReplies(p.value.0, p.value.1, opcode, done, open, effects);
      }
    }
  }

  lemma {:induction false} AdvanceReplies(frame: Frame, rest: Bytes, opcode: Option<Byte>,
                                          done: seq<Bytes>, open: Option<Bytes>, effects: seq<Effect>)
    requires OnlyPongReplies(effects)
    ensures OnlyPongReplies(Advance(frame, rest, opcode, done, open, effects).effects)
    decreases |rest|, 2
  {
    var op := if opcode.Some? then opcode.value else frame.opcode;
    var entry := (if open.Some? then open.value else []) + frame.payload;
    if !frame.fin {
      LoopReplies(rest, Some(op), done, Some(entry), effects);
    } else {
      var s := Complete(op, done, entry, effects);
      CompleteReplies(op, done, entry, effects);
      if s.Continue? {
        LoopReplies(rest, Some(op), s.done, s.open, s.effects);
      }
    }
  }

  /** The only frame `readFramesFrom` writes back on its own is the empty
      pong answering a ping. */
  lemma RepliesAreEmptyPongs(input: Bytes)
    ensures OnlyPongReplies(ReadFrames(input).effects)
  {
    LoopReplies(input, None, [], None, []);
  }
}
