/** What `readFramesFrom` makes of a run of frames, stated against the
    reference serializer of module Peer: how payloads are grouped into
    entries, which opcode governs a call, what each opcode asks of the
    server, and when the call returns `false`. */
module Reassembly {
  import opened Base
  import opened Arith
  import opened Encoder
  import opened Decoder
  import opened Peer

  function Cur(open: Option<Bytes>): Bytes
  {
    if open.Some? then open.value else []
  }

  /** The frames a run of peer frames reads back as. */
  function Received(fs: seq<PeerFrame>): (r: seq<Frame>)
    ensures |r| == |fs|
    ensures forall i :: 0 <= i < |fs| ==> r[i] == Frame(fs[i].fin, fs[i].opcode, fs[i].payload)
  {
    seq(|fs|, i requires 0 <= i < |fs| => Frame(fs[i].fin, fs[i].opcode, fs[i].payload))
  }

  /** `input` holds these frames, each starting with a truthy byte, and then
      `tail`. */
  predicate ParsesTo(input: Bytes, frames: seq<Frame>, tail: Bytes)
    decreases |frames|
  {
    if |frames| == 0 then input == tail
    else
      && |input| > 0
      && input[0] != FalsyByte
      && var p := ParseFrame(input);
      && p.Some?
      && p.value.0 == frames[0]
      && ParsesTo(p.value.1, frames[1..], tail)
  }

  lemma ParsesCons(input: Bytes, frame: Frame, rest: Bytes, frames: seq<Frame>, tail: Bytes)
    requires |input| > 0 && input[0] != FalsyByte && ParseFrame(input) == Some((frame, rest))
    requires ParsesTo(rest, frames, tail)
    ensures ParsesTo(input, [frame] + frames, tail)
  {
    assert ([frame] + frames)[1..] == frames;
  }

  /** A run of peer frames, written back to back, reads back frame by
      frame. */
  lemma {:induction false} WireParses(fs: seq<PeerFrame>, tail: Bytes)
    requires AllWellFormed(fs)
    ensures ParsesTo(Wire(fs) + tail, Received(fs), tail)
  {
    if |fs| == 0 {
      assert Wire(fs) + tail == tail;
    } else {
      var f := fs[0];
      var rest := Wire(fs[1..]) + tail;
      var input := Serialize(f) + rest;
      assert Wire(fs) + tail == input;
      WireParses(fs[1..], tail);
      assert ParsesTo(input, [Frame(f.fin, f.opcode, f.payload)] + Received(fs[1..]), tail) by {
        ParseSerialized(f, rest);
        ParsesCons(input, Frame(f.fin, f.opcode, f.payload), rest, Received(fs[1..]), tail);
      }
      assert [Frame(f.fin, f.opcode, f.payload)] + Received(fs[1..]) == Received(fs);
    }
  }

  /** Data messages as a reader should see them: payloads concatenated up to
      each frame with FIN set, one entry per message, in arrival order. The
      second component is a message still waiting for its FIN. */
  function Group(frames: seq<Frame>, open: Option<Bytes>): (seq<Bytes>, Option<Bytes>)
  {
    if |frames| == 0 then ([], open)
    else
      var e := Cur(open) + frames[0].payload;
      if frames[0].fin then
        var g := Group(frames[1..], None);
        ([e] + g.0, g.1)
      else Group(frames[1..], Some(e))
  }

  /** The entries, with an unfinished last message included. */
  function Messages(frames: seq<Frame>): seq<Bytes>
  {
    var g := Group(frames, None);
    g.0 + OpenEntries(g.1)
  }

  /** Every payload of a run of frames, in order. */
  function AllPayloads(frames: seq<Frame>): Bytes
  {
    if |frames| == 0 then [] else frames[0].payload + AllPayloads(frames[1..])
  }

  /** What one finished sequence asks of the server when the call's opcode
      is a control or reserved one. */
  function ControlEffect(c: Byte): seq<Effect>
  {
    if c == Ping then [Reply(EmptyPongFrame())]
    else if c == Pong then [PongSeen]
    else []
  }

  /** The effects of a run of frames under control opcode c: one per frame
      with FIN set. */
  function ControlEffects(c: Byte, frames: seq<Frame>): seq<Effect>
  {
    if |frames| == 0 then []
    else (if frames[0].fin then ControlEffect(c) else []) + ControlEffects(c, frames[1..])
  }

  predicate IsData(op: Byte)
  {
    op == Text || op == Binary
  }

  /** The opcode a frame is handled under: the one captured from the first
      frame of the call, or its own when it is that first frame. */
  function CallOpcode(opcode: Option<Byte>, frame: Frame): Byte
  {
    if opcode.Some? then opcode.value else frame.opcode
  }

  /** Reading the first of the frames hands the rest of the input to
      `Advance`. */
  lemma FirstFrame(input: Bytes, frames: seq<Frame>, tail: Bytes, opcode: Option<Byte>,
                   done: seq<Bytes>, open: Option<Bytes>, effects: seq<Effect>)
    requires ParsesTo(input, frames, tail) && |frames| > 0
    ensures ParsesTo(ParseFrame(input).value.1, frames[1..], tail)
    ensures Loop(input, opcode, done, open, effects)
      == Advance(frames[0], ParseFrame(input).value.1, opcode, done, open, effects)
  {
  }

  lemma AdvanceFragment(frame: Frame, rest: Bytes, opcode: Option<Byte>, done: seq<Bytes>,
                        open: Option<Bytes>, effects: seq<Effect>)
    requires !frame.fin
    ensures Advance(frame, rest, opcode, done, open, effects)
      == Loop(rest, Some(CallOpcode(opcode, frame)), done, Some(Cur(open) + frame.payload), effects)
  {
  }

  lemma AdvanceFinal(frame: Frame, rest: Bytes, opcode: Option<Byte>, done: seq<Bytes>,
                     open: Option<Bytes>, effects: seq<Effect>)
    requires frame.fin
    ensures var op := CallOpcode(opcode, frame);
      var s := Complete(op, done, Cur(open) + frame.payload, effects);
      Advance(frame, rest, opcode, done, open, effects)
        == if s.Continue? then Loop(rest, Some(op), s.done, s.open, s.effects)
           else Decoded(s.result, rest, s.effects)
  {
  }

  /** The first frame of a call is handled as if its own opcode had been
      captured and an empty entry were open. */
  lemma AdvanceFirst(frame: Frame, rest: Bytes, done: seq<Bytes>, effects: seq<Effect>)
    ensures Advance(frame, rest, None, done, None, effects)
      == Advance(frame, rest, Some(frame.opcode), done, Some([]), effects)
  {
    assert Cur(None) + frame.payload == Cur(Some([])) + frame.payload;
  }

  lemma GroupCons(frame: Frame, frames: seq<Frame>, open: Option<Bytes>)
    ensures var e := Cur(open) + frame.payload;
      Group([frame] + frames, open)
        == if frame.fin then ([e] + Group(frames, None).0, Group(frames, None).1)
           else Group(frames, Some(e))
  {
    assert ([frame] + frames)[1..] == frames;
  }

  /** Under a data opcode, frames go into entries as `Group` says, whatever
      opcode the later frames carry. */
  lemma {:induction false} DataLoop(input: Bytes, frames: seq<Frame>, tail: Bytes,
                                    opcode: Option<Byte>, op: Byte,
                                    done: seq<Bytes>, open: Option<Bytes>, effects: seq<Effect>)
    requires ParsesTo(input, frames, tail) && IsData(op)
    requires opcode == Some(op) || (opcode.None? && |frames| > 0 && frames[0].opcode == op)
    ensures var g := Group(frames, open);
      Loop(input, opcode, done, open, effects)
        == Loop(tail, if |frames| == 0 then opcode else Some(op), done + g.0, g.1, effects)
    decreases |frames|, 1
  {
    if |frames| > 0 {
      var rest := ParseFrame(input).value.1;
      assert ParsesTo(rest, frames[1..], tail)
        && Loop(input, opcode, done, open, effects) == Advance(frames[0], rest, opcode, done, open, effects)
      by {
        FirstFrame(input, frames, tail, opcode, done, open, effects);
      }
      DataAdvance(frames[0], rest, frames[1..], tail, opcode, op, done, open, effects);
      assert [frames[0]] + frames[1..] == frames;
    } else {
      assert done + [] == done;
    }
  }

  lemma {:induction false} DataAdvance(frame: Frame, rest: Bytes, frames: seq<Frame>, tail: Bytes,
                                       opcode: Option<Byte>, op: Byte,
                                       done: seq<Bytes>, open: Option<Bytes>, effects: seq<Effect>)
    requires ParsesTo(rest, frames, tail) && IsData(op)
    requires opcode == Some(op) || (opcode.None? && frame.opcode == op)
    ensures var g := Group([frame] + frames, open);
      Advance(frame, rest, opcode, done, open, effects) == Loop(tail, Some(op), done + g.0, g.1, effects)
    decreases |frames| + 1, 0
  {
    var e := Cur(open) + frame.payload;
    GroupCons(frame, frames, open);
    DataStep(frame, rest, opcode, op, done, open, effects);
    if frame.fin {
      var g := Group(frames, None);
      assert Group([frame] + frames, open) == ([e] + g.0, g.1);
      DataLoop(rest, frames, tail, Some(op), op, done + [e], None, effects);
      assert done + [e] + g.0 == done + ([e] + g.0);
    } else {
      assert Group([frame] + frames, open) == Group(frames, Some(e));
      DataLoop(rest, frames, tail, Some(op), op, done, Some(e), effects);
    }
  }

  /** One frame under a data opcode: a final frame finishes an entry, any
      other frame extends the open one. */
  lemma DataStep(frame: Frame, rest: Bytes, opcode: Option<Byte>, op: Byte,
                 done: seq<Bytes>, open: Option<Bytes>, effects: seq<Effect>)
    requires IsData(op) && (opcode == Some(op) || (opcode.None? && frame.opcode == op))
    ensures var e := Cur(open) + frame.payload;
      Advance(frame, rest, opcode, done, open, effects)
        == if frame.fin then Loop(rest, Some(op), done + [e], None, effects)
           else Loop(rest, Some(op), done, Some(e), effects)
  {
  }

  /** Frames whose first opcode is text or binary decode to their messages,
      in order, with nothing asked of the server. */
  lemma DataDecode(input: Bytes, frames: seq<Frame>)
    requires ParsesTo(input, frames, []) && |frames| > 0 && IsData(frames[0].opcode)
    ensures ReadFrames(input) == Decoded(Some(Messages(frames)), [], [])
  {
    DataLoop(input, frames, [], None, frames[0].opcode, [], None, []);
    assert [] + Group(frames, None).0 == Group(frames, None).0;
  }

  /** The same, for frames as a client writes them. */
  lemma DataFramesDecode(fs: seq<PeerFrame>)
    requires AllWellFormed(fs) && |fs| > 0 && IsData(fs[0].opcode)
    ensures ReadFrames(Wire(fs)) == Decoded(Some(Messages(Received(fs))), [], [])
  {
    WireParses(fs, []);
    assert Wire(fs) + [] == Wire(fs);
    DataDecode(Wire(fs), Received(fs));
  }

  /** A falsy byte where a frame should start ends the call with what was
      collected; the byte itself is consumed. */
  lemma FalsyByteEndsCall(input: Bytes, frames: seq<Frame>, tail: Bytes)
    requires ParsesTo(input, frames, [FalsyByte] + tail) && |frames| > 0 && IsData(frames[0].opcode)
    ensures ReadFrames(input) == Decoded(Some(Messages(frames)), tail, [])
  {
    DataLoop(input, frames, [FalsyByte] + tail, None, frames[0].opcode, [], None, []);
    assert ([FalsyByte] + tail)[1..] == tail;
    assert [] + Group(frames, None).0 == Group(frames, None).0;
  }

  /** A frame cut short after complete messages makes the whole call
      `false`: the entries read before it are lost. */
  lemma ShortfallDiscardsEntries(input: Bytes, frames: seq<Frame>, cut: Bytes)
    requires ParsesTo(input, frames, cut) && |frames| > 0 && IsData(frames[0].opcode)
    requires |cut| > 0 && cut[0] != FalsyByte && ParseFrame(cut).None?
    ensures ReadFrames(input) == Decoded(None, [], [])
  {
    DataLoop(input, frames, cut, None, frames[0].opcode, [], None, []);
  }

  /** When the first frame of a call is final and carries a data opcode,
      its payload is the first entry of any list the call returns. */
  lemma FirstEntryIsFirstPayload(input: Bytes)
    requires |input| > 0 && input[0] != FalsyByte && ParseFrame(input).Some?
    requires ParseFrame(input).value.0.fin && IsData(ParseFrame(input).value.0.opcode)
    ensures var r := ReadFrames(input);
      r.result.Some? ==> |r.result.value| >= 1 && r.result.value[0] == ParseFrame(input).value.0.payload
  {
    var frame, rest := ParseFrame(input).value.0, ParseFrame(input).value.1;
    var q := frame.payload;
    assert Advance(frame, rest, None, [], None, []) == Loop(rest, Some(frame.opcode), [q], None, []) by {
      DataStep(frame, rest, None, frame.opcode, [], None, []);
      assert Cur(None) + q == q;
      assert [] + [q] == [q];
    }
    LoopInvariants(rest, Some(frame.opcode), [q], None, []);
    var r := Loop(rest, Some(frame.opcode), [q], None, []);
    if r.result.Some? {
      assert r.result.value[..1] == [q];
    }
  }

  predicate IsControl(c: Byte)
  {
    !IsData(c) && c != Close && c != Continuation
  }

  /** Under a control or reserved opcode every payload lands in one entry
      and each finished sequence asks for that opcode's effect. */
  lemma {:induction false} ControlLoop(input: Bytes, frames: seq<Frame>, tail: Bytes, c: Byte,
                                       open: Bytes, effects: seq<Effect>)
    requires ParsesTo(input, frames, tail) && IsControl(c)
    ensures Loop(input, Some(c), [], Some(open), effects)
      == Loop(tail, Some(c), [], Some(open + AllPayloads(frames)), effects + ControlEffects(c, frames))
    decreases |frames|, 1
  {
    if |frames| == 0 {
      assert open + [] == open;
      assert effects + [] == effects;
    } else {
      var rest := ParseFrame(input).value.1;
      assert ParsesTo(rest, frames[1..], tail)
        && Loop(input, Some(c), [], Some(open), effects) == Advance(frames[0], rest, Some(c), [], Some(open), effects)
      by {
        FirstFrame(input, frames, tail, Some(c), [], Some(open), effects);
      }
      ControlAdvance(frames[0], rest, frames[1..], tail, c, open, effects);
      assert [frames[0]] + frames[1..] == frames;
    }
  }

  lemma {:induction false} ControlAdvance(frame: Frame, rest: Bytes, frames: seq<Frame>, tail: Bytes,
                                          c: Byte, open: Bytes, effects: seq<Effect>)
    requires ParsesTo(rest, frames, tail) && IsControl(c)
    ensures var fs := [frame] + frames;
      Advance(frame, rest, Some(c), [], Some(open), effects)
        == Loop(tail, Some(c), [], Some(open + AllPayloads(fs)), effects + ControlEffects(c, fs))
    decreases |frames| + 1, 0
  {
    var fs := [frame] + frames;
    assert fs[1..] == frames && fs[0] == frame;
    var e := open + frame.payload;
    var effs := effects + (if frame.fin then ControlEffect(c) else []);
    ControlStep(frame, rest, c, open, effects);
    ControlLoop(rest, frames, tail, c, e, effs);
    PayloadsCons(open, frame, frames);
    EffectsCons(effects, c, frame, frames);
  }

  lemma PayloadsCons(open: Bytes, frame: Frame, frames: seq<Frame>)
    ensures open + frame.payload + AllPayloads(frames) == open + AllPayloads([frame] + frames)
  {
    assert ([frame] + frames)[1..] == frames;
  }

  lemma EffectsCons(effects: seq<Effect>, c: Byte, frame: Frame, frames: seq<Frame>)
    ensures effects + (if frame.fin then ControlEffect(c) else []) + ControlEffects(c, frames)
      == effects + ControlEffects(c, [frame] + frames)
  {
    assert ([frame] + frames)[1..] == frames;
  }

  /** One frame under a control opcode: its payload joins the open entry,
      and a final frame adds the opcode's effect. */
  lemma ControlStep(frame: Frame, rest: Bytes, c: Byte, open: Bytes, effects: seq<Effect>)
    requires IsControl(c)
    ensures Advance(frame, rest, Some(c), [], Some(open), effects)
      == Loop(rest, Some(c), [], Some(open + frame.payload),
              effects + (if frame.fin then ControlEffect(c) else []))
  {
    assert effects + [] == effects;
    if frame.fin {
      var e := open + frame.payload;
      assert Complete(c, [], e, effects) == Continue([], Some(e), effects + ControlEffect(c));
    }
  }

  /** Frames whose first opcode is ping, pong or reserved decode to a single
      entry holding every payload: the control payload is never dropped. A
      ping is answered with an empty pong per finished sequence, a pong asks
      for a last-activity refresh. */
  lemma ControlDecode(input: Bytes, frames: seq<Frame>)
    requires ParsesTo(input, frames, []) && |frames| > 0 && IsControl(frames[0].opcode)
    ensures ReadFrames(input)
      == Decoded(Some([AllPayloads(frames)]), [], ControlEffects(frames[0].opcode, frames))
  {
    var frame, rest := frames[0], ParseFrame(input).value.1;
    var c := frame.opcode;
    assert Loop(input, None, [], None, []) == Advance(frame, rest, Some(c), [], Some([]), []) by {
      FirstFrame(input, frames, [], None, [], None, []);
      AdvanceFirst(frame, rest, [], []);
    }
    assert Advance(frame, rest, Some(c), [], Some([]), [])
      == Loop([], Some(c), [], Some(AllPayloads(frames)), ControlEffects(c, frames))
    by {
      FirstFrame(input, frames, [], None, [], None, []);
      ControlAdvance(frame, rest, frames[1..], [], c, [], []);
      assert [frame] + frames[1..] == frames;
      assert [] + AllPayloads(frames) == AllPayloads(frames);
      assert [] + ControlEffects(c, frames) == ControlEffects(c, frames);
    }
    assert [] + [AllPayloads(frames)] == [AllPayloads(frames)];
  }

  /** A sequence of non-final frames closed by one final frame. */
  predicate OneSequence(frames: seq<Frame>)
  {
    && |frames| > 0
    && frames[|frames| - 1].fin
    && forall i :: 0 <= i < |frames| - 1 ==> !frames[i].fin
  }

  /** How the decoder goes through one complete sequence at the start of a
      call: it gathers every payload into one entry and then takes the step
      that the call's opcode selects. */
  lemma {:induction false} SequenceRun(input: Bytes, frames: seq<Frame>, tail: Bytes,
                                       opcode: Option<Byte>, open: Option<Bytes>)
    requires ParsesTo(input, frames, tail) && OneSequence(frames)
    ensures var op := CallOpcode(opcode, frames[0]);
      var s := Complete(op, [], Cur(open) + AllPayloads(frames), []);
      Loop(input, opcode, [], open, [])
        == if s.Continue? then Loop(tail, Some(op), s.done, s.open, s.effects)
           else Decoded(s.result, tail, s.effects)
    decreases |frames|, 1
  {
    var rest := ParseFrame(input).value.1;
    assert ParsesTo(rest, frames[1..], tail)
      && Loop(input, opcode, [], open, []) == Advance(frames[0], rest, opcode, [], open, [])
    by {
      FirstFrame(input, frames, tail, opcode, [], open, []);
    }
    SequenceAdvance(frames[0], rest, frames[1..], tail, opcode, open);
    assert [frames[0]] + frames[1..] == frames;
  }

  lemma {:induction false} SequenceAdvance(frame: Frame, rest: Bytes, frames: seq<Frame>, tail: Bytes,
                                           opcode: Option<Byte>, open: Option<Bytes>)
    requires ParsesTo(rest, frames, tail) && OneSequence([frame] + frames)
    ensures var op := CallOpcode(opcode, frame);
      var s := Complete(op, [], Cur(open) + AllPayloads([frame] + frames), []);
      Advance(frame, rest, opcode, [], open, [])
        == if s.Continue? then Loop(tail, Some(op), s.done, s.open, s.effects)
           else Decoded(s.result, tail, s.effects)
    decreases |frames| + 1, 0
  {
    var fs := [frame] + frames;
    assert fs[1..] == frames && fs[0] == frame;
    var op := CallOpcode(opcode, frame);
    var e := Cur(open) + frame.payload;
    if |frames| == 0 {
      assert rest == tail;
      AdvanceFinal(frame, rest, opcode, [], open, []);
      assert AllPayloads(fs) == frame.payload + [];
      assert Cur(open) + AllPayloads(fs) == e;
    } else {
      assert !frame.fin;
      assert Advance(frame, rest, opcode, [], open, []) == Loop(rest, Some(op), [], Some(e), []) by {
        AdvanceFragment(frame, rest, opcode, [], open, []);
      }
      assert OneSequence(frames) by {
        assert forall i :: 0 <= i < |frames| ==> frames[i] == fs[i + 1];
      }
      SequenceRun(rest, frames, tail, Some(op), Some(e));
      PayloadsCons(Cur(open), frame, frames);
    }
  }

  /** A close sequence first in the call asks for `wsDisconnect` with code
      1000 and returns its payload as the only entry; the socket is closed,
      so nothing after it is read. */
  lemma CloseFirstDisconnects(input: Bytes, frames: seq<Frame>, tail: Bytes)
    requires ParsesTo(input, frames, tail) && OneSequence(frames) && frames[0].opcode == Close
    ensures ReadFrames(input) == Decoded(Some([AllPayloads(frames)]), tail, [Disconnect(1000)])
  {
    SequenceRun(input, frames, tail, None, None);
    assert [] + AllPayloads(frames) == AllPayloads(frames);
  }

  /** A continuation opcode on the first frame of the call is a protocol
      error: disconnect with code 1002 and return `false`. */
  lemma ContinuationFirstDisconnects(input: Bytes, frames: seq<Frame>, tail: Bytes)
    requires ParsesTo(input, frames, tail) && OneSequence(frames) && frames[0].opcode == Continuation
    ensures ReadFrames(input) == Decoded(None, tail, [Disconnect(1002)])
  {
    SequenceRun(input, frames, tail, None, None);
  }
}
