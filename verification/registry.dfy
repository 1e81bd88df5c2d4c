/** The connection registry `$wsClients` of src/WebSocketServer.php and
    the operations on it: disconnecting, the pong refresh, reading with the
    keepalive thresholds, and sending. The registry maps a peer address to
    the socket and the time of the last sign of life; `time()` is the `now`
    parameter, and sockets are plain identifiers whose reads and writes are
    recorded as actions. */
module Registry {
  import opened Base
  import opened Encoder
  import opened Decoder

  type Address = string
  type Socket = nat

  /** `[$client, time()]`. */
  datatype Client = Client(socket: Socket, last: int)

  type Clients = map<Address, Client>

  /** `$wsConnectionPing`: seconds of silence before a ping is sent. */
  const PingAfter: int := 60
  /** `$wsConnectionTimeout`: further seconds before the peer is dropped. */
  const PongWithin: int := 10

  /** What the server does to sockets, in order. */
  datatype Action =
    | Write(socket: Socket, bytes: Bytes)     // a frame handed to `_sendTo`
    | WriteText(socket: Socket, text: string) // a handshake response
    | Shut(socket: Socket)                    // `socket_close`

  /** Every entry other than `address`'s is as it was. */
  ghost predicate OthersKept(before: Clients, after: Clients, address: Address)
  {
    forall a :: a != address ==> (a in after <==> a in before) && (a in before ==> after[a] == before[a])
  }

  datatype Disconnected = Disconnected(ok: bool, clients: Clients, actions: seq<Action>)

  /** `wsDisconnect($address, $code)`: for a registered address, a close
      frame carrying the code as decimal text is sent, the socket closed
      and the entry removed. An unknown address is left alone. */
  function WsDisconnect(clients: Clients, address: Address, code: nat): (r: Disconnected)
    ensures r.ok <==> address in clients
    ensures address !in r.clients
    ensures OthersKept(clients, r.clients, address)
    ensures !r.ok ==> r.clients == clients && r.actions == []
    ensures r.ok ==> var s := clients[address].socket;
      r.actions == [Write(s, CloseFrame(code)), Shut(s)]
  {
    if address !in clients then Disconnected(false, clients, [])
    else
      var s := clients[address].socket;
      Disconnected(true, clients - {address}, [Write(s, CloseFrame(code)), Shut(s)])
  }

  /** `onPong`: the address's last sign of life becomes `now`. */
  function OnPong(clients: Clients, address: Address, now: int): (r: Clients)
    requires address in clients
    ensures address in r && r[address].last == now
    ensures r[address].socket == clients[address].socket
    ensures OthersKept(clients, r, address)
  {
    clients[address := clients[address].(last := now)]
  }

  /** The decoder asked for a pong refresh at some point. */
  predicate PongIn(effects: seq<Effect>)
  {
    exists i :: 0 <= i < |effects| && effects[i] == PongSeen
  }

  datatype Applied = Applied(clients: Clients, actions: seq<Action>)

  /** Carrying out, in order, what `readFramesFrom` asked for while reading
      the socket of `address`: replies are written to that socket, a pong
      refreshes the entry, and a disconnect (only ever the last effect)
      sends the close frame, closes the socket and removes the entry. */
  function ApplyEffects(clients: Clients, address: Address, effects: seq<Effect>, now: int): (r: Applied)
    requires address in clients
    requires DisconnectOnlyLast(effects)
    ensures OthersKept(clients, r.clients, address)
    ensures address in r.clients <==> NoDisconnect(effects)
    ensures address in r.clients ==> r.clients[address].socket == clients[address].socket
    ensures address in r.clients ==>
      r.clients[address].last == (if PongIn(effects) then now else clients[address].last)
    ensures forall i :: 0 <= i < |r.actions| ==> r.actions[i].socket == clients[address].socket
    ensures !NoDisconnect(effects) ==>
      var s := clients[address].socket;
      && |r.actions| >= 2
      && r.actions[|r.actions| - 2..] == [Write(s, CloseFrame(effects[|effects| - 1].code)), Shut(s)]
  {
    EffectActionsEndWithClose(clients[address].socket, effects);
    Applied(EffectClients(clients, address, effects, now), EffectActions(clients[address].socket, effects))
  }

  /** The registry after the effects: a pong refreshes the entry and a
      disconnect removes it, as `wsDisconnect` does. */
  function EffectClients(clients: Clients, address: Address, effects: seq<Effect>, now: int): (r: Clients)
    requires address in clients
    requires DisconnectOnlyLast(effects)
    ensures OthersKept(clients, r, address)
    ensures address in r <==> NoDisconnect(effects)
    ensures address in r ==> r[address].socket == clients[address].socket
    ensures address in r ==> r[address].last == (if PongIn(effects) then now else clients[address].last)
    decreases |effects|
  {
    if |effects| == 0 then clients
    else
      var e := effects[0];
      if e.Disconnect? then
        assert |effects| == 1;
        WsDisconnect(clients, address, e.code).clients
      else
        var before := if e.PongSeen? then OnPong(clients, address, now) else clients;
        EffectsTail(effects);
        EffectClients(before, address, effects[1..], now)
  }

  /** What the effects write to and do with the peer's socket `s`: each
      reply is written, and a disconnect writes the close frame with its
      code and closes the socket, as `wsDisconnect` does. */
  function EffectActions(s: Socket, effects: seq<Effect>): (a: seq<Action>)
    ensures forall i :: 0 <= i < |a| ==> a[i].socket == s
    decreases |effects|
  {
    if |effects| == 0 then []
    else
      var rest := EffectActions(s, effects[1..]);
      match effects[0]
      case Disconnect(code) => [Write(s, CloseFrame(code)), Shut(s)]
      case PongSeen => rest
      case Reply(frame) => PrependActions([Write(s, frame)], rest, s); [Write(s, frame)] + rest
  }

  /** A disconnect, the last effect, ends the actions with the close frame
      for its code and the close of the socket. */
  lemma {:induction false} EffectActionsEndWithClose(s: Socket, effects: seq<Effect>)
    requires DisconnectOnlyLast(effects)
    ensures var a := EffectActions(s, effects);
      !NoDisconnect(effects) ==>
        |a| >= 2 && a[|a| - 2..] == [Write(s, CloseFrame(effects[|effects| - 1].code)), Shut(s)]
    decreases |effects|
  {
    if |effects| > 0 && !effects[0].Disconnect? {
      EffectsTail(effects);
      EffectActionsEndWithClose(s, effects[1..]);
      var rest := EffectActions(s, effects[1..]);
      SuffixKept(if effects[0].Reply? then [Write(s, effects[0].frame)] else [], rest);
    }
  }

  /** The frames the decoder asked to have written back, in order. */
  function ReplyFrames(effects: seq<Effect>): (w: seq<Bytes>)
    ensures |w| <= |effects|
    decreases |effects|
  {
    if |effects| == 0 then []
    else (if effects[0].Reply? then [effects[0].frame] else []) + ReplyFrames(effects[1..])
  }

  /** The effects' actions are exactly the replies, each written to the
      socket in the order asked for, followed by the two closing actions
      when the effects end with a disconnect. */
  lemma {:induction false} EffectActionsWriteReplies(s: Socket, effects: seq<Effect>)
    requires DisconnectOnlyLast(effects)
    ensures var a := EffectActions(s, effects);
      var w := ReplyFrames(effects);
      && |a| == |w| + (if NoDisconnect(effects) then 0 else 2)
      && forall i :: 0 <= i < |w| ==> a[i] == Write(s, w[i])
    decreases |effects|
  {
    if |effects| > 0 {
      match effects[0]
      case Disconnect(code) =>
        assert |effects| == 1;
        assert ReplyFrames(effects) == [] + ReplyFrames([]);
      case PongSeen =>
        EffectsTail(effects);
        EffectActionsWriteReplies(s, effects[1..]);
        assert ReplyFrames(effects) == [] + ReplyFrames(effects[1..]);
      case Reply(frame) =>
        EffectsTail(effects);
        EffectActionsWriteReplies(s, effects[1..]);
        var rest := EffectActions(s, effects[1..]);
        var w := ReplyFrames(effects[1..]);
        assert ReplyFrames(effects) == [frame] + w;
        forall i | 0 < i < |w| + 1 ensures ([Write(s, frame)] + rest)[i] == Write(s, ([frame] + w)[i]) {
          assert ([Write(s, frame)] + rest)[i] == rest[i - 1];
        }
    }
  }

  lemma EffectsTail(effects: seq<Effect>)
    requires |effects| > 0 && !effects[0].Disconnect?
    ensures PongIn(effects) <==> effects[0].PongSeen? || PongIn(effects[1..])
    ensures NoDisconnect(effects) <==> NoDisconnect(effects[1..])
    ensures !NoDisconnect(effects) ==> effects[|effects| - 1] == effects[1..][|effects[1..]| - 1]
    ensures DisconnectOnlyLast(effects) ==> DisconnectOnlyLast(effects[1..])
  {
    if PongIn(effects) {
      var i :| 0 <= i < |effects| && effects[i] == PongSeen;
      if i > 0 { assert effects[1..][i - 1] == PongSeen; }
    }
    if PongIn(effects[1..]) {
      var i :| 0 <= i < |effects[1..]| && effects[1..][i] == PongSeen;
      assert effects[i + 1] == PongSeen;
    }
    if NoDisconnect(effects[1..]) {
      forall i | 0 <= i < |effects| ensures !effects[i].Disconnect? {
        if i > 0 { assert effects[i] == effects[1..][i - 1]; }
      }
    }
  }

  /** A reply written before later actions on the same socket. */
  lemma PrependActions(head: seq<Action>, tail: seq<Action>, s: Socket)
    requires forall i :: 0 <= i < |head| ==> head[i].socket == s
    requires forall i :: 0 <= i < |tail| ==> tail[i].socket == s
    ensures forall i :: 0 <= i < |head + tail| ==> (head + tail)[i].socket == s
  {
    var a := head + tail;
    forall i | 0 <= i < |a| ensures a[i].socket == s {
      if i >= |head| { assert a[i] == tail[i - |head|]; }
    }
  }

  lemma SuffixKept(head: seq<Action>, tail: seq<Action>)
    ensures |tail| >= 2 ==> (head + tail)[|head + tail| - 2..] == tail[|tail| - 2..]
  {
  }

  datatype ReadOutcome = ReadOutcome(result: Option<seq<Bytes>>, rest: Bytes, clients: Clients, actions: seq<Action>)

  /** A registered peer silent for longer than ping plus timeout. */
  predicate Expired(c: Client, now: int)
  {
    c.last < now - (PingAfter + PongWithin)
  }

  /** A registered peer silent for longer than the ping interval. */
  predicate Quiet(c: Client, now: int)
  {
    c.last < now - PingAfter
  }

  /** `wsReadFrom($address)`: `false` for an unknown address; a peer whose
      last sign of life is too old is disconnected with 1001 and `false`
      returned; otherwise a quiet peer is pinged first, and then the frames
      waiting on its socket are read and what the decoder asked for is
      carried out. */
  function WsReadFrom(clients: Clients, address: Address, input: Bytes, now: int): (r: ReadOutcome)
    ensures address !in clients ==> r == ReadOutcome(None, input, clients, [])
    ensures OthersKept(clients, r.clients, address)
    ensures address in clients ==>
      forall i :: 0 <= i < |r.actions| ==> r.actions[i].socket == clients[address].socket
    ensures address in clients && Expired(clients[address], now) ==>
      var s := clients[address].socket;
      && r.result.None? && r.rest == input && address !in r.clients
      && r.actions == [Write(s, CloseFrame(1001)), Shut(s)]
    ensures address in clients && !Expired(clients[address], now) ==>
      var d := ReadFrames(input);
      && r.result == d.result && r.rest == d.rest
      && (address in r.clients <==> NoDisconnect(d.effects))
      && (address in r.clients ==> r.clients[address].socket == clients[address].socket)
      && (address in r.clients ==>
            r.clients[address].last == (if PongIn(d.effects) then now else clients[address].last))
      && (Quiet(clients[address], now) <==>
            |r.actions| > 0 && r.actions[0] == Write(clients[address].socket, PingFrame()))
  {
    if address !in clients then ReadOutcome(None, input, clients, [])
    else
      var c := clients[address];
      if Expired(c, now) then
        var d := WsDisconnect(clients, address, 1001);
        ReadOutcome(None, input, d.clients, d.actions)
      else
        var ping := if Quiet(c, now) then [Write(c.socket, PingFrame())] else [];
        var d := ReadFrames(input);
        var a := ApplyEffects(clients, address, d.effects, now);
        var r := ReadOutcome(d.result, d.rest, a.clients, ping + a.actions);
        assert !Quiet(c, now) ==> |r.actions| == 0 || r.actions[0] != Write(c.socket, PingFrame()) by {
          if !Quiet(c, now) && |r.actions| > 0 {
            RepliesAreEmptyPongs(input);
            ReplyIsNoPing(clients, address, d.effects, now);
          }
        }
        r
  }

  /** After the first k actions, the actions are the frames the effects ask
      to write back, each written to socket s in order, followed, when the
      effects end with a disconnect, by the close frame with its code and
      the close of the socket. */
  predicate ReplyWrites(a: seq<Action>, k: nat, s: Socket, effects: seq<Effect>)
  {
    var w := ReplyFrames(effects);
    && |a| == k + |w| + (if NoDisconnect(effects) then 0 else 2)
    && (forall i :: 0 <= i < |w| ==> a[k + i] == Write(s, w[i]))
    && (!NoDisconnect(effects) ==>
          && |effects| > 0 && effects[|effects| - 1].Disconnect?
          && a[|a| - 2..] == [Write(s, CloseFrame(effects[|effects| - 1].code)), Shut(s)])
  }

  /** What a read from a live peer writes: the keepalive ping if the peer
      is quiet, then every reply the decoder asked for, in order, and, when
      the decoder disconnected, the close frame with its code and the close
      of the socket. */
  lemma WsReadFromWrites(clients: Clients, address: Address, input: Bytes, now: int)
    requires address in clients && !Expired(clients[address], now)
    ensures ReplyWrites(WsReadFrom(clients, address, input, now).actions,
                        if Quiet(clients[address], now) then 1 else 0,
                        clients[address].socket, ReadFrames(input).effects)
  {
    var s := clients[address].socket;
    var ping := if Quiet(clients[address], now) then [Write(s, PingFrame())] else [];
    ReadActions(clients, address, input, now);
    PrefixedWrites(ping, s, ReadFrames(input).effects);
  }

  /** A read from a live peer does the optional ping, then the effects. */
  lemma ReadActions(clients: Clients, address: Address, input: Bytes, now: int)
    requires address in clients && !Expired(clients[address], now)
    ensures var s := clients[address].socket;
      WsReadFrom(clients, address, input, now).actions
        == (if Quiet(clients[address], now) then [Write(s, PingFrame())] else [])
           + EffectActions(s, ReadFrames(input).effects)
  {
  }

  lemma PrefixedWrites(ping: seq<Action>, s: Socket, effects: seq<Effect>)
    requires DisconnectOnlyLast(effects)
    ensures ReplyWrites(ping + EffectActions(s, effects), |ping|, s, effects)
  {
    var a := EffectActions(s, effects);
    EffectActionsWriteReplies(s, effects);
    EffectActionsEndWithClose(s, effects);
    if !NoDisconnect(effects) {
      var i :| 0 <= i < |effects| && effects[i].Disconnect?;
      assert (ping + a)[|ping + a| - 2..] == a[|a| - 2..];
    }
  }

  /** The decoder only ever replies with the empty pong, so nothing
      `readFramesFrom` causes starts with a ping. */
  lemma ReplyIsNoPing(clients: Clients, address: Address, effects: seq<Effect>, now: int)
    requires address in clients && DisconnectOnlyLast(effects)
    requires OnlyPongReplies(effects)
    ensures var a := ApplyEffects(clients, address, effects, now).actions;
      |a| > 0 ==> a[0] != Write(clients[address].socket, PingFrame())
  {
    NoPingFirst(clients[address].socket, effects);
  }

  lemma {:induction false} NoPingFirst(s: Socket, effects: seq<Effect>)
    requires OnlyPongReplies(effects)
    ensures var a := EffectActions(s, effects);
      |a| > 0 ==> a[0] != Write(s, PingFrame())
    decreases |effects|
  {
    if |effects| > 0 {
      match effects[0]
      case Disconnect(code) =>
        assert CloseFrame(code)[0] != PingFrame()[0];
      case PongSeen =>
        assert OnlyPongReplies(effects[1..]) by {
          forall i | 0 <= i < |effects[1..]| && effects[1..][i].Reply?
            ensures effects[1..][i].frame == EmptyPongFrame()
          {
            assert effects[1..][i] == effects[i + 1];
          }
        }
        NoPingFirst(s, effects[1..]);
      case Reply(frame) =>
        assert frame == EmptyPongFrame();
        assert frame[0] != PingFrame()[0];
    }
  }

  // ---------------------------------------------------------------------
  // Sending

  /** What one `socket_write` call reports: failure, or how many of the
      bytes it was given it took. */
  datatype WriteResult = WriteFailed | Wrote(count: nat)

  /** `_sendTo($socket, $data)` over the results of its successive
      `socket_write` calls: `Some((ok, sent))` with the value returned and
      the bytes that reached the socket, or `None` when the results run out
      before the loop ends (the source would go on writing). A write of 0
      bytes repeats the same write. */
  function SendAll(data: Bytes, writes: seq<WriteResult>): (r: Option<(bool, Bytes)>)
    ensures r.Some? ==> |r.value.1| <= |data| && r.value.1 == data[..|r.value.1|]
    ensures r.Some? && r.value.0 ==> r.value.1 == data
    ensures r.Some? && |data| > 0 ==> (r.value.0 <==> r.value.1 == data)
    decreases |writes|
  {
    if |writes| == 0 then None
    else if writes[0].WriteFailed? then Some((false, []))
    else
      var k := if writes[0].count < |data| then writes[0].count else |data|;
      if k == |data| then Some((true, data))
      else
        var r := SendAll(data[k..], writes[1..]);
        if r.None? then None else Some((r.value.0, data[..k] + r.value.1))
  }

  /** The bytes all reported writes add up to. */
  function Total(writes: seq<WriteResult>): nat
  {
    if |writes| == 0 then 0
    else (if writes[0].Wrote? then writes[0].count else 0) + Total(writes[1..])
  }

  predicate NoFailure(writes: seq<WriteResult>)
  {
    forall i :: 0 <= i < |writes| ==> writes[i].Wrote?
  }

  /** Writes that never fail and together take all the bytes deliver the
      whole frame and return `true`. */
  lemma {:induction false} SendAllDelivers(data: Bytes, writes: seq<WriteResult>)
    requires NoFailure(writes) && |writes| > 0 && |data| <= Total(writes)
    ensures SendAll(data, writes) == Some((true, data))
    decreases |writes|
  {
    var n := writes[0].count;
    if n < |data| {
      assert |writes| > 1;
      assert NoFailure(writes[1..]) by {
        forall i | 0 <= i < |writes| - 1 ensures writes[1..][i].Wrote? {
          assert writes[1..][i] == writes[i + 1];
        }
      }
      SendAllDelivers(data[n..], writes[1..]);
      assert data[..n] + data[n..] == data;
    }
  }

  /** A failed write before the bytes are all taken makes `_sendTo` return
      `false`, after the bytes the earlier writes took. */
  lemma {:induction false} SendAllFails(data: Bytes, ok: seq<WriteResult>, more: seq<WriteResult>)
    requires NoFailure(ok) && Total(ok) < |data|
    ensures SendAll(data, ok + [WriteFailed] + more) == Some((false, data[..Total(ok)]))
    decreases |ok|
  {
    var writes := ok + [WriteFailed] + more;
    if |ok| == 0 {
      assert writes[0] == WriteFailed;
    } else {
      var n := ok[0].count;
      assert writes[0] == ok[0];
      assert writes[1..] == ok[1..] + [WriteFailed] + more;
      assert NoFailure(ok[1..]) by {
        forall i | 0 <= i < |ok| - 1 ensures ok[1..][i].Wrote? {
          assert ok[1..][i] == ok[i + 1];
        }
      }
      SendAllFails(data[n..], ok[1..], more);
      assert data[..n] + data[n..][..Total(ok[1..])] == data[..Total(ok)];
    }
  }

  /** `wsSendTo($address, $data)`: `false` for an unknown address, otherwise
      a text frame written through `_sendTo`. */
  function WsSendTo(clients: Clients, address: Address, data: Bytes, writes: seq<WriteResult>): (r: Option<(bool, Bytes)>)
    ensures address !in clients ==> r == Some((false, []))
    ensures address in clients && r.Some? ==> (r.value.0 <==> r.value.1 == EncodeFrame(Text, data))
  {
    if address !in clients then Some((false, []))
    else SendAll(EncodeFrame(Text, data), writes)
  }

  /** Registration after a successful handshake: the entry for the address
      is set to the new socket and `now`, replacing any entry already there
      (the source only logs that case). */
  function Register(clients: Clients, address: Address, socket: Socket, now: int): (r: Clients)
    ensures address in r && r[address] == Client(socket, now)
    ensures OthersKept(clients, r, address)
  {
    clients[address := Client(socket, now)]
  }
}
