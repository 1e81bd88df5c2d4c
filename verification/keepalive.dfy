/** The registry and the decoder together: what one `wsReadFrom` call does
    to a peer's entry for the frames a client sends, the keepalive timeline
    of a freshly registered peer, and the fate of an address after
    `wsDisconnect`. */
module Keepalive {
  import opened Base
  import opened Encoder
  import opened Decoder
  import opened Peer
  import opened Reassembly
  import opened RoundTrip
  import opened Registry

  /** A pong from a registered peer that has not timed out refreshes its
      last sign of life to `now`; its payload is returned. */
  lemma PongRefreshes(clients: Clients, address: Address, key: Option<Bytes>, data: Bytes, now: int)
    requires address in clients && !Expired(clients[address], now)
    requires WellFormed(PeerFrame(true, Pong, key, data))
    ensures var r := WsReadFrom(clients, address, Serialize(PeerFrame(true, Pong, key, data)), now);
      && r.result == Some([data])
      && address in r.clients
      && r.clients[address] == Client(clients[address].socket, now)
  {
    PongRequestsRefresh(key, data);
    assert [PongSeen][0] == PongSeen;
  }

  /** Data frames a client sends, masked or not, come back as the messages
      they group into, and the peer's entry is left exactly as it was: data
      does not count as a sign of life. */
  lemma DataLeavesEntry(clients: Clients, address: Address, fs: seq<PeerFrame>, now: int)
    requires address in clients && !Expired(clients[address], now)
    requires AllWellFormed(fs) && |fs| > 0 && IsData(fs[0].opcode)
    ensures var r := WsReadFrom(clients, address, Wire(fs), now);
      && r.result == Some(Messages(Received(fs)))
      && r.rest == []
      && address in r.clients
      && r.clients[address] == clients[address]
  {
    DataFramesDecode(fs);
  }

  /** A ping from a peer that has not timed out is answered on its socket
      with the empty pong, after the ping a quiet peer gets; its payload is
      returned and its entry is left as it was, since a ping is not a pong. */
  lemma PingAnswered(clients: Clients, address: Address, key: Option<Bytes>, data: Bytes, now: int)
    requires address in clients && !Expired(clients[address], now)
    requires WellFormed(PeerFrame(true, Ping, key, data))
    ensures var s := clients[address].socket;
      var r := WsReadFrom(clients, address, Serialize(PeerFrame(true, Ping, key, data)), now);
      && r.result == Some([data])
      && r.rest == []
      && address in r.clients
      && r.clients[address] == clients[address]
      && r.actions == (if Quiet(clients[address], now) then [Write(s, PingFrame())] else []) + [Write(s, [0x8A, 0x00])]
  {
    PingAnsweredWithEmptyPong(key, data);
    var s := clients[address].socket;
    var effects := [Reply([0x8A, 0x00])];
    assert !PongIn(effects);
    assert NoDisconnect(effects);
    assert ApplyEffects(clients, address, effects, now).actions == [Write(s, [0x8A, 0x00])];
  }

  /** A close from a peer that has not timed out: its payload is returned,
      the peer is dropped after a close frame with 1000 and the socket is
      shut, preceded only by the ping a quiet peer gets; what follows the
      close frame is left unread. */
  lemma ClientCloseDropsPeer(clients: Clients, address: Address, key: Option<Bytes>, data: Bytes,
                             tail: Bytes, now: int)
    requires address in clients && !Expired(clients[address], now)
    requires WellFormed(PeerFrame(true, Close, key, data))
    ensures var s := clients[address].socket;
      var r := WsReadFrom(clients, address, Serialize(PeerFrame(true, Close, key, data)) + tail, now);
      && r.result == Some([data])
      && r.rest == tail
      && address !in r.clients
      && r.actions == (if Quiet(clients[address], now) then [Write(s, PingFrame())] else [])
                      + [Write(s, CloseFrame(1000)), Shut(s)]
  {
    ClientCloseDisconnects(key, data, tail);
    var s := clients[address].socket;
    assert ApplyEffects(clients, address, [Disconnect(1000)], now).actions == [Write(s, CloseFrame(1000)), Shut(s)];
  }

  /** A peer registered at time `t` and read at `now`: within the ping
      interval it is read without a ping; within the timeout after that it
      is pinged first; later it is disconnected with 1001 and nothing is
      read. */
  lemma KeepaliveTimeline(clients: Clients, address: Address, socket: Socket, t: int, input: Bytes, now: int)
    ensures var r := WsReadFrom(Register(clients, address, socket, t), address, input, now);
      && (now <= t + PingAfter ==>
            r.result == ReadFrames(input).result && (|r.actions| == 0 || r.actions[0] != Write(socket, PingFrame())))
      && (t + PingAfter < now <= t + PingAfter + PongWithin ==>
            r.result == ReadFrames(input).result && |r.actions| > 0 && r.actions[0] == Write(socket, PingFrame()))
      && (t + PingAfter + PongWithin < now ==>
            r.result.None? && address !in r.clients && r.actions == [Write(socket, CloseFrame(1001)), Shut(socket)])
  {
  }

  /** Once `wsDisconnect` has removed an address, reading from it and
      sending to it both return `false` and do nothing. */
  lemma DisconnectedIsGone(clients: Clients, address: Address, code: nat, input: Bytes, now: int,
                           data: Bytes, writes: seq<WriteResult>)
    ensures var d := WsDisconnect(clients, address, code);
      && WsReadFrom(d.clients, address, input, now) == ReadOutcome(None, input, d.clients, [])
      && WsSendTo(d.clients, address, data, writes) == Some((false, []))
  {
  }
}
