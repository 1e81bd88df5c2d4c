# WebSocketServer: the RFC 6455 engine as a Dafny model

`src/WebSocketServer.php` is a small PHP WebSocket server. This project
models its protocol engine as pure Dafny functions and proves what it does,
quirks included:

- the opening handshake of `wsListen`: reading the request one character at
  a time, the header map, the 400/101 verdict and the response text;
- the frame encoder `sendFrameTo` and the socket writer `_sendTo`;
- the frame decoder `readFramesFrom` with its reader `_readFrom`;
- the connection registry `$wsClients` with its keepalive: `wsReadFrom`,
  `wsSendTo`, `doPing`, `onPong`, `wsDisconnect`, and registration after a
  handshake.

Sockets become values. Bytes waiting on a socket are a `seq<Byte>` the
decoder consumes from the front. What the server writes or closes is a
list of `Action`s. The results of successive `socket_write` calls are a
list of `WriteResult`s. `time()` is a `now` parameter. The SHA-1 and base64
steps of the accept value are a function `acceptOf` passed by the caller.

Modules, in dependency order:

- `Arith`, `Base` (`arith.dfy`, `base.dfy`): bytes, shifts, PHP string
  truthiness, byte XOR and decimal text.
- `Encoder` (`encoder.dfy`): `sendFrameTo`.
- `Decoder` (`decoder.dfy`): `readFramesFrom` and `_readFrom`.
- `Peer` (`peer.dfy`): a reference serializer for client frames, following
  section 5.2 of RFC 6455. The decoder is checked against it.
- `Reassembly` (`reassembly.dfy`): what the decoder makes of runs of
  frames.
- `RoundTrip` (`roundtrip.dfy`): the server's own frames read back.
- `Registry` (`registry.dfy`): `$wsClients`, `wsReadFrom`, `wsSendTo`,
  `_sendTo`, `onPong`, `wsDisconnect`.
- `Handshake` (`handshake.dfy`): the request reader, `explode`, `trim`, the
  header map, the verdict and the response.
- `Listening` (`listen.dfy`): the accept loop of `wsListen`.
- `Keepalive` (`keepalive.dfy`): registry and decoder together.

The model follows the code, not the RFC, wherever the two differ. Each of
these behaviours is stated and proved:

- The eight-byte length form writes the byte `len >> 64` and leaves out
  `len >> 8`. For every length over 65535 the field therefore spells a
  smaller number, and such frames do not survive a round trip.
- The first frame's opcode governs the whole call. A close frame that
  follows a text frame is returned as a second text message.
- For a control opcode, line 253 unsets the index past the finished entry.
  The entry stays open, and later payloads are appended to it.
- A ping is answered with an empty pong, because `$result[$frames]` is
  read after `$frames++`.
- `wsDisconnect` sends the close code as decimal text ("1000"), not as the
  two-byte status of section 5.5.1 of RFC 6455.
- A byte `'0'` (0x30) where a frame should start is falsy in PHP, so it
  reads as "no more data" and ends the call.
- `!($headers['Sec-WebSocket-Version']) == 13` compares a boolean with 13.
  Any truthy version is therefore accepted.
- A request line or header line equal to `"0"` ends the header block, like
  a blank line.
- A refused handshake makes `wsListen` return `true`. The work collected
  for earlier connections is dropped, but those peers stay registered.

## Model

| member | source | states |
|---|---|---|
| Base.Low7 | src/WebSocketServer.php:210 | `& 0b01111111` is below 128 and strips exactly the mask/FIN bit |
| Base.SetHighBit | src/WebSocketServer.php:287 | `0b10000000 \| opcode` has the high bit set and keeps the low seven bits |
| Base.XorInvolution | src/WebSocketServer.php:225 | XOR-ing a byte with the same key byte twice gives the byte back |
| Base.DecimalBytes | src/WebSocketServer.php:347 | an integer code passed as frame data becomes its decimal digits: digits only, a single digit exactly below 10 |
| Base.DecimalRoundTrip | src/WebSocketServer.php:347 | the decimal text of a close code reads back as the code |
| Encoder.LengthField | src/WebSocketServer.php:289-303 | one byte up to 125; 126 and two bytes that spell the length below 65536; otherwise 127 and eight bytes, the first of them 0 (the `>> 64` byte) and the last the low byte |
| Encoder.ShrByteValue | src/WebSocketServer.php:295-302 | `($length >> k) & 0b11111111` is the length divided by 2^k modulo 256, and 0 once k reaches 64 |
| Arith.ShrIsDiv | src/WebSocketServer.php:292 | `>>` by k on a non-negative integer is division by 2^k rounded down |
| Encoder.LongLengthFieldValue | src/WebSocketServer.php:295-302 | for every length over 65535 the eight bytes spell bits 16 to 63 of the length followed by its low byte: `(len / 2^16) mod 2^48 * 256 + len mod 256`, the byte `len >> 8` being left out |
| Encoder.EncodeFrame | src/WebSocketServer.php:285-305 | FIN and opcode in byte 0, then the length field, then the payload unchanged at the end |
| Encoder.LongLengthUnderstated | src/WebSocketServer.php:295-302 | so for every length over 65535 the eight length bytes spell a number strictly smaller than the length and below 2^56 |
| Encoder.PingFrame | src/WebSocketServer.php:326-330 | `doPing` writes exactly 0x89 0x03 "hey" |
| Encoder.CloseFrame | src/WebSocketServer.php:343-349 | the close frame has byte 0 equal to 0x88 and ends with the code's decimal digits |
| Encoder.CloseFrameCarriesCode | src/WebSocketServer.php:347 | for four-digit codes the close frame is six bytes, its length byte is 4, and its payload reads back as the code |
| Encoder.EmptyPongFrame | src/WebSocketServer.php:241 | the pong answering a ping is exactly 0x8A 0x00 |
| Decoder.Take | src/WebSocketServer.php:263-283 | a read with `$need` yields exactly the next n bytes and leaves the rest, and fails exactly when fewer are left |
| Decoder.Signed64 | src/WebSocketServer.php:216-217 | eight length bytes become the signed 64-bit integer with the same bits: below 2^63 the value itself, otherwise a negative number congruent to it modulo 2^64 |
| Decoder.ReadLength | src/WebSocketServer.php:208-217 | a 7-bit value below 126 is the length itself; 126 takes the number the next two bytes spell; 127 takes the next eight bytes as a signed 64-bit integer; the bytes after the field are left; the read fails exactly when the 2 or 8 extension bytes are missing |
| Decoder.NegativeLengthEmptyPayload | src/WebSocketServer.php:215-228 | an eight-byte length with its top bit set is negative, so the frame parses with an empty payload, masked or not, and the bytes it announced are left to be parsed as further frames |
| Decoder.ParseFrame | src/WebSocketServer.php:198-229 | FIN and opcode come from byte 0, and a parsed frame consumes at least one byte |
| Decoder.Complete | src/WebSocketServer.php:231-254 | the switch after a final frame never takes back an entry or an effect, and ends the call only by adding one disconnect |
| Decoder.LoopInvariants | src/WebSocketServer.php:197-255 | a run of the loop consumes input, keeps the entries and effects it started with, and asks for a disconnect only as its last effect |
| Decoder.ReadFrames | src/WebSocketServer.php:191-261 | never leaves more input than it was given; a disconnect is only ever the last effect |
| Decoder.RepliesAreEmptyPongs | src/WebSocketServer.php:240-242 | every frame the decoder writes back is the empty pong |
| Peer.MaskInvolution | src/WebSocketServer.php:221-226 | unmasking a payload masked with the same key gives it back |
| Peer.XorKeyIsMask | src/WebSocketServer.php:225 | PHP's string XOR of a chunk of at most four bytes with the key is RFC masking of that chunk |
| Peer.MaskedChunksWhole | src/WebSocketServer.php:221-226 | the loop over 4-byte chunks unmasks exactly as RFC masking of the whole payload does, and fails exactly when bytes are missing |
| Peer.ReadLengthOfPeerField | src/WebSocketServer.php:208-217 | the length reader recovers the length from each of the three forms a client writes |
| Peer.ReadPeerBody | src/WebSocketServer.php:221-229 | masked or not, the payload reader returns the client's original payload and leaves what follows |
| Peer.ParseSerialized | src/WebSocketServer.php:198-229 | every well-formed client frame parses back to its FIN, opcode and payload, leaving the bytes after it |
| Reassembly.WireParses | src/WebSocketServer.php:197-230 | client frames written back to back parse one by one |
| Reassembly.DataDecode | src/WebSocketServer.php:197-235 | frames whose first opcode is text or binary decode to their messages in order, with no effects |
| Reassembly.DataFramesDecode | src/WebSocketServer.php:191-261 | the same, for frames as a client writes them |
| Reassembly.FalsyByteEndsCall | src/WebSocketServer.php:199-203 | a '0' byte where a frame starts ends the call with the messages so far, and the byte is consumed |
| Reassembly.ShortfallDiscardsEntries | src/WebSocketServer.php:256-259 | a frame cut short after complete messages makes the whole call `false` |
| Reassembly.FirstEntryIsFirstPayload | src/WebSocketServer.php:218-235 | a final data frame first in the call gives the first entry of any list returned |
| Reassembly.ControlDecode | src/WebSocketServer.php:240-254 | under a ping, pong or reserved first opcode all payloads form one entry; each final frame adds an empty pong (ping) or a refresh (pong) |
| Reassembly.CloseFirstDisconnects | src/WebSocketServer.php:236-239 | a close sequence first in the call returns its payload, asks for disconnect 1000 and leaves the rest unread |
| Reassembly.ContinuationFirstDisconnects | src/WebSocketServer.php:246-250 | a continuation opcode first in the call gives `false` and disconnect 1002 |
| RoundTrip.ShortLengthFieldsAgree | src/WebSocketServer.php:289-292 | up to 65535 the server's length field is the RFC's unmasked length field |
| RoundTrip.ServerFrameIsPeerFrame | src/WebSocketServer.php:285-305 | a server frame of at most 65535 bytes is the RFC's unmasked final frame |
| RoundTrip.ServerRoundTrip | src/WebSocketServer.php:191-261 | messages of at most 65535 bytes that `sendFrameTo` encodes with a data opcode decode back to the same messages, with nothing left and no effects |
| RoundTrip.StickyOpcodeSwallowsClose | src/WebSocketServer.php:205-207 | a close frame after a text frame comes back as a second message, with no disconnect |
| RoundTrip.LongFrameFirstRead | src/WebSocketServer.php:295-302 | a server frame over 65535 bytes parses with its own opcode and FIN but a shorter payload |
| RoundTrip.LongFrameNotRoundTrip | src/WebSocketServer.php:295-302 | such a frame never decodes back to its payload |
| RoundTrip.PingAnsweredWithEmptyPong | src/WebSocketServer.php:240-242 | a client ping returns its payload and is answered with 0x8A 0x00 |
| RoundTrip.PongRequestsRefresh | src/WebSocketServer.php:243-245 | a client pong returns its payload and asks for exactly one refresh |
| RoundTrip.ClientCloseDisconnects | src/WebSocketServer.php:236-239 | a client close returns its payload, asks for disconnect 1000 and leaves what follows unread |
| Registry.WsDisconnect | src/WebSocketServer.php:343-352 | true exactly for a registered address; the entry is gone afterwards and the others unchanged; a close frame with the code is written and the socket closed, in that order; an unknown address changes nothing |
| Registry.OnPong | src/WebSocketServer.php:332-341 | the peer's last activity becomes `now`; its socket and every other entry are kept |
| Registry.ApplyEffects | src/WebSocketServer.php:232-251 | after the decoder's effects the peer stays exactly when no disconnect was asked, with its socket, and its time refreshed exactly when a pong was seen; the others are unchanged |
| Registry.EffectActions | src/WebSocketServer.php:232-251 | every action the decoder's effects cause goes to the socket being read |
| Registry.EffectActionsWriteReplies | src/WebSocketServer.php:240-241 | the actions are exactly the frames the decoder asked to write back, each written to the socket in the order asked, then two more actions when a disconnect ends the effects |
| Registry.EffectActionsEndWithClose | src/WebSocketServer.php:343-349 | a disconnect asked for by the decoder ends the actions with the close frame carrying its code, then the socket close |
| Registry.ReplyIsNoPing | src/WebSocketServer.php:179-182 | nothing the decoder causes starts with a ping, so only `wsReadFrom`'s own keepalive ping can come first |
| Registry.WsReadFromWrites | src/WebSocketServer.php:168-183 | a read from a live peer writes the keepalive ping if the peer is quiet, then every reply the decoder asked for in order, and, after a decoder disconnect, the close frame with its code and the socket close |
| Registry.WsReadFrom | src/WebSocketServer.php:168-183 | every action goes to the peer's own socket; unknown address gives `false` and no action; past ping plus timeout gives disconnect 1001 and `false`; otherwise the decoder's value and leftovers, the entry kept or dropped and refreshed as its effects say, and a ping written first exactly when the peer has been quiet longer than the ping interval |
| Registry.SendAll | src/WebSocketServer.php:307-324 | the bytes that reach the socket are a prefix of the frame; for a non-empty frame `true` is returned exactly when all of it arrived |
| Registry.SendAllDelivers | src/WebSocketServer.php:307-324 | writes that never fail and together take all the bytes deliver the whole frame and return `true` |
| Registry.SendAllFails | src/WebSocketServer.php:311-314 | a failed write before the end returns `false` after exactly the bytes the earlier writes took |
| Registry.WsSendTo | src/WebSocketServer.php:185-189 | unknown address gives `false` with nothing written; for a registered one `true` is returned exactly when the whole text frame of the data was written |
| Registry.Register | src/WebSocketServer.php:156-162 | the address maps to the new socket and `now`, replacing any older entry; the others are unchanged |
| Handshake.ReadRenderedRequest | src/WebSocketServer.php:89-116 | lines sent with CR LF and a blank line are read back exactly, and what follows is left unread |
| Handshake.ZeroLineEndsRequest | src/WebSocketServer.php:105-108 | a line holding only "0" ends the header block like a blank line |
| Handshake.ReadLineStep | src/WebSocketServer.php:101-115 | any text up to a line feed joins the pending line with every `\r` dropped; the line feed pushes the line, or ends the block with the rest unread when the line is "" or "0" |
| Handshake.ReadToEnd | src/WebSocketServer.php:89-99 | input without a line feed ends with the pending line pushed, its CRs dropped |
| Handshake.CutRequestKeepsPartialLine | src/WebSocketServer.php:91-95 | a request cut off before its blank line gives its lines plus the partial last line |
| Handshake.JoinExplode | src/WebSocketServer.php:124 | joining the pieces of `explode` with the separator gives the string back |
| Handshake.ExplodeJoin | src/WebSocketServer.php:124 | exploding separator-free pieces joined by the separator gives the pieces back |
| Handshake.TrimPadded | src/WebSocketServer.php:125 | trimming removes exactly padding made of the trimmed characters |
| Handshake.TrimTrimmed | src/WebSocketServer.php:125 | trim's result has no trimmed character at either end, and trim is idempotent |
| Handshake.TrimIsSlice | src/WebSocketServer.php:125 | trim's result is a slice of the input with only trimmed characters cut from either side |
| Handshake.HeaderPresent | src/WebSocketServer.php:118-126 | a header is in the map exactly when some header line names it |
| Handshake.HeaderLastWins | src/WebSocketServer.php:124-125 | the last line naming a header gives its value |
| Handshake.HeaderLineParts | src/WebSocketServer.php:124-125 | a header line gives the text before its first colon as name, and the trimmed text up to the second colon as value |
| Handshake.PathOfRequestLine | src/WebSocketServer.php:119-122 | the path is the request target with `/` trimmed from both ends |
| Handshake.Response | src/WebSocketServer.php:127-149 | the 400 text is written exactly when the verdict refuses the request |
| Handshake.SwitchingTextRendered | src/WebSocketServer.php:145-149 | the 101 text is its header lines, each ended by CR LF, then a blank line |
| Handshake.SwitchingResponseLines | src/WebSocketServer.php:144-149 | read back as lines, the 101 response gives the status, `Upgrade`, `Connection`, the accept value of the request's key, and the protocol line exactly when the request named one |
| Listening.Admit | src/WebSocketServer.php:86-154 | admitted exactly when the verdict accepts and the 101 write succeeds; a refused request gets the 400 text and its socket closed; any refusal closes the socket last; an admitted one yields its address, path and cookie, and the 101 response |
| Listening.AcceptAll | src/WebSocketServer.php:81-164 | when the loop runs to the end the work list holds one work per connection after the earlier ones; registered addresses stay registered |
| Listening.AcceptAllKeepsOthers | src/WebSocketServer.php:156-162 | the entry of an address with no pending connection is kept exactly; every address registered afterwards was registered before or had a pending connection |
| Listening.Listen | src/WebSocketServer.php:77-166 | `false` exactly without a listening socket, with nothing changed; otherwise one unit of work per connection |
| Listening.AllAdmittedListed | src/WebSocketServer.php:81-165 | when all handshakes succeed the loop returns the works of the connections in accept order |
| Listening.AcceptAllRegisters | src/WebSocketServer.php:159-161 | a connection whose handshake and all earlier ones succeed, with no later connection from its address, is registered with its own socket and `now` |
| Listening.AllAdmittedRegistered | src/WebSocketServer.php:156-162 | when all handshakes succeed every peer is registered with `now`, and with the socket of its last connection |
| Listening.RefusalDropsWorks | src/WebSocketServer.php:127-153 | the first refusal ends the loop with `true`; earlier peers stay registered; the refused socket is closed last |
| Listening.ListenAllAdmitted | src/WebSocketServer.php:77-166 | `wsListen` with every handshake accepted returns every connection's work in order, each peer registered at `now` with the socket of its last connection |
| Listening.ListenRefused | src/WebSocketServer.php:127-153 | `wsListen` with handshake i the first refused returns `true`; peers before it are registered; its socket is closed last |
| Listening.UpgradeHeaders | src/WebSocketServer.php:124-125 | the three lines `Connection: Upgrade`, `Sec-WebSocket-Version: v`, `Sec-WebSocket-Key: k` give exactly that map |
| Listening.UpgradeLinesRead | src/WebSocketServer.php:89-116 | a minimal upgrade request sent with CR LF is read back line for line |
| Listening.UpgradeLinesParsed | src/WebSocketServer.php:117-126 | its lines parse to the trimmed path and the three headers |
| Listening.UpgradeRequestAdmitted | src/WebSocketServer.php:86-163 | a minimal upgrade request with a truthy version is admitted with the trimmed path and no cookie, and answered with the 101 response for its key, without a protocol line |
| Keepalive.PongRefreshes | src/WebSocketServer.php:243-245 | a pong from a live peer returns its payload and sets the peer's time to `now` |
| Keepalive.DataLeavesEntry | src/WebSocketServer.php:232-235 | data frames a client sends, masked or not, come back as the messages they group into, nothing is left unread, and the peer's entry stays exactly as it was |
| Keepalive.PingAnswered | src/WebSocketServer.php:240-241 | a ping from a live peer returns its payload, leaves its entry as it was, and is answered on its socket with the empty pong, after the ping a quiet peer gets |
| Keepalive.ClientCloseDropsPeer | src/WebSocketServer.php:236-239 | a close from a live peer returns its payload and drops the peer; the actions are the optional ping, then the 1000 close frame, then the socket close; what follows stays unread |
| Keepalive.KeepaliveTimeline | src/WebSocketServer.php:174-181 | a peer registered at t is read without a ping up to t+60, pinged first up to t+70, and dropped with 1001 after that |
| Keepalive.DisconnectedIsGone | src/WebSocketServer.php:346 | once disconnected, reading and sending return `false` and do nothing |

## Left out

- PHP versions other than 7.x. The model follows PHP 7 integer and socket
  semantics: a shift by 64 bits or more gives 0 (on PHP 5 on x86-64 it
  wraps to a shift by 0), and a read on a closed socket fails quietly (PHP
  8 throws an `Error` instead).
- Sockets, `socket_accept`, `socket_set_nonblock`, `usleep` and the retry
  counters `wsReadTry` and `wsReadTryInterval`. Running out of retries is
  modelled as reaching the end of the input.
- The handshake reader on a peer that closed: `socket_read` then returns
  "", which is neither `false` nor a character, so the PHP loop spins
  forever. The model treats the end of the input as retries exhausted.
- SHA-1 and base64 of the accept value (line 144), which are the parameter
  `acceptOf`.
- `time()`, which is the parameter `now`.
- `getWsAddress`, which is not part of this model. The decoder's effects
  are applied to the address being read, which is what `getWsAddress` of
  that socket returns for a registered peer.
- `wsLog`, the empty `onDisconnect` handler, `createWsServer`,
  `destroyWsServer` and `sample/srv.php`: logging and setup only.
- Reads after `wsDisconnect` inside `readFramesFrom`. The socket is closed,
  so the next read fails and the loop ends. The model stops decoding at
  the close and leaves the remaining input unread.
- PHP's conversion of numeric-string array keys to integers in `$headers`.
  Header names stay strings.
- Registry.OnPong: requires the address to be registered. For an unknown
  address the source logs and creates an entry without a socket. The
  decoder only asks for a refresh while reading a registered peer, so
  `wsReadFrom` never reaches that case.
- Registry.ApplyEffects: requires a registered address and a disconnect
  only as the last effect. `ReadFrames` guarantees the second.
- Registry.SendAll: returns `None` when the list of write results runs out
  before the loop ends. A write of 0 bytes makes the source retry forever.
- Registry.WsSendTo: for the same reason, states nothing about a run that
  ends in `None`.
- Listening.Admit: whether `socket_write` accepted the 101 response is the
  flag `answered`. Partial writes of the response are not modelled.
