/** `wsListen` in src/WebSocketServer.php: every pending connection is
    taken through the handshake in turn; an accepted one is registered and
    reported as a unit of work, and the first refused one ends the call. */
module Listening {
  import opened Base
  import opened Handshake
  import opened Registry

  /** `[$address, $get, $cookies]`: the peer, the path (`None` for PHP's
      `false` when no line was read) and the `Cookie` header, if any. */
  datatype Work = Work(address: Address, path: Option<string>, cookie: Option<string>)

  /** A connection `socket_accept` hands over: its peer address, its socket,
      what the peer sent, and whether `socket_write` reports the 101
      response as written. */
  datatype Incoming = Incoming(address: Address, socket: Socket, request: string, answered: bool)

  /** The outcome for one connection. */
  datatype Admission =
    | Refused(actions: seq<Action>)
    | Admitted(work: Work, actions: seq<Action>)

  /** `isset($headers['Cookie']) ? $headers['Cookie'] : null`. */
  function Cookie(h: map<string, string>): Option<string>
  {
    if "Cookie" in h then Some(h["Cookie"]) else None
  }

  /** The handshake of one connection. A refused request gets the 400
      response and its socket closed; an accepted one gets the 101
      response, and if that write fails its socket is closed too. */
  function Admit(c: Incoming, acceptOf: string -> string): (r: Admission)
    ensures var req := ParseRequest(ReadRequest(c.request).0);
      r.Admitted? <==> Accepts(req.headers) && c.answered
    ensures var req := ParseRequest(ReadRequest(c.request).0);
      !Accepts(req.headers) ==> r.actions == [WriteText(c.socket, BadRequest), Shut(c.socket)]
    ensures r.Refused? ==> |r.actions| == 2 && r.actions[1] == Shut(c.socket)
    ensures var req := ParseRequest(ReadRequest(c.request).0);
      r.Admitted? ==>
        && r.work == Work(c.address, req.path, Cookie(req.headers))
        && r.actions == [WriteText(c.socket, SwitchingText(acceptOf(Key(req.headers) + Guid),
                                                           "Sec-WebSocket-Protocol" in req.headers))]
  {
    var req := ParseRequest(ReadRequest(c.request).0);
    var text := Response(req.headers, acceptOf);
    if !Accepts(req.headers) then Refused([WriteText(c.socket, text), Shut(c.socket)])
    else if !c.answered then Refused([WriteText(c.socket, text), Shut(c.socket)])
    else Admitted(Work(c.address, req.path, Cookie(req.headers)), [WriteText(c.socket, text)])
  }

  /** What `wsListen` returns: `false` without a listening socket, `true`
      when a handshake failed (the work collected so far is dropped), or
      the list of work. */
  datatype Listened = NotListening | Interrupted | Works(works: seq<Work>)

  datatype ListenOutcome = ListenOutcome(value: Listened, clients: Clients, actions: seq<Action>)

  /** The handshake outcome of every pending connection, in order. */
  function Admissions(pending: seq<Incoming>, acceptOf: string -> string): (r: seq<Admission>)
    ensures |r| == |pending|
    ensures forall i :: 0 <= i < |pending| ==> r[i] == Admit(pending[i], acceptOf)
  {
    seq(|pending|, i requires 0 <= i < |pending| => Admit(pending[i], acceptOf))
  }

  /** What the loop needs to know of each admission: a refused socket is
      closed last. */
  predicate Fits(pending: seq<Incoming>, admissions: seq<Admission>)
  {
    && |admissions| == |pending|
    && forall i :: 0 <= i < |pending| && admissions[i].Refused? ==>
         |admissions[i].actions| == 2 && admissions[i].actions[1] == Shut(pending[i].socket)
  }

  lemma AdmissionsFit(pending: seq<Incoming>, acceptOf: string -> string)
    ensures Fits(pending, Admissions(pending, acceptOf))
  {
    var adm := Admissions(pending, acceptOf);
    forall i | 0 <= i < |pending| && adm[i].Refused?
      ensures |adm[i].actions| == 2 && adm[i].actions[1] == Shut(pending[i].socket)
    {
      assert adm[i] == Admit(pending[i], acceptOf);
    }
  }

  /** No pending connection comes from `address`. */
  predicate NotPending(pending: seq<Incoming>, address: Address)
  {
    forall i :: 0 <= i < |pending| ==> pending[i].address != address
  }

  /** The `while ($client = socket_accept(...))` loop over the connections
      still pending, each with the outcome of its handshake: an admitted
      one is registered and its work collected, and the first refused one
      ends the loop. */
  function AcceptAll(pending: seq<Incoming>, admissions: seq<Admission>, clients: Clients, works: seq<Work>,
                     actions: seq<Action>, now: int): (r: ListenOutcome)
    requires |admissions| == |pending|
    ensures r.value.Works? ==> |r.value.works| == |works| + |pending| && r.value.works[..|works|] == works
    ensures forall a :: a in clients ==> a in r.clients
    ensures forall a :: a in clients && clients[a].last == now ==> r.clients[a].last == now
    ensures r.value != NotListening
    decreases |pending|
  {
    if |pending| == 0 then ListenOutcome(Works(works), clients, actions)
    else
      var c := pending[0];
      var a := admissions[0];
      if a.Refused? then ListenOutcome(Interrupted, clients, actions + a.actions)
      else
        var r := AcceptAll(pending[1..], admissions[1..], Register(clients, c.address, c.socket, now),
                           works + [a.work], actions + a.actions, now);
        assert r.value.Works? ==> r.value.works[..|works|] == (works + [a.work])[..|works|];
        r
  }

  /** The loop touches only the entries of addresses it accepts: an entry
      for an address with no pending connection is kept as it was, and
      every address registered afterwards was registered before or had a
      pending connection. */
  lemma {:induction false} AcceptAllKeepsOthers(pending: seq<Incoming>, admissions: seq<Admission>, clients: Clients,
                                                works: seq<Work>, actions: seq<Action>, now: int)
    requires |admissions| == |pending|
    ensures var r := AcceptAll(pending, admissions, clients, works, actions, now);
      forall a :: a in clients && NotPending(pending, a) ==> a in r.clients && r.clients[a] == clients[a]
    ensures var r := AcceptAll(pending, admissions, clients, works, actions, now);
      forall a :: a in r.clients ==> a in clients || !NotPending(pending, a)
    decreases |pending|
  {
    if |pending| > 0 && admissions[0].Admitted? {
      var c := pending[0];
      var a := admissions[0];
      var next := Register(clients, c.address, c.socket, now);
      AcceptAllKeepsOthers(pending[1..], admissions[1..], next, works + [a.work], actions + a.actions, now);
      forall x | NotPending(pending, x) ensures x != c.address && NotPending(pending[1..], x) {
        forall i | 0 <= i < |pending[1..]| ensures pending[1..][i].address != x {
          assert pending[1..][i] == pending[i + 1];
        }
      }
      forall x | !NotPending(pending[1..], x) ensures !NotPending(pending, x) {
        var i :| 0 <= i < |pending[1..]| && pending[1..][i].address == x;
        assert pending[i + 1].address == x;
      }
    }
  }

  /** No later pending connection comes from the address of connection i. */
  predicate LastFrom(pending: seq<Incoming>, i: nat)
    requires i < |pending|
  {
    forall j :: i < j < |pending| ==> pending[j].address != pending[i].address
  }

  /** A connection whose handshake and all earlier ones succeed, with no
      later connection from its address, ends up registered with its own
      socket and `now`, as `[$client, time()]`. */
  lemma {:induction false} AcceptAllRegisters(pending: seq<Incoming>, admissions: seq<Admission>, clients: Clients,
                                              works: seq<Work>, actions: seq<Action>, now: int)
    requires |admissions| == |pending|
    ensures var r := AcceptAll(pending, admissions, clients, works, actions, now);
      forall i :: 0 <= i < |pending| && AllAdmitted(admissions[..i + 1]) && LastFrom(pending, i) ==>
        pending[i].address in r.clients && r.clients[pending[i].address] == Client(pending[i].socket, now)
    decreases |pending|
  {
    if |pending| > 0 && admissions[0].Admitted? {
      var c := pending[0];
      var a := admissions[0];
      var next := Register(clients, c.address, c.socket, now);
      AcceptAllRegisters(pending[1..], admissions[1..], next, works + [a.work], actions + a.actions, now);
      AcceptAllKeepsOthers(pending[1..], admissions[1..], next, works + [a.work], actions + a.actions, now);
      var r := AcceptAll(pending[1..], admissions[1..], next, works + [a.work], actions + a.actions, now);
      forall i | 0 <= i < |pending| && AllAdmitted(admissions[..i + 1]) && LastFrom(pending, i)
        ensures pending[i].address in r.clients && r.clients[pending[i].address] == Client(pending[i].socket, now)
      {
        if i == 0 {
          assert NotPending(pending[1..], c.address) by {
            forall j | 0 <= j < |pending| - 1 ensures pending[1..][j].address != c.address {
              assert pending[1..][j] == pending[j + 1];
            }
          }
        } else {
          assert pending[1..][i - 1] == pending[i];
          assert AllAdmitted(admissions[1..][..i]) by {
            forall k | 0 <= k < i ensures admissions[1..][..i][k].Admitted? {
              assert admissions[1..][..i][k] == admissions[..i + 1][k + 1];
            }
          }
          assert LastFrom(pending[1..], i - 1) by {
            forall j | i - 1 < j < |pending| - 1 ensures pending[1..][j].address != pending[1..][i - 1].address {
              assert pending[1..][j] == pending[j + 1];
            }
          }
        }
      }
    }
  }

  /** `wsListen()`. */
  function Listen(listening: bool, pending: seq<Incoming>, clients: Clients, now: int,
                  acceptOf: string -> string): (r: ListenOutcome)
    ensures !listening <==> r.value == NotListening
    ensures !listening ==> r.clients == clients && r.actions == []
    ensures r.value.Works? ==> |r.value.works| == |pending|
  {
    if !listening then ListenOutcome(NotListening, clients, [])
    else AcceptAll(pending, Admissions(pending, acceptOf), clients, [], [], now)
  }

  predicate AllAdmitted(admissions: seq<Admission>)
  {
    forall i :: 0 <= i < |admissions| ==> admissions[i].Admitted?
  }

  /** The work of each admission, in order. */
  function WorksOf(admissions: seq<Admission>): seq<Work>
    requires AllAdmitted(admissions)
  {
    seq(|admissions|, i requires 0 <= i < |admissions| && admissions[i].Admitted? => admissions[i].work)
  }

  lemma PrefixAdmitted(admissions: seq<Admission>, n: nat)
    requires AllAdmitted(admissions) && n <= |admissions|
    ensures AllAdmitted(admissions[..n])
  {
    forall k | 0 <= k < n ensures admissions[..n][k].Admitted? {
      assert admissions[..n][k] == admissions[k];
    }
  }

  /** When every handshake succeeds, the loop returns one unit of work per
      connection, in the order the connections were accepted. */
  lemma {:induction false} AllAdmittedListed(pending: seq<Incoming>, admissions: seq<Admission>, clients: Clients,
                                             works: seq<Work>, actions: seq<Action>, now: int)
    requires |admissions| == |pending| && AllAdmitted(admissions)
    ensures AcceptAll(pending, admissions, clients, works, actions, now).value == Works(works + WorksOf(admissions))
    decreases |pending|
  {
    if |pending| == 0 {
      assert works + [] == works;
    } else {
      var c := pending[0];
      var a := admissions[0];
      assert a.Admitted?;
      assert AllAdmitted(admissions[1..]) by {
        forall i | 0 <= i < |admissions| - 1 ensures admissions[1..][i].Admitted? {
          assert admissions[1..][i] == admissions[i + 1];
        }
      }
      AllAdmittedListed(pending[1..], admissions[1..], Register(clients, c.address, c.socket, now),
                        works + [a.work], actions + a.actions, now);
      var rest := WorksOf(admissions[1..]);
      assert WorksOf(admissions) == [a.work] + rest;
      assert works + [a.work] + rest == works + ([a.work] + rest);
    }
  }

  /** When every handshake succeeds, every peer ends up registered with
      `now` as its last sign of life, and with the socket of the last
      connection from its address. */
  lemma {:induction false} AllAdmittedRegistered(pending: seq<Incoming>, admissions: seq<Admission>,
                                                 clients: Clients, works: seq<Work>, actions: seq<Action>, now: int)
    requires |admissions| == |pending| && AllAdmitted(admissions)
    ensures var r := AcceptAll(pending, admissions, clients, works, actions, now);
      forall i :: 0 <= i < |pending| ==> pending[i].address in r.clients && r.clients[pending[i].address].last == now
    ensures var r := AcceptAll(pending, admissions, clients, works, actions, now);
      forall i :: 0 <= i < |pending| && LastFrom(pending, i) ==> r.clients[pending[i].address] == Client(pending[i].socket, now)
    decreases |pending|
  {
    AcceptAllRegisters(pending, admissions, clients, works, actions, now);
    forall i | 0 <= i < |pending| && LastFrom(pending, i) ensures AllAdmitted(admissions[..i + 1]) {
      PrefixAdmitted(admissions, i + 1);
    }
    if |pending| > 0 {
      var c := pending[0];
      var a := admissions[0];
      assert a.Admitted?;
      assert AllAdmitted(admissions[1..]) by {
        forall i | 0 <= i < |admissions| - 1 ensures admissions[1..][i].Admitted? {
          assert admissions[1..][i] == admissions[i + 1];
        }
      }
      var clients' := Register(clients, c.address, c.socket, now);
      AllAdmittedRegistered(pending[1..], admissions[1..], clients', works + [a.work], actions + a.actions, now);
      var r := AcceptAll(pending[1..], admissions[1..], clients', works + [a.work], actions + a.actions, now);
      forall i | 0 <= i < |pending|
        ensures pending[i].address in r.clients && r.clients[pending[i].address].last == now
      {
        if i == 0 {
          assert clients'[c.address].last == now;
        } else {
          assert pending[1..][i - 1] == pending[i];
        }
      }
    }
  }

  /** A refused handshake ends the loop with `true`: the work collected
      for the connections before it is lost, although those peers stay
      registered, and the refused socket is closed last. */
  lemma {:induction false} RefusalDropsWorks(pending: seq<Incoming>, admissions: seq<Admission>, clients: Clients,
                                             works: seq<Work>, actions: seq<Action>, now: int, i: nat)
    requires Fits(pending, admissions) && i < |pending|
    requires AllAdmitted(admissions[..i]) && admissions[i].Refused?
    ensures var r := AcceptAll(pending, admissions, clients, works, actions, now);
      && r.value == Interrupted
      && (forall j :: 0 <= j < i ==> pending[j].address in r.clients)
      && |r.actions| > 0 && r.actions[|r.actions| - 1] == Shut(pending[i].socket)
    decreases i
  {
    var c := pending[0];
    var a := admissions[0];
    if i > 0 {
      assert admissions[..i][0] == a;
      assert Fits(pending[1..], admissions[1..]) by {
        forall k | 0 <= k < |pending| - 1 && admissions[1..][k].Refused?
          ensures |admissions[1..][k].actions| == 2 && admissions[1..][k].actions[1] == Shut(pending[1..][k].socket)
        {
          assert admissions[1..][k] == admissions[k + 1];
        }
      }
      var before := admissions[1..][..i - 1];
      assert AllAdmitted(before) by {
        forall k | 0 <= k < |before| ensures before[k].Admitted? {
          assert before[k] == admissions[..i][k + 1];
        }
      }
      assert admissions[1..][i - 1] == admissions[i];
      var clients' := Register(clients, c.address, c.socket, now);
      RefusalDropsWorks(pending[1..], admissions[1..], clients', works + [a.work], actions + a.actions, now, i - 1);
      var r := AcceptAll(pending[1..], admissions[1..], clients', works + [a.work], actions + a.actions, now);
      assert r.actions[|r.actions| - 1] == Shut(pending[1..][i - 1].socket);
      assert c.address in r.clients by {
        assert c.address in clients';
      }
      forall j | 0 < j < i ensures pending[j].address in r.clients {
        assert pending[1..][j - 1] == pending[j];
      }
    } else {
      assert a.actions[1] == Shut(c.socket);
    }
  }

  /** `wsListen()` when every handshake succeeds: the work of every
      connection in order, every peer registered with `now` and the socket
      of its last connection. */
  lemma ListenAllAdmitted(pending: seq<Incoming>, clients: Clients, now: int, acceptOf: string -> string)
    requires AllAdmitted(Admissions(pending, acceptOf))
    ensures var r := Listen(true, pending, clients, now, acceptOf);
      && r.value == Works(WorksOf(Admissions(pending, acceptOf)))
      && (forall i :: 0 <= i < |pending| ==> pending[i].address in r.clients && r.clients[pending[i].address].last == now)
      && forall i :: 0 <= i < |pending| && LastFrom(pending, i) ==>
           r.clients[pending[i].address] == Client(pending[i].socket, now)
  {
    var adm := Admissions(pending, acceptOf);
    AllAdmittedListed(pending, adm, clients, [], [], now);
    AllAdmittedRegistered(pending, adm, clients, [], [], now);
    assert [] + WorksOf(adm) == WorksOf(adm);
  }

  /** `wsListen()` when handshake `i` is the first to fail: `true`, the
      earlier peers registered, the failed socket closed last. */
  lemma ListenRefused(pending: seq<Incoming>, clients: Clients, now: int, acceptOf: string -> string, i: nat)
    requires i < |pending| && Admit(pending[i], acceptOf).Refused?
    requires forall j :: 0 <= j < i ==> Admit(pending[j], acceptOf).Admitted?
    ensures var r := Listen(true, pending, clients, now, acceptOf);
      && r.value == Interrupted
      && (forall j :: 0 <= j < i ==> pending[j].address in r.clients)
      && |r.actions| > 0 && r.actions[|r.actions| - 1] == Shut(pending[i].socket)
  {
    var adm := Admissions(pending, acceptOf);
    AdmissionsFit(pending, acceptOf);
    assert AllAdmitted(adm[..i]) by {
      forall j | 0 <= j < i ensures adm[..i][j].Admitted? {
        assert adm[..i][j] == Admit(pending[j], acceptOf);
      }
    }
    RefusalDropsWorks(pending, adm, clients, [], [], now, i);
  }

  const ConnectionName: string := "Connection"
  const VersionName: string := "Sec-WebSocket-Version"
  const KeyName: string := "Sec-WebSocket-Key"
  const UpgradeToken: string := "Upgrade"

  /** The header lines of a minimal upgrade request. */
  function UpgradeHeaderLines(version: string, key: string): seq<string>
  {
    [ConnectionName + ": " + UpgradeToken, VersionName + ": " + version, KeyName + ": " + key]
  }

  /** A value written after `: ` is read back without the space. */
  lemma SpacedValue(name: string, value: string)
    requires ':' !in name && ':' !in value && Trimmed(value, Whitespace)
    ensures Name(name + ": " + value) == name && Value(name + ": " + value) == value
  {
    assert name + ": " + value == name + ":" + (" " + value);
    HeaderLineParts(name, " " + value, "");
    TrimPadded(" ", value, "", Whitespace);
    assert " " + value + "" == " " + value;
  }

  lemma ThreeHeaders(l1: string, l2: string, l3: string)
    ensures Headers([l1, l2, l3]) == map[Name(l1) := Value(l1)][Name(l2) := Value(l2)][Name(l3) := Value(l3)]
  {
    var ls := [l1, l2, l3];
    assert ls[..1][..0] == [];
    assert Headers(ls[..1]) == map[][Name(l1) := Value(l1)];
    assert ls[..2][..1] == ls[..1];
    assert Headers(ls[..2]) == Headers(ls[..1])[Name(l2) := Value(l2)];
    assert ls[..2] == ls[..|ls| - 1];
    assert Headers(ls) == Headers(ls[..2])[Name(l3) := Value(l3)];
  }

  lemma UpgradeHeaders(version: string, key: string)
    requires ':' !in version && Trimmed(version, Whitespace)
    requires ':' !in key && Trimmed(key, Whitespace)
    ensures Headers(UpgradeHeaderLines(version, key))
      == map[ConnectionName := UpgradeToken, VersionName := version, KeyName := key]
  {
    SpacedValue(ConnectionName, UpgradeToken);
    SpacedValue(VersionName, version);
    SpacedValue(KeyName, key);
    ThreeHeaders(ConnectionName + ": " + UpgradeToken, VersionName + ": " + version, KeyName + ": " + key);
  }

  predicate UpgradeParts(verb: string, target: string, httpVersion: string, version: string, key: string)
  {
    && ' ' !in verb && ' ' !in target && NoLineBreak(verb) && NoLineBreak(target) && NoLineBreak(httpVersion)
    && ':' !in version && Trimmed(version, Whitespace) && NoLineBreak(version) && !PhpFalsyString(version)
    && ':' !in key && Trimmed(key, Whitespace) && NoLineBreak(key)
  }

  function UpgradeLines(verb: string, target: string, httpVersion: string, version: string, key: string): seq<string>
  {
    [verb + " " + target + " " + httpVersion] + UpgradeHeaderLines(version, key)
  }

  lemma RequestLinePlain(verb: string, target: string, httpVersion: string)
    requires NoLineBreak(verb) && NoLineBreak(target) && NoLineBreak(httpVersion)
    ensures NoLineBreak(verb + " " + target + " " + httpVersion)
  {
    assert NoLineBreak(" ");
    NoLineBreakConcat(verb, " ");
    NoLineBreakConcat(verb + " ", target);
    NoLineBreakConcat(verb + " " + target, " ");
    NoLineBreakConcat(verb + " " + target + " ", httpVersion);
  }

  lemma HeaderLinesPlain(version: string, key: string)
    requires NoLineBreak(version) && NoLineBreak(key)
    ensures PlainLines(UpgradeHeaderLines(version, key))
  {
    var ls := UpgradeHeaderLines(version, key);
    NamedLinePlain(ConnectionName, UpgradeToken);
    NamedLinePlain(VersionName, version);
    NamedLinePlain(KeyName, key);
    assert ls[0] == ConnectionName + ": " + UpgradeToken;
    assert ls[1] == VersionName + ": " + version;
    assert ls[2] == KeyName + ": " + key;
  }

  lemma NamedLinePlain(name: string, value: string)
    requires NoLineBreak(name) && NoLineBreak(value)
    ensures PlainLine(name + ": " + value)
  {
    assert NoLineBreak(": ");
    NoLineBreakConcat(name, ": ");
    NoLineBreakConcat(name + ": ", value);
    assert |name + ": " + value| >= 2;
  }

  lemma UpgradeLinesRead(verb: string, target: string, httpVersion: string, version: string, key: string,
                         body: string)
    requires UpgradeParts(verb, target, httpVersion, version, key)
    ensures var lines := UpgradeLines(verb, target, httpVersion, version, key);
      ReadRequest(Render(lines) + "\r\n" + body) == (lines, body)
  {
    var first := verb + " " + target + " " + httpVersion;
    var lines := UpgradeLines(verb, target, httpVersion, version, key);
    RequestLinePlain(verb, target, httpVersion);
    assert PlainLine(first) by { assert |first| >= 2; }
    HeaderLinesPlain(version, key);
    assert PlainLines(lines) by {
      assert lines == [first] + UpgradeHeaderLines(version, key);
      forall i | 0 <= i < |lines| ensures PlainLine(lines[i]) {
        if i > 0 { assert lines[i] == UpgradeHeaderLines(version, key)[i - 1]; }
      }
    }
    ReadRenderedRequest(lines, body);
  }

  lemma UpgradeLinesParsed(verb: string, target: string, httpVersion: string, version: string, key: string)
    requires UpgradeParts(verb, target, httpVersion, version, key)
    ensures ParseRequest(UpgradeLines(verb, target, httpVersion, version, key))
      == Request(Some(Trim(target, {'/'})), map[ConnectionName := UpgradeToken, VersionName := version, KeyName := key])
  {
    var hs := UpgradeHeaderLines(version, key);
    PathOfRequestLine(verb, target, httpVersion, hs);
    assert UpgradeLines(verb, target, httpVersion, version, key)[1..] == hs;
    UpgradeHeaders(version, key);
  }

  /** A request with the request line, `Connection: Upgrade`, a truthy
      version and a key, sent whole, is admitted: its work carries the
      trimmed path and no cookie, and the 101 response carries the accept
      value computed from the key, without a protocol line. */
  lemma UpgradeRequestAdmitted(address: Address, socket: Socket, verb: string, target: string,
                               httpVersion: string, version: string, key: string, body: string,
                               acceptOf: string -> string)
    requires UpgradeParts(verb, target, httpVersion, version, key)
    ensures var lines := UpgradeLines(verb, target, httpVersion, version, key);
      Admit(Incoming(address, socket, Render(lines) + "\r\n" + body, true), acceptOf)
        == Admitted(Work(address, Some(Trim(target, {'/'})), None),
                    [WriteText(socket, SwitchingText(acceptOf(key + Guid), false))])
  {
    UpgradeLinesRead(verb, target, httpVersion, version, key, body);
    UpgradeLinesParsed(verb, target, httpVersion, version, key);
  }
}
