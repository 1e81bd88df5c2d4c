/** The opening handshake as `wsListen` in src/WebSocketServer.php performs
    it for one accepted connection: the request is read one character at a
    time into lines, the first line gives the path and the others a header
    map, and the map alone decides between the 400 and the 101 response.
    Strings are PHP strings of one-byte characters; the SHA-1 and base64
    steps of the accept value are a function the caller passes in. */
module Handshake {
  import opened Base

  /** The characters PHP's `trim()` removes when given no list. */
  const Whitespace: set<char> := {' ', '\t', '\n', '\r', '\0', '\U{000B}'}

  /** The key suffix of section 4.2.2 of RFC 6455. */
  const Guid: string := "258EAFA5-E914-47DA-95CA-C5AB0DC85B11"

  const BadRequest: string := "HTTP/1.1 400 Bad Request\r\n\r\n"
  const SwitchingStatus: string := "HTTP/1.1 101 Switching Protocols"

  /** s holds neither CR nor LF. */
  predicate NoLineBreak(s: string)
  {
    forall i :: 0 <= i < |s| ==> s[i] != '\r' && s[i] != '\n'
  }

  lemma NoLineBreakConcat(a: string, b: string)
    ensures NoLineBreak(a + b) <==> NoLineBreak(a) && NoLineBreak(b)
  {
    if NoLineBreak(a) && NoLineBreak(b) {
      forall i | 0 <= i < |a + b| ensures (a + b)[i] != '\r' && (a + b)[i] != '\n' {
        if i >= |a| { assert (a + b)[i] == b[i - |a|]; }
      }
    }
    if NoLineBreak(a + b) {
      forall i | 0 <= i < |a| ensures a[i] != '\r' && a[i] != '\n' {
        assert (a + b)[i] == a[i];
      }
      forall i | 0 <= i < |b| ensures b[i] != '\r' && b[i] != '\n' {
        assert (a + b)[|a| + i] == b[i];
      }
    }
  }

  // ---------------------------------------------------------------------
  // Reading the request

  /** A line the reader passes through unchanged: no line break, and not
      one of the falsy strings that end the block. */
  predicate PlainLine(l: string)
  {
    NoLineBreak(l) && !PhpFalsyString(l)
  }

  predicate PlainLines(ls: seq<string>)
  {
    forall i :: 0 <= i < |ls| ==> PlainLine(ls[i])
  }

  /** The header-reading loop. `buffer` is the line being read and `lines`
      the lines pushed so far. The end of the input stands for the read
      retries running out: the pending buffer is pushed, even when empty,
      and reading stops. A `\r` is dropped wherever it appears; a `\n`
      pushes the buffer, unless the buffer is falsy ("" or "0"), in which
      case the block ends and the rest of the input is left unread. */
  function ReadLines(input: string, buffer: string, lines: seq<string>): (seq<string>, string)
    decreases |input|
  {
    if |input| == 0 then (lines + [buffer], [])
    else if input[0] == '\r' then ReadLines(input[1..], buffer, lines)
    else if input[0] == '\n' then
      if PhpFalsyString(buffer) then (lines, input[1..])
      else ReadLines(input[1..], "", lines + [buffer])
    else ReadLines(input[1..], buffer + [input[0]], lines)
  }

  /** The request lines, and the input left after the blank line. */
  function ReadRequest(input: string): (seq<string>, string)
  {
    ReadLines(input, "", [])
  }

  /** Lines as a client writes them, each ended by CR LF. */
  function Render(lines: seq<string>): string
  {
    if |lines| == 0 then "" else lines[0] + "\r\n" + Render(lines[1..])
  }

  /** The characters of s other than `\r`. */
  function DropCr(s: string): (r: string)
    ensures '\r' !in r
    ensures |r| <= |s|
  {
    if |s| == 0 then "" else (if s[0] == '\r' then "" else [s[0]]) + DropCr(s[1..])
  }

  /** Characters that are neither CR nor LF are appended to the buffer. */
  lemma {:induction false} ReadPlain(text: string, rest: string, buffer: string, lines: seq<string>)
    requires NoLineBreak(text)
    ensures ReadLines(text + rest, buffer, lines) == ReadLines(rest, buffer + text, lines)
  {
    if |text| == 0 {
      assert text + rest == rest;
      assert buffer + text == buffer;
    } else {
      assert (text + rest)[1..] == text[1..] + rest;
      assert buffer + text == (buffer + [text[0]]) + text[1..];
      ReadPlain(text[1..], rest, buffer + [text[0]], lines);
    }
  }

  /** CR LF after a line pushes it. */
  lemma ReadCrLf(rest: string, buffer: string, lines: seq<string>)
    requires !PhpFalsyString(buffer)
    ensures ReadLines("\r\n" + rest, buffer, lines) == ReadLines(rest, "", lines + [buffer])
  {
    var s := "\r\n" + rest;
    assert s[0] == '\r';
    assert s[1..] == "\n" + rest;
    assert s[1..][1..] == rest;
  }

  /** CR LF after a blank or "0" line ends the block. */
  lemma ReadCrLfEnd(rest: string, buffer: string, lines: seq<string>)
    requires PhpFalsyString(buffer)
    ensures ReadLines("\r\n" + rest, buffer, lines) == (lines, rest)
  {
    var s := "\r\n" + rest;
    assert s[0] == '\r';
    assert s[1..] == "\n" + rest;
    assert s[1..][1..] == rest;
  }

  /** Lines ended by CR LF are read one by one. */
  lemma {:induction false} ReadRenderedLines(ls: seq<string>, rest: string, lines: seq<string>)
    requires PlainLines(ls)
    ensures ReadLines(Render(ls) + rest, "", lines) == ReadLines(rest, "", lines + ls)
  {
    if |ls| == 0 {
      assert Render(ls) + rest == rest;
      assert lines + ls == lines;
    } else {
      var l := ls[0];
      assert PlainLine(l);
      assert PlainLines(ls[1..]) by {
        forall i | 0 <= i < |ls| - 1 ensures PlainLine(ls[1..][i]) {
          assert ls[1..][i] == ls[i + 1];
        }
      }
      var next := Render(ls[1..]) + rest;
      assert Render(ls) + rest == l + ("\r\n" + next);
      assert ReadLines(l + ("\r\n" + next), "", lines) == ReadLines("\r\n" + next, l, lines) by {
        ReadPlain(l, "\r\n" + next, "", lines);
        assert "" + l == l;
      }
      ReadCrLf(next, l, lines);
      ReadRenderedLines(ls[1..], rest, lines + [l]);
      assert lines + [l] + ls[1..] == lines + ls;
    }
  }

  /** A request whose lines are neither blank nor "0", followed by a blank
      line, reads back as those lines; what follows the blank line is left
      unread. */
  lemma ReadRenderedRequest(ls: seq<string>, body: string)
    requires PlainLines(ls)
    ensures ReadRequest(Render(ls) + "\r\n" + body) == (ls, body)
  {
    var rest := "\r\n" + body;
    assert Render(ls) + "\r\n" + body == Render(ls) + rest;
    ReadRenderedLines(ls, rest, []);
    assert [] + ls == ls;
    ReadCrLfEnd(body, "", ls);
  }

  /** A line holding only "0" counts as the blank line that ends the block. */
  lemma ZeroLineEndsRequest(ls: seq<string>, body: string)
    requires PlainLines(ls)
    ensures ReadRequest(Render(ls) + "0\r\n" + body) == (ls, body)
  {
    var rest := "0\r\n" + body;
    assert Render(ls) + "0\r\n" + body == Render(ls) + rest;
    ReadRenderedLines(ls, rest, []);
    assert [] + ls == ls;
    var crlf := "\r\n" + body;
    assert ReadLines(rest, "", ls) == ReadLines(crlf, "0", ls) by {
      ZeroThenCrLf(body);
      assert "" + ['0'] == "0";
    }
    ReadCrLfEnd(body, "0", ls);
  }

  lemma ZeroThenCrLf(body: string)
    ensures var s := "0\r\n" + body; |s| > 0 && s[0] == '0' && s[1..] == "\r\n" + body
  {
  }

  /** Reading up to the end of an input without a line feed. */
  lemma {:induction false} ReadToEnd(text: string, buffer: string, lines: seq<string>)
    requires '\n' !in text
    ensures ReadLines(text, buffer, lines) == (lines + [buffer + DropCr(text)], [])
  {
    if |text| == 0 {
      assert buffer + DropCr(text) == buffer;
    } else if text[0] == '\r' {
      ReadToEnd(text[1..], buffer, lines);
      assert DropCr(text) == "" + DropCr(text[1..]) == DropCr(text[1..]);
    } else {
      ReadToEnd(text[1..], buffer + [text[0]], lines);
      assert buffer + DropCr(text) == buffer + [text[0]] + DropCr(text[1..]);
    }
  }

  /** One line of any shape: up to the next line feed, the characters are
      added to the buffer with every `\r` dropped; the line feed then pushes
      the line, or ends the block when the line is falsy. */
  lemma {:induction false} ReadLineStep(text: string, rest: string, buffer: string, lines: seq<string>)
    requires '\n' !in text
    ensures var l := buffer + DropCr(text);
      ReadLines(text + "\n" + rest, buffer, lines)
        == (if PhpFalsyString(l) then (lines, rest) else ReadLines(rest, "", lines + [l]))
  {
    var s := text + "\n" + rest;
    if |text| == 0 {
      assert s == "\n" + rest;
      assert s[1..] == rest;
      assert buffer + DropCr(text) == buffer;
    } else {
      assert s[0] == text[0];
      assert s[1..] == text[1..] + "\n" + rest;
      if text[0] == '\r' {
        ReadLineStep(text[1..], rest, buffer, lines);
        assert DropCr(text) == "" + DropCr(text[1..]) == DropCr(text[1..]);
      } else {
        ReadLineStep(text[1..], rest, buffer + [text[0]], lines);
        assert buffer + DropCr(text) == buffer + [text[0]] + DropCr(text[1..]);
      }
    }
  }

  /** When the input ends before the blank line, the partial line (without
      its `\r` characters) is pushed as a last line and parsing goes on. */
  lemma CutRequestKeepsPartialLine(ls: seq<string>, partial: string)
    requires PlainLines(ls)
    requires '\n' !in partial
    ensures ReadRequest(Render(ls) + partial) == (ls + [DropCr(partial)], [])
  {
    ReadRenderedLines(ls, partial, []);
    ReadToEnd(partial, "", [] + ls);
    assert [] + ls == ls;
    assert "" + DropCr(partial) == DropCr(partial);
  }

  // ---------------------------------------------------------------------
  // PHP's explode and trim

  /** `explode(sep, s)`: the pieces between occurrences of `sep`. */
  function Explode(sep: char, s: string): (parts: seq<string>)
    ensures |parts| >= 1
    decreases |s|
  {
    if |s| == 0 then [""]
    else
      var tail := Explode(sep, s[1..]);
      if s[0] == sep then [""] + tail else [[s[0]] + tail[0]] + tail[1..]
  }

  /** `implode(sep, parts)`, the inverse of `Explode`. */
  function Join(sep: char, parts: seq<string>): string
    requires |parts| >= 1
  {
    if |parts| == 1 then parts[0] else parts[0] + [sep] + Join(sep, parts[1..])
  }

  /** Joining the pieces with the separator gives the string back. */
  lemma {:induction false} JoinExplode(sep: char, s: string)
    ensures Join(sep, Explode(sep, s)) == s
    decreases |s|
  {
    if |s| > 0 {
      var tail := Explode(sep, s[1..]);
      JoinExplode(sep, s[1..]);
      if s[0] == sep {
        assert ([""] + tail)[1..] == tail;
        assert s == [sep] + s[1..];
      } else {
        var parts := [[s[0]] + tail[0]] + tail[1..];
        if |tail| > 1 {
          assert parts[1..] == tail[1..];
          assert Join(sep, tail) == tail[0] + [sep] + Join(sep, tail[1..]);
        }
        assert s == [s[0]] + s[1..];
      }
    }
  }

  lemma {:induction false} ExplodeWhole(sep: char, a: string)
    requires sep !in a
    ensures Explode(sep, a) == [a]
    decreases |a|
  {
    if |a| > 0 {
      ExplodeWhole(sep, a[1..]);
      assert a == [a[0]] + a[1..];
    }
  }

  lemma {:induction false} ExplodeCons(sep: char, a: string, rest: string)
    requires sep !in a
    ensures Explode(sep, a + [sep] + rest) == [a] + Explode(sep, rest)
    decreases |a|
  {
    var s := a + [sep] + rest;
    if |a| == 0 {
      assert s[1..] == rest;
    } else {
      assert s[1..] == a[1..] + [sep] + rest;
      ExplodeCons(sep, a[1..], rest);
      assert a == [a[0]] + a[1..];
    }
  }

  /** Exploding pieces that do not hold the separator, joined by it, gives
      the pieces back. */
  lemma {:induction false} ExplodeJoin(sep: char, parts: seq<string>)
    requires |parts| >= 1
    requires forall i :: 0 <= i < |parts| ==> sep !in parts[i]
    ensures Explode(sep, Join(sep, parts)) == parts
  {
    if |parts| == 1 {
      ExplodeWhole(sep, parts[0]);
    } else {
      ExplodeJoin(sep, parts[1..]);
      ExplodeCons(sep, parts[0], Join(sep, parts[1..]));
    }
  }

  /** `$parts[$i]` after `explode`, where a missing index gives PHP's null
      and `trim(null)` the empty string. */
  function Field(parts: seq<string>, i: nat): string
  {
    if i < |parts| then parts[i] else ""
  }

  function TrimLeft(s: string, cut: set<char>): (r: string)
    ensures |r| <= |s|
    decreases |s|
  {
    if |s| > 0 && s[0] in cut then TrimLeft(s[1..], cut) else s
  }

  function TrimRight(s: string, cut: set<char>): (r: string)
    ensures |r| <= |s|
    decreases |s|
  {
    if |s| > 0 && s[|s| - 1] in cut then TrimRight(s[..|s| - 1], cut) else s
  }

  /** `trim(s, cut)`. */
  function Trim(s: string, cut: set<char>): string
  {
    TrimRight(TrimLeft(s, cut), cut)
  }

  /** Neither end of s is a character of `cut`. */
  predicate Trimmed(s: string, cut: set<char>)
  {
    |s| > 0 ==> s[0] !in cut && s[|s| - 1] !in cut
  }

  predicate AllIn(s: string, cut: set<char>)
  {
    forall i :: 0 <= i < |s| ==> s[i] in cut
  }

  lemma {:induction false} TrimLeftPadded(pre: string, core: string, cut: set<char>)
    requires AllIn(pre, cut)
    requires |core| > 0 ==> core[0] !in cut
    ensures TrimLeft(pre + core, cut) == core
    decreases |pre|
  {
    if |pre| == 0 {
      assert pre + core == core;
    } else {
      assert (pre + core)[1..] == pre[1..] + core;
      TrimLeftPadded(pre[1..], core, cut);
    }
  }

  lemma {:induction false} TrimRightPadded(core: string, post: string, cut: set<char>)
    requires AllIn(post, cut)
    requires |core| > 0 ==> core[|core| - 1] !in cut
    ensures TrimRight(core + post, cut) == core
    decreases |post|
  {
    if |post| == 0 {
      assert core + post == core;
    } else {
      var s := core + post;
      assert s[..|s| - 1] == core + post[..|post| - 1];
      TrimRightPadded(core, post[..|post| - 1], cut);
    }
  }

  /** Trimming removes exactly the padding: a core whose ends are kept,
      surrounded by characters of `cut`, is what remains. */
  lemma TrimPadded(pre: string, core: string, post: string, cut: set<char>)
    requires AllIn(pre, cut) && AllIn(post, cut)
    requires Trimmed(core, cut)
    ensures Trim(pre + core + post, cut) == core
  {
    if |core| == 0 {
      assert pre + core + post == pre + post;
      TrimLeftPadded(pre + post, "", cut);
      assert pre + post + "" == pre + post;
      TrimRightPadded("", "", cut);
    } else {
      assert pre + core + post == pre + (core + post);
      TrimLeftPadded(pre, core + post, cut);
      TrimRightPadded(core, post, cut);
    }
  }

  lemma {:induction false} TrimLeftSplits(s: string, cut: set<char>)
    ensures exists k :: 0 <= k <= |s| && AllIn(s[..k], cut) && s[k..] == TrimLeft(s, cut)
    ensures |TrimLeft(s, cut)| > 0 ==> TrimLeft(s, cut)[0] !in cut
    decreases |s|
  {
    if |s| > 0 && s[0] in cut {
      TrimLeftSplits(s[1..], cut);
      var k :| 0 <= k <= |s[1..]| && AllIn(s[1..][..k], cut) && s[1..][k..] == TrimLeft(s[1..], cut);
      assert s[1 + k..] == s[1..][k..];
      var head := s[..1 + k];
      assert AllIn(head, cut) by {
        forall i | 0 <= i < |head| ensures head[i] in cut {
          if i > 0 { assert head[i] == s[1..][..k][i - 1]; }
        }
      }
    } else {
      assert s[..0] == "" && s[0..] == s;
    }
  }

  lemma {:induction false} TrimRightSplits(s: string, cut: set<char>)
    ensures exists k :: 0 <= k <= |s| && AllIn(s[k..], cut) && s[..k] == TrimRight(s, cut)
    ensures |TrimRight(s, cut)| > 0 ==> TrimRight(s, cut)[|TrimRight(s, cut)| - 1] !in cut
    decreases |s|
  {
    var n := |s|;
    if n > 0 && s[n - 1] in cut {
      var u := s[..n - 1];
      TrimRightSplits(u, cut);
      var k :| 0 <= k <= |u| && AllIn(u[k..], cut) && u[..k] == TrimRight(u, cut);
      assert s[..k] == u[..k];
      assert AllIn(s[k..], cut) by {
        forall i | 0 <= i < n - k ensures s[k..][i] in cut {
          if k + i < n - 1 { assert s[k..][i] == u[k..][i]; }
        }
      }
    } else {
      assert s[n..] == "" && s[..n] == s;
    }
  }

  /** `trim` leaves a string whose ends are kept characters, so trimming
      again changes nothing. */
  lemma TrimTrimmed(s: string, cut: set<char>)
    ensures Trimmed(Trim(s, cut), cut)
    ensures Trim(Trim(s, cut), cut) == Trim(s, cut)
  {
    var l := TrimLeft(s, cut);
    TrimLeftSplits(s, cut);
    TrimRightSplits(l, cut);
    var j :| 0 <= j <= |l| && AllIn(l[j..], cut) && l[..j] == TrimRight(l, cut);
    var t := Trim(s, cut);
    if |t| > 0 {
      assert t[0] == l[0];
    }
    TrimPadded("", t, "", cut);
    assert "" + t + "" == t;
  }

  /** What `trim` removes is only characters of `cut`: the result is a
      slice of s with nothing but such characters on either side. */
  lemma TrimIsSlice(s: string, cut: set<char>)
    ensures exists i, j ::
      0 <= i <= j <= |s| && s[i..j] == Trim(s, cut) && AllIn(s[..i], cut) && AllIn(s[j..], cut)
  {
    var l := TrimLeft(s, cut);
    TrimLeftSplits(s, cut);
    var i :| 0 <= i <= |s| && AllIn(s[..i], cut) && s[i..] == l;
    TrimRightSplits(l, cut);
    var j :| 0 <= j <= |l| && AllIn(l[j..], cut) && l[..j] == TrimRight(l, cut);
    assert s[i..i + j] == l[..j] == Trim(s, cut);
    assert s[i + j..] == l[j..];
  }

  // ---------------------------------------------------------------------
  // Parsing the request lines

  /** The key of a header line: the text before its first colon. */
  function Name(line: string): string
  {
    Explode(':', line)[0]
  }

  /** The value of a header line: the trimmed text between its first and
      second colon, or "" when there is no colon. */
  function Value(line: string): string
  {
    Trim(Field(Explode(':', line), 1), Whitespace)
  }

  /** `$headers[$key] = trim($value)` over the header lines in order. */
  function Headers(lines: seq<string>): map<string, string>
  {
    if |lines| == 0 then map[]
    else Headers(lines[..|lines| - 1])[Name(lines[|lines| - 1]) := Value(lines[|lines| - 1])]
  }

  datatype Request = Request(path: Option<string>, headers: map<string, string>)

  /** The path (`false` when no line was read) is the second space-separated
      field of the request line with `/` trimmed from both ends; every other
      line is a header line. */
  function ParseRequest(lines: seq<string>): Request
  {
    if |lines| == 0 then Request(None, map[])
    else Request(Some(Trim(Field(Explode(' ', lines[0]), 1), {'/'})), Headers(lines[1..]))
  }

  /** A header is present exactly when some line names it. */
  lemma {:induction false} HeaderPresent(lines: seq<string>, key: string)
    ensures key in Headers(lines) <==> exists i :: 0 <= i < |lines| && Name(lines[i]) == key
  {
    if |lines| > 0 {
      var init := lines[..|lines| - 1];
      HeaderPresent(init, key);
      if key in Headers(init) {
        var i :| 0 <= i < |init| && Name(init[i]) == key;
        assert lines[i] == init[i];
      }
      if exists i :: 0 <= i < |lines| && Name(lines[i]) == key {
        var i :| 0 <= i < |lines| && Name(lines[i]) == key;
        if i < |init| {
          assert init[i] == lines[i];
        }
      }
    }
  }

  /** The last line naming a header gives its value. */
  lemma {:induction false} HeaderLastWins(lines: seq<string>, i: nat)
    requires i < |lines|
    requires forall j :: i < j < |lines| ==> Name(lines[j]) != Name(lines[i])
    ensures Name(lines[i]) in Headers(lines)
    ensures Headers(lines)[Name(lines[i])] == Value(lines[i])
  {
    if i < |lines| - 1 {
      var init := lines[..|lines| - 1];
      assert init[i] == lines[i];
      forall j | i < j < |init| ensures Name(init[j]) != Name(init[i]) {
        assert init[j] == lines[j];
      }
      HeaderLastWins(init, i);
    }
  }

  /** A header line keeps only what lies between its first and second
      colon: `Host: a:80` gives `Host` the value `a`. */
  lemma HeaderLineParts(name: string, value: string, more: string)
    requires ':' !in name && ':' !in value
    ensures Name(name + ":" + value) == name
    ensures Value(name + ":" + value) == Trim(value, Whitespace)
    ensures Name(name + ":" + value + ":" + more) == name
    ensures Value(name + ":" + value + ":" + more) == Trim(value, Whitespace)
  {
    ExplodeCons(':', name, value);
    ExplodeWhole(':', value);
    assert name + ":" + value == name + [':'] + value;
    var line := name + ":" + value + ":" + more;
    assert line == name + [':'] + (value + [':'] + more);
    ExplodeCons(':', name, value + [':'] + more);
    ExplodeCons(':', value, more);
  }

  /** The path is the request target with its slashes trimmed: for
      `GET /chat/ HTTP/1.1` it is `chat`. */
  lemma PathOfRequestLine(verb: string, target: string, version: string, headers: seq<string>)
    requires ' ' !in verb && ' ' !in target
    ensures ParseRequest([verb + " " + target + " " + version] + headers).path
      == Some(Trim(target, {'/'}))
  {
    var line := verb + " " + target + " " + version;
    assert line == verb + [' '] + (target + [' '] + version);
    ExplodeCons(' ', verb, target + [' '] + version);
    ExplodeCons(' ', target, version);
    assert ([line] + headers)[0] == line;
  }

  // ---------------------------------------------------------------------
  // The verdict and the response

  /** `Connection` is exactly `Upgrade`, and `Sec-WebSocket-Version` is
      present and truthy. `!($v) == 13` compares a boolean with 13, so only
      a falsy version is refused, whatever its number. */
  predicate Accepts(h: map<string, string>)
  {
    && "Connection" in h && h["Connection"] == "Upgrade"
    && "Sec-WebSocket-Version" in h && !PhpFalsyString(h["Sec-WebSocket-Version"])
  }

  /** `$headers['Sec-WebSocket-Key']`, where a missing key concatenates as
      the empty string. */
  function Key(h: map<string, string>): string
  {
    if "Sec-WebSocket-Key" in h then h["Sec-WebSocket-Key"] else ""
  }

  const UpgradeLine: string := "Upgrade: WebSocket"
  const ConnectionLine: string := "Connection: Upgrade"
  const AcceptPrefix: string := "Sec-WebSocket-Accept: "
  const ProtocolLine: string := "Sec-WebSocket-Protocol: chat"
  const CrLf: string := "\r\n"

  /** The header lines of the 101 response. */
  function SwitchingLines(accept: string, protocol: bool): seq<string>
  {
    [SwitchingStatus, UpgradeLine, ConnectionLine, AcceptPrefix + accept]
      + (if protocol then [ProtocolLine] else [])
  }

  /** The 101 response with a given accept value; the protocol line names
      `chat` whatever protocols the request offered. */
  function SwitchingText(accept: string, protocol: bool): string
  {
    SwitchingStatus + CrLf + (UpgradeLine + CrLf) + (ConnectionLine + CrLf) + (AcceptPrefix + accept + CrLf)
      + (if protocol then ProtocolLine + CrLf + CrLf else CrLf)
  }

  /** The text written back. `acceptOf` stands for
      `base64_encode(sha1(·, true))`. */
  function Response(h: map<string, string>, acceptOf: string -> string): (r: string)
    ensures r == BadRequest <==> !Accepts(h)
  {
    if !Accepts(h) then BadRequest
    else
      var r := SwitchingText(acceptOf(Key(h) + Guid), "Sec-WebSocket-Protocol" in h);
      assert r[9] == '1' != BadRequest[9];
      r
  }

  lemma RenderFour(l0: string, l1: string, l2: string, l3: string)
    ensures Render([l0, l1, l2, l3]) == l0 + CrLf + (l1 + CrLf) + (l2 + CrLf) + (l3 + CrLf)
  {
    assert Render([l0]) == l0 + CrLf by {
      assert [l0][1..] == [];
    }
    RenderSnoc([l0], l1);
    assert [l0] + [l1] == [l0, l1];
    RenderSnoc([l0, l1], l2);
    assert [l0, l1] + [l2] == [l0, l1, l2];
    RenderSnoc([l0, l1, l2], l3);
    assert [l0, l1, l2] + [l3] == [l0, l1, l2, l3];
  }

  /** The 101 text is its header lines, each ended by CR LF, and a blank
      line. */
  lemma SwitchingTextRendered(accept: string, protocol: bool)
    ensures SwitchingText(accept, protocol) == Render(SwitchingLines(accept, protocol)) + CrLf
  {
    var l0, l1, l2, l3 := SwitchingStatus, UpgradeLine, ConnectionLine, AcceptPrefix + accept;
    var four := [l0, l1, l2, l3];
    var r4 := l0 + CrLf + (l1 + CrLf) + (l2 + CrLf) + (l3 + CrLf);
    RenderFour(l0, l1, l2, l3);
    if protocol {
      assert SwitchingLines(accept, protocol) == four + [ProtocolLine];
      RenderSnoc(four, ProtocolLine);
      assert SwitchingText(accept, protocol) == r4 + (ProtocolLine + CrLf) + CrLf;
    } else {
      assert SwitchingLines(accept, protocol) == four + [] == four;
      assert SwitchingText(accept, protocol) == r4 + CrLf;
    }
  }

  /** The 101 response read back line by line gives the status line,
      `Upgrade`, `Connection`, the accept value for the request's key, and
      the protocol line exactly when the request named a protocol. */
  lemma SwitchingResponseLines(h: map<string, string>, acceptOf: string -> string)
    requires Accepts(h)
    requires NoLineBreak(acceptOf(Key(h) + Guid))
    ensures ReadRequest(Response(h, acceptOf))
      == (SwitchingLines(acceptOf(Key(h) + Guid), "Sec-WebSocket-Protocol" in h), "")
  {
    var accept := acceptOf(Key(h) + Guid);
    var protocol := "Sec-WebSocket-Protocol" in h;
    var ls := SwitchingLines(accept, protocol);
    SwitchingLinesPlain(accept, protocol);
    SwitchingTextRendered(accept, protocol);
    assert Response(h, acceptOf) == Render(ls) + "\r\n" + "";
    ReadRenderedRequest(ls, "");
  }

  lemma StatusLinePlain()
    ensures PlainLine(SwitchingStatus)
  {
  }

  lemma UpgradeLinePlain()
    ensures PlainLine(UpgradeLine)
  {
  }

  lemma ConnectionLinePlain()
    ensures PlainLine(ConnectionLine)
  {
  }

  lemma ProtocolLinePlain()
    ensures PlainLine(ProtocolLine)
  {
  }

  lemma AcceptPrefixPlain()
    ensures NoLineBreak(AcceptPrefix) && |AcceptPrefix| > 1
  {
  }

  lemma SwitchingLinesPlain(accept: string, protocol: bool)
    requires NoLineBreak(accept)
    ensures var ls := SwitchingLines(accept, protocol);
      PlainLines(ls)
  {
    var ls := SwitchingLines(accept, protocol);
    var l3 := AcceptPrefix + accept;
    StatusLinePlain();
    UpgradeLinePlain();
    ConnectionLinePlain();
    ProtocolLinePlain();
    AcceptPrefixPlain();
    NoLineBreakConcat(AcceptPrefix, accept);
    assert PlainLine(l3) by { assert |l3| > 1; }
    assert ls[0] == SwitchingStatus && ls[1] == UpgradeLine && ls[2] == ConnectionLine && ls[3] == l3;
    assert protocol ==> ls[4] == ProtocolLine;
  }

  lemma {:induction false} RenderSnoc(ls: seq<string>, l: string)
    ensures Render(ls + [l]) == Render(ls) + (l + "\r\n")
  {
    if |ls| == 0 {
      assert ls + [l] == [l];
    } else {
      assert (ls + [l])[1..] == ls[1..] + [l];
      RenderSnoc(ls[1..], l);
    }
  }
}
