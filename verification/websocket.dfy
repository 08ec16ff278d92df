/**
  The WebSocket upgrade of websocket/main.go: a request is checked in a fixed
  order (method, `Upgrade`, `Connection`, version, key), the first failing check
  decides the error, and only a request that passes all five gets its connection
  hijacked and a `101 Switching Protocols` response carrying the accept key.

  The model follows the code where it departs from section 4.2.2 of RFC 6455:
  the version is read under the misspelled name `Sec-Websocket-Vesion`, the
  `Upgrade` value is compared case-sensitively, `Connection` is searched for the
  substring `Upgrade`, the key is not decoded, and the accept key is the
  base 32 (not base 64) encoding of the SHA-1 digest.

  SHA-1 itself is not modelled: it is a parameter `sha1` mapping a (byte) string
  to a 20-byte digest.
 */
module WebSocket {
  import opened Wrappers
  import HttpHeader
  import Base32

  /** The frame opcodes the file declares; nothing in it uses them. */
  datatype Opcode = Continuation | Text | Binary | Close | Ping | Pong {
    function Code(): nat {
      match this
      case Continuation => 0x0
      case Text => 0x1
      case Binary => 0x2
      case Close => 0x8
      case Ping => 0x9
      case Pong => 0xA
    }
  }

  function OpcodeOf(code: nat): (op: Option<Opcode>)
    ensures op.Some? ==> op.value.Code() == code
  {
    match code
    case 0x0 => Some(Continuation)
    case 0x1 => Some(Text)
    case 0x2 => Some(Binary)
    case 0x8 => Some(Close)
    case 0x9 => Some(Ping)
    case 0xA => Some(Pong)
    case _ => None
  }

  /** Every opcode is recovered from its code, and the six codes are the only ones recognised. */
  lemma OpcodeCodes(op: Opcode, code: nat)
    ensures OpcodeOf(op.Code()) == Some(op)
    ensures OpcodeOf(code).Some? <==> code in {0x0, 0x1, 0x2, 0x8, 0x9, 0xA}
  {
  }

  /** The hijacked network connection, as an opaque handle. */
  type ConnId = nat

  /** The `Websocket` struct: its connection and whether it has been closed. */
  datatype Websocket = Websocket(conn: ConnId, closed: bool)

  /** What the upgrade check reads from an `*http.Request`. */
  datatype Request = Request(httpMethod: string, header: HttpHeader.Header)

  /** The five rejections of the validation sequence, in check order. */
  datatype HandshakeError =
    | MethodNotGet
    | UpgradeNotWebsocket
    | ConnectionWithoutUpgrade
    | VersionNot13
    | MissingKey
  {
    function Message(): string {
      match this
      case MethodNotGet => "method must be GET"
      case UpgradeNotWebsocket => "upgrade header must be websocket"
      case ConnectionWithoutUpgrade => "connection header must contain Upgrade"
      case VersionNot13 => "websocket version must be 13"
      case MissingKey => "missing Sec-Websocket-Key"
    }
  }

  /** Header names exactly as the code spells them. */
  const UpgradeName: string := "Upgrade"
  const ConnectionName: string := "Connection"
  const VersionName: string := "Sec-Websocket-Vesion"
  const KeyName: string := "Sec-WebSocket-Key"

  /** The GUID appended to the client key before hashing. */
  const MagicString: string := "258EAFA5-E914-47DA-95CA-C5AB0DC85B11"

  /** `sub` occurs in `s` starting at `i`. */
  predicate OccursAt(s: string, sub: string, i: int) {
    0 <= i && i + |sub| <= |s| && s[i..i + |sub|] == sub
  }

  /** Go's `strings.Contains`, as a left-to-right scan. */
  predicate Contains(s: string, sub: string)
    decreases |s|
  {
    OccursAt(s, sub, 0) || (|s| > 0 && Contains(s[1..], sub))
  }

  /** The scan finds `sub` exactly when it occurs at some position of `s`. */
  lemma {:induction false} ContainsIffOccurs(s: string, sub: string)
    ensures Contains(s, sub) <==> exists i :: OccursAt(s, sub, i)
    decreases |s|
  {
    if |s| > 0 {
      ContainsIffOccurs(s[1..], sub);
      if Contains(s[1..], sub) {
        var i :| OccursAt(s[1..], sub, i);
        assert s[1..][i..i + |sub|] == s[i + 1..i + 1 + |sub|];
        assert OccursAt(s, sub, i + 1);
      }
      if i :| OccursAt(s, sub, i) && i > 0 {
        assert s[1..][i - 1..i - 1 + |sub|] == s[i..i + |sub|];
        assert OccursAt(s[1..], sub, i - 1);
      }
    } else if i :| OccursAt(s, sub, i) {
      assert i == 0;
    }
  }

  /** Whatever surrounds it, `sub` is found. */
  lemma ContainsWithin(before: string, sub: string, after: string)
    ensures Contains(before + sub + after, sub)
  {
    var s := before + sub + after;
    assert OccursAt(s, sub, |before|) by {
      assert s[|before|..|before| + |sub|] == sub;
    }
    ContainsIffOccurs(s, sub);
  }

  predicate MethodOk(req: Request) {
    req.httpMethod == "GET"
  }

  predicate UpgradeOk(req: Request) {
    HttpHeader.Get(req.header, UpgradeName) == "websocket"
  }

  predicate ConnectionOk(req: Request) {
    Contains(HttpHeader.Get(req.header, ConnectionName), "Upgrade")
  }

  predicate VersionOk(req: Request) {
    HttpHeader.Get(req.header, VersionName) == "13"
  }

  predicate KeyOk(req: Request) {
    HttpHeader.Get(req.header, KeyName) != ""
  }

  /**
    The validation sequence of `UpgradeToWebSocket`: the first check that fails
    decides the error; a request passing all five yields its client key.
   */
  function Validate(req: Request): (r: Result<string, HandshakeError>)
    ensures !MethodOk(req) ==> r == Failure(MethodNotGet)
    ensures MethodOk(req) && !UpgradeOk(req) ==> r == Failure(UpgradeNotWebsocket)
    ensures MethodOk(req) && UpgradeOk(req) && !ConnectionOk(req) ==> r == Failure(ConnectionWithoutUpgrade)
    ensures MethodOk(req) && UpgradeOk(req) && ConnectionOk(req) && !VersionOk(req) ==> r == Failure(VersionNot13)
    ensures MethodOk(req) && UpgradeOk(req) && ConnectionOk(req) && VersionOk(req) && !KeyOk(req) ==> r == Failure(MissingKey)
    ensures r.Success? <==> MethodOk(req) && UpgradeOk(req) && ConnectionOk(req) && VersionOk(req) && KeyOk(req)
    ensures r.Success? ==> r.value == HttpHeader.Get(req.header, KeyName) && r.value != ""
  {
    if req.httpMethod != "GET" then Failure(MethodNotGet)
    else if HttpHeader.Get(req.header, UpgradeName) != "websocket" then Failure(UpgradeNotWebsocket)
    else if !Contains(HttpHeader.Get(req.header, ConnectionName), "Upgrade") then Failure(ConnectionWithoutUpgrade)
    else
      var wsVersion := HttpHeader.Get(req.header, VersionName);
      if wsVersion != "13" then Failure(VersionNot13)
      else
        var key := HttpHeader.Get(req.header, KeyName);
        if key == "" then Failure(MissingKey) else Success(key)
  }

  /** A SHA-1 digest: 20 bytes. */
  type Digest = d: seq<Base32.byte> | |d| == 20 witness seq(20, _ => 0)

  /**
    `computAcceptKey`: the base 32 text of the SHA-1 digest of the client key
    followed by the GUID. It is 32 symbols of `A-Z2-7` with no padding, and it
    decodes back to that digest.
   */
  function AcceptKey(sha1: string -> Digest, key: string): (accept: string)
    ensures |accept| == 32
    ensures forall i :: 0 <= i < |accept| ==> Base32.IsSymbol(accept[i])
    ensures Base32.Decode(accept) == Some(sha1(key + MagicString))
  {
    var digest := sha1(key + MagicString);
    Base32.DigestEncoding(digest);
    Base32.DecodeEncode(digest);
    Base32.Encode(digest)
  }

  const Crlf: string := "\r\n"

  const StatusLine: string := "HTTP/1.1 101 Switching Protocols"

  /** The upgrade response written to the hijacked connection. */
  function SwitchingResponse(acceptKey: string): string {
    StatusLine + Crlf
    + "Upgrade: websocket" + Crlf
    + "Connection: Upgrade" + Crlf
    + "Sec-WebSocket-Accept: " + acceptKey + Crlf + Crlf
  }

  /** The lines of a text, split at every CRLF; the text after the last CRLF is the last line. */
  function Lines(s: string): (ls: seq<string>)
    ensures |ls| > 0
    decreases |s|
  {
    if |s| == 0 then [""]
    else if |s| >= 2 && s[0] == '\r' && s[1] == '\n' then [""] + Lines(s[2..])
    else
      var rest := Lines(s[1..]);
      [[s[0]] + rest[0]] + rest[1..]
  }

  predicate NoCr(s: string) {
    forall i :: 0 <= i < |s| ==> s[i] != '\r'
  }

  /** A line without a carriage return, then CRLF, then the rest: the line comes off first. */
  lemma {:induction false} LinesCons(line: string, rest: string)
    requires NoCr(line)
    ensures Lines(line + Crlf + rest) == [line] + Lines(rest)
    decreases |line|
  {
    if |line| > 0 {
      var s := line + Crlf + rest;
      assert s[1..] == line[1..] + Crlf + rest;
      LinesCons(line[1..], rest);
      assert [line[0]] + line[1..] == line;
    } else {
      assert line + Crlf + rest == Crlf + rest;
      assert (Crlf + rest)[2..] == rest;
    }
  }

  /**
    The upgrade response is the status line, the three headers `Upgrade`,
    `Connection` and `Sec-WebSocket-Accept`, and an empty line, each ended by CRLF.
   */
  lemma ResponseLines(acceptKey: string)
    requires NoCr(acceptKey)
    ensures Lines(SwitchingResponse(acceptKey))
      == [StatusLine, "Upgrade: websocket", "Connection: Upgrade", "Sec-WebSocket-Accept: " + acceptKey, "", ""]
  {
    var l4 := "Sec-WebSocket-Accept: " + acceptKey;
    assert NoCr(l4);
    assert NoCr(StatusLine) && NoCr("Upgrade: websocket") && NoCr("Connection: Upgrade") && NoCr("");
    var r4 := Crlf;
    var r3 := l4 + Crlf + r4;
    var r2 := "Connection: Upgrade" + Crlf + r3;
    var r1 := "Upgrade: websocket" + Crlf + r2;
    var r0 := StatusLine + Crlf + r1;
    assert SwitchingResponse(acceptKey) == r0;
    assert "" + Crlf + "" == r4;
    LinesCons("", "");
    LinesCons(l4, r4);
    LinesCons("Connection: Upgrade", r3);
    LinesCons("Upgrade: websocket", r2);
    LinesCons(StatusLine, r1);
  }

  /** How the I/O steps after validation turn out; the network itself is not modelled. */
  datatype IoResult = IoOk | IoErr(err: string)

  /**
    The behaviour of the `http.ResponseWriter` and of the connection behind it:
    whether it supports hijacking, how `Hijack` ends (and the connection it hands
    over), and how the buffered write and flush of the response end.
   */
  datatype Transport = Transport(canHijack: bool, hijack: IoResult, conn: ConnId, write: IoResult, flush: IoResult)

  datatype UpgradeError =
    | Rejected(reason: HandshakeError)
    | NoHijacker
    | IoFailure(err: string)
  {
    function Message(): string {
      match this
      case Rejected(reason) => reason.Message()
      case NoHijacker => "http.ResponseWriter doesn't support hijacking"
      case IoFailure(err) => err
    }
  }

  /** What the upgrade did to the connection: taken over, the text handed to the writer, closed again. */
  datatype Effects = Effects(hijacked: bool, sent: string, connClosed: bool)

  const NoEffects: Effects := Effects(false, "", false)

  datatype Upgraded = Upgraded(result: Result<Websocket, UpgradeError>, effects: Effects)

  /**
    `UpgradeToWebSocket`: a request failing validation is rejected with that
    check's error and the connection is left untouched; a valid one is hijacked
    and sent the switching-protocols response, and the returned `Websocket` is
    open. A connection that was taken over and then failed is closed.
   */
  function UpgradeToWebSocket(sha1: string -> Digest, req: Request, t: Transport): (u: Upgraded)
    ensures Validate(req).Failure? ==> u == Upgraded(Failure(Rejected(Validate(req).error)), NoEffects)
    ensures u.result.Success? <==>
      Validate(req).Success? && t.canHijack && t.hijack == IoOk && t.write == IoOk && t.flush == IoOk
    ensures u.result.Success? ==>
      && u.result.value == Websocket(t.conn, false)
      && u.effects == Effects(true, SwitchingResponse(AcceptKey(sha1, Validate(req).value)), false)
    ensures u.effects.sent != "" ==> u.effects.hijacked
    ensures u.result.Failure? && u.effects.hijacked ==> u.effects.connClosed
  {
    match Validate(req)
    case Failure(e) => Upgraded(Failure(Rejected(e)), NoEffects)
    case Success(key) =>
      var acceptKey := AcceptKey(sha1, key);
      if !t.canHijack then Upgraded(Failure(NoHijacker), NoEffects)
      else if t.hijack.IoErr? then Upgraded(Failure(IoFailure(t.hijack.err)), NoEffects)
      else
        var response := SwitchingResponse(acceptKey);
        if t.write.IoErr? then Upgraded(Failure(IoFailure(t.write.err)), Effects(true, response, true))
        else if t.flush.IoErr? then Upgraded(Failure(IoFailure(t.flush.err)), Effects(true, response, true))
        else Upgraded(Success(Websocket(t.conn, false)), Effects(true, response, false))
  }

  /**
    The response depends on the client key alone: two accepted requests with the
    same `Sec-WebSocket-Key` get the same bytes, whatever else they carry.
   */
  lemma ResponseDependsOnlyOnKey(sha1: string -> Digest, r1: Request, r2: Request, t1: Transport, t2: Transport)
    ensures
      && UpgradeToWebSocket(sha1, r1, t1).result.Success?
      && UpgradeToWebSocket(sha1, r2, t2).result.Success?
      && HttpHeader.Get(r1.header, KeyName) == HttpHeader.Get(r2.header, KeyName)
      ==> UpgradeToWebSocket(sha1, r1, t1).effects.sent == UpgradeToWebSocket(sha1, r2, t2).effects.sent
  {
  }

  /**
    The response sent on success reads back as the status line, the three
    headers, and the blank line, and its accept value decodes to the SHA-1 digest
    of the client key followed by the GUID.
   */
  lemma SentResponseShape(sha1: string -> Digest, req: Request, t: Transport)
    ensures UpgradeToWebSocket(sha1, req, t).result.Success? ==>
      var key := HttpHeader.Get(req.header, KeyName);
      var accept := AcceptKey(sha1, key);
      && Lines(UpgradeToWebSocket(sha1, req, t).effects.sent)
           == [StatusLine, "Upgrade: websocket", "Connection: Upgrade", "Sec-WebSocket-Accept: " + accept, "", ""]
      && Base32.Decode(accept) == Some(sha1(key + MagicString))
  {
    var accept := AcceptKey(sha1, HttpHeader.Get(req.header, KeyName));
    assert NoCr(accept) by {
      forall i | 0 <= i < |accept| ensures accept[i] != '\r' {
        assert Base32.IsSymbol(accept[i]);
      }
    }
    ResponseLines(accept);
  }

  /**
    Only the misspelled name counts as the version header: a request whose header
    lines carry no name equal, up to case, to `Sec-Websocket-Vesion` never passes
    validation, however its `Sec-WebSocket-Version` line reads.
   */
  lemma VersionReadOnlyUnderMisspelledName(httpMethod: string, lines: seq<HttpHeader.Field>, h: HttpHeader.Header)
    requires HttpHeader.FromLines(lines) == Success(h)
    requires HttpHeader.NoLineNamed(lines, VersionName)
    ensures Validate(Request(httpMethod, h)).Failure?
    ensures Validate(Request(httpMethod, h)).error in {MethodNotGet, UpgradeNotWebsocket, ConnectionWithoutUpgrade, VersionNot13}
  {
    VersionNameCanonical();
    HttpHeader.GetFromLines(lines, h, VersionName);
    assert HttpHeader.Get(h, VersionName) == "";
  }

  /** `Sec-Websocket-Vesion` is already in canonical form. */
  lemma VersionNameCanonical()
    ensures HttpHeader.CanonicalKey(VersionName) == VersionName
  {
    assert HttpHeader.ValidFieldName(VersionName) by {}
    assert HttpHeader.IsCanonical(VersionName) by {}
    HttpHeader.CanonicalKeyFixed(VersionName);
  }

  lemma UpgradeNameCanonical()
    ensures HttpHeader.CanonicalKey(UpgradeName) == UpgradeName
  {
    assert HttpHeader.ValidFieldName(UpgradeName) by {}
    assert HttpHeader.IsCanonical(UpgradeName) by {}
    HttpHeader.CanonicalKeyFixed(UpgradeName);
  }

  lemma ConnectionNameCanonical()
    ensures HttpHeader.CanonicalKey(ConnectionName) == ConnectionName
  {
    assert HttpHeader.ValidFieldName(ConnectionName) by {}
    assert HttpHeader.IsCanonical(ConnectionName) by {}
    HttpHeader.CanonicalKeyFixed(ConnectionName);
  }

  /** The server files `Sec-WebSocket-Key` under `Sec-Websocket-Key`. */
  lemma KeyNameCanonical()
    ensures HttpHeader.CanonicalKey(KeyName) == "Sec-Websocket-Key"
  {
    KeyNameFolds();
    HttpHeader.CanonicalKeyByFold(KeyName, "Sec-Websocket-Key");
  }

  lemma KeyNameFolds()
    ensures HttpHeader.ValidFieldName(KeyName)
    ensures HttpHeader.ValidFieldName("Sec-Websocket-Key") && HttpHeader.IsCanonical("Sec-Websocket-Key")
    ensures HttpHeader.EqualFold(KeyName, "Sec-Websocket-Key")
  {
    KeyNameValid();
    StoredKeyNameCanonical();
    KeyNameEqualFold();
  }

  lemma KeyNameValid()
    ensures HttpHeader.ValidFieldName(KeyName)
  {
  }

  lemma StoredKeyNameCanonical()
    ensures HttpHeader.ValidFieldName("Sec-Websocket-Key") && HttpHeader.IsCanonical("Sec-Websocket-Key")
  {
  }

  lemma KeyNameEqualFold()
    ensures HttpHeader.EqualFold(KeyName, "Sec-Websocket-Key")
  {
  }

  /** The header map of the opening handshake shown in section 1.3 of RFC 6455, as the server stores it. */
  const CompliantHeader: HttpHeader.Header := map[
    "Upgrade" := ["websocket"],
    "Connection" := ["Upgrade"],
    "Sec-Websocket-Key" := ["dGhlIHNhbXBsZSBub25jZQ=="],
    "Sec-Websocket-Version" := ["13"]
  ]

  /**
    A handshake that follows RFC 6455 to the letter is rejected with
    "websocket version must be 13": its version travels under the correct name,
    which the code never reads.
   */
  lemma CompliantRequestRejected()
    ensures Validate(Request("GET", CompliantHeader)) == Failure(VersionNot13)
  {
    UpgradeNameCanonical();
    ConnectionNameCanonical();
    VersionNameCanonical();
    assert OccursAt("Upgrade", "Upgrade", 0);
  }

  /** The same handshake carrying the misspelled `Sec-Websocket-Vesion: 13` as well is accepted. */
  lemma MisspelledVersionAccepted()
    ensures Validate(Request("GET", CompliantHeader["Sec-Websocket-Vesion" := ["13"]]))
      == Success("dGhlIHNhbXBsZSBub25jZQ==")
  {
    UpgradeNameCanonical();
    ConnectionNameCanonical();
    VersionNameCanonical();
    KeyNameCanonical();
    assert OccursAt("Upgrade", "Upgrade", 0);
  }

  /**
    The `Connection` check is a case-sensitive substring test, not a token
    match: a token list naming `Upgrade` passes, so does any value with
    `Upgrade` inside a longer word, and a lower-case `upgrade` fails.
   */
  lemma ConnectionTokenListPasses()
    ensures Contains("keep-alive, Upgrade", "Upgrade")
  {
    ContainsWithin("keep-alive, ", "Upgrade", "");
    assert "keep-alive, " + "Upgrade" + "" == "keep-alive, Upgrade";
  }

  lemma ConnectionInsideWordPasses()
    ensures Contains("NoUpgrades", "Upgrade")
  {
    ContainsWithin("No", "Upgrade", "s");
    assert "No" + "Upgrade" + "s" == "NoUpgrades";
  }

  lemma ConnectionLowerCaseFails()
    ensures !Contains("upgrade", "Upgrade")
  {
    ContainsIffOccurs("upgrade", "Upgrade");
    assert "upgrade"[0] != "Upgrade"[0];
  }
}
