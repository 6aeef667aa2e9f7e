/** poem's WebSocket extractor: it validates the opening handshake of a
    request (section 4.2.1 of RFC 6455, with exact header values), takes
    the connection's one-shot upgrade handle, and answers with
    101 Switching Protocols, echoing the first subprotocol of the client's
    list that the server knows (section 4.2.2 of RFC 6455). */
module WebSocketExtractor {
  import opened Http
  import opened Wrappers
  import Text

  const CONNECTION: HeaderName := "connection"
  const UPGRADE: HeaderName := "upgrade"
  const SEC_WEBSOCKET_VERSION: HeaderName := "sec-websocket-version"
  const SEC_WEBSOCKET_KEY: HeaderName := "sec-websocket-key"
  const SEC_WEBSOCKET_PROTOCOL: HeaderName := "sec-websocket-protocol"
  const SEC_WEBSOCKET_ACCEPT: HeaderName := "sec-websocket-accept"

  /** hyper's `OnUpgrade` future for one connection, told apart by a number. */
  datatype OnUpgrade = OnUpgrade(connection: nat)

  /** The request's shared state: its upgrade handle, until it is taken. */
  class RequestState {
    var onUpgrade: Option<OnUpgrade>

    constructor (handle: Option<OnUpgrade>)
      ensures onUpgrade == handle
    {
      onUpgrade := handle;
    }

    /** `Option::take` under the lock: hand out the handle, leave nothing. */
    method Take() returns (h: Option<OnUpgrade>)
      modifies this
      ensures h == old(onUpgrade) && onUpgrade == None
    {
      h := onUpgrade;
      onUpgrade := None;
    }
  }

  /** The extracted WebSocket: the client's key, the upgrade handle, the
      protocols the server knows (none until set) and the client's
      Sec-WebSocket-Protocol header. */
  datatype WebSocket = WebSocket(
    key: HeaderValue,
    onUpgrade: OnUpgrade,
    protocols: Option<seq<string>>,
    secWebSocketProtocol: Option<HeaderValue>)

  /** The method and the three headers that must be present with exactly
      these values (byte for byte, so "upgrade" or "WebSocket" fail). */
  predicate IsUpgradeRequest(req: Request) {
    && req.httpMethod == GET
    && Get(req.headers, CONNECTION) == Some("Upgrade")
    && Get(req.headers, UPGRADE) == Some("websocket")
    && Get(req.headers, SEC_WEBSOCKET_VERSION) == Some("13")
  }

  /** The handshake headers are compared byte for byte with the first
      value given for each name: a lower-case "upgrade" in Connection, for
      one, does not pass. */
  lemma UpgradeRequestExact(req: Request)
    ensures IsUpgradeRequest(req) <==>
              && req.httpMethod == GET
              && GetAll(req.headers, CONNECTION) != [] && GetAll(req.headers, CONNECTION)[0] == "Upgrade"
              && GetAll(req.headers, UPGRADE) != [] && GetAll(req.headers, UPGRADE)[0] == "websocket"
              && GetAll(req.headers, SEC_WEBSOCKET_VERSION) != [] && GetAll(req.headers, SEC_WEBSOCKET_VERSION)[0] == "13"
    ensures Get(req.headers, CONNECTION) == Some("upgrade") ==> !IsUpgradeRequest(req)
  {
    assert "upgrade" != "Upgrade" by {
      assert "upgrade"[0] != "Upgrade"[0];
    }
  }

  /** `WebSocket::from_request`: 400 unless the handshake headers are right
      and a key is present; 500 if the upgrade handle was taken already;
      otherwise the handle is taken out of the request state. */
  method FromRequest(req: Request, state: RequestState) returns (r: Result<WebSocket>)
    modifies state
    ensures !IsUpgradeRequest(req) ==> r == Err(Error(BAD_REQUEST)) && state.onUpgrade == old(state.onUpgrade)
    ensures IsUpgradeRequest(req) && Get(req.headers, SEC_WEBSOCKET_KEY).None? ==>
              r == Err(Error(BAD_REQUEST)) && state.onUpgrade == old(state.onUpgrade)
    ensures IsUpgradeRequest(req) && Get(req.headers, SEC_WEBSOCKET_KEY).Some? ==>
              && state.onUpgrade == None
              && r == match old(state.onUpgrade)
                      case None => Err(Error(INTERNAL_SERVER_ERROR))
                      case Some(h) => Ok(WebSocket(Get(req.headers, SEC_WEBSOCKET_KEY).value, h, None,
                                                   Get(req.headers, SEC_WEBSOCKET_PROTOCOL)))
  {
    if !IsUpgradeRequest(req) {
      return Err(Error(BAD_REQUEST));
    }
    var key := Get(req.headers, SEC_WEBSOCKET_KEY);
    if key.None? {
      return Err(Error(BAD_REQUEST));
    }
    var secWebSocketProtocol := Get(req.headers, SEC_WEBSOCKET_PROTOCOL);
    var onUpgrade := state.Take();
    if onUpgrade.None? {
      return Err(Error(INTERNAL_SERVER_ERROR));
    }
    r := Ok(WebSocket(key.value, onUpgrade.value, None, secWebSocketProtocol));
  }

  /** The handle is one-shot: extracting twice from the same request gives
      a WebSocket the first time and 500 the second. */
  method ExtractTwice(req: Request, state: RequestState) returns (first: Result<WebSocket>, second: Result<WebSocket>)
    requires IsUpgradeRequest(req) && Get(req.headers, SEC_WEBSOCKET_KEY).Some?
    requires state.onUpgrade.Some?
    modifies state
    ensures first.Ok? && first.value.onUpgrade == old(state.onUpgrade).value
    ensures second == Err(Error(INTERNAL_SERVER_ERROR))
  {
    first := FromRequest(req, state);
    second := FromRequest(req, state);
  }

  /** `WebSocket::protocols`: the list of known protocols, replaced whole. */
  function Protocols(ws: WebSocket, ps: seq<string>): (r: WebSocket)
    ensures r.protocols == Some(ps)
    ensures r.key == ws.key && r.onUpgrade == ws.onUpgrade && r.secWebSocketProtocol == ws.secWebSocketProtocol
  {
    ws.(protocols := Some(ps))
  }

  /** Bytes `HeaderValue::to_str` accepts: visible ASCII and tab. */
  predicate IsVisibleAscii(c: char) {
    c == '\t' || (' ' <= c && c < '\U{7F}')
  }

  /** `HeaderValue::to_str`: the value as text when it is all visible ASCII. */
  function ToStr(v: HeaderValue): (r: Option<string>)
    ensures r.Some? <==> forall i :: 0 <= i < |v| ==> IsVisibleAscii(v[i])
    ensures r.Some? ==> r.value == v
  {
    if forall i :: 0 <= i < |v| ==> IsVisibleAscii(v[i]) then Some(v) else None
  }

  /** Every piece trimmed, in order. */
  function TrimAll(pieces: seq<string>): (r: seq<string>)
    ensures |r| == |pieces|
    ensures forall i :: 0 <= i < |pieces| ==> r[i] == Text.Trim(pieces[i])
  {
    if pieces == [] then [] else [Text.Trim(pieces[0])] + TrimAll(pieces[1..])
  }

  /** The first candidate that is one of the known protocols. */
  function FirstKnown(candidates: seq<string>, known: seq<string>): Option<string> {
    if candidates == [] then None
    else if candidates[0] in known then Some(candidates[0])
    else FirstKnown(candidates[1..], known)
  }

  /** Candidate `i` is known, and no earlier one is. */
  predicate IsFirstKnown(candidates: seq<string>, known: seq<string>, i: int) {
    && 0 <= i < |candidates|
    && candidates[i] in known
    && forall j :: 0 <= j < i ==> candidates[j] !in known
  }

  /** `find` over the candidates: nothing exactly when no candidate is
      known, otherwise the first known one. */
  lemma {:induction false} FirstKnownSpec(candidates: seq<string>, known: seq<string>)
    ensures FirstKnown(candidates, known).None? <==>
              forall i :: 0 <= i < |candidates| ==> candidates[i] !in known
    ensures FirstKnown(candidates, known).Some? ==>
              exists i :: IsFirstKnown(candidates, known, i)
                          && FirstKnown(candidates, known).value == candidates[i]
  {
    if candidates != [] && candidates[0] !in known {
      var rest := candidates[1..];
      FirstKnownSpec(rest, known);
      if FirstKnown(rest, known).Some? {
        var i :| IsFirstKnown(rest, known, i) && FirstKnown(rest, known).value == rest[i];
        assert IsFirstKnown(candidates, known, i + 1);
      } else {
        forall i | 0 <= i < |candidates|
          ensures candidates[i] !in known
        {
          if i > 0 { assert candidates[i] == rest[i - 1]; }
        }
      }
    } else if candidates != [] {
      assert IsFirstKnown(candidates, known, 0);
    }
  }

  /** The protocol `into_response` settles on: the client's list split at
      ',', each piece trimmed, the first one the server knows. Nothing when
      the client sent no header, the header is not visible ASCII, or the
      server set no protocols. */
  function NegotiatedProtocol(ws: WebSocket): Option<string> {
    match ws.secWebSocketProtocol
    case None => None
    case Some(v) =>
      match ToStr(v)
      case None => None
      case Some(offered) =>
        match ws.protocols
        case None => None
        case Some(known) => FirstKnown(TrimAll(Text.Split(offered, ',')), known)
  }

  /** The client's order decides: a protocol is negotiated exactly when the
      client sent a readable header, the server set protocols and some piece
      of the client's list is known; it is then the first known piece. */
  lemma ClientOrderDecides(ws: WebSocket)
    ensures NegotiatedProtocol(ws).Some? <==>
              && ws.secWebSocketProtocol.Some? && ToStr(ws.secWebSocketProtocol.value).Some?
              && ws.protocols.Some?
              && exists i :: 0 <= i < |Text.Split(ws.secWebSocketProtocol.value, ',')|
                             && Text.Trim(Text.Split(ws.secWebSocketProtocol.value, ',')[i]) in ws.protocols.value
    ensures NegotiatedProtocol(ws).Some? ==>
              var pieces := Text.Split(ws.secWebSocketProtocol.value, ',');
              exists i :: IsFirstKnown(TrimAll(pieces), ws.protocols.value, i)
                          && NegotiatedProtocol(ws).value == Text.Trim(pieces[i])
  {
    if ws.secWebSocketProtocol.Some? && ws.protocols.Some? {
      var pieces := Text.Split(ws.secWebSocketProtocol.value, ',');
      FirstKnownSpec(TrimAll(pieces), ws.protocols.value);
    }
  }

  /** Without a client header or without server protocols nothing is
      negotiated, and a negotiated protocol is always one the server knows. */
  lemma NegotiatedIsKnown(ws: WebSocket)
    ensures ws.secWebSocketProtocol.None? || ws.protocols.None? ==> NegotiatedProtocol(ws).None?
    ensures NegotiatedProtocol(ws).Some? ==>
              ws.protocols.Some? && NegotiatedProtocol(ws).value in ws.protocols.value
  {
    if NegotiatedProtocol(ws).Some? {
      var pieces := Text.Split(ws.secWebSocketProtocol.value, ',');
      FirstKnownSpec(TrimAll(pieces), ws.protocols.value);
    }
  }

  /** A WebSocket fresh from extraction knows no protocols and so
      negotiates none; setting the protocols twice keeps only the second
      list. */
  lemma ProtocolsReplaceWhole(ws: WebSocket, a: seq<string>, b: seq<string>)
    ensures ws.protocols.None? ==> NegotiatedProtocol(ws).None?
    ensures NegotiatedProtocol(Protocols(Protocols(ws, a), b)) == NegotiatedProtocol(Protocols(ws, b))
  {
  }

  /** Every character of a piece of a split string occurs in the string. */
  lemma {:induction false} SplitChars(s: string, sep: char, i: nat, c: char)
    requires i < |Text.Split(s, sep)| && c in Text.Split(s, sep)[i]
    ensures c in s
    decreases |s|
  {
    var parts := Text.Split(s, sep);
    var rest := Text.Split(s[1..], sep);
    if s[0] == sep {
      assert parts == [""] + rest;
      SplitChars(s[1..], sep, i - 1, c);
    } else if i > 0 {
      assert parts[i] == rest[i];
      SplitChars(s[1..], sep, i, c);
    } else if c != s[0] {
      assert parts[0] == [s[0]] + rest[0];
      SplitChars(s[1..], sep, 0, c);
    }
  }

  /** Trimming only removes characters. */
  lemma TrimChars(s: string, c: char)
    requires c in Text.Trim(s)
    ensures c in s
  {
    var t := Text.TrimStart(s);
    assert c in t;
  }

  /** The echoed protocol is visible ASCII, so building its header value
      (`HeaderValue::from_str(..).unwrap()`) cannot fail. */
  lemma NegotiatedIsVisibleAscii(ws: WebSocket)
    requires NegotiatedProtocol(ws).Some?
    ensures forall i :: 0 <= i < |NegotiatedProtocol(ws).value| ==> IsVisibleAscii(NegotiatedProtocol(ws).value[i])
  {
    var v := ws.secWebSocketProtocol.value;
    var pieces := Text.Split(v, ',');
    var p := NegotiatedProtocol(ws).value;
    ClientOrderDecides(ws);
    var k :| IsFirstKnown(TrimAll(pieces), ws.protocols.value, k) && p == Text.Trim(pieces[k]);
    forall i | 0 <= i < |p|
      ensures IsVisibleAscii(p[i])
    {
      TrimChars(pieces[k], p[i]);
      SplitChars(v, ',', k, p[i]);
    }
  }

  /** `WebSocketUpgraded::into_response`: 101 with `Connection: upgrade`,
      `Upgrade: websocket`, the accept digest of the key, and the negotiated
      protocol when there is one; the body is empty. `sign` (SHA-1 of the
      key and the fixed GUID, in base64) is a parameter. */
  method IntoResponse(ws: WebSocket, sign: HeaderValue -> HeaderValue) returns (resp: Response)
    ensures resp.status == SWITCHING_PROTOCOLS && resp.body == Empty
    ensures GetAll(resp.headers, CONNECTION) == ["upgrade"]
    ensures GetAll(resp.headers, UPGRADE) == ["websocket"]
    ensures GetAll(resp.headers, SEC_WEBSOCKET_ACCEPT) == [sign(ws.key)]
    ensures GetAll(resp.headers, SEC_WEBSOCKET_PROTOCOL) ==
              if NegotiatedProtocol(ws).Some? then [NegotiatedProtocol(ws).value] else []
    ensures resp.headers.Keys <= {CONNECTION, UPGRADE, SEC_WEBSOCKET_ACCEPT, SEC_WEBSOCKET_PROTOCOL}
  {
    var protocol := NegotiatedProtocol(ws);
    var builder := DefaultResponse.(status := SWITCHING_PROTOCOLS);
    builder := builder.(headers := Append(builder.headers, CONNECTION, "upgrade"));
    builder := builder.(headers := Append(builder.headers, UPGRADE, "websocket"));
    builder := builder.(headers := Append(builder.headers, SEC_WEBSOCKET_ACCEPT, sign(ws.key)));
    if protocol.Some? {
      builder := builder.(headers := Append(builder.headers, SEC_WEBSOCKET_PROTOCOL, protocol.value));
    }
    resp := builder.(body := Empty);
  }
}
