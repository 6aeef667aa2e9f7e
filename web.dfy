/** poem's response and extraction combinators: the values a handler may
    return and how each becomes a response, and the request parts a handler
    may take and how each is extracted. */
module Web {
  import opened Http
  import opened Wrappers
  import Utf8

  /** A value an endpoint returns, one constructor per `IntoResponse`
      implementation. `Text` stands for `String` and `&'static str`,
      `Binary` for `&'static [u8]`, `Bytes` and `Vec<u8>`; a `Result`
      holds its error already converted into poem's `Error`. `Infallible`
      has no values and so no constructor. */
  datatype Responder =
    | Text(text: string)
    | Binary(data: seq<Byte>)
    | Unit
    | Status(code: StatusCode)
    | WithStatus(status: StatusCode, inner: Responder)
    | WithStatusHeaders(status: StatusCode, headers: HeaderMap, inner: Responder)
    | ResultOf(result: Result<Responder>)
    | Html(html: string)

  /** The headers `Response::builder().content_type("text/html")` sets. */
  const HtmlHeaders: HeaderMap := map[CONTENT_TYPE := ["text/html"]]

  /** The error a responder fails with: the first `Err` met going inwards. */
  function Failure(r: Responder): Option<Error> {
    match r
    case WithStatus(_, t) => Failure(t)
    case WithStatusHeaders(_, _, t) => Failure(t)
    case ResultOf(Err(e)) => Some(e)
    case ResultOf(Ok(t)) => Failure(t)
    case _ => None
  }

  /** The status of a successful response: the outermost status a tuple or
      a bare status code gives, 200 otherwise. */
  function FinalStatus(r: Responder): StatusCode {
    match r
    case Status(c) => c
    case WithStatus(c, _) => c
    case WithStatusHeaders(c, _, _) => c
    case ResultOf(Ok(t)) => FinalStatus(t)
    case _ => OK
  }

  /** The headers of a successful response: those of the innermost value,
      each enclosing header tuple merged over them. */
  function FinalHeaders(r: Responder): HeaderMap {
    match r
    case WithStatus(_, t) => FinalHeaders(t)
    case WithStatusHeaders(_, hs, t) => Extend(FinalHeaders(t), hs)
    case ResultOf(Ok(t)) => FinalHeaders(t)
    case Html(_) => HtmlHeaders
    case _ => EmptyHeaders
  }

  /** The body of a successful response: the innermost value's. */
  function Payload(r: Responder): Body {
    match r
    case Text(s) => Bytes(Utf8.Encode(s))
    case Binary(d) => Bytes(d)
    case Html(s) => Bytes(Utf8.Encode(s))
    case WithStatus(_, t) => Payload(t)
    case WithStatusHeaders(_, _, t) => Payload(t)
    case ResultOf(Ok(t)) => Payload(t)
    case _ => Empty
  }

  /** `IntoResponse::into_response`. The tuples build the inner response
      first (returning its error unchanged), then set the status and merge
      the headers into it. */
  method IntoResponse(r: Responder) returns (res: Result<Response>)
    ensures res.Err? <==> Failure(r).Some?
    ensures res.Err? ==> res.error == Failure(r).value
    ensures res.Ok? ==> res.value == Response(FinalStatus(r), FinalHeaders(r), Payload(r))
    decreases r
  {
    match r {
      case Text(s) =>
        res := Ok(DefaultResponse.(body := Bytes(Utf8.Encode(s))));
      case Binary(d) =>
        res := Ok(DefaultResponse.(body := Bytes(d)));
      case Unit =>
        res := Ok(DefaultResponse);
      case Status(c) =>
        res := Ok(DefaultResponse.(status := c));
      case WithStatus(c, t) =>
        res := IntoResponse(t);
        if res.Ok? {
          var resp := res.value;
          resp := resp.(status := c);
          res := Ok(resp);
        }
      case WithStatusHeaders(c, hs, t) =>
        res := IntoResponse(t);
        if res.Ok? {
          var resp := res.value;
          resp := resp.(status := c);
          resp := resp.(headers := Extend(resp.headers, hs));
          res := Ok(resp);
        }
      case ResultOf(Err(e)) =>
        res := Err(e);
      case ResultOf(Ok(t)) =>
        res := IntoResponse(t);
      case Html(s) =>
        var resp := DefaultResponse;
        resp := resp.(headers := resp.headers[CONTENT_TYPE := ["text/html"]]);
        resp := resp.(body := Bytes(Utf8.Encode(s)));
        res := Ok(resp);
    }
  }

  /** `(StatusCode, T)` answers like T with only the status replaced, and
      fails exactly as T does. */
  lemma StatusTupleReplacesOnlyStatus(c: StatusCode, t: Responder)
    ensures Failure(WithStatus(c, t)) == Failure(t)
    ensures FinalStatus(WithStatus(c, t)) == c
    ensures FinalHeaders(WithStatus(c, t)) == FinalHeaders(t)
    ensures Payload(WithStatus(c, t)) == Payload(t)
  {
  }

  /** `(StatusCode, HeaderMap, T)`: the given headers win for the names
      they carry, T's other headers stay, and failures are T's. */
  lemma HeaderTupleMerges(c: StatusCode, hs: HeaderMap, t: Responder)
    ensures Failure(WithStatusHeaders(c, hs, t)) == Failure(t)
    ensures FinalStatus(WithStatusHeaders(c, hs, t)) == c
    ensures forall n :: GetAll(FinalHeaders(WithStatusHeaders(c, hs, t)), n) ==
              if n in hs then hs[n] else GetAll(FinalHeaders(t), n)
    ensures Payload(WithStatusHeaders(c, hs, t)) == Payload(t)
  {
  }

  /** A value built from plain values and status tuples, with no header
      tuple and no HTML, answers without headers. */
  predicate HeaderFree(r: Responder) {
    match r
    case WithStatus(_, t) => HeaderFree(t)
    case WithStatusHeaders(_, _, _) => false
    case ResultOf(Ok(t)) => HeaderFree(t)
    case Html(_) => false
    case _ => true
  }

  lemma {:induction false} HeaderFreeHasNoHeaders(r: Responder)
    requires HeaderFree(r)
    ensures FinalHeaders(r) == EmptyHeaders
  {
    match r
    case WithStatus(_, t) => HeaderFreeHasNoHeaders(t);
    case ResultOf(Ok(t)) => HeaderFreeHasNoHeaders(t);
    case _ =>
  }

  /** A `Result` answers with its error when it is `Err`, and exactly as
      the value it holds when it is `Ok`. */
  lemma ResultDelegates(t: Responder, e: Error)
    ensures Failure(ResultOf(Err(e))) == Some(e)
    ensures Failure(ResultOf(Ok(t))) == Failure(t) && FinalStatus(ResultOf(Ok(t))) == FinalStatus(t)
    ensures FinalHeaders(ResultOf(Ok(t))) == FinalHeaders(t) && Payload(ResultOf(Ok(t))) == Payload(t)
  {
  }

  /** `()` and a status code answer with an empty body. */
  lemma LeafResponses(c: StatusCode)
    ensures Failure(Unit).None? && FinalStatus(Unit) == OK && Payload(Unit) == Empty
    ensures FinalStatus(Status(c)) == c && Payload(Status(c)) == Empty
  {
  }

  /** `Html` answers 200 with content-type text/html and the text as its
      body. */
  lemma HtmlResponse(s: string)
    ensures Failure(Html(s)).None? && FinalStatus(Html(s)) == OK
    ensures GetAll(FinalHeaders(Html(s)), CONTENT_TYPE) == ["text/html"]
    ensures Payload(Html(s)) == Bytes(Utf8.Encode(s))
  {
    assert FinalHeaders(Html(s)) == HtmlHeaders;
    assert CONTENT_TYPE in HtmlHeaders && HtmlHeaders[CONTENT_TYPE] == ["text/html"];
  }

  /** A request part a handler may take, one constructor per `FromRequest`
      implementation; `BytesE` stands for both `Bytes` and `Vec<u8>`. */
  datatype Extractor =
    | UriE
    | MethodE
    | VersionE
    | HeaderMapE
    | BodyE
    | StringE
    | BytesE
    | OptionE(inner: Extractor)

  datatype Extracted =
    | UriV(uri: Uri)
    | MethodV(httpMethod: Method)
    | VersionV(version: Version)
    | HeadersV(headers: HeaderMap)
    | BodyV(body: Body)
    | StringV(text: string)
    | BytesV(data: seq<Byte>)
    | OptionV(value: Option<Extracted>)

  /** What an extraction gives, and the request as it leaves it. */
  datatype Extraction = Extraction(result: Result<Extracted>, rest: Request)

  predicate TakesBody(e: Extractor) {
    match e
    case BodyE => true
    case StringE => true
    case BytesE => true
    case OptionE(inner) => TakesBody(inner)
    case _ => false
  }

  /** `FromRequest::from_request`: the request parts are copied out; the
      body extractors take the body (leaving an empty one) and read it;
      `String` also checks the bytes are UTF-8, failing with 400 if not;
      `Option` turns any failure of its inner extractor into None. */
  function Extract(e: Extractor, req: Request): (x: Extraction)
    ensures TakesBody(e) ==> x.rest == req.(body := Empty)
    ensures !TakesBody(e) ==> x.rest == req
  {
    match e
    case UriE => Extraction(Ok(UriV(req.uri)), req)
    case MethodE => Extraction(Ok(MethodV(req.httpMethod)), req)
    case VersionE => Extraction(Ok(VersionV(req.version)), req)
    case HeaderMapE => Extraction(Ok(HeadersV(req.headers)), req)
    case BodyE => Extraction(Ok(BodyV(req.body)), req.(body := Empty))
    case StringE =>
      var rest := req.(body := Empty);
      (match IntoBytes(req.body)
       case Err(err) => Extraction(Err(err), rest)
       case Ok(bs) =>
         (match Utf8.Decode(bs)
          case None => Extraction(Err(Error(BAD_REQUEST)), rest)
          case Some(s) => Extraction(Ok(StringV(s)), rest)))
    case BytesE =>
      var rest := req.(body := Empty);
      (match IntoBytes(req.body)
       case Err(err) => Extraction(Err(err), rest)
       case Ok(bs) => Extraction(Ok(BytesV(bs)), rest))
    case OptionE(inner) =>
      var x := Extract(inner, req);
      match x.result
      case Ok(v) => Extraction(Ok(OptionV(Some(v))), x.rest)
      case Err(_) => Extraction(Ok(OptionV(None)), x.rest)
  }

  /** `Option<T>` never fails: Some of what T gives, or None when T fails. */
  lemma OptionNeverFails(e: Extractor, req: Request)
    ensures Extract(OptionE(e), req).result.Ok?
    ensures Extract(e, req).result.Ok? ==>
              Extract(OptionE(e), req).result.value == OptionV(Some(Extract(e, req).result.value))
    ensures Extract(e, req).result.Err? ==>
              Extract(OptionE(e), req).result.value == OptionV(None)
  {
  }

  /** Extracting a `String` from a body that reads to `bs` fails with 400
      exactly when `bs` is not UTF-8; a body that cannot be read fails
      with the read error. */
  lemma StringFailsIffNotUtf8(req: Request)
    ensures IntoBytes(req.body).Err? ==>
              Extract(StringE, req).result == Err(IntoBytes(req.body).error)
    ensures IntoBytes(req.body).Ok? ==>
              (Extract(StringE, req).result.Err? <==> !Utf8.IsUtf8(IntoBytes(req.body).value))
    ensures IntoBytes(req.body).Ok? && Extract(StringE, req).result.Err? ==>
              Extract(StringE, req).result.error == Error(BAD_REQUEST)
  {
    if IntoBytes(req.body).Ok? {
      Utf8.DecodeSucceedsIffUtf8(IntoBytes(req.body).value);
    }
  }

  /** A body holding the UTF-8 encoding of a string extracts as that string. */
  lemma StringRoundTrip(req: Request, s: string)
    requires req.body == Bytes(Utf8.Encode(s))
    ensures Extract(StringE, req).result == Ok(StringV(s))
  {
    Utf8.DecodeEncode(s);
  }

  /** Uri, Method, Version and HeaderMap never fail, give a copy of that
      part of the request and leave the request as it was. */
  lemma PartsAreCopied(req: Request)
    ensures Extract(UriE, req) == Extraction(Ok(UriV(req.uri)), req)
    ensures Extract(MethodE, req) == Extraction(Ok(MethodV(req.httpMethod)), req)
    ensures Extract(VersionE, req) == Extraction(Ok(VersionV(req.version)), req)
    ensures Extract(HeaderMapE, req) == Extraction(Ok(HeadersV(req.headers)), req)
  {
  }

  /** The body can be taken once: a second body extractor sees an empty
      body (an empty string, no bytes). */
  lemma BodyTakenOnce(e: Extractor, req: Request)
    requires TakesBody(e)
    ensures Extract(StringE, Extract(e, req).rest).result == Ok(StringV(""))
    ensures Extract(BytesE, Extract(e, req).rest).result == Ok(BytesV([]))
  {
    assert Utf8.Decode([]) == Some("");
  }
}
