/** The request builder of poem's test client: it collects a query map,
    appended headers, a body and extension data, then assembles one request. */
module TestRequestBuilding {
  import opened Http
  import opened Wrappers
  import Utf8

  /** A character `HeaderName::try_from` accepts: a letter, a digit or one
      of the other token characters of HTTP. */
  predicate IsTokenChar(c: char) {
    ('a' <= c <= 'z') || ('A' <= c <= 'Z') || ('0' <= c <= '9')
    || c in "!#$%&'*+-.^_`|~"
  }

  predicate IsHeaderName(s: string) {
    |s| > 0 && forall i :: 0 <= i < |s| ==> IsTokenChar(s[i])
  }

  /** A byte `HeaderValue::try_from` accepts: anything from space on except
      DEL, and the horizontal tab. */
  predicate IsHeaderValueChar(c: char) {
    (' ' <= c && c != '\U{7F}') || c == '\t'
  }

  predicate IsHeaderValue(v: string) {
    forall i :: 0 <= i < |v| ==> IsHeaderValueChar(v[i])
  }

  function LowerChar(c: char): char {
    if 'A' <= c <= 'Z' then (c as int + 32) as char else c
  }

  /** ASCII lower-casing, as `HeaderName` stores a name. */
  function Lower(s: string): (r: string)
    ensures |r| == |s|
    ensures forall i :: 0 <= i < |s| ==> r[i] == LowerChar(s[i])
  {
    if s == [] then [] else [LowerChar(s[0])] + Lower(s[1..])
  }

  /** Lower-casing a name keeps it a name. */
  lemma LowerKeepsName(s: string)
    requires IsHeaderName(s)
    ensures IsHeaderName(Lower(s))
  {
    var r := Lower(s);
    forall i | 0 <= i < |r|
      ensures IsTokenChar(r[i])
    {
      assert IsTokenChar(s[i]);
    }
  }

  /** Lower-casing is idempotent: a stored name is its own stored form. */
  lemma LowerIdempotent(s: string)
    ensures Lower(Lower(s)) == Lower(s)
  {
    var r := Lower(s);
    assert forall i :: 0 <= i < |r| ==> Lower(r)[i] == LowerChar(LowerChar(s[i])) == r[i];
  }

  /** A name with no upper-case letter is its own lower-cased form. */
  lemma LowerOfLowercase(s: string)
    requires forall i :: 0 <= i < |s| ==> !('A' <= s[i] <= 'Z')
    ensures Lower(s) == s
  {
    assert forall i :: 0 <= i < |s| ==> Lower(s)[i] == s[i];
  }

  /** Content-Type is a valid, lower-case header name. */
  lemma ContentTypeIsName()
    ensures IsHeaderName(CONTENT_TYPE) && Lower(CONTENT_TYPE) == CONTENT_TYPE
  {
    forall i | 0 <= i < |CONTENT_TYPE|
      ensures IsTokenChar(CONTENT_TYPE[i]) && !('A' <= CONTENT_TYPE[i] <= 'Z')
    {
      assert 'a' <= CONTENT_TYPE[i] <= 'z' || CONTENT_TYPE[i] == '-';
    }
    LowerOfLowercase(CONTENT_TYPE);
  }

  /** A multipart form: its boundary and its encoded bytes. */
  datatype TestForm = TestForm(boundary: string, encoded: seq<Byte>)

  /** The Content-Type `multipart` sets for a form. */
  function MultipartContentType(form: TestForm): HeaderValue {
    "multipart/form-data; boundary=" + form.boundary
  }

  class TestRequestBuilder {
    /** The client's default headers, which every request starts from. */
    const defaultHeaders: HeaderMap
    var uri: string
    var httpMethod: Method
    /** Query parameters by name, each held as its serialised value. */
    var query: map<string, string>
    var headers: HeaderMap
    var body: Body
    var extensions: Extensions

    /** `TestRequestBuilder::new`: the method and URI given, no query, no
        headers, an empty body and no extensions. */
    constructor (defaultHeaders: HeaderMap, httpMethod: Method, uri: string)
      ensures this.defaultHeaders == defaultHeaders
      ensures this.httpMethod == httpMethod && this.uri == uri
      ensures query == map[] && headers == EmptyHeaders && body == Empty && extensions == map[]
    {
      this.defaultHeaders := defaultHeaders;
      this.httpMethod := httpMethod;
      this.uri := uri;
      query := map[];
      headers := EmptyHeaders;
      body := Empty;
      extensions := map[];
    }

    /** `query(name, value)`: `serialized` is what serialising the value
        gave, None when it failed. A value is inserted under its name,
        replacing any earlier one; a failed one changes nothing. */
    method Query(name: string, serialized: Option<string>)
      modifies this
      ensures serialized.Some? ==> query == old(query)[name := serialized.value]
      ensures serialized.None? ==> query == old(query)
      ensures uri == old(uri) && httpMethod == old(httpMethod) && headers == old(headers)
      ensures body == old(body) && extensions == old(extensions)
    {
      if serialized.Some? {
        query := query[name := serialized.value];
      }
    }

    /** `header(key, value)`: the key and the value must convert (the
        builder panics otherwise); the value is appended after those the
        name already has. */
    method Header(key: string, value: HeaderValue)
      requires IsHeaderName(key) && IsHeaderValue(value)
      modifies this
      ensures headers == Append(old(headers), Lower(key), value)
      ensures GetAll(headers, Lower(key)) == GetAll(old(headers), Lower(key)) + [value]
      ensures uri == old(uri) && httpMethod == old(httpMethod) && query == old(query)
      ensures body == old(body) && extensions == old(extensions)
    {
      var name := Lower(key);
      headers := Append(headers, name, value);
    }

    /** `content_type(v)`: a Content-Type header, appended like any other. */
    method ContentType(contentType: HeaderValue)
      requires IsHeaderValue(contentType)
      modifies this
      ensures GetAll(headers, CONTENT_TYPE) == GetAll(old(headers), CONTENT_TYPE) + [contentType]
      ensures forall n :: n != CONTENT_TYPE ==> GetAll(headers, n) == GetAll(old(headers), n)
      ensures uri == old(uri) && httpMethod == old(httpMethod) && query == old(query)
      ensures body == old(body) && extensions == old(extensions)
    {
      ContentTypeIsName();
      Header(CONTENT_TYPE, contentType);
    }

    /** `body(b)`: replaces the body and nothing else. */
    method SetBody(b: Body)
      modifies this
      ensures body == b
      ensures uri == old(uri) && httpMethod == old(httpMethod) && query == old(query)
      ensures headers == old(headers) && extensions == old(extensions)
    {
      body := b;
    }

    /** `body_json(value)`: `json` is the value's JSON text; the body
        becomes its UTF-8 bytes and nothing else changes. */
    method BodyJson(json: string)
      modifies this
      ensures body == Bytes(Utf8.Encode(json))
      ensures uri == old(uri) && httpMethod == old(httpMethod) && query == old(query)
      ensures headers == old(headers) && extensions == old(extensions)
    {
      SetBody(Bytes(Utf8.Encode(json)));
    }

    /** `multipart(form)`: a Content-Type naming the form's boundary, and
        the encoded form streamed as the body. */
    method Multipart(form: TestForm)
      requires IsHeaderValue(MultipartContentType(form))
      modifies this
      ensures GetAll(headers, CONTENT_TYPE) == GetAll(old(headers), CONTENT_TYPE) + [MultipartContentType(form)]
      ensures forall n :: n != CONTENT_TYPE ==> GetAll(headers, n) == GetAll(old(headers), n)
      ensures body == Stream(Ok(form.encoded))
      ensures uri == old(uri) && httpMethod == old(httpMethod) && query == old(query)
      ensures extensions == old(extensions)
    {
      ContentType("multipart/form-data; boundary=" + form.boundary);
      SetBody(Stream(Ok(form.encoded)));
    }

    /** `data(value)`: the value becomes the extension of its type,
        replacing an earlier value of the same type. */
    method Data(typeName: string, value: string)
      modifies this
      ensures extensions == old(extensions)[typeName := value]
      ensures uri == old(uri) && httpMethod == old(httpMethod) && query == old(query)
      ensures headers == old(headers) && body == old(body)
    {
      extensions := extensions[typeName := value];
    }

    /** `make_request`: `urlencode` stands for the url-encoder of the query
        map. The URI is kept when there is no query and gets "?" and the
        encoded query otherwise; the headers are the defaults overridden
        name by name by the builder's; extensions, body and method are the
        builder's. */
    method MakeRequest(urlencode: map<string, string> -> string) returns (req: Request)
      ensures query == map[] ==> req.uri == ParseUri(uri)
      ensures query != map[] && '?' !in uri && '#' !in uri && '#' !in urlencode(query) ==>
                req.uri == Uri(uri, Some(urlencode(query)))
      ensures req.originalUri == req.uri
      ensures forall n :: GetAll(req.headers, n) ==
                if n in headers then headers[n] else GetAll(defaultHeaders, n)
      ensures req.httpMethod == httpMethod && req.version == HTTP_11
      ensures req.extensions == extensions && req.body == body
    {
      var u := uri;
      if query != map[] {
        u := uri + "?" + urlencode(query);
        if '?' !in uri && '#' !in uri && '#' !in urlencode(query) {
          QueryFollowsPath(uri, urlencode(query));
        }
      }
      var parsed := ParseUri(u);
      req := Request(httpMethod, parsed, parsed, HTTP_11, EmptyHeaders, map[], Empty);
      req := req.(headers := Extend(req.headers, defaultHeaders));
      req := req.(headers := Extend(req.headers, headers));
      req := req.(extensions := extensions);
      req := req.(body := body);
    }
  }

  /** Appending "?" and a query to a path without '?' or '#' parses back
      into that path and that query, when the query has no '#'. */
  lemma {:induction false} QueryFollowsPath(path: string, q: string)
    requires '?' !in path && '#' !in path && '#' !in q
    ensures ParseUri(path + "?" + q) == Uri(path, Some(q))
  {
    var s := path + "?" + q;
    if path == [] {
      assert s[1..] == q;
      NoFragment(q);
    } else {
      assert s[1..] == path[1..] + "?" + q;
      QueryFollowsPath(path[1..], q);
      assert [path[0]] + path[1..] == path;
    }
  }

  /** Two `content_type` calls keep both values, oldest first. */
  method ContentTypeTwice(b: TestRequestBuilder, first: HeaderValue, second: HeaderValue)
    requires IsHeaderValue(first) && IsHeaderValue(second)
    modifies b
    ensures GetAll(b.headers, CONTENT_TYPE) == GetAll(old(b.headers), CONTENT_TYPE) + [first, second]
  {
    b.ContentType(first);
    b.ContentType(second);
  }
}
