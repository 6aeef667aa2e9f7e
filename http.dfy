/** The HTTP vocabulary shared by the modelled code: status codes, methods,
    header maps, bodies, requests, responses and poem's error type. */
module Http {
  import Utf8
  import opened Wrappers

  type Byte = Utf8.Byte

  type StatusCode = c: int | 100 <= c < 1000 witness 200

  const OK: StatusCode := 200
  const SWITCHING_PROTOCOLS: StatusCode := 101
  const BAD_REQUEST: StatusCode := 400
  const FORBIDDEN: StatusCode := 403
  const NOT_FOUND: StatusCode := 404
  const METHOD_NOT_ALLOWED: StatusCode := 405
  const INTERNAL_SERVER_ERROR: StatusCode := 500

  /** The name of the Content-Type header, as `http::header::CONTENT_TYPE`. */
  const CONTENT_TYPE: HeaderName := "content-type"

  datatype Method = GET | POST | PUT | DELETE | HEAD | OPTIONS | CONNECT | PATCH | TRACE

  datatype Version = HTTP_09 | HTTP_10 | HTTP_11 | HTTP_2 | HTTP_3

  /** Header names are stored lower-case, as `http::HeaderName` keeps them. */
  type HeaderName = string

  /** A header value; each character stands for one byte of the value. */
  type HeaderValue = string

  /** `http::HeaderMap`: a multimap from a name to the values given for it,
      in the order they were appended. A name is present only with at least
      one value. */
  type HeaderMap = h: map<HeaderName, seq<HeaderValue>> | forall n :: n in h ==> h[n] != []
    witness map[]

  const EmptyHeaders: HeaderMap := map[]

  /** `HeaderMap::get_all`: every value of a name, oldest first. */
  function GetAll(h: HeaderMap, name: HeaderName): seq<HeaderValue> {
    if name in h then h[name] else []
  }

  /** `HeaderMap::get`: the first value of a name. */
  function Get(h: HeaderMap, name: HeaderName): (r: Option<HeaderValue>)
    ensures r.Some? <==> GetAll(h, name) != []
    ensures r.Some? ==> r.value == GetAll(h, name)[0]
  {
    if name in h then Some(h[name][0]) else None
  }

  /** `HeaderMap::append`: one more value for a name, after those it has. */
  function Append(h: HeaderMap, name: HeaderName, value: HeaderValue): (r: HeaderMap)
    ensures GetAll(r, name) == GetAll(h, name) + [value]
    ensures forall n :: n != name ==> GetAll(r, n) == GetAll(h, n)
  {
    h[name := GetAll(h, name) + [value]]
  }

  /** `HeaderMap::extend` with the entries of another map: every name the
      other map has gets exactly its values there (earlier values of that
      name are dropped); every other name keeps its values. */
  function Extend(h: HeaderMap, other: HeaderMap): (r: HeaderMap)
    ensures forall n :: GetAll(r, n) == if n in other then other[n] else GetAll(h, n)
  {
    h + other
  }

  /** The body of a request or response. A stream is described by what
      reading it to the end gives: its bytes, or the error reading fails with. */
  datatype Body =
    | Empty
    | Bytes(data: seq<Byte>)
    | Stream(read: Result<seq<Byte>>)

  /** `Body::into_bytes`: every byte of the body, or the read error. */
  function IntoBytes(b: Body): (r: Result<seq<Byte>>)
    ensures b.Empty? ==> r == Ok([])
    ensures b.Bytes? ==> r == Ok(b.data)
    ensures r.Err? ==> b.Stream? && b.read == r
  {
    match b
    case Empty => Ok([])
    case Bytes(d) => Ok(d)
    case Stream(r) => r
  }

  /** poem's `Error`, reduced to the status it responds with. */
  datatype Error = Error(status: StatusCode)

  datatype Result<T> = Ok(value: T) | Err(error: Error)

  /** A URI as the request sees it: its path and its query string. */
  datatype Uri = Uri(path: string, query: Option<string>)

  /** What precedes the first '#': the URI without its fragment. */
  function BeforeFragment(s: string): (r: string)
    ensures |r| <= |s| && r == s[..|r|]
    ensures '#' !in r
    ensures |r| < |s| ==> s[|r|] == '#'
  {
    if |s| == 0 || s[0] == '#' then "" else [s[0]] + BeforeFragment(s[1..])
  }

  /** The path and query of an origin-form URI string, as `Uri`'s parser
      gives them: a '#' fragment is cut off, and the query is what follows
      the first '?' before it. */
  function ParseUri(s: string): (u: Uri)
    ensures u.query.None? ==> u.path == BeforeFragment(s) && '?' !in u.path
    ensures u.query.Some? ==> BeforeFragment(s) == u.path + "?" + u.query.value && '?' !in u.path
  {
    if |s| == 0 || s[0] == '#' then Uri("", None)
    else if s[0] == '?' then Uri("", Some(BeforeFragment(s[1..])))
    else
      var rest := ParseUri(s[1..]);
      Uri([s[0]] + rest.path, rest.query)
  }

  /** A fragment never reaches the path or the query. */
  lemma {:induction false} FragmentDropped(s: string, fragment: string)
    requires '#' !in s
    ensures ParseUri(s + "#" + fragment) == ParseUri(s)
  {
    if |s| > 0 {
      assert (s + "#" + fragment)[1..] == s[1..] + "#" + fragment;
      if s[0] == '?' {
        FragmentBefore(s[1..], fragment);
        NoFragment(s[1..]);
      } else {
        FragmentDropped(s[1..], fragment);
      }
    } else {
      assert (s + "#" + fragment)[0] == '#';
    }
  }

  lemma {:induction false} FragmentBefore(s: string, fragment: string)
    requires '#' !in s
    ensures BeforeFragment(s + "#" + fragment) == s
  {
    if |s| > 0 {
      assert (s + "#" + fragment)[1..] == s[1..] + "#" + fragment;
      FragmentBefore(s[1..], fragment);
    } else {
      assert (s + "#" + fragment)[0] == '#';
    }
  }

  /** A string without '#' has no fragment to cut off. */
  lemma {:induction false} NoFragment(s: string)
    requires '#' !in s
    ensures BeforeFragment(s) == s
  {
    if s != [] {
      assert '#' !in s[1..];
      NoFragment(s[1..]);
    }
  }

  /** `http::Extensions`: one value per type, keyed here by the type's name. */
  type Extensions = map<string, string>

  datatype Request = Request(
    httpMethod: Method,
    uri: Uri,
    originalUri: Uri,   // the URI before routing stripped a nesting prefix
    version: Version,
    headers: HeaderMap,
    extensions: Extensions,
    body: Body)

  datatype Response = Response(status: StatusCode, headers: HeaderMap, body: Body)

  /** What `Response::builder()` starts from: 200, no headers, no body. */
  const DefaultResponse := Response(OK, EmptyHeaders, Empty)
}
