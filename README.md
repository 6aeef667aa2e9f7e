# poem core components, modelled in Dafny

poem is a Rust web framework. This project models five of its sequential
components and proves what they promise:

- **Static files** (`StaticFiles`, with `Paths` and `Text`). The `Files`
  endpoint trims the request path and walks its segments from the base
  directory: "." is skipped, ".." pops a component, anything else is
  pushed. Any method but GET is refused with 405 before anything else.
  The resolved path is refused with 403 when it does not start with the
  base, and answers 404 when it does not exist. Otherwise it serves the
  file, the directory's index file (its name joined to the directory and
  not checked against the base) or a listing, or answers 404. A file that
  will not open or a directory that cannot be read gives 500. The file
  system is an oracle: the kind of each existing path, the files that
  open, and what `read_dir` yields.
- **WebSocket extractor** (`WebSocketExtractor`). It checks the opening
  handshake with exact header values (section 4.2.1 of RFC 6455) and takes
  the request's one-shot upgrade handle. Its response is 101 Switching
  Protocols carrying the accept digest. It echoes the first client
  subprotocol that the server knows (section 4.2.2 of RFC 6455).
- **Upload example store** (`UploadExample`). This is a class with an id
  counter and a map from id to file. `Upload` hands out the counter value
  as the id and stores the file. `Get` reads the file back and builds its
  Content-Disposition.
- **Test request builder** (`TestRequestBuilding`). This is a class whose
  methods update the query map, the headers, the body and the extensions.
  `MakeRequest` assembles the request from them and the client's default
  headers.
- **Response and extraction combinators** (`Web`). Each `IntoResponse`
  implementation is a constructor of `Responder`, and each `FromRequest`
  implementation is a constructor of `Extractor`. The model proves how
  status tuples override the status and merge headers, how errors
  propagate, and when extracting a `String` fails.

`Http` holds the shared vocabulary: status codes, header maps as
name-to-values multimaps, bodies, requests and responses. `Utf8` holds
UTF-8 encoding and decoding with both round trips proved.

## Model

| member | source | states |
|---|---|---|
| StaticFiles.New | src/service/files.rs:60-66 | a new service has the given base path, listing off and no index file |
| StaticFiles.ShowFilesListing | src/service/files.rs:71-76 | turns listing on and changes no other setting |
| StaticFiles.IndexFile | src/service/files.rs:85-90 | sets the index file name and changes no other setting |
| StaticFiles.SettingsCommute | src/service/files.rs:60-90 | the two settings are independent of order, and setting the index twice keeps the later name |
| StaticFiles.RequestComponents | src/service/files.rs:100-104 | after leading and trailing '/' are trimmed, the request path's components never include a root |
| Text.TrimStartMatches | src/service/files.rs:101 | the result is a suffix of the input, only the given character was removed, and the result does not start with it |
| Text.TrimEndMatches | src/service/files.rs:102 | the result is a prefix of the input, only the given character was removed, and the result does not end with it |
| Paths.Segments | src/service/files.rs:104 | the components of a path string without a leading '/' contain no root |
| Paths.SegmentsCurDir | src/service/files.rs:104 | "." survives only as the first component of a relative path |
| Paths.ParseShape | src/service/files.rs:104 | a parsed path is absolute exactly when the string starts with '/', and after its first component there is never a root or a "." |
| Paths.PushExtends | src/service/files.rs:110 | pushing a root leaves only the root; pushing any other component extends the path by exactly that component |
| Paths.JoinExtends | src/service/files.rs:126 | joining an absolute name replaces the path; joining a relative name to a non-empty path keeps the path as a prefix and adds no root and no "." (a ".." may follow) |
| Paths.StartsWithComponentwise | src/service/files.rs:114 | starting with a base means agreeing with it component by component |
| Paths.ParseRelative | src/service/files.rs:104 | a string without a leading '/' parses to a path without a root |
| Paths.Pop | src/service/files.rs:108 | pop removes the last component, or does nothing exactly when the path is empty or ends at the root |
| Paths.PopPush | src/service/files.rs:108-110 | popping undoes pushing a name |
| Paths.StartsWithOrder | src/service/files.rs:114 | the component-prefix check is reflexive and transitive |
| StaticFiles.StepCases | src/service/files.rs:104-111 | a turn grows the path by at most one component: "." keeps it, ".." pops it, a name extends it by that name, which a pop removes again |
| StaticFiles.ResolveNames | src/service/files.rs:103-112 | plain names are appended to the base in order |
| StaticFiles.StepShape | src/service/files.rs:104-111 | one turn from a prefix of the base followed by plain names again gives a prefix of the base followed by plain names |
| StaticFiles.ResolvePath | src/service/files.rs:103-112 | the loop skips ".", pops on ".." and pushes everything else, yielding exactly `Resolve(base, components)` |
| StaticFiles.ResolveShape | src/service/files.rs:103-112 | resolution from a prefix of the base always gives a prefix of the base followed only by plain names |
| StaticFiles.ResolvedWithin | src/service/files.rs:103-116 | a resolved path that starts with the base continues with plain names only, with no "." or ".." |
| StaticFiles.ResolveWithoutParent | src/service/files.rs:103-112 | without "..", the resolved path always starts with the base |
| StaticFiles.IndexTarget | src/service/files.rs:125-130 | an index target exists exactly when an index name is configured and the directory joined with it is a regular file, and it is that joined path |
| StaticFiles.FileResponse | src/service/files.rs:168-173 | the file is served exactly when it opens, and otherwise the answer is 500 |
| StaticFiles.Listing | src/service/files.rs:132-160 | a listing fails only with 500; a listing page is titled with the request path and lists a directory the file system can read |
| StaticFiles.ServeOutcomes | src/service/files.rs:95-165 | 405 is the answer exactly for methods other than GET, and every failure is 405, 403, 404 or 500 |
| StaticFiles.BaseUrl | src/service/files.rs:145-148 | the link base ends with exactly one added '/', and it equals the original path exactly when that path already ended with '/' |
| StaticFiles.ListingEntries | src/service/files.rs:141-143 | a failed listing fails with 500 |
| StaticFiles.ListingEntriesSpec | src/service/files.rs:141-155 | the listing succeeds exactly when every entry reads; it holds the UTF-8 names in order, with url = base + name and is_dir taken from the file system |
| StaticFiles.CollectListing | src/service/files.rs:141-155 | the loop over directory entries gives exactly the specified listing lines, or 500 at the first unreadable entry |
| StaticFiles.Call | src/service/files.rs:95-166 | the endpoint answers exactly as the case analysis `Serve` (405, 403, 404, file, index file, listing, 404) |
| StaticFiles.OnlyGet | src/service/files.rs:96-98 | any method but GET gives 405 whatever the file system holds |
| StaticFiles.ServedWithinBase | src/service/files.rs:114-160 | a GET not refused with 403 resolved to a path p that is the base followed by plain names; a served file is p itself, or p joined with the configured index name (neither the program nor the model checks that against the base); a listing lists p |
| StaticFiles.IndexFileCanLeaveBase | src/service/files.rs:125-128 | with base /srv and index name "../secret", a GET of "/" serves /srv/../secret, which is not the base followed by plain names |
| StaticFiles.RootIndexServed | src/service/files.rs:125-128 | a GET of "/" on a base directory serves the joined index name whenever it names an openable regular file |
| StaticFiles.NoParentNeverForbidden | src/service/files.rs:103-116 | a request path without ".." is never refused with 403 |
| StaticFiles.IndexBeforeListing | src/service/files.rs:122-132 | a directory with an index file that is a regular file serves it, whether listing is on or off |
| StaticFiles.DirectoryWithoutListing | src/service/files.rs:132-163 | a directory with no usable index file and listing off gives 404 |
| StaticFiles.ListingLinks | src/service/files.rs:136-155 | a listing page is titled with the request path, lists the directory's UTF-8 names in order, and links each as base URL + name |
| WebSocketExtractor.RequestState.Take | src/web/websocket/extractor.rs:43 | take hands out the handle and leaves none behind |
| WebSocketExtractor.UpgradeRequestExact | src/web/websocket/extractor.rs:26-33 | the handshake passes exactly for GET with the first Connection, Upgrade and Sec-WebSocket-Version values "Upgrade", "websocket" and "13"; a lower-case "upgrade" fails |
| WebSocketExtractor.FromRequest | src/web/websocket/extractor.rs:25-54 | 400 unless GET with exact Connection, Upgrade and version values; 400 without a key (both leave the handle in place); 500 if the handle is gone; otherwise a socket with the key and no known protocols |
| WebSocketExtractor.ExtractTwice | src/web/websocket/extractor.rs:43-46 | a second extraction from the same request fails with 500 |
| WebSocketExtractor.Protocols | src/web/websocket/extractor.rs:80-93 | the known protocols are replaced as a whole and nothing else changes |
| WebSocketExtractor.ToStr | src/web/websocket/extractor.rs:130 | a header value reads as text exactly when every byte is visible ASCII or tab |
| Text.Split | src/web/websocket/extractor.rs:133 | split yields at least one piece, no piece holds the separator, and joining the pieces gives the input back |
| Text.SplitJoinWith | src/web/websocket/extractor.rs:133 | splitting the join of separator-free pieces gives the pieces back |
| Text.TrimStart | src/web/websocket/extractor.rs:134 | only leading Unicode whitespace is removed, and the result does not start with whitespace |
| Text.TrimEnd | src/web/websocket/extractor.rs:134 | only trailing Unicode whitespace is removed, and the result does not end with whitespace |
| Text.TrimBothEnds | src/web/websocket/extractor.rs:134 | `trim` is `trim_start` followed by `trim_end`: only whitespace is removed at either end, and the result neither starts nor ends with whitespace |
| WebSocketExtractor.TrimAll | src/web/websocket/extractor.rs:134 | every piece of the client's list is trimmed, in order |
| WebSocketExtractor.FirstKnownSpec | src/web/websocket/extractor.rs:135 | `find` gives nothing exactly when no trimmed piece is known, and otherwise gives the first piece that is |
| WebSocketExtractor.NegotiatedIsKnown | src/web/websocket/extractor.rs:125-136 | without a client header or server protocols nothing is negotiated, and a negotiated protocol is one the server knows |
| WebSocketExtractor.ClientOrderDecides | src/web/websocket/extractor.rs:125-136 | a protocol is negotiated exactly when the client header reads, the server set protocols and one piece matches; it is the first matching piece in the client's order |
| WebSocketExtractor.ProtocolsReplaceWhole | src/web/websocket/extractor.rs:48-92 | a freshly extracted socket negotiates nothing; setting the protocols twice acts as the second setting alone |
| WebSocketExtractor.NegotiatedIsVisibleAscii | src/web/websocket/extractor.rs:147-151 | the echoed protocol is visible ASCII, so building its header value cannot fail |
| WebSocketExtractor.IntoResponse | src/web/websocket/extractor.rs:138-154 | 101 with an empty body; Connection "upgrade", Upgrade "websocket" and Accept sign(key); Sec-WebSocket-Protocol is exactly the negotiated protocol when there is one; no other headers |
| UploadExample.Status.constructor | examples/openapi/upload/src/main.rs:86-89 | the store starts with counter 1 and no files |
| UploadExample.Status.Upload | examples/openapi/upload/src/main.rs:49-63 | the id returned is the old counter, which no file had; the counter advances by one; a read failure gives 400 and leaves the table unchanged; otherwise only that id's entry is added |
| UploadExample.Status.Get | examples/openapi/upload/src/main.rs:67-79 | an unknown id gives NotFound; a stored id gives its data and Content-Disposition; the store is only read |
| UploadExample.ContentDisposition | examples/openapi/upload/src/main.rs:71-74 | the value starts with "attachment" and is exactly that word when no file name was recorded |
| UploadExample.ContentDispositionNamesFile | examples/openapi/upload/src/main.rs:71-74 | the header starts with "attachment", and the file name can be read back from it exactly when one was recorded |
| UploadExample.UploadTwice | examples/openapi/upload/src/main.rs:51-61 | two uploads get strictly increasing ids, and each stored file stays under its own id |
| UploadExample.UploadThenGet | examples/openapi/upload/src/main.rs:51-75 | getting the id an upload returned gives the uploaded data back |
| TestRequestBuilding.TestRequestBuilder.constructor | poem/src/test/request_builder.rs:27-37 | a new builder has the given method and URI, an empty query map, no headers, an empty body and no extensions |
| TestRequestBuilding.TestRequestBuilder.Query | poem/src/test/request_builder.rs:41-46 | a serialised value replaces any earlier value of that name; a value that fails to serialise changes nothing |
| TestRequestBuilding.TestRequestBuilder.Header | poem/src/test/request_builder.rs:50-62 | the value is appended after the lower-cased name's earlier values, and no other field changes |
| TestRequestBuilding.Lower | poem/src/test/request_builder.rs:55 | lower-casing keeps the length and maps each character through ASCII lower-casing |
| TestRequestBuilding.LowerKeepsName | poem/src/test/request_builder.rs:55 | lower-casing keeps a valid header name valid |
| TestRequestBuilding.LowerIdempotent | poem/src/test/request_builder.rs:55 | lower-casing is idempotent |
| TestRequestBuilding.LowerOfLowercase | poem/src/test/request_builder.rs:55 | a name without capitals is its own stored form |
| TestRequestBuilding.ContentTypeIsName | poem/src/test/request_builder.rs:67 | content-type is a valid header name and is already lower-case |
| TestRequestBuilding.TestRequestBuilder.ContentType | poem/src/test/request_builder.rs:66-68 | appends a Content-Type value after any earlier ones and changes no other header or field |
| TestRequestBuilding.ContentTypeTwice | poem/src/test/request_builder.rs:66-68 | two content types are both kept, oldest first |
| TestRequestBuilding.TestRequestBuilder.SetBody | poem/src/test/request_builder.rs:72-77 | replaces the body and nothing else |
| TestRequestBuilding.TestRequestBuilder.BodyJson | poem/src/test/request_builder.rs:81-86 | the body becomes the UTF-8 bytes of the JSON text and nothing else changes |
| TestRequestBuilding.TestRequestBuilder.Multipart | poem/src/test/request_builder.rs:90-93 | appends Content-Type `multipart/form-data; boundary=<boundary>` and streams the form as the body |
| TestRequestBuilding.TestRequestBuilder.Data | poem/src/test/request_builder.rs:120-126 | inserts the value as its type's extension, replacing any earlier one |
| TestRequestBuilding.QueryFollowsPath | poem/src/test/request_builder.rs:96-104 | a URI without '?' or '#' followed by "?" and a query without '#' parses back into that path and that query |
| TestRequestBuilding.TestRequestBuilder.MakeRequest | poem/src/test/request_builder.rs:95-116 | with an empty query the URI is parsed as given; otherwise "?" and the encoded query are appended and read back as the query (when neither has a '#' and the URI has no '?'); a builder header replaces the defaults of the same name, and other defaults survive; method, extensions and body come from the builder |
| Web.IntoResponse | src/web/mod.rs:68-149 | a responder fails exactly with the first error it holds; otherwise it answers with its outermost status, its merged headers and its innermost body |
| Web.StatusTupleReplacesOnlyStatus | src/web/mod.rs:116-122 | `(StatusCode, T)` replaces only the status, and T's error propagates unchanged |
| Web.HeaderTupleMerges | src/web/mod.rs:124-131 | `(StatusCode, HeaderMap, T)` sets the status; a given header wins for its name and T's other headers stay |
| Web.HeaderFreeHasNoHeaders | src/web/mod.rs:68-122 | a value with no header tuple and no HTML answers with no headers |
| Web.ResultDelegates | src/web/mod.rs:133-138 | `Err(e)` fails with e; `Ok(t)` fails, and answers with status, headers and body, exactly as t does |
| Web.LeafResponses | src/web/mod.rs:98-114 | `()` gives 200 with an empty body; a status code gives that status with an empty body |
| Web.HtmlResponse | src/web/mod.rs:143-149 | Html gives 200 with content-type text/html and the text as the body |
| Web.Extract | src/web/mod.rs:151-212 | body extractors leave the request with an empty body; the other extractors leave the request unchanged |
| Web.OptionNeverFails | src/web/mod.rs:207-212 | `Option<T>` never fails: Some of T's value, or None when T fails |
| Web.StringFailsIffNotUtf8 | src/web/mod.rs:186-191 | a `String` extraction fails with 400 exactly when the body bytes are not UTF-8; a read error propagates |
| Web.StringRoundTrip | src/web/mod.rs:186-191 | a body holding a string's UTF-8 encoding extracts as that string |
| Web.PartsAreCopied | src/web/mod.rs:151-177 | Uri, Method, Version and HeaderMap never fail, copy their part and leave the request unchanged |
| Web.BodyTakenOnce | src/web/mod.rs:179-205 | after a body extractor runs, a second one sees an empty body |
| Utf8.Decode | src/web/mod.rs:189 | decoding never gives more characters than there are bytes, and the empty byte sequence decodes to the empty string |
| Http.IntoBytes | src/web/mod.rs:189-196 | an empty body reads as no bytes, a byte body as its bytes, and only a stream can fail, with its own read error |
| Utf8.Encode | src/web/mod.rs:70 | a string's UTF-8 encoding takes between one and four bytes per character |
| Utf8.DecodeEncode | src/web/mod.rs:189 | decoding the UTF-8 encoding of a string gives the string back |
| Utf8.EncodeDecode | src/web/mod.rs:189 | bytes that decode are the encoding of what they decode to |
| Utf8.DecodeSucceedsIffUtf8 | src/web/mod.rs:189 | decoding succeeds exactly on the encodings of strings |
| Utf8.DecodeFirstEncodeChar | src/web/mod.rs:189 | the first character of an encoding decodes back, with its byte length |
| Utf8.DecodeFirstIsEncodeChar | src/web/mod.rs:189 | what decodes as a first character is exactly that character's encoding |
| Utf8.EncodeChar | src/web/mod.rs:189 | a character encodes to 1 to 4 bytes, one byte exactly for ASCII, the rest continuation bytes |
| Http.Get | src/web/websocket/extractor.rs:27-41 | a header lookup gives the first of the name's values, or nothing exactly when it has none |
| Http.Append | poem/src/test/request_builder.rs:60 | append adds the value after the name's earlier values and leaves every other name alone |
| Http.Extend | poem/src/test/request_builder.rs:110-111 | every name of the argument gets exactly its values there; every other name keeps its own |
| Http.ParseUri | poem/src/test/request_builder.rs:108 | the URI ends at the first '#'; the path has no '?', and when a query is present it is what follows the first '?' before that, path + "?" + query giving that part back |
| Http.FragmentDropped | poem/src/test/request_builder.rs:108 | a fragment after '#' changes neither the path nor the query |

## Left out

- The automatic-certificate (ACME, RFC 8555) listener. Its source is not part of this model. Only its module list and two directory-URL constants are in poem/src/listener/acme/mod.rs.
- Real file-system access (`File::open`, `exists`, `is_file`, `read_dir`, `DirEntry::path().is_dir()`) is an oracle. Paths name what links point to, and the containment check stays lexical, as in the source.
- Rendering the listing with the askama template, and its 500 on a rendering failure, is not modelled. The model returns the filled-in template.
- Windows path prefixes and separators are not modelled; paths follow Unix `std::path`.
- WebSocket `sign` (SHA-1 and base64 of the key) is a function parameter. The spawned task that awaits the upgrade and runs the callback is concurrency and I/O and is not modelled.
- The upload example's `Mutex` and async runtime are not modelled. Each handler is one sequential critical section. Server startup and the Swagger UI are not modelled.
- UploadExample.Status.Upload: does not model the u64 wrap-around of the id counter. The counter is an unbounded natural number.
- serde and serde_urlencoded are not modelled. A query value arrives already serialised, or as None when serialising failed. `body_json` takes the JSON text, and the url-encoder is a parameter of `MakeRequest`. `send` and the endpoint call are not modelled.
- Http.ParseUri: only origin-form strings (a path, an optional "?query" and an optional "#fragment") are modelled. An absolute-form URI such as "http://h/a" keeps its scheme and authority in the modelled path, where `Uri::path()` gives "/a".
- TestRequestBuilding.TestRequestBuilder.MakeRequest: does not model `uri.parse().expect("valid uri")`, because URI validity is not modelled. The builder's URI is taken as an origin-form string, as for `Http.ParseUri`; for an absolute-form URI the modelled request path keeps the scheme and authority. The appended query is only proved to be read back as the request's query when the builder's URI has no '?' and no '#' of its own and the encoded query has no '#'.
- TestRequestBuilding.TestRequestBuilder.Header: the source panics on an invalid name or value. The model makes a valid name and value a precondition.
- Extension data is keyed by the name of its type, and the value is held as text.
- `Infallible` has no values, so `Responder` has no constructor for it. The `E: Into<Error>` conversion of a `Result` is taken as done.
- Web.Extract: takes the request and returns its updated copy, rather than borrowing it mutably. Bodies read to their bytes or to a read error.
- The other extractors and payloads (`Data`, `Form`, `Json`, `Path`, `Query`, typed headers, multipart) are not part of this model.
