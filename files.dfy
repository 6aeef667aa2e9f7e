/** poem's static-file endpoint (`Files`): it maps the request path onto a
    base directory, refuses anything that leaves it, and serves a file, a
    directory's index file, or a listing of the directory.
    The file system is an oracle: which paths exist and of what kind, which
    files open, and what reading a directory yields. */
module StaticFiles {
  import opened Http
  import opened Wrappers
  import opened Paths
  import Text

  /** The endpoint's configuration. */
  datatype Files = Files(path: Path, showFilesListing: bool, indexFile: Option<string>)

  /** `Files::new`: listing off, no index file. */
  function New(path: string): (f: Files)
    ensures f.path == Parse(path)
    ensures !f.showFilesListing && f.indexFile == None
  {
    Files(Parse(path), false, None)
  }

  /** `Files::show_files_listing`: turns listing on and nothing else. */
  function ShowFilesListing(f: Files): (g: Files)
    ensures g.showFilesListing
    ensures g.path == f.path && g.indexFile == f.indexFile
  {
    f.(showFilesListing := true)
  }

  /** `Files::index_file`: sets the index file name and nothing else. */
  function IndexFile(f: Files, index: string): (g: Files)
    ensures g.indexFile == Some(index)
    ensures g.path == f.path && g.showFilesListing == f.showFilesListing
  {
    f.(indexFile := Some(index))
  }

  /** The two settings are independent: applying them in either order gives
      the same service, and applying one twice is applying it once (the
      later index file wins). */
  lemma SettingsCommute(f: Files, i: string, j: string)
    ensures ShowFilesListing(IndexFile(f, i)) == IndexFile(ShowFilesListing(f), i)
    ensures ShowFilesListing(ShowFilesListing(f)) == ShowFilesListing(f)
    ensures IndexFile(IndexFile(f, i), j) == IndexFile(f, j)
  {
  }

  // ---------------------------------------------------------------------
  // The file-system oracle

  datatype Kind = RegularFile | Directory | OtherKind

  /** A directory entry's file name: valid UTF-8 (`to_str` succeeds) or not. */
  datatype EntryName = Utf8Name(name: string) | NonUtf8Name

  datatype FileSystem = FileSystem(
    kind: map<Path, Kind>,                         // existing paths (links followed)
    openable: set<Path>,                           // paths `File::open` succeeds on
    listing: map<Path, seq<Option<EntryName>>>)    // `read_dir` results; absent: read_dir fails;
                                                   // None entry: reading that entry fails

  predicate IsFile(fs: FileSystem, p: Path) {
    p in fs.kind && fs.kind[p] == RegularFile
  }

  predicate IsDir(fs: FileSystem, p: Path) {
    p in fs.kind && fs.kind[p] == Directory
  }

  // ---------------------------------------------------------------------
  // Replies

  /** One line of a directory listing. */
  datatype FileRef = FileRef(url: string, filename: string, isDir: bool)

  /** The listing page: the title path and the entries. */
  datatype DirectoryTemplate = DirectoryTemplate(path: string, files: seq<FileRef>)

  /** A successful response: the body streams a file or renders a listing. */
  datatype Reply = ServeFile(file: Path) | ShowListing(page: DirectoryTemplate)

  // ---------------------------------------------------------------------
  // Path resolution

  /** The components of the request path once every leading and trailing
      '/' is trimmed. */
  function RequestComponents(uriPath: string): (cs: Path)
    ensures RootDir !in cs
  {
    var trimmed := Text.TrimEndMatches(Text.TrimStartMatches(uriPath, '/'), '/');
    ParseRelative(trimmed);
    Parse(trimmed)
  }

  /** One turn of the resolution loop: "." is skipped, ".." pops, anything
      else is pushed. */
  function Step(p: Path, c: Component): Path {
    match c
    case CurDir => p
    case ParentDir => Pop(p)
    case _ => Push(p, c)
  }

  /** A turn grows the path by at most one component: "." keeps it, ".."
      pops it, and a name extends it by exactly that name, which a pop
      removes again. */
  lemma StepCases(p: Path, c: Component)
    ensures |Step(p, c)| <= |p| + 1
    ensures c == CurDir ==> Step(p, c) == p
    ensures c == ParentDir ==> Step(p, c) == Pop(p)
    ensures c.Normal? ==> |Step(p, c)| == |p| + 1 && StartsWith(Step(p, c), p) && Step(p, c)[|p|] == c
                          && Pop(Step(p, c)) == p
  {
    PushExtends(p, c);
    if c.Normal? {
      PopPush(p, c.name);
    }
  }

  /** The path the request components lead to from `p`. */
  function Resolve(p: Path, cs: Path): Path
    decreases |cs|
  {
    if cs == [] then p else Resolve(Step(p, cs[0]), cs[1..])
  }

  /** Plain names are simply appended in order. */
  lemma {:induction false} ResolveNames(p: Path, cs: Path)
    requires forall i :: 0 <= i < |cs| ==> cs[i].Normal?
    ensures Resolve(p, cs) == p + cs
    decreases |cs|
  {
    if cs != [] {
      assert forall i :: 0 <= i < |cs| - 1 ==> cs[1..][i].Normal? by {
        forall i | 0 <= i < |cs| - 1 ensures cs[1..][i].Normal? {
          assert cs[1..][i] == cs[i + 1];
        }
      }
      ResolveNames(Step(p, cs[0]), cs[1..]);
      assert p + [cs[0]] + cs[1..] == p + cs;
    }
  }

  /** Only plain names follow `base` in `p`. */
  predicate Within(p: Path, base: Path) {
    StartsWith(p, base) && forall i :: |base| <= i < |p| ==> p[i].Normal?
  }

  /** Resolution from a prefix of the base keeps the shape "a prefix of the
      base followed by plain names": no "." or ".." ever survives into the
      resolved path. */
  lemma {:induction false} ResolveShape(base: Path, j: nat, names: Path, cs: Path)
    requires j <= |base| && RootDir !in cs
    requires forall i :: 0 <= i < |names| ==> names[i].Normal?
    ensures exists k: nat, ns: Path :: k <= |base| && Resolve(base[..j] + names, cs) == base[..k] + ns
                                    && (forall i :: 0 <= i < |ns| ==> ns[i].Normal?)
    decreases |cs|
  {
    var p := base[..j] + names;
    if cs == [] {
      assert Resolve(p, cs) == base[..j] + names;
    } else {
      assert RootDir !in cs[1..];
      assert Resolve(p, cs) == Resolve(Step(p, cs[0]), cs[1..]);
      var j', names' := StepShape(base, j, names, cs[0]);
      ResolveShape(base, j', names', cs[1..]);
    }
  }

  /** One turn keeps the shape: the new path is again a prefix of the base
      followed by plain names. */
  lemma StepShape(base: Path, j: nat, names: Path, c: Component) returns (j': nat, names': Path)
    requires j <= |base| && c != RootDir
    requires forall i :: 0 <= i < |names| ==> names[i].Normal?
    ensures j' <= |base| && forall i :: 0 <= i < |names'| ==> names'[i].Normal?
    ensures Step(base[..j] + names, c) == base[..j'] + names'
  {
    var p := base[..j] + names;
    match c {
      case CurDir =>
        j', names' := j, names;
      case Normal(_) =>
        j', names' := j, names + [c];
        assert Step(p, c) == base[..j] + (names + [c]);
      case ParentDir =>
        if names != [] {
          j', names' := j, names[..|names| - 1];
          assert Step(p, c) == base[..j] + names[..|names| - 1];
        } else if j > 0 && base[j - 1] != RootDir {
          j', names' := j - 1, [];
          assert p == base[..j];
          assert Step(p, c) == base[..j - 1] + [];
        } else {
          j', names' := j, names;
          assert Step(p, c) == p;
        }
    }
  }

  /** A resolved path that starts with the base is the base followed by
      plain names. */
  lemma ResolvedWithin(base: Path, cs: Path)
    requires RootDir !in cs
    requires StartsWith(Resolve(base, cs), base)
    ensures Within(Resolve(base, cs), base)
  {
    assert base[..|base|] + [] == base;
    ResolveShape(base, |base|, [], cs);
    var k: nat, ns: Path :| k <= |base| && Resolve(base, cs) == base[..k] + ns
                           && (forall i :: 0 <= i < |ns| ==> ns[i].Normal?);
    var r := Resolve(base, cs);
    assert |r| == k + |ns|;
    forall i | |base| <= i < |r|
      ensures r[i].Normal?
    {
      assert 0 <= i - k < |ns| && r[i] == ns[i - k];
    }
  }

  /** Without "..", resolution only appends the request's names. */
  lemma {:induction false} ResolveWithoutParent(p: Path, cs: Path)
    requires RootDir !in cs && ParentDir !in cs
    ensures StartsWith(Resolve(p, cs), p)
    decreases |cs|
  {
    if cs != [] {
      assert RootDir !in cs[1..] && ParentDir !in cs[1..];
      ResolveWithoutParent(Step(p, cs[0]), cs[1..]);
      StartsWithOrder(Resolve(p, cs), Step(p, cs[0]), p);
    }
  }

  // ---------------------------------------------------------------------
  // The endpoint, as a specification

  /** The index file to serve for directory `dir`, when one is configured
      and is a regular file. */
  function IndexTarget(files: Files, fs: FileSystem, dir: Path): (r: Option<Path>)
    ensures r.Some? <==> files.indexFile.Some? && IsFile(fs, Join(dir, files.indexFile.value))
    ensures r.Some? ==> r.value == Join(dir, files.indexFile.value)
  {
    match files.indexFile
    case None => None
    case Some(index) => if IsFile(fs, Join(dir, index)) then Some(Join(dir, index)) else None
  }

  /** `create_file_response`: open the file, or fail with 500. */
  function FileResponse(fs: FileSystem, p: Path): (r: Result<Reply>)
    ensures r.Ok? <==> p in fs.openable
    ensures r.Ok? ==> r.value == ServeFile(p)
    ensures r.Err? ==> r.error == Error(INTERNAL_SERVER_ERROR)
  {
    if p in fs.openable then Ok(ServeFile(p)) else Err(Error(INTERNAL_SERVER_ERROR))
  }

  /** The request's original path with exactly one '/' ensured at its end. */
  function BaseUrl(originalPath: string): (u: string)
    ensures Text.EndsWith(u, '/')
    ensures u == originalPath || u == originalPath + "/"
    ensures u == originalPath <==> Text.EndsWith(originalPath, '/')
  {
    if Text.EndsWith(originalPath, '/') then originalPath else originalPath + "/"
  }

  /** The UTF-8 names among directory entries, in order. */
  function Utf8Names(es: seq<Option<EntryName>>): seq<string> {
    if es == [] then []
    else match es[0]
      case Some(Utf8Name(n)) => [n] + Utf8Names(es[1..])
      case _ => Utf8Names(es[1..])
  }

  function Filenames(refs: seq<FileRef>): seq<string> {
    if refs == [] then [] else [refs[0].filename] + Filenames(refs[1..])
  }

  /** The listing lines for the entries of `dir`, in order. */
  function ListingEntries(fs: FileSystem, dir: Path, baseUrl: string, es: seq<Option<EntryName>>)
    : (r: Result<seq<FileRef>>)
    ensures r.Err? ==> r.error == Error(INTERNAL_SERVER_ERROR)
  {
    if es == [] then Ok([])
    else
      var rest := ListingEntries(fs, dir, baseUrl, es[1..]);
      match es[0]
      case None => Err(Error(INTERNAL_SERVER_ERROR))
      case Some(NonUtf8Name) => rest
      case Some(Utf8Name(n)) =>
        if rest.Err? then rest
        else Ok([FileRef(baseUrl + n, n, IsDir(fs, dir + [Normal(n)]))] + rest.value)
  }

  /** An entry that cannot be read fails the whole listing with 500; names
      that are not UTF-8 are skipped; every other entry, in order, gets the
      base URL followed by its name, and is marked a directory exactly when
      the oracle says it is one. */
  lemma {:induction false} ListingEntriesSpec(fs: FileSystem, dir: Path, baseUrl: string, es: seq<Option<EntryName>>)
    ensures var r := ListingEntries(fs, dir, baseUrl, es);
      && (r.Ok? <==> forall i :: 0 <= i < |es| ==> es[i].Some?)
      && (r.Ok? ==> Filenames(r.value) == Utf8Names(es))
      && (r.Ok? ==> forall j :: 0 <= j < |r.value| ==>
                      r.value[j].url == baseUrl + r.value[j].filename
                      && r.value[j].isDir == IsDir(fs, dir + [Normal(r.value[j].filename)]))
  {
    if es != [] {
      ListingEntriesSpec(fs, dir, baseUrl, es[1..]);
      var r := ListingEntries(fs, dir, baseUrl, es);
      var rest := ListingEntries(fs, dir, baseUrl, es[1..]);
      assert (forall i :: 0 <= i < |es| ==> es[i].Some?)
         <==> es[0].Some? && (forall i :: 0 <= i < |es| - 1 ==> es[1..][i].Some?);
      if r.Ok? && es[0].Some? && es[0].value.Utf8Name? {
        var n := es[0].value.name;
        assert r.value == [FileRef(baseUrl + n, n, IsDir(fs, dir + [Normal(n)]))] + rest.value;
        assert r.value[1..] == rest.value;
      }
    }
  }

  /** The lines collected so far in front of what the rest yields. */
  function Prepend(refs: seq<FileRef>, rest: Result<seq<FileRef>>): Result<seq<FileRef>> {
    match rest
    case Err(e) => Err(e)
    case Ok(more) => Ok(refs + more)
  }

  /** The listing page for directory `dir`. */
  function Listing(fs: FileSystem, dir: Path, req: Request): (r: Result<Reply>)
    ensures r.Err? ==> r.error == Error(INTERNAL_SERVER_ERROR)
    ensures r.Ok? ==> r.value.ShowListing? && r.value.page.path == req.uri.path && dir in fs.listing
  {
    if dir !in fs.listing then Err(Error(INTERNAL_SERVER_ERROR))
    else
      match ListingEntries(fs, dir, BaseUrl(req.originalUri.path), fs.listing[dir])
      case Err(e) => Err(e)
      case Ok(refs) => Ok(ShowListing(DirectoryTemplate(req.uri.path, refs)))
  }

  /** What `Files::call` answers, case by case. */
  function Serve(files: Files, fs: FileSystem, req: Request): Result<Reply> {
    if req.httpMethod != GET then Err(Error(METHOD_NOT_ALLOWED))
    else
      var p := Resolve(files.path, RequestComponents(req.uri.path));
      if !StartsWith(p, files.path) then Err(Error(FORBIDDEN))
      else if p !in fs.kind then Err(Error(NOT_FOUND))
      else if fs.kind[p] == RegularFile then FileResponse(fs, p)
      else if IndexTarget(files, fs, p).Some? then FileResponse(fs, IndexTarget(files, fs, p).value)
      else if files.showFilesListing then Listing(fs, p, req)
      else Err(Error(NOT_FOUND))
  }

  /** 405 is the answer exactly for the methods other than GET, and every
      failure is one of 405, 403, 404 and 500. */
  lemma ServeOutcomes(files: Files, fs: FileSystem, req: Request)
    ensures var r := Serve(files, fs, req);
            && (req.httpMethod != GET <==> r == Err(Error(METHOD_NOT_ALLOWED)))
            && (r.Err? ==> r.error.status in {METHOD_NOT_ALLOWED, FORBIDDEN, NOT_FOUND, INTERNAL_SERVER_ERROR})
  {
    if req.httpMethod == GET {
      var p := Resolve(files.path, RequestComponents(req.uri.path));
      if StartsWith(p, files.path) && p in fs.kind && fs.kind[p] != RegularFile {
        if IndexTarget(files, fs, p).Some? {
          assert Serve(files, fs, req) == FileResponse(fs, IndexTarget(files, fs, p).value);
        } else if files.showFilesListing {
          assert Serve(files, fs, req) == Listing(fs, p, req);
        }
      }
    }
  }

  // ---------------------------------------------------------------------
  // The endpoint, as the source runs it

  /** The resolution loop of `Files::call`: starting from the base, skip
      ".", pop on "..", push anything else. */
  method ResolvePath(base: Path, comps: Path) returns (filePath: Path)
    ensures filePath == Resolve(base, comps)
  {
    filePath := base;
    var i := 0;
    while i < |comps|
      invariant 0 <= i <= |comps|
      invariant Resolve(filePath, comps[i..]) == Resolve(base, comps)
    {
      assert comps[i..][1..] == comps[i + 1..];
      match comps[i] {
        case CurDir =>
        case ParentDir =>
          filePath := Pop(filePath);
        case _ =>
          filePath := Push(filePath, comps[i]);
      }
      i := i + 1;
    }
  }

  /** The listing loop of `Files::call`: one line per readable UTF-8 entry,
      the first unreadable entry failing with 500. */
  method CollectListing(fs: FileSystem, dir: Path, baseUrl: string, entries: seq<Option<EntryName>>)
    returns (r: Result<seq<FileRef>>)
    ensures r == ListingEntries(fs, dir, baseUrl, entries)
  {
    var refs: seq<FileRef> := [];
    var k := 0;
    assert entries[0..] == entries;
    assert ListingEntries(fs, dir, baseUrl, entries).Ok? ==> [] + ListingEntries(fs, dir, baseUrl, entries).value == ListingEntries(fs, dir, baseUrl, entries).value;
    while k < |entries|
      invariant 0 <= k <= |entries|
      invariant ListingEntries(fs, dir, baseUrl, entries) == Prepend(refs, ListingEntries(fs, dir, baseUrl, entries[k..]))
    {
      assert entries[k..][1..] == entries[k + 1..];
      var rest := ListingEntries(fs, dir, baseUrl, entries[k + 1..]);
      match entries[k] {
        case None =>
          assert ListingEntries(fs, dir, baseUrl, entries[k..]) == Err(Error(INTERNAL_SERVER_ERROR));
          return Err(Error(INTERNAL_SERVER_ERROR));
        case Some(NonUtf8Name) =>
        case Some(Utf8Name(n)) =>
          var line := FileRef(baseUrl + n, n, IsDir(fs, dir + [Normal(n)]));
          assert rest.Ok? ==> refs + ([line] + rest.value) == (refs + [line]) + rest.value;
          refs := refs + [line];
      }
      k := k + 1;
    }
    assert entries[k..] == [] && refs + [] == refs;
    r := Ok(refs);
  }

  /** `Files::call`: only GET; resolve; refuse what leaves the base; then a
      file, an index file, a listing or 404. */
  method Call(files: Files, fs: FileSystem, req: Request) returns (r: Result<Reply>)
    ensures r == Serve(files, fs, req)
  {
    if req.httpMethod != GET {
      return Err(Error(METHOD_NOT_ALLOWED));
    }
    var filePath := ResolvePath(files.path, RequestComponents(req.uri.path));
    if !StartsWith(filePath, files.path) {
      return Err(Error(FORBIDDEN));
    }
    if filePath !in fs.kind {
      return Err(Error(NOT_FOUND));
    }
    if fs.kind[filePath] == RegularFile {
      return FileResponse(fs, filePath);
    }
    if files.indexFile.Some? {
      var indexPath := Join(filePath, files.indexFile.value);
      if IsFile(fs, indexPath) {
        return FileResponse(fs, indexPath);
      }
    }
    if !files.showFilesListing {
      return Err(Error(NOT_FOUND));
    }
    if filePath !in fs.listing {
      return Err(Error(INTERNAL_SERVER_ERROR));
    }
    var baseUrl := req.originalUri.path;
    if !Text.EndsWith(baseUrl, '/') {
      baseUrl := baseUrl + "/";
    }
    var refs := CollectListing(fs, filePath, baseUrl, fs.listing[filePath]);
    if refs.Err? {
      return Err(refs.error);
    }
    r := Ok(ShowListing(DirectoryTemplate(req.uri.path, refs.value)));
  }

  // ---------------------------------------------------------------------
  // Properties of the endpoint

  /** Any method but GET is refused with 405 before the path is looked at. */
  lemma OnlyGet(files: Files, fs: FileSystem, fs': FileSystem, req: Request)
    requires req.httpMethod != GET
    ensures Serve(files, fs, req) == Serve(files, fs', req) == Err(Error(METHOD_NOT_ALLOWED))
  {
  }

  /** Whatever is not refused with 403 was resolved to the base followed by
      plain names, and every answer is about that path: a served file is
      the path itself or the path joined with the configured index name
      (which is not checked against the base), and a listing is the
      listing of that path. */
  lemma ServedWithinBase(files: Files, fs: FileSystem, req: Request)
    requires req.httpMethod == GET
    requires Serve(files, fs, req) != Err(Error(FORBIDDEN))
    ensures var p := Resolve(files.path, RequestComponents(req.uri.path));
            && Within(p, files.path)
            && (Serve(files, fs, req).Ok? && Serve(files, fs, req).value.ServeFile? ==>
                  var file := Serve(files, fs, req).value.file;
                  (IsFile(fs, p) && file == p)
                  || (!IsFile(fs, p) && files.indexFile.Some? && file == Join(p, files.indexFile.value)))
            && (Serve(files, fs, req).Ok? && Serve(files, fs, req).value.ShowListing? ==>
                  && files.showFilesListing && p in fs.listing
                  && Filenames(Serve(files, fs, req).value.page.files) == Utf8Names(fs.listing[p]))
  {
    var p := Resolve(files.path, RequestComponents(req.uri.path));
    assert StartsWith(p, files.path);
    ResolvedWithin(files.path, RequestComponents(req.uri.path));
    if p in fs.kind {
      if fs.kind[p] == RegularFile {
        assert Serve(files, fs, req) == FileResponse(fs, p);
      } else if IndexTarget(files, fs, p).Some? {
        assert Serve(files, fs, req) == FileResponse(fs, IndexTarget(files, fs, p).value);
      } else if files.showFilesListing {
        assert Serve(files, fs, req) == Listing(fs, p, req);
        if p in fs.listing {
          ListingEntriesSpec(fs, p, BaseUrl(req.originalUri.path), fs.listing[p]);
        }
      }
    }
  }

  /** The index name is joined without a check: a name that climbs out of
      the directory is served from outside the base. */
  lemma IndexFileCanLeaveBase()
    ensures var base := [RootDir, Normal("srv")];
            var target := [RootDir, Normal("srv"), ParentDir, Normal("secret")];
            var fs := FileSystem(map[base := Directory, target := RegularFile], {target}, map[]);
            var req := Request(GET, Uri("/", None), Uri("/", None), HTTP_11, EmptyHeaders, map[], Empty);
            && Join(base, "../secret") == target
            && Serve(Files(base, false, Some("../secret")), fs, req) == Ok(ServeFile(target))
            && !Within(target, base)
  {
    var base := [RootDir, Normal("srv")];
    var target := [RootDir, Normal("srv"), ParentDir, Normal("secret")];
    var fs := FileSystem(map[base := Directory, target := RegularFile], {target}, map[]);
    var req := Request(GET, Uri("/", None), Uri("/", None), HTTP_11, EmptyHeaders, map[], Empty);
    var files := Files(base, false, Some("../secret"));
    JoinClimb();
    assert IsDir(fs, base) && IsFile(fs, target) && target in fs.openable;
    RootIndexServed(files, fs, req, target);
    assert target[2] == ParentDir;
  }

  /** The same, for any service whose joined index name names an openable
      file. */
  lemma RootIndexServed(files: Files, fs: FileSystem, req: Request, target: Path)
    requires req.httpMethod == GET && req.uri.path == "/"
    requires IsDir(fs, files.path) && files.indexFile.Some?
    requires Join(files.path, files.indexFile.value) == target
    requires IsFile(fs, target) && target in fs.openable
    ensures Serve(files, fs, req) == Ok(ServeFile(target))
  {
    RootServesIndex(files, fs, req);
  }

  /** A GET of "/" on a base directory that has an index file serves that
      index file. */
  lemma RootServesIndex(files: Files, fs: FileSystem, req: Request)
    requires req.httpMethod == GET && req.uri.path == "/"
    requires files.path in fs.kind && fs.kind[files.path] == Directory
    requires IndexTarget(files, fs, files.path).Some?
    ensures Serve(files, fs, req) == FileResponse(fs, IndexTarget(files, fs, files.path).value)
  {
    RootRequest();
    assert StartsWith(files.path, files.path);
  }

  /** "../secret" is a climb followed by one name. */
  lemma JoinClimb()
    ensures Join([RootDir, Normal("srv")], "../secret") == [RootDir, Normal("srv"), ParentDir, Normal("secret")]
  {
    ParseClimb();
    JoinParsed([RootDir, Normal("srv")], "../secret");
  }

  /** Joining a string that starts with a climb appends all its
      components, the climb included. */
  lemma JoinParsed(p: Path, s: string)
    requires p != [] && |Parse(s)| > 0 && Parse(s)[0] == ParentDir
    ensures Join(p, s) == p + Parse(s)
  {
  }

  lemma ParseClimb()
    ensures Parse("../secret") == [ParentDir, Normal("secret")]
  {
    SplitClimb();
    SegmentsClimb();
    assert "../secret"[0] != '/';
  }

  lemma SplitClimb()
    ensures Text.Split("../secret", '/') == ["..", "secret"]
  {
    assert '/' !in ".." && '/' !in "secret";
    assert "../secret" == ".." + ['/'] + "secret";
    Text.SplitPrefix("..", "secret", '/');
    Text.SplitOfSepFree("secret", '/');
  }

  lemma SegmentsClimb()
    ensures Segments(["..", "secret"], true) == [ParentDir, Normal("secret")]
  {
    assert Segments(["secret"], false) == [Normal("secret")] + Segments([], false);
    assert Segments(["..", "secret"], true) == [ParentDir] + Segments(["secret"], false);
  }

  /** The request path "/" has no components. */
  lemma RootRequest()
    ensures RequestComponents("/") == []
  {
    assert "/"[1..] == "";
    assert Text.TrimStartMatches("/", '/') == "";
    assert Text.TrimEndMatches("", '/') == "";
    ParseEmpty();
  }

  lemma ParseEmpty()
    ensures Parse("") == []
  {
    assert Text.Split("", '/') == [""];
    assert Segments([""], true) == [] + Segments([], false);
  }

  /** A request path with no ".." segment is never refused with 403. */
  lemma NoParentNeverForbidden(files: Files, fs: FileSystem, req: Request)
    requires ParentDir !in RequestComponents(req.uri.path)
    ensures Serve(files, fs, req) != Err(Error(FORBIDDEN))
  {
    var p := Resolve(files.path, RequestComponents(req.uri.path));
    ResolveWithoutParent(files.path, RequestComponents(req.uri.path));
    if req.httpMethod == GET && p in fs.kind && fs.kind[p] != RegularFile && IndexTarget(files, fs, p).None?
       && files.showFilesListing {
      assert Serve(files, fs, req) == Listing(fs, p, req);
    }
  }

  /** A directory with a usable index file serves it, listing or not. */
  lemma IndexBeforeListing(files: Files, fs: FileSystem, req: Request)
    requires req.httpMethod == GET
    requires var p := Resolve(files.path, RequestComponents(req.uri.path));
             StartsWith(p, files.path) && IsDir(fs, p) && IndexTarget(files, fs, p).Some?
    ensures var p := Resolve(files.path, RequestComponents(req.uri.path));
            Serve(files, fs, req) == FileResponse(fs, IndexTarget(files, fs, p).value)
            && Serve(files, fs, req) == Serve(ShowFilesListing(files), fs, req)
  {
  }

  /** A directory with no usable index file and listing off is a 404. */
  lemma DirectoryWithoutListing(files: Files, fs: FileSystem, req: Request)
    requires req.httpMethod == GET && !files.showFilesListing
    requires var p := Resolve(files.path, RequestComponents(req.uri.path));
             StartsWith(p, files.path) && IsDir(fs, p) && IndexTarget(files, fs, p).None?
    ensures Serve(files, fs, req) == Err(Error(NOT_FOUND))
  {
  }

  /** Every link of a listing is the request's original path, ending in
      exactly the '/' it had or one added, followed by the entry's name;
      the names listed are the UTF-8 names of the directory, in order. */
  lemma ListingLinks(files: Files, fs: FileSystem, req: Request)
    requires Serve(files, fs, req).Ok? && Serve(files, fs, req).value.ShowListing?
    ensures var page := Serve(files, fs, req).value.page;
            var p := Resolve(files.path, RequestComponents(req.uri.path));
            && page.path == req.uri.path
            && Filenames(page.files) == Utf8Names(fs.listing[p])
            && forall j :: 0 <= j < |page.files| ==>
                 page.files[j].url == BaseUrl(req.originalUri.path) + page.files[j].filename
  {
    var p := Resolve(files.path, RequestComponents(req.uri.path));
    assert req.httpMethod == GET;
    assert StartsWith(p, files.path) && p in fs.kind && fs.kind[p] != RegularFile;
    assert IndexTarget(files, fs, p).None? && files.showFilesListing;
    assert Serve(files, fs, req) == Listing(fs, p, req);
    ListingEntriesSpec(fs, p, BaseUrl(req.originalUri.path), fs.listing[p]);
  }
}
