/** The file store of the upload example API: a counter that hands out ids
    and a table from id to uploaded file, behind one lock (each operation
    below is one critical section). */
module UploadExample {
  import opened Http
  import opened Wrappers

  /** A stored file. */
  datatype File = File(
    name: string,
    desc: Option<string>,
    contentType: Option<string>,
    filename: Option<string>,
    data: seq<Byte>)

  /** The uploaded part of the form: its metadata, and what reading its
      data gives (the bytes or a read error). */
  datatype Upload = Upload(contentType: Option<string>, fileName: Option<string>, data: Result<seq<Byte>>)

  /** The multipart form `POST /files` takes. */
  datatype UploadPayload = UploadPayload(name: string, desc: Option<string>, file: Upload)

  /** `GET /files/:id` answers 200 with the data and a Content-Disposition
      header, or 404. */
  datatype GetFileResponse = FileFound(data: seq<Byte>, contentDisposition: string) | NotFound

  /** The Content-Disposition value: "attachment", followed by
      "; filename=<name>" when the upload had a file name. */
  function ContentDisposition(filename: Option<string>): (r: string)
    ensures |r| >= 10 && r[..10] == "attachment"
    ensures filename.None? <==> |r| == 10
  {
    match filename
    case None => "attachment"
    case Some(f) => "attachment" + "; filename=" + f
  }

  /** Reads the file name back out of a Content-Disposition value built by
      `ContentDisposition`. */
  function FilenameOf(disposition: string): Option<string> {
    var prefix := "attachment; filename=";
    if |disposition| >= |prefix| && disposition[..|prefix|] == prefix then Some(disposition[|prefix|..])
    else None
  }

  /** The header always starts with "attachment", and it names the file
      exactly when a file name was recorded: reading it back gives the
      recorded name. */
  lemma ContentDispositionNamesFile(filename: Option<string>)
    ensures ContentDisposition(filename)[..10] == "attachment"
    ensures FilenameOf(ContentDisposition(filename)) == filename
  {
    var prefix := "attachment; filename=";
    if filename.Some? {
      var d := ContentDisposition(filename);
      assert d == prefix + filename.value;
      assert d[..|prefix|] == prefix;
      assert d[|prefix|..] == filename.value;
    }
  }

  /** The record `upload` stores for a payload whose data was read. */
  function FileOf(upload: UploadPayload, data: seq<Byte>): File {
    File(upload.name, upload.desc, upload.file.contentType, upload.file.fileName, data)
  }

  /** The store: the next id and the files stored so far. */
  class Status {
    var id: nat
    var files: map<nat, File>

    /** Every stored id was handed out already: ids start at 1 and stay
        below the counter. */
    ghost predicate Valid()
      reads this
    {
      id >= 1 && forall k :: k in files ==> 1 <= k < id
    }

    /** The store `main` starts the service with: counter 1, no files. */
    constructor ()
      ensures Valid()
      ensures id == 1 && files == map[]
    {
      id := 1;
      files := map[];
    }

    /** `Api::upload`: take the counter's value as the id and advance the
        counter, then read the data; if reading fails the answer is 400 and
        the table is unchanged (the id is spent all the same), otherwise the
        file is stored under the id, which no file had before. */
    method Upload(upload: UploadPayload) returns (r: Result<nat>)
      requires Valid()
      modifies this
      ensures Valid()
      ensures id == old(id) + 1
      ensures old(id) !in old(files)
      ensures upload.file.data.Err? ==> r == Err(Error(BAD_REQUEST)) && files == old(files)
      ensures upload.file.data.Ok? ==>
                && r == Ok(old(id))
                && files == old(files)[old(id) := FileOf(upload, upload.file.data.value)]
    {
      var newId := id;
      id := id + 1;
      if upload.file.data.Err? {
        return Err(Error(BAD_REQUEST));
      }
      var file := FileOf(upload, upload.file.data.value);
      files := files[newId := file];
      r := Ok(newId);
    }

    /** `Api::get`: the file's data and Content-Disposition, or 404; the
        store is only read. */
    method Get(fileId: nat) returns (r: GetFileResponse)
      ensures fileId !in files ==> r == NotFound
      ensures fileId in files ==>
                r == FileFound(files[fileId].data, ContentDisposition(files[fileId].filename))
    {
      if fileId in files {
        var file := files[fileId];
        var contentDisposition := "attachment";
        if file.filename.Some? {
          contentDisposition := contentDisposition + "; filename=" + file.filename.value;
        }
        r := FileFound(file.data, contentDisposition);
      } else {
        r := NotFound;
      }
    }
  }

  /** Two uploads in a row get different, increasing ids, whether or not
      the first one succeeded, and the second never overwrites the first. */
  method UploadTwice(status: Status, a: UploadPayload, b: UploadPayload) returns (ra: Result<nat>, rb: Result<nat>)
    requires status.Valid()
    modifies status
    ensures status.Valid() && status.id == old(status.id) + 2
    ensures ra.Ok? && rb.Ok? ==> ra.value < rb.value
    ensures ra.Ok? ==> (a.file.data.Ok? && ra.value in status.files
                        && status.files[ra.value] == FileOf(a, a.file.data.value))
    ensures rb.Ok? ==> (b.file.data.Ok? && rb.value in status.files
                        && status.files[rb.value] == FileOf(b, b.file.data.value))
  {
    ra := status.Upload(a);
    rb := status.Upload(b);
  }

  /** An upload followed by a get of the returned id gives the data back,
      with the file name in the Content-Disposition. */
  method UploadThenGet(status: Status, a: UploadPayload) returns (r: GetFileResponse)
    requires status.Valid() && a.file.data.Ok?
    modifies status
    ensures r == FileFound(a.file.data.value, ContentDisposition(a.file.fileName))
  {
    var id := status.Upload(a);
    r := status.Get(id.value);
  }
}
