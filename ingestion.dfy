/** The two upload routes (api-server.js:69-136) together with the admission
    checks the upload middleware applies to each file part before the route
    handler runs (api-server.js:36-55) and the error middleware that turns a
    failed admission into a status (api-server.js:254-269). */
module Ingestion {
  import opened PathExt
  import opened Formats
  import opened Naming
  import opened Listing

  datatype Option<T> = None | Some(value: T)

  /** `POST /api/upload` takes one part under field "file";
      `POST /api/upload/multiple` up to ten under field "files". */
  datatype Route = Single | Multiple

  /** One file part of a multipart request, in stream order. `now` and
      `random` are the clock reading and the rounded random draw taken when the
      part is named; `mtime` is the modification time the file system records
      when its write completes. A file part whose client file name has an
      empty base name is skipped by the upload middleware before any check
      and is not a `Part`. */
  datatype Part = Part(fieldname: string, originalName: string, mimetype: string, size: nat,
                       now: nat, random: nat, mtime: nat)

  /** Per-file size limit: 100 MiB. */
  const MaxFileSize: nat := 100 * 1024 * 1024

  function FieldName(route: Route): string {
    if route == Single then "file" else "files"
  }

  function MaxCount(route: Route): nat {
    if route == Single then 1 else 10
  }

  /** Why the upload middleware gave up on a request: a part under another
      field or beyond the route's count, a part the type filter refused, or
      a part larger than the size limit. */
  datatype UploadError = UnexpectedFile | InvalidType | FileTooLarge

  /** The record a route returns for each stored file. `viewerFile` is the
      name the viewer link carries, before URL encoding. */
  datatype FileInfo = FileInfo(filename: string, originalName: string, size: nat, mimetype: string,
                               uploadDate: nat, filePath: string, viewerFile: string)

  datatype Response = Stored(files: seq<FileInfo>) | Failed(status: nat, error: string)

  function Status(r: Response): nat {
    match r
    case Stored(_) => 200
    case Failed(status, _) => status
  }

  /** The checks on the part at position `index`, in the order the middleware
      makes them: field and count, then the type filter, then the size limit,
      which only a part of more than `MaxFileSize` bytes exceeds. */
  function PartError(route: Route, index: nat, p: Part): (r: Option<UploadError>)
    ensures r.None? <==> index < MaxCount(route) && Admissible(route, p)
    ensures r == Some(FileTooLarge)
        <==> index < MaxCount(route) && p.fieldname == FieldName(route) && UploadAccepts(p.originalName) && p.size > MaxFileSize
  {
    if p.fieldname != FieldName(route) || index >= MaxCount(route) then Some(UnexpectedFile)
    else if !UploadAccepts(p.originalName) then Some(InvalidType)
    else if p.size > MaxFileSize then Some(FileTooLarge)
    else None
  }

  /** The first error among the parts from position `from` on: the one that
      aborts the request. */
  function FirstErrorFrom(route: Route, parts: seq<Part>, from: nat): (r: Option<UploadError>)
    requires from <= |parts|
    decreases |parts| - from
    ensures r.None? <==> forall j :: from <= j < |parts| ==> PartError(route, j, parts[j]).None?
    ensures r.Some? ==> exists j :: from <= j < |parts| && PartError(route, j, parts[j]) == r
                                    && forall k :: from <= k < j ==> PartError(route, k, parts[k]).None?
  {
    if from == |parts| then None
    else match PartError(route, from, parts[from])
      case Some(e) => Some(e)
      case None => FirstErrorFrom(route, parts, from + 1)
  }

  function FirstError(route: Route, parts: seq<Part>): Option<UploadError> {
    FirstErrorFrom(route, parts, 0)
  }

  /** A part that passes every check. */
  predicate Admissible(route: Route, p: Part) {
    p.fieldname == FieldName(route) && UploadAccepts(p.originalName) && p.size <= MaxFileSize
  }

  /** A request passes the middleware exactly when it has at most the route's
      count of parts and every part is under the route's field, has an
      accepted extension and is within the size limit. */
  lemma AdmittedIff(route: Route, parts: seq<Part>)
    ensures FirstError(route, parts).None?
        <==> |parts| <= MaxCount(route) && forall i :: 0 <= i < |parts| ==> Admissible(route, parts[i])
  {
    if |parts| > MaxCount(route) {
      assert PartError(route, MaxCount(route), parts[MaxCount(route)]) == Some(UnexpectedFile);
    }
  }

  /** The error middleware: a size-limit error becomes 400 "File too large",
      every other error 500. */
  function ErrorResponse(e: UploadError): (r: Response)
    ensures r.Failed?
    ensures Status(r) == 400 <==> e == FileTooLarge
    ensures Status(r) == 500 <==> e != FileTooLarge
  {
    if e == FileTooLarge then Failed(400, "File too large") else Failed(500, "Internal server error")
  }

  function NoFileError(route: Route): string {
    if route == Single then "No file uploaded" else "No files uploaded"
  }

  function StoredNameOf(route: Route, p: Part): string {
    StoredName(FieldName(route), p.now, p.random, p.originalName)
  }

  function Info(route: Route, p: Part, uploadDate: nat): FileInfo {
    var name := StoredNameOf(route, p);
    FileInfo(name, p.originalName, p.size, p.mimetype, uploadDate, FilePath(name), name)
  }

  function Infos(route: Route, parts: seq<Part>, uploadDate: nat): (r: seq<FileInfo>)
    ensures |r| == |parts|
    ensures forall i :: 0 <= i < |parts| ==> r[i] == Info(route, parts[i], uploadDate)
  {
    if parts == [] then [] else [Info(route, parts[0], uploadDate)] + Infos(route, parts[1..], uploadDate)
  }

  /** What the client receives: the middleware's error if a part failed, 400
      when no file arrived, otherwise one record per part in stream order.
      `uploadDate` is the clock reading the handler takes for the records. */
  function UploadResponse(route: Route, parts: seq<Part>, uploadDate: nat): Response {
    match FirstError(route, parts)
    case Some(e) => ErrorResponse(e)
    case None =>
      if parts == [] then Failed(400, NoFileError(route))
      else Stored(Infos(route, parts, uploadDate))
  }

  /** The directory after the parts are written one after the other, each
      under its generated name; a later part overwrites an earlier one with
      the same name. */
  function StoreAll(m: map<string, Entry>, route: Route, parts: seq<Part>): map<string, Entry>
    decreases |parts|
  {
    if parts == [] then m
    else StoreAll(m[StoredNameOf(route, parts[0]) := Entry(parts[0].size, parts[0].mtime)], route, parts[1..])
  }

  /** Storing never drops an entry. */
  lemma {:induction false} StoreAllKeepsKey(m: map<string, Entry>, route: Route, parts: seq<Part>, n: string)
    requires n in m
    ensures n in StoreAll(m, route, parts)
    decreases |parts|
  {
    if parts != [] {
      StoreAllKeepsKey(m[StoredNameOf(route, parts[0]) := Entry(parts[0].size, parts[0].mtime)], route, parts[1..], n);
    }
  }

  /** Every part's generated name is in the directory after storing. */
  lemma {:induction false} StoreAllContains(m: map<string, Entry>, route: Route, parts: seq<Part>, i: nat)
    requires i < |parts|
    ensures StoredNameOf(route, parts[i]) in StoreAll(m, route, parts)
    decreases |parts|
  {
    var m' := m[StoredNameOf(route, parts[0]) := Entry(parts[0].size, parts[0].mtime)];
    if i == 0 {
      StoreAllKeepsKey(m', route, parts[1..], StoredNameOf(route, parts[0]));
    } else {
      StoreAllContains(m', route, parts[1..], i - 1);
      assert parts[1..][i - 1] == parts[i];
    }
  }

  /** A name that was not in the directory before storing is the generated
      name of one of the parts. */
  lemma {:induction false} StoreAllOnlyAdds(m: map<string, Entry>, route: Route, parts: seq<Part>, n: string)
    requires n in StoreAll(m, route, parts) && n !in m
    ensures exists i :: 0 <= i < |parts| && StoredNameOf(route, parts[i]) == n
    decreases |parts|
  {
    var k := StoredNameOf(route, parts[0]);
    if n != k {
      StoreAllOnlyAdds(m[k := Entry(parts[0].size, parts[0].mtime)], route, parts[1..], n);
      var i :| 0 <= i < |parts[1..]| && StoredNameOf(route, parts[1..][i]) == n;
      assert parts[i + 1] == parts[1..][i];
    }
  }

  /** An entry whose name no part generates keeps its size and time. */
  lemma {:induction false} StoreAllKeepsOthers(m: map<string, Entry>, route: Route, parts: seq<Part>, n: string)
    requires n in m
    requires forall i :: 0 <= i < |parts| ==> StoredNameOf(route, parts[i]) != n
    ensures n in StoreAll(m, route, parts) && StoreAll(m, route, parts)[n] == m[n]
    decreases |parts|
  {
    if parts != [] {
      assert StoredNameOf(route, parts[0]) != n;
      forall i | 0 <= i < |parts[1..]| ensures StoredNameOf(route, parts[1..][i]) != n {
        assert parts[1..][i] == parts[i + 1];
      }
      StoreAllKeepsOthers(m[StoredNameOf(route, parts[0]) := Entry(parts[0].size, parts[0].mtime)], route, parts[1..], n);
    }
  }

  /** The first part's entry survives the rest of the request when no later
      part generates its name. */
  lemma StoreAllStoresFirst(m: map<string, Entry>, route: Route, parts: seq<Part>)
    requires parts != []
    requires forall j :: 0 < j < |parts| ==> StoredNameOf(route, parts[j]) != StoredNameOf(route, parts[0])
    ensures StoredNameOf(route, parts[0]) in StoreAll(m, route, parts)
    ensures StoreAll(m, route, parts)[StoredNameOf(route, parts[0])] == Entry(parts[0].size, parts[0].mtime)
  {
    var k := StoredNameOf(route, parts[0]);
    var m' := m[k := Entry(parts[0].size, parts[0].mtime)];
    var rest := parts[1..];
    forall j | 0 <= j < |rest| ensures StoredNameOf(route, rest[j]) != k {
      assert rest[j] == parts[j + 1];
    }
    StoreAllKeepsOthers(m', route, rest, k);
  }

  /** The entry under a part's generated name holds that part's size and
      time, unless a later part of the request wrote the same name again:
      the last write wins. */
  lemma {:induction false} StoreAllStores(m: map<string, Entry>, route: Route, parts: seq<Part>, i: nat)
    requires i < |parts|
    requires forall j :: i < j < |parts| ==> StoredNameOf(route, parts[j]) != StoredNameOf(route, parts[i])
    ensures StoredNameOf(route, parts[i]) in StoreAll(m, route, parts)
    ensures StoreAll(m, route, parts)[StoredNameOf(route, parts[i])] == Entry(parts[i].size, parts[i].mtime)
    decreases |parts|
  {
    if i == 0 {
      StoreAllStoresFirst(m, route, parts);
    } else {
      var k := StoredNameOf(route, parts[0]);
      var m' := m[k := Entry(parts[0].size, parts[0].mtime)];
      LaterNamesDiffer(route, parts, i);
      StoreAllStores(m', route, parts[1..], i - 1);
      assert parts[1..][i - 1] == parts[i];
    }
  }

  /** Dropping the first part keeps "no later part generates the same name". */
  lemma LaterNamesDiffer(route: Route, parts: seq<Part>, i: nat)
    requires 0 < i < |parts|
    requires forall j :: i < j < |parts| ==> StoredNameOf(route, parts[j]) != StoredNameOf(route, parts[i])
    ensures forall j :: i - 1 < j < |parts[1..]| ==> StoredNameOf(route, parts[1..][j]) != StoredNameOf(route, parts[1..][i - 1])
  {
    forall j | i - 1 < j < |parts[1..]| ensures StoredNameOf(route, parts[1..][j]) != StoredNameOf(route, parts[1..][i - 1]) {
      assert parts[1..][j] == parts[j + 1] && parts[1..][i - 1] == parts[i];
    }
  }

  /** Storing adds exactly the parts' generated names and leaves every other
      entry as it was. */
  lemma StoreAllEffect(m: map<string, Entry>, route: Route, parts: seq<Part>)
    ensures forall n :: n in StoreAll(m, route, parts) <==>
              n in m || exists i :: 0 <= i < |parts| && StoredNameOf(route, parts[i]) == n
    ensures forall n :: n in m && (forall i :: 0 <= i < |parts| ==> StoredNameOf(route, parts[i]) != n) ==>
              StoreAll(m, route, parts)[n] == m[n]
  {
    var after := StoreAll(m, route, parts);
    forall n | n in after && n !in m
      ensures exists i :: 0 <= i < |parts| && StoredNameOf(route, parts[i]) == n
    {
      StoreAllOnlyAdds(m, route, parts, n);
    }
    forall n | n in m ensures n in after {
      StoreAllKeepsKey(m, route, parts, n);
    }
    forall n, i | 0 <= i < |parts| && StoredNameOf(route, parts[i]) == n ensures n in after {
      StoreAllContains(m, route, parts, i);
    }
    forall n | n in m && (forall i :: 0 <= i < |parts| ==> StoredNameOf(route, parts[i]) != n)
      ensures after[n] == m[n]
    {
      StoreAllKeepsOthers(m, route, parts, n);
    }
  }

  /** An empty request is refused with 400 before anything is stored. */
  lemma EmptyRequestRejected(route: Route, uploadDate: nat)
    ensures UploadResponse(route, [], uploadDate) == Failed(400, NoFileError(route))
  {
  }

  /** A refusal is 400 exactly when no file arrived or the first failing part
      was too large; every other refusal is 500. */
  lemma RefusalStatus(route: Route, parts: seq<Part>, uploadDate: nat)
    requires UploadResponse(route, parts, uploadDate).Failed?
    ensures Status(UploadResponse(route, parts, uploadDate)) == 400
        <==> parts == [] || FirstError(route, parts) == Some(FileTooLarge)
    ensures Status(UploadResponse(route, parts, uploadDate)) == 500
        <==> FirstError(route, parts).Some? && FirstError(route, parts) != Some(FileTooLarge)
  {
    if parts == [] {
      assert FirstError(route, parts).None?;
    }
  }

  /** More parts than the route allows never get stored. */
  lemma TooManyPartsRefused(route: Route, parts: seq<Part>, uploadDate: nat)
    requires |parts| > MaxCount(route)
    ensures UploadResponse(route, parts, uploadDate).Failed?
  {
    AdmittedIff(route, parts);
  }

  /** Eleven well-formed files to the multiple route: the eleventh is an
      unexpected file and the request fails with 500. */
  lemma EleventhFileIs500(parts: seq<Part>, uploadDate: nat)
    requires |parts| == 11
    requires forall i :: 0 <= i < 10 ==> Admissible(Multiple, parts[i])
    ensures UploadResponse(Multiple, parts, uploadDate) == Failed(500, "Internal server error")
  {
    assert PartError(Multiple, 10, parts[10]) == Some(UnexpectedFile);
    assert forall i :: 0 <= i < 10 ==> PartError(Multiple, i, parts[i]).None?;
  }

  /** A single upload with an accepted extension is refused with 400 "File
      too large" exactly when it is larger than 100 MiB; at 100 MiB exactly it
      is stored. */
  lemma SizeLimitBoundary(p: Part, uploadDate: nat)
    requires p.fieldname == "file" && UploadAccepts(p.originalName)
    ensures p.size > 104857600 ==> UploadResponse(Single, [p], uploadDate) == Failed(400, "File too large")
    ensures p.size <= 104857600 ==> UploadResponse(Single, [p], uploadDate).Stored?
  {
    assert FirstError(Single, [p]) == PartError(Single, 0, p);
  }

  /** A single upload whose extension the filter refuses fails with 500. */
  lemma InvalidTypeIs500(p: Part, uploadDate: nat)
    requires p.fieldname == "file" && !UploadAccepts(p.originalName)
    ensures UploadResponse(Single, [p], uploadDate) == Failed(500, "Internal server error")
  {
    assert FirstError(Single, [p]) == PartError(Single, 0, p);
  }

  /** A successful upload had between one part and the route's count, and
      its records are built from the parts. */
  lemma StoredMeansAdmitted(route: Route, parts: seq<Part>, uploadDate: nat)
    requires UploadResponse(route, parts, uploadDate).Stored?
    ensures 0 < |parts| <= MaxCount(route)
    ensures forall i :: 0 <= i < |parts| ==> Admissible(route, parts[i])
    ensures UploadResponse(route, parts, uploadDate).files == Infos(route, parts, uploadDate)
  {
    AdmittedIff(route, parts);
  }

  /** Each part of a successful upload passed every check. */
  lemma StoredPartAdmitted(route: Route, parts: seq<Part>, uploadDate: nat, i: nat)
    requires UploadResponse(route, parts, uploadDate).Stored?
    requires i < |parts|
    ensures Admissible(route, parts[i])
  {
    StoredMeansAdmitted(route, parts, uploadDate);
  }

  /** The record of an admitted part names its generated file, keeps its
      original name, size and type, points at "/uploads/<name>", and carries the
      original extension. */
  lemma AdmittedRecord(route: Route, p: Part, uploadDate: nat)
    requires Admissible(route, p)
    ensures var f := Info(route, p, uploadDate);
      && f.filename == StoredNameOf(route, p)
      && f.originalName == p.originalName
      && f.size == p.size <= MaxFileSize
      && f.mimetype == p.mimetype
      && f.filePath == "/uploads/" + f.filename
      && f.viewerFile == f.filename
      && Extname(f.filename) == Extname(p.originalName)
  {
    AcceptedHasExtension(p.originalName);
    StoredNameKeepsExtension(FieldName(route), p.now, p.random, p.originalName);
  }

  /** The records of a successful upload: one per part, in order, each naming
      the part's generated file, keeping its original name, size and type,
      pointing at "/uploads/<name>", and with the original extension. */
  lemma StoredRecords(route: Route, parts: seq<Part>, uploadDate: nat)
    requires UploadResponse(route, parts, uploadDate).Stored?
    ensures var files := UploadResponse(route, parts, uploadDate).files;
      && |files| == |parts| > 0
      && forall i :: 0 <= i < |parts| ==>
           && files[i].filename == StoredNameOf(route, parts[i])
           && files[i].originalName == parts[i].originalName
           && files[i].size == parts[i].size <= MaxFileSize
           && files[i].mimetype == parts[i].mimetype
           && files[i].filePath == "/uploads/" + files[i].filename
           && files[i].viewerFile == files[i].filename
           && Extname(files[i].filename) == Extname(parts[i].originalName)
  {
    var files := UploadResponse(route, parts, uploadDate).files;
    assert files == Infos(route, parts, uploadDate) && parts != [] by {
      StoredMeansAdmitted(route, parts, uploadDate);
    }
    forall i | 0 <= i < |parts|
      ensures parts[i].size <= MaxFileSize
      ensures Extname(files[i].filename) == Extname(parts[i].originalName)
    {
      StoredPartAdmitted(route, parts, uploadDate, i);
      AdmittedRecord(route, parts[i], uploadDate);
    }
  }

  /** Write/list consistency: after a successful upload, every returned file
      is in the directory and the listing shows it. */
  lemma UploadedFilesAreListed(m: map<string, Entry>, route: Route, parts: seq<Part>, uploadDate: nat)
    requires UploadResponse(route, parts, uploadDate).Stored?
    ensures var files := UploadResponse(route, parts, uploadDate).files;
      forall i :: 0 <= i < |files| ==> files[i].filename in ListedNames(StoreAll(m, route, parts))
  {
    var files := UploadResponse(route, parts, uploadDate).files;
    assert files == Infos(route, parts, uploadDate) by {
      StoredMeansAdmitted(route, parts, uploadDate);
    }
    var after := StoreAll(m, route, parts);
    forall i | 0 <= i < |files| ensures files[i].filename in ListedNames(after) {
      StoredPartAdmitted(route, parts, uploadDate, i);
      AdmittedNameListable(route, parts[i]);
      StoreAllContains(m, route, parts, i);
    }
  }

  /** A name a directory listing can show: plain and with an accepted extension. */
  predicate Listable(n: string) {
    PlainName(n) && ListingKeeps(n)
  }

  /** A part that passes every check gets a plain, listable name. */
  lemma AdmittedNameListable(route: Route, p: Part)
    requires Admissible(route, p)
    ensures Listable(StoredNameOf(route, p))
  {
    StoredNameIsPlain(FieldName(route), p.now, p.random, p.originalName);
    AcceptedStoredNameIsListed(FieldName(route), p.now, p.random, p.originalName);
  }

  /** Uploads keep the directory's plain, listable entries plain and listable:
      a directory that only ever received uploads lists every entry. */
  lemma StoreAllKeepsListable(m: map<string, Entry>, route: Route, parts: seq<Part>)
    requires forall i :: 0 <= i < |parts| ==> Admissible(route, parts[i])
    requires forall n :: n in m ==> Listable(n)
    ensures forall n :: n in StoreAll(m, route, parts) ==> Listable(n)
  {
    forall n | n in StoreAll(m, route, parts) ensures Listable(n) {
      if n !in m {
        StoreAllOnlyAdds(m, route, parts, n);
        var i :| 0 <= i < |parts| && StoredNameOf(route, parts[i]) == n;
        AdmittedNameListable(route, parts[i]);
      }
    }
  }
}
