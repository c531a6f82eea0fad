# Upload registry of the Online3DViewer API server

This project models the file-upload registry of the Online3DViewer API server
(`api-server.js`) and proves properties of it. The registry is the `uploads`
directory. Clients add 3D-model files to it through `POST /api/upload` and
`POST /api/upload/multiple`, see them through `GET /api/files` and remove
them through `DELETE /api/files/:filename`. The model covers:

- **Format check** (`Formats`, `PathExt`). A file is admitted when the
  lower-cased extension of its original name is one of 19 accepted 3D
  formats. The extension follows Node's POSIX `path.extname`: trailing
  separators are dropped, the last segment is taken, and the extension runs
  from its last `.` to the end. It is empty when there is no `.`, when the
  only `.` is the first character, and for "..". The server writes the list
  out twice, once for uploads and once for the listing. The model proves the
  two copies agree.
- **Stored names** (`Naming`, `Decimal`). Each stored file is named
  `fieldname-now-random` followed by the original extension, with its case
  kept. The clock reading and the random draw are parameters. The numbers are
  written in decimal as JavaScript prints a non-negative integer.
- **Admission and responses** (`Ingestion`). The upload middleware checks
  each part in stream order:
  - the form field and the route's file count (1 for `file`, 10 for `files`);
  - then the type filter;
  - then the 100 MiB size limit.

  The first failing part aborts the request. The error middleware maps a
  size-limit failure to 400 and every other failure to 500. An empty request
  is answered with 400. A successful request returns one record per file, in
  order.
- **The directory** (`Listing`, `Registry`). The directory is a class
  `Registry.Uploads` with two fields: whether the directory exists, and a map
  from entry name to size and modification time. It has four methods:
  - `Upload` writes every part of an admitted request;
  - `List` runs the listing's filter, describe and newest-first sort;
  - `ReadDir` returns the entries in an order the file system chooses;
  - `Remove` unlinks a file.

The pieces are proved to agree. Every file an upload stores is shown by the
listing. Uploads only ever add plain, listable names. A delete removes exactly
one entry, and a second delete of the same name answers 404.

## Model

| member | source | states |
|---|---|---|
| `Decimal.Dec` | api-server.js:31 | the decimal text of a number is non-empty and all digits; it has one digit exactly below 10 and starts with '0' exactly for 0 |
| `Decimal.DigitChar` | api-server.js:31 | the digit character for a value below 10 is a digit whose value is that number |
| `Decimal.Value` | api-server.js:31 | the numeric value of a digit string, the inverse that `ValueOfDec` proves `Dec` against |
| `Decimal.ValueOfDec` | api-server.js:31 | reading the decimal text back gives the number (round trip) |
| `Decimal.DecInjective` | api-server.js:31 | two numbers have the same decimal text exactly when they are equal |
| `PathExt.TrimTrailingSlashes` | api-server.js:48 | the trailing-separator step of `path.extname`; never longer than the path; `TrimShape` states what it removes |
| `PathExt.TrimShape` | api-server.js:48 | trimming trailing separators keeps a prefix, removes only '/', and leaves no '/' at the end |
| `PathExt.LastIndex` | api-server.js:48 | the last index of a character is -1 or a valid position |
| `PathExt.LastIndexShape` | api-server.js:48 | the last index holds the character, and no later position does |
| `PathExt.LastSegment` | api-server.js:48 | the base name `path.extname` searches; never longer than the path; `LastSegmentShape` and `LastSegmentOfPlainName` state its form |
| `PathExt.LastSegmentShape` | api-server.js:48 | the base name has no '/' and is the end of the trimmed path |
| `PathExt.LastSegmentOfPlainName` | api-server.js:48 | a name without '/' is its own base name |
| `PathExt.SliceLacks` | api-server.js:48 | any slice of a text without a character is also without it |
| `PathExt.Extname` | api-server.js:48 | `path.extname`; never longer than the path; `ExtnameShape`, `ExtnameOfPlainName`, `ExtnameWithoutDot` and `ExtnameOfDotFile` state its value |
| `PathExt.ExtnameShape` | api-server.js:48 | an extension is empty or a '.' followed by text with no '.' or '/'; it is the end of the path |
| `PathExt.ExtnameOfPlainName` | api-server.js:48 | "stem" + ".ext", with a non-empty stem and no '/', has extension ".ext" |
| `PathExt.ExtnameWithoutDot` | api-server.js:48 | a name with no '.' has an empty extension |
| `PathExt.ExtnameOfDotFile` | api-server.js:48 | a name whose only '.' is its first character (".obj") has an empty extension |
| `PathExt.LowerChar` | api-server.js:48 | lower-casing a character turns each upper-case ASCII letter into the matching lower-case letter and leaves every other character alone |
| `PathExt.ToLower` | api-server.js:48 | lower-casing keeps the length |
| `PathExt.ToLowerShape` | api-server.js:48 | lower-casing lower-cases each character on its own, leaves no upper-case letter, and changes nothing in a text without upper-case letters |
| `Formats.UploadAccepts` | api-server.js:48-53 | the upload filter's decision; `AcceptsPlainName`, `AcceptedHasExtension` and the accept/reject lemmas below state it |
| `Formats.ListingKeeps` | api-server.js:147-152 | the listing filter's decision; `FiltersAgree` proves it equal to the upload filter's |
| `Formats.AllowListsAgree` | api-server.js:149-151 | the listing's allow-list equals the upload filter's list, and both hold 19 extensions |
| `Formats.AllowListShape` | api-server.js:43-47 | every listed extension is a '.' followed by at least three characters, none of them '.', '/' or an upper-case letter |
| `Formats.FiltersAgree` | api-server.js:147-152 | the listing filter keeps a name exactly when the upload filter accepts it |
| `Formats.AcceptedHasExtension` | api-server.js:48-53 | an accepted name has an extension of at least four characters, and its lower-cased form is well-formed |
| `Formats.AcceptsPlainName` | api-server.js:48-53 | for "stem" + ".ext", the filter accepts exactly when ".ext" lower-cased is listed |
| `Formats.RejectsNameWithoutDot` | api-server.js:48-53 | a name with no '.' (such as "model") is rejected |
| `Formats.RejectsDotFile` | api-server.js:48-53 | a name whose only '.' comes first (".obj") is rejected |
| `Formats.AcceptsUpperCaseExtension` | api-server.js:48-53 | "<stem>.STL" (such as "MODEL.STL") is accepted, because case is ignored |
| `Formats.LowerStl` | api-server.js:48 | ".STL" lower-cases to ".stl" |
| `Formats.RejectsCompressedModel` | api-server.js:48-53 | "<stem>.gz" (such as "a.tar.gz" or "a.stl.gz") is rejected, because only the last '.' counts |
| `Naming.StoredName` | api-server.js:32 | the generated name starts with the field name and '-', and is at least four characters longer; `StoredNameIsPlain`, `StoredNameKeepsExtension` and `StoredNameInjective` state the rest |
| `Naming.DigitsLack` | api-server.js:31 | a decimal text contains no character that is not a digit |
| `Naming.StemShape` | api-server.js:31-32 | "fieldname-now-random" is at least four characters long and has no '/' |
| `Naming.StoredNameIsPlain` | api-server.js:29-33 | a generated name is non-empty, has no '/', and is neither "." nor ".." |
| `Naming.StoredNameKeepsExtension` | api-server.js:32 | a generated name has the same extension as the original name, with the same case |
| `Naming.AcceptedStoredNameIsListed` | api-server.js:43-49 | the stored name of a file the upload filter accepts is kept by the listing filter |
| `Naming.FirstIndex` | api-server.js:31 | the first position of a character: it holds the character and no earlier position does |
| `Naming.FirstIndexAfter` | api-server.js:31 | in a text free of c followed by an ending that is empty or starts with c, the first c is right after the free text |
| `Naming.SplitAtFirst` | api-server.js:31-32 | such a text splits into its two parts in only one way |
| `Naming.StoredNameTail` | api-server.js:31-32 | what follows "fieldname-" in a stored name is "now-random" plus the extension |
| `Naming.StoredNameInjective` | api-server.js:29-33 | for one field name, two generated names are equal exactly when the clock readings, the random draws and the extensions are all equal |
| `Listing.Describe` | api-server.js:153-162 | the record for one entry; `DescribeAll` and `Registry.Uploads.List` state its fields |
| `Listing.Filter` | api-server.js:147-152 | filtering keeps exactly the elements that pass the test, and never lengthens the sequence |
| `Listing.FilterKeepsDistinct` | api-server.js:147-152 | filtering a sequence without repeats gives a sequence without repeats |
| `Listing.KeepListable` | api-server.js:146-152 | the filter step keeps exactly the entries whose extension is listed, without repeats |
| `Listing.DescribeAll` | api-server.js:153-163 | the map step gives one record per name, in order, each with the entry's size and time and the path "/uploads/" + name |
| `Listing.NewestFirstCons` | api-server.js:164 | putting a record at least as new as all others in front keeps the order newest first |
| `Listing.Insert` | api-server.js:164 | inserting into a newest-first list keeps it newest first and adds exactly that record |
| `Listing.InsertKeepsNamesDistinct` | api-server.js:164 | inserting a record under a new name keeps the names distinct |
| `Listing.SortNewestFirst` | api-server.js:164 | the sort returns a permutation of its input, ordered by time, newest first |
| `Listing.SortKeepsNamesDistinct` | api-server.js:164 | sorting keeps the names distinct |
| `Ingestion.PartError` | api-server.js:36-55 | a part passes exactly when it is within the route's count and has the route's field, an accepted extension and at most 100 MiB; the part is refused as too large exactly when it passes the field, count and type checks and exceeds 100 MiB |
| `Ingestion.FirstErrorFrom` | api-server.js:36-55 | there is no error exactly when every part passes, and a reported error is the error of the first failing part |
| `Ingestion.AdmittedIff` | api-server.js:36-55 | a request passes the middleware exactly when it has at most the route's count of parts and each part has the route's field, an accepted extension and at most 100 MiB |
| `Ingestion.ErrorResponse` | api-server.js:254-268 | a size-limit error gives 400 and every other error gives 500 |
| `Ingestion.Info` | api-server.js:78-86 | the record for one stored part; `AdmittedRecord` states its fields |
| `Ingestion.UploadResponse` | api-server.js:69-136 | what the client receives; `EmptyRequestRejected`, `RefusalStatus`, `StoredMeansAdmitted` and `StoredRecords` state it |
| `Ingestion.Infos` | api-server.js:113-121 | one record per stored file, in order, each built from its own part |
| `Ingestion.StoreAll` | api-server.js:22-33 | the directory after the parts are written in order; `StoreAllEffect` states which names it holds and `StoreAllStores` what each generated name holds |
| `Ingestion.StoreAllKeepsKey` | api-server.js:22-33 | storing never drops an entry that was already there |
| `Ingestion.StoreAllContains` | api-server.js:22-33 | after storing, every part's generated name is in the directory |
| `Ingestion.StoreAllOnlyAdds` | api-server.js:22-33 | a new entry after storing is the generated name of one of the parts |
| `Ingestion.StoreAllKeepsOthers` | api-server.js:22-33 | an entry whose name no part generates keeps its size and time |
| `Ingestion.StoreAllStoresFirst` | api-server.js:29-33 | the first part's size and time stay under its generated name when no later part generates the same name |
| `Ingestion.StoreAllStores` | api-server.js:29-33 | after storing, a part's generated name holds that part's size and time unless a later part of the request generated the same name: the last write wins |
| `Ingestion.StoreAllEffect` | api-server.js:22-33 | after storing, the directory holds exactly the old entries plus the parts' generated names, and other entries are unchanged |
| `Ingestion.EmptyRequestRejected` | api-server.js:71-76 | an empty request is answered with 400 "No file uploaded" or "No files uploaded" |
| `Ingestion.RefusalStatus` | api-server.js:254-268 | a refusal is 400 exactly when no file arrived or the first failing part was too large, and 500 in every other case |
| `Ingestion.TooManyPartsRefused` | api-server.js:104 | more parts than the route allows are never stored |
| `Ingestion.EleventhFileIs500` | api-server.js:104 | an eleventh file on the multiple route makes the request fail with 500 |
| `Ingestion.SizeLimitBoundary` | api-server.js:39 | a single upload with an accepted extension is refused with 400 "File too large" exactly when it is larger than 104857600 bytes |
| `Ingestion.InvalidTypeIs500` | api-server.js:48-53 | a single upload with an extension that is not accepted fails with 500 |
| `Ingestion.StoredMeansAdmitted` | api-server.js:36-55 | a successful upload had between one part and the route's count, every part passed every check, and the records are built from the parts |
| `Ingestion.StoredPartAdmitted` | api-server.js:36-55 | each part of a successful upload passed every check |
| `Ingestion.AdmittedRecord` | api-server.js:113-121 | the record of an admitted part has its generated name, original name, size and type, the path "/uploads/" + name, and the original extension |
| `Ingestion.StoredRecords` | api-server.js:78-86 | each record of a successful upload has the part's generated name, original name, size and type, the path "/uploads/" + name, and the original extension |
| `Ingestion.UploadedFilesAreListed` | api-server.js:147-152 | after a successful upload, the listing's filter (lines 147-152) keeps every returned file, since the upload filter (lines 43-49) accepted the same extension |
| `Ingestion.AdmittedNameListable` | api-server.js:29-33 | a part that passes every check gets a plain name that the listing keeps |
| `Ingestion.StoreAllKeepsListable` | api-server.js:29-33 | if the directory holds only plain, listable names, it still does after an admitted upload |
| `Registry.DeleteStatus` | api-server.js:177-202 | delete answers 200 exactly for a stored plain name and 404 for a plain name that is not stored; ".." answers 500, and "." answers 500 exactly when the directory exists |
| `Registry.Deleted` | api-server.js:189 | the entries after a delete; `DeleteEffect`, `DeleteTwiceNotFound` and `DeletedNotListed` state them |
| `Registry.DeleteEffect` | api-server.js:189 | a delete removes exactly the named entry, leaves the others unchanged, and changes nothing for a missing name |
| `Registry.DeleteTwiceNotFound` | api-server.js:182-188 | deleting the same name again answers 404 and changes nothing |
| `Registry.DeletedNotListed` | api-server.js:189 | after a delete, the listing shows the same names as before minus the deleted one |
| `Registry.ReachesStorage` | api-server.js:22-27 | whether a request creates the directory; `Registry.Uploads.Upload` states its effect |
| `Registry.StoredNameOfIsPlain` | api-server.js:29-33 | every generated name is a plain directory entry |
| `Registry.StoreAllKeepsPlain` | api-server.js:29-33 | uploads only ever add plain names |
| `Registry.Uploads.constructor` | api-server.js:22-27 | the directory starts in the given state, and a missing directory holds nothing |
| `Registry.Uploads.ReadDir` | api-server.js:146 | the directory read returns every entry exactly once |
| `Registry.Uploads.List` | api-server.js:139-174 | the listing is empty when the directory is missing; otherwise it holds exactly one record per entry with an accepted extension, built from that entry, with distinct names, newest first; it does not change the directory |
| `Registry.Uploads.Upload` | api-server.js:69-136 | the response is the one the admission checks and the handler determine; a stored request writes every part, and a refused one changes no file; the directory exists once a part reached storage |
| `Registry.Uploads.Remove` | api-server.js:177-202 | the status and the new directory are those of `DeleteStatus` and `Deleted`; whether the directory exists does not change |

## Left out

- Express setup is not modelled: CORS, JSON and static middleware, the `/uploads` static server, the health endpoint, the `/` route and `app.listen`. They are routing and I/O without logic of their own.
- The `/viewer` HTML page is not modelled. It is page generation.
- The `viewerUrl` fields are modelled as the bare file name (`viewerFile`). `encodeURIComponent` and the "/viewer?file=" prefix are not modelled.
- `toLowerCase` is modelled on ASCII letters only. For the accept decision this is exact: the only non-ASCII character whose lower-case form is an ASCII letter is the Kelvin sign, which becomes 'k', and no accepted extension contains 'k'. Stored names keep their original case, so they are not affected.
- Windows path separators are not modelled. The extension follows the POSIX `path` module.
- The clock and `Math.round(Math.random() * 1E9)` are not modelled. Both are parameters of each part, and the bound on the random draw is not stated.
- Registry.Uploads.Upload uses one `uploadDate` for every record of a request. In the server, each record reads the clock separately. The date is an integer in milliseconds, not its ISO text.
- The single route returns one record and the multiple route an array. The model returns a sequence for both; the single route's sequence has exactly one element.
- Multer streaming is not modelled. A refused request is modelled as storing nothing. In the server, multer removes any files it had already written; that cleanup and any orphaned partial file are not modelled. Creating the directory when a part reaches storage is modelled.
- File-system failures are not modelled: a failed write, a failed `readdirSync` or `statSync`, and the 500 answers of the handlers' `catch` blocks for them.
- The status and error texts are modelled; the `message` texts and logging are not.
- Delete is modelled only for names without '/'. A name containing an encoded '/' reaches paths outside the upload directory through `path.join`, and such paths are not part of this model. For "." and "..", `path.join` resolves to a directory, which cannot be unlinked; the model answers 500 when that directory exists and 404 otherwise.
- The directory is modelled as holding only plain file entries; subdirectories are not modelled. Its initial contents, including files the server did not write, are a parameter of the constructor. Changes made outside the server while it runs are not modelled.
- Concurrent requests are not modelled.
- Registry.Uploads.List does not fix the order of two records with the same time. The sort is stable, but it starts from the file system's readdir order, which is unspecified.
- A file part whose client file name reduces to an empty base name, as a form submitted with no file chosen sends, is skipped by the upload middleware before the field, count and type checks. The model has no such part: `Part` stands for a file part that reaches those checks, so a request whose only file part is skipped is the empty request, answered 400 ("No file uploaded" on the single route, "No files uploaded" on the multiple route).
- A batch upload is all-or-nothing: one failing part fails the whole request through the error middleware, and nothing is stored. Valid parts next to a failing part are not kept either.
