# File upload service: catalog and uploads directory

This project models the core of a small Express service that stores uploaded
files. A client posts one file. multer checks the file's declared MIME type
against an allow-list and its size against a 10 MiB limit. It writes the bytes
to the uploads directory under a generated name, `<millis>-<random>` followed
by the original name's extension. The route handler then saves a `File`
document in MongoDB: storage name, original name, MIME type, size, public path
`/uploads/<name>` and an upload date that defaults to the creation time.
`GET /` lists the documents newest first. `DELETE /:id` removes a document and
then, best effort, its file.

The model keeps two stores as the fields of a class `FilesRoute.FileService`:

- `catalog`, a map from document id to `FileRecord`;
- `blobs`, a map from storage name to byte size.

The handlers are methods on that class. Everything the environment decides is
a parameter: clock readings, the `Math.random()` draw, the new ObjectId, and
whether the disk write, the database save, the queries and the unlink succeed.

Files:

- `wrappers.dfy`: `Option` and `Result`.
- `decimal.dfy`: how JavaScript writes an integral number as a string, and the
  digit string read back as a number.
- `path_ext.dfy`: Node's POSIX `path.extname`.
- `naming.dfy`: the storage-name generator and its inverse.
- `gate.dfy`: `fileFilter` and the size limit.
- `file_model.dfy`: the `File` schema, with required fields, the `uploadDate`
  default and validation.
- `files_route.dfy`: the three handlers, the catalog/directory consistency
  invariant, and the delete handler as written.

The model follows the code in these places, where a cleaner design would behave differently:

- A refusal by the filter or the size limit is answered by Express's default
  error handler, so it is a 500, not a 400.
- When the save fails, the file multer wrote stays in the uploads directory.
  Nothing compensates for it, so an orphan blob remains.
  `Consistent` allows orphans.
- multer skips a file part whose client file name is empty, so such a
  request reaches the handler without `req.file` and is answered 400 with
  nothing written. In the model this request is `Upload(None, ...)`. The
  handler's own code would still reach mongoose's `required` check, which
  refuses an empty string, if it were handed an empty name: the model keeps
  that branch (`Invalid`), which multer never lets a request reach.
- The delete handler looks the document up by `req.id`, not by the route's id
  (see Findings). `FileService.Delete` is the corrected handler: it uses the
  route's id for both the lookup and the deletion.

## Model

| member | source | states |
|---|---|---|
| `Decimal.DecimalString` | Hizli/server/routes/files.js:15 | the numeral of the clock reading or of the random number is non-empty, all digits, and has no leading zero |
| `Decimal.DecimalRoundTrip` | Hizli/server/routes/files.js:15 | reading the numeral back gives the number, so no two numbers share a numeral |
| `Naming.RoundRandom` | Hizli/server/routes/files.js:15 | `Math.round(Math.random() * 1E9)` lies in 0..1000000000 and is the integer nearest the scaled draw, rounding halves up |
| `PathExt.ExtName` | Hizli/server/routes/files.js:16 | the extension is empty or starts with `.` and holds no other `.`, and it contains no `/` |
| `PathExt.ExtIsSuffix` | Hizli/server/routes/files.js:16 | for a plain file name, the extension is a suffix of the name |
| `PathExt.NoDotNoExt` | Hizli/server/routes/files.js:16 | a name without `.` has no extension |
| `PathExt.ExtOfDotted` | Hizli/server/routes/files.js:16 | the extension of `stem.e` is `.e`, leading dot included: only the last dot counts |
| `PathExt.HiddenFileHasNoExt` | Hizli/server/routes/files.js:16 | a hidden file such as `.bashrc` has no extension |
| `PathExt.ExtAfterPlainStem` | Hizli/server/routes/files.js:16-17 | appending an extension to a stem without dots or slashes gives a name whose extension is exactly that extension |
| `PathExt.PhotoExtension` | Hizli/server/routes/files.js:16 | the extension of `photo.png` is `.png` |
| `Naming.StorageName` | Hizli/server/routes/files.js:14-18 | the generated name is never empty; what it is made of is stated by `Naming.StorageNameRoundTrip`, `Naming.StorageNameInjective` and `Naming.StorageNameKeepsExtension`, and the range of the random part by `Naming.RoundRandom` |
| `Naming.ParseStorageName` | Hizli/server/routes/files.js:14-18 | a parsed storage name has an extension that is empty or starts with `.` |
| `Naming.ParseJoined` | Hizli/server/routes/files.js:15-17 | the name built from two numbers and an extension parses back into exactly those parts |
| `Naming.StorageNameRoundTrip` | Hizli/server/routes/files.js:14-18 | every generated name parses back into the clock reading, the rounded random number and the original name's extension |
| `Naming.StorageNameInjective` | Hizli/server/routes/files.js:15-17 | two generated names are equal only if they come from the same millisecond and the same rounded draw |
| `Naming.StorageNameKeepsExtension` | Hizli/server/routes/files.js:16-17 | the generated name's extension equals the original name's; no extension when the original has none |
| `Naming.ExtOfJoined` | Hizli/server/routes/files.js:15-17 | the extension of `<digits>-<digits><ext>` is `<ext>` |
| `Gate.FileFilter` | Hizli/server/routes/files.js:22-29 | the filter accepts a declared type iff it is exactly `image/jpeg`, `image/png` or `application/pdf` |
| `Gate.Admit` | Hizli/server/routes/files.js:22-34 | a file is admitted iff its type is exactly `image/jpeg`, `image/png` or `application/pdf` and its size is at most 10485760 bytes; a wrong type is refused as unsupported whatever the size, an allowed type over the limit as too large |
| `Gate.FilterIsExact` | Hizli/server/routes/files.js:23-24 | `text/plain`, `IMAGE/PNG` and `image/jpg` are refused |
| `FileModel.MissingFields` | Hizli/server/models/file.js:4-24 | `filename`, `originalname`, `mimetype` and `path` are reported missing iff absent or the empty string; `size`, a Number, iff absent |
| `FileModel.Create` | Hizli/server/models/file.js:4-29 | a document validates iff all five required fields are supplied; it then keeps every supplied value, and `uploadDate` is the creation time when absent; otherwise the error names exactly the missing fields |
| `FileModel.CreateRoundTrip` | Hizli/server/models/file.js:4-29 | creating a document from all the fields of a valid document gives it back |
| `FileModel.OnlyUploadDateOptional` | Hizli/server/models/file.js:4-29 | leaving out any required field fails validation and names that field; leaving out only `uploadDate` validates with the creation time |
| `FileModel.SuppliedDateKept` | Hizli/server/models/file.js:25-28 | a supplied `uploadDate` is kept; the default applies only when it is absent |
| `FilesRoute.UploadPath` | Hizli/server/routes/files.js:49 | the public path is `/uploads/` followed by exactly the storage name, so the name can be read back from it |
| `FilesRoute.FieldsFor` | Hizli/server/routes/files.js:44-50 | the handler supplies every required field and no `uploadDate`; for an admitted upload with a storage name, only `originalname` can fail the `required` check, and it fails iff it is empty |
| `FilesRoute.RecordFor` | Hizli/server/routes/files.js:44-50 | the built document keeps every field the handler supplies and carries the creation time as its date; for an admitted upload with a non-empty client name it is well formed |
| `FilesRoute.CreateForUpload` | Hizli/server/routes/files.js:44-52 | for an admitted upload, the document validates iff the client's file name is non-empty, and it is then the well-formed record with path `/uploads/<name>` |
| `FilesRoute.UploadKeepsConsistent` | Hizli/server/routes/files.js:38-53 | writing a blob under a name no record uses, and possibly adding its record, keeps the catalog consistent with the directory |
| `FilesRoute.NewNameUnused` | Hizli/server/routes/files.js:14-18 | if every stored name was generated before the current millisecond, the new name is used by no record |
| `FilesRoute.InsertNewestFirst` | Hizli/server/routes/files.js:63 | one step of the sort: the result holds the old entries plus the new one, no more and no fewer (as a multiset) |
| `FilesRoute.InsertExtendsListing` | Hizli/server/routes/files.js:63 | inserting an unlisted entry into a newest-first partial listing keeps it newest-first and lists one more entry, each entry once |
| `FilesRoute.FileService.Receive` | Hizli/server/routes/files.js:9-35 | multer refuses by filter or size with no write; a failed write stores nothing; otherwise the blob is stored under the generated name with the file's size |
| `FilesRoute.FileService.Save` | Hizli/server/routes/files.js:44-57 | the document is inserted under the new id, giving 201, iff the client name is non-empty, the save succeeds and the id is new; otherwise 500 and the catalog is unchanged; the 500 names the reason: validation naming only `originalname` when the client name is empty (a case multer never hands over), else a refused save, else a taken id |
| `FilesRoute.FileService.Upload` | Hizli/server/routes/files.js:38-58 | no file gives 400 with no change; a request with a file is never answered 400: it gets 201 or 500; a refusal by the gate gives 500 with no change; so do a failed disk write, a validation failure on an empty client name (naming `originalname`; unreachable through multer, which answers such a request as having no file), a refused save and a taken id, each with its reason; a 201 adds exactly one record whose filename, originalname, mimetype and size come from the upload, whose path is `/uploads/<filename>`, and leaves all other records alone; every other failure leaves the catalog unchanged; consistency is kept |
| `FilesRoute.FileService.List` | Hizli/server/routes/files.js:61-69 | lists exactly the catalog's records, each once with its contents, upload dates never increasing; a failed query gives 500 |
| `FilesRoute.FileService.Delete` | Hizli/server/routes/files.js:72-96 | an absent id gives 404 with no change; a present id loses its record and then, unless the unlink fails, its blob, with 200 either way; a failed query gives 500 with no change; consistency is kept |
| `FilesRoute.DeleteAsWritten` | Hizli/server/routes/files.js:72-96 | the handler as written answers 404 with no change iff the lookup by `req.id` finds nothing; otherwise it removes the record `req.params.id` and unlinks the blob of the record found by `req.id`, which differ when the two ids differ |
| `FilesRoute.AsWrittenDeleteAlwaysNotFound` | Hizli/server/routes/files.js:74-78 | with `req.id` unset, every delete answers 404 and changes nothing |
| `FilesRoute.AsWrittenDeleteKeepsStoredFile` | Hizli/server/routes/files.js:74-81 | a stored photo whose id is in the route is neither removed nor unlinked by the handler as written |

## Findings

| source | as written | input that shows it | evidently intended | confidence | as-written member | corrected member |
|---|---|---|---|---|---|---|
| Hizli/server/routes/files.js:74 | the document is looked up by `req.id`, which Express never sets, so `findById(undefined)` finds nothing | `DELETE /7` while document 7 is stored: the answer is 404 and document 7 and its file stay | look up by `req.params.id`, the id also used for the deletion at line 81 | high (not executed) | `FilesRoute.DeleteAsWritten`, `FilesRoute.AsWrittenDeleteKeepsStoredFile` | `FilesRoute.FileService.Delete` |

## Left out

- Express routing, JSON bodies and the response messages: only status codes and an outcome tag are modelled.
- `console.error` logging.
- multer's multipart parsing and streaming. The size limit is modelled as a decision on the final byte count. Removing a partly written file is modelled as no change to the directory.
- A file sent under a field name other than `file` is refused by multer with a 500. It is not modelled.
- The contents of a file are not modelled. Only its size is.
- MongoDB, mongoose and the async calls. The catalog is a map. The ObjectId of a new document is a parameter. Database failures are flags.
- An id in the route that is not a well-formed ObjectId makes mongoose throw a cast error, which gives a 500. Ids here are natural numbers, so this case does not arise.
- `Date.now()` and `Math.random()` are parameters. The draw is an exact real in [0, 1), so IEEE floating-point rounding of the product is not modelled.
- `path.join(__dirname, ...)`: the directory is keyed by storage name.
- The Windows variant of `path.extname` (backslashes, drive letters) is not modelled. The POSIX one is.
- `fs.unlink` completes after the response is sent. A sequential model cannot show this, and it does not change the response.
- multer drops a file part whose client file name is empty (busboy first turns `.` and `..` into an empty name). Such a request gets the handler's 400 for a missing file and writes nothing. The `Invalid` outcome of `FilesRoute.FileService.Save` and `FilesRoute.FileService.Upload` therefore cannot be reached through multer. The model does not encode multer's skip; it models the handler's code, which would fail validation on an empty name.
- multer's handling of the declared MIME type before `fileFilter` (any normalisation of case) is not modelled: `Gate.FileFilter` receives the string as given.
- Concurrent requests are not modelled: each handler runs as one step.
- The order of documents with equal upload dates is not modelled: the listing only promises non-increasing dates.
- FilesRoute.FileService.Upload: it promises consistency only when the generated name is not already used by a record. The source relies on the name being unique and never checks it. `FilesRoute.NewNameUnused` gives a sufficient condition: a clock that has moved on.
