/** The two checks multer applies to an upload before the route handler sees
    it: the `fileFilter` allow-list on the declared MIME type, and the
    `limits.fileSize` bound on the number of bytes received. */
module Gate {

  /** The MIME types `fileFilter` lets through, compared exactly. */
  const AllowedFileTypes: seq<string> := ["image/jpeg", "image/png", "application/pdf"]

  /** `limits.fileSize`: 10 MiB. */
  const MaxFileSize: nat := 10 * 1024 * 1024

  datatype Rejection = UnsupportedType | TooLarge

  datatype Verdict = Accept | Reject(reason: Rejection)

  /** The `fileFilter` decision on the declared MIME type. */
  predicate FileFilter(mimetype: string): (ok: bool)
    ensures ok <==> mimetype == "image/jpeg" || mimetype == "image/png" || mimetype == "application/pdf"
  {
    mimetype in AllowedFileTypes
  }

  /** What multer does with a file part: the filter is consulted first, so
      an unsupported type is refused before any byte is written; a file of
      an allowed type is then refused once it grows past the size limit
      (multer removes the partly written file). */
  function Admit(mimetype: string, size: nat): (v: Verdict)
    ensures v.Accept? <==>
      (mimetype == "image/jpeg" || mimetype == "image/png" || mimetype == "application/pdf")
      && size <= 10485760
    ensures v == Reject(UnsupportedType) <==>
      !(mimetype == "image/jpeg" || mimetype == "image/png" || mimetype == "application/pdf")
    ensures v == Reject(TooLarge) <==>
      (mimetype == "image/jpeg" || mimetype == "image/png" || mimetype == "application/pdf")
      && size > 10485760
  {
    if !FileFilter(mimetype) then Reject(UnsupportedType)
    else if size > MaxFileSize then Reject(TooLarge)
    else Accept
  }

  /** The filter compares the type string it receives exactly: a type
      outside the list, such as `text/plain`, or a listed type that reaches
      the filter spelt in another case, is refused whatever the size. Any
      normalisation of the client's declared type happens before the filter
      and is not part of this model. */
  lemma FilterIsExact(size: nat)
    ensures Admit("text/plain", size) == Reject(UnsupportedType)
    ensures Admit("IMAGE/PNG", size) == Reject(UnsupportedType)
    ensures Admit("image/jpg", size) == Reject(UnsupportedType)
  {
  }
}
