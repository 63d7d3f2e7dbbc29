/** The `File` model: a mongoose schema with five required fields and an
    `uploadDate` that defaults to the time the document is created. A
    document is built from the fields a caller supplies and is validated
    when it is saved. */
module FileModel {
  import opened Wrappers

  /** A stored document. Dates are milliseconds since the epoch. */
  datatype FileRecord = FileRecord(
    filename: string,
    originalname: string,
    mimetype: string,
    size: nat,
    path: string,
    uploadDate: int)

  /** The fields a caller passes to `new File({...})`; a missing field is
      `None`. */
  datatype FileFields = FileFields(
    filename: Option<string>,
    originalname: Option<string>,
    mimetype: Option<string>,
    size: Option<nat>,
    path: Option<string>,
    uploadDate: Option<int>)

  /** The paths the schema marks `required: true`. */
  datatype RequiredField = Filename | Originalname | Mimetype | Size | Path

  const AllRequired: set<RequiredField> := {Filename, Originalname, Mimetype, Size, Path}

  /** mongoose's `required` check for a String path refuses a missing value
      and the empty string; for a Number path, only a missing value. */
  predicate Supplied(f: FileFields, field: RequiredField)
  {
    match field
    case Filename => f.filename.Some? && f.filename.value != []
    case Originalname => f.originalname.Some? && f.originalname.value != []
    case Mimetype => f.mimetype.Some? && f.mimetype.value != []
    case Size => f.size.Some?
    case Path => f.path.Some? && f.path.value != []
  }

  /** The required paths a validation error would name. */
  function MissingFields(f: FileFields): (m: set<RequiredField>)
    ensures Filename in m <==> f.filename.None? || f.filename.value == []
    ensures Originalname in m <==> f.originalname.None? || f.originalname.value == []
    ensures Mimetype in m <==> f.mimetype.None? || f.mimetype.value == []
    ensures Size in m <==> f.size.None?
    ensures Path in m <==> f.path.None? || f.path.value == []
  {
    set field | field in AllRequired && !Supplied(f, field)
  }

  /** A document that passes the schema's validation. */
  predicate Valid(r: FileRecord)
  {
    r.filename != [] && r.originalname != [] && r.mimetype != [] && r.path != []
  }

  /** Every supplied field of `f` has the same value in `r`. */
  predicate Agrees(r: FileRecord, f: FileFields)
  {
    && (f.filename.Some? ==> r.filename == f.filename.value)
    && (f.originalname.Some? ==> r.originalname == f.originalname.value)
    && (f.mimetype.Some? ==> r.mimetype == f.mimetype.value)
    && (f.size.Some? ==> r.size == f.size.value)
    && (f.path.Some? ==> r.path == f.path.value)
    && (f.uploadDate.Some? ==> r.uploadDate == f.uploadDate.value)
  }

  /** Construction and validation of a document at time `now`: the document
      is valid exactly when every required field is supplied, it keeps every
      supplied value, and `uploadDate` is `now` when it was not supplied.
      Otherwise validation fails and names every missing required field. */
  function Create(f: FileFields, now: int): (r: Result<FileRecord, set<RequiredField>>)
    ensures r.Success? <==> forall field :: Supplied(f, field)
    ensures r.Success? ==> Valid(r.value) && Agrees(r.value, f)
    ensures r.Success? && f.uploadDate.None? ==> r.value.uploadDate == now
    ensures r.Failure? ==> r.error != {} && forall field :: field in r.error <==> !Supplied(f, field)
  {
    var missing := MissingFields(f);
    if missing != {} then Failure(missing)
    else
      assert forall field :: Supplied(f, field) by {
        forall field ensures Supplied(f, field) { assert field !in missing; }
      }
      assert Supplied(f, Filename) && Supplied(f, Originalname) && Supplied(f, Mimetype);
      assert Supplied(f, Size) && Supplied(f, Path);
      Success(FileRecord(
        f.filename.value, f.originalname.value, f.mimetype.value, f.size.value, f.path.value,
        if f.uploadDate.Some? then f.uploadDate.value else now))
  }

  /** Every field of a document, as the caller would supply it. */
  function FieldsOf(r: FileRecord): FileFields
  {
    FileFields(Some(r.filename), Some(r.originalname), Some(r.mimetype), Some(r.size),
               Some(r.path), Some(r.uploadDate))
  }

  /** `f` with the required field `field` left out. */
  function Without(f: FileFields, field: RequiredField): FileFields
  {
    match field
    case Filename => f.(filename := None)
    case Originalname => f.(originalname := None)
    case Mimetype => f.(mimetype := None)
    case Size => f.(size := None)
    case Path => f.(path := None)
  }

  /** Creating a document from all the fields of a valid document gives that
      document back, whatever the clock says; and the fields of a created
      document are the supplied ones. */
  lemma CreateRoundTrip(r: FileRecord, now: int)
    requires Valid(r)
    ensures Create(FieldsOf(r), now) == Success(r)
  {
    assert forall field :: Supplied(FieldsOf(r), field);
  }

  /** `uploadDate` is the only optional field: leaving out any required field
      of an otherwise complete set makes validation fail naming that field,
      while leaving out only `uploadDate` still validates, with the creation
      time as the date. */
  lemma OnlyUploadDateOptional(f: FileFields, field: RequiredField, now: int)
    requires forall g :: Supplied(f, g)
    ensures Create(Without(f, field), now).Failure?
    ensures field in Create(Without(f, field), now).error
    ensures Create(f.(uploadDate := None), now).Success?
    ensures Create(f.(uploadDate := None), now).value.uploadDate == now
  {
    assert !Supplied(Without(f, field), field);
    assert forall g :: Supplied(f.(uploadDate := None), g) by {
      forall g ensures Supplied(f.(uploadDate := None), g) { assert Supplied(f, g); }
    }
  }

  /** A supplied `uploadDate` is kept: the default applies only to a missing
      date. */
  lemma SuppliedDateKept(f: FileFields, date: int, now: int)
    requires forall g :: Supplied(f, g)
    ensures Create(f.(uploadDate := Some(date)), now).Success?
    ensures Create(f.(uploadDate := Some(date)), now).value.uploadDate == date
  {
    assert forall g :: Supplied(f.(uploadDate := Some(date)), g) by {
      forall g ensures Supplied(f.(uploadDate := Some(date)), g) { assert Supplied(f, g); }
    }
  }
}
