/** The files route: `POST /upload`, `GET /` and `DELETE /:id` over two
    stores, the catalog of `File` documents (keyed by their ObjectId) and the
    uploads directory (storage names mapped to byte sizes). Clock readings,
    the random draw, the new document's id and the success or failure of
    each disk and database operation are parameters. */
module FilesRoute {
  import opened Wrappers
  import opened Decimal
  import opened Naming
  import opened Gate
  import opened FileModel

  /** A document's ObjectId. */
  type Id = nat

  /** The file part multer hands to the handler as `req.file`: the client's
      file name, its declared MIME type and the number of bytes in it.
      multer skips a part whose file name is empty, so through multer
      `originalname` is never empty; the model does not assume this. */
  datatype IncomingFile = IncomingFile(originalname: string, mimetype: string, size: nat)

  /** What the environment decides during one upload: the clock when the
      storage name is made, the `Math.random()` draw, the clock when the
      document is created, the ObjectId the new document gets, whether the
      disk write succeeds and whether the database accepts the save. */
  datatype UploadEnv = UploadEnv(
    nameClock: nat,
    random: real,
    createClock: int,
    newId: Id,
    writeOk: bool,
    saveOk: bool)

  /** Why a request ended in a 500 response. */
  datatype Failure =
    | Rejected(reason: Rejection)              // multer's fileFilter or size limit
    | WriteFailed                              // the disk write failed
    | Invalid(missing: set<RequiredField>)     // schema validation on save
    | SaveFailed                               // the database refused the save
    | DuplicateId                              // the new id is already taken
    | Unavailable                              // a query failed

  /** A document together with its id, as the API returns it. */
  datatype StoredFile = StoredFile(id: Id, file: FileRecord)

  datatype Response =
    | Created(stored: StoredFile)
    | Listing(files: seq<StoredFile>)
    | Deleted
    | BadRequest
    | NotFound
    | ServerError(failure: Failure)

  /** A response with the stores it leaves behind. */
  datatype Outcome = Outcome(resp: Response, catalog: map<Id, FileRecord>, blobs: map<string, nat>)

  function StatusCode(r: Response): nat
  {
    match r
    case Created(_) => 201
    case Listing(_) => 200
    case Deleted => 200
    case BadRequest => 400
    case NotFound => 404
    case ServerError(_) => 500
  }

  /** The public path stored for a file: the `/uploads/` prefix followed by
      the storage name, which can be read back from it. */
  function UploadPath(filename: string): (p: string)
    ensures |p| == 9 + |filename| && p[..9] == "/uploads/" && p[9..] == filename
  {
    "/uploads/" + filename
  }

  /** A catalog record as an upload creates it: valid, with the public path
      of its storage name, of a type and size the gate admits. */
  predicate WellFormed(r: FileRecord)
  {
    Valid(r) && r.path == UploadPath(r.filename) && Admit(r.mimetype, r.size).Accept?
  }

  /** The catalog agrees with the uploads directory: every record is well
      formed and names a blob of its recorded size, and no two records share
      a blob. Blobs without a record (orphans) are allowed. */
  predicate Consistent(catalog: map<Id, FileRecord>, blobs: map<string, nat>)
  {
    && (forall id | id in catalog :: WellFormed(catalog[id]))
    && (forall id | id in catalog ::
          catalog[id].filename in blobs && blobs[catalog[id].filename] == catalog[id].size)
    && (forall id1, id2 | id1 in catalog && id2 in catalog ::
          catalog[id1].filename == catalog[id2].filename ==> id1 == id2)
  }

  /** No record of the catalog uses the storage name `name`. */
  predicate NameUnused(catalog: map<Id, FileRecord>, name: string)
  {
    forall id | id in catalog :: catalog[id].filename != name
  }

  /** The record the handler builds from multer's `req.file`, stored under
      `name` and created at `now`. */
  function RecordFor(f: IncomingFile, name: string, now: int): (r: FileRecord)
    ensures Agrees(r, FieldsFor(f, name)) && r.uploadDate == now
    ensures Admit(f.mimetype, f.size).Accept? && name != [] && f.originalname != [] ==> WellFormed(r)
  {
    FileRecord(name, f.originalname, f.mimetype, f.size, UploadPath(name), now)
  }

  /** The fields the handler passes to `new File({...})`: every required
      field, of which only the client's file name can be empty for an
      admitted upload, and no `uploadDate`, which is left to the default. */
  function FieldsFor(f: IncomingFile, name: string): (fields: FileFields)
    ensures fields.uploadDate.None?
    ensures Supplied(fields, Originalname) <==> f.originalname != []
    ensures Admit(f.mimetype, f.size).Accept? && name != [] ==>
      forall field | field != Originalname :: Supplied(fields, field)
  {
    FileFields(Some(name), Some(f.originalname), Some(f.mimetype), Some(f.size),
               Some(UploadPath(name)), None)
  }

  /** For an admitted upload, creating the document succeeds exactly when the
      client's file name is not empty, and then gives a well-formed record. */
  lemma CreateForUpload(f: IncomingFile, name: string, now: int)
    requires Admit(f.mimetype, f.size).Accept? && name != []
    ensures Create(FieldsFor(f, name), now).Success? <==> f.originalname != []
    ensures f.originalname != [] ==> Create(FieldsFor(f, name), now).value == RecordFor(f, name, now)
    ensures f.originalname != [] ==> WellFormed(RecordFor(f, name, now))
  {
    var fields := FieldsFor(f, name);
    assert Supplied(fields, Filename) && Supplied(fields, Mimetype) && Supplied(fields, Path);
    assert Supplied(fields, Size);
  }

  /** Writing the blob of an upload under an unused name, and possibly
      adding its record, keeps the catalog consistent with the directory. */
  lemma UploadKeepsConsistent(
    catalog: map<Id, FileRecord>, blobs: map<string, nat>, r: FileRecord, newId: Id, insert: bool)
    requires Consistent(catalog, blobs)
    requires NameUnused(catalog, r.filename)
    requires insert ==> WellFormed(r) && newId !in catalog
    ensures Consistent(if insert then catalog[newId := r] else catalog, blobs[r.filename := r.size])
  {
  }

  /** `name` is not a generated storage name from clock reading `clock` or
      later. */
  predicate IssuedBefore(name: string, clock: nat)
  {
    var parts := ParseStorageName(name);
    parts.None? || parts.value.clock < clock
  }

  /** When every stored name was generated before the current millisecond,
      the name generated now is used by no record: the clock component alone
      keeps successive uploads apart. */
  lemma NewNameUnused(catalog: map<Id, FileRecord>, clock: nat, random: real, originalname: string)
    requires 0.0 <= random < 1.0
    requires forall id | id in catalog :: IssuedBefore(catalog[id].filename, clock)
    ensures NameUnused(catalog, StorageName(clock, random, originalname))
  {
    var name := StorageName(clock, random, originalname);
    StorageNameRoundTrip(clock, random, originalname);
    forall id | id in catalog ensures catalog[id].filename != name {
      assert IssuedBefore(catalog[id].filename, clock);
    }
  }

  /** multer wrote the upload to the uploads directory. */
  predicate Written(file: Option<IncomingFile>, env: UploadEnv)
  {
    file.Some? && Admit(file.value.mimetype, file.value.size).Accept? && env.writeOk
  }

  /** The newest-first order of `GET /`: upload dates never increase. */
  predicate NewestFirst(fs: seq<StoredFile>)
  {
    forall i, j | 0 <= i < j < |fs| :: fs[i].file.uploadDate >= fs[j].file.uploadDate
  }

  function Ids(fs: seq<StoredFile>): set<Id>
  {
    set k | 0 <= k < |fs| :: fs[k].id
  }

  /** `fs` lists the records of `catalog` whose ids are in `ids`, each once,
      with its stored contents. */
  predicate ListsPart(fs: seq<StoredFile>, catalog: map<Id, FileRecord>, ids: set<Id>)
  {
    && Ids(fs) == ids
    && (forall k | 0 <= k < |fs| :: fs[k].id in catalog && catalog[fs[k].id] == fs[k].file)
    && (forall i, j | 0 <= i < j < |fs| :: fs[i].id != fs[j].id)
  }

  /** Where `x` goes in a newest-first list: after every strictly newer entry. */
  function InsertPos(fs: seq<StoredFile>, x: StoredFile): (k: nat)
    ensures k <= |fs|
    ensures forall i | 0 <= i < k :: fs[i].file.uploadDate > x.file.uploadDate
    ensures k < |fs| ==> fs[k].file.uploadDate <= x.file.uploadDate
  {
    if fs == [] || fs[0].file.uploadDate <= x.file.uploadDate then 0
    else 1 + InsertPos(fs[1..], x)
  }

  /** The sort of `GET /` as one insertion: `x` joins the entries of `fs`,
      which keep their relative order. */
  function InsertNewestFirst(fs: seq<StoredFile>, x: StoredFile): (r: seq<StoredFile>)
    ensures |r| == |fs| + 1
    ensures multiset(r) == multiset(fs) + multiset{x}
  {
    var k := InsertPos(fs, x);
    assert fs == fs[..k] + fs[k..];
    fs[..k] + [x] + fs[k..]
  }

  /** Inserting a catalog entry not yet listed into a newest-first partial
      listing gives a newest-first listing of one more entry. */
  lemma InsertExtendsListing(fs: seq<StoredFile>, x: StoredFile, catalog: map<Id, FileRecord>, ids: set<Id>)
    requires NewestFirst(fs) && ListsPart(fs, catalog, ids)
    requires x.id in catalog && catalog[x.id] == x.file && x.id !in ids
    ensures NewestFirst(InsertNewestFirst(fs, x))
    ensures ListsPart(InsertNewestFirst(fs, x), catalog, ids + {x.id})
  {
    var k := InsertPos(fs, x);
    var r := InsertNewestFirst(fs, x);
    assert |r| == |fs| + 1;
    assert forall i | 0 <= i < k :: r[i] == fs[i];
    assert r[k] == x;
    assert forall i | k < i < |r| :: r[i] == fs[i - 1];
    forall i, j | 0 <= i < j < |r|
      ensures r[i].file.uploadDate >= r[j].file.uploadDate
      ensures r[i].id != r[j].id
    {
      if j < k {
      } else if j == k {
        assert r[i] == fs[i];
      } else if i < k {
        assert r[j] == fs[j - 1];
      } else if i == k {
        assert r[j] == fs[j - 1];
        assert fs[k].file.uploadDate <= x.file.uploadDate;
        assert fs[j - 1].id in ids;
      } else {
        assert r[i] == fs[i - 1] && r[j] == fs[j - 1];
      }
    }
    assert Ids(r) == ids + {x.id} by {
      forall id | id in Ids(r) ensures id in ids + {x.id} {
        var i :| 0 <= i < |r| && r[i].id == id;
        if i < k { assert r[i] == fs[i]; }
        else if i > k { assert r[i] == fs[i - 1]; }
      }
      forall id | id in ids + {x.id} ensures id in Ids(r) {
        if id == x.id {
          assert r[k].id == id;
        } else {
          var i :| 0 <= i < |fs| && fs[i].id == id;
          if i < k { assert r[i].id == id; } else { assert r[i + 1].id == id; }
        }
      }
    }
  }

  /** The delete handler as the route is written, with a reachable
      database: it looks the document up by `req.id`, deletes by
      `req.params.id`, and unlinks the blob of the document it looked up. */
  function DeleteAsWritten(
    catalog: map<Id, FileRecord>, blobs: map<string, nat>,
    reqId: Option<Id>, paramsId: Id, unlinkOk: bool): (o: Outcome)
    ensures o.resp == NotFound || o.resp == Deleted
    ensures o.resp == NotFound <==> reqId.None? || reqId.value !in catalog
    ensures o.resp == NotFound ==> o.catalog == catalog && o.blobs == blobs
    ensures o.resp == Deleted ==> o.catalog == catalog - {paramsId}
    ensures o.resp == Deleted ==>
      o.blobs == (if unlinkOk then blobs - {catalog[reqId.value].filename} else blobs)
  {
    if reqId.None? || reqId.value !in catalog then Outcome(NotFound, catalog, blobs)
    else
      var file := catalog[reqId.value];
      Outcome(Deleted, catalog - {paramsId}, if unlinkOk then blobs - {file.filename} else blobs)
  }

  /** Express sets no `req.id`, so the lookup is `findById(undefined)`, which
      finds nothing: as written, every delete answers 404 and changes
      nothing, even for the id of a stored document. */
  lemma AsWrittenDeleteAlwaysNotFound(
    catalog: map<Id, FileRecord>, blobs: map<string, nat>, paramsId: Id, unlinkOk: bool)
    ensures DeleteAsWritten(catalog, blobs, None, paramsId, unlinkOk) == Outcome(NotFound, catalog, blobs)
  {
  }

  /** A concrete witness: one stored photo, whose id the route is given. */
  lemma AsWrittenDeleteKeepsStoredFile()
    ensures var rec := FileRecord("1-2.png", "a.png", "image/png", 3, "/uploads/1-2.png", 0);
            var o := DeleteAsWritten(map[7 := rec], map["1-2.png" := 3], None, 7, true);
            o.resp == NotFound && 7 in o.catalog && "1-2.png" in o.blobs
  {
  }

  class FileService {
    /** The `File` collection. */
    var catalog: map<Id, FileRecord>
    /** The uploads directory. */
    var blobs: map<string, nat>

    constructor ()
      ensures catalog == map[] && blobs == map[]
      ensures Consistent(catalog, blobs)
    {
      catalog := map[];
      blobs := map[];
    }

    /** `POST /upload`: multer's filter, naming and disk write, then the
        handler's document creation and save. */
    method Upload(file: Option<IncomingFile>, env: UploadEnv) returns (resp: Response)
      requires 0.0 <= env.random < 1.0
      modifies this
      ensures resp.Created? || resp == BadRequest || resp.ServerError?
      ensures file.None? ==> resp == BadRequest
      ensures file.Some? && !resp.Created? ==> resp.ServerError?
      ensures file.Some? && Admit(file.value.mimetype, file.value.size).Reject? ==>
        resp == ServerError(Rejected(Admit(file.value.mimetype, file.value.size).reason))
      ensures file.Some? && Admit(file.value.mimetype, file.value.size).Accept? && !env.writeOk ==>
        resp == ServerError(WriteFailed)
      ensures Written(file, env) && file.value.originalname == [] ==>
        resp == ServerError(Invalid({Originalname}))
      ensures Written(file, env) && file.value.originalname != [] && !env.saveOk ==>
        resp == ServerError(SaveFailed)
      ensures Written(file, env) && file.value.originalname != [] && env.saveOk && env.newId in old(catalog) ==>
        resp == ServerError(DuplicateId)
      ensures Written(file, env) ==> blobs == old(blobs)[StorageName(env.nameClock, env.random, file.value.originalname) := file.value.size]
      ensures !Written(file, env) ==> blobs == old(blobs)
      ensures resp.Created? <==>
        Written(file, env) && file.value.originalname != [] && env.saveOk && env.newId !in old(catalog)
      ensures resp.Created? ==>
        && resp.stored == StoredFile(env.newId, RecordFor(file.value, StorageName(env.nameClock, env.random, file.value.originalname), env.createClock))
        && catalog == old(catalog)[env.newId := RecordFor(file.value, StorageName(env.nameClock, env.random, file.value.originalname), env.createClock)]
      ensures !resp.Created? ==> catalog == old(catalog)
      ensures Consistent(old(catalog), old(blobs))
              && (file.Some? ==> NameUnused(old(catalog), StorageName(env.nameClock, env.random, file.value.originalname)))
              ==> Consistent(catalog, blobs)
    {
      if file.None? {
        return BadRequest;
      }
      var f := file.value;
      var written := Receive(f, env);
      if written.Failure? {
        return ServerError(written.error);
      }
      var name := written.value;
      resp := Save(f, name, env);
      if Consistent(old(catalog), old(blobs)) && NameUnused(old(catalog), name) {
        CreateForUpload(f, name, env.createClock);
        UploadKeepsConsistent(old(catalog), old(blobs), RecordFor(f, name, env.createClock),
                              env.newId, resp.Created?);
      }
    }

    /** multer's part of an upload: the filter and the size limit, the
        generated name, and the write to the uploads directory, which yields
        the storage name. */
    method Receive(f: IncomingFile, env: UploadEnv) returns (r: Result<string, Failure>)
      requires 0.0 <= env.random < 1.0
      modifies this`blobs
      ensures Admit(f.mimetype, f.size).Reject? ==> r == Failure(Rejected(Admit(f.mimetype, f.size).reason))
      ensures Admit(f.mimetype, f.size).Accept? && !env.writeOk ==> r == Failure(WriteFailed)
      ensures r.Success? <==> Admit(f.mimetype, f.size).Accept? && env.writeOk
      ensures r.Success? ==> r.value == StorageName(env.nameClock, env.random, f.originalname) && blobs == old(blobs)[r.value := f.size]
      ensures r.Failure? ==> blobs == old(blobs)
    {
      var verdict := Admit(f.mimetype, f.size);
      if verdict.Reject? {
        return Failure(Rejected(verdict.reason));
      }
      var name := StorageName(env.nameClock, env.random, f.originalname);
      if !env.writeOk {
        return Failure(WriteFailed);
      }
      blobs := blobs[name := f.size];
      r := Success(name);
    }

    /** The handler's part of an upload once multer has stored the file
        under `name`: build the document and save it. */
    method Save(f: IncomingFile, name: string, env: UploadEnv) returns (resp: Response)
      requires Admit(f.mimetype, f.size).Accept? && name != []
      modifies this`catalog
      ensures resp.Created? <==> f.originalname != [] && env.saveOk && env.newId !in old(catalog)
      ensures resp.Created? ==>
        && resp.stored == StoredFile(env.newId, RecordFor(f, name, env.createClock))
        && catalog == old(catalog)[env.newId := resp.stored.file]
      ensures !resp.Created? ==> resp.ServerError? && catalog == old(catalog)
      ensures f.originalname == [] ==> resp == ServerError(Invalid({Originalname}))
      ensures f.originalname != [] && !env.saveOk ==> resp == ServerError(SaveFailed)
      ensures f.originalname != [] && env.saveOk && env.newId in old(catalog) ==>
        resp == ServerError(DuplicateId)
    {
      CreateForUpload(f, name, env.createClock);
      var doc := Create(FieldsFor(f, name), env.createClock);
      if doc.Failure? {
        assert doc.error == {Originalname} by {
          assert forall field :: field in doc.error <==> field == Originalname;
        }
        return ServerError(Invalid(doc.error));
      }
      if !env.saveOk {
        return ServerError(SaveFailed);
      }
      if env.newId in catalog {
        return ServerError(DuplicateId);
      }
      catalog := catalog[env.newId := doc.value];
      resp := Created(StoredFile(env.newId, doc.value));
    }

    /** `GET /`: every document, newest upload first. */
    method List(dbOk: bool) returns (resp: Response)
      ensures !dbOk ==> resp == ServerError(Unavailable)
      ensures dbOk ==> resp.Listing? && ListsPart(resp.files, catalog, catalog.Keys)
      ensures dbOk ==> resp.Listing? && NewestFirst(resp.files)
    {
      if !dbOk {
        return ServerError(Unavailable);
      }
      var files: seq<StoredFile> := [];
      var rest := catalog.Keys;
      while rest != {}
        invariant rest <= catalog.Keys
        invariant NewestFirst(files)
        invariant ListsPart(files, catalog, catalog.Keys - rest)
        decreases rest
      {
        var id :| id in rest;
        InsertExtendsListing(files, StoredFile(id, catalog[id]), catalog, catalog.Keys - rest);
        files := InsertNewestFirst(files, StoredFile(id, catalog[id]));
        assert catalog.Keys - rest + {id} == catalog.Keys - (rest - {id});
        rest := rest - {id};
      }
      assert catalog.Keys - rest == catalog.Keys;
      resp := Listing(files);
    }

    /** `DELETE /:id`, with the route's id used both for the lookup and for
        the deletion: the record goes first, then its blob, best effort. */
    method Delete(id: Id, dbOk: bool, unlinkOk: bool) returns (resp: Response)
      modifies this
      ensures !dbOk ==> resp == ServerError(Unavailable) && catalog == old(catalog) && blobs == old(blobs)
      ensures dbOk && id !in old(catalog) ==>
        resp == NotFound && catalog == old(catalog) && blobs == old(blobs)
      ensures dbOk && id in old(catalog) ==>
        && resp == Deleted
        && catalog == old(catalog) - {id}
        && blobs == (if unlinkOk then old(blobs) - {old(catalog)[id].filename} else old(blobs))
      ensures dbOk ==>
        Outcome(resp, catalog, blobs) == DeleteAsWritten(old(catalog), old(blobs), Some(id), id, unlinkOk)
      ensures Consistent(old(catalog), old(blobs)) ==> Consistent(catalog, blobs)
    {
      if !dbOk {
        return ServerError(Unavailable);
      }
      if id !in catalog {
        return NotFound;
      }
      var file := catalog[id];
      catalog := catalog - {id};
      if unlinkOk {
        blobs := blobs - {file.filename};
      }
      resp := Deleted;
    }
  }

  /** An upload of a small PNG and the listing that follows, for any clock
      readings and any random draw. */
  method PhotoScenario(clock: nat, random: real, now: int)
    requires 0.0 <= random < 1.0
  {
    var service := new FileService();
    var env := UploadEnv(clock, random, now, 1, true, true);
    var photo := IncomingFile("photo.png", "image/png", 2048);
    var resp := service.Upload(Some(photo), env);
    assert resp.Created? && StatusCode(resp) == 201;
    var rec := resp.stored.file;
    assert rec.originalname == "photo.png" && rec.mimetype == "image/png" && rec.size == 2048;
    assert rec.path == "/uploads/" + rec.filename;
    StorageNameKeepsExtension(env.nameClock, env.random, "photo.png");
    PathExt.PhotoExtension();
    assert PathExt.ExtName(rec.filename) == ".png";

    var listing := service.List(true);
    assert 1 in Ids(listing.files);
  }

  /** Deleting a stored document twice: 200 and its blob is gone, then 404
      with nothing changed. */
  method DeleteTwiceScenario(service: FileService, id: Id)
    requires id in service.catalog
    modifies service
  {
    var name := service.catalog[id].filename;
    var first := service.Delete(id, true, true);
    assert first == Deleted && StatusCode(first) == 200;
    assert id !in service.catalog && name !in service.blobs;
    var second := service.Delete(id, true, true);
    assert second == NotFound && StatusCode(second) == 404;
  }

  /** Uploads the gate refuses, and a request without a file, leave both
      stores as they were. */
  method RejectedScenarios(service: FileService, env: UploadEnv)
    requires 0.0 <= env.random < 1.0
    modifies service
  {
    ghost var catalog, blobs := service.catalog, service.blobs;
    var text := service.Upload(Some(IncomingFile("notes.txt", "text/plain", 10)), env);
    assert text == ServerError(Rejected(UnsupportedType)) && StatusCode(text) == 500;
    var big := service.Upload(Some(IncomingFile("big.pdf", "application/pdf", 11534336)), env);
    assert big == ServerError(Rejected(TooLarge));
    var none := service.Upload(None, env);
    assert none == BadRequest && StatusCode(none) == 400;
    assert service.catalog == catalog && service.blobs == blobs;
  }
}
