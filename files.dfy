/**
 * The file record manager: a controller that keeps the blob store (the SFTP
 * disk) and the metadata table of file records in step. Each mutating
 * operation probes before it writes and writes the blob before the record,
 * returning early, with nothing changed, at the first probe that fails.
 */
module Files {

  import opened Storage
  import opened Requests

  /** A row of the metadata table; the id is its key in the table. */
  datatype Record = Record(filename: string, uploader: string, category: string, date: string)

  /** A row as the listing projects it: the id and the four columns. */
  datatype Row = Row(id: nat, filename: string, uploader: string, category: string, date: string)

  /** What an operation reports; the boundary turns these into HTTP responses. */
  datatype Outcome =
    | Invalid(fields: set<Field>)  // the request failed validation
    | NotFound                     // no record has the requested id
    | BlobExists                   // a blob already exists at the target path
    | RecordExists                 // a record with the same four columns exists
    | UploadFailed                 // the blob write reported failure
    | Created(id: nat)
    | Updated(record: Record)
    | Deleted

  /** The record a store request creates for the uploaded file `filename`. */
  function NewRecord(filename: string, req: Request): Record
  {
    Record(filename, req.uploader, req.category, req.date)
  }

  /**
   * The two stores agree: every record's blob exists at its canonical path,
   * and no two records share a filename (the path namespace is flat).
   * An orphan blob, one that no record names, is allowed.
   */
  predicate Consistent(disk: Disk, records: map<nat, Record>) {
    && (forall id :: id in records ==> CanonicalPath(records[id].filename) in disk)
    && (forall i, j :: i in records && j in records && records[i].filename == records[j].filename ==> i == j)
  }

  /** In agreeing stores a duplicate record always has its blob, so the blob probe catches it first. */
  lemma DuplicateHasBlob(disk: Disk, records: map<nat, Record>, rec: Record)
    ensures Consistent(disk, records) && rec in records.Values ==> CanonicalPath(rec.filename) in disk
  {
  }

  /**
   * The blob steps of an update with a file, as the controller writes them:
   * put the new blob, then delete the old path if it exists at that moment.
   */
  function ReplaceBlobAsWritten(disk: Disk, oldPath: string, newPath: string, contents: Bytes, deleteOk: bool): (r: Disk)
    ensures oldPath != newPath ==> newPath in r && r[newPath] == contents
    ensures oldPath == newPath ==> (newPath in r <==> !deleteOk)
    ensures oldPath != newPath ==> (oldPath in r <==> oldPath in disk && !deleteOk)
    ensures forall p :: p != oldPath && p != newPath ==> (p in r <==> p in disk)
    ensures forall p :: p in r && p != newPath ==> r[p] == disk[p]
    ensures newPath in r ==> r[newPath] == contents
  {
    var put := disk[newPath := contents];
    if oldPath in put && deleteOk then put - {oldPath} else put
  }

  /**
   * When the new name equals the record's current name and that blob is
   * missing, the existence probe lets the update through and the clean-up
   * then deletes the blob just written: the record names a path with no blob.
   */
  lemma ReplaceBlobAsWrittenLosesUpload(disk: Disk, path: string, contents: Bytes)
    ensures path !in ReplaceBlobAsWritten(disk, path, path, contents, true)
  {
  }

  /**
   * The blob steps of an update with a file, as intended: put the new blob,
   * then delete the old one if it exists and is a different path. A failed
   * delete leaves the old blob in place.
   */
  function ReplaceBlob(disk: Disk, oldPath: string, newPath: string, contents: Bytes, deleteOk: bool): (r: Disk)
    ensures newPath in r && r[newPath] == contents
    ensures oldPath != newPath ==> (oldPath in r <==> oldPath in disk && !deleteOk)
    ensures forall p :: p != oldPath && p != newPath ==> (p in r <==> p in disk)
    ensures forall p :: p in r && p != newPath ==> r[p] == disk[p]
  {
    var put := disk[newPath := contents];
    if oldPath != newPath && oldPath in put && deleteOk then put - {oldPath} else put
  }

  /** The corrected steps differ from the written ones only when the two paths coincide. */
  lemma ReplaceBlobDiffersOnlyOnSamePath(disk: Disk, oldPath: string, newPath: string, contents: Bytes, deleteOk: bool)
    ensures oldPath != newPath ==>
      ReplaceBlob(disk, oldPath, newPath, contents, deleteOk) == ReplaceBlobAsWritten(disk, oldPath, newPath, contents, deleteOk)
  {
  }

  /**
   * The controller over both stores. `blobs` is the SFTP disk, `records`
   * the metadata table keyed by id, `nextId` the id the table gives the
   * next inserted row.
   */
  class FileController {
    var blobs: Disk
    var records: map<nat, Record>
    var nextId: nat

    /** Every id in the table was handed out before `nextId`. */
    ghost predicate Valid()
      reads this
    {
      forall id :: id in records ==> id < nextId
    }

    /** A controller over an existing disk and an empty table. */
    constructor (disk: Disk)
      ensures Valid()
      ensures blobs == disk && records == map[] && nextId == 1
    {
      blobs := disk;
      records := map[];
      nextId := 1;
    }

    /** Lists every record, projected to its id and four columns. */
    function Index(): (rows: set<Row>)
      reads this
      ensures forall row :: row in rows <==>
        row.id in records && records[row.id] == Record(row.filename, row.uploader, row.category, row.date)
    {
      set id | id in records :: Row(id, records[id].filename, records[id].uploader, records[id].category, records[id].date)
    }

    /** The record with the given id, or nothing when the id is unknown. */
    function Show(id: nat): (r: Option<Record>)
      reads this
      ensures r.Some? <==> id in records
      ensures r.Some? ==> r.value == records[id]
    {
      if id in records then Some(records[id]) else None
    }

    /**
     * Counts the blobs `listing` names and adds up their sizes. `listing`
     * is what the disk's recursive listing of the root returned.
     */
    method GetStorageStats(listing: seq<string>) returns (totalFiles: nat, totalBytes: nat, path: string)
      requires forall i :: 0 <= i < |listing| ==> listing[i] in blobs
      ensures totalFiles == |listing|
      ensures totalBytes == SumSizes(blobs, listing)
      ensures path == Root
      ensures ListsRoot(listing, blobs) ==>
        totalFiles == |RootPaths(blobs)| && totalBytes == DiskUsage(blobs, RootPaths(blobs))
    {
      totalFiles := |listing|;
      totalBytes := 0;
      for i := 0 to |listing|
        invariant totalBytes == SumSizes(blobs, listing[..i])
      {
        assert listing[..i + 1][..i] == listing[..i];
        totalBytes := totalBytes + |blobs[listing[i]]|;
      }
      assert listing[..|listing|] == listing;
      path := Root;
      if ListsRoot(listing, blobs) {
        RootListingTotals(blobs, listing);
      }
    }

    /**
     * Uploads a new file and records it. In order: validate; refuse when a
     * blob exists at the canonical path; refuse when a record with the same
     * filename, uploader, category and date exists; write the blob, and
     * refuse when the write fails (`putOk` is its result); insert the record.
     */
    method Store(req: Request, isDate: string -> bool, putOk: bool) returns (outcome: Outcome)
      requires Valid()
      modifies this
      ensures Valid()
      ensures outcome.Invalid? <==> StoreViolations(req, isDate) != {}
      ensures outcome.Invalid? ==> outcome.fields == StoreViolations(req, isDate)
      ensures !outcome.Invalid? ==> req.file.Some?
      ensures !outcome.Invalid? ==>
        var path := CanonicalPath(req.file.value.clientName);
        var rec := NewRecord(req.file.value.clientName, req);
        && (outcome == BlobExists <==> path in old(blobs))
        && (outcome == RecordExists <==> path !in old(blobs) && rec in old(records).Values)
        && (outcome == UploadFailed <==> path !in old(blobs) && rec !in old(records).Values && !putOk)
        && (outcome.Created? <==> path !in old(blobs) && rec !in old(records).Values && putOk)
        && (outcome.Created? ==>
              && outcome.id !in old(records)
              && outcome.id == old(nextId) && nextId == old(nextId) + 1
              && blobs == old(blobs)[path := req.file.value.contents]
              && records == old(records)[outcome.id := rec])
      ensures !outcome.Created? ==> blobs == old(blobs) && records == old(records) && nextId == old(nextId)
      ensures Consistent(old(blobs), old(records)) ==> Consistent(blobs, records) && outcome != RecordExists
    {
      var violations := StoreViolations(req, isDate);
      if violations != {} {
        return Invalid(violations);
      }
      var upload := req.file.value;
      var path := CanonicalPath(upload.clientName);
      if path in blobs {
        return BlobExists;
      }
      var rec := NewRecord(upload.clientName, req);
      DuplicateHasBlob(blobs, records, rec);
      if rec in records.Values {
        return RecordExists;
      }
      if !putOk {
        return UploadFailed;
      }
      blobs := blobs[path := upload.contents];
      var id := nextId;
      records := records[id := rec];
      nextId := nextId + 1;
      outcome := Created(id);
    }

    /**
     * Rewrites a record's uploader, category and date, and, when the request
     * carries a file, replaces its blob first: refuse when a blob exists at
     * the new path; write the new blob, and refuse when the write fails;
     * delete the old blob (a failed delete, `deleteOk` false, is ignored);
     * rename the record.
     */
    method Update(id: nat, req: Request, isDate: string -> bool, putOk: bool, deleteOk: bool) returns (outcome: Outcome)
      requires Valid()
      modifies this
      ensures Valid() && nextId == old(nextId)
      ensures outcome == NotFound <==> id !in old(records)
      ensures outcome.Invalid? <==> id in old(records) && UpdateViolations(req, isDate) != {}
      ensures outcome.Invalid? ==> outcome.fields == UpdateViolations(req, isDate)
      ensures !outcome.Updated? ==> blobs == old(blobs) && records == old(records)
      ensures outcome.Updated? ==> records == old(records)[id := outcome.record]
      ensures id in old(records) && UpdateViolations(req, isDate) == {} && req.file.None? ==>
        && outcome == Updated(Record(old(records)[id].filename, req.uploader, req.category, req.date))
        && blobs == old(blobs)
      ensures id in old(records) && UpdateViolations(req, isDate) == {} && req.file.Some? ==>
        var path := CanonicalPath(req.file.value.clientName);
        var oldPath := CanonicalPath(old(records)[id].filename);
        && (outcome == BlobExists <==> path in old(blobs))
        && (outcome == UploadFailed <==> path !in old(blobs) && !putOk)
        && (outcome.Updated? <==> path !in old(blobs) && putOk)
        && (outcome.Updated? ==>
              && outcome.record == NewRecord(req.file.value.clientName, req)
              && blobs == ReplaceBlob(old(blobs), oldPath, path, req.file.value.contents, deleteOk))
      ensures Consistent(old(blobs), old(records)) ==> Consistent(blobs, records)
    {
      if id !in records {
        return NotFound;
      }
      var violations := UpdateViolations(req, isDate);
      if violations != {} {
        return Invalid(violations);
      }
      var rec := records[id];
      if req.file.Some? {
        var upload := req.file.value;
        var path := CanonicalPath(upload.clientName);
        if path in blobs {
          return BlobExists;
        }
        if !putOk {
          return UploadFailed;
        }
        blobs := blobs[path := upload.contents];
        var oldPath := CanonicalPath(rec.filename);
        if oldPath != path && oldPath in blobs && deleteOk {
          blobs := blobs - {oldPath};
        }
        rec := rec.(filename := upload.clientName);
      }
      rec := rec.(uploader := req.uploader, category := req.category, date := req.date);
      records := records[id := rec];
      outcome := Updated(rec);
    }

    /**
     * Deletes a record: the blob at its canonical path goes first when it
     * exists (a failed delete, `deleteOk` false, is ignored), then the
     * record goes unconditionally.
     */
    method Destroy(id: nat, deleteOk: bool) returns (outcome: Outcome)
      requires Valid()
      modifies this
      ensures Valid() && nextId == old(nextId)
      ensures outcome == NotFound <==> id !in old(records)
      ensures outcome == NotFound ==> blobs == old(blobs) && records == old(records)
      ensures id in old(records) ==>
        var path := CanonicalPath(old(records)[id].filename);
        && outcome == Deleted
        && records == old(records) - {id}
        && blobs == (if deleteOk then old(blobs) - {path} else old(blobs))
      ensures Consistent(old(blobs), old(records)) ==> Consistent(blobs, records)
    {
      if id !in records {
        return NotFound;
      }
      var path := CanonicalPath(records[id].filename);
      if path in blobs && deleteOk {
        blobs := blobs - {path};
      }
      records := records - {id};
      outcome := Deleted;
    }
  }

  /**
   * A client: the first upload of report.pdf is created under id 1; the
   * identical second upload is refused by the blob probe, before the
   * duplicate-record probe is reached; after the delete the id is unknown.
   */
  method ReportScenario() {
    var controller := new FileController(map[]);
    var isDate := (d: string) => true;
    var req := Request(Some(Upload("report.pdf", [37, 80, 68, 70], "pdf")), "alice", "finance", "2024-01-01");
    assert req.file.value.extension in AllowedExtensions;
    assert StoreViolations(req, isDate) == {};
    assert controller.records.Values == {};
    var first := controller.Store(req, isDate, true);
    assert first == Created(1);
    var second := controller.Store(req, isDate, true);
    assert second == BlobExists;
    var gone := controller.Destroy(1, true);
    assert gone == Deleted;
    assert controller.Show(1) == None;
    assert controller.blobs == map[];
  }
}
