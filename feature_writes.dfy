// `addFeature` (controllers/FeatureController.php:895-1001) and `updateFeature`
// (controllers/FeatureController.php:1009-1186): validate the request, register
// the five names in their lookup tables, write the record, and for an update
// carry the old names over to the new ones. The clock reading `now` and the
// new record's ObjectId are parameters; `filter_var(..., FILTER_VALIDATE_URL)`
// is the predicate `isUrl`; the upload is its outcome.
module FeatureWrites {
  import opened Wrappers
  import opened Text
  import opened Categories
  import opened RefTable
  import opened Records
  import opened Store
  import opened Files
  import opened FeatureForms
  import opened ReferenceSync

  /**
   * The second `ensureReferenceDataWithId` on a value the first one already
   * registered without a collision: it finds the row and changes nothing.
   */
  method EnsureAgain(db: Database, c: Category, value: string, now: int, ghost before: Table)
    requires db.Valid()
    requires !Ensure(before, value, now).Collision?
    requires db.tables.Get(c) == EnsuredTable(before, Ensure(before, value, now))
    modifies db
    ensures db.Valid() && db.tables == old(db.tables) && db.overall == old(db.overall)
  {
    EnsureIdempotent(before, value, now, now);
    var _ := EnsureReferenceDataWithId(db, c, value, now);
    old(db.tables).SetGet(c);
  }

  /** The record `addFeature` inserts: the trimmed names, their ids, the description and the sample file. */
  function NewRecord(oid: string, post: Post, ids: PerCategory<Value>, sample: Option<string>): Record {
    Record(oid, PostedNames(post, false), ids, Null, Read(post, "description"), sample, false)
  }

  /**
   * `addFeature` once the request is valid and the sample file settled: the
   * five ensures in order (a collision ends the request there), the repeated
   * ensures of the feature and module names, which find the rows the first
   * ones left and change nothing, and the insert.
   */
  method AddValid(db: Database, post: Post, sample: Option<string>, now: int, freshOid: string) returns (reply: Reply)
    requires db.Valid() && !HasOid(db.overall, freshOid)
    modifies db
    ensures db.Valid()
    ensures var e := EnsureEach(old(db.tables), PostedNames(post, false), now);
      db.tables == EnsuredTables(old(db.tables), BeforeCollision(e)) &&
      (NoCollision(e) ==>
        reply == Added(freshOid) && db.overall == old(db.overall) + [NewRecord(freshOid, post, IdValues(e), sample)]) &&
      (!NoCollision(e) ==> reply == DriverError && db.overall == old(db.overall))
  {
    var names := PostedNames(post, false);
    ghost var before := db.tables;
    var ids := EnsureAll(db, names, now);
    if ids.None? {
      return DriverError;
    }
    EachCategory(before, names, now, Feature);
    EachCategory(before, names, now, Module);
    EnsureAgain(db, Feature, names.featureName, now, before.featureName);
    EnsureAgain(db, Module, names.moduleName, now, before.moduleName);
    db.InsertRecord(Record(freshOid, names, ids.value, Null, Read(post, "description"), sample, false));
    reply := Added(freshOid);
  }

  /**
   * `addFeature`. Validation errors and a refused sample file answer before
   * anything is written. Otherwise the upload is on disk and `AddValid` does
   * the rest.
   */
  method AddFeature(db: Database, disk: Disk, post: Post, upload: Upload, isUrl: string -> bool, now: int, freshOid: string)
    returns (reply: Reply)
    requires db.Valid() && !HasOid(db.overall, freshOid)
    modifies db, disk
    ensures db.Valid()
    ensures AddErrors(post, upload) != map[] ==>
      reply == Invalid(AddErrors(post, upload)) &&
      db.tables == old(db.tables) && db.overall == old(db.overall) && disk.files == old(disk.files)
    ensures AddErrors(post, upload) == map[] && AddSample(upload, Read(post, "file_url"), isUrl).Rejected? ==>
      reply == Invalid(map["sample_file" := AddSample(upload, Read(post, "file_url"), isUrl).message]) &&
      db.tables == old(db.tables) && db.overall == old(db.overall) && disk.files == old(disk.files)
    ensures AddErrors(post, upload) == map[] && AddSample(upload, Read(post, "file_url"), isUrl).Chosen? ==>
      var e := EnsureEach(old(db.tables), PostedNames(post, false), now);
      var sample := AddSample(upload, Read(post, "file_url"), isUrl).sample;
      disk.files == old(disk.files) + UploadedPaths(upload) &&
      db.tables == EnsuredTables(old(db.tables), BeforeCollision(e)) &&
      (NoCollision(e) ==>
        reply == Added(freshOid) && db.overall == old(db.overall) + [NewRecord(freshOid, post, IdValues(e), sample)]) &&
      (!NoCollision(e) ==> reply == DriverError && db.overall == old(db.overall))
  {
    var errors := CollectMissing(post, AddFields);
    var fileUrl := Read(post, "file_url");
    var fileUploaded := !upload.NoFile?;
    if IsEmpty(fileUrl) && !fileUploaded {
      errors := errors["sample_file" := SampleRequired];
    }
    if errors != map[] {
      return Invalid(errors);
    }
    var sample: Option<string> := None;
    if upload.Stored? {
      disk.Store(upload.path);
      sample := Truthy(upload.path);
    } else if upload.Refused? {
      return Invalid(map["sample_file" := upload.message]);
    } else if !IsEmpty(fileUrl) {
      if isUrl(fileUrl) {
        sample := Some(fileUrl);
      } else {
        return Invalid(map["sample_file" := InvalidUrl]);
      }
    }
    reply := AddValid(db, post, sample, now, freshOid);
  }

  // ---------------------------------------------------------------------------
  // updateFeature

  /** The table after `updateReferenceData` for one category, counting in `records`. */
  function Renamed(ts: PerCategory<Table>, records: seq<Record>, oldNames: PerCategory<string>,
      newNames: PerCategory<string>, now: int, c: Category): Table {
    RenameReference(ts.Get(c), CountHolding(records, c, Trim(oldNames.Get(c))), oldNames.Get(c), newNames.Get(c), now).1
  }

  /** The five tables after the five renames. */
  function RenamedTables(ts: PerCategory<Table>, records: seq<Record>, oldNames: PerCategory<string>,
      newNames: PerCategory<string>, now: int): PerCategory<Table> {
    PerCategory(
      Renamed(ts, records, oldNames, newNames, now, SystemName), Renamed(ts, records, oldNames, newNames, now, Module),
      Renamed(ts, records, oldNames, newNames, now, Feature), Renamed(ts, records, oldNames, newNames, now, Client),
      Renamed(ts, records, oldNames, newNames, now, Source))
  }

  lemma RenamedTablesGet(ts: PerCategory<Table>, records: seq<Record>, oldNames: PerCategory<string>,
      newNames: PerCategory<string>, now: int, c: Category)
    ensures RenamedTables(ts, records, oldNames, newNames, now).Get(c) == Renamed(ts, records, oldNames, newNames, now, c)
  {
  }

  /** The five `updateReferenceData` calls, old value to new, in hierarchy order; their answers are ignored. */
  method RenameAll(db: Database, oldNames: PerCategory<string>, newNames: PerCategory<string>, now: int)
    requires db.Valid()
    modifies db
    ensures db.Valid() && db.overall == old(db.overall)
    ensures db.tables == RenamedTables(old(db.tables), old(db.overall), oldNames, newNames, now)
  {
    var _ := UpdateReferenceData(db, SystemName, oldNames.systemName, newNames.systemName, now);
    var _ := UpdateReferenceData(db, Module, oldNames.moduleName, newNames.moduleName, now);
    var _ := UpdateReferenceData(db, Feature, oldNames.featureName, newNames.featureName, now);
    var _ := UpdateReferenceData(db, Client, oldNames.clientName, newNames.clientName, now);
    var _ := UpdateReferenceData(db, Source, oldNames.sourceName, newNames.sourceName, now);
  }

  /** The file work of the edit form: move the upload in, then unlink the old local file if it exists. */
  method ApplyFileStep(disk: Disk, step: FileStep)
    modifies disk
    ensures disk.files == FilesAfter(old(disk.files), step)
  {
    match step
    case Clear(rm) =>
      if rm.Some? && rm.value in disk.files {
        var _ := disk.Unlink(rm.value);
      }
    case UseUpload(p, rm) =>
      disk.Store(p);
      if rm.Some? && rm.value in disk.files {
        var _ := disk.Unlink(rm.value);
      }
    case UseUrl(_, rm) =>
      if rm.Some? && rm.value in disk.files {
        var _ := disk.Unlink(rm.value);
      }
    case _ =>
  }

  /** The file step of an update: the edit form's choice, or keep the file for a plain update. */
  function UpdateFileStep(post: Post, upload: Upload, isUrl: string -> bool, existing: Option<string>): FileStep {
    if IsFormUpdate(post) then FormFileStep(post, upload, isUrl, existing) else Keep
  }

  /** The record after an update: new names and ids, new description, and the sample file the step leaves. */
  function UpdatedRecord(rec: Record, post: Post, ids: PerCategory<Value>, step: FileStep): Record {
    var form := IsFormUpdate(post);
    rec.(names := PostedNames(post, form), refIds := ids,
         description := Read(post, PostKey(form, "description")),
         sampleFile := NewSample(step, rec.sampleFile))
  }

  /**
   * `updateFeature` once the record at `i` has been found: ensure the new
   * names, settle the file, rewrite the record, then rename old to new in the
   * lookup tables, counting references in the rewritten store.
   */
  method UpdateFound(db: Database, disk: Disk, post: Post, upload: Upload, isUrl: string -> bool, now: int, i: nat)
    returns (reply: Reply)
    requires db.Valid() && i < |db.overall|
    modifies db, disk
    ensures db.Valid()
    ensures
      var rec := old(db.overall)[i];
      var names := PostedNames(post, IsFormUpdate(post));
      var e := EnsureEach(old(db.tables), names, now);
      var ensured := EnsuredTables(old(db.tables), BeforeCollision(e));
      var step := UpdateFileStep(post, upload, isUrl, rec.sampleFile);
      if !NoCollision(e) then
        reply == DriverError && db.tables == ensured && db.overall == old(db.overall) && disk.files == old(disk.files)
      else if step.Reject? then
        reply == Invalid(map["sample_file" := step.message]) &&
        db.tables == ensured && db.overall == old(db.overall) && disk.files == old(disk.files)
      else
        reply == Done && disk.files == FilesAfter(old(disk.files), step) &&
        db.overall == old(db.overall)[i := UpdatedRecord(rec, post, IdValues(e), step)] &&
        db.tables == RenamedTables(ensured, db.overall, rec.names, names, now)
  {
    var rec := db.overall[i];
    var form := IsFormUpdate(post);
    var names := PostedNames(post, form);
    var ids := EnsureAll(db, names, now);
    if ids.None? {
      return DriverError;
    }
    var step := UpdateFileStep(post, upload, isUrl, rec.sampleFile);
    if step.Reject? {
      return Invalid(map["sample_file" := step.message]);
    }
    ApplyFileStep(disk, step);
    db.ReplaceRecord(i, UpdatedRecord(rec, post, ids.value, step));
    RenameAll(db, rec.names, names, now);
    reply := Done;
  }

  /**
   * `updateFeature`. Validation errors, a malformed id (one that fails
   * `isValidObjectId`, or that passes it and the ObjectId constructor then
   * rejects) and an unknown id answer before anything is written; otherwise
   * `UpdateFound` does the work.
   */
  method UpdateFeature(db: Database, disk: Disk, post: Post, upload: Upload, isUrl: string -> bool, now: int)
    returns (reply: Reply)
    requires db.Valid()
    modifies db, disk
    ensures db.Valid()
    ensures UpdateErrors(post) != map[] ==>
      reply == Invalid(UpdateErrors(post)) &&
      db.tables == old(db.tables) && db.overall == old(db.overall) && disk.files == old(disk.files)
    ensures UpdateErrors(post) == map[] ==>
      var id := RequestedId(post).GetOr("");
      var oid := ParseObjectId(id);
      (!IsValidObjectId(id) || oid.None? || !HasOid(old(db.overall), oid.value) ==>
        reply == (if !IsValidObjectId(id) then General(InvalidFeatureId)
                  else if oid.None? then DriverError
                  else General(FeatureNotFound)) &&
        db.tables == old(db.tables) && db.overall == old(db.overall) && disk.files == old(disk.files))
    ensures UpdateErrors(post) == map[] ==>
      var oid := ParseObjectId(RequestedId(post).GetOr(""));
      oid.Some? && HasOid(old(db.overall), oid.value) ==>
        var i := IndexOfOid(old(db.overall), oid.value).value;
        var rec := old(db.overall)[i];
        var names := PostedNames(post, IsFormUpdate(post));
        var e := EnsureEach(old(db.tables), names, now);
        var ensured := EnsuredTables(old(db.tables), BeforeCollision(e));
        var step := UpdateFileStep(post, upload, isUrl, rec.sampleFile);
        if !NoCollision(e) then
          reply == DriverError && db.tables == ensured && db.overall == old(db.overall) && disk.files == old(disk.files)
        else if step.Reject? then
          reply == Invalid(map["sample_file" := step.message]) &&
          db.tables == ensured && db.overall == old(db.overall) && disk.files == old(disk.files)
        else
          reply == Done && disk.files == FilesAfter(old(disk.files), step) &&
          db.overall == old(db.overall)[i := UpdatedRecord(rec, post, IdValues(e), step)] &&
          db.tables == RenamedTables(ensured, db.overall, rec.names, names, now)
  {
    var form := IsFormUpdate(post);
    var errors := CollectMissing(post, UpdateFields(form));
    var id := RequestedId(post);
    if id.None? || IsEmpty(id.value) {
      errors := errors["id" := IdRequired];
    }
    if errors != map[] {
      return Invalid(errors);
    }
    UpdateErrorsId(post);
    if !IsValidObjectId(id.value) {
      return General(InvalidFeatureId);
    }
    var oid := ParseObjectId(id.value);
    if oid.None? {
      return DriverError;
    }
    var found := IndexOfOid(db.overall, oid.value);
    if found.None? {
      return General(FeatureNotFound);
    }
    reply := UpdateFound(db, disk, post, upload, isUrl, now, found.value);
  }

  /**
   * The ordering quirk of `updateFeature`, stated on the tables: the new name
   * was ensured before the rename, so for a category whose name really
   * changes the rename finds the new name active and takes its collision
   * branch. No row is renamed; the row of the new name is left as it is; and
   * the old active row is deactivated exactly when at most one record of the
   * rewritten store still holds the old name. Since the edited record no
   * longer holds it, a name still used by one other record is retired too.
   */
  lemma UpdateRetiresInsteadOfRenaming(ts: PerCategory<Table>, records: seq<Record>, oldNames: PerCategory<string>,
      newNames: PerCategory<string>, now: int, c: Category)
    requires AllUnique(ts)
    requires NoCollision(EnsureEach(ts, newNames, now))
    requires !IsBlank(oldNames.Get(c)) && !IsBlank(newNames.Get(c)) && Trim(oldNames.Get(c)) != Trim(newNames.Get(c))
    ensures
      var ensured := EnsuredTables(ts, EnsureEach(ts, newNames, now));
      var t1 := ensured.Get(c);
      var t2 := RenamedTables(ensured, records, oldNames, newNames, now).Get(c);
      var stillUsed := CountHolding(records, c, Trim(oldNames.Get(c)));
      |t2| == |t1| &&
      (exists k :: 0 <= k < |t1| && t1[k].name == Trim(newNames.Get(c)) && t1[k].active && t2[k] == t1[k]) &&
      forall j :: 0 <= j < |t1| ==>
        if t1[j].name == Trim(oldNames.Get(c)) && t1[j].active && stillUsed <= 1
        then t2[j] == t1[j].(active := false, updatedAt := now)
        else t2[j] == t1[j]
  {
    var e := EnsureEach(ts, newNames, now);
    EachCategory(ts, newNames, now, c);
    EnsuredTablesGet(ts, e, c);
    RenamedTablesGet(EnsuredTables(ts, e), records, oldNames, newNames, now, c);
    AllUniqueGet(ts, c);
    EnsureThenRename(ts.Get(c), CountHolding(records, c, Trim(oldNames.Get(c))), oldNames.Get(c), newNames.Get(c), now);
  }
}
