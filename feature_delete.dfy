// `deleteFeature` (controllers/FeatureController.php:1191-1241) and the
// controller's `bulkDeleteFeatures` (controllers/FeatureController.php:372-502):
// remove records and their local sample files, then retire the lookup rows of
// names no remaining record holds. `file_exists` / `unlink` act on the `Disk`;
// `filter_var(..., FILTER_VALIDATE_URL)` is the predicate `isUrl`.
module FeatureDeletes {
  import opened Wrappers
  import opened Text
  import opened Categories
  import opened RefTable
  import opened Records
  import opened Store
  import opened Files
  import opened FeatureForms
  import opened Deletion

  const NoValidIds: string := "No valid IDs provided"
  const NothingDeleted: string := "No features were deleted - they may not exist"

  /**
   * The reference cleanup for one collection: for each value in turn, when
   * `countDocuments([field => value])` is 0, `deleteOne` its active row.
   */
  method PurgeValues(db: Database, c: Category, values: seq<string>) returns (cleaned: nat)
    requires db.Valid()
    modifies db
    ensures db.Valid() && db.overall == old(db.overall)
    ensures var r := Purge(old(db.tables.Get(c)), db.overall, c, values);
      db.tables == old(db.tables).Set(c, r.0) && cleaned == r.1
  {
    cleaned := 0;
    var i := 0;
    old(db.tables).SetGet(c);
    while i < |values|
      invariant 0 <= i <= |values|
      invariant db.Valid() && db.overall == old(db.overall)
      invariant var r := Purge(old(db.tables.Get(c)), db.overall, c, values[..i]);
        db.tables == old(db.tables).Set(c, r.0) && cleaned == r.1
    {
      var value := values[i];
      assert values[..i + 1][..i] == values[..i];
      var stillUsed := CountHolding(db.overall, c, value);
      if stillUsed == 0 {
        var deleted := db.DeleteActiveRow(c, value);
        if deleted {
          cleaned := cleaned + 1;
        }
      }
      i := i + 1;
    }
    assert values[..i] == values;
  }

  /**
   * The cleanup over the five collections, each with its values made distinct
   * first. Every table loses exactly the rows `Unretired` drops, and `cleaned`
   * counts them.
   */
  method RetireAll(db: Database, values: PerCategory<seq<string>>) returns (cleaned: nat)
    requires db.Valid()
    modifies db
    ensures db.Valid() && db.overall == old(db.overall)
    ensures forall c :: db.tables.Get(c) == Unretired(old(db.tables.Get(c)), db.overall, c, values.Get(c))
    ensures cleaned + TotalRows(db.tables) == TotalRows(old(db.tables))
  {
    cleaned := 0;
    var k := 0;
    while k < |AllCategories|
      invariant 0 <= k <= |AllCategories|
      invariant db.Valid() && db.overall == old(db.overall)
      invariant forall c :: Position(c) < k ==> db.tables.Get(c) == Unretired(old(db.tables.Get(c)), db.overall, c, values.Get(c))
      invariant forall c :: Position(c) >= k ==> db.tables.Get(c) == old(db.tables.Get(c))
      invariant cleaned + TotalRows(db.tables) == TotalRows(old(db.tables))
    {
      var c := AllCategories[k];
      PositionOfEntry(k);
      ghost var before := db.tables;
      AllUniqueGet(before, c);
      PurgeSpec(before.Get(c), db.overall, c, Dedup(values.Get(c)));
      DedupRetiresSame(before.Get(c), db.overall, c, values.Get(c));
      var n := PurgeValues(db, c, Dedup(values.Get(c)));
      TotalRowsSet(before, c, db.tables.Get(c));
      cleaned := cleaned + n;
      k := k + 1;
    }
  }

  /** The sample file `deleteFeature` unlinks: a non-empty one, when it exists on disk. */
  function SampleOf(rec: Record): set<string> {
    if rec.sampleFile.Some? && !IsEmpty(rec.sampleFile.value) then {rec.sampleFile.value} else {}
  }

  /**
   * `deleteFeature`. A malformed id (one that fails `isValidObjectId`, or that
   * passes it and the ObjectId constructor then rejects) and an unknown id
   * change nothing. Otherwise the record's file is unlinked, the record
   * removed, and each of its non-empty names that no remaining record holds
   * loses its active lookup row.
   */
  method DeleteFeature(db: Database, disk: Disk, id: string) returns (reply: Reply)
    requires db.Valid()
    modifies db, disk
    ensures db.Valid()
    ensures !IsValidObjectId(id) || ParseObjectId(id).None? || !HasOid(old(db.overall), ParseObjectId(id).value) ==>
      reply == (if !IsValidObjectId(id) then General(InvalidFeatureId)
                else if ParseObjectId(id).None? then DriverError
                else General(FeatureNotFound)) &&
      db.tables == old(db.tables) && db.overall == old(db.overall) && disk.files == old(disk.files)
    ensures ParseObjectId(id).Some? && HasOid(old(db.overall), ParseObjectId(id).value) ==>
      var i := IndexOfOid(old(db.overall), ParseObjectId(id).value).value;
      var rec := old(db.overall)[i];
      reply == Done && db.overall == RemoveAt(old(db.overall), i) &&
      disk.files == old(disk.files) - SampleOf(rec) &&
      forall c :: db.tables.Get(c) == Unretired(old(db.tables.Get(c)), db.overall, c, DeletedValues([rec], c))
  {
    if !IsValidObjectId(id) {
      return General(InvalidFeatureId);
    }
    var oid := ParseObjectId(id);
    if oid.None? {
      return DriverError;
    }
    var found := IndexOfOid(db.overall, oid.value);
    if found.None? {
      return General(FeatureNotFound);
    }
    var rec := db.overall[found.value];
    if rec.sampleFile.Some? && !IsEmpty(rec.sampleFile.value) && rec.sampleFile.value in disk.files {
      var _ := disk.Unlink(rec.sampleFile.value);
    }
    db.RemoveRecord(found.value);
    var _ := RetireAll(db, AllDeletedValues([rec]));
    reply := Done;
  }

  /** What the controller's `bulkDeleteFeatures` answers: the `error` form, or the counts and message. */
  datatype BulkReply =
    | BulkFailed(error: string)
    | BulkDone(deleted: nat, filesDeleted: nat, cleaned: nat, message: string)

  /** The `foreach ($ids ...)` validation loop. */
  method CollectOids(ids: seq<string>) returns (oids: seq<string>)
    ensures oids == ValidOids(ids)
  {
    oids := [];
    var i := 0;
    while i < |ids|
      invariant 0 <= i <= |ids|
      invariant oids == ValidOids(ids[..i])
    {
      var id := ids[i];
      assert ids[..i + 1][..i] == ids[..i];
      if IsValidObjectId(id) {
        var parsed := ParseObjectId(id);
        if parsed.Some? {
          oids := oids + [parsed.value];
        }
      }
      i := i + 1;
    }
    assert ids[..i] == ids;
  }

  /** The `foreach ($featuresToDelete ...)` loop that lists the local files to unlink. */
  method CollectFiles(records: seq<Record>, isUrl: string -> bool, files: set<string>) returns (paths: seq<string>)
    ensures paths == FilesToDelete(records, isUrl, files)
  {
    paths := [];
    var i := 0;
    while i < |records|
      invariant 0 <= i <= |records|
      invariant paths == FilesToDelete(records[..i], isUrl, files)
    {
      assert records[..i + 1][..i] == records[..i];
      var sample := records[i].sampleFile;
      if sample.Some? && !IsEmpty(sample.value) && !isUrl(sample.value) && sample.value in files {
        paths := paths + [sample.value];
      }
      i := i + 1;
    }
    assert records[..i] == records;
  }

  /** The unlink loop: each listed file that still exists is removed and counted once. */
  method UnlinkAll(disk: Disk, paths: seq<string>) returns (removed: nat)
    requires forall p :: p in paths ==> p in disk.files
    modifies disk
    ensures disk.files == old(disk.files) - PathSet(paths)
    ensures removed == |PathSet(paths)|
  {
    removed := 0;
    var i := 0;
    while i < |paths|
      invariant 0 <= i <= |paths|
      invariant disk.files == old(disk.files) - PathSet(paths[..i])
      invariant removed == |PathSet(paths[..i])|
    {
      var p := paths[i];
      assert PathSet(paths[..i + 1]) == PathSet(paths[..i]) + {p} by {
        assert paths[..i + 1] == paths[..i] + [p];
      }
      if p in disk.files {
        ghost var seen := PathSet(paths[..i]);
        assert p !in seen;
        assert |seen + {p}| == |seen| + 1;
        var _ := disk.Unlink(p);
        removed := removed + 1;
      } else {
        assert p in PathSet(paths[..i]);
        assert PathSet(paths[..i]) + {p} == PathSet(paths[..i]);
      }
      i := i + 1;
    }
    assert paths[..i] == paths;
  }

  /** The nested loop that gathers `$deletedValues`, field by field for each removed record. */
  method CollectDeletedValues(records: seq<Record>) returns (values: PerCategory<seq<string>>)
    ensures values == AllDeletedValues(records)
  {
    values := Uniform([]);
    var i := 0;
    while i < |records|
      invariant 0 <= i <= |records|
      invariant forall c :: values.Get(c) == DeletedValues(records[..i], c)
    {
      assert records[..i + 1][..i] == records[..i];
      var k := 0;
      while k < |AllCategories|
        invariant 0 <= k <= |AllCategories|
        invariant forall c :: Position(c) < k ==> values.Get(c) == DeletedValues(records[..i + 1], c)
        invariant forall c :: Position(c) >= k ==> values.Get(c) == DeletedValues(records[..i], c)
      {
        var c := AllCategories[k];
        PositionOfEntry(k);
        var value := records[i].names.Get(c);
        if !IsEmpty(value) {
          values := values.Set(c, values.Get(c) + [value]);
        }
        k := k + 1;
      }
      i := i + 1;
    }
    assert records[..i] == records;
  }

  /**
   * The controller's `bulkDeleteFeatures`. When no id is usable, or none
   * matches a record, nothing changes. Otherwise the selected records go in
   * one `deleteMany`, their existing local files are unlinked, and the
   * lookup rows of their names that no remaining record holds are retired.
   */
  method BulkDeleteFeatures(db: Database, disk: Disk, ids: seq<string>, isUrl: string -> bool) returns (reply: BulkReply)
    requires db.Valid()
    modifies db, disk
    ensures db.Valid()
    ensures var oids := ValidOids(ids);
      oids == [] || Selected(old(db.overall), oids) == [] ==>
        reply == BulkFailed(if oids == [] then NoValidIds else NothingDeleted) &&
        db.tables == old(db.tables) && db.overall == old(db.overall) && disk.files == old(disk.files)
    ensures var oids := ValidOids(ids);
      var selected := Selected(old(db.overall), oids);
      var files := FilesToDelete(selected, isUrl, old(disk.files));
      oids != [] && selected != [] ==>
        reply.BulkDone? && reply.deleted == |selected| && reply.filesDeleted == |PathSet(files)| &&
        reply.message == BulkMessage(reply.deleted, reply.filesDeleted, reply.cleaned) &&
        db.overall == Kept(old(db.overall), oids) &&
        disk.files == old(disk.files) - PathSet(files) &&
        (forall c :: db.tables.Get(c) == Unretired(old(db.tables.Get(c)), db.overall, c, DeletedValues(selected, c))) &&
        reply.cleaned + TotalRows(db.tables) == TotalRows(old(db.tables))
  {
    if ids == [] {
      return BulkFailed(NoValidIds);
    }
    var oids := CollectOids(ids);
    if oids == [] {
      return BulkFailed(NoValidIds);
    }
    var selected := Selected(db.overall, oids);
    var files := CollectFiles(selected, isUrl, disk.files);
    var deleted := db.DeleteMany(oids);
    if deleted == 0 {
      KeptAll(old(db.overall), oids);
      return BulkFailed(NothingDeleted);
    }
    var filesDeleted := UnlinkAll(disk, files);
    var values := CollectDeletedValues(selected);
    var cleaned := RetireAll(db, values);
    reply := BulkDone(deleted, filesDeleted, cleaned, BulkMessage(deleted, filesDeleted, cleaned));
  }
}
