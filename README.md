# Feature registry: reference-data consistency, in Dafny

The application keeps a registry of product features. Each feature record in
the `overall` collection names its system, module, feature, client and source.
Five lookup collections hold those names, one table per category:
`system_names`, `modules`, `features`, `clients` and `sources`. Each lookup
row is `{id, name, is_active}`, and each table has unique indexes on `id` and
on `name`. The controller keeps records and lookup tables in step:

- adding a feature registers its names, minting ids as max + 1;
- editing a feature carries old names over to new ones;
- deleting features retires the lookup rows of names no record uses any more.

The read side covers several pieces:

- the synonym-expanding keyword search;
- the cascading dropdown data (the distinct values of one field, filtered by
  the others);
- the dropdown values of a lookup table;
- the page count.

Around them sit a small `Features` model, the main page's pagination, search
routing and flash messages, the file and pager helpers of the feature table,
and the client-side state machine that enables the five dropdowns of the add
form one level at a time.

The model is organised as follows:

- `Store.Database` is a class with the five lookup tables and the record
  store as fields. Its `Valid()` invariant includes the unique indexes.
  Its methods are the table primitives of `config.php`.
- `ReferenceSync`, `FeatureWrites`, `FeatureDeletes` and `FeatureEnabling`
  model the controller's state-changing operations as methods on a `Database`
  (and a `Files.Disk` for sample files). Each is proved equal to a table-level
  specification function (`RefTable.Ensure`, `RefTable.RenameReference`,
  `Deletion.Unretired`, ...), and the lemmas state the promised properties of
  those functions.
- `FeatureModel.Features` models the `Features` model class. Its calls on the
  reference models are recorded, and whether a call throws is a parameter.
- `Queries`, `CascadingEndpoint`, `IdTags`, `IndexPage` and `FeatureTable`
  are pure functions with lemmas.
- `CascadingDropdown.Dropdowns` keeps `selectionState` and one enabled flag
  per level in two arrays. Its methods are proved against the state
  functions beside it.

PHP semantics are written out:

- `empty()` treats "" and "0" as empty, so a name that trims to "0" is blank.
- `trim` strips " \t\n\r\0\x0B".
- `strtolower` lowers ASCII letters only.
- `(int)` casts with PHP's leading-whitespace, sign and saturation rules.
- `substr` accepts a negative length.
- PCRE's `$` accepts a trailing newline in `isValidObjectId`.

The clock, fresh ObjectIds, upload outcomes and `filter_var(...,
FILTER_VALIDATE_URL)` are parameters.

Several behaviours of the code are modelled as written, each with a lemma
that exhibits it:

- `updateFeature` ensures the new names before it renames old to new. The
  rename therefore finds the new name already active. It never renames a row
  in place; it only deactivates the old one, and it counts holders in the
  already-rewritten store with `<= 1`. A name still used by one other record
  is retired too (`FeatureWrites.UpdateRetiresInsteadOfRenaming`). Delete
  retires only at a count of 0, and it removes the row instead of
  deactivating it.
- The plural rule tries "es" before "s", so "merges" becomes "merg" and
  "issues" becomes "issu", missing their families. The "food" family does not
  contain "food".
- `enableFeature` looks a combination up with the raw arguments but stores
  them trimmed, so an argument with surrounding spaces can be enabled twice.
- A repeated deactivate or reactivate at the same instant answers false.
- A pending success flash message hides an error message set after it.
- In the dropdowns, re-selecting a higher level keeps the lower levels
  enabled while clearing their selections.
- Distinct dropdown values are sorted by the raw stored name and trimmed
  afterwards. They are strictly ascending only when the names carry no
  surrounding spaces (`Queries.DistinctValuesSorted`).

## Model

| member | source | states |
|---|---|---|
| Text.StripLeft | controllers/FeatureController.php:1521-1525 | only leading characters of the class are removed, and what remains does not start with one |
| Text.StripRight | controllers/FeatureController.php:1521-1525 | only trailing characters of the class are removed, and what remains does not end with one |
| Text.TrimShape | controllers/FeatureController.php:1524 | PHP `trim` gives a contiguous slice of its input with no PHP whitespace at either end |
| Text.TrimIdempotent | controllers/FeatureController.php:1524 | trimming twice is trimming once |
| Text.JsTrimIdempotent | js/cascading-dropdown.js:410 | JavaScript `trim` twice is `trim` once |
| Text.Lower | controllers/FeatureController.php:50 | `strtolower` keeps the length |
| Text.LowerIdempotent | controllers/FeatureController.php:50 | lowering leaves no ASCII capital, so lowering twice is lowering once |
| Text.TrimLower | controllers/FeatureController.php:50 | trimming and lowering commute |
| Text.ContainsAt | controllers/get_cascading_data.php:105 | the substring test holds exactly when the needle occurs at some offset of the text |
| Text.NatToString | index.php:68 | the decimal form of a natural number is made of digits, with no leading zero |
| Text.IntToString | Models/Feature.php:84 | PHP's string form of an integer is its digits, with a leading minus exactly for a negative number |
| Text.DigitsRoundTrip | index.php:68 | reading back the decimal digits of a natural number gives that number |
| Sorting.BelowTotal | controllers/FeatureController.php:356 | of two different strings one comes strictly before the other in code-point order |
| Sorting.BelowTransitive | controllers/FeatureController.php:356 | the string order is transitive |
| Sorting.InsertDistinct | controllers/FeatureController.php:349-356 | inserting into an ascending list of distinct values keeps it ascending and adds exactly the new value |
| Sorting.SortDistinct | controllers/FeatureController.php:349-360 | `distinct` followed by `sort` gives a strictly ascending list of exactly the input's values |
| Sorting.StrictlySortedUnique | controllers/FeatureController.php:349-360 | two strictly ascending lists with the same values are equal, so the answer is determined by the set of values |
| Sorting.Insert | controllers/FeatureController.php:1343 | inserting keeps an ascending list ascending and adds exactly one occurrence of the new name |
| Sorting.Sort | controllers/FeatureController.php:1343 | the names come out ascending, each as often as in the table |
| Categories.FieldCollectionRoundTrip | controllers/FeatureController.php:113 | `rtrim` of the letter s turns each collection name back into its field name, and that field name maps back to its category |
| Categories.CollectionNameInjective | config.php:103-111 | the five lookup collections have five different names |
| Categories.PositionOfEntry | config.php:381 | the categories are walked in the fixed order system, module, feature, client, source, each exactly once |
| Categories.CategoryOfField | controllers/FeatureController.php:1222 | a field name maps to the category of that field, and to none when no category has that field |
| IdTags.ParseIdTag | controllers/FeatureController.php:529-531 | a number is read exactly when `[a-z0-9]+_(\d+)` matches somewhere in the string, and the number saturates at PHP_INT_MAX |
| IdTags.GenerateId | controllers/FeatureController.php:1407-1417 | the tag is the first word, lower-cased and cut to `[a-z0-9]`, then `_`, then the id |
| IdTags.GenerateParseRoundTrip | controllers/FeatureController.php:1393-1466 | reading back a generated tag gives its id exactly when the first word keeps a tag character and the id is not negative |
| IdTags.FirstWord | controllers/FeatureController.php:1409 | `explode(' ', ...)[0]`: the prefix before the first space, which holds no space |
| IdTags.KeepTagChars | controllers/FeatureController.php:1413 | `preg_replace('/[^a-z0-9]/', '', ...)` keeps exactly the tag characters, in order |
| RefTable.FindFirst | controllers/FeatureController.php:1369 | `findOne` gives the first matching row, or none exactly when no row matches |
| RefTable.ActiveNameById | controllers/FeatureController.php:509-514 | the name of an active row with that id, and none exactly when no active row has it |
| RefTable.MaxId | controllers/FeatureController.php:1375 | the largest id of a non-empty table is the id of one of its rows and bounds them all |
| RefTable.NextId | controllers/FeatureController.php:1375-1376 | the next id exceeds every id, active or not; it is 1 for an empty table |
| RefTable.ActiveRows | config.php:148-151 | the active rows, in their order, and nothing else |
| RefTable.InsertOne | config.php:106-107 | an insert succeeds exactly when neither the name nor the id is taken, and then appends the row |
| RefTable.Apply | controllers/FeatureController.php:95-98 | a `$set` keeps the id, writes the fields it names and refreshes `updated_at` |
| RefTable.UpdateOne | config.php:217-224 | `updateOne` rewrites the first matching row in place, reports matched and modified, and refuses a duplicate name |
| RefTable.DeleteOne | controllers/FeatureController.php:1231 | `deleteOne` removes exactly the first matching row when there is one, and nothing otherwise |
| RefTable.DeleteInactive | config.php:387-388 | `deleteMany` keeps the active rows and counts the removed ones |
| RefTable.InsertPreservesIndexes | config.php:106-107 | a successful insert keeps the unique name and id indexes |
| RefTable.UpdatePreservesIndexes | config.php:106-107 | a successful update keeps the unique indexes |
| RefTable.DeletePreservesIndexes | config.php:106-107 | a delete keeps the unique indexes |
| RefTable.CleanupPreservesIndexes | config.php:387 | dropping the inactive rows keeps the unique indexes |
| RefTable.UniqueName | config.php:106 | under the name index, a name identifies one row |
| RefTable.FindFirstAppend | controllers/FeatureController.php:1369 | a lookup after an append finds the old match, or else the new row if it matches |
| RefTable.Ensure | controllers/FeatureController.php:1362-1387 | a blank value is skipped; otherwise the minted table is the old one plus one active row with the trimmed name |
| RefTable.EnsureSpec | controllers/FeatureController.php:1362-1387 | skipped exactly for a blank value; the active row's id when the trimmed name is there; otherwise one new row with an id above all others, or a collision when only an inactive row has the name |
| RefTable.EnsurePreservesIndexes | controllers/FeatureController.php:1378-1386 | ensuring a value keeps the unique indexes |
| RefTable.EnsureIdempotent | controllers/FeatureController.php:1369-1372 | a second call at any later instant changes nothing and gives the same answer |
| RefTable.RenameReference | controllers/FeatureController.php:68-139 | blank names answer false and change nothing; equal trimmed names answer true and change nothing; a false answer never changes the table |
| RefTable.RenameInPlace | controllers/FeatureController.php:87-100 | with no active row under the new name, the active old row is renamed in place and keeps its id, unless an inactive row holds the new name |
| RefTable.RenameMints | controllers/FeatureController.php:105-109 | with no active old row and the new name free, one row is minted for the new name |
| RefTable.RenameOntoExisting | controllers/FeatureController.php:110-131 | when an active row has the new name, every row but the active old one is untouched, and that one is deactivated exactly when the count is at most 1 |
| RefTable.RenamePreservesIndexes | controllers/FeatureController.php:68-139 | a rename keeps the unique indexes |
| RefTable.AddedId | config.php:170-205 | `addReferenceData` answers an id exactly when the row is found or minted, and false for a blank name or a collision |
| RefTable.RenameRow | config.php:210-229 | a blank new name, a missing old name, or a new name another row already holds answers false with the table unchanged; otherwise the first row with the old name, active or not, gets the trimmed new name and a fresh `updated_at`, and the answer is whether that changed the row |
| RefTable.SetActiveByName | config.php:234-269 | it writes `is_active` on the first row with that name and answers true only when that changed the row |
| RefTable.SetActiveTwiceSameInstant | config.php:244 | a repeat at the same instant changes nothing and answers false |
| RefTable.SetActiveTwiceLater | config.php:244 | a repeat at a later instant answers true, because `updated_at` changes |
| Records.CountHolding | controllers/FeatureController.php:1229 | `countDocuments([field => value])` is 0 exactly when no record holds the value in that field |
| Records.CountHoldingAppend | controllers/FeatureController.php:115 | counting over two runs of records adds their counts |
| Records.ParseObjectId | controllers/FeatureController.php:1202 | the ObjectId constructor accepts exactly 24 hex digits, in either case, and gives the lower-case form |
| Records.ParsedIsValid | controllers/FeatureController.php:1530-1532 | every id the constructor accepts passes `isValidObjectId` |
| Records.CanonicalRoundTrip | controllers/FeatureController.php:1202-1203 | a stored id parses back to itself |
| Records.ValidButUnparsable | controllers/FeatureController.php:1531 | the pattern's `$` lets 24 hex digits plus a final line feed through, and the constructor then rejects that id |
| Records.IndexOfOid | controllers/FeatureController.php:1203 | `findOne(['_id' => ...])` finds the record with that id, and none exactly when no record has it |
| Records.RemoveAt | controllers/FeatureController.php:1215 | removing one record keeps all the others, in order |
| Records.AppendPreservesOids | config.php:274-288 | appending a record with a new id keeps ids unique |
| Records.ReplacePreservesOids | controllers/FeatureController.php:1009-1189 | rewriting a record in place keeps ids unique |
| Records.RemovePreservesOids | controllers/FeatureController.php:1215 | removing a record keeps ids unique, keeps every other id and drops only its own |
| Deletion.UnretiredMembers | controllers/FeatureController.php:458-476 | a lookup row survives the cleanup exactly when it does not retire |
| Deletion.UnretiredNone | controllers/FeatureController.php:466 | a cleanup that retires nothing keeps the table |
| Deletion.UnretiredSame | controllers/FeatureController.php:459 | two value lists that retire the same rows leave the same table |
| Deletion.UnretiredCompose | controllers/FeatureController.php:462-475 | cleaning up one list of values, then another, is cleaning up both at once |
| Deletion.DeleteOneRetires | controllers/FeatureController.php:1229-1233 | under the name index, one `deleteOne` of an active, unreferenced name removes exactly the rows that value retires |
| Deletion.PurgePreservesIndexes | controllers/FeatureController.php:462-475 | the cleanup loop keeps the unique indexes |
| Deletion.PurgeSpec | controllers/FeatureController.php:462-475 | the cleanup loop's one-by-one deletes leave the filtered table and count the removed rows |
| Deletion.OnlyUnreferencedRetire | controllers/FeatureController.php:458-476 | a row goes only when it is active, named by a collected value, and no remaining record holds it; no active row named by such a value survives |
| Deletion.Dedup | controllers/FeatureController.php:459 | `array_unique` keeps each value once and keeps every value |
| Deletion.DedupRetiresSame | controllers/FeatureController.php:459 | removing duplicates does not change what the cleanup retires |
| Deletion.DeletedValuesMembers | controllers/FeatureController.php:444-455 | the collected values are exactly the non-empty values the removed records hold |
| Deletion.AllDeletedValues | controllers/FeatureController.php:442-455 | the collected values of every category |
| Deletion.ValidOids | controllers/FeatureController.php:387-397 | the kept ids are exactly those that pass the pattern and that the constructor accepts |
| Deletion.Selected | controllers/FeatureController.php:404-405 | `find` with `$in` gives exactly the stored records with one of the ids |
| Deletion.Kept | controllers/FeatureController.php:419 | `deleteMany` with `$in` keeps exactly the other records, and together with the selected ones accounts for the whole store |
| Deletion.KeptAll | controllers/FeatureController.php:421 | a `deleteMany` that matches nothing keeps the store |
| Deletion.KeptPreservesOids | controllers/FeatureController.php:419 | the records left keep unique ids |
| Deletion.FilesToDelete | controllers/FeatureController.php:408-416 | the files queued are exactly the non-empty, non-URL sample files that exist |
| Deletion.RetiredAfterDelete | controllers/FeatureController.php:1222-1234 | after a delete, a lookup row goes exactly when it is active, names a non-empty value of a removed record, and no remaining record holds that name |
| Deletion.TotalRowsSet | controllers/FeatureController.php:471 | replacing one lookup table changes the total row count by the difference |
| Store.ActiveNames | config.php:148-158 | the names of exactly the active rows |
| Store.DeleteById | config.php:274-288 | `deleteFeature` answers true exactly when the id parses and a record has it, and then removes just that record |
| Store.BulkDeleteAccounts | config.php:331-343 | every id is either counted as deleted or listed as an error, and the errors keep their input order |
| Store.BulkDeleteShrinks | config.php:334-340 | each successful id removes exactly one record |
| Store.BulkDeletePreservesOids | config.php:334-340 | the records left keep unique ids |
| Store.SetPreservesIndexes | config.php:103-111 | replacing one lookup table by one with unique indexes keeps all five tables' indexes |
| Store.Database.constructor | config.php:16-23 | a new store: empty lookup tables, no records, invariant established |
| Store.ActiveNamesDistinct | config.php:106-107 | under the unique name index no active name occurs twice |
| Store.SortDistinctStrict | config.php:149-152 | sorting names that do not repeat gives them strictly ascending, the same names |
| Store.Database.GetActiveReferenceData | config.php:145-165 | the names of the active rows sorted by name, exactly those that are not empty; the unique name index makes them strictly ascending |
| Store.Database.AddReferenceData | config.php:170-205 | the table after `Ensure` on the trimmed name, the id found or minted, or false; the indexes are kept |
| Store.Database.UpdateReferenceData | config.php:210-229 | the table and the answer are exactly those of `RenameRow` (rename of the first row with the old name unless the new name is blank or taken), only that table changes, and the indexes are kept |
| Store.Database.SetReferenceActive | config.php:234-269 | the table after `SetActiveByName`, and its answer; the indexes are kept |
| Store.Database.InsertRecord | controllers/FeatureController.php:989 | the record is appended to `overall`; the lookup tables are unchanged |
| Store.Database.ReplaceRecord | controllers/FeatureController.php:1163-1166 | the record at that position is rewritten under the same `_id` |
| Store.Database.RemoveRecord | controllers/FeatureController.php:1215 | the record at that position is removed |
| Store.Database.DeleteMany | controllers/FeatureController.php:419 | exactly the records with one of the ids are removed, and the count is their number |
| Store.Database.DeleteActiveRow | controllers/FeatureController.php:1232 | the lookup table after `deleteOne` of the active row with that name |
| Store.Database.DeleteFeature | config.php:274-288 | the store and answer of `DeleteById` |
| Store.Database.BulkDeleteFeatures | config.php:331-343 | the loop's store, count and error list are those of `BulkDelete`, and every id is accounted for |
| Store.Database.PurgeInactive | config.php:386-388 | the lookup table keeps just its active rows, and the count is the number removed |
| Store.Database.CleanupInactiveReferenceData | config.php:380-396 | every lookup table keeps just its active rows, and each count is the number removed from it |
| Files.Disk.constructor | controllers/FeatureController.php:1471-1519 | the upload directory holds the given files |
| Files.Disk.Store | controllers/FeatureController.php:1511 | a stored upload adds its path |
| Files.Disk.Unlink | controllers/FeatureController.php:1210-1211 | `file_exists` then `unlink` removes the path and answers whether there was a file |
| ReferenceSync.EnsureReferenceDataWithId | controllers/FeatureController.php:1362-1388 | the method does to the lookup table exactly what `Ensure` describes (skip a blank value, reuse the active row with the trimmed name, otherwise insert it with the next id or report the key collision), touching no other table and keeping the store's invariants |
| ReferenceSync.UpdateReferenceData | controllers/FeatureController.php:68-139 | the method does to the lookup table exactly what `RenameReference` describes, with the old value's use counted in `overall` at the time of the call |
| ReferenceSync.EnsureThenRename | controllers/FeatureController.php:1094-1100 | after the new value has been ensured, the rename of old to new always succeeds, never renames a row in place, and only deactivates the active rows of the old name when it is used at most once |
| ReferenceSync.IdValue | controllers/FeatureController.php:1088-1099 | the id stored in a record is null exactly when the ensure skipped a blank value or did not complete |
| ReferenceSync.EnsureRegisters | controllers/FeatureController.php:954-972 | after an ensure that completed, a non-blank value has an active row with its trimmed name and the returned id, and a blank value has a null id |
| ReferenceSync.GrownKeepsRegistered | controllers/FeatureController.php:985-986 | rows only appended to a table leave every name-to-id registration valid, so later ensures cannot invalidate the ids a record holds |
| ReferenceSync.BeforeCollision | controllers/FeatureController.php:954-958 | each category's outcome is either the ensure's or "no change", and with no collision all five outcomes stand |
| ReferenceSync.EachCategory | controllers/FeatureController.php:954-958 | per category, the combined ensure, table and id are those of the single `ensureReferenceDataWithId` call on that category |
| ReferenceSync.EnsureAll | controllers/FeatureController.php:954-958 | the five ensures run in the order system name, module, feature, client, source; ids come back exactly when none collided and equal the ensures' ids; the tables are those after the ensures up to the first collision |
| ReferenceSync.EnsureEachRegisters | controllers/FeatureController.php:954-972 | with no collision, every category's value is registered in the new tables under the id the record stores |
| ReferenceSync.EnsureEachGrows | controllers/FeatureController.php:954-958 | the ensures that ran, collision or not, only appended rows to the lookup tables |
| ReferenceSync.EnsuredTablesGet | controllers/FeatureController.php:954-958 | each category's new table is that category's single ensure applied to its old table |
| ReferenceSync.EnsureGrows | controllers/FeatureController.php:1362-1388 | one ensure only appends to its table |
| FeatureForms.UnderscoresToSpaces | controllers/FeatureController.php:902 | every underscore of the field name becomes a space, every other character stays, and the length is kept |
| FeatureForms.Ucfirst | controllers/FeatureController.php:902 | only the first character changes, and only a lower-case letter, which becomes its capital |
| FeatureForms.MissingErrorsSpec | controllers/FeatureController.php:900-904 | an error is reported under a key exactly when a field reported under that key is absent, "" or "0", and it carries that field's "Field '…' is required" message |
| FeatureForms.CollectMissing | controllers/FeatureController.php:1039-1045 | the required-field loop builds exactly the error map `MissingErrors` describes, for any list of fields |
| FeatureForms.PostedNames | controllers/FeatureController.php:1080-1084 | each category's name is the trimmed value posted under its `edit_`-prefixed key in the edit form, or its plain key otherwise, "" when absent |
| FeatureForms.Truthy | controllers/FeatureController.php:976-978 | a path is kept exactly when PHP does not consider it empty |
| FeatureForms.AddErrorsSpec | controllers/FeatureController.php:897-915 | `addFeature` passes validation exactly when all six required fields are non-empty and either a trimmed file URL or an upload is given |
| FeatureForms.AddSample | controllers/FeatureController.php:932-947 | an upload wins over a URL; a refused upload answers with its own error; a URL is kept only when it validates, else "Invalid URL provided"; with neither, no sample file |
| FeatureForms.UpdateErrorsId | controllers/FeatureController.php:1047-1053 | `updateFeature` passes validation only with an id that is present and not empty |
| FeatureForms.FormFileStep | controllers/FeatureController.php:1117-1160 | the edit form clears the file exactly when `delete_file` is "1"; an upload is used only when stored and a URL only when it validates and no upload was stored; a rejection is the upload's own error or "Invalid URL provided" |
| FeatureForms.FileStepRemovesOnlyOld | controllers/FeatureController.php:1124-1153 | the only file a step ever unlinks is the record's old non-empty sample file; replacing it never unlinks a URL; every other file on disk stays |
| FeatureWrites.EnsureAgain | controllers/FeatureController.php:985-986 | the repeated ensure of a name the first ensure already registered changes no table |
| FeatureWrites.AddValid | controllers/FeatureController.php:950-995 | after validation: the tables are those of the five ensures up to the first collision; with no collision exactly one record is appended, holding the trimmed names, the ids the ensures returned, the description and the sample file, and the new id is answered; a collision writes no record |
| FeatureWrites.AddFeature | controllers/FeatureController.php:895-1000 | validation errors and a refused or invalid sample file answer before anything is written to the store or the disk; otherwise the upload is kept on disk and the store changes as `AddValid` states |
| FeatureWrites.RenamedTables | controllers/FeatureController.php:1173-1177 | each category's table is that category's `updateReferenceData` outcome, counted in the given records |
| FeatureWrites.RenameAll | controllers/FeatureController.php:1170-1179 | the five renames change only the lookup tables, each as `updateReferenceData` describes, counting in `overall` at the time of the calls |
| FeatureWrites.ApplyFileStep | controllers/FeatureController.php:1124-1158 | the disk afterwards holds the upload moved in and no longer holds the old file the step removes, if it existed; nothing else changes |
| FeatureWrites.UpdateFound | controllers/FeatureController.php:1087-1181 | the ensures run first; a collision or a rejected file ends the request with only the ensures' rows written; otherwise the record at its position alone is rewritten with the new names, ids, description and file, the disk follows the file step, and then old names are renamed to new in the lookup tables |
| FeatureWrites.UpdateFeature | controllers/FeatureController.php:1009-1186 | validation errors, an id failing `isValidObjectId` ("Invalid feature ID"), one the ObjectId constructor rejects, and an unknown id ("Feature not found") answer with nothing written; a known id is updated as `UpdateFound` states |
| FeatureWrites.UpdateRetiresInsteadOfRenaming | controllers/FeatureController.php:1094-1100 | on an update that really changes a name, the lookup row of the new name is left active and untouched, no row is renamed in place, and the old name's active rows are deactivated exactly when at most one rewritten record still holds it |
| FeatureDeletes.PurgeValues | controllers/FeatureController.php:462-475 | the loop over one field's values removes from that lookup table exactly the rows `Purge` removes, counting the successful deletes, and changes no other table and no record |
| FeatureDeletes.RetireAll | controllers/FeatureController.php:457-476 | every lookup table loses exactly the active rows of the deleted names that no remaining record holds, the other tables stay, and the count of cleaned references equals the number of rows removed |
| FeatureDeletes.DeleteFeature | controllers/FeatureController.php:1191-1241 | a malformed or unknown id changes nothing and answers its error; a known id removes exactly that record and its non-empty sample file, and retires each of its non-empty names that no remaining record holds |
| FeatureDeletes.CollectOids | controllers/FeatureController.php:387-397 | the validation loop keeps, in order, exactly the ids that pass `isValidObjectId` and parse |
| FeatureDeletes.CollectFiles | controllers/FeatureController.php:408-416 | the file loop lists exactly the non-empty, non-URL sample files of the selected records that exist on disk |
| FeatureDeletes.UnlinkAll | controllers/FeatureController.php:426-435 | the unlink loop removes exactly the listed files from the disk and counts each distinct one once |
| FeatureDeletes.CollectDeletedValues | controllers/FeatureController.php:442-455 | the nested loop gathers, per field, every non-empty name of the removed records in their order |
| FeatureDeletes.BulkDeleteFeatures | controllers/FeatureController.php:372-502 | no usable id answers "No valid IDs provided" and no match "No features were deleted - they may not exist", both changing nothing; otherwise exactly the matching records are deleted, their existing local files unlinked, their unused names retired, and the counts and message answered agree with what changed |
| FeatureEnabling.SystemNameById | controllers/FeatureController.php:507-522 | a system name is found only for a numeric id, and it is the name of an active system row with that id |
| FeatureEnabling.NameByTag | controllers/FeatureController.php:527-574 | a client or source name is found only when the tag carries a number after an underscore, and it is the name of an active row with that number as id |
| FeatureEnabling.Elvis | controllers/FeatureController.php:179-181 | a found name that PHP does not consider empty is used, otherwise the fallback |
| FeatureEnabling.EnsureStep | controllers/FeatureController.php:205-210 | an ensure that collides leaves every table as it was |
| FeatureEnabling.EnableStep | controllers/FeatureController.php:144-222 | a request either stores nothing or appends exactly the one new record |
| FeatureEnabling.EnableFeature | controllers/FeatureController.php:144-222 | missing parameters and an already stored combination answer their errors with nothing written; otherwise the record is inserted, then the feature, client, source and (when found) system names are ensured in that order, a collision answering failure with the record kept; reply, tables and records are exactly those of `EnableStep` |
| FeatureEnabling.EnableTwiceRefused | controllers/FeatureController.php:154-164 | once a combination with trimmed arguments has been stored, enabling it again is refused as "already enabled" and changes nothing |
| FeatureEnabling.UntrimmedEnablesTwice | controllers/FeatureController.php:155-176 | for any feature name that trimming changes, with the other parameters present and no stored record for it, the first request stores a record and repeating it stores a second one: the duplicate test compares the name as given with the trimmed name stored |
| FeatureEnabling.EnableNext | controllers/FeatureController.php:313-320 | one turn of the bulk loop: the store changes exactly as `EnableStep` says for that name, which joins the successes when enabled and is otherwise recorded with its failure, and the identifiers left for later turns stay unused |
| FeatureEnabling.EnsureStepRegisters | controllers/FeatureController.php:205-210 | an ensure that succeeded leaves an active row with the trimmed value, and no other category's table changes |
| FeatureEnabling.EnabledIsRegistered | controllers/FeatureController.php:203-216 | after a successful enable, the feature name, the client name (or client id) and the source name (or source id) each have an active lookup row |
| FeatureEnabling.BulkEnableAccounts | controllers/FeatureController.php:310-323 | every requested name ends up among the successes or under the errors, and no other name does |
| FeatureEnabling.BulkEnableFeatures | controllers/FeatureController.php:310-323 | the loop enables each name in turn against the state the previous ones left, collecting the successes in order and each failure under its name, exactly as `BulkEnable` describes |
| Queries.Synonyms | controllers/FeatureController.php:14-47 | every key of the synonym dictionary has a non-empty family |
| Queries.StripPlural | controllers/FeatureController.php:52-59 | only one plural rule applies, removing at most two characters net, and the term changes exactly when it ends in "s" |
| Queries.ExpandSearchQuery | controllers/FeatureController.php:13-63 | the expansion always has at least one term |
| Queries.ExpandIncludesTerm | controllers/FeatureController.php:33 | the normalized term is among its own expansion for every term except "food", whose family omits the word itself |
| Queries.ExpandIgnoresCase | controllers/FeatureController.php:50 | expansion and normalization do not depend on the case of ASCII letters |
| Queries.PluralReachesFamily | controllers/FeatureController.php:50-62 | a padded, capitalised plural (" Errors") expands to the family of its singular key |
| Queries.MergesMissesFamily | controllers/FeatureController.php:55-56 | "merges" loses "es" and becomes "merg", which is no key, so it is searched alone instead of through the "merge" family the code comment promises |
| Queries.IssuesMissesFamily | controllers/FeatureController.php:55-56 | likewise "issues" becomes "issu" and misses the "issue" family |
| Queries.Matching | controllers/FeatureController.php:809-818 | the selected records are no more than the store holds |
| Queries.MatchingMembers | controllers/FeatureController.php:795-809 | a record is selected exactly when it is in the store and one of its six searched fields contains one of the terms, ignoring case |
| Queries.MatchingNone | controllers/FeatureController.php:809-818 | when no record matches any term, nothing is selected |
| Queries.MatchingSame | controllers/FeatureController.php:795-818 | two term lists matching the same records select the same records in the same order |
| Queries.Page | controllers/FeatureController.php:683-690 | with a positive limit the page holds the records from position `skip` on, at most `limit` of them and as many as remain; without a limit everything |
| Queries.PageMembers | controllers/FeatureController.php:683-690 | a page holds only records of the store |
| Queries.RecordOnItsPage | controllers/FeatureController.php:683-687 | record `i` is entry `i mod limit` of the page whose skip is `(i div limit) * limit` |
| Queries.NewestFirst | controllers/FeatureController.php:683 | the `created_at` descending order: the store read back to front, the newest record first |
| Queries.NewestFirstMembers | controllers/FeatureController.php:683 | sorting by date neither adds nor drops a record |
| Queries.SearchFeatures | controllers/FeatureController.php:732-780 | an empty keyword lists the store newest first, page by page; any other keyword gives only records of the store matching an expanded term or the trimmed keyword |
| Queries.SearchFallback | controllers/FeatureController.php:744-772 | without paging, the synonym results, newest first, are used exactly when some record matches an expanded term, and otherwise the plain search for the trimmed keyword |
| Queries.MatchesTermIgnoresCase | controllers/FeatureController.php:753 | a term matches the same records whatever the case of its ASCII letters |
| Queries.SearchIgnoresCase | controllers/FeatureController.php:732-780 | the search result does not depend on the case of the keyword |
| Queries.TargetValuesMembers | controllers/FeatureController.php:339-354 | a value is gathered exactly when it is non-blank and some record passing the non-empty filters holds it in the target field |
| Queries.CascadingData | controllers/FeatureController.php:329-367 | the answer is strictly ascending and holds exactly the non-blank target values of the records passing the non-empty filters |
| Queries.CascadingIgnoresEmptyFilters | controllers/FeatureController.php:339-343 | filters with empty values constrain nothing: dropping them leaves the answer unchanged |
| Queries.ActiveRowNames | controllers/FeatureController.php:1343 | exactly the names of the active rows |
| Queries.TrimmedNonEmpty | controllers/FeatureController.php:1346-1350 | exactly the trimmed forms of the non-empty names |
| Queries.DistinctValues | controllers/FeatureController.php:1320-1357 | an unknown field gives nothing, and no value is offered twice |
| Queries.DistinctValuesMembers | controllers/FeatureController.php:1328-1352 | the values offered are exactly the trimmed non-empty names of the field's active lookup rows |
| Queries.TrimmedNonEmptySorted | controllers/FeatureController.php:1343-1350 | already-trimmed sorted names stay sorted after the empty ones are dropped |
| Queries.DedupSorted | controllers/FeatureController.php:1352 | removing repeats from an ascending list leaves it strictly ascending |
| Queries.DistinctValuesSorted | controllers/FeatureController.php:1343-1352 | when the active names carry no surrounding spaces the values come out strictly ascending |
| Queries.TotalPages | controllers/FeatureController.php:1302-1315 | with a positive limit the page count is the ceiling of total over limit; otherwise 1 |
| Queries.RecordWithinTotalPages | controllers/FeatureController.php:1309-1310 | every record lies on a page no later than the last one |
| CascadingEndpoint.TargetOfTypeExact | controllers/get_cascading_data.php:29-97 | a `type` selects a field exactly when it is one of that field's case labels, so the groups share no label and nothing else is accepted |
| CascadingEndpoint.SiblingFilters | controllers/get_cascading_data.php:35-90 | the filters are exactly the request's fields other than the target, with their values |
| CascadingEndpoint.KeepContaining | controllers/get_cascading_data.php:103-108 | narrowing never adds items |
| CascadingEndpoint.KeepContainingMembers | controllers/get_cascading_data.php:104-107 | the kept items are exactly those containing `q` ignoring case, in their original order |
| CascadingEndpoint.KeepContainingSorted | controllers/get_cascading_data.php:103-108 | narrowing an ascending list keeps it ascending |
| CascadingEndpoint.CascadingResponse | controllers/get_cascading_data.php:22-110 | an unknown `type` answers "Invalid type parameter", any other answers a strictly ascending list |
| CascadingEndpoint.ResponseMembers | controllers/get_cascading_data.php:22-110 | a value is offered exactly when it is a non-blank target value of a record agreeing with every non-empty sibling parameter, and contains `q` when `q` is given |
| FeatureModel.FirstMissing | Models/Feature.php:82-87 | the reported field is one of the list and is missing; nothing is reported exactly when every field is set and not blank |
| FeatureModel.FirstMissingIsFirst | Models/Feature.php:83-86 | every field before the reported one is present, so the exception names the first missing field |
| FeatureModel.FieldListsDisjoint | Models/Feature.php:82-113 | no required field is also a file field, so the file fields cannot overwrite a cleaned value |
| FeatureModel.CleanDataKeys | Models/Feature.php:90-113 | the cleaned document holds the six required fields and exactly the file fields that are set |
| FeatureModel.CleanDataRequired | Models/Feature.php:90-96 | after validation each required value is stored trimmed and is not blank |
| FeatureModel.CleanDataFiles | Models/Feature.php:102-113 | a file field that is set is copied as given |
| FeatureModel.Whitelisted | Models/Feature.php:144-151 | exactly the allowed fields that are set are kept, strings trimmed and other values unchanged |
| FeatureModel.ReferenceCalls | Models/Feature.php:317-344 | at most four reference-model calls are planned |
| FeatureModel.PlannedCalls | Models/Feature.php:321-339 | at most one call per field is planned |
| FeatureModel.ReferenceCallsSkipEmpty | Models/Feature.php:321-339 | every planned call carries a non-empty value |
| FeatureModel.AttemptedPrefix | Models/Feature.php:319-343 | the calls made are a prefix of the planned ones; all but the last returned, and when some were skipped the last one threw |
| FeatureModel.DistinctOfBound | Models/Feature.php:244-254 | no field has more distinct values than there are documents |
| FeatureModel.Statistics | Models/Feature.php:236-275 | an empty collection or a failing aggregation gives all zeros; otherwise the total is the number of documents and no distinct count exceeds it |
| FeatureModel.FindDoc | Models/Feature.php:158-161 | the index found is that of the first document with the id, and none means no document has it |
| FeatureModel.AttemptedPlanned | Models/Feature.php:321-339 | an empty field makes no call, a non-empty one makes its call and, when it throws, ends the block |
| FeatureModel.Features.constructor | Models/Feature.php:79-132 | the model starts on the given `features` and `overall` documents with no reference call made |
| FeatureModel.Features.CheckRequired | Models/Feature.php:83-87 | for any list of fields, the validation loop stops at the first one unset or blank after trimming, exactly the one `FirstMissing` names, and answers None when there is none |
| FeatureModel.Features.InsertFeature | Models/Feature.php:116-131 | after validation: the reference models are called up to the first that throws, the cleaned document is appended to `features`, a copy to `overall` unless that insert fails, and the new identifier is returned |
| FeatureModel.Features.AddToReferenceCollections | Models/Feature.php:317-344 | only the record of reference calls changes, and it grows by the calls made up to the first that throws |
| FeatureModel.Features.CallReferenceModels | Models/Feature.php:319-343 | the four guarded calls in one `try` make exactly the attempted prefix of the planned calls |
| FeatureModel.Features.CallIfPresent | Models/Feature.php:321-323 | one guarded call is made exactly when the value is not empty, and it stops the block exactly when it throws |
| FeatureModel.Features.AddFeature | Models/Feature.php:79-132 | a missing required field throws "Field '…' is required" with nothing written; otherwise the reference models are called, the cleaned document is appended to `features`, and a copy to `overall` unless that insert fails |
| FeatureModel.Features.UpdateFeature | Models/Feature.php:141-162 | the reference models are called with the whitelisted values first; a malformed id is rejected with `features` unchanged; an unknown id matches nothing; otherwise only the first document with the id gets the whitelisted fields set over its own |
| FeatureModel.UpdateKeepsOtherFields | Models/Feature.php:158-161 | an update sets the whitelisted values and leaves every other field of the document as it was |
| IndexPage.FlashOf | index.php:22-30 | a success message wins over an error message; the type is "success", "danger" or "" exactly according to which keys the session holds, and the message is that key's value, or "" when neither is held |
| IndexPage.Session.constructor | index.php:21-35 | the session starts with the given entries |
| IndexPage.Session.Set | index.php:32-34 | the entry of that type now holds the message and no other entry changes |
| IndexPage.Session.Get | index.php:22-30 | the flash reported is the one `FlashOf` describes for the session before the read, and both message keys are removed while every other entry stays |
| IndexPage.SetSuccessThenGet | index.php:32-34 | a success message that was set is the one read back, whatever else the session holds |
| IndexPage.SetErrorThenGet | index.php:22-34 | an error message that was set is read back as "danger", unless a success message is still pending, which wins |
| IndexPage.GetClears | index.php:27 | after a read the next read reports nothing |
| IndexPage.SkipNumericSpace | index.php:68 | the leading whitespace is dropped and what remains starts with no such whitespace |
| IndexPage.IntCast | index.php:68 | the cast of any string lies within the PHP integer range |
| IndexPage.IntCastOfDecimal | index.php:68 | casting the decimal digits of an integer in range gives it back |
| IndexPage.PaginationParams | index.php:66-72 | the limit is 10, the page is the cast parameter when above 1 and otherwise 1, and the skip is the number of records on the pages before it, never negative |
| IndexPage.PaginationOfPageNumber | index.php:66-72 | `?page=n` selects page n, and no parameter selects page 1 with skip 0 |
| IndexPage.GetFeatures | index.php:77-93 | a search that is not empty after trimming gives the controller's search results, 1 page, and echoes the trimmed search; anything else lists the store newest first, page by page, with the controller's page count and an empty search |
| IndexPage.BlankSearchIsListing | index.php:78-80 | a search that trims to nothing, or to PHP's empty "0", is the plain listing, as if no search was given |
| IndexPage.SearchListingFromStore | index.php:77-93 | whatever the search, the page shows only records of the store |
| IndexPage.EveryRecordListed | index.php:66-93 | without a search every record appears on exactly the page its distance from the newest record gives it, and that page is within the page count reported |
| IndexPage.InsertedComesFirst | index.php:66-93 | a record just inserted heads the first page of the listing |
| FeatureTable.FileIconsByKind | views/feature_table.php:15-27 | the word-processor, archive and spreadsheet pairs share an icon; the folder is shown exactly for extensions not in the table, and the lookup is case-sensitive |
| FeatureTable.Prefix | views/feature_table.php:31 | `substr` from 0 keeps a prefix of the requested length, a negative length dropping that many characters from the end |
| FeatureTable.TruncateFilename | views/feature_table.php:30-32 | a name no longer than the limit is returned unchanged; a longer one ends in "..." and is at least as long as the limit |
| FeatureTable.TruncateFilenameLength | views/feature_table.php:30-32 | for a limit of at least 3, a longer name becomes exactly as long as the limit: its first limit − 3 characters followed by "..." |
| FeatureTable.TruncateFilenameIdempotent | views/feature_table.php:30-32 | shortening twice is shortening once |
| FeatureTable.Range | views/feature_table.php:325 | the window lists every page from start to end once, in order |
| FeatureTable.PagerFor | views/feature_table.php:289 | the pager is shown exactly when there is more than one page |
| FeatureTable.PagerBounds | views/feature_table.php:299-348 | for a current page within range, the window holds it and at most five pages, all within range; previous and next stay within range, are disabled exactly on the first and last page, and otherwise point to the neighbouring pages |
| FeatureTable.PagerLinks | views/feature_table.php:309-343 | the page links run from 1 to the last page in strictly increasing order; the first-page link and last-page link appear exactly when the window does not reach them, with an ellipsis exactly where pages are skipped |
| CascadingDropdown.IndexOf | js/cascading-dropdown.js:37 | a selector's level is its position in the hierarchy, and -1 means it is not in the hierarchy |
| CascadingDropdown.IndexOfLevel | js/cascading-dropdown.js:37 | the five selectors are distinct, so each one's level is its position |
| CascadingDropdown.PreviousFieldNames | js/cascading-dropdown.js:311-325 | every level after the first names the label of the level right before it; the first level and unknown selectors give "" |
| CascadingDropdown.ChosenEnablesOnlyNext | js/cascading-dropdown.js:410-420 | a non-blank value at a level enables the next level, if there is one, and changes no selection and no other level |
| CascadingDropdown.BlankDisablesLater | js/cascading-dropdown.js:421-429 | a blank value at a level disables every later level and clears its selection, keeping the earlier levels as they were |
| CascadingDropdown.ClearDependentsKeepsEarlier | js/cascading-dropdown.js:432-442 | clearing the dependents of a level nulls the selection of every later level, keeps the others and enables or disables nothing |
| CascadingDropdown.SelectedOpensNext | js/cascading-dropdown.js:376-387 | choosing an existing option records it, opens the next level, drops every later selection, and leaves the earlier levels as they were |
| CascadingDropdown.CoherentSteps | js/cascading-dropdown.js:197-442 | a state where no disabled level holds a selection stays so after the start-up, after progressive enabling, after clearing dependents, and after a choice in an enabled dropdown |
| CascadingDropdown.ReselectKeepsLowerLevelsEnabled | js/cascading-dropdown.js:378-381 | changing the top level keeps the lower levels enabled while dropping their selections, since only a blank value disables levels |
| CascadingDropdown.Dropdowns.State | js/cascading-dropdown.js:40-46 | the snapshot has one selection and one enabled flag per level |
| CascadingDropdown.Dropdowns.constructor | js/cascading-dropdown.js:29-46 | the script starts with every selection null and the dropdowns enabled as the page renders them |
| CascadingDropdown.Dropdowns.EnableDropdown | js/cascading-dropdown.js:209-230 | only that level's enabled flag changes, to enabled |
| CascadingDropdown.Dropdowns.DisableDropdown | js/cascading-dropdown.js:233-277 | only that level changes: it is disabled and its selection nulled |
| CascadingDropdown.Dropdowns.InitializeDropdownStates | js/cascading-dropdown.js:197-205 | afterwards only the first level is enabled, and every other level is disabled with its selection nulled |
| CascadingDropdown.Dropdowns.HandleProgressiveEnabling | js/cascading-dropdown.js:406-430 | the new state is exactly `ProgressiveEnabling` of the old one for the changed level |
| CascadingDropdown.Dropdowns.UpdateDependentDropdowns | js/cascading-dropdown.js:432-442 | the new state is exactly `ClearDependents` of the old one for the changed level |
| CascadingDropdown.Dropdowns.OnSelect | js/cascading-dropdown.js:342-388 | a new tag, or an existing option with a non-blank id, is recorded and then enabling and clearing follow; any other choice changes nothing |
| CascadingDropdown.ProcessApiResults | js/cascading-dropdown.js:841-852 | a missing or failed reply gives no options; otherwise one option per value of the reply |
| CascadingDropdown.ApiResultsAreValues | js/cascading-dropdown.js:846-850 | the options are the reply's values in order, each its own id, and none is a new tag |
| CascadingDropdown.DropdownOffersEndpointValues | js/cascading-dropdown.js:841-852 | a dropdown offers exactly the values the cascading endpoint answered, and nothing for an invalid type |
| CascadingDropdown.ProcessResultsOffersTerm | js/cascading-dropdown.js:528-548 | every option of the reply remains, in order, at the end; a non-blank trimmed term is offered afterwards; the only new tag is that term, in front, added exactly when no option matched it ignoring case |

## Left out

- MongoDB driver and connection: the `Database` singleton, the creation of the indexes, the "Database not available" / "collection not available" branches and the driver's exception texts are not modelled. A driver exception is a `DriverError` / `Collision` outcome without its message, and the unique indexes are an invariant of `Store.Database.Valid`.
- Concurrency: the read-max-then-insert race of `ensureReferenceDataWithId` and `addReferenceData` cannot arise in this sequential model; it is assumed away.
- Timestamps: `created_at`, `updated_at` and `enabled_at` are not stored, except a lookup row's `updatedAt`, which is the `now` parameter. The store keeps records in insertion order, and each `created_at` is taken to be the time of its insert on a clock that does not go back; the `created_at` descending sort is therefore the store read back to front (`Queries.NewestFirst`). Records inserted within the same clock tick are ordered newest first too, where MongoDB leaves their order open.
- Regular expressions: `MongoDB\BSON\Regex` with a user pattern is read as ASCII case-insensitive substring search. Regex metacharacters in a term are not interpreted. The `$text` search and its score sort are not modelled.
- `html_entity_decode` in `sanitizeString` is the identity after `trim`. `htmlspecialchars` and `highlightSearchTerm` are not modelled.
- `convertToDisplayFormat`, `getFeatureById`, `getSearchCount`, `disableFeature`, `isFeatureEnabled` and `getEnabledFeatures` are not part of this model. Neither are the listing filters of `getFeatures`, nor the read-only helpers of `Models/Feature.php` other than `getStatistics`. Only the unfiltered listing is modelled.
- The reference models `SystemName`, `Module`, `Client` and `Source` are not part of this model. Their calls are recorded as `FeatureModel.RefCall`s, and whether one throws is a parameter.
- FeatureModel.Statistics: the aggregation pipeline is read as a count of documents and of distinct field values. Only its zero defaults and bounds are stated.
- FeatureModel.Features.UpdateFeature: the `updated_at` field the source always sets is not modelled, nor is any failure of the `features` update other than a malformed id.
- FeatureModel.Features.AddFeature: a failure of the `features` `insertOne` (Models/Feature.php:118), whose exception propagates to the caller, is not modelled; the insert always succeeds.
- The `config` field of `enableFeature`'s additional data is not stored in the model.
- Files: `handleFileUpload` is modelled by its outcome (stored at a path, refused with a message, or no file); its checks and `move_uploaded_file` are not. `filter_var(..., FILTER_VALIDATE_URL)` is an uninterpreted predicate `isUrl`. `file_exists` and `unlink` act on a set of paths, and an unlink always succeeds.
- HTTP, session and redirect plumbing are not modelled: the POST dispatcher `handlePostRequest` (index.php:40-61, 103-126), the reads of `$_GET` and `$_SESSION` at the top of the page, `getBasePath` and the JSON headers of the endpoint. So is the dispatcher's "success" flash after a controller answer that reports failure.
- Other entry points are not part of this model: `api/features.php`, `search.php`, `delete.php`, `migrate_to_overall.php`, `controllers/fetch_options.php`, `controllers/get_distinct_values.php`, `controllers/get_system_names.php` and `views/get_edit_modal.php`.
- UI: templates, jQuery, Select2, DOM state and `setTimeout` are not modelled. The 50 ms delay before a level is enabled is modelled as immediate, and a missing DOM element is not considered. `createTag` and the restore of old form values at start-up are not modelled either.
- Text.Lower: JavaScript's `toLowerCase` (the new-tag comparison) lowers all of Unicode; the model lowers ASCII letters only, as PHP 8's `strtolower` does.
- FeatureTable.TruncateFilename: the length is counted in characters, while PHP's `strlen` and `substr` count bytes, so a name with multi-byte characters is shortened differently.
- IndexPage.IntCast: exponent and fractional forms ("1e3", "2.5") and a non-string `page` parameter are not modelled. The float that `(page - 1) * 10` becomes beyond the integer range is not modelled either.
- Sorting.SortDistinct: it orders by code point, like MongoDB's string sort. The PHP `sort()` it stands for at controllers/FeatureController.php:356 compares two numeric strings as numbers. So for "9" and "10" the source answers ["9", "10"] and the model answers ["10", "9"]. PHP's mixed numeric and non-numeric comparison is not modelled.
- Queries.CascadingData: its "strictly ascending" is the code-point order of `Sorting.SortDistinct`, not PHP's `sort()` order, for the same reason; the values it holds are exact.
- CascadingEndpoint.CascadingResponse: the list it answers is ordered by code point, not by PHP's `sort()` of numeric strings, because it is built on `Queries.CascadingData`; the values it holds are exact.
