// What `addFeature` and `updateFeature` read from a request before touching
// the store (controllers/FeatureController.php:895-1051): the required-field
// check and its error texts, the trimmed names, and the choice of sample file.
// Also the shapes of the answers the controller returns.
module FeatureForms {
  import opened Wrappers
  import opened Text
  import opened Categories
  import opened Files

  /** The posted form fields, by name. */
  type Post = map<string, string>

  /**
   * The controller's answers:
   * - `Done`: `['success' => true]`;
   * - `Added(id)`: `['success' => true, 'id' => ...]`;
   * - `Invalid(errors)`: `['success' => false, 'errors' => ...]`, where a caught
   *   exception of the controller's own is reported under `general`;
   * - `DriverError`: an exception raised by the database driver (a duplicate
   *   key, an unparsable ObjectId), reported with the driver's text, which is
   *   not modelled.
   */
  datatype Reply =
    | Done
    | Added(id: string)
    | Invalid(errors: map<string, string>)
    | DriverError

  const InvalidFeatureId: string := "Invalid feature ID"
  const FeatureNotFound: string := "Feature not found"

  /** `throw new Exception($message)` inside the controller, as caught and returned. */
  function General(message: string): Reply {
    Invalid(map["general" := message])
  }

  /** `empty($postData[$key])`: absent, "" or "0". A value of spaces is not empty. */
  predicate Missing(post: Post, key: string) {
    key !in post || IsEmpty(post[key])
  }

  /** `sanitizeString($postData[$key])`: the trimmed value, "" when absent. */
  function Read(post: Post, key: string): string {
    if key in post then Trim(post[key]) else ""
  }

  /** `str_replace('_', ' ', $s)`. */
  function UnderscoresToSpaces(s: string): (r: string)
    ensures |r| == |s|
    ensures forall i :: 0 <= i < |s| ==> r[i] == (if s[i] == '_' then ' ' else s[i])
  {
    if s == [] then [] else [if s[0] == '_' then ' ' else s[0]] + UnderscoresToSpaces(s[1..])
  }

  /** `ucfirst`: the first character upper-cased (ASCII letters only). */
  function Ucfirst(s: string): (r: string)
    ensures |r| == |s|
    ensures s != [] ==> r[1..] == s[1..] && r[0] == (if 'a' <= s[0] <= 'z' then (s[0] as int - 32) as char else s[0])
  {
    if s != [] && 'a' <= s[0] <= 'z' then [(s[0] as int - 32) as char] + s[1..] else s
  }

  /** "Field 'System name' is required" and its siblings. */
  function RequiredMessage(field: string): string {
    "Field '" + Ucfirst(UnderscoresToSpaces(field)) + "' is required"
  }

  /** A required field: the key it is posted under and the key its error is reported under. */
  datatype Required = Required(postKey: string, errorKey: string)

  /** The error map the required-field loop builds. */
  function MissingErrors(post: Post, fields: seq<Required>): map<string, string>
    decreases |fields|
  {
    if fields == [] then map[]
    else
      var last := fields[|fields| - 1];
      var rest := MissingErrors(post, fields[..|fields| - 1]);
      if Missing(post, last.postKey) then rest[last.errorKey := RequiredMessage(last.errorKey)] else rest
  }

  /** Some field reported under `k` is missing. */
  predicate HasMissing(post: Post, fields: seq<Required>, k: string) {
    exists i :: 0 <= i < |fields| && fields[i].errorKey == k && Missing(post, fields[i].postKey)
  }

  lemma HasMissingSplit(post: Post, fields: seq<Required>, k: string)
    requires fields != []
    ensures var n := |fields| - 1;
      HasMissing(post, fields, k) <==>
        HasMissing(post, fields[..n], k) || (fields[n].errorKey == k && Missing(post, fields[n].postKey))
  {
    var n := |fields| - 1;
    if HasMissing(post, fields, k) {
      var i :| 0 <= i < |fields| && fields[i].errorKey == k && Missing(post, fields[i].postKey);
      if i < n {
        assert fields[..n][i] == fields[i];
      }
    }
    if HasMissing(post, fields[..n], k) {
      var i :| 0 <= i < n && fields[..n][i].errorKey == k && Missing(post, fields[..n][i].postKey);
      assert fields[i] == fields[..n][i];
    }
  }

  /** An error is reported under `k` exactly when a field reported under `k` is missing, and with its message. */
  lemma {:induction false} MissingErrorsSpec(post: Post, fields: seq<Required>, k: string)
    ensures k in MissingErrors(post, fields) <==> HasMissing(post, fields, k)
    ensures k in MissingErrors(post, fields) ==> MissingErrors(post, fields)[k] == RequiredMessage(k)
    decreases |fields|
  {
    if fields != [] {
      var n := |fields| - 1;
      MissingErrorsSpec(post, fields[..n], k);
      HasMissingSplit(post, fields, k);
    }
  }

  /** The `foreach ($requiredFields ...)` loop. */
  method CollectMissing(post: Post, fields: seq<Required>) returns (errors: map<string, string>)
    ensures errors == MissingErrors(post, fields)
  {
    errors := map[];
    var i := 0;
    while i < |fields|
      invariant i <= |fields|
      invariant errors == MissingErrors(post, fields[..i])
    {
      var f := fields[i];
      assert fields[..i + 1][..i] == fields[..i];
      if Missing(post, f.postKey) {
        errors := errors[f.errorKey := RequiredMessage(f.errorKey)];
      }
      i := i + 1;
    }
    assert fields[..i] == fields;
  }

  /** The six fields `addFeature` requires, each posted under its own name. */
  const AddFields: seq<Required> := [
    Required("system_name", "system_name"), Required("module", "module"), Required("feature", "feature"),
    Required("description", "description"), Required("client", "client"), Required("source", "source")]

  /** The fields `updateFeature` requires: the `edit_`-prefixed form with its id, or the plain names. */
  function UpdateFields(form: bool): seq<Required> {
    if form then [
      Required("edit_id", "id"), Required("edit_system_name", "system_name"), Required("edit_module", "module"),
      Required("edit_feature", "feature"), Required("edit_description", "description"),
      Required("edit_client", "client"), Required("edit_source", "source")]
    else AddFields
  }

  /** The key a field is posted under: `edit_<field>` in the edit form, `<field>` otherwise. */
  function PostKey(form: bool, field: string): string {
    if form then "edit_" + field else field
  }

  /** The five trimmed names of a request. */
  function PostedNames(post: Post, form: bool): (r: PerCategory<string>)
    ensures forall c :: r.Get(c) == Read(post, PostKey(form, FieldName(c)))
  {
    PerCategory(
      Read(post, PostKey(form, "system_name")), Read(post, PostKey(form, "module")),
      Read(post, PostKey(form, "feature")), Read(post, PostKey(form, "client")),
      Read(post, PostKey(form, "source")))
  }

  /** `$value ?: null` for a file path: only a non-empty path is stored. */
  function Truthy(s: string): (r: Option<string>)
    ensures r.Some? <==> !IsEmpty(s)
    ensures r.Some? ==> r.value == s
  {
    if IsEmpty(s) then None else Some(s)
  }

  // ---------------------------------------------------------------------------
  // addFeature's checks (controllers/FeatureController.php:897-947)

  const SampleRequired: string := "Sample file or URL is required"
  const InvalidUrl: string := "Invalid URL provided"

  /** The validation errors of `addFeature`: missing required fields, and neither a file nor a URL. */
  function AddErrors(post: Post, upload: Upload): map<string, string> {
    var errors := MissingErrors(post, AddFields);
    if IsEmpty(Read(post, "file_url")) && upload.NoFile? then errors["sample_file" := SampleRequired] else errors
  }

  /** `addFeature` reports no validation error exactly when all six fields are given and a file or URL is. */
  lemma AddErrorsSpec(post: Post, upload: Upload)
    ensures AddErrors(post, upload) == map[] <==>
      (forall i :: 0 <= i < |AddFields| ==> !Missing(post, AddFields[i].postKey)) &&
      (!IsEmpty(Read(post, "file_url")) || !upload.NoFile?)
  {
    SampleErrorEmpty(MissingErrors(post, AddFields), IsEmpty(Read(post, "file_url")) && upload.NoFile?);
    NoMissingErrors(post, AddFields);
  }

  /** Adding the sample-file error leaves no map empty. */
  lemma SampleErrorEmpty(errors: map<string, string>, needed: bool)
    ensures (if needed then errors["sample_file" := SampleRequired] else errors) == map[] <==> errors == map[] && !needed
  {
    if needed {
      assert "sample_file" in errors["sample_file" := SampleRequired];
    }
  }

  /** No error is reported exactly when no field is missing. */
  lemma NoMissingErrors(post: Post, fields: seq<Required>)
    ensures MissingErrors(post, fields) == map[] <==> forall i :: 0 <= i < |fields| ==> !Missing(post, fields[i].postKey)
  {
    var errors := MissingErrors(post, fields);
    if errors != map[] {
      var k :| k in errors;
      MissingErrorsSpec(post, fields, k);
    } else {
      forall i | 0 <= i < |fields| ensures !Missing(post, fields[i].postKey) {
        MissingErrorsSpec(post, fields, fields[i].errorKey);
      }
    }
  }

  /** The sample file `addFeature` settles on, or the error it answers with. */
  datatype FileChoice = Chosen(sample: Option<string>) | Rejected(message: string)

  /** The upload wins over the URL; a URL must pass `filter_var(..., FILTER_VALIDATE_URL)`. */
  function AddSample(upload: Upload, fileUrl: string, isUrl: string -> bool): (r: FileChoice)
    ensures upload.Stored? ==> r == Chosen(Truthy(upload.path))
    ensures upload.Refused? ==> r == Rejected(upload.message)
    ensures upload.NoFile? && IsEmpty(fileUrl) ==> r == Chosen(None)
    ensures upload.NoFile? && !IsEmpty(fileUrl) ==> r == if isUrl(fileUrl) then Chosen(Some(fileUrl)) else Rejected(InvalidUrl)
  {
    match upload
    case Stored(p) => Chosen(Truthy(p))
    case Refused(m) => Rejected(m)
    case NoFile =>
      if IsEmpty(fileUrl) then Chosen(None)
      else if isUrl(fileUrl) then Chosen(Some(fileUrl))
      else Rejected(InvalidUrl)
  }

  /** The file the upload puts on disk, if any. */
  function UploadedPaths(upload: Upload): set<string> {
    if upload.Stored? then {upload.path} else {}
  }

  // ---------------------------------------------------------------------------
  // updateFeature's checks (controllers/FeatureController.php:1011-1051, 1116-1160)

  /** The edit form posts `edit_id`; any other request is a plain update. */
  predicate IsFormUpdate(post: Post) {
    "edit_id" in post
  }

  /** `$id`: `edit_id` for the form, else `id ?? null`. */
  function RequestedId(post: Post): Option<string> {
    if IsFormUpdate(post) then Some(post["edit_id"])
    else if "id" in post then Some(post["id"])
    else None
  }

  const IdRequired: string := "Feature ID is required"

  /** The validation errors of `updateFeature`; a falsy id overrides the form's own `id` message. */
  function UpdateErrors(post: Post): map<string, string> {
    var errors := MissingErrors(post, UpdateFields(IsFormUpdate(post)));
    var id := RequestedId(post);
    if id.None? || IsEmpty(id.value) then errors["id" := IdRequired] else errors
  }

  /** With no validation error the id is present and not empty. */
  lemma UpdateErrorsId(post: Post)
    requires UpdateErrors(post) == map[]
    ensures RequestedId(post).Some? && !IsEmpty(RequestedId(post).value)
  {
    assert RequestedId(post).None? || IsEmpty(RequestedId(post).value) ==> "id" in UpdateErrors(post);
  }

  /**
   * What the edit form does with the sample file, in the order delete > upload
   * > URL > keep. `remove` is the old file that gets unlinked: any non-empty
   * old value when the file is deleted, only a local path (not a URL) when it
   * is replaced.
   */
  datatype FileStep =
    | Keep
    | Clear(remove: Option<string>)
    | UseUpload(path: string, remove: Option<string>)
    | UseUrl(url: string, remove: Option<string>)
    | Reject(message: string)

  function FormFileStep(post: Post, upload: Upload, isUrl: string -> bool, existing: Option<string>): (r: FileStep)
    ensures r.Clear? <==> "delete_file" in post && post["delete_file"] == "1"
    ensures r.UseUpload? ==> upload == Stored(r.path)
    ensures r.UseUrl? ==> isUrl(r.url) && !upload.Stored?
    ensures r.Reject? ==> upload.Refused? || r.message == InvalidUrl
  {
    var present := if existing.Some? && !IsEmpty(existing.value) then existing else None;
    var local := if present.Some? && !isUrl(present.value) then present else None;
    if "delete_file" in post && post["delete_file"] == "1" then Clear(present)
    else
      match upload
      case Stored(p) => UseUpload(p, local)
      case Refused(m) => if IsEmpty(m) then Keep else Reject(m)
      case NoFile =>
        var url := Read(post, "edit_file_url");
        if IsEmpty(url) then Keep
        else if isUrl(url) then UseUrl(url, local)
        else Reject(InvalidUrl)
  }

  /** The record's new `sample_file` after a step that is not a rejection. */
  function NewSample(step: FileStep, existing: Option<string>): Option<string> {
    match step
    case Clear(_) => None
    case UseUpload(p, _) => Some(p)
    case UseUrl(u, _) => Some(u)
    case _ => existing
  }

  /** The files on disk after the step: the upload is moved in first, then the old file is unlinked. */
  function FilesAfter(files: set<string>, step: FileStep): set<string> {
    match step
    case Clear(rm) => files - (if rm.Some? then {rm.value} else {})
    case UseUpload(p, rm) => (files + {p}) - (if rm.Some? then {rm.value} else {})
    case UseUrl(_, rm) => files - (if rm.Some? then {rm.value} else {})
    case _ => files
  }

  /** Replacing or clearing the file never unlinks a URL, and clearing never touches a file other than the old one. */
  lemma FileStepRemovesOnlyOld(post: Post, upload: Upload, isUrl: string -> bool, existing: Option<string>, files: set<string>)
    ensures var step := FormFileStep(post, upload, isUrl, existing);
      (step.Clear? || step.UseUpload? || step.UseUrl?) ==>
        (step.remove.Some? ==> existing == step.remove && !IsEmpty(step.remove.value)) &&
        (!step.Clear? && step.remove.Some? ==> !isUrl(step.remove.value))
    ensures var step := FormFileStep(post, upload, isUrl, existing);
      forall f :: f in files && (existing.None? || f != existing.value) ==> f in FilesAfter(files, step)
  {
  }
}
