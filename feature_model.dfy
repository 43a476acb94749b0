// The `Features` model of Models/Feature.php: the `features` collection with
// a mirrored insert into `overall`, required-field validation and cleaning in
// `addFeature` (79-132), the whitelist of `updateFeature` (141-162), the
// reference-model calls of `addToReferenceCollections` (317-344) and the
// defaults of `getStatistics` (236-275). The reference models `SystemName`,
// `Module`, `Client` and `Source` are not part of this model: their calls are
// recorded, and whether a call throws is a parameter.
module FeatureModel {
  import opened Wrappers
  import opened Text
  import opened Categories
  import opened Records

  /** A value of the input array: absent-as-null, a string, or a number (as `file_size` may be). */
  datatype Field = NoValue | TextValue(s: string) | NumberValue(n: int)

  /** PHP's string conversion of the value, as `trim()` performs it. */
  function AsString(v: Field): string {
    match v
    case NoValue => ""
    case TextValue(s) => s
    case NumberValue(n) => IntToString(n)
  }

  /** PHP's `empty()` on the value. */
  predicate FieldEmpty(v: Field) {
    v.NoValue? || (v.TextValue? && IsEmpty(v.s)) || (v.NumberValue? && v.n == 0)
  }

  type Data = map<string, Field>

  /** `isset($data[$key])`. */
  predicate IsSet(data: Data, key: string) {
    key in data && !data[key].NoValue?
  }

  /** A document of `features` or `overall`: its `_id` and fields (timestamps are not modelled). */
  datatype Doc = Doc(oid: string, fields: Data)

  const RequiredFields: seq<string> := ["system_name", "module", "feature", "description", "client", "source"]
  const FileFields: seq<string> := ["file_path", "file_name", "file_size", "file_url"]

  function RequiredMessage(field: string): string {
    "Field '" + field + "' is required"
  }

  /** `!isset($data[$field]) || empty(trim($data[$field]))`. */
  predicate Missing(data: Data, field: string) {
    !IsSet(data, field) || IsBlank(AsString(data[field]))
  }

  /** The first of `fields` that is missing, the one the validation loop throws for. */
  function FirstMissing(data: Data, fields: seq<string>): (r: Option<string>)
    ensures r.Some? ==> r.value in fields && Missing(data, r.value)
    ensures r.None? <==> forall k :: 0 <= k < |fields| ==> !Missing(data, fields[k])
  {
    if fields == [] then None
    else if Missing(data, fields[0]) then Some(fields[0])
    else
      var rest := FirstMissing(data, fields[1..]);
      assert forall k :: 0 < k < |fields| ==> fields[1..][k - 1] == fields[k];
      rest
  }

  /** Every field before the reported one is present. */
  lemma {:induction false} FirstMissingIsFirst(data: Data, fields: seq<string>)
    requires FirstMissing(data, fields).Some?
    ensures exists k ::
      0 <= k < |fields| && fields[k] == FirstMissing(data, fields).value &&
      (forall j :: 0 <= j < k ==> !Missing(data, fields[j]))
  {
    if !Missing(data, fields[0]) {
      FirstMissingIsFirst(data, fields[1..]);
      var k :| 0 <= k < |fields[1..]| && fields[1..][k] == FirstMissing(data, fields[1..]).value &&
        forall j :: 0 <= j < k ==> !Missing(data, fields[1..][j]);
      assert fields[k + 1] == fields[1..][k];
      forall j | 0 <= j < k + 1 ensures !Missing(data, fields[j]) {
        if j > 0 {
          assert fields[j] == fields[1..][j - 1];
        }
      }
    }
  }

  /** `$data[$key]`, null when absent. */
  function Lookup(data: Data, key: string): Field {
    if key in data then data[key] else NoValue
  }

  /** No required field is also a file field. */
  lemma FieldListsDisjoint(k: string)
    requires k in RequiredFields
    ensures k !in FileFields
  {
    var i :| 0 <= i < |RequiredFields| && RequiredFields[i] == k;
    assert k[0] != 'f' || k[1] != 'i';
  }

  /** `$cleanData` of `addFeature`: the six required fields trimmed, and the file fields that are set, as given. */
  function CleanData(data: Data): Data {
    var required := map k | k in RequiredFields :: TextValue(Trim(AsString(Lookup(data, k))));
    var files := map k | k in FileFields && IsSet(data, k) :: data[k];
    required + files
  }

  /** The cleaned document holds the required fields and only the file fields that were set. */
  lemma CleanDataKeys(data: Data, k: string)
    ensures k in CleanData(data) <==> k in RequiredFields || (k in FileFields && IsSet(data, k))
  {
  }

  /** A required field is stored as its trimmed value. */
  lemma CleanDataAt(data: Data, k: string)
    requires k in RequiredFields
    ensures k in CleanData(data) && CleanData(data)[k] == TextValue(Trim(AsString(Lookup(data, k))))
  {
    FieldListsDisjoint(k);
  }

  /** Each required value is stored trimmed, and after validation it is not blank. */
  lemma CleanDataRequired(data: Data, k: string)
    requires FirstMissing(data, RequiredFields).None? && k in RequiredFields
    ensures k in data && CleanData(data)[k] == TextValue(Trim(AsString(data[k]))) && !IsEmpty(Trim(AsString(data[k])))
  {
    CleanDataAt(data, k);
    NoneMissing(data, RequiredFields, k);
  }

  lemma NoneMissing(data: Data, fields: seq<string>, k: string)
    requires FirstMissing(data, fields).None? && k in fields
    ensures !Missing(data, k)
  {
    var i :| 0 <= i < |fields| && fields[i] == k;
  }

  /** A file field that was set is copied as given. */
  lemma CleanDataFiles(data: Data, k: string)
    requires k in FileFields && IsSet(data, k)
    ensures CleanData(data)[k] == data[k]
  {
  }

  /** `$cleanData` of `updateFeature`: the allowed fields that are set, strings trimmed, other values kept. */
  function Whitelisted(data: Data): (r: Data)
    ensures forall k :: k in r <==> (k in RequiredFields || k in FileFields) && IsSet(data, k)
    ensures forall k :: k in r ==> k in data && r[k] == (if data[k].TextValue? then TextValue(Trim(data[k].s)) else data[k])
  {
    map k | k in RequiredFields + FileFields && IsSet(data, k) ::
      if data[k].TextValue? then TextValue(Trim(data[k].s)) else data[k]
  }

  // ---------------------------------------------------------------------------
  // addToReferenceCollections

  /** A call on a reference model: `add($name)`, or the module model's `addWithSystem($module, $systemName)`. */
  datatype RefCall = Add(c: Category, value: Field) | AddWithSystem(value: Field, system: Field)

  /** The calls `addToReferenceCollections` makes when none throws: one per non-empty field, in order. */
  function ReferenceCalls(data: Data): (r: seq<RefCall>)
    ensures |r| <= 4
  {
    PlannedCalls(Lookup(data, "system_name"), Lookup(data, "module"), Lookup(data, "client"), Lookup(data, "source"))
  }

  /** The four guarded calls, given the four values. */
  function PlannedCalls(system: Field, moduleName: Field, client: Field, source: Field): (r: seq<RefCall>)
    ensures |r| <= 4
  {
    Planned(system, Add(SystemName, system)) + (Planned(moduleName, AddWithSystem(moduleName, system)) +
      (Planned(client, Add(Client, client)) + Planned(source, Add(Source, source))))
  }

  /** The call made for one field: none when its value is empty. */
  function Planned(v: Field, call: RefCall): seq<RefCall> {
    if FieldEmpty(v) then [] else [call]
  }

  /** Every planned call carries a non-empty value: empty fields are skipped. */
  lemma ReferenceCallsSkipEmpty(data: Data)
    ensures forall k :: 0 <= k < |ReferenceCalls(data)| ==> !FieldEmpty(ReferenceCalls(data)[k].value)
  {
  }

  /** The calls actually made: up to and including the first that throws; the exception goes no further. */
  function Attempted(calls: seq<RefCall>, throws: RefCall -> bool): seq<RefCall> {
    if calls == [] then []
    else if throws(calls[0]) then [calls[0]]
    else [calls[0]] + Attempted(calls[1..], throws)
  }

  /** The calls made are a prefix of the planned ones; all but the last returned, and the last threw if the rest were skipped. */
  lemma {:induction false} AttemptedPrefix(calls: seq<RefCall>, throws: RefCall -> bool)
    ensures var r := Attempted(calls, throws);
      r <= calls && (forall k :: 0 <= k < |r| - 1 ==> !throws(r[k])) &&
      (r != calls ==> r != [] && throws(r[|r| - 1]))
  {
    if calls != [] && !throws(calls[0]) {
      AttemptedPrefix(calls[1..], throws);
      var r := Attempted(calls, throws);
      var rest := Attempted(calls[1..], throws);
      assert r == [calls[0]] + rest;
      forall k | 0 <= k < |r| - 1 ensures !throws(r[k]) {
        if k > 0 {
          assert r[k] == rest[k - 1];
        }
      }
      if r != calls {
        assert rest != calls[1..];
      }
    }
  }

  /** `getStatistics`' answer. */
  datatype Stats = Stats(totalFeatures: nat, uniqueSystems: nat, uniqueModules: nat, uniqueClients: nat)

  /** `$addToSet` over a field: the values of the documents that have it. */
  function DistinctOf(docs: seq<Doc>, key: string): set<Field> {
    set d | d in docs && key in d.fields :: d.fields[key]
  }

  lemma {:induction false} DistinctOfBound(docs: seq<Doc>, key: string)
    ensures |DistinctOf(docs, key)| <= |docs|
  {
    if docs != [] {
      DistinctOfBound(docs[1..], key);
      var d := docs[0];
      var head: set<Field> := if key in d.fields then {d.fields[key]} else {};
      assert DistinctOf(docs, key) == DistinctOf(docs[1..], key) + head by {
        assert docs == [d] + docs[1..];
        forall v | v in DistinctOf(docs, key) ensures v in DistinctOf(docs[1..], key) + head {
          var e :| e in docs && key in e.fields && e.fields[key] == v;
          if e != d {
            assert e in docs[1..];
          }
        }
      }
    }
  }

  /**
   * The aggregation's single row, or all zeros when it yields no row (an
   * empty collection) or throws (`fails`).
   */
  function Statistics(docs: seq<Doc>, fails: bool): (s: Stats)
    ensures fails || docs == [] ==> s == Stats(0, 0, 0, 0)
    ensures !fails ==> s.totalFeatures == |docs|
    ensures s.uniqueSystems <= s.totalFeatures && s.uniqueModules <= s.totalFeatures && s.uniqueClients <= s.totalFeatures
  {
    if fails || docs == [] then Stats(0, 0, 0, 0)
    else
      DistinctOfBound(docs, "system_name");
      DistinctOfBound(docs, "module");
      DistinctOfBound(docs, "client");
      Stats(|docs|, |DistinctOf(docs, "system_name")|, |DistinctOf(docs, "module")|, |DistinctOf(docs, "client")|)
  }

  /** What `addFeature` returns: the insert's id, or the exception of the validation. */
  datatype AddResult = Inserted(oid: string) | Invalid(message: string)

  /** What `updateFeature` returns: the count of documents matched, or the ObjectId constructor's exception. */
  datatype UpdateResult = Matched(count: nat) | BadId

  /** The index of the first document with that `_id`. */
  function FindDoc(docs: seq<Doc>, oid: string): (r: Option<nat>)
    ensures r.Some? ==> r.value < |docs| && docs[r.value].oid == oid && forall j :: 0 <= j < r.value ==> docs[j].oid != oid
    ensures r.None? ==> forall j :: 0 <= j < |docs| ==> docs[j].oid != oid
  {
    if docs == [] then None
    else if docs[0].oid == oid then Some(0)
    else
      match FindDoc(docs[1..], oid)
      case None => None
      case Some(k) => Some(k + 1)
  }

  lemma AttemptedPlanned(v: Field, call: RefCall, rest: seq<RefCall>, throws: RefCall -> bool)
    ensures Attempted(Planned(v, call) + rest, throws) ==
      if FieldEmpty(v) then Attempted(rest, throws) else if throws(call) then [call] else [call] + Attempted(rest, throws)
  {
    if !FieldEmpty(v) {
      assert (Planned(v, call) + rest)[1..] == rest;
    } else {
      assert Planned(v, call) + rest == rest;
    }
  }

  class Features {
    var features: seq<Doc>
    var overall: seq<Doc>
    /** The calls made on the reference models, oldest first. */
    var referenceCalls: seq<RefCall>

    constructor (features: seq<Doc>, overall: seq<Doc>)
      ensures this.features == features && this.overall == overall && referenceCalls == []
    {
      this.features := features;
      this.overall := overall;
      referenceCalls := [];
    }

    /** The `foreach ($requiredFields ...)` loop, over the list of field names it is given. */
    static method CheckRequired(data: Data, fields: seq<string>) returns (missing: Option<string>)
      ensures missing == FirstMissing(data, fields)
    {
      var i := 0;
      while i < |fields|
        invariant 0 <= i <= |fields|
        invariant FirstMissing(data, fields) == FirstMissing(data, fields[i..])
      {
        var field := fields[i];
        if !IsSet(data, field) || IsBlank(AsString(data[field])) {
          return Some(field);
        }
        assert fields[i..][1..] == fields[i + 1..];
        i := i + 1;
      }
      return None;
    }

    /** `addToReferenceCollections($data)`. */
    method AddToReferenceCollections(data: Data, throws: RefCall -> bool)
      modifies this
      ensures features == old(features) && overall == old(overall)
      ensures referenceCalls == old(referenceCalls) + Attempted(ReferenceCalls(data), throws)
    {
      CallReferenceModels(Lookup(data, "system_name"), Lookup(data, "module"), Lookup(data, "client"), Lookup(data, "source"), throws);
    }

    /** The four guarded calls inside one `try`: the first exception ends the block and goes no further. */
    method CallReferenceModels(system: Field, moduleName: Field, client: Field, source: Field, throws: RefCall -> bool)
      modifies this
      ensures features == old(features) && overall == old(overall)
      ensures referenceCalls == old(referenceCalls) + Attempted(PlannedCalls(system, moduleName, client, source), throws)
    {
      ghost var afterClient := Planned(client, Add(Client, client)) + (Planned(source, Add(Source, source)) + []);
      ghost var afterModule := Planned(moduleName, AddWithSystem(moduleName, system)) + afterClient;
      assert Planned(source, Add(Source, source)) + [] == Planned(source, Add(Source, source));
      var stop := CallIfPresent(system, Add(SystemName, system), afterModule, throws);
      if stop {
        return;
      }
      stop := CallIfPresent(moduleName, AddWithSystem(moduleName, system), afterClient, throws);
      if stop {
        return;
      }
      stop := CallIfPresent(client, Add(Client, client), Planned(source, Add(Source, source)) + [], throws);
      if stop {
        return;
      }
      stop := CallIfPresent(source, Add(Source, source), [], throws);
    }

    /**
     * One `if (!empty($data[...])) $model->add(...)` of the block: `stop` says
     * whether it threw; either way the calls made so far plus those still to
     * be attempted after it make up the whole block's calls.
     */
    method CallIfPresent(v: Field, call: RefCall, ghost rest: seq<RefCall>, throws: RefCall -> bool) returns (stop: bool)
      modifies this
      ensures features == old(features) && overall == old(overall)
      ensures stop <==> !FieldEmpty(v) && throws(call)
      ensures referenceCalls + (if stop then [] else Attempted(rest, throws)) ==
        old(referenceCalls) + Attempted(Planned(v, call) + rest, throws)
    {
      AttemptedPlanned(v, call, rest, throws);
      stop := false;
      if !FieldEmpty(v) {
        referenceCalls := referenceCalls + [call];
        stop := throws(call);
      }
    }

    /**
     * `addFeature($data)`. A missing required field throws before anything
     * is written. Otherwise the reference models are called (their failures
     * swallowed), the cleaned document is inserted into `features`, and a copy
     * into `overall` unless that insert fails, which is swallowed too.
     * `oid` and `overallOid` are the ids the two inserts assign.
     */
    method AddFeature(data: Data, throws: RefCall -> bool, overallFails: bool, oid: string, overallOid: string)
      returns (r: AddResult)
      modifies this
      ensures FirstMissing(data, RequiredFields).Some? ==>
        r == Invalid(RequiredMessage(FirstMissing(data, RequiredFields).value)) &&
        features == old(features) && overall == old(overall) && referenceCalls == old(referenceCalls)
      ensures FirstMissing(data, RequiredFields).None? ==>
        r == Inserted(oid) &&
        features == old(features) + [Doc(oid, CleanData(data))] &&
        overall == old(overall) + (if overallFails then [] else [Doc(overallOid, CleanData(data))]) &&
        referenceCalls == old(referenceCalls) + Attempted(ReferenceCalls(CleanData(data)), throws)
    {
      var missing := CheckRequired(data, RequiredFields);
      if missing.Some? {
        return Invalid(RequiredMessage(missing.value));
      }
      r := InsertFeature(CleanData(data), throws, overallFails, oid, overallOid);
    }

    /** The part of `addFeature` after the validation, given the cleaned document. */
    method InsertFeature(clean: Data, throws: RefCall -> bool, overallFails: bool, oid: string, overallOid: string)
      returns (r: AddResult)
      modifies this
      ensures r == Inserted(oid)
      ensures features == old(features) + [Doc(oid, clean)]
      ensures overall == old(overall) + (if overallFails then [] else [Doc(overallOid, clean)])
      ensures referenceCalls == old(referenceCalls) + Attempted(ReferenceCalls(clean), throws)
    {
      AddToReferenceCollections(clean, throws);
      features := features + [Doc(oid, clean)];
      if !overallFails {
        overall := overall + [Doc(overallOid, clean)];
      }
      r := Inserted(oid);
    }

    /**
     * `updateFeature($id, $data)`: the reference models are called with the
     * whitelisted values first; then the ObjectId constructor rejects a
     * malformed id, or the first document with that id gets the whitelisted
     * fields set over its own.
     */
    method UpdateFeature(id: string, data: Data, throws: RefCall -> bool) returns (r: UpdateResult)
      modifies this
      ensures referenceCalls == old(referenceCalls) + Attempted(ReferenceCalls(Whitelisted(data)), throws)
      ensures overall == old(overall)
      ensures ParseObjectId(id).None? ==> r == BadId && features == old(features)
      ensures ParseObjectId(id).Some? && FindDoc(old(features), ParseObjectId(id).value).None? ==>
        r == Matched(0) && features == old(features)
      ensures ParseObjectId(id).Some? && FindDoc(old(features), ParseObjectId(id).value).Some? ==>
        var i := FindDoc(old(features), ParseObjectId(id).value).value;
        r == Matched(1) &&
        features == old(features)[i := Doc(old(features)[i].oid, old(features)[i].fields + Whitelisted(data))]
    {
      var clean := Whitelisted(data);
      AddToReferenceCollections(clean, throws);
      var oid := ParseObjectId(id);
      if oid.None? {
        return BadId;
      }
      var found := FindDoc(features, oid.value);
      if found.None? {
        return Matched(0);
      }
      var i := found.value;
      features := features[i := Doc(features[i].oid, features[i].fields + clean)];
      r := Matched(1);
    }

    /** `getStatistics()` over the `features` collection. */
    function GetStatistics(fails: bool): Stats
      reads this
    {
      Statistics(features, fails)
    }
  }

  /** An update sets the whitelisted values and leaves every other field of the document as it was. */
  lemma UpdateKeepsOtherFields(fields: Data, data: Data, k: string)
    ensures k in Whitelisted(data) ==> (fields + Whitelisted(data))[k] == Whitelisted(data)[k]
    ensures k !in Whitelisted(data) ==>
      (k in fields + Whitelisted(data) <==> k in fields) &&
      (k in fields ==> (fields + Whitelisted(data))[k] == fields[k])
  {
  }
}
