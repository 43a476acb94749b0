// `enableFeature` and `bulkEnableFeatures` (controllers/FeatureController.php:144-222,
// 310-324): record that a feature is enabled for one client / system / source
// combination. The names of the client, system and source are looked up by id
// (controllers/FeatureController.php:507-574) before anything is written; the
// record is inserted first and the lookup rows are ensured after it, so a
// duplicate-key rejection there reports failure with the record already stored.
module FeatureEnabling {
  import opened Wrappers
  import opened Text
  import opened Categories
  import opened RefTable
  import opened Records
  import opened IdTags
  import opened Store
  import opened ReferenceSync

  const MissingParameters: string := "Missing required parameters: feature, client_id, system_id, source_id"
  const AlreadyEnabled: string := "Feature already enabled for this combination"

  /** Why a request failed: one of the method's own messages, or the driver's exception (its text is not modelled). */
  datatype Failure = Because(error: string) | DriverFailure

  /** `['success' => true, 'id' => ..., 'message' => ...]`, or `['success' => false, 'error' => ...]`. */
  datatype EnableReply = Enabled(id: string, message: string) | Failed(failure: Failure)

  /**
   * The arguments of `enableFeature`: the feature name, the client and source
   * id tags ("abs_1"), the system id as given, and the optional `module` (here `moduleName`) and
   * `description` of `$additionalData`.
   */
  datatype Request = Request(
    feature: string, clientId: string, systemId: Value, sourceId: string,
    moduleName: Option<string>, description: Option<string>)

  /** The record matches the `findOne` that looks for this combination (raw, untrimmed arguments). */
  predicate SameCombination(r: Record, q: Request) {
    r.names.featureName == q.feature && r.refIds.clientName == Str(q.clientId) &&
    r.systemId == q.systemId && r.refIds.sourceName == Str(q.sourceId)
  }

  predicate AlreadyStored(records: seq<Record>, q: Request) {
    exists i :: 0 <= i < |records| && SameCombination(records[i], q)
  }

  /** `getSystemNameById`: the active system row with that id. A string id never equals a numeric one. */
  function SystemNameById(t: Table, id: Value): (r: Option<string>)
    ensures r.Some? ==> id.Int? && exists i :: 0 <= i < |t| && t[i].id == id.i && t[i].active && t[i].name == r.value
  {
    if id.Int? then ActiveNameById(t, id.i) else None
  }

  /** `getClientNameById` / `getSourceNameById`: the number after the tag's underscore, then the active row with it. */
  function NameByTag(t: Table, tag: string): (r: Option<string>)
    ensures r.Some? ==>
      ParseIdTag(tag).Some? &&
      exists i :: 0 <= i < |t| && t[i].id == ParseIdTag(tag).value && t[i].active && t[i].name == r.value
  {
    match ParseIdTag(tag)
    case Some(n) => ActiveNameById(t, n)
    case None => None
  }

  /** PHP's `$name ?: $fallback`: a null, "" or "0" name gives way to the fallback. */
  function Elvis(name: Option<string>, fallback: string): (r: string)
    ensures name.Some? && !IsEmpty(name.value) ==> r == name.value
    ensures name.None? || IsEmpty(name.value) ==> r == fallback
  {
    if name.Some? && !IsEmpty(name.value) then name.value else fallback
  }

  /** The document `enableFeature` inserts, with the names looked up in `ts`. */
  function EnabledRecord(ts: PerCategory<Table>, q: Request, oid: string): Record {
    var system := SystemNameById(ts.systemName, q.systemId);
    var client := NameByTag(ts.clientName, q.clientId);
    var source := NameByTag(ts.sourceName, q.sourceId);
    Record(
      oid,
      PerCategory(Elvis(system, "Unknown System"), q.moduleName.GetOr("Feature Management"), Trim(q.feature),
        Elvis(client, "Unknown Client"), Elvis(source, "Unknown Source")),
      PerCategory(Null, Null, Null, Str(Trim(q.clientId)), Str(Trim(q.sourceId))),
      q.systemId,
      q.description.GetOr("Feature '" + q.feature + "' enabled for " + client.GetOr("") + " on " + source.GetOr("")),
      None,
      true)
  }

  /** One `ensureReferenceDataWithId` on the tables: false on a collision, which leaves them as they were. */
  function EnsureStep(ts: PerCategory<Table>, c: Category, value: string, now: int): (r: (bool, PerCategory<Table>))
    ensures !r.0 ==> r.1 == ts
  {
    var e := Ensure(ts.Get(c), value, now);
    if e.Collision? then (false, ts) else (true, ts.Set(c, EnsuredTable(ts.Get(c), e)))
  }

  /**
   * The ensures after the insert, stopping at the first collision: the
   * feature name, the client name (or the raw client id), the source name (or
   * the raw source id), and the system name when one was found.
   */
  function EnableEnsures(ts: PerCategory<Table>, q: Request, now: int): (bool, PerCategory<Table>) {
    var system := SystemNameById(ts.systemName, q.systemId);
    var client := NameByTag(ts.clientName, q.clientId);
    var source := NameByTag(ts.sourceName, q.sourceId);
    var (ok1, ts1) := EnsureStep(ts, Feature, q.feature, now);
    if !ok1 then (false, ts1)
    else
      var (ok2, ts2) := EnsureStep(ts1, Client, Elvis(client, q.clientId), now);
      if !ok2 then (false, ts2)
      else
        var (ok3, ts3) := EnsureStep(ts2, Source, Elvis(source, q.sourceId), now);
        if !ok3 then (false, ts3)
        else if system.Some? && !IsEmpty(system.value) then EnsureStep(ts3, SystemName, system.value, now)
        else (true, ts3)
  }

  /** What `enableFeature` answers and leaves behind, given the tables and records before it. */
  function EnableStep(ts: PerCategory<Table>, records: seq<Record>, q: Request, now: int, oid: string)
    : (r: (EnableReply, PerCategory<Table>, seq<Record>))
    ensures r.2 == records || r.2 == records + [EnabledRecord(ts, q, oid)]
    ensures r.0.Enabled? ==> EnableEnsures(ts, q, now) == (true, r.1)
  {
    if IsEmpty(q.feature) || IsEmpty(q.clientId) || IsFalsy(q.systemId) || IsEmpty(q.sourceId) then
      (Failed(Because(MissingParameters)), ts, records)
    else if AlreadyStored(records, q) then
      (Failed(Because(AlreadyEnabled)), ts, records)
    else
      var (ok, ts') := EnableEnsures(ts, q, now);
      (if ok then Enabled(oid, "Feature '" + q.feature + "' enabled successfully") else Failed(DriverFailure),
       ts', records + [EnabledRecord(ts, q, oid)])
  }

  /** `enableFeature`. `oid` is the ObjectId the insert assigns. */
  method EnableFeature(db: Database, q: Request, now: int, oid: string) returns (reply: EnableReply)
    requires db.Valid() && !HasOid(db.overall, oid)
    modifies db
    ensures db.Valid()
    ensures (reply, db.tables, db.overall) == EnableStep(old(db.tables), old(db.overall), q, now, oid)
  {
    if IsEmpty(q.feature) || IsEmpty(q.clientId) || IsFalsy(q.systemId) || IsEmpty(q.sourceId) {
      return Failed(Because(MissingParameters));
    }
    if AlreadyStored(db.overall, q) {
      return Failed(Because(AlreadyEnabled));
    }
    var system := SystemNameById(db.tables.systemName, q.systemId);
    var client := NameByTag(db.tables.clientName, q.clientId);
    var source := NameByTag(db.tables.sourceName, q.sourceId);
    db.InsertRecord(EnabledRecord(db.tables, q, oid));
    var r1 := EnsureReferenceDataWithId(db, Feature, q.feature, now);
    if r1.Collision? {
      return Failed(DriverFailure);
    }
    var r2 := EnsureReferenceDataWithId(db, Client, Elvis(client, q.clientId), now);
    if r2.Collision? {
      return Failed(DriverFailure);
    }
    var r3 := EnsureReferenceDataWithId(db, Source, Elvis(source, q.sourceId), now);
    if r3.Collision? {
      return Failed(DriverFailure);
    }
    if system.Some? && !IsEmpty(system.value) {
      var r4 := EnsureReferenceDataWithId(db, SystemName, system.value, now);
      if r4.Collision? {
        return Failed(DriverFailure);
      }
    }
    reply := Enabled(oid, "Feature '" + q.feature + "' enabled successfully");
  }

  /**
   * Enabling the same combination again is refused and changes nothing, once
   * a first call got as far as the insert, provided the feature name and the
   * two id tags carry no surrounding spaces. (The record stores them trimmed
   * while the look-up uses them as given, so with spaces the second call
   * stores a second record; see `UntrimmedEnablesTwice`.)
   */
  lemma EnableTwiceRefused(ts: PerCategory<Table>, records: seq<Record>, q: Request, now: int, oid: string, later: int, oid2: string)
    requires Trim(q.feature) == q.feature && Trim(q.clientId) == q.clientId && Trim(q.sourceId) == q.sourceId
    requires EnableStep(ts, records, q, now, oid).2 != records
    ensures var (_, ts1, records1) := EnableStep(ts, records, q, now, oid);
      EnableStep(ts1, records1, q, later, oid2) == (Failed(Because(AlreadyEnabled)), ts1, records1)
  {
    var records1 := EnableStep(ts, records, q, now, oid).2;
    assert records1[|records|] == EnabledRecord(ts, q, oid);
  }

  /**
   * With spaces around the feature name, a second identical request is not
   * recognised as a repeat: the stored name is trimmed and the look-up is not,
   * so each request stores a record of its own for the same combination.
   */
  lemma UntrimmedEnablesTwice(ts: PerCategory<Table>, records: seq<Record>, q: Request, now: int, oid: string,
      later: int, oid2: string)
    requires !IsEmpty(q.feature) && !IsEmpty(q.clientId) && !IsFalsy(q.systemId) && !IsEmpty(q.sourceId)
    requires Trim(q.feature) != q.feature && !AlreadyStored(records, q)
    ensures var (_, ts1, records1) := EnableStep(ts, records, q, now, oid);
      records1 == records + [EnabledRecord(ts, q, oid)] &&
      EnableStep(ts1, records1, q, later, oid2).2 == records1 + [EnabledRecord(ts1, q, oid2)]
  {
    var records1 := EnableStep(ts, records, q, now, oid).2;
    var ts1 := EnableStep(ts, records, q, now, oid).1;
    assert records1 == records + [EnabledRecord(ts, q, oid)];
    assert !AlreadyStored(records1, q) by {
      forall i | 0 <= i < |records1| ensures !SameCombination(records1[i], q) {
        if i < |records| {
          assert records1[i] == records[i];
        } else {
          assert records1[i].names.featureName == Trim(q.feature);
        }
      }
    }
  }

  /** " f" is such a name. */
  lemma PaddedNameIsUntrimmed()
    ensures Trim(" f") != " f"
  {
    assert Trim(" f") == "f" by {
      assert IsPhpSpace(' ');
      assert StripLeft(" f", PhpSpace) == "f";
      assert StripRight("f", PhpSpace) == "f";
    }
    assert |"f"| != |" f"|;
  }

  /** A name the ensures registered: an active row carries its trimmed form (a blank name needs none). */
  ghost predicate HasActive(t: Table, value: string) {
    IsBlank(value) || exists i :: 0 <= i < |t| && t[i].active && t[i].name == Trim(value)
  }

  lemma EnsureStepRegisters(ts: PerCategory<Table>, c: Category, value: string, now: int)
    requires EnsureStep(ts, c, value, now).0
    ensures HasActive(EnsureStep(ts, c, value, now).1.Get(c), value)
    ensures forall d :: d != c ==> EnsureStep(ts, c, value, now).1.Get(d) == ts.Get(d)
  {
    EnsureRegisters(ts.Get(c), value, now);
  }

  /**
   * A successful `enableFeature` leaves the feature name, the client name (or
   * id tag) and the source name (or id tag) each with an active lookup row.
   */
  lemma EnabledIsRegistered(ts: PerCategory<Table>, records: seq<Record>, q: Request, now: int, oid: string)
    requires EnableStep(ts, records, q, now, oid).0.Enabled?
    ensures var ts' := EnableStep(ts, records, q, now, oid).1;
      HasActive(ts'.Get(Feature), q.feature) &&
      HasActive(ts'.Get(Client), Elvis(NameByTag(ts.clientName, q.clientId), q.clientId)) &&
      HasActive(ts'.Get(Source), Elvis(NameByTag(ts.sourceName, q.sourceId), q.sourceId))
  {
    EnsuresRegister(ts, q, now);
  }

  /** The ensures of `enableFeature` that all succeeded leave the three names registered. */
  lemma EnsuresRegister(ts: PerCategory<Table>, q: Request, now: int)
    requires EnableEnsures(ts, q, now).0
    ensures var ts' := EnableEnsures(ts, q, now).1;
      HasActive(ts'.Get(Feature), q.feature) &&
      HasActive(ts'.Get(Client), Elvis(NameByTag(ts.clientName, q.clientId), q.clientId)) &&
      HasActive(ts'.Get(Source), Elvis(NameByTag(ts.sourceName, q.sourceId), q.sourceId))
  {
    var system := SystemNameById(ts.systemName, q.systemId);
    var client := Elvis(NameByTag(ts.clientName, q.clientId), q.clientId);
    var source := Elvis(NameByTag(ts.sourceName, q.sourceId), q.sourceId);
    var ts1 := EnsureStep(ts, Feature, q.feature, now).1;
    EnsureStepRegisters(ts, Feature, q.feature, now);
    var ts2 := EnsureStep(ts1, Client, client, now).1;
    EnsureStepRegisters(ts1, Client, client, now);
    assert ts2.Get(Feature) == ts1.Get(Feature);
    var ts3 := EnsureStep(ts2, Source, source, now).1;
    EnsureStepRegisters(ts2, Source, source, now);
    assert ts3.Get(Feature) == ts1.Get(Feature) && ts3.Get(Client) == ts2.Get(Client);
    if system.Some? && !IsEmpty(system.value) {
      var ts4 := EnsureStep(ts3, SystemName, system.value, now).1;
      EnsureStepRegisters(ts3, SystemName, system.value, now);
      assert ts4.Get(Feature) == ts3.Get(Feature) && ts4.Get(Client) == ts3.Get(Client) && ts4.Get(Source) == ts3.Get(Source);
      assert EnableEnsures(ts, q, now).1 == ts4;
    } else {
      assert EnableEnsures(ts, q, now).1 == ts3;
    }
  }

  // ---------------------------------------------------------------------------
  // bulkEnableFeatures

  /**
   * `bulkEnableFeatures`: `enableFeature` on each name in turn, without
   * additional data; the names that succeeded, and each failure under its
   * name (a later failure of the same name overwrites an earlier one).
   */
  function BulkEnable(ts: PerCategory<Table>, records: seq<Record>, features: seq<string>, clientId: string,
      systemId: Value, sourceId: string, now: int, oids: seq<string>)
    : (r: (seq<string>, map<string, Failure>, PerCategory<Table>, seq<Record>))
    requires |oids| == |features|
    decreases |features|
  {
    if features == [] then ([], map[], ts, records)
    else
      var n := |features| - 1;
      var (ok, errs, ts1, records1) := BulkEnable(ts, records, features[..n], clientId, systemId, sourceId, now, oids[..n]);
      var (reply, ts2, records2) := EnableStep(ts1, records1, Request(features[n], clientId, systemId, sourceId, None, None), now, oids[n]);
      if reply.Enabled? then (ok + [features[n]], errs, ts2, records2)
      else (ok, errs[features[n] := reply.failure], ts2, records2)
  }

  /** Every name ends up among the successes or the failures, and nothing else does. */
  lemma {:induction false} BulkEnableAccounts(ts: PerCategory<Table>, records: seq<Record>, features: seq<string>,
      clientId: string, systemId: Value, sourceId: string, now: int, oids: seq<string>)
    requires |oids| == |features|
    ensures var (ok, errs, _, _) := BulkEnable(ts, records, features, clientId, systemId, sourceId, now, oids);
      (forall f :: f in features <==> f in ok || f in errs) && |ok| <= |features|
    decreases |features|
  {
    if features != [] {
      var n := |features| - 1;
      BulkEnableAccounts(ts, records, features[..n], clientId, systemId, sourceId, now, oids[..n]);
      assert features == features[..n] + [features[n]];
    }
  }

  /** One more name: `BulkEnable` over the first `i + 1` names is the `enableFeature` of name `i` after the first `i`. */
  lemma BulkEnableNext(ts: PerCategory<Table>, records: seq<Record>, features: seq<string>,
      clientId: string, systemId: Value, sourceId: string, now: int, oids: seq<string>, i: nat)
    requires |oids| == |features| && i < |features|
    ensures var (ok, errs, ts1, records1) := BulkEnable(ts, records, features[..i], clientId, systemId, sourceId, now, oids[..i]);
      var (reply, ts2, records2) := EnableStep(ts1, records1, Request(features[i], clientId, systemId, sourceId, None, None), now, oids[i]);
      BulkEnable(ts, records, features[..i + 1], clientId, systemId, sourceId, now, oids[..i + 1]) ==
        if reply.Enabled? then (ok + [features[i]], errs, ts2, records2)
        else (ok, errs[features[i] := reply.failure], ts2, records2)
  {
    assert features[..i + 1][..i] == features[..i] && oids[..i + 1][..i] == oids[..i];
    assert features[..i + 1][i] == features[i] && oids[..i + 1][i] == oids[i];
  }

  /** Appending record `r`, whose id is `oids[i]`, leaves the later ids of `oids` free. */
  lemma AppendKeepsFresh(before: seq<Record>, after: seq<Record>, r: Record, oids: seq<string>, i: nat)
    requires after == before || after == before + [r]
    requires i < |oids| && r.oid == oids[i]
    requires forall j :: i <= j < |oids| ==> !HasOid(before, oids[j])
    requires forall j, k :: 0 <= j < k < |oids| ==> oids[j] != oids[k]
    ensures forall j :: i < j < |oids| ==> !HasOid(after, oids[j])
  {
    forall j | i < j < |oids| ensures !HasOid(after, oids[j]) {
      assert !HasOid(before, oids[j]);
      if after != before {
        forall k | 0 <= k < |after| ensures after[k].oid != oids[j] {
          if k == |before| {
            assert after[k] == r;
          } else {
            assert after[k] == before[k];
          }
        }
      }
    }
  }

  /** Each name's result carries an oid of its own; none is taken yet. */
  ghost predicate FreshOids(records: seq<Record>, oids: seq<string>) {
    (forall i :: 0 <= i < |oids| ==> !HasOid(records, oids[i])) &&
    (forall i, j :: 0 <= i < j < |oids| ==> oids[i] != oids[j])
  }

  method BulkEnableFeatures(db: Database, features: seq<string>, clientId: string, systemId: Value, sourceId: string,
      now: int, oids: seq<string>)
    returns (succeeded: seq<string>, errors: map<string, Failure>)
    requires db.Valid() && |oids| == |features| && FreshOids(db.overall, oids)
    modifies db
    ensures db.Valid()
    ensures (succeeded, errors, db.tables, db.overall) ==
      BulkEnable(old(db.tables), old(db.overall), features, clientId, systemId, sourceId, now, oids)
  {
    succeeded, errors := [], map[];
    var i := 0;
    while i < |features|
      invariant 0 <= i <= |features|
      invariant db.Valid()
      invariant (succeeded, errors, db.tables, db.overall) ==
        BulkEnable(old(db.tables), old(db.overall), features[..i], clientId, systemId, sourceId, now, oids[..i])
      invariant forall j :: i <= j < |oids| ==> !HasOid(db.overall, oids[j])
    {
      BulkEnableNext(old(db.tables), old(db.overall), features, clientId, systemId, sourceId, now, oids, i);
      succeeded, errors := EnableNext(db, features[i], clientId, systemId, sourceId, now, oids, i, succeeded, errors);
      i := i + 1;
    }
    assert features[..i] == features && oids[..i] == oids;
  }

  /** The body of the `foreach`: `enableFeature` on one name, its answer filed under that name. */
  method EnableNext(db: Database, feature: string, clientId: string, systemId: Value, sourceId: string,
      now: int, oids: seq<string>, i: nat, succeeded: seq<string>, errors: map<string, Failure>)
    returns (succeeded': seq<string>, errors': map<string, Failure>)
    requires db.Valid() && i < |oids| && (forall j, k :: 0 <= j < k < |oids| ==> oids[j] != oids[k])
    requires forall j :: i <= j < |oids| ==> !HasOid(db.overall, oids[j])
    modifies db
    ensures db.Valid()
    ensures forall j :: i < j < |oids| ==> !HasOid(db.overall, oids[j])
    ensures var (reply, ts2, records2) :=
        EnableStep(old(db.tables), old(db.overall), Request(feature, clientId, systemId, sourceId, None, None), now, oids[i]);
      (succeeded', errors', db.tables, db.overall) ==
        if reply.Enabled? then (succeeded + [feature], errors, ts2, records2)
        else (succeeded, errors[feature := reply.failure], ts2, records2)
  {
    var q := Request(feature, clientId, systemId, sourceId, None, None);
    ghost var step := EnableStep(db.tables, db.overall, q, now, oids[i]);
    var reply := EnableFeature(db, q, now, oids[i]);
    assert (reply, db.tables, db.overall) == step;
    AppendKeepsFresh(old(db.overall), db.overall, EnabledRecord(old(db.tables), q, oids[i]), oids, i);
    if reply.Enabled? {
      succeeded', errors' := succeeded + [feature], errors;
    } else {
      succeeded', errors' := succeeded, errors[feature := reply.failure];
    }
  }
}
