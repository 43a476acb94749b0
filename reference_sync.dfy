// The controller's private reference-data helpers, run against the `Database`
// state: `ensureReferenceDataWithId` (controllers/FeatureController.php:1362-1388)
// and `updateReferenceData` (controllers/FeatureController.php:68-139). Each is
// proved to do exactly what the table-level functions `Ensure` and
// `RenameReference` describe, whose properties are proved beside them.
module ReferenceSync {
  import opened Wrappers
  import opened Text
  import opened Categories
  import opened RefTable
  import opened Records
  import opened Store

  /**
   * Finds the active row with the trimmed value, or inserts one with the next
   * id. A duplicate-key rejection is reported as `Collision` (the source lets
   * the driver's exception escape to its caller).
   */
  method EnsureReferenceDataWithId(db: Database, c: Category, value: string, now: int) returns (r: Ensured)
    requires db.Valid()
    modifies db
    ensures db.Valid() && db.overall == old(db.overall)
    ensures r == Ensure(old(db.tables.Get(c)), value, now)
    ensures db.tables == old(db.tables).Set(c, EnsuredTable(old(db.tables.Get(c)), r))
  {
    if IsBlank(value) {
      return Skipped;
    }
    var name := Trim(value);
    var t := db.tables.Get(c);
    var existing := FindFirst(t, ActiveNamed(name));
    if existing.Some? {
      return Found(t[existing.value].id);
    }
    var nextId := NextId(t);
    var inserted := InsertOne(t, Row(nextId, name, true, now));
    if inserted.None? {
      return Collision;
    }
    InsertPreservesIndexes(t, Row(nextId, name, true, now));
    SetPreservesIndexes(db.tables, c, inserted.value);
    db.tables := db.tables.Set(c, inserted.value);
    r := Minted(nextId, inserted.value);
  }

  /**
   * Replaces `oldValue` by `newValue` in one lookup table. `stillUsed` is
   * counted in `overall` as it is at the time of the call.
   */
  method UpdateReferenceData(db: Database, c: Category, oldValue: string, newValue: string, now: int)
    returns (ok: bool)
    requires db.Valid()
    modifies db
    ensures db.Valid() && db.overall == old(db.overall)
    ensures var r := RenameReference(old(db.tables.Get(c)),
        CountHolding(old(db.overall), c, Trim(oldValue)), oldValue, newValue, now);
      ok == r.0 && db.tables == old(db.tables).Set(c, r.1)
  {
    if IsBlank(oldValue) || IsBlank(newValue) {
      return false;
    }
    var o := Trim(oldValue);
    var n := Trim(newValue);
    if o == n {
      return true;
    }
    var t := db.tables.Get(c);
    var existingNew := FindFirst(t, ActiveNamed(n));
    if existingNew.None? {
      var u := UpdateOne(t, ActiveNamed(o), SetName(n), now);
      if u.DuplicateKey? {
        return false;
      }
      UpdatePreservesIndexes(t, ActiveNamed(o), SetName(n), now);
      SetPreservesIndexes(db.tables, c, u.table);
      db.tables := db.tables.Set(c, u.table);
      if !u.matched {
        var e := EnsureReferenceDataWithId(db, c, n, now);
        if e.Collision? {
          return false;
        }
      }
      return true;
    } else {
      var stillUsed := CountHolding(db.overall, c, o);
      if stillUsed <= 1 {
        var u := UpdateOne(t, ActiveNamed(o), SetActive(false), now);
        if u.Updated? {
          UpdatePreservesIndexes(t, ActiveNamed(o), SetActive(false), now);
          SetPreservesIndexes(db.tables, c, u.table);
          db.tables := db.tables.Set(c, u.table);
        }
      }
      return true;
    }
  }

  /**
   * The sequence `updateFeature` runs for each category: ensure the new value,
   * then rename old to new. Because the ensure leaves an active row with the new
   * name, the rename always takes its "new value already exists" branch: no row
   * is renamed in place, and the old row is only ever deactivated, when
   * `stillUsed <= 1`.
   */
  lemma {:induction false} EnsureThenRename(t: Table, stillUsed: nat, oldValue: string, newValue: string, now: int)
    requires UniqueIndexes(t)
    requires !IsBlank(oldValue) && !IsBlank(newValue) && Trim(oldValue) != Trim(newValue)
    requires !Ensure(t, newValue, now).Collision?
    ensures
      var t1 := EnsuredTable(t, Ensure(t, newValue, now));
      var r := RenameReference(t1, stillUsed, oldValue, newValue, now);
      r.0 && |r.1| == |t1| &&
      (exists k :: 0 <= k < |t1| && t1[k].name == Trim(newValue) && t1[k].active && r.1[k] == t1[k]) &&
      forall i :: 0 <= i < |t1| ==>
        if t1[i].name == Trim(oldValue) && t1[i].active && stillUsed <= 1
        then r.1[i] == t1[i].(active := false, updatedAt := now)
        else r.1[i] == t1[i]
  {
    var e := Ensure(t, newValue, now);
    var t1 := EnsuredTable(t, e);
    EnsurePreservesIndexes(t, newValue, now);
    var k: nat;
    if e.Minted? {
      k := |t|;
      assert t1[k] == Row(e.id, Trim(newValue), true, now);
    } else {
      k := FindFirst(t, ActiveNamed(Trim(newValue))).value;
    }
    RenameOntoExisting(t1, stillUsed, oldValue, newValue, now, k);
  }

  /** The id an ensure hands back, as stored in a record: the row's id, or null. */
  function IdValue(r: Ensured): (v: Value)
    ensures v == Null <==> r.Skipped? || r.Collision?
  {
    match r
    case Found(id) => Int(id)
    case Minted(id, _) => Int(id)
    case _ => Null
  }

  /** Every table only gained rows at its end: nothing was removed or rewritten. */
  ghost predicate Grown(before: PerCategory<Table>, after: PerCategory<Table>) {
    forall c :: before.Get(c) <= after.Get(c)
  }

  /**
   * A record's name and id for one category agree with the table: a blank name
   * goes with a null id, any other name with the id of the active row carrying
   * the trimmed name.
   */
  ghost predicate Registered(t: Table, value: string, id: Value) {
    if IsBlank(value) then id == Null
    else exists i :: 0 <= i < |t| && t[i].active && t[i].name == Trim(value) && id == Int(t[i].id)
  }

  /** `t2` and `id` are what ensuring `value` in `t` produced, without a collision. */
  ghost predicate EnsuredAs(t: Table, value: string, now: int, t2: Table, id: Value) {
    var r := Ensure(t, value, now);
    !r.Collision? && t2 == EnsuredTable(t, r) && id == IdValue(r)
  }

  /** After an ensure that did not collide, the value is registered under the id it returned. */
  lemma EnsureRegisters(t: Table, value: string, now: int)
    requires !Ensure(t, value, now).Collision?
    ensures
      var r := Ensure(t, value, now);
      Registered(EnsuredTable(t, r), value, IdValue(r))
  {
    var r := Ensure(t, value, now);
    if r.Minted? {
      assert r.table[|t|] == Row(r.id, Trim(value), true, now);
    }
  }

  /** Rows only appended keep every registration valid. */
  lemma GrownKeepsRegistered(t: Table, u: Table, value: string, id: Value)
    requires t <= u && Registered(t, value, id)
    ensures Registered(u, value, id)
  {
    if !IsBlank(value) {
      var i :| 0 <= i < |t| && t[i].active && t[i].name == Trim(value) && id == Int(t[i].id);
      assert u[i] == t[i];
    }
  }

  /** Ensuring each category's value in that category's table. */
  function EnsureEach(ts: PerCategory<Table>, values: PerCategory<string>, now: int): PerCategory<Ensured> {
    PerCategory(
      Ensure(ts.systemName, values.systemName, now),
      Ensure(ts.moduleName, values.moduleName, now),
      Ensure(ts.featureName, values.featureName, now),
      Ensure(ts.clientName, values.clientName, now),
      Ensure(ts.sourceName, values.sourceName, now))
  }

  /** The tables after each category's ensure. */
  function EnsuredTables(ts: PerCategory<Table>, e: PerCategory<Ensured>): PerCategory<Table> {
    PerCategory(
      EnsuredTable(ts.systemName, e.systemName),
      EnsuredTable(ts.moduleName, e.moduleName),
      EnsuredTable(ts.featureName, e.featureName),
      EnsuredTable(ts.clientName, e.clientName),
      EnsuredTable(ts.sourceName, e.sourceName))
  }

  /** The ids the five ensures hand back. */
  function IdValues(e: PerCategory<Ensured>): PerCategory<Value> {
    PerCategory(IdValue(e.systemName), IdValue(e.moduleName), IdValue(e.featureName),
      IdValue(e.clientName), IdValue(e.sourceName))
  }

  predicate NoCollision(e: PerCategory<Ensured>) {
    !e.systemName.Collision? && !e.moduleName.Collision? && !e.featureName.Collision? &&
    !e.clientName.Collision? && !e.sourceName.Collision?
  }

  /**
   * The ensures that actually ran: the outcomes up to the first collision, and
   * `Skipped` (no change) from the colliding category on.
   */
  function BeforeCollision(e: PerCategory<Ensured>): (r: PerCategory<Ensured>)
    ensures NoCollision(e) ==> r == e
    ensures forall c :: r.Get(c) == Skipped || r.Get(c) == e.Get(c)
  {
    var s := Skipped;
    if e.systemName.Collision? then PerCategory(s, s, s, s, s)
    else if e.moduleName.Collision? then PerCategory(e.systemName, s, s, s, s)
    else if e.featureName.Collision? then PerCategory(e.systemName, e.moduleName, s, s, s)
    else if e.clientName.Collision? then PerCategory(e.systemName, e.moduleName, e.featureName, s, s)
    else if e.sourceName.Collision? then PerCategory(e.systemName, e.moduleName, e.featureName, e.clientName, s)
    else e
  }

  /** Category by category, the three summaries are those of the single ensure. */
  lemma EachCategory(ts: PerCategory<Table>, values: PerCategory<string>, now: int, c: Category)
    ensures var e := EnsureEach(ts, values, now);
      e.Get(c) == Ensure(ts.Get(c), values.Get(c), now) &&
      EnsuredTables(ts, e).Get(c) == EnsuredTable(ts.Get(c), e.Get(c)) &&
      IdValues(e).Get(c) == IdValue(e.Get(c)) &&
      (NoCollision(e) ==> !e.Get(c).Collision?)
  {
  }

  /**
   * The five `ensureReferenceDataWithId` calls that `addFeature` and
   * `updateFeature` make, in the order system name, module, feature, client,
   * source. The first collision stops the sequence (its exception ends the
   * request), keeping the rows the earlier calls minted.
   */
  method EnsureAll(db: Database, values: PerCategory<string>, now: int) returns (ids: Option<PerCategory<Value>>)
    requires db.Valid()
    modifies db
    ensures db.Valid() && db.overall == old(db.overall)
    ensures var e := EnsureEach(old(db.tables), values, now);
      (ids.Some? <==> NoCollision(e)) &&
      (ids.Some? ==> ids.value == IdValues(e)) &&
      db.tables == EnsuredTables(old(db.tables), BeforeCollision(e))
  {
    ghost var ts := db.tables;
    ghost var e := EnsureEach(ts, values, now);
    ghost var s := Skipped;
    var r1 := EnsureReferenceDataWithId(db, SystemName, values.systemName, now);
    assert r1 == e.systemName;
    ghost var ts1 := db.tables;
    assert ts1 == EnsuredTables(ts, PerCategory(r1, s, s, s, s));
    if r1.Collision? {
      return None;
    }
    var r2 := EnsureReferenceDataWithId(db, Module, values.moduleName, now);
    assert r2 == e.moduleName;
    ghost var ts2 := db.tables;
    assert ts2 == EnsuredTables(ts, PerCategory(r1, r2, s, s, s));
    if r2.Collision? {
      return None;
    }
    var r3 := EnsureReferenceDataWithId(db, Feature, values.featureName, now);
    assert r3 == e.featureName;
    ghost var ts3 := db.tables;
    assert ts3 == EnsuredTables(ts, PerCategory(r1, r2, r3, s, s));
    if r3.Collision? {
      return None;
    }
    var r4 := EnsureReferenceDataWithId(db, Client, values.clientName, now);
    assert r4 == e.clientName;
    ghost var ts4 := db.tables;
    assert ts4 == EnsuredTables(ts, PerCategory(r1, r2, r3, r4, s));
    if r4.Collision? {
      return None;
    }
    var r5 := EnsureReferenceDataWithId(db, Source, values.sourceName, now);
    assert r5 == e.sourceName;
    assert db.tables == EnsuredTables(ts, e);
    if r5.Collision? {
      return None;
    }
    ids := Some(PerCategory(IdValue(r1), IdValue(r2), IdValue(r3), IdValue(r4), IdValue(r5)));
  }

  /**
   * With no collision, each name the five ensures were given is registered in
   * the new tables under the id the ensure handed back: a record written with
   * those ids agrees with its lookup tables.
   */
  lemma EnsureEachRegisters(ts: PerCategory<Table>, values: PerCategory<string>, now: int, c: Category)
    requires NoCollision(EnsureEach(ts, values, now))
    ensures var e := EnsureEach(ts, values, now);
      Registered(EnsuredTables(ts, e).Get(c), values.Get(c), IdValues(e).Get(c))
  {
    EachCategory(ts, values, now, c);
    EnsureRegisters(ts.Get(c), values.Get(c), now);
  }

  /** The ensures that ran, collision or not, only appended rows. */
  lemma EnsureEachGrows(ts: PerCategory<Table>, values: PerCategory<string>, now: int)
    ensures Grown(ts, EnsuredTables(ts, BeforeCollision(EnsureEach(ts, values, now))))
  {
    var e := EnsureEach(ts, values, now);
    var b := BeforeCollision(e);
    forall c ensures ts.Get(c) <= EnsuredTables(ts, b).Get(c) {
      EachCategory(ts, values, now, c);
      EnsureGrows(ts.Get(c), values.Get(c), now);
      EnsuredTablesGet(ts, b, c);
    }
  }

  lemma EnsuredTablesGet(ts: PerCategory<Table>, e: PerCategory<Ensured>, c: Category)
    ensures EnsuredTables(ts, e).Get(c) == EnsuredTable(ts.Get(c), e.Get(c))
  {
  }

  lemma EnsureGrows(t: Table, value: string, now: int)
    ensures t <= EnsuredTable(t, Ensure(t, value, now))
  {
    var r := Ensure(t, value, now);
    if r.Minted? {
      assert r.table == t + [Row(r.id, Trim(value), true, now)];
    }
  }
}
