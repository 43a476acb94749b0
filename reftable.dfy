// One lookup collection (`system_names`, `modules`, `features`, `clients`,
// `sources`) and the single-collection operations the application runs on it.
//
// A lookup collection is an ordered sequence of rows `{id, name, is_active,
// updated_at}`. The collection carries unique indexes on `name` and on `id`
// (config.php:103-111): any write that would give two rows the same name or the
// same id fails with a duplicate-key error and leaves the collection as it was.
// The functions below are the collection primitives (find, insert, update,
// delete) with that index behaviour, and the two controller-level operations
// built from them that need only one collection: minting a row
// (`ensureReferenceDataWithId`) and renaming a row (`updateReferenceData`).
module RefTable {
  import opened Wrappers
  import opened Text

  /** A lookup row. `updatedAt` is the clock value of the last write to it. */
  datatype Row = Row(id: int, name: string, active: bool, updatedAt: int)

  type Table = seq<Row>

  /** The unique indexes on `name` and `id` hold. */
  ghost predicate UniqueIndexes(t: Table) {
    forall i, j :: 0 <= i < j < |t| ==> t[i].name != t[j].name && t[i].id != t[j].id
  }

  predicate NameTaken(t: Table, name: string) {
    exists i :: 0 <= i < |t| && t[i].name == name
  }

  predicate IdTaken(t: Table, id: int) {
    exists i :: 0 <= i < |t| && t[i].id == id
  }

  // ---------------------------------------------------------------------------
  // Queries

  /** The two query shapes used on lookup rows: `{name}` and `{name, is_active: true}`. */
  datatype Filter = Named(name: string) | ActiveNamed(name: string)

  predicate Matches(f: Filter, row: Row) {
    match f
    case Named(n) => row.name == n
    case ActiveNamed(n) => row.name == n && row.active
  }

  /** `findOne(filter)`: the position of the first row the filter matches. */
  function FindFirst(t: Table, f: Filter): (r: Option<nat>)
    ensures r.Some? ==> r.value < |t| && Matches(f, t[r.value])
    ensures r.Some? ==> forall i :: 0 <= i < r.value ==> !Matches(f, t[i])
    ensures r.None? <==> forall i :: 0 <= i < |t| ==> !Matches(f, t[i])
  {
    if t == [] then None
    else if Matches(f, t[0]) then Some(0)
    else
      match FindFirst(t[1..], f)
      case None => None
      case Some(k) => Some(k + 1)
  }

  /** `findOne(['id' => id, 'is_active' => true])`: the name of the active row with that id. */
  function ActiveNameById(t: Table, id: int): (r: Option<string>)
    ensures r.Some? ==> exists i :: 0 <= i < |t| && t[i].id == id && t[i].active && t[i].name == r.value
    ensures r.None? <==> forall i :: 0 <= i < |t| ==> !(t[i].id == id && t[i].active)
  {
    if t == [] then None
    else if t[0].id == id && t[0].active then Some(t[0].name)
    else ActiveNameById(t[1..], id)
  }

  /** The largest id in a non-empty table: what `findOne([], sort id desc)` reads. */
  function MaxId(t: Table): (m: int)
    requires t != []
    ensures exists i :: 0 <= i < |t| && t[i].id == m
    ensures forall i :: 0 <= i < |t| ==> t[i].id <= m
  {
    if |t| == 1 then t[0].id
    else
      var rest := MaxId(t[1..]);
      assert forall i :: 1 <= i < |t| ==> t[i] == t[1..][i - 1];
      if t[0].id >= rest then t[0].id else rest
  }

  /** `($lastDoc['id'] ?? 0) + 1`: the id a new row receives. */
  function NextId(t: Table): (n: int)
    ensures forall i :: 0 <= i < |t| ==> t[i].id < n
    ensures t == [] ==> n == 1
  {
    (if t == [] then 0 else MaxId(t)) + 1
  }

  /** `find(['is_active' => true])`: the active rows, in their order. */
  function ActiveRows(t: Table): (r: Table)
    ensures |r| <= |t|
    ensures forall x :: x in r <==> x in t && x.active
  {
    if t == [] then []
    else (if t[0].active then [t[0]] else []) + ActiveRows(t[1..])
  }

  // ---------------------------------------------------------------------------
  // Writes

  /** `insertOne(row)`: appends the row, or fails with a duplicate key. */
  function InsertOne(t: Table, row: Row): (r: Option<Table>)
    ensures r.Some? <==> !NameTaken(t, row.name) && !IdTaken(t, row.id)
    ensures r.Some? ==> r.value == t + [row]
  {
    if NameTaken(t, row.name) || IdTaken(t, row.id) then None else Some(t + [row])
  }

  /** The `$set` documents used on lookup rows; every one also sets `updated_at`. */
  datatype Change = SetName(name: string) | SetActive(active: bool)

  function Apply(row: Row, c: Change, now: int): (r: Row)
    ensures r.id == row.id && r.updatedAt == now
    ensures r.name == (if c.SetName? then c.name else row.name)
    ensures r.active == (if c.SetActive? then c.active else row.active)
  {
    match c
    case SetName(n) => row.(name := n, updatedAt := now)
    case SetActive(a) => row.(active := a, updatedAt := now)
  }

  /**
   * What `updateOne` reports: the new table with the matched and modified
   * counts (each 0 or 1, written as booleans), or the duplicate-key error.
   */
  datatype UpdateResult = Updated(table: Table, matched: bool, modified: bool) | DuplicateKey

  /**
   * `updateOne(filter, ['$set' => change])`: rewrites the first matching row.
   * A row counts as modified only when the write changes it.
   */
  function UpdateOne(t: Table, f: Filter, c: Change, now: int): (r: UpdateResult)
    ensures r.Updated? ==> |r.table| == |t|
    ensures r.Updated? && !r.matched ==> r.table == t && !r.modified
    ensures FindFirst(t, f).None? ==> r == Updated(t, false, false)
    ensures FindFirst(t, f).Some? ==>
      var i := FindFirst(t, f).value;
      var row := Apply(t[i], c, now);
      if c.SetName? && exists j :: 0 <= j < |t| && j != i && t[j].name == c.name then r == DuplicateKey
      else r == Updated(t[i := row], true, row != t[i])
  {
    match FindFirst(t, f)
    case None => Updated(t, false, false)
    case Some(i) =>
      var row := Apply(t[i], c, now);
      if c.SetName? && exists j :: 0 <= j < |t| && j != i && t[j].name == c.name then DuplicateKey
      else Updated(t[i := row], true, row != t[i])
  }

  /** `deleteOne(filter)`: removes the first matching row; reports whether one was removed. */
  function DeleteOne(t: Table, f: Filter): (r: (Table, bool))
    ensures r.1 <==> FindFirst(t, f).Some?
    ensures r.1 ==> var i := FindFirst(t, f).value; r.0 == t[..i] + t[i + 1..]
    ensures !r.1 ==> r.0 == t
  {
    match FindFirst(t, f)
    case None => (t, false)
    case Some(i) => (t[..i] + t[i + 1..], true)
  }

  /** `deleteMany(['is_active' => false])`: the kept rows and the deleted count. */
  function DeleteInactive(t: Table): (r: (Table, nat))
    ensures r.0 == ActiveRows(t)
    ensures r.1 + |r.0| == |t|
    ensures forall x :: x in r.0 <==> x in t && x.active
  {
    if t == [] then ([], 0)
    else
      var (rest, n) := DeleteInactive(t[1..]);
      if t[0].active then ([t[0]] + rest, n) else (rest, n + 1)
  }

  // ---------------------------------------------------------------------------
  // Index preservation

  lemma InsertPreservesIndexes(t: Table, row: Row)
    requires UniqueIndexes(t) && InsertOne(t, row).Some?
    ensures UniqueIndexes(InsertOne(t, row).value)
  {
    var t' := InsertOne(t, row).value;
    forall i, j | 0 <= i < j < |t'| ensures t'[i].name != t'[j].name && t'[i].id != t'[j].id {
      if j == |t| {
        assert t'[i] == t[i];
      }
    }
  }

  lemma UpdatePreservesIndexes(t: Table, f: Filter, c: Change, now: int)
    requires UniqueIndexes(t) && UpdateOne(t, f, c, now).Updated?
    ensures UniqueIndexes(UpdateOne(t, f, c, now).table)
  {
  }

  lemma DeletePreservesIndexes(t: Table, f: Filter)
    requires UniqueIndexes(t)
    ensures UniqueIndexes(DeleteOne(t, f).0)
  {
    var (t', del) := DeleteOne(t, f);
    if del {
      var k := FindFirst(t, f).value;
      forall i, j | 0 <= i < j < |t'| ensures t'[i].name != t'[j].name && t'[i].id != t'[j].id {
        var i0 := if i < k then i else i + 1;
        var j0 := if j < k then j else j + 1;
        assert t'[i] == t[i0] && t'[j] == t[j0];
      }
    }
  }

  lemma TailIndexes(t: Table)
    requires UniqueIndexes(t) && t != []
    ensures UniqueIndexes(t[1..])
    ensures forall x :: x in t[1..] ==> x.name != t[0].name && x.id != t[0].id
  {
    forall x | x in t[1..] ensures x.name != t[0].name && x.id != t[0].id {
      var k :| 0 <= k < |t[1..]| && t[1..][k] == x;
      assert x == t[k + 1];
    }
  }

  lemma ConsIndexes(x: Row, rest: Table)
    requires UniqueIndexes(rest)
    requires forall y :: y in rest ==> y.name != x.name && y.id != x.id
    ensures UniqueIndexes([x] + rest)
  {
    var r := [x] + rest;
    forall i, j | 0 <= i < j < |r| ensures r[i].name != r[j].name && r[i].id != r[j].id {
      assert r[j] == rest[j - 1];
      if i > 0 {
        assert r[i] == rest[i - 1];
      } else {
        assert rest[j - 1] in rest;
      }
    }
  }

  lemma {:induction false} CleanupPreservesIndexes(t: Table)
    requires UniqueIndexes(t)
    ensures UniqueIndexes(ActiveRows(t))
  {
    if t != [] {
      TailIndexes(t);
      CleanupPreservesIndexes(t[1..]);
      if t[0].active {
        ConsIndexes(t[0], ActiveRows(t[1..]));
      }
    }
  }

  /** Under the unique name index, a row named `name` is the only one with that name. */
  lemma UniqueName(t: Table, i: nat, j: nat)
    requires UniqueIndexes(t) && i < |t| && j < |t| && t[i].name == t[j].name
    ensures i == j
  {
  }

  /** `findOne` on a table with one row appended. */
  lemma FindFirstAppend(t: Table, row: Row, f: Filter)
    ensures FindFirst(t + [row], f) ==
      if FindFirst(t, f).Some? then FindFirst(t, f)
      else if Matches(f, row) then Some(|t|)
      else None
  {
    var u := t + [row];
    if FindFirst(t, f).Some? {
      var k := FindFirst(t, f).value;
      assert u[k] == t[k];
      forall i | 0 <= i < k ensures !Matches(f, u[i]) {
        assert u[i] == t[i];
      }
      FindFirstAt(u, f, k);
    } else {
      forall i | 0 <= i < |t| ensures !Matches(f, u[i]) {
        assert u[i] == t[i];
      }
      assert u[|t|] == row;
      if Matches(f, row) {
        FindFirstAt(u, f, |t|);
      }
    }
  }

  /** The first matching position is the one `findOne` reports. */
  lemma FindFirstAt(t: Table, f: Filter, k: nat)
    requires k < |t| && Matches(f, t[k]) && forall i :: 0 <= i < k ==> !Matches(f, t[i])
    ensures FindFirst(t, f) == Some(k)
  {
    var r := FindFirst(t, f);
    assert r.Some?;
  }

  // ---------------------------------------------------------------------------
  // ensureReferenceDataWithId (controllers/FeatureController.php:1362-1388)

  /**
   * What `ensureReferenceDataWithId` does to one lookup table: `Skipped` for a
   * blank value (the method returns null), `Found` with the id of the active row
   * that already has the trimmed name, `Minted` with the new id and table, or
   * `Collision` when the insert hits the unique name index (the method then
   * throws the driver's duplicate-key exception).
   */
  datatype Ensured = Skipped | Found(id: int) | Minted(id: int, table: Table) | Collision

  function Ensure(t: Table, value: string, now: int): (r: Ensured)
    ensures r.Skipped? <==> IsBlank(value)
    ensures r.Minted? ==> r.table == t + [Row(r.id, Trim(value), true, now)]
  {
    if IsBlank(value) then Skipped
    else
      var name := Trim(value);
      match FindFirst(t, ActiveNamed(name))
      case Some(i) => Found(t[i].id)
      case None =>
        var id := NextId(t);
        match InsertOne(t, Row(id, name, true, now))
        case Some(t') => Minted(id, t')
        case None => Collision
  }

  /**
   * The four outcomes of `Ensure`: skipped exactly for a blank value; the id of
   * the active row that already carries the trimmed name; otherwise one new
   * active row appended, with an id above every existing one; or, when only an
   * inactive row keeps the name, the index's rejection.
   */
  lemma EnsureSpec(t: Table, value: string, now: int)
    ensures var r := Ensure(t, value, now);
      (r.Found? <==> !IsBlank(value) && FindFirst(t, ActiveNamed(Trim(value))).Some?) &&
      (r.Found? ==> exists i :: 0 <= i < |t| && t[i] == Row(r.id, Trim(value), true, t[i].updatedAt)) &&
      (r.Minted? ==> r.id == NextId(t) && forall i :: 0 <= i < |t| ==> t[i].id < r.id) &&
      (r.Collision? <==>
        !IsBlank(value) && FindFirst(t, ActiveNamed(Trim(value))).None? && NameTaken(t, Trim(value)))
  {
  }

  /** The table after `Ensure`: only `Minted` changes it. */
  function EnsuredTable(t: Table, r: Ensured): Table {
    if r.Minted? then r.table else t
  }

  lemma EnsurePreservesIndexes(t: Table, value: string, now: int)
    requires UniqueIndexes(t)
    ensures UniqueIndexes(EnsuredTable(t, Ensure(t, value, now)))
  {
    var r := Ensure(t, value, now);
    if r.Minted? {
      InsertPreservesIndexes(t, Row(r.id, Trim(value), true, now));
    }
  }

  /**
   * Calling `ensureReferenceDataWithId` a second time, at any later instant,
   * changes nothing and answers the same: the id minted or found the first time,
   * a skip, or another collision.
   */
  lemma EnsureIdempotent(t: Table, value: string, now: int, later: int)
    ensures
      var r1 := Ensure(t, value, now);
      var t1 := EnsuredTable(t, r1);
      var r2 := Ensure(t1, value, later);
      EnsuredTable(t1, r2) == t1 &&
      (r1.Minted? ==> r2 == Found(r1.id)) &&
      (!r1.Minted? ==> r2 == r1)
  {
    var r1 := Ensure(t, value, now);
    if r1.Minted? {
      var name := Trim(value);
      var row := Row(r1.id, name, true, now);
      FindFirstAppend(t, row, ActiveNamed(name));
      assert (t + [row])[|t|] == row;
    } else if r1.Found? {
      var name := Trim(value);
      var i := FindFirst(t, ActiveNamed(name)).value;
      assert Ensure(t, value, later) == Found(t[i].id);
    }
  }

  // ---------------------------------------------------------------------------
  // updateReferenceData (controllers/FeatureController.php:68-139)

  /**
   * What the controller's `updateReferenceData` does to one lookup table, given
   * how many records still hold the old value (`stillUsed`). Returns the
   * method's boolean answer and the new table. Exceptions from the driver are
   * caught there and answer false; the table is then unchanged.
   *
   * Quirk, modelled as written: when an active row already carries the new name,
   * the old row is deactivated when `stillUsed <= 1`. The count is taken after
   * the record being edited was rewritten, so a value still held by exactly one
   * other record is retired as well.
   */
  function RenameReference(t: Table, stillUsed: nat, oldValue: string, newValue: string, now: int): (r: (bool, Table))
    ensures IsBlank(oldValue) || IsBlank(newValue) ==> r == (false, t)
    ensures !IsBlank(oldValue) && !IsBlank(newValue) && Trim(oldValue) == Trim(newValue) ==> r == (true, t)
    ensures !r.0 ==> r.1 == t
  {
    if IsBlank(oldValue) || IsBlank(newValue) then (false, t)
    else
      var o := Trim(oldValue);
      var n := Trim(newValue);
      if o == n then (true, t)
      else
        match FindFirst(t, ActiveNamed(n))
        case None =>
          (match UpdateOne(t, ActiveNamed(o), SetName(n), now)
           case DuplicateKey => (false, t)
           case Updated(t2, matched, _) =>
             if matched then (true, t2)
             else
               match Ensure(t2, n, now)
               case Collision => (false, t)
               case Minted(_, t3) => (true, t3)
               case _ => (true, t2))
        case Some(_) =>
          if stillUsed <= 1 then
            match UpdateOne(t, ActiveNamed(o), SetActive(false), now)
            case Updated(t2, _, _) => (true, t2)
            case DuplicateKey => (true, t)
          else (true, t)
  }

  /**
   * No active row has the new name: the active row with the old name is
   * renamed where it stands and keeps its id, provided no inactive row holds the
   * new name (otherwise the unique index rejects it and the answer is false).
   */
  lemma RenameInPlace(t: Table, stillUsed: nat, oldValue: string, newValue: string, now: int, i: nat)
    requires !IsBlank(oldValue) && !IsBlank(newValue) && Trim(oldValue) != Trim(newValue)
    requires !(exists k :: 0 <= k < |t| && t[k].name == Trim(newValue) && t[k].active)
    requires i < |t| && t[i].name == Trim(oldValue) && t[i].active
    requires UniqueIndexes(t)
    ensures NameTaken(t, Trim(newValue)) ==> RenameReference(t, stillUsed, oldValue, newValue, now) == (false, t)
    ensures !NameTaken(t, Trim(newValue)) ==>
      var r := RenameReference(t, stillUsed, oldValue, newValue, now);
      r.0 && |r.1| == |t| && r.1[i] == Row(t[i].id, Trim(newValue), true, now) &&
      forall k :: 0 <= k < |t| && k != i ==> r.1[k] == t[k]
  {
    var o := Trim(oldValue);
    assert FindFirst(t, ActiveNamed(o)) == Some(i);
  }

  /** No row at all has the old name active, and none has the new name: a fresh row is minted. */
  lemma RenameMints(t: Table, stillUsed: nat, oldValue: string, newValue: string, now: int)
    requires !IsBlank(oldValue) && !IsBlank(newValue) && Trim(oldValue) != Trim(newValue)
    requires !(exists k :: 0 <= k < |t| && t[k].name == Trim(oldValue) && t[k].active)
    requires !NameTaken(t, Trim(newValue))
    ensures RenameReference(t, stillUsed, oldValue, newValue, now) ==
      (true, t + [Row(NextId(t), Trim(newValue), true, now)])
  {
    TrimIdempotent(newValue);
  }

  /**
   * An active row already has the new name: that row, and every row other than
   * the active old one, is left as it was; the active old row is deactivated
   * exactly when `stillUsed <= 1`.
   */
  lemma RenameOntoExisting(t: Table, stillUsed: nat, oldValue: string, newValue: string, now: int, k: nat)
    requires !IsBlank(oldValue) && !IsBlank(newValue) && Trim(oldValue) != Trim(newValue)
    requires k < |t| && t[k].name == Trim(newValue) && t[k].active
    requires UniqueIndexes(t)
    ensures
      var r := RenameReference(t, stillUsed, oldValue, newValue, now);
      r.0 && |r.1| == |t| && r.1[k] == t[k] &&
      forall i :: 0 <= i < |t| ==>
        if t[i].name == Trim(oldValue) && t[i].active && stillUsed <= 1
        then r.1[i] == t[i].(active := false, updatedAt := now)
        else r.1[i] == t[i]
  {
    var o, n := Trim(oldValue), Trim(newValue);
    assert FindFirst(t, ActiveNamed(n)).Some?;
    var f := FindFirst(t, ActiveNamed(o));
    var r := RenameReference(t, stillUsed, oldValue, newValue, now);
    if stillUsed <= 1 && f.Some? {
      var j := f.value;
      assert r.1 == t[j := t[j].(active := false, updatedAt := now)];
      assert j != k;
      assert forall i :: 0 <= i < |t| && i != j ==> !(t[i].name == o && t[i].active);
    } else {
      assert r.1 == t;
    }
  }

  lemma RenamePreservesIndexes(t: Table, stillUsed: nat, oldValue: string, newValue: string, now: int)
    requires UniqueIndexes(t)
    ensures UniqueIndexes(RenameReference(t, stillUsed, oldValue, newValue, now).1)
  {
    if !IsBlank(oldValue) && !IsBlank(newValue) && Trim(oldValue) != Trim(newValue) {
      var o, n := Trim(oldValue), Trim(newValue);
      if FindFirst(t, ActiveNamed(n)).None? {
        var u := UpdateOne(t, ActiveNamed(o), SetName(n), now);
        if u.Updated? && !u.matched {
          EnsurePreservesIndexes(t, n, now);
        } else if u.Updated? {
          UpdatePreservesIndexes(t, ActiveNamed(o), SetName(n), now);
        }
      } else if stillUsed <= 1 {
        UpdatePreservesIndexes(t, ActiveNamed(o), SetActive(false), now);
      }
    }
  }

  // ---------------------------------------------------------------------------
  // The Database class's single-table writes (config.php:170-269)

  /** `Database::addReferenceData`: the id found or minted, or false (None) on a blank name or a collision. */
  function AddedId(r: Ensured): (id: Option<int>)
    ensures id.Some? <==> r.Found? || r.Minted?
    ensures r.Found? ==> id == Some(r.id)
    ensures r.Minted? ==> id == Some(r.id)
  {
    match r
    case Found(i) => Some(i)
    case Minted(i, _) => Some(i)
    case _ => None
  }

  /** A row other than `i` already carries `name`, so the unique name index refuses to give it to `i`. */
  predicate NameHeldElsewhere(t: Table, i: int, name: string) {
    exists j :: 0 <= j < |t| && j != i && t[j].name == name
  }

  /**
   * `Database::updateReferenceData`: rejects a blank new name, then renames the
   * first row called `oldName` (active or not) to the trimmed new name; true
   * only when that changed a row.
   */
  function RenameRow(t: Table, oldName: string, newName: string, now: int): (r: (bool, Table))
    ensures IsBlank(newName) ==> r == (false, t)
    ensures !IsBlank(newName) && FindFirst(t, Named(oldName)).None? ==> r == (false, t)
    ensures !IsBlank(newName) && FindFirst(t, Named(oldName)).Some? ==>
      var i := FindFirst(t, Named(oldName)).value;
      var row := t[i].(name := Trim(newName), updatedAt := now);
      r == (if NameHeldElsewhere(t, i, Trim(newName)) then (false, t) else (row != t[i], t[i := row]))
    ensures !r.0 ==> r.1 == t
    ensures r.0 ==> exists i :: (0 <= i < |t| && t[i].name == oldName &&
      r.1 == t[i := t[i].(name := Trim(newName), updatedAt := now)] &&
      (forall j :: 0 <= j < i ==> t[j].name != oldName) &&
      (forall j :: 0 <= j < |t| && j != i ==> t[j].name != Trim(newName)))
  {
    if IsBlank(newName) then (false, t)
    else
      match UpdateOne(t, Named(oldName), SetName(Trim(newName)), now)
      case DuplicateKey => (false, t)
      case Updated(t2, _, modified) =>
        if modified then (true, t2)
        else
          assert t2 == t by {
            if FindFirst(t, Named(oldName)).Some? {
              var i := FindFirst(t, Named(oldName)).value;
              assert t2 == t[i := t[i]];
            }
          }
          (false, t)
  }

  /**
   * `Database::deactivateReferenceData` / `reactivateReferenceData`: sets
   * `is_active` on the first row with that name; true only when that changed the
   * row, which includes refreshing `updated_at`.
   */
  function SetActiveByName(t: Table, name: string, active: bool, now: int): (r: (bool, Table))
    ensures FindFirst(t, Named(name)).None? ==> r == (false, t)
    ensures FindFirst(t, Named(name)).Some? ==>
      var i := FindFirst(t, Named(name)).value;
      var row := t[i].(active := active, updatedAt := now);
      r == (row != t[i], t[i := row])
  {
    match UpdateOne(t, Named(name), SetActive(active), now)
    case DuplicateKey => (false, t)
    case Updated(t2, _, modified) => (modified, t2)
  }

  /** A repeated call at the same instant changes nothing and answers false. */
  lemma SetActiveTwiceSameInstant(t: Table, name: string, active: bool, now: int)
    ensures
      var (_, t1) := SetActiveByName(t, name, active, now);
      SetActiveByName(t1, name, active, now) == (false, t1)
  {
    var t1 := SetActiveByName(t, name, active, now).1;
    var f := FindFirst(t, Named(name));
    if f.Some? {
      var i := f.value;
      var row := t[i].(active := active, updatedAt := now);
      assert t1 == t[i := row];
      assert forall j :: 0 <= j < |t| ==> (t1[j].name == t[j].name);
      assert FindFirst(t1, Named(name)) == f by {
        var g := FindFirst(t1, Named(name));
        assert Matches(Named(name), t1[i]);
      }
      assert t1[i].(active := active, updatedAt := now) == t1[i];
      assert t1[i := t1[i]] == t1;
    }
  }

  /**
   * A repeated call at a later instant still counts as a modification, because
   * `updated_at` changes: the second call answers true whenever the name exists.
   */
  lemma SetActiveTwiceLater(t: Table, name: string, active: bool, now: int, later: int)
    requires later != now && NameTaken(t, name)
    ensures
      var (_, t1) := SetActiveByName(t, name, active, now);
      SetActiveByName(t1, name, active, later).0
  {
    var (_, t1) := SetActiveByName(t, name, active, now);
    var i := FindFirst(t, Named(name)).value;
    assert forall j :: 0 <= j < |t| ==> (t1[j].name == t[j].name);
    assert FindFirst(t1, Named(name)) == Some(i) by {
      var g := FindFirst(t1, Named(name));
      assert Matches(Named(name), t1[i]);
    }
  }
}
