// The `Database` class of config.php: the five lookup tables and the `overall`
// record store, with the table operations the class offers. MongoDB itself is
// replaced by in-memory sequences; the unique indexes on each lookup table are
// the class invariant.
module Store {
  import opened Wrappers
  import opened Text
  import opened Categories
  import opened Sorting
  import opened RefTable
  import opened Records
  import opened Deletion

  /** The names of the active rows, in table order. */
  function ActiveNames(t: Table): (r: seq<string>)
    ensures |r| <= |t|
    ensures forall x :: x in r <==> exists i :: 0 <= i < |t| && t[i].active && t[i].name == x
  {
    if t == [] then []
    else
      var rest := ActiveNames(t[1..]);
      assert forall i :: 1 <= i < |t| ==> t[i] == t[1..][i - 1];
      (if t[0].active then [t[0].name] else []) + rest
  }

  /** No value occurs twice. */
  ghost predicate Distinct(s: seq<string>) {
    forall i, j :: 0 <= i < j < |s| ==> s[i] != s[j]
  }

  /** Under the unique name index, no active name occurs twice. */
  lemma {:induction false} ActiveNamesDistinct(t: Table)
    requires UniqueIndexes(t)
    ensures Distinct(ActiveNames(t))
  {
    if t != [] {
      var rest := ActiveNames(t[1..]);
      assert UniqueIndexes(t[1..]) by {
        forall i, j | 0 <= i < j < |t[1..]| ensures t[1..][i].name != t[1..][j].name && t[1..][i].id != t[1..][j].id {
          assert t[1..][i] == t[i + 1] && t[1..][j] == t[j + 1];
        }
      }
      ActiveNamesDistinct(t[1..]);
      if t[0].active {
        forall i | 0 <= i < |t[1..]| ensures t[1..][i].name != t[0].name {
          assert t[1..][i] == t[i + 1];
        }
        ConsDistinct(t[0].name, rest);
      }
    }
  }

  lemma ConsDistinct(x: string, s: seq<string>)
    requires Distinct(s) && x !in s
    ensures Distinct([x] + s)
  {
    var r := [x] + s;
    forall i, j | 0 <= i < j < |r| ensures r[i] != r[j] {
      assert r[j] == s[j - 1];
      if i > 0 {
        assert r[i] == s[i - 1];
      }
    }
  }

  /** A value that occurs at two positions occurs at least twice in the multiset. */
  lemma TwiceInMultiset(s: seq<string>, i: int, j: int)
    requires 0 <= i < j < |s| && s[i] == s[j]
    ensures multiset(s)[s[i]] >= 2
  {
    assert s == s[..j] + s[j..];
    assert s[i] in s[..j] && s[j] == s[j..][0];
    assert multiset(s) == multiset(s[..j]) + multiset(s[j..]);
  }

  /** In a sequence without repeats, every value occurs at most once. */
  lemma {:induction false} DistinctOnce(s: seq<string>, x: string)
    requires Distinct(s)
    ensures multiset(s)[x] <= 1
  {
    if s != [] {
      assert Distinct(s[1..]) by {
        forall i, j | 0 <= i < j < |s[1..]| ensures s[1..][i] != s[1..][j] {
          assert s[1..][i] == s[i + 1] && s[1..][j] == s[j + 1];
        }
      }
      DistinctOnce(s[1..], x);
      assert s == [s[0]] + s[1..];
      assert multiset(s) == multiset{s[0]} + multiset(s[1..]);
      if x == s[0] {
        forall k | 0 <= k < |s[1..]| ensures s[1..][k] != x {
          assert s[1..][k] == s[k + 1];
        }
      }
    }
  }

  /** Sorting values without repeats gives a strictly ascending sequence of the same values. */
  lemma SortDistinctStrict(s: seq<string>, r: seq<string>)
    requires Distinct(s) && Sorted(r) && multiset(r) == multiset(s)
    ensures StrictlySorted(r)
    ensures forall x :: x in r <==> x in s
  {
    forall i, j | 0 <= i < j < |r| ensures Below(r[i], r[j]) {
      if r[i] == r[j] {
        TwiceInMultiset(r, i, j);
        DistinctOnce(s, r[i]);
      }
      assert AtMost(r[i], r[j]);
    }
    forall x ensures x in r <==> x in s {
      assert x in r <==> x in multiset(r);
      assert x in s <==> x in multiset(s);
    }
  }

  /** `ids` with some elements left out, the rest in their original order. */
  predicate IsSubsequence(xs: seq<string>, ids: seq<string>)
    decreases |ids|
  {
    if xs == [] then true
    else if ids == [] then false
    else (xs[0] == ids[0] && IsSubsequence(xs[1..], ids[1..])) || IsSubsequence(xs, ids[1..])
  }

  /** `Database::deleteFeature($id)` on a record sequence: the new sequence and the answer. */
  function DeleteById(records: seq<Record>, id: string): (r: (seq<Record>, bool))
    ensures r.1 <==> ParseObjectId(id).Some? && HasOid(records, ParseObjectId(id).value)
    ensures !r.1 ==> r.0 == records
    ensures r.1 ==> r.0 == RemoveAt(records, IndexOfOid(records, ParseObjectId(id).value).value)
  {
    match ParseObjectId(id)
    case None => (records, false)
    case Some(oid) =>
      match IndexOfOid(records, oid)
      case None => (records, false)
      case Some(i) => (RemoveAt(records, i), true)
  }

  /** `Database::bulkDeleteFeatures`: each id deleted in turn; the survivors, the count and the failed ids. */
  function BulkDelete(records: seq<Record>, ids: seq<string>): (r: (seq<Record>, nat, seq<string>))
    decreases |ids|
  {
    if ids == [] then (records, 0, [])
    else
      var (next, ok) := DeleteById(records, ids[0]);
      var (rest, n, errs) := BulkDelete(next, ids[1..]);
      if ok then (rest, n + 1, errs) else (rest, n, [ids[0]] + errs)
  }

  /**
   * Every id is either counted as deleted or listed as an error, and the errors
   * keep their input order.
   */
  lemma {:induction false} BulkDeleteAccounts(records: seq<Record>, ids: seq<string>)
    ensures var (_, n, errs) := BulkDelete(records, ids); n + |errs| == |ids| && IsSubsequence(errs, ids)
    decreases |ids|
  {
    if ids != [] {
      var (next, ok) := DeleteById(records, ids[0]);
      BulkDeleteAccounts(next, ids[1..]);
      var (rest, n, errs) := BulkDelete(next, ids[1..]);
      if ok {
        SubsequenceOfTail(errs, ids);
      } else {
        assert ([ids[0]] + errs)[1..] == errs;
      }
    }
  }

  lemma SubsequenceOfTail(xs: seq<string>, ids: seq<string>)
    requires ids != [] && IsSubsequence(xs, ids[1..])
    ensures IsSubsequence(xs, ids)
  {
  }

  /** Deleting a list of ids removes exactly one record per successful id. */
  lemma {:induction false} BulkDeleteShrinks(records: seq<Record>, ids: seq<string>)
    ensures var (rest, n, _) := BulkDelete(records, ids); |rest| + n == |records|
    decreases |ids|
  {
    if ids != [] {
      var (next, ok) := DeleteById(records, ids[0]);
      BulkDeleteShrinks(next, ids[1..]);
    }
  }

  lemma {:induction false} BulkDeletePreservesOids(records: seq<Record>, ids: seq<string>)
    requires OidsUnique(records)
    ensures OidsUnique(BulkDelete(records, ids).0)
    decreases |ids|
  {
    if ids != [] {
      var (next, ok) := DeleteById(records, ids[0]);
      if ok {
        RemovePreservesOids(records, IndexOfOid(records, ParseObjectId(ids[0]).value).value);
      }
      BulkDeletePreservesOids(next, ids[1..]);
    }
  }

  /** The unique indexes hold in all five collections. */
  ghost predicate AllUnique(ts: PerCategory<Table>) {
    UniqueIndexes(ts.systemName) && UniqueIndexes(ts.moduleName) && UniqueIndexes(ts.featureName) &&
    UniqueIndexes(ts.clientName) && UniqueIndexes(ts.sourceName)
  }

  lemma AllUniqueGet(ts: PerCategory<Table>, c: Category)
    requires AllUnique(ts)
    ensures UniqueIndexes(ts.Get(c))
  {
  }

  /** Replacing one table by another with unique indexes keeps every table's indexes unique. */
  lemma SetPreservesIndexes(ts: PerCategory<Table>, c: Category, t: Table)
    requires AllUnique(ts)
    requires UniqueIndexes(t)
    ensures AllUnique(ts.Set(c, t))
  {
  }

  class Database {
    /** `system_names`, `modules`, `features`, `clients`, `sources`. */
    var tables: PerCategory<Table>
    /** `overall`, in its stored order. */
    var overall: seq<Record>

    ghost predicate Valid()
      reads this
    {
      AllUnique(tables) && OidsUnique(overall)
    }

    constructor ()
      ensures Valid() && tables == Uniform([]) && overall == []
    {
      tables := Uniform([]);
      overall := [];
    }

    /**
     * `getActiveReferenceData`: the names of the active rows, sorted by name,
     * leaving out empty ones.
     */
    method GetActiveReferenceData(c: Category) returns (names: seq<string>)
      requires Valid()
      ensures StrictlySorted(names)
      ensures forall x :: x in names <==>
        !IsEmpty(x) && exists i :: 0 <= i < |tables.Get(c)| && tables.Get(c)[i].active && tables.Get(c)[i].name == x
    {
      AllUniqueGet(tables, c);
      ActiveNamesDistinct(tables.Get(c));
      var cursor := Sort(ActiveNames(tables.Get(c)));
      SortDistinctStrict(ActiveNames(tables.Get(c)), cursor);
      names := [];
      var k := 0;
      while k < |cursor|
        invariant 0 <= k <= |cursor|
        invariant forall i, j :: 0 <= i < j < |names| ==> Below(names[i], names[j])
        invariant forall x :: x in names <==> x in cursor[..k] && !IsEmpty(x)
        invariant forall i, j :: 0 <= i < |names| && k <= j < |cursor| ==> Below(names[i], cursor[j])
      {
        var doc := cursor[k];
        assert forall j :: k < j < |cursor| ==> Below(doc, cursor[j]);
        if !IsEmpty(doc) {
          assert forall i :: 0 <= i < |names| ==> Below(names[i], doc);
          names := names + [doc];
        }
        assert cursor[..k + 1] == cursor[..k] + [doc];
        k := k + 1;
      }
      assert cursor[..k] == cursor;
    }

    /**
     * `addReferenceData`: the id of the active row with the trimmed name, or of
     * a newly minted row, or None (false) for a blank name or when the unique
     * name index rejects the insert because an inactive row keeps the name.
     */
    method AddReferenceData(c: Category, name: string, now: int) returns (id: Option<int>)
      requires Valid()
      modifies this
      ensures Valid() && overall == old(overall)
      ensures var r := Ensure(old(tables.Get(c)), name, now);
        id == AddedId(r) && tables == old(tables).Set(c, EnsuredTable(old(tables.Get(c)), r))
    {
      var r := Ensure(tables.Get(c), name, now);
      EnsurePreservesIndexes(tables.Get(c), name, now);
      tables := tables.Set(c, EnsuredTable(tables.Get(c), r));
      id := AddedId(r);
    }

    /** `updateReferenceData`: renames the first row called `oldName`; see `RenameRow`. */
    method UpdateReferenceData(c: Category, oldName: string, newName: string, now: int) returns (ok: bool)
      requires Valid()
      modifies this
      ensures Valid() && overall == old(overall)
      ensures var r := RenameRow(old(tables.Get(c)), oldName, newName, now);
        ok == r.0 && tables == old(tables).Set(c, r.1)
    {
      var t := tables.Get(c);
      var r := RenameRow(t, oldName, newName, now);
      if !IsBlank(newName) {
        var u := UpdateOne(t, Named(oldName), SetName(Trim(newName)), now);
        if u.Updated? {
          UpdatePreservesIndexes(t, Named(oldName), SetName(Trim(newName)), now);
        }
      }
      tables := tables.Set(c, r.1);
      ok := r.0;
    }

    /** `deactivateReferenceData` (active = false) and `reactivateReferenceData` (active = true). */
    method SetReferenceActive(c: Category, name: string, active: bool, now: int) returns (ok: bool)
      requires Valid()
      modifies this
      ensures Valid() && overall == old(overall)
      ensures var r := SetActiveByName(old(tables.Get(c)), name, active, now);
        ok == r.0 && tables == old(tables).Set(c, r.1)
    {
      var t := tables.Get(c);
      var r := SetActiveByName(t, name, active, now);
      if UpdateOne(t, Named(name), SetActive(active), now).Updated? {
        UpdatePreservesIndexes(t, Named(name), SetActive(active), now);
      }
      tables := tables.Set(c, r.1);
      ok := r.0;
    }

    /** `insertOne` on `overall`: the record is appended; its `_id` is not yet taken. */
    method InsertRecord(r: Record)
      requires Valid() && !HasOid(overall, r.oid)
      modifies this
      ensures Valid() && tables == old(tables)
      ensures overall == old(overall) + [r]
    {
      AppendPreservesOids(overall, r);
      overall := overall + [r];
    }

    /** `updateOne(['_id' => ...], ['$set' => ...])` on `overall`: the record at `i` is rewritten, keeping its `_id`. */
    method ReplaceRecord(i: nat, r: Record)
      requires Valid() && i < |overall| && r.oid == overall[i].oid
      modifies this
      ensures Valid() && tables == old(tables)
      ensures overall == old(overall)[i := r]
    {
      ReplacePreservesOids(overall, i, r);
      overall := overall[i := r];
    }

    /** `deleteOne(['_id' => ...])` on `overall`: the record at `i` is removed. */
    method RemoveRecord(i: nat)
      requires Valid() && i < |overall|
      modifies this
      ensures Valid() && tables == old(tables)
      ensures overall == RemoveAt(old(overall), i)
    {
      RemovePreservesOids(overall, i);
      overall := RemoveAt(overall, i);
    }

    /** `deleteMany(['_id' => ['$in' => oids]])` on `overall`: the number of records removed. */
    method DeleteMany(oids: seq<string>) returns (n: nat)
      requires Valid()
      modifies this
      ensures Valid() && tables == old(tables)
      ensures overall == Kept(old(overall), oids) && n == |Selected(old(overall), oids)|
    {
      KeptPreservesOids(overall, oids);
      n := |Selected(overall, oids)|;
      overall := Kept(overall, oids);
    }

    /** `deleteOne(['name' => name, 'is_active' => true])` on one lookup collection. */
    method DeleteActiveRow(c: Category, name: string) returns (deleted: bool)
      requires Valid()
      modifies this
      ensures Valid() && overall == old(overall)
      ensures var r := DeleteOne(old(tables.Get(c)), ActiveNamed(name));
        deleted == r.1 && tables == old(tables).Set(c, r.0)
    {
      var r := DeleteOne(tables.Get(c), ActiveNamed(name));
      DeletePreservesIndexes(tables.Get(c), ActiveNamed(name));
      tables := tables.Set(c, r.0);
      deleted := r.1;
    }

    /** `deleteFeature`: removes the record with that id; false for a malformed or unknown id. */
    method DeleteFeature(id: string) returns (ok: bool)
      requires Valid()
      modifies this
      ensures Valid() && tables == old(tables)
      ensures (overall, ok) == DeleteById(old(overall), id)
    {
      var r := DeleteById(overall, id);
      if r.1 {
        RemovePreservesOids(overall, IndexOfOid(overall, ParseObjectId(id).value).value);
      }
      overall := r.0;
      ok := r.1;
    }

    /** `bulkDeleteFeatures`: `deleteFeature` on each id in turn. */
    method BulkDeleteFeatures(ids: seq<string>) returns (deleted: nat, errors: seq<string>)
      requires Valid()
      modifies this
      ensures Valid() && tables == old(tables)
      ensures (overall, deleted, errors) == BulkDelete(old(overall), ids)
      ensures deleted + |errors| == |ids|
    {
      deleted, errors := 0, [];
      var k := 0;
      ghost var goal := BulkDelete(overall, ids);
      assert ids[0..] == ids;
      while k < |ids|
        invariant 0 <= k <= |ids|
        invariant Valid() && tables == old(tables)
        invariant goal.0 == BulkDelete(overall, ids[k..]).0
        invariant goal.1 == deleted + BulkDelete(overall, ids[k..]).1
        invariant goal.2 == errors + BulkDelete(overall, ids[k..]).2
      {
        ghost var before := overall;
        assert ids[k..][0] == ids[k] && ids[k..][1..] == ids[k + 1..];
        var ok := DeleteFeature(ids[k]);
        ghost var tail := BulkDelete(overall, ids[k + 1..]);
        assert BulkDelete(before, ids[k..]) ==
          if ok then (tail.0, tail.1 + 1, tail.2) else (tail.0, tail.1, [ids[k]] + tail.2);
        if ok {
          deleted := deleted + 1;
        } else {
          assert errors + ([ids[k]] + tail.2) == (errors + [ids[k]]) + tail.2;
          errors := errors + [ids[k]];
        }
        k := k + 1;
      }
      assert ids[k..] == [] && errors + [] == errors;
      BulkDeleteAccounts(old(overall), ids);
    }

    /** `deleteMany(['is_active' => false])` on one lookup table: the number of rows removed. */
    method PurgeInactive(c: Category) returns (n: nat)
      requires Valid()
      modifies this
      ensures Valid() && overall == old(overall)
      ensures tables == old(tables).Set(c, ActiveRows(old(tables.Get(c))))
      ensures n + |ActiveRows(old(tables.Get(c)))| == |old(tables.Get(c))|
    {
      var r := DeleteInactive(tables.Get(c));
      var kept := r.0;
      n := r.1;
      CleanupPreservesIndexes(tables.Get(c));
      SetPreservesIndexes(tables, c, kept);
      tables := tables.Set(c, kept);
    }

    /**
     * `cleanupInactiveReferenceData`: hard-deletes every inactive row of each
     * lookup table and reports, per collection, how many rows went.
     */
    method CleanupInactiveReferenceData() returns (counts: PerCategory<nat>)
      requires Valid()
      modifies this
      ensures Valid() && overall == old(overall)
      ensures forall c :: tables.Get(c) == ActiveRows(old(tables.Get(c)))
      ensures forall c :: counts.Get(c) + |tables.Get(c)| == |old(tables.Get(c))|
    {
      counts := Uniform(0);
      var k := 0;
      while k < |AllCategories|
        invariant 0 <= k <= |AllCategories|
        invariant Valid() && overall == old(overall)
        invariant forall c :: Position(c) < k ==> tables.Get(c) == ActiveRows(old(tables.Get(c)))
        invariant forall c :: Position(c) >= k ==> tables.Get(c) == old(tables.Get(c))
        invariant forall c :: Position(c) < k ==> counts.Get(c) + |tables.Get(c)| == |old(tables.Get(c))|
      {
        var c := AllCategories[k];
        PositionOfEntry(k);
        var n := PurgeInactive(c);
        counts := counts.Set(c, n);
        k := k + 1;
      }
    }
  }
}
