// The table side of deleting features (controllers/FeatureController.php:372-502
// and 1191-1241): which records a bulk delete selects and keeps, which files it
// unlinks, which names it collects from the removed records, and how the
// reference cleanup retires lookup rows. The cleanup runs one `deleteOne` per
// collected name; under the unique name index its result is proved equal to a
// single filter, `Unretired`, that keeps every row but the active ones whose
// name no remaining record holds.
module Deletion {
  import opened Wrappers
  import opened Text
  import opened Categories
  import opened RefTable
  import opened Records

  // ---------------------------------------------------------------------------
  // Retiring lookup rows

  /** A row the cleanup removes: active, named by one of `values`, and held by no remaining record. */
  predicate Retires(remaining: seq<Record>, c: Category, values: seq<string>, row: Row) {
    row.active && row.name in values && CountHolding(remaining, c, row.name) == 0
  }

  /** The table without the rows the cleanup retires, in their order. */
  function Unretired(t: Table, remaining: seq<Record>, c: Category, values: seq<string>): (r: Table)
    ensures |r| <= |t|
  {
    if t == [] then []
    else (if Retires(remaining, c, values, t[0]) then [] else [t[0]]) + Unretired(t[1..], remaining, c, values)
  }

  /** A row survives exactly when it was there and does not retire. */
  lemma {:induction false} UnretiredMembers(t: Table, remaining: seq<Record>, c: Category, values: seq<string>)
    ensures forall x :: x in Unretired(t, remaining, c, values) <==> x in t && !Retires(remaining, c, values, x)
  {
    if t != [] {
      UnretiredMembers(t[1..], remaining, c, values);
      assert forall x :: x in t <==> x == t[0] || x in t[1..];
    }
  }

  /**
   * The cleanup loop for one collection: for each value in turn, when no
   * remaining record holds it (`countDocuments(...) === 0`),
   * `deleteOne(['name' => value, 'is_active' => true])`. Gives the table and
   * the number of rows the deletes removed.
   */
  function Purge(t: Table, remaining: seq<Record>, c: Category, values: seq<string>): (r: (Table, nat))
    decreases |values|
  {
    if values == [] then (t, 0)
    else
      var v := values[|values| - 1];
      var (t1, n1) := Purge(t, remaining, c, values[..|values| - 1]);
      if CountHolding(remaining, c, v) == 0 then
        var d := DeleteOne(t1, ActiveNamed(v));
        (d.0, n1 + if d.1 then 1 else 0)
      else (t1, n1)
  }

  /** A filter that retires nothing keeps the table. */
  lemma {:induction false} UnretiredNone(t: Table, remaining: seq<Record>, c: Category, values: seq<string>)
    requires forall x :: x in t ==> !Retires(remaining, c, values, x)
    ensures Unretired(t, remaining, c, values) == t
  {
    if t != [] {
      assert t[0] in t;
      assert forall x :: x in t[1..] ==> x in t;
      UnretiredNone(t[1..], remaining, c, values);
    }
  }

  /** Two value lists that retire the same rows of `t` give the same table. */
  lemma {:induction false} UnretiredSame(t: Table, remaining: seq<Record>, c: Category, a: seq<string>, b: seq<string>)
    requires forall x :: x in t ==> (Retires(remaining, c, a, x) <==> Retires(remaining, c, b, x))
    ensures Unretired(t, remaining, c, a) == Unretired(t, remaining, c, b)
  {
    if t != [] {
      assert t[0] in t;
      assert forall x :: x in t[1..] ==> x in t;
      UnretiredSame(t[1..], remaining, c, a, b);
    }
  }

  /** Filtering by `a` and then by `b` is filtering by `a + b`. */
  lemma {:induction false} UnretiredCompose(t: Table, remaining: seq<Record>, c: Category, a: seq<string>, b: seq<string>)
    ensures Unretired(Unretired(t, remaining, c, a), remaining, c, b) == Unretired(t, remaining, c, a + b)
  {
    if t != [] {
      var x := t[0];
      assert x.name in a + b <==> x.name in a || x.name in b;
      UnretiredCompose(t[1..], remaining, c, a, b);
      var u1 := Unretired(t[1..], remaining, c, a);
      if !Retires(remaining, c, a, x) {
        var u := Unretired(t, remaining, c, a);
        assert u == [x] + u1;
        assert u[0] == x && u[1..] == u1;
        assert Unretired(u, remaining, c, b) == (if Retires(remaining, c, b, x) then [] else [x]) + Unretired(u1, remaining, c, b);
      } else {
        assert Unretired(t, remaining, c, a) == u1;
        assert Unretired(t, remaining, c, a + b) == Unretired(t[1..], remaining, c, a + b);
      }
    }
  }

  /**
   * Under the unique name index, one `deleteOne` of an active name that no
   * record holds removes every row that value retires.
   */
  lemma {:induction false} DeleteOneRetires(t: Table, remaining: seq<Record>, c: Category, v: string)
    requires UniqueIndexes(t) && CountHolding(remaining, c, v) == 0
    ensures DeleteOne(t, ActiveNamed(v)).0 == Unretired(t, remaining, c, [v])
  {
    if t != [] {
      TailIndexes(t);
      var f := ActiveNamed(v);
      if Matches(f, t[0]) {
        assert FindFirst(t, f) == Some(0);
        assert t[..0] + t[1..] == t[1..];
        UnretiredNone(t[1..], remaining, c, [v]);
      } else {
        DeleteOneRetires(t[1..], remaining, c, v);
        assert Unretired(t, remaining, c, [v]) == [t[0]] + Unretired(t[1..], remaining, c, [v]);
        DeleteOneCons(t, f);
      }
    }
  }

  /** `deleteOne` past a first row the filter does not match. */
  lemma DeleteOneCons(t: Table, f: Filter)
    requires t != [] && !Matches(f, t[0])
    ensures DeleteOne(t, f).0 == [t[0]] + DeleteOne(t[1..], f).0
  {
    match FindFirst(t[1..], f)
    case None =>
    case Some(k) =>
      assert FindFirst(t, f) == Some(k + 1);
      assert t[..k + 1] + t[k + 2..] == [t[0]] + (t[1..][..k] + t[1..][k + 1..]);
  }

  /** The cleanup keeps the unique indexes. */
  lemma {:induction false} PurgePreservesIndexes(t: Table, remaining: seq<Record>, c: Category, values: seq<string>)
    requires UniqueIndexes(t)
    ensures UniqueIndexes(Purge(t, remaining, c, values).0)
    decreases |values|
  {
    if values != [] {
      var n := |values| - 1;
      PurgePreservesIndexes(t, remaining, c, values[..n]);
      DeletePreservesIndexes(Purge(t, remaining, c, values[..n]).0, ActiveNamed(values[n]));
    }
  }

  /**
   * The cleanup loop removes exactly the rows `Unretired` drops, and reports
   * how many it removed.
   */
  lemma {:induction false} PurgeSpec(t: Table, remaining: seq<Record>, c: Category, values: seq<string>)
    requires UniqueIndexes(t)
    ensures Purge(t, remaining, c, values).0 == Unretired(t, remaining, c, values)
    ensures Purge(t, remaining, c, values).1 + |Purge(t, remaining, c, values).0| == |t|
    decreases |values|
  {
    if values == [] {
      UnretiredNone(t, remaining, c, values);
    } else {
      var n := |values| - 1;
      var init, v := values[..n], values[n];
      assert values == init + [v];
      PurgeSpec(t, remaining, c, init);
      PurgePreservesIndexes(t, remaining, c, init);
      var t1 := Purge(t, remaining, c, init).0;
      if CountHolding(remaining, c, v) == 0 {
        DeleteOneRetires(t1, remaining, c, v);
        UnretiredCompose(t, remaining, c, init, [v]);
      } else {
        UnretiredSame(t, remaining, c, init, values);
      }
    }
  }

  /**
   * What the cleanup promises, row by row: a row goes only when it is active,
   * its name is one of the values and no remaining record holds it; every
   * other row stays. Under the unique name index, no active row named by such
   * a value survives.
   */
  lemma OnlyUnreferencedRetire(t: Table, remaining: seq<Record>, c: Category, values: seq<string>)
    requires UniqueIndexes(t)
    ensures var after := Purge(t, remaining, c, values).0;
      (forall x :: x in t && x !in after ==> x.active && x.name in values && CountHolding(remaining, c, x.name) == 0) &&
      (forall x :: x in t && (!x.active || x.name !in values || CountHolding(remaining, c, x.name) > 0) ==> x in after) &&
      (forall x :: x in after ==> x in t) &&
      (forall v, x :: v in values && CountHolding(remaining, c, v) == 0 && x in after ==> !(x.active && x.name == v))
  {
    PurgeSpec(t, remaining, c, values);
    UnretiredMembers(t, remaining, c, values);
  }

  // ---------------------------------------------------------------------------
  // What a delete collects

  /** The distinct values of `s`, each at its first occurrence (`array_unique`). */
  function Dedup(s: seq<string>): (r: seq<string>)
    ensures forall x :: x in r <==> x in s
    ensures forall i, j :: 0 <= i < j < |r| ==> r[i] != r[j]
  {
    if s == [] then []
    else
      var init, last := s[..|s| - 1], s[|s| - 1];
      assert s == init + [last];
      var rest := Dedup(init);
      if last in init then rest else rest + [last]
  }

  /** Removing duplicates from the values retires the same rows. */
  lemma DedupRetiresSame(t: Table, remaining: seq<Record>, c: Category, values: seq<string>)
    ensures Unretired(t, remaining, c, Dedup(values)) == Unretired(t, remaining, c, values)
  {
    UnretiredSame(t, remaining, c, Dedup(values), values);
  }

  /** `$deletedValues[$field]`: the non-empty values the records hold for the category, in record order. */
  function DeletedValues(records: seq<Record>, c: Category): (r: seq<string>)
    ensures |r| <= |records|
  {
    if records == [] then []
    else
      var init, last := records[..|records| - 1], records[|records| - 1];
      var v := last.names.Get(c);
      DeletedValues(init, c) + if IsEmpty(v) then [] else [v]
  }

  /** The collected values are exactly the non-empty values some record holds. */
  lemma {:induction false} DeletedValuesMembers(records: seq<Record>, c: Category)
    ensures forall v :: v in DeletedValues(records, c) <==>
      !IsEmpty(v) && exists i :: 0 <= i < |records| && records[i].names.Get(c) == v
  {
    if records != [] {
      var n := |records| - 1;
      var init := records[..n];
      DeletedValuesMembers(init, c);
      assert forall i :: 0 <= i < n ==> init[i] == records[i];
    }
  }

  /** The collected values of all five categories. */
  function AllDeletedValues(records: seq<Record>): (r: PerCategory<seq<string>>)
    ensures forall c :: r.Get(c) == DeletedValues(records, c)
  {
    PerCategory(
      DeletedValues(records, SystemName), DeletedValues(records, Module), DeletedValues(records, Feature),
      DeletedValues(records, Client), DeletedValues(records, Source))
  }

  /**
   * The ids the bulk delete keeps: each one that passes `isValidObjectId` and
   * that the ObjectId constructor accepts (a rejection is logged and skipped),
   * in request order.
   */
  function ValidOids(ids: seq<string>): (r: seq<string>)
    ensures |r| <= |ids|
    ensures forall o :: o in r <==> exists i :: 0 <= i < |ids| && IsValidObjectId(ids[i]) && ParseObjectId(ids[i]) == Some(o)
  {
    if ids == [] then []
    else
      var init, last := ids[..|ids| - 1], ids[|ids| - 1];
      assert forall i :: 0 <= i < |init| ==> init[i] == ids[i];
      ValidOids(init) + if IsValidObjectId(last) && ParseObjectId(last).Some? then [ParseObjectId(last).value] else []
  }

  /** `find(['_id' => ['$in' => $objectIds]])`: the records with one of the ids, in store order. */
  function Selected(records: seq<Record>, oids: seq<string>): (r: seq<Record>)
    ensures forall x :: x in r <==> x in records && x.oid in oids
  {
    if records == [] then []
    else (if records[0].oid in oids then [records[0]] else []) + Selected(records[1..], oids)
  }

  /** What `deleteMany(['_id' => ['$in' => $objectIds]])` leaves: the other records, in store order. */
  function Kept(records: seq<Record>, oids: seq<string>): (r: seq<Record>)
    ensures |r| + |Selected(records, oids)| == |records|
    ensures forall x :: x in r <==> x in records && x.oid !in oids
  {
    if records == [] then []
    else (if records[0].oid in oids then [] else [records[0]]) + Kept(records[1..], oids)
  }

  /** A `deleteMany` that matches nothing keeps the store. */
  lemma {:induction false} KeptAll(records: seq<Record>, oids: seq<string>)
    requires Selected(records, oids) == []
    ensures Kept(records, oids) == records
  {
    if records != [] {
      assert records[0] in records;
      assert records[0].oid !in oids;
      assert Selected(records[1..], oids) == [];
      KeptAll(records[1..], oids);
    }
  }

  lemma {:induction false} KeptPreservesOids(records: seq<Record>, oids: seq<string>)
    requires OidsUnique(records)
    ensures OidsUnique(Kept(records, oids))
  {
    if records != [] {
      var rest := records[1..];
      TailOidsUnique(records);
      KeptPreservesOids(rest, oids);
      var k := Kept(rest, oids);
      if records[0].oid !in oids {
        forall x | x in k ensures x.oid != records[0].oid {
          var m :| 0 <= m < |rest| && rest[m] == x;
          assert records[m + 1] == x;
        }
        ConsOidsUnique(records[0], k);
      }
    }
  }

  lemma TailOidsUnique(records: seq<Record>)
    requires OidsUnique(records) && records != []
    ensures OidsUnique(records[1..])
  {
    var rest := records[1..];
    forall i, j | 0 <= i < j < |rest| ensures rest[i].oid != rest[j].oid {
      assert rest[i] == records[i + 1] && rest[j] == records[j + 1];
    }
  }

  lemma ConsOidsUnique(r: Record, k: seq<Record>)
    requires OidsUnique(k) && forall x :: x in k ==> x.oid != r.oid
    ensures OidsUnique([r] + k)
  {
    var s := [r] + k;
    forall i, j | 0 <= i < j < |s| ensures s[i].oid != s[j].oid {
      assert s[j] == k[j - 1];
      if i > 0 {
        assert s[i] == k[i - 1];
      }
    }
  }

  /**
   * `$filesToDelete`: the non-empty sample files of the records that are not
   * URLs and exist, in record order.
   */
  function FilesToDelete(records: seq<Record>, isUrl: string -> bool, files: set<string>): (r: seq<string>)
    ensures forall p :: p in r ==> p in files && !IsEmpty(p) && !isUrl(p)
    ensures forall p :: p in r <==> (p in files && !IsEmpty(p) && !isUrl(p) &&
      exists i :: 0 <= i < |records| && records[i].sampleFile == Some(p))
  {
    if records == [] then []
    else
      var init, last := records[..|records| - 1], records[|records| - 1];
      assert forall i :: 0 <= i < |init| ==> init[i] == records[i];
      FilesToDelete(init, isUrl, files) +
        match last.sampleFile
        case Some(p) => if !IsEmpty(p) && !isUrl(p) && p in files then [p] else []
        case None => []
  }

  /** The paths of a list, as a set. */
  ghost function PathSet(paths: seq<string>): set<string> {
    set p | p in paths
  }

  /**
   * After a delete, a lookup row goes exactly when it is active, its name is
   * the non-empty value of one of the removed records, and no remaining record
   * holds that name.
   */
  lemma RetiredAfterDelete(t: Table, removed: seq<Record>, remaining: seq<Record>, c: Category)
    ensures forall x :: x in t && x !in Unretired(t, remaining, c, DeletedValues(removed, c)) <==>
      x in t && x.active && !IsEmpty(x.name) && CountHolding(remaining, c, x.name) == 0 &&
      exists i :: 0 <= i < |removed| && removed[i].names.Get(c) == x.name
  {
    UnretiredMembers(t, remaining, c, DeletedValues(removed, c));
    DeletedValuesMembers(removed, c);
  }

  /** The rows of the five lookup tables together. */
  function TotalRows(ts: PerCategory<Table>): nat {
    |ts.systemName| + |ts.moduleName| + |ts.featureName| + |ts.clientName| + |ts.sourceName|
  }

  lemma TotalRowsSet(ts: PerCategory<Table>, c: Category, t: Table)
    ensures TotalRows(ts.Set(c, t)) + |ts.Get(c)| == TotalRows(ts) + |t|
  {
  }

  /** `"Successfully deleted N feature(s)"`, with the file and reference counts when not zero. */
  function BulkMessage(deleted: nat, filesDeleted: nat, cleaned: nat): string {
    "Successfully deleted " + NatToString(deleted) + " feature(s)" +
    (if filesDeleted > 0 then " and " + NatToString(filesDeleted) + " associated file(s)" else "") +
    (if cleaned > 0 then " and cleaned " + NatToString(cleaned) + " unused reference(s)" else "")
  }
}
