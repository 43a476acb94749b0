// The JSON endpoint controllers/get_cascading_data.php:22-110: the request's
// `type` names the field whose values are wanted; the sibling fields present
// in the request become filters; the answer is `getCascadingData`'s list,
// narrowed to the items containing `q` when `q` is not empty.
module CascadingEndpoint {
  import opened Wrappers
  import opened Text
  import opened Categories
  import opened Records
  import opened Sorting
  import opened Queries
  import opened Store

  const InvalidType: string := "Invalid type parameter"

  /** The `type` values of each `case` group of the `switch`. */
  function TypesOf(c: Category): seq<string> {
    match c
    case SystemName => ["systems", "systems_by_source", "systems_by_client", "systems_by_feature", "systems_by_module"]
    case Module => ["modules", "modules_by_system", "modules_by_source", "modules_by_client", "modules_by_feature"]
    case Feature =>
      ["features", "features_by_system", "features_by_module", "features_by_system_module", "features_by_client",
       "features_by_source"]
    case Client =>
      ["clients", "clients_by_system", "clients_by_module", "clients_by_feature", "clients_by_system_module_feature",
       "clients_by_source"]
    case Source =>
      ["sources", "sources_by_system", "sources_by_module", "sources_by_feature", "sources_by_client",
       "sources_by_complete_hierarchy"]
  }

  /** The `switch ($type)`: the target field, or none for the `default` branch. */
  function TargetOfType(t: string): Option<Category> {
    if t in TypesOf(SystemName) then Some(SystemName)
    else if t in TypesOf(Module) then Some(Module)
    else if t in TypesOf(Feature) then Some(Feature)
    else if t in TypesOf(Client) then Some(Client)
    else if t in TypesOf(Source) then Some(Source)
    else None
  }

  /** Each group's names start with the plural of its field, so the groups share no name. */
  function Prefix(c: Category): string {
    match c
    case SystemName => "sy"
    case Module => "m"
    case Feature => "f"
    case Client => "c"
    case Source => "so"
  }

  lemma TypesHavePrefix(c: Category)
    ensures forall t :: t in TypesOf(c) ==> Prefix(c) <= t
  {
  }

  lemma PrefixesExclusive(c: Category, d: Category, t: string)
    requires c != d && Prefix(c) <= t
    ensures !(Prefix(d) <= t)
  {
    assert Prefix(c)[0] == t[0];
    if Prefix(c)[0] == Prefix(d)[0] {
      assert Prefix(c)[1] == t[1];
    }
  }

  /** Every accepted `type` selects exactly the field of its group, and nothing else is accepted. */
  lemma TargetOfTypeExact(t: string, c: Category)
    ensures TargetOfType(t) == Some(c) <==> t in TypesOf(c)
  {
    if t in TypesOf(c) {
      TypesHavePrefix(c);
      forall d | d != c ensures t !in TypesOf(d) {
        TypesHavePrefix(d);
        PrefixesExclusive(c, d, t);
      }
    }
  }

  /**
   * The sibling filters: every field of the request other than the target.
   * (Each group copies the four other fields when they are set.)
   */
  function SiblingFilters(target: Category, params: map<Category, string>): (f: map<Category, string>)
    ensures target !in f
    ensures forall c :: c in f <==> c in params && c != target
    ensures forall c :: c in f ==> f[c] == params[c]
  {
    map c | c in params && c != target :: params[c]
  }

  /** `array_values(array_filter($data, stripos($item, $q) !== false))`. */
  function KeepContaining(items: seq<string>, q: string): (r: seq<string>)
    ensures |r| <= |items|
  {
    if items == [] then []
    else
      var rest := KeepContaining(items[1..], q);
      if ContainsIgnoringCase(items[0], q) then [items[0]] + rest else rest
  }

  /** The kept items are exactly those containing `q`, in their original order. */
  lemma {:induction false} KeepContainingMembers(items: seq<string>, q: string)
    ensures forall y :: y in KeepContaining(items, q) <==> y in items && ContainsIgnoringCase(y, q)
    ensures IsSubsequence(KeepContaining(items, q), items)
  {
    if items != [] {
      KeepContainingMembers(items[1..], q);
      assert items == [items[0]] + items[1..];
    }
  }

  /** Narrowing an ascending list keeps it ascending. */
  lemma {:induction false} KeepContainingSorted(items: seq<string>, q: string)
    requires StrictlySorted(items)
    ensures StrictlySorted(KeepContaining(items, q))
  {
    if items != [] {
      KeepContainingSorted(items[1..], q);
      KeepContainingMembers(items[1..], q);
      var rest := KeepContaining(items[1..], q);
      forall y | y in rest ensures Below(items[0], y) {
        var k :| 0 <= k < |items[1..]| && items[1..][k] == y;
        assert items[k + 1] == y;
      }
    }
  }

  /** `['success' => true, 'data' => ...]` or `['success' => false, 'error' => ...]`. */
  datatype Response = Data(data: seq<string>) | Error(error: string)

  /** The endpoint's answer for `type`, the request's field parameters and `q`. */
  function CascadingResponse(records: seq<Record>, t: string, params: map<Category, string>, q: string): (r: Response)
    ensures r.Error? <==> TargetOfType(t).None?
    ensures r.Error? ==> r.error == InvalidType
    ensures r.Data? ==> StrictlySorted(r.data)
  {
    match TargetOfType(t)
    case None => Error(InvalidType)
    case Some(c) =>
      var data := CascadingData(records, c, SiblingFilters(c, params));
      if !IsEmpty(q) then
        KeepContainingSorted(data, q);
        Data(KeepContaining(data, q))
      else Data(data)
  }

  /**
   * A value is offered exactly when it is a non-blank value of the target
   * field of a record that agrees with every non-empty sibling parameter,
   * and it contains `q` (when `q` is not empty).
   */
  lemma ResponseMembers(records: seq<Record>, t: string, params: map<Category, string>, q: string, c: Category, y: string)
    requires TargetOfType(t) == Some(c)
    ensures var r := CascadingResponse(records, t, params, q);
      y in r.data <==>
        !IsBlank(y) && (IsEmpty(q) || ContainsIgnoringCase(y, q)) &&
        exists i :: 0 <= i < |records| && records[i].names.Get(c) == y &&
          forall d :: d in params && d != c && !IsEmpty(params[d]) ==> records[i].names.Get(d) == params[d]
  {
    var f := SiblingFilters(c, params);
    KeepContainingMembers(CascadingData(records, c, f), q);
    forall i | 0 <= i < |records|
      ensures Yields(records[i], c, f, y) <==> (records[i].names.Get(c) == y &&
        forall d :: d in params && d != c && !IsEmpty(params[d]) ==> records[i].names.Get(d) == params[d])
    {
    }
  }
}
