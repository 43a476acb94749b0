// The documents of the `overall` collection: one denormalised record per
// feature, holding the five hierarchy names as text alongside the ids minted
// for them, and the MongoDB ObjectId text format used to address them.
module Records {
  import opened Wrappers
  import opened Text
  import opened Categories

  /** A scalar document value as the application stores it. */
  datatype Value = Null | Int(i: int) | Str(s: string)

  /** PHP's `empty()` on a stored value. */
  predicate IsFalsy(v: Value) {
    match v
    case Null => true
    case Int(i) => i == 0
    case Str(s) => IsEmpty(s)
  }

  /**
   * A record of `overall`.
   * - `oid`: the `_id`, as 24 lower-case hexadecimal digits;
   * - `names`: `system_name`, `module`, `feature`, `client`, `source`; a field the
   *   record lacks reads as "" (the source's `?? ''`);
   * - `refIds`: `system_name_id`, `module_id`, `feature_id`, `client_id`, `source_id`;
   * - `systemId`: the `system_id` that `enableFeature` writes;
   * - `sampleFile`: the path or URL, `None` when absent or null;
   * - `enabled`: the `enabled` flag, false when absent.
   */
  datatype Record = Record(
    oid: string,
    names: PerCategory<string>,
    refIds: PerCategory<Value>,
    systemId: Value,
    description: string,
    sampleFile: Option<string>,
    enabled: bool)

  /** `countDocuments([field => value])` over the records. */
  function CountHolding(records: seq<Record>, c: Category, value: string): (n: nat)
    ensures n <= |records|
    ensures n == 0 <==> forall i :: 0 <= i < |records| ==> records[i].names.Get(c) != value
  {
    if records == [] then 0
    else
      var rest := CountHolding(records[1..], c, value);
      assert forall i :: 1 <= i < |records| ==> records[i] == records[1..][i - 1];
      (if records[0].names.Get(c) == value then 1 else 0) + rest
  }

  lemma {:induction false} CountHoldingAppend(a: seq<Record>, b: seq<Record>, c: Category, value: string)
    ensures CountHolding(a + b, c, value) == CountHolding(a, c, value) + CountHolding(b, c, value)
  {
    if a != [] {
      assert (a + b)[1..] == a[1..] + b;
      assert (a + b)[0] == a[0];
      CountHoldingAppend(a[1..], b, c, value);
    } else {
      assert a + b == b;
    }
  }

  // ---------------------------------------------------------------------------
  // ObjectIds

  predicate IsHexDigit(ch: char) {
    '0' <= ch <= '9' || 'a' <= ch <= 'f' || 'A' <= ch <= 'F'
  }

  predicate AllHex(s: string) {
    forall i :: 0 <= i < |s| ==> IsHexDigit(s[i])
  }

  /**
   * `preg_match('/^[0-9a-fA-F]{24}$/', $id)`. Without the `D` modifier, PCRE's
   * `$` also matches before a final line feed, so 24 hex digits followed by
   * "\n" pass as well.
   */
  predicate IsValidObjectId(s: string) {
    (|s| == 24 && AllHex(s)) || (|s| == 25 && AllHex(s[..24]) && s[24] == '\n')
  }

  /** `new MongoDB\BSON\ObjectId($s)`: exactly 24 hex digits, case-insensitive; anything else throws. */
  function ParseObjectId(s: string): (r: Option<string>)
    ensures r.Some? <==> |s| == 24 && AllHex(s)
    ensures r.Some? ==> r.value == Lower(s) && IsCanonicalOid(r.value)
  {
    if |s| == 24 && AllHex(s) then Some(Lower(s)) else None
  }

  /** The form in which record ids are stored: 24 lower-case hex digits. */
  predicate IsCanonicalOid(s: string) {
    |s| == 24 && forall i :: 0 <= i < |s| ==> '0' <= s[i] <= '9' || 'a' <= s[i] <= 'f'
  }

  /** Every id the constructor accepts passes the validity check. */
  lemma ParsedIsValid(s: string)
    requires ParseObjectId(s).Some?
    ensures IsValidObjectId(s)
  {
  }

  /** A stored id parses back to itself. */
  lemma CanonicalRoundTrip(s: string)
    requires IsCanonicalOid(s)
    ensures ParseObjectId(s) == Some(s)
  {
    assert Lower(s) == s;
  }

  /** The validity check admits a string the constructor rejects. */
  lemma ValidButUnparsable()
    ensures var s := "0123456789abcdef01234567\n"; IsValidObjectId(s) && ParseObjectId(s).None?
  {
    var s := "0123456789abcdef01234567\n";
    assert s[..24] == "0123456789abcdef01234567";
  }

  ghost predicate OidsUnique(records: seq<Record>) {
    forall i, j :: 0 <= i < j < |records| ==> records[i].oid != records[j].oid
  }

  predicate HasOid(records: seq<Record>, oid: string) {
    exists i :: 0 <= i < |records| && records[i].oid == oid
  }

  /** `findOne(['_id' => $oid])`: the position of the record with that id. */
  function IndexOfOid(records: seq<Record>, oid: string): (r: Option<nat>)
    ensures r.Some? ==> r.value < |records| && records[r.value].oid == oid
    ensures r.Some? ==> forall i :: 0 <= i < r.value ==> records[i].oid != oid
    ensures r.None? <==> !HasOid(records, oid)
  {
    if records == [] then None
    else if records[0].oid == oid then Some(0)
    else
      match IndexOfOid(records[1..], oid)
      case None => None
      case Some(k) => Some(k + 1)
  }

  /** The records without the one at position `i`. */
  function RemoveAt(records: seq<Record>, i: nat): (r: seq<Record>)
    requires i < |records|
    ensures |r| == |records| - 1
    ensures forall k :: 0 <= k < |r| ==> r[k] == records[if k < i then k else k + 1]
  {
    records[..i] + records[i + 1..]
  }

  lemma AppendPreservesOids(records: seq<Record>, r: Record)
    requires OidsUnique(records) && !HasOid(records, r.oid)
    ensures OidsUnique(records + [r])
  {
    var s := records + [r];
    forall i, j | 0 <= i < j < |s| ensures s[i].oid != s[j].oid {
      assert s[i] == records[i];
    }
  }

  lemma ReplacePreservesOids(records: seq<Record>, i: nat, r: Record)
    requires OidsUnique(records) && i < |records| && r.oid == records[i].oid
    ensures OidsUnique(records[i := r])
  {
  }

  lemma RemovePreservesOids(records: seq<Record>, i: nat)
    requires OidsUnique(records) && i < |records|
    ensures OidsUnique(RemoveAt(records, i))
    ensures forall k :: 0 <= k < |records| && k != i ==> HasOid(RemoveAt(records, i), records[k].oid)
    ensures !HasOid(RemoveAt(records, i), records[i].oid)
  {
    var r := RemoveAt(records, i);
    forall k | 0 <= k < |records| && k != i ensures HasOid(r, records[k].oid) {
      var k' := if k < i then k else k - 1;
      assert r[k'] == records[k];
    }
  }
}
