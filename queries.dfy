// The read side of controllers/FeatureController.php: synonym and plural
// expansion of a search term (13-63), the match rule of `searchFeatures` /
// `searchWithSynonyms` (732-826), the listing page `getFeatures` (664-698) with
// no filters, `getCascadingData` (329-367), `getDistinctValues` (1320-1360)
// and `getTotalPages` (1302-1315). MongoDB's case-insensitive regex on a term
// is read as ASCII case-insensitive substring search.
module Queries {
  import opened Wrappers
  import opened Text
  import opened Categories
  import opened RefTable
  import opened Records
  import opened Sorting
  import opened Deletion

  // ---------------------------------------------------------------------------
  // expandSearchQuery

  /** The synonym dictionary: the family of terms searched for each key. */
  function Synonyms(key: string): (r: Option<seq<string>>)
    ensures r.Some? ==> |r.value| >= 1
    ensures r.Some? && key != "food" ==> r.value[0] == key
  {
    if key == "error" then Some(["error", "incorrect", "wrong", "invalid", "failed", "issue", "problem", "bug", "fault", "duplicate"])
    else if key == "bug" then Some(["bug", "error", "issue", "problem", "fault", "incorrect"])
    else if key == "issue" then Some(["issue", "problem", "error", "bug", "trouble", "fault"])
    else if key == "merge" then Some(["merge", "combine", "integrate", "unify", "join", "consolidate", "fusion"])
    else if key == "duplicate" then Some(["duplicate", "copy", "redundant", "replicate", "clone", "repeat", "redundancy"])
    else if key == "validation" then
      Some(["validation", "check", "verify", "confirmation", "inspection", "assessment", "review", "verification"])
    else if key == "incorrect xml" then
      Some(["incorrect xml", "invalid xml", "malformed xml", "xml error", "xml issue", "wrong xml", "parsing error"])
    else if key == "food" then Some(["jollibee", "chicken", "drink", "ice cream", "meal", "snack", "beverage", "recipe"])
    else if key == "meal" then Some(["meal", "food", "lunch", "dinner", "breakfast", "snack"])
    else if key == "login" then Some(["login", "signin", "authentication", "access", "auth", "sign in"])
    else if key == "auth" then Some(["auth", "authentication", "login", "signin", "access"])
    else if key == "data" then Some(["data", "information", "record", "entry", "content", "database"])
    else if key == "database" then Some(["database", "data", "db", "storage", "records"])
    else if key == "ui" then Some(["ui", "interface", "user interface", "frontend", "design"])
    else if key == "interface" then Some(["interface", "ui", "user interface", "frontend"])
    else None
  }

  predicate EndsWith(s: string, suffix: string) {
    |suffix| <= |s| && s[|s| - |suffix|..] == suffix
  }

  /**
   * The plural rule: "ies" becomes "y", else a final "es", else a final "s" is
   * dropped. Only one rule applies, and the term changes exactly when it ends
   * in "s".
   */
  function StripPlural(t: string): (r: string)
    ensures |t| - 2 <= |r| <= |t|
    ensures r == t <==> !EndsWith(t, "s")
  {
    if EndsWith(t, "ies") then
      assert t[|t| - 1] == "ies"[2];
      t[..|t| - 3] + "y"
    else if EndsWith(t, "es") then
      assert t[|t| - 1] == "es"[1];
      t[..|t| - 2]
    else if EndsWith(t, "s") then t[..|t| - 1]
    else t
  }

  /** The term as `expandSearchQuery` looks it up: trimmed, lowered, one plural suffix stripped. */
  function NormalizeTerm(term: string): string {
    StripPlural(Lower(Trim(term)))
  }

  /** `expandSearchQuery`: the synonym family of the normalized term, or the term alone. */
  function ExpandSearchQuery(term: string): (r: seq<string>)
    ensures |r| >= 1
  {
    var t := NormalizeTerm(term);
    match Synonyms(t)
    case Some(family) => family
    case None => [t]
  }

  /** The normalized term is itself searched for, except for "food", whose family leaves the word out. */
  lemma ExpandIncludesTerm(term: string)
    ensures NormalizeTerm(term) != "food" <==> NormalizeTerm(term) in ExpandSearchQuery(term)
  {
    SynonymsContainKey(NormalizeTerm(term));
  }

  /** Every family lists its own key first, except the family of "food". */
  lemma SynonymsContainKey(key: string)
    ensures Synonyms(key).Some? ==> (key in Synonyms(key).value <==> key != "food")
    ensures key == "food" ==> Synonyms(key).Some?
  {
    if key == "food" {
      var family := Synonyms("food").value;
      forall w | w in family ensures w != "food" {
        assert w[0] != 'f';
      }
    }
  }

  /** Expansion ignores the case of ASCII letters. */
  lemma ExpandIgnoresCase(term: string)
    ensures ExpandSearchQuery(Lower(term)) == ExpandSearchQuery(term)
    ensures NormalizeTerm(Lower(term)) == NormalizeTerm(term)
  {
    TrimLower(term);
    LowerIdempotent(Trim(term));
  }

  /** A plural key reaches its family: " Errors" searches the "error" family. */
  lemma PluralReachesFamily()
    ensures ExpandSearchQuery(" Errors") == Synonyms("error").value
  {
    assert NormalizeTerm(" Errors") == "error" by {
      TrimErrors();
      LowerErrors();
      SStripped("error");
      assert "error" + "s" == "errors";
    }
  }

  lemma TrimErrors()
    ensures Trim(" Errors") == "Errors"
  {
    assert StripLeft(" Errors", PhpSpace) == "Errors";
    StripRightNoop("Errors", PhpSpace);
  }

  lemma LowerErrors()
    ensures Lower("Errors") == "errors"
  {
    assert Lower("Errors") == [LowerChar('E')] + Lower("rrors");
    assert Lower("rrors") == "rrors";
  }

  lemma SStripped(stem: string)
    requires |stem| > 0 && stem[|stem| - 1] != 'e'
    ensures StripPlural(stem + "s") == stem
  {
    var w := stem + "s";
    assert w[|w| - 1..] == "s";
    assert w[|w| - 2] == stem[|stem| - 1];
    assert w[..|w| - 1] == stem;
  }

  /**
   * The "es" rule takes precedence over the "s" rule, so "merges" loses two
   * letters and misses the "merge" family.
   */
  lemma MergesMissesFamily()
    ensures NormalizeTerm("merges") == "merg" && ExpandSearchQuery("merges") == ["merg"]
  {
    MergesNormalized();
    NotAKeyMerg();
  }

  lemma MergesNormalized()
    ensures NormalizeTerm("merges") == "merg"
  {
    assert "merg" + "es" == "merges";
    NormalizeEsWord("merg");
  }

  /** Likewise "issues" becomes "issu" and misses the "issue" family. */
  lemma IssuesMissesFamily()
    ensures NormalizeTerm("issues") == "issu" && ExpandSearchQuery("issues") == ["issu"]
  {
    IssuesNormalized();
    NotAKeyIssu();
  }

  lemma IssuesNormalized()
    ensures NormalizeTerm("issues") == "issu"
  {
    assert "issu" + "es" == "issues";
    NormalizeEsWord("issu");
  }

  lemma NotAKeyMerg()
    ensures Synonyms("merg").None?
  {
    assert "merg" != "food" && "merg" != "meal" && "merg" != "data" && "merg" != "auth" by {
        assert "merg"[0] != "food"[0] && "merg"[2] != "meal"[2] && "merg"[0] != "data"[0] && "merg"[0] != "auth"[0];
    }
  }

  lemma NotAKeyIssu()
    ensures Synonyms("issu").None?
  {
    assert "issu" != "food" && "issu" != "meal" && "issu" != "data" && "issu" != "auth" by {
        assert "issu"[0] != "food"[0] && "issu"[0] != "meal"[0] && "issu"[0] != "data"[0] && "issu"[0] != "auth"[0];
    }
  }

  /** A stem not ending in "i", followed by "es", loses both letters. */
  lemma EsStripped(stem: string)
    requires |stem| > 0 && stem[|stem| - 1] != 'i'
    ensures StripPlural(stem + "es") == stem
  {
    var w := stem + "es";
    assert w[|w| - 2..] == "es";
    assert w[|w| - 3] == stem[|stem| - 1];
    assert w[..|w| - 2] == stem;
  }

  /** A lower-case word ending in "es" after a letter other than "i" loses just the "es". */
  lemma NormalizeEsWord(stem: string)
    requires |stem| > 0 && stem[|stem| - 1] != 'i'
    requires forall i :: 0 <= i < |stem| ==> 'a' <= stem[i] <= 'z'
    ensures NormalizeTerm(stem + "es") == stem
  {
    var w := stem + "es";
    forall i | 0 <= i < |w| ensures 'a' <= w[i] <= 'z' {
      if i < |stem| {
        assert w[i] == stem[i];
      }
    }
    NormalizeLowerWord(w);
    EsStripped(stem);
  }

  /** A word of lower-case ASCII letters is only stripped of its plural suffix. */
  lemma NormalizeLowerWord(w: string)
    requires forall i :: 0 <= i < |w| ==> 'a' <= w[i] <= 'z'
    ensures NormalizeTerm(w) == StripPlural(w)
  {
    StripLeftNoop(w, PhpSpace);
    StripRightNoop(w, PhpSpace);
    assert Lower(w) == w;
  }

  // ---------------------------------------------------------------------------
  // Search

  /** The six fields each search term is matched against. */
  function SearchFields(r: Record): seq<string> {
    [r.names.systemName, r.names.moduleName, r.names.featureName, r.description, r.names.clientName, r.names.sourceName]
  }

  /** `['$or' => [field => Regex(term, 'i'), ...]]`. */
  predicate MatchesTerm(r: Record, term: string) {
    exists k :: 0 <= k < |SearchFields(r)| && ContainsIgnoringCase(SearchFields(r)[k], term)
  }

  /** The `$or` over the expanded terms. */
  predicate MatchesAny(r: Record, terms: seq<string>) {
    exists j :: 0 <= j < |terms| && MatchesTerm(r, terms[j])
  }

  /** `find($query)` without paging: the matching records, in the order given. */
  function Matching(records: seq<Record>, terms: seq<string>): (m: seq<Record>)
    ensures |m| <= |records|
  {
    if records == [] then []
    else
      var rest := Matching(records[1..], terms);
      if MatchesAny(records[0], terms) then [records[0]] + rest else rest
  }

  lemma {:induction false} MatchingMembers(records: seq<Record>, terms: seq<string>)
    ensures forall x :: x in Matching(records, terms) <==> x in records && MatchesAny(x, terms)
  {
    if records != [] {
      MatchingMembers(records[1..], terms);
      assert records == [records[0]] + records[1..];
    }
  }

  /** No record matches: nothing is selected. */
  lemma {:induction false} MatchingNone(records: seq<Record>, terms: seq<string>)
    requires forall i :: 0 <= i < |records| ==> !MatchesAny(records[i], terms)
    ensures Matching(records, terms) == []
  {
    if records != [] {
      assert forall i :: 0 <= i < |records[1..]| ==> records[1..][i] == records[i + 1];
      MatchingNone(records[1..], terms);
    }
  }

  /** A one-term list matches what its term matches. */
  lemma MatchesSingle(r: Record, term: string)
    ensures MatchesAny(r, [term]) <==> MatchesTerm(r, term)
  {
    assert [term][0] == term;
  }

  /** Two term lists that match the same records select the same records. */
  lemma {:induction false} MatchingSame(records: seq<Record>, terms: seq<string>, other: seq<string>)
    requires forall x :: x in records ==> (MatchesAny(x, terms) <==> MatchesAny(x, other))
    ensures Matching(records, terms) == Matching(records, other)
  {
    if records != [] {
      assert records[0] in records;
      assert forall x :: x in records[1..] ==> x in records;
      MatchingSame(records[1..], terms, other);
    }
  }

  /**
   * `'sort' => ['created_at' => -1]` over the store. Records are kept in the
   * order they were inserted and each `created_at` is the time of its insert,
   * so the newest record comes first and the store is read back to front.
   */
  function NewestFirst(records: seq<Record>): (r: seq<Record>)
    ensures |r| == |records|
    ensures forall k :: 0 <= k < |r| ==> r[k] == records[|records| - 1 - k]
  {
    if records == [] then [] else [records[|records| - 1]] + NewestFirst(records[..|records| - 1])
  }

  /** Sorting by date neither adds nor drops a record. */
  lemma NewestFirstMembers(records: seq<Record>)
    ensures forall x :: x in NewestFirst(records) <==> x in records
  {
    var r := NewestFirst(records);
    forall x ensures x in r <==> x in records {
      if x in r {
        var k :| 0 <= k < |r| && r[k] == x;
      }
      if x in records {
        var i :| 0 <= i < |records| && records[i] == x;
        assert r[|records| - 1 - i] == x;
      }
    }
  }

  /**
   * The `limit` / `skip` options: with a positive limit, at most `limit`
   * records from position `skip` on; otherwise everything. A negative skip
   * is refused by the server, which the source's handler turns into no
   * records.
   */
  function Page(records: seq<Record>, limit: int, skip: int): (p: seq<Record>)
    ensures limit <= 0 ==> p == records
    ensures limit > 0 ==> |p| <= limit
    ensures limit > 0 && 0 <= skip ==>
      |p| == (if skip >= |records| then 0 else if |records| - skip < limit then |records| - skip else limit) &&
      forall k :: 0 <= k < |p| ==> p[k] == records[skip + k]
    ensures limit > 0 && skip < 0 ==> p == []
  {
    if limit <= 0 then records
    else if skip < 0 then []
    else if skip >= |records| then []
    else
      var rest := records[skip..];
      if |rest| < limit then rest else rest[..limit]
  }

  lemma PageMembers(records: seq<Record>, limit: int, skip: int)
    ensures forall x :: x in Page(records, limit, skip) ==> x in records
  {
    var p := Page(records, limit, skip);
    forall x | x in p ensures x in records {
      var k :| 0 <= k < |p| && p[k] == x;
    }
  }

  /** Record `i` is entry `i % limit` of page `i / limit + 1`, the page whose skip is `(i / limit) * limit`. */
  lemma RecordOnItsPage(records: seq<Record>, limit: int, i: int)
    requires limit > 0 && 0 <= i < |records|
    ensures var skip := (i / limit) * limit;
      0 <= skip <= i && i % limit < |Page(records, limit, skip)| && Page(records, limit, skip)[i % limit] == records[i]
  {
    var q, m := i / limit, i % limit;
    assert i == q * limit + m;
    assert 0 <= q * limit;
  }

  /**
   * `searchFeatures` over the store: an empty keyword lists the store newest
   * first; otherwise the synonym search, and only when that page is empty the
   * plain search for the trimmed keyword, both newest first and paged the
   * same way.
   */
  function SearchFeatures(records: seq<Record>, keyword: string, limit: int, skip: int): (r: seq<Record>)
    ensures IsEmpty(keyword) ==> r == Page(NewestFirst(records), limit, skip)
    ensures !IsEmpty(keyword) ==> forall x :: x in r ==>
      x in records && (MatchesAny(x, ExpandSearchQuery(keyword)) || MatchesTerm(x, Trim(keyword)))
  {
    var byDate := NewestFirst(records);
    if IsEmpty(keyword) then Page(byDate, limit, skip)
    else
      var terms := ExpandSearchQuery(keyword);
      var hits := Page(Matching(byDate, terms), limit, skip);
      NewestFirstMembers(records);
      PageMembers(Matching(byDate, terms), limit, skip);
      MatchingMembers(byDate, terms);
      if hits != [] then hits
      else
        PageMembers(Matching(byDate, [Trim(keyword)]), limit, skip);
        MatchingMembers(byDate, [Trim(keyword)]);
        assert forall x :: MatchesAny(x, [Trim(keyword)]) ==> MatchesTerm(x, Trim(keyword)) by {
          forall x ensures MatchesAny(x, [Trim(keyword)]) ==> MatchesTerm(x, Trim(keyword)) { MatchesSingle(x, Trim(keyword)); }
        }
        Page(Matching(byDate, [Trim(keyword)]), limit, skip)
  }

  /**
   * Without paging, the plain search is the fallback exactly when no record
   * matches an expanded term.
   */
  lemma SearchFallback(records: seq<Record>, keyword: string, limit: int, skip: int)
    requires !IsEmpty(keyword) && limit <= 0
    ensures (exists i :: 0 <= i < |records| && MatchesAny(records[i], ExpandSearchQuery(keyword))) ==>
      SearchFeatures(records, keyword, limit, skip) == Matching(NewestFirst(records), ExpandSearchQuery(keyword))
    ensures (forall i :: 0 <= i < |records| ==> !MatchesAny(records[i], ExpandSearchQuery(keyword))) ==>
      SearchFeatures(records, keyword, limit, skip) == Matching(NewestFirst(records), [Trim(keyword)])
  {
    var terms := ExpandSearchQuery(keyword);
    var byDate := NewestFirst(records);
    MatchingMembers(byDate, terms);
    if exists i :: 0 <= i < |records| && MatchesAny(records[i], terms) {
      var i :| 0 <= i < |records| && MatchesAny(records[i], terms);
      assert byDate[|records| - 1 - i] == records[i];
      assert records[i] in Matching(byDate, terms);
    } else {
      MatchingNone(byDate, terms);
    }
  }

  /** A term matches the same records whatever the case of its ASCII letters. */
  lemma MatchesTermIgnoresCase(r: Record, term: string)
    ensures MatchesTerm(r, Lower(term)) <==> MatchesTerm(r, term)
  {
    LowerIdempotent(term);
  }

  /** The search ignores the case of the keyword. */
  lemma SearchIgnoresCase(records: seq<Record>, keyword: string, limit: int, skip: int)
    ensures SearchFeatures(records, Lower(keyword), limit, skip) == SearchFeatures(records, keyword, limit, skip)
  {
    ExpandIgnoresCase(keyword);
    TrimLower(keyword);
    forall x | x in NewestFirst(records)
      ensures MatchesAny(x, [Trim(Lower(keyword))]) <==> MatchesAny(x, [Trim(keyword)])
    {
      MatchesTermIgnoresCase(x, Trim(keyword));
      MatchesSingle(x, Trim(Lower(keyword)));
      MatchesSingle(x, Trim(keyword));
    }
    MatchingSame(NewestFirst(records), [Trim(Lower(keyword))], [Trim(keyword)]);
    assert IsEmpty(Lower(keyword)) <==> IsEmpty(keyword);
  }

  // ---------------------------------------------------------------------------
  // getCascadingData

  /**
   * The query `getCascadingData` builds: each filter with a non-empty value
   * must match exactly; the target field's own entry is overwritten by the
   * "not empty" condition and so imposes nothing.
   */
  predicate PassesFilters(r: Record, target: Category, filters: map<Category, string>) {
    forall c :: c in filters && c != target && !IsEmpty(filters[c]) ==> r.names.Get(c) == filters[c]
  }

  /** The target values of the matching records that are not blank, in store order. */
  function TargetValues(records: seq<Record>, target: Category, filters: map<Category, string>): seq<string> {
    if records == [] then []
    else
      var rest := TargetValues(records[1..], target, filters);
      var v := records[0].names.Get(target);
      if PassesFilters(records[0], target, filters) && !IsBlank(v) then [v] + rest else rest
  }

  /** The record passes the filters and holds `y` in the target field. */
  predicate Yields(r: Record, target: Category, filters: map<Category, string>, y: string) {
    PassesFilters(r, target, filters) && r.names.Get(target) == y
  }

  lemma TargetValuesMembers(records: seq<Record>, target: Category, filters: map<Category, string>)
    ensures forall y :: y in TargetValues(records, target, filters) <==>
      !IsBlank(y) && exists i :: 0 <= i < |records| && Yields(records[i], target, filters, y)
  {
    forall y ensures y in TargetValues(records, target, filters) <==>
      !IsBlank(y) && exists i :: 0 <= i < |records| && Yields(records[i], target, filters, y)
    {
      TargetValuesMember(records, target, filters, y);
    }
  }

  lemma {:induction false} TargetValuesMember(records: seq<Record>, target: Category, filters: map<Category, string>, y: string)
    ensures y in TargetValues(records, target, filters) <==>
      !IsBlank(y) && exists i :: 0 <= i < |records| && Yields(records[i], target, filters, y)
  {
    if records != [] {
      var tail := records[1..];
      TargetValuesMember(tail, target, filters, y);
      var v := records[0].names.Get(target);
      var rest := TargetValues(tail, target, filters);
      var pass := PassesFilters(records[0], target, filters);
      assert TargetValues(records, target, filters) == if pass && !IsBlank(v) then [v] + rest else rest;
      assert Yields(records[0], target, filters, y) <==> pass && v == y;
      if exists i :: 0 <= i < |records| && Yields(records[i], target, filters, y) {
        var i :| 0 <= i < |records| && Yields(records[i], target, filters, y);
        if i > 0 {
          assert tail[i - 1] == records[i];
        }
      }
      if exists i :: 0 <= i < |tail| && Yields(tail[i], target, filters, y) {
        var i :| 0 <= i < |tail| && Yields(tail[i], target, filters, y);
        assert records[i + 1] == tail[i];
      }
    }
  }

  /**
   * `getCascadingData`: the distinct, non-blank values of the target field
   * over the records that pass the filters, in ascending code-point order
   * (PHP's `sort()` would put numeric strings in numeric order).
   */
  function CascadingData(records: seq<Record>, target: Category, filters: map<Category, string>): (r: seq<string>)
    ensures StrictlySorted(r)
    ensures forall y :: y in r <==>
      !IsBlank(y) && exists i :: 0 <= i < |records| && Yields(records[i], target, filters, y)
  {
    TargetValuesMembers(records, target, filters);
    SortDistinct(TargetValues(records, target, filters))
  }

  /** Filters with empty values constrain nothing: dropping them gives the same answer. */
  lemma {:induction false} CascadingIgnoresEmptyFilters(records: seq<Record>, target: Category, filters: map<Category, string>)
    ensures var kept := map c | c in filters && !IsEmpty(filters[c]) :: filters[c];
      CascadingData(records, target, filters) == CascadingData(records, target, kept)
      && TargetValues(records, target, filters) == TargetValues(records, target, kept)
  {
    var kept := map c | c in filters && !IsEmpty(filters[c]) :: filters[c];
    if records != [] {
      CascadingIgnoresEmptyFilters(records[1..], target, filters);
      assert PassesFilters(records[0], target, filters) <==> PassesFilters(records[0], target, kept);
    }
  }

  // ---------------------------------------------------------------------------
  // getDistinctValues

  /** The names of the active rows, in table order. */
  function ActiveRowNames(t: Table): (r: seq<string>)
    ensures forall y :: y in r <==> exists i :: 0 <= i < |t| && t[i].active && t[i].name == y
  {
    if t == [] then []
    else
      var rest := ActiveRowNames(t[1..]);
      assert forall i :: 0 < i < |t| ==> t[1..][i - 1] == t[i];
      if t[0].active then [t[0].name] + rest else rest
  }

  /** The loop over the sorted cursor: each non-empty name, trimmed. */
  function TrimmedNonEmpty(names: seq<string>): (r: seq<string>)
    ensures forall y :: y in r <==> exists i :: 0 <= i < |names| && !IsEmpty(names[i]) && Trim(names[i]) == y
  {
    if names == [] then []
    else
      var rest := TrimmedNonEmpty(names[1..]);
      assert forall i :: 0 < i < |names| ==> names[1..][i - 1] == names[i];
      if !IsEmpty(names[0]) then [Trim(names[0])] + rest else rest
  }

  /**
   * `getDistinctValues($field)`: for a known field, the trimmed non-empty
   * names of the active rows of its lookup table, sorted by name, each once;
   * for any other field, nothing.
   */
  function DistinctValues(ts: PerCategory<Table>, field: string): (r: seq<string>)
    ensures CategoryOfField(field).None? ==> r == []
    ensures forall i, j :: 0 <= i < j < |r| ==> r[i] != r[j]
  {
    match CategoryOfField(field)
    case None => []
    case Some(c) => Dedup(TrimmedNonEmpty(Sort(ActiveRowNames(ts.Get(c)))))
  }

  /** The values offered are the trimmed non-empty active names, and only those. */
  lemma DistinctValuesMembers(ts: PerCategory<Table>, field: string)
    requires CategoryOfField(field).Some?
    ensures var t := ts.Get(CategoryOfField(field).value);
      forall y :: y in DistinctValues(ts, field) <==>
        exists i :: 0 <= i < |t| && t[i].active && !IsEmpty(t[i].name) && Trim(t[i].name) == y
  {
    var t := ts.Get(CategoryOfField(field).value);
    var names := ActiveRowNames(t);
    var sorted := Sort(names);
    forall y ensures y in TrimmedNonEmpty(sorted) <==>
      exists i :: 0 <= i < |t| && t[i].active && !IsEmpty(t[i].name) && Trim(t[i].name) == y
    {
      if y in TrimmedNonEmpty(sorted) {
        var k :| 0 <= k < |sorted| && !IsEmpty(sorted[k]) && Trim(sorted[k]) == y;
        assert sorted[k] in multiset(sorted);
        assert sorted[k] in names;
      }
      if exists i :: 0 <= i < |t| && t[i].active && !IsEmpty(t[i].name) && Trim(t[i].name) == y {
        var i :| 0 <= i < |t| && t[i].active && !IsEmpty(t[i].name) && Trim(t[i].name) == y;
        assert t[i].name in names;
        assert t[i].name in multiset(names);
        assert t[i].name in sorted;
      }
    }
  }

  /** Keeping the non-empty names and trimming already-trimmed ones keeps the order. */
  lemma {:induction false} TrimmedNonEmptySorted(names: seq<string>)
    requires Sorted(names) && forall i :: 0 <= i < |names| ==> Trim(names[i]) == names[i]
    ensures Sorted(TrimmedNonEmpty(names))
    ensures forall y :: y in TrimmedNonEmpty(names) ==> y in names
  {
    if names != [] {
      TrimmedNonEmptySorted(names[1..]);
      var rest := TrimmedNonEmpty(names[1..]);
      forall y | y in rest ensures AtMost(names[0], y) {
        var i :| 0 <= i < |names[1..]| && names[1..][i] == y;
        assert names[i + 1] == y;
      }
    }
  }

  /** Keeping first occurrences of an ascending sequence leaves it strictly ascending. */
  lemma {:induction false} DedupSorted(s: seq<string>)
    requires Sorted(s)
    ensures StrictlySorted(Dedup(s))
  {
    if s != [] {
      var init, last := s[..|s| - 1], s[|s| - 1];
      DedupSorted(init);
      var rest := Dedup(init);
      if last !in init {
        forall i | 0 <= i < |rest| ensures Below(rest[i], last) {
          assert rest[i] in init;
          var j :| 0 <= j < |init| && init[j] == rest[i];
          assert AtMost(s[j], s[|s| - 1]);
        }
      }
    }
  }

  /** When the active names carry no surrounding spaces, the dropdown values come out strictly ascending. */
  lemma DistinctValuesSorted(ts: PerCategory<Table>, field: string)
    requires CategoryOfField(field).Some?
    requires var t := ts.Get(CategoryOfField(field).value);
      forall i :: 0 <= i < |t| && t[i].active ==> Trim(t[i].name) == t[i].name
    ensures StrictlySorted(DistinctValues(ts, field))
  {
    var c := CategoryOfField(field).value;
    var t := ts.Get(c);
    var names := ActiveRowNames(t);
    var sorted := Sort(names);
    forall i | 0 <= i < |sorted| ensures Trim(sorted[i]) == sorted[i] {
      assert sorted[i] in multiset(sorted);
      assert sorted[i] in names;
    }
    TrimmedNonEmptySorted(sorted);
    DedupSorted(TrimmedNonEmpty(sorted));
  }

  // ---------------------------------------------------------------------------
  // getTotalPages

  /** `getTotalPages($limit)`: `ceil(total / limit)` pages for a positive limit, else 1. */
  function TotalPages(total: nat, limit: int): (p: nat)
    ensures limit <= 0 ==> p == 1
    ensures limit > 0 ==> p * limit >= total && (p == 0 || (p - 1) * limit < total)
  {
    if limit > 0 then
      var n := total + limit - 1;
      var q := n / limit;
      assert n == q * limit + n % limit;
      q
    else 1
  }

  /** Every record lies on a page no later than the last one. */
  lemma RecordWithinTotalPages(total: nat, limit: int, i: nat)
    requires limit > 0 && i < total
    ensures i / limit + 1 <= TotalPages(total, limit)
  {
    var q := i / limit;
    var p := TotalPages(total, limit);
    assert q * limit <= i by {
      assert i == q * limit + i % limit;
    }
    if p <= q {
      MulMonotone(p, q, limit);
    }
  }

  lemma MulMonotone(a: int, b: int, c: int)
    requires a <= b && c > 0
    ensures a * c <= b * c
  {
    assert b * c - a * c == (b - a) * c;
  }
}
