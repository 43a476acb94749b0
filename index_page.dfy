/**
 * The main page (index.php): the flash messages kept in the session between
 * a form post and the page that follows it, the pagination parameters read
 * from `?page=`, and the choice between a keyword search and the plain
 * listing of the `overall` collection.
 */
module IndexPage {
  import opened Wrappers
  import opened Text
  import opened IdTags
  import opened Records
  import opened Queries

  // ---------------------------------------------------------------------
  // The session's flash messages (`class FlashMessage`).
  // ---------------------------------------------------------------------

  /** `['message' => ..., 'type' => ...]` as `FlashMessage::get` returns it. */
  datatype Flash = Flash(message: string, kind: string)

  /**
   * What `FlashMessage::get` reports for the session: a success message wins
   * over an error message; the type is `success`, `danger` or empty.
   */
  function FlashOf(entries: map<string, string>): (f: Flash)
    ensures f.kind == "success" <==> "success" in entries
    ensures f.kind == "danger" <==> "success" !in entries && "error" in entries
    ensures f.kind == "" <==> "success" !in entries && "error" !in entries
    ensures "success" in entries ==> f.message == entries["success"]
    ensures "success" !in entries && "error" in entries ==> f.message == entries["error"]
    ensures f.kind == "" ==> f.message == ""
  {
    if "success" in entries then Flash(entries["success"], "success")
    else if "error" in entries then Flash(entries["error"], "danger")
    else Flash("", "")
  }

  /** The session entries (`$_SESSION`) that the flash messages live in. */
  class Session {
    var entries: map<string, string>

    constructor (entries: map<string, string>)
      ensures this.entries == entries
    {
      this.entries := entries;
    }

    /** `FlashMessage::set($type, $message)`. */
    method Set(kind: string, message: string)
      modifies this
      ensures entries == old(entries)[kind := message]
    {
      entries := entries[kind := message];
    }

    /** `FlashMessage::get()`: report the message, then remove both keys. */
    method Get() returns (f: Flash)
      modifies this
      ensures f == FlashOf(old(entries))
      ensures entries == old(entries) - {"success", "error"}
    {
      var message := if "success" in entries then entries["success"]
        else if "error" in entries then entries["error"] else "";
      var kind := if "success" in entries then "success" else if "error" in entries then "danger" else "";
      entries := entries - {"success", "error"};
      f := Flash(message, kind);
    }
  }

  /** A success message that was set is the one read back, whatever else the session holds. */
  lemma SetSuccessThenGet(entries: map<string, string>, message: string)
    ensures FlashOf(entries["success" := message]) == Flash(message, "success")
  {
  }

  /** An error message is read back as `danger`, unless a success message is still pending, which wins. */
  lemma SetErrorThenGet(entries: map<string, string>, message: string)
    ensures "success" !in entries ==> FlashOf(entries["error" := message]) == Flash(message, "danger")
    ensures "success" in entries ==> FlashOf(entries["error" := message]) == Flash(entries["success"], "success")
  {
  }

  /** A message is shown once: after a read, the next read reports nothing. */
  lemma GetClears(entries: map<string, string>)
    ensures FlashOf(entries - {"success", "error"}) == Flash("", "")
  {
  }

  // ---------------------------------------------------------------------
  // `getPaginationParams()`.
  // ---------------------------------------------------------------------

  /** The whitespace PHP skips before a number in a string: " \t\n\r\v\f". */
  predicate IsNumericSpace(c: char) {
    c == ' ' || c == '\t' || c == '\n' || c == '\r' || c == '\U{B}' || c == '\U{C}'
  }

  function SkipNumericSpace(s: string): (r: string)
    ensures |r| <= |s|
    ensures r == [] || !IsNumericSpace(r[0])
  {
    if s != [] && IsNumericSpace(s[0]) then SkipNumericSpace(s[1..]) else s
  }

  /** The smallest PHP integer. */
  const PhpIntMin: int := -PhpIntMax - 1

  /**
   * PHP's `(int)` cast of a string: leading whitespace, an optional sign and
   * the digits that follow; no digits give 0, and a value beyond the integer
   * range saturates at its bound.
   */
  function IntCast(s: string): (n: int)
    ensures PhpIntMin <= n <= PhpIntMax
  {
    var t := SkipNumericSpace(s);
    if t != [] && (t[0] == '-' || t[0] == '+') then
      var v: int := DigitsValue(DigitRun(t[1..]));
      if t[0] == '-' then (if v > PhpIntMax + 1 then PhpIntMin else -v)
      else (if v > PhpIntMax then PhpIntMax else v)
    else
      var v := DigitsValue(DigitRun(t));
      if v > PhpIntMax then PhpIntMax else v
  }

  /** Casting the decimal digits of an integer gives it back. */
  lemma IntCastOfDecimal(n: nat)
    requires n <= PhpIntMax
    ensures IntCast(NatToString(n)) == n
  {
    var s := NatToString(n);
    assert SkipNumericSpace(s) == s;
    DigitRunAll(s);
    DigitsRoundTrip(n);
  }

  /** `compact('limit', 'page', 'skip')`. */
  datatype Pagination = Pagination(limit: int, page: int, skip: int)

  /** The page size of the listing. */
  const PageSize: int := 10

  /**
   * `getPaginationParams()` for the `page` query parameter (None when absent):
   * the page is at least 1, and the skip is the number of records on the
   * pages before it.
   */
  function PaginationParams(page: Option<string>): (p: Pagination)
    ensures p.limit == PageSize
    ensures p.page >= 1 && p.skip >= 0
    ensures p.skip == (p.page - 1) * p.limit
    ensures p.page == (if page.Some? && IntCast(page.value) > 1 then IntCast(page.value) else 1)
  {
    var n := if page.Some? then IntCast(page.value) else 1;
    var current := if n > 1 then n else 1;
    Pagination(PageSize, current, (current - 1) * PageSize)
  }

  /** `?page=n` for a page number `n` selects page `n`; no parameter selects the first page. */
  lemma PaginationOfPageNumber(n: nat)
    requires 1 <= n <= PhpIntMax
    ensures PaginationParams(Some(NatToString(n))).page == n
    ensures PaginationParams(None) == Pagination(PageSize, 1, 0)
  {
    IntCastOfDecimal(n);
  }

  // ---------------------------------------------------------------------
  // `getFeatures($pagination)`.
  // ---------------------------------------------------------------------

  /** `['features' => ..., 'totalPages' => ..., 'search' => ...]`. */
  datatype Listing = Listing(features: seq<Record>, totalPages: nat, search: string)

  /**
   * `getFeatures($pagination)` over the `overall` records for the `search`
   * query parameter (None when absent). A search that is not empty after
   * trimming is one page of results and is echoed back; anything else lists
   * the store page by page, newest first.
   */
  function GetFeatures(records: seq<Record>, search: Option<string>, p: Pagination): (l: Listing)
    ensures !IsBlank(search.GetOr("")) ==>
      l == Listing(SearchFeatures(records, Trim(search.GetOr("")), p.limit, p.skip), 1, Trim(search.GetOr("")))
    ensures IsBlank(search.GetOr("")) ==>
      l == Listing(Page(NewestFirst(records), p.limit, p.skip), TotalPages(|records|, p.limit), "")
  {
    var term := Trim(search.GetOr(""));
    if !IsEmpty(term) then Listing(SearchFeatures(records, term, p.limit, p.skip), 1, term)
    else Listing(Page(NewestFirst(records), p.limit, p.skip), TotalPages(|records|, p.limit), "")
  }

  /** A search that trims to nothing (or to PHP's empty "0") is the plain listing, as if no search was given. */
  lemma BlankSearchIsListing(records: seq<Record>, search: string, p: Pagination)
    requires IsBlank(search)
    ensures GetFeatures(records, Some(search), p) == GetFeatures(records, None, p)
    ensures GetFeatures(records, Some(" 0 "), p) == GetFeatures(records, None, p)
  {
    TrimSpacedZero();
    BlankSearchesAgree(records, search, p);
    BlankSearchesAgree(records, " 0 ", p);
  }

  lemma BlankSearchesAgree(records: seq<Record>, search: string, p: Pagination)
    requires IsBlank(search)
    ensures GetFeatures(records, Some(search), p) == GetFeatures(records, None, p)
  {
    assert IsBlank("") by {
      StripLeftNoop("", PhpSpace);
      StripRightNoop("", PhpSpace);
    }
  }

  lemma TrimSpacedZero()
    ensures Trim(" 0 ") == "0"
  {
    assert StripLeft(" 0 ", PhpSpace) == "0 ";
    assert StripRight("0 ", PhpSpace) == "0";
  }

  /** A search result page only holds records of the store. */
  lemma SearchListingFromStore(records: seq<Record>, search: string, p: Pagination)
    ensures forall x :: x in GetFeatures(records, Some(search), p).features ==> x in records
  {
    var l := GetFeatures(records, Some(search), p);
    if IsBlank(search) {
      PageMembers(NewestFirst(records), p.limit, p.skip);
      NewestFirstMembers(records);
    }
  }

  /**
   * Without a search, the record with `j` newer records than it
   * (`records[|records| - 1 - j]`) is shown on exactly the page `j` puts it
   * on, and that page number is within the total the page reports.
   */
  lemma EveryRecordListed(records: seq<Record>, j: nat)
    requires j < |records| && j / PageSize + 1 <= PhpIntMax
    ensures var n := j / PageSize + 1;
      var l := GetFeatures(records, None, PaginationParams(Some(NatToString(n))));
      n <= l.totalPages && j % PageSize < |l.features| && l.features[j % PageSize] == records[|records| - 1 - j]
  {
    var n := j / PageSize + 1;
    PaginationOfPageNumber(n);
    RecordOnItsPage(NewestFirst(records), PageSize, j);
    RecordWithinTotalPages(|records|, PageSize, j);
  }

  /** A record just inserted into the store heads the first page of the listing. */
  lemma InsertedComesFirst(records: seq<Record>, r: Record)
    ensures var l := GetFeatures(records + [r], None, PaginationParams(None));
      l.features != [] && l.features[0] == r
  {
    PaginationOfPageNumber(1);
    var s := records + [r];
    assert NewestFirst(s)[0] == s[|s| - 1] == r;
  }
}
