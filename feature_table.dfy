/**
 * The helpers of the feature table view (views/feature_table.php): the icon
 * and shortened name shown for an attached file, and the pager under the
 * table (previous and next links, a window of up to five page numbers around
 * the current page, links to the first and last pages with ellipses for the
 * pages skipped).
 */
module FeatureTable {
  import opened Wrappers

  // ---------------------------------------------------------------------
  // Attached files.
  // ---------------------------------------------------------------------

  /** The folder icon shown for any extension without an icon of its own. */
  const FolderIcon: string := "\U{1F4C1}"

  /** The icon of each known extension (the `$icons` table). */
  const Icons: map<string, string> := map[
    "pdf" := "\U{1F4C4}",
    "doc" := "\U{1F4DD}",
    "docx" := "\U{1F4DD}",
    "txt" := "\U{1F4C3}",
    "zip" := "\U{1F5DC}\U{FE0F}",
    "rar" := "\U{1F5DC}\U{FE0F}",
    "xls" := "\U{1F4CA}",
    "xlsx" := "\U{1F4CA}"
  ]

  /** `getFileIcon($extension)`: `$icons[$extension] ?? '📁'`. */
  function FileIcon(extension: string): string {
    if extension in Icons then Icons[extension] else FolderIcon
  }

  /**
   * The two word-processor formats, the two archive formats and the two
   * spreadsheet formats share an icon; the lookup is exact, so an extension
   * in capitals, or any other extension, gets the folder, which no known
   * extension uses.
   */
  lemma FileIconsByKind(extension: string)
    ensures FileIcon("doc") == FileIcon("docx") && FileIcon("zip") == FileIcon("rar") && FileIcon("xls") == FileIcon("xlsx")
    ensures FileIcon(extension) == FolderIcon <==> extension !in Icons
    ensures FileIcon("PDF") == FolderIcon && FileIcon("pdf") != FolderIcon
  {
    assert "PDF" != "pdf" by {
      assert "PDF"[0] != "pdf"[0];
    }
    assert "PDF" !in Icons by {
      forall k | k in Icons ensures k != "PDF" {
        assert k[0] != 'P';
      }
    }
  }

  /**
   * PHP `substr($s, 0, $length)`: the first `length` characters; a negative
   * length drops that many from the end, and nothing is left when it drops
   * them all.
   */
  function Prefix(s: string, length: int): (r: string)
    ensures r <= s
    ensures 0 <= length ==> |r| == (if length < |s| then length else |s|)
    ensures length < 0 ==> |r| == (if |s| + length > 0 then |s| + length else 0)
  {
    if 0 <= length then (if length < |s| then s[..length] else s)
    else if |s| + length > 0 then s[..|s| + length]
    else []
  }

  /** The length the table shortens file names to. */
  const DefaultMaxLength: int := 20

  /** `truncateFilename($filename, $maxLength)`. */
  function TruncateFilename(filename: string, maxLength: int): (r: string)
    ensures |filename| <= maxLength ==> r == filename
    ensures |filename| > maxLength ==> 3 <= |r| && maxLength <= |r| && r[|r| - 3..] == "..."
  {
    if |filename| > maxLength then Prefix(filename, maxLength - 3) + "..." else filename
  }

  /**
   * A name longer than the limit (at least 3) becomes exactly as long as the
   * limit: its beginning followed by three dots.
   */
  lemma TruncateFilenameLength(filename: string, maxLength: int)
    requires 3 <= maxLength < |filename|
    ensures |TruncateFilename(filename, maxLength)| == maxLength
    ensures TruncateFilename(filename, maxLength) == filename[..maxLength - 3] + "..."
  {
  }

  /** Shortening twice is shortening once. */
  lemma TruncateFilenameIdempotent(filename: string, maxLength: int)
    requires 3 <= maxLength
    ensures TruncateFilename(TruncateFilename(filename, maxLength), maxLength) == TruncateFilename(filename, maxLength)
  {
    if |filename| > maxLength {
      TruncateFilenameLength(filename, maxLength);
    }
  }

  // ---------------------------------------------------------------------
  // The pager.
  // ---------------------------------------------------------------------

  function Max(a: int, b: int): int {
    if a >= b then a else b
  }

  function Min(a: int, b: int): int {
    if a <= b then a else b
  }

  /** The page numbers `from`, `from + 1`, ..., `to` (the `for ($p = ...)` loop). */
  function Range(from: int, to: int): (r: seq<int>)
    decreases to - from + 1
    ensures |r| == (if from <= to then to - from + 1 else 0)
    ensures forall k :: 0 <= k < |r| ==> r[k] == from + k
  {
    if from <= to then [from] + Range(from + 1, to) else []
  }

  /** Everything the pager shows, for current page `current` (`$page ?? 1`) of `total` pages. */
  datatype Pager = Pager(
    prev: int, prevDisabled: bool,
    first: bool, firstEllipsis: bool,
    window: seq<int>,
    lastEllipsis: bool, last: bool,
    next: int, nextDisabled: bool)

  /** The pager, or nothing when there is at most one page. */
  function PagerFor(current: int, total: int): (p: Option<Pager>)
    ensures p.Some? <==> total > 1
  {
    if total > 1 then
      var start := Max(1, current - 2);
      var end := Min(total, current + 2);
      Some(Pager(Max(1, current - 1), current <= 1,
                 start > 1, start > 2,
                 Range(start, end),
                 end < total - 1, end < total,
                 Min(total, current + 1), current >= total))
    else None
  }

  /** The page numbers the pager links to, left to right. */
  function Links(p: Pager, total: int): seq<int> {
    (if p.first then [1] else []) + p.window + (if p.last then [total] else [])
  }

  predicate Increasing(s: seq<int>) {
    forall i, j :: 0 <= i < j < |s| ==> s[i] < s[j]
  }

  /**
   * For a current page within range: the window holds the current page and
   * at most five pages, all within range; the previous and next links stay
   * within range and are disabled exactly at the ends.
   */
  lemma PagerBounds(current: int, total: int)
    requires 1 <= current <= total && total > 1
    ensures var p := PagerFor(current, total).value;
      current in p.window && |p.window| <= 5 &&
      (forall k :: 0 <= k < |p.window| ==> 1 <= p.window[k] <= total) &&
      1 <= p.prev <= total && 1 <= p.next <= total &&
      (p.prevDisabled <==> current == 1) && (p.nextDisabled <==> current == total) &&
      (!p.prevDisabled ==> p.prev == current - 1) && (!p.nextDisabled ==> p.next == current + 1)
  {
    var p := PagerFor(current, total).value;
    var start := Max(1, current - 2);
    assert p.window[current - start] == current;
  }

  /**
   * The links run from page 1 to the last page in increasing order, none
   * twice; an ellipsis stands exactly where pages are skipped: between the
   * first page and the window, and between the window and the last page.
   */
  lemma PagerLinks(current: int, total: int)
    requires 1 <= current <= total && total > 1
    ensures var p := PagerFor(current, total).value;
      var links := Links(p, total);
      Increasing(links) && links[0] == 1 && links[|links| - 1] == total &&
      (p.firstEllipsis <==> p.first && p.window[0] > 2) &&
      (p.lastEllipsis <==> p.last && p.window[|p.window| - 1] < total - 1) &&
      (!p.first ==> p.window[0] == 1) && (!p.last ==> p.window[|p.window| - 1] == total)
  {
    WindowFacts(current, total);
    LinksIncreasing(PagerFor(current, total).value, total);
  }

  /** The window runs from `start` to `end`, in increasing order, and the flags compare those ends with 1 and `total`. */
  lemma WindowFacts(current: int, total: int)
    requires 1 <= current <= total && total > 1
    ensures var p := PagerFor(current, total).value;
      var start, end := Max(1, current - 2), Min(total, current + 2);
      1 <= start <= end <= total && Increasing(p.window) && p.window != [] &&
      p.window[0] == start && p.window[|p.window| - 1] == end &&
      p.first == (start > 1) && p.last == (end < total) &&
      p.firstEllipsis == (start > 2) && p.lastEllipsis == (end < total - 1)
  {
    var start, end := Max(1, current - 2), Min(total, current + 2);
    var p := PagerFor(current, total).value;
    assert p.window == Range(start, end);
    RangeIncreasing(start, end);
  }

  /**
   * The links are increasing when the window is, is not empty, and the extra
   * first and last links lie before and after it.
   */
  lemma LinksIncreasing(p: Pager, total: int)
    requires Increasing(p.window) && p.window != []
    requires p.first ==> 1 < p.window[0]
    requires p.last ==> p.window[|p.window| - 1] < total
    ensures var links := Links(p, total);
      Increasing(links) &&
      links[0] == (if p.first then 1 else p.window[0]) &&
      links[|links| - 1] == (if p.last then total else p.window[|p.window| - 1])
  {
    var head: seq<int> := if p.first then [1] else [];
    var tail: seq<int> := if p.last then [total] else [];
    IncreasingConcat(head, p.window);
    assert (head + p.window)[|head + p.window| - 1] == p.window[|p.window| - 1];
    IncreasingConcat(head + p.window, tail);
    assert Links(p, total) == head + p.window + tail;
  }

  lemma RangeIncreasing(from: int, to: int)
    ensures Increasing(Range(from, to))
  {
  }

  lemma IncreasingConcat(a: seq<int>, b: seq<int>)
    requires Increasing(a) && Increasing(b)
    requires a == [] || b == [] || a[|a| - 1] < b[0]
    ensures Increasing(a + b)
  {
    forall i, j | 0 <= i < j < |a + b| ensures (a + b)[i] < (a + b)[j] {
      if j < |a| {
        assert (a + b)[i] == a[i] && (a + b)[j] == a[j];
      } else if i >= |a| {
        assert (a + b)[i] == b[i - |a|] && (a + b)[j] == b[j - |a|];
      } else {
        assert (a + b)[i] == a[i] && (a + b)[j] == b[j - |a|];
        assert i == |a| - 1 || a[i] < a[|a| - 1];
        assert j == |a| || b[0] < b[j - |a|];
      }
    }
  }
}
