/**
 * The recent-files history of the main process, as a value: a list of
 * remembered files, most recent last, of which only the last ten are kept
 * once a file is recorded.
 */
module History {
  import opened Wrappers

  /** A remembered file and the page it was left at (None for a stored entry without one). */
  datatype HistoryEntry = HistoryEntry(filePath: string, pageIndex: Option<int>)

  /** How many entries survive a recording. */
  const Capacity: nat := 10

  /** `getHistoryIndex`: the first position remembering `path`. */
  function IndexOf(h: seq<HistoryEntry>, path: string): (r: Option<nat>)
    ensures r.Some? ==> r.value < |h| && h[r.value].filePath == path
    ensures r.Some? ==> forall j :: 0 <= j < r.value ==> h[j].filePath != path
    ensures r.None? ==> forall j :: 0 <= j < |h| ==> h[j].filePath != path
  {
    if h == [] then None
    else if h[0].filePath == path then Some(0)
    else match IndexOf(h[1..], path)
      case None => None
      case Some(i) => Some(i + 1)
  }

  /** `splice(i, 1)`. */
  function RemoveAt(h: seq<HistoryEntry>, i: nat): (r: seq<HistoryEntry>)
    requires i < |h|
    ensures |r| == |h| - 1
    ensures forall j :: 0 <= j < i ==> r[j] == h[j]
    ensures forall j :: i <= j < |r| ==> r[j] == h[j + 1]
  {
    h[..i] + h[i + 1..]
  }

  /** The trimming that keeps only the newest `n` entries: the oldest are dropped from the head. */
  function KeepLast(h: seq<HistoryEntry>, n: nat): (r: seq<HistoryEntry>)
    ensures |r| == if |h| > n then n else |h|
    ensures r == h[|h| - |r|..]
  {
    if |h| > n then h[|h| - n..] else h
  }

  /**
   * `addCurrentToHistory` with the open file `path` at page `page`: the
   * file's old entry (the first one) is removed, a fresh entry is pushed
   * last, and the list is trimmed to the newest ten. An empty path (no
   * file open) changes nothing.
   */
  function Record(h: seq<HistoryEntry>, path: string, page: int): (r: seq<HistoryEntry>)
    ensures path == "" ==> r == h
    ensures path != "" ==> 0 < |r| <= Capacity && r[|r| - 1] == HistoryEntry(path, Some(page))
  {
    if path == "" then h
    else
      var removed := match IndexOf(h, path)
        case None => h
        case Some(i) => RemoveAt(h, i);
      KeepLast(removed + [HistoryEntry(path, Some(page))], Capacity)
  }

  /** No file is remembered twice. */
  predicate UniquePaths(h: seq<HistoryEntry>) {
    forall i, j :: 0 <= i < j < |h| ==> h[i].filePath != h[j].filePath
  }

  /** The entries not about `path`, in their order. */
  function WithoutPath(h: seq<HistoryEntry>, path: string): (r: seq<HistoryEntry>)
    ensures forall j :: 0 <= j < |r| ==> r[j].filePath != path
    ensures forall e :: e in r ==> e in h
  {
    if h == [] then []
    else if h[|h| - 1].filePath == path then WithoutPath(h[..|h| - 1], path)
    else WithoutPath(h[..|h| - 1], path) + [h[|h| - 1]]
  }

  lemma {:induction false} WithoutAbsentPath(h: seq<HistoryEntry>, path: string)
    requires forall j :: 0 <= j < |h| ==> h[j].filePath != path
    ensures WithoutPath(h, path) == h
  {
    if h != [] {
      WithoutAbsentPath(h[..|h| - 1], path);
    }
  }

  lemma {:induction false} WithoutPathAppend(a: seq<HistoryEntry>, b: seq<HistoryEntry>, path: string)
    ensures WithoutPath(a + b, path) == WithoutPath(a, path) + WithoutPath(b, path)
    decreases |b|
  {
    if b == [] {
      assert a + b == a;
    } else {
      assert (a + b)[..|a + b| - 1] == a + b[..|b| - 1];
      WithoutPathAppend(a, b[..|b| - 1], path);
    }
  }

  /** With paths unique, removing the first entry for `path` removes every entry for it. */
  lemma RemoveFirstIsFilter(h: seq<HistoryEntry>, path: string, i: nat)
    requires UniquePaths(h) && i < |h| && h[i].filePath == path
    ensures RemoveAt(h, i) == WithoutPath(h, path)
  {
    var before, after := h[..i], h[i + 1..];
    NoOtherEntryFor(h, path, i);
    assert h == before + [h[i]] + after;
    WithoutPathAppend(before + [h[i]], after, path);
    WithoutPathAppend(before, [h[i]], path);
    assert WithoutPath([h[i]], path) == [];
  }

  /** With paths unique, the entries before and after the one for `path` are kept whole by the filter. */
  lemma NoOtherEntryFor(h: seq<HistoryEntry>, path: string, i: nat)
    requires UniquePaths(h) && i < |h| && h[i].filePath == path
    ensures WithoutPath(h[..i], path) == h[..i] && WithoutPath(h[i + 1..], path) == h[i + 1..]
  {
    var before, after := h[..i], h[i + 1..];
    assert forall j :: 0 <= j < |before| ==> before[j] == h[j];
    assert forall j :: 0 <= j < |after| ==> after[j] == h[i + 1 + j];
    WithoutAbsentPath(before, path);
    WithoutAbsentPath(after, path);
  }

  /**
   * The history after a recording is the old one with `path` filtered out
   * (the other entries in their order), the new entry appended, and the
   * oldest dropped beyond ten.
   */
  lemma RecordIsFilterAppendTrim(h: seq<HistoryEntry>, path: string, page: int)
    requires UniquePaths(h) && path != ""
    ensures Record(h, path, page) == KeepLast(WithoutPath(h, path) + [HistoryEntry(path, Some(page))], Capacity)
  {
    match IndexOf(h, path)
    case None => WithoutAbsentPath(h, path);
    case Some(i) => RemoveFirstIsFilter(h, path, i);
  }

  lemma RemoveAtKeeps(h: seq<HistoryEntry>, i: nat)
    requires i < |h|
    ensures forall e :: e in RemoveAt(h, i) ==> e in h
  {
    assert h == h[..i] + ([h[i]] + h[i + 1..]);
  }

  lemma KeepLastKeeps(h: seq<HistoryEntry>, n: nat)
    ensures forall e :: e in KeepLast(h, n) ==> e in h
  {
    if |h| > n {
      assert h == h[..|h| - n] + h[|h| - n..];
    }
  }

  /** Recording adds no entry but the recorded one. */
  lemma RecordAddsOnlyItsEntry(h: seq<HistoryEntry>, path: string, page: int)
    ensures forall e :: e in Record(h, path, page) ==> e in h || e == HistoryEntry(path, Some(page))
  {
    if path != "" {
      var removed := match IndexOf(h, path)
        case None => h
        case Some(i) => RemoveAt(h, i);
      match IndexOf(h, path)
      case None =>
      case Some(i) => RemoveAtKeeps(h, i);
      KeepLastKeeps(removed + [HistoryEntry(path, Some(page))], Capacity);
    }
  }

  lemma UniqueWithoutPath(h: seq<HistoryEntry>, path: string)
    requires UniquePaths(h)
    ensures UniquePaths(WithoutPath(h, path))
  {
    if h != [] {
      var front := h[..|h| - 1];
      var last := h[|h| - 1];
      UniqueWithoutPath(front, path);
      var w := WithoutPath(front, path);
      forall j | 0 <= j < |w| ensures w[j].filePath != last.filePath {
        assert w[j] in front;
        var k :| 0 <= k < |front| && front[k] == w[j];
        assert h[k] == w[j];
      }
    }
  }

  /** A recording keeps every path remembered once, and the recorded path is remembered exactly once, last. */
  lemma RecordKeepsPathsUnique(h: seq<HistoryEntry>, path: string, page: int)
    requires UniquePaths(h)
    ensures UniquePaths(Record(h, path, page))
    ensures path != "" ==> forall j :: 0 <= j < |Record(h, path, page)| - 1 ==> Record(h, path, page)[j].filePath != path
  {
    if path != "" {
      RecordIsFilterAppendTrim(h, path, page);
      var w := WithoutPath(h, path);
      UniqueWithoutPath(h, path);
      var pushed := w + [HistoryEntry(path, Some(page))];
      assert UniquePaths(pushed);
      var r := KeepLast(pushed, Capacity);
      assert forall j :: 0 <= j < |r| ==> r[j] == pushed[|pushed| - |r| + j];
    }
  }

  /** After recording `path` it is found, at the last position, with the recorded page. */
  lemma RecordThenFind(h: seq<HistoryEntry>, path: string, page: int)
    requires UniquePaths(h) && path != ""
    ensures var r := Record(h, path, page);
      IndexOf(r, path) == Some(|r| - 1) && r[|r| - 1].pageIndex == Some(page)
  {
    RecordKeepsPathsUnique(h, path, page);
  }
}
