/**
 * The submenus the menu-bar builder assembles from the settings and the
 * history: help, scale-to-height (zoom) and open-recent. Each builder
 * only pushes items onto a local list, so each is a function here. The
 * translated strings are their i18n keys, and the front-ellipsis string
 * shortener is the parameter `reduce`.
 */
module MenuBar {
  import opened Wrappers
  import opened Decimal
  import History

  datatype Label = Text(text: string) | Localized(key: string)

  /** What clicking an item does. */
  datatype Action =
    | About
    | ToggleDevTools
    | ScaleToHeight(scale: int)
    | ScaleToHeightEnter
    | TryOpen(filePath: string, entry: RecentEntry)
    | OpenHistoryManager

  datatype MenuItem =
    | Item(caption: Label, action: Action, accelerator: Option<string>)
    | Radio(caption: Label, checked: bool, action: Action)
    | Separator

  /** A history entry as the menu reads it: its path, and the optional `data` of a web comic. */
  datatype RecentEntry = RecentEntry(filePath: string, data: Option<EntryData>)
  datatype EntryData = EntryData(source: Option<string>, name: Option<string>)

  /** JavaScript truthiness of an optional string. */
  predicate Truthy(s: Option<string>) {
    s.Some? && s.value != ""
  }

  // ---------------------------------------------------------------------
  // Help

  const AboutItem := Item(Localized("menu-help-about"), About, None)
  const DevToolsItem := Item(Localized("menu-help-devtools-toggle"), ToggleDevTools, None)

  /** `getHelpSubmenu`, with `isDev` standing for `core.isDev()`. */
  function HelpSubmenu(isDev: bool): (r: seq<MenuItem>)
    ensures |r| >= 1 && r[0] == AboutItem
    ensures DevToolsItem in r <==> isDev
    ensures forall i :: 0 <= i < |r| && r[i] == DevToolsItem ==> i > 0 && r[i - 1] == Separator
  {
    [AboutItem] + (if isDev then [Separator, DevToolsItem] else [])
  }

  // ---------------------------------------------------------------------
  // Scale to height

  const DefaultScales: seq<int> := [25, 50, 100, 150, 200, 300, 400]

  /** The `fit_mode` value of scale-to-height. */
  const FitToHeightScale := 2

  const EnterScaleItem := Item(Localized("menu-view-zoom-scaleheight-enter"), ScaleToHeightEnter, None)

  function PercentLabel(scale: int): Label {
    Text(IntToString(scale) + "%")
  }

  /** The radio item for one scale, checked when that scale is the current one in scale-to-height mode. */
  function ScaleItem(scale: int, fitMode: int, zoomScale: Option<int>): MenuItem {
    Radio(PercentLabel(scale), fitMode == FitToHeightScale && zoomScale == Some(scale), ScaleToHeight(scale))
  }

  /** The items the `forEach` over the scales pushes. */
  function ScaleItems(scales: seq<int>, fitMode: int, zoomScale: Option<int>): (r: seq<MenuItem>)
    ensures |r| == |scales|
    ensures forall i :: 0 <= i < |r| ==> r[i] == ScaleItem(scales[i], fitMode, zoomScale)
  {
    seq(|scales|, i requires 0 <= i < |scales| => ScaleItem(scales[i], fitMode, zoomScale))
  }

  /** Whether the loop's `found` flag ends up set. */
  predicate Found(scales: seq<int>, zoomScale: Option<int>) {
    zoomScale.Some? && zoomScale.value in scales
  }

  /**
   * `getScaleToHeightSubmenu(settings)`: a radio item per default scale,
   * then, for a current scale that is none of them, a separator and a
   * radio item for it, then a separator and the enter-a-scale item.
   */
  function ScaleToHeightSubmenu(fitMode: int, zoomScale: Option<int>): (r: seq<MenuItem>)
    ensures |r| == if zoomScale.Some? && !Found(DefaultScales, zoomScale) then 11 else 9
    ensures forall i :: 0 <= i < 7 ==> r[i] == ScaleItem(DefaultScales[i], fitMode, zoomScale)
    ensures |r| == 11 ==> (r[7] == Separator &&
      r[8] == Radio(PercentLabel(zoomScale.value), fitMode == FitToHeightScale, ScaleToHeight(zoomScale.value)))
    ensures r[|r| - 2] == Separator && r[|r| - 1] == EnterScaleItem
  {
    var defaults := ScaleItems(DefaultScales, fitMode, zoomScale);
    var custom := if zoomScale.Some? && !Found(DefaultScales, zoomScale) then
        [Separator, Radio(PercentLabel(zoomScale.value), fitMode == FitToHeightScale, ScaleToHeight(zoomScale.value))]
      else [];
    defaults + custom + [Separator, EnterScaleItem]
  }

  predicate IsChecked(item: MenuItem) {
    item.Radio? && item.checked
  }

  /** A checked item is a default scale equal to the zoom scale, or the custom item, and only in scale-to-height mode. */
  lemma CheckedItemAt(fitMode: int, zoomScale: Option<int>, i: nat)
    requires i < |ScaleToHeightSubmenu(fitMode, zoomScale)| && IsChecked(ScaleToHeightSubmenu(fitMode, zoomScale)[i])
    ensures fitMode == FitToHeightScale && zoomScale.Some?
    ensures i < 7 ==> zoomScale.value == DefaultScales[i]
    ensures i >= 7 ==> i == 8 && zoomScale.value !in DefaultScales
  {
    var r := ScaleToHeightSubmenu(fitMode, zoomScale);
    if i >= 7 {
      assert |r| == 11 && i == 8;
    }
  }

  lemma DefaultScalesDistinct(i: nat, j: nat)
    requires i < j < |DefaultScales|
    ensures DefaultScales[i] < DefaultScales[j]
  {
  }

  /** At most one zoom item is checked, and none unless in scale-to-height mode with a scale set. */
  lemma AtMostOneScaleChecked(fitMode: int, zoomScale: Option<int>)
    ensures var r := ScaleToHeightSubmenu(fitMode, zoomScale);
      forall i, j :: 0 <= i < |r| && 0 <= j < |r| && IsChecked(r[i]) && IsChecked(r[j]) ==> i == j
    ensures var r := ScaleToHeightSubmenu(fitMode, zoomScale);
      (exists i :: 0 <= i < |r| && IsChecked(r[i])) ==> fitMode == FitToHeightScale && zoomScale.Some?
  {
    var r := ScaleToHeightSubmenu(fitMode, zoomScale);
    forall i, j | 0 <= i < |r| && 0 <= j < |r| && IsChecked(r[i]) && IsChecked(r[j])
      ensures i == j
    {
      CheckedItemAt(fitMode, zoomScale, i);
      CheckedItemAt(fitMode, zoomScale, j);
      if i < j < 7 {
        DefaultScalesDistinct(i, j);
      } else if j < i < 7 {
        DefaultScalesDistinct(j, i);
      }
    }
    if i :| 0 <= i < |r| && IsChecked(r[i]) {
      CheckedItemAt(fitMode, zoomScale, i);
    }
  }

  /** In scale-to-height mode the current scale's item is checked, whether it is a default or not. */
  lemma CurrentScaleChecked(zoomScale: int)
    ensures var r := ScaleToHeightSubmenu(FitToHeightScale, Some(zoomScale));
      exists i :: 0 <= i < |r| && IsChecked(r[i]) && r[i].action == ScaleToHeight(zoomScale)
  {
    var r := ScaleToHeightSubmenu(FitToHeightScale, Some(zoomScale));
    if zoomScale in DefaultScales {
      var i :| 0 <= i < 7 && DefaultScales[i] == zoomScale;
      assert IsChecked(r[i]) && r[i].action == ScaleToHeight(zoomScale);
    } else {
      assert IsChecked(r[8]) && r[8].action == ScaleToHeight(zoomScale);
    }
  }

  // ---------------------------------------------------------------------
  // Open recent

  /** How many recent files the submenu lists. */
  const RecentLimit: nat := 10

  const HistoryManagerItem := Item(Localized("menu-file-openrecent-history"), OpenHistoryManager, Some("CommandOrControl+H"))

  function Reverse<T>(s: seq<T>): (r: seq<T>)
    ensures |r| == |s| && forall i :: 0 <= i < |s| ==> r[i] == s[|s| - 1 - i]
  {
    seq(|s|, i requires 0 <= i < |s| => s[|s| - 1 - i])
  }

  /** A recent item's label: the shortened path, or for a web comic "[www] " and its shortened name when it has one. */
  function RecentLabel(entry: RecentEntry, reduce: string -> string): string {
    if entry.data.Some? && Truthy(entry.data.value.source) then
      if Truthy(entry.data.value.name) then "[www] " + reduce(entry.data.value.name.value)
      else "[www] " + reduce(entry.filePath)
    else reduce(entry.filePath)
  }

  function RecentItem(entry: RecentEntry, reduce: string -> string): MenuItem {
    Item(Text(RecentLabel(entry, reduce)), TryOpen(entry.filePath, entry), None)
  }

  function RecentItems(entries: seq<RecentEntry>, reduce: string -> string): (r: seq<MenuItem>)
    ensures |r| == |entries|
    ensures forall i :: 0 <= i < |r| ==> r[i] == RecentItem(entries[i], reduce)
  {
    seq(|entries|, i requires 0 <= i < |entries| => RecentItem(entries[i], reduce))
  }

  /**
   * `getOpenRecentSubmenu(history)`: the newest ten history entries,
   * newest first, then a separator and the history-manager item.
   */
  function OpenRecentSubmenu(history: seq<RecentEntry>, reduce: string -> string): (r: seq<MenuItem>)
    ensures |r| == (if |history| > RecentLimit then RecentLimit else |history|) + 2
    ensures forall i :: 0 <= i < |r| - 2 ==> r[i] == RecentItem(history[|history| - 1 - i], reduce)
    ensures r[|r| - 2] == Separator && r[|r| - 1] == HistoryManagerItem
  {
    var reversed := Reverse(history);
    var length := if |reversed| > RecentLimit then RecentLimit else |reversed|;
    RecentItems(reversed[..length], reduce) + [Separator, HistoryManagerItem]
  }

  /**
   * The "[www] " prefix is added exactly for entries whose source is set;
   * such an entry shows its name when it has one, else its path.
   */
  lemma RecentLabelMarksWebComics(entry: RecentEntry, reduce: string -> string)
    ensures entry.data.Some? && Truthy(entry.data.value.source) ==>
      RecentLabel(entry, reduce)[..6] == "[www] "
    ensures entry.data.Some? && Truthy(entry.data.value.source) && Truthy(entry.data.value.name) ==>
      RecentLabel(entry, reduce) == "[www] " + reduce(entry.data.value.name.value)
    ensures entry.data.Some? && Truthy(entry.data.value.source) && !Truthy(entry.data.value.name) ==>
      RecentLabel(entry, reduce) == "[www] " + reduce(entry.filePath)
    ensures !(entry.data.Some? && Truthy(entry.data.value.source)) ==> RecentLabel(entry, reduce) == reduce(entry.filePath)
  {
  }

  /** The reader's history entries as the menu reads them: no web data. */
  function FromHistory(h: seq<History.HistoryEntry>): (r: seq<RecentEntry>)
    ensures |r| == |h| && forall i :: 0 <= i < |h| ==> r[i] == RecentEntry(h[i].filePath, None)
  {
    seq(|h|, i requires 0 <= i < |h| => RecentEntry(h[i].filePath, None))
  }

  /** A history remembering each file once gives a recent submenu opening each file once. */
  lemma RecentPathsDistinct(h: seq<History.HistoryEntry>, reduce: string -> string)
    requires History.UniquePaths(h)
    ensures var m := OpenRecentSubmenu(FromHistory(h), reduce);
      forall i, j :: 0 <= i < j < |m| - 2 ==> m[i].action.filePath != m[j].action.filePath
  {
    var m := OpenRecentSubmenu(FromHistory(h), reduce);
    forall i, j | 0 <= i < j < |m| - 2
      ensures m[i].action.filePath != m[j].action.filePath
    {
      assert m[i].action.filePath == h[|h| - 1 - i].filePath;
      assert m[j].action.filePath == h[|h| - 1 - j].filePath;
    }
  }

  /**
   * After the open file is recorded, the recent submenu lists the whole
   * history, opens the recorded file from its first item, and no two of
   * its items open the same file.
   */
  lemma RecentMenuAfterRecord(h: seq<History.HistoryEntry>, path: string, page: int, reduce: string -> string)
    requires History.UniquePaths(h) && path != ""
    ensures var recorded := History.Record(h, path, page);
      var m := OpenRecentSubmenu(FromHistory(recorded), reduce);
      && |m| == |recorded| + 2
      && m[0] == Item(Text(reduce(path)), TryOpen(path, RecentEntry(path, None)), None)
      && forall i, j :: 0 <= i < j < |m| - 2 ==> m[i].action.filePath != m[j].action.filePath
  {
    var recorded := History.Record(h, path, page);
    History.RecordKeepsPathsUnique(h, path, page);
    RecentPathsDistinct(recorded, reduce);
    var m := OpenRecentSubmenu(FromHistory(recorded), reduce);
    assert FromHistory(recorded)[|recorded| - 1] == RecentEntry(path, None);
    assert m[0] == RecentItem(RecentEntry(path, None), reduce);
  }
}
