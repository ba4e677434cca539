/**
 * The main process's file session (`g_fileData`), its recent-files
 * history (`g_history`) and the messages it sends to the window, as
 * values, with each handler a transition between them. The class in
 * main_process.dfy performs the same transitions in place.
 *
 * Archive listings are inputs (`entries`); the window's answers to them
 * (pdf.js reporting a loaded document) are separate transitions. Pages are
 * not read or encoded: rendering one is the message that asks for it.
 */
module Session {
  import opened Wrappers
  import opened Paths
  import opened History
  import FileUtils

  datatype LoadState = NotSet | Loading | Loaded

  datatype FileType = NoType | Pdf | Imgs | Zip | Rar

  /** `g_fileData`. */
  datatype FileData = FileData(
    state: LoadState,
    fileType: FileType,
    filePath: string,
    fileName: string,
    imgsFolderPath: string,
    pagesPaths: seq<string>,
    numPages: int,
    pageIndex: int)

  /** The session before any file is opened. */
  const NoFile := FileData(NotSet, NoType, "", "", "", [], 0, 0)

  /** Where a page image comes from. */
  datatype ImageSource = ImageFile(path: string) | ZipEntry(archive: string, entry: string) | RarEntry(archive: string, entry: string)

  /** The name whose extension gives an image's MIME type: the file's path, or the entry's name inside the archive. */
  function TypedName(source: ImageSource): string {
    match source
    case ImageFile(p) => p
    case ZipEntry(_, e) => e
    case RarEntry(_, e) => e
  }

  /** The `data:image/<type>` type sent with an image: `getMimeType` of its typed name. */
  function MimeTypeSent(source: ImageSource): string {
    FileUtils.MimeType(TypedName(source))
  }

  /** An image whose typed name is `dir/stem.ext` is sent as type `ext`, whatever archive holds it. */
  lemma MimeTypeSentOfName(source: ImageSource, dir: string, stem: string, ext: string)
    requires TypedName(source) == Join(dir, stem + "." + ext)
    requires stem != "" && ext != ""
    requires NoChar(stem, '/') && NoChar(ext, '/') && NoChar(ext, '.')
    ensures MimeTypeSent(source) == ext
  {
    FileUtils.MimeTypeOfName(dir, stem, ext);
  }

  /**
   * The messages sent to the window. Page numbers for pdf.js count from 1.
   * An image is sent as a data URL; the model keeps its source, from which
   * its MIME type is `MimeTypeSent(source)`.
   */
  datatype Message =
    | LoadPdf(filePath: string, pageNumber: int)
    | RenderPdfPage(pageNumber: int)
    | RenderImage(source: ImageSource)
    | RenderPageInfo(pageIndex: int, numPages: int)
    | UpdateTitle(title: string)

  /** Everything the session handlers read and write; `sent` lists the messages sent so far, oldest first. */
  datatype Reader = Reader(file: FileData, history: seq<HistoryEntry>, sent: seq<Message>, windowWidth: int)

  // ---------------------------------------------------------------------
  // Title

  const Blank := "           "
  const TitleSuffix := " - ACBR" + Blank
  const MaxTitleName: nat := 50

  /** The file name as the title shows it: cut to 47 characters and "..." when longer than 50. */
  function DisplayName(name: string): (r: string)
    ensures |r| <= MaxTitleName
    ensures |name| <= MaxTitleName ==> r == name
    ensures |name| > MaxTitleName ==> |r| == MaxTitleName && r == name[..MaxTitleName - 3] + "..."
  {
    if |name| > MaxTitleName then name[..MaxTitleName - 3] + "..." else name
  }

  /** `generateTitle`: a fixed title before any file and in a window narrower than 600, else the shortened file name. */
  function Title(f: FileData, windowWidth: int): (t: string)
    ensures |t| <= MaxTitleName + |TitleSuffix|
  {
    if f.state == NotSet then "Comic Book Reader - ACBR" + Blank
    else if windowWidth < 600 then "ACBR" + Blank
    else DisplayName(f.fileName) + TitleSuffix
  }

  /** The three titles: the program's name before any file, its short name in a narrow window, else the file name. */
  lemma TitleCases(f: FileData, windowWidth: int)
    ensures |Blank| == 11
    ensures f.state == NotSet ==> Title(f, windowWidth) == "Comic Book Reader - ACBR" + Blank
    ensures f.state != NotSet && windowWidth < 600 ==> Title(f, windowWidth) == "ACBR" + Blank
    ensures f.state != NotSet && windowWidth >= 600 ==> Title(f, windowWidth) == DisplayName(f.fileName) + TitleSuffix
  {
  }

  // ---------------------------------------------------------------------
  // Page navigation

  /** `pagesPaths[pageIndex]`, None where JavaScript reads undefined. */
  function CurrentEntry(f: FileData): (e: Option<string>)
    ensures e.Some? <==> 0 <= f.pageIndex < |f.pagesPaths|
    ensures e.Some? ==> e.value == f.pagesPaths[f.pageIndex]
  {
    if 0 <= f.pageIndex < |f.pagesPaths| then Some(f.pagesPaths[f.pageIndex]) else None
  }

  /**
   * The messages rendering the current page sends, and whether the
   * handler gets past it: looking up or extracting an undefined entry
   * throws. `renderImageFile` sends nothing for a relative path.
   */
  datatype Rendered = Rendered(messages: seq<Message>, completed: bool)

  function RenderCurrentPage(f: FileData, windowWidth: int): (s: Rendered)
    ensures |s.messages| <= 2
    ensures s.completed <==> !((f.fileType == Imgs || f.fileType == Zip || f.fileType == Rar) && CurrentEntry(f).None?)
    ensures f.fileType == Pdf || f.fileType == Zip || f.fileType == Rar ==>
      |s.messages| >= 1 && s.messages[0] == UpdateTitle(Title(f, windowWidth))
  {
    var title := UpdateTitle(Title(f, windowWidth));
    match f.fileType
    case Imgs =>
      (match CurrentEntry(f)
       case None => Rendered([], false)
       case Some(p) =>
         if !IsAbsolute(p) then Rendered([], true)
         else Rendered([title, RenderImage(ImageFile(p))], true))
    case Pdf => Rendered([title, RenderPdfPage(f.pageIndex + 1)], true)
    case Zip =>
      (match CurrentEntry(f)
       case None => Rendered([title], false)
       case Some(e) => Rendered([title, RenderImage(ZipEntry(f.filePath, e))], true))
    case Rar =>
      (match CurrentEntry(f)
       case None => Rendered([title], false)
       case Some(e) => Rendered([title, RenderImage(RarEntry(f.filePath, e))], true))
    case NoType => Rendered([], true)
  }

  /** `goToPage(page)` may move: a file is loaded, its type set, and the page exists. */
  predicate CanGoTo(f: FileData, page: int) {
    f.state == Loaded && f.fileType != NoType && 0 <= page < f.numPages
  }

  /** `goToPage(page)`: nothing happens unless the page can be shown; then it becomes current and is rendered, then the page info. */
  function GoToPage(r: Reader, page: int): (r': Reader)
    ensures !CanGoTo(r.file, page) ==> r' == r
    ensures CanGoTo(r.file, page) ==> r'.file == r.file.(pageIndex := page)
    ensures r'.history == r.history && r'.windowWidth == r.windowWidth && r.sent <= r'.sent
  {
    if !CanGoTo(r.file, page) then r
    else
      var f := r.file.(pageIndex := page);
      var shown := RenderCurrentPage(f, r.windowWidth);
      r.(file := f, sent := r.sent + shown.messages + (if shown.completed then [RenderPageInfo(page, f.numPages)] else []))
  }

  /** `goToNextPage`: the index is incremented first, and goToPage then decides whether anything is shown. */
  function NextPage(r: Reader): (r': Reader)
    ensures r'.history == r.history && r'.windowWidth == r.windowWidth
    ensures r.file.pageIndex + 1 < r.file.numPages ==> r'.file == r.file.(pageIndex := r.file.pageIndex + 1)
    ensures r.file.pageIndex + 1 >= r.file.numPages ==> r' == r
  {
    var f := r.file;
    if f.pageIndex + 1 < f.numPages then GoToPage(r.(file := f.(pageIndex := f.pageIndex + 1)), f.pageIndex + 1) else r
  }

  /** `goToPreviousPage`. */
  function PreviousPage(r: Reader): (r': Reader)
    ensures r'.history == r.history && r'.windowWidth == r.windowWidth
    ensures r.file.pageIndex - 1 >= 0 ==> r'.file == r.file.(pageIndex := r.file.pageIndex - 1)
    ensures r.file.pageIndex - 1 < 0 ==> r' == r
  {
    var f := r.file;
    if f.pageIndex - 1 >= 0 then GoToPage(r.(file := f.(pageIndex := f.pageIndex - 1)), f.pageIndex - 1) else r
  }

  /** Moving back from a page after the first is goToPage on the page before, with the index already lowered. */
  lemma PreviousPageMoves(r: Reader)
    requires r.file.pageIndex - 1 >= 0
    ensures PreviousPage(r) == GoToPage(r.(file := r.file.(pageIndex := r.file.pageIndex - 1)), r.file.pageIndex - 1)
  {
  }

  /** Moving on from a page before the last is goToPage on the next page, with the index already raised. */
  lemma NextPageMoves(r: Reader)
    requires r.file.pageIndex + 1 < r.file.numPages
    ensures NextPage(r) == GoToPage(r.(file := r.file.(pageIndex := r.file.pageIndex + 1)), r.file.pageIndex + 1)
  {
  }

  /** The `toolbar-slider-changed` handler with the slider's 1-based `value`. */
  function SliderChanged(r: Reader, value: int): (r': Reader)
    ensures r'.history == r.history && r'.windowWidth == r.windowWidth
    ensures r'.file == r.file || (CanGoTo(r.file, value - 1) && r'.file == r.file.(pageIndex := value - 1))
    ensures r.file.state != Loaded || value - 1 == r.file.pageIndex ==>
      r'.file == r.file && r'.sent == r.sent + [RenderPageInfo(r.file.pageIndex, r.file.numPages)]
  {
    var page := value - 1;
    if r.file.state == Loaded && page != r.file.pageIndex then GoToPage(r, page)
    else r.(sent := r.sent + [RenderPageInfo(r.file.pageIndex, r.file.numPages)])
  }

  // ---------------------------------------------------------------------
  // Opening files

  /** The page a file opens at: the one remembered for it (0 when the entry has none), else the requested one (0 when undefined). */
  function StartPage(h: seq<HistoryEntry>, filePath: string, requested: Option<int>): (p: int)
    ensures (forall i :: 0 <= i < |h| ==> h[i].filePath != filePath) ==> p == requested.GetOr(0)
    ensures (exists i :: 0 <= i < |h| && h[i].filePath == filePath) ==>
      exists i :: 0 <= i < |h| && h[i].filePath == filePath && p == h[i].pageIndex.GetOr(0)
  {
    match IndexOf(h, filePath)
    case Some(i) => h[i].pageIndex.GetOr(0)
    case None => requested.GetOr(0)
  }

  predicate IsArchiveExtension(ext: string) {
    ext == ".cbr" || ext == ".cbz"
  }

  /** `addCurrentToHistory` on the session. */
  function RecordCurrent(r: Reader): (r': Reader)
    ensures r'.file == r.file && r'.sent == r.sent && r'.windowWidth == r.windowWidth
    ensures r.file.filePath == "" ==> r' == r
    ensures r.file.filePath != "" ==>
      |r'.history| > 0 && r'.history[|r'.history| - 1] == HistoryEntry(r.file.filePath, Some(r.file.pageIndex))
  {
    r.(history := Record(r.history, r.file.filePath, r.file.pageIndex))
  }

  /** The PDF branch of `openFile`: the file starts loading at `page`, asking pdf.js for it counted from 1. */
  function LoadPdfFile(r: Reader, filePath: string, page: int): (r': Reader)
    ensures r'.file == FileData(Loading, Pdf, filePath, Basename(filePath), "", [], 0, page)
    ensures r'.sent == r.sent + [LoadPdf(filePath, page + 1), UpdateTitle(Title(r'.file, r.windowWidth))]
    ensures r'.history == r.history && r'.windowWidth == r.windowWidth
  {
    var f := FileData(Loading, Pdf, filePath, Basename(filePath), "", [], 0, page);
    r.(file := f, sent := r.sent + [LoadPdf(filePath, page + 1), UpdateTitle(Title(f, r.windowWidth))])
  }

  /** The CBZ/CBR branch of `openFile` for a non-empty listing: the archive is loaded at `page`, unclamped, and goToPage shows it if it exists. */
  function LoadArchive(r: Reader, fileType: FileType, filePath: string, entries: seq<string>, page: int): (r': Reader)
    requires fileType == Zip || fileType == Rar
    ensures r'.file == FileData(Loaded, fileType, filePath, Basename(filePath), "", entries, |entries|, page)
    ensures r'.history == r.history && r'.windowWidth == r.windowWidth && r.sent <= r'.sent
    ensures !(0 <= page < |entries|) ==> r'.sent == r.sent
  {
    GoToPage(r.(file := FileData(Loaded, fileType, filePath, Basename(filePath), "", entries, |entries|, page)), page)
  }

  /**
   * `openFile(filePath, requested)`; `found` is `fs.existsSync(filePath)`
   * and `entries` what listing the archive gives. The file being closed is
   * recorded in history before the extension is looked at; the extension
   * test is case-sensitive.
   */
  function Open(r: Reader, filePath: string, found: bool, requested: Option<int>, entries: Option<seq<string>>): (r': Reader)
    ensures filePath == "" || !found ==> r' == r
    ensures filePath != "" && found ==> r'.history == Record(r.history, r.file.filePath, r.file.pageIndex)
    ensures filePath != "" && found && Extname(filePath) != ".pdf" && !IsArchiveExtension(Extname(filePath)) ==>
      r' == RecordCurrent(r)
    ensures r'.windowWidth == r.windowWidth && r.sent <= r'.sent
  {
    if filePath == "" || !found then r
    else
      var r1 := RecordCurrent(r);
      LoadByExtension(r1, filePath, StartPage(r1.history, filePath, requested), entries)
  }

  /** What `openFile` does after recording the closed file: dispatch on the extension, case-sensitively. */
  function LoadByExtension(r: Reader, filePath: string, page: int, entries: Option<seq<string>>): (r': Reader)
    ensures Extname(filePath) != ".pdf" && !IsArchiveExtension(Extname(filePath)) ==> r' == r
    ensures r'.history == r.history && r'.windowWidth == r.windowWidth && r.sent <= r'.sent
  {
    var ext := Extname(filePath);
    if ext == ".pdf" then LoadPdfFile(r, filePath, page)
    else if IsArchiveExtension(ext) && entries.Some? && |entries.value| > 0 then
      LoadArchive(r, if ext == ".cbr" then Rar else Zip, filePath, entries.value, page)
    else r
  }

  /**
   * The `did-finish-load` handler: the title is shown, the stored history
   * replaces the current one, and its most recent file is reopened at its
   * remembered page.
   */
  function FinishLoad(r: Reader, stored: seq<HistoryEntry>, found: bool, entries: Option<seq<string>>): (r': Reader)
    ensures stored == [] ==> r'.history == [] && r'.file == r.file
  {
    var r1 := r.(history := stored, sent := r.sent + [UpdateTitle(Title(r.file, r.windowWidth))]);
    if |stored| > 0 then Open(r1, stored[|stored| - 1].filePath, found, stored[|stored| - 1].pageIndex, entries) else r1
  }

  /** The `pdf-loaded` handler as written: it trusts any report, whatever file is open. */
  function PdfLoadedAsWritten(r: Reader, filePath: string, numPages: int): (r': Reader)
    ensures r'.file.state == Loaded && r'.file.numPages == numPages
    ensures r'.file == r.file.(state := Loaded, numPages := numPages)
    ensures r'.history == r.history && r'.windowWidth == r.windowWidth
  {
    var f := r.file.(state := Loaded, numPages := numPages);
    r.(file := f, sent := r.sent + [RenderPageInfo(f.pageIndex, numPages)])
  }

  /** The `pdf-loaded` handler, taking only a report about the PDF that is open. */
  function PdfLoaded(r: Reader, filePath: string, numPages: int): (r': Reader)
    ensures r.file.fileType != Pdf || r.file.filePath != filePath ==> r' == r
    ensures r.file.fileType == Pdf && r.file.filePath == filePath ==>
      && r'.file == r.file.(state := Loaded, numPages := numPages)
      && r'.sent == r.sent + [RenderPageInfo(r.file.pageIndex, numPages)]
      && r'.history == r.history
  {
    if r.file.fileType == Pdf && r.file.filePath == filePath then PdfLoadedAsWritten(r, filePath, numPages) else r
  }

  // ---------------------------------------------------------------------
  // The session invariant

  /**
   * A session is set exactly when it has a type, only a PDF is ever
   * loading, and an archive or image folder is loaded with one page per
   * listed entry.
   */
  predicate Consistent(f: FileData) {
    && (f.state == NotSet <==> f.fileType == NoType)
    && (f.state == Loading ==> f.fileType == Pdf)
    && (f.fileType == Zip || f.fileType == Rar || f.fileType == Imgs ==>
          f.state == Loaded && f.numPages == |f.pagesPaths| && f.numPages > 0)
  }

  lemma NoFileConsistent()
    ensures Consistent(NoFile)
  {
  }

  /** Every page move keeps the session consistent. */
  lemma MovesPreserveConsistency(r: Reader, page: int, value: int)
    requires Consistent(r.file)
    ensures Consistent(GoToPage(r, page).file)
    ensures Consistent(NextPage(r).file)
    ensures Consistent(PreviousPage(r).file)
    ensures Consistent(SliderChanged(r, value).file)
  {
  }

  /** Opening a file keeps the session consistent, whatever the extension and listing. */
  lemma OpenPreservesConsistency(r: Reader, filePath: string, found: bool, requested: Option<int>, entries: Option<seq<string>>)
    requires Consistent(r.file)
    ensures Consistent(Open(r, filePath, found, requested, entries).file)
  {
  }

  /** The guarded `pdf-loaded` handler keeps the session consistent. */
  lemma PdfLoadedPreservesConsistency(r: Reader, filePath: string, numPages: int)
    requires Consistent(r.file)
    ensures Consistent(PdfLoaded(r, filePath, numPages).file)
  {
  }

  /** A CBZ session with three pages, whose page 0 is shown. */
  function ThreePageZip(): Reader {
    Reader(FileData(Loaded, Zip, "/c/b.cbz", "b.cbz", "", ["1.jpg", "2.jpg", "3.jpg"], 3, 0), [], [], 800)
  }

  /**
   * A late `pdf-loaded` report for a PDF opened before the CBZ: as
   * written, the CBZ session now claims ten pages, and the end key asks
   * for page 9, which has no entry; only the title is sent before the
   * lookup fails.
   */
  lemma StalePdfReportBreaksZipSession()
    ensures !Consistent(PdfLoadedAsWritten(ThreePageZip(), "/c/a.pdf", 10).file)
    ensures var r := PdfLoadedAsWritten(ThreePageZip(), "/c/a.pdf", 10);
      GoToPage(r, r.file.numPages - 1).sent == r.sent + [UpdateTitle(Title(r.file, 800))]
    ensures PdfLoaded(ThreePageZip(), "/c/a.pdf", 10) == ThreePageZip()
  {
  }

  // ---------------------------------------------------------------------
  // Properties of the transitions

  /** In a consistent CBZ session, going to an existing page sends the title, that entry's image, and the page info, in that order. */
  lemma GoToPageShowsZipEntry(r: Reader, page: int)
    requires Consistent(r.file) && r.file.fileType == Zip && 0 <= page < r.file.numPages
    ensures var e := r.file.pagesPaths[page];
      GoToPage(r, page).sent == r.sent + [
        UpdateTitle(Title(r.file, r.windowWidth)),
        RenderImage(ZipEntry(r.file.filePath, e)),
        RenderPageInfo(page, r.file.numPages)]
  {
    var f := r.file.(pageIndex := page);
    assert Title(f, r.windowWidth) == Title(r.file, r.windowWidth);
  }

  /** Next moves one page on while there is one and the file is loaded; it does nothing on the last page. */
  lemma NextPageSteps(r: Reader)
    requires r.file.state == Loaded && r.file.fileType != NoType && 0 <= r.file.pageIndex < r.file.numPages
    ensures r.file.pageIndex + 1 < r.file.numPages ==> NextPage(r).file.pageIndex == r.file.pageIndex + 1
    ensures r.file.pageIndex + 1 == r.file.numPages ==> NextPage(r) == r
    ensures 0 <= NextPage(r).file.pageIndex < NextPage(r).file.numPages
  {
  }

  /** Previous moves one page back while there is one; it does nothing on the first page. */
  lemma PreviousPageSteps(r: Reader)
    requires r.file.state == Loaded && r.file.fileType != NoType && 0 <= r.file.pageIndex < r.file.numPages
    ensures r.file.pageIndex > 0 ==> PreviousPage(r).file.pageIndex == r.file.pageIndex - 1
    ensures r.file.pageIndex == 0 ==> PreviousPage(r) == r
    ensures 0 <= PreviousPage(r).file.pageIndex < PreviousPage(r).file.numPages
  {
  }

  /** While a PDF loads, Previous still lowers the index, and nothing is shown. */
  lemma PreviousPageWhileLoading(r: Reader)
    requires r.file.state == Loading && r.file.pageIndex >= 1
    ensures PreviousPage(r).file == r.file.(pageIndex := r.file.pageIndex - 1)
    ensures PreviousPage(r).sent == r.sent
  {
  }

  /** The slider's 1-based position `value` shows page `value - 1` of a loaded file when that page exists. */
  lemma SliderShowsPage(r: Reader, value: int)
    requires Consistent(r.file) && CanGoTo(r.file, value - 1) && value - 1 != r.file.pageIndex
    ensures SliderChanged(r, value).file.pageIndex == value - 1
    ensures var s := SliderChanged(r, value).sent; |s| > 0 && s[|s| - 1] == RenderPageInfo(value - 1, r.file.numPages)
  {
    GoToPageShowsAnyPage(r, value - 1);
  }

  /** With a consistent session, going to an existing page always ends with the page info. */
  lemma GoToPageShowsAnyPage(r: Reader, page: int)
    requires Consistent(r.file) && CanGoTo(r.file, page)
    ensures var s := GoToPage(r, page).sent; |s| > |r.sent| && s[|s| - 1] == RenderPageInfo(page, r.file.numPages)
  {
    var f := r.file.(pageIndex := page);
    assert CurrentEntry(f).Some? || f.fileType == Pdf;
  }

  /** Opening a CBZ or CBR with entries loads it at the start page, unclamped. */
  lemma OpenArchive(r: Reader, filePath: string, requested: Option<int>, entries: seq<string>)
    requires filePath != "" && IsArchiveExtension(Extname(filePath)) && |entries| > 0
    ensures var r' := Open(r, filePath, true, requested, Some(entries));
      var page := StartPage(Record(r.history, r.file.filePath, r.file.pageIndex), filePath, requested);
      r'.file.state == Loaded && r'.file.pagesPaths == entries && r'.file.numPages == |entries| &&
      r'.file.pageIndex == page && r'.file.filePath == filePath &&
      r'.file.fileType == (if Extname(filePath) == ".cbr" then Rar else Zip)
  {
  }

  /** Opening a CBZ or CBR whose listing is empty or missing only records the closed file. */
  lemma OpenEmptyArchive(r: Reader, filePath: string, requested: Option<int>, entries: Option<seq<string>>)
    requires filePath != "" && IsArchiveExtension(Extname(filePath)) && (entries.None? || entries.value == [])
    ensures Open(r, filePath, true, requested, entries) == RecordCurrent(r)
  {
  }

  /** Opening a PDF starts loading it at the start page, asking pdf.js for that page counted from 1. */
  lemma OpenPdf(r: Reader, filePath: string, requested: Option<int>, entries: Option<seq<string>>)
    requires filePath != "" && Extname(filePath) == ".pdf"
    ensures var r' := Open(r, filePath, true, requested, entries);
      var page := StartPage(Record(r.history, r.file.filePath, r.file.pageIndex), filePath, requested);
      r'.file.state == Loading && r'.file.fileType == Pdf && r'.file.numPages == 0 && r'.file.pageIndex == page &&
      r'.sent[|r.sent|] == LoadPdf(filePath, page + 1) && |r'.sent| == |r.sent| + 2
  {
    var r1 := RecordCurrent(r);
    assert Open(r, filePath, true, requested, entries) == LoadPdfFile(r1, filePath, StartPage(r1.history, filePath, requested));
  }

  /** Reopening the open archive resumes at its current page, whatever page is requested. */
  lemma ReopenResumes(r: Reader, requested: Option<int>, entries: seq<string>)
    requires UniquePaths(r.history) && r.file.filePath != ""
    requires IsArchiveExtension(Extname(r.file.filePath)) && |entries| > 0
    ensures Open(r, r.file.filePath, true, requested, Some(entries)).file.pageIndex == r.file.pageIndex
  {
    var h := Record(r.history, r.file.filePath, r.file.pageIndex);
    RecordThenFind(r.history, r.file.filePath, r.file.pageIndex);
    assert StartPage(h, r.file.filePath, requested) == Some(r.file.pageIndex).GetOr(0);
    OpenArchive(r, r.file.filePath, requested, entries);
  }

  /** A file not in history opens at the requested page, or at 0 when none is requested. */
  lemma OpenAtRequestedPage(r: Reader, filePath: string, requested: Option<int>, entries: seq<string>)
    requires filePath != "" && filePath != r.file.filePath
    requires forall j :: 0 <= j < |r.history| ==> r.history[j].filePath != filePath
    requires IsArchiveExtension(Extname(filePath)) && |entries| > 0
    ensures Open(r, filePath, true, requested, Some(entries)).file.pageIndex == requested.GetOr(0)
  {
    var h := Record(r.history, r.file.filePath, r.file.pageIndex);
    if r.file.filePath != "" {
      RecordOnlyAddsCurrent(r.history, r.file.filePath, r.file.pageIndex, filePath);
    }
    assert IndexOf(h, filePath).None?;
    assert StartPage(h, filePath, requested) == requested.GetOr(0);
    OpenArchive(r, filePath, requested, entries);
  }

  /** Recording a file leaves no entry for any other path that was not there before. */
  lemma RecordOnlyAddsCurrent(h: seq<HistoryEntry>, path: string, page: int, other: string)
    requires path != "" && other != path
    requires forall j :: 0 <= j < |h| ==> h[j].filePath != other
    ensures forall j :: 0 <= j < |Record(h, path, page)| ==> Record(h, path, page)[j].filePath != other
  {
    var r := Record(h, path, page);
    RecordAddsOnlyItsEntry(h, path, page);
    forall j | 0 <= j < |r| ensures r[j].filePath != other {
      assert r[j] in r;
      if r[j] in h {
        var k :| 0 <= k < |h| && h[k] == r[j];
      }
    }
  }

  /**
   * A start page beyond the archive is kept as it is: the session is
   * loaded at a page that does not exist and nothing is shown.
   */
  lemma OpenDoesNotClampStart(r: Reader, filePath: string)
    requires filePath != "" && filePath != r.file.filePath && Extname(filePath) == ".cbz"
    requires forall j :: 0 <= j < |r.history| ==> r.history[j].filePath != filePath
    ensures var r' := Open(r, filePath, true, Some(7), Some(["1.jpg", "2.jpg", "3.jpg"]));
      r'.file.state == Loaded && r'.file.numPages == 3 && r'.file.pageIndex == 7 && r'.sent == r.sent
  {
    OpenAtRequestedPage(r, filePath, Some(7), ["1.jpg", "2.jpg", "3.jpg"]);
  }

  /**
   * The extension test is case-sensitive: a file whose extension is not
   * exactly ".pdf", ".cbr" or ".cbz" (such as "NAME.PDF") is neither a PDF
   * nor an archive, so opening it only records the closed file.
   */
  lemma OpenIgnoresUpperCaseExtension(r: Reader, dir: string, stem: string, ext: string, entries: Option<seq<string>>)
    requires stem != "" && NoChar(stem, '/')
    requires ext != "" && NoChar(ext, '/') && NoChar(ext, '.')
    requires ext != "pdf" && ext != "cbr" && ext != "cbz"
    ensures Open(r, Join(dir, stem + "." + ext), true, None, entries) == RecordCurrent(r)
  {
    ExtnameOfName(dir, stem, ext);
    DotExtensionDiffers(ext);
  }

  lemma DotExtensionDiffers(ext: string)
    requires ext != "pdf" && ext != "cbr" && ext != "cbz"
    ensures "." + ext != ".pdf" && !IsArchiveExtension("." + ext)
  {
    assert ("." + ext)[1..] == ext;
    assert ".pdf"[1..] == "pdf" && ".cbr"[1..] == "cbr" && ".cbz"[1..] == "cbz";
  }

  /**
   * At start-up, with no file open, the most recent archive in a stored
   * history without repeated paths is reopened at its remembered page.
   */
  lemma StartupResumesLastFile(r: Reader, stored: seq<HistoryEntry>, entries: seq<string>)
    requires r.file == NoFile && UniquePaths(stored) && |stored| > 0
    requires var last := stored[|stored| - 1]; last.filePath != "" && IsArchiveExtension(Extname(last.filePath))
    requires |entries| > 0
    ensures var last := stored[|stored| - 1];
      var r' := FinishLoad(r, stored, true, Some(entries));
      r'.file.filePath == last.filePath && r'.file.state == Loaded && r'.file.pageIndex == last.pageIndex.GetOr(0)
  {
    var last := stored[|stored| - 1];
    var r1 := r.(history := stored, sent := r.sent + [UpdateTitle(Title(r.file, r.windowWidth))]);
    assert IndexOf(stored, last.filePath) == Some(|stored| - 1);
    assert Record(stored, "", 0) == stored;
    OpenArchive(r1, last.filePath, last.pageIndex, entries);
  }
}
