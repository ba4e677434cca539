/**
 * The main process of app/main.js: the globals `g_fileData` and
 * `g_history`, updated in place by its handlers, and the window it sends
 * messages to. Each method performs the Session transition of the same
 * name, so what Session proves about a transition holds of the method.
 */
module Main {
  import opened Wrappers
  import opened Paths
  import opened History
  import opened Session
  import FileUtils

  class MainProcess {
    // g_fileData
    var state: LoadState
    var fileType: FileType
    var filePath: string
    var fileName: string
    var imgsFolderPath: string
    var pagesPaths: seq<string>
    var numPages: int
    var pageIndex: int
    // g_history, most recent last
    var history: seq<HistoryEntry>
    /** The messages sent to the window so far, oldest first. */
    var sent: seq<Message>
    /** The window's current width, which the title depends on. */
    var windowWidth: int

    function File(): FileData
      reads this
    {
      FileData(state, fileType, filePath, fileName, imgsFolderPath, pagesPaths, numPages, pageIndex)
    }

    function Snapshot(): Reader
      reads this
    {
      Reader(File(), history, sent, windowWidth)
    }

    constructor (windowWidth: int)
      ensures Snapshot() == Reader(NoFile, [], [], windowWidth)
    {
      state := NotSet;
      fileType := NoType;
      filePath := "";
      fileName := "";
      imgsFolderPath := "";
      pagesPaths := [];
      numPages := 0;
      pageIndex := 0;
      history := [];
      sent := [];
      this.windowWidth := windowWidth;
    }

    /** `getHistoryIndex(path)`: the first position remembering `path`, by a search that stops there. */
    method GetHistoryIndex(path: string) returns (foundIndex: Option<nat>)
      ensures foundIndex == IndexOf(history, path)
    {
      foundIndex := None;
      var index := 0;
      while index < |history|
        invariant 0 <= index <= |history|
        invariant forall j :: 0 <= j < index ==> history[j].filePath != path
      {
        if history[index].filePath == path {
          foundIndex := Some(index);
          break;
        }
        index := index + 1;
      }
    }

    /** `addCurrentToHistory`: splice out the open file's entry, push a fresh one, splice the oldest beyond ten. */
    method AddCurrentToHistory()
      modifies this
      ensures Snapshot() == RecordCurrent(old(Snapshot()))
    {
      var currentFilePath := filePath;
      var currentPageIndex := pageIndex;
      if currentFilePath != "" {
        ghost var h := history;
        var foundIndex := GetHistoryIndex(currentFilePath);
        if foundIndex.Some? {
          history := history[..foundIndex.value] + history[foundIndex.value + 1..];
          assert history == RemoveAt(h, foundIndex.value);
        }
        history := history + [HistoryEntry(currentFilePath, Some(currentPageIndex))];
        if |history| > Capacity {
          history := history[|history| - Capacity..];
        }
        assert history == Record(h, currentFilePath, currentPageIndex);
      }
    }

    /** `renderTitle`. */
    method RenderTitle()
      modifies this
      ensures Snapshot() == old(Snapshot()).(sent := old(sent) + [UpdateTitle(Title(old(File()), windowWidth))])
    {
      sent := sent + [UpdateTitle(Title(File(), windowWidth))];
    }

    /** `renderPageInfo`. */
    method RenderPageInfo()
      modifies this
      ensures Snapshot() == old(Snapshot()).(sent := old(sent) + [Message.RenderPageInfo(pageIndex, numPages)])
    {
      sent := sent + [Message.RenderPageInfo(pageIndex, numPages)];
    }

    /** `renderPdfPage(page)`: pdf.js counts pages from 1. */
    method RenderPdfPage(page: int)
      modifies this
      ensures Snapshot() == old(Snapshot()).(sent := old(sent) + [UpdateTitle(Title(old(File()), windowWidth)), Message.RenderPdfPage(page + 1)])
    {
      RenderTitle();
      sent := sent + [Message.RenderPdfPage(page + 1)];
    }

    /**
     * `renderImageFile(path)`; `completed` is false when `path` is
     * undefined, on which `path.isAbsolute` throws. A relative path is
     * ignored.
     */
    method RenderImageFile(path: Option<string>) returns (completed: bool)
      modifies this
      ensures completed == path.Some?
      ensures path.None? || !IsAbsolute(path.value) ==> Snapshot() == old(Snapshot())
      ensures path.Some? && IsAbsolute(path.value) ==> Snapshot() == old(Snapshot()).(sent := old(sent) + [
        UpdateTitle(Title(old(File()), windowWidth)), RenderImage(ImageFile(path.value))])
    {
      if path.None? {
        return false;
      }
      if !IsAbsolute(path.value) {
        return true;
      }
      RenderTitle();
      sent := sent + [RenderImage(ImageFile(path.value))];
      completed := true;
    }

    /** `renderZipEntry(zipPath, entryName)`; extracting an undefined entry throws after the title is sent. */
    method RenderZipEntry(zipPath: string, entryName: Option<string>) returns (completed: bool)
      modifies this
      ensures completed == entryName.Some?
      ensures Snapshot() == old(Snapshot()).(sent := old(sent) + [UpdateTitle(Title(old(File()), windowWidth))] +
        (if entryName.Some? then [RenderImage(ZipEntry(zipPath, entryName.value))] else []))
    {
      RenderTitle();
      if entryName.None? {
        return false;
      }
      sent := sent + [RenderImage(ZipEntry(zipPath, entryName.value))];
      completed := true;
    }

    /** `renderRarEntry(rarPath, entryName)`; extracting an undefined entry throws after the title is sent. */
    method RenderRarEntry(rarPath: string, entryName: Option<string>) returns (completed: bool)
      modifies this
      ensures completed == entryName.Some?
      ensures Snapshot() == old(Snapshot()).(sent := old(sent) + [UpdateTitle(Title(old(File()), windowWidth))] +
        (if entryName.Some? then [RenderImage(RarEntry(rarPath, entryName.value))] else []))
    {
      RenderTitle();
      if entryName.None? {
        return false;
      }
      sent := sent + [RenderImage(RarEntry(rarPath, entryName.value))];
      completed := true;
    }

    /** `goToPage(page)`. */
    method GoToPage(page: int)
      modifies this
      ensures Snapshot() == Session.GoToPage(old(Snapshot()), page)
    {
      if state != Loaded || fileType == NoType {
        return;
      }
      if page < 0 || page >= numPages {
        return;
      }
      pageIndex := page;
      var completed := RenderCurrent();
      if completed {
        RenderPageInfo();
      }
    }

    /** The switch on the file type inside `goToPage`; `completed` is false when rendering throws. */
    method RenderCurrent() returns (completed: bool)
      modifies this
      ensures var shown := Session.RenderCurrentPage(old(File()), windowWidth);
        Snapshot() == old(Snapshot()).(sent := old(sent) + shown.messages) && completed == shown.completed
    {
      ghost var f := File();
      ghost var shown := Session.RenderCurrentPage(f, windowWidth);
      var entry := CurrentEntry(File());
      match fileType
      case Imgs => completed := RenderImageFile(entry);
      case Pdf =>
        RenderPdfPage(pageIndex);
        completed := true;
      case Zip => completed := RenderZipEntry(filePath, entry);
      case Rar => completed := RenderRarEntry(filePath, entry);
      case NoType => completed := true;
    }

    /** `goToNextPage`. */
    method GoToNextPage()
      modifies this
      ensures Snapshot() == NextPage(old(Snapshot()))
    {
      ghost var r := Snapshot();
      if pageIndex + 1 < numPages {
        ghost var mid := r.(file := r.file.(pageIndex := r.file.pageIndex + 1));
        pageIndex := pageIndex + 1;
        assert Snapshot() == mid;
        GoToPage(pageIndex);
        NextPageMoves(r);
      }
    }

    /** `goToPreviousPage`. */
    method GoToPreviousPage()
      modifies this
      ensures Snapshot() == PreviousPage(old(Snapshot()))
    {
      ghost var r := Snapshot();
      if pageIndex - 1 >= 0 {
        ghost var mid := r.(file := r.file.(pageIndex := r.file.pageIndex - 1));
        pageIndex := pageIndex - 1;
        assert Snapshot() == mid;
        GoToPage(pageIndex);
        PreviousPageMoves(r);
      }
    }

    /** The `home-pressed` handler. */
    method OnHomePressed()
      modifies this
      ensures Snapshot() == Session.GoToPage(old(Snapshot()), 0)
    {
      GoToPage(0);
    }

    /** The `end-pressed` handler. */
    method OnEndPressed()
      modifies this
      ensures Snapshot() == Session.GoToPage(old(Snapshot()), old(numPages) - 1)
    {
      GoToPage(numPages - 1);
    }

    /** The `toolbar-slider-changed` handler. */
    method OnToolbarSliderChanged(value: int)
      modifies this
      ensures Snapshot() == SliderChanged(old(Snapshot()), value)
    {
      var page := value - 1;
      if state == Loaded {
        if page != pageIndex {
          GoToPage(page);
          return;
        }
      }
      RenderPageInfo();
    }

    /** Replaces the whole of `g_fileData`. */
    method SetFile(f: FileData)
      modifies this
      ensures Snapshot() == old(Snapshot()).(file := f)
    {
      state, fileType, filePath, fileName := f.state, f.fileType, f.filePath, f.fileName;
      imgsFolderPath, pagesPaths, numPages, pageIndex := f.imgsFolderPath, f.pagesPaths, f.numPages, f.pageIndex;
    }

    /** The PDF branch of `openFile`. */
    method LoadPdfFile(path: string, page: int)
      modifies this
      ensures Snapshot() == Session.LoadPdfFile(old(Snapshot()), path, page)
    {
      SetFile(FileData(Loading, Pdf, path, Basename(path), "", [], 0, page));
      sent := sent + [LoadPdf(path, page + 1)];
      RenderTitle();
    }

    /** The CBZ/CBR branch of `openFile` for a non-empty listing. */
    method LoadArchive(kind: FileType, path: string, entries: seq<string>, page: int)
      requires kind == Zip || kind == Rar
      modifies this
      ensures Snapshot() == Session.LoadArchive(old(Snapshot()), kind, path, entries, page)
    {
      SetFile(FileData(Loaded, kind, path, Basename(path), "", entries, |entries|, page));
      GoToPage(page);
    }

    /** `openFile(path, requested)`; `found` is whether the path exists, `entries` the archive's listing. */
    method OpenFile(path: string, found: bool, requested: Option<int>, entries: Option<seq<string>>)
      modifies this
      ensures Snapshot() == Open(old(Snapshot()), path, found, requested, entries)
    {
      if path == "" || !found {
        return;
      }
      AddCurrentToHistory();
      var page := StartPageOf(path, requested);
      LoadByExtension(path, page, entries);
    }

    /** The page `openFile` starts at: the remembered one when `path` is in history, else the requested one. */
    method StartPageOf(path: string, requested: Option<int>) returns (page: int)
      ensures page == StartPage(history, path, requested)
    {
      page := requested.GetOr(0);
      var historyIndex := GetHistoryIndex(path);
      if historyIndex.Some? {
        page := history[historyIndex.value].pageIndex.GetOr(0);
      }
    }

    /** The extension dispatch of `openFile`. */
    method LoadByExtension(path: string, page: int, entries: Option<seq<string>>)
      modifies this
      ensures Snapshot() == Session.LoadByExtension(old(Snapshot()), path, page, entries)
    {
      var extension := Extname(path);
      if extension == ".pdf" {
        LoadPdfFile(path, page);
      } else if extension == ".cbr" {
        if entries.Some? && |entries.value| > 0 {
          LoadArchive(Rar, path, entries.value, page);
        }
      } else if extension == ".cbz" {
        if entries.Some? && |entries.value| > 0 {
          LoadArchive(Zip, path, entries.value, page);
        }
      }
    }

    /** The `pdf-loaded` handler, taking only a report about the PDF that is open. */
    method OnPdfLoaded(loadedCorrectly: bool, path: string, pages: int)
      modifies this
      ensures Snapshot() == PdfLoaded(old(Snapshot()), path, pages)
    {
      if fileType == Pdf && filePath == path {
        state := Loaded;
        numPages := pages;
        RenderPageInfo();
      }
    }

    /** The `did-finish-load` handler, with the stored history; `found` and `entries` are about its most recent file. */
    method OnDidFinishLoad(stored: seq<HistoryEntry>, found: bool, entries: Option<seq<string>>)
      modifies this
      ensures Snapshot() == FinishLoad(old(Snapshot()), stored, found, entries)
    {
      RenderTitle();
      history := stored;
      if |history| > 0 {
        var entry := history[|history| - 1];
        OpenFile(entry.filePath, found, entry.pageIndex, entries);
      }
    }

    /** The window was resized: `renderTitle` with the new width. */
    method OnResize(width: int)
      modifies this
      ensures Snapshot() == old(Snapshot()).(windowWidth := width, sent := old(sent) + [UpdateTitle(Title(old(File()), width))])
    {
      windowWidth := width;
      RenderTitle();
    }
  }
}
