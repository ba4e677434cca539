# Comic book reader: session, history, file utilities, export, audio playlist and menus

A Dafny model of the core of an Electron comic book reader. It covers five parts:

- **The main process** (`app/main.js`):
  - the open file's session record (`g_fileData`: NOT_SET, LOADING, LOADED);
  - the PDF, CBZ and CBR openers;
  - page navigation;
  - the window title;
  - the recent-files history (`g_history`, newest last, at most ten entries).

  It is modelled twice. In `session.dfy` each handler is a pure transition of a `Reader` value: the file record, the history, the messages sent to the window and the window width. In `main_process.dfy` the class `Main.MainProcess` holds the same globals as fields and updates them in place. Every method ensures `Snapshot() == <transition>(old(Snapshot()))`, so what is proved about a transition holds of the handler. `history.dfy` holds the history list and its recording rule.
- **The shared file utilities** (`file_utils.dfy`):
  - the extension tests and the MIME suffix;
  - the recursive image walk and the comicinfo.xml walk, over an abstract directory tree;
  - the guarded recursive delete, as the list of removals it performs;
  - the temp-folder bookkeeping, as a class over the two module globals.
- **The page-export worker** (`export.dfy`):
  - where the bytes come from;
  - the output name `<stem>_page_<N+1><ext>`;
  - the `(2)`, `(3)`, … collision loop;
  - the reply it sends.
- **The audio player's playlist** (`audio_player.dfy`):
  - a linear or shuffled track list, with Fisher–Yates over an array;
  - prev, next and end-of-track moves, with repeat wrap-around;
  - the button enable rules;
  - the time and name formatting.
- **The menu builders** (`menu_bar.dfy`):
  - the help, scale-to-height and open-recent submenus, as list functions.

Node's `path` functions are in `paths.dfy`:
- `extname`, `basename` and `isAbsolute` follow the POSIX rules;
- `join` is plain concatenation with "/";
- lower-casing is ASCII.

`decimal.dfy` turns numbers into text and reads the digits back.

JavaScript's `undefined` is `Option.None`. Calls into code that is not part of this model are parameters or inputs:
- `fs.existsSync` and directory listings;
- archive listing and extraction;
- content sniffing;
- `Math.random`;
- the audio engine.

A handler that would throw is modelled by a `completed`/`ok` result, or by the messages sent before the throw.

## Model

| member | source | states |
|---|---|---|
| History.IndexOf | app/main.js:174-184 | The result is the smallest index whose path matches, or None when no entry has that path. |
| History.RemoveAt | app/main.js:161-164 | The splice keeps the entries before position i and moves the later ones down by one. |
| Main.MainProcess.GetHistoryIndex | app/main.js:174-184 | The search loop with `break` returns exactly `IndexOf(history, path)`. |
| Main.MainProcess.constructor | app/main.js:327-350 | The main process starts with no file (NOT_SET, no type, no pages), an empty history and no message sent. |
| History.KeepLast | app/main.js:168-170 | Trimming keeps min(len, n) entries and drops the oldest from the head: the result is a suffix of the input. |
| History.Record | app/main.js:157-172 | An empty path leaves the history unchanged. Otherwise the result has between 1 and 10 entries and ends with the path at the current page. |
| History.RecordIsFilterAppendTrim | app/main.js:157-172 | With unique paths, recording equals: the other entries in their old order, the new entry appended, then the newest ten kept. |
| History.RecordKeepsPathsUnique | app/main.js:157-172 | Recording keeps every path unique, and the recorded path occurs only as the last entry. |
| History.RecordThenFind | app/main.js:157-184 | After recording, getHistoryIndex finds the path at the last position, with the recorded page. |
| Main.MainProcess.AddCurrentToHistory | app/main.js:157-172 | The splice/push/splice code performs `RecordCurrent` on the class state. |
| Session.DisplayName | app/main.js:494-500 | The file name as the title shows it: unchanged up to 50 characters, otherwise its first 47 and "...", so never longer than 50. |
| Session.Title | app/main.js:485-502 | A title is never longer than a shortened file name followed by " - ACBR" and 11 blanks. |
| Session.TitleCases | app/main.js:485-502 | Three cases: the fixed title before any file; "ACBR" in a window narrower than 600; otherwise the shortened name followed by " - ACBR" and 11 blanks. |
| Main.MainProcess.RenderTitle | app/main.js:432-436 | Sends exactly one `update-title` message with the current title. |
| Main.MainProcess.RenderPageInfo | app/main.js:438-444 | Sends exactly one page-info message with the current index and page count. |
| Main.MainProcess.RenderPdfPage | app/main.js:478-481 | Sends the title, then asks for the page counted from 1. |
| Main.MainProcess.RenderImageFile | app/main.js:446-456 | An undefined path throws. A relative path sends nothing. An absolute path sends the title and then the image. |
| Session.MimeTypeSentOfName | app/main.js:453-474 | The `data:image/` type sent with a page image is `getMimeType` of the file path or of the entry name: for a name `dir/stem.ext` it is `ext`, whatever archive holds the entry. |
| Main.MainProcess.RenderZipEntry | app/main.js:458-466 | The title is always sent. The entry image follows only for a defined entry; an undefined one throws. |
| Main.MainProcess.RenderRarEntry | app/main.js:468-476 | The same for RAR entries. |
| Session.CurrentEntry | app/main.js:512-530 | `pagesPaths[pageIndex]` is defined exactly when the index lies within the list, and is then that entry. |
| Session.RenderCurrentPage | app/main.js:512-530 | Rendering sends at most two messages, the title first for PDF, ZIP and RAR. It fails to complete exactly when an image, ZIP or RAR session has no entry at `pageIndex`. |
| Session.GoToPage | app/main.js:508-533 | No change unless the session is LOADED, has a type and `0 <= page < numPages`. Otherwise only `pageIndex` changes, to `page`. The history is untouched and messages are only appended. |
| Main.MainProcess.GoToPage | app/main.js:508-533 | The in-place handler performs `Session.GoToPage`. |
| Main.MainProcess.RenderCurrent | app/main.js:516-531 | The switch on the file type sends what `Session.RenderCurrentPage` lists for the current page, and reports whether the render threw. |
| Main.MainProcess.GoToNextPage | app/main.js:539-544 | The handler performs `NextPage`: increment, then goToPage, only while `pageIndex + 1 < numPages`. |
| Main.MainProcess.GoToPreviousPage | app/main.js:546-551 | The handler performs `PreviousPage`: decrement, then goToPage, only while `pageIndex - 1 >= 0`. |
| Session.NextPageSteps | app/main.js:539-544 | A loaded file moves to the next page while there is one. On the last page nothing changes, and the index stays in range. |
| Session.NextPage | app/main.js:539-544 | Only the page index can change. It goes up by one whenever a next page exists, even when goToPage then shows nothing. On the last page nothing changes. |
| Session.PreviousPage | app/main.js:546-551 | Only the page index can change. It goes down by one whenever the index is positive, even when goToPage then shows nothing. At index 0 nothing changes. |
| Session.PreviousPageSteps | app/main.js:546-551 | A loaded file moves to the previous page while there is one. On page 0 nothing changes, and the index stays in range. |
| Session.PreviousPageWhileLoading | app/main.js:546-551 | While a PDF is LOADING, previous still lowers `pageIndex` and sends nothing. |
| Session.GoToPageShowsZipEntry | app/main.js:508-533 | In a consistent CBZ session, going to an existing page sends the title, that entry's image and the page info, in that order. |
| Session.GoToPageShowsAnyPage | app/main.js:508-533 | In a consistent session, any page goToPage accepts ends with a page-info message for that page. |
| Main.MainProcess.OnHomePressed | app/main.js:212-214 | The home key is goToPage(0). |
| Main.MainProcess.OnEndPressed | app/main.js:216-218 | The end key is goToPage(numPages - 1). |
| Main.MainProcess.OnToolbarSliderChanged | app/main.js:256-265 | The handler performs `SliderChanged`. A loaded file at a different page goes to `value - 1`; otherwise only the page info is re-sent. |
| Session.SliderShowsPage | app/main.js:256-265 | In a consistent session, a slider position naming an existing different page makes `value - 1` current and ends with its page info. |
| Session.SliderChanged | app/main.js:256-265 | The file record either stays or moves to page `value - 1`, and only to a page goToPage can show. Before loading, or for the current page, only the page info is sent again. |
| Session.LoadPdfFile | app/main.js:364-374 | The PDF branch: LOADING, type PDF, `numPages = 0`, `pageIndex = start`. It sends load-pdf for page start+1, then the title. |
| Session.StartPage | app/main.js:352-362 | A path absent from history opens at the requested page, 0 when none is given. A remembered path opens at the page stored in an entry for it. |
| Session.RecordCurrent | app/main.js:157-172 | Only the history changes. With a file open it ends with that file at its page; with none open nothing changes. |
| Session.LoadArchive | app/main.js:376-403 | The CBR/CBZ branch: LOADED, with the type, entries, `numPages = entries.length` and `pageIndex = start`, unclamped. A start outside the entries sends nothing. |
| Session.Open | app/main.js:352-425 | No-op for "" or a missing path. Otherwise the closed file is recorded in history first. An unsupported extension changes only the history. |
| Session.LoadByExtension | app/main.js:363-408 | An extension other than .pdf, .cbr or .cbz leaves the session unchanged. |
| Main.MainProcess.StartPageOf | app/main.js:356-361 | The start page is the stored page when the path is in history (0 if that page is undefined), else the requested one. |
| Main.MainProcess.OpenFile | app/main.js:352-425 | The in-place `openFile` performs `Session.Open`. |
| Main.MainProcess.LoadPdfFile | app/main.js:364-374 | The in-place PDF branch performs `Session.LoadPdfFile`. |
| Main.MainProcess.LoadArchive | app/main.js:376-403 | The in-place CBR/CBZ branch performs `Session.LoadArchive`. |
| Main.MainProcess.LoadByExtension | app/main.js:363-408 | The in-place extension dispatch performs `Session.LoadByExtension`. |
| Session.OpenArchive | app/main.js:376-403 | Opening a .cbr/.cbz with entries yields LOADED, the matching type, the entries, their count and the start page. |
| Session.OpenEmptyArchive | app/main.js:378-379 | An empty or undefined listing only records the closed file. |
| Session.OpenPdf | app/main.js:364-374 | Opening a .pdf yields LOADING and numPages 0 at the start page. The first message asks pdf.js for page start+1. |
| Session.ReopenResumes | app/main.js:352-361 | Reopening the open archive resumes at its current page, whatever page is requested. |
| Session.OpenAtRequestedPage | app/main.js:352-361 | A path not in history opens at the requested page, or 0. |
| Session.RecordOnlyAddsCurrent | app/main.js:157-172 | Recording the open file adds no entry for any other path. |
| Session.OpenDoesNotClampStart | app/main.js:390-401 | Start page 7 in a 3-entry CBZ is kept as is: LOADED, numPages 3, pageIndex 7, nothing shown. |
| Session.OpenIgnoresUpperCaseExtension | app/main.js:362-408 | The extension test is case-sensitive. For any folder and name, an extension that is not exactly pdf, cbr or cbz (such as PDF) only changes the history. |
| Session.StartupResumesLastFile | app/main.js:82-100 | At start-up, the most recent stored archive is reopened at its remembered page. |
| Main.MainProcess.OnDidFinishLoad | app/main.js:82-100 | The handler performs `FinishLoad`: the title is sent, the stored history is adopted, and its last file is opened. |
| Session.FinishLoad | app/main.js:82-100 | With an empty stored history, the history becomes empty and the file record is unchanged. |
| Main.MainProcess.OnResize | app/main.js:102-104 | Re-sends the title for the new width. |
| Session.NoFileConsistent | app/main.js:341-350 | The initial `g_fileData` satisfies the session invariant. |
| Session.MovesPreserveConsistency | app/main.js:256-265 | goToPage, next, previous and the slider keep the invariant. Source lines 508-551 also apply. |
| Session.OpenPreservesConsistency | app/main.js:352-425 | Opening any path keeps the invariant. |
| Session.PdfLoaded | app/main.js:195-200 | Corrected: a report about the open PDF marks it LOADED with the reported page count, and re-sends the page info. A report about any other file changes nothing. |
| Session.PdfLoadedAsWritten | app/main.js:195-200 | As written: any report, whatever file it names, marks the session LOADED with the reported page count. The rest of the file record is kept. |
| Session.PdfLoadedPreservesConsistency | app/main.js:195-200 | The corrected handler keeps the invariant. |
| Main.MainProcess.OnPdfLoaded | app/main.js:195-200 | The in-place handler performs the corrected `PdfLoaded`. |
| Session.StalePdfReportBreaksZipSession | app/main.js:195-200 | As written, a late report about another PDF makes a 3-page CBZ session claim 10 pages: the invariant breaks, and the end key sends only a title. |
| FileUtils.MimeTypeIsExtensionTail | src/shared/main/file-utils.js:35-38 | The extension without its dot, case kept; "" when there is none. It contains no dot and no slash. |
| FileUtils.MimeType | src/shared/main/file-utils.js:35-38 | "" when the path has no extension, otherwise one character shorter than the extension, which loses its dot. |
| FileUtils.MimeTypeOfName | src/shared/main/file-utils.js:35-38 | For `dir/stem.ext`, the MIME suffix is exactly `ext`. |
| FileUtils.ExtensionAllowed | src/shared/main/file-utils.js:50-56 | The early-return loop is true exactly when the lower-cased extension is in the list. |
| FileUtils.ImageExtensionIgnoresCase | src/shared/main/file-utils.js:41-57 | The image test gives the same answer for a path and its lower-cased form. |
| FileUtils.HasImageExtension | src/shared/main/file-utils.js:41-57 | A path that passes has an extension of at least four characters, dot included. |
| FileUtils.HasBookExtension | src/shared/main/file-utils.js:60-69 | A path that passes has an extension of at least four characters, dot included. |
| FileUtils.ExtnameOfJoin | src/shared/main/file-utils.js:141-152 | Joining a plain file name onto its folder leaves its extension, and so every extension test, unchanged. |
| FileUtils.HasComicBookExtension | src/shared/main/file-utils.js:71-80 | Agrees with `hasBookExtension` on every path. |
| FileUtils.HasEpubExtension | src/shared/main/file-utils.js:82-88 | An EPUB path has a book extension. |
| FileUtils.HasPdfKitCompatibleImageExtension | src/shared/main/file-utils.js:90-99 | Implies `hasImageExtension`. |
| FileUtils.HasEpubSupportedImageExtension | src/shared/main/file-utils.js:101-110 | Implies `hasImageExtension`. |
| FileUtils.CollectRecursive | src/shared/main/file-utils.js:116-138 | The two forEach loops and the recursion compute the walk: the folder's own accepted files in listing order, then each subfolder's walk in listing order. |
| FileUtils.ImageFilesInFolderRecursive | src/shared/main/file-utils.js:116-138 | A missing folder gives []. Otherwise the result is the walk with the image test, and every result has an image extension. |
| FileUtils.CollectedKept | src/shared/main/file-utils.js:124-129 | Every path the walk returns passes the test. |
| FileUtils.CollectedInside | src/shared/main/file-utils.js:116-138 | Every path the walk returns lies under the folder walked. |
| FileUtils.DirectFilesComeFirst | src/shared/main/file-utils.js:116-138 | A folder's own files come before every file from its subfolders. |
| FileUtils.ImageFilesInFolderMatchesOwnImages | src/shared/main/file-utils.js:141-152 | The flat listing's filtered names, joined to the folder, are the walk's own-file part. |
| FileUtils.ImageFilesInFolder | src/shared/main/file-utils.js:141-152 | A missing folder gives no names. Every name returned has an image extension. |
| FileUtils.ComicInfoFileInFolderRecursive | src/shared/main/file-utils.js:159-185 | Corrected: the first file in walk order whose basename lower-cases to comicinfo.xml, or None. A missing folder gives None. |
| FileUtils.ComicInfoAsWrittenIsFirstWhenFound | src/shared/main/file-utils.js:159-185 | When the code as written finds a file, it is the first match in walk order. |
| FileUtils.FirstMatchAsWritten | src/shared/main/file-utils.js:159-185 | As written: an answer always passes the match test, but the first subfolder's answer is taken even when it is none. |
| FileUtils.ComicInfoFileAsWritten | src/shared/main/file-utils.js:159-185 | As written: an answer is always named comicinfo.xml, ignoring case. |
| FileUtils.ComicInfoAsWrittenMissesLaterSubfolder | src/shared/main/file-utils.js:177-184 | An empty first subfolder hides `r/b/ComicInfo.xml`: as written None, corrected the file. |
| FileUtils.DeleteFolderRecursive | src/shared/main/file-utils.js:192-232 | A failed name or path guard deletes nothing. A non-empty delete ends with the folder's own rmdir. |
| FileUtils.DeleteTreeStaysInside | src/shared/main/file-utils.js:206-214 | Every removal is the folder or lies under it. |
| FileUtils.DeleteTree | src/shared/main/file-utils.js:206-217 | The removals of a subfolder end with that subfolder's own rmdir. |
| FileUtils.DeleteEntriesRemoveSubfolders | src/shared/main/file-utils.js:210-217 | Every subfolder among the entries visited is itself removed. |
| FileUtils.SubfoldersDeletedWithoutGuard | src/shared/main/file-utils.js:206-211 | Recursive calls pass no guards: once the top passes, every subfolder is removed whatever its name. |
| FileUtils.TempFolders.constructor | src/shared/main/file-utils.js:239-240 | Both globals start undefined. |
| FileUtils.TempFolders.SetTempFolderParentPath | src/shared/main/file-utils.js:252-255 | Sets the parent path only. |
| FileUtils.TempFolders.CreateTempFolder | src/shared/main/file-utils.js:262-270 | Creates `parent/acbr-XXXXXX`, tracked only when keepTrack. Without a parent, nothing is created. |
| FileUtils.TempFolders.CleanUpTempFolder | src/shared/main/file-utils.js:273-281 | With an argument, the guarded delete only. Without one: a no-op when nothing is tracked, else the tracked folder is deleted and forgotten. |
| FileUtils.CreatedTempFolderIsCleanedUp | src/shared/main/file-utils.js:262-281 | A folder made by createTempFolder passes the `acbr-` guard and is removed whole. |
| Export.ExportFileName | app/worker-export.js:43-46 | The output name is the book's stem, then "_page_", then the page number counted from 1. |
| Export.ExportFileNameOf | app/worker-export.js:43-46 | For `stem.ext` the name is `stem_page_<pageIndex+1>`. |
| Export.ExportFileNameEncodesPage | app/worker-export.js:43-46 | The digits after `_page_` read back as pageIndex + 1. |
| Export.ExportExtension | app/worker-export.js:38-42 | The extension is a dot followed by the sniffed extension, or ".jpg" when none was sniffed. |
| Export.CandidateInjective | app/worker-export.js:48-59 | Different counters give different candidate names. |
| Export.FirstFreeUnique | app/worker-export.js:52-59 | At most one counter is the first free one. |
| Export.FreeOutputPath | app/worker-export.js:48-60 | The loop ends for any finite folder, on the first free candidate in the order `name`, `name(2)`, `name(3)`, …, which is not an existing file. |
| Export.ExportPage | app/worker-export.js:11-69 | Cases: a non-container type or an undefined buffer replies `[false, "Error: exportPage empty buffer"]`; a thrown error replies `[false, err]`; a failed write sends nothing; otherwise the whole buffer is written once to the first free name, and `[true, path]` is sent. |
| Export.SecondExportOfFirstPage | app/worker-export.js:43-60 | Exporting page 0 of comic.cbz next to an existing comic_page_1.jpg writes comic_page_1(2).jpg. |
| AudioPlayer.LinearTracks | app/audio-player/renderer.js:65-72 | One track per file, in file order, with `fileIndex` equal to the position. |
| AudioPlayer.BuildTracks | app/audio-player/renderer.js:65-71 | The loop pushes one track per file in order, skipping only the current file. |
| AudioPlayer.ShuffleArray | app/audio-player/renderer.js:261-270 | In-place Fisher–Yates: the array afterwards is a permutation of its old contents. |
| AudioPlayer.ShuffleWithCurrentFirst | app/audio-player/renderer.js:73-81 | The shuffled list is a permutation of all tracks, with the current file first when there is one. |
| AudioPlayer.Player.CreateTracksList | app/audio-player/renderer.js:62-87 | Without shuffle: the linear list, and the index stays on the current file on refresh, else 0. With shuffle: a permutation of all tracks, and the index is 0. A refresh keeps the same file current. A refresh with the index off the list throws and changes nothing. |
| AudioPlayer.Player.constructor | app/audio-player/renderer.js:393-395 | `init` leaves the player stopped with the given shuffle and repeat modes, an empty playlist and track list, index 0 and no source, the initial values of the globals at renderer.js:3-9. |
| AudioPlayer.Player.PlayTrack | app/audio-player/renderer.js:111-118 | The index is stored first. An index on the list plays that track; one off the list throws before play. |
| AudioPlayer.Player.OpenPlaylist | app/audio-player/renderer.js:22-29 | Takes the new files, builds the list, and plays track 0. An empty playlist throws, leaving the player stopped and the source as it was. The shuffle and repeat modes are kept, so the list is linear exactly when the user's mode is not shuffle. |
| AudioPlayer.Player.OnButtonClicked | app/audio-player/renderer.js:173-219 | Play and pause set isPlaying. Prev and next go to the wrap-around target under the repeat mode held before the click, unguarded; a target on the list plays that track, and one off it leaves isPlaying and the source as they were. Shuffle on/off rebuilds the list and keeps the current file; on failure the list and index are unchanged. Repeat on/off set the flag. Only the shuffle buttons change shuffle, only the repeat buttons change repeat, only prev and next change the source, and only play, pause, prev and next change isPlaying. Play, pause and repeat throw in the closing `refreshUI` when the index is off a non-empty list. |
| AudioPlayer.Player.RefreshPlaylist | app/audio-player/renderer.js:89-96 | `updatePlaylistInfo` gets past its read of the current track exactly when the track list is empty or the index is on it. |
| AudioPlayer.Player.PlayPrevious | app/audio-player/renderer.js:180-183 | Goes to the previous track, wrapping to the last one from the first only when repeat was on. The list and both modes are unchanged. The result tells whether the target was on the list. If it was, that track's URL is the source and the player is playing; if not, isPlaying and the source are as they were. |
| AudioPlayer.Player.PlayNext | app/audio-player/renderer.js:184-187 | Goes to the next track, wrapping to the first one from the last only when repeat was on. The list and both modes are unchanged. The result tells whether the target was on the list. If it was, that track's URL is the source and the player is playing; if not, isPlaying and the source are as they were. |
| AudioPlayer.Player.SetShuffle | app/audio-player/renderer.js:206-211 | Sets the shuffle mode and rebuilds the list, keeping the current file current: at index 0 when shuffling, in the linear list otherwise. It fails, as the source throws, when the index is off the list, and then the list and index are unchanged. Repeat, isPlaying and the source are never changed. |
| AudioPlayer.PrevEnabled | app/audio-player/renderer.js:137-141 | The prev button is enabled with repeat on or past the first track. `EnabledMovesStayOnList` and `DisabledMovesLeaveList` state what the rule guarantees. |
| AudioPlayer.NextEnabled | app/audio-player/renderer.js:142-146 | The next button is enabled with repeat on or before the last track. The two lemmas below state what the rule guarantees. |
| AudioPlayer.PrevTarget | app/audio-player/renderer.js:180-183 | The prev move: the last track from the first when repeating, else the index minus one, unguarded. |
| AudioPlayer.NextTarget | app/audio-player/renderer.js:184-187 | The next move: the first track from the last when repeating, else the index plus one, unguarded. |
| AudioPlayer.EndedTarget | app/audio-player/renderer.js:366-372 | The move at the end of a track: the next track, track 0 when repeating at the end, otherwise none. |
| AudioPlayer.EnabledMovesStayOnList | app/audio-player/renderer.js:137-146 | The move of an enabled prev or next button, and the end-of-track move, stay on the list. |
| AudioPlayer.DisabledMovesLeaveList | app/audio-player/renderer.js:137-146 | A button is disabled exactly where its unguarded move leaves the list: -1 for prev, len for next. |
| AudioPlayer.NextWraps | app/audio-player/renderer.js:184-187 | With repeat, k presses of next from i land on i+k, or i+k-len after wrapping. |
| AudioPlayer.NextCycles | app/audio-player/renderer.js:184-187 | With repeat, len presses of next come back to the same track. |
| AudioPlayer.Player.FindTrack | app/audio-player/renderer.js:223-229 | The search loop finds the first track whose file is the clicked one. |
| AudioPlayer.TrackPosition | app/audio-player/renderer.js:223-229 | The first position playing the file, or None when no track plays it. |
| AudioPlayer.Player.OnPlaylistTrackClicked | app/audio-player/renderer.js:222-231 | Plays the first track of the clicked file. When there is none, the index, isPlaying and the source stay as they were. The list and both modes never change. |
| AudioPlayer.EveryFileHasATrack | app/audio-player/renderer.js:222-231 | Every playlist file has a track to click. |
| AudioPlayer.Player.OnTrackEnded | app/audio-player/renderer.js:365-382 | Corrected: under the repeat mode held when the track ended, plays the next track, or track 0 with repeat, with that track's URL as the source. Otherwise it stops with isPlaying false and the source kept, and throws in `refreshUI` when the index is off a non-empty list. Both modes are unchanged. |
| AudioPlayer.PlayingAfterEnded | app/audio-player/renderer.js:365-382 | With a valid index, the player plays on after a track ends exactly when there is a track to go to. |
| AudioPlayer.PlayingAfterEndedAsWritten | app/audio-player/renderer.js:365-382 | As written: stopping at the end without repeat leaves the flag as it was. With a valid index, the player claims to play when there is a track to go to or it already did. |
| AudioPlayer.EndedAsWrittenKeepsPlaying | app/audio-player/renderer.js:377-378 | At the last track without repeat, as written isPlaying stays true; corrected it is false. |
| AudioPlayer.Pad2 | app/audio-player/renderer.js:245-246 | Two digits, zero-padded, that read back as the number. |
| AudioPlayer.FormatTime | app/audio-player/renderer.js:241-248 | "mm:ss": two fields under 60 that, with the dropped hours, add back up to the seconds. |
| AudioPlayer.FormatTimeDropsHours | app/audio-player/renderer.js:241-248 | 3661 seconds are shown as "01:01". |
| AudioPlayer.ReducePlaylistName | app/audio-player/renderer.js:250-257 | Up to 28 characters unchanged. Longer names become "..." and the last 28 characters, 31 in all. |
| AudioPlayer.ReducePlaylistNameIdempotent | app/audio-player/renderer.js:250-257 | Reducing twice gives the same as reducing once. |
| MenuBar.HelpSubmenu | src/shared/main/menu-bar-builder.js:14-33 | About comes first. The dev-tools item is present exactly in dev mode, and always preceded by a separator. |
| MenuBar.ScaleItems | src/shared/main/menu-bar-builder.js:40-50 | One radio item per scale, in order. Each is checked exactly when fit_mode is 2 and it is the zoom scale. |
| MenuBar.ScaleToHeightSubmenu | src/shared/main/menu-bar-builder.js:36-77 | The seven defaults in order. A separator and a custom item follow only for a defined scale that is none of them. The menu ends with a separator and the enter item. |
| MenuBar.AtMostOneScaleChecked | src/shared/main/menu-bar-builder.js:45-64 | At most one radio item is checked, and one only in scale-to-height mode with a scale set. |
| MenuBar.CurrentScaleChecked | src/shared/main/menu-bar-builder.js:38-64 | In scale-to-height mode, the current scale's item is checked, default or custom. |
| MenuBar.OpenRecentSubmenu | src/shared/main/menu-bar-builder.js:79-116 | At most 10 history items, newest first, then a separator and the history-manager item (Ctrl+H). |
| MenuBar.RecentLabelMarksWebComics | src/shared/main/menu-bar-builder.js:87-94 | The label rule `RecentLabel`: the "[www] " prefix is added for entries with a source. Such an entry shows its shortened name when it has one, else its shortened path. Every other entry shows its shortened path. |
| MenuBar.RecentPathsDistinct | src/shared/main/menu-bar-builder.js:83-101 | A history without repeated paths gives items that open distinct files. |
| MenuBar.RecentMenuAfterRecord | src/shared/main/menu-bar-builder.js:79-116 | After the open file is recorded, the submenu lists the whole history, and its first item opens that file. Source lines app/main.js 157-172 also apply. |

## Left out

- The Electron wiring of the main process (window creation, full screen, dev tools, dialogs, scroll bar, fit modes, the resize debounce timer) and the other IPC handlers. Rendering a page is the message asking for it; files are not read or base64-encoded.
- The IMGS branch of `openFile` (app/main.js:410-423) is not modelled as an outcome: `imgsFolderPath` stays undefined on every path, so it is never reached. `Session.Consistent` still allows an IMGS session, and `goToPage` still renders one.
- The `render-img` message is modelled by the image's source. The MIME type in its data URL is `Session.MimeTypeSent` of that source, which is `getMimeType` of the path or entry name.
- Archive listing and extraction, settings and history loading and saving, and `FileType.fromBuffer` are not part of this model. Their results are inputs.
- `path.join` does not normalise `..`, `.` or doubled slashes in the model. An empty folder is not dropped either: `Join("", name)` is "/name" where Node gives "name". Lower-casing is ASCII only.
- Session.DisplayName and AudioPlayer.ReducePlaylistName count Unicode scalar values. JavaScript's `length` and `substring` count UTF-16 code units, so for names with characters outside the Basic Multilingual Plane the source cuts earlier and can split a surrogate pair.
- `FileExtension.JPG` is taken to be "jpg". The constants file is not part of this model.
- Session.LoadPdfFile: it states the session record and the messages; the `load-pdf` reply from pdf.js is the separate `pdf-loaded` transition.
- FileUtils.DeleteFolderRecursive and FileUtils.DeleteTree: only the caught `rmdirSync` failure is modelled. An `unlinkSync` failure, which aborts the walk part-way (src/shared/main/file-utils.js:216), and a `readdirSync` or `lstatSync` throw on a path that is not a folder (src/shared/main/file-utils.js:210-213) are not modelled: the model's file tree gives every listed file a successful unlink and every folder a listing.
- `moveFile` and the `logToConsole` logging of `deleteFolderRecursive` are left out. A failing `rmdir` is only logged by the source, so the model still lists the removal.
- Export: the worker's message plumbing is left out, and a failure inside the un-awaited writer is modelled as "no reply". In the source it is an unhandled rejection.
- AudioPlayer.FormatTime: whole seconds only. Fractional and NaN durations (floating point) are left out.
- The audio engine, volume and time sliders, the playlist's DOM rendering (`updatePlaylistInfo`, `fillTimes`), `refreshUI`'s DOM updates other than the enable rules, and the open/playlist/volume/close buttons are left out.
- AudioPlayer.ShuffleArray: it states that the result is a permutation. It does not state that every permutation can be produced, which is a property of the random source.
- `buildApplicationMenu`, i18n (labels are their keys) and `reduceStringFrontEllipsis` are left out; the last one is a parameter.

Two behaviours of the code that the model keeps as they are:
- `openFile` does not clamp the start page to the archive's page count (app/main.js:386-403). A stored page beyond the last is kept, and goToPage then shows nothing (`Session.OpenDoesNotClampStart`).
- `exportPage` sends no reply when writing the page fails (app/worker-export.js:37-63). The write runs in an async function that is not awaited, so the surrounding `catch` never sees the error.

## Findings

| source | as written | input that shows it | evidently intended | confidence | as-written member | corrected member |
|---|---|---|---|---|---|---|
| src/shared/main/file-utils.js:177-184 | `filesArray.concat(...)` of a subfolder's `undefined` result puts `undefined` first, so `filesArray[0]` is undefined | a folder `r` with an empty subfolder `a`, then `b` holding `ComicInfo.xml` | the first comicinfo.xml in walk order, here `r/b/ComicInfo.xml` | high, not executed | FileUtils.ComicInfoAsWrittenMissesLaterSubfolder | FileUtils.ComicInfoFileInFolderRecursive |
| app/main.js:195-200 | `pdf-loaded` sets LOADED and `numPages` whatever file the report is about (the source marks this with a TODO) | a 3-page CBZ open when a late report "/c/a.pdf, 10 pages" arrives | ignore reports about a file other than the open PDF | medium, not executed | Session.StalePdfReportBreaksZipSession | Session.PdfLoadedPreservesConsistency |
| app/audio-player/renderer.js:377-378 | `g_player.pause()` calls a method `g_player` does not have, so the handler throws before `isPlaying = false` | the last track ends with repeat off while playing | the player stops and isPlaying becomes false | high, not executed | AudioPlayer.EndedAsWrittenKeepsPlaying | AudioPlayer.Player.OnTrackEnded |
