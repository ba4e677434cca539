/**
 * The page-export worker: it takes the bytes of the current page out of
 * its container, names the output file after the book and the page, finds
 * a name not yet used in the output folder, and writes the bytes once.
 *
 * The container readers and the content sniffer are foreign code: the
 * reader is a function parameter and the sniffed extension an input. The
 * output folder's contents are the finite set `existing`.
 */
module Export {
  import opened Wrappers
  import opened Paths
  import opened Decimal

  /** The session types the worker distinguishes (`FileDataType`). */
  datatype ContainerType = ZipType | RarType | EpubType | PdfType | ImgsType | NoContainer

  /** The message's `fileData`. */
  datatype ExportData = ExportData(fileType: ContainerType, path: string, name: string, pagesPaths: seq<string>, pageIndex: int)

  /** What reading an entry gives: its bytes, undefined, or an exception. */
  datatype ReadOutcome = Bytes(bytes: seq<bv8>) | Undefined | Threw(error: string)

  /** The `[ok, detail]` reply sent back to the main process. */
  datatype Reply = Reply(ok: bool, detail: string)

  /** A file the worker wrote. */
  datatype WrittenFile = WrittenFile(path: string, bytes: seq<bv8>)

  const EmptyBufferError := "Error: exportPage empty buffer"

  /** `FileExtension.JPG`, the fallback when the content type is unknown. */
  const DefaultExtension := "jpg"

  /** `pagesPaths[pageIndex]`, None where JavaScript reads undefined. */
  function PageEntry(data: ExportData): Option<string> {
    if 0 <= data.pageIndex < |data.pagesPaths| then Some(data.pagesPaths[data.pageIndex]) else None
  }

  predicate IsContainer(t: ContainerType) {
    t == ZipType || t == RarType || t == EpubType
  }

  /** The output file name without extension: the book's stem, "_page_", and the page counted from 1. */
  function ExportFileName(name: string, pageIndex: int): (r: string)
    ensures |r| > |Stem(name)| + 6 && r[..|Stem(name)|] == Stem(name)
    ensures r[|Stem(name)|..|Stem(name)| + 6] == "_page_" && r[|Stem(name)| + 6..] == IntToString(pageIndex + 1)
  {
    Stem(name) + "_page_" + IntToString(pageIndex + 1)
  }

  /** The output extension: the sniffed one, or the default. */
  function ExportExtension(sniffed: Option<string>): (r: string)
    ensures |r| >= 1 && r[0] == '.'
    ensures sniffed.Some? ==> r == "." + sniffed.value
    ensures sniffed.None? ==> r == ".jpg"
  {
    "." + sniffed.GetOr(DefaultExtension)
  }

  /** The `n`th name tried: the plain name first, then with "(2)", "(3)", ... before the extension. */
  function Candidate(folder: string, fileName: string, n: nat, ext: string): string {
    if n <= 1 then Join(folder, fileName + ext)
    else Join(folder, fileName + "(" + NatToString(n) + ")" + ext)
  }

  /** Candidate `n` is free and every earlier one is taken. */
  predicate IsFirstFree(folder: string, fileName: string, ext: string, existing: set<string>, n: nat) {
    n >= 1 && Candidate(folder, fileName, n, ext) !in existing &&
    forall m :: 1 <= m < n ==> Candidate(folder, fileName, m, ext) in existing
  }

  /** The names tried before the `k`th. */
  function CandidatesBelow(folder: string, fileName: string, ext: string, k: nat): set<string> {
    if k <= 1 then {} else CandidatesBelow(folder, fileName, ext, k - 1) + {Candidate(folder, fileName, k - 1, ext)}
  }

  /** Different counters give different names. */
  lemma CandidateInjective(folder: string, fileName: string, ext: string, n: nat, m: nat)
    requires 1 <= n && 1 <= m && n != m
    ensures Candidate(folder, fileName, n, ext) != Candidate(folder, fileName, m, ext)
  {
    if n > 1 && m > 1 {
      NumberedCandidatesDiffer(folder, fileName, ext, n, m);
    } else if n > 1 {
      assert |Candidate(folder, fileName, n, ext)| > |Candidate(folder, fileName, m, ext)|;
    } else {
      assert |Candidate(folder, fileName, m, ext)| > |Candidate(folder, fileName, n, ext)|;
    }
  }

  lemma NumberedCandidatesDiffer(folder: string, fileName: string, ext: string, n: nat, m: nat)
    requires 1 < n && 1 < m && n != m
    ensures Candidate(folder, fileName, n, ext) != Candidate(folder, fileName, m, ext)
  {
    var a := NatToString(n);
    var b := NatToString(m);
    assert a != b by {
      if a == b {
        NatToStringInjective(n, m);
      }
    }
    CounterTextsDiffer(folder, fileName, ext, a, b);
  }

  /** Names that differ only in the counter's text differ. */
  lemma CounterTextsDiffer(folder: string, fileName: string, ext: string, a: string, b: string)
    requires a != b
    ensures Join(folder, fileName + "(" + a + ")" + ext) != Join(folder, fileName + "(" + b + ")" + ext)
  {
    var prefix := folder + "/" + fileName + "(";
    var tail := ")" + ext;
    assert Join(folder, fileName + "(" + a + ")" + ext) == prefix + a + tail;
    assert Join(folder, fileName + "(" + b + ")" + ext) == prefix + b + tail;
    if prefix + a + tail == prefix + b + tail {
      ConcatCancel(prefix, a, b, tail);
    }
  }

  /** Equal strings with the same prefix and suffix agree in the middle. */
  lemma ConcatCancel(x: string, y1: string, y2: string, z: string)
    requires x + y1 + z == x + y2 + z
    ensures y1 == y2
  {
    var s := x + y1 + z;
    assert |y1| == |y2|;
    MiddleOfConcat(x, y1, z);
    MiddleOfConcat(x, y2, z);
  }

  lemma MiddleOfConcat(x: string, y: string, z: string)
    ensures (x + y + z)[|x|..|x| + |y|] == y
  {
  }

  lemma {:induction false} CandidateNotBelow(folder: string, fileName: string, ext: string, j: nat, k: nat)
    requires 1 <= k <= j
    ensures Candidate(folder, fileName, j, ext) !in CandidatesBelow(folder, fileName, ext, k)
  {
    if k > 1 {
      CandidateNotBelow(folder, fileName, ext, j, k - 1);
      CandidateInjective(folder, fileName, ext, j, k - 1);
    }
  }

  lemma {:induction false} CandidatesBelowTaken(folder: string, fileName: string, ext: string, existing: set<string>, k: nat)
    requires forall m :: 1 <= m < k ==> Candidate(folder, fileName, m, ext) in existing
    ensures CandidatesBelow(folder, fileName, ext, k) <= existing
  {
    if k > 1 {
      CandidatesBelowTaken(folder, fileName, ext, existing, k - 1);
    }
  }

  /** At most one counter is the first free one, so the search's answer is determined by the folder's contents. */
  lemma FirstFreeUnique(folder: string, fileName: string, ext: string, existing: set<string>, n: nat, m: nat)
    requires IsFirstFree(folder, fileName, ext, existing, n) && IsFirstFree(folder, fileName, ext, existing, m)
    ensures n == m
  {
  }

  /**
   * The collision search: try the plain name, then "(2)", "(3)", ...,
   * until one is not in the folder. It stops for any finite folder: each
   * taken name tried is a new member of `existing`.
   */
  method FreeOutputPath(folder: string, fileName: string, ext: string, existing: set<string>) returns (outputFilePath: string, i: nat)
    ensures IsFirstFree(folder, fileName, ext, existing, i)
    ensures outputFilePath == Candidate(folder, fileName, i, ext) && outputFilePath !in existing
  {
    outputFilePath := Join(folder, fileName + ext);
    i := 1;
    ghost var tried: set<string> := {};
    while outputFilePath in existing
      invariant i >= 1 && outputFilePath == Candidate(folder, fileName, i, ext)
      invariant forall m :: 1 <= m < i ==> Candidate(folder, fileName, m, ext) in existing
      invariant tried == CandidatesBelow(folder, fileName, ext, i)
      decreases |existing - tried|
    {
      CandidateNotBelow(folder, fileName, ext, i, i);
      assert outputFilePath in existing - tried;
      assert existing - (tried + {outputFilePath}) == (existing - tried) - {outputFilePath};
      tried := tried + {outputFilePath};
      i := i + 1;
      outputFilePath := Join(folder, fileName + "(" + NatToString(i) + ")" + ext);
    }
  }

  /**
   * `exportPage(fileData, outputFolderPath)`. `extract` stands for the
   * container readers, `sniffed` for the content sniffer's extension and
   * `writeSucceeds` for whether the single write works. A failure inside
   * the un-awaited writer is not caught, so it sends no reply.
   */
  method ExportPage(data: ExportData, outputFolderPath: string, extract: (ContainerType, string, Option<string>) -> ReadOutcome,
                    sniffed: Option<string>, existing: set<string>, writeSucceeds: bool)
    returns (reply: Option<Reply>, written: Option<WrittenFile>)
    ensures !IsContainer(data.fileType) ==> reply == Some(Reply(false, EmptyBufferError)) && written == None
    ensures IsContainer(data.fileType) ==>
      var read := extract(data.fileType, data.path, PageEntry(data));
      && (read.Undefined? ==> reply == Some(Reply(false, EmptyBufferError)) && written == None)
      && (read.Threw? ==> reply == Some(Reply(false, read.error)) && written == None)
      && (read.Bytes? && !writeSucceeds ==> reply == None && written == None)
      && (read.Bytes? && writeSucceeds ==>
            written.Some? && written.value.bytes == read.bytes && reply == Some(Reply(true, written.value.path)) &&
            exists n :: IsFirstFree(outputFolderPath, ExportFileName(data.name, data.pageIndex), ExportExtension(sniffed), existing, n) &&
              written.value.path == Candidate(outputFolderPath, ExportFileName(data.name, data.pageIndex), n, ExportExtension(sniffed)))
  {
    var read := Undefined;
    if data.fileType == ZipType || data.fileType == RarType || data.fileType == EpubType {
      read := extract(data.fileType, data.path, PageEntry(data));
    }
    if read.Threw? {
      return Some(Reply(false, read.error)), None;
    }
    if read.Undefined? {
      return Some(Reply(false, EmptyBufferError)), None;
    }
    var fileExtension := "." + DefaultExtension;
    if sniffed.Some? {
      fileExtension := "." + sniffed.value;
    }
    assert fileExtension == ExportExtension(sniffed);
    var fileName := ExportFileName(data.name, data.pageIndex);
    var outputFilePath, i := FreeOutputPath(outputFolderPath, fileName, fileExtension, existing);
    if !writeSucceeds {
      return None, None;
    }
    written := Some(WrittenFile(outputFilePath, read.bytes));
    reply := Some(Reply(true, outputFilePath));
    assert IsFirstFree(outputFolderPath, fileName, fileExtension, existing, i) && outputFilePath == Candidate(outputFolderPath, fileName, i, fileExtension);
  }

  /** The output name of `stem.ext` carries the stem and the 1-based page. */
  lemma ExportFileNameOf(dir: string, stem: string, ext: string, pageIndex: int)
    requires stem != "" && ext != ""
    requires NoChar(stem, '/') && NoChar(ext, '/') && NoChar(ext, '.')
    ensures ExportFileName(Join(dir, stem + "." + ext), pageIndex) == stem + "_page_" + IntToString(pageIndex + 1)
  {
    ExtnameOfName(dir, stem, ext);
  }

  /** The page number can be read back from the end of an output name. */
  lemma ExportFileNameEncodesPage(name: string, pageIndex: nat)
    ensures var r := ExportFileName(name, pageIndex);
      var digits := r[|Stem(name)| + 6..];
      AllDigits(digits) && DigitsValue(digits) == pageIndex + 1
  {
    var r := ExportFileName(name, pageIndex);
    assert r[|Stem(name)| + 6..] == NatToString(pageIndex + 1);
    NatToStringRoundTrip(pageIndex + 1);
  }

  lemma ComicFirstPageName(dir: string)
    ensures ExportFileName(Join(dir, "comic.cbz"), 0) == "comic_page_1"
  {
    ExportFileNameOf(dir, "comic", "cbz", 0);
    ComicLiterals();
  }

  lemma ComicLiterals()
    ensures "comic" + "." + "cbz" == "comic.cbz"
    ensures "comic" + "_page_" + IntToString(0 + 1) == "comic_page_1"
  {
    assert NatToString(1) == "1";
    assert IntToString(1) == "1";
  }

  /** Exporting page 0 of comic.cbz into a folder that holds comic_page_1.jpg writes comic_page_1(2).jpg. */
  lemma SecondExportOfFirstPage(books: string, out: string)
    ensures ExportFileName(Join(books, "comic.cbz"), 0) == "comic_page_1" && ExportExtension(None) == ".jpg"
    ensures IsFirstFree(out, "comic_page_1", ".jpg", {Join(out, "comic_page_1.jpg")}, 2)
    ensures Candidate(out, "comic_page_1", 2, ".jpg") == Join(out, "comic_page_1(2).jpg")
  {
    ComicFirstPageName(books);
    assert NatToString(2) == "2";
    assert Candidate(out, "comic_page_1", 1, ".jpg") == Join(out, "comic_page_1.jpg");
    CandidateInjective(out, "comic_page_1", ".jpg", 1, 2);
  }
}
