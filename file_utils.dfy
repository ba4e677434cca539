/**
 * The shared file utilities: extension tests, the recursive folder walks,
 * the guarded recursive delete and the temp-folder bookkeeping.
 *
 * The file system is an abstract tree. A folder's `children` are its
 * entries in the order `fs.readdirSync` lists them; a file's contents do
 * not matter here. A folder that does not exist is a listing of None.
 */
module FileUtils {
  import opened Wrappers
  import opened Paths

  // ---------------------------------------------------------------------
  // Extensions

  /** `getMimeType`: the extension without its dot, case kept; "" when there is none. */
  function MimeType(p: string): (r: string)
    ensures Extname(p) == "" ==> r == ""
    ensures Extname(p) != "" ==> |r| == |Extname(p)| - 1
  {
    var e := Extname(p);
    if e == "" then "" else e[1..]
  }

  /** The MIME suffix is what follows the extension's dot: a name without dots or separators. */
  lemma MimeTypeIsExtensionTail(p: string)
    ensures Extname(p) == "" ==> MimeType(p) == ""
    ensures Extname(p) != "" ==> Extname(p) == "." + MimeType(p)
    ensures NoChar(MimeType(p), '.') && NoChar(MimeType(p), '/')
  {
    var e := Extname(p);
    if e != "" {
      TailHasNoSlash(e);
    }
  }

  /** An extension is its dot followed by the rest, which has no separator. */
  lemma TailHasNoSlash(e: string)
    requires e != "" && e[0] == '.' && NoChar(e, '/')
    ensures NoChar(e[1..], '/') && e == "." + e[1..]
  {
    assert forall i :: 0 <= i < |e| - 1 ==> e[1..][i] == e[i + 1];
  }

  const ImageExtensions: seq<string> := [".jpg", ".jpeg", ".png", ".webp", ".bmp", ".avif"]
  const BookExtensions: seq<string> := [".cbz", ".cbr", ".pdf", ".epub", ".cb7"]
  const ComicBookExtensions: seq<string> := [".cbz", ".cbr", ".pdf", ".epub", ".cb7"]
  const PdfKitImageExtensions: seq<string> := [".jpg", ".jpeg", ".png"]
  const EpubImageExtensions: seq<string> := [".jpg", ".jpeg", ".png"]

  /**
   * The search each `has...Extension` runs over its list: compare the
   * lower-cased extension with each allowed one, returning as soon as one
   * matches. It finds exactly the extensions the list holds.
   */
  method ExtensionAllowed(filePath: string, allowedFileExtensions: seq<string>) returns (found: bool)
    ensures found == (Lower(Extname(filePath)) in allowedFileExtensions)
  {
    var fileExtension := Lower(Extname(filePath));
    for i := 0 to |allowedFileExtensions|
      invariant forall j :: 0 <= j < i ==> allowedFileExtensions[j] != fileExtension
    {
      if fileExtension == allowedFileExtensions[i] {
        return true;
      }
    }
    return false;
  }

  /** `hasImageExtension`: the lower-cased extension is one of the six image ones. */
  predicate HasImageExtension(p: string)
    ensures HasImageExtension(p) ==> |Extname(p)| >= 4
  {
    Lower(Extname(p)) in ImageExtensions
  }

  /** `hasBookExtension`. */
  predicate HasBookExtension(p: string)
    ensures HasBookExtension(p) ==> |Extname(p)| >= 4
  {
    Lower(Extname(p)) in BookExtensions
  }

  /** `hasComicBookExtension`: the same test as `hasBookExtension`, on its own list. */
  predicate HasComicBookExtension(p: string)
    ensures HasComicBookExtension(p) == HasBookExtension(p)
  {
    Lower(Extname(p)) in ComicBookExtensions
  }

  /** `hasEpubExtension`. */
  predicate HasEpubExtension(p: string)
    ensures HasEpubExtension(p) ==> HasBookExtension(p)
  {
    Lower(Extname(p)) == ".epub"
  }

  /** `hasPdfKitCompatibleImageExtension`: a subset of the image extensions. */
  predicate HasPdfKitCompatibleImageExtension(p: string)
    ensures HasPdfKitCompatibleImageExtension(p) ==> HasImageExtension(p)
  {
    Lower(Extname(p)) in PdfKitImageExtensions
  }

  /** `hasEpubSupportedImageExtension`: a subset of the image extensions. */
  predicate HasEpubSupportedImageExtension(p: string)
    ensures HasEpubSupportedImageExtension(p) ==> HasImageExtension(p)
  {
    Lower(Extname(p)) in EpubImageExtensions
  }

  /** The MIME suffix of `folder/stem.ext` is `ext`, case kept. */
  lemma MimeTypeOfName(dir: string, stem: string, ext: string)
    requires stem != "" && ext != ""
    requires NoChar(stem, '/') && NoChar(ext, '/') && NoChar(ext, '.')
    ensures MimeType(Join(dir, stem + "." + ext)) == ext
  {
    ExtnameOfName(dir, stem, ext);
  }

  /** The image test ignores case: lower-casing the whole path does not change it. */
  lemma ImageExtensionIgnoresCase(p: string)
    ensures HasImageExtension(Lower(p)) == HasImageExtension(p)
  {
    ExtnameLower(p);
    LowerIdempotent(Extname(p));
  }

  /** Joining a plain name onto a folder does not change any extension test. */
  lemma ExtnameOfJoin(dir: string, name: string)
    requires name != "" && NoChar(name, '/')
    ensures Extname(Join(dir, name)) == Extname(name)
  {
    BasenameOfJoin(dir, name);
    BasenameOfName(name);
  }

  // ---------------------------------------------------------------------
  // The file-system tree

  datatype FsNode = File(name: string) | Folder(name: string, children: seq<FsNode>)

  /** Every name in the tree is a plain one: non-empty, without separator. */
  predicate WellNamed(n: FsNode)
    decreases n
  {
    n.name != "" && NoChar(n.name, '/') &&
    (n.Folder? ==> forall i :: 0 <= i < |n.children| ==> WellNamed(n.children[i]))
  }

  /** The path `p` lies directly in folder `dir`. */
  predicate DirectlyIn(dir: string, p: string) {
    StartsWith(p, dir + "/") && NoChar(p[|dir| + 1..], '/')
  }

  // ---------------------------------------------------------------------
  // The recursive walks

  /** The paths of the folder's own files among its first `k` entries that `keep` accepts, in listing order. */
  function OwnFiles(dir: string, cs: seq<FsNode>, k: nat, keep: string -> bool): (r: seq<string>)
    requires k <= |cs|
    ensures forall i :: 0 <= i < |r| ==> keep(r[i])
  {
    if k == 0 then []
    else
      var path := Join(dir, cs[k - 1].name);
      OwnFiles(dir, cs, k - 1, keep) + (if cs[k - 1].File? && keep(path) then [path] else [])
  }

  /** The listing positions of the subfolders among the first `k` entries, in listing order. */
  function FolderIndices(cs: seq<FsNode>, k: nat): (r: seq<nat>)
    requires k <= |cs|
    ensures forall j :: 0 <= j < |r| ==> r[j] < k && cs[r[j]].Folder?
  {
    if k == 0 then [] else FolderIndices(cs, k - 1) + (if cs[k - 1].Folder? then [k - 1] else [])
  }

  predicate ValidIndices(folder: FsNode, idx: seq<nat>)
    requires folder.Folder?
  {
    forall j :: 0 <= j < |idx| ==> idx[j] < |folder.children| && folder.children[idx[j]].Folder?
  }

  /**
   * What the walk of `folder`, found at path `dir`, collects: the folder's
   * own accepted files in listing order, then the walk of each subfolder,
   * subfolders in listing order.
   */
  function Collected(dir: string, folder: FsNode, keep: string -> bool): seq<string>
    requires folder.Folder?
    decreases folder, 1, 0
  {
    var cs := folder.children;
    OwnFiles(dir, cs, |cs|, keep) + FromSubfolders(dir, folder, FolderIndices(cs, |cs|), keep)
  }

  /** The walks of the subfolders at positions `idx`, one after the other. */
  function FromSubfolders(dir: string, folder: FsNode, idx: seq<nat>, keep: string -> bool): seq<string>
    requires folder.Folder? && ValidIndices(folder, idx)
    decreases folder, 0, |idx|
  {
    if idx == [] then []
    else
      var sub := folder.children[idx[|idx| - 1]];
      FromSubfolders(dir, folder, idx[..|idx| - 1], keep) + Collected(Join(dir, sub.name), sub, keep)
  }

  /**
   * The loop both recursive walks share: the folder's own files are
   * gathered first, its subfolders remembered and walked afterwards.
   */
  method CollectRecursive(dir: string, folder: FsNode, keep: string -> bool) returns (files: seq<string>)
    requires folder.Folder?
    ensures files == Collected(dir, folder, keep)
    decreases folder
  {
    var cs := folder.children;
    files := [];
    var dirs: seq<nat> := [];
    var i := 0;
    while i < |cs|
      invariant 0 <= i <= |cs|
      invariant files == OwnFiles(dir, cs, i, keep)
      invariant dirs == FolderIndices(cs, i)
    {
      var nodePath := Join(dir, cs[i].name);
      if cs[i].Folder? {
        dirs := dirs + [i];
      } else if keep(nodePath) {
        files := files + [nodePath];
      }
      i := i + 1;
    }
    var k := 0;
    while k < |dirs|
      invariant 0 <= k <= |dirs|
      invariant files == OwnFiles(dir, cs, |cs|, keep) + FromSubfolders(dir, folder, dirs[..k], keep)
    {
      var sub := cs[dirs[k]];
      var inner := CollectRecursive(Join(dir, sub.name), sub, keep);
      assert dirs[..k + 1][..k] == dirs[..k];
      files := files + inner;
      k := k + 1;
    }
    assert dirs[..|dirs|] == dirs;
  }

  /** `getImageFilesInFolderRecursive(folderPath)`. */
  method ImageFilesInFolderRecursive(folderPath: string, listing: Option<seq<FsNode>>) returns (files: seq<string>)
    ensures listing.None? ==> files == []
    ensures listing.Some? ==> files == Collected(folderPath, Folder(Basename(folderPath), listing.value), HasImageExtension)
    ensures forall i :: 0 <= i < |files| ==> HasImageExtension(files[i])
  {
    files := [];
    if listing.Some? {
      var root := Folder(Basename(folderPath), listing.value);
      files := CollectRecursive(folderPath, root, HasImageExtension);
      CollectedKept(folderPath, root, HasImageExtension);
    }
  }

  /** `getImageFilesInFolder`: the NAMES in a folder's listing with an image extension (a subfolder too, when its name has one). */
  function ImageFilesInFolder(node: Option<FsNode>): (r: seq<string>)
    ensures !(node.Some? && node.value.Folder?) ==> r == []
    ensures forall i :: 0 <= i < |r| ==> HasImageExtension(r[i])
  {
    if node.Some? && node.value.Folder? then NamesKept(node.value.children, HasImageExtension) else []
  }

  /** The names of the entries `keep` accepts, in listing order. */
  function NamesKept(cs: seq<FsNode>, keep: string -> bool): (r: seq<string>)
    ensures forall i :: 0 <= i < |r| ==> keep(r[i])
  {
    if cs == [] then []
    else NamesKept(cs[..|cs| - 1], keep) + (if keep(cs[|cs| - 1].name) then [cs[|cs| - 1].name] else [])
  }

  function JoinAll(dir: string, names: seq<string>): (r: seq<string>)
    ensures |r| == |names|
  {
    if names == [] then [] else JoinAll(dir, names[..|names| - 1]) + [Join(dir, names[|names| - 1])]
  }

  predicate IsComicInfo(p: string) {
    Lower(Basename(p)) == "comicinfo.xml"
  }

  function FirstOf(s: seq<string>): Option<string> {
    if s == [] then None else Some(s[0])
  }

  /**
   * `getComicInfoFileInFolderRecursive` as written, for a match test
   * `keep`: a subfolder's result is concatenated even when it is
   * undefined, so the answer is the first own match or else whatever the
   * FIRST subfolder answered.
   */
  function FirstMatchAsWritten(dir: string, folder: FsNode, keep: string -> bool): (r: Option<string>)
    requires folder.Folder?
    ensures r.Some? ==> keep(r.value)
    decreases folder
  {
    var cs := folder.children;
    var own := OwnFiles(dir, cs, |cs|, keep);
    var subs := FolderIndices(cs, |cs|);
    if |own| > 0 then Some(own[0])
    else if |subs| > 0 then FirstMatchAsWritten(Join(dir, cs[subs[0]].name), cs[subs[0]], keep)
    else None
  }

  function ComicInfoFileAsWritten(dir: string, folder: FsNode): (r: Option<string>)
    requires folder.Folder?
    ensures r.Some? ==> IsComicInfo(r.value)
  {
    FirstMatchAsWritten(dir, folder, IsComicInfo)
  }

  /** `getComicInfoFileInFolderRecursive`, corrected: the first comicinfo.xml in walk order. */
  method ComicInfoFileInFolderRecursive(folderPath: string, listing: Option<seq<FsNode>>) returns (r: Option<string>)
    ensures listing.None? ==> r == None
    ensures listing.Some? ==> r == FirstOf(Collected(folderPath, Folder(Basename(folderPath), listing.value), IsComicInfo))
    ensures r.Some? ==> IsComicInfo(r.value)
  {
    r := None;
    if listing.Some? {
      var root := Folder(Basename(folderPath), listing.value);
      var files := CollectRecursive(folderPath, root, IsComicInfo);
      CollectedKept(folderPath, root, IsComicInfo);
      if |files| > 0 {
        r := Some(files[0]);
      }
    }
  }

  // ---------------------------------------------------------------------
  // Properties of the walks

  lemma {:induction false} OwnFilesKept(dir: string, cs: seq<FsNode>, k: nat, keep: string -> bool)
    requires k <= |cs|
    ensures forall i :: 0 <= i < |OwnFiles(dir, cs, k, keep)| ==> keep(OwnFiles(dir, cs, k, keep)[i])
  {
    if k > 0 {
      OwnFilesKept(dir, cs, k - 1, keep);
    }
  }

  /** Every path the walk returns is one `keep` accepts. */
  lemma {:induction false} CollectedKept(dir: string, folder: FsNode, keep: string -> bool)
    requires folder.Folder?
    ensures forall i :: 0 <= i < |Collected(dir, folder, keep)| ==> keep(Collected(dir, folder, keep)[i])
    decreases folder, 1
  {
    var cs := folder.children;
    OwnFilesKept(dir, cs, |cs|, keep);
    SubfoldersKept(dir, folder, FolderIndices(cs, |cs|), keep);
  }

  lemma {:induction false} SubfoldersKept(dir: string, folder: FsNode, idx: seq<nat>, keep: string -> bool)
    requires folder.Folder? && ValidIndices(folder, idx)
    ensures forall i :: 0 <= i < |FromSubfolders(dir, folder, idx, keep)| ==> keep(FromSubfolders(dir, folder, idx, keep)[i])
    decreases folder, 0, |idx|
  {
    if idx != [] {
      var sub := folder.children[idx[|idx| - 1]];
      SubfoldersKept(dir, folder, idx[..|idx| - 1], keep);
      CollectedKept(Join(dir, sub.name), sub, keep);
    }
  }

  lemma StartsWithTrans(s: string, p: string, q: string)
    requires StartsWith(s, p) && StartsWith(p, q)
    ensures StartsWith(s, q)
  {
    assert s[..|q|] == s[..|p|][..|q|];
  }

  lemma {:induction false} OwnFilesDirect(dir: string, cs: seq<FsNode>, k: nat, keep: string -> bool)
    requires k <= |cs|
    requires forall i :: 0 <= i < |cs| ==> NoChar(cs[i].name, '/')
    ensures forall i :: 0 <= i < |OwnFiles(dir, cs, k, keep)| ==> DirectlyIn(dir, OwnFiles(dir, cs, k, keep)[i])
  {
    if k > 0 {
      OwnFilesDirect(dir, cs, k - 1, keep);
      var path := Join(dir, cs[k - 1].name);
      assert path[..|dir| + 1] == dir + "/";
      assert path[|dir| + 1..] == cs[k - 1].name;
    }
  }

  /** Every path the walk of `folder` at `dir` returns lies under `dir`. */
  lemma {:induction false} CollectedInside(dir: string, folder: FsNode, keep: string -> bool)
    requires folder.Folder?
    ensures forall i :: 0 <= i < |Collected(dir, folder, keep)| ==> StartsWith(Collected(dir, folder, keep)[i], dir + "/")
    decreases folder, 1
  {
    var cs := folder.children;
    OwnFilesInside(dir, cs, |cs|, keep);
    SubfoldersInside(dir, folder, FolderIndices(cs, |cs|), keep);
  }

  lemma {:induction false} OwnFilesInside(dir: string, cs: seq<FsNode>, k: nat, keep: string -> bool)
    requires k <= |cs|
    ensures forall i :: 0 <= i < |OwnFiles(dir, cs, k, keep)| ==> StartsWith(OwnFiles(dir, cs, k, keep)[i], dir + "/")
  {
    if k > 0 {
      OwnFilesInside(dir, cs, k - 1, keep);
      assert Join(dir, cs[k - 1].name)[..|dir| + 1] == dir + "/";
    }
  }

  /** The walk of a subfolder named `n` returns paths under `dir/n/`, which are never directly in `dir`. */
  lemma {:induction false} SubfoldersInside(dir: string, folder: FsNode, idx: seq<nat>, keep: string -> bool)
    requires folder.Folder? && ValidIndices(folder, idx)
    ensures forall i :: 0 <= i < |FromSubfolders(dir, folder, idx, keep)| ==>
      StartsWith(FromSubfolders(dir, folder, idx, keep)[i], dir + "/") && !DirectlyIn(dir, FromSubfolders(dir, folder, idx, keep)[i])
    decreases folder, 0, |idx|
  {
    if idx != [] {
      var sub := folder.children[idx[|idx| - 1]];
      var subDir := Join(dir, sub.name);
      SubfoldersInside(dir, folder, idx[..|idx| - 1], keep);
      CollectedInside(subDir, sub, keep);
      var inner := Collected(subDir, sub, keep);
      forall p | p in inner ensures StartsWith(p, dir + "/") && !DirectlyIn(dir, p) {
        assert StartsWith(p, subDir + "/");
        assert StartsWith(subDir + "/", dir + "/") by {
          assert (subDir + "/")[..|dir| + 1] == dir + "/";
        }
        StartsWithTrans(p, subDir + "/", dir + "/");
        var slash := |subDir|;
        assert p[slash] == (subDir + "/")[slash] == '/';
        assert p[|dir| + 1..][slash - |dir| - 1] == '/';
      }
    }
  }

  /**
   * Ordering of the walk: in the result, the files lying directly in the
   * walked folder come before every file found in its subfolders.
   */
  lemma DirectFilesComeFirst(dir: string, folder: FsNode, keep: string -> bool)
    requires folder.Folder? && WellNamed(folder)
    ensures var r := Collected(dir, folder, keep);
      forall i, j :: 0 <= i < j < |r| && DirectlyIn(dir, r[j]) ==> DirectlyIn(dir, r[i])
  {
    var cs := folder.children;
    var own := OwnFiles(dir, cs, |cs|, keep);
    var rest := FromSubfolders(dir, folder, FolderIndices(cs, |cs|), keep);
    var r := Collected(dir, folder, keep);
    assert forall i :: 0 <= i < |cs| ==> WellNamed(cs[i]);
    OwnFilesDirect(dir, cs, |cs|, keep);
    SubfoldersInside(dir, folder, FolderIndices(cs, |cs|), keep);
    assert forall k :: |own| <= k < |r| ==> r[k] == rest[k - |own|];
    assert forall k :: 0 <= k < |own| ==> r[k] == own[k];
  }

  lemma JoinAllSnoc(dir: string, names: seq<string>, name: string)
    ensures JoinAll(dir, names + [name]) == JoinAll(dir, names) + [Join(dir, name)]
  {
    assert (names + [name])[..|names|] == names;
  }

  /** Filtering names and joining them gives the own files, when `keep` judges a joined path as it judges the name. */
  lemma {:induction false} JoinedNamesAreOwnFiles(dir: string, cs: seq<FsNode>, k: nat, keep: string -> bool)
    requires k <= |cs|
    requires forall i :: 0 <= i < |cs| ==> keep(Join(dir, cs[i].name)) == keep(cs[i].name)
    requires forall i :: 0 <= i < |cs| ==> cs[i].Folder? ==> !keep(cs[i].name)
    ensures JoinAll(dir, NamesKept(cs[..k], keep)) == OwnFiles(dir, cs, k, keep)
  {
    if k > 0 {
      var node := cs[k - 1];
      JoinedNamesAreOwnFiles(dir, cs, k - 1, keep);
      assert cs[..k][..k - 1] == cs[..k - 1];
      assert cs[..k][k - 1] == node;
      assert NamesKept(cs[..k], keep) == NamesKept(cs[..k - 1], keep) + (if keep(node.name) then [node.name] else []);
      assert keep(Join(dir, node.name)) == keep(node.name);
      assert OwnFiles(dir, cs, k, keep) == OwnFiles(dir, cs, k - 1, keep) +
        (if node.File? && keep(Join(dir, node.name)) then [Join(dir, node.name)] else []);
      if keep(node.name) {
        JoinAllSnoc(dir, NamesKept(cs[..k - 1], keep), node.name);
      } else {
        assert NamesKept(cs[..k], keep) == NamesKept(cs[..k - 1], keep);
      }
    }
  }

  /**
   * The non-recursive listing and the recursive walk agree on a folder's
   * own images, as long as no subfolder's name looks like an image.
   */
  lemma ImageFilesInFolderMatchesOwnImages(dir: string, cs: seq<FsNode>)
    requires forall i :: 0 <= i < |cs| ==> cs[i].name != "" && NoChar(cs[i].name, '/')
    requires forall i :: 0 <= i < |cs| ==> cs[i].Folder? ==> !HasImageExtension(cs[i].name)
    ensures JoinAll(dir, ImageFilesInFolder(Some(Folder(Basename(dir), cs)))) == OwnFiles(dir, cs, |cs|, HasImageExtension)
  {
    forall i | 0 <= i < |cs| ensures HasImageExtension(Join(dir, cs[i].name)) == HasImageExtension(cs[i].name) {
      ExtnameOfJoin(dir, cs[i].name);
    }
    JoinedNamesAreOwnFiles(dir, cs, |cs|, HasImageExtension);
    assert cs[..|cs|] == cs;
  }

  /** Splitting the walks of several subfolders at the first one. */
  lemma {:induction false} FromSubfoldersCons(dir: string, folder: FsNode, idx: seq<nat>, keep: string -> bool)
    requires folder.Folder? && ValidIndices(folder, idx) && idx != []
    ensures var sub := folder.children[idx[0]];
      FromSubfolders(dir, folder, idx, keep) == Collected(Join(dir, sub.name), sub, keep) + FromSubfolders(dir, folder, idx[1..], keep)
    decreases |idx|
  {
    if |idx| > 1 {
      FromSubfoldersCons(dir, folder, idx[..|idx| - 1], keep);
      assert idx[..|idx| - 1][1..] == idx[1..][..|idx| - 2];
    }
  }

  /**
   * Whatever the walk as written does find is the right answer: it only
   * ever misses a match, it never returns a wrong one.
   */
  lemma {:induction false} FirstMatchAsWrittenIsFirstWhenFound(dir: string, folder: FsNode, keep: string -> bool)
    requires folder.Folder?
    ensures FirstMatchAsWritten(dir, folder, keep).Some? ==>
      FirstOf(Collected(dir, folder, keep)) == FirstMatchAsWritten(dir, folder, keep)
    decreases folder
  {
    var cs := folder.children;
    var own := OwnFiles(dir, cs, |cs|, keep);
    var subs := FolderIndices(cs, |cs|);
    if |own| == 0 && |subs| > 0 {
      var sub := cs[subs[0]];
      FirstMatchAsWrittenIsFirstWhenFound(Join(dir, sub.name), sub, keep);
      FromSubfoldersCons(dir, folder, subs, keep);
    }
  }

  lemma ComicInfoAsWrittenIsFirstWhenFound(dir: string, folder: FsNode)
    requires folder.Folder?
    ensures ComicInfoFileAsWritten(dir, folder).Some? ==>
      FirstOf(Collected(dir, folder, IsComicInfo)) == ComicInfoFileAsWritten(dir, folder)
  {
    FirstMatchAsWrittenIsFirstWhenFound(dir, folder, IsComicInfo);
  }

  lemma ComicInfoLower()
    ensures Lower("ComicInfo.xml") == "comicinfo.xml"
  {
    var l := Lower("ComicInfo.xml");
    assert |l| == 13;
    assert forall i :: 0 <= i < 13 ==> l[i] == "comicinfo.xml"[i];
  }

  lemma ComicInfoNameMatches()
    ensures IsComicInfo("/r/b/ComicInfo.xml")
  {
    ComicInfoBasename();
    ComicInfoLower();
  }

  lemma ComicInfoBasename()
    ensures Basename("/r/b/ComicInfo.xml") == "ComicInfo.xml"
  {
    assert NoChar("ComicInfo.xml", '/');
    BasenameOfJoin("/r/b", "ComicInfo.xml");
    ComicInfoPath();
  }

  lemma ComicInfoPath()
    ensures Join("/r/b", "ComicInfo.xml") == "/r/b/ComicInfo.xml"
  {
    var p := Join("/r/b", "ComicInfo.xml");
    assert |p| == 18;
    assert forall i :: 0 <= i < 18 ==> p[i] == "/r/b/ComicInfo.xml"[i];
  }

  /** The root of the counterexample: an empty folder "a", then a folder "b" holding ComicInfo.xml. */
  function HiddenMatchRoot(): (root: FsNode)
    ensures root.Folder? && |root.children| == 2
  {
    Folder("r", [Folder("a", []), Folder("b", [File("ComicInfo.xml")])])
  }

  lemma HiddenMatchRootLevel(keep: string -> bool)
    ensures OwnFiles("/r", HiddenMatchRoot().children, 2, keep) == []
    ensures FolderIndices(HiddenMatchRoot().children, 2) == [0, 1]
  {
    var cs := HiddenMatchRoot().children;
    assert OwnFiles("/r", cs, 1, keep) == [];
  }

  lemma HiddenMatchFirstFolder(keep: string -> bool)
    ensures FirstMatchAsWritten("/r/a", Folder("a", []), keep) == None
    ensures Collected("/r/a", Folder("a", []), keep) == []
  {
  }

  lemma HiddenMatchSecondFolder(keep: string -> bool)
    requires keep("/r/b/ComicInfo.xml")
    ensures Collected("/r/b", Folder("b", [File("ComicInfo.xml")]), keep) == ["/r/b/ComicInfo.xml"]
  {
    var b := Folder("b", [File("ComicInfo.xml")]);
    ComicInfoPath();
    assert OwnFiles("/r/b", b.children, 0, keep) == [];
    assert OwnFiles("/r/b", b.children, 1, keep) == ["/r/b/ComicInfo.xml"];
  }

  /** An empty first subfolder hides a match in the second one. */
  lemma FirstMatchAsWrittenMissesLaterSubfolder(keep: string -> bool)
    requires keep("/r/b/ComicInfo.xml")
    ensures FirstMatchAsWritten("/r", HiddenMatchRoot(), keep) == None
    ensures FirstOf(Collected("/r", HiddenMatchRoot(), keep)) == Some("/r/b/ComicInfo.xml")
  {
    var root := HiddenMatchRoot();
    var a := root.children[0];
    var b := root.children[1];
    HiddenMatchRootLevel(keep);
    HiddenMatchFirstFolder(keep);
    HiddenMatchSecondFolder(keep);
    assert Join("/r", a.name) == "/r/a" && Join("/r", b.name) == "/r/b";
    FromSubfoldersCons("/r", root, [0, 1], keep);
    assert [0, 1][1..] == [1];
    FromSubfoldersCons("/r", root, [1], keep);
    assert FromSubfolders("/r", root, [0, 1], keep) == ["/r/b/ComicInfo.xml"];
  }

  /**
   * A root holding an empty folder "a" and then folder "b" with
   * ComicInfo.xml: as written nothing is found, the walk finds b's file.
   */
  lemma ComicInfoAsWrittenMissesLaterSubfolder()
    ensures ComicInfoFileAsWritten("/r", HiddenMatchRoot()) == None
    ensures FirstOf(Collected("/r", HiddenMatchRoot(), IsComicInfo)) == Some("/r/b/ComicInfo.xml")
  {
    ComicInfoNameMatches();
    FirstMatchAsWrittenMissesLaterSubfolder(IsComicInfo);
  }

  // ---------------------------------------------------------------------
  // Recursive delete

  /** A removal the delete performs. */
  datatype FsOp = Unlink(path: string) | Rmdir(path: string)

  /** The removals of an unguarded delete of `folder` at `path`: each entry (a subfolder recursively), then the folder itself. */
  function DeleteTree(path: string, folder: FsNode): (r: seq<FsOp>)
    requires folder.Folder?
    ensures |r| >= 1 && r[|r| - 1] == Rmdir(path)
    decreases folder, 1, 0
  {
    DeleteEntries(path, folder, |folder.children|) + [Rmdir(path)]
  }

  function DeleteEntries(path: string, folder: FsNode, k: nat): seq<FsOp>
    requires folder.Folder? && k <= |folder.children|
    decreases folder, 0, k
  {
    if k == 0 then []
    else
      var node := folder.children[k - 1];
      DeleteEntries(path, folder, k - 1) +
        (if node.File? then [Unlink(Join(path, node.name))] else DeleteTree(Join(path, node.name), node))
  }

  /**
   * `deleteFolderRecursive(folderPath, _, pathStartsWith, nameStartsWith)`:
   * the removals performed. An empty prefix stands for an absent one (both
   * are falsy); the recursive calls pass no prefixes. A failing `rmdir` is
   * logged, so the removal is still attempted.
   */
  function DeleteFolderRecursive(folderPath: string, listing: Option<seq<FsNode>>, pathStartsWith: string, nameStartsWith: string): (r: seq<FsOp>)
    ensures r != [] ==> listing.Some? && r[|r| - 1] == Rmdir(folderPath)
    ensures nameStartsWith != "" && !StartsWith(Basename(folderPath), nameStartsWith) ==> r == []
    ensures pathStartsWith != "" && !StartsWith(folderPath, pathStartsWith) ==> r == []
  {
    if listing.None? then []
    else if nameStartsWith != "" && !StartsWith(Basename(folderPath), nameStartsWith) then []
    else if pathStartsWith != "" && !StartsWith(folderPath, pathStartsWith) then []
    else DeleteTree(folderPath, Folder(Basename(folderPath), listing.value))
  }

  /** The delete never touches anything outside the folder it was given. */
  lemma {:induction false} DeleteTreeStaysInside(path: string, folder: FsNode)
    requires folder.Folder?
    ensures forall i :: 0 <= i < |DeleteTree(path, folder)| ==>
      DeleteTree(path, folder)[i].path == path || StartsWith(DeleteTree(path, folder)[i].path, path + "/")
    decreases folder, 1
  {
    DeleteEntriesStayInside(path, folder, |folder.children|);
  }

  lemma {:induction false} DeleteEntriesStayInside(path: string, folder: FsNode, k: nat)
    requires folder.Folder? && k <= |folder.children|
    ensures forall i :: 0 <= i < |DeleteEntries(path, folder, k)| ==> StartsWith(DeleteEntries(path, folder, k)[i].path, path + "/")
    decreases folder, 0, k
  {
    if k > 0 {
      var node := folder.children[k - 1];
      var sub := Join(path, node.name);
      DeleteEntriesStayInside(path, folder, k - 1);
      assert StartsWith(sub, path + "/") by {
        assert sub[..|path| + 1] == path + "/";
      }
      if node.Folder? {
        DeleteTreeStaysInside(sub, node);
        assert StartsWith(sub + "/", path + "/") by {
          assert (sub + "/")[..|path| + 1] == path + "/";
        }
        forall op | op in DeleteTree(sub, node) ensures StartsWith(op.path, path + "/") {
          if op.path != sub {
            StartsWithTrans(op.path, sub + "/", path + "/");
          }
        }
      }
    }
  }

  /** Every subfolder among the first `k` entries is itself removed. */
  lemma {:induction false} DeleteEntriesRemoveSubfolders(path: string, folder: FsNode, k: nat, i: nat)
    requires folder.Folder? && i < k <= |folder.children| && folder.children[i].Folder?
    ensures Rmdir(Join(path, folder.children[i].name)) in DeleteEntries(path, folder, k)
    decreases k
  {
    var last := folder.children[k - 1];
    var tail := if last.File? then [Unlink(Join(path, last.name))] else DeleteTree(Join(path, last.name), last);
    assert DeleteEntries(path, folder, k) == DeleteEntries(path, folder, k - 1) + tail;
    if i == k - 1 {
      assert tail[|tail| - 1] == Rmdir(Join(path, last.name));
    } else {
      DeleteEntriesRemoveSubfolders(path, folder, k - 1, i);
    }
  }

  /**
   * The name guard applies to the top folder only: once it passes, every
   * subfolder is removed whatever its own name.
   */
  lemma SubfoldersDeletedWithoutGuard(folderPath: string, cs: seq<FsNode>, nameStartsWith: string, i: nat)
    requires StartsWith(Basename(folderPath), nameStartsWith)
    requires i < |cs| && cs[i].Folder?
    ensures Rmdir(Join(folderPath, cs[i].name)) in DeleteFolderRecursive(folderPath, Some(cs), "", nameStartsWith)
  {
    DeleteEntriesRemoveSubfolders(folderPath, Folder(Basename(folderPath), cs), |cs|, i);
  }

  // ---------------------------------------------------------------------
  // Temp folder

  const TempFolderPrefix := "acbr-"

  /** The module globals `g_tempFolderPath` and `g_tempFolderParentPath`. */
  class TempFolders {
    var tempFolderPath: Option<string>
    var tempFolderParentPath: Option<string>

    constructor ()
      ensures tempFolderPath == None && tempFolderParentPath == None
    {
      tempFolderPath := None;
      tempFolderParentPath := None;
    }

    /** `setTempFolderParentPath`. */
    method SetTempFolderParentPath(folderPath: string)
      modifies this
      ensures tempFolderParentPath == Some(folderPath)
      ensures tempFolderPath == old(tempFolderPath)
    {
      tempFolderParentPath := Some(folderPath);
    }

    /**
     * `createTempFolder(keepTrack)`. `fs.mkdtempSync` appends six random
     * characters, given here as `randomSuffix`. Without a parent path
     * `path.join` throws and nothing is created or tracked.
     */
    method CreateTempFolder(keepTrack: bool, randomSuffix: string) returns (created: Option<string>)
      modifies this
      ensures old(tempFolderParentPath).None? ==> created == None
      ensures old(tempFolderParentPath).Some? ==>
        created == Some(Join(old(tempFolderParentPath).value, TempFolderPrefix + randomSuffix))
      ensures tempFolderPath == if keepTrack && created.Some? then created else old(tempFolderPath)
      ensures tempFolderParentPath == old(tempFolderParentPath)
    {
      created := None;
      if tempFolderParentPath.Some? {
        var path := Join(tempFolderParentPath.value, TempFolderPrefix + randomSuffix);
        if keepTrack {
          tempFolderPath := Some(path);
        }
        created := Some(path);
      }
    }

    /**
     * `cleanUpTempFolder(folderPath)`, "" standing for no argument: the
     * removals performed; `listing` is what the folder to delete holds.
     * Only folders whose name starts with "acbr-" are removed.
     */
    method CleanUpTempFolder(folderPath: string, listing: Option<seq<FsNode>>) returns (ops: seq<FsOp>)
      modifies this
      ensures folderPath != "" ==>
        ops == DeleteFolderRecursive(folderPath, listing, "", TempFolderPrefix) && tempFolderPath == old(tempFolderPath)
      ensures folderPath == "" && old(tempFolderPath).None? ==> ops == [] && tempFolderPath == None
      ensures folderPath == "" && old(tempFolderPath).Some? ==>
        ops == DeleteFolderRecursive(old(tempFolderPath).value, listing, "", TempFolderPrefix) && tempFolderPath == None
      ensures tempFolderParentPath == old(tempFolderParentPath)
    {
      if folderPath != "" {
        ops := DeleteFolderRecursive(folderPath, listing, "", TempFolderPrefix);
      } else if tempFolderPath.None? {
        ops := [];
      } else {
        ops := DeleteFolderRecursive(tempFolderPath.value, listing, "", TempFolderPrefix);
        tempFolderPath := None;
      }
    }
  }

  /** A folder made by CreateTempFolder passes the clean-up's name guard and is removed with all it holds. */
  lemma CreatedTempFolderIsCleanedUp(parent: string, randomSuffix: string, cs: seq<FsNode>)
    requires NoChar(randomSuffix, '/')
    ensures var p := Join(parent, TempFolderPrefix + randomSuffix);
      DeleteFolderRecursive(p, Some(cs), "", TempFolderPrefix) == DeleteTree(p, Folder(Basename(p), cs))
  {
    var name := TempFolderPrefix + randomSuffix;
    assert NoChar(name, '/') by {
      assert forall i :: 5 <= i < |name| ==> name[i] == randomSuffix[i - 5];
    }
    BasenameOfJoin(parent, name);
    assert name[..5] == TempFolderPrefix;
  }
}
