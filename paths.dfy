/**
 * The parts of Node's POSIX `path` module that the reader relies on
 * (`extname`, `basename`, `join`, `isAbsolute`) and the ASCII part of
 * `String.prototype.toLowerCase`, over strings.
 */
module Paths {
  import opened Wrappers

  /** No position of `s` holds `c`. */
  predicate NoChar(s: string, c: char) {
    forall i :: 0 <= i < |s| ==> s[i] != c
  }

  /** `String.prototype.startsWith`. */
  predicate StartsWith(s: string, prefix: string) {
    |prefix| <= |s| && s[..|prefix|] == prefix
  }

  /** The index of the last `c` in `s`, or None (JavaScript's -1). */
  function LastIndexOf(s: string, c: char): (r: Option<nat>)
    ensures r.Some? ==> IsLastAt(s, c, r.value)
    ensures r.None? ==> NoChar(s, c)
  {
    if |s| == 0 then None
    else if s[|s| - 1] == c then Some(|s| - 1)
    else LastIndexOf(s[..|s| - 1], c)
  }

  /** Position `k` of `s` holds the last `c` in `s`. */
  predicate IsLastAt(s: string, c: char, k: nat) {
    k < |s| && s[k] == c && forall j :: k < j < |s| ==> s[j] != c
  }

  /** The path without the separators it ends with. */
  function TrimTrailingSlashes(p: string): (r: string)
    ensures r <= p
    ensures r == "" || r[|r| - 1] != '/'
    ensures forall i :: |r| <= i < |p| ==> p[i] == '/'
  {
    if |p| > 0 && p[|p| - 1] == '/' then TrimTrailingSlashes(p[..|p| - 1]) else p
  }

  /** `path.basename(p)`: the last portion of the path, trailing separators ignored. */
  function Basename(p: string): (r: string)
    ensures NoChar(r, '/')
  {
    var t := TrimTrailingSlashes(p);
    match LastIndexOf(t, '/')
    case None => t
    case Some(k) => t[k + 1..]
  }

  /**
   * `path.extname(p)`: the basename from its last dot on; empty when the
   * basename has no dot, starts with its only dot run (".bashrc") or is "..".
   */
  function Extname(p: string): (r: string)
    ensures r == "" || (r[0] == '.' && NoChar(r[1..], '.') && NoChar(r, '/'))
    ensures |r| <= |Basename(p)| && Basename(p)[|Basename(p)| - |r|..] == r
    ensures r != "" ==> |r| < |Basename(p)|
  {
    var b := Basename(p);
    match LastIndexOf(b, '.')
    case None => ""
    case Some(k) =>
      if k == 0 || b == ".." then ""
      else
        b[k..]
  }

  /** `path.basename(p, path.extname(p))`: the basename without its extension. */
  function Stem(p: string): (r: string)
    ensures r + Extname(p) == Basename(p)
    ensures Extname(p) != "" ==> r != ""
  {
    var b := Basename(p);
    b[..|b| - |Extname(p)|]
  }

  /** `path.join(dir, name)`, without Node's normalisation of the result. */
  function Join(dir: string, name: string): string {
    dir + "/" + name
  }

  /** `path.isAbsolute(p)` on POSIX. */
  predicate IsAbsolute(p: string) {
    |p| > 0 && p[0] == '/'
  }

  function LowerChar(c: char): char {
    if 'A' <= c <= 'Z' then (c as int + 32) as char else c
  }

  /** `s.toLowerCase()` for ASCII letters. */
  function Lower(s: string): string {
    seq(|s|, i requires 0 <= i < |s| => LowerChar(s[i]))
  }

  /** The result of LastIndexOf is determined by its contract. */
  lemma LastIndexOfUnique(s: string, c: char, k: nat)
    requires IsLastAt(s, c, k)
    ensures LastIndexOf(s, c) == Some(k)
  {
  }

  /** Joining a plain file name onto a folder gives back that name as the basename. */
  lemma BasenameOfJoin(dir: string, name: string)
    requires name != "" && NoChar(name, '/')
    ensures Basename(Join(dir, name)) == name
  {
    var p := Join(dir, name);
    assert p[|p| - 1] == name[|name| - 1];
    assert TrimTrailingSlashes(p) == p;
    assert forall j :: |dir| < j < |p| ==> p[j] == name[j - |dir| - 1];
    LastIndexOfUnique(p, '/', |dir|);
  }

  /** A plain name is its own basename. */
  lemma BasenameOfName(name: string)
    requires name != "" && NoChar(name, '/')
    ensures Basename(name) == name
  {
    assert name[|name| - 1] != '/';
    assert TrimTrailingSlashes(name) == name;
  }

  /** In `stem.ext` the last dot is the one before `ext`. */
  lemma DotOfName(stem: string, ext: string)
    requires NoChar(ext, '.')
    ensures IsLastAt(stem + "." + ext, '.', |stem|)
  {
    var name := stem + "." + ext;
    assert forall j :: |stem| < j < |name| ==> name[j] == ext[j - |stem| - 1];
  }

  lemma NameHasNoSlash(stem: string, ext: string)
    requires NoChar(stem, '/') && NoChar(ext, '/')
    ensures NoChar(stem + "." + ext, '/')
  {
    var name := stem + "." + ext;
    assert forall i :: 0 <= i < |stem| ==> name[i] == stem[i];
    assert forall i :: |stem| < i < |name| ==> name[i] == ext[i - |stem| - 1];
  }

  /** `stem.ext` has extension ".ext" and stem `stem`, whatever folder it is joined to. */
  lemma ExtnameOfName(dir: string, stem: string, ext: string)
    requires stem != "" && ext != ""
    requires NoChar(stem, '/') && NoChar(ext, '/') && NoChar(ext, '.')
    ensures Extname(Join(dir, stem + "." + ext)) == "." + ext
    ensures Stem(Join(dir, stem + "." + ext)) == stem
  {
    var name := stem + "." + ext;
    var p := Join(dir, name);
    NameHasNoSlash(stem, ext);
    BasenameOfJoin(dir, name);
    DotOfName(stem, ext);
    assert |name| >= 3;
    ExtnameAtLastDot(p, |stem|);
    assert name[|stem|..] == "." + ext;
    StemBeforeExtname(p, stem);
  }

  /** With the basename's last dot at `k > 0`, the extension runs from that dot. */
  lemma ExtnameAtLastDot(p: string, k: nat)
    requires IsLastAt(Basename(p), '.', k) && k > 0 && |Basename(p)| >= 3
    ensures Extname(p) == Basename(p)[k..]
  {
    LastIndexOfUnique(Basename(p), '.', k);
  }

  lemma StemBeforeExtname(p: string, stem: string)
    requires Basename(p) == stem + Extname(p)
    ensures Stem(p) == stem
  {
  }

  lemma {:induction false} LastIndexOfLower(s: string, c: char)
    requires c == '.' || c == '/'
    ensures LastIndexOf(Lower(s), c) == LastIndexOf(s, c)
  {
    if |s| > 0 {
      assert Lower(s)[..|s| - 1] == Lower(s[..|s| - 1]);
      LastIndexOfLower(s[..|s| - 1], c);
    }
  }

  lemma {:induction false} TrimLower(p: string)
    ensures TrimTrailingSlashes(Lower(p)) == Lower(TrimTrailingSlashes(p))
  {
    if |p| > 0 {
      assert Lower(p)[..|p| - 1] == Lower(p[..|p| - 1]);
      TrimLower(p[..|p| - 1]);
    }
  }

  lemma BasenameLower(p: string)
    ensures Basename(Lower(p)) == Lower(Basename(p))
  {
    var t := TrimTrailingSlashes(p);
    TrimLower(p);
    LastIndexOfLower(t, '/');
    match LastIndexOf(t, '/')
    case None =>
    case Some(k) =>
      assert Lower(t)[k + 1..] == Lower(t[k + 1..]);
  }

  /** Lower-casing a path lower-cases its extension and nothing else of it: extension tests on the lower-cased extension are case-insensitive. */
  lemma ExtnameLower(p: string)
    ensures Extname(Lower(p)) == Lower(Extname(p))
  {
    var b := Basename(p);
    BasenameLower(p);
    LastIndexOfLower(b, '.');
    assert Lower(b) == ".." <==> b == ".." by {
      if Lower(b) == ".." {
        assert |b| == 2;
        assert LowerChar(b[0]) == Lower(b)[0] == '.';
        assert LowerChar(b[1]) == Lower(b)[1] == '.';
        assert b == "..";
      }
    }
    match LastIndexOf(b, '.')
    case None =>
    case Some(k) =>
      assert Lower(b)[k..] == Lower(b[k..]);
  }

  lemma LowerIdempotent(s: string)
    ensures Lower(Lower(s)) == Lower(s)
  {
  }
}
