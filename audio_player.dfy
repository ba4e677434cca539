/**
 * The audio player's playlist logic: the track list built from the
 * playlist (in file order, or shuffled with the current file first), the
 * prev/next/ended moves with repeat wrap-around, the button enable rules,
 * and the time and name formatting of the playlist view.
 *
 * The audio engine is reduced to the source it plays and whether it is
 * playing; `Math.random` is the parameter `pick`, any choice it makes
 * being allowed.
 */
module AudioPlayer {
  import opened Wrappers
  import opened Decimal

  /** A playlist position: which file it plays, and that file's URL. */
  datatype Track = Track(fileIndex: nat, fileUrl: string)

  /** One track per file, in file order. */
  function LinearTracks(files: seq<string>): (r: seq<Track>)
    ensures |r| == |files|
    ensures forall i :: 0 <= i < |r| ==> r[i] == Track(i, files[i])
  {
    seq(|files|, i requires 0 <= i < |files| => Track(i, files[i]))
  }

  /** The tracks `createTracksList`'s loop has pushed after `k` files, leaving out the file `skip`. */
  function TracksUpTo(files: seq<string>, k: nat, skip: Option<nat>): seq<Track>
    requires k <= |files|
  {
    if k == 0 then []
    else TracksUpTo(files, k - 1, skip) + (if skip == Some(k - 1) then [] else [Track(k - 1, files[k - 1])])
  }

  lemma {:induction false} TracksUpToAll(files: seq<string>, k: nat)
    requires k <= |files|
    ensures TracksUpTo(files, k, None) == LinearTracks(files)[..k]
  {
    if k > 0 {
      TracksUpToAll(files, k - 1);
      assert LinearTracks(files)[..k] == LinearTracks(files)[..k - 1] + [Track(k - 1, files[k - 1])];
    }
  }

  /** Skipping file `c` loses exactly its track. */
  lemma {:induction false} TracksUpToSkip(files: seq<string>, k: nat, c: nat)
    requires k <= |files| && c < |files|
    ensures multiset(TracksUpTo(files, k, Some(c))) + (if c < k then multiset{Track(c, files[c])} else multiset{})
      == multiset(LinearTracks(files)[..k])
  {
    if k > 0 {
      TracksUpToSkip(files, k - 1, c);
      assert LinearTracks(files)[..k] == LinearTracks(files)[..k - 1] + [Track(k - 1, files[k - 1])];
    }
  }

  /** A track of the linear list names a file of the playlist and carries its URL. */
  lemma LinearMember(files: seq<string>, t: Track)
    requires t in multiset(LinearTracks(files))
    ensures t.fileIndex < |files| && t == Track(t.fileIndex, files[t.fileIndex])
  {
    var lin := LinearTracks(files);
    assert t in lin;
    var i :| 0 <= i < |lin| && lin[i] == t;
  }

  // ---------------------------------------------------------------------
  // Navigation rules

  /** The `refreshUI` rule for the prev button. */
  predicate PrevEnabled(repeat: bool, index: int) {
    repeat || index > 0
  }

  /** The `refreshUI` rule for the next button. */
  predicate NextEnabled(repeat: bool, index: int, count: int) {
    repeat || count - 1 > index
  }

  /** The track "prev" plays: the last one from the first when repeating, else the one before, unguarded. */
  function PrevTarget(repeat: bool, index: int, count: int): int {
    if repeat && index == 0 then count - 1 else index - 1
  }

  /** The track "next" plays: the first one from the last when repeating, else the one after, unguarded. */
  function NextTarget(repeat: bool, index: int, count: int): int {
    if repeat && index == count - 1 then 0 else index + 1
  }

  /** The track played when one ends: the next, the first when repeating at the end, or none. */
  function EndedTarget(repeat: bool, index: int, count: int): Option<int> {
    if count - 1 > index then Some(index + 1)
    else if repeat then Some(0)
    else None
  }

  /** A move the enabled button makes stays on the list. */
  lemma EnabledMovesStayOnList(repeat: bool, index: int, count: int)
    requires 0 <= index < count
    ensures PrevEnabled(repeat, index) ==> 0 <= PrevTarget(repeat, index, count) < count
    ensures NextEnabled(repeat, index, count) ==> 0 <= NextTarget(repeat, index, count) < count
    ensures EndedTarget(repeat, index, count).Some? ==> 0 <= EndedTarget(repeat, index, count).value < count
  {
  }

  /** The buttons are disabled exactly where the unguarded moves would leave the list. */
  lemma DisabledMovesLeaveList(repeat: bool, index: int, count: int)
    requires 0 <= index < count
    ensures !PrevEnabled(repeat, index) <==> PrevTarget(repeat, index, count) == -1
    ensures !NextEnabled(repeat, index, count) <==> NextTarget(repeat, index, count) == count
  {
  }

  /** Index after `k` presses of "next". */
  function NextPresses(repeat: bool, index: int, count: int, k: nat): int {
    if k == 0 then index else NextTarget(repeat, NextPresses(repeat, index, count, k - 1), count)
  }

  /** With repeat on, pressing "next" walks forward and wraps from the last track to the first. */
  lemma {:induction false} NextWraps(index: int, count: int, k: nat)
    requires 0 <= index < count && k <= count
    ensures NextPresses(true, index, count, k) == if index + k < count then index + k else index + k - count
  {
    if k > 0 {
      NextWraps(index, count, k - 1);
    }
  }

  /** With repeat on, as many presses of "next" as there are tracks come back to the same track. */
  lemma NextCycles(index: int, count: int)
    requires 0 <= index < count
    ensures NextPresses(true, index, count, count) == index
  {
    NextWraps(index, count, count);
  }

  // ---------------------------------------------------------------------
  // Track end

  /** Whether the player is still marked playing after a track ends, as written: stopping throws before it is cleared. */
  function PlayingAfterEndedAsWritten(repeat: bool, index: int, count: int, isPlaying: bool): (r: bool)
    ensures EndedTarget(repeat, index, count).None? ==> r == isPlaying
    ensures 0 <= index < count ==> (r <==> EndedTarget(repeat, index, count).Some? || isPlaying)
  {
    if EndedTarget(repeat, index, count).Some? then 0 <= EndedTarget(repeat, index, count).value < count || isPlaying
    else isPlaying
  }

  /** Whether the player is still marked playing after a track ends, as intended: stopping clears it. */
  function PlayingAfterEnded(repeat: bool, index: int, count: int, isPlaying: bool): (r: bool)
    ensures 0 <= index < count ==> (r <==> EndedTarget(repeat, index, count).Some?)
  {
    if EndedTarget(repeat, index, count).Some? then 0 <= EndedTarget(repeat, index, count).value < count || isPlaying
    else false
  }

  /** At the end of the last track without repeat, as written the player still claims to play. */
  lemma EndedAsWrittenKeepsPlaying(count: int)
    requires count > 0
    ensures PlayingAfterEndedAsWritten(false, count - 1, count, true)
    ensures !PlayingAfterEnded(false, count - 1, count, true)
  {
  }

  // ---------------------------------------------------------------------
  // Shuffle

  /** `shuffleArray`: Fisher–Yates in place, `pick(i) % (i + 1)` standing for `floor(random * (i + 1))`. */
  method ShuffleArray(a: array<Track>, pick: nat -> nat)
    modifies a
    ensures multiset(a[..]) == multiset(old(a[..]))
  {
    var i := a.Length - 1;
    while i > 0
      invariant i < a.Length
      invariant multiset(a[..]) == multiset(old(a[..]))
    {
      var j := pick(i) % (i + 1);
      a[i], a[j] := a[j], a[i];
      i := i - 1;
    }
  }

  // ---------------------------------------------------------------------
  // The player

  /** The loop of `createTracksList`: one track per file in order, leaving out the file `skip`. */
  method BuildTracks(files: seq<string>, skip: Option<nat>) returns (built: seq<Track>)
    ensures built == TracksUpTo(files, |files|, skip)
  {
    built := [];
    var index := 0;
    while index < |files|
      invariant 0 <= index <= |files|
      invariant built == TracksUpTo(files, index, skip)
    {
      if skip == Some(index) {
        index := index + 1;
        continue;
      }
      built := built + [Track(index, files[index])];
      index := index + 1;
    }
  }

  /** The shuffle branch of `createTracksList`: shuffle the tracks built without the current file, then put it first. */
  method ShuffleWithCurrentFirst(files: seq<string>, built: seq<Track>, current: Option<nat>, pick: nat -> nat) returns (r: seq<Track>)
    requires current.Some? ==> current.value < |files|
    requires built == TracksUpTo(files, |files|, current)
    ensures multiset(r) == multiset(LinearTracks(files))
    ensures current.Some? ==> |r| > 0 && r[0] == Track(current.value, files[current.value])
  {
    var a := new Track[|built|](i requires 0 <= i < |built| => built[i]);
    assert a[..] == built;
    ShuffleArray(a, pick);
    r := a[..];
    assert LinearTracks(files)[..|files|] == LinearTracks(files);
    if current.Some? {
      var c := current.value;
      TracksUpToSkip(files, |files|, c);
      r := [Track(c, files[c])] + r;
    } else {
      TracksUpToAll(files, |files|);
    }
  }

  datatype Button = Play | Pause | Prev | Next | ShuffleOn | ShuffleOff | RepeatOn | RepeatOff

  /** `g_player`, `g_playlist.files`, `g_tracks` and `g_currentTrackIndex`. */
  class Player {
    var files: seq<string>
    var tracks: seq<Track>
    var currentTrackIndex: int
    var shuffle: bool
    var repeat: bool
    var isPlaying: bool
    /** The URL the engine plays, None before any. */
    var source: Option<string>

    /** The track list is always an ordering of one track per playlist file. */
    predicate Valid()
      reads this
    {
      multiset(tracks) == multiset(LinearTracks(files))
    }

    /** `init(shuffle, repeat, ...)`. */
    constructor (shuffle: bool, repeat: bool)
      ensures Valid()
      ensures files == [] && tracks == [] && currentTrackIndex == 0 && source == None && !isPlaying
      ensures this.shuffle == shuffle && this.repeat == repeat
    {
      files := [];
      tracks := [];
      currentTrackIndex := 0;
      this.shuffle := shuffle;
      this.repeat := repeat;
      isPlaying := false;
      source := None;
    }

    /** `playTrack(index, 0)`: the index is stored first; an index off the list then throws (`ok` false). */
    method PlayTrack(index: int) returns (ok: bool)
      modifies this
      ensures currentTrackIndex == index
      ensures ok == (0 <= index < |tracks|)
      ensures ok ==> source == Some(tracks[index].fileUrl) && isPlaying
      ensures !ok ==> source == old(source) && isPlaying == old(isPlaying)
      ensures files == old(files) && tracks == old(tracks) && shuffle == old(shuffle) && repeat == old(repeat)
    {
      currentTrackIndex := index;
      if !(0 <= index < |tracks|) {
        return false;
      }
      source := Some(tracks[currentTrackIndex].fileUrl);
      isPlaying := true;
      ok := true;
    }

    /**
     * `createTracksList(isRefresh)`. A refresh keeps the file being
     * played current: first of a shuffled list, at its own position in a
     * linear one. Refreshing with the index off the list throws (`ok`
     * false) before anything changes.
     */
    method CreateTracksList(isRefresh: bool, pick: nat -> nat) returns (ok: bool)
      requires isRefresh ==> Valid()
      modifies this
      ensures ok ==> Valid()
      ensures ok == (!isRefresh || 0 <= old(currentTrackIndex) < |old(tracks)|)
      ensures !ok ==> tracks == old(tracks) && currentTrackIndex == old(currentTrackIndex)
      ensures ok && !shuffle ==> tracks == LinearTracks(files)
      ensures ok && (shuffle || !isRefresh) ==> currentTrackIndex == 0
      ensures ok && isRefresh ==> (0 <= currentTrackIndex < |tracks| &&
        tracks[currentTrackIndex].fileIndex == old(tracks)[old(currentTrackIndex)].fileIndex)
      ensures files == old(files) && shuffle == old(shuffle) && repeat == old(repeat)
      ensures isPlaying == old(isPlaying) && source == old(source)
    {
      var currentFileIndex: Option<nat> := None;
      if isRefresh {
        if !(0 <= currentTrackIndex < |tracks|) {
          return false;
        }
        assert tracks[currentTrackIndex] in multiset(tracks);
        LinearMember(files, tracks[currentTrackIndex]);
        currentFileIndex := Some(tracks[currentTrackIndex].fileIndex);
      }
      var built := BuildTracks(files, if shuffle then currentFileIndex else None);
      if shuffle {
        tracks := ShuffleWithCurrentFirst(files, built, currentFileIndex, pick);
        currentTrackIndex := 0;
      } else {
        TracksUpToAll(files, |files|);
        assert LinearTracks(files)[..|files|] == LinearTracks(files);
        tracks := built;
        currentTrackIndex := if currentFileIndex.Some? then currentFileIndex.value else 0;
      }
      ok := true;
    }

    /** The `open-playlist` message: stop, take the new files, build a linear or shuffled list, play its first track. */
    method OpenPlaylist(newFiles: seq<string>, pick: nat -> nat) returns (ok: bool)
      modifies this
      ensures Valid() && files == newFiles && currentTrackIndex == 0
      ensures !shuffle ==> tracks == LinearTracks(newFiles)
      ensures ok == (|newFiles| > 0)
      ensures ok ==> isPlaying && source == Some(tracks[0].fileUrl)
      ensures !ok ==> !isPlaying && source == old(source)
      ensures shuffle == old(shuffle) && repeat == old(repeat)
    {
      isPlaying := false;
      files := newFiles;
      var built := CreateTracksList(false, pick);
      assert |tracks| == |newFiles| by {
        assert |multiset(tracks)| == |multiset(LinearTracks(files))|;
      }
      ok := PlayTrack(currentTrackIndex);
    }

    /** The track list is empty or the index is on it: only then can the playlist highlight the current track. */
    predicate IndexShowable()
      reads this
    {
      |tracks| == 0 || 0 <= currentTrackIndex < |tracks|
    }

    /**
     * The end of `refreshUI`: `updatePlaylistInfo` returns at once for an
     * empty track list, and otherwise reads the current track's file
     * index, which throws (`ok` false) when the index is off the list.
     */
    method RefreshPlaylist() returns (ok: bool)
      ensures ok <==> (|tracks| == 0 || 0 <= currentTrackIndex < |tracks|)
    {
      if |tracks| == 0 {
        return true;
      }
      ok := 0 <= currentTrackIndex < |tracks|;
    }

    /**
     * `onButtonClicked` for the playback and playlist buttons; `ok` is
     * false when the handler throws, in the button's own action or in the
     * closing `refreshUI`.
     */
    method OnButtonClicked(button: Button, pick: nat -> nat) returns (ok: bool)
      requires Valid()
      modifies this
      ensures Valid() && files == old(files)
      ensures button == Play ==>
        isPlaying && tracks == old(tracks) && currentTrackIndex == old(currentTrackIndex) && ok == IndexShowable()
      ensures button == Pause ==>
        !isPlaying && tracks == old(tracks) && currentTrackIndex == old(currentTrackIndex) && ok == IndexShowable()
      ensures button == Prev ==> (tracks == old(tracks) &&
        currentTrackIndex == PrevTarget(old(repeat), old(currentTrackIndex), |tracks|) && ok == (0 <= currentTrackIndex < |tracks|))
      ensures button == Next ==> (tracks == old(tracks) &&
        currentTrackIndex == NextTarget(old(repeat), old(currentTrackIndex), |tracks|) && ok == (0 <= currentTrackIndex < |tracks|))
      ensures (button == Prev || button == Next) && ok ==>
        isPlaying && source == Some(tracks[currentTrackIndex].fileUrl)
      ensures (button == Prev || button == Next) && !ok ==>
        isPlaying == old(isPlaying) && source == old(source)
      ensures (button == ShuffleOn || button == ShuffleOff) ==>
        shuffle == (button == ShuffleOn) && ok == (0 <= old(currentTrackIndex) < |old(tracks)|)
      ensures (button == ShuffleOn || button == ShuffleOff) && ok ==> (0 <= currentTrackIndex < |tracks| &&
        tracks[currentTrackIndex].fileIndex == old(tracks)[old(currentTrackIndex)].fileIndex)
      ensures (button == ShuffleOn || button == ShuffleOff) && !ok ==>
        tracks == old(tracks) && currentTrackIndex == old(currentTrackIndex)
      ensures !(button == ShuffleOn || button == ShuffleOff) ==> shuffle == old(shuffle)
      ensures !(button == RepeatOn || button == RepeatOff) ==> repeat == old(repeat)
      ensures !(button == Prev || button == Next) ==> source == old(source)
      ensures !(button == Play || button == Pause || button == Prev || button == Next) ==> isPlaying == old(isPlaying)
      ensures (button == RepeatOn || button == RepeatOff) ==>
        repeat == (button == RepeatOn) && tracks == old(tracks) && currentTrackIndex == old(currentTrackIndex) &&
        ok == IndexShowable()
    {
      ok := true;
      match button {
        case Play => isPlaying := true;
        case Pause => isPlaying := false;
        case Prev => ok := PlayPrevious();
        case Next => ok := PlayNext();
        case ShuffleOn => ok := SetShuffle(true, pick);
        case ShuffleOff => ok := SetShuffle(false, pick);
        case RepeatOn => repeat := true;
        case RepeatOff => repeat := false;
      }
      if ok {
        ok := RefreshPlaylist();
      }
    }

    /** The previous button: the track before, or with repeat the last one from the first. */
    method PlayPrevious() returns (ok: bool)
      requires Valid()
      modifies this
      ensures Valid() && files == old(files) && tracks == old(tracks)
      ensures shuffle == old(shuffle) && repeat == old(repeat)
      ensures currentTrackIndex == PrevTarget(old(repeat), old(currentTrackIndex), |tracks|) && ok == (0 <= currentTrackIndex < |tracks|)
      ensures ok ==> isPlaying && source == Some(tracks[currentTrackIndex].fileUrl)
      ensures !ok ==> isPlaying == old(isPlaying) && source == old(source)
    {
      if repeat && currentTrackIndex == 0 {
        ok := PlayTrack(|tracks| - 1);
      } else {
        ok := PlayTrack(currentTrackIndex - 1);
      }
    }

    /** The next button: the track after, or with repeat the first one from the last. */
    method PlayNext() returns (ok: bool)
      requires Valid()
      modifies this
      ensures Valid() && files == old(files) && tracks == old(tracks)
      ensures shuffle == old(shuffle) && repeat == old(repeat)
      ensures currentTrackIndex == NextTarget(old(repeat), old(currentTrackIndex), |tracks|) && ok == (0 <= currentTrackIndex < |tracks|)
      ensures ok ==> isPlaying && source == Some(tracks[currentTrackIndex].fileUrl)
      ensures !ok ==> isPlaying == old(isPlaying) && source == old(source)
    {
      if repeat && currentTrackIndex == |tracks| - 1 {
        ok := PlayTrack(0);
      } else {
        ok := PlayTrack(currentTrackIndex + 1);
      }
    }

    /** The shuffle buttons: set the mode and rebuild the list around the current file. */
    method SetShuffle(on: bool, pick: nat -> nat) returns (ok: bool)
      requires Valid()
      modifies this
      ensures Valid() && files == old(files) && shuffle == on && ok == (0 <= old(currentTrackIndex) < |old(tracks)|)
      ensures ok ==> (0 <= currentTrackIndex < |tracks| &&
        tracks[currentTrackIndex].fileIndex == old(tracks)[old(currentTrackIndex)].fileIndex)
      ensures ok && on ==> currentTrackIndex == 0
      ensures ok && !on ==> tracks == LinearTracks(files)
      ensures !ok ==> tracks == old(tracks) && currentTrackIndex == old(currentTrackIndex)
      ensures repeat == old(repeat) && isPlaying == old(isPlaying) && source == old(source)
    {
      shuffle := on;
      ok := CreateTracksList(true, pick);
    }

    /** `onPlaylistTrackClicked(fileIndex)`: the first track playing that file, by a search that stops there. */
    method FindTrack(fileIndex: nat) returns (newTrackIndex: Option<nat>)
      ensures newTrackIndex == TrackPosition(tracks, fileIndex)
    {
      newTrackIndex := None;
      var index := 0;
      while index < |tracks|
        invariant 0 <= index <= |tracks|
        invariant forall j :: 0 <= j < index ==> tracks[j].fileIndex != fileIndex
      {
        if tracks[index].fileIndex == fileIndex {
          newTrackIndex := Some(index);
          break;
        }
        index := index + 1;
      }
    }

    /** `onPlaylistTrackClicked(fileIndex)`: play the first track of that file; nothing when there is none. */
    method OnPlaylistTrackClicked(fileIndex: nat)
      requires Valid()
      modifies this
      ensures Valid() && tracks == old(tracks) && files == old(files)
      ensures shuffle == old(shuffle) && repeat == old(repeat)
      ensures TrackPosition(old(tracks), fileIndex).None? ==>
        currentTrackIndex == old(currentTrackIndex) && isPlaying == old(isPlaying) && source == old(source)
      ensures TrackPosition(old(tracks), fileIndex).Some? ==>
        currentTrackIndex == TrackPosition(old(tracks), fileIndex).value && isPlaying &&
        source == Some(tracks[currentTrackIndex].fileUrl) && tracks[currentTrackIndex].fileIndex == fileIndex
    {
      var newTrackIndex := FindTrack(fileIndex);
      if newTrackIndex.Some? {
        var ok := PlayTrack(newTrackIndex.value);
      }
    }

    /** The engine's `ended` event, with the player stopping at the end of the list when not repeating. */
    method OnTrackEnded() returns (ok: bool)
      requires Valid()
      modifies this
      ensures Valid() && tracks == old(tracks) && files == old(files)
      ensures shuffle == old(shuffle) && repeat == old(repeat)
      ensures var t := EndedTarget(old(repeat), old(currentTrackIndex), |tracks|);
        && (t.Some? ==> currentTrackIndex == t.value && ok == (0 <= t.value < |tracks|))
        && (t.Some? && ok ==> isPlaying && source == Some(tracks[currentTrackIndex].fileUrl))
        && (t.Some? && !ok ==> isPlaying == old(isPlaying) && source == old(source))
        && (t.None? ==> currentTrackIndex == old(currentTrackIndex) && ok == IndexShowable())
        && (t.None? ==> !isPlaying && source == old(source))
      ensures ok ==> isPlaying == PlayingAfterEnded(old(repeat), old(currentTrackIndex), |tracks|, old(isPlaying))
    {
      if |tracks| - 1 > currentTrackIndex {
        ok := PlayTrack(currentTrackIndex + 1);
      } else if repeat {
        ok := PlayTrack(0);
      } else {
        isPlaying := false;
        ok := true;
      }
      if ok {
        ok := RefreshPlaylist();
      }
    }
  }

  /** The first position of a track playing file `fileIndex`. */
  function TrackPosition(tracks: seq<Track>, fileIndex: nat): (r: Option<nat>)
    ensures r.Some? ==> r.value < |tracks| && tracks[r.value].fileIndex == fileIndex
    ensures r.Some? ==> forall j :: 0 <= j < r.value ==> tracks[j].fileIndex != fileIndex
    ensures r.None? ==> forall j :: 0 <= j < |tracks| ==> tracks[j].fileIndex != fileIndex
  {
    if tracks == [] then None
    else if tracks[0].fileIndex == fileIndex then Some(0)
    else match TrackPosition(tracks[1..], fileIndex)
      case None => None
      case Some(i) => Some(i + 1)
  }

  /** In a list playing every file once, every file of the playlist can be clicked. */
  lemma EveryFileHasATrack(files: seq<string>, tracks: seq<Track>, f: nat)
    requires multiset(tracks) == multiset(LinearTracks(files)) && f < |files|
    ensures TrackPosition(tracks, f).Some?
  {
    assert LinearTracks(files)[f] in multiset(LinearTracks(files));
    assert Track(f, files[f]) in tracks;
  }

  // ---------------------------------------------------------------------
  // Formatting

  /** Two-digit, zero-padded text of a number below 100. */
  function Pad2(n: nat): (r: string)
    requires n < 100
    ensures |r| == 2 && AllDigits(r) && DigitsValue(r) == n
  {
    NatToStringRoundTrip(n);
    if n < 10 then "0" + NatToString(n) else NatToString(n)
  }

  /** `getFormatedTimeFromSeconds` for a whole number of seconds: "mm:ss", the hours dropped. */
  function FormatTime(seconds: nat): (r: string)
    ensures |r| == 5 && r[2] == ':' && AllDigits(r[..2]) && AllDigits(r[3..])
    ensures DigitsValue(r[..2]) < 60 && DigitsValue(r[3..]) < 60
    ensures (seconds / 3600) * 3600 + DigitsValue(r[..2]) * 60 + DigitsValue(r[3..]) == seconds
  {
    var hours := seconds / 3600;
    var minutes := (seconds - hours * 3600) / 60;
    var secs := seconds - hours * 3600 - minutes * 60;
    var mm := Pad2(minutes);
    var ss := Pad2(secs);
    var r := mm + ":" + ss;
    assert r[..2] == mm && r[3..] == ss;
    r
  }

  /** 3661 seconds are shown as "01:01". */
  lemma FormatTimeDropsHours()
    ensures FormatTime(3661) == "01:01"
  {
    assert 3661 / 3600 == 1 && (3661 - 3600) / 60 == 1;
    assert NatToString(1) == "1";
    assert Pad2(1) == "01";
  }

  const PlaylistNameLength: nat := 28

  /** `reducePlaylistNameString`: a long name becomes "..." and its last 28 characters. */
  function ReducePlaylistName(input: string): (r: string)
    ensures |input| <= PlaylistNameLength ==> r == input
    ensures |input| > PlaylistNameLength ==>
      |r| == PlaylistNameLength + 3 && r[..3] == "..." && r[3..] == input[|input| - PlaylistNameLength..]
  {
    if |input| > PlaylistNameLength then "..." + input[|input| - PlaylistNameLength..] else input
  }

  /** Reducing a reduced name changes nothing. */
  lemma ReducePlaylistNameIdempotent(input: string)
    ensures ReducePlaylistName(ReducePlaylistName(input)) == ReducePlaylistName(input)
  {
    var r := ReducePlaylistName(input);
    if |input| > PlaylistNameLength {
      assert r == r[..3] + r[3..];
    }
  }
}
