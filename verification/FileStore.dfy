/** The stored file rows as an object, the selection request and the restore after a restart. */
module FileStore {
  import opened Text
  import opened FileIndex

  class FileTable {
    var rows: seq<Row>

    /** `addTorrentFiles` for freshly found metadata: no index is given, so each row gets the default 0. */
    constructor (count: nat)
      ensures rows == Created(count)
    {
      rows := Created(count);
    }

    method UpdateFileProgress(i: nat, p: real) returns (updated: Option<Row>)
      modifies this
      ensures rows == Update(old(rows), i, p) && |rows| == |old(rows)|
      ensures updated == if Target(old(rows), i).None? then None else Some(rows[Target(old(rows), i).value])
    {
      var k := Find(rows, i);
      if k.None? {
        if i < |rows| {
          rows := rows[i := rows[i].(progress := p, index := i)];
          return Some(rows[i]);
        }
        return None;
      }
      rows := rows[k.value := rows[k.value].(progress := p)];
      return Some(rows[k.value]);
    }

    /** The ten-second pass over the files of one torrent. */
    method ProgressPass(progress: seq<real>) returns (ghost repairs: nat)
      modifies this
      ensures rows == Pass(old(rows), progress)
      ensures repairs == PassRepairs(old(rows), progress) <= |rows|
    {
      repairs := 0;
      for i := 0 to |progress|
        invariant rows == Pass(old(rows), progress[..i]) && repairs == PassRepairs(old(rows), progress[..i])
      {
        assert progress[..i + 1][..i] == progress[..i];
        repairs := repairs + AsNat(Repairs(rows, i));
        var _ := UpdateFileProgress(i, Clamp(progress[i]));
      }
      assert progress[..|progress|] == progress;
      PassGains(old(rows), progress);
    }

    /** `updateTorrentFileSelection`: by position, not by the index column. */
    method UpdateSelection(selected: set<int>) returns (ok: bool)
      modifies this
      ensures rows == Selected(old(rows), selected) && ok == (|rows| > 0)
    {
      if |rows| == 0 {
        return false;
      }
      for k := 0 to |rows|
        invariant |rows| == |old(rows)|
        invariant forall j :: 0 <= j < |rows| ==>
                                rows[j] == if j < k then old(rows)[j].(selected := j in selected) else old(rows)[j]
      {
        rows := rows[k := rows[k].(selected := k in selected)];
      }
      return true;
    }
  }

  function Created(count: nat): (rows: seq<Row>)
    ensures |rows| == count && forall k :: 0 <= k < count ==> rows[k] == Row(0, 0.0, true)
  {
    if count == 0 then [] else Created(count - 1) + [Row(0, 0.0, true)]
  }

  function Selected(rows: seq<Row>, selected: set<int>): (r: seq<Row>)
    ensures |r| == |rows| && forall k :: 0 <= k < |rows| ==> r[k] == rows[k].(selected := k in selected)
  {
    if rows == [] then []
    else Selected(rows[..|rows| - 1], selected) + [rows[|rows| - 1].(selected := |rows| - 1 in selected)]
  }

  /** The client side of the selection request. */
  method SelectFiles(files: array<bool>, selected: set<int>)
    modifies files
    ensures forall k :: 0 <= k < files.Length ==> files[k] == (k in selected)
  {
    for k := 0 to files.Length
      invariant forall j :: 0 <= j < k ==> files[j] == (j in selected)
    {
      files[k] := k in selected;
    }
  }

  /** The restore callback: stored flags by position, only when the file counts agree. */
  method RestoreSelection(rows: seq<Row>, files: array<bool>)
    modifies files
    ensures files[..] == Restored(rows, old(files[..]))
  {
    if |rows| == files.Length {
      for k := 0 to |rows|
        invariant forall j :: 0 <= j < files.Length ==> files[j] == if j < k then rows[j].selected else old(files[j])
      {
        files[k] := rows[k].selected;
      }
    }
  }

  function Restored(rows: seq<Row>, files: seq<bool>): (r: seq<bool>)
    ensures |r| == |files| && (|rows| != |files| ==> r == files)
    ensures |rows| == |files| ==> forall k :: 0 <= k < |files| ==> r[k] == rows[k].selected
  {
    if |rows| != |files| then files
    else if rows == [] then []
    else Restored(rows[..|rows| - 1], files[..|files| - 1]) + [rows[|rows| - 1].selected]
  }

  lemma {:induction false} PassKeepsSelection(rows: seq<Row>, ps: seq<real>)
    ensures |Pass(rows, ps)| == |rows|
    ensures forall k :: 0 <= k < |rows| ==> Pass(rows, ps)[k].selected == rows[k].selected
  {
    if ps != [] {
      PassKeepsSelection(rows, ps[..|ps| - 1]);
    }
  }

  lemma {:induction false} PassesKeepSelection(rows: seq<Row>, pss: seq<seq<real>>)
    ensures |Passes(rows, pss)| == |rows|
    ensures forall k :: 0 <= k < |rows| ==> Passes(rows, pss)[k].selected == rows[k].selected
  {
    if pss != [] {
      PassesKeepSelection(rows, pss[..|pss| - 1]);
      PassKeepsSelection(Passes(rows, pss[..|pss| - 1]), pss[|pss| - 1]);
    }
  }

  /**
   A selection survives a restart: whatever the index column held and however it was repaired since,
   a fresh torrent with the same number of files gets exactly the selected positions back.
   */
  lemma SelectionSurvivesRestart(rows: seq<Row>, selected: set<int>, pss: seq<seq<real>>, files: seq<bool>)
    requires |files| == |rows|
    ensures var r := Restored(Passes(Selected(rows, selected), pss), files);
            |r| == |rows| && forall k :: 0 <= k < |rows| ==> r[k] == (k in selected)
  {
    PassesKeepSelection(Selected(rows, selected), pss);
  }

  // ---------- the default selection ----------

  const VIDEO_EXTENSIONS := [".mp4", ".mkv", ".webm", ".avi", ".mov", ".m4v", ".mpg", ".mpeg", ".wmv"]

  /** The last path component, without trailing slashes. */
  function Base(path: string): string {
    if path == "" then ""
    else
      var front, c := path[..|path| - 1], path[|path| - 1];
      if c == '/' then Base(front) else BaseBefore(front) + [c]
  }

  /** What precedes the end of a component: everything after the last slash. */
  function BaseBefore(path: string): string {
    if path == "" || path[|path| - 1] == '/' then ""
    else BaseBefore(path[..|path| - 1]) + [path[|path| - 1]]
  }

  /** From the last dot on, or empty without one. */
  function FromLastDot(name: string): string {
    if name == "" then ""
    else if name[|name| - 1] == '.' then "."
    else
      var e := FromLastDot(name[..|name| - 1]);
      if e == "" then "" else e + [name[|name| - 1]]
  }

  /** `path.extname` (POSIX): a leading dot starts no extension. */
  function ExtName(path: string): string {
    var name := Base(path);
    var e := FromLastDot(name);
    if e == name || name == ".." then "" else e
  }

  predicate IsVideo(path: string) { Lower(ExtName(path)) in VIDEO_EXTENSIONS }

  /** The extension is the shortest suffix of the name that starts with a dot, if the name has a dot. */
  lemma {:induction false} FromLastDotSpec(name: string)
    ensures var e := FromLastDot(name);
            && |e| <= |name| && name[|name| - |e|..] == e && (e == "" <==> '.' !in name)
            && (e != "" ==> e[0] == '.' && '.' !in e[1..])
  {
    if name != "" {
      var front, c := name[..|name| - 1], name[|name| - 1];
      FromLastDotSpec(front);
      assert name == front + [c];
      if c != '.' && FromLastDot(front) != "" {
        var e := FromLastDot(front);
        assert (e + [c])[1..] == e[1..] + [c];
      }
    }
  }

  lemma {:induction false} DotOfSuffix(stem: string, ext: string)
    requires ext != "" && ext[0] == '.' && '.' !in ext[1..]
    ensures FromLastDot(stem + ext) == ext
  {
    var name := stem + ext;
    if |ext| > 1 {
      var front, c := ext[..|ext| - 1], ext[|ext| - 1];
      assert name[..|name| - 1] == stem + front;
      assert ext[1..][|ext| - 2] == c && ext == front + [c];
      assert forall i :: 0 <= i < |front[1..]| ==> front[1..][i] == ext[1..][i];
      DotOfSuffix(stem, front);
    } else {
      assert ext == ".";
    }
  }

  /** Each listed extension is a dot followed by letters or digits. */
  lemma ListedShape(e: string)
    requires e in VIDEO_EXTENSIONS
    ensures |e| > 1 && e[0] == '.' && '.' !in e[1..] && '/' !in e
  {
  }

  lemma {:induction false} LoweredShape(ext: string, e: string)
    requires Lower(ext) == e && |e| > 1 && e[0] == '.' && '.' !in e[1..] && '/' !in e
    ensures |ext| > 1 && ext[0] == '.' && '.' !in ext[1..] && '/' !in ext
  {
    assert forall i :: 0 <= i < |ext| ==> LowersTo(ext[i], e[i]);
    assert forall i :: 0 <= i < |ext| && ext[i] in "./" ==> e[i] == ext[i];
    assert forall i :: 0 <= i < |ext[1..]| ==> ext[1..][i] == ext[i + 1] && e[1..][i] == e[i + 1];
  }

  /** A name is split at the place where its extension starts. */
  ghost predicate SplitsInto(name: string, stem: string, ext: string) { name == stem + ext && stem != "" }

  /** A path: a directory that is empty or ends with a slash, a name, and trailing slashes. */
  ghost predicate IsPath(dir: string, name: string, slashes: string) {
    && (dir != "" ==> dir[|dir| - 1] == '/') && name != "" && '/' !in name
    && forall i :: 0 <= i < |slashes| ==> slashes[i] == '/'
  }

  lemma {:induction false} BaseOfPath(dir: string, name: string, slashes: string)
    requires IsPath(dir, name, slashes)
    ensures Base(dir + name + slashes) == name
  {
    var path := dir + name + slashes;
    if slashes == "" {
      var front, c := name[..|name| - 1], name[|name| - 1];
      assert path[..|path| - 1] == dir + front && path[|path| - 1] == c;
      BaseBeforeOf(dir, front);
      assert name == front + [c];
    } else {
      assert path[..|path| - 1] == dir + name + slashes[..|slashes| - 1];
      BaseOfPath(dir, name, slashes[..|slashes| - 1]);
    }
  }

  lemma {:induction false} BaseBeforeOf(dir: string, front: string)
    requires (dir != "" ==> dir[|dir| - 1] == '/') && '/' !in front
    ensures BaseBefore(dir + front) == front
  {
    var path := dir + front;
    if front == "" {
      assert path == dir;
    } else {
      var init, c := front[..|front| - 1], front[|front| - 1];
      BaseBeforeOf(dir, init);
      BaseBeforeMore(dir + init, c);
      assert front == init + [c];
      assert path == (dir + init) + [c];
    }
  }

  lemma {:induction false} BaseBeforeMore(path: string, c: char)
    requires c != '/'
    ensures BaseBefore(path + [c]) == BaseBefore(path) + [c]
  {
    assert (path + [c])[..|path|] == path;
  }

  lemma {:induction false} ExtOfName(path: string, stem: string, ext: string)
    requires Base(path) == stem + ext && stem != "" && |ext| > 1 && ext[0] == '.' && '.' !in ext[1..]
    ensures ExtName(path) == ext
  {
    DotOfSuffix(stem, ext);
  }

  /** A file is taken for a video exactly when its name is a non-empty stem and a listed extension in any case. */
  lemma {:induction false} VideoNames(dir: string, name: string, slashes: string)
    requires IsPath(dir, name, slashes)
    ensures IsVideo(dir + name + slashes) <==>
            exists stem, ext :: SplitsInto(name, stem, ext) && Lower(ext) in VIDEO_EXTENSIONS
  {
    var path := dir + name + slashes;
    BaseOfPath(dir, name, slashes);
    if IsVideo(path) {
      var ext := ExtName(path);
      FromLastDotSpec(name);
      ListedShape(Lower(ext));
      var stem := name[..|name| - |ext|];
      assert name == stem + ext;
      assert SplitsInto(name, stem, ext);
    }
    if stem, ext :| SplitsInto(name, stem, ext) && Lower(ext) in VIDEO_EXTENSIONS {
      ListedShape(Lower(ext));
      LoweredShape(ext, Lower(ext));
      ExtOfName(path, stem, ext);
    }
  }

  /** Which of the files a test picks. */
  function Flags(names: seq<string>, test: string -> bool): (files: seq<bool>)
    ensures |files| == |names| && forall k :: 0 <= k < |names| ==> files[k] == test(names[k])
  {
    if names == [] then [] else Flags(names[..|names| - 1], test) + [test(names[|names| - 1])]
  }

  /** The loop that selects the files passing the test and deselects all others. */
  method SelectWhere(names: seq<string>, test: string -> bool, files: array<bool>)
    requires files.Length == |names|
    modifies files
    ensures files[..] == Flags(names, test)
  {
    for k := 0 to |names|
      invariant forall j :: 0 <= j < k ==> files[j] == test(names[j])
    {
      files[k] := test(names[k]);
    }
  }

  /** New metadata: the video files are selected, all others skipped. */
  method SelectVideos(names: seq<string>, files: array<bool>)
    requires files.Length == |names|
    modifies files
    ensures files[..] == Flags(names, IsVideo)
  {
    SelectWhere(names, IsVideo, files);
  }

  /** Stored flags that are all true agree with a test exactly when every file passes it. */
  lemma {:induction false} AllSelectedAgree(
    names: seq<string>, test: string -> bool, pss: seq<seq<real>>, files: seq<bool>)
    requires |files| == |names|
    ensures Restored(Passes(Created(|names|), pss), files) == Flags(names, test) <==>
            forall k :: 0 <= k < |names| ==> test(names[k])
  {
    PassesKeepSelection(Created(|names|), pss);
    var r, f := Restored(Passes(Created(|names|), pss), files), Flags(names, test);
    assert forall k :: 0 <= k < |names| ==> r[k];
    if r == f {
      assert forall k :: 0 <= k < |names| ==> f[k];
    }
  }

  /**
   Without a selection request the restart does not keep what the client downloads: new metadata
   selects the video files only, but stores every row as selected. It is kept exactly when all are videos.
   */
  lemma {:induction false} DefaultSelectionSurvivesOnlyVideos(
    names: seq<string>, pss: seq<seq<real>>, files: seq<bool>)
    requires |files| == |names|
    ensures Restored(Passes(Created(|names|), pss), files) == Flags(names, IsVideo) <==>
            forall k :: 0 <= k < |names| ==> IsVideo(names[k])
  {
    AllSelectedAgree(names, IsVideo, pss, files);
  }

  lemma {:induction false} NoDotNoVideo(name: string)
    requires name != "" && '.' !in name && '/' !in name
    ensures !IsVideo(name)
  {
    VideoNames("", name, "");
    assert "" + name + "" == name;
    if IsVideo(name) {
      var stem, ext :| SplitsInto(name, stem, ext) && Lower(ext) in VIDEO_EXTENSIONS;
      ListedShape(Lower(ext));
      LoweredShape(ext, Lower(ext));
      assert false;
    }
  }

  /** A torrent whose only file has no extension: skipped before the restart, downloaded after it. */
  lemma {:induction false} DefaultSelectionLost(name: string, pss: seq<seq<real>>)
    requires name != "" && '.' !in name && '/' !in name
    ensures Flags([name], IsVideo) == [false]
    ensures Restored(Passes(Created(1), pss), [false]) == [true]
  {
    NoDotNoVideo(name);
    PassesKeepSelection(Created(1), pss);
  }
}
