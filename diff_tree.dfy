/**
 * `findDiffInfo`: the reading of `git diff-tree -r --full-index --root <commit>`, whose raw
 * lines have the fixed layout `:<mode> <mode> <old id> <new id> <status><TAB><path>`, into
 * the post-image id, the status and the path of each change that is not a deletion, with the
 * directories above the path.
 */
module DiffTree {
  import opened Wrappers
  import opened JsString
  import opened GitCommand

  /** The offsets at which the fields of a raw line sit. */
  const ID_START := 56
  const ID_END := 96
  const STATUS_START := 97
  const STATUS_END := 98
  const PATH_START := 99

  /** The values the callback computes for one changed path. */
  datatype DiffInfo = DiffInfo(objectId: string, status: string, path: string, dirs: seq<string>)

  // ---------------------------------------------------------------------------
  // The directories above a path.
  // ---------------------------------------------------------------------------

  /** The `i`-th directory above a path joins its first `i + 1` segments with `/`. */
  function AncestorDirs(path: string): (r: seq<string>)
    ensures |r| == |Split(path, "/")| - 1
    ensures forall i :: 0 <= i < |r| ==> r[i] == Join(Split(path, "/")[..i + 1], "/")
  {
    var segs := Split(path, "/");
    seq(|segs| - 1, i requires 0 <= i < |segs| - 1 => Join(segs[..i + 1], "/"))
  }

  /**
   * The `for` loop of `findDiffInfo`: the name grows by one segment and is recorded, then
   * grows by a `/`, for every segment but the last.
   */
  method DirectoryPrefixes(path: string) returns (dirs: seq<string>)
    ensures dirs == AncestorDirs(path)
  {
    var segs := Split(path, "/");
    var name := "";
    dirs := [];
    var i := 0;
    while i < |segs| - 1
      invariant 0 <= i <= |segs| - 1
      invariant dirs == AncestorDirs(path)[..i]
      invariant i == 0 ==> name == ""
      invariant i > 0 ==> name == Join(segs[..i], "/") + "/"
    {
      name := name + segs[i];
      GrowName(segs, i);
      dirs := dirs + [name];
      name := name + "/";
      i := i + 1;
    }
  }

  /** One more segment on the name gives the next directory. */
  lemma GrowName(segs: seq<string>, i: nat)
    requires i < |segs|
    ensures i == 0 ==> "" + segs[i] == Join(segs[..i + 1], "/")
    ensures i > 0 ==> Join(segs[..i], "/") + "/" + segs[i] == Join(segs[..i + 1], "/")
  {
    if i == 0 {
      assert segs[..1] == [segs[0]];
    } else {
      assert segs[..i + 1] == segs[..i] + [segs[i]];
      JoinSnoc(segs[..i], segs[i], "/");
    }
  }

  /**
   * Each directory, followed by `/`, begins the path; it is a proper prefix unless the path
   * ends with `/`. A path without `/` has no directories.
   */
  lemma AncestorPrefix(path: string, i: nat)
    requires i < |AncestorDirs(path)|
    ensures StartsWith(path, AncestorDirs(path)[i] + "/")
    ensures !EndsWith(path, "/") ==> |AncestorDirs(path)[i]| + 1 < |path|
  {
    var segs := Split(path, "/");
    var d := AncestorDirs(path)[i];
    var tail := Join(segs[i + 1..], "/");
    SplitJoin(path, "/");
    assert segs == segs[..i + 1] + segs[i + 1..];
    JoinAppend(segs[..i + 1], segs[i + 1..], "/");
    assert path == d + "/" + tail;
    assert (d + "/") == path[..|d| + 1];
  }

  /** A path without `/` has no directories above it. */
  lemma NoAncestors(path: string)
    requires !Contains(path, "/")
    ensures AncestorDirs(path) == []
  {
    SplitClean(path, "/");
  }

  /** The directories grow one segment at a time: each one, with `/`, begins every later one. */
  lemma AncestorsNested(path: string, i: nat, j: nat)
    requires i < j < |AncestorDirs(path)|
    ensures StartsWith(AncestorDirs(path)[j], AncestorDirs(path)[i] + "/")
  {
    var segs := Split(path, "/");
    assert segs[..j + 1] == segs[..i + 1] + segs[i + 1..j + 1];
    JoinAppend(segs[..i + 1], segs[i + 1..j + 1], "/");
    var d := AncestorDirs(path)[i];
    assert AncestorDirs(path)[j] == d + "/" + Join(segs[i + 1..j + 1], "/");
    assert (d + "/") == AncestorDirs(path)[j][..|d| + 1];
  }

  // ---------------------------------------------------------------------------
  // One raw line, and the whole output.
  // ---------------------------------------------------------------------------

  /**
   * One line of the output: a line that does not begin with `:` is passed over, and so is a
   * deletion (status `D`); otherwise the post-image id, the status and the path are read at
   * their fixed offsets, clamped to the line as `slice` does.
   */
  function ParseRawLine(line: string): (r: Option<DiffInfo>)
    ensures r.Some? <==> |line| > 0 && line[0] == ':' && Slice(line, STATUS_START, STATUS_END) != "D"
    ensures r.Some? && PATH_START <= |line| ==>
      line == line[..ID_START] + r.value.objectId + line[ID_END..STATUS_START] + r.value.status
              + line[STATUS_END..PATH_START] + r.value.path
    ensures r.Some? ==> |r.value.objectId| <= ID_END - ID_START && |r.value.status| <= 1
    ensures r.Some? ==> r.value.dirs == AncestorDirs(r.value.path)
  {
    if |line| == 0 || line[0] != ':' then None
    else
      var status := Slice(line, STATUS_START, STATUS_END);
      if status == "D" then None
      else
        var path := Slice(line, PATH_START, |line|);
        LineLayout(line);
        Some(DiffInfo(Slice(line, ID_START, ID_END), status, path, AncestorDirs(path)))
  }

  /** A line long enough to hold a path is the concatenation of its fixed-offset pieces. */
  lemma LineLayout(line: string)
    ensures PATH_START <= |line| ==>
      line == line[..ID_START] + line[ID_START..ID_END] + line[ID_END..STATUS_START]
              + line[STATUS_START..STATUS_END] + line[STATUS_END..PATH_START] + line[PATH_START..]
  {
  }

  /** A raw line as git writes it: two 6-character modes, two object ids, status, path. */
  function RawLine(oldMode: string, newMode: string, oldId: string, newId: string, status: string, path: string): string {
    ":" + oldMode + " " + newMode + " " + oldId + " " + newId + " " + status + "\t" + path
  }

  /**
   * The inverse direction: for 6-character modes, 40-character ids and a 1-character
   * status, the parse gives back the new id, the status and the path, unless the status is
   * `D`, in which case the line is passed over.
   */
  lemma RawLineRoundTrip(oldMode: string, newMode: string, oldId: string, newId: string, status: string, path: string)
    requires |oldMode| == 6 && |newMode| == 6 && |oldId| == 40 && |newId| == 40 && |status| == 1
    ensures status == "D" ==> ParseRawLine(RawLine(oldMode, newMode, oldId, newId, status, path)) == None
    ensures status != "D" ==>
      ParseRawLine(RawLine(oldMode, newMode, oldId, newId, status, path))
        == Some(DiffInfo(newId, status, path, AncestorDirs(path)))
  {
    var line := RawLine(oldMode, newMode, oldId, newId, status, path);
    var head := ":" + oldMode + " " + newMode + " " + oldId + " ";
    assert |head| == ID_START;
    assert line == head + newId + " " + status + "\t" + path;
    assert line[ID_START..ID_END] == newId;
    assert line[STATUS_START..STATUS_END] == status;
    assert line[PATH_START..] == path;
  }

  /** What the callback computes for the lines, in line order. */
  function DiffInfos(lines: seq<string>): (r: seq<DiffInfo>)
    ensures |r| <= |lines|
    decreases |lines|
  {
    if |lines| == 0 then []
    else
      var before := DiffInfos(lines[..|lines| - 1]);
      match ParseRawLine(lines[|lines| - 1])
      case None => before
      case Some(info) => before + [info]
  }

  /**
   * `findDiffInfo(commitHash)` given the captured output of the command. The source prints
   * these values rather than returning them; here they are returned, line by line.
   */
  method FindDiffInfo(stdout: string) returns (infos: seq<DiffInfo>)
    ensures infos == DiffInfos(Split(TrimOutput(stdout), "\n"))
  {
    var lines := Split(TrimOutput(stdout), "\n");
    infos := [];
    var i := 0;
    while i < |lines|
      invariant 0 <= i <= |lines|
      invariant infos == DiffInfos(lines[..i])
    {
      var item := lines[i];
      assert lines[..i + 1][..i] == lines[..i];
      if |item| > 0 && item[0] == ':' {
        var objectId := Slice(item, ID_START, ID_END);
        var status := Slice(item, STATUS_START, STATUS_END);
        if status != "D" {
          var path := Slice(item, PATH_START, |item|);
          var dirs := DirectoryPrefixes(path);
          infos := infos + [DiffInfo(objectId, status, path, dirs)];
        }
      }
      i := i + 1;
    }
    assert lines[..i] == lines;
  }

  /** Lines that do not begin with `:` contribute nothing. */
  lemma {:induction false} OnlyRawLines(lines: seq<string>)
    requires forall k :: 0 <= k < |lines| ==> |lines[k]| == 0 || lines[k][0] != ':'
    ensures DiffInfos(lines) == []
    decreases |lines|
  {
    if |lines| > 0 {
      OnlyRawLines(lines[..|lines| - 1]);
    }
  }

  // ---------------------------------------------------------------------------
  // The whole output of the command, and its round trip.
  // ---------------------------------------------------------------------------

  /** One changed path as `git diff-tree -r --full-index` reports it. */
  datatype RawChange = RawChange(oldMode: string, newMode: string, oldId: string, newId: string, status: string, path: string)

  /** Modes of 6 characters, ids of 40, a one-character status, and no line feed anywhere. */
  predicate WellFormedChange(c: RawChange) {
    && |c.oldMode| == 6 && |c.newMode| == 6 && |c.oldId| == 40 && |c.newId| == 40 && |c.status| == 1
    && '\n' !in c.oldMode && '\n' !in c.newMode && '\n' !in c.oldId && '\n' !in c.newId
    && '\n' !in c.status && '\n' !in c.path
  }

  function ChangeLine(c: RawChange): string {
    RawLine(c.oldMode, c.newMode, c.oldId, c.newId, c.status, c.path)
  }

  function ChangeLines(cs: seq<RawChange>): (r: seq<string>)
    ensures |r| == |cs|
    ensures forall k :: 0 <= k < |cs| ==> r[k] == ChangeLine(cs[k])
  {
    seq(|cs|, k requires 0 <= k < |cs| => ChangeLine(cs[k]))
  }

  /** What the command prints for a commit: its id on a line of its own, then one raw line per change. */
  function DiffTreeOutput(commitId: string, cs: seq<RawChange>): string {
    Join([commitId] + ChangeLines(cs), "\n") + "\n"
  }

  /** What the changes stand for: a value for each change that is not a deletion, in order. */
  function Reported(cs: seq<RawChange>): (r: seq<DiffInfo>)
    ensures |r| <= |cs|
    decreases |cs|
  {
    if |cs| == 0 then []
    else
      var c := cs[|cs| - 1];
      Reported(cs[..|cs| - 1]) + if c.status == "D" then [] else [DiffInfo(c.newId, c.status, c.path, AncestorDirs(c.path))]
  }

  /**
   * Round trip for the whole command: on the output for a commit id that does not begin with
   * `:` and well-formed changes, the parse passes over the id line and the deletions, and
   * gives each other change's new id, status, path and directories, in output order.
   */
  lemma DiffTreeRoundTrip(commitId: string, cs: seq<RawChange>)
    requires '\n' !in commitId && (commitId == "" || commitId[0] != ':')
    requires forall k :: 0 <= k < |cs| ==> WellFormedChange(cs[k])
    ensures DiffInfos(Split(TrimOutput(DiffTreeOutput(commitId, cs)), "\n")) == Reported(cs)
  {
    var lines := [commitId] + ChangeLines(cs);
    TrimOneNewline(Join(lines, "\n"));
    forall k | 0 <= k < |lines|
      ensures !Contains(lines[k], "\n")
    {
      if k == 0 {
        CharFree(commitId, '\n');
      } else {
        ChangeLineClean(cs[k - 1]);
      }
    }
    CharBorderless('\n');
    JoinSplit(lines, "\n");
    InfosOfLines(commitId, cs);
  }

  /** The id line gives nothing, and each change line gives what the change stands for. */
  lemma {:induction false} InfosOfLines(commitId: string, cs: seq<RawChange>)
    requires commitId == "" || commitId[0] != ':'
    requires forall k :: 0 <= k < |cs| ==> WellFormedChange(cs[k])
    ensures DiffInfos([commitId] + ChangeLines(cs)) == Reported(cs)
    decreases |cs|
  {
    if |cs| == 0 {
      OnlyRawLines([commitId]);
    } else {
      var pre, last := cs[..|cs| - 1], cs[|cs| - 1];
      InfosOfLines(commitId, pre);
      assert WellFormedChange(last);
      LinesSnoc(commitId, cs);
      InfosSnoc([commitId] + ChangeLines(pre), ChangeLine(last));
      RawLineRoundTrip(last.oldMode, last.newMode, last.oldId, last.newId, last.status, last.path);
    }
  }

  /** The line of a well-formed change holds no line feed. */
  lemma ChangeLineClean(c: RawChange)
    requires WellFormedChange(c)
    ensures !Contains(ChangeLine(c), "\n")
  {
    var line := ChangeLine(c);
    assert '\n' !in line;
    CharFree(line, '\n');
  }

  /** The lines of the changes, one more change at the end. */
  lemma LinesSnoc(commitId: string, cs: seq<RawChange>)
    requires |cs| > 0
    ensures [commitId] + ChangeLines(cs) == ([commitId] + ChangeLines(cs[..|cs| - 1])) + [ChangeLine(cs[|cs| - 1])]
  {
    assert ChangeLines(cs) == ChangeLines(cs[..|cs| - 1]) + [ChangeLine(cs[|cs| - 1])];
  }

  /** One more line adds its value, if it gives one. */
  lemma InfosSnoc(lines: seq<string>, line: string)
    ensures DiffInfos(lines + [line])
         == DiffInfos(lines) + match ParseRawLine(line) case None => [] case Some(info) => [info]
  {
    assert (lines + [line])[..|lines|] == lines;
  }
}
