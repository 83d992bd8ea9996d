/**
 * `updateHead` and `findHead`: the ref string written with `git symbolic-ref HEAD <ref>`
 * and the parse of what `git symbolic-ref HEAD` prints back.
 */
module HeadRef {
  import opened Wrappers
  import opened JsString
  import opened GitInterface
  import opened GitCommand

  /** The ref `updateHead(name, tag)` points HEAD at. */
  function HeadRefFor(name: string, tag: bool): (ref: string)
    ensures StartsWith(ref, if tag then "refs/tags/" else "refs/heads/")
    ensures EndsWith(ref, name)
  {
    "refs/" + (if tag then "tags" else "heads") + "/" + name
  }

  /**
   * `findHead`'s callback on the trimmed output: the third `/`-segment is the name (absent
   * when there are fewer than three segments), and the head is a commit exactly when the
   * second segment is `heads`. The name never contains a `/`.
   */
  function ParseHead(data: string): (h: Head)
    ensures h.name.Some? ==> !Contains(h.name.value, "/")
    ensures h.name.Some? <==> |Split(data, "/")| > 2
  {
    var sub := Split(data, "/");
    SplitPiecesClean(data, "/");
    Head(if |sub| > 1 && sub[1] == "heads" then HeadCommit else HeadTag,
         if |sub| > 2 then Some(sub[2]) else None)
  }

  /**
   * `findHead()` given the captured output of `git symbolic-ref HEAD`. On a detached HEAD
   * the command prints nothing on its standard output, and the exit status is not looked at,
   * so the result is a tag head without a name.
   */
  function FindHead(stdout: string): (h: Head)
    ensures h.name.Some? ==> !Contains(h.name.value, "/")
    ensures TrimOutput(stdout) == "" ==> h == Head(HeadTag, None)
  {
    assert TrimOutput(stdout) == "" ==> Split(TrimOutput(stdout), "/") == [""];
    ParseHead(TrimOutput(stdout))
  }

  /**
   * Reading back the ref that `updateHead(name, tag)` wrote gives the kind that was asked
   * for and the first `/`-segment of the name: the whole name when it has no `/`.
   */
  lemma HeadRoundTrip(name: string, tag: bool)
    ensures FindHead(HeadRefFor(name, tag) + "\n")
         == Head(if tag then HeadTag else HeadCommit, Some(Split(name, "/")[0]))
  {
    var ref := HeadRefFor(name, tag);
    TrimOneNewline(ref);
    RefSegments(name, tag);
    ParseRef(ref, if tag then "tags" else "heads", Split(name, "/"));
  }

  /** The head a ref with the given segments parses to. */
  lemma ParseRef(ref: string, kind: string, rest: seq<string>)
    requires |rest| > 0 && Split(ref, "/") == ["refs", kind] + rest
    ensures ParseHead(ref) == Head(if kind == "heads" then HeadCommit else HeadTag, Some(rest[0]))
  {
  }

  /** The ref `refs/<kind>/<name>` splits into `refs`, the kind, and the pieces of the name. */
  lemma RefSegments(name: string, tag: bool)
    ensures Split(HeadRefFor(name, tag), "/") == ["refs", if tag then "tags" else "heads"] + Split(name, "/")
  {
    var kind := if tag then "tags" else "heads";
    CharBorderless('/');
    CharFree("refs", '/');
    CharFree(kind, '/');
    SplitAfterTwo("refs", kind, "/", name);
    assert "refs/" == "refs" + "/";
    assert HeadRefFor(name, tag) == "refs" + "/" + kind + "/" + name;
  }

  /** A name without `/` survives the round trip whole. */
  lemma HeadRoundTripPlain(name: string, tag: bool)
    requires !Contains(name, "/")
    ensures FindHead(HeadRefFor(name, tag) + "\n") == Head(if tag then HeadTag else HeadCommit, Some(name))
  {
    HeadRoundTrip(name, tag);
    SplitClean(name, "/");
  }

  /**
   * A branch whose name holds a `/` comes back as its first segment only: HEAD on
   * `<dir>/<leaf>` is reported as `<dir>`, which is never the name that was written.
   */
  lemma NestedBranchTruncated(dir: string, leaf: string, tag: bool)
    requires !Contains(dir, "/")
    ensures FindHead(HeadRefFor(dir + "/" + leaf, tag) + "\n").name == Some(dir)
    ensures dir != dir + "/" + leaf
  {
    HeadRoundTrip(dir + "/" + leaf, tag);
    CharBorderless('/');
    SplitAfterFirst(dir, "/", leaf);
  }

  /** The parse with the name taken as everything after the second `/`. */
  function ParseHeadFull(data: string): (h: Head)
    ensures h.name.Some? <==> |Split(data, "/")| > 2
    ensures h.headType == ParseHead(data).headType
  {
    var sub := Split(data, "/");
    Head(if |sub| > 1 && sub[1] == "heads" then HeadCommit else HeadTag,
         if |sub| > 2 then Some(Join(sub[2..], "/")) else None)
  }

  /**
   * `findHead()` with the whole branch name kept: the same kind, a name exactly when the
   * as-written parse has one, and that name begins with the as-written one.
   */
  function FindHeadFull(stdout: string): (h: Head)
    ensures h.headType == FindHead(stdout).headType
    ensures h.name.Some? <==> FindHead(stdout).name.Some?
    ensures h.name.Some? ==> StartsWith(h.name.value, FindHead(stdout).name.value)
  {
    var sub := Split(TrimOutput(stdout), "/");
    if |sub| > 2 then JoinStartsWith(sub[2..], "/"); ParseHeadFull(TrimOutput(stdout))
    else ParseHeadFull(TrimOutput(stdout))
  }

  /** Reading back the ref `updateHead(name, tag)` wrote gives the kind and the whole name. */
  lemma HeadRoundTripFull(name: string, tag: bool)
    ensures FindHeadFull(HeadRefFor(name, tag) + "\n") == Head(if tag then HeadTag else HeadCommit, Some(name))
  {
    var ref := HeadRefFor(name, tag);
    TrimOneNewline(ref);
    RefSegments(name, tag);
    SplitJoin(name, "/");
    assert Split(ref, "/")[2..] == Split(name, "/");
  }

  /** On names without `/` the two parses agree. */
  lemma FullAgreesOnPlainNames(name: string, tag: bool)
    requires !Contains(name, "/")
    ensures FindHeadFull(HeadRefFor(name, tag) + "\n") == FindHead(HeadRefFor(name, tag) + "\n")
  {
    HeadRoundTripFull(name, tag);
    HeadRoundTripPlain(name, tag);
  }
}
