/**
 * `findCommit`: the parse of `git log --format={@}%cN{@}%ci{@}%H{@}%T{@}%B{@}{end}`.
 * The output is split on `{end}`, and in every non-empty chunk the first match of
 * `/\{@\}(.*?)\{@\}(.*?)\{@\}(.*?)\{@\}(.*?)\{@\}(.*?)\n\{@\}/s` gives one commit.
 */
module CommitLog {
  import opened Wrappers
  import opened JsString
  import opened GitInterface
  import opened GitCommand

  /** The marker in front of every field. */
  const FIELD := "{@}"
  /** The marker that ends every commit's record. */
  const END := "{end}"
  /**
   * What follows each of the five lazy groups of the pattern: four field markers, then a
   * line feed and a field marker.
   */
  const TERMS: seq<string> := [FIELD, FIELD, FIELD, FIELD, "\n" + FIELD]

  /** `groups[0] + terms[0] + groups[1] + terms[1] + ...`. */
  function Interleave(groups: seq<string>, terms: seq<string>): string
    requires |groups| == |terms|
  {
    if |groups| == 0 then "" else groups[0] + terms[0] + Interleave(groups[1..], terms[1..])
  }

  // ---------------------------------------------------------------------------
  // The pattern, as a backtracking matcher

  /**
   * Matching `(.*?)t0(.*?)t1...` against the start of `s`: the captured groups. A lazy group
   * tries the shortest text first and grows only when the rest of the pattern fails, so
   * the captures are the first choice, in order of group lengths, with which the whole
   * pattern matches. Whatever is returned spells out a prefix of `s`.
   */
  function Groups(s: string, terms: seq<string>): (r: Option<seq<string>>)
    ensures r.Some? ==> |r.value| == |terms| && StartsWith(s, Interleave(r.value, terms))
    decreases |terms|, |s| + 1
  {
    if |terms| == 0 then Some([]) else Lazy(s, terms, 0)
  }

  /** The first group captures `s[..k]` or, failing that, something longer. */
  function Lazy(s: string, terms: seq<string>, k: nat): (r: Option<seq<string>>)
    requires |terms| > 0 && k <= |s|
    ensures r.Some? ==> |r.value| == |terms| && StartsWith(s, Interleave(r.value, terms))
    decreases |terms|, |s| - k
  {
    var t := terms[0];
    var rest := if OccursAt(s, t, k) then Groups(s[k + |t|..], terms[1..]) else None;
    if rest.Some? then
      var groups := [s[..k]] + rest.value;
      assert groups[1..] == rest.value;
      assert s == s[..k] + t + s[k + |t|..];
      Some(groups)
    else if k == |s| then None
    else Lazy(s, terms, k + 1)
  }

  /**
   * `chunk.match(...)` from position `p` on: the groups of the leftmost match that starts at
   * or after `p`. A match is the field marker followed by the five lazy groups and what
   * follows them.
   */
  function SearchFrom(chunk: string, p: nat): (r: Option<seq<string>>)
    requires p <= |chunk|
    ensures r.Some? ==> |r.value| == |TERMS| && Contains(chunk, FIELD + Interleave(r.value, TERMS))
    decreases |chunk| - p
  {
    var groups := if OccursAt(chunk, FIELD, p) then Groups(chunk[p + |FIELD|..], TERMS) else None;
    if groups.Some? then
      var text := FIELD + Interleave(groups.value, TERMS);
      assert chunk[p..p + |text|] == text by {
        assert chunk[p..] == FIELD + chunk[p + |FIELD|..];
      }
      assert OccursAt(chunk, text, p);
      groups
    else if p == |chunk| then None
    else SearchFrom(chunk, p + 1)
  }

  /**
   * What git prints for one commit under the format string, up to the `{end}` marker: it
   * opens with the field marker, the committer name and the next field marker, and it closes
   * with the line feed and field marker that the message is followed by.
   */
  function EncodeRecord(c: Commit): (r: string)
    ensures StartsWith(r, FIELD + c.username + FIELD)
    ensures EndsWith(r, "\n" + FIELD)
  {
    var fields := [c.username, c.time, c.commitHash, c.treeHash, c.comment];
    InterleaveEnds(fields, TERMS);
    var head := FIELD + c.username + FIELD;
    var rest := Interleave(fields[1..], TERMS[1..]);
    assert FIELD + Interleave(fields, TERMS) == head + rest;
    assert (head + rest)[..|head|] == head;
    FIELD + Interleave(fields, TERMS)
  }

  /** An interleaving ends with its last terminator. */
  lemma {:induction false} InterleaveEnds(groups: seq<string>, terms: seq<string>)
    requires |groups| == |terms| > 0
    ensures EndsWith(Interleave(groups, terms), terms[|terms| - 1])
    ensures forall p :: EndsWith(p + Interleave(groups, terms), terms[|terms| - 1])
    decreases |terms|
  {
    var t := terms[|terms| - 1];
    var front := groups[0] + terms[0];
    if |terms| == 1 {
      assert Interleave(groups, terms) == front + Interleave(groups[1..], terms[1..]);
      assert Interleave(groups[1..], terms[1..]) == "";
    } else {
      InterleaveEnds(groups[1..], terms[1..]);
      assert terms[1..][|terms[1..]| - 1] == t;
      assert Interleave(groups, terms) == front + Interleave(groups[1..], terms[1..]);
    }
    forall p
      ensures EndsWith(p + Interleave(groups, terms), t)
    {
      var x := Interleave(groups, terms);
      assert (p + x)[|p + x| - |t|..] == x[|x| - |t|..];
    }
  }

  /**
   * One chunk's commit, or `None` when the pattern does not match. Whatever it returns,
   * printed back with the format string, occurs in the chunk.
   */
  function ParseChunk(chunk: string): (r: Option<Commit>)
    ensures r.Some? ==> Contains(chunk, EncodeRecord(r.value))
  {
    match SearchFrom(chunk, 0)
    case None => None
    case Some(g) =>
      var c := Commit(g[0], g[1], g[2], g[3], g[4]);
      assert [c.username, c.time, c.commitHash, c.treeHash, c.comment] == g;
      Some(c)
  }

  /**
   * The commits `findCommit` collects from the given chunks: chunks are taken front to back,
   * empty ones are skipped, and so are those the pattern does not match (`push` keeps the
   * chunk order).
   */
  function Commits(chunks: seq<string>): (r: seq<Commit>)
    ensures |r| <= |NonEmpty(chunks)|
  {
    CollectAtMostNonEmpty(ChunkCommits, chunks);
    Collect(ChunkCommits, chunks)
  }

  /** What `each` gives for the chunks, one chunk after the other. */
  function Collect<T>(each: string -> seq<T>, chunks: seq<string>): seq<T>
    decreases |chunks|
  {
    if |chunks| == 0 then []
    else Collect(each, chunks[..|chunks| - 1]) + each(chunks[|chunks| - 1])
  }

  /** What one chunk adds: nothing when it is empty or does not match, else its commit. */
  function ChunkCommits(chunk: string): (r: seq<Commit>)
    ensures |r| <= 1
    ensures chunk == "" ==> r == []
    ensures forall c :: c in r ==> Contains(chunk, EncodeRecord(c))
  {
    if chunk == "" then []
    else match ParseChunk(chunk)
      case None => []
      case Some(c) => [c]
  }

  /** `findCommit(branchName)` given the captured output of its `git log` command. */
  method FindCommit(stdout: string) returns (result: seq<Commit>)
    ensures result == Commits(Split(TrimOutput(stdout), END))
    ensures TrimOutput(stdout) == "" ==> result == []
  {
    var data := TrimOutput(stdout);
    var chunks := Split(data, END);
    result := [];
    var i := 0;
    while i < |chunks|
      invariant 0 <= i <= |chunks|
      invariant result == Commits(chunks[..i])
    {
      var item := chunks[i];
      CommitsStep(chunks, i);
      if item != "" {
        var m := SearchFrom(item, 0);
        if m.Some? {
          var g := m.value;
          assert ChunkCommits(item) == [Commit(g[0], g[1], g[2], g[3], g[4])];
          result := result + [Commit(g[0], g[1], g[2], g[3], g[4])];
        } else {
          assert ChunkCommits(item) == [];
        }
      }
      i := i + 1;
    }
    assert chunks[..|chunks|] == chunks;
    if data == "" {
      assert chunks == [""];
      CommitsOfEmptyChunk();
    }
  }

  /** One more chunk adds its own commits after those of the chunks before it. */
  lemma CommitsStep(chunks: seq<string>, i: nat)
    requires i < |chunks|
    ensures Commits(chunks[..i + 1]) == Commits(chunks[..i]) + ChunkCommits(chunks[i])
  {
    assert chunks[..i + 1][..i] == chunks[..i];
  }

  // ---------------------------------------------------------------------------
  // Matching what git prints

  /** The markers never overlap themselves: none of them repeats its first character. */
  lemma MarkersBorderless()
    ensures Borderless(FIELD) && Borderless("\n" + FIELD) && Borderless(END)
  {
    FirstCharBorderless(FIELD);
    FirstCharBorderless("\n" + FIELD);
    FirstCharBorderless(END);
  }

  /** Group lengths at which the text after the group is not there are passed over. */
  lemma {:induction false} LazySkip(s: string, terms: seq<string>, k: nat, m: nat)
    requires |terms| > 0 && k <= m <= |s|
    requires forall j: nat :: k <= j < m ==> !OccursAt(s, terms[0], j)
    ensures Lazy(s, terms, k) == Lazy(s, terms, m)
    decreases m - k
  {
    if k < m {
      LazySkip(s, terms, k + 1, m);
    }
  }

  /**
   * When no field holds the text that follows it (and that text never overlaps itself),
   * the lazy groups capture exactly the fields, whatever comes after.
   */
  lemma {:induction false} GroupsExact(fields: seq<string>, terms: seq<string>, tail: string)
    requires |fields| == |terms|
    requires forall i :: 0 <= i < |terms| ==> terms[i] != "" && Borderless(terms[i])
    requires forall i :: 0 <= i < |terms| ==> !Contains(fields[i], terms[i])
    ensures Groups(Interleave(fields, terms) + tail, terms) == Some(fields)
    decreases |terms|
  {
    if |terms| > 0 {
      var f, t := fields[0], terms[0];
      var after := Interleave(fields[1..], terms[1..]) + tail;
      var s := Interleave(fields, terms) + tail;
      assert s == f + t + after;
      GroupsExact(fields[1..], terms[1..], tail);
      forall j: nat | 0 <= j < |f|
        ensures !OccursAt(s, t, j)
      {
        if OccursAt(s, t, j) {
          EarlyOccurrence(f, t, after, j);
        }
      }
      LazySkip(s, terms, 0, |f|);
      assert OccursAt(s, t, |f|) by {
        assert s[|f|..|f| + |t|] == t;
      }
      assert s[|f| + |t|..] == after;
      assert s[..|f|] == f;
      assert [f] + fields[1..] == fields;
    }
  }

  /** Start positions where no field marker stands are passed over. */
  lemma {:induction false} SearchSkip(chunk: string, p: nat, q: nat)
    requires p <= q <= |chunk|
    requires forall j: nat :: p <= j < q ==> !OccursAt(chunk, FIELD, j)
    ensures SearchFrom(chunk, p) == SearchFrom(chunk, q)
    decreases q - p
  {
    if p < q {
      SearchSkip(chunk, p + 1, q);
    }
  }

  /**
   * What `{@}` may not appear in: the first four fields may not hold a field marker, and
   * the message may not hold a line feed followed by one.
   */
  predicate WellFormed(c: Commit) {
    && !Contains(c.username, FIELD)
    && !Contains(c.time, FIELD)
    && !Contains(c.commitHash, FIELD)
    && !Contains(c.treeHash, FIELD)
    && !Contains(c.comment, "\n" + FIELD)
  }

  /**
   * Round trip for one chunk: after any text without a field marker, the record git
   * prints for a well-formed commit parses back to exactly that commit.
   */
  lemma ChunkRoundTrip(lead: string, c: Commit)
    requires WellFormed(c) && !Contains(lead, FIELD)
    ensures ParseChunk(lead + EncodeRecord(c)) == Some(c)
  {
    var fields := [c.username, c.time, c.commitHash, c.treeHash, c.comment];
    var body := Interleave(fields, TERMS);
    var chunk := lead + EncodeRecord(c);
    assert chunk == lead + FIELD + body;
    MarkersBorderless();
    GroupsExact(fields, TERMS, "");
    assert body + "" == body;
    forall j: nat | 0 <= j < |lead|
      ensures !OccursAt(chunk, FIELD, j)
    {
      if OccursAt(chunk, FIELD, j) {
        EarlyOccurrence(lead, FIELD, body, j);
      }
    }
    SearchSkip(chunk, 0, |lead|);
    assert OccursAt(chunk, FIELD, |lead|) by {
      assert chunk[|lead|..|lead| + |FIELD|] == FIELD;
    }
    assert chunk[|lead| + |FIELD|..] == body;
  }

  // ---------------------------------------------------------------------------
  // Chunks and commits

  /**
   * When each chunk gives at most one result and an empty chunk none, there are never more
   * results than non-empty chunks.
   */
  lemma {:induction false} CollectAtMostNonEmpty<T>(each: string -> seq<T>, chunks: seq<string>)
    requires forall x :: |each(x)| <= 1 && (x == "" ==> each(x) == [])
    ensures |Collect(each, chunks)| <= |NonEmpty(chunks)|
    decreases |chunks|
  {
    if |chunks| > 0 {
      CollectAtMostNonEmpty(each, chunks[..|chunks| - 1]);
    }
  }

  /** The commits of two runs of chunks, one after the other. */
  lemma CommitsAppend(xs: seq<string>, ys: seq<string>)
    ensures Commits(xs + ys) == Commits(xs) + Commits(ys)
  {
    CollectAppend(ChunkCommits, xs, ys);
  }

  lemma {:induction false} CollectAppend<T>(each: string -> seq<T>, xs: seq<string>, ys: seq<string>)
    ensures Collect(each, xs + ys) == Collect(each, xs) + Collect(each, ys)
    decreases |ys|
  {
    if |ys| == 0 {
      assert xs + ys == xs;
    } else {
      var zs, init := xs + ys, ys[..|ys| - 1];
      assert zs[..|zs| - 1] == xs + init;
      CollectAppend(each, xs, init);
    }
  }

  // ---------------------------------------------------------------------------
  // The whole output of the command

  /** Each commit's record, as git prints it, in the same order. */
  function Records(cs: seq<Commit>): (rs: seq<string>)
    ensures |rs| == |cs|
    ensures forall k :: 0 <= k < |cs| ==> rs[k] == EncodeRecord(cs[k])
  {
    seq(|cs|, k requires 0 <= k < |cs| => EncodeRecord(cs[k]))
  }

  /** Records printed one after the other, each followed by the end marker and a line feed. */
  function LogText(rs: seq<string>): string {
    if |rs| == 0 then "" else rs[0] + END + "\n" + LogText(rs[1..])
  }

  /**
   * What the `git log` command prints for the given commits: for each one its record, the
   * end marker and the line feed git puts after every entry.
   */
  function LogOutput(cs: seq<Commit>): string {
    LogText(Records(cs))
  }

  /** `LogText` without its final line feed. */
  function TrimmedLog(rs: seq<string>): string
    requires |rs| > 0
  {
    rs[0] + END + if |rs| == 1 then "" else "\n" + TrimmedLog(rs[1..])
  }

  /**
   * The non-empty chunks of the trimmed output: the first record stands alone, every later
   * one comes after the line feed printed behind the previous record.
   */
  function LogChunks(rs: seq<string>, lead: string): seq<string> {
    if |rs| == 0 then [] else [lead + rs[0]] + LogChunks(rs[1..], "\n")
  }

  lemma {:induction false} LogTextEndsWithNewline(rs: seq<string>)
    requires |rs| > 0
    ensures LogText(rs) == TrimmedLog(rs) + "\n"
    decreases |rs|
  {
    if |rs| > 1 {
      LogTextEndsWithNewline(rs[1..]);
    }
  }

  /** Splitting the trimmed output on the end marker gives the chunks and one empty piece. */
  lemma {:induction false} SplitTrimmedLog(rs: seq<string>, lead: string)
    requires |rs| > 0 && (lead == "" || lead == "\n")
    requires forall k :: 0 <= k < |rs| ==> !Contains(rs[k], END)
    ensures Split(lead + TrimmedLog(rs), END) == LogChunks(rs, lead) + [""]
    decreases |rs|
  {
    var first := lead + rs[0];
    var rest := if |rs| == 1 then "" else "\n" + TrimmedLog(rs[1..]);
    assert lead + TrimmedLog(rs) == first + END + rest;
    assert !Contains(first, END) by {
      assert !Contains(rs[0], END);
      if lead == "\n" {
        ContainsAfterChar('\n', rs[0], END);
      } else {
        assert first == rs[0];
      }
    }
    assert Split(rest, END) == LogChunks(rs[1..], "\n") + [""] by {
      if |rs| == 1 {
        assert Split("", END) == [""];
      } else {
        SplitTrimmedLog(rs[1..], "\n");
      }
    }
    SplitStep(lead + TrimmedLog(rs), first, rest, LogChunks(rs[1..], "\n"));
  }

  /** A piece free of the end marker, the marker, and a rest that splits into `tail` and "". */
  lemma SplitStep(whole: string, first: string, rest: string, tail: seq<string>)
    requires whole == first + END + rest && !Contains(first, END)
    requires Split(rest, END) == tail + [""]
    ensures Split(whole, END) == [first] + tail + [""]
  {
    MarkersBorderless();
    SplitAfterFirst(first, END, rest);
  }

  /** Every chunk of well-formed records parses back to its commit. */
  lemma {:induction false} CommitsOfLogChunks(cs: seq<Commit>, lead: string)
    requires lead == "" || lead == "\n"
    requires forall k :: 0 <= k < |cs| ==> WellFormed(cs[k])
    ensures Commits(LogChunks(Records(cs), lead)) == cs
    decreases |cs|
  {
    if |cs| > 0 {
      var chunk := lead + EncodeRecord(cs[0]);
      var later := LogChunks(Records(cs[1..]), "\n");
      RecordChunk(lead, cs[0]);
      CommitsOfLogChunks(cs[1..], "\n");
      assert Records(cs)[1..] == Records(cs[1..]);
      assert LogChunks(Records(cs), lead) == [chunk] + later;
      CommitsCons(chunk, later);
      assert cs == [cs[0]] + cs[1..];
    }
  }

  /** The commits of a chunk in front of others. */
  lemma CommitsCons(chunk: string, rest: seq<string>)
    ensures Commits([chunk] + rest) == ChunkCommits(chunk) + Commits(rest)
  {
    CommitsAppend([chunk], rest);
    assert [chunk][..0] == [];
    assert Collect(ChunkCommits, [chunk]) == Collect(ChunkCommits, []) + ChunkCommits(chunk);
  }

  /** The chunk of a well-formed record, behind an optional line feed, gives its commit. */
  lemma RecordChunk(lead: string, c: Commit)
    requires (lead == "" || lead == "\n") && WellFormed(c)
    ensures ChunkCommits(lead + EncodeRecord(c)) == [c]
  {
    assert !Contains(lead, FIELD) by {
      assert forall i: nat :: !OccursAt(lead, FIELD, i);
    }
    ChunkRoundTrip(lead, c);
    assert |EncodeRecord(c)| > 0;
  }

  /** The trimmed output splits into the chunks of the records and one empty piece. */
  lemma LogSplitsIntoChunks(rs: seq<string>)
    requires |rs| > 0
    requires forall k :: 0 <= k < |rs| ==> !Contains(rs[k], END)
    ensures Split(TrimOutput(LogText(rs)), END) == LogChunks(rs, "") + [""]
  {
    TrimLog(rs);
    SplitTrimmedLog(rs, "");
    assert "" + TrimmedLog(rs) == TrimmedLog(rs);
  }

  /** Trimming a non-empty log removes exactly its final line feed. */
  lemma TrimLog(rs: seq<string>)
    requires |rs| > 0
    ensures TrimOutput(LogText(rs)) == TrimmedLog(rs)
  {
    LogTextEndsWithNewline(rs);
    TrimOneNewline(TrimmedLog(rs));
  }

  /** An empty chunk contributes no commit. */
  lemma CommitsOfEmptyChunk()
    ensures Commits([""]) == []
  {
    assert [""][..0] == [];
  }

  /** The record written out field by field. */
  lemma RecordLayout(c: Commit)
    ensures EncodeRecord(c)
         == FIELD + c.username + FIELD + c.time + FIELD + c.commitHash + FIELD + c.treeHash
          + FIELD + c.comment + ("\n" + FIELD)
  {
    var nf := "\n" + FIELD;
    var t4 := InterleaveCons(c.comment, [], nf, []);
    var t3 := InterleaveCons(c.treeHash, [c.comment], FIELD, [nf]);
    var t2 := InterleaveCons(c.commitHash, [c.treeHash, c.comment], FIELD, [FIELD, nf]);
    var t1 := InterleaveCons(c.time, [c.commitHash, c.treeHash, c.comment], FIELD, [FIELD, FIELD, nf]);
    var t0 := InterleaveCons(c.username, [c.time, c.commitHash, c.treeHash, c.comment], FIELD, [FIELD, FIELD, FIELD, nf]);
    var whole := FIELD + t0;
    var x := FIELD + c.username + FIELD;
    assert whole == x + t1;
    x := x + c.time + FIELD;
    assert whole == x + t2;
    x := x + c.commitHash + FIELD;
    assert whole == x + t3;
    x := x + c.treeHash + FIELD;
    assert whole == x + t4;
    assert EncodeRecord(c) == whole;
  }

  /** One group and its terminator in front of the others. */
  lemma InterleaveCons(g: string, gs: seq<string>, t: string, ts: seq<string>) returns (text: string)
    requires |gs| == |ts|
    ensures text == Interleave([g] + gs, [t] + ts) == g + t + Interleave(gs, ts)
  {
    assert ([g] + gs)[1..] == gs && ([t] + ts)[1..] == ts;
    text := Interleave([g] + gs, [t] + ts);
  }

  /** No field of the commit holds the end marker. */
  predicate FreeOfEnd(c: Commit) {
    && !Contains(c.username, END)
    && !Contains(c.time, END)
    && !Contains(c.commitHash, END)
    && !Contains(c.treeHash, END)
    && !Contains(c.comment, END)
  }

  /** A marker is too short to hold the end marker. */
  lemma MarkerFreeOfEnd(m: string)
    requires |m| < |END|
    ensures !Contains(m, END)
  {
  }

  /**
   * When no field holds the end marker, neither does the record: the marker cannot straddle
   * a field and a field marker, because `}` is not among the first four characters of
   * `{end}`, and neither `{` nor a line feed is among its last four.
   */
  lemma RecordFreeOfEnd(c: Commit)
    requires FreeOfEnd(c)
    ensures !Contains(EncodeRecord(c), END)
  {
    var nf := "\n" + FIELD;
    MarkerFreeOfEnd(FIELD);
    MarkerFreeOfEnd(nf);
    var x0 := FIELD + c.username;
    ConcatFree(FIELD, c.username, END);
    var x1 := x0 + FIELD;
    ConcatFree(x0, FIELD, END);
    var x2 := x1 + c.time;
    ConcatFree(x1, c.time, END);
    var x3 := x2 + FIELD;
    ConcatFree(x2, FIELD, END);
    var x4 := x3 + c.commitHash;
    ConcatFree(x3, c.commitHash, END);
    var x5 := x4 + FIELD;
    ConcatFree(x4, FIELD, END);
    var x6 := x5 + c.treeHash;
    ConcatFree(x5, c.treeHash, END);
    var x7 := x6 + FIELD;
    ConcatFree(x6, FIELD, END);
    var x8 := x7 + c.comment;
    ConcatFree(x7, c.comment, END);
    ConcatFree(x8, nf, END);
    RecordLayout(c);
    assert EncodeRecord(c) == x8 + nf;
  }

  /**
   * Round trip for the whole command: when every commit is well-formed and no field holds
   * the end marker, `findCommit` on what git prints returns exactly the commits, in
   * the order git printed them. No output at all gives no commits.
   */
  lemma LogRoundTrip(cs: seq<Commit>)
    requires forall k :: 0 <= k < |cs| ==> WellFormed(cs[k]) && FreeOfEnd(cs[k])
    ensures Commits(Split(TrimOutput(LogOutput(cs)), END)) == cs
  {
    if |cs| == 0 {
      assert Split("", END) == [""];
      CommitsOfEmptyChunk();
    } else {
      RecordsFreeOfEnd(cs);
      LogSplitsIntoChunks(Records(cs));
      ChunksRoundTrip(cs);
    }
  }

  /** Records whose fields are free of the end marker are free of it too. */
  lemma RecordsFreeOfEnd(cs: seq<Commit>)
    requires forall k :: 0 <= k < |cs| ==> FreeOfEnd(cs[k])
    ensures forall k :: 0 <= k < |cs| ==> !Contains(Records(cs)[k], END)
  {
    forall k | 0 <= k < |cs|
      ensures !Contains(Records(cs)[k], END)
    {
      RecordFreeOfEnd(cs[k]);
    }
  }

  /** The chunks of well-formed records and one empty piece give back the commits. */
  lemma ChunksRoundTrip(cs: seq<Commit>)
    requires forall k :: 0 <= k < |cs| ==> WellFormed(cs[k])
    ensures Commits(LogChunks(Records(cs), "") + [""]) == cs
  {
    CommitsOfEmptyChunk();
    CommitsOfLogChunks(cs, "");
    CommitsAppend(LogChunks(Records(cs), ""), [""]);
  }
}
