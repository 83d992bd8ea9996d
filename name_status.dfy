/**
 * `findDiffItems`: the parse of `git log --format={start}%h --name-status -<limit>`, where each
 * commit's abbreviated hash follows a `{start}` marker and is followed by one
 * `status<TAB>path` line per changed file, into a record from hash to the commit's items.
 */
module NameStatus {
  import opened Wrappers
  import opened JsString
  import opened GitInterface
  import opened GitCommand

  const START := "{start}"

  /** One item of a commit, filed under the commit's hash. */
  datatype Entry = Entry(hash: string, item: Item)

  /**
   * One line after the hash: the status is the first tab-separated field and the name the
   * second. A line without a second field, or with an empty one, gives no item.
   */
  function ParseItem(line: string): (r: Option<Item>)
    ensures !Contains(line, "\t") ==> r.None?
    ensures r.Some? ==> r.value.name != ""
    ensures r.Some? ==> !Contains(r.value.status, "\t") && !Contains(r.value.name, "\t")
    ensures r.Some? ==> StartsWith(line, r.value.status + "\t" + r.value.name)
  {
    var fields := Split(line, "\t");
    SplitCount(line, "\t");
    if |fields| < 2 || fields[1] == "" then None
    else
      SplitFirst(line, "\t");
      SplitPiecesClean(line, "\t");
      JoinStartsWith(fields[1..], "\t");
      assert line == fields[0] + "\t" + Join(fields[1..], "\t");
      assert (fields[0] + "\t" + fields[1]) == line[..|fields[0]| + 1 + |fields[1]|];
      Some(Item(fields[0], fields[1]))
  }

  /**
   * The inverse direction: a `status<TAB>path` line gives back its status and path, and so
   * does one with further tab-separated fields after the path.
   */
  lemma ParseItemLine(status: string, name: string, rest: string)
    requires name != "" && !Contains(status, "\t") && !Contains(name, "\t")
    ensures ParseItem(status + "\t" + name) == Some(Item(status, name))
    ensures ParseItem(status + "\t" + name + "\t" + rest) == Some(Item(status, name))
  {
    CharBorderless('\t');
    SplitAfterFirst(status, "\t", name);
    SplitClean(name, "\t");
    SplitAfterTwo(status, name, "\t", rest);
  }

  /** The items of the lines after one commit's hash, in line order. */
  function LineEntries(hash: string, lines: seq<string>): (r: seq<Entry>)
    ensures |r| <= |lines|
    ensures forall k :: 0 <= k < |r| ==> r[k].hash == hash
    decreases |lines|
  {
    if |lines| == 0 then []
    else
      var before := LineEntries(hash, lines[..|lines| - 1]);
      match ParseItem(lines[|lines| - 1])
      case None => before
      case Some(it) => before + [Entry(hash, it)]
  }

  /**
   * One `{start}` chunk: of its non-empty lines, the first is the hash and the rest are item
   * lines. A chunk of line feeds alone has no hash and no items.
   */
  function ChunkEntries(chunk: string): (r: seq<Entry>)
    ensures r != [] ==> |r| < |NonEmpty(Split(chunk, "\n"))|
                        && forall k :: 0 <= k < |r| ==> r[k].hash == NonEmpty(Split(chunk, "\n"))[0]
    ensures forall k :: 0 <= k < |r| ==> r[k].hash != "" && !Contains(r[k].hash, "\n")
  {
    var lines := NonEmpty(Split(chunk, "\n"));
    if |lines| == 0 then []
    else
      SplitPiecesClean(chunk, "\n");
      assert lines[0] in lines;
      LineEntries(lines[0], lines[1..])
  }

  /** The items of the chunks, chunk by chunk, none under an empty hash or one with a line feed. */
  function Entries(chunks: seq<string>): (r: seq<Entry>)
    ensures forall k :: 0 <= k < |r| ==> r[k].hash != "" && !Contains(r[k].hash, "\n")
    decreases |chunks|
  {
    if |chunks| == 0 then []
    else Entries(chunks[..|chunks| - 1]) + ChunkEntries(chunks[|chunks| - 1])
  }

  /** Every item the command's output yields, in output order, after the output is trimmed. */
  function DiffEntries(stdout: string): seq<Entry> {
    Entries(NonEmpty(Split(TrimOutput(stdout), START)))
  }

  /** The items filed under `hash`, in the order they were filed. */
  function ItemsFor(es: seq<Entry>, hash: string): (r: seq<Item>)
    ensures |r| <= |es|
    decreases |es|
  {
    if |es| == 0 then []
    else
      var before := ItemsFor(es[..|es| - 1], hash);
      if es[|es| - 1].hash == hash then before + [es[|es| - 1].item] else before
  }

  /** `m` holds a key exactly for each hash with items, and under it exactly those items. */
  ghost predicate Grouped(m: map<string, seq<Item>>, es: seq<Entry>)
    ensures Grouped(m, es) ==> forall h :: h in m ==> m[h] != [] && |m[h]| <= |es|
  {
    forall h :: (h in m <==> ItemsFor(es, h) != []) && (h in m ==> m[h] == ItemsFor(es, h))
  }

  /**
   * The record the `forEach` builds from the entries: each item pushed, in turn, onto its
   * hash's list, which is created empty on the hash's first item.
   */
  function GroupMap(es: seq<Entry>): (m: map<string, seq<Item>>)
    ensures forall h :: h in m ==> m[h] != []
    decreases |es|
  {
    if |es| == 0 then map[]
    else
      var m := GroupMap(es[..|es| - 1]);
      var e := es[|es| - 1];
      m[e.hash := (if e.hash in m then m[e.hash] else []) + [e.item]]
  }

  /** The pushes group the items by hash, in order, with a key only for hashes with items. */
  lemma {:induction false} GroupMapGrouped(es: seq<Entry>)
    ensures Grouped(GroupMap(es), es)
    decreases |es|
  {
    if |es| > 0 {
      var pre := es[..|es| - 1];
      GroupMapGrouped(pre);
      var last := es[|es| - 1];
      GroupedPush(GroupMap(pre), pre, last);
      assert pre + [last] == es;
      assert GroupMap(es) == GroupMap(pre)[last.hash := (if last.hash in GroupMap(pre) then GroupMap(pre)[last.hash] else []) + [last.item]];
    }
  }

  /** Pushing one item onto its hash's list keeps the map grouped, one entry further on. */
  lemma GroupedPush(m: map<string, seq<Item>>, es: seq<Entry>, e: Entry)
    requires Grouped(m, es)
    ensures Grouped(m[e.hash := (if e.hash in m then m[e.hash] else []) + [e.item]], es + [e])
  {
    assert (es + [e])[..|es|] == es;
  }

  /** Output that trims to nothing yields no entries. */
  lemma NoEntries(stdout: string)
    requires TrimOutput(stdout) == ""
    ensures DiffEntries(stdout) == []
  {
    assert Split("", START) == [""];
    assert NonEmpty([""]) == [] by {
      assert [""][..0] == [];
    }
  }

  /** The entries of one more chunk follow those of the chunks before it. */
  lemma EntriesStep(chunks: seq<string>, i: nat)
    requires i < |chunks|
    ensures Entries(chunks[..i + 1]) == Entries(chunks[..i]) + ChunkEntries(chunks[i])
  {
    assert chunks[..i + 1][..i] == chunks[..i];
  }

  /** The entries of one more line follow those of the lines before it. */
  lemma LineEntriesStep(hash: string, lines: seq<string>, j: nat)
    requires j < |lines|
    ensures ParseItem(lines[j]).None? ==> LineEntries(hash, lines[..j + 1]) == LineEntries(hash, lines[..j])
    ensures ParseItem(lines[j]).Some? ==>
      LineEntries(hash, lines[..j + 1]) == LineEntries(hash, lines[..j]) + [Entry(hash, ParseItem(lines[j]).value)]
  {
    assert lines[..j + 1][..j] == lines[..j];
  }

  /** One more entry pushes its item onto its hash's list. */
  lemma GroupMapSnoc(es: seq<Entry>, seen: seq<Entry>, e: Entry)
    ensures GroupMap(es + (seen + [e]))
         == GroupMap(es + seen)[e.hash := (if e.hash in GroupMap(es + seen) then GroupMap(es + seen)[e.hash] else []) + [e.item]]
  {
    assert es + (seen + [e]) == (es + seen) + [e];
    assert ((es + seen) + [e])[..|es + seen|] == es + seen;
  }

  /**
   * The inner `forEach` of `findDiffItems`: each line after the hash that gives an item is
   * pushed onto the hash's list, which is created on the first such line.
   */
  method PushItems(m0: map<string, seq<Item>>, hash: string, lines: seq<string>, ghost es: seq<Entry>)
    returns (m: map<string, seq<Item>>)
    requires m0 == GroupMap(es)
    ensures m == GroupMap(es + LineEntries(hash, lines))
  {
    m := m0;
    ghost var seen: seq<Entry> := [];
    assert es + seen == es;
    var j := 0;
    while j < |lines|
      invariant 0 <= j <= |lines|
      invariant seen == LineEntries(hash, lines[..j])
      invariant m == GroupMap(es + seen)
    {
      LineEntriesStep(hash, lines, j);
      var item := ParseItem(lines[j]);
      if item.Some? {
        var e := Entry(hash, item.value);
        GroupMapSnoc(es, seen, e);
        m := m[hash := (if hash in m then m[hash] else []) + [item.value]];
        seen := seen + [e];
      }
      j := j + 1;
    }
    assert lines[..j] == lines;
  }

  /**
   * `findDiffItems(limit)` given the captured output of the command: the map that the
   * nested `forEach` builds holds, under each hash, the items of that hash's lines in line
   * order, and no hash without an item; output that trims to nothing gives an empty map.
   */
  method FindDiffItems(stdout: string) returns (m: map<string, seq<Item>>)
    ensures m == GroupMap(DiffEntries(stdout))
    ensures Grouped(m, DiffEntries(stdout))
    ensures TrimOutput(stdout) == "" ==> m == map[]
  {
    var chunks := NonEmpty(Split(TrimOutput(stdout), START));
    m := map[];
    var i := 0;
    while i < |chunks|
      invariant 0 <= i <= |chunks|
      invariant m == GroupMap(Entries(chunks[..i]))
    {
      EntriesStep(chunks, i);
      m := PushChunk(m, chunks[i], Entries(chunks[..i]));
      i := i + 1;
    }
    assert chunks[..i] == chunks;
    GroupMapGrouped(DiffEntries(stdout));
    if TrimOutput(stdout) == "" {
      NoEntries(stdout);
    }
  }

  /**
   * The body of the outer `forEach`: the chunk's non-empty lines, the first of them the hash
   * and the others its item lines; a chunk without lines changes nothing.
   */
  method PushChunk(m0: map<string, seq<Item>>, chunk: string, ghost es: seq<Entry>)
    returns (m: map<string, seq<Item>>)
    requires m0 == GroupMap(es)
    ensures m == GroupMap(es + ChunkEntries(chunk))
  {
    var items := NonEmpty(Split(chunk, "\n"));
    if |items| > 0 {
      m := PushItems(m0, items[0], items[1..], es);
    } else {
      assert es + [] == es;
      m := m0;
    }
  }

  // ---------------------------------------------------------------------------
  // The output the command prints, and its round trip.
  // ---------------------------------------------------------------------------

  /** One commit as the log prints it: its abbreviated hash and its changed files. */
  datatype LogCommit = LogCommit(hash: string, items: seq<Item>)

  /** The `--name-status` line of one item. */
  function ItemLine(it: Item): string {
    it.status + "\t" + it.name
  }

  function ItemLines(its: seq<Item>): (r: seq<string>)
    ensures |r| == |its|
    ensures forall k :: 0 <= k < |r| ==> r[k] == ItemLine(its[k])
  {
    seq(|its|, k requires 0 <= k < |its| => ItemLine(its[k]))
  }

  /** A commit's text after its `{start}` marker, without the final line feed. */
  function CommitBody(c: LogCommit): string {
    Join([c.hash, ""] + ItemLines(c.items), "\n")
  }

  /** `{start}<hash>`, a blank line, then one line per item, for each commit in turn. */
  function NameStatusOutput(cs: seq<LogCommit>): string
    decreases |cs|
  {
    if |cs| == 0 then ""
    else NameStatusOutput(cs[..|cs| - 1]) + START + CommitBody(cs[|cs| - 1]) + "\n"
  }

  /** The entries one commit stands for. */
  function CommitEntries(c: LogCommit): (r: seq<Entry>)
    ensures |r| == |c.items|
    ensures forall k :: 0 <= k < |r| ==> r[k] == Entry(c.hash, c.items[k])
  {
    seq(|c.items|, k requires 0 <= k < |c.items| => Entry(c.hash, c.items[k]))
  }

  function Flatten(cs: seq<LogCommit>): seq<Entry>
    decreases |cs|
  {
    if |cs| == 0 then [] else Flatten(cs[..|cs| - 1]) + CommitEntries(cs[|cs| - 1])
  }

  /** An item that prints unambiguously: a non-empty path, no tab, line feed or marker. */
  predicate PrintableItem(it: Item) {
    && it.name != ""
    && '\t' !in it.status && '\t' !in it.name
    && '\n' !in it.status && '\n' !in it.name
    && !Contains(it.status, START) && !Contains(it.name, START)
  }

  /** A commit that prints unambiguously: a non-empty hash without line feed or marker. */
  predicate Printable(c: LogCommit) {
    && c.hash != "" && '\n' !in c.hash && !Contains(c.hash, START)
    && forall k :: 0 <= k < |c.items| ==> PrintableItem(c.items[k])
  }

  /** A printable item's line holds no line feed and no marker, and parses back to it. */
  lemma ItemLineClean(it: Item)
    requires PrintableItem(it)
    ensures !Contains(ItemLine(it), "\n") && !Contains(ItemLine(it), START)
    ensures ParseItem(ItemLine(it)) == Some(it)
  {
    CharFree(it.status, '\t');
    CharFree(it.name, '\t');
    CharFree(it.status, '\n');
    CharFree(it.name, '\n');
    SeparatedFree(it.status, '\t', it.name, "\n");
    SeparatedFree(it.status, '\t', it.name, START);
    ParseItemLine(it.status, it.name, "");
  }

  lemma StartBorderless()
    ensures Borderless(START)
  {
    forall b: nat | 0 < b < |START|
      ensures !IsBorder(START, b)
    {
      assert START[..b][0] != START[|START| - b..][0];
    }
  }

  /** The lines of a printable commit's body: its hash, a blank line, its item lines. */
  lemma BodyLines(c: LogCommit)
    requires Printable(c)
    ensures Split(CommitBody(c), "\n") == [c.hash, ""] + ItemLines(c.items)
    ensures !Contains(CommitBody(c), START)
  {
    var ps := [c.hash, ""] + ItemLines(c.items);
    assert !OccursAt("", "\n", 0) && !OccursAt("", START, 0);
    CharFree(c.hash, '\n');
    forall k | 0 <= k < |c.items|
      ensures !Contains(ItemLine(c.items[k]), "\n") && !Contains(ItemLine(c.items[k]), START)
    {
      ItemLineClean(c.items[k]);
    }
    assert forall k :: 0 <= k < |ps| ==> !Contains(ps[k], "\n") && !Contains(ps[k], START) by {
      forall k | 0 <= k < |ps|
        ensures !Contains(ps[k], "\n") && !Contains(ps[k], START)
      {
        if k >= 2 {
          assert ps[k] == ItemLine(c.items[k - 2]);
        }
      }
    }
    CharBorderless('\n');
    JoinSplit(ps, "\n");
    JoinFree(ps, '\n', START);
  }

  /** The non-empty lines of a printable commit's body, with or without its final line feed. */
  lemma BodyNonEmptyLines(c: LogCommit)
    requires Printable(c)
    ensures NonEmpty(Split(CommitBody(c), "\n")) == [c.hash] + ItemLines(c.items)
    ensures NonEmpty(Split(CommitBody(c) + "\n", "\n")) == [c.hash] + ItemLines(c.items)
  {
    var il := ItemLines(c.items);
    BodyLines(c);
    CharBorderless('\n');
    SplitSnoc(CommitBody(c), "\n");
    forall k | 0 <= k < |il|
      ensures il[k] != ""
    {
      assert |ItemLine(c.items[k])| > 0;
    }
    BodyPiecesNonEmpty(c.hash, il);
  }

  /** Of the hash, the blank line and the item lines, with or without a last empty piece, the filter keeps the hash and the item lines. */
  lemma BodyPiecesNonEmpty(hash: string, il: seq<string>)
    requires hash != "" && forall k :: 0 <= k < |il| ==> il[k] != ""
    ensures NonEmpty([hash, ""] + il) == [hash] + il
    ensures NonEmpty([hash, ""] + il + [""]) == [hash] + il
  {
    var head := [hash, ""];
    assert NonEmpty(head) == [hash] by {
      assert head[..1] == [hash] && [hash][..0] == [];
    }
    NonEmptyKeepsAll(il);
    NonEmptyAppend(head, il);
    var pieces := head + il;
    assert NonEmpty(pieces) == [hash] + il;
    assert NonEmpty(pieces + [""]) == NonEmpty(pieces) by {
      assert (pieces + [""])[..|pieces|] == pieces;
    }
  }

  /** The entries a printable commit's body yields, with or without its final line feed. */
  lemma BodyEntries(c: LogCommit)
    requires Printable(c)
    ensures ChunkEntries(CommitBody(c)) == CommitEntries(c)
    ensures ChunkEntries(CommitBody(c) + "\n") == CommitEntries(c)
  {
    var il := ItemLines(c.items);
    BodyNonEmptyLines(c);
    assert ([c.hash] + il)[1..] == il;
    ItemLineEntries(c, |il|);
    assert il[..|il|] == il;
    assert CommitEntries(c)[..|il|] == CommitEntries(c);
  }

  /** The item lines of a printable commit yield its entries, one per line. */
  lemma {:induction false} ItemLineEntries(c: LogCommit, n: nat)
    requires Printable(c) && n <= |c.items|
    ensures LineEntries(c.hash, ItemLines(c.items)[..n]) == CommitEntries(c)[..n]
  {
    if n > 0 {
      var il := ItemLines(c.items);
      var it := c.items[n - 1];
      ItemLineEntries(c, n - 1);
      assert PrintableItem(it);
      ItemLineStep(c.hash, il, n, it);
      CommitEntriesSnoc(c, n);
    }
  }

  lemma ItemLineStep(hash: string, il: seq<string>, n: nat, it: Item)
    requires 0 < n <= |il| && il[n - 1] == ItemLine(it) && PrintableItem(it)
    ensures LineEntries(hash, il[..n]) == LineEntries(hash, il[..n - 1]) + [Entry(hash, it)]
  {
    assert il[..n][..n - 1] == il[..n - 1];
    ItemLineClean(it);
  }

  lemma CommitEntriesSnoc(c: LogCommit, n: nat)
    requires 0 < n <= |c.items|
    ensures CommitEntries(c)[..n] == CommitEntries(c)[..n - 1] + [Entry(c.hash, c.items[n - 1])]
  {
    var e := CommitEntries(c);
    assert e[..n] == e[..n - 1] + [e[n - 1]];
  }

  /** The printed output is its commits' texts joined by the marker, after an empty piece. */
  lemma {:induction false} OutputJoin(cs: seq<LogCommit>)
    ensures NameStatusOutput(cs) == Join([""] + Texts(cs), START)
    decreases |cs|
  {
    if |cs| > 0 {
      var pre := cs[..|cs| - 1];
      var text := CommitBody(cs[|cs| - 1]) + "\n";
      OutputJoin(pre);
      TextsSnoc(cs);
      assert [""] + Texts(cs) == ([""] + Texts(pre)) + [text];
      JoinSnoc([""] + Texts(pre), text, START);
      assert NameStatusOutput(cs) == NameStatusOutput(pre) + START + text;
    }
  }

  lemma TextsSnoc(cs: seq<LogCommit>)
    requires |cs| > 0
    ensures Texts(cs) == Texts(cs[..|cs| - 1]) + [CommitBody(cs[|cs| - 1]) + "\n"]
  {
  }

  /** Each commit's text after its marker. */
  function Texts(cs: seq<LogCommit>): (r: seq<string>)
    ensures |r| == |cs|
    ensures forall k :: 0 <= k < |cs| ==> r[k] == CommitBody(cs[k]) + "\n"
  {
    seq(|cs|, k requires 0 <= k < |cs| => CommitBody(cs[k]) + "\n")
  }

  /** Whole commit texts yield their commits' entries. */
  lemma {:induction false} TextsEntries(cs: seq<LogCommit>)
    requires forall k :: 0 <= k < |cs| ==> Printable(cs[k])
    ensures Entries(Texts(cs)) == Flatten(cs)
    decreases |cs|
  {
    if |cs| > 0 {
      var pre := cs[..|cs| - 1];
      assert Texts(cs)[..|cs| - 1] == Texts(pre);
      TextsEntries(pre);
      BodyEntries(cs[|cs| - 1]);
    }
  }

  /**
   * Round trip: the items the parse yields from the printed log are the printed commits'
   * items, commit by commit and in order, for commits that print unambiguously.
   */
  lemma NameStatusRoundTrip(cs: seq<LogCommit>)
    requires forall k :: 0 <= k < |cs| ==> Printable(cs[k])
    ensures DiffEntries(NameStatusOutput(cs)) == Flatten(cs)
  {
    if |cs| == 0 {
      assert cs == [];
      EmptyLogEntries();
    } else {
      PrintedEntries(cs);
    }
  }

  /** The entries of a non-empty printed log: the earlier commits' texts, then the last body. */
  lemma PrintedEntries(cs: seq<LogCommit>)
    requires |cs| > 0
    requires forall k :: 0 <= k < |cs| ==> Printable(cs[k])
    ensures DiffEntries(NameStatusOutput(cs)) == Flatten(cs[..|cs| - 1]) + CommitEntries(cs[|cs| - 1])
  {
    var pre, last := cs[..|cs| - 1], cs[|cs| - 1];
    assert Printable(last);
    assert forall k :: 0 <= k < |pre| ==> Printable(pre[k]);
    OutputEntries(cs);
    BodyEntries(last);
    TextsEntries(pre);
  }

  /** The entries of a non-empty printed log: those of the earlier texts, then the last body's. */
  lemma OutputEntries(cs: seq<LogCommit>)
    requires |cs| > 0
    requires forall k :: 0 <= k < |cs| ==> Printable(cs[k])
    ensures DiffEntries(NameStatusOutput(cs))
         == Entries(Texts(cs[..|cs| - 1])) + ChunkEntries(CommitBody(cs[|cs| - 1]))
  {
    TrimmedChunks(cs);
    ChunksOfOutput(cs);
  }

  lemma EmptyLogEntries()
    ensures DiffEntries(NameStatusOutput([])) == []
  {
    NoEntries(NameStatusOutput([]));
  }

  /** The chunks the parse keeps from the trimmed output: each commit's text, in order. */
  lemma TrimmedChunks(cs: seq<LogCommit>)
    requires |cs| > 0
    requires forall k :: 0 <= k < |cs| ==> Printable(cs[k])
    ensures NonEmpty(Split(TrimOutput(NameStatusOutput(cs)), START))
         == Texts(cs[..|cs| - 1]) + [CommitBody(cs[|cs| - 1])]
  {
    TrimmedOutput(cs);
    PiecesFree(cs);
    StartBorderless();
    JoinSplit(TrimmedPieces(cs), START);
    ChunksOfOutput(cs);
  }

  /** Trimming the output drops the last commit's final line feed. */
  lemma TrimmedOutput(cs: seq<LogCommit>)
    requires |cs| > 0
    ensures TrimOutput(NameStatusOutput(cs)) == Join(TrimmedPieces(cs), START)
  {
    var pre, last := cs[..|cs| - 1], cs[|cs| - 1];
    OutputJoin(pre);
    JoinSnoc([""] + Texts(pre), CommitBody(last), START);
    var t := NameStatusOutput(pre) + START + CommitBody(last);
    assert NameStatusOutput(cs) == t + "\n";
    TrimOneNewline(t);
  }

  /**
   * The pieces the trimmed output splits into: an empty one before the first marker, then
   * each commit's text, the last without its final line feed.
   */
  function TrimmedPieces(cs: seq<LogCommit>): (r: seq<string>)
    requires |cs| > 0
    ensures |r| == |cs| + 1
  {
    [""] + Texts(cs[..|cs| - 1]) + [CommitBody(cs[|cs| - 1])]
  }

  /** No piece of the trimmed output holds the marker. */
  lemma PiecesFree(cs: seq<LogCommit>)
    requires |cs| > 0
    requires forall k :: 0 <= k < |cs| ==> Printable(cs[k])
    ensures forall k :: 0 <= k < |cs| + 1 ==> !Contains(TrimmedPieces(cs)[k], START)
  {
    var pieces := TrimmedPieces(cs);
    forall k | 0 <= k < |pieces|
      ensures !Contains(pieces[k], START)
    {
      if k == 0 {
        assert !OccursAt("", START, 0);
      } else {
        BodyLines(cs[k - 1]);
        if k < |cs| {
          SeparatedFree(CommitBody(cs[k - 1]), '\n', "", START);
          assert CommitBody(cs[k - 1]) + "\n" + "" == pieces[k];
        }
      }
    }
  }

  /** The marker-separated chunks the parse keeps are the commit texts, in order. */
  lemma ChunksOfOutput(cs: seq<LogCommit>)
    requires |cs| > 0
    requires forall k :: 0 <= k < |cs| ==> Printable(cs[k])
    ensures NonEmpty(TrimmedPieces(cs)) == Texts(cs[..|cs| - 1]) + [CommitBody(cs[|cs| - 1])]
    ensures Entries(Texts(cs[..|cs| - 1]) + [CommitBody(cs[|cs| - 1])])
         == Entries(Texts(cs[..|cs| - 1])) + ChunkEntries(CommitBody(cs[|cs| - 1]))
  {
    var rest := Texts(cs[..|cs| - 1]) + [CommitBody(cs[|cs| - 1])];
    forall k | 0 <= k < |rest|
      ensures rest[k] != ""
    {
      assert |cs[k].hash| > 0;
      JoinStartsWith([cs[k].hash, ""] + ItemLines(cs[k].items), "\n");
    }
    NonEmptyKeepsAll(rest);
    NonEmptyAppend([""], rest);
    assert NonEmpty([""]) == [] by {
      assert [""][..0] == [];
    }
    assert [""] + rest == TrimmedPieces(cs);
    assert rest[..|rest| - 1] == Texts(cs[..|cs| - 1]);
  }

  /** Concatenating entry lists concatenates each hash's items. */
  lemma {:induction false} ItemsForAppend(a: seq<Entry>, b: seq<Entry>, h: string)
    ensures ItemsFor(a + b, h) == ItemsFor(a, h) + ItemsFor(b, h)
    decreases |b|
  {
    if |b| == 0 {
      assert a + b == a;
    } else {
      assert (a + b)[..|a + b| - 1] == a + b[..|b| - 1];
      ItemsForAppend(a, b[..|b| - 1], h);
    }
  }

  lemma {:induction false} ItemsForCommitPrefix(c: LogCommit, n: nat, h: string)
    requires n <= |c.items|
    ensures ItemsFor(CommitEntries(c)[..n], h) == if c.hash == h then c.items[..n] else []
  {
    if n > 0 {
      var es := CommitEntries(c);
      ItemsForCommitPrefix(c, n - 1, h);
      ItemsForSnoc(es, n, h);
      assert es[n - 1] == Entry(c.hash, c.items[n - 1]);
      assert c.items[..n] == c.items[..n - 1] + [c.items[n - 1]];
    }
  }

  /** One more entry adds its item when it carries the hash. */
  lemma ItemsForSnoc(es: seq<Entry>, n: nat, h: string)
    requires 0 < n <= |es|
    ensures ItemsFor(es[..n], h) == ItemsFor(es[..n - 1], h) + if es[n - 1].hash == h then [es[n - 1].item] else []
  {
    assert es[..n][..n - 1] == es[..n - 1];
  }

  /** One commit's entries file its items under its own hash and nothing under another. */
  lemma ItemsForCommit(c: LogCommit, h: string)
    ensures ItemsFor(CommitEntries(c), h) == if c.hash == h then c.items else []
  {
    ItemsForCommitPrefix(c, |c.items|, h);
    assert CommitEntries(c)[..|c.items|] == CommitEntries(c);
    assert c.items[..|c.items|] == c.items;
  }

  /** The last commit's entries add its items under its own hash. */
  lemma ItemsForLast(cs: seq<LogCommit>, h: string)
    requires |cs| > 0
    ensures ItemsFor(Flatten(cs), h)
         == ItemsFor(Flatten(cs[..|cs| - 1]), h) + if cs[|cs| - 1].hash == h then cs[|cs| - 1].items else []
  {
    var pre, last := cs[..|cs| - 1], cs[|cs| - 1];
    ItemsForAppend(Flatten(pre), CommitEntries(last), h);
    ItemsForCommit(last, h);
  }

  /** Under distinct hashes, each hash's items are its commit's items; other hashes have none. */
  lemma {:induction false} ItemsForFlatten(cs: seq<LogCommit>, h: string)
    requires forall k, l :: 0 <= k < l < |cs| ==> cs[k].hash != cs[l].hash
    ensures forall k :: 0 <= k < |cs| && cs[k].hash == h ==> ItemsFor(Flatten(cs), h) == cs[k].items
    ensures (forall k :: 0 <= k < |cs| ==> cs[k].hash != h) ==> ItemsFor(Flatten(cs), h) == []
    decreases |cs|
  {
    if |cs| > 0 {
      var pre, last := cs[..|cs| - 1], cs[|cs| - 1];
      ItemsForFlatten(pre, h);
      ItemsForLast(cs, h);
      var own := if last.hash == h then last.items else [];
      forall k | 0 <= k < |cs| && cs[k].hash == h
        ensures ItemsFor(Flatten(cs), h) == cs[k].items
      {
        if k == |cs| - 1 {
          assert forall l :: 0 <= l < |pre| ==> pre[l].hash != h by {
            forall l | 0 <= l < |pre|
              ensures pre[l].hash != h
            {
              assert cs[l].hash != cs[k].hash;
            }
          }
          assert ItemsFor(Flatten(pre), h) + own == own;
        } else {
          assert pre[k] == cs[k];
          assert last.hash != h;
          assert ItemsFor(Flatten(pre), h) + own == ItemsFor(Flatten(pre), h);
        }
      }
      if forall k :: 0 <= k < |cs| ==> cs[k].hash != h {
        assert last.hash != h;
        assert forall l :: 0 <= l < |pre| ==> pre[l].hash != h by {
          forall l | 0 <= l < |pre|
            ensures pre[l].hash != h
          {
            assert pre[l] == cs[l];
          }
        }
      }
    }
  }

  /**
   * What `findDiffItems` returns for a printed log of commits with distinct hashes: a key for
   * each commit with at least one item, holding exactly its items in order; a commit without
   * items, such as a merge commit, has no key; and there is no other key.
   */
  lemma DiffItemsOfLog(cs: seq<LogCommit>, m: map<string, seq<Item>>)
    requires forall k :: 0 <= k < |cs| ==> Printable(cs[k])
    requires forall k, l :: 0 <= k < l < |cs| ==> cs[k].hash != cs[l].hash
    requires Grouped(m, DiffEntries(NameStatusOutput(cs)))
    ensures forall k :: 0 <= k < |cs| ==> (cs[k].hash in m <==> cs[k].items != [])
    ensures forall k :: 0 <= k < |cs| && cs[k].hash in m ==> m[cs[k].hash] == cs[k].items
    ensures forall h :: h in m ==> exists k :: 0 <= k < |cs| && cs[k].hash == h
  {
    NameStatusRoundTrip(cs);
    forall k | 0 <= k < |cs|
      ensures ItemsFor(Flatten(cs), cs[k].hash) == cs[k].items
    {
      ItemsForFlatten(cs, cs[k].hash);
    }
    forall h | h in m
      ensures exists k :: 0 <= k < |cs| && cs[k].hash == h
    {
      ItemsForFlatten(cs, h);
    }
  }
}
