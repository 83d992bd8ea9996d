# git-util parsers in Dafny

`class Git` (`src/git.ts`) wraps a bare repository. Each public method spawns one `git`
command, collects its standard output and hands it to a callback that turns the text into
JavaScript values. This project models those callbacks as functions on the captured output,
together with the two pieces of plain logic every command shares:

- the constructor's repository-name rule: `.git` is appended unless the name already ends
  with it;
- the removal of one final line feed from the output before any callback sees it.

The five parsers are modelled the way they are written. Two of them are pure string
functions: `findHead` and the per-line work of `findBranch`. The callbacks that loop and
accumulate become methods with loops and invariants, each proved equal to a recursive
specification function:

- `findBranch`
- `findCommit`
- `findDiffItems`, including its nested `forEach` that fills a record
- `findDiffInfo`, including its `for` loop over directory prefixes

`updateHead` contributes the ref string it writes.

The JavaScript string operations are modelled with their own semantics in `JsString`:
`split` on a non-empty separator, `join`, `slice` with clamped bounds, `filter(item => item)`
and `replace` of an anchored prefix. `undefined` becomes `None` or an error value. A
`TypeError` thrown while reading a missing field becomes an `Err` result.

For each parser the model proves what it does to the text `git` prints. It builds that whole
output from the values, parses it back and compares. The results:

- branches come back in reverse order;
- commits come back exactly, provided no field holds a marker;
- the diff items are grouped by commit hash;
- on a whole `git diff-tree` output (the commit id line, then the raw lines), the id line
  yields nothing, a deletion yields nothing, and every other change yields its new object id,
  its status, its path and the directories above the path, in output order.

On a detached HEAD, `git symbolic-ref HEAD` prints nothing on its standard output. The exit
status is never looked at, so `findHead` reports a tag head without a name. The model does the
same, and `FindHead` states it.

Modules: `Wrappers`, `JsString`, `GitInterface`, `GitCommand`, `HeadRef`, `BranchList`, `CommitLog`, `NameStatus`,
`DiffTree`. `GitInterface` holds the records the parsers produce. `Branch`, `Head` and `Commit`
follow the types of `src/git.interface.ts`. `Item` is imported by `src/git.ts` but declared in
none of its files, so it follows the object literal built at `src/git.ts:164-167`.

## Model

| member | source | states |
|---|---|---|
| GitCommand.WithGitSuffix | src/git.ts:9-11 | The name always ends with `.git`. It begins with the given name. It is unchanged exactly when the given name already ended with `.git`. |
| GitCommand.Git.constructor | src/git.ts:8-13 | The handle keeps the root path and the name with `.git` appended when it is missing, so its name ends with `.git`. |
| GitCommand.TrimOutput | src/git.ts:57 | Output that ends with a line feed loses exactly that one line feed. Any other output is passed on unchanged. |
| GitCommand.TrimOneNewline | src/git.ts:57 | Only one line feed is removed: text ending in two line feeds keeps one of them. |
| JsString.Split | src/git.ts:72 | `split` always yields at least one piece. |
| JsString.SplitJoin | src/git.ts:72 | Joining the pieces of a split with the separator gives back the split string. |
| JsString.JoinSplit | src/git.ts:72 | Pieces free of a non-overlapping separator are exactly what splitting their join gives. |
| JsString.SplitPiecesClean | src/git.ts:75 | No piece of a split holds the separator. |
| JsString.SplitCount | src/git.ts:75-76 | A split has a second piece exactly when the separator occurs. |
| JsString.NonEmpty | src/git.ts:156 | The filter keeps exactly the non-empty strings and never lengthens the list. |
| JsString.NonEmptyAppend | src/git.ts:156 | Filtering a concatenation concatenates the filtered halves, so the filter keeps order. |
| JsString.NonEmptyKeepsAll | src/git.ts:156 | A list of non-empty strings passes the filter unchanged, with order and repetitions kept. |
| JsString.Slice | src/git.ts:189-195 | `slice` gives the substring for in-range bounds. An end past the length is clamped, giving the rest of the string. The result is empty when the start is past the length or not before the end. |
| JsString.RemovePrefix | src/git.ts:76 | The anchored `replace` removes one leading occurrence of the prefix, or leaves a string without it unchanged. |
| HeadRef.HeadRefFor | src/git.ts:92-96 | The ref written for a name starts with `refs/tags/` or `refs/heads/`, as the flag asks, and ends with the name. |
| HeadRef.ParseHead | src/git.ts:103-107 | The name is present exactly when the ref has at least three `/`-segments, and it never contains `/`. |
| HeadRef.FindHead | src/git.ts:99-110 | `findHead()` on the captured output: a name never contains `/`. Output that trims to nothing, as on a detached HEAD, gives a tag head without a name. |
| HeadRef.RefSegments | src/git.ts:92-96 | The written ref splits into `refs`, the kind, and the segments of the name. |
| HeadRef.ParseRef | src/git.ts:103-107 | A ref with segments `refs`, a kind and more is a commit head exactly when the kind is `heads`. Its name is the first of the further segments. |
| HeadRef.HeadRoundTrip | src/git.ts:92-107 | Reading HEAD back after `updateHead(name, tag)` gives the requested kind and the first `/`-segment of the name. |
| HeadRef.HeadRoundTripPlain | src/git.ts:92-107 | For a name without `/`, reading HEAD back gives the requested kind and the whole name. |
| HeadRef.NestedBranchTruncated | src/git.ts:103-106 | HEAD on `<dir>/<leaf>` is reported with the name `<dir>`, which differs from the name written. |
| HeadRef.ParseHeadFull | src/git.ts:103-107 | The corrected parse has a name exactly when the as-written parse does, and gives the same kind. |
| HeadRef.FindHeadFull | src/git.ts:99-110 | The corrected `findHead()` gives the same kind as the as-written one and has a name exactly when it does. That name begins with the as-written name. |
| HeadRef.HeadRoundTripFull | src/git.ts:92-107 | With the corrected parse, reading HEAD back gives the requested kind and the whole name, for every name. |
| HeadRef.FullAgreesOnPlainNames | src/git.ts:103-107 | For names without `/`, the corrected parse and the as-written parse agree. |
| BranchList.ParseLine | src/git.ts:74-81 | A line fails exactly when it has no space, and the error names that line. Otherwise the hash is the text before the first space and holds no space, and the name holds no space. |
| BranchList.ParseLineName | src/git.ts:75-77 | The name is the field after the hash and its space, with one leading `refs/heads/` removed. That field holds no space, and it either ends the line or is followed by a space. |
| BranchList.NoSpaceAfterRemovePrefix | src/git.ts:76 | Removing the `refs/heads/` prefix from a field without spaces leaves a name without spaces. |
| BranchList.Branches | src/git.ts:71-85 | The `forEach` with `unshift`: a successful parse has at most one branch per line. A failure names a non-empty line without a space. |
| BranchList.FindBranch | src/git.ts:65-88 | The loop returns what the list specification gives for the trimmed output's lines. Empty output gives an empty list. |
| BranchList.ErrorStops | src/git.ts:73-83 | Once a line has failed, the later lines do not change the outcome. |
| BranchList.BranchesFail | src/git.ts:74-76 | The parse fails exactly when some non-empty line has no space. |
| BranchList.ErrorNamesLine | src/git.ts:73-83 | The error names the first non-empty line of the input that has no space. |
| BranchList.BranchesInReverse | src/git.ts:73-82 | A successful parse has one branch per non-empty line, in reverse line order: the k-th branch parses from the k-th non-empty line counted from the end. |
| BranchList.ReversedCons | src/git.ts:78 | Putting the parse of one more line at the front keeps the reverse pairing. |
| BranchList.ShowRefLines | src/git.ts:68 | One printed line per branch, in order. |
| BranchList.Reversed | src/git.ts:78 | The k-th element is the k-th from the end. |
| BranchList.ParseShowRefLine | src/git.ts:74-81 | The line printed for a branch without spaces or line feeds parses back to that branch. |
| BranchList.ShowRefOutputJoin | src/git.ts:68-72 | The printed output is the join of its lines plus one final line feed. |
| BranchList.BranchesOfShowRefLines | src/git.ts:73-83 | Parsing the printed lines gives the branches in reverse order. |
| BranchList.ShowRefLineSingle | src/git.ts:72 | A printed line holds no line feed. |
| BranchList.ShowRefRoundTrip | src/git.ts:65-88 | `findBranch` on the output of `git show-ref --heads` returns exactly the printed branches, reversed. |
| CommitLog.Groups | src/git.ts:130-132 | Captured lazy groups number one per terminator and, with their terminators, spell a prefix of the text. |
| CommitLog.Lazy | src/git.ts:130-132 | A lazy group that starts at a given length yields groups spelling a prefix of the text. |
| CommitLog.SearchFrom | src/git.ts:130-132 | A match yields five groups, and the field marker followed by the groups and their terminators occurs in the chunk. |
| CommitLog.EncodeRecord | src/git.ts:116 | A record begins with `{@}`, the committer name and `{@}`, and ends with a line feed and `{@}`. |
| CommitLog.InterleaveEnds | src/git.ts:131 | Groups and their terminators end with the last terminator. |
| CommitLog.ParseChunk | src/git.ts:130-141 | The commit a chunk yields, printed back with the format string, occurs in the chunk. |
| CommitLog.ChunkCommits | src/git.ts:124-141 | A chunk gives at most one commit, and an empty chunk gives none. A commit it gives, printed back, occurs in the chunk. |
| CommitLog.Commits | src/git.ts:122-143 | The `forEach` with `push`: there are never more commits than non-empty chunks. |
| CommitLog.CollectAtMostNonEmpty | src/git.ts:123-143 | When each chunk gives at most one result and an empty chunk none, there are no more results than non-empty chunks. |
| CommitLog.FindCommit | src/git.ts:112-147 | The loop returns the commits of the chunks of the trimmed output split on `{end}`. Empty output gives none. |
| CommitLog.CommitsStep | src/git.ts:123-143 | One more chunk adds its own commits after those of the earlier chunks. |
| CommitLog.MarkersBorderless | src/git.ts:116 | `{@}`, a line feed followed by `{@}`, and `{end}` never overlap themselves. |
| CommitLog.LazySkip | src/git.ts:131 | A lazy group passes over lengths at which its terminator does not follow. |
| CommitLog.GroupsExact | src/git.ts:131 | When no field holds its terminator, the lazy groups capture exactly the fields, whatever follows. |
| CommitLog.SearchSkip | src/git.ts:131 | The search passes over positions where no field marker stands. |
| CommitLog.ChunkRoundTrip | src/git.ts:116-141 | After text without a field marker, the record printed for a well-formed commit parses back to that commit. |
| CommitLog.CommitsAppend | src/git.ts:123-143 | The commits of two runs of chunks are those of the first run followed by those of the second. |
| CommitLog.CollectAppend | src/git.ts:123-143 | Collecting over two runs of chunks concatenates the results. |
| CommitLog.Records | src/git.ts:116 | One printed record per commit, in order. |
| CommitLog.LogTextEndsWithNewline | src/git.ts:116 | The printed log is its trimmed form plus one line feed. |
| CommitLog.SplitTrimmedLog | src/git.ts:122 | Splitting the trimmed log on `{end}` gives one chunk per record and one final empty piece. |
| CommitLog.SplitStep | src/git.ts:122 | A piece without `{end}`, followed by `{end}`, comes off the front of the split. |
| CommitLog.CommitsOfLogChunks | src/git.ts:123-143 | The chunks of well-formed records give back their commits. |
| CommitLog.CommitsCons | src/git.ts:123-143 | A chunk in front adds its commits in front. |
| CommitLog.RecordChunk | src/git.ts:124-141 | A well-formed record's chunk, with or without a leading line feed, gives exactly its commit. |
| CommitLog.LogSplitsIntoChunks | src/git.ts:57-122 | The trimmed output splits into the records' chunks and one empty piece. |
| CommitLog.TrimLog | src/git.ts:57 | Trimming a non-empty log removes exactly its final line feed. |
| CommitLog.CommitsOfEmptyChunk | src/git.ts:124 | An empty chunk contributes no commit. |
| CommitLog.RecordLayout | src/git.ts:116 | A record is the five fields, each after `{@}`, then a line feed and `{@}`. |
| CommitLog.InterleaveCons | src/git.ts:131 | One group and its terminator come in front of the rest. |
| CommitLog.MarkerFreeOfEnd | src/git.ts:116 | A marker shorter than `{end}` cannot hold it. |
| CommitLog.RecordFreeOfEnd | src/git.ts:116-122 | When no field holds `{end}`, neither does the record, because `{end}` cannot straddle a field and a marker. |
| CommitLog.RecordsFreeOfEnd | src/git.ts:116-122 | No record of such commits holds `{end}`. |
| CommitLog.ChunksRoundTrip | src/git.ts:122-144 | The records' chunks and one empty piece give back the commits. |
| CommitLog.LogRoundTrip | src/git.ts:112-147 | `findCommit` on the output `git log` prints for well-formed commits, none of whose fields holds `{end}`, returns exactly those commits, in order. |
| NameStatus.ParseItem | src/git.ts:163-168 | A line without a tab gives no item. An item has a non-empty name, neither field holds a tab, and the line begins with status, tab, name. |
| NameStatus.ParseItemLine | src/git.ts:163-168 | `status<TAB>name`, alone or followed by further fields, gives back that status and name. |
| NameStatus.LineEntries | src/git.ts:162-174 | At most one item per line, each filed under the commit's hash. |
| NameStatus.ChunkEntries | src/git.ts:157-174 | A chunk's items are all filed under its first non-empty line, the hash, and there are fewer items than non-empty lines. No hash is empty or holds a line feed. |
| NameStatus.Entries | src/git.ts:155-175 | No item is filed under an empty hash or a hash holding a line feed. |
| NameStatus.DiffEntries | src/git.ts:154-160 | The items after the output is trimmed and split on `{start}`, keeping the non-empty chunks. |
| NameStatus.ItemsFor | src/git.ts:169-172 | A hash never has more items than there are entries. |
| NameStatus.Grouped | src/git.ts:169-172 | In a grouped map, every list is non-empty and no longer than the entries. |
| NameStatus.GroupMap | src/git.ts:169-172 | The pushes never leave an empty list under a key. |
| NameStatus.GroupMapGrouped | src/git.ts:169-172 | The pushes give a key exactly for each hash with items, holding that hash's items in order. |
| NameStatus.GroupedPush | src/git.ts:169-172 | Pushing one item onto its hash's list, created on first use, keeps the map grouped. |
| NameStatus.NoEntries | src/git.ts:154-156 | Output that trims to nothing yields no items. |
| NameStatus.EntriesStep | src/git.ts:159-175 | One more chunk adds its items after those of the earlier chunks. |
| NameStatus.LineEntriesStep | src/git.ts:162-174 | One more line adds its item, if it has one, after the earlier items. |
| NameStatus.GroupMapSnoc | src/git.ts:169-172 | One more entry pushes its item onto its hash's list. |
| NameStatus.PushItems | src/git.ts:162-174 | The inner loop builds the map that grouping the earlier entries and this commit's items gives. |
| NameStatus.PushChunk | src/git.ts:159-174 | One chunk's work: its first non-empty line is the hash and the rest are item lines. A chunk without lines changes nothing. |
| NameStatus.FindDiffItems | src/git.ts:149-179 | The record holds a key exactly for each hash with items, holding that hash's items in output order. Empty output gives an empty record. |
| NameStatus.ItemLines | src/git.ts:151 | One printed line per item, in order. |
| NameStatus.CommitEntries | src/git.ts:161-172 | One entry per item, under the commit's hash. |
| NameStatus.ItemLineClean | src/git.ts:163-168 | A printable item's line holds no line feed and no `{start}`, and parses back to the item. |
| NameStatus.StartBorderless | src/git.ts:155 | `{start}` never overlaps itself. |
| NameStatus.BodyLines | src/git.ts:157 | A printable commit's text splits into its hash, a blank line and its item lines, and holds no `{start}`. |
| NameStatus.BodyNonEmptyLines | src/git.ts:157-160 | The non-empty lines of a commit's text are its hash and its item lines. |
| NameStatus.BodyPiecesNonEmpty | src/git.ts:160 | The filter drops the blank line and a final empty piece and keeps the hash and the item lines. |
| NameStatus.BodyEntries | src/git.ts:159-174 | A printable commit's text yields exactly its items under its hash. |
| NameStatus.ItemLineEntries | src/git.ts:162-174 | The first n item lines yield the commit's first n entries. |
| NameStatus.ItemLineStep | src/git.ts:162-174 | A printable item's line adds exactly that item. |
| NameStatus.CommitEntriesSnoc | src/git.ts:172 | A commit's first n entries are its first n - 1 entries followed by the n-th. |
| NameStatus.OutputJoin | src/git.ts:151-155 | The printed log is the commits' texts joined by `{start}` after an empty piece. |
| NameStatus.TextsSnoc | src/git.ts:151 | The last commit's text comes after those of the others. |
| NameStatus.Texts | src/git.ts:151 | One text per commit, in order: its body and a line feed. |
| NameStatus.TextsEntries | src/git.ts:155-175 | The commits' texts yield their items, commit by commit. |
| NameStatus.NameStatusRoundTrip | src/git.ts:149-175 | The items parsed from the printed log are the printed commits' items, in order. |
| NameStatus.PrintedEntries | src/git.ts:154-175 | The items of a non-empty printed log are those of its commits. |
| NameStatus.OutputEntries | src/git.ts:154-175 | A non-empty printed log yields the items of the earlier commits' texts, then those of the last body. |
| NameStatus.EmptyLogEntries | src/git.ts:154-156 | An empty log yields no items. |
| NameStatus.TrimmedChunks | src/git.ts:57-156 | The chunks kept from the trimmed output are the commits' texts, the last one without its final line feed. |
| NameStatus.TrimmedOutput | src/git.ts:57 | Trimming drops the last commit's final line feed. |
| NameStatus.TrimmedPieces | src/git.ts:155 | One more piece than commits: an empty one in front. |
| NameStatus.PiecesFree | src/git.ts:155 | No piece of the trimmed output holds `{start}`. |
| NameStatus.ChunksOfOutput | src/git.ts:155-156 | The filter keeps exactly the commits' texts, and their items follow one another. |
| NameStatus.ItemsForAppend | src/git.ts:169-172 | A hash's items from two runs of entries are concatenated. |
| NameStatus.ItemsForCommitPrefix | src/git.ts:169-172 | A commit's first n entries file its first n items under its own hash and nothing under any other hash. |
| NameStatus.ItemsForSnoc | src/git.ts:169-172 | One more entry adds its item under its own hash only. |
| NameStatus.ItemsForCommit | src/git.ts:169-172 | A commit's entries file its items under its own hash only. |
| NameStatus.ItemsForLast | src/git.ts:169-172 | The last commit's items are added under its hash. |
| NameStatus.ItemsForFlatten | src/git.ts:169-172 | With distinct hashes, each hash holds its own commit's items, and any other hash holds none. |
| NameStatus.DiffItemsOfLog | src/git.ts:149-179 | For a printed log of commits with distinct hashes, the record holds a key exactly for each commit with items, holding its items in order, and no other key. |
| DiffTree.AncestorDirs | src/git.ts:196-203 | One directory per segment but the last. The i-th joins the first i + 1 segments with `/`. |
| DiffTree.DirectoryPrefixes | src/git.ts:196-203 | The `for` loop yields exactly the directories above the path. |
| DiffTree.GrowName | src/git.ts:200-202 | Adding one segment to the growing name gives the next directory. |
| DiffTree.AncestorPrefix | src/git.ts:196-203 | Each directory followed by `/` begins the path. It is shorter than the path unless the path ends with `/`. |
| DiffTree.NoAncestors | src/git.ts:196-199 | A path without `/` has no directories above it. |
| DiffTree.AncestorsNested | src/git.ts:199-203 | Each directory followed by `/` begins every later directory. |
| DiffTree.ParseRawLine | src/git.ts:187-203 | A line gives a value exactly when it begins with `:` and its status slice is not `D`. A long line is its fixed-offset pieces. The id has at most 40 characters and the status at most one. The directories are those above the path. |
| DiffTree.LineLayout | src/git.ts:189-195 | A line long enough to hold a path is the concatenation of its fixed-offset pieces. |
| DiffTree.RawLineRoundTrip | src/git.ts:187-203 | For 6-character modes, 40-character ids and a one-character status, a `D` line gives nothing. Any other line gives back its new id, status and path. |
| DiffTree.DiffInfos | src/git.ts:186-205 | At most one value per line. |
| DiffTree.FindDiffInfo | src/git.ts:181-209 | The loop yields the values of the trimmed output's lines, in line order. |
| DiffTree.OnlyRawLines | src/git.ts:187 | Lines that do not begin with `:` yield nothing. |
| DiffTree.ChangeLines | src/git.ts:183 | One raw line per change, in order. |
| DiffTree.Reported | src/git.ts:186-205 | At most one value per change. |
| DiffTree.DiffTreeRoundTrip | src/git.ts:181-209 | On the whole output for a commit id that does not begin with `:` and well-formed changes, the parse yields one value per change that is not a deletion, in order: its new id, status, path and directories. |
| DiffTree.InfosOfLines | src/git.ts:186-205 | The id line yields nothing, and each change line yields what its change stands for. |
| DiffTree.ChangeLineClean | src/git.ts:186 | A well-formed change's line holds no line feed. |
| DiffTree.LinesSnoc | src/git.ts:186 | The lines of one more change end with that change's line. |
| DiffTree.InfosSnoc | src/git.ts:186-205 | One more line adds its value, if it yields one. |

## Left out

- Spawning `git`: the child process, its working directory and the `exception` handlers. The promise plumbing is also left out. Every command is modelled from its captured standard output, given as a string. The UTF-8 decoding of the output buffers is not modelled.
- `path.join(rootPath, repoName)`: the handle keeps the root path and the repository name separately, because the path library is not part of this model.
- `updateHead` beyond the ref string it passes to `git symbolic-ref`. The command's effect on the repository is outside the model.
- `new Date(match[2])`: `Commit.time` keeps the text `git` printed. JavaScript date parsing is not modelled.
- `findDiffInfo`'s `console.log` calls: the model returns the id, status, path and directory list it computes for each line, where the source prints the directories and discards the rest. Printing the whole output is not modelled.
- The record `findDiffItems` builds is a Dafny `map`. JavaScript's key order is not modelled, and neither is the lookup of inherited keys such as `constructor` through `!map[commitHash]`.
- The `--format` strings and the `-<limit>` option are arguments to `git`. The printed outputs the round-trip lemmas start from are written out in the model: `ShowRefOutput`, `LogOutput`, `NameStatusOutput` and `DiffTreeOutput`. How many commits `git log` prints is not modelled.
- `src/language.ts`, `src/lib.ts` and `src/utils.ts` are not part of this model. `src/git.interface.ts` contributes its `Branch`, `Head` and `Commit` types.
- The regular expression of `findCommit` is modelled for what it is used on: a leftmost match, then lazy groups that try the shortest capture first. It is not a general regular-expression engine.
- `DiffTree.AncestorPrefix`: a directory is a proper prefix of the path only when the path does not end with `/`. Paths printed by `git` do not end with `/`.
- `NameStatus.ItemsFor`: its own contract only bounds the length. What it holds is stated by `GroupMapGrouped`, `ItemsForCommit` and `ItemsForFlatten`.
- `CommitLog.LogRoundTrip`: the exact round trip needs the field-marker and end-marker conditions. A commit message that holds a line feed followed by `{@}`, or that holds `{end}`, is parsed differently, as the source's regular expression does.

## Findings

| source | as written | input that shows it | evidently intended | confidence | as-written member | corrected member |
|---|---|---|---|---|---|---|
| src/git.ts:103-105 | The branch name is `sub[2]`, the third `/`-segment of the ref. | HEAD at `refs/heads/feature/login` reports the name `feature`. | The name is everything after `refs/heads/`, so a branch switched to with `updateHead("feature/login")` reads back as `feature/login`. | medium; not executed | HeadRef.NestedBranchTruncated | HeadRef.HeadRoundTripFull |
