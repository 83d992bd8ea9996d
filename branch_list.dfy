/**
 * `findBranch`: the parse of `git show-ref --heads`, one `<hash> refs/heads/<name>` line per
 * branch, into a list of branches in reverse line order.
 */
module BranchList {
  import opened Wrappers
  import opened JsString
  import opened GitInterface
  import opened GitCommand

  const HEADS_PREFIX := "refs/heads/"

  /**
   * A non-empty line without a space leaves `sub[1]` undefined, and reading `.replace` of it
   * throws a TypeError, which ends the parse.
   */
  datatype BranchError = NoRefField(line: string)

  /**
   * One non-empty line: the hash is the text before the first space, and the name is the
   * second space-separated field, without one leading `refs/heads/`.
   */
  function ParseLine(line: string): (r: Result<Branch, BranchError>)
    ensures r.Err? <==> !Contains(line, " ")
    ensures r.Err? ==> r.error == NoRefField(line)
    ensures r.Ok? ==> StartsWith(line, r.value.latestCommit + " ") && !Contains(r.value.latestCommit, " ")
    ensures r.Ok? ==> !Contains(r.value.name, " ")
  {
    var sub := Split(line, " ");
    SplitCount(line, " ");
    if |sub| < 2 then Err(NoRefField(line))
    else
      SplitFirst(line, " ");
      SplitPiecesClean(line, " ");
      NoSpaceAfterRemovePrefix(sub[1]);
      Ok(Branch(RemovePrefix(sub[1], HEADS_PREFIX), sub[0]))
  }

  /**
   * The name of a parsed line is the field that follows the hash and its space, without one
   * leading `refs/heads/`; that field ends the line or is followed by another space.
   */
  lemma ParseLineName(line: string)
    requires ParseLine(line).Ok?
    ensures exists f :: !Contains(f, " ") && RemovePrefix(f, HEADS_PREFIX) == ParseLine(line).value.name
                        && (line == ParseLine(line).value.latestCommit + " " + f
                            || StartsWith(line, ParseLine(line).value.latestCommit + " " + f + " "))
  {
    var sub := Split(line, " ");
    SplitCount(line, " ");
    SplitFirst(line, " ");
    SplitPiecesClean(line, " ");
    var f := sub[1];
    assert !Contains(f, " ");
    if |sub| == 2 {
      assert sub[1..] == [f];
      assert line == sub[0] + " " + f;
    } else {
      assert sub[1..] == [f] + sub[2..];
      JoinCons(f, sub[2..], " ");
      var prefix := sub[0] + " " + f + " ";
      assert line == prefix + Join(sub[2..], " ");
      assert line[..|prefix|] == prefix;
    }
  }

  lemma NoSpaceAfterRemovePrefix(field: string)
    requires !Contains(field, " ")
    ensures !Contains(RemovePrefix(field, HEADS_PREFIX), " ")
  {
    if StartsWith(field, HEADS_PREFIX) {
      var r := RemovePrefix(field, HEADS_PREFIX);
      forall i: nat | i <= |r|
        ensures !OccursAt(r, " ", i)
      {
        if OccursAt(r, " ", i) {
          assert r[i..i + 1] == field[|HEADS_PREFIX| + i..|HEADS_PREFIX| + i + 1];
          assert OccursAt(field, " ", |HEADS_PREFIX| + i);
        }
      }
    }
  }

  /**
   * The result of `findBranch` after the given lines: lines are taken front to back, empty
   * ones are skipped, each parsed line goes to the front of the list (`unshift`), and the
   * first line that fails ends the parse with its error.
   */
  function Branches(lines: seq<string>): (r: Result<seq<Branch>, BranchError>)
    ensures r.Ok? ==> |r.value| <= |lines|
    ensures r.Err? ==> r.error.line != "" && !Contains(r.error.line, " ")
    decreases |lines|
  {
    if |lines| == 0 then Ok([])
    else
      var before := Branches(lines[..|lines| - 1]);
      var line := lines[|lines| - 1];
      if before.Err? || line == "" then before
      else match ParseLine(line)
        case Err(e) => Err(e)
        case Ok(b) => Ok([b] + before.value)
  }

  /** `findBranch()` given the captured output of `git show-ref --heads`. */
  method FindBranch(stdout: string) returns (r: Result<seq<Branch>, BranchError>)
    ensures r == Branches(Split(TrimOutput(stdout), "\n"))
    ensures TrimOutput(stdout) == "" ==> r == Ok([])
  {
    var data := TrimOutput(stdout);
    var result: seq<Branch> := [];
    // An empty repository prints nothing.
    if |data| != 0 {
      var lines := Split(data, "\n");
      var i := 0;
      while i < |lines|
        invariant 0 <= i <= |lines|
        invariant Branches(lines[..i]) == Ok(result)
      {
        var item := lines[i];
        assert lines[..i + 1][..i] == lines[..i];
        if item != "" {
          var sub := Split(item, " ");
          if |sub| < 2 {
            r := Err(NoRefField(item));
            assert Branches(lines[..i + 1]) == r;
            ErrorStops(lines, i + 1);
            assert lines[..|lines|] == lines;
            return;
          }
          result := [Branch(RemovePrefix(sub[1], HEADS_PREFIX), sub[0])] + result;
        }
        i := i + 1;
      }
      assert lines[..|lines|] == lines;
    }
    r := Ok(result);
  }

  /** Once a line has failed, the later lines do not change the outcome. */
  lemma {:induction false} ErrorStops(lines: seq<string>, n: nat)
    requires n <= |lines| && Branches(lines[..n]).Err?
    ensures Branches(lines) == Branches(lines[..n])
    decreases |lines| - n
  {
    if n < |lines| {
      var m := |lines| - 1;
      assert lines[..m][..n] == lines[..n];
      ErrorStops(lines[..m], n);
    } else {
      assert lines[..n] == lines;
    }
  }

  /** The parse fails exactly when some non-empty line has no space. */
  lemma {:induction false} BranchesFail(lines: seq<string>)
    ensures Branches(lines).Err? <==> exists k :: 0 <= k < |lines| && lines[k] != "" && !Contains(lines[k], " ")
    decreases |lines|
  {
    if |lines| > 0 {
      var m := |lines| - 1;
      BranchesFail(lines[..m]);
      assert forall k :: 0 <= k < m ==> lines[..m][k] == lines[k];
    }
  }

  /** The error names the first non-empty line of the input that has no space. */
  lemma {:induction false} ErrorNamesLine(lines: seq<string>)
    requires Branches(lines).Err?
    ensures exists k :: 0 <= k < |lines| && lines[k] == Branches(lines).error.line
                        && forall j :: 0 <= j < k ==> lines[j] == "" || Contains(lines[j], " ")
    decreases |lines|
  {
    var m := |lines| - 1;
    var init := lines[..m];
    if Branches(init).Err? {
      ErrorNamesLine(init);
      var k :| 0 <= k < m && init[k] == Branches(init).error.line
                && forall j :: 0 <= j < k ==> init[j] == "" || Contains(init[j], " ");
      assert forall j :: 0 <= j < k ==> lines[j] == init[j];
    } else {
      BranchesFail(init);
      assert forall j :: 0 <= j < m ==> lines[j] == init[j];
    }
  }

  /** `bs` holds the parses of the lines `ne`, the last line's first. */
  ghost predicate ReversePaired<T>(parse: string -> Result<T, BranchError>, ne: seq<string>, bs: seq<T>) {
    |bs| == |ne| && forall k :: 0 <= k < |ne| ==> parse(ne[|ne| - 1 - k]) == Ok(bs[k])
  }

  /**
   * A successful parse has one branch per non-empty line, in reverse line order: the k-th
   * branch is the parse of the k-th non-empty line counted from the end.
   */
  lemma {:induction false} BranchesInReverse(lines: seq<string>)
    requires Branches(lines).Ok?
    ensures ReversePaired(ParseLine, NonEmpty(lines), Branches(lines).value)
    decreases |lines|
  {
    if |lines| > 0 {
      var m := |lines| - 1;
      var init, last := lines[..m], lines[m];
      BranchesInReverse(init);
      if last != "" {
        var ne, ne0 := NonEmpty(lines), NonEmpty(init);
        var bs, bs0 := Branches(lines).value, Branches(init).value;
        var b := ParseLine(last).value;
        assert ne == ne0 + [last] && bs == [b] + bs0 by {
          assert lines == init + [last];
        }
        ReversedCons(ParseLine, ne0, bs0, last, b);
      } else {
        assert NonEmpty(lines) == NonEmpty(init) && Branches(lines) == Branches(init) by {
          assert lines == init + [last];
        }
      }
    }
  }

  /** Pairing one more line with a result put in front keeps the reverse pairing. */
  lemma ReversedCons<T>(parse: string -> Result<T, BranchError>, ne: seq<string>, bs: seq<T>, last: string, b: T)
    requires ReversePaired(parse, ne, bs) && parse(last) == Ok(b)
    ensures ReversePaired(parse, ne + [last], [b] + bs)
  {
    var ne', bs' := ne + [last], [b] + bs;
    forall k | 0 <= k < |ne'|
      ensures parse(ne'[|ne'| - 1 - k]) == Ok(bs'[k])
    {
      if k > 0 {
        assert ne'[|ne'| - 1 - k] == ne[|ne| - 1 - (k - 1)];
      }
    }
  }

  /** The line `git show-ref --heads` prints for a branch. */
  function ShowRefLine(b: Branch): string {
    b.latestCommit + " " + HEADS_PREFIX + b.name
  }

  /** The whole output of `git show-ref --heads` for the given branches, one line each. */
  function ShowRefOutput(bs: seq<Branch>): string {
    if |bs| == 0 then "" else ShowRefLine(bs[0]) + "\n" + ShowRefOutput(bs[1..])
  }

  function ShowRefLines(bs: seq<Branch>): (lines: seq<string>)
    ensures |lines| == |bs|
    ensures forall k :: 0 <= k < |bs| ==> lines[k] == ShowRefLine(bs[k])
  {
    if |bs| == 0 then [] else [ShowRefLine(bs[0])] + ShowRefLines(bs[1..])
  }

  function Reversed(bs: seq<Branch>): (r: seq<Branch>)
    ensures |r| == |bs|
    ensures forall k :: 0 <= k < |bs| ==> r[k] == bs[|bs| - 1 - k]
  {
    if |bs| == 0 then [] else [bs[|bs| - 1]] + Reversed(bs[..|bs| - 1])
  }

  /** Neither the hash nor the name holds a space or a line feed. */
  predicate PlainBranch(b: Branch) {
    !Contains(b.latestCommit, " ") && !Contains(b.latestCommit, "\n")
    && !Contains(b.name, " ") && !Contains(b.name, "\n")
  }

  /** A line printed for a plain branch parses back to that branch. */
  lemma ParseShowRefLine(b: Branch)
    requires PlainBranch(b)
    ensures ParseLine(ShowRefLine(b)) == Ok(b)
  {
    var field := HEADS_PREFIX + b.name;
    CharFree(HEADS_PREFIX, ' ');
    CharFreeConcat(HEADS_PREFIX, b.name, ' ');
    CharBorderless(' ');
    SplitAfterFirst(b.latestCommit, " ", field);
    SplitClean(field, " ");
    assert ShowRefLine(b) == b.latestCommit + " " + field;
    assert Split(ShowRefLine(b), " ") == [b.latestCommit, field];
    assert field[|HEADS_PREFIX|..] == b.name;
  }

  /** The output for a non-empty list is the join of its lines plus one final line feed. */
  lemma {:induction false} ShowRefOutputJoin(bs: seq<Branch>)
    requires |bs| > 0
    ensures ShowRefOutput(bs) == Join(ShowRefLines(bs), "\n") + "\n"
    decreases |bs|
  {
    if |bs| > 1 {
      ShowRefOutputJoin(bs[1..]);
      assert ShowRefLines(bs)[1..] == ShowRefLines(bs[1..]);
    }
  }

  /** Parsing the lines printed for plain branches gives the branches in reverse order. */
  lemma {:induction false} BranchesOfShowRefLines(bs: seq<Branch>)
    requires forall k :: 0 <= k < |bs| ==> PlainBranch(bs[k])
    ensures Branches(ShowRefLines(bs)) == Ok(Reversed(bs))
    decreases |bs|
  {
    if |bs| > 0 {
      var m := |bs| - 1;
      var lines := ShowRefLines(bs);
      BranchesOfShowRefLines(bs[..m]);
      assert lines[..m] == ShowRefLines(bs[..m]);
      ParseShowRefLine(bs[m]);
      assert lines[m] != "" by {
        assert |ShowRefLine(bs[m])| > 0;
      }
      assert Branches(lines) == Ok([bs[m]] + Reversed(bs[..m]));
      assert Reversed(bs) == [bs[m]] + Reversed(bs[..m]);
    }
  }

  /** A printed line of a plain branch holds no line feed. */
  lemma ShowRefLineSingle(b: Branch)
    requires PlainBranch(b)
    ensures !Contains(ShowRefLine(b), "\n")
  {
    CharFree(" " + HEADS_PREFIX, '\n');
    CharFreeConcat(b.latestCommit, " " + HEADS_PREFIX, '\n');
    assert b.latestCommit + " " + HEADS_PREFIX == b.latestCommit + (" " + HEADS_PREFIX);
    CharFreeConcat(b.latestCommit + " " + HEADS_PREFIX, b.name, '\n');
    assert ShowRefLine(b) == b.latestCommit + " " + HEADS_PREFIX + b.name;
  }

  /**
   * Round trip: for branches whose hashes and names hold no space or line feed, `findBranch`
   * on the output `git show-ref --heads` prints for them returns exactly those branches,
   * with the order reversed.
   */
  lemma ShowRefRoundTrip(bs: seq<Branch>)
    requires forall k :: 0 <= k < |bs| ==> PlainBranch(bs[k])
    ensures Branches(Split(TrimOutput(ShowRefOutput(bs)), "\n")) == Ok(Reversed(bs))
  {
    if |bs| == 0 {
      assert Split("", "\n") == [""];
    } else {
      var lines := ShowRefLines(bs);
      assert TrimOutput(ShowRefOutput(bs)) == Join(lines, "\n") by {
        ShowRefOutputJoin(bs);
        TrimOneNewline(Join(lines, "\n"));
      }
      assert Split(Join(lines, "\n"), "\n") == lines by {
        CharBorderless('\n');
        forall k | 0 <= k < |bs|
          ensures !Contains(lines[k], "\n")
        {
          ShowRefLineSingle(bs[k]);
        }
        JoinSplit(lines, "\n");
      }
      BranchesOfShowRefLines(bs);
    }
  }
}
