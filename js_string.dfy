/**
 * The JavaScript string operations the parsers rely on, on `string` (a `seq<char>`):
 * `indexOf`, `split` with a non-empty string separator, `Array.prototype.join`,
 * `slice` with its index clamping, `filter(item => item)` on strings, and
 * `replace(/^p/, "")`.
 */
module JsString {
  import opened Wrappers

  /** `w` occurs in `s` starting at index `i`. */
  predicate OccursAt(s: string, w: string, i: nat) {
    i + |w| <= |s| && s[i..i + |w|] == w
  }

  /** `w` occurs somewhere in `s`. */
  predicate Contains(s: string, w: string) {
    exists i: nat :: i <= |s| && OccursAt(s, w, i)
  }

  predicate StartsWith(s: string, p: string) {
    |p| <= |s| && s[..|p|] == p
  }

  predicate EndsWith(s: string, p: string) {
    |p| <= |s| && s[|s| - |p|..] == p
  }

  /** `w[..b]` is also a suffix of `w`. */
  predicate IsBorder(w: string, b: nat)
    requires b <= |w|
  {
    w[..b] == w[|w| - b..]
  }

  /**
   * No proper non-empty prefix of `w` is also a suffix of `w`, so two occurrences of `w`
   * never overlap. Every one-character separator is borderless, and so are the markers
   * the git format strings use.
   */
  predicate Borderless(w: string) {
    forall b: nat :: 0 < b < |w| ==> !IsBorder(w, b)
  }

  /** `s.indexOf(w, k)`: the first occurrence of `w` at or after `k`. */
  function IndexFrom(s: string, w: string, k: nat): (r: Option<nat>)
    decreases |s| - k
    ensures r.Some? ==> k <= r.value && OccursAt(s, w, r.value)
    ensures r.Some? ==> forall j: nat :: k <= j < r.value ==> !OccursAt(s, w, j)
    ensures r.None? ==> forall j: nat :: k <= j ==> !OccursAt(s, w, j)
  {
    if k + |w| > |s| then None
    else if OccursAt(s, w, k) then Some(k)
    else IndexFrom(s, w, k + 1)
  }

  /** `s.indexOf(w)`: `None` when `w` does not occur, otherwise its first position. */
  function IndexOf(s: string, w: string): (r: Option<nat>)
    ensures r.None? <==> !Contains(s, w)
    ensures r.Some? ==> OccursAt(s, w, r.value) && forall j: nat :: j < r.value ==> !OccursAt(s, w, j)
  {
    IndexFrom(s, w, 0)
  }

  /** `s.split(sep)` for a non-empty separator: the pieces between occurrences, left to right. */
  function Split(s: string, sep: string): (parts: seq<string>)
    requires sep != ""
    ensures |parts| >= 1
    decreases |s|
  {
    match IndexOf(s, sep)
    case None => [s]
    case Some(i) => [s[..i]] + Split(s[i + |sep|..], sep)
  }

  /** `parts.join(sep)`. */
  function Join(parts: seq<string>, sep: string): string {
    if |parts| == 0 then ""
    else if |parts| == 1 then parts[0]
    else parts[0] + sep + Join(parts[1..], sep)
  }

  /** `strings.filter(item => item)`: the empty string is falsy, every other string is kept. */
  function NonEmpty(strs: seq<string>): (r: seq<string>)
    ensures forall x :: x in r <==> x in strs && x != ""
    ensures |r| <= |strs|
  {
    if |strs| == 0 then []
    else if strs[|strs| - 1] == "" then NonEmpty(strs[..|strs| - 1])
    else NonEmpty(strs[..|strs| - 1]) + [strs[|strs| - 1]]
  }

  /** `s.slice(start, end)`: both bounds are clamped to the length, and an empty range gives "". */
  function Slice(s: string, start: nat, end: nat): (r: string)
    ensures start <= end <= |s| ==> r == s[start..end]
    ensures start <= |s| <= end ==> r == s[start..]
    ensures |s| <= start || end <= start ==> r == ""
  {
    var a := if start <= |s| then start else |s|;
    var b := if end <= |s| then end else |s|;
    if b <= a then "" else s[a..b]
  }

  /** `s.replace(/^p/, "")`: removes one leading `p`, if there is one. */
  function RemovePrefix(s: string, p: string): (r: string)
    ensures StartsWith(s, p) ==> p + r == s
    ensures !StartsWith(s, p) ==> r == s
  {
    if StartsWith(s, p) then s[|p|..] else s
  }

  // ---------------------------------------------------------------------------
  // Split and Join

  /** Joining the pieces of a split with the separator gives back the original string. */
  lemma {:induction false} SplitJoin(s: string, sep: string)
    requires sep != ""
    ensures Join(Split(s, sep), sep) == s
    decreases |s|
  {
    var idx := IndexOf(s, sep);
    if idx.Some? {
      var i := idx.value;
      var rest := s[i + |sep|..];
      BeforeFirst(s, sep, i);
      SplitJoin(rest, sep);
      assert Split(s, sep) == [s[..i]] + Split(rest, sep);
      JoinCons(s[..i], Split(rest, sep), sep);
    } else {
      assert Split(s, sep) == [s];
    }
  }

  /** One piece in front of at least one other. */
  lemma JoinCons(p: string, ps: seq<string>, sep: string)
    requires |ps| >= 1
    ensures Join([p] + ps, sep) == p + sep + Join(ps, sep)
  {
    assert ([p] + ps)[1..] == ps;
  }

  /**
   * When a split has several pieces, the string is the first piece, the separator, and the
   * join of the rest; the first piece is free of the separator.
   */
  lemma SplitFirst(s: string, sep: string)
    requires sep != "" && |Split(s, sep)| > 1
    ensures s == Split(s, sep)[0] + sep + Join(Split(s, sep)[1..], sep)
    ensures !Contains(Split(s, sep)[0], sep)
  {
    SplitJoin(s, sep);
    SplitPiecesClean(s, sep);
  }

  /** An occurrence inside a prefix of `s` is an occurrence in `s`. */
  lemma OccursInPrefix(s: string, w: string, n: nat, j: nat)
    requires n <= |s| && OccursAt(s[..n], w, j)
    ensures OccursAt(s, w, j)
  {
    assert s[..n][j..j + |w|] == s[j..j + |w|];
  }

  /** No piece of a split contains the separator. */
  lemma {:induction false} SplitPiecesClean(s: string, sep: string)
    requires sep != ""
    ensures forall k :: 0 <= k < |Split(s, sep)| ==> !Contains(Split(s, sep)[k], sep)
    decreases |s|
  {
    match IndexOf(s, sep)
    case None =>
    case Some(i) =>
      var rest := s[i + |sep|..];
      SplitPiecesClean(rest, sep);
      forall j: nat | j <= i
        ensures !OccursAt(s[..i], sep, j)
      {
        if OccursAt(s[..i], sep, j) {
          OccursInPrefix(s, sep, i, j);
        }
      }
  }

  /** `s.split(sep)` has more than one piece exactly when `sep` occurs in `s`. */
  lemma SplitCount(s: string, sep: string)
    requires sep != ""
    ensures |Split(s, sep)| > 1 <==> Contains(s, sep)
  {
  }

  /**
   * An occurrence of `w` in `a + w + rest` that starts inside `a` either lies within `a`
   * or overlaps the appended `w`, and then `w` has a border.
   */
  lemma EarlyOccurrence(a: string, w: string, rest: string, j: nat)
    requires j < |a| && OccursAt(a + w + rest, w, j)
    ensures Contains(a, w) || exists c: nat :: 0 < c < |w| && IsBorder(w, c)
  {
    var s := a + w + rest;
    if j + |w| <= |a| {
      assert s[j..j + |w|] == a[j..j + |w|];
      assert OccursAt(a, w, j);
    } else {
      var b := |a| - j;
      var c := |w| - b;
      // The window at j covers the last b characters of a and then w[..c].
      forall t | 0 <= t < c
        ensures w[t] == w[b + t]
      {
        assert s[j + b + t] == w[b + t];
        assert s[|a| + t] == w[t];
      }
      assert w[..c] == w[|w| - c..];
      assert IsBorder(w, c);
    }
  }

  /** With `a` free of a borderless separator, the first piece of `a + sep + rest` is `a`. */
  lemma SplitAfterFirst(a: string, sep: string, rest: string)
    requires sep != "" && Borderless(sep) && !Contains(a, sep)
    ensures Split(a + sep + rest, sep) == [a] + Split(rest, sep)
  {
    var s := a + sep + rest;
    forall j: nat | j < |a|
      ensures !OccursAt(s, sep, j)
    {
      if OccursAt(s, sep, j) {
        EarlyOccurrence(a, sep, rest, j);
      }
    }
    assert OccursAt(s, sep, |a|) by {
      assert s[|a|..|a| + |sep|] == sep;
    }
    assert IndexOf(s, sep) == Some(|a|);
    assert s[..|a|] == a;
    assert s[|a| + |sep|..] == rest;
  }

  /** Two separator-free pieces in front come off a split one after the other. */
  lemma SplitAfterTwo(a: string, b: string, sep: string, rest: string)
    requires sep != "" && Borderless(sep) && !Contains(a, sep) && !Contains(b, sep)
    ensures Split(a + sep + b + sep + rest, sep) == [a, b] + Split(rest, sep)
  {
    assert a + sep + b + sep + rest == a + sep + (b + sep + rest);
    SplitAfterFirst(a, sep, b + sep + rest);
    SplitAfterFirst(b, sep, rest);
  }

  /** A string free of the separator splits into itself alone. */
  lemma SplitClean(a: string, sep: string)
    requires sep != "" && !Contains(a, sep)
    ensures Split(a, sep) == [a]
  {
  }

  /**
   * Splitting the join of separator-free pieces gives back the pieces: for a borderless
   * separator, split and join are inverse.
   */
  lemma {:induction false} JoinSplit(parts: seq<string>, sep: string)
    requires sep != "" && Borderless(sep) && |parts| >= 1
    requires forall k :: 0 <= k < |parts| ==> !Contains(parts[k], sep)
    ensures Split(Join(parts, sep), sep) == parts
  {
    if |parts| == 1 {
      SplitClean(parts[0], sep);
    } else {
      JoinSplit(parts[1..], sep);
      SplitAfterFirst(parts[0], sep, Join(parts[1..], sep));
    }
  }

  /** A string none of whose characters is `c` does not contain `[c]`. */
  lemma CharFree(s: string, c: char)
    requires forall k :: 0 <= k < |s| ==> s[k] != c
    ensures !Contains(s, [c])
  {
    forall i: nat | i <= |s|
      ensures !OccursAt(s, [c], i)
    {
      if i + 1 <= |s| {
        assert s[i..i + 1] == [s[i]];
      }
    }
  }

  /** A one-character string occurs exactly where that character stands. */
  lemma ContainsChar(s: string, c: char)
    ensures Contains(s, [c]) <==> exists k :: 0 <= k < |s| && s[k] == c
  {
    if Contains(s, [c]) {
      var i: nat :| i <= |s| && OccursAt(s, [c], i);
      assert s[i..i + 1][0] == s[i];
    }
    if exists k :: 0 <= k < |s| && s[k] == c {
      var k :| 0 <= k < |s| && s[k] == c;
      assert s[k..k + 1] == [c];
      assert OccursAt(s, [c], k);
    }
  }

  /** A character that occurs in neither of two strings does not occur in their concatenation. */
  lemma CharFreeConcat(a: string, b: string, c: char)
    requires !Contains(a, [c]) && !Contains(b, [c])
    ensures !Contains(a + b, [c])
  {
    ContainsChar(a, c);
    ContainsChar(b, c);
    ContainsChar(a + b, c);
    forall k | 0 <= k < |a + b|
      ensures (a + b)[k] != c
    {
      if k < |a| {
        assert (a + b)[k] == a[k];
      } else {
        assert (a + b)[k] == b[k - |a|];
      }
    }
  }

  /** A character in front of `s` that does not begin `w` adds no occurrence of `w`. */
  lemma ContainsAfterChar(c: char, s: string, w: string)
    requires w != "" && w[0] != c && !Contains(s, w)
    ensures !Contains([c] + s, w)
  {
    var t := [c] + s;
    forall i: nat | i <= |t|
      ensures !OccursAt(t, w, i)
    {
      if i + |w| <= |t| {
        assert t[i..i + |w|][0] == t[i];
        if i > 0 {
          assert !OccursAt(s, w, i - 1);
          assert t[i..i + |w|] == s[i - 1..i - 1 + |w|];
        }
      }
    }
  }

  /**
   * An occurrence of `w` in `a + b` lies in `a`, lies in `b`, or straddles the seam; it
   * cannot straddle when the last character of `a` is not among the first `|w| - 1`
   * characters of `w`, or when the first character of `b` is not among its last `|w| - 1`.
   */
  lemma ConcatFree(a: string, b: string, w: string)
    requires w != "" && !Contains(a, w) && !Contains(b, w)
    requires (|a| > 0 && a[|a| - 1] !in w[..|w| - 1]) || (|b| > 0 && b[0] !in w[1..])
    ensures !Contains(a + b, w)
  {
    var s := a + b;
    forall i: nat | i <= |s|
      ensures !OccursAt(s, w, i)
    {
      if i + |w| <= |s| {
        if i + |w| <= |a| {
          assert !OccursAt(a, w, i);
          assert s[i..i + |w|] == a[i..i + |w|];
        } else if |a| <= i {
          assert !OccursAt(b, w, i - |a|);
          assert s[i..i + |w|] == b[i - |a|..i - |a| + |w|];
        } else {
          var j := |a| - i;
          assert s[i..i + |w|][j - 1] == a[|a| - 1];
          assert s[i..i + |w|][j] == b[0];
          assert w[..|w| - 1][j - 1] == w[j - 1];
          assert w[1..][j - 1] == w[j];
        }
      }
    }
  }

  /** Two pieces joined by a character that `w` does not hold: `w` cannot straddle it. */
  lemma SeparatedFree(a: string, c: char, b: string, w: string)
    requires w != "" && !Contains(a, w) && !Contains(b, w) && c !in w
    ensures !Contains(a + [c] + b, w)
  {
    assert w[0] in w;
    forall i: nat | i <= 1
      ensures !OccursAt([c], w, i)
    {
    }
    ConcatFree(a, [c], w);
    ConcatFree(a + [c], b, w);
  }

  /** A separator appended to a string adds one empty piece at the end. */
  lemma {:induction false} SplitSnoc(x: string, sep: string)
    requires sep != "" && Borderless(sep)
    ensures Split(x + sep, sep) == Split(x, sep) + [""]
    decreases |x|
  {
    if !Contains(x, sep) {
      SplitSnocClean(x, sep);
    } else {
      var i := IndexOf(x, sep).value;
      var p0, r := x[..i], x[i + |sep|..];
      BeforeFirst(x, sep, i);
      SplitAfterFirst(p0, sep, r);
      assert x + sep == p0 + sep + (r + sep);
      SplitAfterFirst(p0, sep, r + sep);
      SplitSnoc(r, sep);
    }
  }

  lemma SplitSnocClean(x: string, sep: string)
    requires sep != "" && Borderless(sep) && !Contains(x, sep)
    ensures Split(x + sep, sep) == [x, ""]
  {
    SplitAfterFirst(x, sep, "");
    assert x + sep + "" == x + sep;
  }

  /** The text before the first occurrence of `sep` holds no occurrence of it. */
  lemma BeforeFirst(x: string, sep: string, i: nat)
    requires sep != "" && IndexOf(x, sep) == Some(i)
    ensures x == x[..i] + sep + x[i + |sep|..]
    ensures !Contains(x[..i], sep)
  {
    forall j: nat | j <= i
      ensures !OccursAt(x[..i], sep, j)
    {
      if j < i && OccursAt(x[..i], sep, j) {
        OccursInPrefix(x, sep, i, j);
      }
    }
  }

  /** Joining one more piece appends the separator and the piece. */
  lemma {:induction false} JoinSnoc(ps: seq<string>, x: string, sep: string)
    requires |ps| >= 1
    ensures Join(ps + [x], sep) == Join(ps, sep) + sep + x
    decreases |ps|
  {
    if |ps| > 1 {
      assert (ps + [x])[1..] == ps[1..] + [x];
      JoinSnoc(ps[1..], x, sep);
    }
  }

  /** Pieces free of `w`, joined by a character `w` does not hold, stay free of `w`. */
  lemma {:induction false} JoinFree(ps: seq<string>, c: char, w: string)
    requires w != "" && c !in w
    requires forall k :: 0 <= k < |ps| ==> !Contains(ps[k], w)
    ensures !Contains(Join(ps, [c]), w)
    decreases |ps|
  {
    if |ps| == 0 {
      assert !OccursAt("", w, 0);
    } else if |ps| > 1 {
      JoinFree(ps[1..], c, w);
      SeparatedFree(ps[0], c, Join(ps[1..], [c]), w);
    }
  }

  /** Joining two non-empty lists of pieces puts one separator between their joins. */
  lemma {:induction false} JoinAppend(xs: seq<string>, ys: seq<string>, sep: string)
    requires |xs| >= 1 && |ys| >= 1
    ensures Join(xs + ys, sep) == Join(xs, sep) + sep + Join(ys, sep)
    decreases |xs|
  {
    if |xs| > 1 {
      assert (xs + ys)[1..] == xs[1..] + ys;
      JoinAppend(xs[1..], ys, sep);
    } else {
      assert (xs + ys)[1..] == ys;
    }
  }

  /** A join begins with its first piece. */
  lemma JoinStartsWith(ps: seq<string>, sep: string)
    requires |ps| >= 1
    ensures StartsWith(Join(ps, sep), ps[0])
  {
    if |ps| > 1 {
      assert Join(ps, sep)[..|ps[0]|] == ps[0];
    }
  }

  /** One-character separators are borderless. */
  lemma CharBorderless(c: char)
    ensures Borderless([c])
  {
  }

  /** A word whose first character does not come back later has no border. */
  lemma FirstCharBorderless(w: string)
    requires |w| > 0 && forall i :: 0 < i < |w| ==> w[i] != w[0]
    ensures Borderless(w)
  {
    forall b: nat | 0 < b < |w|
      ensures !IsBorder(w, b)
    {
      assert w[..b][0] == w[0] && w[|w| - b..][0] == w[|w| - b];
    }
  }

  /** `filter` distributes over concatenation. */
  lemma {:induction false} NonEmptyAppend(xs: seq<string>, ys: seq<string>)
    ensures NonEmpty(xs + ys) == NonEmpty(xs) + NonEmpty(ys)
    decreases |ys|
  {
    if |ys| == 0 {
      assert xs + ys == xs;
    } else {
      var zs := xs + ys;
      assert zs[..|zs| - 1] == xs + ys[..|ys| - 1];
      NonEmptyAppend(xs, ys[..|ys| - 1]);
    }
  }

  /** A sequence of non-empty strings passes the filter unchanged. */
  lemma {:induction false} NonEmptyKeepsAll(xs: seq<string>)
    requires forall k :: 0 <= k < |xs| ==> xs[k] != ""
    ensures NonEmpty(xs) == xs
    decreases |xs|
  {
    if |xs| > 0 {
      NonEmptyKeepsAll(xs[..|xs| - 1]);
      assert xs[..|xs| - 1] + [xs[|xs| - 1]] == xs;
    }
  }
}
