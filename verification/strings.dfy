/**
 The Python string primitives the scraper relies on, over `string == seq<char>`:
 `str.split(sep)` with a one-character separator, `sep.join(parts)`,
 `str.replace(pat, '')`, `str.startswith` and character filtering.
 */
module Strings {

  /** Index of the first occurrence of `c` in `s`, or `|s|` when `c` does not occur. */
  function IndexOf(s: string, c: char): (k: nat)
    ensures k <= |s|
    ensures forall i :: 0 <= i < k ==> s[i] != c
    ensures k < |s| ==> s[k] == c
  {
    if |s| == 0 then 0
    else if s[0] == c then 0
    else 1 + IndexOf(s[1..], c)
  }

  /** Python's `s.split(sep)`: the maximal pieces between separators; an empty
      string gives one empty piece, so the result is never empty. */
  function Split(s: string, sep: char): (parts: seq<string>)
    ensures |parts| >= 1
    decreases |s|
  {
    var k := IndexOf(s, sep);
    if k == |s| then [s] else [s[..k]] + Split(s[k + 1..], sep)
  }

  /** No piece of a split contains the separator. */
  lemma {:induction false} SplitPieces(s: string, sep: char)
    ensures forall i :: 0 <= i < |Split(s, sep)| ==> sep !in Split(s, sep)[i]
    decreases |s|
  {
    var k := IndexOf(s, sep);
    if k < |s| {
      SplitUnfold(s, sep);
      SplitPieces(s[k + 1..], sep);
      assert sep !in s[..k] by { assert forall i :: 0 <= i < k ==> s[..k][i] != sep; }
    } else {
      SplitNone(s, sep);
      assert sep !in s by { assert forall i :: 0 <= i < |s| ==> s[i] != sep; }
    }
  }

  /** Python's `sep.join(parts)`. */
  function Join(parts: seq<string>, sep: char): string
  {
    if |parts| == 0 then ""
    else if |parts| == 1 then parts[0]
    else parts[0] + [sep] + Join(parts[1..], sep)
  }

  /** A string with a separator splits into the piece before it and the pieces of the rest. */
  lemma SplitUnfold(s: string, sep: char)
    requires IndexOf(s, sep) < |s|
    ensures Split(s, sep) == [s[..IndexOf(s, sep)]] + Split(s[IndexOf(s, sep) + 1..], sep)
  {
  }

  /** Joining a piece in front of at least one more puts a separator between them. */
  lemma JoinCons(head: string, tail: seq<string>, sep: char)
    requires |tail| >= 1
    ensures Join([head] + tail, sep) == head + [sep] + Join(tail, sep)
  {
    assert ([head] + tail)[1..] == tail;
  }

  /** Joining the pieces of a split gives back the original string. */
  lemma {:induction false} JoinSplit(s: string, sep: char)
    ensures Join(Split(s, sep), sep) == s
    decreases |s|
  {
    var k := IndexOf(s, sep);
    if k < |s| {
      SplitUnfold(s, sep);
      JoinSplit(s[k + 1..], sep);
      JoinSplitStep(s, k, sep, Split(s[k + 1..], sep));
    } else {
      SplitNone(s, sep);
    }
  }

  /** A string without the separator splits into itself alone. */
  lemma SplitNone(s: string, sep: char)
    requires IndexOf(s, sep) == |s|
    ensures Split(s, sep) == [s]
    ensures Join(Split(s, sep), sep) == s
  {
  }

  /** The inductive step of `JoinSplit`: the pieces after the first separator
      join back to the rest of the string. */
  lemma JoinSplitStep(s: string, k: nat, sep: char, tail: seq<string>)
    requires k < |s| && s[k] == sep && |tail| >= 1
    requires Join(tail, sep) == s[k + 1..]
    ensures Join([s[..k]] + tail, sep) == s
  {
    JoinCons(s[..k], tail, sep);
    assert s == s[..k] + [sep] + s[k + 1..];
  }

  /** Splitting a join of separator-free pieces gives back the pieces. */
  lemma {:induction false} SplitJoin(parts: seq<string>, sep: char)
    requires |parts| >= 1
    requires forall i :: 0 <= i < |parts| ==> sep !in parts[i]
    ensures Split(Join(parts, sep), sep) == parts
    decreases |parts|
  {
    if |parts| > 1 {
      SplitJoin(parts[1..], sep);
      SplitJoinStep(parts[0], Join(parts[1..], sep), sep, parts[1..]);
      assert parts == [parts[0]] + parts[1..];
    } else {
      IndexOfAbsent(parts[0], sep);
      SplitNone(parts[0], sep);
    }
  }

  /** The inductive step of `SplitJoin`: a separator-free head in front of the
      separator splits off as the first piece. */
  lemma SplitJoinStep(head: string, rest: string, sep: char, tail: seq<string>)
    requires sep !in head
    requires Split(rest, sep) == tail
    ensures Split(head + [sep] + rest, sep) == [head] + tail
  {
    var s := head + [sep] + rest;
    IndexOfAfter(head, sep, rest);
    SplitUnfold(s, sep);
    assert s[..|head|] == head;
    assert s[|head| + 1..] == rest;
  }

  /** When `c` does not occur in `s`, `IndexOf` reports `|s|`. */
  lemma IndexOfAbsent(s: string, c: char)
    requires c !in s
    ensures IndexOf(s, c) == |s|
  {
    assert s[..|s|] == s;
  }

  /** The first `c` of `a + [c] + b` is the one right after `a` when `a` has none. */
  lemma {:induction false} IndexOfAfter(a: string, c: char, b: string)
    requires c !in a
    ensures IndexOf(a + [c] + b, c) == |a|
    decreases |a|
  {
    var s := a + [c] + b;
    if |a| > 0 {
      assert s[0] == a[0];
      assert s[1..] == a[1..] + [c] + b;
      IndexOfAfter(a[1..], c, b);
    } else {
      assert s[0] == c;
    }
  }

  /** `last` is a suffix of `s` that is all of `s` or follows a `sep`. */
  predicate SuffixAfter(s: string, last: string, sep: char)
  {
    && |last| <= |s|
    && last == s[|s| - |last|..]
    && (|last| < |s| ==> s[|s| - |last| - 1] == sep)
  }

  /** The last piece of a split is a separator-free suffix that starts either at
      the beginning of the string or right after a separator. */
  lemma SplitLast(s: string, sep: char)
    ensures var parts := Split(s, sep); SuffixAfter(s, parts[|parts| - 1], sep)
  {
    SplitLastPiece(s, sep);
    LastPieceSuffix(s, sep);
  }

  /** The text after the last separator, found by skipping past one separator at
      a time. */
  function LastPiece(s: string, sep: char): string
    decreases |s|
  {
    var k := IndexOf(s, sep);
    if k == |s| then s else LastPiece(s[k + 1..], sep)
  }

  /** The last piece of a split is `LastPiece`. */
  lemma {:induction false} SplitLastPiece(s: string, sep: char)
    ensures var parts := Split(s, sep); parts[|parts| - 1] == LastPiece(s, sep)
    decreases |s|
  {
    var k := IndexOf(s, sep);
    if k < |s| {
      SplitUnfold(s, sep);
      LastOfCons(Split(s, sep), s[..k], Split(s[k + 1..], sep));
      SplitLastPiece(s[k + 1..], sep);
      LastPieceStep(s, sep);
    } else {
      SplitNone(s, sep);
      LastPieceWhole(s, sep);
    }
  }

  /** `LastPiece` is a suffix that is the whole text or follows a separator. */
  lemma {:induction false} LastPieceSuffix(s: string, sep: char)
    ensures SuffixAfter(s, LastPiece(s, sep), sep)
    decreases |s|
  {
    var k := IndexOf(s, sep);
    if k < |s| {
      LastPieceSuffix(s[k + 1..], sep);
      LastPieceSuffixStep(s, k, sep);
    } else {
      LastPieceWhole(s, sep);
    }
  }

  /** The inductive step of `LastPieceSuffix`. */
  lemma LastPieceSuffixStep(s: string, k: nat, sep: char)
    requires k == IndexOf(s, sep) && k < |s|
    requires SuffixAfter(s[k + 1..], LastPiece(s[k + 1..], sep), sep)
    ensures SuffixAfter(s, LastPiece(s, sep), sep)
  {
    LastPieceStep(s, sep);
    SuffixAfterRest(s, k, LastPiece(s[k + 1..], sep), sep);
  }

  /** With a separator, the last piece is the last piece of the text after it. */
  lemma LastPieceStep(s: string, sep: char)
    requires IndexOf(s, sep) < |s|
    ensures LastPiece(s, sep) == LastPiece(s[IndexOf(s, sep) + 1..], sep)
  {
  }

  /** Without a separator, the last piece is the whole text. */
  lemma LastPieceWhole(s: string, sep: char)
    requires IndexOf(s, sep) == |s|
    ensures LastPiece(s, sep) == s
    ensures SuffixAfter(s, LastPiece(s, sep), sep)
  {
    assert s[0..] == s;
  }

  /** Putting a piece in front keeps the last piece. */
  lemma LastOfCons(parts: seq<string>, head: string, tail: seq<string>)
    requires |tail| >= 1 && parts == [head] + tail
    ensures |parts| >= 1 && parts[|parts| - 1] == tail[|tail| - 1]
  {
  }

  /** A piece that ends the text after the separator at `k` also ends `s`. */
  lemma SuffixAfterRest(s: string, k: nat, last: string, sep: char)
    requires k < |s| && s[k] == sep
    requires SuffixAfter(s[k + 1..], last, sep)
    ensures SuffixAfter(s, last, sep)
  {
    SuffixOfRest(s, k, |last|);
  }

  /** A suffix of `s[k + 1..]` is a suffix of `s`, preceded in `s` by `s[k]` when
      it is the whole of `s[k + 1..]`. */
  lemma SuffixOfRest(s: string, k: nat, n: nat)
    requires k < |s| && n <= |s| - k - 1
    ensures s[k + 1..][|s| - k - 1 - n..] == s[|s| - n..]
    ensures n == |s| - k - 1 ==> s[|s| - n - 1] == s[k]
    ensures n < |s| - k - 1 ==> s[k + 1..][|s| - k - 1 - n - 1] == s[|s| - n - 1]
  {
  }

  /** Python's `s.startswith(p)`. */
  predicate StartsWith(s: string, p: string)
  {
    |p| <= |s| && s[..|p|] == p
  }

  /** `pat` occurs in `s` starting at index `i`. */
  predicate OccursAt(s: string, pat: string, i: int)
  {
    0 <= i && i + |pat| <= |s| && s[i..i + |pat|] == pat
  }

  /** Python's `s.replace(pat, '')`: scanning left to right, every occurrence of
      `pat` that does not overlap an occurrence already removed is deleted. */
  function RemoveAll(s: string, pat: string): (r: string)
    requires |pat| > 0
    ensures |r| <= |s|
    ensures forall c :: c in r ==> c in s
    decreases |s|
  {
    if |s| < |pat| then s
    else if s[..|pat|] == pat then RemoveAll(s[|pat|..], pat)
    else [s[0]] + RemoveAll(s[1..], pat)
  }

  /** A string in which `pat` does not occur is left unchanged. */
  lemma {:induction false} RemoveAllAbsent(s: string, pat: string)
    requires |pat| > 0
    requires forall i :: !OccursAt(s, pat, i)
    ensures RemoveAll(s, pat) == s
    decreases |s|
  {
    if |s| >= |pat| {
      assert !OccursAt(s, pat, 0);
      forall i ensures !OccursAt(s[1..], pat, i) {
        if OccursAt(s[1..], pat, i) {
          assert s[1..][i..i + |pat|] == s[i + 1..i + 1 + |pat|];
          assert OccursAt(s, pat, i + 1);
        }
      }
      RemoveAllAbsent(s[1..], pat);
      assert s == [s[0]] + s[1..];
    }
  }

  /** The scan removes the leftmost occurrence of `pat`: text before it is kept
      and the scan resumes right after it. With `RemoveAllAbsent` this fixes the
      result on every input. */
  lemma RemoveAllFirst(x: string, y: string, pat: string)
    requires |pat| > 0
    requires forall i :: 0 <= i < |x| ==> !OccursAt(x + pat + y, pat, i)
    ensures RemoveAll(x + pat + y, pat) == x + RemoveAll(y, pat)
  {
    var s := x + pat + y;
    RemoveAllFrom(s, |x|, pat);
    assert s[..|x|] == x;
    assert s[|x|..] == pat + y;
    RemoveAllAtMatch(pat, y);
  }

  /** An occurrence at the start is dropped and the scan resumes after it. */
  lemma RemoveAllAtMatch(pat: string, y: string)
    requires |pat| > 0
    ensures RemoveAll(pat + y, pat) == RemoveAll(y, pat)
  {
    var t := pat + y;
    assert t[..|pat|] == pat && t[|pat|..] == y;
  }

  /** With no occurrence starting before index `n`, the scan copies `s[..n]` and
      continues at `n`. */
  lemma {:induction false} RemoveAllFrom(s: string, n: nat, pat: string)
    requires |pat| > 0 && n <= |s|
    requires forall i :: 0 <= i < n ==> !OccursAt(s, pat, i)
    ensures RemoveAll(s, pat) == s[..n] + RemoveAll(s[n..], pat)
    decreases n
  {
    if n == 0 {
      assert s[..0] + RemoveAll(s[0..], pat) == RemoveAll(s, pat) by {
        assert s[0..] == s;
      }
    } else {
      RemoveAllFrom(s, n - 1, pat);
      RemoveAllFromStep(s, n, pat);
    }
  }

  /** One more copied character: the inductive step of `RemoveAllFrom`. */
  lemma RemoveAllFromStep(s: string, n: nat, pat: string)
    requires |pat| > 0 && 0 < n <= |s|
    requires !OccursAt(s, pat, n - 1)
    requires RemoveAll(s, pat) == s[..n - 1] + RemoveAll(s[n - 1..], pat)
    ensures RemoveAll(s, pat) == s[..n] + RemoveAll(s[n..], pat)
  {
    OccursDrop(s, pat, n - 1);
    calc {
      RemoveAll(s, pat);
      s[..n - 1] + RemoveAll(s[n - 1..], pat);
      { RemoveAllSkip(s[n - 1..], pat);
        assert s[n - 1..][1..] == s[n..]; }
      s[..n - 1] + ([s[n - 1]] + RemoveAll(s[n..], pat));
      { PrefixExtend(s, n, RemoveAll(s[n..], pat)); }
      s[..n] + RemoveAll(s[n..], pat);
    }
  }

  /** Without an occurrence at the start, the scan copies the first character. */
  lemma RemoveAllSkip(s: string, pat: string)
    requires |pat| > 0 && |s| > 0 && !OccursAt(s, pat, 0)
    ensures RemoveAll(s, pat) == [s[0]] + RemoveAll(s[1..], pat)
  {
    if |s| < |pat| {
      assert s == [s[0]] + s[1..];
    } else {
      assert s[..|pat|] != pat by { assert s[0..|pat|] == s[..|pat|]; }
    }
  }

  /** An occurrence at index `k` is an occurrence at the start of `s[k..]`. */
  lemma OccursDrop(s: string, pat: string, k: nat)
    requires k <= |s|
    ensures OccursAt(s[k..], pat, 0) <==> OccursAt(s, pat, k)
  {
    if k + |pat| <= |s| {
      assert s[k..][0..|pat|] == s[k..k + |pat|];
    }
  }

  /** Extending a prefix by its next character. */
  lemma PrefixExtend(s: string, n: nat, r: string)
    requires 0 < n <= |s|
    ensures s[..n - 1] + ([s[n - 1]] + r) == s[..n] + r
  {
    assert s[..n] == s[..n - 1] + [s[n - 1]];
  }

  /** Removing occurrences can create a new one out of the surrounding text, so
      the result of a single pass may still contain `pat`. */
  lemma RemoveAllCanLeaveOccurrence()
    ensures RemoveAll(".ht.htmlml", ".html") == ".html"
    ensures OccursAt(RemoveAll(".ht.htmlml", ".html"), ".html", 0)
  {
    var s := ".ht.htmlml";
    assert s == ".ht" + ".html" + "ml";
    forall i | 0 <= i < 3
      ensures !OccursAt(s, ".html", i)
    {
      if i == 0 {
        assert s[i..i + 5][3] == '.';
      } else {
        assert s[i..i + 5][0] != '.';
      }
    }
    RemoveAllFirst(".ht", "ml", ".html");
    assert RemoveAll("ml", ".html") == "ml";
    assert ".ht" + "ml" == ".html";
  }

  /** Keeps the characters satisfying `keep`, in their original order. */
  function Filter(s: string, keep: char -> bool): (r: string)
    ensures |r| <= |s|
    decreases |s|
  {
    if |s| == 0 then ""
    else if keep(s[0]) then [s[0]] + Filter(s[1..], keep)
    else Filter(s[1..], keep)
  }

  /** A character survives filtering exactly when it occurs and is kept. */
  lemma {:induction false} FilterMembers(s: string, keep: char -> bool)
    ensures forall c :: c in Filter(s, keep) <==> c in s && keep(c)
    decreases |s|
  {
    if |s| > 0 {
      FilterMembers(s[1..], keep);
      assert forall c :: c in s <==> c == s[0] || c in s[1..];
    }
  }

  /** Filtering a string whose characters are all kept changes nothing. */
  lemma {:induction false} FilterKeepsAll(s: string, keep: char -> bool)
    requires forall c :: c in s ==> keep(c)
    ensures Filter(s, keep) == s
    decreases |s|
  {
    if |s| > 0 {
      assert s[0] in s;
      assert forall c :: c in s[1..] ==> c in s;
      FilterKeepsAll(s[1..], keep);
      assert s == [s[0]] + s[1..];
    }
  }

  /** Filtering distributes over concatenation. */
  lemma {:induction false} FilterConcat(a: string, b: string, keep: char -> bool)
    ensures Filter(a + b, keep) == Filter(a, keep) + Filter(b, keep)
    decreases |a|
  {
    if |a| > 0 {
      assert (a + b)[0] == a[0];
      assert (a + b)[1..] == a[1..] + b;
      FilterConcat(a[1..], b, keep);
    } else {
      assert a + b == b;
    }
  }
}
