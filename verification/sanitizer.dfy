/**
 The text clean-up `write_text_to_header` applies to a page's text before it is
 written: ASCII filtering after Unicode decomposition, two regular-expression
 rewrites that pull parentheses split over table cells back together, newline-run
 collapse, removal of ` More...` and deletion of tabs.

 The regular expressions are evaluated by Python on a `str` pattern, so `\s`
 and `\w` are the Unicode classes; every step after the first sees ASCII text
 only, where they reduce to the ASCII classes below.
 */
module Sanitizer {
  import opened Strings

  predicate IsAscii(c: char)
  {
    c as int < 128
  }

  predicate AllAscii(s: string)
  {
    forall c :: c in s ==> IsAscii(c)
  }

  /** `\s` on ASCII text: space, `\t\n\v\f\r` and the separators 0x1C to 0x1F. */
  predicate IsSpace(c: char)
  {
    c == ' ' || ('\t' <= c <= '\r') || ('\U{1C}' <= c <= '\U{1F}')
  }

  predicate NotSpace(c: char)
  {
    !IsSpace(c)
  }

  /** `[a-zA-Z_]`. */
  predicate IsIdentStart(c: char)
  {
    ('a' <= c <= 'z') || ('A' <= c <= 'Z') || c == '_'
  }

  /** `\w` on ASCII text. */
  predicate IsWordChar(c: char)
  {
    IsIdentStart(c) || ('0' <= c <= '9')
  }

  predicate NotNewline(c: char)
  {
    c != '\n'
  }

  predicate NotTab(c: char)
  {
    c != '\t'
  }

  /** No newline is immediately followed by another. */
  predicate NoDoubleNewline(s: string)
  {
    forall i :: 0 < i < |s| ==> !(s[i - 1] == '\n' && s[i] == '\n')
  }

  /** The non-whitespace characters of `s`, in order. */
  function Visible(s: string): string
  {
    Filter(s, NotSpace)
  }

  /** `normalize('NFKD', text).encode('ascii', errors='ignore').decode('ascii')`,
      with the decomposition `nfkd` left abstract. */
  function StripNonAscii(nfkd: string -> string, text: string): (r: string)
    ensures AllAscii(r)
    ensures forall c :: IsAscii(c) ==> (c in r <==> c in nfkd(text))
    ensures AllAscii(nfkd(text)) ==> r == nfkd(text)
  {
    var decomposed := nfkd(text);
    FilterMembers(decomposed, IsAscii);
    if AllAscii(decomposed) then
      FilterKeepsAll(decomposed, IsAscii);
      Filter(decomposed, IsAscii)
    else
      Filter(decomposed, IsAscii)
  }

  /** `re.sub(r'\s\(\s', '( ', s)`: each whitespace-parenthesis-whitespace
      triple, matched left to right without overlap, becomes `( `. */
  function JoinOpenParens(s: string): (r: string)
    ensures |r| <= |s|
    ensures forall c :: c in r ==> c in s || c == ' '
    decreases |s|
  {
    if |s| < 3 then s
    else if IsSpace(s[0]) && s[1] == '(' && IsSpace(s[2]) then "( " + JoinOpenParens(s[3..])
    else [s[0]] + JoinOpenParens(s[1..])
  }

  /** Length of the longest prefix of `s` made of word characters. */
  function WordRun(s: string): (k: nat)
    ensures k <= |s|
    ensures forall i :: 0 <= i < k ==> IsWordChar(s[i])
    ensures k < |s| ==> !IsWordChar(s[k])
  {
    if |s| == 0 || !IsWordChar(s[0]) then 0 else 1 + WordRun(s[1..])
  }

  /** `re.sub(r'\s([a-zA-Z_]\w*)\)', r'\1 )', s)`: a whitespace character, an
      identifier and a closing parenthesis become the identifier followed by ` )`.
      Because `)` is not a word character, the greedy `\w*` matches exactly when
      the maximal word run after the identifier start is followed by `)`. */
  function JoinCloseParens(s: string): (r: string)
    ensures |r| <= |s|
    ensures forall c :: c in r ==> c in s || c == ' '
    decreases |s|
  {
    if |s| == 0 then s
    else
      var j := 1 + WordRun(s[1..]);
      if IsSpace(s[0]) && |s| > 1 && IsIdentStart(s[1]) && j < |s| && s[j] == ')' then
        assert forall c :: c in s[1..j] ==> c in s;
        s[1..j] + " )" + JoinCloseParens(s[j + 1..])
      else [s[0]] + JoinCloseParens(s[1..])
  }

  /** A match of `\s\(\s` starts at index `i` of `s`. */
  predicate OpenMatchAt(s: string, i: int)
  {
    0 <= i && i + 3 <= |s| && IsSpace(s[i]) && s[i + 1] == '(' && IsSpace(s[i + 2])
  }

  /** The leftmost `\s(\s` triple becomes `( `, the text before it is kept, and
      the scan resumes after it. */
  lemma JoinOpenParensFirst(x: string, a: char, b: char, y: string)
    requires IsSpace(a) && IsSpace(b)
    requires forall i :: 0 <= i < |x| ==> !OpenMatchAt(x + [a, '(', b] + y, i)
    ensures JoinOpenParens(x + [a, '(', b] + y) == x + "( " + JoinOpenParens(y)
  {
    var s := x + [a, '(', b] + y;
    JoinOpenParensFrom(s, |x|);
    assert s[..|x|] == x;
    var t := s[|x|..];
    assert t == [a, '(', b] + y && t[3..] == y;
    JoinOpenParensAtTriple(t);
    assert x + ("( " + JoinOpenParens(y)) == x + "( " + JoinOpenParens(y);
  }

  /** With no triple starting before index `n`, the pass copies `s[..n]` and
      continues at `n`. */
  lemma {:induction false} JoinOpenParensFrom(s: string, n: nat)
    requires n <= |s|
    requires forall i :: 0 <= i < n ==> !OpenMatchAt(s, i)
    ensures JoinOpenParens(s) == s[..n] + JoinOpenParens(s[n..])
  {
    if n == 0 {
      assert s[..0] + JoinOpenParens(s[0..]) == JoinOpenParens(s) by {
        assert s[0..] == s;
      }
    } else {
      JoinOpenParensFrom(s, n - 1);
      JoinOpenParensFromStep(s, n);
    }
  }

  /** One more copied character: the inductive step of `JoinOpenParensFrom`. */
  lemma JoinOpenParensFromStep(s: string, n: nat)
    requires 0 < n <= |s|
    requires !OpenMatchAt(s, n - 1)
    requires JoinOpenParens(s) == s[..n - 1] + JoinOpenParens(s[n - 1..])
    ensures JoinOpenParens(s) == s[..n] + JoinOpenParens(s[n..])
  {
    calc {
      JoinOpenParens(s);
      s[..n - 1] + JoinOpenParens(s[n - 1..]);
      { JoinOpenParensSkip(s[n - 1..]);
        assert s[n - 1..][1..] == s[n..]; }
      s[..n - 1] + ([s[n - 1]] + JoinOpenParens(s[n..]));
      { PrefixExtend(s, n, JoinOpenParens(s[n..])); }
      s[..n] + JoinOpenParens(s[n..]);
    }
  }

  /** Without a triple at the start, the pass copies the first character. */
  lemma JoinOpenParensSkip(s: string)
    requires |s| > 0 && !(|s| >= 3 && IsSpace(s[0]) && s[1] == '(' && IsSpace(s[2]))
    ensures JoinOpenParens(s) == [s[0]] + JoinOpenParens(s[1..])
  {
    if |s| < 3 {
      assert s == [s[0]] + s[1..];
    }
  }

  /** A match of `\s([a-zA-Z_]\w*)\)` starts at index `i` of `s`. */
  predicate CloseMatchAt(s: string, i: int)
  {
    && 0 <= i && i + 1 < |s| && IsSpace(s[i]) && IsIdentStart(s[i + 1])
    && var j := i + 1 + WordRun(s[i + 1..]);
       j < |s| && s[j] == ')'
  }

  /** A run of word characters followed by a non-word character is a maximal run. */
  lemma {:induction false} WordRunOf(ident: string, rest: string)
    requires forall k :: 0 <= k < |ident| ==> IsWordChar(ident[k])
    requires |rest| > 0 && !IsWordChar(rest[0])
    ensures WordRun(ident + rest) == |ident|
    decreases |ident|
  {
    if |ident| == 0 {
      assert ident + rest == rest;
    } else {
      assert (ident + rest)[0] == ident[0];
      assert (ident + rest)[1..] == ident[1..] + rest;
      WordRunOf(ident[1..], rest);
    }
  }

  /** The leftmost `\sident)` becomes `ident )`, the text before it is kept, and
      the scan resumes after the parenthesis. */
  lemma JoinCloseParensFirst(x: string, a: char, ident: string, y: string)
    requires IsSpace(a)
    requires |ident| > 0 && IsIdentStart(ident[0])
    requires forall k :: 0 <= k < |ident| ==> IsWordChar(ident[k])
    requires forall i :: 0 <= i < |x| ==> !CloseMatchAt(x + ([a] + ident + ")" + y), i)
    ensures JoinCloseParens(x + ([a] + ident + ")" + y)) == x + ident + " )" + JoinCloseParens(y)
  {
    var t := [a] + ident + ")" + y;
    JoinCloseParensCopies(x, t);
    JoinCloseParensAtMatch(a, ident, y);
    assert x + (ident + " )" + JoinCloseParens(y)) == x + ident + " )" + JoinCloseParens(y);
  }

  /** A prefix in which no match starts is copied unchanged. */
  lemma JoinCloseParensCopies(x: string, t: string)
    requires forall i :: 0 <= i < |x| ==> !CloseMatchAt(x + t, i)
    ensures JoinCloseParens(x + t) == x + JoinCloseParens(t)
  {
    var s := x + t;
    JoinCloseParensFrom(s, |x|);
    assert s[..|x|] == x && s[|x|..] == t;
  }

  /** With no match before index `n`, the pass copies `s[..n]` and continues at `n`. */
  lemma {:induction false} JoinCloseParensFrom(s: string, n: nat)
    requires n <= |s|
    requires forall i :: 0 <= i < n ==> !CloseMatchAt(s, i)
    ensures JoinCloseParens(s) == s[..n] + JoinCloseParens(s[n..])
  {
    if n == 0 {
      assert s[..0] + JoinCloseParens(s[0..]) == JoinCloseParens(s) by {
        assert s[0..] == s;
      }
    } else {
      JoinCloseParensFrom(s, n - 1);
      JoinCloseParensFromStep(s, n);
    }
  }

  /** One more copied character: the inductive step of `JoinCloseParensFrom`. */
  lemma JoinCloseParensFromStep(s: string, n: nat)
    requires 0 < n <= |s|
    requires !CloseMatchAt(s, n - 1)
    requires JoinCloseParens(s) == s[..n - 1] + JoinCloseParens(s[n - 1..])
    ensures JoinCloseParens(s) == s[..n] + JoinCloseParens(s[n..])
  {
    CloseMatchDrop(s, n - 1);
    calc {
      JoinCloseParens(s);
      s[..n - 1] + JoinCloseParens(s[n - 1..]);
      { JoinCloseParensSkip(s[n - 1..]);
        assert s[n - 1..][1..] == s[n..]; }
      s[..n - 1] + ([s[n - 1]] + JoinCloseParens(s[n..]));
      { PrefixExtend(s, n, JoinCloseParens(s[n..])); }
      s[..n] + JoinCloseParens(s[n..]);
    }
  }

  /** A match at index `k` is a match at the start of the text from `k` on. */
  lemma CloseMatchDrop(s: string, k: nat)
    requires k < |s|
    ensures CloseMatchAt(s[k..], 0) <==> CloseMatchAt(s, k)
  {
    if k + 1 < |s| {
      assert s[k..][1..] == s[k + 1..];
    }
  }

  /** A match at the start of the text is rewritten. */
  lemma JoinCloseParensAtMatch(a: char, ident: string, y: string)
    requires IsSpace(a)
    requires |ident| > 0 && IsIdentStart(ident[0])
    requires forall k :: 0 <= k < |ident| ==> IsWordChar(ident[k])
    ensures JoinCloseParens([a] + ident + ")" + y) == ident + " )" + JoinCloseParens(y)
  {
    var s := [a] + ident + ")" + y;
    assert s[1..] == ident + (")" + y);
    WordRunOf(ident, ")" + y);
    var j := 1 + |ident|;
    assert s[1..j] == ident;
    assert s[j] == ')';
    assert s[j + 1..] == y;
  }

  /** Without a match at the start, the first character is copied. */
  lemma JoinCloseParensSkip(s: string)
    requires |s| > 0 && !CloseMatchAt(s, 0)
    ensures JoinCloseParens(s) == [s[0]] + JoinCloseParens(s[1..])
  {
    var j := 1 + WordRun(s[1..]);
    assert !(IsSpace(s[0]) && |s| > 1 && IsIdentStart(s[1]) && j < |s| && s[j] == ')');
  }

  /** `re.sub(r'\n+', '\n', s)`: every run of newlines becomes one newline. */
  function CollapseNewlines(s: string): (r: string)
    ensures NoDoubleNewline(r)
    ensures forall c :: c in r <==> c in s
    ensures |s| > 0 ==> |r| > 0 && r[0] == s[0]
    decreases |s|
  {
    if |s| == 0 then s
    else if |s| > 1 && s[0] == '\n' && s[1] == '\n' then CollapseNewlines(s[1..])
    else
      var rest := CollapseNewlines(s[1..]);
      assert forall c :: c in s <==> c == s[0] || c in s[1..];
      [s[0]] + rest
  }

  /** The text after the newline collapse on line 83 (steps one to four). */
  function Collapsed(nfkd: string -> string, text: string): (r: string)
    ensures NoDoubleNewline(r)
    ensures AllAscii(r)
    ensures forall c :: c in r ==> c in nfkd(text) || c == ' '
  {
    CollapseNewlines(JoinCloseParens(JoinOpenParens(StripNonAscii(nfkd, text))))
  }

  /** The whole clean-up: the collapsed text with ` More...` and tabs removed. */
  function Sanitize(nfkd: string -> string, text: string): (r: string)
    ensures AllAscii(r)
    ensures '\t' !in r
    ensures forall c :: c in r ==> c in nfkd(text) || c == ' '
  {
    var trimmed := RemoveAll(Collapsed(nfkd, text), " More...");
    FilterMembers(trimmed, NotTab);
    Filter(trimmed, NotTab)
  }

  /** The visible text of a string is its first character's, if visible, then the rest's. */
  lemma VisibleCons(c: char, s: string)
    ensures Visible([c] + s) == (if IsSpace(c) then "" else [c]) + Visible(s)
  {
    assert ([c] + s)[0] == c;
    assert ([c] + s)[1..] == s;
  }

  /** A whitespace-parenthesis-whitespace triple is visible as `(`. */
  lemma VisibleOpenTriple(a: char, b: char, t: string)
    requires IsSpace(a) && IsSpace(b)
    ensures Visible([a, '(', b] + t) == "(" + Visible(t)
  {
    calc {
      Visible([a, '(', b] + t);
      { assert [a, '(', b] + t == [a] + (['('] + ([b] + t)); }
      Visible([a] + (['('] + ([b] + t)));
      { VisibleCons(a, ['('] + ([b] + t)); }
      Visible(['('] + ([b] + t));
      { VisibleCons('(', [b] + t); }
      "(" + Visible([b] + t);
      { VisibleCons(b, t); }
      "(" + Visible(t);
    }
  }

  /** Rewriting `\s(\s` changes only whitespace: the visible text is unchanged. */
  lemma {:induction false} JoinOpenParensKeepsVisible(s: string)
    ensures Visible(JoinOpenParens(s)) == Visible(s)
    decreases |s|
  {
    if |s| >= 3 {
      if IsSpace(s[0]) && s[1] == '(' && IsSpace(s[2]) {
        JoinOpenParensKeepsVisible(s[3..]);
        OpenTripleKeepsVisible(s);
      } else {
        JoinOpenParensKeepsVisible(s[1..]);
        OpenCopyKeepsVisible(s);
      }
    }
  }

  /** The rewriting case of `JoinOpenParensKeepsVisible`, given that the rest of
      the pass keeps the visible text. */
  lemma OpenTripleKeepsVisible(s: string)
    requires |s| >= 3 && IsSpace(s[0]) && s[1] == '(' && IsSpace(s[2])
    requires Visible(JoinOpenParens(s[3..])) == Visible(s[3..])
    ensures Visible(JoinOpenParens(s)) == Visible(s)
  {
    JoinOpenParensAtTriple(s);
    VisibleOpenPair(JoinOpenParens(s[3..]));
    VisibleOpenTripleOf(s);
  }

  /** At a `\s(\s` triple the pass emits `( ` and continues after the triple. */
  lemma JoinOpenParensAtTriple(s: string)
    requires |s| >= 3 && IsSpace(s[0]) && s[1] == '(' && IsSpace(s[2])
    ensures JoinOpenParens(s) == "( " + JoinOpenParens(s[3..])
  {
  }

  /** The emitted `( ` is visible as `(`. */
  lemma VisibleOpenPair(rest: string)
    ensures Visible("( " + rest) == "(" + Visible(rest)
  {
    assert "( " + rest == ['('] + ([' '] + rest);
    VisibleCons('(', [' '] + rest);
    VisibleCons(' ', rest);
  }

  /** A text starting with a `\s(\s` triple is visible as `(` and the rest. */
  lemma VisibleOpenTripleOf(s: string)
    requires |s| >= 3 && IsSpace(s[0]) && s[1] == '(' && IsSpace(s[2])
    ensures Visible(s) == "(" + Visible(s[3..])
  {
    assert s == [s[0], '(', s[2]] + s[3..];
    VisibleOpenTriple(s[0], s[2], s[3..]);
  }

  /** The copying case of `JoinOpenParensKeepsVisible`, given that the rest of
      the pass keeps the visible text. */
  lemma OpenCopyKeepsVisible(s: string)
    requires |s| >= 3 && !(IsSpace(s[0]) && s[1] == '(' && IsSpace(s[2]))
    requires Visible(JoinOpenParens(s[1..])) == Visible(s[1..])
    ensures Visible(JoinOpenParens(s)) == Visible(s)
  {
    calc {
      Visible(JoinOpenParens(s));
      Visible([s[0]] + JoinOpenParens(s[1..]));
      { KeptCharKeepsVisible(s[0], JoinOpenParens(s[1..]), s[1..]); }
      Visible([s[0]] + s[1..]);
      { assert s == [s[0]] + s[1..]; }
      Visible(s);
    }
  }

  /** Rewriting `\sident)` changes only whitespace: the visible text is unchanged. */
  lemma {:induction false} JoinCloseParensKeepsVisible(s: string)
    ensures Visible(JoinCloseParens(s)) == Visible(s)
    decreases |s|, 1
  {
    if |s| > 0 {
      var j := 1 + WordRun(s[1..]);
      if IsSpace(s[0]) && |s| > 1 && IsIdentStart(s[1]) && j < |s| && s[j] == ')' {
        RewriteStepKeepsVisible(s, j);
      } else {
        JoinCloseParensKeepsVisible(s[1..]);
        KeptCharKeepsVisible(s[0], JoinCloseParens(s[1..]), s[1..]);
        assert s == [s[0]] + s[1..];
      }
    }
  }

  /** The rewriting case of `JoinCloseParensKeepsVisible`. */
  lemma {:induction false} RewriteStepKeepsVisible(s: string, j: int)
    requires |s| > 1 && j == 1 + WordRun(s[1..]) && j < |s|
    requires IsSpace(s[0]) && IsIdentStart(s[1]) && s[j] == ')'
    ensures Visible(JoinCloseParens(s)) == Visible(s)
    decreases |s|, 0
  {
    JoinCloseParensKeepsVisible(s[j + 1..]);
    JoinCloseParensAtRewrite(s, j);
    CutAround(s, j);
    CloseRewriteKeepsVisible(s[0], s[1..j], s[j + 1..], JoinCloseParens(s[j + 1..]));
  }

  /** At a match ending at `j`, the pass emits the identifier and ` )` and
      continues after the parenthesis. */
  lemma JoinCloseParensAtRewrite(s: string, j: int)
    requires |s| > 1 && j == 1 + WordRun(s[1..]) && j < |s|
    requires IsSpace(s[0]) && IsIdentStart(s[1]) && s[j] == ')'
    ensures JoinCloseParens(s) == s[1..j] + " )" + JoinCloseParens(s[j + 1..])
  {
  }

  /** `s` is its first character, the text up to index `j`, the character at `j`
      and the rest. */
  lemma CutAround(s: string, j: int)
    requires 0 < j < |s|
    ensures s == [s[0]] + s[1..j] + [s[j]] + s[j + 1..]
  {
    assert s == s[..j] + s[j..];
    assert s[..j] == [s[0]] + s[1..j];
    assert s[j..] == [s[j]] + s[j + 1..];
  }

  /** Replacing `\sident)` by `ident )` keeps the visible text, given that the
      rest of the pass does. */
  lemma CloseRewriteKeepsVisible(a: char, ident: string, tail: string, rest: string)
    requires IsSpace(a)
    requires Visible(rest) == Visible(tail)
    ensures Visible(ident + " )" + rest) == Visible([a] + ident + ")" + tail)
  {
    calc {
      Visible(ident + " )" + rest);
      { assert ident + " )" + rest == ident + " " + ")" + rest;
        VisibleIdentClose(ident, " ", rest); }
      Visible(ident) + ")" + Visible(rest);
      Visible(ident) + ")" + Visible(tail);
      { VisibleIdentClose(ident, "", tail);
        assert ident + "" + ")" + tail == ident + ")" + tail; }
      Visible(ident + ")" + tail);
      { VisibleCons(a, ident + ")" + tail);
        assert [a] + ident + ")" + tail == [a] + (ident + ")" + tail); }
      Visible([a] + ident + ")" + tail);
    }
  }

  /** Putting the same character in front of two texts with the same visible
      text keeps their visible texts equal. */
  lemma KeptCharKeepsVisible(c: char, x: string, y: string)
    requires Visible(x) == Visible(y)
    ensures Visible([c] + x) == Visible([c] + y)
  {
    VisibleCons(c, x);
    VisibleCons(c, y);
  }

  /** Whitespace between an identifier and `)` does not show in the visible text. */
  lemma VisibleIdentClose(ident: string, gap: string, t: string)
    requires gap == "" || gap == " "
    ensures Visible(ident + gap + ")" + t) == Visible(ident) + ")" + Visible(t)
  {
    calc {
      Visible(ident + gap + ")" + t);
      { assert ident + gap + ")" + t == ident + (gap + ([')'] + t)); }
      Visible(ident + (gap + ([')'] + t)));
      { FilterConcat(ident, gap + ([')'] + t), NotSpace); }
      Visible(ident) + Visible(gap + ([')'] + t));
      { if gap == " " {
          VisibleCons(' ', [')'] + t);
        } else {
          assert gap + ([')'] + t) == [')'] + t;
        } }
      Visible(ident) + Visible([')'] + t);
      { VisibleCons(')', t); }
      Visible(ident) + ")" + Visible(t);
    }
  }

  /** Collapsing newline runs keeps every character other than a newline, in order. */
  lemma {:induction false} CollapseNewlinesKeepsText(s: string)
    ensures Filter(CollapseNewlines(s), NotNewline) == Filter(s, NotNewline)
    decreases |s|
  {
    if |s| > 0 {
      CollapseNewlinesKeepsText(s[1..]);
      if |s| > 1 && s[0] == '\n' && s[1] == '\n' {
        assert Filter(s, NotNewline) == Filter(s[1..], NotNewline);
      } else {
        assert CollapseNewlines(s) == [s[0]] + CollapseNewlines(s[1..]);
        assert ([s[0]] + CollapseNewlines(s[1..]))[1..] == CollapseNewlines(s[1..]);
      }
    }
  }

  /** Each newline run collapses where it stands: shortening a run by one newline
      leaves the result unchanged. With `CollapseNewlinesFixpoint` this fixes the
      result on every input. */
  lemma {:induction false} CollapseNewlinesRun(x: string, y: string)
    ensures CollapseNewlines(x + "\n\n" + y) == CollapseNewlines(x + "\n" + y)
    decreases |x|
  {
    var s := x + "\n\n" + y;
    var t := x + "\n" + y;
    if |x| == 0 {
      assert s[0] == '\n' && s[1] == '\n';
      assert s[1..] == t;
    } else {
      CollapseNewlinesRun(x[1..], y);
      assert s[1..] == x[1..] + "\n\n" + y;
      assert t[1..] == x[1..] + "\n" + y;
      CollapseSameStart(s, t);
    }
  }

  /** Two texts that agree on their first two characters and whose tails collapse
      alike collapse alike. */
  lemma CollapseSameStart(s: string, t: string)
    requires |s| > 1 && |t| > 1 && s[0] == t[0] && s[1] == t[1]
    requires CollapseNewlines(s[1..]) == CollapseNewlines(t[1..])
    ensures CollapseNewlines(s) == CollapseNewlines(t)
  {
  }

  /** Text already free of newline runs is left unchanged by the collapse. */
  lemma {:induction false} CollapseNewlinesFixpoint(s: string)
    requires NoDoubleNewline(s)
    ensures CollapseNewlines(s) == s
    decreases |s|
  {
    if |s| > 0 {
      assert NoDoubleNewline(s[1..]) by {
        forall i | 0 < i < |s[1..]|
          ensures !(s[1..][i - 1] == '\n' && s[1..][i] == '\n')
        {
          assert s[1..][i - 1] == s[i] && s[1..][i] == s[i + 1];
        }
      }
      CollapseNewlinesFixpoint(s[1..]);
      if |s| > 1 {
        assert !(s[0] == '\n' && s[1] == '\n');
      }
      assert s == [s[0]] + s[1..];
    }
  }

  /** Deleting tabs can bring two newlines together again, so the cleaned text
      may hold an empty line, and cleaning it a second time changes it. */
  lemma TabRemovalRejoinsNewlines()
    ensures Sanitize(s => s, "\n\t\n") == "\n\n"
    ensures !NoDoubleNewline(Sanitize(s => s, "\n\t\n"))
    ensures Sanitize(s => s, Sanitize(s => s, "\n\t\n")) == "\n"
  {
    var t := "\n\t\n";
    calc {
      Sanitize(s => s, t);
      Filter(RemoveAll(Collapsed(s => s, t), " More..."), NotTab);
      { TabSampleCollapsed(); }
      Filter(RemoveAll(t, " More..."), NotTab);
      Filter(t, NotTab);
      { assert t[1..][1..] == "\n"; }
      "\n\n";
    }
    assert !NoDoubleNewline("\n\n") by { assert "\n\n"[0] == '\n' && "\n\n"[1] == '\n'; }
    calc {
      Sanitize(s => s, "\n\n");
      Filter(RemoveAll(Collapsed(s => s, "\n\n"), " More..."), NotTab);
      { BlankLineCollapsed(); }
      Filter(RemoveAll("\n", " More..."), NotTab);
      "\n";
    }
  }

  /** The first four steps leave `\n\t\n` as it is. */
  lemma TabSampleCollapsed()
    ensures Collapsed(s => s, "\n\t\n") == "\n\t\n"
  {
    var t := "\n\t\n";
    assert StripNonAscii(s => s, t) == t;
    assert '(' !in t && ')' !in t;
    JoinOpenParensNoParen(t);
    JoinCloseParensNoParen(t);
    assert NoDoubleNewline(t);
    CollapseNewlinesFixpoint(t);
  }

  /** The first four steps turn an empty line `\n\n` into `\n`. */
  lemma BlankLineCollapsed()
    ensures Collapsed(s => s, "\n\n") == "\n"
  {
    var u := "\n\n";
    assert StripNonAscii(s => s, u) == u;
    assert '(' !in u && ')' !in u;
    JoinOpenParensNoParen(u);
    JoinCloseParensNoParen(u);
    assert u[1..] == "\n";
    assert CollapseNewlines(u) == "\n";
  }

  /** Removing ` More...` can also bring two newlines together again. */
  lemma MoreRemovalRejoinsNewlines()
    ensures Sanitize(s => s, "\n More...\n") == "\n\n"
  {
    var t := "\n More...\n";
    calc {
      Sanitize(s => s, t);
      Filter(RemoveAll(Collapsed(s => s, t), " More..."), NotTab);
      { SampleCollapsed(); }
      Filter(RemoveAll(t, " More..."), NotTab);
      { SampleLosesMore(); }
      Filter("\n\n", NotTab);
      { assert "\n\n"[1..] == "\n"; }
      "\n\n";
    }
  }

  lemma SampleCollapsed()
    ensures Collapsed(s => s, "\n More...\n") == "\n More...\n"
  {
    var t := "\n More...\n";
    SampleHasNoParens();
    assert StripNonAscii(s => s, t) == t;
    JoinOpenParensNoParen(t);
    JoinCloseParensNoParen(t);
    CollapseNewlinesFixpoint(t);
  }

  lemma SampleHasNoParens()
    ensures '(' !in "\n More...\n" && ')' !in "\n More...\n"
    ensures NoDoubleNewline("\n More...\n")
    ensures AllAscii("\n More...\n")
  {
    var t := "\n More...\n";
    forall i | 0 <= i < |t| ensures t[i] != '(' && t[i] != ')' && IsAscii(t[i]) {
    }
    forall c | c in t ensures IsAscii(c) {
      var i :| 0 <= i < |t| && t[i] == c;
    }
  }

  lemma SampleLosesMore()
    ensures RemoveAll("\n More...\n", " More...") == "\n\n"
  {
    var t := "\n More...\n";
    assert t[..8] != " More..." by { assert t[..8][0] == '\n'; }
    assert t[1..][..8] == " More...";
    assert t[1..][8..] == "\n";
    assert RemoveAll("\n", " More...") == "\n";
    assert RemoveAll(t[1..], " More...") == "\n";
  }

  /** Without an opening parenthesis there is nothing for line 80 to rewrite. */
  lemma {:induction false} JoinOpenParensNoParen(s: string)
    requires '(' !in s
    ensures JoinOpenParens(s) == s
    decreases |s|
  {
    if |s| >= 3 {
      assert '(' !in s[1..];
      JoinOpenParensNoParen(s[1..]);
      assert s == [s[0]] + s[1..];
    }
  }

  /** Without a closing parenthesis there is nothing for line 81 to rewrite. */
  lemma {:induction false} JoinCloseParensNoParen(s: string)
    requires ')' !in s
    ensures JoinCloseParens(s) == s
    decreases |s|
  {
    if |s| > 0 {
      assert ')' !in s[1..];
      JoinCloseParensNoParen(s[1..]);
      assert s == [s[0]] + s[1..];
    }
  }
}
