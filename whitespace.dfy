/**
 * `normalize_whitespace` and `reindent` of the merge tool.
 *
 * Both are reasoned about through `Words`: the sequence of maximal runs of
 * non-whitespace characters. Two texts have the same normal form exactly
 * when they have the same words, and inserting, deleting or replacing
 * whitespace between words never changes them.
 */
module Whitespace {
  import opened Strings
  import opened Lines

  /** `re.sub(r'\s+', ' ', s)`: every maximal whitespace run becomes one space. */
  function CollapseRuns(s: string): string
    decreases |s|
  {
    if s == [] then []
    else if IsSpace(s[0]) then " " + CollapseRuns(s[LeadingSpaceCount(s)..])
    else [s[0]] + CollapseRuns(s[1..])
  }

  /** `normalize_whitespace(text)`: strip, then collapse whitespace runs. */
  function NormalizeWhitespace(s: string): string
  {
    CollapseRuns(Strip(s))
  }

  /** No leading or trailing whitespace, no two adjacent whitespace characters, and ' ' the only one used. */
  predicate Canonical(r: string) {
    && (r != [] ==> !IsSpace(r[0]) && !IsSpace(r[|r| - 1]))
    && (forall i :: 0 <= i < |r| && IsSpace(r[i]) ==> r[i] == ' ')
    && (forall i :: 0 <= i < |r| - 1 && IsSpace(r[i]) ==> !IsSpace(r[i + 1]))
  }

  predicate IsWord(w: string) {
    w != [] && forall i :: 0 <= i < |w| ==> !IsSpace(w[i])
  }

  /** Length of the leading run of non-whitespace characters. */
  function WordLength(s: string): (n: nat)
    ensures n <= |s| && forall i :: 0 <= i < n ==> !IsSpace(s[i])
    ensures n < |s| ==> IsSpace(s[n])
  {
    if s == [] || IsSpace(s[0]) then 0 else 1 + WordLength(s[1..])
  }

  /** The maximal non-whitespace runs of `s`, in order. */
  function Words(s: string): seq<string>
    decreases |s|
  {
    if s == [] then []
    else if IsSpace(s[0]) then Words(s[1..])
    else
      var n := WordLength(s);
      [s[..n]] + Words(s[n..])
  }

  /** `" ".join(ws)`. */
  function JoinSp(ws: seq<string>): string
  {
    if ws == [] then ""
    else if |ws| == 1 then ws[0]
    else ws[0] + " " + JoinSp(ws[1..])
  }

  /** The words of every line, in order. */
  function LineWords(lines: seq<string>): seq<string>
  {
    if lines == [] then [] else Words(lines[0]) + LineWords(lines[1..])
  }

  // ---------------------------------------------------------------------------
  // Words under whitespace edits

  /** Every entry of `Words(s)` is a non-empty run without whitespace. */
  lemma {:induction false} WordsAreWords(s: string)
    ensures forall i :: 0 <= i < |Words(s)| ==> IsWord(Words(s)[i])
    decreases |s|
  {
    if s != [] {
      if IsSpace(s[0]) {
        WordsAreWords(s[1..]);
      } else {
        var n := WordLength(s);
        WordsAreWords(s[n..]);
        var ws := Words(s[n..]);
        assert Words(s) == [s[..n]] + ws;
        assert forall i :: 1 <= i < |Words(s)| ==> Words(s)[i] == ws[i - 1];
      }
    }
  }

  lemma {:induction false} WordLengthIs(s: string, n: nat)
    requires n <= |s| && forall i :: 0 <= i < n ==> !IsSpace(s[i])
    requires n < |s| ==> IsSpace(s[n])
    ensures WordLength(s) == n
  {
    if n > 0 {
      WordLengthIs(s[1..], n - 1);
    }
  }

  lemma {:induction false} WordsOfSpace(a: string)
    requires AllSpace(a)
    ensures Words(a) == []
    decreases |a|
  {
    if a != [] {
      WordsOfSpace(a[1..]);
    }
  }

  /** A whitespace character separates: the words on either side stay apart and unchanged. */
  lemma {:induction false} WordsAroundSpace(a: string, c: char, b: string)
    requires IsSpace(c)
    ensures Words(a + [c] + b) == Words(a) + Words(b)
    decreases |a|
  {
    if a == [] {
      assert (a + [c] + b)[1..] == b;
    } else if IsSpace(a[0]) {
      WordsAroundSpace(a[1..], c, b);
      WordsAroundSpaceSkip(a, c, b);
    } else {
      WordsAroundSpace(a[WordLength(a)..], c, b);
      WordsAroundSpaceWord(a, c, b);
    }
  }

  /** The step of `WordsAroundSpace` over a leading whitespace character of `a`. */
  lemma WordsAroundSpaceSkip(a: string, c: char, b: string)
    requires a != [] && IsSpace(a[0])
    requires Words(a[1..] + [c] + b) == Words(a[1..]) + Words(b)
    ensures Words(a + [c] + b) == Words(a) + Words(b)
  {
    assert (a + [c] + b)[1..] == a[1..] + [c] + b;
  }

  /** The step of `WordsAroundSpace` over the leading word of `a`. */
  lemma WordsAroundSpaceWord(a: string, c: char, b: string)
    requires IsSpace(c) && a != [] && !IsSpace(a[0])
    requires Words(a[WordLength(a)..] + [c] + b) == Words(a[WordLength(a)..]) + Words(b)
    ensures Words(a + [c] + b) == Words(a) + Words(b)
  {
    var n := WordLength(a);
    WordBeforeSpace(a, c, b);
    WordsStep(a + [c] + b);
    WordsStep(a);
    SeqAssoc([a[..n]], Words(a[n..]), Words(b));
  }

  /** How `Words` takes its first step over a text starting with a word. */
  lemma WordsStep(s: string)
    requires s != [] && !IsSpace(s[0])
    ensures Words(s) == [s[..WordLength(s)]] + Words(s[WordLength(s)..])
  {
  }

  /** The leading word of `a` is the leading word of `a`, a whitespace character, then `b`. */
  lemma WordBeforeSpace(a: string, c: char, b: string)
    requires IsSpace(c) && a != [] && !IsSpace(a[0])
    ensures (a + [c] + b)[0] == a[0]
    ensures WordLength(a + [c] + b) == WordLength(a)
    ensures (a + [c] + b)[..WordLength(a)] == a[..WordLength(a)]
    ensures (a + [c] + b)[WordLength(a)..] == a[WordLength(a)..] + [c] + b
  {
    var x := a + [c] + b;
    var n := WordLength(a);
    WordLengthIs(x, n);
    assert x[..n] == a[..n];
    assert x[n..] == a[n..] + [c] + b;
  }

  lemma {:induction false} WordsSpacePrefix(a: string, b: string)
    requires AllSpace(a)
    ensures Words(a + b) == Words(b)
    decreases |a|
  {
    if a != [] {
      assert (a + b)[0] == a[0];
      assert (a + b)[1..] == a[1..] + b;
      WordsSpacePrefix(a[1..], b);
    } else {
      assert a + b == b;
    }
  }

  lemma WordsSpaceSuffix(a: string, b: string)
    requires AllSpace(b)
    ensures Words(a + b) == Words(a)
  {
    if b != [] {
      assert a + b == a + [b[0]] + b[1..];
      WordsAroundSpace(a, b[0], b[1..]);
      assert AllSpace(b[1..]) by { assert forall i :: 0 <= i < |b| - 1 ==> b[1..][i] == b[i + 1]; }
      WordsOfSpace(b[1..]);
    } else {
      assert a + b == a;
    }
  }

  lemma WordsOfWord(w: string)
    requires IsWord(w)
    ensures Words(w) == [w]
  {
    WordLengthIs(w, |w|);
    assert w[..|w|] == w;
  }

  lemma {:induction false} WordsOfJoinSp(ws: seq<string>)
    requires forall i :: 0 <= i < |ws| ==> IsWord(ws[i])
    ensures Words(JoinSp(ws)) == ws
  {
    if |ws| == 1 {
      WordsOfWord(ws[0]);
    } else if |ws| > 1 {
      WordsAroundSpace(ws[0], ' ', JoinSp(ws[1..]));
      WordsOfWord(ws[0]);
      WordsOfJoinSp(ws[1..]);
    }
  }

  lemma {:induction false} CollapseWordPrefix(w: string, r: string)
    requires forall i :: 0 <= i < |w| ==> !IsSpace(w[i])
    ensures CollapseRuns(w + r) == w + CollapseRuns(r)
    decreases |w|
  {
    if w != [] {
      assert (w + r)[0] == w[0];
      assert (w + r)[1..] == w[1..] + r;
      CollapseWordPrefix(w[1..], r);
      assert w == [w[0]] + w[1..];
    } else {
      assert w + r == r;
    }
  }

  /** On text without leading or trailing whitespace, collapsing the runs joins the words with single spaces. */
  lemma {:induction false} CollapseTrimmed(t: string)
    requires t != [] ==> !IsSpace(t[0]) && !IsSpace(t[|t| - 1])
    ensures CollapseRuns(t) == JoinSp(Words(t))
    decreases |t|
  {
    if t != [] {
      var n := WordLength(t);
      var w, rest := t[..n], t[n..];
      LeadingWord(t);
      WordsStep(t);
      CollapseWordPrefix(w, rest);
      if rest == [] {
        assert JoinSp([w]) == w;
      } else {
        CollapseAfterWord(t, n);
        JoinSpCons(w, Words(rest));
        SeqAssoc(w, " ", JoinSp(Words(rest)));
      }
    }
  }

  /** The leading word of `t` and what follows it make up `t`. */
  lemma LeadingWord(t: string)
    ensures t == t[..WordLength(t)] + t[WordLength(t)..]
    ensures forall i :: 0 <= i < WordLength(t) ==> !IsSpace(t[..WordLength(t)][i])
  {
    var n := WordLength(t);
    assert t == t[..n] + t[n..];
  }

  lemma JoinSpCons(w: string, ws: seq<string>)
    requires ws != []
    ensures JoinSp([w] + ws) == w + " " + JoinSp(ws)
  {
    assert ([w] + ws)[1..] == ws;
  }

  /** The inductive step of `CollapseTrimmed`: a word, a whitespace run, then trimmed text. */
  lemma {:induction false} CollapseAfterWord(t: string, n: nat)
    requires t != [] && !IsSpace(t[0]) && !IsSpace(t[|t| - 1])
    requires n == WordLength(t) && n < |t|
    ensures CollapseRuns(t[n..]) == " " + JoinSp(Words(t[n..]))
    ensures Words(t[n..]) != []
    decreases |t|, 0
  {
    var rest := t[n..];
    assert IsSpace(rest[0]) && rest[|rest| - 1] == t[|t| - 1];
    var m := SpaceRunThenText(rest);
    var rest' := rest[m..];
    assert CollapseRuns(rest) == " " + CollapseRuns(rest');
    CollapseTrimmed(rest');
    WordsSpacePrefix(rest[..m], rest');
    WordsStep(rest');
  }

  /** A text that opens with whitespace and ends without: a whitespace run, then trimmed text that is not empty. */
  lemma SpaceRunThenText(rest: string) returns (m: nat)
    requires rest != [] && IsSpace(rest[0]) && !IsSpace(rest[|rest| - 1])
    ensures m == LeadingSpaceCount(rest) && 0 < m < |rest|
    ensures AllSpace(rest[..m]) && rest == rest[..m] + rest[m..]
    ensures !IsSpace(rest[m..][0]) && !IsSpace(rest[m..][|rest[m..]| - 1])
  {
    m := LeadingSpaceCount(rest);
    LeadingSpaceCountBelow(rest);
    var u, v := rest[..m], rest[m..];
    forall k | 0 <= k < |u| ensures IsSpace(u[k]) {
      assert u[k] == rest[k];
    }
    assert rest == u + v;
    assert v[0] == rest[m];
    assert v[|v| - 1] == rest[|rest| - 1];
  }

  lemma WordsOfStrip(s: string)
    ensures Words(Strip(s)) == Words(s)
  {
    var i, j := StripBounds(s);
    var r := s[i..j];
    WordsSpacePrefix(s[..i], r + s[j..]);
    WordsSpaceSuffix(r, s[j..]);
  }

  // ---------------------------------------------------------------------------
  // normalize_whitespace

  /** The normal form is the words joined by single spaces. */
  lemma NormalizeIsJoinedWords(s: string)
    ensures NormalizeWhitespace(s) == JoinSp(Words(s))
  {
    CollapseTrimmed(Strip(s));
    WordsOfStrip(s);
  }

  lemma {:induction false} JoinSpCanonical(ws: seq<string>)
    requires forall i :: 0 <= i < |ws| ==> IsWord(ws[i])
    ensures Canonical(JoinSp(ws))
  {
    if |ws| > 1 {
      JoinSpCanonical(ws[1..]);
      var w, t := ws[0], JoinSp(ws[1..]);
      var r := w + " " + t;
      assert t != [] by { WordsOfJoinSp(ws[1..]); }
      forall i | 0 <= i < |r| - 1 && IsSpace(r[i]) ensures !IsSpace(r[i + 1]) {
        if i > |w| {
          assert r[i] == t[i - |w| - 1] && r[i + 1] == t[i - |w|];
        }
      }
      forall i | 0 <= i < |r| && IsSpace(r[i]) ensures r[i] == ' ' {
        if i > |w| {
          assert r[i] == t[i - |w| - 1];
        }
      }
    }
  }

  /** `normalize_whitespace` yields canonical text: trimmed, single spaces only. */
  lemma NormalizeCanonical(s: string)
    ensures Canonical(NormalizeWhitespace(s))
  {
    NormalizeIsJoinedWords(s);
    WordsAreWords(s);
    JoinSpCanonical(Words(s));
  }

  /** Normalising twice equals normalising once. */
  lemma NormalizeIdempotent(s: string)
    ensures NormalizeWhitespace(NormalizeWhitespace(s)) == NormalizeWhitespace(s)
  {
    NormalizeIsJoinedWords(s);
    NormalizeIsJoinedWords(NormalizeWhitespace(s));
    WordsAreWords(s);
    WordsOfJoinSp(Words(s));
  }

  /** Two texts have the same normal form exactly when they have the same words. */
  lemma SameNormalForm(a: string, b: string)
    ensures NormalizeWhitespace(a) == NormalizeWhitespace(b) <==> Words(a) == Words(b)
  {
    NormalizeIsJoinedWords(a);
    NormalizeIsJoinedWords(b);
    if NormalizeWhitespace(a) == NormalizeWhitespace(b) {
      WordsAreWords(a);
      WordsAreWords(b);
      WordsOfJoinSp(Words(a));
      WordsOfJoinSp(Words(b));
    }
  }

  // ---------------------------------------------------------------------------
  // Words through line handling

  lemma {:induction false} WordsOfSplitLines(s: string)
    ensures Words(s) == LineWords(SplitLines(s))
    decreases |s|
  {
    if s != [] {
      var k := LineBreakIndex(s);
      if k == |s| {
        assert SplitLines(s) == [s];
        assert LineWords([s]) == Words(s) + LineWords([]);
      } else {
        var rest := s[k + BreakLength(s, k)..];
        WordsOfSplitLines(rest);
        WordsAcrossBreak(s, k);
        assert SplitLines(s) == [s[..k]] + SplitLines(rest);
        assert LineWords([s[..k]] + SplitLines(rest)) == Words(s[..k]) + LineWords(SplitLines(rest));
      }
    }
  }

  /** A line break separates the words before it from those after it. */
  lemma WordsAcrossBreak(s: string, k: nat)
    requires k < |s| && IsLineBreak(s[k])
    ensures Words(s) == Words(s[..k]) + Words(s[k + BreakLength(s, k)..])
  {
    var n := BreakLength(s, k);
    BreakParts(s, k);
    WordsAroundSpace(s[..k], s[k], s[k + 1..]);
    if n == 2 {
      WordsSpaceHead(s[k + 1], s[k + 2..]);
    } else {
      assert k + n == k + 1;
    }
  }

  lemma WordsSpaceHead(c: char, b: string)
    requires IsSpace(c)
    ensures Words([c] + b) == Words(b)
  {
    assert ([c] + b)[1..] == b;
  }

  /** A text split around the line break at `k`. */
  lemma BreakParts(s: string, k: nat)
    requires k < |s| && IsLineBreak(s[k])
    ensures s == s[..k] + [s[k]] + s[k + 1..]
    ensures BreakLength(s, k) == 2 ==> IsSpace(s[k + 1]) && s[k + 1..] == [s[k + 1]] + s[k + 2..]
  {
    assert s == s[..k] + [s[k]] + s[k + 1..];
    if BreakLength(s, k) == 2 {
      assert s[k + 1..] == [s[k + 1]] + s[k + 2..];
    }
  }

  lemma {:induction false} WordsOfJoinNl(lines: seq<string>)
    ensures Words(JoinNl(lines)) == LineWords(lines)
  {
    if |lines| == 1 {
      assert LineWords(lines) == Words(lines[0]) + LineWords([]);
    } else if |lines| > 1 {
      WordsAroundSpace(lines[0], '\n', JoinNl(lines[1..]));
      WordsOfJoinNl(lines[1..]);
    }
  }

  lemma {:induction false} WordsBehindCollapseCRLF(p: string, s: string)
    ensures Words(p + CollapseCRLF(s)) == Words(p + s)
    decreases |s|
  {
    if |s| >= 2 && s[0] == '\r' && s[1] == '\n' {
      WordsBehindCollapseCRLF([], s[2..]);
      CollapseCRLFPair(p, s);
    } else if s != [] {
      WordsBehindCollapseCRLF(p + [s[0]], s[1..]);
      CollapseCRLFOther(p, s);
    }
  }

  /** The step of `WordsBehindCollapseCRLF` over a "\r\n" pair. */
  lemma CollapseCRLFPair(p: string, s: string)
    requires |s| >= 2 && s[0] == '\r' && s[1] == '\n'
    requires Words([] + CollapseCRLF(s[2..])) == Words([] + s[2..])
    ensures Words(p + CollapseCRLF(s)) == Words(p + s)
  {
    var t := s[2..];
    var c := CollapseCRLF(t);
    EmptyPrefix(c);
    EmptyPrefix(t);
    CRLFHead(s);
    WordsSpaceBetween(p, '\n', c);
    WordsSpaceBetween(p, '\r', ['\n'] + t);
    WordsSpaceBetween([], '\n', t);
  }

  /** A text that opens with "\r\n", and what `CollapseCRLF` makes of it. */
  lemma CRLFHead(s: string)
    requires |s| >= 2 && s[0] == '\r' && s[1] == '\n'
    ensures s == ['\r'] + (['\n'] + s[2..])
    ensures CollapseCRLF(s) == ['\n'] + CollapseCRLF(s[2..])
  {
  }

  /** `WordsAroundSpace`, grouped to the right. */
  lemma WordsSpaceBetween(a: string, c: char, b: string)
    requires IsSpace(c)
    ensures Words(a + ([c] + b)) == Words(a) + Words(b)
  {
    assert a + ([c] + b) == a + [c] + b;
    WordsAroundSpace(a, c, b);
  }

  /** The step of `WordsBehindCollapseCRLF` over any other character. */
  lemma CollapseCRLFOther(p: string, s: string)
    requires s != [] && !(|s| >= 2 && s[0] == '\r' && s[1] == '\n')
    requires Words((p + [s[0]]) + CollapseCRLF(s[1..])) == Words((p + [s[0]]) + s[1..])
    ensures Words(p + CollapseCRLF(s)) == Words(p + s)
  {
    assert CollapseCRLF(s) == [s[0]] + CollapseCRLF(s[1..]);
    HeadCons(s);
    SeqAssoc(p, [s[0]], CollapseCRLF(s[1..]));
    SeqAssoc(p, [s[0]], s[1..]);
  }

  lemma {:induction false} WordsBehindCRToLF(p: string, s: string)
    ensures Words(p + CRToLF(s)) == Words(p + s)
    decreases |s|
  {
    if s != [] {
      if s[0] == '\r' {
        WordsBehindCRToLF([], s[1..]);
        CRToLFReturn(p, s);
      } else {
        WordsBehindCRToLF(p + [s[0]], s[1..]);
        CRToLFOther(p, s);
      }
    }
  }

  /** The step of `WordsBehindCRToLF` over a "\r". */
  lemma CRToLFReturn(p: string, s: string)
    requires s != [] && s[0] == '\r'
    requires Words([] + CRToLF(s[1..])) == Words([] + s[1..])
    ensures Words(p + CRToLF(s)) == Words(p + s)
  {
    var t := s[1..];
    var c := CRToLF(t);
    EmptyPrefix(c);
    EmptyPrefix(t);
    CRHead(s);
    WordsSpaceBetween(p, '\n', c);
    WordsSpaceBetween(p, '\r', t);
  }

  /** A text that opens with "\r", and what `CRToLF` makes of it. */
  lemma CRHead(s: string)
    requires s != [] && s[0] == '\r'
    ensures s == ['\r'] + s[1..]
    ensures CRToLF(s) == ['\n'] + CRToLF(s[1..])
  {
  }

  /** The step of `WordsBehindCRToLF` over any other character. */
  lemma CRToLFOther(p: string, s: string)
    requires s != [] && s[0] != '\r'
    requires Words((p + [s[0]]) + CRToLF(s[1..])) == Words((p + [s[0]]) + s[1..])
    ensures Words(p + CRToLF(s)) == Words(p + s)
  {
    assert CRToLF(s) == [s[0]] + CRToLF(s[1..]);
    HeadCons(s);
    SeqAssoc(p, [s[0]], CRToLF(s[1..]));
    SeqAssoc(p, [s[0]], s[1..]);
  }

  lemma HeadCons(s: string)
    requires s != []
    ensures s == [s[0]] + s[1..]
  {
  }

  /** Unifying line endings never changes the words. */
  lemma WordsOfToLF(s: string)
    ensures Words(ToLF(s)) == Words(s)
  {
    WordsBehindCRToLF([], CollapseCRLF(s));
    WordsBehindCollapseCRLF([], s);
    assert [] + CollapseCRLF(s) == CollapseCRLF(s);
    assert [] + ToLF(s) == ToLF(s);
    assert [] + s == s;
  }

  // ---------------------------------------------------------------------------
  // reindent

  /** One line of `reindent`: whitespace-only lines become "", others get the indent. */
  function ReindentLine(line: string, indent: string): string
  {
    if IsBlank(line) then "" else indent + line
  }

  function ReindentLines(lines: seq<string>, indent: string): (r: seq<string>)
    ensures |r| == |lines|
    ensures forall i :: 0 <= i < |lines| ==> r[i] == ReindentLine(lines[i], indent)
  {
    seq(|lines|, i requires 0 <= i < |lines| => ReindentLine(lines[i], indent))
  }

  /** `reindent(text, indent)`: `"\n".join` of the re-indented `splitlines()`. */
  function Reindent(text: string, indent: string): string
  {
    JoinNl(ReindentLines(SplitLines(text), indent))
  }

  /**
   * The output, split at "\n", is exactly one part per line of `splitlines()`:
   * a non-blank line becomes `indent + line`, a whitespace-only line becomes "".
   * Empty text gives empty output; no "\r" survives unless the indent has one.
   */
  lemma ReindentShape(text: string, indent: string)
    requires '\n' !in indent
    ensures text == "" ==> Reindent(text, indent) == ""
    ensures text != "" ==> SplitNl(Reindent(text, indent)) == ReindentLines(SplitLines(text), indent)
    ensures '\r' !in indent ==> '\r' !in Reindent(text, indent)
  {
    var lines := SplitLines(text);
    var out := ReindentLines(lines, indent);
    forall i | 0 <= i < |out| ensures '\n' !in out[i] && ('\r' !in indent ==> '\r' !in out[i]) {
      assert NoLineBreak(lines[i]);
    }
    if text != "" {
      SplitJoin(out);
    }
    if '\r' !in indent {
      JoinNlNoCR(out);
    }
  }

  lemma {:induction false} LineWordsOfReindent(lines: seq<string>, indent: string)
    requires AllSpace(indent)
    ensures LineWords(ReindentLines(lines, indent)) == LineWords(lines)
  {
    if lines != [] {
      var out := ReindentLines(lines, indent);
      assert out[1..] == ReindentLines(lines[1..], indent);
      LineWordsOfReindent(lines[1..], indent);
      if IsBlank(lines[0]) {
        WordsOfSpace(lines[0]);
        WordsOfSpace("");
      } else {
        WordsSpacePrefix(indent, lines[0]);
      }
    }
  }

  /** With a whitespace indent, re-indenting never changes the words, hence never the normal form. */
  lemma ReindentKeepsWords(text: string, indent: string)
    requires AllSpace(indent)
    ensures Words(Reindent(text, indent)) == Words(text)
    ensures NormalizeWhitespace(Reindent(text, indent)) == NormalizeWhitespace(text)
  {
    WordsOfJoinNl(ReindentLines(SplitLines(text), indent));
    LineWordsOfReindent(SplitLines(text), indent);
    WordsOfSplitLines(text);
    SameNormalForm(Reindent(text, indent), text);
  }
}
