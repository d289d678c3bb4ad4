/**
 * normalize_formatting of the text swapper: every line ending becomes "\n",
 * then at the start of every line the longest run of whole four-space groups
 * becomes one tab per group.
 */
module Formatting {
  import opened Strings
  import opened Lines

  /** Length of the leading run of ' ' characters (a tab ends it). */
  function LeadingBlanks(s: string): (n: nat)
    ensures n <= |s| && forall i :: 0 <= i < n ==> s[i] == ' '
    ensures n < |s| ==> s[n] != ' '
  {
    if s == [] || s[0] != ' ' then 0 else 1 + LeadingBlanks(s[1..])
  }

  /**
   * `re.sub(r'^( {4})+', lambda m: '\t' * (len(m.group(0)) // 4), t, flags=re.MULTILINE)`
   * as a left-to-right scan; `bol` says that the scan stands at a line start,
   * where `^` matches. The greedy group takes every whole group of four.
   */
  function Retab(t: string, bol: bool): (r: string)
    decreases |t|
  {
    if t == [] then []
    else if bol && LeadingBlanks(t) >= 4 then
      var k := LeadingBlanks(t) / 4;
      Repeat('\t', k) + Retab(t[4 * k..], false)
    else [t[0]] + Retab(t[1..], t[0] == '\n')
  }

  /** The scan only writes tabs and characters of its input, so it adds no "\r". */
  lemma {:induction false} RetabNoCR(t: string, bol: bool)
    requires '\r' !in t
    ensures '\r' !in Retab(t, bol)
    decreases |t|
  {
    if t != [] {
      if bol && LeadingBlanks(t) >= 4 {
        var k := LeadingBlanks(t) / 4;
        assert forall c :: c in t[4 * k..] ==> c in t;
        RetabNoCR(t[4 * k..], false);
      } else {
        assert forall c :: c in t[1..] ==> c in t;
        RetabNoCR(t[1..], t[0] == '\n');
      }
    }
  }

  /** normalize_formatting. */
  function NormalizeFormatting(text: string): (r: string)
    ensures '\r' !in r
  {
    RetabNoCR(ToLF(text), true);
    Retab(ToLF(text), true)
  }

  /** One line as the substitution leaves it: its leading spaces regrouped as tabs, four to a tab. */
  function RetabLine(line: string): (r: string)
    ensures '\n' !in line ==> '\n' !in r
  {
    var k := LeadingBlanks(line) / 4;
    assert forall c :: c in line[4 * k..] ==> c in line;
    Repeat('\t', k) + line[4 * k..]
  }

  function RetabLines(lines: seq<string>): (r: seq<string>)
    ensures |r| == |lines| && forall i :: 0 <= i < |lines| ==> r[i] == RetabLine(lines[i])
  {
    seq(|lines|, i requires 0 <= i < |lines| => RetabLine(lines[i]))
  }

  /** A line whose leading run is 4k + r spaces, r < 4, becomes k tabs, r spaces and the unchanged rest. */
  lemma RetabLineShape(line: string, k: nat, r: nat)
    requires LeadingBlanks(line) == 4 * k + r && r < 4
    ensures RetabLine(line) == Repeat('\t', k) + Repeat(' ', r) + line[4 * k + r..]
  {
    assert LeadingBlanks(line) / 4 == k;
    assert line[4 * k..] == line[4 * k..4 * k + r] + line[4 * k + r..];
    assert line[4 * k..4 * k + r] == Repeat(' ', r);
  }

  /** A line starting with a tab, or with fewer than four spaces, is left as it is. */
  lemma RetabLineUntouched(line: string)
    requires line == [] || line[0] == '\t' || LeadingBlanks(line) < 4
    ensures RetabLine(line) == line
  {
    var n := LeadingBlanks(line);
    if line != [] && line[0] == '\t' {
      assert n == 0;
    }
    assert n / 4 == 0;
    assert Repeat('\t', 0) == [];
    assert line[0..] == line;
  }

  lemma RetabLineIdempotent(line: string)
    ensures RetabLine(RetabLine(line)) == RetabLine(line)
  {
    var k := LeadingBlanks(line) / 4;
    if k == 0 {
      RetabLineUntouched(line);
    } else {
      RetabLineUntouched(RetabLine(line));
    }
  }

  /** Away from a line start the scan copies a text without "\n". */
  lemma {:induction false} RetabCopies(x: string, rest: string)
    requires '\n' !in x
    ensures Retab(x + rest, false) == x + Retab(rest, false)
    decreases |x|
  {
    if x != [] {
      assert (x + rest)[1..] == x[1..] + rest;
      RetabCopies(x[1..], rest);
      assert x == [x[0]] + x[1..];
    } else {
      assert x + rest == rest;
    }
  }

  lemma {:induction false} LeadingBlanksAppend(l: string, rest: string)
    requires rest == [] || rest[0] != ' '
    ensures LeadingBlanks(l + rest) == LeadingBlanks(l)
    decreases |l|
  {
    if l == [] {
      assert l + rest == rest;
    } else if l[0] == ' ' {
      assert (l + rest)[1..] == l[1..] + rest;
      LeadingBlanksAppend(l[1..], rest);
    }
  }

  /** One step of the scan at a line start with at least one group of four spaces. */
  lemma RetabGroups(t: string)
    requires LeadingBlanks(t) >= 4
    ensures Retab(t, true) == Repeat('\t', LeadingBlanks(t) / 4) + Retab(t[4 * (LeadingBlanks(t) / 4)..], false)
  {
  }

  /** One step of the scan that copies a character. */
  lemma RetabChar(t: string, bol: bool)
    requires t != [] && !(bol && LeadingBlanks(t) >= 4)
    ensures Retab(t, bol) == [t[0]] + Retab(t[1..], t[0] == '\n')
  {
  }

  /** The scan over one line followed by its "\n" (or by the end of the text) rewrites exactly that line. */
  lemma RetabLineStep(l: string, rest: string)
    requires '\n' !in l
    requires rest == [] || rest[0] == '\n'
    ensures Retab(l + rest, true) == RetabLine(l) + Retab(rest, false)
  {
    LeadingBlanksAppend(l, rest);
    if LeadingBlanks(l) >= 4 {
      RetabLineStepGroups(l, rest);
    } else if l == [] {
      assert l + rest == rest;
      if rest != [] {
        RetabChar(rest, true);
        RetabChar(rest, false);
      }
      RetabLineUntouched(l);
    } else {
      RetabLineStepPlain(l, rest);
    }
  }

  lemma RetabLineStepGroups(l: string, rest: string)
    requires '\n' !in l
    requires LeadingBlanks(l + rest) == LeadingBlanks(l) >= 4
    ensures Retab(l + rest, true) == RetabLine(l) + Retab(rest, false)
  {
    var t := l + rest;
    var k := LeadingBlanks(l) / 4;
    RetabGroups(t);
    assert t[4 * k..] == l[4 * k..] + rest;
    assert '\n' !in l[4 * k..] by {
      assert forall c :: c in l[4 * k..] ==> c in l;
    }
    RetabCopies(l[4 * k..], rest);
    RetabLineIs(l, k);
    SeqAssoc(Repeat('\t', k), l[4 * k..], Retab(rest, false));
  }

  lemma RetabLineIs(l: string, k: nat)
    requires k == LeadingBlanks(l) / 4
    ensures RetabLine(l) == Repeat('\t', k) + l[4 * k..]
  {
  }

  lemma RetabLineStepPlain(l: string, rest: string)
    requires l != [] && '\n' !in l
    requires LeadingBlanks(l + rest) == LeadingBlanks(l) < 4
    ensures Retab(l + rest, true) == RetabLine(l) + Retab(rest, false)
  {
    var t := l + rest;
    RetabChar(t, true);
    assert t[1..] == l[1..] + rest;
    assert '\n' !in l[1..] by {
      assert forall c :: c in l[1..] ==> c in l;
    }
    assert t[0] == l[0] && l[0] != '\n';
    RetabCopies(l[1..], rest);
    RetabLineUntouched(l);
    HeadTail(l, Retab(rest, false));
  }

  lemma HeadTail(l: string, x: string)
    requires l != []
    ensures [l[0]] + (l[1..] + x) == l + x
  {
    assert l == [l[0]] + l[1..];
  }

  /** The scan is the line-by-line rewrite of the text split at "\n". */
  lemma {:induction false} RetabByLines(t: string)
    ensures Retab(t, true) == JoinNl(RetabLines(SplitNl(t)))
    decreases |t|
  {
    var k := NewlineIndex(t);
    if k == |t| {
      RetabOneLine(t);
    } else {
      var l, r := t[..k], t[k + 1..];
      RetabByLines(r);
      RetabFirstLine(t, k);
      assert SplitNl(t) == [l] + SplitNl(r);
      RetabLinesCons(l, SplitNl(r));
      JoinNlCons(RetabLine(l), RetabLines(SplitNl(r)));
    }
  }

  lemma RetabOneLine(t: string)
    requires NewlineIndex(t) == |t|
    ensures Retab(t, true) == JoinNl(RetabLines(SplitNl(t)))
  {
    assert t[..|t|] == t;
    RetabLastLine(t);
    RetabLinesOfOne(t);
  }

  /** The scan over a text without "\n" rewrites it as one line. */
  lemma RetabLastLine(l: string)
    requires '\n' !in l
    ensures Retab(l, true) == RetabLine(l)
  {
    EmptySuffix(l);
    RetabLineStep(l, []);
    EmptySuffix(RetabLine(l));
  }

  lemma RetabLinesOfOne(t: string)
    requires NewlineIndex(t) == |t|
    ensures JoinNl(RetabLines(SplitNl(t))) == RetabLine(t)
  {
    assert SplitNl(t) == [t];
    assert RetabLines([t]) == [RetabLine(t)];
  }

  /** The scan over a text whose first "\n" is at `k`: the first line rewritten, the "\n", the scan of the rest. */
  lemma RetabFirstLine(t: string, k: nat)
    requires k < |t| && k == NewlineIndex(t)
    ensures Retab(t, true) == RetabLine(t[..k]) + "\n" + Retab(t[k + 1..], true)
  {
    var l, rest := t[..k], t[k..];
    SplitAtNewline(t, k);
    RetabLineStep(l, rest);
    RetabChar(rest, false);
    SeqAssoc(RetabLine(l), "\n", Retab(t[k + 1..], true));
  }

  /** A text around its first "\n". */
  lemma SplitAtNewline(t: string, k: nat)
    requires k < |t| && t[k] == '\n'
    ensures t == t[..k] + t[k..]
    ensures t[k..] != [] && t[k..][0] == '\n' && t[k..][1..] == t[k + 1..]
  {
    assert t == t[..k] + t[k..];
    assert t[k..][1..] == t[k + 1..];
  }

  lemma RetabLinesCons(l: string, ls: seq<string>)
    ensures RetabLines([l] + ls) == [RetabLine(l)] + RetabLines(ls)
  {
  }

  /** Line by line: the lines of the result are the rewritten lines of the "\n"-converted input. */
  lemma NormalizeFormattingLines(text: string)
    ensures SplitNl(NormalizeFormatting(text)) == RetabLines(SplitNl(ToLF(text)))
  {
    var ls := RetabLines(SplitNl(ToLF(text)));
    RetabByLines(ToLF(text));
    SplitJoin(ls);
  }

  /** normalize_formatting is idempotent. */
  lemma NormalizeFormattingIdempotent(text: string)
    ensures NormalizeFormatting(NormalizeFormatting(text)) == NormalizeFormatting(text)
  {
    var x := NormalizeFormatting(text);
    ToLFKeepsLFText(x);
    var ls := RetabLines(SplitNl(ToLF(text)));
    NormalizeFormattingLines(text);
    RetabByLines(x);
    RetabByLines(ToLF(text));
    forall i | 0 <= i < |ls| ensures RetabLine(ls[i]) == ls[i] {
      RetabLineIdempotent(SplitNl(ToLF(text))[i]);
    }
    assert RetabLines(ls) == ls;
  }
}
