/**
 * Line endings and line splitting.
 *
 * `str.splitlines()` is modelled with the line breaks "\n", "\r" and "\r\n"
 * only (Python also splits at \v, \f, \x1c-\x1e, \x85, U+2028 and U+2029).
 */
module Lines {
  import opened Strings

  /** `s.replace("\r\n", "\n")`: non-overlapping, left to right. */
  function CollapseCRLF(s: string): string
    decreases |s|
  {
    if |s| >= 2 && s[0] == '\r' && s[1] == '\n' then "\n" + CollapseCRLF(s[2..])
    else if s == [] then []
    else [s[0]] + CollapseCRLF(s[1..])
  }

  /** `s.replace("\r", "\n")`. */
  function CRToLF(s: string): (r: string)
    ensures |r| == |s| && '\r' !in r
  {
    if s == [] then [] else [if s[0] == '\r' then '\n' else s[0]] + CRToLF(s[1..])
  }

  /** `s.replace('\r\n', '\n').replace('\r', '\n')`, as both scripts write it. */
  function ToLF(s: string): (r: string)
    ensures '\r' !in r
  {
    CRToLF(CollapseCRLF(s))
  }

  /** Reference reading of the two passes: each "\r\n" and each lone "\r" becomes one "\n". */
  function OnePassLF(s: string): string
    decreases |s|
  {
    if s == [] then []
    else if s[0] == '\r' then "\n" + OnePassLF(if |s| >= 2 && s[1] == '\n' then s[2..] else s[1..])
    else [s[0]] + OnePassLF(s[1..])
  }

  lemma {:induction false} CRToLFAppend(a: string, b: string)
    ensures CRToLF(a + b) == CRToLF(a) + CRToLF(b)
  {
    if a == [] {
      assert a + b == b;
    } else {
      assert (a + b)[0] == a[0];
      assert (a + b)[1..] == a[1..] + b;
      CRToLFAppend(a[1..], b);
    }
  }

  /** The two replacement passes agree with the one-pass reading on every input. */
  lemma {:induction false} ToLFIsOnePass(s: string)
    ensures ToLF(s) == OnePassLF(s)
    decreases |s|
  {
    if s == [] {
    } else if |s| >= 2 && s[0] == '\r' && s[1] == '\n' {
      ToLFIsOnePass(s[2..]);
      CRToLFAppend("\n", CollapseCRLF(s[2..]));
    } else {
      ToLFIsOnePass(s[1..]);
      CRToLFAppend([s[0]], CollapseCRLF(s[1..]));
    }
  }

  /** Text that already has no "\r" is left alone. */
  lemma {:induction false} ToLFKeepsLFText(s: string)
    requires '\r' !in s
    ensures ToLF(s) == s
    decreases |s|
  {
    if s != [] {
      assert s[0] != '\r';
      assert '\r' !in s[1..] by { assert forall i :: 0 <= i < |s[1..]| ==> s[1..][i] == s[i + 1]; }
      ToLFKeepsLFText(s[1..]);
      CRToLFAppend([s[0]], CollapseCRLF(s[1..]));
    }
  }

  predicate IsLineBreak(c: char) {
    c == '\n' || c == '\r'
  }

  predicate NoLineBreak(s: string) {
    '\n' !in s && '\r' !in s
  }

  /** Index of the first line break, or |s| when there is none. */
  function LineBreakIndex(s: string): (k: nat)
    ensures k <= |s| && NoLineBreak(s[..k])
    ensures k < |s| ==> IsLineBreak(s[k])
  {
    if s == [] || IsLineBreak(s[0]) then 0
    else
      var k := 1 + LineBreakIndex(s[1..]);
      assert s[..k] == [s[0]] + s[1..][..k - 1];
      k
  }

  /** Length of the line break at `k`: "\r\n" counts as one break of two characters. */
  function BreakLength(s: string, k: nat): (n: nat)
    requires k < |s|
    ensures 1 <= n <= 2 && k + n <= |s|
  {
    if s[k] == '\r' && k + 1 < |s| && s[k + 1] == '\n' then 2 else 1
  }

  /** `str.splitlines()`: no trailing empty line for a final line break; "" gives []. */
  function SplitLines(s: string): (lines: seq<string>)
    decreases |s|
    ensures (lines == []) == (s == [])
    ensures forall i :: 0 <= i < |lines| ==> NoLineBreak(lines[i])
  {
    if s == [] then []
    else
      var k := LineBreakIndex(s);
      if k == |s| then [s]
      else [s[..k]] + SplitLines(s[k + BreakLength(s, k)..])
  }

  /** `"\n".join(lines)`. */
  function JoinNl(lines: seq<string>): string
  {
    if lines == [] then ""
    else if |lines| == 1 then lines[0]
    else lines[0] + "\n" + JoinNl(lines[1..])
  }

  /** Index of the first "\n", or |s|. */
  function NewlineIndex(s: string): (k: nat)
    ensures k <= |s| && '\n' !in s[..k]
    ensures k < |s| ==> s[k] == '\n'
  {
    if s == [] || s[0] == '\n' then 0
    else
      var k := 1 + NewlineIndex(s[1..]);
      assert s[..k] == [s[0]] + s[1..][..k - 1];
      k
  }

  /** Any index before which there is no "\n" and at which there is one is `NewlineIndex`. */
  lemma {:induction false} NewlineIndexIs(s: string, k: nat)
    requires k <= |s| && '\n' !in s[..k]
    requires k < |s| ==> s[k] == '\n'
    ensures NewlineIndex(s) == k
  {
    if k > 0 {
      assert s[0] == s[..k][0];
      assert s[1..][..k - 1] == s[..k][1..];
      NewlineIndexIs(s[1..], k - 1);
    }
  }

  /** `s.split("\n")`: always at least one part. */
  function SplitNl(s: string): (parts: seq<string>)
    decreases |s|
    ensures |parts| >= 1
    ensures forall i :: 0 <= i < |parts| ==> '\n' !in parts[i]
  {
    var k := NewlineIndex(s);
    if k == |s| then [s] else [s[..k]] + SplitNl(s[k + 1..])
  }

  /** Splitting at "\n" undoes joining with "\n" when no line holds a "\n". */
  lemma {:induction false} SplitJoin(lines: seq<string>)
    requires |lines| >= 1
    requires forall i :: 0 <= i < |lines| ==> '\n' !in lines[i]
    ensures SplitNl(JoinNl(lines)) == lines
  {
    if |lines| == 1 {
      assert NewlineIndex(lines[0]) == |lines[0]| by {
        assert lines[0][..|lines[0]|] == lines[0];
      }
    } else {
      var head, tail := lines[0], JoinNl(lines[1..]);
      var s := head + "\n" + tail;
      assert s[..|head|] == head;
      NewlineIndexIs(s, |head|);
      assert s[..|head|] == head;
      assert s[|head| + 1..] == tail;
      SplitJoin(lines[1..]);
    }
  }

  /** Joining the parts of `s.split("\n")` with "\n" gives `s` back. */
  lemma {:induction false} JoinSplit(s: string)
    ensures JoinNl(SplitNl(s)) == s
    decreases |s|
  {
    var k := NewlineIndex(s);
    if k < |s| {
      var rest := SplitNl(s[k + 1..]);
      JoinSplit(s[k + 1..]);
      JoinNlCons(s[..k], rest);
      assert s == s[..k] + "\n" + s[k + 1..];
    } else {
      assert s[..k] == s;
    }
  }

  lemma JoinNlCons(a: string, ls: seq<string>)
    requires ls != []
    ensures JoinNl([a] + ls) == a + "\n" + JoinNl(ls)
  {
    assert ([a] + ls)[1..] == ls;
  }

  /** A join of lines without "\r" over "\n" has no "\r". */
  lemma {:induction false} JoinNlNoCR(lines: seq<string>)
    requires forall i :: 0 <= i < |lines| ==> '\r' !in lines[i]
    ensures '\r' !in JoinNl(lines)
  {
    if |lines| > 1 {
      JoinNlNoCR(lines[1..]);
    }
  }

  /** The lines of a text without `pat` have none. */
  lemma {:induction false} AbsentSplitLines(s: string, pat: string)
    requires Absent(s, pat)
    ensures forall i :: 0 <= i < |SplitLines(s)| ==> Absent(SplitLines(s)[i], pat)
    decreases |s|
  {
    if s != [] {
      var k := LineBreakIndex(s);
      if k == |s| {
        assert SplitLines(s) == [s];
      } else {
        var t := s[k + BreakLength(s, k)..];
        AbsentSlice(s, 0, k, pat);
        AbsentSlice(s, k + BreakLength(s, k), |s|, pat);
        assert s[k + BreakLength(s, k)..|s|] == t;
        assert s[0..k] == s[..k];
        AbsentSplitLines(t, pat);
        assert SplitLines(s) == [s[..k]] + SplitLines(t);
      }
    }
  }

  /** Joining lines without `pat` by "\n" yields none, when `pat` holds no "\n". */
  lemma {:induction false} AbsentJoinNl(lines: seq<string>, pat: string)
    requires pat != [] && '\n' !in pat
    requires forall i :: 0 <= i < |lines| ==> Absent(lines[i], pat)
    ensures Absent(JoinNl(lines), pat)
  {
    if |lines| > 1 {
      AbsentJoinNl(lines[1..], pat);
      AbsentJoin(lines[0], '\n', JoinNl(lines[1..]), pat);
    } else if |lines| == 1 {
      assert JoinNl(lines) == lines[0];
    }
  }
}
