/**
 * Character classes and small string helpers shared by the three scripts.
 *
 * Python's `\s`, `str.isspace` and `str.strip()` use the Unicode whitespace
 * class; this model fixes it to the six ASCII whitespace characters.
 * `str.lower()` is likewise modelled on ASCII letters only.
 */
module Strings {
  import opened Wrappers

  /** Concatenation regroups freely. */
  lemma SeqAssoc<T>(a: seq<T>, b: seq<T>, c: seq<T>)
    ensures a + (b + c) == (a + b) + c
  {
  }

  lemma EmptyPrefix<T>(x: seq<T>)
    ensures [] + x == x
  {
  }

  lemma EmptySuffix<T>(x: seq<T>)
    ensures x + [] == x
  {
  }

  /** A slice of the head `s[..n]` is the same slice of `s`. */
  lemma SliceOfHead<T>(s: seq<T>, n: nat, x: nat, y: nat)
    requires x <= y <= n <= |s|
    ensures s[..n][..y] == s[..y] && s[..n][x..y] == s[x..y] && s[..n][x..] == s[x..n]
  {
  }

  /** A head part of the slice `s[lo..hi]` is a slice of `s`. */
  lemma HeadOfSlice<T>(s: seq<T>, lo: nat, hi: nat, k: nat)
    requires lo <= hi <= |s| && k <= hi - lo
    ensures s[lo..hi][..k] == s[lo..lo + k]
  {
  }

  /** Whitespace as seen by `\s` and `str.strip()` (ASCII subset). */
  predicate IsSpace(c: char) {
    c == ' ' || c == '\t' || c == '\n' || c == '\r' || c == '\U{000C}' || c == '\U{000B}'
  }

  predicate AllSpace(s: string) {
    forall i :: 0 <= i < |s| ==> IsSpace(s[i])
  }

  /** `s.strip() == ""`: the line holds whitespace only. */
  predicate IsBlank(s: string) {
    AllSpace(s)
  }

  /** Length of the leading whitespace run. */
  function LeadingSpaceCount(s: string): (n: nat)
    ensures n <= |s| && forall i :: 0 <= i < n ==> IsSpace(s[i])
    ensures n < |s| ==> !IsSpace(s[n])
  {
    if s == [] || !IsSpace(s[0]) then 0 else 1 + LeadingSpaceCount(s[1..])
  }

  /** A text that ends in a non-whitespace character is not all leading whitespace. */
  lemma {:induction false} LeadingSpaceCountBelow(s: string)
    requires s != [] && !IsSpace(s[|s| - 1])
    ensures LeadingSpaceCount(s) < |s|
  {
    if IsSpace(s[0]) {
      assert s[1..][|s[1..]| - 1] == s[|s| - 1];
      LeadingSpaceCountBelow(s[1..]);
    }
  }

  /** Length of the trailing whitespace run. */
  function TrailingSpaceCount(s: string): (n: nat)
    ensures n <= |s| && forall i :: |s| - n <= i < |s| ==> IsSpace(s[i])
    ensures n < |s| ==> !IsSpace(s[|s| - n - 1])
  {
    if s == [] || !IsSpace(s[|s| - 1]) then 0 else 1 + TrailingSpaceCount(s[..|s| - 1])
  }

  /** `str.strip()`: the slice between the leading and the trailing whitespace runs. */
  function Strip(s: string): (r: string)
    ensures r != [] ==> !IsSpace(r[0]) && !IsSpace(r[|r| - 1])
  {
    var t := s[LeadingSpaceCount(s)..];
    t[..|t| - TrailingSpaceCount(t)]
  }

  /** Where `Strip` cuts: all the whitespace in front of it and all the whitespace behind it. */
  lemma StripBounds(s: string) returns (i: nat, j: nat)
    ensures i <= j <= |s| && Strip(s) == s[i..j] && AllSpace(s[..i]) && AllSpace(s[j..])
    ensures s == s[..i] + (s[i..j] + s[j..])
  {
    i := LeadingSpaceCount(s);
    var t := s[i..];
    var n := TrailingSpaceCount(t);
    j := i + |t| - n;
    assert t[..|t| - n] == s[i..j];
    var u, v := s[..i], s[j..];
    forall k | 0 <= k < |u| ensures IsSpace(u[k]) {
      assert u[k] == s[k];
    }
    forall k | 0 <= k < |v| ensures IsSpace(v[k]) {
      assert v[k] == t[|t| - n + k];
    }
    assert s == u + (s[i..j] + v);
  }

  /** `pat` occurs in `s` at index `k`. */
  predicate StartsAt(s: string, k: nat, pat: string) {
    k + |pat| <= |s| && s[k..k + |pat|] == pat
  }

  /** `s.endswith(suffix)`. */
  predicate EndsWith(s: string, suffix: string) {
    |suffix| <= |s| && s[|s| - |suffix|..] == suffix
  }

  /** The first occurrence of `pat` at or after `from`: the leftmost stop of a lazy `.*?pat`. */
  function IndexOf(s: string, pat: string, from: nat): Option<nat>
    decreases |s| - from
  {
    if from + |pat| > |s| then None
    else if StartsAt(s, from, pat) then Some(from)
    else IndexOf(s, pat, from + 1)
  }

  /** What `IndexOf` finds is an occurrence at or after `from` with none between; when it finds nothing there is none. */
  lemma {:induction false} IndexOfSpec(s: string, pat: string, from: nat)
    decreases |s| - from
    ensures var r := IndexOf(s, pat, from);
      && (r.Some? ==> from <= r.value && StartsAt(s, r.value, pat))
      && (r.Some? ==> forall k :: from <= k < r.value ==> !StartsAt(s, k, pat))
      && (r.None? ==> forall k :: from <= k ==> !StartsAt(s, k, pat))
  {
    if from + |pat| <= |s| && !StartsAt(s, from, pat) {
      IndexOfSpec(s, pat, from + 1);
    }
  }

  /** The occurrence `IndexOf` finds, spelled out. */
  lemma IndexOfFound(s: string, pat: string, from: nat, c: nat)
    requires IndexOf(s, pat, from) == Some(c)
    ensures from <= c && c + |pat| <= |s| && s[c..c + |pat|] == pat
  {
    IndexOfSpec(s, pat, from);
  }

  /** A leftmost occurrence with nothing before it from `from` on is what `IndexOf` finds. */
  lemma {:induction false} IndexOfIs(s: string, pat: string, from: nat, k: nat)
    requires from <= k && StartsAt(s, k, pat)
    requires forall j :: from <= j < k ==> !StartsAt(s, j, pat)
    ensures IndexOf(s, pat, from) == Some(k)
    decreases k - from
  {
    if from < k {
      IndexOfIs(s, pat, from + 1, k);
    }
  }

  /** Occurrences inside a slice are occurrences in the whole text, shifted by the slice's start. */
  lemma SliceStartsAt(s: string, o: nat, x: string, j: nat, pat: string)
    requires o + |x| <= |s| && s[o..o + |x|] == x
    requires j + |pat| <= |x|
    ensures StartsAt(x, j, pat) <==> StartsAt(s, o + j, pat)
  {
    forall i | j <= i < j + |pat| ensures x[i] == s[o + i] {
      assert x[i] == s[o..o + |x|][i];
    }
    assert x[j..j + |pat|] == s[o + j..o + j + |pat|];
  }

  /** The text from `o` up to the first occurrence of `pat` from `o` on, with that occurrence appended, holds `pat` nowhere earlier. */
  lemma FirstOccurrenceSlice(s: string, o: nat, q: nat, pat: string)
    requires o <= q && q + |pat| <= |s| && s[q..q + |pat|] == pat
    requires forall k :: o <= k < q ==> !StartsAt(s, k, pat)
    ensures forall j :: 0 <= j < q - o ==> !StartsAt(s[o..q] + pat, j, pat)
  {
    var x := s[o..q] + pat;
    assert s[o..q + |pat|] == x;
    forall j | 0 <= j < q - o ensures !StartsAt(x, j, pat) {
      if j + |pat| <= |x| {
        SliceStartsAt(s, o, x, j, pat);
      }
    }
  }

  /** ASCII `str.lower()` on one character. */
  function LowerChar(c: char): char {
    if 'A' <= c <= 'Z' then (c as int + 32) as char else c
  }

  /** `str.lower()`, ASCII letters only. */
  function Lower(s: string): (r: string)
    ensures |r| == |s| && forall i :: 0 <= i < |s| ==> r[i] == LowerChar(s[i])
  {
    seq(|s|, i requires 0 <= i < |s| => LowerChar(s[i]))
  }

  /** `n` copies of the character `c`. */
  function Repeat(c: char, n: nat): (r: string)
    ensures |r| == n && forall i :: 0 <= i < n ==> r[i] == c
  {
    seq(n, i => c)
  }

  /** `pat not in s`: no occurrence of `pat` starts anywhere in `s`. */
  predicate Absent(s: string, pat: string) {
    forall j :: 0 <= j < |s| ==> !StartsAt(s, j, pat)
  }

  /** A slice of a text without `pat` has none either. */
  lemma AbsentSlice(s: string, i: nat, k: nat, pat: string)
    requires i <= k <= |s| && Absent(s, pat)
    ensures Absent(s[i..k], pat)
  {
    forall j | 0 <= j < |s[i..k]| && StartsAt(s[i..k], j, pat) ensures false {
      SliceStartsAt(s, i, s[i..k], j, pat);
    }
  }

  /** Gluing two texts without `pat` by a character that `pat` does not contain yields none. */
  lemma AbsentJoin(a: string, c: char, b: string, pat: string)
    requires pat != [] && Absent(a, pat) && Absent(b, pat) && c !in pat
    ensures Absent(a + [c] + b, pat)
  {
    var x := a + [c] + b;
    forall j | 0 <= j < |x| && StartsAt(x, j, pat) ensures false {
      if j + |pat| <= |a| {
        assert x[..|a|] == a;
        SliceStartsAt(x, 0, a, j, pat);
      } else if j > |a| {
        assert x[|a| + 1..|a| + 1 + |b|] == b;
        SliceStartsAt(x, |a| + 1, b, j - |a| - 1, pat);
      } else {
        CharOfOccurrence(x, j, pat, |a|);
      }
    }
  }

  /** Every character covered by an occurrence of `pat` is a character of `pat`. */
  lemma CharOfOccurrence(x: string, j: nat, pat: string, p: nat)
    requires StartsAt(x, j, pat) && j <= p < j + |pat|
    ensures x[p] in pat
  {
    assert x[p] == x[j..j + |pat|][p - j];
  }

  /** Prefixing characters that cannot begin `pat` adds no occurrence. */
  lemma AbsentBehind(a: string, b: string, pat: string)
    requires pat != [] && pat[0] !in a && Absent(b, pat)
    ensures Absent(a + b, pat)
  {
    var x := a + b;
    forall j | 0 <= j < |x| && StartsAt(x, j, pat) ensures false {
      assert x[j] == x[j..j + |pat|][0] == pat[0];
      if j >= |a| {
        assert x[|a|..] == b;
        SliceStartsAt(x, |a|, b, j - |a|, pat);
      }
    }
  }
}
