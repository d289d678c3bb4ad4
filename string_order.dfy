/**
 * Python's ordering of `str` values (code point by code point, a proper
 * prefix first) and `sorted(set(...))` over it.
 */
module StringOrder {

  /** `a < b` on Python strings. */
  predicate Less(a: string, b: string)
    decreases |a|
  {
    if a == [] then b != []
    else if b == [] then false
    else if a[0] != b[0] then a[0] < b[0]
    else Less(a[1..], b[1..])
  }

  lemma {:induction false} LessIrreflexive(a: string)
    ensures !Less(a, a)
  {
    if a != [] {
      LessIrreflexive(a[1..]);
    }
  }

  lemma {:induction false} LessTransitive(a: string, b: string, c: string)
    requires Less(a, b) && Less(b, c)
    ensures Less(a, c)
  {
    if a != [] && a[0] == b[0] && b[0] == c[0] {
      LessTransitive(a[1..], b[1..], c[1..]);
    }
  }

  /** Two different strings are ordered one way or the other. */
  lemma {:induction false} LessTotal(a: string, b: string)
    requires a != b
    ensures Less(a, b) || Less(b, a)
  {
    if a != [] && b != [] && a[0] == b[0] {
      assert a == [a[0]] + a[1..] && b == [b[0]] + b[1..];
      LessTotal(a[1..], b[1..]);
    }
  }

  lemma LessAsymmetric(a: string, b: string)
    requires Less(a, b)
    ensures !Less(b, a)
  {
    if Less(b, a) {
      LessTransitive(a, b, a);
      LessIrreflexive(a);
    }
  }

  predicate StrictlyAscending(s: seq<string>) {
    forall i, j :: 0 <= i < j < |s| ==> Less(s[i], s[j])
  }

  /** Every non-empty finite set of strings has a least element. */
  lemma {:induction false} MinExists(xs: set<string>)
    requires xs != {}
    ensures exists m :: m in xs && forall y :: y in xs && y != m ==> Less(m, y)
    decreases |xs|
  {
    var x :| x in xs;
    var rest := xs - {x};
    if rest != {} {
      MinExists(rest);
      var m :| m in rest && forall y :: y in rest && y != m ==> Less(m, y);
      if Less(m, x) {
        assert forall y :: y in xs && y != m ==> Less(m, y);
      } else {
        LessTotal(m, x);
        forall y | y in xs && y != x ensures Less(x, y) {
          if y != m {
            LessTransitive(x, m, y);
          }
        }
      }
    } else {
      assert xs == {x};
    }
  }

  /** `sorted(ids)` for a set `ids`: its elements, each once, in ascending order. */
  method SortIds(ids: set<string>) returns (r: seq<string>)
    ensures StrictlyAscending(r)
    ensures forall x :: x in r <==> x in ids
    ensures |r| == |ids|
  {
    r := [];
    var rest := ids;
    while rest != {}
      invariant StrictlyAscending(r)
      invariant forall x :: x in ids <==> x in r || x in rest
      invariant forall x :: x in r ==> x !in rest
      invariant forall i, y :: 0 <= i < |r| && y in rest ==> Less(r[i], y)
      invariant |r| + |rest| == |ids|
      decreases |rest|
    {
      MinExists(rest);
      var m :| m in rest && forall y :: y in rest && y != m ==> Less(m, y);
      r := r + [m];
      rest := rest - {m};
    }
  }

  /** A set has only one strictly ascending listing: the one `sorted` returns. */
  lemma {:induction false} AscendingUnique(s: seq<string>, t: seq<string>)
    requires StrictlyAscending(s) && StrictlyAscending(t)
    requires forall x :: x in s <==> x in t
    ensures s == t
    decreases |s|
  {
    if s != [] && t != [] {
      assert s[0] in t;
      assert t[0] in s;
      if s[0] != t[0] {
        var i :| 0 <= i < |t| && t[i] == s[0];
        var j :| 0 <= j < |s| && s[j] == t[0];
        assert Less(t[0], s[0]) by { assert i > 0; }
        assert Less(s[0], t[0]) by { assert j > 0; }
        LessAsymmetric(t[0], s[0]);
      } else {
        forall x ensures x in s[1..] <==> x in t[1..] {
          if x in s[1..] {
            var i :| 1 <= i < |s| && s[i] == x;
            assert Less(s[0], x);
            LessIrreflexive(x);
            assert x in t && x != t[0];
          }
          if x in t[1..] {
            var i :| 1 <= i < |t| && t[i] == x;
            assert Less(t[0], x);
            LessIrreflexive(x);
            assert x in s && x != s[0];
          }
        }
        AscendingUnique(s[1..], t[1..]);
        assert s == [s[0]] + s[1..] && t == [t[0]] + t[1..];
      }
    } else {
      SameElementsBothEmpty(s, t);
    }
  }

  lemma SameElementsBothEmpty(s: seq<string>, t: seq<string>)
    requires forall x :: x in s <==> x in t
    ensures s == [] <==> t == []
  {
    if s != [] {
      assert s[0] in t;
    }
    if t != [] {
      assert t[0] in s;
    }
  }

  /** A finite set of strings has a strictly ascending listing. */
  lemma {:induction false} AscendingListingExists(xs: set<string>)
    ensures exists r :: StrictlyAscending(r) && forall x :: x in r <==> x in xs
    decreases |xs|
  {
    if xs == {} {
      assert StrictlyAscending([]);
    } else {
      MinExists(xs);
      var m :| m in xs && forall y :: y in xs && y != m ==> Less(m, y);
      AscendingListingExists(xs - {m});
      var t :| StrictlyAscending(t) && forall x :: x in t <==> x in xs - {m};
      MinBeforeListing(xs, m, t);
    }
  }

  /** The least element of a set, put before an ascending listing of the rest, lists the set in ascending order. */
  lemma MinBeforeListing(xs: set<string>, m: string, t: seq<string>)
    requires m in xs && forall y :: y in xs && y != m ==> Less(m, y)
    requires StrictlyAscending(t) && forall x :: x in t <==> x in xs - {m}
    ensures StrictlyAscending([m] + t) && forall x :: x in [m] + t <==> x in xs
  {
    var r := [m] + t;
    forall i, j | 0 <= i < j < |r| ensures Less(r[i], r[j]) {
      if i == 0 {
        assert r[j] == t[j - 1] && r[j] in xs - {m};
      } else {
        assert r[i] == t[i - 1] && r[j] == t[j - 1];
      }
    }
    forall x ensures x in r <==> x in xs {
      assert x in r <==> x == m || x in t;
    }
  }

  /** `sorted(xs)` for a set `xs`, as a specification: its one strictly ascending listing. */
  ghost function SortedList(xs: set<string>): (r: seq<string>)
    ensures StrictlyAscending(r) && forall x :: x in r <==> x in xs
  {
    AscendingListingExists(xs);
    var r :| StrictlyAscending(r) && forall x :: x in r <==> x in xs;
    r
  }
}
