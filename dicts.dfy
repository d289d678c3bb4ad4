/**
 * Dictionaries filled by assignment in a loop (`d[k] = v` or `d.update(other)`):
 * a later key overwrites an earlier one, so the map keeps the value of the
 * last pair with each key.
 */
module Dicts {

  /** The dictionary built by assigning the pairs in order. */
  function LastWins<K, V>(pairs: seq<(K, V)>): map<K, V>
  {
    if pairs == [] then map[]
    else
      var last := pairs[|pairs| - 1];
      LastWins(pairs[..|pairs| - 1])[last.0 := last.1]
  }

  /** Assigning one more pair. */
  lemma LastWinsSnoc<K, V>(pairs: seq<(K, V)>, k: K, v: V)
    ensures LastWins(pairs + [(k, v)]) == LastWins(pairs)[k := v]
  {
    assert (pairs + [(k, v)])[..|pairs|] == pairs;
  }

  /** A key is in the dictionary exactly when some pair carries it. */
  lemma {:induction false} LastWinsKeys<K, V>(pairs: seq<(K, V)>, k: K)
    ensures k in LastWins(pairs) <==> exists i :: 0 <= i < |pairs| && pairs[i].0 == k
  {
    if pairs != [] {
      var init := pairs[..|pairs| - 1];
      LastWinsKeys(init, k);
      if k in LastWins(init) {
        var i :| 0 <= i < |init| && init[i].0 == k;
        assert pairs[i] == init[i];
      }
      if exists i :: 0 <= i < |pairs| && pairs[i].0 == k {
        var i :| 0 <= i < |pairs| && pairs[i].0 == k;
        if i < |init| {
          assert init[i] == pairs[i];
        }
      }
    }
  }

  /** The value kept for a key is that of the last pair carrying it. */
  lemma {:induction false} LastWinsValue<K, V>(pairs: seq<(K, V)>, i: nat)
    requires i < |pairs|
    requires forall j :: i < j < |pairs| ==> pairs[j].0 != pairs[i].0
    ensures pairs[i].0 in LastWins(pairs) && LastWins(pairs)[pairs[i].0] == pairs[i].1
  {
    var init := pairs[..|pairs| - 1];
    if i < |pairs| - 1 {
      forall j | i < j < |init| ensures init[j].0 != init[i].0 {
        assert init[j] == pairs[j];
      }
      LastWinsValue(init, i);
      assert init[i] == pairs[i];
    }
  }

  /** `d.update(other)` after filling `d` from `a` and `other` from `b`: the same as filling from `a + b`. */
  lemma {:induction false} LastWinsAppend<K, V>(a: seq<(K, V)>, b: seq<(K, V)>)
    ensures LastWins(a + b) == LastWins(a) + LastWins(b)
    decreases |b|
  {
    if b == [] {
      assert a + b == a;
    } else {
      var last := b[|b| - 1];
      var init := b[..|b| - 1];
      assert a + b == (a + init) + [last];
      assert b == init + [last];
      LastWinsSnoc(a + init, last.0, last.1);
      LastWinsSnoc(init, last.0, last.1);
      LastWinsAppend(a, init);
    }
  }

  /** A key that some pair carries has a last pair carrying it. */
  lemma {:induction false} LastOccurrence<K, V>(pairs: seq<(K, V)>, k: K)
    requires exists i :: 0 <= i < |pairs| && pairs[i].0 == k
    ensures exists i :: 0 <= i < |pairs| && pairs[i].0 == k && forall j :: i < j < |pairs| ==> pairs[j].0 != k
  {
    var n := |pairs| - 1;
    if pairs[n].0 != k {
      var init := pairs[..n];
      var i :| 0 <= i < |pairs| && pairs[i].0 == k;
      assert init[i] == pairs[i];
      LastOccurrence(init, k);
      var i' :| 0 <= i' < |init| && init[i'].0 == k && forall j :: i' < j < |init| ==> init[j].0 != k;
      LastInPrefix(pairs, n, k, i');
    }
  }

  /** The last pair carrying `k` before position `n` is the last one overall when position `n` does not carry it. */
  lemma LastInPrefix<K, V>(pairs: seq<(K, V)>, n: nat, k: K, i: nat)
    requires n + 1 == |pairs| && pairs[n].0 != k
    requires i < n && pairs[..n][i].0 == k && forall j :: i < j < n ==> pairs[..n][j].0 != k
    ensures 0 <= i < |pairs| && pairs[i].0 == k && forall j :: i < j < |pairs| ==> pairs[j].0 != k
  {
    forall j | i < j < |pairs| ensures pairs[j].0 != k {
      if j < n { assert pairs[..n][j] == pairs[j]; }
    }
  }

  /** Assigning into the right operand of `+` is assigning into the union. */
  lemma UnionUpdate<K, V>(m: map<K, V>, n: map<K, V>, k: K, v: V)
    ensures (m + n)[k := v] == m + n[k := v]
  {
  }
}
