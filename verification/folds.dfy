/**
 The one way the core builds a map from a sequence: walk the entries in
 order and `insert` each one that has a key, a later entry replacing an
 earlier one under the same key (Rust's `HashMap::insert`).
 */
module Folds {
  import opened Wrappers

  /** One `insert`, skipped for an entry without a key. */
  function Put<K(==), V>(acc: map<K, V>, k: Option<K>, v: V): (r: map<K, V>)
    ensures k.None? ==> r == acc
    ensures k.Some? ==> r == acc[k.value := v]
  {
    match k
    case None => acc
    case Some(key) => acc[key := v]
  }

  /** The loop: every entry `i`, in order, inserts `vs[i]` under `ks[i]` into `acc`. */
  function LastWins<K(==), V>(acc: map<K, V>, ks: seq<Option<K>>, vs: seq<V>): map<K, V>
    requires |vs| == |ks|
    decreases |ks|
  {
    if |ks| == 0 then acc else LastWins(Put(acc, ks[0], vs[0]), ks[1..], vs[1..])
  }

  /** Entry `i` is the last one with key `n`. */
  ghost predicate LastAt<K>(ks: seq<Option<K>>, n: K, i: int) {
    0 <= i < |ks| && ks[i] == Some(n) && forall j :: i < j < |ks| ==> ks[j] != Some(n)
  }

  /** The keys of the result are the keys already there and the keys of the entries. */
  lemma {:induction false} LastWinsDomain<K, V>(acc: map<K, V>, ks: seq<Option<K>>, vs: seq<V>)
    requires |vs| == |ks|
    ensures forall n :: n in LastWins(acc, ks, vs) <==> n in acc || exists i :: 0 <= i < |ks| && ks[i] == Some(n)
    decreases |ks|
  {
    if |ks| > 0 {
      var acc' := Put(acc, ks[0], vs[0]);
      LastWinsDomain(acc', ks[1..], vs[1..]);
      forall n ensures n in LastWins(acc, ks, vs) <==> n in acc || exists i :: 0 <= i < |ks| && ks[i] == Some(n)
      {
        if exists i :: 1 <= i < |ks| && ks[i] == Some(n) {
          var i :| 1 <= i < |ks| && ks[i] == Some(n);
          assert ks[1..][i - 1] == Some(n);
        }
        if exists i :: 0 <= i < |ks[1..]| && ks[1..][i] == Some(n) {
          var i :| 0 <= i < |ks[1..]| && ks[1..][i] == Some(n);
          assert ks[i + 1] == Some(n);
        }
      }
    }
  }

  /** Under a key some entry has, the result holds the value of the last such entry. */
  lemma {:induction false} LastWinsLast<K, V>(acc: map<K, V>, ks: seq<Option<K>>, vs: seq<V>, n: K, i: int)
    requires |vs| == |ks| && LastAt(ks, n, i)
    ensures n in LastWins(acc, ks, vs) && LastWins(acc, ks, vs)[n] == vs[i]
    decreases |ks|
  {
    var acc' := Put(acc, ks[0], vs[0]);
    if i == 0 {
      LastWinsUntouched(acc', ks[1..], vs[1..], n);
    } else {
      assert forall j :: i - 1 < j < |ks| - 1 ==> ks[1..][j] == ks[j + 1];
      assert LastAt(ks[1..], n, i - 1);
      LastWinsLast(acc', ks[1..], vs[1..], n, i - 1);
    }
  }

  /** Under a key no entry has, the result holds what was already there. */
  lemma {:induction false} LastWinsUntouched<K, V>(acc: map<K, V>, ks: seq<Option<K>>, vs: seq<V>, n: K)
    requires |vs| == |ks| && n in acc
    requires forall j :: 0 <= j < |ks| ==> ks[j] != Some(n)
    ensures n in LastWins(acc, ks, vs) && LastWins(acc, ks, vs)[n] == acc[n]
    decreases |ks|
  {
    if |ks| > 0 {
      assert ks[0] != Some(n);
      assert forall j :: 0 <= j < |ks| - 1 ==> ks[1..][j] == ks[j + 1];
      LastWinsUntouched(Put(acc, ks[0], vs[0]), ks[1..], vs[1..], n);
    }
  }
}
