/** Go maps as association lists.

    A Go map has distinct keys and an iteration order the program cannot
    choose. An `AList` is the sequence of a map's entries in one such order;
    every property stated over an `AList` therefore holds for every order. */
module Assoc {
  import opened Base

  predicate DistinctKeys<V>(s: seq<(string, V)>) {
    forall i, j | 0 <= i < j < |s| :: s[i].0 != s[j].0
  }

  type AList<V> = s: seq<(string, V)> | DistinctKeys(s) witness []

  predicate HasKey<V>(s: seq<(string, V)>, k: string) {
    exists i | 0 <= i < |s| :: s[i].0 == k
  }

  /** Map lookup `m[k]` with its `ok` flag. */
  function Get<V>(s: seq<(string, V)>, k: string): (r: Option<V>)
    ensures r.None? <==> !HasKey(s, k)
    ensures r.Some? ==> exists i | 0 <= i < |s| :: s[i] == (k, r.value)
  {
    if |s| == 0 then None
    else if s[0].0 == k then Some(s[0].1)
    else
      var r := Get(s[1..], k);
      assert r.Some? ==> exists i | 0 <= i < |s| :: s[i] == (k, r.value) by {
        if r.Some? {
          var i :| 0 <= i < |s[1..]| && s[1..][i] == (k, r.value);
          assert s[i + 1] == (k, r.value);
        }
      }
      assert HasKey(s, k) ==> HasKey(s[1..], k) by {
        if HasKey(s, k) {
          var i :| 0 <= i < |s| && s[i].0 == k;
          assert s[1..][i - 1].0 == k;
        }
      }
      r
  }

  /** With distinct keys the lookup finds the entry that carries the key. */
  lemma GetEntry<V>(s: seq<(string, V)>, i: int)
    requires DistinctKeys(s) && 0 <= i < |s|
    ensures Get(s, s[i].0) == Some(s[i].1)
  {
    var r := Get(s, s[i].0);
    var j :| 0 <= j < |s| && s[j] == (s[i].0, r.value);
  }

  /** Map assignment `m[k] = v`: an existing entry is overwritten in place,
      a new key is appended. */
  function Put<V>(s: AList<V>, k: string, v: V): (r: AList<V>)
    ensures Get(r, k) == Some(v)
    ensures forall k' | k' != k :: Get(r, k') == Get(s, k')
    ensures HasKey(s, k) ==> |r| == |s|
    ensures !HasKey(s, k) ==> |r| == |s| + 1
  {
    if HasKey(s, k) then
      var i :| 0 <= i < |s| && s[i].0 == k;
      var r := s[i := (k, v)];
      assert DistinctKeys(r);
      GetEntry(r, i);
      assert forall k' | k' != k :: Get(r, k') == Get(s, k') by {
        forall k' | k' != k ensures Get(r, k') == Get(s, k') {
          if HasKey(s, k') {
            var j :| 0 <= j < |s| && s[j].0 == k';
            GetEntry(s, j);
            GetEntry(r, j);
          } else {
            assert !HasKey(r, k');
          }
        }
      }
      r
    else
      var r := s + [(k, v)];
      assert DistinctKeys(r);
      GetEntry(r, |s|);
      assert forall k' | k' != k :: Get(r, k') == Get(s, k') by {
        forall k' | k' != k ensures Get(r, k') == Get(s, k') {
          if HasKey(s, k') {
            var j :| 0 <= j < |s| && s[j].0 == k';
            GetEntry(s, j);
            GetEntry(r, j);
          } else {
            assert !HasKey(r, k');
          }
        }
      }
      r
  }

  /** Every entry of `Put(s, k, v)` is the new entry or an entry of `s`. */
  lemma PutEntry<V>(s: AList<V>, k: string, v: V, x: int)
    requires 0 <= x < |Put(s, k, v)|
    ensures Put(s, k, v)[x] == (k, v) || Put(s, k, v)[x] in s
  {
    var r := Put(s, k, v);
    GetEntry(r, x);
    if r[x].0 != k {
      assert Get(s, r[x].0) == Some(r[x].1);
    }
  }
}
