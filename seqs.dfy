/** Sequence operations the graph editor's handlers are built from: the
    order-keeping `filter` that deletes nodes and edges, per-key distinctness
    of ids, and the id allocator `Math.max(...ids, 0) + 1`. */
module Seqs {

  /** `r` is `s` with some elements deleted and the rest kept in their order. */
  ghost predicate IsSubsequence<T>(r: seq<T>, s: seq<T>)
    decreases |s|
  {
    if r == [] then true
    else if s == [] then false
    else (r[|r| - 1] == s[|s| - 1] && IsSubsequence(r[..|r| - 1], s[..|s| - 1]))
         || IsSubsequence(r, s[..|s| - 1])
  }

  /** The elements of `s` satisfying `keep`, in their original order
      (the `Array.prototype.filter` of the component). */
  function Filter<T(!new)>(s: seq<T>, keep: T -> bool): (r: seq<T>)
    ensures forall x :: x in r <==> x in s && keep(x)
    ensures forall x :: multiset(r)[x] == if keep(x) then multiset(s)[x] else 0
    ensures IsSubsequence(r, s)
    ensures |r| <= |s|
    decreases |s|
  {
    if s == [] then []
    else
      var init, last := s[..|s| - 1], s[|s| - 1];
      assert s == init + [last];
      var rest := Filter(init, keep);
      if keep(last) then
        assert (rest + [last])[..|rest|] == rest;
        rest + [last]
      else
        rest
  }

  /** No two elements of `s` share a key. */
  ghost predicate DistinctBy<T>(s: seq<T>, key: T -> int) {
    forall i, j :: 0 <= i < j < |s| ==> key(s[i]) != key(s[j])
  }

  /** Filtering never makes two kept elements share a key. */
  lemma {:induction false} FilterKeepsDistinct<T(!new)>(s: seq<T>, keep: T -> bool, key: T -> int)
    ensures DistinctBy(s, key) ==> DistinctBy(Filter(s, keep), key)
    decreases |s|
  {
    if s != [] && DistinctBy(s, key) {
      var init, last := s[..|s| - 1], s[|s| - 1];
      assert DistinctBy(init, key) by {
        forall i, j | 0 <= i < j < |init| ensures key(init[i]) != key(init[j]) {
          assert init[i] == s[i] && init[j] == s[j];
        }
      }
      FilterKeepsDistinct(init, keep, key);
      var rest := Filter(init, keep);
      if keep(last) {
        var r := Filter(s, keep);
        assert r == rest + [last];
        forall i, j | 0 <= i < j < |r| ensures key(r[i]) != key(r[j]) {
          if j == |r| - 1 {
            assert r[i] in init;
            var k :| 0 <= k < |init| && init[k] == r[i];
            assert s[k] == r[i];
          } else {
            assert r[i] == rest[i] && r[j] == rest[j];
          }
        }
      }
    }
  }

  /** Appending an element whose key no element has keeps keys distinct. */
  lemma AppendFreshKeepsDistinct<T>(s: seq<T>, x: T, key: T -> int)
    requires forall i :: 0 <= i < |s| ==> key(s[i]) != key(x)
    ensures DistinctBy(s, key) ==> DistinctBy(s + [x], key)
  {
    var r := s + [x];
    if !DistinctBy(s, key) { return; }
    forall i, j | 0 <= i < j < |r| ensures key(r[i]) != key(r[j]) {
      assert r[i] == s[i];
      if j < |s| { assert r[j] == s[j]; }
    }
  }

  /** `Math.max(...ids, 0)`: the largest id, or 0 when there is none above 0. */
  function MaxId(ids: seq<int>): (m: int)
    ensures m >= 0
    ensures forall i :: 0 <= i < |ids| ==> ids[i] <= m
    ensures m == 0 || m in ids
    decreases |ids|
  {
    if ids == [] then 0
    else
      var rest := MaxId(ids[..|ids| - 1]);
      assert ids == ids[..|ids| - 1] + [ids[|ids| - 1]];
      if ids[|ids| - 1] > rest then ids[|ids| - 1] else rest
  }

  /** The id given to a new node, edge or type: `Math.max(...ids, 0) + 1`.
      It is positive and above every id in use, hence not in use. */
  function NextId(ids: seq<int>): (n: int)
    ensures n >= 1
    ensures forall i :: 0 <= i < |ids| ==> ids[i] < n
    ensures n !in ids
    ensures n == 1 || n - 1 in ids
  {
    MaxId(ids) + 1
  }
}
