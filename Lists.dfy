/** The array operations the store is written with: `map`, `filter` and
    `reverse` of JavaScript arrays, as functions over sequences. Every
    transition of the todo list is one of these applied to a per-item rule. */
module Lists {

  /** `Array.prototype.map`: one result per element, in the same order. */
  function Map<A, B>(f: A -> B, s: seq<A>): (r: seq<B>)
    ensures |r| == |s|
    ensures forall i :: 0 <= i < |s| ==> r[i] == f(s[i])
  {
    if s == [] then [] else [f(s[0])] + Map(f, s[1..])
  }

  /** `Array.prototype.filter`: the elements that pass `p`, in their order. */
  function Filter<A>(p: A -> bool, s: seq<A>): (r: seq<A>)
    ensures |r| <= |s|
    ensures forall i :: 0 <= i < |r| ==> r[i] in s && p(r[i])
    ensures forall i :: 0 <= i < |s| && p(s[i]) ==> s[i] in r
    ensures (forall i :: 0 <= i < |s| ==> p(s[i])) ==> r == s
  {
    if s == [] then [] else (if p(s[0]) then [s[0]] else []) + Filter(p, s[1..])
  }

  /** Filtering keeps the relative order: it distributes over concatenation. */
  lemma {:induction false} FilterAppend<A>(p: A -> bool, a: seq<A>, b: seq<A>)
    ensures Filter(p, a + b) == Filter(p, a) + Filter(p, b)
  {
    if a == [] {
      assert a + b == b;
    } else {
      assert (a + b)[1..] == a[1..] + b;
      FilterAppend(p, a[1..], b);
    }
  }

  /** A sequence is what lies before, at and after any one index. */
  lemma SplitAt<A>(s: seq<A>, k: int)
    requires 0 <= k < |s|
    ensures s == s[..k] + ([s[k]] + s[k + 1..])
  {
  }

  /** `slice().reverse()`: the same elements, last first. */
  function Reverse<A>(s: seq<A>): (r: seq<A>)
    ensures |r| == |s|
    ensures forall i :: 0 <= i < |s| ==> r[i] == s[|s| - 1 - i]
  {
    if s == [] then [] else Reverse(s[1..]) + [s[0]]
  }

  /** Every two elements, the earlier one first, are related by `R`. */
  predicate Pairwise<A>(R: (A, A) -> bool, s: seq<A>)
  {
    forall i, j :: 0 <= i < j < |s| ==> R(s[i], s[j])
  }

  lemma PairwiseTail<A>(R: (A, A) -> bool, s: seq<A>)
    requires Pairwise(R, s) && s != []
    ensures Pairwise(R, s[1..])
  {
    forall i, j | 0 <= i < j < |s[1..]| ensures R(s[1..][i], s[1..][j]) {
      assert s[1..][i] == s[i + 1] && s[1..][j] == s[j + 1];
    }
  }

  lemma PairwiseCons<A>(R: (A, A) -> bool, x: A, s: seq<A>)
    requires Pairwise(R, s)
    requires forall j :: 0 <= j < |s| ==> R(x, s[j])
    ensures Pairwise(R, [x] + s)
  {
    var r := [x] + s;
    forall i, j | 0 <= i < j < |r| ensures R(r[i], r[j]) {
      assert r[j] == s[j - 1];
      if i > 0 { assert r[i] == s[i - 1]; }
    }
  }

  /** Dropping elements cannot break a property that held of every pair. */
  lemma {:induction false} FilterPairwise<A>(R: (A, A) -> bool, p: A -> bool, s: seq<A>)
    requires Pairwise(R, s)
    ensures Pairwise(R, Filter(p, s))
  {
    if s != [] {
      var rest := Filter(p, s[1..]);
      PairwiseTail(R, s);
      FilterPairwise(R, p, s[1..]);
      if p(s[0]) {
        forall j | 0 <= j < |rest| ensures R(s[0], rest[j]) {
          var m :| 0 <= m < |s[1..]| && s[1..][m] == rest[j];
          assert s[m + 1] == rest[j];
        }
        PairwiseCons(R, s[0], rest);
      }
    }
  }
}
