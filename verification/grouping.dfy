/** `groupby(key)` with `mean` and `count` aggregations. Rows whose key is
    missing are dropped, as pandas does by default. */
module Grouping {
  import opened Wrappers
  import opened Seqs

  /** The distinct keys, in order of first appearance. pandas sorts them by
      key instead; every use in this model ranks the groups afterwards, and
      a ranking does not depend on the order of its input. */
  function DistinctKeys<T>(rows: seq<T>, key: T -> Option<string>): (ks: seq<string>)
    ensures forall i, j :: 0 <= i < j < |ks| ==> ks[i] != ks[j]
    ensures forall k :: k in ks <==> exists i :: 0 <= i < |rows| && key(rows[i]) == Some(k)
    ensures |ks| <= |rows|
  {
    if |rows| == 0 then []
    else
      var init := rows[..|rows| - 1];
      var ks := DistinctKeys(init, key);
      assert forall i :: 0 <= i < |init| ==> rows[i] == init[i];
      match key(rows[|rows| - 1])
      case None => ks
      case Some(k) => if k in ks then ks else ks + [k]
  }

  /** The rows of one group, in input order. */
  function Group<T(!new)>(rows: seq<T>, key: T -> Option<string>, k: string): (g: seq<T>)
    ensures forall i :: 0 <= i < |g| ==> key(g[i]) == Some(k)
    ensures IsSubseq(g, rows)
    ensures forall x :: key(x) == Some(k) ==> multiset(g)[x] == multiset(rows)[x]
  {
    Filter(rows, r => key(r) == Some(k))
  }

  /** Every key that occurs has a non-empty group. */
  lemma GroupNonEmpty<T(!new)>(rows: seq<T>, key: T -> Option<string>, k: string)
    requires exists i :: 0 <= i < |rows| && key(rows[i]) == Some(k)
    ensures |Group(rows, key, k)| > 0
  {
    var i :| 0 <= i < |rows| && key(rows[i]) == Some(k);
    assert rows[i] in multiset(rows);
    assert multiset(Group(rows, key, k))[rows[i]] > 0;
  }

  function Sum<T>(rows: seq<T>, f: T -> int): int
    decreases |rows|
  {
    if |rows| == 0 then 0 else Sum(rows[..|rows| - 1], f) + f(rows[|rows| - 1])
  }

  /** The arithmetic mean of `f` over the rows, as a real (pandas `mean`). */
  function Mean<T>(rows: seq<T>, f: T -> int): (m: real)
    requires |rows| > 0
    ensures m * |rows| as real == Sum(rows, f) as real
  {
    Sum(rows, f) as real / |rows| as real
  }

  /** The number of rows `p` accepts (pandas `count`, which skips missing values). */
  function Count<T>(rows: seq<T>, p: T -> bool): (n: nat)
    ensures n <= |rows|
    decreases |rows|
  {
    if |rows| == 0 then 0 else Count(rows[..|rows| - 1], p) + (if p(rows[|rows| - 1]) then 1 else 0)
  }
}
