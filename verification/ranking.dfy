/** `sort_values(ascending=False).head(n)`. pandas sorts with quicksort,
    which is not stable, so a ranking is specified up to the order of equal
    keys: it is a prefix of SOME descending ordering of the rows. */
module Ranking {

  predicate SortedDesc<T>(s: seq<T>, key: T -> real) {
    forall i, j :: 0 <= i < j < |s| ==> key(s[i]) >= key(s[j])
  }

  /** How many rows `head(n)` keeps out of `len`: the first `n`, or for a
      negative `n` all but the last `-n`. */
  function HeadCount(n: int, len: nat): (k: nat)
    ensures k <= len
    ensures n >= 0 ==> k == if n < len then n else len
    ensures n < 0 ==> k == if len + n > 0 then len + n else 0
  {
    if n >= 0 then (if n < len then n else len)
    else (if len + n > 0 then len + n else 0)
  }

  function Min(a: int, b: int): int {
    if a <= b then a else b
  }

  /** `head(n)`: a prefix of `s`, with the rest dropped. For `n >= 0` the
      first `n` rows stay, so `|s| - min(n, |s|)` are dropped; for a negative
      `n` the last `-n` rows are dropped, or all of them when there are fewer. */
  function Head<T>(s: seq<T>, n: int): (r: seq<T>)
    ensures |r| == HeadCount(n, |s|)
    ensures r == s[..|r|]
    ensures r + s[|r|..] == s
    ensures |s[|r|..]| == if n < 0 then Min(-n, |s|) else |s| - Min(n, |s|)
  {
    s[..HeadCount(n, |s|)]
  }

  /** Places `x` into a descending sequence. */
  function Insert<T>(x: T, s: seq<T>, key: T -> real): (r: seq<T>)
    requires SortedDesc(s, key)
    ensures SortedDesc(r, key)
    ensures multiset(r) == multiset(s) + multiset{x}
    ensures |r| == |s| + 1
    ensures r[0] == x || (|s| > 0 && r[0] == s[0])
    decreases |s|
  {
    if |s| == 0 then [x]
    else if key(x) >= key(s[0]) then [x] + s
    else
      assert s == [s[0]] + s[1..];
      var r' := Insert(x, s[1..], key);
      ConsSorted(s[0], r', key);
      [s[0]] + r'
  }

  /** A head no smaller than the first element keeps a descending sequence
      descending. */
  lemma ConsSorted<T>(h: T, t: seq<T>, key: T -> real)
    requires SortedDesc(t, key)
    requires |t| > 0 ==> key(h) >= key(t[0])
    ensures SortedDesc([h] + t, key)
  {
    var r := [h] + t;
    forall i, j | 0 <= i < j < |r|
      ensures key(r[i]) >= key(r[j])
    {
      assert r[j] == t[j - 1];
      if i > 0 {
        assert r[i] == t[i - 1];
      } else {
        assert key(t[0]) >= key(t[j - 1]);
      }
    }
  }

  /** One descending ordering of `s`. */
  function SortDesc<T>(s: seq<T>, key: T -> real): (r: seq<T>)
    ensures SortedDesc(r, key)
    ensures multiset(r) == multiset(s)
    decreases |s|
  {
    if |s| == 0 then []
    else
      assert s == [s[0]] + s[1..];
      Insert(s[0], SortDesc(s[1..], key), key)
  }

  /** `r` is what `sort_values(ascending=False).head(n)` may return for `s`. */
  ghost predicate IsTopN<T(!new)>(r: seq<T>, s: seq<T>, n: int, key: T -> real) {
    exists t :: |t| == |s| && multiset(t) == multiset(s) && SortedDesc(t, key) && r == t[..HeadCount(n, |s|)]
  }

  /** The descending top `n` of `s`, ties in whatever order the sort leaves them. */
  function TopN<T(!new)>(s: seq<T>, n: int, key: T -> real): (r: seq<T>)
    ensures IsTopN(r, s, n, key)
    ensures |r| == HeadCount(n, |s|)
  {
    var t := SortDesc(s, key);
    assert |t| == |s| by {
      assert |multiset(t)| == |multiset(s)|;
    }
    Head(t, n)
  }

  /** A top-`n` ranking depends on the rows only, not on their order: any
      ranking of `s` is also one of every permutation of `s`. */
  lemma TopNOrderFree<T(!new)>(r: seq<T>, s: seq<T>, s': seq<T>, n: int, key: T -> real)
    requires multiset(s) == multiset(s')
    requires IsTopN(r, s, n, key)
    ensures IsTopN(r, s', n, key)
  {
    var t :| |t| == |s| && multiset(t) == multiset(s) && SortedDesc(t, key) && r == t[..HeadCount(n, |s|)];
    assert |s| == |s'| by {
      assert |multiset(s)| == |multiset(s')|;
    }
    assert |t| == |s'| && multiset(t) == multiset(s') && SortedDesc(t, key) && r == t[..HeadCount(n, |s'|)];
  }

  /** What a top-`n` ranking guarantees: it is descending, it has `head`'s
      length, it takes rows only from `s`, and every row it leaves out ranks
      no higher than its last row. */
  lemma TopNProperties<T(!new)>(r: seq<T>, s: seq<T>, n: int, key: T -> real)
    requires IsTopN(r, s, n, key)
    ensures SortedDesc(r, key)
    ensures |r| == HeadCount(n, |s|)
    ensures multiset(r) <= multiset(s)
    ensures forall x :: multiset(r)[x] < multiset(s)[x] && |r| > 0 ==> key(x) <= key(r[|r| - 1])
  {
    var t :| |t| == |s| && multiset(t) == multiset(s) && SortedDesc(t, key) && r == t[..HeadCount(n, |s|)];
    var rest := t[|r|..];
    assert t == r + rest;
    assert multiset(t) == multiset(r) + multiset(rest);
    forall x | multiset(r)[x] < multiset(s)[x] && |r| > 0
      ensures key(x) <= key(r[|r| - 1])
    {
      assert x in multiset(rest);
      assert x in rest;
      var j :| 0 <= j < |rest| && rest[j] == x;
      assert t[|r| + j] == x;
      assert t[|r| - 1] == r[|r| - 1];
    }
  }
}
