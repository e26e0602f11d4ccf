/** trends.py: comment volume per day (`resample('D').size()`) and the
    videos with the highest mean view count. */
module Trends {
  import opened Wrappers
  import opened Seqs
  import opened Comments
  import opened Grouping
  import opened Ranking

  /** One row of the daily series: a day and the number of comments on it. */
  datatype DayCount = DayCount(day: int, count: nat)

  /** The number of rows published on day `d`. */
  function CountOn(rows: seq<Comment>, d: int): (n: nat)
    ensures n <= |rows|
    decreases |rows|
  {
    if |rows| == 0 then 0
    else CountOn(rows[..|rows| - 1], d) + (if rows[|rows| - 1].publishedDay == d then 1 else 0)
  }

  function FirstDay(rows: seq<Comment>): (d: int)
    requires |rows| > 0
    ensures forall i :: 0 <= i < |rows| ==> d <= rows[i].publishedDay
    ensures exists i :: 0 <= i < |rows| && rows[i].publishedDay == d
    decreases |rows|
  {
    if |rows| == 1 then rows[0].publishedDay
    else
      var d := FirstDay(rows[..|rows| - 1]);
      assert forall i :: 0 <= i < |rows| - 1 ==> rows[..|rows| - 1][i] == rows[i];
      if rows[|rows| - 1].publishedDay < d then rows[|rows| - 1].publishedDay else d
  }

  function LastDay(rows: seq<Comment>): (d: int)
    requires |rows| > 0
    ensures forall i :: 0 <= i < |rows| ==> rows[i].publishedDay <= d
    ensures exists i :: 0 <= i < |rows| && rows[i].publishedDay == d
    decreases |rows|
  {
    if |rows| == 1 then rows[0].publishedDay
    else
      var d := LastDay(rows[..|rows| - 1]);
      assert forall i :: 0 <= i < |rows| - 1 ==> rows[..|rows| - 1][i] == rows[i];
      if rows[|rows| - 1].publishedDay > d then rows[|rows| - 1].publishedDay else d
  }

  /** The sum of the counts of a daily series. */
  function Total(bs: seq<DayCount>): nat
    decreases |bs|
  {
    if |bs| == 0 then 0 else Total(bs[..|bs| - 1]) + bs[|bs| - 1].count
  }

  /** `get_trends_over_time(df)`: one bucket for every day from the earliest
      to the latest publish day, in order, each holding the number of rows
      published that day (0 for a day without comments). */
  method TrendsOverTime(rows: seq<Comment>) returns (series: seq<DayCount>)
    ensures |rows| == 0 ==> series == []
    ensures |rows| > 0 ==> |series| > 0
    ensures forall i :: 0 <= i < |rows| ==> |series| > 0 && series[0].day <= rows[i].publishedDay <= series[|series| - 1].day
    ensures |series| > 0 ==> series[0].count > 0 && series[|series| - 1].count > 0
    ensures forall i :: 0 <= i < |series| ==> series[i].day == series[0].day + i
    ensures forall i :: 0 <= i < |series| ==> series[i].count == CountOn(rows, series[i].day)
    ensures Total(series) == |rows|
  {
    var buckets: seq<DayCount> := [];
    if |rows| > 0 {
      var lo := FirstDay(rows);
      var hi := LastDay(rows);
      var counts := CountDays(rows, lo, hi);
      buckets := seq(|counts|, j requires 0 <= j < |counts| => DayCount(lo + j, counts[j]));
      TotalIsRowCount(rows, lo, hi, buckets);
      var first :| 0 <= first < |rows| && rows[first].publishedDay == lo;
      var last :| 0 <= last < |rows| && rows[last].publishedDay == hi;
      CountOnPositive(rows, first);
      CountOnPositive(rows, last);
    }
    series := buckets;
  }

  /** A day on which some row was published has a positive count. */
  lemma {:induction false} CountOnPositive(rows: seq<Comment>, k: nat)
    requires k < |rows|
    ensures CountOn(rows, rows[k].publishedDay) > 0
    decreases |rows|
  {
    if k < |rows| - 1 {
      assert rows[..|rows| - 1][k] == rows[k];
      CountOnPositive(rows[..|rows| - 1], k);
    }
  }

  /** One pass over the rows that bumps the counter of each row's day. */
  method CountDays(rows: seq<Comment>, lo: int, hi: int) returns (counts: seq<nat>)
    requires lo <= hi
    requires forall i :: 0 <= i < |rows| ==> lo <= rows[i].publishedDay <= hi
    ensures |counts| == hi - lo + 1
    ensures forall j :: 0 <= j < |counts| ==> counts[j] == CountOn(rows, lo + j)
  {
    counts := seq(hi - lo + 1, _ => 0);
    for i := 0 to |rows|
      invariant |counts| == hi - lo + 1
      invariant forall j :: 0 <= j < |counts| ==> counts[j] == CountOn(rows[..i], lo + j)
    {
      var k := rows[i].publishedDay - lo;
      var next := counts[k := counts[k] + 1];
      BumpCount(rows, i, lo, counts, next);
      counts := next;
    }
    assert rows[..|rows|] == rows;
  }

  /** Bumping the counter of row `i`'s day turns the counts of the first `i`
      rows into the counts of the first `i + 1`. */
  lemma BumpCount(rows: seq<Comment>, i: nat, lo: int, counts: seq<nat>, next: seq<nat>)
    requires i < |rows| && 0 <= rows[i].publishedDay - lo < |counts|
    requires forall j :: 0 <= j < |counts| ==> counts[j] == CountOn(rows[..i], lo + j)
    requires next == counts[rows[i].publishedDay - lo := counts[rows[i].publishedDay - lo] + 1]
    ensures |next| == |counts|
    ensures forall j :: 0 <= j < |next| ==> next[j] == CountOn(rows[..i + 1], lo + j)
  {
    forall j | 0 <= j < |next|
      ensures next[j] == CountOn(rows[..i + 1], lo + j)
    {
      CountOnStep(rows, i, lo + j);
    }
  }

  /** Counting one more row adds one for its day and nothing for any other. */
  lemma CountOnStep(rows: seq<Comment>, i: nat, d: int)
    requires i < |rows|
    ensures CountOn(rows[..i + 1], d) == CountOn(rows[..i], d) + (if rows[i].publishedDay == d then 1 else 0)
  {
    assert rows[..i + 1][..i] == rows[..i];
  }

  /** The number of rows published in the days `lo` up to `hi - 1`. */
  function CountBetween(rows: seq<Comment>, lo: int, hi: int): nat
    decreases |rows|
  {
    if |rows| == 0 then 0
    else CountBetween(rows[..|rows| - 1], lo, hi) + (if lo <= rows[|rows| - 1].publishedDay < hi then 1 else 0)
  }

  lemma {:induction false} CountBetweenStep(rows: seq<Comment>, lo: int, hi: int)
    requires lo <= hi
    ensures CountBetween(rows, lo, hi + 1) == CountBetween(rows, lo, hi) + CountOn(rows, hi)
    decreases |rows|
  {
    if |rows| > 0 {
      CountBetweenStep(rows[..|rows| - 1], lo, hi);
    }
  }

  lemma {:induction false} CountBetweenAll(rows: seq<Comment>, lo: int, hi: int)
    requires forall i :: 0 <= i < |rows| ==> lo <= rows[i].publishedDay < hi
    ensures CountBetween(rows, lo, hi) == |rows|
    decreases |rows|
  {
    if |rows| > 0 {
      CountBetweenAll(rows[..|rows| - 1], lo, hi);
    }
  }

  /** The first `n` buckets of a series that counts from day `lo` hold the
      rows published before day `lo + n`. */
  lemma {:induction false} TotalPrefix(rows: seq<Comment>, lo: int, bs: seq<DayCount>, n: nat)
    requires n <= |bs|
    requires forall j :: 0 <= j < |bs| ==> bs[j] == DayCount(lo + j, CountOn(rows, lo + j))
    ensures Total(bs[..n]) == CountBetween(rows, lo, lo + n)
    decreases n
  {
    if n == 0 {
      CountBetweenAll(rows[..0], lo, lo);
      assert forall k :: 0 <= k < |rows| ==> !(lo <= rows[k].publishedDay < lo) ;
      CountBetweenEmpty(rows, lo);
    } else {
      TotalPrefix(rows, lo, bs, n - 1);
      assert bs[..n][..n - 1] == bs[..n - 1];
      CountBetweenStep(rows, lo, lo + n - 1);
    }
  }

  lemma {:induction false} CountBetweenEmpty(rows: seq<Comment>, lo: int)
    ensures CountBetween(rows, lo, lo) == 0
    decreases |rows|
  {
    if |rows| > 0 {
      CountBetweenEmpty(rows[..|rows| - 1], lo);
    }
  }

  /** The counts of the full series add up to the number of rows. */
  lemma TotalIsRowCount(rows: seq<Comment>, lo: int, hi: int, bs: seq<DayCount>)
    requires |bs| == hi - lo + 1
    requires forall i :: 0 <= i < |rows| ==> lo <= rows[i].publishedDay <= hi
    requires forall j :: 0 <= j < |bs| ==> bs[j] == DayCount(lo + j, CountOn(rows, lo + j))
    ensures Total(bs) == |rows|
  {
    TotalPrefix(rows, lo, bs, |bs|);
    assert bs[..|bs|] == bs;
    CountBetweenAll(rows, lo, hi + 1);
  }

  // ---------------------------------------------------------------------------
  // get_top_videos

  /** `top_n`'s default. */
  const DefaultTopN: int := 10

  /** A returned row: a video title and the mean `view_count` of its rows. */
  datatype VideoViews = VideoViews(videoTitle: string, meanViews: real)

  predicate Occurs(rows: seq<Comment>, title: string) {
    exists i :: 0 <= i < |rows| && VideoOf(rows[i]) == Some(title)
  }

  function MeanViews(rows: seq<Comment>, title: string): (v: VideoViews)
    requires Occurs(rows, title)
    ensures v.videoTitle == title
    ensures DescribesVideo(rows, v)
  {
    GroupNonEmpty(rows, VideoOf, title);
    VideoViews(title, Mean(Group(rows, VideoOf, title), ViewsOf))
  }

  /** `groupby('video_title')['view_count'].mean()`. */
  function AllMeans(rows: seq<Comment>): (vs: seq<VideoViews>)
    ensures |vs| == |DistinctKeys(rows, VideoOf)|
    ensures forall i :: 0 <= i < |vs| ==> vs[i].videoTitle == DistinctKeys(rows, VideoOf)[i]
    ensures forall i :: 0 <= i < |vs| ==> Occurs(rows, vs[i].videoTitle) && vs[i] == MeanViews(rows, vs[i].videoTitle)
  {
    var ks := DistinctKeys(rows, VideoOf);
    seq(|ks|, i requires 0 <= i < |ks| => assert ks[i] in ks; MeanViews(rows, ks[i]))
  }

  function Views(v: VideoViews): real { v.meanViews }

  /** `get_top_videos(df, top_n)`. */
  function GetTopVideos(rows: seq<Comment>, topN: int): (r: seq<VideoViews>)
    ensures |rows| == 0 ==> r == []
    ensures IsTopN(r, AllMeans(rows), topN, Views)
  {
    if |rows| == 0 then
      assert AllMeans(rows) == [];
      assert SortedDesc([], Views);
      []
    else TopN(AllMeans(rows), topN, Views)
  }

  /** pandas lists the groups sorted by title, the model in order of first
      appearance. The ranking does not see the difference: every ranking of
      a reordering of the table is a ranking of the table, and back. */
  lemma MeansOrderIrrelevant(rows: seq<Comment>, table: seq<VideoViews>, topN: int, r: seq<VideoViews>)
    requires multiset(table) == multiset(AllMeans(rows))
    ensures IsTopN(r, table, topN, Views) <==> IsTopN(r, AllMeans(rows), topN, Views)
  {
    if IsTopN(r, table, topN, Views) {
      TopNOrderFree(r, table, AllMeans(rows), topN, Views);
    }
    if IsTopN(r, AllMeans(rows), topN, Views) {
      TopNOrderFree(r, AllMeans(rows), table, topN, Views);
    }
  }

  /** `head(top_n)`'s number of the distinct titles, in non-increasing
      order of mean view count. */
  lemma TopVideosOrdered(rows: seq<Comment>, topN: int)
    ensures var r := GetTopVideos(rows, topN);
      && |r| == HeadCount(topN, |DistinctKeys(rows, VideoOf)|)
      && (forall i, j :: 0 <= i < j < |r| ==> r[i].meanViews >= r[j].meanViews)
  {
    var r := GetTopVideos(rows, topN);
    TopNProperties(r, AllMeans(rows), topN, Views);
    assert SortedDesc(r, Views);
  }

  /** Row `i` of the result is the mean of one of the input's titles. */
  lemma TopVideoFromMeans(rows: seq<Comment>, topN: int, i: int)
    requires 0 <= i < |GetTopVideos(rows, topN)|
    ensures var r := GetTopVideos(rows, topN);
      Occurs(rows, r[i].videoTitle) && r[i] == MeanViews(rows, r[i].videoTitle)
  {
    var r := GetTopVideos(rows, topN);
    var vs := AllMeans(rows);
    TopNProperties(r, vs, topN, Views);
    assert r[i] in multiset(r);
    assert r[i] in multiset(vs);
    assert r[i] in vs;
  }

  /** `v` names a title of `rows`, and its `meanViews` is the mean
      `view_count` of the title's rows. */
  ghost predicate DescribesVideo(rows: seq<Comment>, v: VideoViews) {
    var g := Group(rows, VideoOf, v.videoTitle);
    && |g| > 0
    && v.meanViews == Sum(g, ViewsOf) as real / |g| as real
  }

  /** Each returned title occurs in the input with its mean view count. */
  lemma TopVideosDescribe(rows: seq<Comment>, topN: int)
    ensures var r := GetTopVideos(rows, topN);
      forall i :: 0 <= i < |r| ==> DescribesVideo(rows, r[i])
  {
    var r := GetTopVideos(rows, topN);
    forall i | 0 <= i < |r|
      ensures DescribesVideo(rows, r[i])
    {
      TopVideoFromMeans(rows, topN, i);
    }
  }

  /** No title is returned twice. */
  lemma TopVideosDistinct(rows: seq<Comment>, topN: int)
    ensures var r := GetTopVideos(rows, topN);
      forall i, j :: 0 <= i < j < |r| ==> r[i].videoTitle != r[j].videoTitle
  {
    var r := GetTopVideos(rows, topN);
    TopVideosOnce(rows, topN);
    forall i, j | 0 <= i < j < |r|
      ensures r[i].videoTitle != r[j].videoTitle
    {
      TopVideoFromMeans(rows, topN, i);
      TopVideoFromMeans(rows, topN, j);
      if r[i].videoTitle == r[j].videoTitle {
        MultisetTwice(r, i, j);
      }
    }
  }

  /** Every row of the result occurs in it at most once. */
  lemma TopVideosOnce(rows: seq<Comment>, topN: int)
    ensures var r := GetTopVideos(rows, topN);
      forall v :: multiset(r)[v] <= 1
  {
    var r := GetTopVideos(rows, topN);
    TopNProperties(r, AllMeans(rows), topN, Views);
    AllMeansOnce(rows);
  }

  /** The aggregated table has one row per title. */
  lemma AllMeansOnce(rows: seq<Comment>)
    ensures forall v :: multiset(AllMeans(rows))[v] <= 1
  {
    var vs := AllMeans(rows);
    assert forall i, j :: 0 <= i < j < |vs| ==> vs[i] != vs[j];
    DistinctOnce(vs);
  }

  /** Every title of the rows has its mean in the aggregated table. */
  lemma MeanListed(rows: seq<Comment>, title: string)
    requires Occurs(rows, title)
    ensures MeanViews(rows, title) in AllMeans(rows)
  {
    var vs := AllMeans(rows);
    assert title in DistinctKeys(rows, VideoOf);
    var k :| 0 <= k < |vs| && DistinctKeys(rows, VideoOf)[k] == title;
    assert vs[k] == MeanViews(rows, title);
  }

  /** A title left out has a mean no higher than the last one returned. */
  lemma TopVideosLeftOut(rows: seq<Comment>, topN: int, title: string)
    requires Occurs(rows, title)
    ensures var r := GetTopVideos(rows, topN);
      |r| > 0 && (forall i :: 0 <= i < |r| ==> r[i].videoTitle != title) ==>
        MeanViews(rows, title).meanViews <= r[|r| - 1].meanViews
  {
    var r := GetTopVideos(rows, topN);
    var vs := AllMeans(rows);
    TopNProperties(r, vs, topN, Views);
    var v := MeanViews(rows, title);
    MeanListed(rows, title);
    assert v in multiset(vs);
    if |r| > 0 && (forall i :: 0 <= i < |r| ==> r[i].videoTitle != title) {
      assert v !in r;
      assert multiset(r)[v] == 0;
    }
  }
}
