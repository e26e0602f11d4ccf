/** `get_top_channels`: group the comment rows by channel, take the mean
    views, mean likes and the number of comment ids, score each channel, and
    return the best `top_n` with the means truncated for display. */
module Influencers {
  import opened Wrappers
  import opened Seqs
  import opened Comments
  import opened Grouping
  import opened Ranking

  /** `top_n`'s default. */
  const DefaultTopN: int := 10

  /** A channel's aggregates before display formatting. */
  datatype ChannelStats = ChannelStats(channel: string, meanViews: real, meanLikes: real, comments: nat, score: real)

  /** A returned row: `channel_title, total_views, total_likes,
      comments_in_sample, engagement_score`. */
  datatype ChannelRow = ChannelRow(
    channelTitle: string,
    totalViews: int,
    totalLikes: int,
    commentsInSample: nat,
    engagementScore: real)

  /** `0.5 * total_views + 0.3 * total_likes + 0.2 * comments_in_sample`. */
  function EngagementScore(meanViews: real, meanLikes: real, comments: nat): real {
    meanViews * 0.5 + meanLikes * 0.3 + comments as real * 0.2
  }

  /** `channel` occurs as a channel title in the rows. */
  predicate Occurs(rows: seq<Comment>, channel: string) {
    exists i :: 0 <= i < |rows| && ChannelOf(rows[i]) == Some(channel)
  }

  /** `s` holds the aggregates of its channel's rows: the mean `view_count`
      and `like_count`, the number of non-null `comment_id`s, and the score
      weighted from those three. */
  ghost predicate DescribesStats(rows: seq<Comment>, s: ChannelStats) {
    var g := Group(rows, ChannelOf, s.channel);
    && |g| > 0
    && s.meanViews == Sum(g, ViewsOf) as real / |g| as real
    && s.meanLikes == Sum(g, LikesOf) as real / |g| as real
    && s.comments == Count(g, HasCommentId)
    && s.score == 0.5 * s.meanViews + 0.3 * s.meanLikes + 0.2 * s.comments as real
  }

  /** One row of the aggregated table: the figures of `channel`'s rows. */
  function Stats(rows: seq<Comment>, channel: string): (s: ChannelStats)
    requires Occurs(rows, channel)
    ensures s.channel == channel
    ensures DescribesStats(rows, s)
  {
    GroupNonEmpty(rows, ChannelOf, channel);
    var g := Group(rows, ChannelOf, channel);
    var views := Mean(g, ViewsOf);
    var likes := Mean(g, LikesOf);
    var n := Count(g, HasCommentId);
    ChannelStats(channel, views, likes, n, EngagementScore(views, likes, n))
  }

  /** The `groupby('channel_title').agg(...)` table, one row per channel. */
  function AllStats(rows: seq<Comment>): (ss: seq<ChannelStats>)
    ensures |ss| == |DistinctKeys(rows, ChannelOf)|
    ensures forall i :: 0 <= i < |ss| ==> ss[i].channel == DistinctKeys(rows, ChannelOf)[i]
    ensures forall i :: 0 <= i < |ss| ==> Occurs(rows, ss[i].channel) && ss[i] == Stats(rows, ss[i].channel)
  {
    var ks := DistinctKeys(rows, ChannelOf);
    seq(|ks|, i requires 0 <= i < |ks| => assert ks[i] in ks; Stats(rows, ks[i]))
  }

  /** `astype(int)` on a float: truncation toward zero. */
  function Truncate(x: real): (i: int)
    ensures 0.0 <= x ==> i as real <= x < i as real + 1.0
    ensures x < 0.0 ==> i as real - 1.0 < x <= i as real
  {
    if x >= 0.0 then x.Floor else -((-x).Floor)
  }

  function Display(s: ChannelStats): ChannelRow {
    ChannelRow(s.channel, Truncate(s.meanViews), Truncate(s.meanLikes), s.comments, s.score)
  }

  function Score(s: ChannelStats): real { s.score }

  /** The ranked, not yet formatted, channel table. */
  function TopStats(rows: seq<Comment>, topN: int): (top: seq<ChannelStats>)
    ensures IsTopN(top, AllStats(rows), topN, Score)
    ensures |top| == HeadCount(topN, |AllStats(rows)|)
  {
    TopN(AllStats(rows), topN, Score)
  }

  /** pandas lists the groups sorted by channel, the model in order of first
      appearance. The ranking does not see the difference: every ranking of
      a reordering of the table is a ranking of the table, and back. */
  lemma GroupOrderIrrelevant(rows: seq<Comment>, table: seq<ChannelStats>, topN: int, top: seq<ChannelStats>)
    requires multiset(table) == multiset(AllStats(rows))
    ensures IsTopN(top, table, topN, Score) <==> IsTopN(top, AllStats(rows), topN, Score)
  {
    if IsTopN(top, table, topN, Score) {
      TopNOrderFree(top, table, AllStats(rows), topN, Score);
    }
    if IsTopN(top, AllStats(rows), topN, Score) {
      TopNOrderFree(top, AllStats(rows), table, topN, Score);
    }
  }

  /** `get_top_channels(df, top_n)`. `hasChannelColumn` says whether the
      frame has a `channel_title` column. */
  function GetTopChannels(hasChannelColumn: bool, rows: seq<Comment>, topN: int): (r: seq<ChannelRow>)
    ensures |rows| == 0 || !hasChannelColumn ==> r == []
    ensures topN >= 0 ==> |r| <= topN
  {
    if |rows| == 0 || !hasChannelColumn then []
    else DisplayAll(TopStats(rows, topN))
  }

  /** The formatted rows of a ranked table, in its order. */
  function DisplayAll(top: seq<ChannelStats>): (r: seq<ChannelRow>)
    ensures |r| == |top|
    ensures forall i :: 0 <= i < |r| ==> r[i] == Display(top[i])
  {
    seq(|top|, i requires 0 <= i < |top| => Display(top[i]))
  }

  /** `row` holds the figures of its channel's rows: the truncated means of
      views and likes, the number of comment ids, and the score computed from
      the untruncated means. */
  ghost predicate Describes(row: ChannelRow, rows: seq<Comment>) {
    var g := Group(rows, ChannelOf, row.channelTitle);
    && |g| > 0
    && var meanViews := Sum(g, ViewsOf) as real / |g| as real;
    && var meanLikes := Sum(g, LikesOf) as real / |g| as real;
    && row.totalViews == Truncate(meanViews)
    && row.totalLikes == Truncate(meanLikes)
    && row.commentsInSample == Count(g, HasCommentId)
    && row.engagementScore == 0.5 * meanViews + 0.3 * meanLikes + 0.2 * row.commentsInSample as real
  }

  /** The returned rows are the ranked table's rows, formatted. */
  lemma TopChannelsFormatted(rows: seq<Comment>, topN: int)
    requires |rows| > 0
    ensures var r := GetTopChannels(true, rows, topN);
      var top := TopStats(rows, topN);
      && |r| == |top|
      && (forall i :: 0 <= i < |r| ==> r[i] == Display(top[i]))
      && multiset(top) <= multiset(AllStats(rows))
      && SortedDesc(top, Score)
  {
    TopNProperties(TopStats(rows, topN), AllStats(rows), topN, Score);
  }

  /** A row of the ranked table is a row of the whole table. */
  lemma TopRowFromTable(rows: seq<Comment>, topN: int, i: nat)
    requires |rows| > 0
    requires i < |TopStats(rows, topN)|
    ensures TopStats(rows, topN)[i] in AllStats(rows)
    ensures Occurs(rows, TopStats(rows, topN)[i].channel)
    ensures TopStats(rows, topN)[i] == Stats(rows, TopStats(rows, topN)[i].channel)
  {
    var top := TopStats(rows, topN);
    TopChannelsFormatted(rows, topN);
    assert top[i] in multiset(top);
  }

  /** `head(top_n)`'s number of rows, in non-increasing score order. */
  lemma TopChannelsOrdered(rows: seq<Comment>, topN: int)
    requires |rows| > 0
    ensures var r := GetTopChannels(true, rows, topN);
      && |r| == HeadCount(topN, |DistinctKeys(rows, ChannelOf)|)
      && forall i, j :: 0 <= i < j < |r| ==> r[i].engagementScore >= r[j].engagementScore
  {
    TopChannelsFormatted(rows, topN);
    TopNProperties(TopStats(rows, topN), AllStats(rows), topN, Score);
  }

  /** Each returned row names a channel of the input and holds its figures. */
  lemma TopChannelsDescribe(rows: seq<Comment>, topN: int)
    requires |rows| > 0
    ensures var r := GetTopChannels(true, rows, topN);
      forall i :: 0 <= i < |r| ==> Occurs(rows, r[i].channelTitle) && Describes(r[i], rows)
  {
    var r := GetTopChannels(true, rows, topN);
    var top := TopStats(rows, topN);
    TopChannelsFormatted(rows, topN);
    forall i | 0 <= i < |r|
      ensures Occurs(rows, r[i].channelTitle) && Describes(r[i], rows)
    {
      TopRowFromTable(rows, topN, i);
      GroupNonEmpty(rows, ChannelOf, top[i].channel);
    }
  }

  /** The aggregated table has one row per channel. */
  lemma AllStatsOnce(rows: seq<Comment>)
    ensures forall s :: multiset(AllStats(rows))[s] <= 1
  {
    var ss := AllStats(rows);
    assert forall i, j :: 0 <= i < j < |ss| ==> ss[i] != ss[j];
    DistinctOnce(ss);
  }

  /** No channel is returned twice. */
  lemma TopChannelsDistinct(rows: seq<Comment>, topN: int)
    requires |rows| > 0
    ensures var r := GetTopChannels(true, rows, topN);
      forall i, j :: 0 <= i < j < |r| ==> r[i].channelTitle != r[j].channelTitle
  {
    var r := GetTopChannels(true, rows, topN);
    var top := TopStats(rows, topN);
    var ss := AllStats(rows);
    TopChannelsFormatted(rows, topN);
    AllStatsOnce(rows);
    forall i, j | 0 <= i < j < |r|
      ensures r[i].channelTitle != r[j].channelTitle
    {
      TopRowFromTable(rows, topN, i);
      TopRowFromTable(rows, topN, j);
      if top[i].channel == top[j].channel {
        MultisetTwice(top, i, j);
      }
    }
  }

  /** A table row missing from the ranking scores no higher than its last row. */
  lemma LeftOutStats(rows: seq<Comment>, topN: int, s: ChannelStats)
    requires |rows| > 0
    requires s in AllStats(rows) && s !in TopStats(rows, topN)
    ensures |TopStats(rows, topN)| > 0 ==> s.score <= TopStats(rows, topN)[|TopStats(rows, topN)| - 1].score
  {
    var top := TopStats(rows, topN);
    TopNProperties(top, AllStats(rows), topN, Score);
    assert multiset(top)[s] == 0;
    assert s in multiset(AllStats(rows));
  }

  /** Every channel of the rows has its statistics in the aggregated table. */
  lemma StatsListed(rows: seq<Comment>, c: string)
    requires Occurs(rows, c)
    ensures Stats(rows, c) in AllStats(rows)
  {
    var ss := AllStats(rows);
    assert c in DistinctKeys(rows, ChannelOf);
    var k :| 0 <= k < |ss| && DistinctKeys(rows, ChannelOf)[k] == c;
    assert ss[k] == Stats(rows, c);
  }

  /** A channel that was left out scores no higher than the last row. */
  lemma TopChannelsLeftOut(rows: seq<Comment>, topN: int, c: string)
    requires |rows| > 0
    requires Occurs(rows, c)
    ensures var r := GetTopChannels(true, rows, topN);
      |r| > 0 && (forall i :: 0 <= i < |r| ==> r[i].channelTitle != c) ==>
        Stats(rows, c).score <= r[|r| - 1].engagementScore
  {
    var r := GetTopChannels(true, rows, topN);
    var top := TopStats(rows, topN);
    var ss := AllStats(rows);
    TopChannelsFormatted(rows, topN);
    if |r| > 0 && (forall i :: 0 <= i < |r| ==> r[i].channelTitle != c) {
      var s := Stats(rows, c);
      StatsListed(rows, c);
      forall i | 0 <= i < |top|
        ensures top[i] != s
      {
        assert r[i].channelTitle == top[i].channel;
      }
      LeftOutStats(rows, topN, s);
    }
  }

  function Example(): seq<Comment> {
    [ Comment(Some("c1"), Some("v"), Some("A"), 0, 0, 0),
      Comment(Some("c2"), Some("v"), Some("A"), 1000, 50, 0),
      Comment(Some("c3"), Some("v"), Some("A"), 500, 100, 0) ]
  }

  lemma ExampleGroup()
    ensures DistinctKeys(Example(), ChannelOf) == ["A"]
    ensures Group(Example(), ChannelOf, "A") == Example()
  {
    ExampleKeys();
    var rows := Example();
    assert forall i :: 0 <= i < |rows| ==> ChannelOf(rows[i]) == Some("A");
    FilterKeepsAll(rows, r => ChannelOf(r) == Some("A"));
  }

  lemma ExampleKeys()
    ensures DistinctKeys(Example(), ChannelOf) == ["A"]
  {
    var rows := Example();
    assert rows[..2][..1] == [rows[0]];
    assert rows[..1][..0] == [];
  }

  lemma ExampleSums()
    ensures Sum(Example(), ViewsOf) == 1500
    ensures Sum(Example(), LikesOf) == 150
    ensures Count(Example(), HasCommentId) == 3
  {
    var rows := Example();
    assert rows[..|rows| - 1] == rows[..2];
    assert rows[..2][..1] == rows[..1];
    assert rows[..1][..0] == [];
    assert Sum(rows[..1], ViewsOf) == 0 && Sum(rows[..1], LikesOf) == 0;
    assert Sum(rows[..2], ViewsOf) == 1000 && Sum(rows[..2], LikesOf) == 50;
  }

  /** Three rows of channel A with views 0, 1000, 500 and likes 0, 50, 100:
      means 500 and 50, three comments, score 265.6. */
  lemma WorkedExample()
    ensures GetTopChannels(true, Example(), DefaultTopN) == [ChannelRow("A", 500, 50, 3, 265.6)]
  {
    var s := ChannelStats("A", 500.0, 50.0, 3, 265.6);
    ExampleFormatted(s);
    ExampleDisplay(s);
  }

  lemma ExampleFormatted(s: ChannelStats)
    requires s == ChannelStats("A", 500.0, 50.0, 3, 265.6)
    ensures GetTopChannels(true, Example(), DefaultTopN) == [Display(s)]
  {
    ExampleTop();
    TopChannelsFormatted(Example(), DefaultTopN);
  }

  lemma ExampleDisplay(s: ChannelStats)
    requires s == ChannelStats("A", 500.0, 50.0, 3, 265.6)
    ensures [Display(s)] == [ChannelRow("A", 500, 50, 3, 265.6)]
  {
    assert Truncate(500.0) == 500 && Truncate(50.0) == 50;
  }

  lemma ExampleTop()
    ensures TopStats(Example(), DefaultTopN) == [ChannelStats("A", 500.0, 50.0, 3, 265.6)]
  {
    var s := ChannelStats("A", 500.0, 50.0, 3, 265.6);
    ExampleTable();
    assert SortDesc([s], Score) == [s];
  }

  lemma ExampleTable()
    ensures AllStats(Example()) == [ChannelStats("A", 500.0, 50.0, 3, 265.6)]
  {
    ExampleGroup();
    ExampleStats();
  }

  lemma ExampleStats()
    ensures Occurs(Example(), "A")
    ensures Stats(Example(), "A") == ChannelStats("A", 500.0, 50.0, 3, 265.6)
  {
    ExampleGroup();
    ExampleMeans();
    assert ChannelOf(Example()[0]) == Some("A");
  }

  lemma ExampleMeans()
    ensures Mean(Example(), ViewsOf) == 500.0
    ensures Mean(Example(), LikesOf) == 50.0
    ensures Count(Example(), HasCommentId) == 3
  {
    ExampleSums();
  }
}
