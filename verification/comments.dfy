/** One row of the comment table the analysis functions receive: the
    columns they read. A column pandas would hold as NaN for this row is
    `None`; the publish time is already parsed to a day number. */
module Comments {
  import opened Wrappers

  datatype Comment = Comment(
    commentId: Option<string>,
    videoTitle: Option<string>,
    channelTitle: Option<string>,
    viewCount: int,
    likeCount: int,
    publishedDay: int)

  function ViewsOf(c: Comment): int { c.viewCount }
  function LikesOf(c: Comment): int { c.likeCount }
  function ChannelOf(c: Comment): Option<string> { c.channelTitle }
  function VideoOf(c: Comment): Option<string> { c.videoTitle }
  predicate HasCommentId(c: Comment) { c.commentId.Some? }
}
