# YouTube comment analytics: a Dafny model of the processing core

This project models the data-processing core of a YouTube comment
analytics application and proves properties of it. It covers five pieces.

- **Comment cleaner.** `clean_text` deletes URLs, `@mentions` and `#`
  marks, then drops punctuation and lowers the case. It then tokenizes,
  removes stopwords and joins what is left with single spaces.
- **Sentiment label.** `get_sentiment` maps VADER's compound score to
  `Positive`, `Negative` or `Neutral`.
- **Top channels.** `get_top_channels` groups comment rows by channel and
  computes the mean views, mean likes, comment count and an engagement
  score. It returns the best `top_n` channels, with the means truncated
  for display.
- **Trends.** `get_trends_over_time` builds the daily comment series.
  `get_top_videos` returns the titles with the highest mean view count.
- **Feature pipeline.** This is the `FeatureEngineer` class. It computes
  the engagement ratio, assigns LDA topics to the English documents, and
  rebuilds the featured collection from the raw one.

Modules, one per source concept:

| module | file | models |
|---|---|---|
| `Chars` | chars.dfy | `\s`, `\w` and `str.lower` on `str` values; non-ASCII letters and case mappings come from a `UnicodeTable` parameter |
| `Seqs` | seqs.dfy | subsequences and an order-keeping filter |
| `Wrappers` | wrappers.dfy | `Option` and `Result` |
| `Preprocessor` | preprocessor.dfy | `clean_text`, step by step |
| `CleaningExamples` | cleaning_examples.dfy | a worked example comment, the comment of the repository's preprocessing test, and the input that shows the cleaner is not idempotent |
| `Sentiment` | sentiment.dfy | `get_sentiment`, with the VADER scorer as a parameter |
| `Comments` | comments.dfy | one row of the comment table |
| `Grouping` | grouping.dfy | `groupby` with `mean` and `count` |
| `Ranking` | ranking.dfy | `sort_values(ascending=False).head(n)` |
| `Influencers` | influencers.dfy | `get_top_channels` |
| `Trends` | trends.dfy | `get_trends_over_time` and `get_top_videos` |
| `FeatureEngineering` | features.dfy | `compute_engagement_metrics`, `run_topic_modeling` and `run` |

Modelling choices that matter when reading the contracts:

- Each regular expression is modelled as Python's `re.sub` scans it:
  - left to right;
  - greedy at each position;
  - non-overlapping.

  `http\S+|www\S+|https\S+` deletes the whole non-whitespace run that
  starts at `http` or `www` followed by a non-space character. The
  `https` alternative never matches first. The pattern is case-sensitive.
- `\@\w+|\#` deletes a `@` together with its word run, and every `#`. A
  `@` that is not followed by a word character is kept.
- `word_tokenize` is modelled as a whitespace split. The stopword list is a
  parameter.
- pandas `sort_values` uses quicksort, which is not stable. A ranking is
  therefore specified up to the order of equal keys: it is the first rows
  of some descending ordering (`Ranking.IsTopN`). `head(n)` with a negative
  `n` keeps all but the last `-n` rows.
- `groupby` drops rows whose key is missing. `astype(int)` truncates toward
  zero. Means are exact reals.
- `resample('D').size()` yields one bucket for every day from the first to
  the last publish day, and a day without comments counts 0. Days are
  integers.
- CountVectorizer's document-frequency check is modelled. With
  `max_df=0.9` and `min_df=2`, one or two English documents make
  `fit_transform` raise `ValueError`. Vocabulary building plus LDA is a
  parameter: a function from the English corpus either to one vector of
  `NUM_TOPICS` entries per document, or to nothing when no term is left,
  which also raises `ValueError`. That shape is all the model assumes of
  it.
- `groupby` lists its groups sorted by key; the model lists them in order
  of first appearance. Each grouped table is ranked afterwards, and a
  ranking does not depend on the order of its input
  (`Ranking.TopNOrderFree`), so no result differs.

Where the code behaves differently from what its names, comments or test
suggest, the model follows the code:

- **The cleaner is not idempotent.** `HTTPx` survives the first pass
  because the URL pattern is case-sensitive. That pass lowers it to
  `httpx`, which a second pass deletes (`CleaningExamples.CleanTextNotIdempotent`).
- **The featured collection can hold more documents than the raw one.**
  When the raw collection is empty, `run` returns before it deletes the
  old featured documents (`FeatureEngineering.FeaturedMayOutgrowRaw`).
- **The top-video ranking is not stable.** Titles with equal means may
  come back in either order.
- **The test cannot run.** `tests/test_preprocessing.py` and
  `feature_engineering_pipeline.py:6` import `clean_text_multilingual`,
  which `src/processing/preprocessor.py` does not define, so the feature
  pipeline module fails to import. The model uses `clean_text`. The
  test's comment also starts with `This is a test!`. `clean_text` keeps
  `test`, which is not an English stopword, and so cleans the whole
  comment to `test check follow awesome`
  (`CleaningExamples.TestCommentCleaned`). The expected
  `check follow awesome` holds only for the comment without that first
  sentence (`CleaningExamples.ExampleCleaned`).

## Model

| member | source | states |
|---|---|---|
| Chars.Lower | src/processing/preprocessor.py:15 | `str.lower` on one character: an upper-case ASCII letter becomes its lower-case letter (code point plus 32), every other ASCII character and every whitespace character stays as it is |
| Preprocessor.StripUrlsRemovesAll | src/processing/preprocessor.py:9 | after the URL step no match of the URL pattern starts anywhere in the text |
| Preprocessor.StripUrlsKeepsClean | src/processing/preprocessor.py:9 | a text in which no match starts comes out unchanged; with the previous row, the URL step is idempotent |
| Preprocessor.StripUrlsSubseq | src/processing/preprocessor.py:9 | the URL step only deletes characters: its output is a subsequence of its input |
| Preprocessor.StripUrlsLeadingRun | src/processing/preprocessor.py:9 | the leading non-whitespace run of the output is a prefix of the input's: a deleted URL always ends at whitespace |
| Preprocessor.UrlDeleted | src/processing/preprocessor.py:9 | a URL is deleted up to the whitespace that ends it, because `\S+` is greedy |
| Preprocessor.StripUrlsKeepsUrlFree | src/processing/preprocessor.py:9 | a prefix in which every `h` and every `w` is followed, inside the prefix, by a character other than `t` and `w` is copied unchanged, whatever follows it |
| Preprocessor.StripMentionsShape | src/processing/preprocessor.py:11 | the mention step only deletes characters, and no `#` survives it |
| Preprocessor.MentionDeleted | src/processing/preprocessor.py:11 | `@` followed by a word run is deleted together with the whole run |
| Preprocessor.HashtagTextKept | src/processing/preprocessor.py:11 | a hashtag loses its `#` but keeps its text |
| Preprocessor.StripMentionsKeepsPlain | src/processing/preprocessor.py:11 | a text without `@` or `#` passes the mention step unchanged |
| Preprocessor.StripMentionsKeepsPlainPrefix | src/processing/preprocessor.py:11 | a prefix without `@` or `#` is copied unchanged, whatever follows it |
| Preprocessor.WordsKept | src/processing/preprocessor.py:11 | word characters at the front of the text are kept, since no word character is `@` or `#` |
| Preprocessor.StripPunct | src/processing/preprocessor.py:13 | only word and whitespace characters remain, in input order, each as often as in the input |
| Preprocessor.LowerTextShape | src/processing/preprocessor.py:15 | lowering a word-and-whitespace text keeps it word-and-whitespace, and every character is then its own lower case |
| Preprocessor.SplitChars | src/processing/preprocessor.py:15 | tokens contain no whitespace, and only characters of the text |
| Preprocessor.SplitAtSpace | src/processing/preprocessor.py:15 | tokenizing splits at whitespace: the tokens of `a + c + b` with `c` whitespace are those of `a` followed by those of `b` |
| Preprocessor.SplitJoin | src/processing/preprocessor.py:15-18 | splitting a space-joined list of non-empty whitespace-free tokens gives back the list |
| Preprocessor.FilterStop | src/processing/preprocessor.py:17 | no kept token is a stopword, the kept tokens keep their order, and every other token is kept as often as it occurs |
| Preprocessor.JoinSingleSpaced | src/processing/preprocessor.py:18 | joining non-empty whitespace-free tokens gives no whitespace at either end and single spaces between tokens |
| Preprocessor.CleanTextShape | src/processing/preprocessor.py:7-18 | the output holds only lower-case word characters and single spaces; its tokens are exactly the non-stopword tokens of the normalised text, in order, each kept as often as it occurs |
| Preprocessor.CleanTextAllStopwords | src/processing/preprocessor.py:17-18 | a text whose every token is a stopword cleans to the empty string |
| Preprocessor.UrlsOnlyCleanToEmpty | src/processing/preprocessor.py:7-18 | a text made only of URLs separated by single spaces cleans to the empty string, whatever the stopwords: the URL step leaves only the spaces, which the later steps keep and the tokenizer drops |
| CleaningExamples.CleanTextNotIdempotent | src/processing/preprocessor.py:9-15 | `HTTPx` cleans to `httpx`, which cleans to the empty string |
| CleaningExamples.ExampleCleaned | src/processing/preprocessor.py:7-18 | with `out` and `and` as stopwords, `Check out https://example.com and follow @user #Awesome!` cleans to `check follow awesome` |
| CleaningExamples.TestCommentCleaned | tests/test_preprocessing.py:4-7 | with `this`, `is`, `a`, `out` and `and` as stopwords, the English test comment cleans to `test check follow awesome` and not to the `check follow awesome` the test expects |
| Sentiment.GetSentiment | src/analysis/sentiment.py:24-40 | a non-string is `Neutral`; a string is `Positive` exactly when its compound score is at least 0.05, `Negative` exactly when it is at most -0.05, and `Neutral` exactly in between |
| Sentiment.Classify | src/analysis/sentiment.py:35-40 | the three threshold cases, each as an if-and-only-if |
| Sentiment.ClassifyMonotone | src/analysis/sentiment.py:35-40 | a higher compound score never gets a lower label |
| Sentiment.Name | src/analysis/sentiment.py:35-40 | the label is returned as one of the strings `Positive`, `Negative` or `Neutral` |
| Grouping.DistinctKeys | src/analysis/influencers.py:11 | the groups: each present key once, and only keys that occur in the rows |
| Grouping.Group | src/analysis/influencers.py:11 | a group holds exactly the rows with its key, in input order |
| Grouping.GroupNonEmpty | src/analysis/influencers.py:11 | a key that occurs has a non-empty group |
| Grouping.Mean | src/analysis/influencers.py:12-13 | the mean times the group size is the group's sum |
| Ranking.Head | src/analysis/influencers.py:25 | `head(n)` keeps a prefix and drops the rest: for `n >= 0` it drops all but the first `min(n, len)` rows, for a negative `n` the last `min(-n, len)` rows |
| Ranking.Insert | src/analysis/influencers.py:25 | inserting into a descending sequence keeps it descending and adds exactly that element |
| Ranking.SortDesc | src/analysis/influencers.py:25 | the result is descending and a permutation of the input |
| Ranking.TopNProperties | src/analysis/influencers.py:25 | a top-`n` ranking is descending, has `head`'s length and takes rows only from the table, and every row it leaves out ranks no higher than its last row |
| Ranking.TopNOrderFree | src/analysis/influencers.py:11-25 | a ranking depends only on which rows the table holds: a ranking of a table is a ranking of every reordering of it |
| Influencers.Truncate | src/analysis/influencers.py:28-29 | `astype(int)` truncates toward zero, for both signs |
| Influencers.Stats | src/analysis/influencers.py:11-22 | one row of the aggregated table holds its channel's mean `view_count` and mean `like_count` (group sum over group size), the number of non-null `comment_id`s, and the score 0.5·views + 0.3·likes + 0.2·comments from those untruncated figures |
| Influencers.AllStats | src/analysis/influencers.py:11-22 | the aggregated table has exactly one row per distinct channel of the input, each holding that channel's aggregates as the previous row states them |
| Influencers.GroupOrderIrrelevant | src/analysis/influencers.py:11-25 | ranking the table with its rows in any other order, such as sorted by channel as `groupby` lists them, allows exactly the same results |
| Influencers.GetTopChannels | src/analysis/influencers.py:7-8 | an empty frame, or one without `channel_title`, gives an empty result; otherwise, for a non-negative `top_n`, there are at most `top_n` rows |
| Influencers.TopChannelsOrdered | src/analysis/influencers.py:25 | the result has `head(top_n)`'s length over the channels and is in non-increasing score order |
| Influencers.TopChannelsDescribe | src/analysis/influencers.py:11-31 | every row names a channel of the input and holds the truncated mean views and likes of its rows, its comment count, and the score computed from the untruncated means |
| Influencers.TopChannelsDistinct | src/analysis/influencers.py:11-25 | no channel appears twice |
| Influencers.TopChannelsLeftOut | src/analysis/influencers.py:25 | a channel that is left out scores no higher than the last row returned |
| Influencers.WorkedExample | src/analysis/influencers.py:11-31 | three comments of one channel with views 0, 1000 and 500 and likes 0, 50 and 100 give the single row `A, 500, 50, 3, 265.6` |
| Trends.TrendsOverTime | src/analysis/trends.py:4-9 | no rows give an empty series; otherwise there is one bucket per consecutive day, every row's day lies between the first and the last bucket, both end buckets are non-empty (so the series runs exactly from the first to the last publish day), each bucket holds the number of rows of its day, and the counts add up to the number of rows |
| Trends.CountDays | src/analysis/trends.py:8 | after one pass, each day's counter equals the number of rows published that day |
| Trends.TotalIsRowCount | src/analysis/trends.py:8 | the counts of the full daily series add up to the number of rows |
| Trends.FirstDay | src/analysis/trends.py:8 | the earliest publish day: no row is earlier, and some row has it |
| Trends.LastDay | src/analysis/trends.py:8 | the latest publish day: no row is later, and some row has it |
| Trends.AllMeans | src/analysis/trends.py:14 | the `groupby('video_title')['view_count'].mean()` table has exactly one row per distinct title of the input, each holding the mean `view_count` of that title's rows |
| Trends.GetTopVideos | src/analysis/trends.py:11-15 | an empty frame gives an empty result; otherwise the result is a top-`top_n` ranking of the per-title means |
| Trends.TopVideosOrdered | src/analysis/trends.py:14 | the result has `head(top_n)`'s length over the titles and is in non-increasing order of mean views |
| Trends.TopVideosDescribe | src/analysis/trends.py:14 | every row names a title of the input with the mean `view_count` of that title's rows |
| Trends.TopVideosDistinct | src/analysis/trends.py:14 | no title appears twice |
| Trends.TopVideosLeftOut | src/analysis/trends.py:14 | a title that is left out has a mean no higher than the last row returned |
| Trends.MeansOrderIrrelevant | src/analysis/trends.py:14 | ranking the per-title means in any other order, such as sorted by title as `groupby` lists them, allows exactly the same results |
| FeatureEngineering.ComputeEngagement | feature_engineering_pipeline.py:18-26 | the ratio is set to likes per hundred views when views are positive and to 0 otherwise, missing counts read as 0, and no other key changes |
| FeatureEngineering.EngagementExamples | feature_engineering_pipeline.py:20-25 | 10 likes on 100 views give 10; zero or missing views give 0 |
| FeatureEngineering.EnglishTexts | feature_engineering_pipeline.py:30-37 | the corpus is one text per English document, and entry k is the `cleaned_text` of the k-th English document; it fails exactly when an English document has no `cleaned_text` |
| FeatureEngineering.ArgMax | feature_engineering_pipeline.py:47 | the index of a largest entry, and the first such index |
| FeatureEngineering.AssignTopics | feature_engineering_pipeline.py:44-47 | the k-th English document gets the k-th topic vector and its argmax; every other document is unchanged |
| FeatureEngineering.RunTopicModeling | feature_engineering_pipeline.py:28-49 | no English document leaves the list unchanged; a missing `cleaned_text` raises `KeyError`; `ValueError` exactly when the frequency check or the vocabulary fails; otherwise only the English documents change, each getting the topic vector of its place in the corpus and that vector's argmax |
| FeatureEngineering.DfClashExactly | feature_engineering_pipeline.py:36 | `max_df=0.9` against `min_df=2` clashes for one or two documents and for no larger corpus |
| FeatureEngineering.FewEnglishDocsFail | feature_engineering_pipeline.py:36-37 | one or two English documents make the topic step raise `ValueError` whatever the model; with three or more, a model that keeps some term lets it succeed |
| FeatureEngineering.NoEnglishTexts | feature_engineering_pipeline.py:30-33 | with no English document, building the corpus cannot fail |
| FeatureEngineering.TopicFieldsInRange | feature_engineering_pipeline.py:9-47 | after a successful topic step every English document has a `NUM_TOPICS`-long topic vector and a dominant topic below `NUM_TOPICS` |
| FeatureEngineering.Run | feature_engineering_pipeline.py:59-81 | an empty raw collection changes nothing; the raw collection is never changed; it fails exactly when the topic step fails, and then with `KeyError` only for a missing `cleaned_text`; otherwise each featured document is its raw document after the engagement step, and an English one also carries the topic vector of its place in the English corpus and its argmax |
| FeatureEngineering.RunIdempotent | feature_engineering_pipeline.py:80-81 | running the pipeline twice gives the same store as running it once |
| FeatureEngineering.FeaturedMayOutgrowRaw | feature_engineering_pipeline.py:64-66 | with an empty raw collection, old featured documents stay, so the featured collection can be larger than the raw one |

## Left out

- Database access (MongoDB), printing, the Streamlit app, data collection
  and model training are not part of this model. `run` is modelled on a
  pair of in-memory collections.
- `create_indexes` (feature_engineering_pipeline.py:51-57) only asks the
  database to build indexes. It changes no document, so it is not
  modelled.
- VADER and LDA are parameters. Their numerics, and the `random_state`,
  are not modelled.
- FeatureEngineering.RunTopicModeling: CountVectorizer's tokenizing,
  English stop words and `max_df` pruning are not computed. Whether a
  corpus leaves no term, so that `fit_transform` raises `ValueError`, is
  decided by the model parameter. Only the check of `max_df` against
  `min_df` is computed.
- FeatureEngineering.Run: inherits the previous line. Its `ValueError`
  for a corpus with no term comes from the model parameter.
- The NLTK stopword list is a parameter. The worked example assumes only
  the few memberships it states.
- `word_tokenize` is modelled as a whitespace split. NLTK also splits off
  punctuation and contractions, but punctuation is already gone by then.
  Treebank rules for contractions and for the rare characters that are
  word characters but not letters are not modelled.
- Chars.Lower: `str.lower` is modelled character by character.
  Characters whose lower case is longer than one character (U+0130) are
  not modelled. Neither is the context rule that lowers a word-final `Σ`
  to `ς` (Final_Sigma): the table maps `Σ` to one fixed character
  wherever it stands.
- Comments.Comment: a row always has `view_count`, `like_count`,
  `comment_id`, `video_title` and `comment_published_at` columns. The
  source raises `KeyError` when the frame lacks one of them
  (src/analysis/influencers.py:11-15, src/analysis/trends.py:7 and :14).
  The model has no such error path. Only a missing `channel_title`
  column is modelled, because the source checks for it.
- FeatureEngineering.Doc: a key is either absent or holds a value. A key
  that is present with the value `None` is not representable. The source
  would then raise `TypeError` at `views > 0`
  (feature_engineering_pipeline.py:20-22), and a `None` `cleaned_text`
  would fail inside `fit_transform` (:37) rather than with `KeyError`.
  The collector stores both counts as integers
  (src/data_collection/collector.py:66-67), and no code in the repository
  writes `None` under `cleaned_text`.
- Timestamps are day numbers. `pd.to_datetime` parsing, time zones and
  time units other than `'D'` are not modelled.
- Floating point: means, scores and ratios are exact reals. A NaN
  `view_count` or `like_count` is not modelled (counts are integers).
- `clean_text_multilingual` and its language argument are not defined in
  the repository, so they are not modelled.
- Trends.TrendsOverTime: the input frame is read, not modified. The
  source also overwrites the frame's time column in place, which the
  model does not reproduce.
