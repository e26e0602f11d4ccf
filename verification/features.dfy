/** `FeatureEngineer` in feature_engineering_pipeline.py: the engagement
    ratio, the topic-model bookkeeping over the English documents, and the
    extract-transform-load run that rebuilds the featured collection.
    CountVectorizer's document-frequency check is modelled; the vocabulary
    and LDA are a parameter: a function from the English corpus to one topic
    vector per document, or to nothing when no term is left. */
module FeatureEngineering {
  import opened Wrappers

  /** `NUM_TOPICS`. */
  const NumTopics: nat := 5

  /** A stored comment document. Every key the pipeline reads or writes is a
      field, `None` when the key is absent; `other` holds the remaining keys. */
  datatype Doc = Doc(
    viewCount: Option<int>,
    likeCount: Option<int>,
    language: Option<string>,
    cleanedText: Option<string>,
    engagementRatio: Option<real>,
    topicDistribution: Option<seq<real>>,
    dominantTopic: Option<int>,
    other: map<string, string>)

  /** The exception a transform step raises: `KeyError` for a missing key,
      or CountVectorizer's `ValueError`. */
  datatype Error = MissingKey(key: string) | ValueError

  // ---------------------------------------------------------------------------
  // compute_engagement_metrics

  /** `doc.get('view_count', 0)` and `doc.get('like_count', 0)`. */
  function Views(d: Doc): int { d.viewCount.GetOr(0) }
  function Likes(d: Doc): int { d.likeCount.GetOr(0) }

  /** Sets `engagement_ratio` to likes per hundred views, or to 0 when there
      are no positive views; no other key changes. */
  function ComputeEngagement(d: Doc): (r: Doc)
    ensures r.(engagementRatio := d.engagementRatio) == d
    ensures r.engagementRatio.Some?
    ensures Views(d) > 0 ==> r.engagementRatio.value * Views(d) as real == 100.0 * Likes(d) as real
    ensures Views(d) <= 0 ==> r.engagementRatio.value == 0.0
  {
    var views := Views(d);
    var likes := Likes(d);
    if views > 0 then
      d.(engagementRatio := Some((likes as real / views as real) * 100.0))
    else
      d.(engagementRatio := Some(0.0))
  }

  /** 10 likes on 100 views give a ratio of 10; no views give 0. */
  lemma EngagementExamples(d: Doc)
    ensures ComputeEngagement(d.(viewCount := Some(100), likeCount := Some(10))).engagementRatio == Some(10.0)
    ensures ComputeEngagement(d.(viewCount := Some(0))).engagementRatio == Some(0.0)
    ensures ComputeEngagement(d.(viewCount := None)).engagementRatio == Some(0.0)
  {
  }

  // ---------------------------------------------------------------------------
  // run_topic_modeling

  /** `doc.get('language') == 'en'`. */
  predicate IsEnglish(d: Doc) {
    d.language == Some("en")
  }

  function EnglishCount(docs: seq<Doc>): (n: nat)
    ensures n <= |docs|
  {
    if |docs| == 0 then 0
    else EnglishCount(docs[..|docs| - 1]) + (if IsEnglish(docs[|docs| - 1]) then 1 else 0)
  }

  /** The `cleaned_text` of each English document, in order; `None` when one
      of them has no such key (the list comprehension raises `KeyError`). */
  function EnglishTexts(docs: seq<Doc>): (r: Option<seq<string>>)
    ensures r.Some? <==> forall i :: 0 <= i < |docs| && IsEnglish(docs[i]) ==> docs[i].cleanedText.Some?
    ensures r.Some? ==> |r.value| == EnglishCount(docs)
    ensures r.Some? ==> forall i :: 0 <= i < |docs| && IsEnglish(docs[i]) ==>
      r.value[EnglishRank(docs, i)] == docs[i].cleanedText.value
  {
    if |docs| == 0 then Some([])
    else
      var init := docs[..|docs| - 1];
      var last := docs[|docs| - 1];
      assert forall i :: 0 <= i < |init| ==> docs[i] == init[i];
      EnglishRankInit(docs);
      match EnglishTexts(init)
      case None => None
      case Some(ts) =>
        if !IsEnglish(last) then Some(ts)
        else if last.cleanedText.None? then None
        else Some(ts + [last.cleanedText.value])
  }

  /** Dropping the last document moves no earlier English document's rank. */
  lemma EnglishRankInit(docs: seq<Doc>)
    requires |docs| > 0
    ensures forall i :: 0 <= i < |docs| - 1 && IsEnglish(docs[i]) ==>
      EnglishRank(docs, i) == EnglishRank(docs[..|docs| - 1], i)
    ensures IsEnglish(docs[|docs| - 1]) ==> EnglishRank(docs, |docs| - 1) == EnglishCount(docs[..|docs| - 1])
  {
    forall i | 0 <= i < |docs| - 1 && IsEnglish(docs[i])
      ensures EnglishRank(docs, i) == EnglishRank(docs[..|docs| - 1], i)
    {
      assert docs[..|docs| - 1][..i] == docs[..i];
    }
  }

  /** `argmax`: the first index of a largest entry. */
  function ArgMax(row: seq<real>): (k: nat)
    requires |row| > 0
    ensures k < |row|
    ensures forall i :: 0 <= i < |row| ==> row[i] <= row[k]
    ensures forall i :: 0 <= i < k ==> row[i] < row[k]
  {
    if |row| == 1 then 0
    else
      var k := ArgMax(row[..|row| - 1]);
      if row[|row| - 1] > row[k] then |row| - 1 else k
  }

  /** A topic model's output fits the corpus: one vector of `NUM_TOPICS`
      entries per document. */
  ghost predicate Shaped(dists: seq<seq<real>>, n: nat) {
    |dists| == n && forall i :: 0 <= i < n ==> |dists[i]| == NumTopics
  }

  /** Attach the topic fields of one English document. */
  function WithTopics(d: Doc, dist: seq<real>): Doc
    requires |dist| > 0
  {
    d.(topicDistribution := Some(dist), dominantTopic := Some(ArgMax(dist) as int))
  }

  /** `d` after the topic step: the English document with topic vector `dist`
      carries it and its first argmax; every other field is `d`'s. */
  predicate AssignedTopics(r: Doc, d: Doc, dist: seq<real>) {
    && r.(topicDistribution := d.topicDistribution, dominantTopic := d.dominantTopic) == d
    && r.topicDistribution == Some(dist)
    && r.dominantTopic.Some?
    && 0 <= r.dominantTopic.value < |dist|
    && (forall j :: 0 <= j < |dist| ==> dist[j] <= dist[r.dominantTopic.value])
    && (forall j :: 0 <= j < r.dominantTopic.value ==> dist[j] < dist[r.dominantTopic.value])
  }

  /** Position of the English document `docs[i]` among the English documents. */
  function EnglishRank(docs: seq<Doc>, i: nat): (k: nat)
    requires i < |docs| && IsEnglish(docs[i])
    ensures k < EnglishCount(docs)
  {
    EnglishCountPrefix(docs, i + 1);
    assert docs[..i + 1][..i] == docs[..i];
    EnglishCount(docs[..i])
  }

  /** The loop `for i, doc in enumerate(english_docs)`: the k-th English
      document gets the k-th topic vector; the others are left alone. */
  function AssignTopics(docs: seq<Doc>, dists: seq<seq<real>>): (r: seq<Doc>)
    requires Shaped(dists, EnglishCount(docs))
    ensures |r| == |docs|
    ensures forall i :: 0 <= i < |docs| && !IsEnglish(docs[i]) ==> r[i] == docs[i]
    ensures forall i :: 0 <= i < |docs| && IsEnglish(docs[i]) ==>
      AssignedTopics(r[i], docs[i], dists[EnglishRank(docs, i)])
  {
    if |docs| == 0 then []
    else
      var init := docs[..|docs| - 1];
      var last := docs[|docs| - 1];
      assert forall i :: 0 <= i < |init| ==> docs[..i] == init[..i];
      if IsEnglish(last) then
        AssignTopics(init, dists[..|dists| - 1]) + [WithTopics(last, dists[|dists| - 1])]
      else
        AssignTopics(init, dists) + [last]
  }

  /** The English count only grows along a prefix. */
  lemma {:induction false} EnglishCountPrefix(docs: seq<Doc>, n: nat)
    requires n <= |docs|
    ensures EnglishCount(docs[..n]) <= EnglishCount(docs)
    ensures n > 0 && IsEnglish(docs[n - 1]) ==> EnglishCount(docs[..n - 1]) < EnglishCount(docs)
    decreases |docs| - n
  {
    if n < |docs| {
      EnglishCountPrefix(docs, n + 1);
      assert docs[..n + 1][..n] == docs[..n];
    } else {
      assert docs[..n] == docs;
    }
    if n > 0 {
      assert docs[..n][..n - 1] == docs[..n - 1];
    }
  }

  /** Vocabulary building plus LDA: the English corpus in, one topic vector
      per document out, or `None` when CountVectorizer keeps no term (an
      empty vocabulary, or none left after pruning by document frequency). */
  type TopicModel = seq<string> -> Option<seq<seq<real>>>

  /** Whenever the model returns vectors, they fit the corpus (what LDA's
      `transform` returns). */
  ghost predicate WellShaped(lda: TopicModel) {
    forall corpus :: lda(corpus).Some? ==> Shaped(lda(corpus).value, |corpus|)
  }

  /** `CountVectorizer(max_df=0.9, min_df=2)`. */
  const MaxDf: real := 0.9
  const MinDf: nat := 2

  /** A fractional `max_df` counts `max_df * n` documents; when that is fewer
      than `min_df`, `fit_transform` raises `ValueError`. The vocabulary is
      counted first, and an empty one raises its own `ValueError`; either
      way the step fails with `ValueError`, which is all the model keeps. */
  predicate DfClash(n: nat) {
    MaxDf * n as real < MinDf as real
  }

  /** The vectorizer or the model fails on this corpus. */
  predicate VectorizerFails(texts: seq<string>, lda: TopicModel) {
    DfClash(|texts|) || lda(texts).None?
  }

  /** With these settings the clash happens for one or two documents, and
      for no larger corpus. */
  lemma DfClashExactly(n: nat)
    ensures DfClash(n) <==> n <= 2
  {
    if n >= 3 {
      assert MaxDf * n as real >= MaxDf * 3.0;
    }
  }

  /** `run_topic_modeling(documents)`: no English document, nothing changes;
      an English document without `cleaned_text` raises `KeyError`; one or two
      English documents, or a corpus that leaves no term, make CountVectorizer
      raise `ValueError`; otherwise every English document gets its topic
      vector and dominant topic. */
  function RunTopicModeling(docs: seq<Doc>, lda: TopicModel): (r: Result<seq<Doc>, Error>)
    requires WellShaped(lda)
    ensures EnglishCount(docs) == 0 ==> r == Success(docs)
    ensures r == Failure(MissingKey("cleaned_text")) <==> EnglishTexts(docs).None?
    ensures r == Failure(ValueError) <==>
      EnglishTexts(docs).Some? && EnglishCount(docs) > 0 && VectorizerFails(EnglishTexts(docs).value, lda)
    ensures r.Failure? ==> r.error == MissingKey("cleaned_text") || r.error == ValueError
    ensures r.Success? && EnglishCount(docs) > 0 ==>
      EnglishTexts(docs).Some? && lda(EnglishTexts(docs).value).Some?
    ensures r.Success? ==> |r.value| == |docs|
    ensures r.Success? ==> forall i :: 0 <= i < |docs| && !IsEnglish(docs[i]) ==> r.value[i] == docs[i]
    ensures r.Success? ==> forall i :: 0 <= i < |docs| && IsEnglish(docs[i]) ==>
      AssignedTopics(r.value[i], docs[i], lda(EnglishTexts(docs).value).value[EnglishRank(docs, i)])
  {
    if EnglishCount(docs) == 0 then
      NoEnglishTexts(docs);
      Success(docs)
    else
      match EnglishTexts(docs)
      case None => Failure(MissingKey("cleaned_text"))
      case Some(texts) =>
        if DfClash(|texts|) then Failure(ValueError)
        else
          match lda(texts)
          case None => Failure(ValueError)
          case Some(dists) =>
            assert Shaped(dists, |texts|);
            Success(AssignTopics(docs, dists))
  }

  /** One or two English documents always make the topic step fail, whatever
      the model; three or more never fail on the frequency check alone. */
  lemma FewEnglishDocsFail(docs: seq<Doc>, lda: TopicModel)
    requires WellShaped(lda)
    requires EnglishTexts(docs).Some?
    ensures 0 < EnglishCount(docs) <= 2 ==> RunTopicModeling(docs, lda) == Failure(ValueError)
    ensures EnglishCount(docs) >= 3 && lda(EnglishTexts(docs).value).Some? ==> RunTopicModeling(docs, lda).Success?
  {
    DfClashExactly(EnglishCount(docs));
  }

  /** Without English documents the text list is empty and cannot fail. */
  lemma NoEnglishTexts(docs: seq<Doc>)
    requires EnglishCount(docs) == 0
    ensures EnglishTexts(docs).Some?
  {
    forall i | 0 <= i < |docs|
      ensures !IsEnglish(docs[i])
    {
      EnglishCountPrefix(docs, i + 1);
    }
  }

  /** After a successful topic step every English document carries a
      `NUM_TOPICS`-long topic vector and a dominant topic that indexes it. */
  lemma TopicFieldsInRange(docs: seq<Doc>, lda: TopicModel)
    requires WellShaped(lda)
    requires RunTopicModeling(docs, lda).Success?
    ensures forall i :: 0 <= i < |docs| && IsEnglish(docs[i]) ==>
      var d := RunTopicModeling(docs, lda).value[i];
      && d.topicDistribution.Some? && |d.topicDistribution.value| == NumTopics
      && d.dominantTopic.Some? && 0 <= d.dominantTopic.value < NumTopics
  {
    forall i | 0 <= i < |docs| && IsEnglish(docs[i])
      ensures var d := RunTopicModeling(docs, lda).value[i];
        && d.topicDistribution.Some? && |d.topicDistribution.value| == NumTopics
        && d.dominantTopic.Some? && 0 <= d.dominantTopic.value < NumTopics
    {
      var texts := EnglishTexts(docs).value;
      var k := EnglishRank(docs, i);
      assert Shaped(lda(texts).value, |texts|);
      assert |lda(texts).value[k]| == NumTopics;
    }
  }

  // ---------------------------------------------------------------------------
  // run

  /** The raw collection and the featured collection. */
  datatype Store = Store(raw: seq<Doc>, featured: seq<Doc>)

  function MapEngagement(docs: seq<Doc>): (r: seq<Doc>)
    ensures |r| == |docs|
    ensures forall i :: 0 <= i < |docs| ==> r[i] == ComputeEngagement(docs[i])
    ensures forall i :: 0 <= i < |docs| ==> IsEnglish(r[i]) == IsEnglish(docs[i])
  {
    seq(|docs|, i requires 0 <= i < |docs| => ComputeEngagement(docs[i]))
  }

  /** `run()`: an empty raw collection leaves everything as it was; otherwise
      the featured collection is emptied and refilled with exactly the
      transformed raw documents: each with its engagement ratio, and each
      English one with the topic vector of its place in the English corpus.
      A transform error leaves the store untouched (the delete comes after
      the transform). */
  function Run(s: Store, lda: TopicModel): (r: Result<Store, Error>)
    requires WellShaped(lda)
    ensures |s.raw| == 0 ==> r == Success(s)
    ensures r.Success? ==> r.value.raw == s.raw
    ensures r.Failure? <==> (|s.raw| > 0 &&
      (EnglishTexts(MapEngagement(s.raw)).None? ||
       (EnglishCount(MapEngagement(s.raw)) > 0 && VectorizerFails(EnglishTexts(MapEngagement(s.raw)).value, lda))))
    ensures r.Failure? ==> (r.error == MissingKey("cleaned_text") <==> EnglishTexts(MapEngagement(s.raw)).None?)
    ensures r.Success? && |s.raw| > 0 ==> |r.value.featured| == |s.raw|
    ensures r.Success? && |s.raw| > 0 ==> forall i :: 0 <= i < |s.raw| && !IsEnglish(s.raw[i]) ==>
      r.value.featured[i] == ComputeEngagement(s.raw[i])
    ensures r.Success? && |s.raw| > 0 ==> forall i :: 0 <= i < |s.raw| && IsEnglish(s.raw[i]) ==>
      AssignedTopics(r.value.featured[i], ComputeEngagement(s.raw[i]),
        lda(EnglishTexts(MapEngagement(s.raw)).value).value[EnglishRank(MapEngagement(s.raw), i)])
  {
    if |s.raw| == 0 then Success(s)
    else
      var featured := MapEngagement(s.raw);
      match RunTopicModeling(featured, lda)
      case Failure(e) => Failure(e)
      case Success(docs) => Success(Store(s.raw, docs))
  }

  /** Rebuilding twice from the same raw collection gives the same store. */
  lemma RunIdempotent(s: Store, lda: TopicModel)
    requires WellShaped(lda)
    requires Run(s, lda).Success?
    ensures Run(Run(s, lda).value, lda) == Run(s, lda)
  {
  }

  /** The featured collection is not bounded by the raw one: with an empty
      raw collection, `run` exits before deleting old featured documents. */
  lemma FeaturedMayOutgrowRaw(d: Doc, lda: TopicModel)
    requires WellShaped(lda)
    ensures Run(Store([], [d]), lda) == Success(Store([], [d]))
    ensures |Run(Store([], [d]), lda).value.featured| > |Run(Store([], [d]), lda).value.raw|
  {
  }
}
