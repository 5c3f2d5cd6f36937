/** The statistical model of the classifier as values: the five frequency
    tables, what ingesting one training post does to them, the three-tier
    smoothed word likelihood and the score of a label for a query. */
module NaiveBayes {
  import opened Text
  import opened Tokenizer
  import opened Counts

  /** One training row: its `tag` (the label) and its `content`. */
  datatype Post = Post(tag: Bytes, content: Bytes)

  /** The frequency tables of a `Classifier`. Every count is a document
      frequency: a post counts once for a word however often it repeats it. */
  datatype Tables = Tables(
    totalPosts: int,                                  // posts ingested
    vocabulary: set<Bytes>,                           // distinct words seen
    numPostsWord: map<Bytes, int>,                    // word -> posts containing it
    numPostsLabel: map<Bytes, int>,                   // label -> posts with that label
    numPostsLabelWord: map<Bytes, map<Bytes, int>>)   // label -> word -> posts with both

  /** The tables of a freshly constructed classifier. */
  const Untrained := Tables(0, {}, map[], map[], map[])

  /** Every post has exactly one label. */
  ghost predicate LabelsSumToPosts(t: Tables) {
    t.totalPosts == Total(t.numPostsLabel)
  }

  /** A post containing a word is counted for it under exactly one label. */
  ghost predicate ColumnsSumToWordCounts(t: Tables) {
    forall w :: Total(Column(t.numPostsLabelWord, w)) == Get(t.numPostsWord, w)
  }

  /** No count exceeds the number of posts it is a part of. */
  ghost predicate CountsBounded(t: Tables) {
    && (forall l :: Get(t.numPostsLabel, l) <= t.totalPosts)
    && (forall w :: Get(t.numPostsWord, w) <= t.totalPosts)
    && (forall l, w :: Get2(t.numPostsLabelWord, l, w) <= Get(t.numPostsLabel, l))
  }

  /** Entries exist only once counted, and the vocabulary is the set of words
      with a count. */
  ghost predicate EntriesCounted(t: Tables) {
    && t.vocabulary == t.numPostsWord.Keys
    && (forall l :: l in t.numPostsLabel ==> t.numPostsLabel[l] > 0)
    && (forall w :: w in t.numPostsWord ==> t.numPostsWord[w] > 0)
    && t.numPostsLabelWord.Keys <= t.numPostsLabel.Keys
    && (forall l :: l in t.numPostsLabelWord ==> t.numPostsLabelWord[l].Keys <= t.vocabulary)
    && (forall l, w :: l in t.numPostsLabelWord && w in t.numPostsLabelWord[l] ==>
          t.numPostsLabelWord[l][w] > 0)
  }

  /** What every sequence of ingested posts leaves true of the tables. */
  ghost predicate Inv(t: Tables) {
    LabelsSumToPosts(t) && ColumnsSumToWordCounts(t) && CountsBounded(t) && EntriesCounted(t)
  }

  /** The body of the training loop for one row: count the post, its label,
      and each distinct word of its content under the label and overall. A
      post without words creates no entry in `numPostsLabelWord`. */
  function Ingested(t: Tables, tag: Bytes, content: Bytes): (r: Tables)
    ensures r.totalPosts == t.totalPosts + 1
    ensures r.numPostsLabel.Keys == t.numPostsLabel.Keys + {tag}
    ensures r.numPostsWord.Keys == t.numPostsWord.Keys + Words(content)
    ensures r.numPostsLabelWord.Keys == t.numPostsLabelWord.Keys + if Words(content) == {} then {} else {tag}
  {
    var words := Words(content);
    Tables(
      t.totalPosts + 1,
      t.vocabulary + words,
      BumpAll(t.numPostsWord, words),
      Bump(t.numPostsLabel, tag),
      BumpRow(t.numPostsLabelWord, tag, words))
  }

  /** The tables after ingesting `posts` in order, starting from `t`. */
  function Trained(t: Tables, posts: seq<Post>): (r: Tables)
    ensures r.totalPosts == t.totalPosts + |posts|
    ensures r.vocabulary == t.vocabulary + WordsOfPosts(posts)
    decreases |posts|
  {
    if posts == [] then t
    else
      var last := posts[|posts| - 1];
      Ingested(Trained(t, posts[..|posts| - 1]), last.tag, last.content)
  }

  lemma TrainedAppend(t: Tables, posts: seq<Post>, p: Post)
    ensures Trained(t, posts + [p]) == Ingested(Trained(t, posts), p.tag, p.content)
  {
    assert (posts + [p])[..|posts|] == posts;
  }

  lemma UntrainedInv()
    ensures Inv(Untrained)
  {
    forall w ensures Total(Column(Untrained.numPostsLabelWord, w)) == 0 {
      assert Column(Untrained.numPostsLabelWord, w) == map[];
    }
  }

  lemma IngestKeepsLabelSum(t: Tables, tag: Bytes, content: Bytes)
    requires LabelsSumToPosts(t)
    ensures LabelsSumToPosts(Ingested(t, tag, content))
  {
    TotalUpdate(t.numPostsLabel, tag, Get(t.numPostsLabel, tag) + 1);
  }

  lemma IngestKeepsColumnSum(t: Tables, tag: Bytes, content: Bytes, w: Bytes)
    requires Total(Column(t.numPostsLabelWord, w)) == Get(t.numPostsWord, w)
    ensures
      var t' := Ingested(t, tag, content);
      Total(Column(t'.numPostsLabelWord, w)) == Get(t'.numPostsWord, w)
  {
    var words := Words(content);
    var t' := Ingested(t, tag, content);
    if words != {} {
      var c := Column(t.numPostsLabelWord, w);
      var row := BumpAll(Row(t.numPostsLabelWord, tag), words);
      ColumnOfUpdate(t.numPostsLabelWord, tag, row, w);
      TotalUpdate(c, tag, Get(row, w));
    }
  }

  lemma IngestKeepsColumnSums(t: Tables, tag: Bytes, content: Bytes)
    requires ColumnsSumToWordCounts(t)
    ensures ColumnsSumToWordCounts(Ingested(t, tag, content))
  {
    var t' := Ingested(t, tag, content);
    forall w
      ensures Total(Column(t'.numPostsLabelWord, w)) == Get(t'.numPostsWord, w)
    {
      IngestKeepsColumnSum(t, tag, content, w);
    }
  }

  lemma IngestKeepsBounds(t: Tables, tag: Bytes, content: Bytes)
    requires CountsBounded(t)
    ensures CountsBounded(Ingested(t, tag, content))
  {
    var t' := Ingested(t, tag, content);
    forall l ensures Get(t'.numPostsLabel, l) <= t'.totalPosts {
      assert Get(t.numPostsLabel, l) <= t.totalPosts;
    }
    forall w ensures Get(t'.numPostsWord, w) <= t'.totalPosts {
      assert Get(t.numPostsWord, w) <= t.totalPosts;
    }
    forall l, w ensures Get2(t'.numPostsLabelWord, l, w) <= Get(t'.numPostsLabel, l) {
      assert Get2(t.numPostsLabelWord, l, w) <= Get(t.numPostsLabel, l);
    }
  }

  lemma IngestKeepsEntriesCounted(t: Tables, tag: Bytes, content: Bytes)
    requires EntriesCounted(t)
    ensures EntriesCounted(Ingested(t, tag, content))
  {
  }

  /** Ingesting a post keeps the tables consistent with one another. */
  lemma IngestPreservesInv(t: Tables, tag: Bytes, content: Bytes)
    requires Inv(t)
    ensures Inv(Ingested(t, tag, content))
  {
    IngestKeepsLabelSum(t, tag, content);
    IngestKeepsColumnSums(t, tag, content);
    IngestKeepsBounds(t, tag, content);
    IngestKeepsEntriesCounted(t, tag, content);
  }

  lemma {:induction false} TrainedInv(posts: seq<Post>)
    ensures Inv(Trained(Untrained, posts))
    decreases |posts|
  {
    if posts == [] {
      UntrainedInv();
    } else {
      var last := posts[|posts| - 1];
      TrainedInv(posts[..|posts| - 1]);
      IngestPreservesInv(Trained(Untrained, posts[..|posts| - 1]), last.tag, last.content);
    }
  }

  // ---------------------------------------------------------------------
  // Document frequencies as counts over the training posts

  /** The number of posts labelled `l`. */
  function PostsWithLabel(posts: seq<Post>, l: Bytes): nat
    decreases |posts|
  {
    if posts == [] then 0
    else PostsWithLabel(posts[..|posts| - 1], l) + if posts[|posts| - 1].tag == l then 1 else 0
  }

  /** The number of posts whose content contains the word `w`. */
  function PostsWithWord(posts: seq<Post>, w: Bytes): nat
    decreases |posts|
  {
    if posts == [] then 0
    else PostsWithWord(posts[..|posts| - 1], w) + if w in Words(posts[|posts| - 1].content) then 1 else 0
  }

  /** The number of posts labelled `l` whose content contains the word `w`. */
  function PostsWithLabelWord(posts: seq<Post>, l: Bytes, w: Bytes): nat
    decreases |posts|
  {
    if posts == [] then 0
    else
      var last := posts[|posts| - 1];
      PostsWithLabelWord(posts[..|posts| - 1], l, w) + if last.tag == l && w in Words(last.content) then 1 else 0
  }

  /** The distinct words of all the posts. */
  function WordsOfPosts(posts: seq<Post>): set<Bytes>
    decreases |posts|
  {
    if posts == [] then {}
    else WordsOfPosts(posts[..|posts| - 1]) + Words(posts[|posts| - 1].content)
  }

  /** What one row does to each counter: the post, its label and each of its
      distinct words are counted exactly once, and nothing else changes. */
  lemma IngestCounts(t: Tables, tag: Bytes, content: Bytes)
    ensures
      var t', words := Ingested(t, tag, content), Words(content);
      && t'.totalPosts == t.totalPosts + 1
      && Get(t'.numPostsLabel, tag) == Get(t.numPostsLabel, tag) + 1
      && (forall l :: l != tag ==> Get(t'.numPostsLabel, l) == Get(t.numPostsLabel, l))
      && (forall w :: Get(t'.numPostsWord, w) == Get(t.numPostsWord, w) + if w in words then 1 else 0)
      && (forall w :: Get2(t'.numPostsLabelWord, tag, w) ==
                      Get2(t.numPostsLabelWord, tag, w) + if w in words then 1 else 0)
      && (forall l, w :: l != tag ==> Get2(t'.numPostsLabelWord, l, w) == Get2(t.numPostsLabelWord, l, w))
      && t'.vocabulary == t.vocabulary + words
  {
  }

  /** A row whose content is empty or only whitespace still counts as a post
      of its label, and touches no word table. */
  lemma IngestBlank(t: Tables, tag: Bytes, content: Bytes)
    requires forall k :: 0 <= k < |content| ==> IsSpace(content[k])
    ensures Ingested(t, tag, content) ==
      t.(totalPosts := t.totalPosts + 1, numPostsLabel := Bump(t.numPostsLabel, tag))
  {
    NoWordsIffBlank(content);
    assert BumpAll(t.numPostsWord, {}) == t.numPostsWord;
  }

  /** Ingesting is not idempotent: the same row twice counts as two posts. */
  lemma IngestTwice(t: Tables, tag: Bytes, content: Bytes)
    ensures
      var t2, words := Ingested(Ingested(t, tag, content), tag, content), Words(content);
      && t2.totalPosts == t.totalPosts + 2
      && Get(t2.numPostsLabel, tag) == Get(t.numPostsLabel, tag) + 2
      && (forall w :: w in words ==> Get(t2.numPostsWord, w) == Get(t.numPostsWord, w) + 2)
      && (forall w :: w in words ==> Get2(t2.numPostsLabelWord, tag, w) == Get2(t.numPostsLabelWord, tag, w) + 2)
  {
    IngestCounts(t, tag, content);
    IngestCounts(Ingested(t, tag, content), tag, content);
  }

  /** The tables after training on `posts` are their document frequencies:
      each counter is the number of posts with that label and/or word. */
  lemma TrainedCounts(posts: seq<Post>)
    ensures
      var t := Trained(Untrained, posts);
      && t.totalPosts == |posts|
      && (forall l :: Get(t.numPostsLabel, l) == PostsWithLabel(posts, l))
      && (forall w :: Get(t.numPostsWord, w) == PostsWithWord(posts, w))
      && (forall l, w :: Get2(t.numPostsLabelWord, l, w) == PostsWithLabelWord(posts, l, w))
      && t.vocabulary == WordsOfPosts(posts)
  {
    TrainedLabelCounts(posts);
    TrainedWordCounts(posts);
    TrainedLabelWordCounts(posts);
  }

  lemma {:induction false} TrainedLabelCounts(posts: seq<Post>)
    ensures forall l :: Get(Trained(Untrained, posts).numPostsLabel, l) == PostsWithLabel(posts, l)
    decreases |posts|
  {
    if posts != [] {
      var init, last := posts[..|posts| - 1], posts[|posts| - 1];
      TrainedLabelCounts(init);
      IngestCounts(Trained(Untrained, init), last.tag, last.content);
    }
  }

  lemma {:induction false} TrainedWordCounts(posts: seq<Post>)
    ensures forall w :: Get(Trained(Untrained, posts).numPostsWord, w) == PostsWithWord(posts, w)
    decreases |posts|
  {
    if posts != [] {
      var init, last := posts[..|posts| - 1], posts[|posts| - 1];
      TrainedWordCounts(init);
      IngestCounts(Trained(Untrained, init), last.tag, last.content);
    }
  }

  lemma {:induction false} TrainedLabelWordCounts(posts: seq<Post>)
    ensures forall l, w :: Get2(Trained(Untrained, posts).numPostsLabelWord, l, w) == PostsWithLabelWord(posts, l, w)
    decreases |posts|
  {
    if posts != [] {
      var init, last := posts[..|posts| - 1], posts[|posts| - 1];
      TrainedLabelWordCounts(init);
      IngestCounts(Trained(Untrained, init), last.tag, last.content);
    }
  }

  // ---------------------------------------------------------------------
  // Smoothed likelihood of a word under a label

  /** The three smoothing tiers of `calculate_log_likelihood`. */
  datatype Tier = LabelConditional | CorpusWide | Unseen

  /** The tier used for `word` under `tag`: the label's own counts when the
      word occurs in one of its posts, otherwise the whole corpus when the word
      occurs anywhere, otherwise the floor for unseen words. */
  function TierOf(t: Tables, tag: Bytes, word: Bytes): (r: Tier)
    ensures r == LabelConditional <==> Get2(t.numPostsLabelWord, tag, word) > 0
    ensures r == CorpusWide <==> Get2(t.numPostsLabelWord, tag, word) <= 0 && Get(t.numPostsWord, word) > 0
    ensures r == Unseen <==> Get2(t.numPostsLabelWord, tag, word) <= 0 && Get(t.numPostsWord, word) <= 0
  {
    if Get2(t.numPostsLabelWord, tag, word) > 0 then LabelConditional
    else if Get(t.numPostsWord, word) > 0 then CorpusWide
    else Unseen
  }

  /** The probability whose logarithm `calculate_log_likelihood` returns. It
      is a probability in (0, 1], so its logarithm is finite and at most 0, and
      no word scores below the floor `1 / totalPosts` given to unseen words. */
  function Likelihood(t: Tables, tag: Bytes, word: Bytes): (p: real)
    requires Inv(t) && t.totalPosts > 0
    ensures 0.0 < 1.0 / t.totalPosts as real <= p <= 1.0
  {
    match TierOf(t, tag, word)
    case LabelConditional =>
      var count, posts := Get2(t.numPostsLabelWord, tag, word), t.numPostsLabel[tag];
      assert 0 < count <= posts <= t.totalPosts;
      FractionAtLeastFloor(count, posts, t.totalPosts);
      count as real / posts as real
    case CorpusWide =>
      var count := Get(t.numPostsWord, word);
      FractionAtLeastFloor(count, t.totalPosts, t.totalPosts);
      count as real / t.totalPosts as real
    case Unseen =>
      1.0 / t.totalPosts as real
  }

  lemma FractionAtLeastFloor(a: int, b: int, n: int)
    requires 0 < a <= b <= n
    ensures 0.0 < 1.0 / n as real <= a as real / b as real <= 1.0
  {
    var x, y := a as real / b as real, 1.0 / n as real;
    assert x * b as real == a as real;
    assert y * n as real == 1.0;
    assert x * b as real >= y * b as real by {
      assert a as real >= 1.0;
      assert y * b as real <= y * n as real;
    }
  }

  /** A word never seen in training gets the same likelihood, the floor
      `1 / totalPosts`, under every label. */
  lemma UnseenUniform(t: Tables, l1: Bytes, l2: Bytes, word: Bytes)
    requires Inv(t) && t.totalPosts > 0
    requires word !in t.vocabulary
    ensures Likelihood(t, l1, word) == Likelihood(t, l2, word) == 1.0 / t.totalPosts as real
  {
  }

  /** After a row is ingested, each of its words is scored under the row's
      label by the label's own counts, and under every label it is no longer
      an unseen word. */
  lemma IngestedWordsAreSeen(t: Tables, tag: Bytes, content: Bytes, word: Bytes, other: Bytes)
    requires EntriesCounted(t)
    requires word in Words(content)
    ensures TierOf(Ingested(t, tag, content), tag, word) == LabelConditional
    ensures TierOf(Ingested(t, tag, content), other, word) != Unseen
  {
    IngestCounts(t, tag, content);
  }

  /** After training on `posts`, the likelihood is the fraction of the
      label's posts that contain the word, backing off to the fraction of all
      posts that contain it, and then to one post in all. */
  lemma TrainedLikelihood(posts: seq<Post>, tag: Bytes, word: Bytes)
    requires |posts| > 0
    ensures
      var t := Trained(Untrained, posts);
      var inLabel, inAll := PostsWithLabelWord(posts, tag, word), PostsWithWord(posts, word);
      && Inv(t) && t.totalPosts == |posts|
      && inLabel <= PostsWithLabel(posts, tag)
      && Likelihood(t, tag, word) ==
        if inLabel > 0 then inLabel as real / PostsWithLabel(posts, tag) as real
        else if inAll > 0 then inAll as real / |posts| as real
        else 1.0 / |posts| as real
  {
    TrainedInv(posts);
    TrainedCounts(posts);
  }

  // ---------------------------------------------------------------------
  // Score of a label for a query

  /** The empirical probability of a label, whose logarithm is its log-prior. */
  function Prior(t: Tables, tag: Bytes): (p: real)
    requires Inv(t) && tag in t.numPostsLabel
    ensures 0.0 < p <= 1.0
  {
    var count := t.numPostsLabel[tag];
    assert count == Get(t.numPostsLabel, tag) <= t.totalPosts;
    FractionAtLeastFloor(count, count, t.totalPosts);
    FractionAtLeastFloor(count, t.totalPosts, t.totalPosts);
    count as real / t.totalPosts as real
  }

  lemma LikelihoodsAdd(t: Tables, tag: Bytes, words: set<Bytes>, w: Bytes)
    requires Inv(t) && t.totalPosts > 0
    ensures Likelihoods(t, tag, words + {w}) == Likelihoods(t, tag, words)[w := Likelihood(t, tag, w)]
  {
  }

  /** Taking one more word into the product multiplies it by that word's
      likelihood. */
  lemma LikelihoodsInsert(t: Tables, tag: Bytes, words: set<Bytes>, w: Bytes)
    requires Inv(t) && t.totalPosts > 0
    requires w !in words
    ensures Product(Likelihoods(t, tag, words + {w})) ==
            Mul(Likelihood(t, tag, w), Product(Likelihoods(t, tag, words)))
  {
    LikelihoodsAdd(t, tag, words, w);
    ProductInsert(Likelihoods(t, tag, words), w, Likelihood(t, tag, w));
  }

  /** The likelihood of each of `words` under `tag`. */
  function Likelihoods(t: Tables, tag: Bytes, words: set<Bytes>): (m: map<Bytes, real>)
    requires Inv(t) && t.totalPosts > 0
    ensures m.Keys == words
    ensures forall w :: w in m ==> 0.0 < m[w] <= 1.0
  {
    map w | w in words :: Likelihood(t, tag, w)
  }

  /** The probability whose logarithm `predict` computes for a label: the
      prior times the likelihood of each distinct query word. */
  ghost function Score(t: Tables, tag: Bytes, words: set<Bytes>): (r: real)
    requires Inv(t) && tag in t.numPostsLabel
    ensures 0.0 < r <= 1.0
  {
    assert 0 < Get(t.numPostsLabel, tag) <= t.totalPosts;
    var likelihoods := Likelihoods(t, tag, words);
    ProductOfProbabilities(likelihoods);
    MulProbabilities(Prior(t, tag), Product(likelihoods));
    Mul(Prior(t, tag), Product(likelihoods))
  }

  /** With no query words the score of a label is its prior. */
  lemma ScoreOfNoWords(t: Tables, tag: Bytes)
    requires Inv(t) && tag in t.numPostsLabel
    ensures Score(t, tag, {}) == Prior(t, tag)
  {
    assert 0 < Get(t.numPostsLabel, tag) <= t.totalPosts;
    assert Likelihoods(t, tag, {}) == map[];
  }

  /** Scoring one more query word multiplies the score by that word's
      likelihood; the order in which the words are taken does not matter. */
  lemma ScoreInsert(t: Tables, tag: Bytes, words: set<Bytes>, w: Bytes)
    requires Inv(t) && tag in t.numPostsLabel
    requires w !in words
    ensures Score(t, tag, words + {w}) == Mul(Score(t, tag, words), Likelihood(t, tag, w))
  {
    assert 0 < Get(t.numPostsLabel, tag) <= t.totalPosts;
    LikelihoodsInsert(t, tag, words, w);
    MulRotate(Prior(t, tag), Product(Likelihoods(t, tag, words)), Likelihood(t, tag, w));
  }

  // ---------------------------------------------------------------------
  // The choice of `predict`

  /** `best`, scoring `bestScore`, is the choice `predict` has made after
      scoring the labels `seen`: nothing yet (the empty label and the lowest
      score) when no label is seen, otherwise a seen label of the highest
      score, the lexicographically first among those of that score. */
  ghost predicate IsChoice(t: Tables, words: set<Bytes>, seen: set<Bytes>, best: Bytes, bestScore: real)
    requires Inv(t) && seen <= t.numPostsLabel.Keys
  {
    && (seen == {} ==> best == [] && bestScore == 0.0)
    && (seen != {} ==> best in seen && bestScore == Score(t, best, words))
    && (forall l :: l in seen ==> Score(t, l, words) <= bestScore)
    && (forall l :: l in seen && Score(t, l, words) == bestScore ==> l == best || LexLess(best, l))
  }

  /** Scoring one more label: it replaces the choice when it scores higher,
      or scores the same and comes first lexicographically. Every score is
      above the starting 0, so the first label scored is always taken. */
  lemma ChoiceStep(t: Tables, words: set<Bytes>, seen: set<Bytes>, best: Bytes, bestScore: real, tag: Bytes)
    requires Inv(t) && seen <= t.numPostsLabel.Keys
    requires tag in t.numPostsLabel && tag !in seen
    requires IsChoice(t, words, seen, best, bestScore)
    ensures
      var score := Score(t, tag, words);
      var taken := score > bestScore || (score == bestScore && LexLess(tag, best));
      IsChoice(t, words, seen + {tag}, if taken then tag else best, if taken then score else bestScore)
  {
    var score := Score(t, tag, words);
    if score > bestScore || (score == bestScore && LexLess(tag, best)) {
      forall l | l in seen && Score(t, l, words) == score
        ensures LexLess(tag, l)
      {
        if l != best {
          LexLessTransitive(tag, best, l);
        }
      }
    } else {
      LexLessTotal(tag, best);
    }
  }
}
