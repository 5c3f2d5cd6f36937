/** The `Classifier` object: five frequency tables that training updates in
    place, the log of ingested rows, and the read-only queries over them. */
module Model {
  import opened Text
  import opened Tokenizer
  import opened Counts
  import opened NaiveBayes

  class Classifier {
    var totalPosts: int
    var vocabulary: set<Bytes>
    var numPostsWord: map<Bytes, int>
    var numPostsLabel: map<Bytes, int>
    var numPostsLabelWord: map<Bytes, map<Bytes, int>>
    /** Every row ingested so far, in order; read only by reporting. */
    var trainingData: seq<Post>

    /** The tables as a value. */
    function State(): Tables
      reads this
    {
      Tables(totalPosts, vocabulary, numPostsWord, numPostsLabel, numPostsLabelWord)
    }

    /** The tables are those obtained by training on the logged rows (and so,
        by `TrainedInv`, consistent with one another). */
    ghost predicate Valid()
      reads this
    {
      State() == Trained(Untrained, trainingData)
    }

    constructor ()
      ensures Valid()
      ensures State() == Untrained && trainingData == []
    {
      totalPosts := 0;
      vocabulary := {};
      numPostsWord := map[];
      numPostsLabel := map[];
      numPostsLabelWord := map[];
      trainingData := [];
    }

    /** One row of `train`: count the post and its label, then each distinct
        word of its content. */
    method Ingest(tag: Bytes, content: Bytes)
      requires Valid()
      modifies this
      ensures Valid()
      ensures State() == Ingested(old(State()), tag, content)
      ensures trainingData == old(trainingData) + [Post(tag, content)]
    {
      totalPosts := totalPosts + 1;
      numPostsLabel := Bump(numPostsLabel, tag);
      var words := UniqueWords(content);
      trainingData := trainingData + [Post(tag, content)];
      CountWords(tag, words);
      TrainedAppend(Untrained, old(trainingData), Post(tag, content));
    }

    /** The loop over the distinct words of one row: each is added to the
        vocabulary and counted once overall and once under `tag`. */
    method CountWords(tag: Bytes, words: set<Bytes>)
      modifies this
      ensures vocabulary == old(vocabulary) + words
      ensures numPostsWord == BumpAll(old(numPostsWord), words)
      ensures numPostsLabelWord == BumpRow(old(numPostsLabelWord), tag, words)
      ensures totalPosts == old(totalPosts) && numPostsLabel == old(numPostsLabel)
      ensures trainingData == old(trainingData)
    {
      var remaining := words;
      ghost var done: set<Bytes> := {};
      var vocab, wordCounts, labelWordCounts := vocabulary, numPostsWord, numPostsLabelWord;
      while remaining != {}
        invariant remaining + done == words && remaining !! done
        invariant vocab == old(vocabulary) + done
        invariant wordCounts == BumpAll(old(numPostsWord), done)
        invariant labelWordCounts == BumpRow(old(numPostsLabelWord), tag, done)
        modifies {}
        decreases remaining
      {
        var w :| w in remaining;
        BumpAllInsert(old(numPostsWord), done, w);
        BumpRowInsert(old(numPostsLabelWord), tag, done, w);
        vocab := vocab + {w};
        wordCounts := Bump(wordCounts, w);
        labelWordCounts := Bump2(labelWordCounts, tag, w);
        remaining := remaining - {w};
        done := done + {w};
      }
      vocabulary, numPostsWord, numPostsLabelWord := vocab, wordCounts, labelWordCounts;
    }

    /** `getTotalPosts`: the number of rows trained on. */
    function GetTotalPosts(): (n: int)
      reads this
      requires Valid()
      ensures n == |trainingData|
    {
      TrainedCounts(trainingData);
      totalPosts
    }

    /** `getVocabularySize`: the number of distinct words over all rows
        trained on. */
    function GetVocabularySize(): (n: int)
      reads this
      requires Valid()
      ensures n == |WordsOfPosts(trainingData)|
    {
      TrainedCounts(trainingData);
      |vocabulary|
    }

    /** `predict`: score every label by its prior times the likelihood of
        each distinct word of `content`, and return the best label with its
        score: a label of the highest score, the lexicographically first
        among those of that score, or the empty label with the starting score
        when there are no labels. */
    method Predict(content: Bytes) returns (bestLabel: Bytes, bestScore: real)
      requires Valid()
      ensures Inv(State())
      ensures numPostsLabel == map[] ==> bestLabel == [] && bestScore == 0.0
      ensures numPostsLabel != map[] ==>
        bestLabel in numPostsLabel && bestScore == Score(State(), bestLabel, Words(content))
      ensures forall l :: l in numPostsLabel ==> Score(State(), l, Words(content)) <= bestScore
      ensures forall l :: l in numPostsLabel && Score(State(), l, Words(content)) == bestScore ==>
        l == bestLabel || LexLess(bestLabel, l)
    {
      TrainedInv(trainingData);
      var words := UniqueWords(content);
      bestLabel, bestScore := ChooseLabel(words);
    }

    /** The loop of `predict` over the labels. Labels are taken in any order;
        a label replaces the best so far when it scores higher, or scores the
        same and comes first lexicographically. The score starts below every
        label's score, so the first label is always taken. */
    method ChooseLabel(words: set<Bytes>) returns (bestLabel: Bytes, bestScore: real)
      requires Inv(State())
      ensures IsChoice(State(), words, numPostsLabel.Keys, bestLabel, bestScore)
    {
      ghost var t := State();
      bestScore := 0.0;
      bestLabel := [];
      var remaining := numPostsLabel.Keys;
      ghost var done: set<Bytes> := {};
      while remaining != {}
        invariant remaining + done == t.numPostsLabel.Keys && remaining !! done
        invariant IsChoice(t, words, done, bestLabel, bestScore)
        decreases remaining
      {
        var tag :| tag in remaining;
        var score := LabelScore(tag, words);
        ChoiceStep(t, words, done, bestLabel, bestScore, tag);
        if score > bestScore || (score == bestScore && LexLess(tag, bestLabel)) {
          bestScore := score;
          bestLabel := tag;
        }
        remaining := remaining - {tag};
        done := done + {tag};
      }
    }

    /** The inner loop of `predict` for one label: the prior, multiplied by
        the likelihood of each query word in turn. */
    method LabelScore(tag: Bytes, words: set<Bytes>) returns (score: real)
      requires Inv(State()) && tag in numPostsLabel
      ensures score == Score(State(), tag, words)
    {
      var t := State();
      assert 0 < Get(numPostsLabel, tag) <= totalPosts;
      score := Prior(t, tag);
      ScoreOfNoWords(t, tag);
      var pending := words;
      while pending != {}
        invariant pending <= words
        invariant score == Score(t, tag, words - pending)
        decreases pending
      {
        var w :| w in pending;
        ScoreInsert(t, tag, words - pending, w);
        assert words - (pending - {w}) == (words - pending) + {w};
        score := Mul(score, Likelihood(t, tag, w));
        pending := pending - {w};
      }
      assert words - pending == words;
    }
  }
}
