# Naive Bayes text classifier — verified model

`classifier.cpp` trains a bag-of-words Naive Bayes classifier on labelled
posts (rows with a `tag` and a `content` column) and predicts the label of a
new post. This project models its core in Dafny and proves what it computes:

- **Tokenizer** (`tokenizer.dfy`): `unique_words` splits a string into its
  whitespace-delimited words, as `istream >> string` does, and keeps the set of
  distinct words. `UniqueWords` is the loop. It is proved equal to the
  recursive `Words`, and `Words` is proved to be exactly the set of maximal
  whitespace-free runs of the input. Whitespace is the C locale's `isspace`
  set: space, tab, newline, vertical tab, form feed and carriage return.
  Strings are byte sequences (`Text.Bytes`).
- **Frequency tables** (`naive_bayes.dfy`, `counts.dfy`): the five counters
  of a `Classifier` as the value `Tables`, what one training row does to them
  (`Ingested`), and training on a sequence of rows (`Trained`).
  - Training keeps the invariant `Inv`:
    - the label counts sum to the number of posts;
    - for each word, its per-label counts sum to its overall count;
    - no count exceeds the count it is part of;
    - a map entry exists only once it has been counted.
  - Each counter is proved to be the document frequency over the posts
    ingested.
- **Likelihood and score** (`naive_bayes.dfy`): `calculate_log_likelihood`
  backs off in three tiers, from the label's counts to the corpus counts to
  one post in all. `predict` scores each label by its prior times the
  likelihood of each distinct query word.
  - The model works with these probabilities as exact reals. The logarithm is
    strictly increasing, so comparing products chooses the same label as
    comparing sums of logarithms.
- **The object** (`model.dfy`): `Classifier` is a class whose fields are the
  source's counters. Training one row (`Ingest`) updates them in place, and
  its contract is stated against `Ingested`. `Predict` is proved to return a
  label of the highest score, the lexicographically first among ties under
  `std::string`'s byte order (`Text.LexLess`).

Products of probabilities are written with `Counts.Mul`, multiplication of
reals under a name, so that products of equal factors are equal by
congruence, without arithmetic reasoning.

## Model

| member | source | states |
|---|---|---|
| Tokenizer.UniqueWords | classifier.cpp:14-22 | The set of words collected by extracting words one at a time is exactly `Words(str)`. |
| Tokenizer.ScanWord | classifier.cpp:18 | One extraction from a non-whitespace byte advances past at least one byte. It reads only non-whitespace and stops at whitespace or the end of the input. |
| Tokenizer.RunLength | classifier.cpp:18 | The extracted prefix contains no whitespace and is followed by whitespace or the end, so it is maximal. |
| Tokenizer.WordsAreMaximalRuns | classifier.cpp:14-22 | A string is a word of the input if and only if it is a maximal whitespace-free run of the input. |
| Tokenizer.Words | classifier.cpp:14-22 | The words read left to right by repeated extraction; every word is non-empty and contains no whitespace. |
| Tokenizer.NoWordsIffBlank | classifier.cpp:14-22 | The input has no words if and only if it is empty or all whitespace. |
| Tokenizer.WordsOfSpaced | classifier.cpp:14-22 | The words of two texts joined by any one whitespace byte are the union of the words of each. |
| Tokenizer.RepeatedWordOnce | classifier.cpp:14-22 | A text repeated after any one whitespace byte has the same word set as the text alone, so a repeated word counts once. |
| Text.LexLessIffCommonPrefix | classifier.cpp:181 | `a < b` holds exactly when `a` is a proper prefix of `b`, or when the first differing byte of `a` is smaller. |
| Text.LexLessTransitive | classifier.cpp:181 | The string order used for the tie-break is transitive. |
| Text.LexLessTotal | classifier.cpp:181 | Of two distinct strings, one is less than the other. |
| Text.LexLessIrreflexive | classifier.cpp:181 | No string is less than itself. |
| Text.LexLessAsymmetric | classifier.cpp:181 | Two strings are never each less than the other. |
| Counts.Get2 | classifier.cpp:84-90 | The two-level `find`: the stored count when the label has a row holding the word, 0 when either lookup misses. |
| Counts.Bump | classifier.cpp:52 | `operator[]` then `++`: a missing key is inserted, the key's count goes up by one, and every other count is unchanged. |
| Counts.Bump2 | classifier.cpp:63 | `numPosts_label_word[label][word]++`: the label's row and the word's entry are inserted when missing, that one count goes up by one, and every other count is unchanged. |
| Counts.BumpAllInsert | classifier.cpp:60-64 | Counting one more distinct word adds one to that word's count on top of the words already counted. |
| Counts.BumpRowInsert | classifier.cpp:63 | Counting one more distinct word under a label is `numPosts_label_word[label][word]++` on top of the words already counted. |
| Counts.TotalUpdate | classifier.cpp:29-31 | Changing one entry of a counter changes its total by the difference. |
| NaiveBayes.Ingested | classifier.cpp:50-64 | One row: one more post; its label becomes a key of the label table; its words become keys of the word table; the label gets a row in the label-word table exactly when the content has a word. |
| NaiveBayes.Trained | classifier.cpp:49-65 | Training on a sequence of rows counts each row once and makes the vocabulary the union of the rows' words. |
| NaiveBayes.IngestCounts | classifier.cpp:50-64 | One row adds one to the post count, one to its label's count, one to each distinct word's count overall and under the label, and adds its words to the vocabulary. Every other count is unchanged. |
| NaiveBayes.IngestBlank | classifier.cpp:50-64 | A row with empty or all-whitespace content counts only as a post of its label. |
| NaiveBayes.IngestTwice | classifier.cpp:50-64 | Training is not idempotent: the same row ingested twice counts twice everywhere. |
| NaiveBayes.IngestPreservesInv | classifier.cpp:50-64 | One row keeps the counters consistent: labels sum to posts, per-label word counts sum to word counts, counts are bounded, and entries are positive. |
| NaiveBayes.TrainedInv | classifier.cpp:37-67 | Training on any sequence of rows from a fresh classifier yields consistent counters. |
| NaiveBayes.TrainedCounts | classifier.cpp:37-67 | After training, each count is the number of posts with that label, word, or both. The vocabulary is the union of the posts' words, and the post count is the number of rows. |
| NaiveBayes.TierOf | classifier.cpp:94-113 | The label tier if and only if the (label, word) count is positive; else the corpus tier if and only if the word's count is positive; else the unseen tier. |
| NaiveBayes.Likelihood | classifier.cpp:81-116 | The likelihood of any word under any label is a probability in (0, 1], at least `1 / total_posts`, so its logarithm is finite and at most 0. |
| NaiveBayes.TrainedLikelihood | classifier.cpp:81-116 | After training, the likelihood is the label's fraction of posts containing the word. If no post of the label has it, the likelihood is the corpus fraction, and for an unseen word it is `1 / total_posts`. |
| NaiveBayes.UnseenUniform | classifier.cpp:110-113 | A word outside the vocabulary gets `1 / total_posts` under every label. |
| NaiveBayes.IngestedWordsAreSeen | classifier.cpp:60-64 | After a row is ingested, each of its words uses the label tier under its label and is not unseen under any label. |
| NaiveBayes.FractionAtLeastFloor | classifier.cpp:95-106 | The divisions of the label and corpus tiers (and of the prior at line 172): a count between 1 and its total gives a fraction in (0, 1] no smaller than one over the post count. |
| NaiveBayes.Prior | classifier.cpp:172 | The prior of a trained label is a probability in (0, 1]. |
| NaiveBayes.Score | classifier.cpp:171-178 | The score of a label is a probability in (0, 1]. |
| NaiveBayes.ScoreOfNoWords | classifier.cpp:172 | With no query words, the score is the label's prior. |
| NaiveBayes.ScoreInsert | classifier.cpp:175-178 | Adding a word multiplies the score by that word's likelihood, whatever the order of the words. |
| NaiveBayes.LikelihoodsInsert | classifier.cpp:175-178 | Adding a word multiplies the product of likelihoods by that word's likelihood. |
| NaiveBayes.ChoiceStep | classifier.cpp:181-184 | The replacement rule (higher score, or equal score and smaller label) keeps the choice a highest-scoring label among those seen, the smallest among ties. |
| Model.Classifier.constructor | classifier.cpp:27-32 | A new classifier has no posts, an empty vocabulary, empty tables and an empty training log. |
| Model.Classifier.Ingest | classifier.cpp:50-64 | One row updates the fields in place to `Ingested` of the old counters and appends the row to the training log. The counters remain those of training on the log. |
| Model.Classifier.CountWords | classifier.cpp:60-64 | The word loop adds the row's words to the vocabulary and counts each once overall and under the label. It changes nothing else. |
| Model.Classifier.GetTotalPosts | classifier.cpp:70-72 | The post count equals the number of rows trained on. |
| Model.Classifier.GetVocabularySize | classifier.cpp:75-77 | The vocabulary size equals the number of distinct words over all rows trained on. |
| Model.Classifier.Predict | classifier.cpp:160-187 | With no labels, the result is the empty label and the starting score. Otherwise the result is a trained label whose score is the highest, the lexicographically smallest among labels of that score. |
| Model.Classifier.ChooseLabel | classifier.cpp:163-185 | The loop over the labels, in any order, ends with a highest-scoring label, the smallest among ties. |
| Model.Classifier.LabelScore | classifier.cpp:171-178 | The prior multiplied by each word's likelihood in turn equals the label's score. |

## Left out

- Floating point and `log`: scores are exact real probabilities rather than
  sums of `double` logarithms.
  - The order of labels is the same because `log` is strictly increasing.
  - Rounding is not modelled. Two labels whose exact scores differ could
    round to the same `double`, and then the tie-break decides between them.
- NaiveBayes.Score: the product of probabilities stands in for the sum of
  their logarithms that `predict` computes.
- Model.Classifier.Predict: the starting score `numeric_limits<double>::lowest()`
  is modelled as `0.0`. Every real score is positive, just as every `double`
  log-score is above `lowest()`, so the first label is always taken in both.
- Model.Classifier.Predict: labels are visited in any order, where
  `std::map` visits them in increasing order. The result is proved for every
  order, which includes the sorted one.
- Model.Classifier.CountWords: the word loop updates local copies of the
  three tables and assigns them to the fields once the loop ends. The source
  updates the fields on each iteration. Both end in the same state.
- Model.Classifier.Ingest: models one iteration of the `train` loop. The
  file is given as rows already parsed.
  - CSV parsing and file opening are not part of this model, including the
    error message for a file that cannot be opened.
  - A row missing `tag` or `content` is modelled by passing the empty string,
    which is what `row["tag"]` yields.
- `int` overflow of the counters (more than 2^31 - 1 posts) is not modelled.
  Counts are unbounded integers.
- NaiveBayes.Likelihood: requires at least one trained post. With no posts,
  the source divides by zero, and `predict` never reaches that division
  because there are no labels to score.
- `print_training_data`, `print_classifier_parameters` and `main` (argument
  checking, printing, reading the test file, accuracy reporting) are
  input/output only, and are not modelled.
