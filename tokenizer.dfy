/** `unique_words`: the set of whitespace-delimited words of a string. */
module Tokenizer {
  import opened Text

  /** A word as `istream >> string` extracts it: at least one byte, none of
      them whitespace. */
  predicate IsWord(w: Bytes) {
    |w| > 0 && forall k :: 0 <= k < |w| ==> !IsSpace(w[k])
  }

  /** The length of the longest whitespace-free prefix of `s`. */
  function RunLength(s: Bytes): (n: nat)
    ensures n <= |s|
    ensures forall k :: 0 <= k < n ==> !IsSpace(s[k])
    ensures n == |s| || IsSpace(s[n])
  {
    if |s| == 0 || IsSpace(s[0]) then 0 else 1 + RunLength(s[1..])
  }

  /** The words of `s`, read left to right the way repeated extractions from
      an `istringstream` read them: skip whitespace, take the longest
      whitespace-free run, repeat. Duplicates collapse into the set. Every
      word read is non-empty and holds no whitespace. */
  function Words(s: Bytes): (r: set<Bytes>)
    ensures forall w :: w in r ==> IsWord(w)
    decreases |s|
  {
    if |s| == 0 then {}
    else if IsSpace(s[0]) then Words(s[1..])
    else var n := RunLength(s); {s[..n]} + Words(s[n..])
  }

  /** `s[i..j]` is a maximal whitespace-free run of `s`: it is bounded on each
      side by whitespace or by an end of `s`. */
  ghost predicate RunAt(s: Bytes, i: int, j: int) {
    && 0 <= i < j <= |s|
    && (forall k :: i <= k < j ==> !IsSpace(s[k]))
    && (i == 0 || IsSpace(s[i - 1]))
    && (j == |s| || IsSpace(s[j]))
  }

  lemma RunLengthIs(s: Bytes, n: nat)
    requires n <= |s|
    requires forall k :: 0 <= k < n ==> !IsSpace(s[k])
    requires n == |s| || IsSpace(s[n])
    ensures RunLength(s) == n
  {
  }

  /** A run of a suffix `s[d..]` that does not start right at the cut, or
      whose cut follows whitespace, is a run of `s`. */
  lemma RunOfSuffix(s: Bytes, d: nat, i: int, j: int)
    requires d <= |s| && RunAt(s[d..], i, j)
    requires i > 0 || d == 0 || IsSpace(s[d - 1])
    ensures RunAt(s, i + d, j + d) && s[d..][i..j] == s[i + d..j + d]
  {
    forall k | i + d <= k < j + d
      ensures !IsSpace(s[k])
    {
      assert s[k] == s[d..][k - d];
    }
    if i > 0 {
      assert s[i + d - 1] == s[d..][i - 1];
    }
    if j + d < |s| {
      assert s[j + d] == s[d..][j];
    }
  }

  /** A run of `s` that starts at or after `d`, with whitespace or the start
      of `s` right before `d`, is a run of the suffix `s[d..]`. */
  lemma RunInSuffix(s: Bytes, d: nat, i: int, j: int)
    requires RunAt(s, i, j) && d <= i
    ensures RunAt(s[d..], i - d, j - d) && s[d..][i - d..j - d] == s[i..j]
  {
    forall k | i - d <= k < j - d
      ensures !IsSpace(s[d..][k])
    {
      assert s[d..][k] == s[k + d];
    }
    if i > d {
      assert s[d..][i - d - 1] == s[i - 1];
    }
    if j < |s| {
      assert s[d..][j - d] == s[j];
    }
  }

  /** Every word comes from a maximal whitespace-free run of the input. */
  lemma {:induction false} WordHasRun(s: Bytes, w: Bytes)
    requires w in Words(s)
    ensures exists i, j :: RunAt(s, i, j) && s[i..j] == w
    decreases |s|
  {
    if IsSpace(s[0]) {
      WordHasRun(s[1..], w);
      var i, j :| RunAt(s[1..], i, j) && s[1..][i..j] == w;
      RunOfSuffix(s, 1, i, j);
    } else {
      var n := RunLength(s);
      if w == s[..n] {
        assert RunAt(s, 0, n);
      } else {
        WordHasRun(s[n..], w);
        var i, j :| RunAt(s[n..], i, j) && s[n..][i..j] == w;
        RunOfSuffix(s, n, i, j);
      }
    }
  }

  /** Every maximal whitespace-free run of the input is a word. */
  lemma {:induction false} RunIsWord(s: Bytes, i: int, j: int)
    requires RunAt(s, i, j)
    ensures s[i..j] in Words(s)
    decreases |s|, 1
  {
    if IsSpace(s[0]) {
      RunPastSpaceIsWord(s, i, j);
    } else if i == 0 {
      FirstRunIsWord(s, j);
    } else {
      RunPastFirstRunIsWord(s, i, j);
    }
  }

  lemma FirstRunIsWord(s: Bytes, j: int)
    requires RunAt(s, 0, j)
    ensures s[..j] in Words(s)
  {
    RunLengthIs(s, j);
  }

  lemma {:induction false} RunPastSpaceIsWord(s: Bytes, i: int, j: int)
    requires RunAt(s, i, j) && IsSpace(s[0])
    ensures s[i..j] in Words(s)
    decreases |s|, 0
  {
    RunInSuffix(s, 1, i, j);
    RunIsWord(s[1..], i - 1, j - 1);
  }

  lemma {:induction false} RunPastFirstRunIsWord(s: Bytes, i: int, j: int)
    requires RunAt(s, i, j) && !IsSpace(s[0]) && i > 0
    ensures s[i..j] in Words(s)
    decreases |s|, 0
  {
    var n := RunLength(s);
    assert i > n by {
      assert IsSpace(s[i - 1]);
    }
    RunInSuffix(s, n, i, j);
    RunIsWord(s[n..], i - n, j - n);
  }

  /** `unique_words` returns exactly the maximal whitespace-free runs. */
  lemma WordsAreMaximalRuns(s: Bytes, w: Bytes)
    ensures w in Words(s) <==> exists i, j :: RunAt(s, i, j) && s[i..j] == w
  {
    if w in Words(s) {
      WordHasRun(s, w);
    }
    if exists i, j :: RunAt(s, i, j) && s[i..j] == w {
      var i, j :| RunAt(s, i, j) && s[i..j] == w;
      RunIsWord(s, i, j);
    }
  }

  /** Empty or whitespace-only input, and only such input, has no words. */
  lemma {:induction false} NoWordsIffBlank(s: Bytes)
    ensures Words(s) == {} <==> forall k :: 0 <= k < |s| ==> IsSpace(s[k])
    decreases |s|
  {
    if |s| > 0 && IsSpace(s[0]) {
      NoWordsIffBlank(s[1..]);
      if forall k :: 0 <= k < |s[1..]| ==> IsSpace(s[1..][k]) {
        forall k | 0 <= k < |s| ensures IsSpace(s[k]) {
          if k > 0 {
            assert s[k] == s[1..][k - 1];
          }
        }
      }
    }
  }

  /** Words separated by a whitespace byte `c` are read independently: the
      words of `a + [c] + b` are those of `a` together with those of `b`. */
  lemma {:induction false} WordsOfSpaced(a: Bytes, c: Byte, b: Bytes)
    requires IsSpace(c)
    ensures Words(a + [c] + b) == Words(a) + Words(b)
    decreases |a|
  {
    var s := a + [c] + b;
    if |a| == 0 {
      assert s[1..] == b;
    } else if IsSpace(a[0]) {
      assert s[1..] == a[1..] + [c] + b;
      WordsOfSpaced(a[1..], c, b);
    } else {
      var n := RunLength(a);
      RunLengthIs(s, n);
      assert s[..n] == a[..n];
      assert s[n..] == a[n..] + [c] + b;
      WordsOfSpaced(a[n..], c, b);
    }
  }

  /** A text repeated after a whitespace byte has the words of the text
      alone: a word written twice in a post is kept once. */
  lemma RepeatedWordOnce(a: Bytes, c: Byte)
    requires IsSpace(c)
    ensures Words(a + [c] + a) == Words(a)
  {
    WordsOfSpaced(a, c, a);
  }

  /** Reading `s` from position `i` on, with `words` read before `i`:
      a whitespace byte is skipped without reading a word. */
  lemma SkipSpace(s: Bytes, i: nat, words: set<Bytes>)
    requires i < |s| && IsSpace(s[i])
    requires words + Words(s[i..]) == Words(s)
    ensures words + Words(s[i + 1..]) == Words(s)
  {
    assert s[i..][1..] == s[i + 1..];
  }

  /** A whitespace-free run from `i` up to whitespace or the end of `s` is
      read as one word. */
  lemma TakeWord(s: Bytes, i: nat, j: nat, words: set<Bytes>)
    requires i < j <= |s|
    requires forall k :: i <= k < j ==> !IsSpace(s[k])
    requires j == |s| || IsSpace(s[j])
    requires words + Words(s[i..]) == Words(s)
    ensures (words + {s[i..j]}) + Words(s[j..]) == Words(s)
  {
    WordsOfRun(s, i, j);
  }

  lemma WordsOfRun(s: Bytes, i: nat, j: nat)
    requires i < j <= |s|
    requires forall k :: i <= k < j ==> !IsSpace(s[k])
    requires j == |s| || IsSpace(s[j])
    ensures Words(s[i..]) == {s[i..j]} + Words(s[j..])
  {
    RunLengthIs(s[i..], j - i);
    assert s[i..][..j - i] == s[i..j];
    assert s[i..][j - i..] == s[j..];
  }

  /** At the end of `s` nothing is left to read. */
  lemma ReadAll(s: Bytes, words: set<Bytes>)
    requires words + Words(s[|s|..]) == Words(s)
    ensures words == Words(s)
  {
    assert s[|s|..] == [];
  }

  /** One extraction `iss >> word` starting at a non-whitespace byte: the
      word runs up to the next whitespace or the end of the input. */
  method ScanWord(str: Bytes, i: nat) returns (j: nat)
    requires i < |str| && !IsSpace(str[i])
    ensures i < j <= |str|
    ensures forall k :: i <= k < j ==> !IsSpace(str[k])
    ensures j == |str| || IsSpace(str[j])
  {
    j := i + 1;
    while j < |str| && !IsSpace(str[j])
      invariant i < j <= |str|
      invariant forall k :: i <= k < j ==> !IsSpace(str[k])
    {
      j := j + 1;
    }
  }

  /** `unique_words`: extract words one at a time and insert each into a set. */
  method UniqueWords(str: Bytes) returns (words: set<Bytes>)
    ensures words == Words(str)
  {
    words := {};
    var i := 0;
    while i < |str|
      invariant 0 <= i <= |str|
      invariant words + Words(str[i..]) == Words(str)
    {
      if IsSpace(str[i]) {
        SkipSpace(str, i, words);
        i := i + 1;
      } else {
        var j := ScanWord(str, i);
        TakeWord(str, i, j, words);
        words := words + {str[i..j]};
        i := j;
      }
    }
    ReadAll(str, words);
  }
}
