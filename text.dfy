/** Byte strings as the classifier handles them: a C++ `std::string` is a
    sequence of bytes, split on "C"-locale whitespace and ordered by
    `operator<`, which compares bytes as `unsigned char`. */
module Text {

  /** One byte, held as a character below 256 so that literals read as text. */
  type Byte = c: char | c as int < 256

  type Bytes = seq<Byte>

  /** The whitespace that `istream >> string` skips and stops at in the "C"
      locale: space, tab, newline, vertical tab, form feed, carriage return. */
  predicate IsSpace(c: Byte) {
    c == ' ' || '\t' <= c <= '\r'
  }

  /** `a < b` on `std::string`: the first differing byte decides, and a proper
      prefix comes first. */
  predicate LexLess(a: Bytes, b: Bytes) {
    if |b| == 0 then false
    else if |a| == 0 then true
    else if a[0] != b[0] then a[0] < b[0]
    else LexLess(a[1..], b[1..])
  }

  /** The same order stated through the length of the common prefix. */
  ghost predicate LexLessAt(a: Bytes, b: Bytes, k: nat) {
    && k <= |a| && k < |b|
    && a[..k] == b[..k]
    && (k == |a| || a[k] < b[k])
  }

  lemma {:induction false} LexLessIffCommonPrefix(a: Bytes, b: Bytes)
    ensures LexLess(a, b) <==> exists k: nat :: LexLessAt(a, b, k)
    decreases |a|
  {
    if |b| == 0 {
    } else if |a| == 0 {
      assert LexLessAt(a, b, 0);
    } else if a[0] != b[0] {
      if exists k: nat :: LexLessAt(a, b, k) {
        var k: nat :| LexLessAt(a, b, k);
        assert k == 0;
      }
      if a[0] < b[0] {
        assert LexLessAt(a, b, 0);
      }
    } else {
      LexLessIffCommonPrefix(a[1..], b[1..]);
      if LexLess(a, b) {
        var k: nat :| LexLessAt(a[1..], b[1..], k);
        assert a[..k + 1] == [a[0]] + a[1..][..k];
        assert b[..k + 1] == [b[0]] + b[1..][..k];
        assert LexLessAt(a, b, k + 1);
      }
      if exists k: nat :: LexLessAt(a, b, k) {
        var k: nat :| LexLessAt(a, b, k);
        if k == 0 {
          assert false;
        }
        assert a[1..][..k - 1] == a[..k][1..];
        assert b[1..][..k - 1] == b[..k][1..];
        assert LexLessAt(a[1..], b[1..], k - 1);
      }
    }
  }

  lemma {:induction false} LexLessIrreflexive(a: Bytes)
    ensures !LexLess(a, a)
    decreases |a|
  {
    if |a| > 0 {
      LexLessIrreflexive(a[1..]);
    }
  }

  lemma {:induction false} LexLessTransitive(a: Bytes, b: Bytes, c: Bytes)
    requires LexLess(a, b) && LexLess(b, c)
    ensures LexLess(a, c)
    decreases |a|
  {
    if |a| > 0 && a[0] == b[0] && b[0] == c[0] {
      LexLessTransitive(a[1..], b[1..], c[1..]);
    }
  }

  /** Any two distinct strings are ordered one way or the other, so a
      tie-break by `LexLess` always decides. */
  lemma {:induction false} LexLessTotal(a: Bytes, b: Bytes)
    ensures a == b || LexLess(a, b) || LexLess(b, a)
    decreases |a|
  {
    if |a| > 0 && |b| > 0 && a[0] == b[0] {
      LexLessTotal(a[1..], b[1..]);
      if a[1..] == b[1..] {
        assert a == [a[0]] + a[1..] && b == [b[0]] + b[1..];
      }
    }
  }

  lemma {:induction false} LexLessAsymmetric(a: Bytes, b: Bytes)
    requires LexLess(a, b)
    ensures !LexLess(b, a)
  {
    if LexLess(b, a) {
      LexLessTransitive(a, b, a);
      LexLessIrreflexive(a);
    }
  }
}
