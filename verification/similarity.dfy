/** `calculate_similarity` of `evaluation/utils.py`: the Jaccard similarity
    of the sets of lower-cased, whitespace-separated words of two strings. */
module Similarity {
  import opened Text

  // ------------------------------------------------------------- split()

  /** A non-empty run of characters none of which is whitespace. */
  predicate IsField(w: string) {
    |w| > 0 && forall k :: 0 <= k < |w| ==> !IsSpace(w[k])
  }

  /** End of the run of non-whitespace characters starting at `i`. */
  function FieldEnd(s: string, i: nat): (j: nat)
    requires i <= |s|
    ensures i <= j <= |s|
    ensures j == |s| || IsSpace(s[j])
    decreases |s| - i
  {
    if i < |s| && !IsSpace(s[i]) then FieldEnd(s, i + 1) else i
  }

  /** Every character `FieldEnd` skips is not whitespace. */
  lemma {:induction false} FieldRun(s: string, i: nat)
    requires i <= |s|
    ensures forall k :: i <= k < FieldEnd(s, i) ==> !IsSpace(s[k])
    decreases |s| - i
  {
    if i < |s| && !IsSpace(s[i]) {
      FieldRun(s, i + 1);
    }
  }

  /** A run that stops at whitespace or at the end is the one `FieldEnd`
      finds. */
  lemma {:induction false} FieldEndIs(s: string, i: nat, j: nat)
    requires i <= j <= |s|
    requires forall k :: i <= k < j ==> !IsSpace(s[k])
    requires j == |s| || IsSpace(s[j])
    ensures FieldEnd(s, i) == j
    decreases j - i
  {
    if i < j {
      FieldEndIs(s, i + 1, j);
    }
  }

  /** Python's `s.split()` with no separator: the maximal runs of
      non-whitespace characters, in order. */
  function Fields(s: string): (r: seq<string>)
    ensures forall k :: 0 <= k < |r| ==> IsField(r[k])
    decreases |s|
  {
    if |s| == 0 then []
    else if IsSpace(s[0]) then Fields(s[1..])
    else
      var j := FieldEnd(s, 0);
      FieldRun(s, 0);
      [s[..j]] + Fields(s[j..])
  }

  /** Words joined by single blanks split back into the same words. */
  lemma {:induction false} FieldsOfJoin(words: seq<string>)
    requires forall k :: 0 <= k < |words| ==> IsField(words[k])
    ensures Fields(Join(words, ' ')) == words
    decreases |words|
  {
    if |words| == 1 {
      var w := words[0];
      FieldEndIs(w, 0, |w|);
      assert w[..|w|] == w && w[|w|..] == [];
    } else if |words| > 1 {
      var w, rest := words[0], words[1..];
      var s := Join(words, ' ');
      var tail := Join(rest, ' ');
      assert s == w + [' '] + tail;
      assert IsSpace(' ');
      FieldEndIs(s, 0, |w|);
      assert s[..|w|] == w;
      assert s[|w|..] == [' '] + tail;
      assert ([' '] + tail)[1..] == tail;
      FieldsOfJoin(rest);
      assert words == [w] + rest;
    }
  }

  // ---------------------------------------------------------- word sets

  /** The fields of capital-free text are capital-free. */
  lemma {:induction false} FieldsNoUpper(s: string)
    requires NoUpper(s)
    ensures forall k :: 0 <= k < |Fields(s)| ==> NoUpper(Fields(s)[k])
    decreases |s|
  {
    if |s| > 0 {
      if IsSpace(s[0]) {
        FieldsNoUpper(s[1..]);
      } else {
        var j := FieldEnd(s, 0);
        FieldsNoUpper(s[j..]);
        assert Fields(s) == [s[..j]] + Fields(s[j..]);
      }
    }
  }

  /** `set(s.lower().split())`: a set of non-empty, whitespace-free,
      capital-free words. */
  function WordSet(s: string): (r: set<string>)
    ensures forall w :: w in r <==> w in Fields(Lower(s))
    ensures forall w :: w in r ==> IsField(w) && NoUpper(w)
  {
    FieldsNoUpper(Lower(s));
    set w | w in Fields(Lower(s))
  }

  /** Round trip: capital-free words joined by blanks have exactly those
      words as their word set. */
  lemma {:induction false} WordSetOfJoin(words: seq<string>)
    requires forall k :: 0 <= k < |words| ==> IsField(words[k]) && NoUpper(words[k])
    ensures WordSet(Join(words, ' ')) == set w | w in words
  {
    JoinNoUpper(words, ' ');
    LowerFixed(Join(words, ' '));
    FieldsOfJoin(words);
  }

  /** `calculate_similarity`: 1.0 when neither string has a word, 0.0 when
      just one has none, otherwise shared words over all words. */
  function Similarity(a: string, b: string): (r: real)
    ensures 0.0 <= r <= 1.0
  {
    var w1, w2 := WordSet(a), WordSet(b);
    if |w1| == 0 && |w2| == 0 then 1.0
    else if |w1| == 0 || |w2| == 0 then 0.0
    else
      var shared, all := |w1 * w2|, |w1 + w2|;
      SubsetCard(w1 * w2, w1 + w2);
      if all > 0 then Ratio(shared, all); shared as real / all as real else 0.0
  }

  // -------------------------------------------------------- cardinality

  /** A subset is no larger, and a subset as large is the whole set. */
  lemma {:induction false} SubsetCard<T>(a: set<T>, b: set<T>)
    requires a <= b
    ensures |a| <= |b|
    ensures |a| == |b| ==> a == b
    decreases |a|
  {
    if a == {} {
      if |b| == 0 {
        assert b == {};
      }
    } else {
      var x :| x in a;
      SubsetCard(a - {x}, b - {x});
      if |a| == |b| {
        assert a - {x} == b - {x};
        assert a == (a - {x}) + {x} && b == (b - {x}) + {x};
      }
    }
  }

  /** The quotient of a part by a positive whole lies in [0, 1]; it is 1
      exactly when the part is the whole, and 0 exactly when the part is
      empty. */
  lemma Ratio(part: nat, whole: nat)
    requires 0 < whole && part <= whole
    ensures 0.0 <= part as real / whole as real <= 1.0
    ensures (part as real / whole as real == 1.0) <==> part == whole
    ensures (part as real / whole as real == 0.0) <==> part == 0
  {
    var p, w := part as real, whole as real;
    var r := p / w;
    assert r * w == p;
    QuotientBounds(r, w, p);
  }

  /** For a positive `w`, `r * w` in [0, w] puts `r` in [0, 1], touching an
      end exactly when the product does. */
  lemma QuotientBounds(r: real, w: real, p: real)
    requires 0.0 < w && 0.0 <= p <= w && r * w == p
    ensures 0.0 <= r <= 1.0
    ensures r == 1.0 <==> p == w
    ensures r == 0.0 <==> p == 0.0
  {
    if r < 0.0 {
      assert false;
    }
    if r > 1.0 {
      assert false;
    }
    if r < 1.0 {
      assert r * w < 1.0 * w;
    }
    if r > 0.0 {
      assert r * w > 0.0 * w;
    }
  }

  // ---------------------------------------------------------- properties

  /** The score does not depend on the order of its arguments. */
  lemma SimilaritySymmetric(a: string, b: string)
    ensures Similarity(a, b) == Similarity(b, a)
  {
    var w1, w2 := WordSet(a), WordSet(b);
    assert w1 * w2 == w2 * w1 && w1 + w2 == w2 + w1;
  }

  /** The score is 1.0 exactly when both strings have the same words. */
  lemma {:induction false} SimilarityOne(a: string, b: string)
    ensures Similarity(a, b) == 1.0 <==> WordSet(a) == WordSet(b)
  {
    var w1, w2 := WordSet(a), WordSet(b);
    if |w1| > 0 && |w2| > 0 {
      SubsetCard(w1 * w2, w1 + w2);
      Ratio(|w1 * w2|, |w1 + w2|);
      if w1 * w2 == w1 + w2 {
        assert w1 <= w1 + w2 && w2 <= w1 + w2;
        assert w1 == w2;
      }
    } else if |w1| == 0 && |w2| > 0 {
      assert w1 == {};
    } else if |w1| > 0 && |w2| == 0 {
      assert w2 == {};
    } else {
      assert w1 == {} && w2 == {};
    }
  }

  /** The score is 0.0 exactly when just one string has no words, or both
      have words and share none. */
  lemma SimilarityZero(a: string, b: string)
    ensures Similarity(a, b) == 0.0
            <==> (|WordSet(a)| == 0) != (|WordSet(b)| == 0)
                 || (|WordSet(a)| > 0 && WordSet(a) * WordSet(b) == {})
  {
    var w1, w2 := WordSet(a), WordSet(b);
    if |w1| > 0 && |w2| > 0 {
      SubsetCard(w1 * w2, w1 + w2);
      SubsetCard(w1, w1 + w2);
      Ratio(|w1 * w2|, |w1 + w2|);
    }
  }

  /** Case does not matter: lowering an argument first leaves the score as
      it is. */
  lemma SimilarityIgnoresCase(a: string, b: string)
    ensures Similarity(Lower(a), b) == Similarity(a, b)
  {
    LowerTwice(a);
  }
}
