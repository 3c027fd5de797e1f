/** Python string operations the pipeline relies on, with the meaning Python
    gives them: `str.isspace`, `str.strip`, `str.split(sep)`, `sep.join(...)`,
    `in` on strings, `str.lower` and the ASCII part of the regex classes
    `\d`, `\w` and `\s`. */
module Text {
  import opened Wrappers

  /** `str.isspace()` for one character; Python's `\s`, `str.strip()` and
      `str.split()` all use this set. */
  predicate IsSpace(c: char) {
    var n := c as int;
    (9 <= n <= 13) || (28 <= n <= 32) || n == 0x85 || n == 0xA0 || n == 0x1680
    || (0x2000 <= n <= 0x200A) || n == 0x2028 || n == 0x2029 || n == 0x202F
    || n == 0x205F || n == 0x3000
  }

  /** The regex class `\d`, restricted to ASCII digits. */
  predicate IsDigit(c: char) {
    '0' <= c <= '9'
  }

  /** The regex class `\w`, restricted to ASCII letters, digits and `_`. */
  predicate IsWordChar(c: char) {
    ('a' <= c <= 'z') || ('A' <= c <= 'Z') || IsDigit(c) || c == '_'
  }

  /** A non-empty run of word characters: what `\w+` matches. */
  predicate IsWord(w: string) {
    |w| > 0 && forall k :: 0 <= k < |w| ==> IsWordChar(w[k])
  }

  /** An ASCII capital letter, the only characters `Lower` changes. */
  predicate IsUpper(c: char) {
    'A' <= c <= 'Z'
  }

  /** Text without ASCII capitals. */
  predicate NoUpper(s: string) {
    forall k :: 0 <= k < |s| ==> !IsUpper(s[k])
  }

  /** `str.lower()` on one character, ASCII letters only. */
  function LowerChar(c: char): char {
    if IsUpper(c) then (c as int + 32) as char else c
  }

  /** `str.lower()`: no capital is left, and every other character stays
      where it was. */
  function Lower(s: string): (r: string)
    ensures |r| == |s|
    ensures forall i :: 0 <= i < |s| ==> r[i] == LowerChar(s[i])
    ensures NoUpper(r)
    ensures forall i :: 0 <= i < |s| && !IsUpper(s[i]) ==> r[i] == s[i]
  {
    seq(|s|, i requires 0 <= i < |s| => LowerChar(s[i]))
  }

  /** Lowering is idempotent. */
  lemma LowerTwice(s: string)
    ensures Lower(Lower(s)) == Lower(s)
  {
  }

  /** A text is its own lowering exactly when it has no capital. */
  lemma LowerFixed(s: string)
    ensures Lower(s) == s <==> NoUpper(s)
  {
    if NoUpper(s) {
      assert forall i :: 0 <= i < |s| ==> Lower(s)[i] == s[i];
    }
  }

  predicate StartsWith(s: string, p: string) {
    |p| <= |s| && s[..|p|] == p
  }

  /** `p` occurs in `s` starting at index `i`. */
  predicate OccursAt(s: string, p: string, i: int) {
    0 <= i && i + |p| <= |s| && s[i..i + |p|] == p
  }

  /** Python's `p in s` for strings. */
  predicate Contains(s: string, p: string) {
    exists i | 0 <= i <= |s| - |p| :: OccursAt(s, p, i)
  }

  lemma OccursAtTail(s: string, p: string, k: nat)
    requires |s| > 0
    ensures OccursAt(s[1..], p, k) <==> OccursAt(s, p, k + 1)
  {
    if 0 <= k && k + 1 + |p| <= |s| {
      assert s[1..][k..k + |p|] == s[k + 1..k + 1 + |p|];
    }
  }

  /** `str.find`: the first index at which `p` occurs in `s`. */
  function IndexOf(s: string, p: string): (r: Option<nat>)
    ensures r.Some? ==> OccursAt(s, p, r.value)
    ensures r.Some? ==> forall j :: 0 <= j < r.value ==> !OccursAt(s, p, j)
    ensures r.None? <==> !Contains(s, p)
    decreases |s|
  {
    if StartsWith(s, p) then
      assert s[0..|p|] == s[..|p|];
      assert OccursAt(s, p, 0);
      Some(0)
    else if |s| == 0 then
      None
    else
      var r := IndexOf(s[1..], p);
      assert !OccursAt(s, p, 0) by {
        if |p| <= |s| {
          assert s[0..|p|] == s[..|p|];
        }
      }
      forall j: nat
        ensures OccursAt(s[1..], p, j) <==> OccursAt(s, p, j + 1)
      {
        OccursAtTail(s, p, j);
      }
      match r
      case Some(k) =>
        assert forall j :: 0 <= j < k + 1 ==> !OccursAt(s, p, j) by {
          forall j | 0 < j < k + 1
            ensures !OccursAt(s, p, j)
          {
            assert !OccursAt(s[1..], p, j - 1);
          }
        }
        Some(k + 1)
      case None =>
        assert forall j :: 0 <= j ==> !OccursAt(s, p, j) by {
          forall j | 0 < j
            ensures !OccursAt(s, p, j)
          {
            assert !OccursAt(s[1..], p, j - 1);
          }
        }
        None
  }

  lemma OccursInConcat(a: string, p: string, b: string)
    ensures OccursAt(a + p + b, p, |a|)
    ensures Contains(a + p + b, p)
  {
    assert (a + p + b)[|a|..|a| + |p|] == p;
    assert OccursAt(a + p + b, p, |a|);
  }

  lemma StartsContains(s: string, p: string)
    requires StartsWith(s, p)
    ensures Contains(s, p)
  {
    assert s[0..|p|] == s[..|p|];
    assert OccursAt(s, p, 0);
  }

  lemma StartsSplit(s: string, p: string)
    requires StartsWith(s, p)
    ensures s == p + s[|p|..]
  {
    assert s == s[..|p|] + s[|p|..];
  }

  lemma ContainsLeft(a: string, b: string, p: string)
    requires Contains(a, p)
    ensures Contains(a + b, p)
  {
    var i :| 0 <= i <= |a| - |p| && OccursAt(a, p, i);
    assert (a + b)[i..i + |p|] == a[i..i + |p|];
    assert OccursAt(a + b, p, i);
  }

  lemma ContainsRight(a: string, b: string, p: string)
    requires Contains(b, p)
    ensures Contains(a + b, p)
  {
    var i :| 0 <= i <= |b| - |p| && OccursAt(b, p, i);
    assert (a + b)[|a| + i..|a| + i + |p|] == b[i..i + |p|];
    assert OccursAt(a + b, p, |a| + i);
  }

  /** An occurrence inside the slice `s[lo..hi]` is an occurrence in `s`. */
  lemma ContainsSlice(s: string, lo: int, hi: int, p: string)
    requires 0 <= lo <= hi <= |s|
    requires Contains(s[lo..hi], p)
    ensures Contains(s, p)
  {
    var i :| 0 <= i <= (hi - lo) - |p| && OccursAt(s[lo..hi], p, i);
    forall k | 0 <= k < |p|
      ensures s[lo + i..lo + i + |p|][k] == p[k]
    {
      assert s[lo..hi][i..i + |p|][k] == p[k];
    }
    assert s[lo + i..lo + i + |p|] == p;
    assert OccursAt(s, p, lo + i);
  }

  lemma SliceOfSlice(s: string, lo: int, hi: int, i: int, j: int)
    requires 0 <= lo <= hi <= |s| && 0 <= i <= j <= hi - lo
    ensures s[lo..hi][i..j] == s[lo + i..lo + j]
  {
    forall k | 0 <= k < j - i
      ensures s[lo..hi][i..j][k] == s[lo + i..lo + j][k]
    {
      assert s[lo..hi][i..j][k] == s[lo..hi][i + k] == s[lo + i + k];
    }
  }

  /** A pattern absent from `s` is absent from every slice of `s`. */
  lemma NotContainsSlice(s: string, lo: int, hi: int, p: string)
    requires 0 <= lo <= hi <= |s|
    requires !Contains(s, p)
    ensures !Contains(s[lo..hi], p)
  {
    forall i | 0 <= i <= (hi - lo) - |p|
      ensures !OccursAt(s[lo..hi], p, i)
    {
      assert !OccursAt(s, p, lo + i);
      SliceOfSlice(s, lo, hi, i, i + |p|);
    }
  }

  /** The same for the string without its first character. */
  lemma NotContainsTail(s: string, p: string)
    requires |s| > 0 && !Contains(s, p)
    ensures !Contains(s[1..], p)
  {
    NotContainsSlice(s, 1, |s|, p);
    assert s[1..] == s[1..|s|] by {
      forall k | 0 <= k < |s| - 1
        ensures s[1..][k] == s[1..|s|][k]
      {
      }
    }
  }

  /** A string in which character `c` never appears contains no pattern
      that uses `c`. */
  lemma MissingCharNotContained(s: string, p: string, c: char)
    requires c in p && c !in s
    ensures !Contains(s, p)
  {
    var k :| 0 <= k < |p| && p[k] == c;
    forall i | 0 <= i <= |s| - |p|
      ensures !OccursAt(s, p, i)
    {
      assert s[i..i + |p|][k] == s[i + k];
    }
  }

  // ---------------------------------------------------------------- split/join

  /** Python's `s.split(sep)` for a one-character separator: never empty,
      and no piece holds the separator. */
  function Split(s: string, sep: char): (r: seq<string>)
    ensures |r| >= 1
    ensures forall i :: 0 <= i < |r| ==> sep !in r[i]
    decreases |s|
  {
    if |s| == 0 then [""]
    else
      var rest := Split(s[1..], sep);
      if s[0] == sep then [""] + rest
      else [[s[0]] + rest[0]] + rest[1..]
  }

  /** Python's `sep.join(parts)`. */
  function Join(parts: seq<string>, sep: char): string
    decreases |parts|
  {
    if |parts| == 0 then ""
    else if |parts| == 1 then parts[0]
    else parts[0] + [sep] + Join(parts[1..], sep)
  }

  /** Joining capital-free parts with a capital-free separator gives
      capital-free text. */
  lemma {:induction false} JoinNoUpper(parts: seq<string>, sep: char)
    requires forall k :: 0 <= k < |parts| ==> NoUpper(parts[k])
    requires !IsUpper(sep)
    ensures NoUpper(Join(parts, sep))
    decreases |parts|
  {
    if |parts| > 1 {
      JoinNoUpper(parts[1..], sep);
      var x, tail := parts[0], Join(parts[1..], sep);
      assert Join(parts, sep) == x + [sep] + tail;
      forall k | 0 <= k < |x| + 1 + |tail|
        ensures !IsUpper((x + [sep] + tail)[k])
      {
        if k > |x| {
          assert (x + [sep] + tail)[k] == tail[k - |x| - 1];
        }
      }
    }
  }

  lemma JoinCons(x: string, rest: seq<string>, sep: char)
    requires |rest| >= 1
    ensures Join([x] + rest, sep) == x + [sep] + Join(rest, sep)
  {
    assert ([x] + rest)[1..] == rest;
  }

  lemma JoinHead(c: char, x: string, rest: seq<string>, sep: char)
    ensures Join([[c] + x] + rest, sep) == [c] + Join([x] + rest, sep)
  {
    assert ([[c] + x] + rest)[1..] == rest;
    assert ([x] + rest)[1..] == rest;
  }

  /** Joining the pieces of a split gives the string back. */
  lemma {:induction false} JoinSplit(s: string, sep: char)
    ensures Join(Split(s, sep), sep) == s
    decreases |s|
  {
    if |s| > 0 {
      var rest := Split(s[1..], sep);
      JoinSplit(s[1..], sep);
      if s[0] == sep {
        JoinCons("", rest, sep);
      } else {
        assert rest == [rest[0]] + rest[1..];
        JoinHead(s[0], rest[0], rest[1..], sep);
      }
    }
  }

  lemma {:induction false} SplitNoSep(x: string, t: string, sep: char)
    requires sep !in x
    ensures Split(x + t, sep) == [x + Split(t, sep)[0]] + Split(t, sep)[1..]
    decreases |x|
  {
    var r := Split(t, sep);
    if |x| == 0 {
      assert x + t == t;
      assert x + r[0] == r[0];
      assert r == [r[0]] + r[1..];
    } else {
      assert (x + t)[1..] == x[1..] + t;
      SplitNoSep(x[1..], t, sep);
      assert [x[0]] + (x[1..] + Split(t, sep)[0]) == x + Split(t, sep)[0];
    }
  }

  /** Splitting a join of separator-free pieces gives the pieces back. */
  lemma {:induction false} SplitJoin(parts: seq<string>, sep: char)
    requires |parts| >= 1
    requires forall i :: 0 <= i < |parts| ==> sep !in parts[i]
    ensures Split(Join(parts, sep), sep) == parts
    decreases |parts|
  {
    if |parts| == 1 {
      SplitNoSep(parts[0], "", sep);
      assert parts[0] + "" == parts[0];
    } else {
      var rest := parts[1..];
      SplitJoin(rest, sep);
      var t := [sep] + Join(rest, sep);
      assert Join(parts, sep) == parts[0] + [sep] + Join(rest, sep);
      assert Join(parts, sep) == parts[0] + t;
      SplitNoSep(parts[0], t, sep);
      assert t[1..] == Join(rest, sep);
      assert Split(t, sep) == [""] + rest;
      assert parts[0] + "" == parts[0];
      assert parts == [parts[0]] + rest;
    }
  }

  /** Every piece of a split is a slice of the original string. */
  lemma {:induction false} SplitPieceIsSlice(s: string, sep: char, i: nat) returns (lo: nat)
    requires i < |Split(s, sep)|
    ensures lo + |Split(s, sep)[i]| <= |s|
    ensures s[lo..lo + |Split(s, sep)[i]|] == Split(s, sep)[i]
    decreases |s|
  {
    if |s| == 0 {
      lo := 0;
    } else {
      var rest := Split(s[1..], sep);
      if s[0] == sep {
        if i == 0 {
          lo := 0;
        } else {
          var k := SplitPieceIsSlice(s[1..], sep, i - 1);
          lo := k + 1;
          assert s[1..][k..k + |rest[i - 1]|] == s[lo..lo + |rest[i - 1]|];
        }
      } else {
        if i == 0 {
          FirstPieceIsPrefix(s, sep);
          lo := 0;
        } else {
          var k := SplitPieceIsSlice(s[1..], sep, i);
          lo := k + 1;
          assert s[1..][k..k + |rest[i]|] == s[lo..lo + |rest[i]|];
        }
      }
    }
  }

  lemma {:induction false} FirstPieceIsPrefix(s: string, sep: char)
    ensures StartsWith(s, Split(s, sep)[0])
    decreases |s|
  {
    if |s| > 0 && s[0] != sep {
      FirstPieceIsPrefix(s[1..], sep);
      var r0 := Split(s[1..], sep)[0];
      assert s[..1 + |r0|] == [s[0]] + s[1..][..|r0|];
    }
  }

  /** A pattern absent from the whole string is absent from every piece of
      its split. */
  lemma SplitPieceMissing(s: string, sep: char, i: nat, p: string)
    requires i < |Split(s, sep)|
    requires !Contains(s, p)
    ensures !Contains(Split(s, sep)[i], p)
  {
    var lo := SplitPieceIsSlice(s, sep, i);
    NotContainsSlice(s, lo, lo + |Split(s, sep)[i]|, p);
  }

  // ------------------------------------------------------------------ strip

  predicate AllSpace(s: string) {
    forall i :: 0 <= i < |s| ==> IsSpace(s[i])
  }

  /** `str.lstrip()`. */
  function TrimStart(s: string): (r: string)
    ensures |r| <= |s| && r == s[|s| - |r|..]
    ensures AllSpace(s[..|s| - |r|])
    ensures |r| == 0 || !IsSpace(r[0])
    decreases |s|
  {
    if |s| > 0 && IsSpace(s[0]) then
      var r := TrimStart(s[1..]);
      assert s[1..][..|s| - 1 - |r|] == s[1..|s| - |r|];
      r
    else s
  }

  /** `str.rstrip()`. */
  function TrimEnd(s: string): (r: string)
    ensures |r| <= |s| && r == s[..|r|]
    ensures AllSpace(s[|r|..])
    ensures |r| == 0 || !IsSpace(r[|r| - 1])
    decreases |s|
  {
    if |s| > 0 && IsSpace(s[|s| - 1]) then
      var u := s[..|s| - 1];
      var r := TrimEnd(u);
      assert r == s[..|r|];
      assert forall k :: |r| <= k < |s| - 1 ==> s[k] == u[|r|..][k - |r|];
      assert AllSpace(s[|r|..]) by {
        forall k | 0 <= k < |s| - |r| ensures IsSpace(s[|r|..][k]) {
          assert s[|r|..][k] == s[|r| + k];
        }
      }
      r
    else s
  }

  /** Neither end is whitespace. */
  predicate Unpadded(s: string) {
    |s| == 0 || (!IsSpace(s[0]) && !IsSpace(s[|s| - 1]))
  }

  /** `str.strip()`: no leading or trailing whitespace remains. */
  function Strip(s: string): (r: string)
    ensures Unpadded(r)
  {
    var t := TrimStart(s);
    var r := TrimEnd(t);
    assert |r| > 0 ==> r[0] == t[0];
    r
  }

  /** `strip` removes only whitespace, and only from the two ends. */
  lemma StripParts(s: string) returns (lead: string, trail: string)
    ensures s == lead + Strip(s) + trail
    ensures AllSpace(lead) && AllSpace(trail)
  {
    var t := TrimStart(s);
    var r := TrimEnd(t);
    assert Strip(s) == r;
    var k := |s| - |t|;
    lead := s[..k];
    trail := t[|r|..];
    assert t == s[k..] && r == t[..|r|];
    SliceSplit(t, |r|);
    SliceSplit(s, k);
    assert s == lead + t && t == r + trail;
    Associate(lead, r, trail);
  }

  lemma Associate(a: string, b: string, c: string)
    ensures a + (b + c) == a + b + c
  {
  }

  lemma SliceSplit(s: string, k: nat)
    requires k <= |s|
    ensures s == s[..k] + s[k..]
  {
  }

  lemma StripOfUnpadded(s: string)
    requires Unpadded(s)
    ensures Strip(s) == s
  {
  }

  lemma StripIdempotent(s: string)
    ensures Strip(Strip(s)) == Strip(s)
  {
    StripOfUnpadded(Strip(s));
  }

  // ------------------------------------------------------------------- runs

  /** End of the maximal run of whitespace starting at `i`. */
  function SpaceEnd(s: string, i: nat): (j: nat)
    requires i <= |s|
    ensures i <= j <= |s|
    ensures j == |s| || !IsSpace(s[j])
    decreases |s| - i
  {
    if i < |s| && IsSpace(s[i]) then SpaceEnd(s, i + 1) else i
  }

  /** Every character skipped by `SpaceEnd` belongs to the run. */
  lemma {:induction false} SpaceRun(s: string, i: nat)
    requires i <= |s|
    ensures forall k :: i <= k < SpaceEnd(s, i) ==> IsSpace(s[k])
    decreases |s| - i
  {
    if i < |s| && IsSpace(s[i]) {
      SpaceRun(s, i + 1);
    }
  }

  /** End of the maximal run of `\w` characters starting at `i`. */
  function WordEnd(s: string, i: nat): (j: nat)
    requires i <= |s|
    ensures i <= j <= |s|
    ensures j == |s| || !IsWordChar(s[j])
    decreases |s| - i
  {
    if i < |s| && IsWordChar(s[i]) then WordEnd(s, i + 1) else i
  }

  /** Every character skipped by `WordEnd` belongs to the run. */
  lemma {:induction false} WordRun(s: string, i: nat)
    requires i <= |s|
    ensures forall k :: i <= k < WordEnd(s, i) ==> IsWordChar(s[k])
    decreases |s| - i
  {
    if i < |s| && IsWordChar(s[i]) {
      WordRun(s, i + 1);
    }
  }

  /** End of the maximal run of `\d` characters starting at `i`. */
  function DigitEnd(s: string, i: nat): (j: nat)
    requires i <= |s|
    ensures i <= j <= |s|
    ensures j == |s| || !IsDigit(s[j])
    decreases |s| - i
  {
    if i < |s| && IsDigit(s[i]) then DigitEnd(s, i + 1) else i
  }

  /** Every character skipped by `DigitEnd` belongs to the run. */
  lemma {:induction false} DigitRun(s: string, i: nat)
    requires i <= |s|
    ensures forall k :: i <= k < DigitEnd(s, i) ==> IsDigit(s[k])
    decreases |s| - i
  {
    if i < |s| && IsDigit(s[i]) {
      DigitRun(s, i + 1);
    }
  }

  /** The run of `\w` characters after `x` is exactly `w` when the text
      following `w` does not start with one. */
  lemma WordEndConcat(x: string, w: string, y: string)
    requires forall k :: 0 <= k < |w| ==> IsWordChar(w[k])
    requires |y| == 0 || !IsWordChar(y[0])
    ensures WordEnd(x + w + y, |x|) == |x| + |w|
  {
    var s := x + w + y;
    assert forall k :: |x| <= k < |x| + |w| ==> s[k] == w[k - |x|];
    assert |y| > 0 ==> s[|x| + |w|] == y[0];
    WordEndIs(s, |x|, |x| + |w|);
  }

  /** The whitespace run after `x` is exactly `w` when the text following
      `w` does not start with whitespace. */
  lemma SpaceEndConcat(x: string, w: string, y: string)
    requires AllSpace(w)
    requires |y| == 0 || !IsSpace(y[0])
    ensures SpaceEnd(x + w + y, |x|) == |x| + |w|
  {
    var s := x + w + y;
    assert forall k :: |x| <= k < |x| + |w| ==> s[k] == w[k - |x|];
    assert |y| > 0 ==> s[|x| + |w|] == y[0];
    SpaceEndIs(s, |x|, |x| + |w|);
  }

  /** `s[i..j]` is all whitespace (possibly empty). */
  predicate SpaceSpan(s: string, i: nat, j: nat) {
    i <= j <= |s| && forall k :: i <= k < j ==> IsSpace(s[k])
  }

  /** `s[i..j]` is all word characters (possibly empty). */
  predicate WordSpan(s: string, i: nat, j: nat) {
    i <= j <= |s| && forall k :: i <= k < j ==> IsWordChar(s[k])
  }

  /** `\w` and `\s` are disjoint. */
  lemma WordNotSpace(c: char)
    ensures !(IsWordChar(c) && IsSpace(c))
  {
  }

  /** A whitespace run from `i` ends no later than the maximal one. */
  lemma SpaceSpanWithin(s: string, i: nat, j: nat)
    requires SpaceSpan(s, i, j)
    ensures j <= SpaceEnd(s, i)
  {
  }

  /** A word run from `i` ends no later than the maximal one. */
  lemma WordSpanWithin(s: string, i: nat, j: nat)
    requires WordSpan(s, i, j)
    ensures j <= WordEnd(s, i)
  {
  }

  lemma {:induction false} WordEndIs(s: string, i: nat, j: nat)
    requires i <= j <= |s|
    requires forall k :: i <= k < j ==> IsWordChar(s[k])
    requires j == |s| || !IsWordChar(s[j])
    ensures WordEnd(s, i) == j
    decreases j - i
  {
    if i < j {
      WordEndIs(s, i + 1, j);
    }
  }

  lemma {:induction false} SpaceEndIs(s: string, i: nat, j: nat)
    requires i <= j <= |s|
    requires forall k :: i <= k < j ==> IsSpace(s[k])
    requires j == |s| || !IsSpace(s[j])
    ensures SpaceEnd(s, i) == j
    decreases j - i
  {
    if i < j {
      SpaceEndIs(s, i + 1, j);
    }
  }

  /** The `\w` run at `i` is exactly the word `w` written there. */
  lemma WordRunAt(s: string, i: nat, w: string)
    requires i + |w| <= |s| && s[i..i + |w|] == w
    requires forall k :: 0 <= k < |w| ==> IsWordChar(w[k])
    requires i + |w| == |s| || !IsWordChar(s[i + |w|])
    ensures WordEnd(s, i) == i + |w|
  {
    forall k | i <= k < i + |w| ensures IsWordChar(s[k]) {
      assert s[k] == s[i..i + |w|][k - i];
    }
    WordEndIs(s, i, i + |w|);
  }

  /** The whitespace run at `i` is exactly the blank text `w` written there. */
  lemma SpaceRunAt(s: string, i: nat, w: string)
    requires i + |w| <= |s| && s[i..i + |w|] == w
    requires AllSpace(w)
    requires i + |w| == |s| || !IsSpace(s[i + |w|])
    ensures SpaceEnd(s, i) == i + |w|
  {
    forall k | i <= k < i + |w| ensures IsSpace(s[k]) {
      assert s[k] == s[i..i + |w|][k - i];
    }
    SpaceEndIs(s, i, i + |w|);
  }

  /** `s * n` for a string and a count. */
  function Repeat(s: string, n: nat): string {
    if n == 0 then "" else s + Repeat(s, n - 1)
  }

  /** Every element of `lines` with `p` in front. */
  function PrefixAll(p: string, lines: seq<string>): (r: seq<string>)
    ensures |r| == |lines|
    ensures forall i :: 0 <= i < |lines| ==> r[i] == p + lines[i]
  {
    if |lines| == 0 then [] else [p + lines[0]] + PrefixAll(p, lines[1..])
  }
}
