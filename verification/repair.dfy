/** The repairer `clean_pony_code`: four regular-expression rewrites of the
    generated Pony source, then padding with `end` lines until every
    `if ... then` line has a closing `end`, then `strip`.  Each regex is a
    scanner over the remaining text that follows Python's leftmost,
    non-overlapping `re.sub` / `re.findall`; where the pattern looks behind
    (`\b`, `^`) the scanner carries a flag describing the character before
    the remaining text. */
module Repair {
  import opened Wrappers
  import opened Text
  import opened Balance

  // ------------------------------------------------ pass 1: `(\d+)[Uu]\b`

  predicate IsUnsignedMark(c: char) {
    c == 'U' || c == 'u'
  }

  /** Position `k` holds a suffix the first rewrite deletes: a `U`/`u` right
      after a digit and followed by a word boundary. */
  predicate SuffixAt(s: string, k: int) {
    0 < k < |s| && IsUnsignedMark(s[k]) && IsDigit(s[k - 1])
    && (k + 1 == |s| || !IsWordChar(s[k + 1]))
  }

  /** The scan at `i` removes a suffix: a digit run ending at `j` is
      followed by `U`/`u` and a word boundary. */
  predicate SuffixMatch(s: string, i: nat, j: nat)
    requires i <= j <= |s|
  {
    j < |s| && IsUnsignedMark(s[j]) && (j + 1 == |s| || !IsWordChar(s[j + 1]))
  }

  /** `re.sub(r'(\d+)[Uu]\b', r'\1', s[i..])` as a scan from index `i`. */
  function StripSuffixesFrom(s: string, i: nat): string
    requires i <= |s|
    decreases |s| - i
  {
    if i == |s| then ""
    else if IsDigit(s[i]) then
      var j := DigitEnd(s, i);
      if SuffixMatch(s, i, j) then
        s[i..j] + StripSuffixesFrom(s, j + 1)
      else
        [s[i]] + StripSuffixesFrom(s, i + 1)
    else
      [s[i]] + StripSuffixesFrom(s, i + 1)
  }

  function StripNumericSuffixes(s: string): string {
    StripSuffixesFrom(s, 0)
  }

  /** Reference for the first rewrite: every character is kept except the
      suffixes `SuffixAt` marks. */
  function KeepFrom(s: string, k: nat): (r: string)
    requires k <= |s|
    ensures |r| <= |s| - k
    decreases |s| - k
  {
    if k == |s| then "" else (if SuffixAt(s, k) then "" else [s[k]]) + KeepFrom(s, k + 1)
  }

  lemma {:induction false} DigitsKept(s: string, i: nat, j: nat)
    requires i <= j <= |s|
    requires forall k :: i <= k < j ==> IsDigit(s[k])
    ensures KeepFrom(s, i) == s[i..j] + KeepFrom(s, j)
    decreases j - i
  {
    if i < j {
      assert !IsUnsignedMark(s[i]) && !SuffixAt(s, i);
      assert KeepFrom(s, i) == [s[i]] + KeepFrom(s, i + 1);
      DigitsKept(s, i + 1, j);
      assert s[i..j] == [s[i]] + s[i + 1..j];
    }
  }

  lemma {:induction false} SuffixScanMatchesReference(s: string, i: nat)
    requires i <= |s| && !SuffixAt(s, i)
    ensures StripSuffixesFrom(s, i) == KeepFrom(s, i)
    decreases |s| - i
  {
    if i < |s| {
      if IsDigit(s[i]) && SuffixMatch(s, i, DigitEnd(s, i)) {
        var j := DigitEnd(s, i);
        assert !SuffixAt(s, j + 1);
        SuffixScanMatchesReference(s, j + 1);
        SuffixStepMatch(s, i, j);
      } else {
        SuffixNotAfterSkip(s, i);
        SuffixScanMatchesReference(s, i + 1);
        SuffixStepSkip(s, i);
      }
    }
  }

  lemma SuffixStepMatch(s: string, i: nat, j: nat)
    requires i < |s| && IsDigit(s[i]) && j == DigitEnd(s, i) && SuffixMatch(s, i, j)
    requires StripSuffixesFrom(s, j + 1) == KeepFrom(s, j + 1)
    ensures StripSuffixesFrom(s, i) == KeepFrom(s, i)
  {
    DigitRun(s, i);
    DigitsKept(s, i, j);
    assert SuffixAt(s, j);
    assert KeepFrom(s, j) == KeepFrom(s, j + 1);
  }

  lemma SuffixNotAfterSkip(s: string, i: nat)
    requires i < |s|
    requires !(IsDigit(s[i]) && SuffixMatch(s, i, DigitEnd(s, i)))
    ensures !SuffixAt(s, i + 1)
  {
    if IsDigit(s[i]) && DigitEnd(s, i) > i + 1 {
      DigitRun(s, i);
      assert IsDigit(s[i + 1]);
    }
  }

  lemma SuffixStepSkip(s: string, i: nat)
    requires i < |s| && !SuffixAt(s, i)
    requires !(IsDigit(s[i]) && SuffixMatch(s, i, DigitEnd(s, i)))
    requires StripSuffixesFrom(s, i + 1) == KeepFrom(s, i + 1)
    ensures StripSuffixesFrom(s, i) == KeepFrom(s, i)
  {
  }

  /** The first rewrite deletes exactly the marked suffixes and nothing else. */
  lemma StripNumericSuffixesSpec(s: string)
    ensures StripNumericSuffixes(s) == KeepFrom(s, 0)
  {
    SuffixScanMatchesReference(s, 0);
  }

  lemma {:induction false} KeepAllFrom(s: string, k: nat)
    requires k <= |s|
    requires forall m :: k <= m < |s| ==> !SuffixAt(s, m)
    ensures KeepFrom(s, k) == s[k..]
    decreases |s| - k
  {
    if k < |s| {
      KeepAllFrom(s, k + 1);
      assert s[k..] == [s[k]] + s[k + 1..];
    }
  }

  /** Text without a digit-then-`U` suffix passes the first rewrite unchanged. */
  lemma StripNumericSuffixesNoSuffix(s: string)
    requires forall m :: 0 <= m < |s| ==> !SuffixAt(s, m)
    ensures StripNumericSuffixes(s) == s
  {
    StripNumericSuffixesSpec(s);
    KeepAllFrom(s, 0);
  }

  // --------------------------------------- pass 2: `^package\s+\w+\s*\n`

  const PackageKeyword: string := "package"

  /** The last newline in `t[lo..hi]`. */
  function LastNewline(t: string, lo: nat, hi: nat): (r: Option<nat>)
    requires lo <= hi <= |t|
    ensures r.Some? ==> lo <= r.value < hi && t[r.value] == '\n'
    ensures r.Some? ==> forall k :: r.value < k < hi ==> t[k] != '\n'
    ensures r.None? ==> forall k :: lo <= k < hi ==> t[k] != '\n'
    decreases hi - lo
  {
    if hi == lo then None
    else if t[hi - 1] == '\n' then Some(hi - 1)
    else LastNewline(t, lo, hi - 1)
  }

  /** `t[..n]` is a match of `package\s+\w+\s*\n`: the keyword, whitespace
      up to `a`, the name `t[a..b]`, then whitespace whose last character,
      at `n - 1`, is a newline. */
  predicate PackageAt(t: string, a: nat, b: nat, n: nat) {
    StartsWith(t, PackageKeyword) && |PackageKeyword| < a < b < n <= |t|
    && SpaceSpan(t, |PackageKeyword|, a) && WordSpan(t, a, b) && SpaceSpan(t, b, n)
    && t[n - 1] == '\n'
  }

  /** The whitespace and the name of a match are the maximal runs, and its
      newline lies in the whitespace run after the name. */
  lemma PackageForced(t: string, a: nat, b: nat, n: nat)
    requires PackageAt(t, a, b, n)
    ensures a == SpaceEnd(t, |PackageKeyword|) && b == WordEnd(t, a) && n <= SpaceEnd(t, b)
  {
    WordNotSpace(t[a]);
    SpaceEndIs(t, |PackageKeyword|, a);
    WordNotSpace(t[b]);
    WordEndIs(t, a, b);
    SpaceSpanWithin(t, b, n);
  }

  lemma PackageShapes(t: string)
    ensures forall a: nat, b: nat, n: nat :: PackageAt(t, a, b, n) ==>
      a == SpaceEnd(t, |PackageKeyword|) && b == WordEnd(t, a) && n <= SpaceEnd(t, b)
  {
    forall a: nat, b: nat, n: nat | PackageAt(t, a, b, n)
      ensures a == SpaceEnd(t, |PackageKeyword|) && b == WordEnd(t, a) && n <= SpaceEnd(t, b)
    {
      PackageForced(t, a, b, n);
    }
  }

  /** Length of the match of `package\s+\w+\s*\n` at the start of `t`:
      the longest one, as the greedy `\s*` backtracks only to the last
      newline of its run; `None` exactly when no match exists. */
  function PackageMatch(t: string): (r: Option<nat>)
    ensures r.Some? ==> |PackageKeyword| < r.value <= |t| && t[r.value - 1] == '\n'
    ensures r.Some? ==> exists a: nat, b: nat :: PackageAt(t, a, b, r.value)
    ensures forall a: nat, b: nat, n: nat :: PackageAt(t, a, b, n) ==> r.Some? && n <= r.value
  {
    PackageShapes(t);
    if !StartsWith(t, PackageKeyword) then None
    else
      var a := SpaceEnd(t, |PackageKeyword|);
      var b := WordEnd(t, a);
      if a == |PackageKeyword| || b == a then None
      else
        match LastNewline(t, b, SpaceEnd(t, b))
        case None => None
        case Some(n) =>
          SpaceRun(t, |PackageKeyword|);
          WordRun(t, a);
          SpaceRun(t, b);
          assert PackageAt(t, a, b, n + 1);
          Some(n + 1)
  }

  /** `re.sub(r'^package\s+\w+\s*\n', '', t, flags=re.MULTILINE)`;
      `atLineStart` says whether `^` holds before `t`. */
  function RemovePackagesFrom(t: string, atLineStart: bool): string
    decreases |t|
  {
    if |t| == 0 then ""
    else if atLineStart && PackageMatch(t).Some? then
      RemovePackagesFrom(t[PackageMatch(t).value..], true)
    else
      [t[0]] + RemovePackagesFrom(t[1..], t[0] == '\n')
  }

  function RemovePackages(s: string): string {
    RemovePackagesFrom(s, true)
  }

  /** Only lines that begin with `package` are touched: text in which the
      keyword never starts a line is left as it is. */
  lemma {:induction false} RemovePackagesFromUnchanged(t: string, atLineStart: bool)
    requires atLineStart ==> !StartsWith(t, PackageKeyword)
    requires forall i :: 0 < i < |t| && t[i - 1] == '\n' ==> !OccursAt(t, PackageKeyword, i)
    ensures RemovePackagesFrom(t, atLineStart) == t
    decreases |t|
  {
    if |t| > 0 {
      var u := t[1..];
      forall i | 0 < i < |u| && u[i - 1] == '\n'
        ensures !OccursAt(u, PackageKeyword, i)
      {
        OccursAtTail(t, PackageKeyword, i);
      }
      if t[0] == '\n' {
        OccursAtTail(t, PackageKeyword, 0);
        assert !OccursAt(t, PackageKeyword, 1);
        assert !StartsWith(u, PackageKeyword) by {
          if |PackageKeyword| <= |u| {
            assert u[..|PackageKeyword|] == u[0..|PackageKeyword|];
          }
        }
      }
      RemovePackagesFromUnchanged(u, t[0] == '\n');
      assert t == [t[0]] + u;
    }
  }

  lemma RemovePackagesNoLine(s: string)
    requires !StartsWith(s, PackageKeyword)
    requires forall i :: 0 < i < |s| && s[i - 1] == '\n' ==> !OccursAt(s, PackageKeyword, i)
    ensures RemovePackages(s) == s
  {
    RemovePackagesFromUnchanged(s, true);
  }

  /** The text of a `package` declaration: the keyword, a blank gap, the
      name and blank padding ending in a newline. */
  function PackageLine(gap: string, name: string, pad: string): string {
    PackageKeyword + gap + name + pad
  }

  /** A `package` declaration at the start of the text is removed through
      the last newline of the whitespace after the name: when `rest` holds
      no newline before its first non-blank character, exactly the line goes,
      and what follows it is processed as the start of a line. */
  lemma RemovePackageLine(gap: string, name: string, pad: string, rest: string)
    requires |gap| > 0 && AllSpace(gap) && IsWord(name)
    requires |pad| > 0 && AllSpace(pad) && pad[|pad| - 1] == '\n'
    requires forall k :: 0 <= k < SpaceEnd(rest, 0) ==> rest[k] != '\n'
    ensures RemovePackages(PackageLine(gap, name, pad) + rest) == RemovePackages(rest)
  {
    var t := PackageLine(gap, name, pad) + rest;
    var a := |PackageKeyword| + |gap|;
    var b := a + |name|;
    var n := b + |pad|;
    PackageLineShape(gap, name, pad, rest);
    var m := PackageMatch(t).value;
    var a', b' :| PackageAt(t, a', b', m);
    PackageForced(t, a, b, n);
    PackageForced(t, a', b', m);
    if m > n {
      assert false;
    }
    assert t[n..] == rest;
  }

  lemma PackageLineShape(gap: string, name: string, pad: string, rest: string)
    requires |gap| > 0 && AllSpace(gap) && IsWord(name)
    requires |pad| > 0 && AllSpace(pad) && pad[|pad| - 1] == '\n'
    ensures var a := |PackageKeyword| + |gap|;
      var n := a + |name| + |pad|;
      PackageAt(PackageLine(gap, name, pad) + rest, a, a + |name|, n)
      && (PackageLine(gap, name, pad) + rest)[n..] == rest
  {
    var t := PackageLine(gap, name, pad) + rest;
    var a := |PackageKeyword| + |gap|;
    var b := a + |name|;
    var n := b + |pad|;
    assert t[..|PackageKeyword|] == PackageKeyword;
    assert forall k :: |PackageKeyword| <= k < a ==> t[k] == gap[k - |PackageKeyword|];
    assert forall k :: a <= k < b ==> t[k] == name[k - a];
    assert forall k :: b <= k < n ==> t[k] == pad[k - b];
    assert t[n..] == rest;
  }

  /** A `package` keyword that starts a line of `p`, where `p` ends in a
      newline, lies within `p`: the keyword holds no newline. */
  lemma KeywordInLine(p: string, t: string, i: nat)
    requires |p| > 0 && p[|p| - 1] == '\n' && i < |p|
    requires OccursAt(p + t, PackageKeyword, i)
    ensures OccursAt(p, PackageKeyword, i)
  {
    var s := p + t;
    assert s[|p| - 1] == '\n';
    assert forall j :: 0 <= j < |PackageKeyword| ==> PackageKeyword[j] != '\n';
    assert forall j :: i <= j < i + |PackageKeyword| ==> s[j] == PackageKeyword[j - i];
    if i + |PackageKeyword| <= |p| {
      assert s[i..i + |PackageKeyword|] == p[i..i + |PackageKeyword|];
    } else {
      assert false;
    }
  }

  /** Complete lines none of which begins with `package` pass unchanged, and
      what follows them is processed as the start of a line. */
  lemma {:induction false} RemovePackagesFromAfter(p: string, t: string, atLineStart: bool)
    requires |p| == 0 ==> atLineStart
    requires |p| > 0 ==> p[|p| - 1] == '\n'
    requires atLineStart ==> !OccursAt(p, PackageKeyword, 0)
    requires forall i :: 0 < i < |p| && p[i - 1] == '\n' ==> !OccursAt(p, PackageKeyword, i)
    ensures RemovePackagesFrom(p + t, atLineStart) == p + RemovePackagesFrom(t, true)
    decreases |p|
  {
    if |p| > 0 {
      var s := p + t;
      if atLineStart && PackageMatch(s).Some? {
        assert OccursAt(s, PackageKeyword, 0);
        KeywordInLine(p, t, 0);
        assert false;
      }
      var u := p[1..];
      assert s[1..] == u + t;
      forall i | 0 < i < |u| && u[i - 1] == '\n'
        ensures !OccursAt(u, PackageKeyword, i)
      {
        OccursAtTail(p, PackageKeyword, i);
      }
      if p[0] == '\n' && |u| > 0 {
        OccursAtTail(p, PackageKeyword, 0);
      }
      assert RemovePackagesFrom(s, atLineStart) == [p[0]] + RemovePackagesFrom(u + t, p[0] == '\n');
      RemovePackagesFromAfter(u, t, p[0] == '\n');
      assert p == [p[0]] + u;
      Associate([p[0]], u, RemovePackagesFrom(t, true));
    } else {
      assert p + t == t;
    }
  }

  /** Leading lines without a `package` declaration are kept as they are,
      and the rewrite of the rest is independent of them. */
  lemma RemovePackagesAfter(p: string, t: string)
    requires |p| > 0 ==> p[|p| - 1] == '\n'
    requires forall i :: 0 <= i < |p| && (i == 0 || p[i - 1] == '\n') ==> !OccursAt(p, PackageKeyword, i)
    ensures RemovePackages(p + t) == p + RemovePackages(t)
  {
    RemovePackagesFromAfter(p, t, true);
  }

  /** A `package` declaration after other lines is removed as well: the
      `^` of the pattern matches at every line start. */
  lemma RemovePackageLineAfter(p: string, gap: string, name: string, pad: string, rest: string)
    requires |p| > 0 ==> p[|p| - 1] == '\n'
    requires forall i :: 0 <= i < |p| && (i == 0 || p[i - 1] == '\n') ==> !OccursAt(p, PackageKeyword, i)
    requires |gap| > 0 && AllSpace(gap) && IsWord(name)
    requires |pad| > 0 && AllSpace(pad) && pad[|pad| - 1] == '\n'
    requires forall k :: 0 <= k < SpaceEnd(rest, 0) ==> rest[k] != '\n'
    ensures RemovePackages(p + (PackageLine(gap, name, pad) + rest)) == p + RemovePackages(rest)
  {
    RemovePackagesAfter(p, PackageLine(gap, name, pad) + rest);
    RemovePackageLine(gap, name, pad, rest);
  }

  // -------------------------------- pass 3: `\[([^\]]+)\]\.values\(\)`

  const ValuesCall: string := ".values()"

  /** The first index at or after `from` holding `c`. */
  function CharFrom(t: string, c: char, from: nat): (r: Option<nat>)
    requires from <= |t|
    ensures r.Some? ==> from <= r.value < |t| && t[r.value] == c
    ensures r.Some? ==> forall k :: from <= k < r.value ==> t[k] != c
    ensures r.None? ==> forall k :: from <= k < |t| ==> t[k] != c
    decreases |t| - from
  {
    if from == |t| then None
    else if t[from] == c then Some(from)
    else CharFrom(t, c, from + 1)
  }

  /** `t` opens with a match of `\[([^\]]+)\]\.values\(\)` whose group is
      the non-empty, `]`-free `t[1..j]`. */
  predicate ValuesAt(t: string, j: nat) {
    1 < j < |t| && t[0] == '[' && (forall k :: 1 <= k < j ==> t[k] != ']') && t[j] == ']'
    && OccursAt(t, ValuesCall, j + 1)
  }

  /** The match of `\[([^\]]+)\]\.values\(\)` at the start of `t`, as the
      index of its closing bracket; there is at most one, and `None` means
      there is none. */
  function ValuesMatch(t: string): (r: Option<nat>)
    ensures r.Some? ==> ValuesAt(t, r.value)
    ensures forall j: nat :: ValuesAt(t, j) ==> r == Some(j)
  {
    if |t| == 0 || t[0] != '[' then None
    else
      match CharFrom(t, ']', 1)
      case None => None
      case Some(j) => if j > 1 && OccursAt(t, ValuesCall, j + 1) then Some(j) else None
  }

  /** `re.sub(r'\[([^\]]+)\]\.values\(\)', r'[\1]', t)`. */
  function CollapseValues(t: string): string
    decreases |t|
  {
    if |t| == 0 then ""
    else
      match ValuesMatch(t)
      case Some(j) => t[..j + 1] + CollapseValues(t[j + 1 + |ValuesCall|..])
      case None => [t[0]] + CollapseValues(t[1..])
  }

  /** Text without `.values()` passes the third rewrite unchanged. */
  lemma {:induction false} CollapseValuesNoCall(t: string)
    requires !Contains(t, ValuesCall)
    ensures CollapseValues(t) == t
    decreases |t|
  {
    if |t| > 0 {
      assert ValuesMatch(t).None? by {
        forall j: nat ensures !OccursAt(t, ValuesCall, j) {
        }
      }
      NotContainsTail(t, ValuesCall);
      CollapseValuesNoCall(t[1..]);
      assert t == [t[0]] + t[1..];
    }
  }

  /** Text without an opening bracket is kept as it is, and the rewrite of
      what follows it is independent of it. */
  lemma {:induction false} CollapseValuesAfter(p: string, t: string)
    requires '[' !in p
    ensures CollapseValues(p + t) == p + CollapseValues(t)
    decreases |p|
  {
    if |p| > 0 {
      var s := p + t;
      assert s[0] == p[0];
      assert ValuesMatch(s).None?;
      assert s[1..] == p[1..] + t;
      CollapseValuesAfter(p[1..], t);
      assert p == [p[0]] + p[1..];
      Associate([p[0]], p[1..], CollapseValues(t));
    } else {
      assert p + t == t;
    }
  }

  /** `[x].values()` becomes `[x]` when `x` is non-empty and bracket-free. */
  lemma CollapseValuesLiteral(x: string, rest: string)
    requires |x| > 0 && ']' !in x
    ensures CollapseValues("[" + x + "]" + ValuesCall + rest) == "[" + x + "]" + CollapseValues(rest)
  {
    var t := "[" + x + "]" + ValuesCall + rest;
    var j := |x| + 1;
    assert forall k :: 1 <= k < j ==> t[k] == x[k - 1];
    assert t[j] == ']';
    assert CharFrom(t, ']', 1) == Some(j);
    assert t[j + 1..j + 1 + |ValuesCall|] == ValuesCall;
    assert ValuesMatch(t) == Some(j);
    assert t[..j + 1] == "[" + x + "]";
    assert t[j + 1 + |ValuesCall|..] == rest;
  }

  // ----- pass 4: `\b(\w+\s*==\s*\w+)\s+(or|and)\s+(\w+\s*==\s*\w+)`

  /** `t[i..j]` reads `\w+\s*==\s*\w+`: a word up to `a`, blanks up to
      `b`, the `==` at `b`, blanks up to `c`, then a word up to `j`. */
  predicate ComparisonParts(t: string, i: nat, a: nat, b: nat, c: nat, j: nat) {
    i < a <= b && b + 2 <= c < j <= |t|
    && WordSpan(t, i, a) && SpaceSpan(t, a, b) && OccursAt(t, "==", b)
    && SpaceSpan(t, b + 2, c) && WordSpan(t, c, j)
  }

  /** `t[i..j]` is a match of `\w+\s*==\s*\w+`. */
  ghost predicate IsComparison(t: string, i: nat, j: nat) {
    exists a: nat, b: nat, c: nat :: ComparisonParts(t, i, a, b, c, j)
  }

  /** The first operand, the blanks around `==` are maximal runs, and the
      second operand lies within the maximal word run after them. */
  lemma ComparisonForced(t: string, i: nat, a: nat, b: nat, c: nat, j: nat)
    requires ComparisonParts(t, i, a, b, c, j)
    ensures a == WordEnd(t, i) && b == SpaceEnd(t, a) && c == SpaceEnd(t, b + 2)
    ensures j <= WordEnd(t, c)
  {
    assert t[b] == t[b..b + 2][0] == '=';
    if a < b {
      WordNotSpace(t[a]);
    }
    WordEndIs(t, i, a);
    SpaceEndIs(t, a, b);
    WordNotSpace(t[c]);
    SpaceEndIs(t, b + 2, c);
    WordSpanWithin(t, c, j);
  }

  /** End of the match of `\w+\s*==\s*\w+` starting at `i`. */
  function ComparisonEnd(t: string, i: nat): (r: Option<nat>)
    requires i <= |t|
    ensures r.Some? ==> i < r.value <= |t|
  {
    var a := WordEnd(t, i);
    if a == i then None
    else
      var b := SpaceEnd(t, a);
      if !OccursAt(t, "==", b) then None
      else
        var c := SpaceEnd(t, b + 2);
        var d := WordEnd(t, c);
        if d == c then None else Some(d)
  }

  /** What `ComparisonEnd` finds is a match of `\w+\s*==\s*\w+`. */
  lemma ComparisonEndSound(t: string, i: nat)
    requires i <= |t|
    ensures ComparisonEnd(t, i).Some? ==> IsComparison(t, i, ComparisonEnd(t, i).value)
  {
    var a := WordEnd(t, i);
    var b := SpaceEnd(t, a);
    if a != i && OccursAt(t, "==", b) {
      var c := SpaceEnd(t, b + 2);
      var d := WordEnd(t, c);
      WordRun(t, i);
      SpaceRun(t, a);
      SpaceRun(t, b + 2);
      WordRun(t, c);
      if d != c {
        assert ComparisonParts(t, i, a, b, c, d);
      }
    }
  }

  /** `ComparisonEnd` misses no match: every match from `i` is found, and
      the longest one is reported, which every other reaches by word
      characters only. So `None` means no match starts at `i`. */
  lemma ComparisonEndComplete(t: string, i: nat, j: nat)
    requires i <= |t| && IsComparison(t, i, j)
    ensures ComparisonEnd(t, i).Some?
    ensures j <= ComparisonEnd(t, i).value && WordSpan(t, j, ComparisonEnd(t, i).value)
  {
    var a, b, c :| ComparisonParts(t, i, a, b, c, j);
    ComparisonForced(t, i, a, b, c, j);
    WordRun(t, c);
  }

  /** Where the groups of a chained-comparison match lie: the first
      comparison is `t[..left]`, the connective `t[opStart..opEnd]`, the
      second comparison `t[rightStart..end]`. */
  datatype Chain = Chain(left: nat, opStart: nat, opEnd: nat, rightStart: nat, end: nat)

  /** Length of the connective `or` / `and` at index `e`, or 0. */
  function ConnectiveLength(t: string, e: nat): (n: nat)
    ensures n == 0 || n == 2 || n == 3
    ensures n == 2 ==> OccursAt(t, "or", e)
    ensures n == 3 ==> OccursAt(t, "and", e)
    ensures n == 0 ==> !OccursAt(t, "or", e) && !OccursAt(t, "and", e)
  {
    if OccursAt(t, "or", e) then 2 else if OccursAt(t, "and", e) then 3 else 0
  }

  /** `m` locates a match of `(\w+\s*==\s*\w+)\s+(or|and)\s+(\w+\s*==\s*\w+)`
      at the start of `t`. */
  ghost predicate IsChain(t: string, m: Chain) {
    IsComparison(t, 0, m.left)
    && m.left < m.opStart && SpaceSpan(t, m.left, m.opStart)
    && ((m.opEnd == m.opStart + 2 && OccursAt(t, "or", m.opStart))
        || (m.opEnd == m.opStart + 3 && OccursAt(t, "and", m.opStart)))
    && m.opEnd < m.rightStart && SpaceSpan(t, m.opEnd, m.rightStart)
    && IsComparison(t, m.rightStart, m.end)
  }

  /** The first comparison of a chain is the longest one, and the blanks
      after it are the maximal run. */
  lemma ChainLeftForced(t: string, m: Chain)
    requires IsChain(t, m)
    ensures ComparisonEnd(t, 0) == Some(m.left) && m.opStart == SpaceEnd(t, m.left)
  {
    ComparisonEndComplete(t, 0, m.left);
    WordNotSpace(t[m.left]);
    assert t[m.opStart] == t[m.opStart..m.opEnd][0];
    SpaceEndIs(t, m.left, m.opStart);
  }

  /** The connective of a chain is the one `ConnectiveLength` reads. */
  lemma ChainConnectiveForced(t: string, m: Chain)
    requires IsChain(t, m)
    ensures ConnectiveLength(t, m.opStart) == m.opEnd - m.opStart
  {
    if m.opEnd == m.opStart + 3 {
      assert t[m.opStart + 1] == t[m.opStart..m.opEnd][1] == 'n';
    }
  }

  /** The blanks before the second comparison are the maximal run, and the
      second comparison lies within the longest one. */
  lemma ChainRightForced(t: string, m: Chain)
    requires IsChain(t, m)
    ensures m.opEnd <= |t| && m.rightStart == SpaceEnd(t, m.opEnd)
    ensures ComparisonEnd(t, m.rightStart).Some? && m.end <= ComparisonEnd(t, m.rightStart).value
  {
    var a, b, c :| ComparisonParts(t, m.rightStart, a, b, c, m.end);
    WordNotSpace(t[m.rightStart]);
    SpaceEndIs(t, m.opEnd, m.rightStart);
    ComparisonEndComplete(t, m.rightStart, m.end);
  }

  /** The chained-comparison match at the start of `t`, where `prevWord`
      says whether a word character precedes `t` (the leading `\b`). */
  function ChainMatch(t: string, prevWord: bool): (r: Option<Chain>)
    ensures r.Some? ==> 0 < r.value.left < r.value.opStart < r.value.opEnd
    ensures r.Some? ==> r.value.opEnd < r.value.rightStart < r.value.end <= |t|
  {
    if prevWord then None
    else
      match ComparisonEnd(t, 0)
      case None => None
      case Some(l) =>
        var e := SpaceEnd(t, l);
        var n := ConnectiveLength(t, e);
        if e == l || n == 0 then None
        else
          var g := SpaceEnd(t, e + n);
          if g == e + n then None
          else
            match ComparisonEnd(t, g)
            case None => None
            case Some(h) => Some(Chain(l, e, e + n, g, h))
  }

  /** What `ChainMatch` finds is a match of the whole pattern, after a
      word boundary. */
  lemma ChainMatchSound(t: string, prevWord: bool)
    ensures ChainMatch(t, prevWord).Some? ==> !prevWord && IsChain(t, ChainMatch(t, prevWord).value)
  {
    if !prevWord {
      match ComparisonEnd(t, 0)
      case None =>
      case Some(l) =>
        var e := SpaceEnd(t, l);
        var n := ConnectiveLength(t, e);
        if e != l && n != 0 {
          var g := SpaceEnd(t, e + n);
          if g != e + n {
            match ComparisonEnd(t, g)
            case None =>
            case Some(h) => ChainOf(t, l, e, n, g, h);
          }
        }
    }
  }

  /** The groups `ChainMatch` assembles form a chain match. */
  lemma ChainOf(t: string, l: nat, e: nat, n: nat, g: nat, h: nat)
    requires ComparisonEnd(t, 0) == Some(l)
    requires e == SpaceEnd(t, l) && e != l && n == ConnectiveLength(t, e) && n != 0
    requires e + n <= |t| && g == SpaceEnd(t, e + n) && g != e + n
    requires ComparisonEnd(t, g) == Some(h)
    ensures IsChain(t, Chain(l, e, e + n, g, h))
  {
    var m := Chain(l, e, e + n, g, h);
    SpaceRun(t, l);
    SpaceRun(t, e + n);
    assert SpaceSpan(t, m.left, m.opStart) && SpaceSpan(t, m.opEnd, m.rightStart);
    ComparisonEndSound(t, 0);
    ComparisonEndSound(t, g);
    assert (m.opEnd == m.opStart + 2 && OccursAt(t, "or", m.opStart))
        || (m.opEnd == m.opStart + 3 && OccursAt(t, "and", m.opStart));
  }

  /** Any chain match at the start of `t` has the groups `ChainMatch`
      reports, and its second comparison ends no later: the search misses
      no match, and `None` means there is none. */
  lemma ChainMatchComplete(t: string, prevWord: bool, m: Chain)
    requires !prevWord && IsChain(t, m)
    ensures ChainMatch(t, prevWord).Some?
    ensures var r := ChainMatch(t, prevWord).value;
      m.left == r.left && m.opStart == r.opStart && m.opEnd == r.opEnd
      && m.rightStart == r.rightStart && m.end <= r.end
  {
    ChainLeftForced(t, m);
    ChainConnectiveForced(t, m);
    ChainRightForced(t, m);
    ChainMatchOf(t, m.left, m.opStart, m.opEnd, m.rightStart, ComparisonEnd(t, m.rightStart).value);
  }

  /** `re.sub(r'\b(\w+\s*==\s*\w+)\s+(or|and)\s+(\w+\s*==\s*\w+)',
      r'(\1) \2 (\3)', t)`; `prevWord` says whether the character before `t`
      is a word character. */
  function Parenthesize(t: string, prevWord: bool): string
    decreases |t|
  {
    if |t| == 0 then ""
    else
      match ChainMatch(t, prevWord)
      case Some(m) =>
        "(" + t[..m.left] + ") " + t[m.opStart..m.opEnd] + " (" + t[m.rightStart..m.end] + ")"
        + Parenthesize(t[m.end..], true)
      case None => [t[0]] + Parenthesize(t[1..], IsWordChar(t[0]))
  }

  function FixPrecedence(s: string): string {
    Parenthesize(s, false)
  }

  /** No match can start inside text without `=` that ends in a character
      that is neither a word character nor whitespace, so such text is kept
      as it is and what follows it is rewritten from a word boundary. */
  lemma {:induction false} ParenthesizeAfter(p: string, t: string, prevWord: bool)
    requires |p| > 0 && '=' !in p
    requires !IsWordChar(p[|p| - 1]) && !IsSpace(p[|p| - 1])
    ensures Parenthesize(p + t, prevWord) == p + Parenthesize(t, false)
    decreases |p|
  {
    var s := p + t;
    var last := |p| - 1;
    assert s[last] == p[last];
    WordRun(s, 0);
    var a := WordEnd(s, 0);
    assert a <= last;
    SpaceRun(s, a);
    var b := SpaceEnd(s, a);
    assert b <= last;
    assert s[b] == p[b];
    assert ComparisonEnd(s, 0).None?;
    assert ChainMatch(s, prevWord).None?;
    assert s[1..] == p[1..] + t;
    if |p| == 1 {
      assert s[1..] == t;
    } else {
      ParenthesizeAfter(p[1..], t, IsWordChar(p[0]));
      Associate([p[0]], p[1..], Parenthesize(t, false));
    }
    assert p == [p[0]] + p[1..];
  }

  /** The fourth rewrite of a text after such a prefix is independent of
      the prefix. */
  lemma FixPrecedenceAfter(p: string, t: string)
    requires '=' !in p
    requires |p| > 0 ==> !IsWordChar(p[|p| - 1]) && !IsSpace(p[|p| - 1])
    ensures FixPrecedence(p + t) == p + FixPrecedence(t)
  {
    if |p| > 0 {
      ParenthesizeAfter(p, t, false);
    } else {
      assert p + t == t;
    }
  }

  /** Text without `==` passes the fourth rewrite unchanged. */
  lemma {:induction false} ParenthesizeNoEquality(t: string, prevWord: bool)
    requires !Contains(t, "==")
    ensures Parenthesize(t, prevWord) == t
    decreases |t|
  {
    if |t| > 0 {
      assert ChainMatch(t, prevWord).None? by {
        forall b | 0 <= b ensures !OccursAt(t, "==", b) {
        }
      }
      NotContainsTail(t, "==");
      ParenthesizeNoEquality(t[1..], IsWordChar(t[0]));
      assert t == [t[0]] + t[1..];
    }
  }


  /** The characters of `a == b` written in `t[i..n]`. */
  lemma ComparisonPieces(t: string, i: nat, n: nat, a: string, b: string)
    requires n == i + |a| + 4 + |b| && n <= |t|
    requires t[i..n] == a + " == " + b
    ensures t[i..i + |a|] == a
    ensures t[i + |a|] == ' ' && t[i + |a| + 1] == '=' && t[i + |a| + 2] == '=' && t[i + |a| + 3] == ' '
    ensures t[i + |a| + 4..n] == b
  {
    var m := a + " == " + b;
    SliceOfSlice(t, i, n, 0, |a|);
    assert m[0..|a|] == a;
    SliceOfSlice(t, i, n, |a| + 4, |m|);
    assert m[|a| + 4..|m|] == b;
    assert t[i..n][|a|] == ' ' && t[i..n][|a| + 1] == '=';
    assert t[i..n][|a| + 2] == '=' && t[i..n][|a| + 3] == ' ';
  }

  /** `ComparisonEnd` finds the comparison `a == b` written in `t[i..n]`
      when no word character follows it. */
  lemma ComparisonAt(t: string, i: nat, n: nat, a: string, b: string)
    requires IsWord(a) && IsWord(b)
    requires n == i + |a| + 4 + |b| && n <= |t|
    requires t[i..n] == a + " == " + b
    requires n == |t| || !IsWordChar(t[n])
    ensures ComparisonEnd(t, i) == Some(n)
  {
    ComparisonPieces(t, i, n, a, b);
    var p := i + |a| + 1;
    var q := p + 2;
    var r := q + 1;
    WordRunAt(t, i, a);
    SpaceEndIs(t, i + |a|, p);
    assert OccursAt(t, "==", p);
    assert t[r] == b[0] by {
      assert t[r..n][0] == b[0];
    }
    SpaceEndIs(t, q, r);
    WordRunAt(t, r, b);
    ComparisonEndOf(t, i, i + |a|, p, r, n);
  }

  lemma ComparisonEndOf(t: string, i: nat, a: nat, b: nat, c: nat, d: nat)
    requires i <= |t|
    requires WordEnd(t, i) == a && a != i && SpaceEnd(t, a) == b && OccursAt(t, "==", b)
    requires SpaceEnd(t, b + 2) == c && WordEnd(t, c) == d && d != c
    ensures ComparisonEnd(t, i) == Some(d)
  {
  }

  lemma ChainMatchOf(t: string, l: nat, e: nat, f: nat, g: nat, h: nat)
    requires ComparisonEnd(t, 0) == Some(l)
    requires l <= |t| && SpaceEnd(t, l) == e && e != l
    requires ConnectiveLength(t, e) == f - e && f != e
    requires f <= |t| && SpaceEnd(t, f) == g && g != f
    requires ComparisonEnd(t, g) == Some(h)
    ensures ChainMatch(t, false) == Some(Chain(l, e, f, g, h))
  {
  }

  /** The documented example: `a == b or c == d` becomes
      `(a == b) or (c == d)`, and likewise for `and`. */
  lemma ParenthesizeChain(a: string, b: string, op: string, c: string, d: string)
    requires IsWord(a) && IsWord(b) && IsWord(c) && IsWord(d)
    requires op == "or" || op == "and"
    ensures FixPrecedence(a + " == " + b + " " + op + " " + c + " == " + d)
         == "(" + a + " == " + b + ") " + op + " (" + c + " == " + d + ")"
  {
    var left := a + " == " + b;
    var right := c + " == " + d;
    var t := left + " " + op + " " + right;
    ChainRegroup(a, b, op, c, d);
    var l := |left|;
    var e := l + 1;
    var f := e + |op|;
    var g := f + 1;
    ChainTextSlices(left, op, right, t, l, e, f, g);
    ChainLayout(t, a, b, op, c, d, l, e, f, g);
  }

  lemma ChainRegroup(a: string, b: string, op: string, c: string, d: string)
    ensures (a + " == " + b) + " " + op + " " + (c + " == " + d)
         == a + " == " + b + " " + op + " " + c + " == " + d
    ensures "(" + (a + " == " + b) + ") " + op + " (" + (c + " == " + d) + ")"
         == "(" + a + " == " + b + ") " + op + " (" + c + " == " + d + ")"
  {
  }

  lemma ChainTextSlices(left: string, op: string, right: string, t: string, l: nat, e: nat, f: nat, g: nat)
    requires t == left + " " + op + " " + right
    requires l == |left| && e == l + 1 && f == e + |op| && g == f + 1
    ensures |t| == g + |right|
    ensures t[0..l] == left && t[l] == ' ' && t[e..f] == op && t[f] == ' ' && t[g..|t|] == right
  {
  }

  /** A chain laid out in `t` by its group boundaries is parenthesized. */
  lemma ChainLayout(t: string, a: string, b: string, op: string, c: string, d: string,
                    l: nat, e: nat, f: nat, g: nat)
    requires IsWord(a) && IsWord(b) && IsWord(c) && IsWord(d)
    requires op == "or" || op == "and"
    requires l == |a| + 4 + |b| && e == l + 1 && f == e + |op| && g == f + 1
    requires |t| == g + |c| + 4 + |d|
    requires t[0..l] == a + " == " + b && t[l] == ' '
    requires t[e..f] == op && t[f] == ' '
    requires t[g..|t|] == c + " == " + d
    ensures Parenthesize(t, false) == "(" + t[0..l] + ") " + op + " (" + t[g..|t|] + ")"
  {
    ChainLeft(t, a, b, op, l, e);
    ChainRight(t, c, d, f, g);
    ChainMatchOf(t, l, e, f, g, |t|);
    ParenthesizeStep(t, Chain(l, e, f, g, |t|));
    assert t[|t|..] == "";
  }

  /** The first comparison and the connective of a chain. */
  lemma ChainLeft(t: string, a: string, b: string, op: string, l: nat, e: nat)
    requires IsWord(a) && IsWord(b)
    requires op == "or" || op == "and"
    requires l == |a| + 4 + |b| && e == l + 1 && e + |op| <= |t|
    requires t[0..l] == a + " == " + b
    requires t[l] == ' '
    requires t[e..e + |op|] == op
    ensures ComparisonEnd(t, 0) == Some(l)
    ensures SpaceEnd(t, l) == e
    ensures ConnectiveLength(t, e) == |op|
  {
    ConnectiveAt(t, l, e, op);
    ComparisonAt(t, 0, l, a, b);
  }

  /** The connective `op` at index `e`, after one blank at index `s`. */
  lemma ConnectiveAt(t: string, s: nat, e: nat, op: string)
    requires op == "or" || op == "and"
    requires e == s + 1 && e + |op| <= |t|
    requires t[s] == ' '
    requires t[e..e + |op|] == op
    ensures SpaceEnd(t, s) == e
    ensures ConnectiveLength(t, e) == |op|
  {
    assert t[e] == op[0];
    SpaceEndIs(t, s, e);
    if op == "or" {
      assert OccursAt(t, "or", e);
    } else {
      assert t[e] == 'a';
      assert OccursAt(t, "and", e);
    }
  }

  /** The blank after the connective and the second comparison. */
  lemma ChainRight(t: string, c: string, d: string, f: nat, g: nat)
    requires IsWord(c) && IsWord(d)
    requires g == f + 1 && |t| == g + |c| + 4 + |d|
    requires t[f] == ' '
    requires t[g..|t|] == c + " == " + d
    ensures SpaceEnd(t, f) == g
    ensures ComparisonEnd(t, g) == Some(|t|)
  {
    assert t[g] == t[g..|t|][0] == c[0];
    SpaceEndIs(t, f, g);
    ComparisonAt(t, g, |t|, c, d);
  }

  lemma ParenthesizeStep(t: string, m: Chain)
    requires ChainMatch(t, false) == Some(m)
    ensures Parenthesize(t, false)
         == "(" + t[0..m.left] + ") " + t[m.opStart..m.opEnd] + " (" + t[m.rightStart..m.end] + ")"
            + Parenthesize(t[m.end..], true)
  {
    assert t[..m.left] == t[0..m.left];
  }

  // -------------------------------------------------------------- padding

  const EndLine: string := "\n    end"

  /** The `while end_count < if_count` loop: append `EndLine` and count it. */
  function PadEnds(code: string, endCount: nat, ifCount: nat): (r: string)
    ensures r == code + Repeat(EndLine, if endCount < ifCount then ifCount - endCount else 0)
    decreases ifCount - endCount
  {
    if endCount < ifCount then PadEnds(code + EndLine, endCount + 1, ifCount) else code
  }

  /** The four rewrites, before padding. */
  function Rewrite(code: string): string {
    FixPrecedence(CollapseValues(RemovePackages(StripNumericSuffixes(code))))
  }

  /** The counting, the padding loop and the final `strip`. */
  function PadAndStrip(c: string): (r: string)
    ensures Unpadded(r)
  {
    Strip(PadEnds(c, EndCount(c, false), IfThenCount(c, false)))
  }

  /** `clean_pony_code`. */
  function CleanPonyCode(code: string): (r: string)
    ensures Unpadded(r)
  {
    PadAndStrip(Rewrite(code))
  }

  // ----------------------------------------------- what padding achieves

  lemma {:induction false} IfThenWithoutI(t: string, f: bool)
    requires 'i' !in t
    ensures IfThenCount(t, f) == 0
    decreases |t|
  {
    if |t| > 0 {
      assert t[0] != 'i';
      assert !StartsWith(t, "if");
      assert 'i' !in t[1..];
      IfThenWithoutI(t[1..], IsWordChar(t[0]));
    }
  }

  lemma EndLineEnds()
    ensures EndCount(EndLine, false) == 1
  {
    var lead := "\n    ";
    assert lead == ['\n', ' ', ' ', ' ', ' '];
    assert AllSpace(lead);
    assert EndLine == lead + "end";
    CountsAfterSpace(lead, "end");
    assert EndCount("end", false) == 1 + EndCount("", true);
  }

  lemma EndLineIfs()
    ensures IfThenCount(EndLine, false) == 0
  {
    assert EndLine == ['\n', ' ', ' ', ' ', ' ', 'e', 'n', 'd'];
    IfThenWithoutI(EndLine, false);
  }

  /** Repeating a line that opens with a newline, holds one `end` and no
      `if ... then`, adds one `end` per copy and nothing else. */
  lemma {:induction false} RepeatLineCounts(e: string, k: nat)
    requires |e| > 0 && e[0] == '\n'
    requires EndCount(e, false) == 1 && IfThenCount(e, false) == 0
    ensures Quiet(Repeat(e, k))
    ensures EndCount(Repeat(e, k), false) == k
    ensures IfThenCount(Repeat(e, k), false) == 0
  {
    if k > 0 {
      RepeatLineCounts(e, k - 1);
      var rest := Repeat(e, k - 1);
      assert Repeat(e, k) == e + rest;
      assert (e + rest)[0] == '\n';
      if |rest| > 0 {
        assert rest[0] == '\n' || AllSpace(rest);
        assert !IsWordChar(rest[0]);
      }
      EndCountAppend(e, rest, false);
      IfThenCountAppend(e, rest, false);
    }
  }

  /** Appending `k` copies of such a line and stripping the result. */
  lemma PaddedCounts(c: string, e: string, k: nat)
    requires |e| > 0 && e[0] == '\n'
    requires EndCount(e, false) == 1 && IfThenCount(e, false) == 0
    ensures EndCount(Strip(c + Repeat(e, k)), false) == EndCount(c, false) + k
    ensures IfThenCount(Strip(c + Repeat(e, k)), false) == IfThenCount(c, false)
  {
    var rest := Repeat(e, k);
    RepeatLineCounts(e, k);
    CountsOfQuietAppend(c, rest);
    CountsOfStrip(c + rest);
  }

  /** How many `end` lines the padding loop appends to `c`. */
  function MissingEnds(c: string): nat {
    var ifs := IfThenCount(c, false);
    var ends := EndCount(c, false);
    if ends < ifs then ifs - ends else 0
  }

  /** The padding step adds exactly the missing `end` lines before trimming. */
  lemma PadAndStripPads(c: string)
    ensures PadAndStrip(c) == Strip(c + Repeat(EndLine, MissingEnds(c)))
  {
  }

  /** Padding and trimming keep the `if ... then` matches. */
  lemma PadAndStripKeepsIfs(c: string)
    ensures IfThenCount(PadAndStrip(c), false) == IfThenCount(c, false)
  {
    PadAndStripPads(c);
    EndLineEnds();
    EndLineIfs();
    assert EndLine[0] == '\n';
    PaddedCounts(c, EndLine, MissingEnds(c));
  }

  /** Padding and trimming add exactly the missing `end` words: the padding
      loop's goal, stated of its output rather than of its counter. */
  lemma PadAndStripAddsEnds(c: string)
    ensures EndCount(PadAndStrip(c), false) == EndCount(c, false) + MissingEnds(c)
  {
    PadAndStripPads(c);
    EndLineEnds();
    EndLineIfs();
    assert EndLine[0] == '\n';
    PaddedCounts(c, EndLine, MissingEnds(c));
  }

  /** `clean_pony_code` keeps the `if ... then` matches of the rewritten
      input and leaves at least as many `end` words. */
  lemma CleanPonyCodeBalances(code: string)
    ensures IfThenCount(CleanPonyCode(code), false) == IfThenCount(Rewrite(code), false)
    ensures EndCount(CleanPonyCode(code), false)
         == EndCount(Rewrite(code), false) + MissingEnds(Rewrite(code))
    ensures EndCount(CleanPonyCode(code), false) >= IfThenCount(CleanPonyCode(code), false)
  {
    PadAndStripKeepsIfs(Rewrite(code));
    PadAndStripAddsEnds(Rewrite(code));
  }

  // ------------------------------------------ running the repairer twice

  /** Text without `[` passes the third rewrite unchanged. */
  lemma {:induction false} CollapseValuesNoBracket(t: string)
    requires '[' !in t
    ensures CollapseValues(t) == t
    decreases |t|
  {
    if |t| > 0 {
      assert ValuesMatch(t).None?;
      assert '[' !in t[1..];
      CollapseValuesNoBracket(t[1..]);
      assert t == [t[0]] + t[1..];
    }
  }

  predicate DigitFree(t: string) {
    forall k :: 0 <= k < |t| ==> !IsDigit(t[k])
  }

  lemma ValuesCallChars()
    ensures DigitFree(ValuesCall)
    ensures '[' !in ValuesCall && '\n' !in ValuesCall && '=' !in ValuesCall && 'i' !in ValuesCall
    ensures ValuesCall[|ValuesCall| - 1] == ')'
  {
    assert ValuesCall == ['.', 'v', 'a', 'l', 'u', 'e', 's', '(', ')'];
  }

  /** `[1]` followed by digit-free text holds no `U` suffix for the first
      rewrite to remove. */
  lemma BracketedOneKept(r: string)
    requires DigitFree(r)
    ensures StripNumericSuffixes("[1]" + r) == "[1]" + r
  {
    var s := "[1]" + r;
    forall m | 0 < m < |s|
      ensures !SuffixAt(s, m)
    {
      if m >= 4 {
        assert s[m - 1] == r[m - 4];
      }
    }
    StripNumericSuffixesNoSuffix(s);
  }

  /** Text that opens with `[` and has no newline keeps every line. */
  lemma OneLineKept(s: string)
    requires |s| > 0 && s[0] == '[' && '\n' !in s
    ensures RemovePackages(s) == s
  {
    if |PackageKeyword| <= |s| {
      assert s[..|PackageKeyword|][0] == s[0];
    }
    RemovePackagesNoLine(s);
  }

  /** `[1].values()` followed by `r`: each of the first two rewrites keeps
      the text. */
  lemma FirstPassesKeepBracketedOne(r: string)
    requires DigitFree(r) && '\n' !in r
    ensures RemovePackages(StripNumericSuffixes("[1]" + ValuesCall + r)) == "[1]" + ValuesCall + r
  {
    ValuesCallChars();
    var v := ValuesCall + r;
    assert DigitFree(v) by {
      forall k | 0 <= k < |v|
        ensures !IsDigit(v[k])
      {
        if k < |ValuesCall| {
          assert v[k] == ValuesCall[k];
        } else {
          assert v[k] == r[k - |ValuesCall|];
        }
      }
    }
    var u := "[1]" + v;
    assert u == "[1]" + ValuesCall + r;
    BracketedOneKept(v);
    assert '\n' !in u;
    OneLineKept(u);
  }

  /** When the first two rewrites keep `u` and the last has no `==` to
      act on, the rewrites amount to the third one alone. */
  lemma RewriteIsCollapse(u: string)
    requires RemovePackages(StripNumericSuffixes(u)) == u
    requires '=' !in CollapseValues(u)
    ensures Rewrite(u) == CollapseValues(u)
  {
    var c := CollapseValues(u);
    MissingCharNotContained(c, "==", '=');
    ParenthesizeNoEquality(c, false);
  }

  /** Rewriting `[1].values()` followed by `r` drops one `.values()` and
      nothing else. */
  lemma RewriteBracketedOne(r: string)
    requires DigitFree(r) && '[' !in r && '\n' !in r && '=' !in r
    ensures Rewrite("[1]" + ValuesCall + r) == "[1]" + r
  {
    var u := "[1]" + ValuesCall + r;
    FirstPassesKeepBracketedOne(r);
    assert "[" + "1" + "]" == "[1]";
    CollapseValuesLiteral("1", r);
    CollapseValuesNoBracket(r);
    assert CollapseValues(u) == "[1]" + r;
    assert '=' !in "[1]" + r;
    RewriteIsCollapse(u);
  }

  /** Text without `i` whose ends are not blank comes out of the repairer
      as it went into the padding step. */
  lemma CleanAfterPlainRewrite(code: string, c: string)
    requires Rewrite(code) == c
    requires 'i' !in c && Unpadded(c)
    ensures CleanPonyCode(code) == c
  {
    IfThenWithoutI(c, false);
    var padded := PadEnds(c, EndCount(c, false), 0);
    assert Repeat(EndLine, 0) == [];
    assert padded == c;
    assert CleanPonyCode(code) == Strip(padded);
    StripOfUnpadded(c);
  }

  lemma CleanBracketedOne(r: string)
    requires DigitFree(r) && '[' !in r && '\n' !in r && '=' !in r && 'i' !in r
    requires |r| == 0 || r[|r| - 1] == ')'
    ensures CleanPonyCode("[1]" + ValuesCall + r) == "[1]" + r
  {
    RewriteBracketedOne(r);
    var c := "[1]" + r;
    assert 'i' !in c;
    assert c[0] == '[';
    assert c[|c| - 1] == ']' || c[|c| - 1] == ')';
    CleanAfterPlainRewrite("[1]" + ValuesCall + r, c);
  }

  /** The repairer is not idempotent: a doubled `.values()` on an array
      literal loses one call per application. */
  lemma CleanPonyCodeNotIdempotent()
    ensures CleanPonyCode("[1]" + ValuesCall + ValuesCall) == "[1]" + ValuesCall
    ensures CleanPonyCode("[1]" + ValuesCall) == "[1]"
    ensures CleanPonyCode(CleanPonyCode("[1]" + ValuesCall + ValuesCall))
         != CleanPonyCode("[1]" + ValuesCall + ValuesCall)
  {
    ValuesCallChars();
    CleanBracketedOne(ValuesCall);
    CleanBracketedOne("");
    assert "[1]" + ValuesCall + "" == "[1]" + ValuesCall;
    assert "[1]" + "" == "[1]";
    assert |"[1]" + ValuesCall| != |"[1]"|;
  }
}
