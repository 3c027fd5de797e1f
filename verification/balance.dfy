/** The two counts `clean_pony_code` compares before padding: matches of
    `\bif\b.*\bthen\b` and of `\bend\b`, each as Python's `re.findall`
    counts them, and how the counts behave when text is joined or trimmed. */
module Balance {
  import opened Wrappers
  import opened Text

  /** `\bw\b` at the start of `t`, for a keyword `w` made of word
      characters; `prevWord` says whether the character before `t` is a
      word character. */
  predicate KeywordHere(t: string, w: string, prevWord: bool) {
    !prevWord && StartsWith(t, w) && (|t| == |w| || !IsWordChar(t[|w|]))
  }

  /** Offset just past the last `\bthen\b` on the first line of `t`. */
  function LastThen(t: string, prevWord: bool): (r: Option<nat>)
    ensures r.Some? ==> 4 <= r.value <= |t|
    decreases |t|
  {
    if |t| == 0 || t[0] == '\n' then None
    else
      match LastThen(t[1..], IsWordChar(t[0]))
      case Some(k) => Some(k + 1)
      case None => if KeywordHere(t, "then", prevWord) then Some(4) else None
  }

  /** `len(re.findall(r'\bif\b.*\bthen\b', t))`: `.` stops at a newline and
      is greedy, so a match runs from an `if` to the last `then` of its
      line. */
  function IfThenCount(t: string, prevWord: bool): nat
    decreases |t|
  {
    if |t| == 0 then 0
    else if KeywordHere(t, "if", prevWord) && LastThen(t[2..], true).Some? then
      1 + IfThenCount(t[2 + LastThen(t[2..], true).value..], true)
    else
      IfThenCount(t[1..], IsWordChar(t[0]))
  }

  /** `len(re.findall(r'\bend\b', t))`. */
  function EndCount(t: string, prevWord: bool): nat
    decreases |t|
  {
    if |t| == 0 then 0
    else if KeywordHere(t, "end", prevWord) then 1 + EndCount(t[3..], true)
    else EndCount(t[1..], IsWordChar(t[0]))
  }

  // ------------------------------------------------ reference for `end`

  /** Whether the character before index `p` of `s` is a word character. */
  predicate WordBefore(s: string, p: nat)
    requires p <= |s|
  {
    p > 0 && IsWordChar(s[p - 1])
  }

  /** The whole word `w` stands at index `p` of `s`. */
  predicate WholeWordAt(s: string, w: string, p: nat)
    requires p <= |s|
  {
    OccursAt(s, w, p) && !WordBefore(s, p) && (p + |w| == |s| || !IsWordChar(s[p + |w|]))
  }

  /** The number of indexes at or after `i` where `end` stands as a word. */
  function EndsFrom(s: string, i: nat): nat
    requires i <= |s|
    decreases |s| - i
  {
    if i == |s| then 0 else (if WholeWordAt(s, "end", i) then 1 else 0) + EndsFrom(s, i + 1)
  }

  lemma KeywordHereAt(s: string, w: string, i: nat)
    requires i <= |s|
    ensures KeywordHere(s[i..], w, WordBefore(s, i)) <==> WholeWordAt(s, w, i)
  {
    if |w| <= |s| - i {
      assert s[i..][..|w|] == s[i..i + |w|];
      if i + |w| < |s| {
        assert s[i..][|w|] == s[i + |w|];
      }
    }
  }

  lemma EndStepMatch(s: string, i: nat)
    requires i <= |s| && WholeWordAt(s, "end", i)
    requires EndCount(s[i + 3..], WordBefore(s, i + 3)) == EndsFrom(s, i + 3)
    ensures EndCount(s[i..], WordBefore(s, i)) == EndsFrom(s, i)
  {
    KeywordHereAt(s, "end", i);
    assert s[i..i + 3] == "end";
    assert s[i + 1] == 'n' && s[i + 2] == 'd';
    assert !OccursAt(s, "end", i + 1) by {
      if i + 4 <= |s| {
        assert s[i + 1..i + 4][0] == s[i + 1];
      }
    }
    assert !OccursAt(s, "end", i + 2) by {
      if i + 5 <= |s| {
        assert s[i + 2..i + 5][0] == s[i + 2];
      }
    }
    assert WordBefore(s, i + 3);
    assert EndsFrom(s, i + 2) == EndsFrom(s, i + 3);
    assert EndsFrom(s, i + 1) == EndsFrom(s, i + 2);
    assert EndsFrom(s, i) == 1 + EndsFrom(s, i + 1);
    assert s[i..][3..] == s[i + 3..];
  }

  lemma EndStepSkip(s: string, i: nat)
    requires i < |s| && !WholeWordAt(s, "end", i)
    requires EndCount(s[i + 1..], WordBefore(s, i + 1)) == EndsFrom(s, i + 1)
    ensures EndCount(s[i..], WordBefore(s, i)) == EndsFrom(s, i)
  {
    KeywordHereAt(s, "end", i);
    assert s[i..][1..] == s[i + 1..];
  }

  lemma {:induction false} EndScanFrom(s: string, i: nat)
    requires i <= |s|
    ensures EndCount(s[i..], WordBefore(s, i)) == EndsFrom(s, i)
    decreases |s| - i
  {
    if i < |s| {
      if WholeWordAt(s, "end", i) {
        EndScanFrom(s, i + 3);
        EndStepMatch(s, i);
      } else {
        EndScanFrom(s, i + 1);
        EndStepSkip(s, i);
      }
    }
  }

  /** The scan counts exactly the indexes where `end` stands as a whole word. */
  lemma EndCountIsWholeWords(s: string)
    ensures EndCount(s, false) == EndsFrom(s, 0)
  {
    EndScanFrom(s, 0);
    assert s[0..] == s;
  }

  // ---------------------------------------------------- joining and trimming

  /** Text that cannot continue a match running off the end of what precedes
      it: empty, a newline first, or only whitespace. */
  predicate Quiet(u: string) {
    |u| == 0 || u[0] == '\n' || AllSpace(u)
  }

  lemma QuietStart(u: string)
    requires Quiet(u) && |u| > 0
    ensures IsSpace(u[0]) && !IsWordChar(u[0])
  {
  }

  /** Keyword tests see the same thing with or without a non-word tail. */
  lemma KeywordHereAppend(t: string, u: string, w: string, f: bool)
    requires IsWord(w)
    requires |u| == 0 || !IsWordChar(u[0])
    requires |t| > 0
    ensures KeywordHere(t + u, w, f) <==> KeywordHere(t, w, f)
  {
    if |w| <= |t| {
      assert (t + u)[..|w|] == t[..|w|];
      if |w| < |t| {
        assert (t + u)[|w|] == t[|w|];
      } else if |u| > 0 {
        assert (t + u)[|w|] == u[0];
      }
    } else if |w| <= |t| + |u| {
      assert (t + u)[..|w|][|t|] == u[0];
      assert IsWordChar(w[|t|]);
    }
  }

  lemma KeywordHereNonWord(u: string, w: string, f: bool, g: bool)
    requires |w| > 0 && IsWordChar(w[0])
    requires |u| > 0 && !IsWordChar(u[0])
    ensures !KeywordHere(u, w, f) && !KeywordHere(u, w, g)
  {
    if |w| <= |u| {
      assert u[..|w|][0] == u[0];
    }
  }

  lemma {:induction false} EndCountAppend(t: string, u: string, f: bool)
    requires |u| == 0 || !IsWordChar(u[0])
    ensures EndCount(t + u, f) == EndCount(t, f) + EndCount(u, false)
    decreases |t|
  {
    if |t| == 0 {
      assert t + u == u;
      if |u| > 0 {
        KeywordHereNonWord(u, "end", f, false);
      }
    } else {
      assert IsWord("end");
      KeywordHereAppend(t, u, "end", f);
      if KeywordHere(t, "end", f) {
        assert (t + u)[3..] == t[3..] + u;
        EndCountAppend(t[3..], u, true);
      } else {
        assert (t + u)[1..] == t[1..] + u;
        assert (t + u)[0] == t[0];
        EndCountAppend(t[1..], u, IsWordChar(t[0]));
      }
    }
  }

  lemma {:induction false} LastThenQuiet(u: string, f: bool)
    requires Quiet(u)
    ensures LastThen(u, f).None?
    decreases |u|
  {
    if |u| > 0 && u[0] != '\n' {
      assert AllSpace(u[1..]);
      LastThenQuiet(u[1..], false);
      KeywordHereNonWord(u, "then", f, f);
    }
  }

  lemma {:induction false} LastThenAppend(t: string, u: string, f: bool)
    requires Quiet(u)
    ensures LastThen(t + u, f) == LastThen(t, f)
    decreases |t|
  {
    if |t| == 0 {
      assert t + u == u;
      LastThenQuiet(u, f);
    } else {
      assert (t + u)[0] == t[0];
      if t[0] != '\n' {
        if |u| > 0 {
          QuietStart(u);
        }
        assert (t + u)[1..] == t[1..] + u;
        LastThenAppend(t[1..], u, IsWordChar(t[0]));
        assert IsWord("then");
        KeywordHereAppend(t, u, "then", f);
      }
    }
  }

  /** One step of the `if ... then` scan is unaffected by a quiet tail. */
  lemma IfThenStepAppend(t: string, u: string, f: bool)
    requires Quiet(u) && |t| > 0
    ensures KeywordHere(t + u, "if", f) == KeywordHere(t, "if", f)
    ensures KeywordHere(t, "if", f) ==> LastThen((t + u)[2..], true) == LastThen(t[2..], true)
  {
    if |u| > 0 {
      QuietStart(u);
    }
    assert IsWord("if");
    KeywordHereAppend(t, u, "if", f);
    if KeywordHere(t, "if", f) {
      assert (t + u)[2..] == t[2..] + u;
      LastThenAppend(t[2..], u, true);
    }
  }

  lemma IfThenEmptyAppend(u: string, f: bool)
    requires Quiet(u)
    ensures IfThenCount(u, f) == IfThenCount(u, false)
  {
    if |u| > 0 {
      QuietStart(u);
      KeywordHereNonWord(u, "if", f, false);
    }
  }

  lemma {:induction false} IfThenCountAppend(t: string, u: string, f: bool)
    requires Quiet(u)
    ensures IfThenCount(t + u, f) == IfThenCount(t, f) + IfThenCount(u, false)
    decreases |t|
  {
    if |t| == 0 {
      assert t + u == u;
      IfThenEmptyAppend(u, f);
    } else {
      IfThenStepAppend(t, u, f);
      if KeywordHere(t, "if", f) && LastThen(t[2..], true).Some? {
        var v := 2 + LastThen(t[2..], true).value;
        assert (t + u)[v..] == t[v..] + u;
        IfThenCountAppend(t[v..], u, true);
      } else {
        assert (t + u)[1..] == t[1..] + u;
        assert (t + u)[0] == t[0];
        IfThenCountAppend(t[1..], u, IsWordChar(t[0]));
      }
    }
  }

  lemma {:induction false} CountsAfterSpace(w: string, t: string)
    requires AllSpace(w)
    ensures EndCount(w + t, false) == EndCount(t, false)
    ensures IfThenCount(w + t, false) == IfThenCount(t, false)
    decreases |w|
  {
    if |w| == 0 {
      assert w + t == t;
    } else {
      KeywordHereNonWord(w + t, "end", false, false);
      KeywordHereNonWord(w + t, "if", false, false);
      assert (w + t)[1..] == w[1..] + t;
      assert AllSpace(w[1..]);
      CountsAfterSpace(w[1..], t);
    }
  }

  lemma {:induction false} CountsOfSpace(u: string, f: bool)
    requires AllSpace(u)
    ensures EndCount(u, f) == 0 && IfThenCount(u, f) == 0
    decreases |u|
  {
    if |u| > 0 {
      KeywordHereNonWord(u, "end", f, f);
      KeywordHereNonWord(u, "if", f, f);
      assert AllSpace(u[1..]);
      CountsOfSpace(u[1..], false);
    }
  }

  /** A quiet tail adds its own counts to both. */
  lemma CountsOfQuietAppend(t: string, u: string)
    requires Quiet(u)
    ensures EndCount(t + u, false) == EndCount(t, false) + EndCount(u, false)
    ensures IfThenCount(t + u, false) == IfThenCount(t, false) + IfThenCount(u, false)
  {
    if |u| > 0 {
      QuietStart(u);
    }
    EndCountAppend(t, u, false);
    IfThenCountAppend(t, u, false);
  }

  /** `strip` changes neither count. */
  lemma CountsOfStrip(s: string)
    ensures EndCount(Strip(s), false) == EndCount(s, false)
    ensures IfThenCount(Strip(s), false) == IfThenCount(s, false)
  {
    var lead, trail := StripParts(s);
    Associate(lead, Strip(s), trail);
    CountsOfPadded(lead, Strip(s), trail);
  }

  /** Whitespace on either side of `core` changes neither count. */
  lemma CountsOfPadded(lead: string, core: string, trail: string)
    requires AllSpace(lead) && AllSpace(trail)
    ensures EndCount(lead + (core + trail), false) == EndCount(core, false)
    ensures IfThenCount(lead + (core + trail), false) == IfThenCount(core, false)
  {
    CountsAfterSpace(lead, core + trail);
    CountsOfSpace(trail, false);
    EndCountAppend(core, trail, false);
    IfThenCountAppend(core, trail, false);
  }
}
