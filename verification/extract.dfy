/** The response extractor `extract_code_from_response`: a first-match-wins
    cascade that pulls one Pony snippet out of a free-form model response.

    1. the body of the last ```` ```pony ```` block;
    2. else the last untagged block mentioning a Pony keyword, else the last
       untagged block;
    3. else the lines from the first code-looking line on, skipping
       explanatory lines;
    4. else the whole response.

    Every result is stripped. The two fenced searches are Python's
    `re.findall(open + "(.*?)\n```", response, re.DOTALL)`: leftmost,
    non-overlapping, each body ending at the first closing fence after it. */
module Extract {
  import opened Wrappers
  import opened Text

  const PonyFence: string := "```pony\n"
  const PlainFence: string := "```\n"
  const CloseFence: string := "\n```"

  /** Words whose presence marks an untagged block as Pony code. */
  const BlockKeywords: seq<string> := ["actor", "class", "primitive", "fun", "be"]

  /** Words whose presence starts the line capture. */
  const CodeLineKeywords: seq<string> := ["actor", "class", "primitive", "fun"]

  /** Lower-case markers of explanatory prose lines. */
  const ExplanationMarkers: seq<string> := ["here", "example", "explanation", "###", "how to"]

  predicate IsOpenFence(f: string) {
    f == PonyFence || f == PlainFence
  }

  /** Python's `any(w in s for w in words)`. */
  predicate HasAny(s: string, words: seq<string>) {
    exists w | w in words :: Contains(s, w)
  }

  // ------------------------------------------------------------ fenced blocks

  /** Where the lazy `(.*?)` stops: the first closing fence at or after `from`. */
  function FirstClose(s: string, from: nat): (r: Option<nat>)
    requires from <= |s|
    ensures r.Some? ==> from <= r.value && OccursAt(s, CloseFence, r.value)
    ensures r.Some? ==> forall j :: from <= j < r.value ==> !OccursAt(s, CloseFence, j)
    ensures r.None? ==> forall j :: from <= j ==> !OccursAt(s, CloseFence, j)
    decreases |s| - from
  {
    if OccursAt(s, CloseFence, from) then Some(from)
    else if from + |CloseFence| > |s| then None
    else FirstClose(s, from + 1)
  }

  lemma NoCloseBefore(s: string, from: nat, j: nat)
    requires from <= j <= |s|
    requires forall m :: from <= m < j ==> !OccursAt(s, CloseFence, m)
    ensures !Contains(s[from..j], CloseFence)
  {
    var b := s[from..j];
    forall k | 0 <= k <= |b| - |CloseFence|
      ensures !OccursAt(b, CloseFence, k)
    {
      SliceOfSlice(s, from, j, k, k + |CloseFence|);
      assert !OccursAt(s, CloseFence, from + k);
    }
  }

  /** The bodies `re.findall` returns for the fence `open`, in order; none of
      them holds a closing fence. */
  function Blocks(s: string, open: string): (r: seq<string>)
    ensures forall i :: 0 <= i < |r| ==> !Contains(r[i], CloseFence)
    decreases |s|
  {
    if |s| == 0 then []
    else if StartsWith(s, open) then
      match FirstClose(s, |open|)
      case Some(j) =>
        NoCloseBefore(s, |open|, j);
        [s[|open|..j]] + Blocks(s[j + |CloseFence|..], open)
      case None => Blocks(s[1..], open)
    else Blocks(s[1..], open)
  }

  /** A response laid out as prose, fenced body, prose, ..., prose. */
  function Compose(open: string, prose: seq<string>, bodies: seq<string>): string
    requires |prose| == |bodies| + 1
    decreases |bodies|
  {
    if |bodies| == 0 then prose[0]
    else prose[0] + (open + bodies[0] + CloseFence + Compose(open, prose[1..], bodies[1..]))
  }

  lemma FenceShapes()
    ensures PonyFence[|PonyFence| - 1] == '\n' && '\n' !in PonyFence[..|PonyFence| - 1]
    ensures PlainFence[|PlainFence| - 1] == '\n' && '\n' !in PlainFence[..|PlainFence| - 1]
    ensures CloseFence[0] == '\n' && '\n' !in CloseFence[1..]
  {
    assert PonyFence[..|PonyFence| - 1] == "```pony";
    assert PlainFence[..|PlainFence| - 1] == "```";
    assert CloseFence[1..] == "```";
  }

  /** Prose free of the opening fence cannot start a match, not even one that
      runs into the fence that follows it. */
  lemma ProseDoesNotOpen(p: string, t: string, open: string)
    requires IsOpenFence(open) && StartsWith(t, open)
    requires |p| > 0 && !Contains(p, open)
    ensures !StartsWith(p + t, open)
  {
    FenceShapes();
    var s := p + t;
    if |p| >= |open| {
      assert !OccursAt(p, open, 0);
      assert s[..|open|] == p[..|open|];
    } else {
      var m := |open| - 1;
      assert s[m] == t[m - |p|];
      assert t[m - |p|] == open[m - |p|];
      assert open[m - |p|] == open[..|open| - 1][m - |p|];
      assert s[..|open|][m] != open[m];
    }
  }

  lemma {:induction false} SkipProse(p: string, t: string, open: string)
    requires IsOpenFence(open) && StartsWith(t, open)
    requires !Contains(p, open)
    ensures Blocks(p + t, open) == Blocks(t, open)
    decreases |p|
  {
    if |p| > 0 {
      ProseDoesNotOpen(p, t, open);
      var p' := p[1..];
      assert (p + t)[1..] == p' + t;
      NotContainsTail(p, open);
      SkipProse(p', t, open);
    } else {
      assert p + t == t;
    }
  }

  lemma {:induction false} NoFenceNoBlocks(p: string, open: string)
    requires |open| > 0 && !Contains(p, open)
    ensures Blocks(p, open) == []
    decreases |p|
  {
    if |p| > 0 {
      if |open| <= |p| {
        assert !OccursAt(p, open, 0);
        assert p[0..|open|] == p[..|open|];
      }
      NotContainsTail(p, open);
      NoFenceNoBlocks(p[1..], open);
    }
  }

  /** Without a closing fence no block is complete, so nothing matches. */
  lemma {:induction false} NoCloseNoBlocks(p: string, open: string)
    requires !Contains(p, CloseFence)
    ensures Blocks(p, open) == []
    decreases |p|
  {
    if |p| > 0 {
      if StartsWith(p, open) {
        match FirstClose(p, |open|)
        case Some(j) =>
          assert false;
        case None =>
      }
      NotContainsTail(p, CloseFence);
      NoCloseNoBlocks(p[1..], open);
    }
  }

  /** After a fence and a body free of closing fences, the first closing
      fence is the one that follows the body. */
  lemma FirstCloseAfterBody(open: string, b: string, rest: string)
    requires IsOpenFence(open) && !Contains(b, CloseFence)
    ensures FirstClose(open + b + CloseFence + rest, |open|) == Some(|open| + |b|)
  {
    FenceShapes();
    var s := open + b + CloseFence + rest;
    var j := |open| + |b|;
    assert s[j..j + |CloseFence|] == CloseFence;
    forall m | |open| <= m < j
      ensures !OccursAt(s, CloseFence, m)
    {
      if m + |CloseFence| <= j {
        assert s[m..m + |CloseFence|] == b[m - |open|..m - |open| + |CloseFence|];
        assert !OccursAt(b, CloseFence, m - |open|);
      } else {
        var d := j - m;
        assert s[m..m + |CloseFence|][d] == s[j] == '\n';
        assert CloseFence[d] == CloseFence[1..][d - 1];
      }
    }
    assert OccursAt(s, CloseFence, j);
  }

  /** A fence, a body free of closing fences and a closing fence give exactly
      that body, and the search resumes after the closing fence. */
  lemma MatchAtFence(open: string, b: string, rest: string)
    requires IsOpenFence(open) && !Contains(b, CloseFence)
    ensures Blocks(open + b + CloseFence + rest, open) == [b] + Blocks(rest, open)
  {
    var s := open + b + CloseFence + rest;
    var j := |open| + |b|;
    FirstCloseAfterBody(open, b, rest);
    assert s[..|open|] == open;
    assert s[|open|..j] == b;
    assert s[j + |CloseFence|..] == rest;
  }

  /** Round trip: the fenced search recovers exactly the bodies a response was
      composed from, provided no prose segment before a block holds an
      opening fence, the trailing prose holds no complete block (an unclosed
      fence there is ignored) and no body holds a closing fence. */
  lemma {:induction false} BlocksOfCompose(open: string, prose: seq<string>, bodies: seq<string>)
    requires IsOpenFence(open)
    requires |prose| == |bodies| + 1
    requires forall i :: 0 <= i < |bodies| ==> !Contains(prose[i], open)
    requires Blocks(prose[|bodies|], open) == []
    requires forall i :: 0 <= i < |bodies| ==> !Contains(bodies[i], CloseFence)
    ensures Blocks(Compose(open, prose, bodies), open) == bodies
    decreases |bodies|
  {
    if |bodies| > 0 {
      var rest := Compose(open, prose[1..], bodies[1..]);
      var t := open + bodies[0] + CloseFence + rest;
      assert t[..|open|] == open;
      SkipProse(prose[0], t, open);
      MatchAtFence(open, bodies[0], rest);
      BlocksOfCompose(open, prose[1..], bodies[1..]);
      assert bodies == [bodies[0]] + bodies[1..];
    }
  }

  // ---------------------------------------------------------- untagged blocks

  /** `for match in reversed(matches)`: the last block mentioning a keyword. */
  function LastKeywordBlock(blocks: seq<string>): (r: Option<nat>)
    ensures r.Some? ==> r.value < |blocks| && HasAny(blocks[r.value], BlockKeywords)
    ensures r.Some? ==> forall j :: r.value < j < |blocks| ==> !HasAny(blocks[j], BlockKeywords)
    ensures r.None? ==> forall j :: 0 <= j < |blocks| ==> !HasAny(blocks[j], BlockKeywords)
    decreases |blocks|
  {
    if |blocks| == 0 then None
    else if HasAny(blocks[|blocks| - 1], BlockKeywords) then Some(|blocks| - 1)
    else LastKeywordBlock(blocks[..|blocks| - 1])
  }

  // ------------------------------------------------------------- line capture

  predicate IsExplanation(line: string) {
    HasAny(Lower(line), ExplanationMarkers)
  }

  predicate IsCodeLine(line: string) {
    HasAny(line, CodeLineKeywords)
  }

  /** The capture loop: explanatory lines are skipped before anything else;
      capture starts at the first code-looking line and then keeps every
      non-explanatory line. */
  function Capture(lines: seq<string>, started: bool): seq<string>
    decreases |lines|
  {
    if |lines| == 0 then []
    else if IsExplanation(lines[0]) then Capture(lines[1..], started)
    else
      var started' := started || IsCodeLine(lines[0]);
      (if started' then [lines[0]] else []) + Capture(lines[1..], started')
  }

  /** The lines that are not explanatory, in order. */
  function Unexplained(lines: seq<string>): (r: seq<string>)
    ensures forall i :: 0 <= i < |r| ==> r[i] in lines && !IsExplanation(r[i])
    decreases |lines|
  {
    if |lines| == 0 then []
    else (if IsExplanation(lines[0]) then [] else [lines[0]]) + Unexplained(lines[1..])
  }

  /** The first line that is code-looking and not explanatory. */
  function FirstCodeLine(lines: seq<string>): (r: Option<nat>)
    ensures r.Some? ==> r.value < |lines| && IsCodeLine(lines[r.value]) && !IsExplanation(lines[r.value])
    ensures r.Some? ==> forall j :: 0 <= j < r.value ==> !IsCodeLine(lines[j]) || IsExplanation(lines[j])
    ensures r.None? ==> forall j :: 0 <= j < |lines| ==> !IsCodeLine(lines[j]) || IsExplanation(lines[j])
    decreases |lines|
  {
    if |lines| == 0 then None
    else if IsCodeLine(lines[0]) && !IsExplanation(lines[0]) then Some(0)
    else match FirstCodeLine(lines[1..])
      case Some(k) => Some(k + 1)
      case None => None
  }

  /** The capture loop keeps exactly the non-explanatory lines from the first
      code-looking one on, and nothing when there is none. */
  lemma {:induction false} CaptureIsUnexplainedTail(lines: seq<string>)
    ensures Capture(lines, true) == Unexplained(lines)
    ensures Capture(lines, false) ==
      match FirstCodeLine(lines)
      case None => []
      case Some(k) => Unexplained(lines[k..])
    decreases |lines|
  {
    if |lines| > 0 {
      CaptureIsUnexplainedTail(lines[1..]);
      if !IsExplanation(lines[0]) && IsCodeLine(lines[0]) {
        assert lines[0..] == lines;
      } else {
        match FirstCodeLine(lines[1..])
        case None =>
        case Some(k) =>
          assert lines[k + 1..] == lines[1..][k..];
      }
    }
  }

  // ------------------------------------------------------------------ cascade

  /** `extract_code_from_response`; whatever it returns is stripped. */
  function ExtractCode(response: string): (code: string)
    ensures Unpadded(code)
  {
    var tagged := Blocks(response, PonyFence);
    if |tagged| > 0 then Strip(tagged[|tagged| - 1])
    else
      var plain := Blocks(response, PlainFence);
      if |plain| > 0 then
        match LastKeywordBlock(plain)
        case Some(k) => Strip(plain[k])
        case None => Strip(plain[|plain| - 1])
      else
        var captured := Capture(Split(response, '\n'), false);
        if |captured| > 0 then Strip(Join(captured, '\n')) else Strip(response)
  }

  /** With at least one well-formed ```` ```pony ```` block, the result is the
      last block's body, stripped, whatever the other blocks and prose say. */
  lemma ExtractLastTaggedBlock(prose: seq<string>, bodies: seq<string>)
    requires |bodies| > 0 && |prose| == |bodies| + 1
    requires forall i :: 0 <= i < |bodies| ==> !Contains(prose[i], PonyFence)
    requires Blocks(prose[|bodies|], PonyFence) == []
    requires forall i :: 0 <= i < |bodies| ==> !Contains(bodies[i], CloseFence)
    ensures ExtractCode(Compose(PonyFence, prose, bodies)) == Strip(bodies[|bodies| - 1])
  {
    BlocksOfCompose(PonyFence, prose, bodies);
  }

  /** The prose after the block: it opens a fence that is never closed. */
  const UnclosedTail: string := "\nsee " + PonyFence + "B"

  /** A response with one tagged block and then an unclosed tagged fence. */
  const UnclosedResponse: string := PonyFence + "A" + CloseFence + "\nsee " + PonyFence + "B"

  lemma UnclosedTailNoBlocks()
    ensures Blocks(UnclosedTail, PonyFence) == []
  {
    var tail := UnclosedTail;
    assert !Contains(tail, CloseFence) by {
      forall i | 0 <= i <= |tail| - |CloseFence|
        ensures !OccursAt(tail, CloseFence, i)
      {
        assert tail[i..i + |CloseFence|][0] == tail[i];
        assert tail[i..i + |CloseFence|][1] == tail[i + 1];
      }
    }
    NoCloseNoBlocks(tail, PonyFence);
  }

  lemma ComposeUnclosed()
    ensures Compose(PonyFence, ["", UnclosedTail], ["A"]) == UnclosedResponse
  {
    var tail := UnclosedTail;
    var prose: seq<string> := ["", tail];
    assert prose[1..] == [tail];
    assert Compose(PonyFence, [tail], []) == tail;
    assert Compose(PonyFence, prose, ["A"]) == "" + (PonyFence + "A" + CloseFence + tail);
    var s := PonyFence + "A" + CloseFence;
    assert "" + (s + tail) == s + tail;
    Associate(s, "\nsee " + PonyFence, "B");
    Associate(s, "\nsee ", PonyFence);
  }

  /** An unclosed ```` ```pony ```` fence after the last block is ignored:
      the earlier block still decides the result. */
  lemma UnclosedTrailingFence()
    ensures ExtractCode(UnclosedResponse) == "A"
  {
    assert ExtractCode(UnclosedResponse) == Strip("A") by {
      UnclosedTailNoBlocks();
      ComposeUnclosed();
      assert !Contains("", PonyFence);
      assert !Contains("A", CloseFence);
      ExtractLastTaggedBlock(["", UnclosedTail], ["A"]);
    }
    assert Strip("A") == "A" by {
      assert !IsSpace('A');
      StripOfUnpadded("A");
    }
  }

  /** Without a tagged block, the result is the last untagged block that
      mentions a Pony keyword, or the last untagged block if none does. */
  lemma ExtractFromUntagged(response: string)
    requires Blocks(response, PonyFence) == []
    requires |Blocks(response, PlainFence)| > 0
    ensures var plain := Blocks(response, PlainFence);
      var code := ExtractCode(response);
      (exists k :: 0 <= k < |plain| && code == Strip(plain[k]) && HasAny(plain[k], BlockKeywords)
         && forall j :: k < j < |plain| ==> !HasAny(plain[j], BlockKeywords))
      || ((forall j :: 0 <= j < |plain| ==> !HasAny(plain[j], BlockKeywords))
         && code == Strip(plain[|plain| - 1]))
  {
    var plain := Blocks(response, PlainFence);
    match LastKeywordBlock(plain)
    case Some(k) =>
      assert ExtractCode(response) == Strip(plain[k]);
    case None =>
  }

  /** Without fenced blocks, the result is the captured lines joined and
      stripped, or the whole response stripped when nothing was captured. */
  lemma ExtractByLines(response: string)
    requires Blocks(response, PonyFence) == [] && Blocks(response, PlainFence) == []
    ensures var lines := Split(response, '\n');
      match FirstCodeLine(lines)
      case None => ExtractCode(response) == Strip(response)
      case Some(k) =>
        var kept := Unexplained(lines[k..]);
        ExtractCode(response) == Strip(if |kept| > 0 then Join(kept, '\n') else response)
  {
    CaptureIsUnexplainedTail(Split(response, '\n'));
  }

  /** No fences and no code keyword anywhere: the whole response, stripped. */
  lemma ExtractPlainProse(response: string)
    requires Blocks(response, PonyFence) == [] && Blocks(response, PlainFence) == []
    requires forall w :: w in CodeLineKeywords ==> !Contains(response, w)
    ensures ExtractCode(response) == Strip(response)
  {
    var lines := Split(response, '\n');
    forall j | 0 <= j < |lines|
      ensures !IsCodeLine(lines[j])
    {
      forall w | w in CodeLineKeywords
        ensures !Contains(lines[j], w)
      {
        SplitPieceMissing(response, '\n', j, w);
      }
    }
    CaptureIsUnexplainedTail(lines);
  }
}
