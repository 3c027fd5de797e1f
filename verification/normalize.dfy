/** The structural normalisation `PonyCompiler.compile_code` applies to a
    program before writing it out: every program handed to the compiler
    must define `actor Main`. */
module Normalize {
  import opened Wrappers
  import opened Text

  const MainMarker: string := "actor Main"
  const CreateMarker: string := "new create(env: Env) =>"
  const FunPrefix: string := "fun "

  /** The program put in front of code that has no `actor Main`. */
  const WrapperHead: string :=
    MainMarker + "\n  " + CreateMarker + "\n    env.out.print(\"Compilation test\")\n\n"

  /** The lines inserted for a moved function: each indented, then a blank. */
  function MovedLines(fun: seq<string>): seq<string> {
    PrefixAll("  ", fun) + [""]
  }

  /** The line loop: copy `lines`, and after the first one mentioning the
      constructor insert `block`. */
  function Splice(lines: seq<string>, block: seq<string>): (r: seq<string>)
    decreases |lines|
  {
    if |lines| == 0 then []
    else if Contains(lines[0], CreateMarker) then [lines[0]] + block + lines[1..]
    else [lines[0]] + Splice(lines[1..], block)
  }

  /** The body of the actor once the function `fun` has been moved into
      it, after the first line of `rest` that mentions the constructor. */
  function MoveFun(fun: string, rest: string): string {
    Join(Splice(Split(rest, '\n'), MovedLines(Split(fun, '\n'))), '\n')
  }

  /** The normalised program. */
  function Normalize(code: string): (r: string)
  {
    match IndexOf(code, MainMarker)
    case None => WrapperHead + code + "\n"
    case Some(i) => Rejoin(Strip(code[..i]), code[i + |MainMarker|..])
  }

  /** The program rebuilt around `actor Main` from the stripped text before
      it and the text after it. */
  function Rejoin(before: string, rest: string): string {
    if |before| == 0 then MainMarker + rest
    else if StartsWith(before, FunPrefix) then MainMarker + "\n" + MoveFun(before, rest)
    else before + "\n\n" + MainMarker + rest
  }

  // ------------------------------------------------ where the split falls

  lemma MarkerChars()
    ensures MainMarker == ['a', 'c', 't', 'o', 'r', ' ', 'M', 'a', 'i', 'n']
  {
  }

  /** `actor Main` cannot overlap a later copy of itself: an occurrence that
      starts inside `p` and reaches the copy right after it would need a
      border the marker does not have. */
  lemma NoOccurrenceAcross(p: string, rest: string, j: nat)
    requires j < |p| < j + |MainMarker|
    ensures !OccursAt(p + MainMarker + rest, MainMarker, j)
  {
    MarkerChars();
    var t := p + MainMarker + rest;
    var k := |p| - j;
    if j + |MainMarker| <= |t| {
      assert t[|p|] == 'a' && t[|p| + 1] == 'c';
      assert t[j..j + |MainMarker|][k] == t[|p|];
      if k != 7 {
        assert MainMarker[k] != 'a';
      } else {
        assert t[j..j + |MainMarker|][8] == t[|p| + 1];
        assert MainMarker[8] != 'c';
      }
    }
  }

  /** Python's `split("actor Main", 1)` on `p + "actor Main" + rest` splits
      right after `p` when `p` does not mention the marker. */
  lemma MarkerFirstAt(p: string, rest: string)
    requires !Contains(p, MainMarker)
    ensures IndexOf(p + MainMarker + rest, MainMarker) == Some(|p|)
  {
    var t := p + MainMarker + rest;
    assert t[|p|..|p| + |MainMarker|] == MainMarker;
    assert OccursAt(t, MainMarker, |p|);
    forall j | 0 <= j < |p|
      ensures !OccursAt(t, MainMarker, j)
    {
      if j + |MainMarker| <= |p| {
        assert t[j..j + |MainMarker|] == p[j..j + |MainMarker|];
        assert !OccursAt(p, MainMarker, j);
      } else {
        NoOccurrenceAcross(p, rest, j);
      }
    }
  }

  lemma PiecesAfterMarker(p: string, rest: string)
    ensures var t := p + MainMarker + rest;
      t[..|p|] == p && t[|p| + |MainMarker|..] == rest
  {
  }

  // ------------------------------------------------------ the four cases

  /** Code without `actor Main` is wrapped, unchanged, in a fixed program. */
  lemma NormalizeWraps(code: string)
    requires !Contains(code, MainMarker)
    ensures Normalize(code) == WrapperHead + code + "\n"
    ensures StartsWith(Normalize(code), MainMarker)
  {
    assert (WrapperHead + code + "\n")[..|MainMarker|] == MainMarker;
  }

  /** Only blank text before `actor Main`: the blank text is dropped. */
  lemma NormalizeBlankPrefix(p: string, rest: string)
    requires !Contains(p, MainMarker) && Strip(p) == ""
    ensures Normalize(p + MainMarker + rest) == MainMarker + rest
  {
    MarkerFirstAt(p, rest);
    PiecesAfterMarker(p, rest);
  }

  /** Type definitions before `actor Main` stay in front of it, trimmed and
      followed by a blank line. */
  lemma NormalizeTypePrefix(p: string, rest: string)
    requires !Contains(p, MainMarker) && Strip(p) != "" && !StartsWith(Strip(p), FunPrefix)
    ensures Normalize(p + MainMarker + rest) == Strip(p) + "\n\n" + MainMarker + rest
  {
    MarkerFirstAt(p, rest);
    PiecesAfterMarker(p, rest);
  }

  /** A free function before `actor Main` moves into the actor: its lines,
      indented, follow the first line of the rest that mentions the
      constructor. */
  lemma NormalizeFunPrefix(p: string, rest: string)
    requires !Contains(p, MainMarker) && StartsWith(Strip(p), FunPrefix)
    ensures Normalize(p + MainMarker + rest)
         == MainMarker + "\n" + Join(Splice(Split(rest, '\n'), MovedLines(Split(Strip(p), '\n'))), '\n')
  {
    MarkerFirstAt(p, rest);
    PiecesAfterMarker(p, rest);
  }

  // ------------------------------------------------ moving a function in

  /** Without a constructor line the function is lost and the lines are kept. */
  lemma {:induction false} SpliceWithoutCreate(lines: seq<string>, block: seq<string>)
    requires forall i :: 0 <= i < |lines| ==> !Contains(lines[i], CreateMarker)
    ensures Splice(lines, block) == lines
    decreases |lines|
  {
    if |lines| > 0 {
      SpliceWithoutCreate(lines[1..], block);
      assert lines == [lines[0]] + lines[1..];
    }
  }

  /** With the first constructor line at `i`, the function goes in once,
      right after it, and every original line keeps its order. */
  lemma {:induction false} SpliceAt(lines: seq<string>, block: seq<string>, i: nat)
    requires i < |lines| && Contains(lines[i], CreateMarker)
    requires forall j :: 0 <= j < i ==> !Contains(lines[j], CreateMarker)
    ensures Splice(lines, block) == lines[..i + 1] + block + lines[i + 1..]
    decreases i
  {
    if i == 0 {
      assert lines[..1] == [lines[0]];
    } else {
      var tail := lines[1..];
      SpliceAt(tail, block, i - 1);
      assert tail[..i] == lines[1..i + 1];
      assert tail[i..] == lines[i + 1..];
      assert lines[..i + 1] == [lines[0]] + lines[1..i + 1];
    }
  }

  /** The fun-prefix case when the rest has no constructor line: the result
      is `actor Main`, a newline and the rest, and the function is gone. */
  lemma NormalizeDropsFun(p: string, rest: string)
    requires !Contains(p, MainMarker) && StartsWith(Strip(p), FunPrefix)
    requires !Contains(rest, CreateMarker)
    ensures Normalize(p + MainMarker + rest) == MainMarker + "\n" + rest
  {
    NormalizeFunPrefix(p, rest);
    var lines := Split(rest, '\n');
    forall i | 0 <= i < |lines|
      ensures !Contains(lines[i], CreateMarker)
    {
      SplitPieceMissing(rest, '\n', i, CreateMarker);
    }
    SpliceWithoutCreate(lines, MovedLines(Split(Strip(p), '\n')));
    JoinSplit(rest, '\n');
  }

  /** The fun-prefix case when line `i` of the rest is the first to mention
      the constructor: the function's lines, moved (indented by two spaces,
      then a blank line), follow that line, and no original line is lost. */
  lemma NormalizeMovesFun(p: string, rest: string, lines: seq<string>, i: nat)
    requires !Contains(p, MainMarker) && StartsWith(Strip(p), FunPrefix)
    requires lines == Split(rest, '\n')
    requires i < |lines| && Contains(lines[i], CreateMarker)
    requires forall j :: 0 <= j < i ==> !Contains(lines[j], CreateMarker)
    ensures Normalize(p + MainMarker + rest)
         == MainMarker + "\n" + Join(lines[..i + 1] + MovedLines(Split(Strip(p), '\n')) + lines[i + 1..], '\n')
  {
    var block := MovedLines(Split(Strip(p), '\n'));
    NormalizeFunPrefix(p, rest);
    SpliceAt(lines, block, i);
  }

  // ---------------------------------------------------------- the promise

  /** Whatever the input, the normalised program defines `actor Main`. */
  lemma NormalizeHasMain(code: string)
    ensures Contains(Normalize(code), MainMarker)
  {
    var x, y := AroundMarker(code);
    OccursInConcat(x, MainMarker, y);
  }

  /** The normalised text is some text, then `actor Main`, then more text. */
  lemma AroundMarker(code: string) returns (x: string, y: string)
    ensures Normalize(code) == x + MainMarker + y
  {
    if !Contains(code, MainMarker) {
      NormalizeWraps(code);
      x, y := "", Normalize(code)[|MainMarker|..];
      StartsSplit(Normalize(code), MainMarker);
    } else {
      x, y := AroundFoundMarker(code);
    }
  }

  lemma AroundFoundMarker(code: string) returns (x: string, y: string)
    requires Contains(code, MainMarker)
    ensures Normalize(code) == x + MainMarker + y
  {
    var i := IndexOf(code, MainMarker).value;
    x, y := AroundRejoin(Strip(code[..i]), code[i + |MainMarker|..]);
  }

  lemma AroundRejoin(before: string, rest: string) returns (x: string, y: string)
    ensures Rejoin(before, rest) == x + MainMarker + y
  {
    if |before| == 0 {
      x, y := "", rest;
      Associate(x, MainMarker, y);
    } else if StartsWith(before, FunPrefix) {
      var moved := MoveFun(before, rest);
      x, y := "", "\n" + moved;
      Associate(MainMarker, "\n", moved);
      Associate(x, MainMarker, y);
    } else {
      x, y := before + "\n\n", rest;
    }
  }
}
