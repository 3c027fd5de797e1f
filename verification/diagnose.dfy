/** The two diagnostic helpers of `evaluation/utils.py`: `extract_error_type`,
    which files a compiler message under a category, and
    `validate_pony_syntax_basic`, the cheap check that runs without the
    compiler. Both search with regular expressions; each pattern is spelled
    out here as the condition under which Python's `re.search` finds a
    match. */
module Diagnose {
  import opened Wrappers
  import opened Text
  import Normalize

  // ------------------------------------------------------ extract_error_type

  /** The categories `extract_error_type` can return. */
  datatype ErrorType = Unknown | Syntax | TypeMismatch | Capability | Reference | Assignment | Other

  /** The string the Python function returns for each category. */
  function Label(e: ErrorType): string {
    match e
    case Unknown => "unknown"
    case Syntax => "syntax"
    case TypeMismatch => "type"
    case Capability => "capability"
    case Reference => "reference"
    case Assignment => "assignment"
    case Other => "other"
  }

  /** The pattern dictionary's keys in insertion order, the order in which
      the loop tries them. */
  const Ordered: seq<ErrorType> := [Syntax, TypeMismatch, Capability, Reference, Assignment]

  /** `expected.*got` matches with `expected` at `i` and `got` at `j`: the
      `.` in between crosses no newline. */
  predicate ExpectedGotAt(s: string, i: int, j: int) {
    OccursAt(s, "expected", i) && i + 8 <= j && OccursAt(s, "got", j) && '\n' !in s[i + 8..j]
  }

  /** `re.search(r'expected.*got', s)` succeeds. */
  predicate ExpectedGot(s: string) {
    exists i, j | 0 <= i <= j <= |s| :: ExpectedGotAt(s, i, j)
  }

  /** A `got` at `j` or later, before the next newline. */
  function GotFrom(s: string, j: nat): bool
    requires j <= |s|
    decreases |s| - j
  {
    if j + 3 > |s| then false
    else if OccursAt(s, "got", j) then true
    else if s[j] == '\n' then false
    else GotFrom(s, j + 1)
  }

  /** The left-to-right search for `expected.*got` from position `i`. */
  function ExpectedFrom(s: string, i: nat): bool
    requires i <= |s|
    decreases |s| - i
  {
    if i + 8 > |s| then false
    else (OccursAt(s, "expected", i) && GotFrom(s, i + 8)) || ExpectedFrom(s, i + 1)
  }

  /** Whether the pattern of category `e` is found in the lowered message. */
  predicate Matches(e: ErrorType, s: string) {
    match e
    case Syntax => Contains(s, "syntax error") || Contains(s, "unexpected token")
    case TypeMismatch => Contains(s, "type mismatch") || ExpectedFrom(s, 0)
    case Capability => Contains(s, "capability") || Contains(s, "sendable") || Contains(s, "recover")
    case Reference => Contains(s, "can't find") || Contains(s, "undefined") || Contains(s, "not found")
    case Assignment => Contains(s, "can't assign") || Contains(s, "immutable")
    case _ => false
  }

  /** The first category of `cs` whose pattern matches `s`. */
  function FirstMatch(cs: seq<ErrorType>, s: string): (r: Option<ErrorType>)
    ensures r.None? <==> forall k :: 0 <= k < |cs| ==> !Matches(cs[k], s)
    ensures r.Some? ==> exists k :: 0 <= k < |cs| && cs[k] == r.value && Matches(cs[k], s)
                                     && forall j :: 0 <= j < k ==> !Matches(cs[j], s)
  {
    if |cs| == 0 then None
    else if Matches(cs[0], s) then Some(cs[0])
    else
      var r := FirstMatch(cs[1..], s);
      assert forall k :: 1 <= k < |cs| ==> cs[k] == cs[1..][k - 1];
      r
  }

  /** `extract_error_type`: an empty message is `unknown`; otherwise the
      first category in dictionary order whose pattern occurs in the
      lowered message, and `other` when none does. */
  function ExtractErrorType(msg: string): (r: ErrorType)
    ensures r == Unknown <==> |msg| == 0
    ensures |msg| > 0 ==> (r == Other <==> forall k :: 0 <= k < |Ordered| ==> !Matches(Ordered[k], Lower(msg)))
    ensures r != Unknown && r != Other ==>
              exists k :: 0 <= k < |Ordered| && Ordered[k] == r && Matches(r, Lower(msg))
                          && forall j :: 0 <= j < k ==> !Matches(Ordered[j], Lower(msg))
  {
    if |msg| == 0 then Unknown
    else
      match FirstMatch(Ordered, Lower(msg))
      case None => Other
      case Some(e) => e
  }

  // ------------------------------------------ the `expected.*got` search

  /** `GotFrom` finds exactly the `got`s reachable without a newline. */
  lemma {:induction false} GotFromIff(s: string, j: nat)
    requires j <= |s|
    ensures GotFrom(s, j) <==> exists g | j <= g <= |s| :: OccursAt(s, "got", g) && '\n' !in s[j..g]
    decreases |s| - j
  {
    if j + 3 > |s| {
      forall g | j <= g <= |s|
        ensures !OccursAt(s, "got", g)
      {
      }
    } else if OccursAt(s, "got", j) {
      assert s[j..j] == [];
    } else if s[j] == '\n' {
      forall g | j <= g <= |s| && OccursAt(s, "got", g)
        ensures '\n' in s[j..g]
      {
        assert g != j;
        assert s[j..g][0] == '\n';
      }
    } else {
      GotFromIff(s, j + 1);
      forall g | j + 1 <= g <= |s|
        ensures '\n' !in s[j..g] <==> '\n' !in s[j + 1..g]
      {
        assert s[j..g] == [s[j]] + s[j + 1..g];
      }
    }
  }

  /** `ExpectedFrom` finds exactly the matches that start at `i` or later. */
  lemma {:induction false} ExpectedFromIff(s: string, i: nat)
    requires i <= |s|
    ensures ExpectedFrom(s, i) <==> exists e, g | i <= e <= g <= |s| :: ExpectedGotAt(s, e, g)
    decreases |s| - i
  {
    if i + 8 > |s| {
      forall e, g | i <= e <= g <= |s|
        ensures !ExpectedGotAt(s, e, g)
      {
      }
    } else {
      ExpectedFromIff(s, i + 1);
      GotFromIff(s, i + 8);
      if ExpectedFrom(s, i) && !ExpectedFrom(s, i + 1) {
        var g :| i + 8 <= g <= |s| && OccursAt(s, "got", g) && '\n' !in s[i + 8..g];
        assert ExpectedGotAt(s, i, g);
      }
      if !ExpectedFrom(s, i) {
        forall e, g | i <= e <= g <= |s|
          ensures !ExpectedGotAt(s, e, g)
        {
        }
      }
    }
  }

  /** The scan is the regex search. */
  lemma ExpectedScanIsSearch(s: string)
    ensures ExpectedFrom(s, 0) <==> ExpectedGot(s)
  {
    ExpectedFromIff(s, 0);
  }

  /** A message that mentions a syntax error is filed as one, whatever else
      it mentions. */
  lemma SyntaxComesFirst(msg: string)
    requires Contains(Lower(msg), "syntax error") || Contains(Lower(msg), "unexpected token")
    ensures ExtractErrorType(msg) == Syntax
  {
    assert Ordered[0] == Syntax;
  }

  // ---------------------------------------------- validate_pony_syntax_basic

  /** The first check that fails. */
  datatype SyntaxProblem = NoActor | NoConstructor | UnbalancedBraces

  /** The message the Python function returns with `False`. */
  function Message(p: SyntaxProblem): string {
    match p
    case NoActor => "No actor definition found"
    case NoConstructor => "No constructor found"
    case UnbalancedBraces => "Unbalanced braces"
  }

  /** `actor\s+\w+` matches at `i`: after `actor`, a run of whitespace and
      then a word character. */
  predicate ActorAt(s: string, i: int) {
    OccursAt(s, "actor", i)
    && var e := SpaceEnd(s, i + 5);
       i + 5 < e < |s| && IsWordChar(s[e])
  }

  predicate HasActor(s: string) {
    exists i | 0 <= i < |s| :: ActorAt(s, i)
  }

  /** `new\s+create\(.*?\)\s*=>` matches at `i` with its `)` at `j`: the
      argument list crosses no newline, the whitespace before `=>` may. */
  predicate ConstructorAt(s: string, i: int, j: int) {
    OccursAt(s, "new", i)
    && var c := SpaceEnd(s, i + 3);
       c > i + 3 && OccursAt(s, "create(", c) && c + 7 <= j < |s| && s[j] == ')'
       && '\n' !in s[c + 7..j] && OccursAt(s, "=>", SpaceEnd(s, j + 1))
  }

  predicate HasConstructor(s: string) {
    exists i, j | 0 <= i <= j < |s| :: ConstructorAt(s, i, j)
  }

  /** `code.count(ch)`. */
  function CountChar(code: string, ch: char): nat {
    multiset(code)[ch]
  }

  /** `validate_pony_syntax_basic`: the checks run in order and the first
      failure is reported; `(True, None)` when all pass. */
  function ValidateSyntaxBasic(code: string): (r: (bool, Option<SyntaxProblem>))
    ensures r.0 <==> r.1.None?
    ensures r.0 <==> HasActor(code) && HasConstructor(code) && CountChar(code, '{') == CountChar(code, '}')
    ensures r.1 == Some(NoActor) <==> !HasActor(code)
    ensures r.1 == Some(NoConstructor) <==> HasActor(code) && !HasConstructor(code)
  {
    if !HasActor(code) then (false, Some(NoActor))
    else if !HasConstructor(code) then (false, Some(NoConstructor))
    else if CountChar(code, '{') != CountChar(code, '}') then (false, Some(UnbalancedBraces))
    else (true, None)
  }

  // ---------------------------------------- checks on normalised programs

  /** `actor Main` is an actor definition. */
  lemma MainIsActor(s: string, i: int)
    requires OccursAt(s, Normalize.MainMarker, i)
    ensures ActorAt(s, i)
  {
    Normalize.MarkerChars();
    var w := s[i..i + 10];
    assert w[..5] == "actor" && s[i..i + 5] == w[..5];
    assert s[i + 5] == w[5] && s[i + 6] == w[6];
    assert IsSpace(s[i + 5]) && !IsSpace(s[i + 6]);
    assert SpaceEnd(s, i + 6) == i + 6;
  }

  lemma CreateMarkerParts()
    ensures Normalize.CreateMarker == "new" + " " + "create(" + "env: Env" + ")" + " " + "=>"
  {
  }

  /** An occurrence of `p + q` is an occurrence of `p` followed by one of `q`. */
  lemma OccursSplit(s: string, p: string, q: string, i: int)
    requires OccursAt(s, p + q, i)
    ensures OccursAt(s, p, i) && OccursAt(s, q, i + |p|)
  {
    assert s[i..i + |p|] == (p + q)[..|p|];
    assert s[i + |p|..i + |p| + |q|] == (p + q)[|p|..];
  }

  /** The constructor line the normaliser looks for passes the check. */
  lemma CreateIsConstructor(s: string, i: int)
    requires OccursAt(s, Normalize.CreateMarker, i)
    ensures ConstructorAt(s, i, i + 19)
  {
    CreateMarkerParts();
    OccursSplit(s, "new" + " " + "create(" + "env: Env" + ")" + " ", "=>", i);
    OccursSplit(s, "new" + " " + "create(" + "env: Env" + ")", " ", i);
    OccursSplit(s, "new" + " " + "create(" + "env: Env", ")", i);
    OccursSplit(s, "new" + " " + "create(", "env: Env", i);
    OccursSplit(s, "new" + " ", "create(", i);
    OccursSplit(s, "new", " ", i);
    assert s[i + 3] == ' ' && s[i + 4] == 'c';
    assert SpaceEnd(s, i + 4) == i + 4;
    assert s[i + 19] == ')' && s[i + 20] == ' ' && s[i + 21] == '=';
    assert SpaceEnd(s, i + 21) == i + 21;
    assert '\n' !in "env: Env";
  }

  /** A normalised program never lacks an actor. */
  lemma NormalizedHasActor(code: string)
    ensures ValidateSyntaxBasic(Normalize.Normalize(code)).1 != Some(NoActor)
  {
    var out := Normalize.Normalize(code);
    Normalize.NormalizeHasMain(code);
    var i :| 0 <= i <= |out| - |Normalize.MainMarker| && OccursAt(out, Normalize.MainMarker, i);
    MainIsActor(out, i);
  }

  /** A character missing from both ends is counted in the middle only. */
  lemma CountInMiddle(a: string, b: string, c: string, ch: char)
    requires ch !in a && ch !in c
    ensures CountChar(a + b + c, ch) == CountChar(b, ch)
  {
    assert multiset(a + b + c) == multiset(a) + multiset(b) + multiset(c);
  }

  predicate Braceless(t: string) {
    '{' !in t && '}' !in t
  }

  lemma BracelessConcat(a: string, b: string)
    requires Braceless(a) && Braceless(b)
    ensures Braceless(a + b)
  {
  }

  lemma PrintPieces()
    ensures Braceless("\n    env.") && Braceless("out.print") && Braceless("(\"Compil")
    ensures Braceless("ation tes") && Braceless("t\")\n\n")
  {
  }

  lemma PrintJoined()
    ensures "\n    env." + "out.print" + "(\"Compil" + "ation tes" + "t\")\n\n"
            == "\n    env.out.print(\"Compilation test\")\n\n"
  {
  }

  /** The line the wrapper prints with has no braces. */
  lemma PrintBraceless()
    ensures Braceless("\n    env.out.print(\"Compilation test\")\n\n")
  {
    var p1, p2, p3, p4, p5 := "\n    env.", "out.print", "(\"Compil", "ation tes", "t\")\n\n";
    PrintPieces();
    PrintJoined();
    BracelessConcat(p1, p2);
    BracelessConcat(p1 + p2, p3);
    BracelessConcat(p1 + p2 + p3, p4);
    BracelessConcat(p1 + p2 + p3 + p4, p5);
  }

  lemma MarkersBraceless()
    ensures Braceless(Normalize.MainMarker) && Braceless("\n  ") && Braceless(Normalize.CreateMarker)
  {
    Normalize.MarkerChars();
    CreateMarkerParts();
  }

  lemma HeadHasNoBraces()
    ensures Braceless(Normalize.WrapperHead)
  {
    var m, c := Normalize.MainMarker, Normalize.CreateMarker;
    var tail := "\n    env.out.print(\"Compilation test\")\n\n";
    PrintBraceless();
    MarkersBraceless();
    BracelessConcat(m, "\n  ");
    BracelessConcat(m + "\n  ", c);
    BracelessConcat(m + "\n  " + c, tail);
  }

  /** Code without `actor Main` is wrapped in a program with an actor and a
      constructor and no braces of its own, so the check on the result
      comes down to the code's braces. */
  lemma ValidateWrapped(code: string)
    requires !Contains(code, Normalize.MainMarker)
    ensures ValidateSyntaxBasic(Normalize.Normalize(code))
            == if CountChar(code, '{') == CountChar(code, '}') then (true, None)
               else (false, Some(UnbalancedBraces))
  {
    var head := Normalize.WrapperHead;
    var out := head + code + "\n";
    Normalize.NormalizeWraps(code);
    assert out[..|head|] == head;
    WrapperParts(out);
    HeadHasNoBraces();
    WrappedChecks(head, code, out);
  }

  /** Text around the code that has no braces leaves the brace check to the
      code. */
  lemma WrappedChecks(head: string, code: string, out: string)
    requires out == head + code + "\n" && Braceless(head)
    requires HasActor(out) && HasConstructor(out)
    ensures ValidateSyntaxBasic(out)
            == if CountChar(code, '{') == CountChar(code, '}') then (true, None)
               else (false, Some(UnbalancedBraces))
  {
    CountInMiddle(head, code, "\n", '{');
    CountInMiddle(head, code, "\n", '}');
    BracesDecide(out);
  }

  /** Once the actor and the constructor are found only the braces matter. */
  lemma BracesDecide(out: string)
    requires HasActor(out) && HasConstructor(out)
    ensures ValidateSyntaxBasic(out)
            == if CountChar(out, '{') == CountChar(out, '}') then (true, None)
               else (false, Some(UnbalancedBraces))
  {
  }

  /** Where the wrapper's actor and constructor sit. */
  lemma WrapperParts(out: string)
    requires |out| >= |Normalize.WrapperHead| && out[..|Normalize.WrapperHead|] == Normalize.WrapperHead
    ensures HasActor(out) && HasConstructor(out)
  {
    var head := Normalize.WrapperHead;
    var main := Normalize.MainMarker;
    var create := Normalize.CreateMarker;
    assert head[..|main|] == main;
    assert head[13..13 + |create|] == create;
    assert out[..|main|] == main;
    assert OccursAt(out, main, 0);
    MainIsActor(out, 0);
    assert out[13..13 + |create|] == create;
    CreateIsConstructor(out, 13);
  }
}
