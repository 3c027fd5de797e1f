/** The helpers of `evaluation/utils.py` that compute on strings and lists. */
module Utils {
  import opened Wrappers
  import opened Text
  import opened Tasks

  /** The exceptions the helpers below can raise. */
  datatype Raised =
    | ZeroStep        // ValueError from `range` with a step of zero
    | InvalidLiteral  // ValueError from `int` on a string that is not a number
    | IndexOutOfRange // IndexError from indexing past the end of a list

  // ------------------------------------------------------ sanitize_filename

  /** The characters `[<>:"/\\|?*]` replaces. */
  const InvalidChars: set<char> := {'<', '>', ':', '"', '/', '\\', '|', '?', '*'}

  const MaxNameLength: nat := 100

  function SafeChar(c: char): (d: char)
    ensures d !in InvalidChars
    ensures c !in InvalidChars ==> d == c
  {
    if c in InvalidChars then '_' else c
  }

  function ReplaceInvalid(s: string): (r: string)
    ensures |r| == |s|
    ensures forall i :: 0 <= i < |s| ==> r[i] == SafeChar(s[i])
  {
    if |s| == 0 then "" else [SafeChar(s[0])] + ReplaceInvalid(s[1..])
  }

  /** `sanitize_filename`: each invalid character becomes `_` in place, and
      the result is cut to its first 100 characters. */
  function SanitizeFilename(name: string): (r: string)
    ensures |r| == if |name| < MaxNameLength then |name| else MaxNameLength
    ensures forall i :: 0 <= i < |r| ==> r[i] !in InvalidChars
    ensures forall i :: 0 <= i < |r| ==> r[i] == (if name[i] in InvalidChars then '_' else name[i])
  {
    var s := ReplaceInvalid(name);
    if |s| <= MaxNameLength then s else s[..MaxNameLength]
  }

  /** Sanitising a sanitised name changes nothing. */
  lemma SanitizeIdempotent(name: string)
    ensures SanitizeFilename(SanitizeFilename(name)) == SanitizeFilename(name)
  {
    var once := SanitizeFilename(name);
    var twice := SanitizeFilename(once);
    assert |twice| == |once|;
    forall i | 0 <= i < |once|
      ensures twice[i] == once[i]
    {
      assert once[i] !in InvalidChars;
    }
  }

  // -------------------------------------------------- batch_process_results

  /** The batches laid end to end. */
  function Flatten<T>(xss: seq<seq<T>>): seq<T> {
    if |xss| == 0 then [] else xss[0] + Flatten(xss[1..])
  }

  /** `[xs[i:i + size] for i in range(0, len(xs), size)]` for a positive size. */
  function Chunks<T>(xs: seq<T>, size: nat): (r: seq<seq<T>>)
    requires size > 0
    ensures forall i :: 0 <= i < |r| ==> 0 < |r[i]| <= size
    ensures forall i :: 0 <= i < |r| - 1 ==> |r[i]| == size
    ensures |xs| == 0 <==> |r| == 0
    decreases |xs|
  {
    if |xs| == 0 then []
    else if |xs| <= size then [xs]
    else [xs[..size]] + Chunks(xs[size..], size)
  }

  /** The batches give back the input, in order. */
  lemma {:induction false} FlattenChunks<T>(xs: seq<T>, size: nat)
    requires size > 0
    ensures Flatten(Chunks(xs, size)) == xs
    decreases |xs|
  {
    if |xs| > size {
      FlattenChunks(xs[size..], size);
      var r := Chunks(xs, size);
      assert r[1..] == Chunks(xs[size..], size);
      assert xs == xs[..size] + xs[size..];
    } else if |xs| > 0 {
      assert Chunks(xs, size)[1..] == [];
      assert xs + [] == xs;
    }
  }

  /** There are `ceil(len(xs) / size)` batches: the smallest count whose
      capacity holds the input. */
  lemma {:induction false} ChunkCount<T>(xs: seq<T>, size: nat)
    requires size > 0
    ensures var n := |Chunks(xs, size)|;
      (n - 1) * size < |xs| <= n * size
    decreases |xs|
  {
    if |xs| > size {
      var m := |Chunks(xs[size..], size)|;
      ChunkCount(xs[size..], size);
      assert |Chunks(xs, size)| == m + 1;
      assert (m + 1) * size == m * size + size;
      assert m * size == (m - 1) * size + size;
    }
  }


  /** `batch_process_results`: a zero size makes `range` raise, and a
      negative one gives no batches. */
  function BatchProcessResults<T>(results: seq<T>, batchSize: int): (r: Result<seq<seq<T>>, Raised>)
    ensures r.Failure? <==> batchSize == 0
    ensures batchSize < 0 ==> r == Success([])
    ensures batchSize > 0 ==> r.Success? && Flatten(r.value) == results
    ensures r.Success? ==> forall i :: 0 <= i < |r.value| ==> 0 < |r.value[i]| <= batchSize
    ensures r.Success? ==> forall i :: 0 <= i < |r.value| - 1 ==> |r.value[i]| == batchSize
  {
    if batchSize == 0 then Failure(ZeroStep)
    else if batchSize < 0 then Success([])
    else
      FlattenChunks(results, batchSize);
      Success(Chunks(results, batchSize))
  }

  // ----------------------------------------------- CodeFormatter.truncate

  /** Python's `s[:k]`: a negative `k` counts from the end. */
  function PrefixTo(s: string, k: int): (r: string)
    ensures |r| == if k >= 0 then (if k < |s| then k else |s|) else (if |s| + k > 0 then |s| + k else 0)
    ensures r == s[..|r|]
  {
    if k >= |s| then s
    else if k >= 0 then s[..k]
    else if |s| + k > 0 then s[..|s| + k]
    else ""
  }

  const Ellipsis: string := "..."

  /** `CodeFormatter.truncate(text, max_length)`. */
  function Truncate(text: string, maxLength: int): (r: string)
    ensures |text| <= maxLength ==> r == text
    ensures |text| > maxLength ==> r == PrefixTo(text, maxLength - 3) + Ellipsis
  {
    if |text| <= maxLength then text else PrefixTo(text, maxLength - 3) + Ellipsis
  }

  /** With room for the ellipsis, a long text is cut to exactly
      `max_length` characters that start as the text does. */
  lemma TruncateFits(text: string, maxLength: int)
    requires maxLength >= 3
    ensures |Truncate(text, maxLength)| <= maxLength
    ensures |text| > maxLength ==>
              |Truncate(text, maxLength)| == maxLength
              && Truncate(text, maxLength)[..maxLength - 3] == text[..maxLength - 3]
              && Truncate(text, maxLength)[maxLength - 3..] == Ellipsis
  {
    if |text| > maxLength {
      var r := Truncate(text, maxLength);
      assert r == text[..maxLength - 3] + Ellipsis;
    }
  }

  /** Below three the limit is not honoured: a negative slice bound keeps
      most of the text, and the ellipsis is added on top. */
  lemma TruncateShortLimit()
    ensures Truncate("abcd", 2) == "abc..."
  {
    assert PrefixTo("abcd", -1) == "abc";
  }

  // ------------------------------------------------- CodeFormatter.indent

  /** `" " * n`: empty for `n <= 0`. */
  function Spaces(n: int): (r: string)
    ensures |r| == if n > 0 then n else 0
    ensures forall i :: 0 <= i < |r| ==> r[i] == ' '
    decreases if n > 0 then n else 0
  {
    if n <= 0 then "" else " " + Spaces(n - 1)
  }

  /** `CodeFormatter.indent(text, spaces)`. */
  function Indent(text: string, spaces: int): string {
    Join(PrefixAll(Spaces(spaces), Split(text, '\n')), '\n')
  }

  /** Indenting keeps the number of lines, and line `i` of the result is
      line `i` of the text behind `spaces` blanks. */
  lemma IndentLines(text: string, spaces: int)
    ensures Split(Indent(text, spaces), '\n') == PrefixAll(Spaces(spaces), Split(text, '\n'))
    ensures |Split(Indent(text, spaces), '\n')| == |Split(text, '\n')|
  {
    var pad := Spaces(spaces);
    var lines := PrefixAll(pad, Split(text, '\n'));
    forall i | 0 <= i < |lines|
      ensures '\n' !in lines[i]
    {
      assert lines[i] == pad + Split(text, '\n')[i];
    }
    SplitJoin(lines, '\n');
  }

  /** Indenting by zero or fewer spaces gives the text back. */
  lemma {:induction false} IndentByNothing(text: string, spaces: int)
    requires spaces <= 0
    ensures Indent(text, spaces) == text
  {
    var lines := Split(text, '\n');
    assert PrefixAll("", lines) == lines by {
      forall i | 0 <= i < |lines|
        ensures PrefixAll("", lines)[i] == lines[i]
      {
        assert "" + lines[i] == lines[i];
      }
    }
    JoinSplit(text, '\n');
  }

  // ----------------------------------------------------- int() on a string

  predicate AllDigits(s: string) {
    forall k :: 0 <= k < |s| ==> IsDigit(s[k])
  }

  /** The number a run of decimal digits denotes. */
  function DigitsValue(s: string): nat
    requires AllDigits(s)
  {
    if |s| == 0 then 0
    else DigitsValue(s[..|s| - 1]) * 10 + (s[|s| - 1] as int - '0' as int)
  }

  /** Python's `str(n)` for a natural number. */
  function ShowNat(n: nat): (r: string)
    ensures |r| > 0 && AllDigits(r)
  {
    var d := ['0' + (n % 10) as char];
    if n < 10 then d else ShowNat(n / 10) + d
  }

  /** Python's `str(n)`. */
  function ShowInt(n: int): string {
    if n < 0 then "-" + ShowNat(-n) else ShowNat(n)
  }


  /** A digit run, negated when a minus sign came before it. */
  function UnsignedValue(d: string, negative: bool): (r: Result<int, Raised>)
    ensures r.Failure? ==> r.error == InvalidLiteral
  {
    if |d| > 0 && AllDigits(d) then
      var v: int := DigitsValue(d);
      Success(if negative then -v else v)
    else Failure(InvalidLiteral)
  }

  /** Python's `int(s)` in base 10: surrounding whitespace, an optional
      sign, then at least one digit. */
  function ParseInt(s: string): (r: Result<int, Raised>)
    ensures r.Failure? ==> r.error == InvalidLiteral
  {
    ParseTrimmed(Strip(s))
  }

  /** `int` after the whitespace is gone. */
  function ParseTrimmed(t: string): (r: Result<int, Raised>)
    ensures r.Failure? ==> r.error == InvalidLiteral
  {
    if |t| == 0 then Failure(InvalidLiteral)
    else if t[0] == '+' || t[0] == '-' then UnsignedValue(t[1..], t[0] == '-')
    else UnsignedValue(t, false)
  }

  lemma {:induction false} ShowNatValue(n: nat)
    ensures DigitsValue(ShowNat(n)) == n
  {
    var d := ['0' + (n % 10) as char];
    if n >= 10 {
      ShowNatValue(n / 10);
      var r := ShowNat(n / 10) + d;
      assert r[..|r| - 1] == ShowNat(n / 10);
    }
  }

  lemma DigitsUnpadded(s: string)
    requires AllDigits(s)
    ensures Strip(s) == s
  {
    if |s| > 0 {
      assert IsDigit(s[0]) && IsDigit(s[|s| - 1]);
    }
    StripOfUnpadded(s);
  }

  /** `int(s)` of a digit run is the number it denotes, leading zeros and
      all. */
  lemma ParseDigits(s: string)
    requires |s| > 0 && AllDigits(s)
    ensures ParseInt(s) == Success(DigitsValue(s) as int)
  {
    DigitsUnpadded(s);
    TrimmedDigits(s);
  }

  lemma TrimmedDigits(s: string)
    requires |s| > 0 && AllDigits(s)
    ensures ParseTrimmed(s) == Success(DigitsValue(s) as int)
  {
    assert IsDigit(s[0]);
    assert ParseTrimmed(s) == UnsignedValue(s, false);
  }

  lemma TrimmedNegative(d: string)
    requires |d| > 0 && AllDigits(d)
    ensures ParseTrimmed("-" + d) == Success(-(DigitsValue(d) as int))
  {
    var t := "-" + d;
    assert t[0] == '-' && t[1..] == d;
    assert ParseTrimmed(t) == UnsignedValue(d, true);
  }

  lemma NegativeUnpadded(d: string)
    requires |d| > 0 && AllDigits(d)
    ensures Strip("-" + d) == "-" + d
  {
    var t := "-" + d;
    assert t[|t| - 1] == d[|d| - 1];
    assert IsDigit(t[|t| - 1]);
    StripOfUnpadded(t);
  }

  /** `int` of a minus sign and a digit run is the negated run. */
  lemma ParseNegative(d: string)
    requires |d| > 0 && AllDigits(d)
    ensures ParseInt("-" + d) == Success(-(DigitsValue(d) as int))
  {
    NegativeUnpadded(d);
    TrimmedNegative(d);
  }

  /** `int(str(n)) == n`. */
  lemma ParseShowInt(n: int)
    ensures ParseInt(ShowInt(n)) == Success(n)
  {
    var m: nat := if n < 0 then -n else n;
    var d := ShowNat(m);
    ShowNatValue(m);
    if n < 0 {
      ParseNegative(d);
    } else {
      ParseDigits(d);
    }
  }

  // ------------------------------------------------ filter_tasks_by_criteria


  /** `int(t['id'].split('_')[1])`. */
  function IdNumber(t: Task): (r: Result<int, Raised>) {
    var pieces := Split(t.id, '_');
    if |pieces| < 2 then Failure(IndexOutOfRange) else ParseInt(pieces[1])
  }

  lemma SplitAtSeparator(name: string, rest: string, sep: char)
    requires sep !in name && sep !in rest
    ensures Split(name + [sep] + rest, sep) == [name, rest]
  {
    SplitNoSep(rest, "", sep);
    assert rest + "" == rest;
    var u := [sep] + rest;
    assert u[1..] == rest;
    assert Split(u, sep) == ["", rest];
    assert name + [sep] + rest == name + u;
    SplitNoSep(name, u, sep);
    assert name + "" == name;
  }

  lemma DigitsHaveNo(digits: string, c: char)
    requires AllDigits(digits) && !IsDigit(c)
    ensures c !in digits
  {
    forall k | 0 <= k < |digits|
      ensures digits[k] != c
    {
      assert IsDigit(digits[k]);
    }
  }

  /** An id made of a name, `_` and digits numbers the task by its digits. */
  lemma IdNumberOf(t: Task, name: string, digits: string)
    requires t.id == name + "_" + digits
    requires '_' !in name && |digits| > 0 && AllDigits(digits)
    ensures IdNumber(t) == Success(DigitsValue(digits))
  {
    DigitsHaveNo(digits, '_');
    SplitAtSeparator(name, digits, '_');
    ParseDigits(digits);
  }

  /** The optional arguments of `filter_tasks_by_criteria`. */
  datatype Criteria = Criteria(
    category: Option<string>,
    difficulty: Option<string>,
    minId: Option<int>,
    maxId: Option<int>)

  /** One list comprehension of the filter. */
  datatype Test = CategoryIs(category: string) | DifficultyIs(difficulty: string)
                | IdAtLeast(bound: int) | IdAtMost(bound: int)

  /** A string argument only filters when it is truthy. */
  predicate Given(o: Option<string>) {
    o.Some? && o.value != ""
  }

  /** The comprehensions that run, in the order the source runs them. */
  function TestsOf(c: Criteria): (tests: seq<Test>)
    ensures |tests| <= 4
  {
    CategoryTests(c) + DifficultyTests(c) + MinTests(c) + MaxTests(c)
  }

  function CategoryTests(c: Criteria): seq<Test> {
    if Given(c.category) then [CategoryIs(c.category.value)] else []
  }

  function DifficultyTests(c: Criteria): seq<Test> {
    if Given(c.difficulty) then [DifficultyIs(c.difficulty.value)] else []
  }

  function MinTests(c: Criteria): seq<Test> {
    if c.minId.Some? then [IdAtLeast(c.minId.value)] else []
  }

  function MaxTests(c: Criteria): seq<Test> {
    if c.maxId.Some? then [IdAtMost(c.maxId.value)] else []
  }

  /** The condition of one comprehension on one task; reading the id number
      can raise. */
  function Check(test: Test, t: Task): (r: Result<bool, Raised>)
    ensures r.Failure? ==> (test.IdAtLeast? || test.IdAtMost?) && IdNumber(t).Failure?
  {
    match test
    case CategoryIs(c) => Success(t.category == c)
    case DifficultyIs(d) => Success(t.difficulty == d)
    case IdAtLeast(m) => (match IdNumber(t) case Success(n) => Success(n >= m) case Failure(e) => Failure(e))
    case IdAtMost(m) => (match IdNumber(t) case Success(n) => Success(n <= m) case Failure(e) => Failure(e))
  }

  predicate Passes(test: Test, t: Task) {
    Check(test, t) == Success(true)
  }

  predicate Checkable(test: Test, t: Task) {
    Check(test, t).Success?
  }

  /** The tasks of `xs` that pass `test`, in order. */
  function Passing(xs: seq<Task>, test: Test): (r: seq<Task>)
    ensures forall y :: y in r ==> y in xs && Passes(test, y)
    ensures forall x :: x in xs && Passes(test, x) ==> x in r
  {
    if |xs| == 0 then []
    else (if Passes(test, xs[0]) then [xs[0]] else []) + Passing(xs[1..], test)
  }

  /** `[t for t in xs if <test>]`: it raises on the first task whose
      condition raises. */
  function Keep(xs: seq<Task>, test: Test): (r: Result<seq<Task>, Raised>)
    ensures r.Success? <==> forall x :: x in xs ==> Checkable(test, x)
    ensures r.Success? ==> r.value == Passing(xs, test)
  {
    if |xs| == 0 then Success([])
    else
      match Check(test, xs[0])
      case Failure(e) =>
        assert xs[0] in xs && !Checkable(test, xs[0]);
        Failure(e)
      case Success(b) =>
        match Keep(xs[1..], test)
        case Failure(e) =>
          assert exists x :: x in xs[1..] && !Checkable(test, x);
          Failure(e)
        case Success(rest) => Success(if b then [xs[0]] + rest else rest)
  }

  /** The comprehensions run one after another on the shrinking list. */
  function Apply(xs: seq<Task>, tests: seq<Test>): (r: Result<seq<Task>, Raised>)
    decreases |tests|
  {
    if |tests| == 0 then Success(xs)
    else
      match Keep(xs, tests[0])
      case Failure(e) => Failure(e)
      case Success(ys) => Apply(ys, tests[1..])
  }

  /** `filter_tasks_by_criteria(tasks, category, difficulty, min_id, max_id)`. */
  function FilterTasks(tasks: seq<Task>, c: Criteria): Result<seq<Task>, Raised> {
    Apply(tasks, TestsOf(c))
  }

  /** The comprehensions only raise on a task some condition cannot
      evaluate. */
  lemma {:induction false} ApplyFailure(xs: seq<Task>, tests: seq<Test>)
    requires Apply(xs, tests).Failure?
    ensures exists i, x :: 0 <= i < |tests| && x in xs && !Checkable(tests[i], x)
    decreases |tests|
  {
    var k := Keep(xs, tests[0]);
    if k.Failure? {
      var x :| x in xs && !Checkable(tests[0], x);
      assert 0 < |tests| && !Checkable(tests[0], x);
    } else {
      ApplyFailure(k.value, tests[1..]);
      var i, x :| 0 <= i < |tests[1..]| && x in k.value && !Checkable(tests[1..][i], x);
      assert x in xs && !Checkable(tests[i + 1], x);
    }
  }

  /** The filter fails only when an id bound is given and some task's id
      has no number after its first `_`. */
  lemma FilterTasksFailure(tasks: seq<Task>, c: Criteria)
    requires FilterTasks(tasks, c).Failure?
    ensures c.minId.Some? || c.maxId.Some?
    ensures exists t :: t in tasks && IdNumber(t).Failure?
  {
    var tests := TestsOf(c);
    ApplyFailure(tasks, tests);
    var i, x :| 0 <= i < |tests| && x in tasks && !Checkable(tests[i], x);
    TestsShape(c, i);
  }

  /** Only the id comprehensions come from `min_id` and `max_id`. */
  lemma TestsShape(c: Criteria, i: nat)
    requires i < |TestsOf(c)|
    ensures TestsOf(c)[i].IdAtLeast? ==> c.minId.Some?
    ensures TestsOf(c)[i].IdAtMost? ==> c.maxId.Some?
  {
    var a, b, m, n := CategoryTests(c), DifficultyTests(c), MinTests(c), MaxTests(c);
    var tests := a + b + m + n;
    if i < |a| {
      assert tests[i] == a[i];
    } else if i < |a| + |b| {
      assert tests[i] == b[i - |a|];
    } else if i < |a| + |b| + |m| {
      assert tests[i] == m[i - |a| - |b|];
    } else {
      assert tests[i] == n[i - |a| - |b| - |m|];
    }
  }

  // ------------------------------------------- the single-pass reference

  predicate PassesAll(tests: seq<Test>, t: Task) {
    forall i :: 0 <= i < |tests| ==> Passes(tests[i], t)
  }

  /** The tasks that pass every test, in order: one pass over the list. */
  function Wanted(xs: seq<Task>, tests: seq<Test>): (r: seq<Task>)
    ensures forall y :: y in r ==> y in xs && PassesAll(tests, y)
    ensures forall x :: x in xs && PassesAll(tests, x) ==> x in r
  {
    if |xs| == 0 then []
    else (if PassesAll(tests, xs[0]) then [xs[0]] else []) + Wanted(xs[1..], tests)
  }

  /** Order is kept: the wanted tasks of a concatenation are the wanted
      tasks of each part. */
  lemma {:induction false} WantedAppend(a: seq<Task>, b: seq<Task>, tests: seq<Test>)
    ensures Wanted(a + b, tests) == Wanted(a, tests) + Wanted(b, tests)
    decreases |a|
  {
    if |a| == 0 {
      assert a + b == b;
    } else {
      assert (a + b)[1..] == a[1..] + b;
      WantedAppend(a[1..], b, tests);
    }
  }

  lemma PassesAllCons(test: Test, tests: seq<Test>, t: Task)
    ensures PassesAll([test] + tests, t) <==> Passes(test, t) && PassesAll(tests, t)
  {
    var all := [test] + tests;
    if PassesAll(all, t) {
      assert all[0] == test;
      forall i | 0 <= i < |tests|
        ensures Passes(tests[i], t)
      {
        assert all[i + 1] == tests[i];
      }
    }
    if Passes(test, t) && PassesAll(tests, t) {
      forall i | 0 <= i < |all|
        ensures Passes(all[i], t)
      {
        if i > 0 {
          assert all[i] == tests[i - 1];
        }
      }
    }
  }

  lemma {:induction false} WantedAfterPassing(xs: seq<Task>, test: Test, tests: seq<Test>)
    ensures Wanted(Passing(xs, test), tests) == Wanted(xs, [test] + tests)
    decreases |xs|
  {
    if |xs| > 0 {
      var x := xs[0];
      var tail := Passing(xs[1..], test);
      WantedAfterPassing(xs[1..], test, tests);
      PassesAllCons(test, tests, x);
      if Passes(test, x) {
        assert Passing(xs, test) == [x] + tail;
        assert ([x] + tail)[1..] == tail;
        assert Wanted([x] + tail, tests) == (if PassesAll(tests, x) then [x] else []) + Wanted(tail, tests);
      } else {
        assert Passing(xs, test) == tail;
      }
    }
  }

  /** When every condition can be evaluated, running the comprehensions one
      after another keeps exactly the tasks that pass them all, in order. */
  lemma {:induction false} ApplyIsWanted(xs: seq<Task>, tests: seq<Test>)
    requires forall i, x :: 0 <= i < |tests| && x in xs ==> Checkable(tests[i], x)
    ensures Apply(xs, tests) == Success(Wanted(xs, tests))
    decreases |tests|
  {
    if |tests| == 0 {
      assert Wanted(xs, tests) == xs by {
        WantedAll(xs, tests);
      }
    } else {
      var ys := Passing(xs, tests[0]);
      assert Keep(xs, tests[0]) == Success(ys);
      ApplyIsWanted(ys, tests[1..]);
      WantedAfterPassing(xs, tests[0], tests[1..]);
      assert [tests[0]] + tests[1..] == tests;
    }
  }

  lemma {:induction false} WantedAll(xs: seq<Task>, tests: seq<Test>)
    requires |tests| == 0
    ensures Wanted(xs, tests) == xs
    decreases |xs|
  {
    if |xs| > 0 {
      WantedAll(xs[1..], tests);
      assert xs == [xs[0]] + xs[1..];
    }
  }

  /** What a task needs to be kept. */
  predicate Accepts(c: Criteria, t: Task) {
    (Given(c.category) ==> t.category == c.category.value)
    && (Given(c.difficulty) ==> t.difficulty == c.difficulty.value)
    && (c.minId.Some? ==> IdNumber(t).Success? && IdNumber(t).value >= c.minId.value)
    && (c.maxId.Some? ==> IdNumber(t).Success? && IdNumber(t).value <= c.maxId.value)
  }

  lemma PassesAllConcat(a: seq<Test>, b: seq<Test>, t: Task)
    ensures PassesAll(a + b, t) <==> PassesAll(a, t) && PassesAll(b, t)
  {
    var ab := a + b;
    if PassesAll(a, t) && PassesAll(b, t) {
      forall i | 0 <= i < |ab|
        ensures Passes(ab[i], t)
      {
        if i < |a| {
          assert ab[i] == a[i];
        } else {
          assert ab[i] == b[i - |a|];
        }
      }
    }
    if PassesAll(ab, t) {
      forall i | 0 <= i < |a|
        ensures Passes(a[i], t)
      {
        assert ab[i] == a[i];
      }
      forall i | 0 <= i < |b|
        ensures Passes(b[i], t)
      {
        assert ab[|a| + i] == b[i];
      }
    }
  }

  lemma PassesAllOne(test: Test, t: Task)
    ensures PassesAll([test], t) <==> Passes(test, t)
  {
    assert [test][0] == test;
  }

  lemma PassesCategoryTests(c: Criteria, t: Task)
    ensures PassesAll(CategoryTests(c), t) <==> (Given(c.category) ==> t.category == c.category.value)
  {
    if Given(c.category) { PassesAllOne(CategoryIs(c.category.value), t); }
  }

  lemma PassesDifficultyTests(c: Criteria, t: Task)
    ensures PassesAll(DifficultyTests(c), t) <==> (Given(c.difficulty) ==> t.difficulty == c.difficulty.value)
  {
    if Given(c.difficulty) { PassesAllOne(DifficultyIs(c.difficulty.value), t); }
  }

  lemma PassesMinTests(c: Criteria, t: Task)
    ensures PassesAll(MinTests(c), t)
        <==> (c.minId.Some? ==> IdNumber(t).Success? && IdNumber(t).value >= c.minId.value)
  {
    if c.minId.Some? { PassesAllOne(IdAtLeast(c.minId.value), t); }
  }

  lemma PassesMaxTests(c: Criteria, t: Task)
    ensures PassesAll(MaxTests(c), t)
        <==> (c.maxId.Some? ==> IdNumber(t).Success? && IdNumber(t).value <= c.maxId.value)
  {
    if c.maxId.Some? { PassesAllOne(IdAtMost(c.maxId.value), t); }
  }

  lemma PassesAllIsAccepts(c: Criteria, t: Task)
    ensures PassesAll(TestsOf(c), t) <==> Accepts(c, t)
  {
    var a, b, m, n := CategoryTests(c), DifficultyTests(c), MinTests(c), MaxTests(c);
    PassesAllConcat(a + b + m, n, t);
    PassesAllConcat(a + b, m, t);
    PassesAllConcat(a, b, t);
    PassesCategoryTests(c, t);
    PassesDifficultyTests(c, t);
    PassesMinTests(c, t);
    PassesMaxTests(c, t);
  }

  /** When the ids can be read (or no id bound is given), the filter keeps
      exactly the tasks that meet every given criterion, in their order. */
  lemma FilterTasksKeepsAccepted(tasks: seq<Task>, c: Criteria)
    requires c.minId.Some? || c.maxId.Some? ==> forall t :: t in tasks ==> IdNumber(t).Success?
    ensures FilterTasks(tasks, c).Success?
    ensures forall t :: t in FilterTasks(tasks, c).value <==> t in tasks && Accepts(c, t)
    ensures FilterTasks(tasks, c).value == Wanted(tasks, TestsOf(c))
  {
    var tests := TestsOf(c);
    forall i, x | 0 <= i < |tests| && x in tasks
      ensures Checkable(tests[i], x)
    {
      TestsShape(c, i);
      if tests[i].IdAtLeast? || tests[i].IdAtMost? {
        assert IdNumber(x).Success?;
      }
    }
    ApplyIsWanted(tasks, tests);
    forall t
      ensures t in Wanted(tasks, tests) <==> t in tasks && Accepts(c, t)
    {
      PassesAllIsAccepts(c, t);
    }
  }

  /** With no truthy criterion the task list comes back as it is. */
  lemma FilterTasksNoCriteria(tasks: seq<Task>, c: Criteria)
    requires !Given(c.category) && !Given(c.difficulty) && c.minId.None? && c.maxId.None?
    ensures FilterTasks(tasks, c) == Success(tasks)
  {
    assert TestsOf(c) == [];
  }
}
