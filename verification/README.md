# Pony LLM benchmark evaluator: a verified model of its core

The repository runs a benchmark. It asks language models to write Pony programs, pulls the code out of each response, repairs common mistakes, compiles the result with `ponyc`, and retries a failed task up to a fixed number of times. This project models the pure logic of that pipeline in Dafny and proves properties of the model:

- **Extract** (`extract_code_from_response`): the four-step cascade that picks a snippet out of a response. The steps are tagged block, untagged block, captured lines and the whole response.
- **Repair** and **Balance** (`clean_pony_code`): the four regular-expression rewrites, then the `if ... then` / `end` counting, the padding loop and the final strip. Each regex is a scanner that follows Python's leftmost, non-overlapping `re.sub` / `re.findall`.
- **Normalize** and **Compile** (`PonyCompiler.compile_code`): the restructuring that makes every program define `actor Main`, and the verdict drawn from a compiler run.
- **Retry** (`Evaluator.evaluate_task`): the attempt loop, its early stop and the record it returns.
- **Utils**, **Diagnose** and **Similarity** (`evaluation/utils.py`): file-name sanitising, batching, task filtering, truncation, indentation, error-type extraction, the basic syntax check and word-set similarity.
- **Analyze** (`analyze_retries`): the per-strategy retry statistics and success rates.
- **Text**: Python string semantics. It covers `in`, `find`, `split`, `join`, `strip` and `lower`, ASCII `\w` / `\d`, and the full `str.isspace` set.
- **Wrappers**: `Option` and `Result`.

Error results are datatypes instead of message strings. Python's `ValueError` from `int(...)`, `range()` with step 0 and an `IndexError` become `Utils.Raised`. The error categories and syntax problems are `Diagnose.ErrorType` and `Diagnose.SyntaxProblem`, and each has a function giving the source's string.

`clean_pony_code` is not idempotent: `Repair.CleanPonyCodeNotIdempotent` exhibits `[1].values().values()`: one application gives `[1].values()`, and a second gives `[1]`.

## Model

| member | source | states |
|---|---|---|
| Text.IndexOf | evaluation/evaluator.py:76-77 | `code.split("actor Main", 1)` splits at the first occurrence: the index found is an occurrence, none lies before it, and there is none exactly when the marker is absent |
| Text.Strip | evaluation/evaluator.py:78 | `str.strip()` leaves neither leading nor trailing whitespace |
| Text.StripParts | evaluation/evaluator.py:78 | the input is all-whitespace lead, then the stripped text, then all-whitespace trail |
| Text.StripIdempotent | evaluation/evaluator.py:78 | stripping twice equals stripping once |
| Text.JoinSplit | evaluation/evaluator.py:86-101 | joining the pieces of `split('\n')` with newlines rebuilds the text |
| Text.SplitJoin | evaluation/evaluator.py:86-101 | splitting a join of newline-free pieces gives the pieces back |
| Text.Split | evaluation/utils.py:233 | `split` gives at least one piece, and no piece contains the separator |
| Text.Lower | evaluation/utils.py:105 | `lower()` leaves no ASCII capital in its result and keeps every other character in place |
| Text.LowerTwice | evaluation/utils.py:105 | lowering is idempotent |
| Text.LowerFixed | evaluation/utils.py:105 | a text is its own lowering exactly when it has no ASCII capital |
| Extract.FirstClose | evaluation/evaluator.py:193-194 | the lazy `(.*?)` stops at the first closing fence after the body starts, and at none when there is no later fence |
| Extract.Blocks | evaluation/evaluator.py:193-194 | no body of a `re.findall` match contains a closing fence |
| Extract.FirstCloseAfterBody | evaluation/evaluator.py:193-194 | after a fence and a body free of closing fences, the lazy `(.*?)` stops at the closing fence that follows the body |
| Extract.MatchAtFence | evaluation/evaluator.py:193-194 | a fence, a fence-free body and a closing fence give that body, then the matches of the rest |
| Extract.SkipProse | evaluation/evaluator.py:193-194 | prose without an opening fence before a fence adds no match |
| Extract.NoFenceNoBlocks | evaluation/evaluator.py:193-194 | text without an opening fence has no matches |
| Extract.NoCloseNoBlocks | evaluation/evaluator.py:193-194 | text without a closing fence has no matches: an unclosed fence matches nothing |
| Extract.BlocksOfCompose | evaluation/evaluator.py:193-194 | prose interleaved with fenced bodies yields exactly those bodies, in order, even when the trailing prose holds an unclosed fence |
| Extract.ExtractLastTaggedBlock | evaluation/evaluator.py:193-197 | with any ```` ```pony ```` block, the result is the last block's body, stripped; trailing prose only has to hold no complete block |
| Extract.UnclosedTrailingFence | evaluation/evaluator.py:193-197 | a response with one block and then an unclosed ```` ```pony ```` fence extracts the block's body |
| Extract.LastKeywordBlock | evaluation/evaluator.py:205-207 | finds the last untagged block that names a Pony keyword, and says when no block does |
| Extract.ExtractFromUntagged | evaluation/evaluator.py:199-208 | without tagged blocks, the result is the last keyword block stripped, else the last untagged block stripped |
| Extract.Unexplained | evaluation/evaluator.py:217-218 | the kept lines come from the input and none is explanatory |
| Extract.FirstCodeLine | evaluation/evaluator.py:220-221 | finds the first non-explanatory line that names a code keyword, and says when there is none |
| Extract.CaptureIsUnexplainedTail | evaluation/evaluator.py:211-223 | the capture loop keeps exactly the non-explanatory lines from the first code line on, and nothing without one |
| Extract.ExtractByLines | evaluation/evaluator.py:210-229 | without fenced blocks, the result is the captured lines joined and stripped, else the whole response stripped |
| Extract.ExtractPlainProse | evaluation/evaluator.py:228-229 | with no fences and no code keyword, the result is the whole response stripped |
| Extract.ExtractCode | evaluation/evaluator.py:190-229 | every extracted snippet has no leading or trailing whitespace |
| Repair.DigitsKept | evaluation/evaluator.py:234 | characters of a digit run are all kept by the reference rewrite |
| Repair.SuffixScanMatchesReference | evaluation/evaluator.py:234 | the `(\d+)[Uu]\b` scanner deletes exactly the `U`/`u` after a digit and before a word boundary |
| Repair.StripNumericSuffixesSpec | evaluation/evaluator.py:234 | the first rewrite equals the reference that drops exactly the marked suffixes |
| Repair.StripNumericSuffixesNoSuffix | evaluation/evaluator.py:234 | text with no such suffix is unchanged |
| Repair.PackageMatch | evaluation/evaluator.py:237 | a `package\s+\w+\s*\n` match at the line start ends just after a newline and is a real match (`package`, blanks, a word, blanks ending in a newline); every match lies within it, so it is the longest one the greedy `\s*` takes, and there is none exactly when no match exists |
| Repair.PackageForced | evaluation/evaluator.py:237 | in any match the blanks and the name are the maximal runs, and the match ends within the blank run after the name |
| Repair.RemovePackagesNoLine | evaluation/evaluator.py:237 | text with no `package` at a line start is unchanged |
| Repair.RemovePackageLine | evaluation/evaluator.py:237 | a leading `package name` line, with any blanks between the words and blank padding up to the last newline of the blank run, is deleted, and the rest is then rewritten |
| Repair.RemovePackagesAfter | evaluation/evaluator.py:237 | text made of whole lines that none starts with `package` passes unchanged, and the rewrite continues at the next line start |
| Repair.RemovePackageLineAfter | evaluation/evaluator.py:237 | a `package name` line after other lines is deleted too, with everything before it kept |
| Repair.ValuesMatch | evaluation/evaluator.py:240 | a match is a `[`, a non-empty `]`-free group, `]` and `.values()`; any such match is the one returned, and there is none exactly when no such match exists |
| Repair.CollapseValuesAfter | evaluation/evaluator.py:240 | text without `[` passes unchanged, and the rewrite continues after it |
| Repair.CollapseValuesNoCall | evaluation/evaluator.py:240 | text without `.values()` is unchanged by the third rewrite |
| Repair.CollapseValuesLiteral | evaluation/evaluator.py:240 | `[x].values()` becomes `[x]` for a non-empty bracket-free `x` |
| Repair.ComparisonAt | evaluation/evaluator.py:243 | `a == b` with word operands ending at a word boundary is a comparison match |
| Repair.ComparisonForced | evaluation/evaluator.py:243 | in any `\w+\s*==\s*\w+` match the first word and both blank runs are maximal, and the last word lies within the maximal word run |
| Repair.ComparisonEndSound | evaluation/evaluator.py:243 | a comparison end the scanner finds delimits a real `\w+\s*==\s*\w+` match |
| Repair.ComparisonEndComplete | evaluation/evaluator.py:243 | when a comparison matches at a position, the scanner finds one there, extending it by word characters only |
| Repair.ChainMatch | evaluation/evaluator.py:243 | the groups of a chained comparison lie in order within the text |
| Repair.ChainMatchSound | evaluation/evaluator.py:243 | a chain the scanner finds is a real match of the pattern, and none is found right after a word character |
| Repair.ChainMatchComplete | evaluation/evaluator.py:243 | whenever the pattern matches at a word boundary, the scanner finds a chain with the same first comparison, blanks and connective, and a second comparison at least as long |
| Repair.ChainLeftForced | evaluation/evaluator.py:243 | in any chain match the first comparison is the longest and the blanks after it are the maximal run |
| Repair.ChainConnectiveForced | evaluation/evaluator.py:243 | the connective of any chain match is the `or` or `and` the scanner reads |
| Repair.ChainRightForced | evaluation/evaluator.py:243 | in any chain match the blanks before the second comparison are maximal, and the second comparison lies within the longest one |
| Repair.ParenthesizeNoEquality | evaluation/evaluator.py:243 | text without `==` is unchanged by the fourth rewrite |
| Repair.ParenthesizeChain | evaluation/evaluator.py:243 | `a == b or c == d` becomes `(a == b) or (c == d)`, and likewise for `and` |
| Repair.ParenthesizeAfter | evaluation/evaluator.py:243 | text without `=` ending in a character that is neither a word character nor a blank passes unchanged, and the scan resumes after it at a word boundary |
| Repair.FixPrecedenceAfter | evaluation/evaluator.py:243 | the fourth rewrite of such a prefix followed by any text keeps the prefix and rewrites the text |
| Repair.PadEnds | evaluation/evaluator.py:248-250 | the loop appends exactly `if_count - end_count` end lines when that is positive, and none otherwise |
| Balance.EndCountIsWholeWords | evaluation/evaluator.py:247 | the `\bend\b` scanner counts exactly the whole-word occurrences of `end` |
| Balance.EndCountAppend | evaluation/evaluator.py:247 | `end` counts add up across a join whose second part starts with a non-word character |
| Balance.IfThenCountAppend | evaluation/evaluator.py:246 | `if ... then` counts add up across a quiet tail |
| Balance.CountsOfStrip | evaluation/evaluator.py:246-252 | `strip` changes neither count |
| Repair.RepeatLineCounts | evaluation/evaluator.py:248-250 | `k` appended `\n    end` lines hold `k` `end` words and no `if ... then` |
| Repair.PaddedCounts | evaluation/evaluator.py:246-252 | padding then stripping adds `k` to the `end` count and keeps the `if ... then` count |
| Repair.PadAndStrip | evaluation/evaluator.py:245-252 | the padded and trimmed text has no leading or trailing whitespace |
| Repair.PadAndStripPads | evaluation/evaluator.py:245-252 | padding appends exactly one end line per missing `end`, then strips |
| Repair.PadAndStripKeepsIfs | evaluation/evaluator.py:245-252 | padding and trimming leave the number of `if ... then` matches unchanged |
| Repair.PadAndStripAddsEnds | evaluation/evaluator.py:245-252 | padding and trimming raise the `end` count by exactly the number of missing ends |
| Repair.CleanPonyCode | evaluation/evaluator.py:231-252 | the repaired code has no leading or trailing whitespace |
| Repair.CleanPonyCodeBalances | evaluation/evaluator.py:231-252 | repaired code keeps the rewritten text's `if ... then` count, gains exactly the missing ends, and has at least as many `end` words as `if ... then` matches |
| Repair.CleanBracketedOne | evaluation/evaluator.py:231-252 | `[1].values()` followed by a plain tail repairs to `[1]` and that tail |
| Repair.CleanPonyCodeNotIdempotent | evaluation/evaluator.py:240 | the repairer applied twice differs from once on `[1].values().values()` |
| Normalize.MarkerFirstAt | evaluation/evaluator.py:76-79 | the split point of `p + "actor Main" + rest` is the end of `p` when `p` lacks the marker |
| Normalize.NormalizeWraps | evaluation/evaluator.py:108-115 | code without `actor Main` is wrapped after a fixed `Main` with a constructor |
| Normalize.NormalizeBlankPrefix | evaluation/evaluator.py:105-107 | blank text before `actor Main` is dropped |
| Normalize.NormalizeTypePrefix | evaluation/evaluator.py:102-104 | other definitions before `actor Main` stay in front of it, stripped, then a blank line |
| Normalize.NormalizeFunPrefix | evaluation/evaluator.py:84-101 | a leading `fun ` is spliced into the lines after `actor Main` |
| Normalize.SpliceWithoutCreate | evaluation/evaluator.py:90-99 | without a constructor line the lines are copied unchanged |
| Normalize.SpliceAt | evaluation/evaluator.py:90-99 | the moved block goes in once, right after the first constructor line |
| Normalize.NormalizeDropsFun | evaluation/evaluator.py:84-101 | with no constructor line, the leading function disappears |
| Normalize.NormalizeMovesFun | evaluation/evaluator.py:84-101 | with a constructor line, the function's lines, indented by two spaces and then a blank line, follow it |
| Normalize.NormalizeHasMain | evaluation/evaluator.py:76-115 | every normalised program contains `actor Main` |
| Compile.Classify | evaluation/evaluator.py:119-139 | success iff the compiler exited with 0 or printed `Verifying`/`Writing`; success iff no diagnostic; failures report stderr, the timeout message or the launch error |
| Compile.CompileCodeRunsNormalized | evaluation/evaluator.py:71-139 | the compiler is run on the normalised program |
| Compile.MarkerOnEitherStream | evaluation/evaluator.py:127-133 | a progress marker on either stream means success, whatever the exit code |
| Compile.FailureReportsStderr | evaluation/evaluator.py:127-134 | a non-zero exit whose combined output holds neither `Verifying` nor `Writing` fails with stderr as the diagnostic, and nothing of stdout |
| Compile.WarningOnlyFails | evaluation/evaluator.py:127-134 | a failing run whose stderr holds only a `Warning: ...` line fails with that warning as the diagnostic |
| Retry.AttemptAt | evaluation/evaluator.py:302-344 | attempt `k` is numbered `k + 1`, is a retry iff `k > 0`, has a syntax flag equal to its compile flag, and has an error exactly when it failed |
| Retry.RunFrom | evaluation/evaluator.py:298-369 | the loop returns an attempt with its retry count, after only failures, and reaches the last attempt only when every attempt failed |
| Retry.RunAttempts | evaluation/evaluator.py:298-369 | a positive `max_retries` yields the stopping attempt with `total_attempts == retry_count + 1`; a non-positive one is an error |
| Retry.StopsAtFirstSuccess | evaluation/evaluator.py:348-352 | the first successful attempt is returned with `retry_count == k` |
| Retry.ReturnsLastWhenAllFail | evaluation/evaluator.py:362-369 | when all attempts fail, the last one is returned with `retry_count == max_retries - 1` |
| Retry.EvaluateTaskRecord | evaluation/evaluator.py:287-369 | the returned record names the task, strategy and model, and its attempt number and retry flag agree with its retry count |
| Retry.AttemptCodeIsRepaired | evaluation/evaluator.py:309-311 | every attempt's code has been through the repairer: stripped and end-balanced |
| Utils.SanitizeFilename | evaluation/utils.py:82-87 | the result is at most 100 characters, has no invalid character, and keeps every other character in place |
| Utils.SanitizeIdempotent | evaluation/utils.py:82-87 | sanitising twice equals sanitising once |
| Utils.Chunks | evaluation/utils.py:147-149 | every batch is non-empty and at most the batch size, and all but the last are full |
| Utils.FlattenChunks | evaluation/utils.py:147-149 | concatenating the batches gives back the results |
| Utils.ChunkCount | evaluation/utils.py:147-149 | the number of batches is the length divided by the size, rounded up |
| Utils.BatchProcessResults | evaluation/utils.py:147-149 | size 0 raises, a negative size gives no batches, and a positive size partitions the results |
| Utils.PrefixTo | evaluation/utils.py:227 | Python slicing `s[:k]`, including negative `k` |
| Utils.Truncate | evaluation/utils.py:222-227 | text within the limit is unchanged; longer text is its `max_length - 3` prefix plus `...` |
| Utils.TruncateFits | evaluation/utils.py:222-227 | for a limit of at least 3 the result fits, keeping the prefix and ending in `...` |
| Utils.TruncateShortLimit | evaluation/utils.py:222-227 | a limit below 3 can exceed the limit: `truncate("abcd", 2)` is `abc...` |
| Utils.IndentLines | evaluation/utils.py:229-233 | the lines of the result are the input's lines, each with the indent prefixed |
| Utils.IndentByNothing | evaluation/utils.py:229-233 | a non-positive indent leaves the text unchanged |
| Utils.ParseShowInt | evaluation/utils.py:170 | `int()` reads back every decimal rendering |
| Utils.ParseNegative | evaluation/utils.py:170 | `int("-" + digits)` is the negated value |
| Utils.IdNumberOf | evaluation/utils.py:170 | the id number of `name_digits` is the value of the digits |
| Utils.Passing | evaluation/utils.py:163-173 | one comprehension keeps exactly the tasks passing its test |
| Utils.Keep | evaluation/utils.py:169-173 | a comprehension raises exactly when some task's id has no integer second part |
| Utils.ApplyFailure | evaluation/utils.py:151-175 | a raise comes from some test on some task that cannot be checked |
| Utils.FilterTasksFailure | evaluation/utils.py:151-175 | filtering raises only with an id bound and a task whose id is not `prefix_number` |
| Utils.ApplyIsWanted | evaluation/utils.py:161-175 | the chain of comprehensions equals one pass with all the tests |
| Utils.PassesAllIsAccepts | evaluation/utils.py:163-173 | passing every test means satisfying every given criterion |
| Utils.FilterTasksKeepsAccepted | evaluation/utils.py:151-175 | with checkable ids the result succeeds and keeps exactly the tasks meeting every given criterion, in order |
| Utils.FilterTasksNoCriteria | evaluation/utils.py:151-175 | with no criteria, the tasks are returned unchanged |
| Diagnose.GotFromIff | evaluation/utils.py:99 | the scan for `got` finds one on the same line exactly when one exists |
| Diagnose.ExpectedFromIff | evaluation/utils.py:99 | the scan for `expected.*got` succeeds exactly when such a pair exists |
| Diagnose.FirstMatch | evaluation/utils.py:106-108 | the first category whose pattern matches, or none |
| Diagnose.ExtractErrorType | evaluation/utils.py:89-110 | `unknown` iff the message is empty; `other` iff no pattern matches the lowered message; otherwise the first matching category in dictionary order |
| Diagnose.SyntaxComesFirst | evaluation/utils.py:97-108 | a syntax-error message is classified `syntax` whatever else it says |
| Diagnose.ValidateSyntaxBasic | evaluation/utils.py:199-217 | valid iff there is an actor, a constructor and balanced braces; the problem reported is the first failing check |
| Diagnose.NormalizedHasActor | evaluation/utils.py:204-211 | a normalised program never fails the actor check |
| Diagnose.ValidateWrapped | evaluation/utils.py:199-217 | for a wrapped program, only the brace counts of the user's code decide the check |
| Similarity.FieldsOfJoin | evaluation/utils.py:118-119 | `split()` of words joined by blanks gives the words back |
| Similarity.WordSet | evaluation/utils.py:118-119 | every element of the word set is a non-empty, whitespace-free word without ASCII capitals |
| Similarity.FieldsNoUpper | evaluation/utils.py:118-119 | `split()` of capital-free text gives capital-free words |
| Similarity.WordSetOfJoin | evaluation/utils.py:118-119 | round trip: capital-free words joined by blanks have exactly those words as their word set |
| Similarity.Similarity | evaluation/utils.py:112-129 | the score lies in [0, 1] |
| Similarity.SimilaritySymmetric | evaluation/utils.py:112-129 | the score does not depend on argument order |
| Similarity.SimilarityOne | evaluation/utils.py:112-129 | the score is 1 iff both texts have the same word set |
| Similarity.SimilarityZero | evaluation/utils.py:112-129 | the score is 0 iff exactly one text has no words, or both have words and share none |
| Similarity.SimilarityIgnoresCase | evaluation/utils.py:118 | lowering an argument first does not change the score |
| Analyze.MaxOf | evaluation/analyze_results.py:52 | `max` is an element and no element exceeds it |
| Analyze.Summary | evaluation/analyze_results.py:49-62 | mean and max are 0 with no retries, else the mean times the count is the sum of the retries and the max is the largest retry; rates exist iff there are results, the first-try rate times the total is 100 times the first-try count, the final rate times the total is 100 times all successes, 0 <= first-try <= final <= 100, and the improvement is their difference |
| Analyze.Rate | evaluation/analyze_results.py:59-61 | `a / total * 100` is the percentage: `total` times it is `100 * a` |
| Analyze.RateOrder | evaluation/analyze_results.py:58-62 | a larger share of the same total gives a larger rate, and no rate lies outside [0, 100] |
| Analyze.AnalyzeRetries | evaluation/analyze_results.py:14-64 | the counters equal the reference counts of each kind, the retry list is the ordered retry counts, each strategy entry equals its reference statistics, and the summary follows |
| Analyze.Conservation | evaluation/analyze_results.py:25-47 | first-try, on-retry and never counts add up to the number of results |
| Analyze.StrategyConservation | evaluation/analyze_results.py:25-47 | per strategy, the three counts add up to that strategy's results |
| Analyze.RetriesMatchCount | evaluation/analyze_results.py:40-42 | one retry entry per success on retry, none of them 0 |
| Analyze.MissingCountIsFirstTry | evaluation/analyze_results.py:36-39 | a success without `retry_count` counts as a first-try success |
| Analyze.AnalyzeRetriesInvariants | evaluation/analyze_results.py:14-64 | the returned statistics conserve the total overall and per strategy, and their rates are ordered |

## Left out

- Calls to language models (`LLMClient.generate`), prompt construction (`get_prompt`) and the compiler subprocess. They are function-valued parameters of the model (`Retry.World`, `Compile.CompileCode`'s runner). The model fixes only how their outputs are used.
- Timing, timestamps, the printing of progress and the files written (`main.pony`, saved code, work directories). They have no effect on the returned values.
- Exceptions from the subprocess call. They are modelled as the `ProcessResult` cases `TimedOut` and `LaunchFailed`. What `str(e)` says is the oracle's message.
- `Retry.RunAttempts`: when `max_retries <= 0` the source reaches `{...}`, a set. Item assignment on it raises `TypeError`. The model returns the error `NoAttemptError` in that case.
- Text.Lower: only ASCII letters are lowered. `\w` and `\d` are ASCII as well. Python's Unicode case mapping and Unicode word/digit classes are not modelled.
- Utils.ParseInt: Python's `int()` also accepts underscores between digits and non-ASCII digits. The model reads an optional sign and ASCII digits after `strip`, and rejects the rest with `InvalidLiteral`.
- Missing dictionary keys (`KeyError`) in the task and result records. Records are datatypes with every field present, except `retry_count`, whose absence `analyze_retries` handles with a default.
- Floating-point arithmetic. Rates and the mean are exact `real`s. Rounding of the Python floats is not modelled.
- Dictionary iteration order. `Analyze.AnalyzeRetries` returns a `map` for `by_strategy`, so the order in which strategies were first seen is not kept. `Diagnose.Ordered` fixes the literal order of the error-pattern dictionary.
- The error strings are datatypes: `Diagnose.Label` and `Diagnose.Message` give the source's strings, and `Utils.Raised` stands for the Python exception raised.
- The rest of the repository: batch runner, report generation, plotting, dataset loading, `compare_with_reference` (beyond `calculate_similarity`), `analyze_pony_code`, `format_duration`, progress bars, task stats, test framework and setup scripts.
