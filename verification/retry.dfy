/** `Evaluator.evaluate_task`: ask the model, extract and repair the code,
    compile it, and retry up to `max_retries` times until it compiles. The
    prompt builder, the model and the compiler run are oracles; timing and
    the files written along the way are not modelled. */
module Retry {
  import opened Wrappers
  import opened Tasks
  import Extract
  import Repair
  import Compile
  import Balance
  import Text

  /** One attempt's result record, without its timing fields and its
      always-empty `test_results`. */
  datatype Attempt = Attempt(
    taskId: string,
    category: string,
    difficulty: string,
    strategy: string,
    model: string,
    prompt: string,
    generatedCode: string,
    compilationSuccess: bool,
    compilationError: Option<string>,
    syntaxCorrect: bool,
    attemptNumber: nat,
    isRetry: bool)

  /** The record `evaluate_task` returns: the deciding attempt with its
      `retry_count` and `total_attempts`. */
  datatype Outcome = Outcome(last: Attempt, retryCount: int, totalAttempts: int)

  /** What the loop consults: `get_prompt(strategy, description, category)`,
      the model's response to a prompt on a given attempt, and the compiler
      run on a given attempt. */
  datatype World = World(
    promptFor: (string, string, string) -> string,
    generate: (string, string, nat) -> string,
    run: (string, nat) -> Compile.ProcessResult)

  /** The code attempt `k` compiles: the repaired extraction of the response. */
  function GeneratedCode(task: Task, strategy: string, model: string, w: World, k: nat): string {
    var prompt := w.promptFor(strategy, task.prompt, task.category);
    Repair.CleanPonyCode(Extract.ExtractCode(w.generate(prompt, model, k)))
  }

  /** The record of attempt `k` (counted from 0). */
  function AttemptAt(task: Task, strategy: string, model: string, w: World, k: nat): (a: Attempt)
    ensures a.attemptNumber == k + 1 && a.isRetry == (k > 0)
    ensures a.syntaxCorrect == a.compilationSuccess
    ensures a.compilationSuccess <==> a.compilationError.None?
  {
    var prompt := w.promptFor(strategy, task.prompt, task.category);
    var code := GeneratedCode(task, strategy, model, w, k);
    var v := Compile.CompileCode(code, p => w.run(p, k));
    Attempt(task.id, task.category, task.difficulty, strategy, model, prompt, code,
            v.success, v.diagnostic, v.success, k + 1, k > 0)
  }

  /** The attempts of one evaluation, by 0-based index. */
  function Attempts(task: Task, strategy: string, model: string, w: World): nat -> Attempt {
    (k: nat) => AttemptAt(task, strategy, model, w, k)
  }

  /** The loop from attempt `k` on, over any sequence of attempt records. */
  function RunFrom(attempt: nat -> Attempt, maxRetries: nat, k: nat): (o: Outcome)
    requires k < maxRetries
    ensures k <= o.retryCount < maxRetries && o.totalAttempts == o.retryCount + 1
    ensures o.last == attempt(o.retryCount)
    ensures forall j :: k <= j < o.retryCount ==> !attempt(j).compilationSuccess
    ensures !o.last.compilationSuccess ==> o.retryCount == maxRetries - 1
    decreases maxRetries - k
  {
    var a := attempt(k);
    if a.compilationSuccess then Outcome(a, k, k + 1)
    else if k + 1 == maxRetries then Outcome(a, maxRetries - 1, maxRetries)
    else RunFrom(attempt, maxRetries, k + 1)
  }

  /** What Python raises when no attempt ran: the fallback `{...}` is a set,
      and the code assigns an item on it. */
  const NoAttemptError: string := "TypeError: 'set' object does not support item assignment"

  /** The loop of `evaluate_task` with `self.max_retries == maxRetries`. */
  function RunAttempts(attempt: nat -> Attempt, maxRetries: int): (r: Result<Outcome, string>)
    ensures r.Failure? <==> maxRetries <= 0
    ensures r.Failure? ==> r.error == NoAttemptError
    ensures r.Success? ==> 0 <= r.value.retryCount < maxRetries
    ensures r.Success? ==> r.value.totalAttempts == r.value.retryCount + 1
    ensures r.Success? ==> r.value.last == attempt(r.value.retryCount)
    ensures r.Success? ==> forall j :: 0 <= j < r.value.retryCount ==> !attempt(j).compilationSuccess
    ensures r.Success? && !r.value.last.compilationSuccess ==>
              r.value.retryCount == maxRetries - 1 && r.value.totalAttempts == maxRetries
  {
    if maxRetries <= 0 then Failure(NoAttemptError)
    else Success(RunFrom(attempt, maxRetries, 0))
  }

  /** `evaluate_task(task, strategy, model)`. */
  function EvaluateTask(task: Task, strategy: string, model: string, w: World, maxRetries: int): Result<Outcome, string> {
    RunAttempts(Attempts(task, strategy, model, w), maxRetries)
  }

  /** The first attempt that compiles ends the loop, with its 0-based index
      as `retry_count`. */
  lemma StopsAtFirstSuccess(attempt: nat -> Attempt, maxRetries: int, k: nat)
    requires k < maxRetries && attempt(k).compilationSuccess
    requires forall j :: 0 <= j < k ==> !attempt(j).compilationSuccess
    ensures RunAttempts(attempt, maxRetries) == Success(Outcome(attempt(k), k, k + 1))
  {
  }

  /** When no attempt compiles, the last one is returned and every attempt
      is counted. */
  lemma ReturnsLastWhenAllFail(attempt: nat -> Attempt, maxRetries: int)
    requires maxRetries >= 1
    requires forall j :: 0 <= j < maxRetries ==> !attempt(j).compilationSuccess
    ensures RunAttempts(attempt, maxRetries)
         == Success(Outcome(attempt(maxRetries - 1), maxRetries - 1, maxRetries))
  {
    var o := RunAttempts(attempt, maxRetries).value;
    assert !attempt(o.retryCount).compilationSuccess;
  }

  /** The returned record describes the attempt it names: its number is
      `retry_count + 1`, it is a retry exactly when `retry_count > 0`, and
      its syntax flag is its compilation flag. */
  lemma EvaluateTaskRecord(task: Task, strategy: string, model: string, w: World, maxRetries: int)
    requires maxRetries >= 1
    ensures var o := EvaluateTask(task, strategy, model, w, maxRetries).value;
      o.last.attemptNumber == o.retryCount + 1 && o.last.isRetry == (o.retryCount > 0)
      && o.last.syntaxCorrect == o.last.compilationSuccess
      && o.last.taskId == task.id && o.last.strategy == strategy && o.last.model == model
  {
    var o := EvaluateTask(task, strategy, model, w, maxRetries).value;
    assert o.last == Attempts(task, strategy, model, w)(o.retryCount);
    assert o.last == AttemptAt(task, strategy, model, w, o.retryCount);
  }

  /** The code of every attempt has been through the repairer: no blank
      ends, and at least as many `end` words as `if ... then` matches. */
  lemma AttemptCodeIsRepaired(task: Task, strategy: string, model: string, w: World, k: nat)
    ensures var code := AttemptAt(task, strategy, model, w, k).generatedCode;
      Text.Unpadded(code)
      && Balance.EndCount(code, false) >= Balance.IfThenCount(code, false)
  {
    var prompt := w.promptFor(strategy, task.prompt, task.category);
    Repair.CleanPonyCodeBalances(Extract.ExtractCode(w.generate(prompt, model, k)));
  }
}
