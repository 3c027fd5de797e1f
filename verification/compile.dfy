/** How `PonyCompiler.compile_code` turns a compiler run into a verdict.
    The run itself (writing `main.pony`, spawning `ponyc` with a 30-second
    limit) is outside the model: its outcome arrives as a `ProcessResult`. */
module Compile {
  import opened Wrappers
  import opened Text
  import Normalize

  /** What the subprocess call can end in. */
  datatype ProcessResult =
    | Exited(exitCode: int, stdout: string, stderr: string)
    | TimedOut
    | LaunchFailed(message: string)

  /** The pair `compile_code` returns. */
  datatype Verdict = Verdict(success: bool, diagnostic: Option<string>)

  const VerifyingMarker: string := "Verifying"
  const WritingMarker: string := "Writing"
  const TimeoutMessage: string := "Compilation timeout (30s)"
  const ErrorPrefix: string := "Compilation error: "

  /** Progress lines `ponyc` prints once type checking has passed. */
  predicate ReachedCodegen(output: string) {
    Contains(output, VerifyingMarker) || Contains(output, WritingMarker)
  }

  /** The verdict for one compiler run. */
  function Classify(p: ProcessResult): (v: Verdict)
    ensures v.success <==> p.Exited? && (p.exitCode == 0 || ReachedCodegen(p.stdout + p.stderr))
    ensures v.success <==> v.diagnostic.None?
    ensures p.Exited? && !v.success ==> v.diagnostic == Some(p.stderr)
    ensures p.TimedOut? ==> v.diagnostic == Some(TimeoutMessage)
    ensures p.LaunchFailed? ==> v.diagnostic == Some(ErrorPrefix + p.message)
  {
    match p
    case Exited(code, out, err) =>
      if code == 0 || ReachedCodegen(out + err) then Verdict(true, None) else Verdict(false, Some(err))
    case TimedOut => Verdict(false, Some(TimeoutMessage))
    case LaunchFailed(msg) => Verdict(false, Some(ErrorPrefix + msg))
  }

  /** `compile_code`: normalise, hand the program to the compiler, classify.
      `run` stands for writing the file and running `ponyc` on it. */
  function CompileCode(code: string, run: string -> ProcessResult): (v: Verdict)
  {
    Classify(run(Normalize.Normalize(code)))
  }

  /** The compiler is only ever given a program that defines `actor Main`,
      and the verdict depends on nothing but its run on that program. */
  lemma CompileCodeRunsNormalized(code: string, run: string -> ProcessResult)
    ensures exists program ::
              Contains(program, Normalize.MainMarker) && CompileCode(code, run) == Classify(run(program))
  {
    Normalize.NormalizeHasMain(code);
    var program := Normalize.Normalize(code);
    assert Contains(program, Normalize.MainMarker) && CompileCode(code, run) == Classify(run(program));
  }

  /** A progress marker on either stream is enough, whatever the exit code
      and whatever the other stream holds. */
  lemma MarkerOnEitherStream(code: int, out: string, err: string)
    requires ReachedCodegen(out) || ReachedCodegen(err)
    ensures Classify(Exited(code, out, err)) == Verdict(true, None)
  {
    if Contains(out, VerifyingMarker) {
      ContainsLeft(out, err, VerifyingMarker);
    } else if Contains(out, WritingMarker) {
      ContainsLeft(out, err, WritingMarker);
    } else if Contains(err, VerifyingMarker) {
      ContainsRight(out, err, VerifyingMarker);
    } else {
      ContainsRight(out, err, WritingMarker);
    }
  }

  /** A failing run with a marker-free output reports its stderr and nothing
      of its stdout. */
  lemma FailureReportsStderr(code: int, out: string, err: string)
    requires code != 0 && !ReachedCodegen(out + err)
    ensures Classify(Exited(code, out, err)) == Verdict(false, Some(err))
  {
  }

  /** A compiler warning is not a progress marker: a failing run that only
      warns still fails, with the warning as the diagnostic. */
  lemma WarningOnlyFails()
    ensures Classify(Exited(1, "", "Warning: unused")) == Verdict(false, Some("Warning: unused"))
  {
    var s := "" + "Warning: unused";
    assert VerifyingMarker[0] == 'V';
    MissingCharNotContained(s, VerifyingMarker, 'V');
    forall i | 0 <= i <= |s| - |WritingMarker|
      ensures !OccursAt(s, WritingMarker, i)
    {
      assert s[i..i + |WritingMarker|][0] == s[i];
      assert s[i..i + |WritingMarker|][1] == s[i + 1];
    }
    FailureReportsStderr(1, "", "Warning: unused");
  }
}
