/** The tool's error vocabulary: the typed `ToolError`s, the seven pipeline
    stages, and the tagging of an error with the stage it happened in
    (tool/src/errors.rs). */
module Errors {
  import opened Wrappers

  /** Rust's `ToolError`. Versions are the analyser's `u32` header field. */
  datatype ToolError =
    | PyreError(stdout: string, stderr: string)
    | PyreResultVersionMismatch(got: nat, expected: nat)
    | PyreTimeout
    | UvError(stdout: string, stderr: string)

  /** Rust's `PipelineStage`: where in a repository's analysis a failure happened. */
  datatype PipelineStage =
    | Setup
    | ResolvingDependencies
    | InstallingDependencies
    | PyreSetup
    | Analysis
    | Processing
    | Cleanup

  /** The stages in declaration order. */
  const AllStages: seq<PipelineStage> :=
    [Setup, ResolvingDependencies, InstallingDependencies, PyreSetup, Analysis, Processing, Cleanup]

  /** `PipelineStage` is closed: exactly the seven stages, each listed once. */
  lemma StagesClosed()
    ensures |AllStages| == 7
    ensures forall s: PipelineStage :: s in AllStages
    ensures forall i, j :: 0 <= i < j < |AllStages| ==> AllStages[i] != AllStages[j]
  {
    forall s: PipelineStage
      ensures s in AllStages
    {
      match s
      case Setup => assert AllStages[0] == s;
      case ResolvingDependencies => assert AllStages[1] == s;
      case InstallingDependencies => assert AllStages[2] == s;
      case PyreSetup => assert AllStages[3] == s;
      case Analysis => assert AllStages[4] == s;
      case Processing => assert AllStages[5] == s;
      case Cleanup => assert AllStages[6] == s;
    }
  }

  /** Rust's `PipelineError`: a stage and the error's rendered message
      (the `anyhow::Error` it carries is reduced to its text). */
  datatype PipelineError = PipelineError(stage: PipelineStage, error: string)

  /** Rust's `WithPipelineStage::with_stage`: a success passes through
      untouched, a failure is wrapped together with the given stage. */
  function WithStage<T>(r: Result<T, string>, stage: PipelineStage): (out: Result<T, PipelineError>)
    ensures out.Ok? <==> r.Ok?
    ensures r.Ok? ==> out.value == r.value
    ensures r.Err? ==> out.error.stage == stage && out.error.error == r.error
  {
    match r
    case Ok(v) => Ok(v)
    case Err(e) => Err(PipelineError(stage, e))
  }
}
