/**
 * The stage catalogue of the evaluation pipeline: the ordered stage list
 * with the progress each stage reports, the per-stage resilience policy,
 * and the status patch written to the job record for a stage.
 */
module PipelineStages {
  import opened Wrappers
  import opened Errors

  /** The `StageName` union: one constructor per string literal. */
  datatype StageName =
    | DownloadFiles
    | ParsePdfText
    | GenerateEmbeddings
    | RetrieveContext
    | EvaluateCv
    | EvaluateProject
    | SummarizeEvaluation
    | CombineEvaluations
    | SanitizeResponse
    | SaveEvaluation
  {
    /** The string literal this member of the union stands for. */
    function Label(): string
    {
      match this
      case DownloadFiles => "Download files and extract text"
      case ParsePdfText => "Parse text from PDF buffers"
      case GenerateEmbeddings => "Generate embeddings"
      case RetrieveContext => "Retrieve context from Zilliz"
      case EvaluateCv => "Call Gemini for CV evaluation"
      case EvaluateProject => "Call Gemini for Project evaluation"
      case SummarizeEvaluation => "Summarize evaluation"
      case CombineEvaluations => "Combine evaluations"
      case SanitizeResponse => "Sanitize Gemini response"
      case SaveEvaluation => "Save evaluation to Firestore"
    }
  }

  /** Reads a string back as a member of the `StageName` union, if it is one. */
  function ParseStageName(s: string): (r: Option<StageName>)
    ensures r.Some? ==> r.value.Label() == s
  {
    if s == "Download files and extract text" then Some(DownloadFiles)
    else if s == "Parse text from PDF buffers" then Some(ParsePdfText)
    else if s == "Generate embeddings" then Some(GenerateEmbeddings)
    else if s == "Retrieve context from Zilliz" then Some(RetrieveContext)
    else if s == "Call Gemini for CV evaluation" then Some(EvaluateCv)
    else if s == "Call Gemini for Project evaluation" then Some(EvaluateProject)
    else if s == "Summarize evaluation" then Some(SummarizeEvaluation)
    else if s == "Combine evaluations" then Some(CombineEvaluations)
    else if s == "Sanitize Gemini response" then Some(SanitizeResponse)
    else if s == "Save evaluation to Firestore" then Some(SaveEvaluation)
    else None
  }

  /**
   * Every stage label reads back as its own stage, so no two members of the
   * union share a label.
   */
  lemma LabelRoundTrip(n: StageName)
    ensures ParseStageName(n.Label()) == Some(n)
  {
    match n
    case DownloadFiles =>
    case ParsePdfText =>
    case GenerateEmbeddings =>
      assert "Generate embeddings"[0] != "Combine evaluations"[0];
    case RetrieveContext =>
    case EvaluateCv =>
    case EvaluateProject =>
    case SummarizeEvaluation =>
      LabelRoundTripSummarizeCombine(n);
    case CombineEvaluations =>
      LabelRoundTripSummarizeCombine(n);
    case SanitizeResponse =>
      LabelRoundTripSanitizeSave(n);
    case SaveEvaluation =>
      LabelRoundTripSanitizeSave(n);
  }

  /** The round trip for the seventh and eighth stages, which the parser reaches after six failed comparisons. */
  lemma LabelRoundTripSummarizeCombine(n: StageName)
    requires n.SummarizeEvaluation? || n.CombineEvaluations?
    ensures ParseStageName(n.Label()) == Some(n)
  {
    if n.CombineEvaluations? {
      assert "Generate embeddings"[0] != "Combine evaluations"[0];
    }
  }

  /** The round trip for the last two stages. */
  lemma LabelRoundTripSanitizeSave(n: StageName)
    requires n.SanitizeResponse? || n.SaveEvaluation?
    ensures ParseStageName(n.Label()) == Some(n)
  {
    if n.SaveEvaluation? {
      assert "Save evaluation to Firestore"[0] != "Retrieve context from Zilliz"[0];
    }
  }

  lemma LabelsDistinct(a: StageName, b: StageName)
    ensures a != b ==> a.Label() != b.Label()
  {
    LabelRoundTrip(a);
    LabelRoundTrip(b);
  }

  /** An entry of `STAGES`: a stage and the progress percentage it reports. */
  datatype Stage = Stage(name: StageName, progress: nat)

  /** `STAGES`, in pipeline order. */
  const Stages: seq<Stage> := [
    Stage(DownloadFiles, 10),
    Stage(ParsePdfText, 20),
    Stage(GenerateEmbeddings, 30),
    Stage(RetrieveContext, 40),
    Stage(EvaluateCv, 55),
    Stage(EvaluateProject, 70),
    Stage(SummarizeEvaluation, 80),
    Stage(CombineEvaluations, 90),
    Stage(SanitizeResponse, 95),
    Stage(SaveEvaluation, 100)
  ]

  /** A valid index into `STAGES`. */
  predicate IsStageIndex(i: int)
  {
    0 <= i < |Stages|
  }

  /** The label `STAGES[i].name`. */
  function StageLabel(i: int): string
    requires IsStageIndex(i)
  {
    Stages[i].name.Label()
  }

  /** `STAGES` has ten entries whose progress rises strictly from 10 to 100. */
  lemma StagesProgressIncreasing()
    ensures |Stages| == 10
    ensures Stages[0].progress == 10 && Stages[|Stages| - 1].progress == 100
    ensures forall i, j :: 0 <= i < j < |Stages| ==> Stages[i].progress < Stages[j].progress
  {
  }

  /** The stages of `STAGES` are pairwise distinct, and so are their labels. */
  lemma StagesDistinct()
    ensures forall i, j :: 0 <= i < j < |Stages| ==> Stages[i].name != Stages[j].name
    ensures forall i, j :: 0 <= i < j < |Stages| ==> StageLabel(i) != StageLabel(j)
  {
    forall i, j | 0 <= i < j < |Stages|
      ensures StageLabel(i) != StageLabel(j)
    {
      LabelsDistinct(Stages[i].name, Stages[j].name);
    }
  }

  /** The position of a member of the union in `STAGES`. */
  function IndexOf(n: StageName): (i: int)
    ensures IsStageIndex(i) && Stages[i].name == n
  {
    match n
    case DownloadFiles => 0
    case ParsePdfText => 1
    case GenerateEmbeddings => 2
    case RetrieveContext => 3
    case EvaluateCv => 4
    case EvaluateProject => 5
    case SummarizeEvaluation => 6
    case CombineEvaluations => 7
    case SanitizeResponse => 8
    case SaveEvaluation => 9
  }

  /** `IndexOf` inverts the table: `STAGES` lists every member of the union exactly once. */
  lemma IndexOfInvertsStages(i: int)
    requires IsStageIndex(i)
    ensures IndexOf(Stages[i].name) == i
  {
    StagesDistinct();
  }

  /** One entry of `STAGE_CONFIG`. */
  datatype StagePolicy = StagePolicy(attempts: int, baseDelayMs: int, timeoutMs: int, fallback: bool)

  /** `STAGE_CONFIG`: the per-stage retry, back-off, timeout and fallback tuning. */
  const StageConfig: map<StageName, StagePolicy> := map[
    DownloadFiles := StagePolicy(2, 1000, 30000, false),
    ParsePdfText := StagePolicy(2, 1000, 30000, false),
    GenerateEmbeddings := StagePolicy(3, 2000, 60000, false),
    RetrieveContext := StagePolicy(3, 2000, 45000, false),
    EvaluateCv := StagePolicy(3, 3000, 90000, false),
    EvaluateProject := StagePolicy(3, 3000, 90000, false),
    SummarizeEvaluation := StagePolicy(2, 2000, 60000, true),
    CombineEvaluations := StagePolicy(2, 1000, 30000, false),
    SanitizeResponse := StagePolicy(2, 1000, 15000, false),
    SaveEvaluation := StagePolicy(3, 1000, 15000, false)
  ]

  /**
   * Every stage has a policy with 2 or 3 attempts, a positive back-off base
   * of 1 to 3 seconds and a positive timeout of 15 to 90 seconds.
   */
  lemma StageConfigCoversStages()
    ensures forall i :: IsStageIndex(i) ==> Stages[i].name in StageConfig
    ensures forall n :: n in StageConfig ==>
      && StageConfig[n].attempts in {2, 3}
      && 0 < 1000 <= StageConfig[n].baseDelayMs <= 3000
      && 0 < 15000 <= StageConfig[n].timeoutMs <= 90000
  {
  }

  /** Exactly one stage, "Summarize evaluation", may fall back. */
  lemma OnlySummarizeFallsBack()
    ensures forall n :: n in StageConfig ==> (StageConfig[n].fallback <==> n == SummarizeEvaluation)
    ensures (set n | n in StageConfig && StageConfig[n].fallback) == {SummarizeEvaluation}
  {
  }

  /**
   * The status argument of `setStage`. Its declared type lists "running",
   * "done" and "failed"; the retry loop passes "processing" as well.
   */
  datatype Status = Running | Processing | Done | Failed

  /** The status patch for the job record (`updatedAt` is left out). */
  datatype Patch = Patch(stage: string, progress: nat, status: Status, error: Option<string>)

  /** What reading `.name` of `STAGES[i]` throws when `i` is not an index. */
  const StageLookupError: JsError := JsError("TypeError", "Cannot read properties of undefined (reading 'name')")

  /**
   * `setStage(jobId, stageIndex, status, error)`: the patch it hands to the
   * store. Any status other than "failed" is recorded as "processing", and
   * the error is attached only when it is a non-empty string.
   */
  function SetStage(stageIndex: int, status: Status, error: Option<string>): (r: Result<Patch, JsError>)
    ensures r.Success? <==> IsStageIndex(stageIndex)
    ensures r.Failure? ==> r.error == StageLookupError
    ensures r.Success? ==>
      && r.value.stage == StageLabel(stageIndex)
      && r.value.progress == Stages[stageIndex].progress
      && (r.value.status == Failed <==> status == Failed)
      && r.value.status in {Failed, Processing}
      && (r.value.error.Some? <==> error.Some? && error.value != "")
      && (r.value.error.Some? ==> r.value.error == error)
  {
    if !IsStageIndex(stageIndex) then Failure(StageLookupError)
    else
      var stage := Stages[stageIndex];
      var patch := Patch(
        stage.name.Label(),
        stage.progress,
        if status == Failed then Failed else Processing,
        if error.Some? && error.value != "" then error else None);
      Success(patch)
  }

  /** The patch names its stage unambiguously: two patches with one label come from one index. */
  lemma SetStageIdentifiesStage(i: int, j: int, s: Status, t: Status, e: Option<string>, f: Option<string>)
    requires SetStage(i, s, e).Success? && SetStage(j, t, f).Success?
    requires SetStage(i, s, e).value.stage == SetStage(j, t, f).value.stage
    ensures i == j
  {
    StagesDistinct();
  }

  /** Later stages report strictly more progress. */
  lemma SetStageProgressIncreases(i: int, j: int, s: Status, t: Status, e: Option<string>, f: Option<string>)
    requires SetStage(i, s, e).Success? && SetStage(j, t, f).Success?
    requires i < j
    ensures SetStage(i, s, e).value.progress < SetStage(j, t, f).value.progress
  {
    StagesProgressIncreasing();
  }

  /**
   * A "done" write is indistinguishable in the store from a "processing" or
   * "running" write of the same stage: only "failed" changes the status.
   */
  lemma SetStageDoneLooksLikeProcessing(i: int, e: Option<string>)
    ensures SetStage(i, Done, e) == SetStage(i, Processing, e) == SetStage(i, Running, e)
    ensures SetStage(i, Done, e) != SetStage(i, Failed, e) || !IsStageIndex(i)
  {
  }
}
