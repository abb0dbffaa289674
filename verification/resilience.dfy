/**
 * The per-stage retry engine: jittered exponential back-off, a timeout race,
 * and the bounded attempt loop of `retryStage`, written as a pure function
 * from what the world does on each attempt to the trace of effects the loop
 * performs and the value it returns or the error it throws.
 */
module Resilience {
  import opened Wrappers
  import opened Errors
  import opened Strings
  import opened PipelineStages

  /** `retryStage`'s default arguments, from `DEFAULT_STAGE_*` in the configuration. */
  const DefaultStageRetries: int := 3
  const DefaultStageBaseDelayMs: nat := 2000
  const DefaultStageTimeoutMs: nat := 60000

  // ---------------------------------------------------------------------
  // backoffDelay
  // ---------------------------------------------------------------------

  /** A value `Math.random()` can return: a real in [0, 1). */
  type RandomDraw = r: real | 0.0 <= r < 1.0

  /** `Math.floor(Math.random() * 500)`. */
  function Jitter(draw: RandomDraw): (j: nat)
    ensures j < 500
  {
    (draw * 500.0).Floor
  }

  /** Every jitter from 0 to 499 is produced by some draw, so the range is tight. */
  lemma JitterCoversRange(j: nat)
    requires j < 500
    ensures Jitter((j as real) / 500.0) == j
  {
    assert ((j as real) / 500.0) * 500.0 == j as real;
  }

  function Pow2(n: nat): (p: nat)
    ensures p >= 1
  {
    if n == 0 then 1 else 2 * Pow2(n - 1)
  }

  /** The exponential part of the delay before the retry that follows attempt `attempt`. */
  function Exponential(baseMs: nat, attempt: nat): nat
    requires attempt >= 1
  {
    baseMs * Pow2(attempt - 1)
  }

  /** `backoffDelay(baseMs, attempt)`, with the random draw as a parameter. */
  function BackoffDelay(baseMs: nat, attempt: nat, draw: RandomDraw): (d: nat)
    requires attempt >= 1
    ensures Exponential(baseMs, attempt) <= d <= Exponential(baseMs, attempt) + 499
  {
    baseMs * Pow2(attempt - 1) + Jitter(draw)
  }

  /** With the draw held fixed, the non-jitter part doubles from one attempt to the next. */
  lemma {:induction false} BackoffDoubles(baseMs: nat, attempt: nat, draw: RandomDraw)
    requires attempt >= 1
    ensures BackoffDelay(baseMs, attempt + 1, draw) - Jitter(draw)
         == 2 * (BackoffDelay(baseMs, attempt, draw) - Jitter(draw))
  {
    var p := Pow2(attempt - 1);
    assert Pow2(attempt) == 2 * p;
    assert baseMs * (2 * p) == 2 * (baseMs * p);
  }

  // ---------------------------------------------------------------------
  // withTimeout
  // ---------------------------------------------------------------------

  /** How a stage operation's promise settles. */
  datatype OpOutcome<T> = Fulfilled(value: T) | Rejected(error: JsError)

  /** Which side of the race wins: the operation settles first, or the timer fires first. */
  datatype Race<T> = Settled(outcome: OpOutcome<T>) | TimerFired

  /** The rejection `withTimeout` produces when its timer fires: a plain `Error` whose message starts with the tag. */
  function TimeoutError(tag: Option<string>, ms: nat): (e: JsError)
    ensures e.name == "Error" && tag.GetOr("operation") <= e.message
  {
    PlainError(tag.GetOr("operation") + " timed out after " + NatToString(ms) + " ms")
  }

  /**
   * `withTimeout(promise, ms, tag)`: the operation's own outcome when it
   * settles first, and otherwise the timeout rejection, whatever the
   * operation would later have produced.
   */
  function WithTimeout<T>(race: Race<T>, ms: nat, tag: Option<string>): (r: OpOutcome<T>)
    ensures race.Settled? ==> r == race.outcome
    ensures race.TimerFired? ==> r == Rejected(TimeoutError(tag, ms))
  {
    match race
    case Settled(outcome) => outcome
    case TimerFired => Rejected(TimeoutError(tag, ms))
  }

  /**
   * The timeout message names the operation and the duration: the tag
   * comes first, and the numeral before the closing " ms" reads back as `ms`.
   */
  lemma TimeoutMessageNamesLabelAndDuration(tag: string, ms: nat)
    ensures var m := TimeoutError(Some(tag), ms).message;
      && tag <= m
      && m[|tag|..|tag| + 17] == " timed out after "
      && EndsWith(m, " ms")
      && (forall i :: |tag| + 17 <= i < |m| - 3 ==> IsDigit(m[i]))
      && DecimalValue(m[|tag| + 17..|m| - 3]) == ms
  {
    var m := TimeoutError(Some(tag), ms).message;
    var digits := NatToString(ms);
    assert m == tag + " timed out after " + digits + " ms";
    assert m[|tag| + 17..|m| - 3] == digits;
    NatToStringRoundTrip(ms);
  }

  // ---------------------------------------------------------------------
  // The world an attempt loop runs in
  // ---------------------------------------------------------------------

  /** The outcome of one awaited `setStage` call: the store write succeeds or throws. */
  datatype Write = Written | WriteFailed(error: JsError)

  /**
   * What happens on one attempt: the "processing" write, the race between
   * `fn()` and the timer, the "done" write, and the `Math.random()` draw that
   * `backoffDelay` would use if this attempt fails.
   */
  datatype Attempt<T> = Attempt(processingWrite: Write, race: Race<T>, doneWrite: Write, draw: RandomDraw)

  /** What happens on every attempt, and whether the final "failed" write succeeds. */
  datatype World<T> = World(attempt: nat -> Attempt<T>, failedWrite: Write)

  /** An effect of the loop, in the order it is performed. */
  datatype Event =
    | StatusWrite(stage: int, status: Status, error: Option<string>)  // setStage(jobId, stage, status, error)
    | Invoke                                                          // fn()
    | Sleep(ms: nat)                                                  // sleep(ms)

  /** What `retryStage` throws: an `Error`, or `undefined` when the loop never ran. */
  datatype Thrown = Threw(error: JsError) | ThrewUndefined

  /** The effects performed and the value returned or the error thrown. */
  datatype Run<T> = Run(trace: seq<Event>, result: Result<T, Thrown>)

  /** One pass through the `try` block: its effects, and its value or the error caught. */
  datatype AttemptResult<T> =
    | Succeeded(events: seq<Event>, value: T)
    | FailedWith(events: seq<Event>, error: JsError)

  /**
   * The `try` block for one attempt. A throwing status write is caught like
   * a failing operation: a failed "processing" write means `fn` is not even
   * called, and a failed "done" write discards the value the operation
   * produced. A timer that fires first is a failure like a rejection.
   */
  function RunAttempt<T>(stage: int, a: Attempt<T>, timeoutMs: nat): (r: AttemptResult<T>)
    requires IsStageIndex(stage)
    ensures r.events == [StatusWrite(stage, Processing, None)]
         || r.events == [StatusWrite(stage, Processing, None), Invoke]
         || r.events == [StatusWrite(stage, Processing, None), Invoke, StatusWrite(stage, Done, None)]
    ensures Invoke in r.events <==> a.processingWrite == Written
    ensures r.Succeeded? <==> a.processingWrite == Written && a.race.Settled?
                              && a.race.outcome.Fulfilled? && a.doneWrite == Written
    ensures r.Succeeded? ==> r.value == a.race.outcome.value
    ensures StatusWrite(stage, Done, None) in r.events
        <==> a.processingWrite == Written && a.race.Settled? && a.race.outcome.Fulfilled?
    ensures a.processingWrite.WriteFailed? ==> r.FailedWith? && r.error == a.processingWrite.error
    ensures a.processingWrite == Written && a.race.TimerFired?
        ==> r.FailedWith? && r.error == TimeoutError(Some(StageLabel(stage)), timeoutMs)
    ensures a.processingWrite == Written && a.race.Settled? && a.race.outcome.Rejected?
        ==> r.FailedWith? && r.error == a.race.outcome.error
    ensures a.processingWrite == Written && a.race.Settled? && a.race.outcome.Fulfilled? && a.doneWrite.WriteFailed?
        ==> r.FailedWith? && r.error == a.doneWrite.error
  {
    var processing := StatusWrite(stage, Processing, None);
    match a.processingWrite
    case WriteFailed(e) => FailedWith([processing], e)
    case Written =>
      match WithTimeout(a.race, timeoutMs, Some(StageLabel(stage)))
      case Rejected(e) => FailedWith([processing, Invoke], e)
      case Fulfilled(v) =>
        var done := StatusWrite(stage, Done, None);
        match a.doneWrite
        case WriteFailed(e) => FailedWith([processing, Invoke, done], e)
        case Written => Succeeded([processing, Invoke, done], v)
  }

  /** A timed-out attempt fails with the stage's timeout error even if the operation would have succeeded. */
  lemma TimedOutAttemptFails<T>(stage: int, a: Attempt<T>, timeoutMs: nat)
    requires IsStageIndex(stage)
    requires a.processingWrite == Written && a.race == TimerFired
    ensures RunAttempt(stage, a, timeoutMs)
         == FailedWith([StatusWrite(stage, Processing, None), Invoke],
                       TimeoutError(Some(StageLabel(stage)), timeoutMs))
  {
  }

  /** A throwing "processing" write fails the attempt before `fn` is called. */
  lemma ProcessingWriteFailureFails<T>(stage: int, a: Attempt<T>, timeoutMs: nat)
    requires IsStageIndex(stage)
    requires a.processingWrite.WriteFailed?
    ensures RunAttempt(stage, a, timeoutMs)
         == FailedWith([StatusWrite(stage, Processing, None)], a.processingWrite.error)
  {
  }

  /** A rejection of `fn` before the timer fires fails the attempt with that rejection, and nothing is marked done. */
  lemma RejectedAttemptFails<T>(stage: int, a: Attempt<T>, timeoutMs: nat)
    requires IsStageIndex(stage)
    requires a.processingWrite == Written && a.race.Settled? && a.race.outcome.Rejected?
    ensures RunAttempt(stage, a, timeoutMs)
         == FailedWith([StatusWrite(stage, Processing, None), Invoke], a.race.outcome.error)
  {
  }

  /** A throwing "done" write discards the value `fn` produced and fails the attempt with the write's error. */
  lemma DoneWriteFailureFails<T>(stage: int, a: Attempt<T>, timeoutMs: nat)
    requires IsStageIndex(stage)
    requires a.processingWrite == Written && a.race.Settled? && a.race.outcome.Fulfilled?
    requires a.doneWrite.WriteFailed?
    ensures RunAttempt(stage, a, timeoutMs)
         == FailedWith([StatusWrite(stage, Processing, None), Invoke, StatusWrite(stage, Done, None)],
                       a.doneWrite.error)
  {
  }

  predicate SucceedsAt<T>(stage: int, world: World<T>, timeoutMs: nat, k: nat)
    requires IsStageIndex(stage)
  {
    RunAttempt(stage, world.attempt(k), timeoutMs).Succeeded?
  }

  /** The error attempt `k` fails with. */
  function ErrorAt<T>(stage: int, world: World<T>, timeoutMs: nat, k: nat): JsError
    requires IsStageIndex(stage)
    requires !SucceedsAt(stage, world, timeoutMs, k)
  {
    RunAttempt(stage, world.attempt(k), timeoutMs).error
  }

  // ---------------------------------------------------------------------
  // retryStage
  // ---------------------------------------------------------------------

  /**
   * The `for` loop of `retryStage` from attempt `k` on. A failed attempt
   * before the last sleeps `backoffDelay(baseMs, k)` and goes on; a failed
   * last attempt writes "failed" with the error's text and throws a fresh
   * `Error` carrying that text, unless the "failed" write itself throws.
   */
  function AttemptsFrom<T>(stage: int, world: World<T>, attempts: int, baseMs: nat, timeoutMs: nat, k: nat): (r: Run<T>)
    requires IsStageIndex(stage)
    requires 1 <= k <= attempts
    ensures |r.trace| >= 1 && r.trace[0] == StatusWrite(stage, Processing, None)
    decreases attempts - k
  {
    match RunAttempt(stage, world.attempt(k), timeoutMs)
    case Succeeded(events, v) => Run(events, Success(v))
    case FailedWith(events, e) =>
      if k < attempts then
        var rest := AttemptsFrom(stage, world, attempts, baseMs, timeoutMs, k + 1);
        Run(events + [Sleep(BackoffDelay(baseMs, k, world.attempt(k).draw))] + rest.trace, rest.result)
      else
        var text := ErrorText(e);
        var thrown := match world.failedWrite
          case WriteFailed(writeError) => writeError
          case Written => PlainError(text);
        Run(events + [StatusWrite(stage, Failed, Some(text))], Failure(Threw(thrown)))
  }

  /**
   * `retryStage(jobId, stageIndex, fn, attempts, baseDelayMs, timeoutMs)`.
   * Looking up the stage name throws before anything happens when the index
   * is not a stage; with fewer than one attempt the loop never runs and the
   * still-undefined `lastError` is thrown.
   */
  function RetryStage<T>(stage: int, world: World<T>, attempts: int, baseMs: nat, timeoutMs: nat): (r: Run<T>)
    ensures !IsStageIndex(stage) ==> r == Run([], Failure(Threw(StageLookupError)))
    ensures IsStageIndex(stage) && attempts < 1 ==> r == Run([], Failure(ThrewUndefined))
    ensures IsStageIndex(stage) && attempts >= 1 ==> r.trace != [] && r.trace[0] == StatusWrite(stage, Processing, None)
  {
    if !IsStageIndex(stage) then Run([], Failure(Threw(StageLookupError)))
    else if attempts < 1 then Run([], Failure(ThrewUndefined))
    else AttemptsFrom(stage, world, attempts, baseMs, timeoutMs, 1)
  }

  /** `retryStage` called without the optional arguments. */
  function RetryStageWithDefaults<T>(stage: int, world: World<T>): Run<T>
  {
    RetryStage(stage, world, DefaultStageRetries, DefaultStageBaseDelayMs, DefaultStageTimeoutMs)
  }
}
