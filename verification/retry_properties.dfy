/**
 * What `retryStage`'s trace and result promise: how many times the operation
 * runs, where status writes and sleeps fall, how long the sleeps are, and
 * which error is thrown when every attempt fails.
 */
module RetryProperties {
  import opened Wrappers
  import opened Errors
  import opened PipelineStages
  import opened Resilience

  // ---------------------------------------------------------------------
  // Reading a trace
  // ---------------------------------------------------------------------

  /** The kind of an event, forgetting its arguments except the status written. */
  datatype EventKind = InvokeKind | SleepKind | WriteKind(status: Status)

  function KindOf(e: Event): EventKind
  {
    match e
    case Invoke => InvokeKind
    case Sleep(_) => SleepKind
    case StatusWrite(_, status, _) => WriteKind(status)
  }

  /** How many events of kind `kind` the trace holds. */
  function Count(t: seq<Event>, kind: EventKind): nat
  {
    if |t| == 0 then 0
    else (if KindOf(t[0]) == kind then 1 else 0) + Count(t[1..], kind)
  }

  lemma {:induction false} CountAppend(a: seq<Event>, b: seq<Event>, kind: EventKind)
    ensures Count(a + b, kind) == Count(a, kind) + Count(b, kind)
  {
    if |a| == 0 {
      assert a + b == b;
    } else {
      assert (a + b)[1..] == a[1..] + b;
      CountAppend(a[1..], b, kind);
    }
  }

  /** The durations slept, in order. */
  function SleepDurations(t: seq<Event>): seq<nat>
  {
    if |t| == 0 then []
    else (if t[0].Sleep? then [t[0].ms] else []) + SleepDurations(t[1..])
  }

  lemma {:induction false} SleepDurationsAppend(a: seq<Event>, b: seq<Event>)
    ensures SleepDurations(a + b) == SleepDurations(a) + SleepDurations(b)
  {
    if |a| == 0 {
      assert a + b == b;
    } else {
      assert (a + b)[1..] == a[1..] + b;
      SleepDurationsAppend(a[1..], b);
    }
  }

  function Sum(s: seq<nat>): nat
  {
    if |s| == 0 then 0 else s[0] + Sum(s[1..])
  }

  /** Counting across a sleep that joins two pieces of trace. */
  lemma JoinThroughSleep(ev: seq<Event>, d: nat, rest: seq<Event>)
    ensures forall kind :: Count(ev + [Sleep(d)] + rest, kind)
                        == Count(ev, kind) + (if kind == SleepKind then 1 else 0) + Count(rest, kind)
    ensures SleepDurations(ev + [Sleep(d)] + rest) == SleepDurations(ev) + [d] + SleepDurations(rest)
  {
    forall kind
      ensures Count(ev + [Sleep(d)] + rest, kind)
           == Count(ev, kind) + (if kind == SleepKind then 1 else 0) + Count(rest, kind)
    {
      CountAppend(ev + [Sleep(d)], rest, kind);
      CountAppend(ev, [Sleep(d)], kind);
      assert [Sleep(d)][1..] == [];
    }
    assert [Sleep(d)][1..] == [];
    SleepDurationsAppend(ev + [Sleep(d)], rest);
    SleepDurationsAppend(ev, [Sleep(d)]);
  }

  /** Counting across a final write. */
  lemma JoinFinalWrite(ev: seq<Event>, w: Event)
    requires w.StatusWrite?
    ensures forall kind :: Count(ev + [w], kind) == Count(ev, kind) + (if kind == KindOf(w) then 1 else 0)
    ensures SleepDurations(ev + [w]) == SleepDurations(ev)
    ensures (ev + [w])[|ev|] == w
  {
    forall kind
      ensures Count(ev + [w], kind) == Count(ev, kind) + (if kind == KindOf(w) then 1 else 0)
    {
      CountAppend(ev, [w], kind);
      assert [w][1..] == [];
    }
    assert [w][1..] == [];
    SleepDurationsAppend(ev, [w]);
  }

  /** A failed attempt before the last: its effects, a sleep, then the rest of the loop. */
  lemma UnfoldFailedAttempt<T>(stage: int, world: World<T>, attempts: int, baseMs: nat, timeoutMs: nat, k: nat)
    requires IsStageIndex(stage)
    requires 1 <= k < attempts
    requires !SucceedsAt(stage, world, timeoutMs, k)
    ensures var r := AttemptsFrom(stage, world, attempts, baseMs, timeoutMs, k);
      var rest := AttemptsFrom(stage, world, attempts, baseMs, timeoutMs, k + 1);
      && r.trace == RunAttempt(stage, world.attempt(k), timeoutMs).events
                    + [Sleep(BackoffDelay(baseMs, k, world.attempt(k).draw))] + rest.trace
      && r.result == rest.result
  {
  }

  /** A failed last attempt: its effects, then the "failed" write. */
  lemma UnfoldLastAttempt<T>(stage: int, world: World<T>, attempts: int, baseMs: nat, timeoutMs: nat)
    requires IsStageIndex(stage)
    requires 1 <= attempts
    requires !SucceedsAt(stage, world, timeoutMs, attempts)
    ensures var r := AttemptsFrom(stage, world, attempts, baseMs, timeoutMs, attempts);
      var e := ErrorAt(stage, world, timeoutMs, attempts);
      && r.trace == RunAttempt(stage, world.attempt(attempts), timeoutMs).events
                    + [StatusWrite(stage, Failed, Some(ErrorText(e)))]
      && r.result == Failure(Threw(ExhaustedError(world, e)))
  {
  }

  /** A successful attempt ends the loop with its own effects and value. */
  lemma UnfoldSucceededAttempt<T>(stage: int, world: World<T>, attempts: int, baseMs: nat, timeoutMs: nat, k: nat)
    requires IsStageIndex(stage)
    requires 1 <= k <= attempts
    requires SucceedsAt(stage, world, timeoutMs, k)
    ensures var r := AttemptsFrom(stage, world, attempts, baseMs, timeoutMs, k);
      && r.trace == RunAttempt(stage, world.attempt(k), timeoutMs).events
      && r.result == Success(world.attempt(k).race.outcome.value)
  {
  }

  /** What one attempt's effects contribute: one "processing" write, at most one call, no "failed" write, no sleep. */
  predicate AttemptShaped(ev: seq<Event>)
  {
    && Count(ev, WriteKind(Processing)) == 1
    && Count(ev, InvokeKind) <= 1
    && Count(ev, WriteKind(Failed)) == 0
    && SleepDurations(ev) == []
  }

  /** The counts of one attempt's effects. */
  lemma AttemptCounts<T>(stage: int, a: Attempt<T>, timeoutMs: nat)
    requires IsStageIndex(stage)
    ensures var ev := RunAttempt(stage, a, timeoutMs).events;
      && AttemptShaped(ev)
      && Count(ev, InvokeKind) == (if a.processingWrite == Written then 1 else 0)
  {
    var ev := RunAttempt(stage, a, timeoutMs).events;
    var p := StatusWrite(stage, Processing, None);
    var d := StatusWrite(stage, Done, None);
    CountLiterals(p, Invoke, d);
  }

  function Ind(e: Event, kind: EventKind): nat
  {
    if KindOf(e) == kind then 1 else 0
  }

  /** Counts in traces of one, two and three events. */
  lemma CountLiterals(x: Event, y: Event, z: Event)
    ensures forall kind :: Count([x], kind) == Ind(x, kind)
    ensures forall kind :: Count([x, y], kind) == Ind(x, kind) + Ind(y, kind)
    ensures forall kind :: Count([x, y, z], kind) == Ind(x, kind) + Ind(y, kind) + Ind(z, kind)
    ensures !x.Sleep? && !y.Sleep? && !z.Sleep? ==>
      SleepDurations([x]) == [] && SleepDurations([x, y]) == [] && SleepDurations([x, y, z]) == []
  {
    assert [x] == [x] + [];
    assert [x, y] == [x] + ([y] + []);
    assert [x, y, z] == [x] + ([y] + ([z] + []));
    forall kind
      ensures Count([x], kind) == Ind(x, kind)
      ensures Count([x, y], kind) == Ind(x, kind) + Ind(y, kind)
      ensures Count([x, y, z], kind) == Ind(x, kind) + Ind(y, kind) + Ind(z, kind)
    {
      CountCons(x, [], kind);
      CountCons(x, [y] + [], kind);
      CountCons(y, [], kind);
      CountCons(x, [y] + ([z] + []), kind);
      CountCons(y, [z] + [], kind);
      CountCons(z, [], kind);
    }
    CountCons(x, [], InvokeKind);
    CountCons(x, [y] + [], InvokeKind);
    CountCons(y, [], InvokeKind);
    CountCons(x, [y] + ([z] + []), InvokeKind);
    CountCons(y, [z] + [], InvokeKind);
    CountCons(z, [], InvokeKind);
  }

  lemma CountCons(e: Event, t: seq<Event>, kind: EventKind)
    ensures Count([e] + t, kind) == (if KindOf(e) == kind then 1 else 0) + Count(t, kind)
    ensures SleepDurations([e] + t) == (if e.Sleep? then [e.ms] else []) + SleepDurations(t)
  {
    assert ([e] + t)[1..] == t;
  }

  // ---------------------------------------------------------------------
  // Where each effect may appear
  // ---------------------------------------------------------------------

  /**
   * The neighbourhood of event `p`: `fn()` is called right after a
   * "processing" write, a "done" write comes right after `fn()`, a sleep is
   * followed by the next attempt's "processing" write (so a sleep is never
   * last), and a "failed" write, carrying an error text, is the last event.
   * Every write is for `stage`.
   */
  predicate LocallyOrdered(t: seq<Event>, stage: int, p: int)
    requires 0 <= p < |t|
  {
    match t[p]
    case Invoke => 0 < p && t[p - 1] == StatusWrite(stage, Processing, None)
    case Sleep(_) => p + 1 < |t| && t[p + 1] == StatusWrite(stage, Processing, None)
    case StatusWrite(s, status, error) =>
      && s == stage
      && status != Running
      && (status == Processing ==> error == None)
      && (status == Done ==> 0 < p && t[p - 1] == Invoke && error == None)
      && (status == Failed ==> p == |t| - 1 && error.Some?)
  }

  predicate WellOrdered(t: seq<Event>, stage: int)
  {
    forall p :: 0 <= p < |t| ==> LocallyOrdered(t, stage, p)
  }

  /** One attempt followed by a sleep, then a well-ordered rest, is well ordered. */
  lemma OrderedThroughSleep<T>(stage: int, a: Attempt<T>, timeoutMs: nat, d: nat, rest: seq<Event>)
    requires IsStageIndex(stage)
    requires WellOrdered(rest, stage) && |rest| > 0 && rest[0] == StatusWrite(stage, Processing, None)
    ensures WellOrdered(RunAttempt(stage, a, timeoutMs).events + [Sleep(d)] + rest, stage)
  {
    var pre := RunAttempt(stage, a, timeoutMs).events + [Sleep(d)];
    var t := pre + rest;
    forall p | 0 <= p < |t|
      ensures LocallyOrdered(t, stage, p)
    {
      if p >= |pre| {
        assert LocallyOrdered(rest, stage, p - |pre|);
        assert t[p] == rest[p - |pre|];
        if p > |pre| {
          assert t[p - 1] == rest[p - 1 - |pre|];
        }
        if p + 1 < |t| {
          assert t[p + 1] == rest[p + 1 - |pre|];
        }
      } else if p == |pre| - 1 {
        assert t[p + 1] == rest[0];
      } else {
        assert t[p] == pre[p];
        if p > 0 {
          assert t[p - 1] == pre[p - 1];
        }
        assert t[p + 1] == pre[p + 1];
      }
    }
  }

  /** One attempt followed by the "failed" write is well ordered. */
  lemma OrderedThroughFailure<T>(stage: int, a: Attempt<T>, timeoutMs: nat, text: string)
    requires IsStageIndex(stage)
    ensures WellOrdered(RunAttempt(stage, a, timeoutMs).events + [StatusWrite(stage, Failed, Some(text))], stage)
  {
  }

  /** Every trace of the loop from attempt `k` is well ordered. */
  lemma {:induction false} AttemptsFromOrdered<T>(stage: int, world: World<T>, attempts: int, baseMs: nat, timeoutMs: nat, k: nat)
    requires IsStageIndex(stage)
    requires 1 <= k <= attempts
    ensures WellOrdered(AttemptsFrom(stage, world, attempts, baseMs, timeoutMs, k).trace, stage)
    decreases attempts - k
  {
    var a := world.attempt(k);
    var step := RunAttempt(stage, a, timeoutMs);
    if step.FailedWith? {
      if k < attempts {
        var rest := AttemptsFrom(stage, world, attempts, baseMs, timeoutMs, k + 1);
        AttemptsFromOrdered(stage, world, attempts, baseMs, timeoutMs, k + 1);
        OrderedThroughSleep(stage, a, timeoutMs, BackoffDelay(baseMs, k, a.draw), rest.trace);
      } else {
        OrderedThroughFailure(stage, a, timeoutMs, ErrorText(step.error));
      }
    }
  }

  /**
   * In every trace of `retryStage`, each call of `fn` comes right after a
   * "processing" write for the same stage, each "done" write right after a
   * call of `fn`, each sleep right before the next attempt's "processing"
   * write, and a "failed" write only as the very last effect.
   */
  lemma RetryStageOrdered<T>(stage: int, world: World<T>, attempts: int, baseMs: nat, timeoutMs: nat)
    ensures WellOrdered(RetryStage(stage, world, attempts, baseMs, timeoutMs).trace, stage)
  {
    if IsStageIndex(stage) && attempts >= 1 {
      AttemptsFromOrdered(stage, world, attempts, baseMs, timeoutMs, 1);
    }
  }

  // ---------------------------------------------------------------------
  // Counting attempts and sleeps
  // ---------------------------------------------------------------------

  /**
   * The counts in a loop trace of at most `n` attempts: at least one and at
   * most `n` "processing" writes, no more calls of `fn` than that, at most
   * one "failed" write, and one sleep between consecutive attempts.
   */
  predicate CountsHold(t: seq<Event>, n: int)
  {
    && 1 <= Count(t, WriteKind(Processing)) <= n
    && Count(t, InvokeKind) <= Count(t, WriteKind(Processing))
    && Count(t, WriteKind(Failed)) <= 1
    && |SleepDurations(t)| == Count(t, WriteKind(Processing)) - 1
  }

  lemma CountsThroughSleep(ev: seq<Event>, d: nat, rest: seq<Event>, n: int)
    requires AttemptShaped(ev) && CountsHold(rest, n)
    ensures CountsHold(ev + [Sleep(d)] + rest, n + 1)
  {
    JoinThroughSleep(ev, d, rest);
  }

  lemma CountsThroughFailedWrite(ev: seq<Event>, w: Event)
    requires AttemptShaped(ev) && w.StatusWrite? && w.status == Failed
    ensures CountsHold(ev + [w], 1)
  {
    JoinFinalWrite(ev, w);
  }

  /** From attempt `k` on, the counts hold for at most `attempts - k + 1` attempts. */
  lemma {:induction false} AttemptsFromCounts<T>(stage: int, world: World<T>, attempts: int, baseMs: nat, timeoutMs: nat, k: nat)
    requires IsStageIndex(stage)
    requires 1 <= k <= attempts
    ensures CountsHold(AttemptsFrom(stage, world, attempts, baseMs, timeoutMs, k).trace, attempts - k + 1)
    decreases attempts - k
  {
    if !SucceedsAt(stage, world, timeoutMs, k) && k < attempts {
      AttemptsFromCounts(stage, world, attempts, baseMs, timeoutMs, k + 1);
      CountsStep(stage, world, attempts, baseMs, timeoutMs, k);
    } else {
      LoopEnd(stage, world, attempts, baseMs, timeoutMs, k);
    }
  }

  lemma CountsStep<T>(stage: int, world: World<T>, attempts: int, baseMs: nat, timeoutMs: nat, k: nat)
    requires IsStageIndex(stage)
    requires 1 <= k < attempts
    requires !SucceedsAt(stage, world, timeoutMs, k)
    requires CountsHold(AttemptsFrom(stage, world, attempts, baseMs, timeoutMs, k + 1).trace, attempts - k)
    ensures CountsHold(AttemptsFrom(stage, world, attempts, baseMs, timeoutMs, k).trace, attempts - k + 1)
  {
    var a := world.attempt(k);
    AttemptCounts(stage, a, timeoutMs);
    UnfoldFailedAttempt(stage, world, attempts, baseMs, timeoutMs, k);
    var rest := AttemptsFrom(stage, world, attempts, baseMs, timeoutMs, k + 1).trace;
    CountsThroughSleep(RunAttempt(stage, a, timeoutMs).events, BackoffDelay(baseMs, k, a.draw), rest, attempts - k);
  }

  /** The attempt that ends the loop: a success, or the failed last attempt. */
  lemma LoopEnd<T>(stage: int, world: World<T>, attempts: int, baseMs: nat, timeoutMs: nat, k: nat)
    requires IsStageIndex(stage)
    requires 1 <= k <= attempts
    requires SucceedsAt(stage, world, timeoutMs, k) || k == attempts
    ensures CountsHold(AttemptsFrom(stage, world, attempts, baseMs, timeoutMs, k).trace, attempts - k + 1)
    ensures SleepDurations(AttemptsFrom(stage, world, attempts, baseMs, timeoutMs, k).trace) == []
  {
    var ev := RunAttempt(stage, world.attempt(k), timeoutMs).events;
    AttemptCounts(stage, world.attempt(k), timeoutMs);
    if SucceedsAt(stage, world, timeoutMs, k) {
      UnfoldSucceededAttempt(stage, world, attempts, baseMs, timeoutMs, k);
    } else {
      UnfoldLastAttempt(stage, world, attempts, baseMs, timeoutMs);
      CountsThroughFailedWrite(ev, StatusWrite(stage, Failed, Some(ErrorText(ErrorAt(stage, world, timeoutMs, k)))));
    }
  }

  /** The i-th sleep of `t` lasts `backoffDelay(baseMs, k + i)` with the draw of attempt `k + i`. */
  predicate SleepsFollowBackoff<T>(t: seq<Event>, world: World<T>, baseMs: nat, k: nat)
    requires k >= 1
  {
    forall i :: 0 <= i < |SleepDurations(t)| ==>
      SleepDurations(t)[i] == BackoffDelay(baseMs, k + i, world.attempt(k + i).draw)
  }

  lemma SleepsThroughSleep<T>(ev: seq<Event>, rest: seq<Event>, world: World<T>, baseMs: nat, k: nat)
    requires k >= 1
    requires SleepDurations(ev) == []
    requires SleepsFollowBackoff(rest, world, baseMs, k + 1)
    ensures SleepsFollowBackoff(ev + [Sleep(BackoffDelay(baseMs, k, world.attempt(k).draw))] + rest, world, baseMs, k)
  {
    var d := BackoffDelay(baseMs, k, world.attempt(k).draw);
    JoinThroughSleep(ev, d, rest);
    var t := ev + [Sleep(d)] + rest;
    assert SleepDurations(t) == [d] + SleepDurations(rest);
    forall i | 0 < i < |SleepDurations(t)|
      ensures SleepDurations(t)[i] == BackoffDelay(baseMs, k + i, world.attempt(k + i).draw)
    {
      assert SleepDurations(t)[i] == SleepDurations(rest)[i - 1];
      assert (k + 1) + (i - 1) == k + i;
    }
  }

  /** The i-th sleep from attempt `k` on lasts `backoffDelay(baseMs, k + i)` with that attempt's draw. */
  lemma {:induction false} AttemptsFromSleepDurations<T>(stage: int, world: World<T>, attempts: int, baseMs: nat, timeoutMs: nat, k: nat)
    requires IsStageIndex(stage)
    requires 1 <= k <= attempts
    ensures SleepsFollowBackoff(AttemptsFrom(stage, world, attempts, baseMs, timeoutMs, k).trace, world, baseMs, k)
    decreases attempts - k
  {
    if !SucceedsAt(stage, world, timeoutMs, k) && k < attempts {
      AttemptsFromSleepDurations(stage, world, attempts, baseMs, timeoutMs, k + 1);
      SleepsStep(stage, world, attempts, baseMs, timeoutMs, k);
    } else {
      LoopEnd(stage, world, attempts, baseMs, timeoutMs, k);
    }
  }

  lemma SleepsStep<T>(stage: int, world: World<T>, attempts: int, baseMs: nat, timeoutMs: nat, k: nat)
    requires IsStageIndex(stage)
    requires 1 <= k < attempts
    requires !SucceedsAt(stage, world, timeoutMs, k)
    requires SleepsFollowBackoff(AttemptsFrom(stage, world, attempts, baseMs, timeoutMs, k + 1).trace, world, baseMs, k + 1)
    ensures SleepsFollowBackoff(AttemptsFrom(stage, world, attempts, baseMs, timeoutMs, k).trace, world, baseMs, k)
  {
    var a := world.attempt(k);
    AttemptCounts(stage, a, timeoutMs);
    UnfoldFailedAttempt(stage, world, attempts, baseMs, timeoutMs, k);
    var rest := AttemptsFrom(stage, world, attempts, baseMs, timeoutMs, k + 1).trace;
    SleepsThroughSleep(RunAttempt(stage, a, timeoutMs).events, rest, world, baseMs, k);
  }

  /**
   * `fn` is invoked at most `attempts` times (never when `attempts < 1`), and
   * never more often than "processing" is written.
   */
  lemma RetryStageInvocationBound<T>(stage: int, world: World<T>, attempts: int, baseMs: nat, timeoutMs: nat)
    ensures var t := RetryStage(stage, world, attempts, baseMs, timeoutMs).trace;
      && Count(t, InvokeKind) <= Count(t, WriteKind(Processing))
      && Count(t, WriteKind(Processing)) <= (if attempts < 1 then 0 else attempts)
  {
    if IsStageIndex(stage) && attempts >= 1 {
      AttemptsFromCounts(stage, world, attempts, baseMs, timeoutMs, 1);
    }
  }

  /**
   * One sleep separates consecutive attempts, and the i-th sleep (from 0)
   * follows the failed attempt i + 1 and lasts `backoffDelay(baseMs, i + 1)`.
   */
  lemma RetryStageSleeps<T>(stage: int, world: World<T>, attempts: int, baseMs: nat, timeoutMs: nat)
    ensures var t := RetryStage(stage, world, attempts, baseMs, timeoutMs).trace;
      && |SleepDurations(t)| == (if Count(t, WriteKind(Processing)) == 0 then 0 else Count(t, WriteKind(Processing)) - 1)
      && forall i :: 0 <= i < |SleepDurations(t)| ==>
           SleepDurations(t)[i] == BackoffDelay(baseMs, i + 1, world.attempt(i + 1).draw)
  {
    if IsStageIndex(stage) && attempts >= 1 {
      AttemptsFromCounts(stage, world, attempts, baseMs, timeoutMs, 1);
      AttemptsFromSleepDurations(stage, world, attempts, baseMs, timeoutMs, 1);
    }
  }

  // ---------------------------------------------------------------------
  // Success
  // ---------------------------------------------------------------------

  /**
   * A trace of `n` attempts that ended in success: `n` "processing" writes,
   * no "failed" write, and the "done" write last.
   */
  predicate SucceededAfter(t: seq<Event>, stage: int, n: int)
  {
    && Count(t, WriteKind(Processing)) == n
    && Count(t, WriteKind(Failed)) == 0
    && |t| > 0 && t[|t| - 1] == StatusWrite(stage, Done, None)
  }

  lemma SucceededThroughSleep(ev: seq<Event>, d: nat, rest: seq<Event>, stage: int, n: int, calls: int)
    requires AttemptShaped(ev) && SucceededAfter(rest, stage, n)
    requires Count(rest, InvokeKind) == calls
    ensures SucceededAfter(ev + [Sleep(d)] + rest, stage, n + 1)
    ensures Count(ev + [Sleep(d)] + rest, InvokeKind) == Count(ev, InvokeKind) + calls
  {
    JoinThroughSleep(ev, d, rest);
    var t := ev + [Sleep(d)] + rest;
    assert t[|t| - 1] == rest[|rest| - 1];
  }

  /**
   * What the loop from attempt `k` does when attempt `m` is the first to
   * succeed: it returns that attempt's value unchanged, runs exactly the
   * attempts `k..m`, ends with the "done" write, and calls `fn` once per
   * attempt when every "processing" write went through.
   */
  ghost predicate FirstSuccessFrom<T>(stage: int, world: World<T>, attempts: int, baseMs: nat, timeoutMs: nat, k: nat, m: nat)
    requires IsStageIndex(stage)
    requires 1 <= k <= m <= attempts
    requires SucceedsAt(stage, world, timeoutMs, m)
  {
    var r := AttemptsFrom(stage, world, attempts, baseMs, timeoutMs, k);
    && r.result == Success(world.attempt(m).race.outcome.value)
    && SucceededAfter(r.trace, stage, m - k + 1)
    && ((forall j :: k <= j <= m ==> world.attempt(j).processingWrite == Written)
        ==> Count(r.trace, InvokeKind) == m - k + 1)
  }

  /** If attempt `m` is the first to succeed from `k` on, the loop from `k` ends as `FirstSuccessFrom` says. */
  lemma {:induction false} AttemptsFromFirstSuccess<T>(stage: int, world: World<T>, attempts: int, baseMs: nat, timeoutMs: nat, k: nat, m: nat)
    requires IsStageIndex(stage)
    requires 1 <= k <= m <= attempts
    requires forall j :: k <= j < m ==> !SucceedsAt(stage, world, timeoutMs, j)
    requires SucceedsAt(stage, world, timeoutMs, m)
    ensures FirstSuccessFrom(stage, world, attempts, baseMs, timeoutMs, k, m)
    decreases m - k
  {
    if k < m {
      AttemptsFromFirstSuccess(stage, world, attempts, baseMs, timeoutMs, k + 1, m);
      FirstSuccessThroughFailure(stage, world, attempts, baseMs, timeoutMs, k, m);
    } else {
      FirstSuccessAt(stage, world, attempts, baseMs, timeoutMs, k);
    }
  }

  /** A failed attempt `k` before the first success adds one attempt, one sleep and its own call. */
  lemma FirstSuccessThroughFailure<T>(stage: int, world: World<T>, attempts: int, baseMs: nat, timeoutMs: nat, k: nat, m: nat)
    requires IsStageIndex(stage)
    requires 1 <= k < m <= attempts
    requires !SucceedsAt(stage, world, timeoutMs, k) && SucceedsAt(stage, world, timeoutMs, m)
    requires FirstSuccessFrom(stage, world, attempts, baseMs, timeoutMs, k + 1, m)
    ensures FirstSuccessFrom(stage, world, attempts, baseMs, timeoutMs, k, m)
  {
    var a := world.attempt(k);
    var ev := RunAttempt(stage, a, timeoutMs).events;
    AttemptCounts(stage, a, timeoutMs);
    UnfoldFailedAttempt(stage, world, attempts, baseMs, timeoutMs, k);
    var next := AttemptsFrom(stage, world, attempts, baseMs, timeoutMs, k + 1);
    var calls := Count(next.trace, InvokeKind);
    assert next.result == Success(world.attempt(m).race.outcome.value);
    assert AttemptsFrom(stage, world, attempts, baseMs, timeoutMs, k).result == next.result;
    SucceededThroughSleep(ev, BackoffDelay(baseMs, k, a.draw), next.trace, stage, m - k, calls);
    if forall j :: k <= j <= m ==> world.attempt(j).processingWrite == Written {
      assert a.processingWrite == Written;
      assert calls == m - k;
    }
  }

  /** The first success itself: one attempt ending in the "done" write. */
  lemma FirstSuccessAt<T>(stage: int, world: World<T>, attempts: int, baseMs: nat, timeoutMs: nat, k: nat)
    requires IsStageIndex(stage)
    requires 1 <= k <= attempts
    requires SucceedsAt(stage, world, timeoutMs, k)
    ensures FirstSuccessFrom(stage, world, attempts, baseMs, timeoutMs, k, k)
  {
    AttemptCounts(stage, world.attempt(k), timeoutMs);
    UnfoldSucceededAttempt(stage, world, attempts, baseMs, timeoutMs, k);
  }

  /**
   * If attempt `k` is the first to succeed and `k <= attempts`,
   * `retryStage` returns its value unchanged after exactly `k` attempts and
   * `k - 1` sleeps, ends with the "done" write, writes no "failed", and
   * calls `fn` exactly `k` times when every "processing" write went through.
   */
  lemma RetryStageFirstSuccess<T>(stage: int, world: World<T>, attempts: int, baseMs: nat, timeoutMs: nat, k: nat)
    requires IsStageIndex(stage)
    requires 1 <= k <= attempts
    requires forall j :: 1 <= j < k ==> !SucceedsAt(stage, world, timeoutMs, j)
    requires SucceedsAt(stage, world, timeoutMs, k)
    ensures var r := RetryStage(stage, world, attempts, baseMs, timeoutMs);
      && r.result == Success(world.attempt(k).race.outcome.value)
      && Count(r.trace, WriteKind(Processing)) == k
      && |SleepDurations(r.trace)| == k - 1
      && Count(r.trace, WriteKind(Failed)) == 0
      && r.trace[|r.trace| - 1] == StatusWrite(stage, Done, None)
      && ((forall j :: 1 <= j <= k ==> world.attempt(j).processingWrite == Written)
          ==> Count(r.trace, InvokeKind) == k)
  {
    AttemptsFromFirstSuccess(stage, world, attempts, baseMs, timeoutMs, 1, k);
    AttemptsFromCounts(stage, world, attempts, baseMs, timeoutMs, 1);
    assert k - 1 + 1 == k;
  }

  /** The loop from `k` returns a value exactly when some attempt from `k` to `attempts` succeeds. */
  lemma {:induction false} AttemptsFromSuccessIff<T>(stage: int, world: World<T>, attempts: int, baseMs: nat, timeoutMs: nat, k: nat)
    requires IsStageIndex(stage)
    requires 1 <= k <= attempts
    ensures AttemptsFrom(stage, world, attempts, baseMs, timeoutMs, k).result.Success?
        <==> exists j :: k <= j <= attempts && SucceedsAt(stage, world, timeoutMs, j)
    decreases attempts - k
  {
    if !SucceedsAt(stage, world, timeoutMs, k) && k < attempts {
      AttemptsFromSuccessIff(stage, world, attempts, baseMs, timeoutMs, k + 1);
      SuccessIffStep(stage, world, attempts, baseMs, timeoutMs, k);
    } else {
      SuccessIffAtEnd(stage, world, attempts, baseMs, timeoutMs, k);
    }
  }

  /** The attempt that ends the loop decides: a success returns, a failed last attempt throws. */
  lemma SuccessIffAtEnd<T>(stage: int, world: World<T>, attempts: int, baseMs: nat, timeoutMs: nat, k: nat)
    requires IsStageIndex(stage)
    requires 1 <= k <= attempts
    requires SucceedsAt(stage, world, timeoutMs, k) || k == attempts
    ensures AttemptsFrom(stage, world, attempts, baseMs, timeoutMs, k).result.Success?
        <==> exists j :: k <= j <= attempts && SucceedsAt(stage, world, timeoutMs, j)
  {
    var r := AttemptsFrom(stage, world, attempts, baseMs, timeoutMs, k);
    if SucceedsAt(stage, world, timeoutMs, k) {
      UnfoldSucceededAttempt(stage, world, attempts, baseMs, timeoutMs, k);
      assert r.result.Success?;
    } else {
      UnfoldLastAttempt(stage, world, attempts, baseMs, timeoutMs);
      assert r.result.Failure?;
      SuccessWindowShrinks(stage, world, timeoutMs, k, attempts);
    }
  }

  lemma SuccessIffStep<T>(stage: int, world: World<T>, attempts: int, baseMs: nat, timeoutMs: nat, k: nat)
    requires IsStageIndex(stage)
    requires 1 <= k < attempts
    requires !SucceedsAt(stage, world, timeoutMs, k)
    requires AttemptsFrom(stage, world, attempts, baseMs, timeoutMs, k + 1).result.Success?
        <==> exists j :: k + 1 <= j <= attempts && SucceedsAt(stage, world, timeoutMs, j)
    ensures AttemptsFrom(stage, world, attempts, baseMs, timeoutMs, k).result.Success?
        <==> exists j :: k <= j <= attempts && SucceedsAt(stage, world, timeoutMs, j)
  {
    UnfoldFailedAttempt(stage, world, attempts, baseMs, timeoutMs, k);
    assert AttemptsFrom(stage, world, attempts, baseMs, timeoutMs, k).result
        == AttemptsFrom(stage, world, attempts, baseMs, timeoutMs, k + 1).result;
    SuccessWindowShrinks(stage, world, timeoutMs, k, attempts);
  }

  /** A failed attempt `k` can be dropped from the attempts that might succeed. */
  lemma SuccessWindowShrinks<T>(stage: int, world: World<T>, timeoutMs: nat, k: nat, attempts: int)
    requires IsStageIndex(stage)
    requires !SucceedsAt(stage, world, timeoutMs, k)
    ensures (exists j :: k <= j <= attempts && SucceedsAt(stage, world, timeoutMs, j))
        <==> (exists j :: k + 1 <= j <= attempts && SucceedsAt(stage, world, timeoutMs, j))
  {
    if j :| k <= j <= attempts && SucceedsAt(stage, world, timeoutMs, j) {
      assert k + 1 <= j;
    }
  }

  /** `retryStage` returns a value exactly when one of its `attempts` attempts succeeds. */
  lemma RetryStageSuccessIff<T>(stage: int, world: World<T>, attempts: int, baseMs: nat, timeoutMs: nat)
    requires IsStageIndex(stage)
    ensures RetryStage(stage, world, attempts, baseMs, timeoutMs).result.Success?
        <==> exists j :: 1 <= j <= attempts && SucceedsAt(stage, world, timeoutMs, j)
  {
    if attempts >= 1 {
      AttemptsFromSuccessIff(stage, world, attempts, baseMs, timeoutMs, 1);
    }
  }

  // ---------------------------------------------------------------------
  // Exhaustion
  // ---------------------------------------------------------------------

  /** The `Error` `retryStage` throws after its last attempt failed with `last`. */
  function ExhaustedError<T>(world: World<T>, last: JsError): (e: JsError)
    ensures world.failedWrite == Written ==> e.message == ErrorText(last)
    ensures world.failedWrite.WriteFailed? ==> e == world.failedWrite.error
  {
    match world.failedWrite
    case WriteFailed(writeError) => writeError
    case Written => PlainError(ErrorText(last))
  }

  lemma ExponentialStep(baseMs: nat, k: nat)
    requires k >= 1
    ensures Exponential(baseMs, k + 1) == 2 * Exponential(baseMs, k)
  {
    var p := Pow2(k - 1);
    assert Pow2(k) == 2 * p;
    assert baseMs * (2 * p) == 2 * (baseMs * p);
  }

  /**
   * A trace of `n` attempts that ended in exhaustion: `n` "processing"
   * writes, and a single "failed" write carrying `text`, which is last.
   */
  predicate ExhaustedAfter(t: seq<Event>, stage: int, n: int, text: string)
  {
    && Count(t, WriteKind(Processing)) == n
    && Count(t, WriteKind(Failed)) == 1
    && |t| > 0 && t[|t| - 1] == StatusWrite(stage, Failed, Some(text))
  }

  lemma ExhaustedThroughSleep(ev: seq<Event>, d: nat, rest: seq<Event>, stage: int, n: int, text: string)
    requires AttemptShaped(ev) && ExhaustedAfter(rest, stage, n, text)
    ensures ExhaustedAfter(ev + [Sleep(d)] + rest, stage, n + 1, text)
  {
    JoinThroughSleep(ev, d, rest);
    var t := ev + [Sleep(d)] + rest;
    assert t[|t| - 1] == rest[|rest| - 1];
  }

  /**
   * When every attempt from `k` fails, all of them run and the trace ends
   * with the single "failed" write carrying the text of the last attempt's
   * error.
   */
  lemma {:induction false} AttemptsFromExhausted<T>(stage: int, world: World<T>, attempts: int, baseMs: nat, timeoutMs: nat, k: nat)
    requires IsStageIndex(stage)
    requires 1 <= k <= attempts
    requires forall j :: k <= j <= attempts ==> !SucceedsAt(stage, world, timeoutMs, j)
    ensures var r := AttemptsFrom(stage, world, attempts, baseMs, timeoutMs, k);
      var last := ErrorAt(stage, world, timeoutMs, attempts);
      && r.result == Failure(Threw(ExhaustedError(world, last)))
      && ExhaustedAfter(r.trace, stage, attempts - k + 1, ErrorText(last))
    decreases attempts - k
  {
    assert !SucceedsAt(stage, world, timeoutMs, k);
    if k < attempts {
      AttemptsFromExhausted(stage, world, attempts, baseMs, timeoutMs, k + 1);
      ExhaustedStep(stage, world, attempts, baseMs, timeoutMs, k);
    } else {
      ExhaustedAtLast(stage, world, attempts, baseMs, timeoutMs);
    }
  }

  lemma ExhaustedStep<T>(stage: int, world: World<T>, attempts: int, baseMs: nat, timeoutMs: nat, k: nat)
    requires IsStageIndex(stage)
    requires 1 <= k < attempts
    requires !SucceedsAt(stage, world, timeoutMs, k) && !SucceedsAt(stage, world, timeoutMs, attempts)
    requires var r := AttemptsFrom(stage, world, attempts, baseMs, timeoutMs, k + 1);
      var last := ErrorAt(stage, world, timeoutMs, attempts);
      && r.result == Failure(Threw(ExhaustedError(world, last)))
      && ExhaustedAfter(r.trace, stage, attempts - k, ErrorText(last))
    ensures var r := AttemptsFrom(stage, world, attempts, baseMs, timeoutMs, k);
      var last := ErrorAt(stage, world, timeoutMs, attempts);
      && r.result == Failure(Threw(ExhaustedError(world, last)))
      && ExhaustedAfter(r.trace, stage, attempts - k + 1, ErrorText(last))
  {
    var a := world.attempt(k);
    AttemptCounts(stage, a, timeoutMs);
    UnfoldFailedAttempt(stage, world, attempts, baseMs, timeoutMs, k);
    var next := AttemptsFrom(stage, world, attempts, baseMs, timeoutMs, k + 1);
    var last := ErrorAt(stage, world, timeoutMs, attempts);
    assert AttemptsFrom(stage, world, attempts, baseMs, timeoutMs, k).result == next.result;
    ExhaustedThroughSleep(RunAttempt(stage, a, timeoutMs).events, BackoffDelay(baseMs, k, a.draw), next.trace,
                          stage, attempts - k, ErrorText(last));
  }

  /** The base case of `AttemptsFromExhausted`: the last attempt fails. */
  lemma ExhaustedAtLast<T>(stage: int, world: World<T>, attempts: int, baseMs: nat, timeoutMs: nat)
    requires IsStageIndex(stage)
    requires 1 <= attempts
    requires !SucceedsAt(stage, world, timeoutMs, attempts)
    ensures var r := AttemptsFrom(stage, world, attempts, baseMs, timeoutMs, attempts);
      var last := ErrorAt(stage, world, timeoutMs, attempts);
      && r.result == Failure(Threw(ExhaustedError(world, last)))
      && ExhaustedAfter(r.trace, stage, 1, ErrorText(last))
  {
    var ev := RunAttempt(stage, world.attempt(attempts), timeoutMs).events;
    AttemptCounts(stage, world.attempt(attempts), timeoutMs);
    UnfoldLastAttempt(stage, world, attempts, baseMs, timeoutMs);
    JoinFinalWrite(ev, StatusWrite(stage, Failed, Some(ErrorText(ErrorAt(stage, world, timeoutMs, attempts)))));
  }

  /** Total sleep bounds: exponential parts from `Exponential(k)` up to `Exponential(n)`, plus jitter. */
  predicate SleepTotalWithin(t: seq<Event>, baseMs: nat, k: nat, n: nat)
    requires 1 <= k <= n
  {
    && Exponential(baseMs, n) - Exponential(baseMs, k) <= Sum(SleepDurations(t))
    && Sum(SleepDurations(t)) <= Exponential(baseMs, n) - Exponential(baseMs, k) + 499 * (n - k)
  }

  lemma SleepTotalThroughSleep<T>(ev: seq<Event>, rest: seq<Event>, world: World<T>, baseMs: nat, k: nat, n: nat)
    requires 1 <= k < n
    requires SleepDurations(ev) == []
    requires SleepTotalWithin(rest, baseMs, k + 1, n)
    ensures SleepTotalWithin(ev + [Sleep(BackoffDelay(baseMs, k, world.attempt(k).draw))] + rest, baseMs, k, n)
  {
    var d := BackoffDelay(baseMs, k, world.attempt(k).draw);
    JoinThroughSleep(ev, d, rest);
    assert SleepDurations(ev + [Sleep(d)] + rest) == [d] + SleepDurations(rest);
    assert Sum([d] + SleepDurations(rest)) == d + Sum(SleepDurations(rest));
    ExponentialStep(baseMs, k);
  }

  /**
   * The total time slept by the loop from attempt `k` when every attempt
   * fails: the exponential parts add up to `Exponential(attempts) - Exponential(k)`
   * (a geometric sum), plus at most 499 ms of jitter per sleep.
   */
  lemma {:induction false} AttemptsFromTotalSleep<T>(stage: int, world: World<T>, attempts: int, baseMs: nat, timeoutMs: nat, k: nat)
    requires IsStageIndex(stage)
    requires 1 <= k <= attempts
    requires forall j :: k <= j <= attempts ==> !SucceedsAt(stage, world, timeoutMs, j)
    ensures SleepTotalWithin(AttemptsFrom(stage, world, attempts, baseMs, timeoutMs, k).trace, baseMs, k, attempts)
    decreases attempts - k
  {
    assert !SucceedsAt(stage, world, timeoutMs, k);
    if k < attempts {
      AttemptsFromTotalSleep(stage, world, attempts, baseMs, timeoutMs, k + 1);
      TotalSleepStep(stage, world, attempts, baseMs, timeoutMs, k);
    } else {
      NoSleepAtLast(stage, world, attempts, baseMs, timeoutMs);
    }
  }

  lemma TotalSleepStep<T>(stage: int, world: World<T>, attempts: int, baseMs: nat, timeoutMs: nat, k: nat)
    requires IsStageIndex(stage)
    requires 1 <= k < attempts
    requires !SucceedsAt(stage, world, timeoutMs, k)
    requires SleepTotalWithin(AttemptsFrom(stage, world, attempts, baseMs, timeoutMs, k + 1).trace, baseMs, k + 1, attempts)
    ensures SleepTotalWithin(AttemptsFrom(stage, world, attempts, baseMs, timeoutMs, k).trace, baseMs, k, attempts)
  {
    var a := world.attempt(k);
    AttemptCounts(stage, a, timeoutMs);
    UnfoldFailedAttempt(stage, world, attempts, baseMs, timeoutMs, k);
    var rest := AttemptsFrom(stage, world, attempts, baseMs, timeoutMs, k + 1).trace;
    SleepTotalThroughSleep(RunAttempt(stage, a, timeoutMs).events, rest, world, baseMs, k, attempts);
  }

  /** The last attempt, when it fails, does not sleep. */
  lemma NoSleepAtLast<T>(stage: int, world: World<T>, attempts: int, baseMs: nat, timeoutMs: nat)
    requires IsStageIndex(stage)
    requires attempts >= 1
    requires !SucceedsAt(stage, world, timeoutMs, attempts)
    ensures SleepDurations(AttemptsFrom(stage, world, attempts, baseMs, timeoutMs, attempts).trace) == []
  {
    var ev := RunAttempt(stage, world.attempt(attempts), timeoutMs).events;
    AttemptCounts(stage, world.attempt(attempts), timeoutMs);
    UnfoldLastAttempt(stage, world, attempts, baseMs, timeoutMs);
    JoinFinalWrite(ev, StatusWrite(stage, Failed, Some(ErrorText(ErrorAt(stage, world, timeoutMs, attempts)))));
  }

  /**
   * When all `attempts` attempts fail: exactly `attempts` attempts and
   * `attempts - 1` sleeps happen, there is exactly one "failed" write, it is
   * the last effect and it carries the last error's text, and the thrown
   * `Error` carries that same text (or is the "failed" write's own error if
   * that write throws). Slept time totals `baseMs * (2^(attempts-1) - 1)`
   * plus at most 499 ms of jitter per sleep.
   */
  lemma RetryStageExhausted<T>(stage: int, world: World<T>, attempts: int, baseMs: nat, timeoutMs: nat)
    requires IsStageIndex(stage)
    requires attempts >= 1
    requires forall j :: 1 <= j <= attempts ==> !SucceedsAt(stage, world, timeoutMs, j)
    ensures var r := RetryStage(stage, world, attempts, baseMs, timeoutMs);
      var last := ErrorAt(stage, world, timeoutMs, attempts);
      && r.result == Failure(Threw(ExhaustedError(world, last)))
      && Count(r.trace, WriteKind(Processing)) == attempts
      && |SleepDurations(r.trace)| == attempts - 1
      && Count(r.trace, WriteKind(Failed)) == 1
      && r.trace[|r.trace| - 1] == StatusWrite(stage, Failed, Some(ErrorText(last)))
      && baseMs * (Pow2(attempts - 1) - 1) <= Sum(SleepDurations(r.trace))
      && Sum(SleepDurations(r.trace)) <= baseMs * (Pow2(attempts - 1) - 1) + 499 * (attempts - 1)
  {
    assert RetryStage(stage, world, attempts, baseMs, timeoutMs) == AttemptsFrom(stage, world, attempts, baseMs, timeoutMs, 1);
    AttemptsFromExhausted(stage, world, attempts, baseMs, timeoutMs, 1);
    AttemptsFromCounts(stage, world, attempts, baseMs, timeoutMs, 1);
    AttemptsFromTotalSleep(stage, world, attempts, baseMs, timeoutMs, 1);
    GeometricTotal(baseMs, attempts);
  }

  /** The exponential parts of the sleeps after attempts `1 .. n - 1` add up to `base * (2^(n-1) - 1)`. */
  lemma GeometricTotal(baseMs: nat, n: nat)
    requires n >= 1
    ensures Exponential(baseMs, n) - Exponential(baseMs, 1) == baseMs * (Pow2(n - 1) - 1)
  {
    var p := Pow2(n - 1);
    assert Exponential(baseMs, 1) == baseMs;
    assert baseMs * (p - 1) == baseMs * p - baseMs;
  }

  /**
   * Only the last error matters: two worlds whose attempts all fail, that
   * agree on the last attempt and on the "failed" write, make `retryStage`
   * throw the same error and write the same "failed" status.
   */
  lemma RetryStageKeepsOnlyLastError<T>(stage: int, w1: World<T>, w2: World<T>, attempts: int, baseMs: nat, timeoutMs: nat)
    requires IsStageIndex(stage)
    requires attempts >= 1
    requires forall j :: 1 <= j <= attempts ==> !SucceedsAt(stage, w1, timeoutMs, j)
    requires forall j :: 1 <= j <= attempts ==> !SucceedsAt(stage, w2, timeoutMs, j)
    requires w1.attempt(attempts) == w2.attempt(attempts) && w1.failedWrite == w2.failedWrite
    ensures var r1 := RetryStage(stage, w1, attempts, baseMs, timeoutMs);
      var r2 := RetryStage(stage, w2, attempts, baseMs, timeoutMs);
      && r1.result == r2.result
      && r1.trace[|r1.trace| - 1] == r2.trace[|r2.trace| - 1]
  {
    RetryStageExhausted(stage, w1, attempts, baseMs, timeoutMs);
    RetryStageExhausted(stage, w2, attempts, baseMs, timeoutMs);
  }

  /**
   * With the default arguments a stage runs `fn` at most three times and
   * sleeps at most twice: about 2 s after the first failure and about 4 s
   * after the second, each plus under half a second of jitter.
   */
  lemma RetryStageWithDefaultsBudget<T>(stage: int, world: World<T>)
    ensures var t := RetryStageWithDefaults(stage, world).trace;
      && Count(t, InvokeKind) <= 3
      && |SleepDurations(t)| <= 2
      && forall i :: 0 <= i < |SleepDurations(t)| ==>
           2000 * Pow2(i) <= SleepDurations(t)[i] <= 2000 * Pow2(i) + 499
  {
    var t := RetryStageWithDefaults(stage, world).trace;
    assert t == RetryStage(stage, world, 3, 2000, 60000).trace;
    RetryStageInvocationBound(stage, world, 3, 2000, 60000);
    RetryStageSleeps(stage, world, 3, 2000, 60000);
  }
}
