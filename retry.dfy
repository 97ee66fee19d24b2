/** Failure handling around the remote vector store: the classification of
    an error by the words in its lower-cased message, the
    `retry_qdrant_operation` decorator and the hand-written retry loop around
    the upload's `upsert`.

    A remote call is not made here: its outcome for each attempt is an input
    (`call(k)` is what attempt `k` returns or raises), and `time.sleep` is
    recorded as a list of delays. */
module Retry {
  import opened Text
  import opened Wrappers

  /** Some word of `words` occurs in `m`: the chain of `word in m` tests
      joined by `or` that each classification below makes. */
  predicate MentionsAny(m: string, words: seq<string>) {
    exists k | 0 <= k < |words| :: Contains(m, words[k])
  }

  /** The decorator's retryable errors: the lower-cased message mentions a
      timeout, a handshake, SSL or the connection. */
  predicate IsRetryable(message: string) {
    MentionsAny(Lower(message), RetryableWords)
  }

  const RetryableWords: seq<string> := ["timeout", "handshake", "ssl", "connection"]

  /** The upload's and the bootstrap's transient errors: a timeout, a
      handshake or SSL, but not "connection". */
  predicate IsTimeout(message: string) {
    MentionsAny(Lower(message), TimeoutWords)
  }

  const TimeoutWords: seq<string> := ["timeout", "handshake", "ssl"]

  /** The upload's "collection is missing" errors. */
  predicate IsNotFound(message: string) {
    MentionsAny(Lower(message), NotFoundWords)
  }

  const NotFoundWords: seq<string> := ["not found", "doesn't exist", "404"]

  /** A transient error's lower-cased message mentions "timeout",
      "handshake" or "ssl", word by word. */
  lemma TimeoutMentions(message: string)
    ensures var m := Lower(message);
      IsTimeout(message) <==> Contains(m, "timeout") || Contains(m, "handshake") || Contains(m, "ssl")
  {
    var m := Lower(message);
    if IsTimeout(message) {
      var k :| 0 <= k < |TimeoutWords| && Contains(m, TimeoutWords[k]);
      assert TimeoutWords[k] in {"timeout", "handshake", "ssl"};
    }
    if Contains(m, "timeout") {
      assert Contains(m, TimeoutWords[0]);
    } else if Contains(m, "handshake") {
      assert Contains(m, TimeoutWords[1]);
    } else if Contains(m, "ssl") {
      assert Contains(m, TimeoutWords[2]);
    }
  }

  /** Every transient error is also one the decorator retries, and the
      classification ignores the case of ASCII letters. */
  lemma ClassificationFacts(message: string)
    ensures IsTimeout(message) ==> IsRetryable(message)
    ensures IsRetryable(Lower(message)) == IsRetryable(message)
    ensures IsTimeout(Lower(message)) == IsTimeout(message)
    ensures IsNotFound(Lower(message)) == IsNotFound(message)
  {
    LowerIdempotent(message);
    if IsTimeout(message) {
      var k :| 0 <= k < |TimeoutWords| && Contains(Lower(message), TimeoutWords[k]);
      assert RetryableWords[k] == TimeoutWords[k];
    }
  }

  /** Python lowers the Kelvin sign U+212A to `k`, so a message spelling
      "handshake" with it is retryable and a timeout. */
  lemma KelvinSignHandshake()
    ensures IsRetryable("HANDSHA\U{212A}E") && IsTimeout("HANDSHA\U{212A}E")
  {
    var m := Lower("HANDSHA\U{212A}E");
    KelvinLowered();
    assert OccursAt(m, "handshake", 0);
    assert Contains(m, RetryableWords[1]);
    assert Contains(m, TimeoutWords[1]);
  }

  lemma KelvinLowered()
    ensures Lower("HANDSHA\U{212A}E") == "handshake"
  {
    var s := "HANDSHA\U{212A}E";
    var m := Lower(s);
    assert |m| == 9;
    assert m[7] == LowerChar(s[7]) == 'k';
    forall i | 0 <= i < 9 ensures m[i] == "handshake"[i] {
      assert m[i] == LowerChar(s[i]);
    }
  }

  /** What one run of a wrapped call produced: the value returned or the
      error raised, how many times the operation was called and the pauses
      taken between calls. */
  datatype Run<T> = Run(result: Result<T>, attempts: nat, sleeps: seq<nat>)

  /** The message Python gives for `raise None`: what the wrapper raises when
      `max_retries` is not positive and `last_error` is still `None`. */
  const RaiseNoneMessage := "exceptions must derive from BaseException"

  /** The message of the `ValueError` that `time.sleep` raises for a
      negative length; raised inside the `except` block, it escapes the
      wrapper. */
  const NegativeSleepMessage := "sleep length must be non-negative"

  /** The wrapper from attempt `attempt` on: a success is returned, a
      retryable failure before the last attempt sleeps `delay * (attempt + 1)`
      and tries again (or, for a negative length, escapes with the
      `ValueError` of `time.sleep`), any other failure is re-raised. */
  function RetryFrom<T>(call: nat -> Result<T>, maxRetries: int, delay: int, attempt: nat): Run<T>
    requires attempt < maxRetries
    decreases maxRetries - attempt
  {
    match call(attempt)
    case Ok(v) => Run(Ok(v), attempt + 1, [])
    case Err(e) =>
      if IsRetryable(e) && attempt < maxRetries - 1 then
        if delay * (attempt + 1) < 0 then Run(Err(NegativeSleepMessage), attempt + 1, [])
        else
          var rest := RetryFrom(call, maxRetries, delay, attempt + 1);
          Run(rest.result, rest.attempts, [delay * (attempt + 1)] + rest.sleeps)
      else
        Run(Err(e), attempt + 1, [])
  }

  /** The whole wrapped call. */
  function RetryRun<T>(call: nat -> Result<T>, maxRetries: int, delay: int): Run<T> {
    if maxRetries <= 0 then Run(Err(RaiseNoneMessage), 0, [])
    else RetryFrom(call, maxRetries, delay, 0)
  }

  /** A success, a failure that is not retryable or a failure at the last
      attempt ends the wrapper at attempt `attempt` with no pause. */
  lemma RetryFromEnds<T>(call: nat -> Result<T>, maxRetries: int, delay: int, attempt: nat)
    requires attempt < maxRetries
    requires call(attempt).Ok? || !IsRetryable(call(attempt).message) || attempt == maxRetries - 1
    ensures RetryFrom(call, maxRetries, delay, attempt) == Run(call(attempt), attempt + 1, [])
  {
  }

  /** A retryable failure before the last attempt pauses and goes on, or
      escapes with the `ValueError` of `time.sleep` for a negative pause. */
  lemma RetryFromPause<T>(call: nat -> Result<T>, maxRetries: int, delay: int, attempt: nat)
    requires attempt < maxRetries - 1
    requires call(attempt).Err? && IsRetryable(call(attempt).message)
    ensures var run := RetryFrom(call, maxRetries, delay, attempt);
      if delay * (attempt + 1) < 0 then run == Run(Err(NegativeSleepMessage), attempt + 1, [])
      else
        var rest := RetryFrom(call, maxRetries, delay, attempt + 1);
        run == Run(rest.result, rest.attempts, [delay * (attempt + 1)] + rest.sleeps)
  {
  }

  /** A run that continues after the pauses `sleeps` already taken. */
  function Resumed<T>(sleeps: seq<nat>, run: Run<T>): Run<T> {
    Run(run.result, run.attempts, sleeps + run.sleeps)
  }

  /** The wrapper's loop, after the pauses `sleeps`, ends at attempt
      `attempt` with that attempt's outcome. */
  lemma ResumedEnds<T>(call: nat -> Result<T>, maxRetries: int, delay: int, attempt: nat, sleeps: seq<nat>, total: Run<T>)
    requires attempt < maxRetries
    requires call(attempt).Ok? || !IsRetryable(call(attempt).message) || attempt == maxRetries - 1
    requires total == Resumed(sleeps, RetryFrom(call, maxRetries, delay, attempt))
    ensures total == Run(call(attempt), attempt + 1, sleeps)
  {
    RetryFromEnds(call, maxRetries, delay, attempt);
    assert sleeps + [] == sleeps;
  }

  /** The wrapper's loop, after the pauses `sleeps`, pauses at attempt
      `attempt` and goes on, or escapes for a negative pause. */
  lemma ResumedPauses<T>(call: nat -> Result<T>, maxRetries: int, delay: int, attempt: nat, sleeps: seq<nat>, total: Run<T>)
    requires attempt < maxRetries - 1
    requires call(attempt).Err? && IsRetryable(call(attempt).message)
    requires total == Resumed(sleeps, RetryFrom(call, maxRetries, delay, attempt))
    ensures delay * (attempt + 1) < 0 ==> total == Run(Err(NegativeSleepMessage), attempt + 1, sleeps)
    ensures delay * (attempt + 1) >= 0 ==>
      total == Resumed(sleeps + [delay * (attempt + 1)], RetryFrom(call, maxRetries, delay, attempt + 1))
  {
    RetryFromPause(call, maxRetries, delay, attempt);
    if delay * (attempt + 1) < 0 {
      assert sleeps + [] == sleeps;
    } else {
      var rest := RetryFrom(call, maxRetries, delay, attempt + 1);
      PausesAssoc(sleeps, [delay * (attempt + 1)], rest.sleeps);
    }
  }

  /** `retry_qdrant_operation(max_retries, delay)` applied to an operation
      whose attempt `k` yields `call(k)`. */
  method RetryQdrantOperation<T>(call: nat -> Result<T>, maxRetries: int := 3, delay: int := 2)
    returns (result: Result<T>, attempts: nat, sleeps: seq<nat>)
    ensures Run(result, attempts, sleeps) == RetryRun(call, maxRetries, delay)
  {
    ghost var total := RetryRun(call, maxRetries, delay);
    attempts := 0;
    sleeps := [];
    var lastError: Option<string> := None;
    var attempt := 0;
    while attempt < maxRetries
      invariant attempt == 0 || attempt < maxRetries
      invariant attempts == attempt
      invariant attempt == 0 ==> sleeps == []
      invariant attempt < maxRetries ==> total == Resumed(sleeps, RetryFrom(call, maxRetries, delay, attempt))
      decreases maxRetries - attempt
    {
      var outcome := call(attempt);
      attempts := attempts + 1;
      if outcome.Ok? {
        ResumedEnds(call, maxRetries, delay, attempt, sleeps, total);
        result := outcome;
        return;
      }
      lastError := Some(outcome.message);
      if IsRetryable(outcome.message) && attempt < maxRetries - 1 {
        ResumedPauses(call, maxRetries, delay, attempt, sleeps, total);
        var pause := delay * (attempt + 1);
        if pause < 0 {
          result := Err(NegativeSleepMessage);
          return;
        }
        sleeps := sleeps + [pause];
        attempt := attempt + 1;
      } else {
        ResumedEnds(call, maxRetries, delay, attempt, sleeps, total);
        result := Err(outcome.message);
        return;
      }
    }
    // Reached only when the loop body never ran: `raise None`.
    result := Err(RaiseNoneMessage);
  }

  /** What the wrapper promises for a non-negative delay: the operation
      runs at least once and at most `max_retries` times; every attempt but
      the last failed with a retryable error and was followed by a pause of
      `delay * (k + 1)`; the last attempt's outcome is what the caller gets,
      and when that is an error it is not retryable or no attempt was left. */
  lemma {:induction false} RetryFromSpec<T>(call: nat -> Result<T>, maxRetries: int, delay: nat, attempt: nat)
    requires attempt < maxRetries
    ensures var run := RetryFrom(call, maxRetries, delay, attempt);
      && attempt < run.attempts <= maxRetries
      && |run.sleeps| == run.attempts - 1 - attempt
      && (forall k :: 0 <= k < |run.sleeps| ==> run.sleeps[k] == delay * (attempt + k + 1))
      && (forall k :: attempt <= k < run.attempts - 1 ==> call(k).Err? && IsRetryable(call(k).message))
      && run.result == call(run.attempts - 1)
      && (run.result.Err? ==> !IsRetryable(run.result.message) || run.attempts == maxRetries)
    decreases maxRetries - attempt
  {
    if call(attempt).Err? && IsRetryable(call(attempt).message) && attempt < maxRetries - 1 {
      var pause := delay * (attempt + 1);
      assert pause >= 0 by { NonNegativeProduct(delay, attempt + 1); }
      RetryFromSpec(call, maxRetries, delay, attempt + 1);
      var rest := RetryFrom(call, maxRetries, delay, attempt + 1);
      var run := RetryFrom(call, maxRetries, delay, attempt);
      assert run == Run(rest.result, rest.attempts, [pause] + rest.sleeps);
      forall k | 0 <= k < |run.sleeps| ensures run.sleeps[k] == delay * (attempt + k + 1) {
        if k > 0 {
          assert run.sleeps[k] == rest.sleeps[k - 1];
          assert attempt + 1 + (k - 1) + 1 == attempt + k + 1;
        }
      }
    }
  }

  lemma PausesAssoc(a: seq<nat>, b: seq<nat>, c: seq<nat>)
    ensures a + (b + c) == (a + b) + c
  {
  }

  lemma NonNegativeProduct(a: nat, b: nat)
    ensures a * b >= 0
  {
  }

  /** For a negative delay the first retryable failure before the last
      attempt ends the run with the `ValueError` of `time.sleep`. */
  lemma RetryFromNegative<T>(call: nat -> Result<T>, maxRetries: int, delay: int, attempt: nat)
    requires attempt < maxRetries && delay < 0
    ensures var run := RetryFrom(call, maxRetries, delay, attempt);
      && run.attempts == attempt + 1
      && run.sleeps == []
      && run.result == (if call(attempt).Err? && IsRetryable(call(attempt).message) && attempt < maxRetries - 1
                        then Err(NegativeSleepMessage) else call(attempt))
  {
    if call(attempt).Err? && IsRetryable(call(attempt).message) && attempt < maxRetries - 1 {
      RetryFromPause(call, maxRetries, delay, attempt);
      assert delay * (attempt + 1) < 0;
    } else {
      RetryFromEnds(call, maxRetries, delay, attempt);
    }
  }

  lemma RetryRunSpec<T>(call: nat -> Result<T>, maxRetries: int, delay: int)
    ensures var run := RetryRun(call, maxRetries, delay);
      && (maxRetries <= 0 ==> run == Run(Err(RaiseNoneMessage), 0, []))
      && (maxRetries > 0 ==>
           && 1 <= run.attempts <= maxRetries
           && |run.sleeps| == run.attempts - 1
           && (forall k :: 0 <= k < |run.sleeps| ==> run.sleeps[k] == delay * (k + 1))
           && (forall k :: 0 <= k < run.attempts - 1 ==> call(k).Err? && IsRetryable(call(k).message))
           && (delay >= 0 ==> run.result == call(run.attempts - 1))
           && (delay >= 0 && run.result.Err? ==> !IsRetryable(run.result.message) || run.attempts == maxRetries)
           && (delay < 0 ==>
                 && run.attempts == 1
                 && run.sleeps == []
                 && run.result == (if call(0).Err? && IsRetryable(call(0).message) && maxRetries > 1
                                   then Err(NegativeSleepMessage) else call(0))))
  {
    if maxRetries > 0 && delay >= 0 {
      RetryFromSpec(call, maxRetries, delay, 0);
    } else if maxRetries > 0 {
      RetryFromNegative(call, maxRetries, delay, 0);
    }
  }

  /** A first attempt that succeeds, or fails with an error that is not
      retryable, ends the wrapper at once with no pause. */
  lemma FirstOutcomeFinal<T>(call: nat -> Result<T>, maxRetries: int, delay: int)
    requires maxRetries > 0
    requires call(0).Ok? || !IsRetryable(call(0).message)
    ensures RetryRun(call, maxRetries, delay) == Run(call(0), 1, [])
  {
  }

  /** Under the defaults (three attempts, `delay = 2`), two retryable
      failures (a handshake error, say) are followed by pauses of 2 and 4
      seconds and the third attempt's value is returned. */
  lemma TwoRetryableFailures<T>(error: string, value: T)
    requires IsRetryable(error)
    ensures var call := (k: nat) => if k < 2 then Err(error) else Ok(value);
      RetryRun(call, 3, 2) == Run(Ok(value), 3, [2, 4])
  {
  }

  // ----- The upload's upsert loop -----

  /** Attempts the upload makes at `upsert`. */
  const MaxUpsertAttempts := 3

  /** A remote call the upload makes, in order: an `upsert` of all the points,
      a `create_collection` after a "not found" error, or a pause. */
  datatype Call = Upsert(attempt: nat) | CreateCollection(attempt: nat) | Sleep(seconds: nat)

  /** How the loop treats an upsert error that is neither transient nor
      "not found" before the last attempt: as written it falls off the end of
      the handler and tries again at once; `RaisePermanent` raises it, as the
      code's own comment says it should. */
  datatype Policy = AsWritten | RaisePermanent

  /** What the handler decides after attempt `attempt` failed with `error`:
      go round again after the given calls (a pause or nothing), or raise. */
  datatype Next = Again(pause: seq<Call>) | Raise

  /** The `except` block of the upsert loop. `create` is what
      `create_collection` yields when it is called, i.e. when the error says
      the collection is missing (`None` for success). */
  function AfterUpsertError(error: string, create: Option<string>, attempt: nat, policy: Policy): Next {
    var backoff := [Sleep(2 * (attempt + 1))];
    if IsNotFound(error) && create.None? then Again([])
    else if IsNotFound(error) && Contains(Lower(create.value), "already exists") then Again([])
    else if IsNotFound(error) && (Contains(Lower(create.value), "timeout") || Contains(Lower(create.value), "handshake"))
            && attempt < MaxUpsertAttempts - 1 then Again(backoff)
    else if IsTimeout(error) && attempt < MaxUpsertAttempts - 1 then Again(backoff)
    else if attempt == MaxUpsertAttempts - 1 then Raise
    else if policy == RaisePermanent then Raise
    else Again([])
  }

  /** The outcome of the upsert loop: `None` when the points were stored,
      else the error that escapes; and the remote calls made, in order. */
  datatype UpsertRun = UpsertRun(raised: Option<string>, trace: seq<Call>)

  function Prefixed(calls: seq<Call>, run: UpsertRun): UpsertRun {
    UpsertRun(run.raised, calls + run.trace)
  }

  /** What one attempt of the loop does: store the points, or fail with an
      error, make the `except` block's calls and decide what follows. */
  datatype Attempt = Stored | Failed(error: string, created: seq<Call>, next: Next)

  /** Attempt `k` of the upload's loop; `upserts(k)` is what the `upsert`
      of attempt `k` raises (`None` for success) and `creates(k)` what its
      `create_collection` raises. */
  function AttemptAt(upserts: nat -> Option<string>, creates: nat -> Option<string>, policy: Policy, k: nat): Attempt {
    match upserts(k)
    case None => Stored
    case Some(e) =>
      Failed(e, if IsNotFound(e) then [CreateCollection(k)] else [], AfterUpsertError(e, creates(k), k, policy))
  }

  /** The three attempts the loop may make. */
  function UpsertAttempts(upserts: nat -> Option<string>, creates: nat -> Option<string>, policy: Policy): (r: seq<Attempt>)
    ensures |r| == MaxUpsertAttempts
  {
    [AttemptAt(upserts, creates, policy, 0), AttemptAt(upserts, creates, policy, 1), AttemptAt(upserts, creates, policy, 2)]
  }

  /** The loop over given attempts, from attempt `k` on: a stored attempt
      ends it, a raised error escapes, and going round again after the last
      attempt ends it with that attempt's error. */
  function LoopFrom(attempts: seq<Attempt>, k: nat): UpsertRun
    requires k < |attempts|
    decreases |attempts| - k
  {
    match attempts[k]
    case Stored => UpsertRun(None, [Upsert(k)])
    case Failed(e, created, next) =>
      match next
      case Raise => UpsertRun(Some(e), [Upsert(k)] + created)
      case Again(pause) =>
        if k + 1 < |attempts| then Prefixed([Upsert(k)] + created + pause, LoopFrom(attempts, k + 1))
        else UpsertRun(Some(e), [Upsert(k)] + created + pause)
  }

  /** The upsert loop of the upload handler (and, with `RaisePermanent`, the
      loop its comment describes). */
  function UpsertLoop(upserts: nat -> Option<string>, creates: nat -> Option<string>, policy: Policy): UpsertRun {
    LoopFrom(UpsertAttempts(upserts, creates, policy), 0)
  }

  /** The calls an attempt makes have the shape the handler gives them: at
      most a `create_collection` of that attempt, then no pause or a pause
      of `2 * (k + 1)` seconds before the last attempt. */
  predicate AttemptShaped(a: Attempt, k: nat) {
    a.Failed? ==>
      && (a.created == [] || a.created == [CreateCollection(k)])
      && (a.next.Again? ==> a.next.pause == [] || (k < MaxUpsertAttempts - 1 && a.next.pause == [Sleep(2 * (k + 1))]))
  }

  predicate Shaped(attempts: seq<Attempt>) {
    forall k :: 0 <= k < |attempts| ==> AttemptShaped(attempts[k], k)
  }

  /** The handler pauses nothing, 2 or 4 seconds. */
  lemma PauseShape(error: string, create: Option<string>, attempt: nat, policy: Policy)
    requires AfterUpsertError(error, create, attempt, policy).Again?
    ensures var pause := AfterUpsertError(error, create, attempt, policy).pause;
      pause == [] || (attempt < MaxUpsertAttempts - 1 && pause == [Sleep(2 * (attempt + 1))])
  {
  }

  /** Under `RaisePermanent` the handler goes round again only after a
      transient or a "not found" error. */
  lemma RaisePermanentAgain(error: string, create: Option<string>, attempt: nat)
    requires AfterUpsertError(error, create, attempt, RaisePermanent).Again?
    ensures IsTimeout(error) || IsNotFound(error)
  {
  }

  /** Attempt `k` stores the points exactly when its `upsert` succeeds;
      otherwise its error is the `upsert`'s, it calls `create_collection`
      exactly on a "not found" error, and its calls are shaped. */
  lemma AttemptFacts(upserts: nat -> Option<string>, creates: nat -> Option<string>, policy: Policy, k: nat)
    ensures var a := AttemptAt(upserts, creates, policy, k);
      && (a.Stored? <==> upserts(k).None?)
      && (a.Failed? ==> upserts(k) == Some(a.error) && (a.created != [] <==> IsNotFound(a.error)))
      && AttemptShaped(a, k)
      && (policy == RaisePermanent && a.Failed? && a.next.Again? ==> IsTimeout(a.error) || IsNotFound(a.error))
  {
    if upserts(k).Some? {
      var e := upserts(k).value;
      var next := AfterUpsertError(e, creates(k), k, policy);
      if next.Again? {
        PauseShape(e, creates(k), k, policy);
        if policy == RaisePermanent {
          RaisePermanentAgain(e, creates(k), k);
        }
      }
    }
  }

  lemma AttemptsShaped(upserts: nat -> Option<string>, creates: nat -> Option<string>, policy: Policy)
    ensures Shaped(UpsertAttempts(upserts, creates, policy))
  {
    AttemptFacts(upserts, creates, policy, 0);
    AttemptFacts(upserts, creates, policy, 1);
    AttemptFacts(upserts, creates, policy, 2);
  }

  lemma AttemptsAt(upserts: nat -> Option<string>, creates: nat -> Option<string>, policy: Policy, k: nat)
    requires k < MaxUpsertAttempts
    ensures UpsertAttempts(upserts, creates, policy)[k] == AttemptAt(upserts, creates, policy, k)
  {
  }

  /** One more round of the loop: the calls of a failed attempt that goes
      round again, followed by the rest of the loop. */
  lemma LoopStep(attempts: seq<Attempt>, k: nat, before: seq<Call>, trace: seq<Call>, total: UpsertRun)
    requires k < |attempts| && attempts[k].Failed? && attempts[k].next.Again?
    requires total == Prefixed(before, LoopFrom(attempts, k))
    requires trace == before + [Upsert(k)] + attempts[k].created + attempts[k].next.pause
    ensures k + 1 < |attempts| ==> total == Prefixed(trace, LoopFrom(attempts, k + 1))
    ensures k + 1 == |attempts| ==> total == UpsertRun(Some(attempts[k].error), trace)
  {
    var made := [Upsert(k)] + attempts[k].created + attempts[k].next.pause;
    assert trace == before + made;
    if k + 1 < |attempts| {
      ConcatAssoc(before, made, LoopFrom(attempts, k + 1).trace);
    }
  }

  /** A stored attempt ends the loop with its one `upsert` call. */
  lemma LoopStored(attempts: seq<Attempt>, k: nat, before: seq<Call>, total: UpsertRun)
    requires k < |attempts| && attempts[k].Stored?
    requires total == Prefixed(before, LoopFrom(attempts, k))
    ensures total == UpsertRun(None, before + [Upsert(k)])
  {
  }

  /** An attempt whose handler raises ends the loop with its error. */
  lemma LoopRaised(attempts: seq<Attempt>, k: nat, before: seq<Call>, total: UpsertRun)
    requires k < |attempts| && attempts[k].Failed? && attempts[k].next.Raise?
    requires total == Prefixed(before, LoopFrom(attempts, k))
    ensures total == UpsertRun(Some(attempts[k].error), before + [Upsert(k)] + attempts[k].created)
  {
    ConcatAssoc(before, [Upsert(k)], attempts[k].created);
  }

  lemma ConcatAssoc<X>(a: seq<X>, b: seq<X>, c: seq<X>)
    ensures a + (b + c) == (a + b) + c
  {
  }

  /** The `except` block of the upsert loop, step by step: the calls it
      makes (a `create_collection` after a "not found" error, then perhaps a
      pause) and whether the loop goes round again or raises. */
  method HandleUpsertError(error: string, creates: nat -> Option<string>, attempt: nat, policy: Policy)
    returns (next: Next, created: seq<Call>)
    ensures created == if IsNotFound(error) then [CreateCollection(attempt)] else []
    ensures next == AfterUpsertError(error, creates(attempt), attempt, policy)
  {
    created := [];
    var isTimeout := IsTimeout(error);
    var isNotFound := IsNotFound(error);
    if isNotFound {
      created := [CreateCollection(attempt)];
      var outcome := creates(attempt);
      if outcome.None? {
        return Again([]), created;
      }
      var createError := Lower(outcome.value);
      if Contains(createError, "already exists") {
        return Again([]), created;
      }
      if Contains(createError, "timeout") || Contains(createError, "handshake") {
        if attempt < MaxUpsertAttempts - 1 {
          return Again([Sleep(2 * (attempt + 1))]), created;
        }
      }
    }
    if isTimeout && attempt < MaxUpsertAttempts - 1 {
      return Again([Sleep(2 * (attempt + 1))]), created;
    }
    if attempt == MaxUpsertAttempts - 1 {
      return Raise, created;
    }
    if policy == RaisePermanent {
      return Raise, created;
    }
    next := Again([]);
  }

  /** The upsert loop of the upload handler (and, with `RaisePermanent`, the
      loop its comment describes). */
  method UpsertWithRetry(upserts: nat -> Option<string>, creates: nat -> Option<string>, policy: Policy)
    returns (raised: Option<string>, trace: seq<Call>)
    ensures UpsertRun(raised, trace) == UpsertLoop(upserts, creates, policy)
  {
    ghost var attempts := UpsertAttempts(upserts, creates, policy);
    ghost var total := LoopFrom(attempts, 0);
    trace := [];
    var upsertSuccess := false;
    var lastError: Option<string> := None;
    for attempt := 0 to MaxUpsertAttempts
      invariant attempt < MaxUpsertAttempts ==> total == Prefixed(trace, LoopFrom(attempts, attempt))
      invariant attempt == MaxUpsertAttempts ==> lastError.Some? && total == UpsertRun(lastError, trace)
      invariant !upsertSuccess
    {
      ghost var before := trace;
      AttemptsAt(upserts, creates, policy, attempt);
      trace := trace + [Upsert(attempt)];
      var outcome := upserts(attempt);
      if outcome.None? {
        LoopStored(attempts, attempt, before, total);
        upsertSuccess := true;
        break;
      }
      var e := outcome.value;
      lastError := Some(e);
      var next, created := HandleUpsertError(e, creates, attempt, policy);
      assert attempts[attempt] == Failed(e, created, next);
      trace := trace + created;
      if next.Raise? {
        LoopRaised(attempts, attempt, before, total);
        raised := Some(e);
        return;
      }
      trace := trace + next.pause;
      LoopStep(attempts, attempt, before, trace, total);
    }
    if !upsertSuccess {
      raised := lastError;
      return;
    }
    raised := None;
  }

  // ----- What the loop promises, over any attempts -----

  /** How many `upsert` calls a list of calls holds. */
  function UpsertCount(calls: seq<Call>): nat {
    if calls == [] then 0
    else UpsertCount(calls[..|calls| - 1]) + (if calls[|calls| - 1].Upsert? then 1 else 0)
  }

  lemma {:induction false} UpsertCountAppend(a: seq<Call>, b: seq<Call>)
    ensures UpsertCount(a + b) == UpsertCount(a) + UpsertCount(b)
    decreases |b|
  {
    if b == [] {
      assert a + b == a;
    } else {
      assert (a + b)[..|a + b| - 1] == a + b[..|b| - 1];
      UpsertCountAppend(a, b[..|b| - 1]);
    }
  }

  /** From attempt `k` on, the loop calls `upsert` at most once per
      remaining attempt. */
  lemma {:induction false} LoopCount(attempts: seq<Attempt>, k: nat)
    requires k < |attempts| && Shaped(attempts)
    ensures UpsertCount(LoopFrom(attempts, k).trace) <= |attempts| - k
    decreases |attempts| - k
  {
    if attempts[k].Failed? {
      var a := attempts[k];
      assert AttemptShaped(a, k);
      UpsertCountAppend([Upsert(k)], a.created);
      if a.next.Again? {
        var made := [Upsert(k)] + a.created + a.next.pause;
        UpsertCountAppend([Upsert(k)] + a.created, a.next.pause);
        if k + 1 < |attempts| {
          LoopCount(attempts, k + 1);
          UpsertCountAppend(made, LoopFrom(attempts, k + 1).trace);
        }
      }
    }
  }

  /** From attempt `k` on, every `upsert` and `create_collection` call
      belongs to a later attempt of the loop, and every pause is 2 or 4
      seconds. */
  lemma {:induction false} LoopCalls(attempts: seq<Attempt>, k: nat)
    requires k < |attempts| && Shaped(attempts)
    ensures forall c :: c in LoopFrom(attempts, k).trace ==>
      if c.Sleep? then c.seconds == 2 || c.seconds == 4 else k <= c.attempt < |attempts|
    decreases |attempts| - k
  {
    var trace := LoopFrom(attempts, k).trace;
    if attempts[k].Failed? {
      var a := attempts[k];
      assert AttemptShaped(a, k);
      if a.next.Again? && k + 1 < |attempts| {
        LoopCalls(attempts, k + 1);
        assert trace == ([Upsert(k)] + a.created + a.next.pause) + LoopFrom(attempts, k + 1).trace;
      }
    }
  }

  /** The calls of one failed attempt followed by the calls of later
      attempts: the attempt's own `upsert` is there, its
      `create_collection` is there exactly when it made one, and every other
      attempt's calls are there exactly when they are in the rest. */
  lemma TraceStep(k: nat, created: seq<Call>, pause: seq<Call>, rest: seq<Call>)
    requires created == [] || created == [CreateCollection(k)]
    requires forall c :: c in pause ==> c.Sleep?
    requires forall c :: c in rest && !c.Sleep? ==> k < c.attempt
    ensures var trace := [Upsert(k)] + created + pause + rest;
      && Upsert(k) in trace
      && (CreateCollection(k) in trace <==> created != [])
      && (forall j :: j != k ==> (Upsert(j) in trace <==> Upsert(j) in rest))
      && (forall j :: j != k ==> (CreateCollection(j) in trace <==> CreateCollection(j) in rest))
  {
    var head := [Upsert(k)] + created + pause;
    assert forall j :: j != k ==> Upsert(j) !in head && CreateCollection(j) !in head;
    assert CreateCollection(k) in head <==> created != [];
    assert Upsert(k) !in rest && CreateCollection(k) !in rest;
  }

  /** A failed attempt's calls and the rest of the loop after it. */
  lemma FailedSplit(attempts: seq<Attempt>, k: nat) returns (pause: seq<Call>, rest: UpsertRun)
    requires k < |attempts| && Shaped(attempts) && attempts[k].Failed?
    ensures pause == [] || pause == [Sleep(2 * (k + 1))]
    ensures attempts[k].next.Again? ==> pause == attempts[k].next.pause
    ensures attempts[k].next.Raise? || k + 1 == |attempts| ==> rest == UpsertRun(Some(attempts[k].error), [])
    ensures attempts[k].next.Again? && k + 1 < |attempts| ==> rest == LoopFrom(attempts, k + 1)
    ensures LoopFrom(attempts, k) == UpsertRun(rest.raised, [Upsert(k)] + attempts[k].created + pause + rest.trace)
    ensures forall c :: c in rest.trace && !c.Sleep? ==> k < c.attempt
  {
    var a := attempts[k];
    assert AttemptShaped(a, k);
    pause := if a.next.Again? then a.next.pause else [];
    if a.next.Again? && k + 1 < |attempts| {
      rest := LoopFrom(attempts, k + 1);
      LoopCalls(attempts, k + 1);
    } else {
      rest := UpsertRun(Some(a.error), []);
      assert [Upsert(k)] + a.created + pause + [] == [Upsert(k)] + a.created + pause;
    }
  }

  /** From attempt `k` on, the loop stores the points exactly when one of
      its attempts does, and an error that escapes is the error of one of
      its attempts. */
  lemma {:induction false} LoopOutcome(attempts: seq<Attempt>, k: nat)
    requires k < |attempts| && Shaped(attempts)
    ensures var run := LoopFrom(attempts, k);
      && (run.raised.None? <==> exists j :: 0 <= j < |attempts| && Upsert(j) in run.trace && attempts[j].Stored?)
      && (run.raised.Some? ==> exists j :: 0 <= j < |attempts| && Upsert(j) in run.trace && attempts[j].Failed?
                                           && run.raised == Some(attempts[j].error))
    decreases |attempts| - k
  {
    var run := LoopFrom(attempts, k);
    if attempts[k].Stored? {
      assert Upsert(k) in run.trace;
    } else {
      var a := attempts[k];
      var pause, rest := FailedSplit(attempts, k);
      if a.next.Again? && k + 1 < |attempts| {
        LoopOutcome(attempts, k + 1);
      }
      assert AttemptShaped(a, k);
      TraceStep(k, a.created, pause, rest.trace);
      if rest.raised.None? {
        var j :| 0 <= j < |attempts| && Upsert(j) in rest.trace && attempts[j].Stored?;
        assert Upsert(j) in run.trace;
      } else {
        assert forall j :: 0 <= j < |attempts| && Upsert(j) in run.trace && attempts[j].Stored? ==> Upsert(j) in rest.trace;
        if rest.trace == [] {
          assert Upsert(k) in run.trace && run.raised == Some(a.error);
        } else {
          var j :| 0 <= j < |attempts| && Upsert(j) in rest.trace && attempts[j].Failed? && rest.raised == Some(attempts[j].error);
          assert Upsert(j) in run.trace;
        }
      }
    }
  }

  /** From attempt `k` on, a `create_collection` call is made in attempt
      `j` exactly when attempt `j` ran and made one. */
  lemma {:induction false} LoopCreates(attempts: seq<Attempt>, k: nat)
    requires k < |attempts| && Shaped(attempts)
    ensures var trace := LoopFrom(attempts, k).trace;
      forall j: nat :: CreateCollection(j) in trace <==>
        j < |attempts| && Upsert(j) in trace && attempts[j].Failed? && attempts[j].created != []
    decreases |attempts| - k
  {
    var trace := LoopFrom(attempts, k).trace;
    if attempts[k].Stored? {
      assert trace == [Upsert(k)];
    } else {
      var a := attempts[k];
      var pause, rest := FailedSplit(attempts, k);
      if a.next.Again? && k + 1 < |attempts| {
        LoopCreates(attempts, k + 1);
        LoopCalls(attempts, k + 1);
      }
      assert AttemptShaped(a, k);
      TraceStep(k, a.created, pause, rest.trace);
    }
  }

  /** From attempt `k` on, `upsert` is called in attempt `j + 1` only after
      attempt `j` failed and went round again. */
  lemma {:induction false} LoopRetries(attempts: seq<Attempt>, k: nat)
    requires k < |attempts| && Shaped(attempts)
    ensures var trace := LoopFrom(attempts, k).trace;
      forall j: nat :: k <= j < |attempts| && Upsert(j + 1) in trace ==> attempts[j].Failed? && attempts[j].next.Again?
    decreases |attempts| - k
  {
    var trace := LoopFrom(attempts, k).trace;
    if attempts[k].Stored? {
      assert trace == [Upsert(k)];
    } else {
      var a := attempts[k];
      var pause, rest := FailedSplit(attempts, k);
      if a.next.Again? && k + 1 < |attempts| {
        LoopRetries(attempts, k + 1);
      }
      assert AttemptShaped(a, k);
      TraceStep(k, a.created, pause, rest.trace);
      assert Upsert(k + 1) in trace ==> rest.trace != [];
    }
  }

  // ----- What the upload's loop promises -----

  /** The loop calls `upsert` at most three times. */
  lemma UpsertLoopCount(upserts: nat -> Option<string>, creates: nat -> Option<string>, policy: Policy)
    ensures UpsertCount(UpsertLoop(upserts, creates, policy).trace) <= MaxUpsertAttempts
  {
    AttemptsShaped(upserts, creates, policy);
    LoopCount(UpsertAttempts(upserts, creates, policy), 0);
  }

  /** Every `upsert` and `create_collection` call belongs to one of the
      three attempts, and every pause is 2 or 4 seconds. */
  lemma UpsertLoopCalls(upserts: nat -> Option<string>, creates: nat -> Option<string>, policy: Policy)
    ensures forall c :: c in UpsertLoop(upserts, creates, policy).trace ==>
      if c.Sleep? then c.seconds == 2 || c.seconds == 4 else c.attempt < MaxUpsertAttempts
  {
    AttemptsShaped(upserts, creates, policy);
    LoopCalls(UpsertAttempts(upserts, creates, policy), 0);
  }

  /** The loop stores the points exactly when one of its `upsert` calls
      succeeds; an error that escapes is always the error of one of its
      `upsert` calls, never that of a `create_collection`. */
  lemma UpsertLoopOutcome(upserts: nat -> Option<string>, creates: nat -> Option<string>, policy: Policy)
    ensures var run := UpsertLoop(upserts, creates, policy);
      && (run.raised.None? <==> exists k :: Upsert(k) in run.trace && upserts(k).None?)
      && (run.raised.Some? ==> exists k :: Upsert(k) in run.trace && upserts(k) == run.raised)
  {
    var attempts := UpsertAttempts(upserts, creates, policy);
    var run := UpsertLoop(upserts, creates, policy);
    AttemptsShaped(upserts, creates, policy);
    LoopOutcome(attempts, 0);
    LoopCalls(attempts, 0);
    forall k | 0 <= k < MaxUpsertAttempts
      ensures (attempts[k].Stored? <==> upserts(k).None?)
      ensures attempts[k].Failed? ==> upserts(k) == Some(attempts[k].error)
    {
      AttemptsAt(upserts, creates, policy, k);
      AttemptFacts(upserts, creates, policy, k);
    }
    if run.raised.None? {
      var j :| 0 <= j < |attempts| && Upsert(j) in run.trace && attempts[j].Stored?;
      assert upserts(j).None?;
    } else {
      var j :| 0 <= j < |attempts| && Upsert(j) in run.trace && attempts[j].Failed? && run.raised == Some(attempts[j].error);
      assert upserts(j) == run.raised;
    }
  }

  /** A `create_collection` call is made in attempt `k` exactly when that
      attempt's `upsert` failed with a "not found" error. */
  lemma UpsertLoopCreates(upserts: nat -> Option<string>, creates: nat -> Option<string>, policy: Policy)
    ensures var trace := UpsertLoop(upserts, creates, policy).trace;
      forall k :: CreateCollection(k) in trace <==> Upsert(k) in trace && upserts(k).Some? && IsNotFound(upserts(k).value)
  {
    var attempts := UpsertAttempts(upserts, creates, policy);
    var trace := UpsertLoop(upserts, creates, policy).trace;
    AttemptsShaped(upserts, creates, policy);
    LoopCreates(attempts, 0);
    LoopCalls(attempts, 0);
    forall k: nat
      ensures CreateCollection(k) in trace <==> Upsert(k) in trace && upserts(k).Some? && IsNotFound(upserts(k).value)
    {
      if k < MaxUpsertAttempts {
        AttemptsAt(upserts, creates, policy, k);
        AttemptFacts(upserts, creates, policy, k);
      } else {
        assert Upsert(k) !in trace && CreateCollection(k) !in trace;
      }
    }
  }

  /** With `RaisePermanent`, `upsert` is called again only after a
      transient or a "not found" error. */
  lemma RaisePermanentRetriesOnlyTransient(upserts: nat -> Option<string>, creates: nat -> Option<string>)
    ensures var trace := UpsertLoop(upserts, creates, RaisePermanent).trace;
      forall k: nat :: Upsert(k + 1) in trace ==>
        upserts(k).Some? && (IsTimeout(upserts(k).value) || IsNotFound(upserts(k).value))
  {
    var attempts := UpsertAttempts(upserts, creates, RaisePermanent);
    var trace := UpsertLoop(upserts, creates, RaisePermanent).trace;
    assert trace == LoopFrom(attempts, 0).trace;
    AttemptsShaped(upserts, creates, RaisePermanent);
    forall k: nat | Upsert(k + 1) in trace
      ensures upserts(k).Some? && (IsTimeout(upserts(k).value) || IsNotFound(upserts(k).value))
    {
      LoopRetried(attempts, k);
      RaisePermanentRetried(upserts, creates, k);
    }
  }

  /** An `upsert` of attempt `k + 1` means attempt `k` failed and went
      round again. */
  lemma LoopRetried(attempts: seq<Attempt>, k: nat)
    requires 0 < |attempts| && Shaped(attempts)
    requires Upsert(k + 1) in LoopFrom(attempts, 0).trace
    ensures k + 1 < |attempts| && attempts[k].Failed? && attempts[k].next.Again?
  {
    LoopRetries(attempts, 0);
    LoopCalls(attempts, 0);
  }

  /** Under `RaisePermanent`, an attempt that goes round again failed with
      a transient or a "not found" error. */
  lemma RaisePermanentRetried(upserts: nat -> Option<string>, creates: nat -> Option<string>, k: nat)
    requires k < MaxUpsertAttempts
    requires var a := UpsertAttempts(upserts, creates, RaisePermanent)[k]; a.Failed? && a.next.Again?
    ensures upserts(k).Some? && (IsTimeout(upserts(k).value) || IsNotFound(upserts(k).value))
  {
    AttemptsAt(upserts, creates, RaisePermanent, k);
    AttemptFacts(upserts, creates, RaisePermanent, k);
  }

  // ----- Findings -----

  /** As written, an error that is neither transient nor "not found" (a
      rejected point, say) is retried at once, without a pause, until the
      third attempt raises it. */
  lemma PermanentErrorRetriedAsWritten(error: string, creates: nat -> Option<string>)
    requires !IsTimeout(error) && !IsNotFound(error)
    ensures UpsertLoop((k: nat) => Some(error), creates, AsWritten)
            == UpsertRun(Some(error), [Upsert(0), Upsert(1), Upsert(2)])
  {
    var attempts := UpsertAttempts((k: nat) => Some(error), creates, AsWritten);
    assert attempts == [Failed(error, [], Again([])), Failed(error, [], Again([])), Failed(error, [], Raise)];
    assert LoopFrom(attempts, 2) == UpsertRun(Some(error), [Upsert(2)]);
    assert LoopFrom(attempts, 1) == UpsertRun(Some(error), [Upsert(1), Upsert(2)]);
  }

  /** Raising such an error at once, as the handler's comment intends, makes
      a single `upsert` call. */
  lemma PermanentErrorRaisedAtOnce(error: string, creates: nat -> Option<string>)
    requires !IsTimeout(error) && !IsNotFound(error)
    ensures UpsertLoop((k: nat) => Some(error), creates, RaisePermanent)
            == UpsertRun(Some(error), [Upsert(0)])
  {
    var attempts := UpsertAttempts((k: nat) => Some(error), creates, RaisePermanent);
    assert attempts[0] == Failed(error, [], Raise);
  }

  /** A "not found" error on every attempt whose `create_collection` succeeds:
      the collection is created three times over and the last "not found"
      error escapes, since the third creation ends the loop without another
      `upsert`. */
  lemma CreatedOnLastAttemptStillRaises(error: string, policy: Policy)
    requires IsNotFound(error)
    ensures UpsertLoop((k: nat) => Some(error), (k: nat) => None, policy)
            == UpsertRun(Some(error), [Upsert(0), CreateCollection(0), Upsert(1), CreateCollection(1),
                                       Upsert(2), CreateCollection(2)])
  {
    var attempts := UpsertAttempts((k: nat) => Some(error), (k: nat) => None, policy);
    assert attempts == [Failed(error, [CreateCollection(0)], Again([])), Failed(error, [CreateCollection(1)], Again([])),
                        Failed(error, [CreateCollection(2)], Again([]))];
    assert LoopFrom(attempts, 2) == UpsertRun(Some(error), [Upsert(2), CreateCollection(2)]);
    assert LoopFrom(attempts, 1)
           == UpsertRun(Some(error), [Upsert(1), CreateCollection(1), Upsert(2), CreateCollection(2)]);
  }
}
