/**
 The retry loop of the RPC client and its counters.

 The node and the network are an arbitrary sequence of attempts: what each HTTP exchange would yield, whether the
 caller's context ends during the wait before it, and whether it has ended after it.
 */
module RetryClient {
  import opened Basics

  /** Ways a single attempt fails without an answer from the node. */
  datatype Fault = Marshal | BuildRequest | Transport | ReadBody | Status(code: int) | Unmarshal

  datatype Reply =
    | Answer(result: Bytes)
    | Fault(fault: Fault)
    | RPCError(code: int, message: string)

  /** A response that parses: its result, and the error object if it has one. */
  datatype Response = Response(result: Bytes, error: Option<(int, string)>)

  /** What each stage of one exchange would yield, whether or not the exchange gets that far. */
  datatype Exchange = Exchange(
    marshalled: bool, built: bool, delivered: bool, bodyRead: bool, status: int, parsed: Option<Response>)

  const OK_STATUS: int := 200

  /** The stages of an exchange, in order. */
  predicate Passes(x: Exchange, stage: nat) {
    match stage
    case 0 => x.marshalled
    case 1 => x.built
    case 2 => x.delivered
    case 3 => x.bodyRead
    case 4 => x.status == OK_STATUS
    case 5 => x.parsed.Some?
    case 6 => x.parsed.Some? && x.parsed.value.error.None?
    case _ => true
  }

  const STAGES: nat := 7

  /** The stage at which a reply leaves the exchange. */
  function ExitOf(r: Reply): nat {
    match r
    case Answer(_) => STAGES
    case RPCError(_, _) => 6
    case Fault(Marshal) => 0
    case Fault(BuildRequest) => 1
    case Fault(Transport) => 2
    case Fault(ReadBody) => 3
    case Fault(Status(_)) => 4
    case Fault(Unmarshal) => 5
  }

  /** What the exchange returns: the failure of its first failing stage, or the node's answer. */
  function ReplyTo(x: Exchange): Reply {
    if !x.marshalled then Fault(Marshal)
    else if !x.built then Fault(BuildRequest)
    else if !x.delivered then Fault(Transport)
    else if !x.bodyRead then Fault(ReadBody)
    else if x.status != OK_STATUS then Fault(Status(x.status))
    else match x.parsed
         case None => Fault(Unmarshal)
         case Some(Response(_, Some((code, message)))) => RPCError(code, message)
         case Some(Response(result, None)) => Answer(result)
  }

  /**
   One attempt.  `cut`: how far into the wait before it the caller's context ends, if it does; `endedAfter`: whether
   the context has ended once the exchange is over.
   */
  datatype Attempt = Attempt(cut: Option<nat>, exchange: Exchange, endedAfter: bool, micros: nat)
  {
    function Reply(): Reply {
      ReplyTo(exchange)
    }
  }

  /** `lastReply` is absent only when no attempt is made at all (a negative retry limit). */
  datatype CallError =
    | ContextEnded
    | Refused(code: int, message: string)
    | Exhausted(attempts: int, lastReply: Option<Reply>)

  const DEFAULT_TIMEOUT: int := 30_000_000_000 // 30 s in nanoseconds
  const DEFAULT_RETRIES: int := 3
  const DEFAULT_DELAY: int := 500_000_000 // 500 ms in nanoseconds
  const MOST_RETRIES: int := 10           // what configuration validation admits

  // ----- specification -----

  /** The error codes that are not retried: the server-error range of section 5.1 of JSON-RPC 2.0. */
  predicate NotRetried(code: int) {
    -32099 <= code <= -32000
  }

  predicate CutShort(env: nat -> Attempt, i: nat) {
    i > 0 && env(i).cut.Some?
  }

  /** The call ends at attempt `i`, whatever would come later. */
  predicate Decisive(env: nat -> Attempt, i: nat) {
    || CutShort(env, i)
    || env(i).Reply().Answer?
    || env(i).endedAfter
    || (env(i).Reply().RPCError? && NotRetried(env(i).Reply().code))
  }

  /** The first decisive attempt from `i` on, or the first number past the limit. */
  function FirstDecisive(env: nat -> Attempt, limit: int, i: nat): (d: nat)
    ensures i <= d
    ensures d <= limit ==> Decisive(env, d)
    ensures forall k :: i <= k < d ==> !Decisive(env, k)
    ensures i <= limit + 1 ==> d <= limit + 1
    ensures limit < i ==> d == i
    decreases limit - i
  {
    if i > limit || Decisive(env, i) then i else FirstDecisive(env, limit, i + 1)
  }

  /** What the call returns when it ends at a decisive attempt. */
  function Verdict(env: nat -> Attempt, i: nat): Result<Bytes, CallError>
    requires Decisive(env, i)
  {
    if CutShort(env, i) then Failure(ContextEnded)
    else if env(i).Reply().Answer? then Success(env(i).Reply().result)
    else if env(i).endedAfter then Failure(ContextEnded)
    else Failure(Refused(env(i).Reply().code, env(i).Reply().message))
  }

  function CallResult(env: nat -> Attempt, limit: int): Result<Bytes, CallError> {
    var d := FirstDecisive(env, limit, 0);
    if d <= limit then Verdict(env, d)
    else Failure(Exhausted(limit + 1, if d == 0 then None else Some(env(d - 1).Reply())))
  }

  /** HTTP exchanges actually made. */
  function AttemptsMade(env: nat -> Attempt, limit: int): nat {
    var d := FirstDecisive(env, limit, 0);
    if d <= limit && !CutShort(env, d) then d + 1 else d
  }

  function Failures(env: nat -> Attempt, limit: int): nat {
    var n := AttemptsMade(env, limit);
    if CallResult(env, limit).Success? && 0 < n then n - 1 else n
  }

  /** The wait before attempt `i`; a timer with a negative duration fires at once. */
  function Wait(delay: int, i: nat): nat {
    Max(0, delay * i)
  }

  /** The complete waits before attempts `1` to `k`. */
  function TotalWait(delay: int, k: nat): nat {
    if k == 0 then 0 else TotalWait(delay, k - 1) + Wait(delay, k)
  }

  /** All time spent waiting, including the part of a wait that the context cuts short. */
  function TimeWaited(env: nat -> Attempt, limit: int, delay: int): nat {
    var d := FirstDecisive(env, limit, 0);
    if d <= limit && CutShort(env, d) then TotalWait(delay, d - 1) + Min(env(d).cut.value, Wait(delay, d))
    else TotalWait(delay, Max(0, AttemptsMade(env, limit) - 1))
  }

  function TotalMicros(env: nat -> Attempt, n: nat): nat {
    if n == 0 then 0 else TotalMicros(env, n - 1) + env(n - 1).micros
  }

  // ----- the client -----

  class Client {
    const timeout: int
    const maxRetries: int
    const retryDelay: int
    var requestCount: nat
    var errorCount: nat
    var totalDuration: nat // microseconds

    constructor (timeout: int, maxRetries: int, retryDelay: int)
      ensures this.timeout == if timeout == 0 then 30_000_000_000 else timeout
      ensures this.maxRetries == if maxRetries == 0 then 3 else maxRetries
      ensures this.retryDelay == if retryDelay == 0 then 500_000_000 else retryDelay
      ensures requestCount == errorCount == totalDuration == 0
    {
      var limit, retries, delay := timeout, maxRetries, retryDelay;
      if limit == 0 {
        limit := DEFAULT_TIMEOUT;
      }
      if retries == 0 {
        retries := DEFAULT_RETRIES;
      }
      if delay == 0 {
        delay := DEFAULT_DELAY;
      }
      this.timeout, this.maxRetries, this.retryDelay := limit, retries, delay;
      requestCount, errorCount, totalDuration := 0, 0, 0;
    }

    method RecordMetrics(micros: nat, error: Option<Fault>)
      modifies this`totalDuration, this`errorCount
      ensures totalDuration == old(totalDuration) + micros
      ensures errorCount == old(errorCount) + if error.Some? then 1 else 0
    {
      totalDuration := totalDuration + micros;
      if error.Some? {
        errorCount := errorCount + 1;
      }
    }

    /** The body of one exchange: each of its seven failing exits counts an error of its own. */
    method Exchanged(x: Exchange) returns (r: Reply)
      modifies this`requestCount, this`errorCount
      ensures ExitOf(r) <= STAGES
      ensures forall stage: nat :: stage < ExitOf(r) ==> Passes(x, stage)
      ensures ExitOf(r) < STAGES ==> !Passes(x, ExitOf(r))
      ensures r == ReplyTo(x)
      ensures requestCount == old(requestCount) + 1
      ensures errorCount == old(errorCount) + if ExitOf(r) < STAGES then 1 else 0
    {
      requestCount := requestCount + 1;
      if !x.marshalled {
        errorCount := errorCount + 1;
        return Fault(Marshal);
      }
      if !x.built {
        errorCount := errorCount + 1;
        return Fault(BuildRequest);
      }
      if !x.delivered {
        errorCount := errorCount + 1;
        return Fault(Transport);
      }
      if !x.bodyRead {
        errorCount := errorCount + 1;
        return Fault(ReadBody);
      }
      if x.status != 200 {
        errorCount := errorCount + 1;
        return Fault(Status(x.status));
      }
      if x.parsed.None? {
        errorCount := errorCount + 1;
        return Fault(Unmarshal);
      }
      var response := x.parsed.value;
      if response.error.Some? {
        errorCount := errorCount + 1;
        return RPCError(response.error.value.0, response.error.value.1);
      }
      return Answer(response.result);
    }

    /**
     One attempt.  The deferred `recordMetrics` runs after every exit and is never passed the error, so an exchange
     adds one request, and one error exactly when one of its stages fails.
     */
    method CallOnce(a: Attempt) returns (r: Reply)
      modifies this
      ensures r == a.Reply()
      ensures requestCount == old(requestCount) + 1
      ensures errorCount == old(errorCount) + if forall stage: nat :: Passes(a.exchange, stage) then 0 else 1
      ensures r.Answer? <==> forall stage: nat :: Passes(a.exchange, stage)
      ensures totalDuration == old(totalDuration) + a.micros
    {
      AnswersWhenAllPass(a.exchange);
      r := Exchanged(a.exchange);
      RecordMetrics(a.micros, None);
    }

    /** `waited` is the time spent waiting between attempts. */
    method Call(env: nat -> Attempt) returns (r: Result<Bytes, CallError>, waited: nat)
      modifies this
      ensures r == CallResult(env, maxRetries)
      ensures requestCount == old(requestCount) + AttemptsMade(env, maxRetries)
      ensures errorCount == old(errorCount) + Failures(env, maxRetries)
      ensures totalDuration == old(totalDuration) + TotalMicros(env, AttemptsMade(env, maxRetries))
      ensures waited == TimeWaited(env, maxRetries, retryDelay)
    {
      var lastReply: Option<Reply> := None;
      var attempt := 0;
      waited := 0;
      while attempt <= maxRetries
        invariant 0 <= attempt && (attempt <= maxRetries + 1 || attempt == 0)
        invariant FirstDecisive(env, maxRetries, 0) == FirstDecisive(env, maxRetries, attempt)
        invariant lastReply == if attempt == 0 then None else Some(env(attempt - 1).Reply())
        invariant requestCount == old(requestCount) + attempt && errorCount == old(errorCount) + attempt
        invariant totalDuration == old(totalDuration) + TotalMicros(env, attempt)
        invariant waited == TotalWait(retryDelay, Max(0, attempt - 1))
        decreases maxRetries - attempt
      {
        if attempt > 0 {
          if env(attempt).cut.Some? {
            return Failure(ContextEnded), waited + Min(env(attempt).cut.value, Wait(retryDelay, attempt));
          }
          waited := waited + Wait(retryDelay, attempt);
        }
        var reply := CallOnce(env(attempt));
        if reply.Answer? {
          return Success(reply.result), waited;
        }
        lastReply := Some(reply);
        if env(attempt).endedAfter {
          return Failure(ContextEnded), waited;
        }
        if reply.RPCError? {
          if reply.code >= -32099 && reply.code <= -32000 {
            return Failure(Refused(reply.code, reply.message)), waited;
          }
        }
        attempt := attempt + 1;
      }
      return Failure(Exhausted(maxRetries + 1, lastReply)), waited;
    }
  }

  // ----- what the specification promises -----

  /** The reply is the failure of the first stage that fails, and an answer exactly when none does. */
  lemma FirstFailureIsReported(x: Exchange, stage: nat)
    ensures ExitOf(ReplyTo(x)) == stage < STAGES <==>
              stage < STAGES && !Passes(x, stage) && forall k: nat :: k < stage ==> Passes(x, k)
    ensures ExitOf(ReplyTo(x)) == STAGES <==> forall k: nat :: Passes(x, k)
  {
    var exit := ExitOf(ReplyTo(x));
    assert forall k: nat :: k < exit ==> Passes(x, k);
    assert exit < STAGES ==> !Passes(x, exit);
  }

  /** Every reply, by the fields of the exchange. */
  lemma {:induction false} RepliesByField(x: Exchange)
    ensures ReplyTo(x) == Fault(Marshal) <==> !x.marshalled
    ensures ReplyTo(x) == Fault(BuildRequest) <==> x.marshalled && !x.built
    ensures ReplyTo(x) == Fault(Transport) <==> x.marshalled && x.built && !x.delivered
    ensures ReplyTo(x) == Fault(ReadBody) <==> x.marshalled && x.built && x.delivered && !x.bodyRead
    ensures forall code :: ReplyTo(x) == Fault(Status(code)) <==>
              x.marshalled && x.built && x.delivered && x.bodyRead && x.status == code != 200
    ensures ReplyTo(x) == Fault(Unmarshal) <==>
              x.marshalled && x.built && x.delivered && x.bodyRead && x.status == 200 && x.parsed == None
    ensures forall code, message :: ReplyTo(x) == RPCError(code, message) <==>
              x.marshalled && x.built && x.delivered && x.bodyRead && x.status == 200
              && x.parsed.Some? && x.parsed.value.error == Some((code, message))
    ensures forall result :: ReplyTo(x) == Answer(result) <==>
              x.marshalled && x.built && x.delivered && x.bodyRead && x.status == 200
              && x.parsed == Some(Response(result, None))
  {
  }

  lemma AnswersWhenAllPass(x: Exchange)
    ensures ReplyTo(x).Answer? <==> forall k: nat :: Passes(x, k)
  {
    FirstFailureIsReported(x, STAGES);
  }

  /** Nothing before the first decisive attempt ends the call. */
  lemma {:induction false} EarlierGoOn(env: nat -> Attempt, limit: int)
    ensures forall k: nat :: k < FirstDecisive(env, limit, 0) ==>
              && (k > 0 ==> env(k).cut.None?) && !env(k).Reply().Answer? && !env(k).endedAfter
              && (env(k).Reply().RPCError? ==> !(-32099 <= env(k).Reply().code <= -32000))
  {
    forall k: nat | k < FirstDecisive(env, limit, 0)
      ensures (k > 0 ==> env(k).cut.None?) && !env(k).Reply().Answer? && !env(k).endedAfter
      ensures env(k).Reply().RPCError? ==> !(-32099 <= env(k).Reply().code <= -32000)
    {
      assert !Decisive(env, k);
    }
  }

  /** An attempt that ends the call, after attempts none of which does, is the first decisive one. */
  lemma {:induction false} FirstIs(env: nat -> Attempt, limit: int, i: nat)
    requires i <= limit
    requires (i > 0 && env(i).cut.Some?) || env(i).Reply().Answer? || env(i).endedAfter
             || (env(i).Reply().RPCError? && -32099 <= env(i).Reply().code <= -32000)
    requires forall k: nat :: k < i ==>
               && (k > 0 ==> env(k).cut.None?) && !env(k).Reply().Answer? && !env(k).endedAfter
               && (env(k).Reply().RPCError? ==> !(-32099 <= env(k).Reply().code <= -32000))
    ensures FirstDecisive(env, limit, 0) == i
  {
    assert Decisive(env, i);
    forall k: nat | k < i ensures !Decisive(env, k) {}
  }

  /** A result is returned exactly when an attempt answers with it before anything else ends the call. */
  lemma {:induction false} SucceedsWithFirstAnswer(env: nat -> Attempt, limit: int, result: Bytes)
    ensures CallResult(env, limit) == Success(result) <==>
              exists i: nat ::
                && i <= limit && env(i).Reply() == Answer(result) && (i > 0 ==> env(i).cut.None?)
                && forall k: nat :: k < i ==>
                   && (k > 0 ==> env(k).cut.None?) && !env(k).Reply().Answer? && !env(k).endedAfter
                   && (env(k).Reply().RPCError? ==> !(-32099 <= env(k).Reply().code <= -32000))
  {
    var d := FirstDecisive(env, limit, 0);
    if CallResult(env, limit) == Success(result) {
      assert d <= limit;
      EarlierGoOn(env, limit);
    }
    if i: nat :|
      && i <= limit && env(i).Reply() == Answer(result) && (i > 0 ==> env(i).cut.None?)
      && forall k: nat :: k < i ==>
         && (k > 0 ==> env(k).cut.None?) && !env(k).Reply().Answer? && !env(k).endedAfter
         && (env(k).Reply().RPCError? ==> !(-32099 <= env(k).Reply().code <= -32000))
    {
      FirstIs(env, limit, i);
    }
  }

  /** The node's refusal is passed on exactly when the first attempt to end the call is an error that is not retried. */
  lemma {:induction false} RefusedByServerError(env: nat -> Attempt, limit: int, code: int, message: string)
    ensures CallResult(env, limit) == Failure(Refused(code, message)) <==>
              exists i: nat ::
                && i <= limit && env(i).Reply() == RPCError(code, message) && -32099 <= code <= -32000
                && (i > 0 ==> env(i).cut.None?) && !env(i).endedAfter
                && forall k: nat :: k < i ==>
                   && (k > 0 ==> env(k).cut.None?) && !env(k).Reply().Answer? && !env(k).endedAfter
                   && (env(k).Reply().RPCError? ==> !(-32099 <= env(k).Reply().code <= -32000))
  {
    var d := FirstDecisive(env, limit, 0);
    if CallResult(env, limit) == Failure(Refused(code, message)) {
      assert d <= limit;
      EarlierGoOn(env, limit);
    }
    if i: nat :|
      && i <= limit && env(i).Reply() == RPCError(code, message) && -32099 <= code <= -32000
                && (i > 0 ==> env(i).cut.None?) && !env(i).endedAfter
      && forall k: nat :: k < i ==>
         && (k > 0 ==> env(k).cut.None?) && !env(k).Reply().Answer? && !env(k).endedAfter
         && (env(k).Reply().RPCError? ==> !(-32099 <= env(k).Reply().code <= -32000))
    {
      FirstIs(env, limit, i);
    }
  }

  /** The end of the context is reported exactly when it cuts a wait short or is found after a failed attempt. */
  lemma {:induction false} EndedByContext(env: nat -> Attempt, limit: int)
    ensures CallResult(env, limit) == Failure(ContextEnded) <==>
              exists i: nat ::
                && i <= limit && ((i > 0 && env(i).cut.Some?) || (!env(i).Reply().Answer? && env(i).endedAfter))
                && forall k: nat :: k < i ==>
                   && (k > 0 ==> env(k).cut.None?) && !env(k).Reply().Answer? && !env(k).endedAfter
                   && (env(k).Reply().RPCError? ==> !(-32099 <= env(k).Reply().code <= -32000))
  {
    var d := FirstDecisive(env, limit, 0);
    if CallResult(env, limit) == Failure(ContextEnded) {
      assert d <= limit;
      EarlierGoOn(env, limit);
    }
    if i: nat :|
      && i <= limit && ((i > 0 && env(i).cut.Some?) || (!env(i).Reply().Answer? && env(i).endedAfter))
      && forall k: nat :: k < i ==>
         && (k > 0 ==> env(k).cut.None?) && !env(k).Reply().Answer? && !env(k).endedAfter
         && (env(k).Reply().RPCError? ==> !(-32099 <= env(k).Reply().code <= -32000))
    {
      FirstIs(env, limit, i);
    }
  }

  /**
   Attempts made and time waited, by the first attempt that ends the call: a wait cut short is followed by no exchange
   and counts for what had passed of it.
   */
  lemma {:induction false} AttemptsAndWaits(env: nat -> Attempt, limit: int, delay: int, i: nat)
    requires i <= limit
    requires (i > 0 && env(i).cut.Some?) || env(i).Reply().Answer? || env(i).endedAfter
             || (env(i).Reply().RPCError? && -32099 <= env(i).Reply().code <= -32000)
    requires forall k: nat :: k < i ==>
               && (k > 0 ==> env(k).cut.None?) && !env(k).Reply().Answer? && !env(k).endedAfter
               && (env(k).Reply().RPCError? ==> !(-32099 <= env(k).Reply().code <= -32000))
    ensures var d := if delay < 0 then 0 else delay;
            if i > 0 && env(i).cut.Some? then
              && AttemptsMade(env, limit) == i
              && TimeWaited(env, limit, delay)
                   == d * ((i - 1) * i / 2) + if env(i).cut.value < d * i then env(i).cut.value else d * i
            else
              && AttemptsMade(env, limit) == i + 1
              && TimeWaited(env, limit, delay) == d * (i * (i + 1) / 2)
  {
    FirstIs(env, limit, i);
    WaitIsLinear(delay, i);
    TotalWaitClosedForm(delay, i);
    if i > 0 {
      TotalWaitClosedForm(delay, i - 1);
    }
  }

  /** The durations of any two stretches of attempts add up, and one attempt counts for its own. */
  lemma {:induction false} MicrosAddUp(env: nat -> Attempt, m: nat, n: nat)
    ensures TotalMicros(env, m + n) == TotalMicros(env, m) + TotalMicros((k: nat) => env(m + k), n)
    ensures TotalMicros(env, 1) == env(0).micros
  {
    if n != 0 {
      MicrosAddUp(env, m, n - 1);
    }
    assert TotalMicros(env, 1) == TotalMicros(env, 0) + env(0).micros;
  }

  /** A call that succeeds after `k` failures has made `k + 1` attempts, of which `k` failed. */
  lemma SuccessCounts(env: nat -> Attempt, limit: int)
    requires CallResult(env, limit).Success?
    ensures AttemptsMade(env, limit) == Failures(env, limit) + 1
    ensures forall i: nat :: i < Failures(env, limit) ==> !env(i).Reply().Answer?
    ensures env(Failures(env, limit)).Reply() == Answer(CallResult(env, limit).value)
  {
    forall i: nat | i < Failures(env, limit) ensures !env(i).Reply().Answer? {
      assert !Decisive(env, i);
    }
  }

  /** The call gives up exactly when nothing within the limit is decisive, and then after every permitted attempt. */
  lemma {:induction false} GivesUpAfterAllAttempts(env: nat -> Attempt, limit: int)
    ensures (CallResult(env, limit).Failure? && CallResult(env, limit).error.Exhausted?)
            <==> forall i: nat :: i <= limit ==>
                   && (i > 0 ==> env(i).cut.None?) && !env(i).Reply().Answer? && !env(i).endedAfter
                   && (env(i).Reply().RPCError? ==> !(-32099 <= env(i).Reply().code <= -32000))
    ensures CallResult(env, limit).Failure? && CallResult(env, limit).error.Exhausted? && 0 <= limit ==>
              && AttemptsMade(env, limit) == Failures(env, limit) == limit + 1
              && CallResult(env, limit).error == Exhausted(limit + 1, Some(env(limit).Reply()))
    ensures limit < 0 ==> CallResult(env, limit) == Failure(Exhausted(limit + 1, None)) && AttemptsMade(env, limit) == 0
  {
    var d := FirstDecisive(env, limit, 0);
    EarlierGoOn(env, limit);
    if d <= limit {
      assert Decisive(env, d);
    }
  }

  /** Every failed call counts each of its attempts as an error. */
  lemma FailureCounts(env: nat -> Attempt, limit: int)
    requires CallResult(env, limit).Failure?
    ensures Failures(env, limit) == AttemptsMade(env, limit) <= Max(0, limit + 1)
    ensures forall i: nat :: i < AttemptsMade(env, limit) ==> !env(i).Reply().Answer?
  {
    forall i: nat | i < FirstDecisive(env, limit, 0) ensures !env(i).Reply().Answer? {
      assert !Decisive(env, i);
    }
  }

  /** 1 + 2 + ... + `k` */
  function Triangle(k: nat): nat {
    if k == 0 then 0 else Triangle(k - 1) + k
  }

  lemma {:induction false} TriangleClosedForm(k: nat)
    ensures 2 * Triangle(k) == k * (k + 1)
  {
    if k != 0 {
      TriangleClosedForm(k - 1);
    }
  }

  lemma Distribute(a: int, b: int, c: int)
    ensures a * (b + c) == a * b + a * c
  {
  }

  lemma {:induction false} TotalWaitIsTriangular(delay: int, k: nat)
    ensures TotalWait(delay, k) == Max(0, delay) * Triangle(k)
  {
    if k != 0 {
      TotalWaitIsTriangular(delay, k - 1);
      Distribute(Max(0, delay), Triangle(k - 1), k);
      WaitIsLinear(delay, k);
    }
  }

  lemma WaitIsLinear(delay: int, k: nat)
    ensures Wait(delay, k) == Max(0, delay) * k
  {
  }

  /** The linear backoff in closed form; a negative delay waits for nothing. */
  lemma TotalWaitClosedForm(delay: int, k: nat)
    ensures TotalWait(delay, k) == Max(0, delay) * (k * (k + 1) / 2)
  {
    TotalWaitIsTriangular(delay, k);
    TriangleClosedForm(k);
  }

  lemma {:induction false} TotalWaitGrows(delay: int, j: nat, k: nat)
    requires j <= k
    ensures TotalWait(delay, j) <= TotalWait(delay, k)
  {
    if j < k {
      TotalWaitGrows(delay, j, k - 1);
    }
  }

  /** Whatever happens, and however it ends, a call waits at most as long as all its permitted retries together. */
  lemma WaitIsBounded(env: nat -> Attempt, limit: int, delay: int)
    ensures TimeWaited(env, limit, delay) <= TotalWait(delay, Max(0, limit))
  {
    var d := FirstDecisive(env, limit, 0);
    if d <= limit && CutShort(env, d) {
      TotalWaitGrows(delay, d, limit);
    } else {
      TotalWaitGrows(delay, Max(0, AttemptsMade(env, limit) - 1), Max(0, limit));
    }
  }

  lemma {:induction false} AllRetriesWait(delay: int)
    ensures TotalWait(delay, MOST_RETRIES) == 55 * Max(0, delay)
  {
    TotalWaitIsTriangular(delay, MOST_RETRIES);
    TriangleClosedForm(MOST_RETRIES);
    assert Triangle(MOST_RETRIES) == 55;
  }

  /** For every configuration that validation accepts, a call spends at most 55 retry delays waiting. */
  lemma ValidatedWaitIsBounded(env: nat -> Attempt, configured: int, delay: int)
    requires 0 <= configured <= 10
    ensures var limit := if configured == 0 then 3 else configured;
            var d := if delay == 0 then 500_000_000 else delay;
            TimeWaited(env, limit, d) <= 55 * if d < 0 then 0 else d
  {
    var limit, d := if configured == 0 then 3 else configured, if delay == 0 then 500_000_000 else delay;
    WaitIsBounded(env, limit, d);
    TotalWaitGrows(d, limit, MOST_RETRIES);
    AllRetriesWait(d);
  }

  // ----- any sequence of calls -----

  datatype Counters = Counters(requests: nat, errors: nat)

  /** The counters after these calls: what `Call` adds, call by call. */
  function AfterCalls(limit: int, calls: seq<nat -> Attempt>): Counters {
    if calls == [] then Counters(0, 0)
    else
      var c := AfterCalls(limit, Front(calls));
      var env := Last(calls);
      Counters(c.requests + AttemptsMade(env, limit), c.errors + Failures(env, limit))
  }

  function Successes(limit: int, calls: seq<nat -> Attempt>): nat {
    if calls == [] then 0
    else
      Successes(limit, Front(calls)) + if CallResult(Last(calls), limit).Success? then 1 else 0
  }

  /** Over any sequence of calls the two counters differ by exactly the number of calls that succeeded. */
  lemma {:induction false} RequestsMinusErrors(limit: int, calls: seq<nat -> Attempt>)
    ensures var c := AfterCalls(limit, calls);
            c.errors <= c.requests && c.requests - c.errors == Successes(limit, calls)
  {
    if calls != [] {
      RequestsMinusErrors(limit, Front(calls));
      var env := Last(calls);
      if CallResult(env, limit).Success? {
        SuccessCounts(env, limit);
      } else {
        FailureCounts(env, limit);
      }
    }
  }

  /** The counters of two sequences of calls add up, and one call counts for its own attempts and failures. */
  lemma {:induction false} CountersAddUp(limit: int, a: seq<nat -> Attempt>, b: seq<nat -> Attempt>,
                                         env: nat -> Attempt)
    ensures AfterCalls(limit, a + b).requests == AfterCalls(limit, a).requests + AfterCalls(limit, b).requests
    ensures AfterCalls(limit, a + b).errors == AfterCalls(limit, a).errors + AfterCalls(limit, b).errors
    ensures AfterCalls(limit, [env]) == Counters(AttemptsMade(env, limit), Failures(env, limit))
    decreases |b|
  {
    assert Front([env]) == [];
    if b == [] {
      assert a + b == a;
    } else {
      CountersAddUp(limit, a, Front(b), env);
      assert Front(a + b) == a + Front(b) && Last(a + b) == Last(b);
    }
  }
}
