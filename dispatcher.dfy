/**
 * `WhatsAppService.sendMessage`: validate the number and the text, gate on the
 * client's readiness, then send with at most three attempts and a one-second
 * pause after every failed attempt but the last.
 *
 * The WhatsApp client is an input: `ready` stands for a non-empty
 * `WHATSAPP.info`, and `transport(k)` is what the client's own `sendMessage`
 * does on attempt `k` (0-based). What the service does to the outside world
 * is returned as a log of `Effect`s, a pause as `Delay(1000)` instead of
 * elapsed time. A rejected promise is `Failed(m)`, `m` being the message of
 * the `Error` the service throws.
 */
module Dispatcher {
  import opened JsString

  const MaxAttempts: nat := 3
  const RetryDelayMs: nat := 1000
  const ChatSuffix := "@c.us"

  const InvalidPhone := "Invalid phone number format"
  const EmptyMessage := "Message cannot be empty"
  const NotReady := "WhatsApp client is not ready"
  const FailurePrefix := "Failed to send message: "
  const UnknownError := "Unknown error"

  /** A value thrown by the client: an `Error` carrying its message, or anything else. */
  datatype Thrown = Error(message: string) | NonError

  /** What one call of the client's `sendMessage` does. */
  datatype SendResult = Delivered | Threw(thrown: Thrown)

  /** One externally visible step of the service. */
  datatype Effect = SendCall(chatId: string, body: string) | Delay(ms: nat)

  datatype Outcome = Sent | Failed(message: string)

  /** The result of one `sendMessage` call together with everything it did. */
  datatype Run = Run(outcome: Outcome, effects: seq<Effect>)

  /** `error instanceof Error ? error.message : "Unknown error"` */
  function Describe(e: Thrown): string {
    match e
    case Error(m) => m
    case NonError => UnknownError
  }

  /** The message of the `Error` the outer `catch` re-throws. */
  function Wrap(e: Thrown): (m: string)
    ensures |m| >= |FailurePrefix| && m[..|FailurePrefix|] == FailurePrefix
  {
    FailurePrefix + Describe(e)
  }

  /** `!message || message.trim().length === 0` */
  predicate IsBlank(message: string) {
    message == [] || |Trim(message)| == 0
  }

  /** The address the client is given for a phone number. */
  function ChatId(to: string): string {
    StripNonDigits(to) + ChatSuffix
  }

  /** `k` failed attempts, each followed by its pause. */
  function FailedAttempts(chatId: string, body: string, k: nat): (log: seq<Effect>)
    ensures |log| == 2 * k
  {
    if k == 0 then [] else FailedAttempts(chatId, body, k - 1) + [SendCall(chatId, body), Delay(RetryDelayMs)]
  }

  /** `run` with `log` happening before it. */
  function After(log: seq<Effect>, run: Run): Run {
    Run(run.outcome, log + run.effects)
  }

  lemma AfterAfter(log1: seq<Effect>, log2: seq<Effect>, run: Run)
    ensures After(log1, After(log2, run)) == After(log1 + log2, run)
  {
    assert log1 + (log2 + run.effects) == (log1 + log2) + run.effects;
  }

  /** The retry loop, entered with `attempt` attempts already spent. */
  function RetryFrom(chatId: string, body: string, transport: nat -> SendResult, attempt: nat): Run
    requires attempt < MaxAttempts
    decreases MaxAttempts - attempt
  {
    match transport(attempt)
    case Delivered => Run(Sent, [SendCall(chatId, body)])
    case Threw(e) =>
      if attempt + 1 == MaxAttempts then Run(Failed(Wrap(e)), [SendCall(chatId, body)])
      else After([SendCall(chatId, body), Delay(RetryDelayMs)], RetryFrom(chatId, body, transport, attempt + 1))
  }

  /** What one call of `sendMessage(to, message)` returns and does. */
  function Dispatch(to: string, message: string, ready: bool, transport: nat -> SendResult): Run {
    if !IsDigits(to) then Run(Failed(Wrap(Error(InvalidPhone))), [])
    else if IsBlank(message) then Run(Failed(Wrap(Error(EmptyMessage))), [])
    else if !ready then Run(Failed(Wrap(Error(NotReady))), [])
    else RetryFrom(ChatId(to), message, transport, 0)
  }

  /** One turn of the retry loop. */
  lemma RetryStep(chatId: string, body: string, transport: nat -> SendResult, attempt: nat)
    requires attempt < MaxAttempts
    ensures transport(attempt).Delivered? ==>
              RetryFrom(chatId, body, transport, attempt) == Run(Sent, [SendCall(chatId, body)])
    ensures transport(attempt).Threw? && attempt + 1 == MaxAttempts ==>
              RetryFrom(chatId, body, transport, attempt)
              == Run(Failed(Wrap(transport(attempt).thrown)), [SendCall(chatId, body)])
    ensures transport(attempt).Threw? && attempt + 1 < MaxAttempts ==>
              RetryFrom(chatId, body, transport, attempt)
              == After([SendCall(chatId, body), Delay(RetryDelayMs)], RetryFrom(chatId, body, transport, attempt + 1))
  {
  }

  /** The service's `sendMessage`: the checks, then the retry loop. */
  method SendMessage(to: string, message: string, ready: bool, transport: nat -> SendResult)
    returns (outcome: Outcome, effects: seq<Effect>)
    ensures Run(outcome, effects) == Dispatch(to, message, ready, transport)
  {
    if !IsDigits(to) {
      return Failed(Wrap(Error(InvalidPhone))), [];
    }
    if message == [] || |Trim(message)| == 0 {
      return Failed(Wrap(Error(EmptyMessage))), [];
    }
    var formattedNumber := StripNonDigits(to);
    if !ready {
      return Failed(Wrap(Error(NotReady))), [];
    }
    outcome, effects := SendWithRetries(formattedNumber + ChatSuffix, message, transport);
  }

  /**
   * The `retries` loop of `sendMessage`: return on the first delivery,
   * re-throw the error once the counter reaches zero, pause otherwise.
   */
  method SendWithRetries(chatId: string, message: string, transport: nat -> SendResult)
    returns (outcome: Outcome, effects: seq<Effect>)
    ensures Run(outcome, effects) == RetryFrom(chatId, message, transport, 0)
  {
    effects := [];
    var retries := MaxAttempts;
    while retries > 0
      invariant 0 < retries <= MaxAttempts
      invariant effects == FailedAttempts(chatId, message, MaxAttempts - retries)
      invariant RetryFrom(chatId, message, transport, 0)
                == After(effects, RetryFrom(chatId, message, transport, MaxAttempts - retries))
      decreases retries
    {
      var attempt := MaxAttempts - retries;
      RetryStep(chatId, message, transport, attempt);
      ghost var before := effects;
      effects := effects + [SendCall(chatId, message)];
      match transport(attempt) {
        case Delivered =>
          outcome := Sent;
          return;
        case Threw(err) =>
          retries := retries - 1;
          if retries == 0 {
            outcome := Failed(Wrap(err));
            return;
          }
          AfterAfter(before, [SendCall(chatId, message), Delay(RetryDelayMs)],
                     RetryFrom(chatId, message, transport, attempt + 1));
          effects := effects + [Delay(RetryDelayMs)];
      }
    }
    assert false;
  }

  /** The number of calls of the client's `sendMessage` in `log`. */
  function Sends(log: seq<Effect>): (n: nat)
    ensures n <= |log|
  {
    if log == [] then 0 else (if log[0].SendCall? then 1 else 0) + Sends(log[1..])
  }

  /** The number of pauses in `log`. */
  function Delays(log: seq<Effect>): (n: nat)
    ensures n <= |log|
  {
    if log == [] then 0 else (if log[0].Delay? then 1 else 0) + Delays(log[1..])
  }

  lemma {:induction false} CountsAppend(a: seq<Effect>, b: seq<Effect>)
    ensures Sends(a + b) == Sends(a) + Sends(b)
    ensures Delays(a + b) == Delays(a) + Delays(b)
  {
    if a != [] {
      assert (a + b)[1..] == a[1..] + b;
      CountsAppend(a[1..], b);
    } else {
      assert a + b == b;
    }
  }

  /** `k` failed attempts then a last call: `k + 1` calls and `k` pauses, every call the same. */
  lemma {:induction false} FailedAttemptsShape(chatId: string, body: string, k: nat)
    ensures Sends(FailedAttempts(chatId, body, k) + [SendCall(chatId, body)]) == k + 1
    ensures Delays(FailedAttempts(chatId, body, k) + [SendCall(chatId, body)]) == k
    ensures forall e :: e in FailedAttempts(chatId, body, k) ==> e == SendCall(chatId, body) || e == Delay(RetryDelayMs)
  {
    var step := [SendCall(chatId, body), Delay(RetryDelayMs)];
    CountsAppend(FailedAttempts(chatId, body, k), [SendCall(chatId, body)]);
    if k > 0 {
      FailedAttemptsShape(chatId, body, k - 1);
      CountsAppend(FailedAttempts(chatId, body, k - 1), [SendCall(chatId, body)]);
      CountsAppend(FailedAttempts(chatId, body, k - 1), step);
      assert Sends(step) == 1 && Delays(step) == 1;
    }
  }

  /** Failed attempts can be counted from the front as well as from the back. */
  lemma {:induction false} FailedAttemptsCons(chatId: string, body: string, k: nat)
    ensures [SendCall(chatId, body), Delay(RetryDelayMs)] + FailedAttempts(chatId, body, k)
            == FailedAttempts(chatId, body, k + 1)
  {
    if k > 0 {
      FailedAttemptsCons(chatId, body, k - 1);
    }
  }

  /** A retry loop entered at `attempt` whose every attempt from there up to `k` fails except `k`. */
  lemma {:induction false} RetryDeliversAt(chatId: string, body: string, transport: nat -> SendResult, attempt: nat, k: nat)
    requires attempt <= k < MaxAttempts
    requires forall j :: attempt <= j < k ==> transport(j).Threw?
    requires transport(k).Delivered?
    ensures RetryFrom(chatId, body, transport, attempt)
            == Run(Sent, FailedAttempts(chatId, body, k - attempt) + [SendCall(chatId, body)])
    decreases k - attempt
  {
    if attempt < k {
      RetryDeliversAt(chatId, body, transport, attempt + 1, k);
      FailedAttemptsCons(chatId, body, k - attempt - 1);
    }
  }

  /** A retry loop entered at `attempt` whose every remaining attempt fails. */
  lemma {:induction false} RetryExhausted(chatId: string, body: string, transport: nat -> SendResult, attempt: nat)
    requires attempt < MaxAttempts
    requires forall j :: attempt <= j < MaxAttempts ==> transport(j).Threw?
    ensures RetryFrom(chatId, body, transport, attempt)
            == Run(Failed(Wrap(transport(MaxAttempts - 1).thrown)),
                   FailedAttempts(chatId, body, MaxAttempts - 1 - attempt) + [SendCall(chatId, body)])
    decreases MaxAttempts - attempt
  {
    if attempt + 1 < MaxAttempts {
      RetryExhausted(chatId, body, transport, attempt + 1);
      FailedAttemptsCons(chatId, body, MaxAttempts - 2 - attempt);
    }
  }

  /** A number that is not all digits is refused before anything else is looked at, and nothing is sent. */
  lemma RejectsInvalidNumber(to: string, message: string, ready: bool, transport: nat -> SendResult)
    requires !IsDigits(to)
    ensures Dispatch(to, message, ready, transport) == Run(Failed(FailurePrefix + InvalidPhone), [])
  {
  }

  /**
   * With a valid number, the text is refused, with nothing sent, exactly when
   * it is empty or white space only.
   */
  lemma RejectsBlankMessage(to: string, message: string, ready: bool, transport: nat -> SendResult)
    requires IsDigits(to)
    ensures Dispatch(to, message, ready, transport) == Run(Failed(FailurePrefix + EmptyMessage), [])
            <==> forall k :: 0 <= k < |message| ==> IsSpace(message[k])
  {
    TrimIsCore(message);
    if !IsBlank(message) && ready {
      assert transport(0).Delivered? || transport(0).Threw?;
    }
  }

  /** With a valid number and text, an unready client is refused, with nothing sent. */
  lemma RejectsWhenNotReady(to: string, message: string, transport: nat -> SendResult)
    requires IsDigits(to) && !IsBlank(message)
    ensures Dispatch(to, message, false, transport) == Run(Failed(FailurePrefix + NotReady), [])
  {
  }

  /** The client is called at all exactly when the number, the text and the client pass their checks. */
  lemma SendsOnlyWhenAccepted(to: string, message: string, ready: bool, transport: nat -> SendResult)
    ensures Dispatch(to, message, ready, transport).effects != []
            <==> IsDigits(to) && !IsBlank(message) && ready
  {
  }

  /**
   * If the first `k` attempts fail and attempt `k` (below three) succeeds,
   * the promise resolves after exactly `k + 1` calls and `k` pauses, every
   * call to the number with the `@c.us` suffix and the text unchanged.
   */
  lemma DeliveredAfterFailures(to: string, message: string, transport: nat -> SendResult, k: nat)
    requires IsDigits(to) && !IsBlank(message)
    requires k < MaxAttempts
    requires forall j :: 0 <= j < k ==> transport(j).Threw?
    requires transport(k).Delivered?
    ensures Dispatch(to, message, true, transport)
            == Run(Sent, FailedAttempts(to + ChatSuffix, message, k) + [SendCall(to + ChatSuffix, message)])
    ensures Sends(Dispatch(to, message, true, transport).effects) == k + 1
    ensures Delays(Dispatch(to, message, true, transport).effects) == k
  {
    AcceptedDispatch(to, message, transport);
    RetryDeliversAt(to + ChatSuffix, message, transport, 0, k);
    FailedAttemptsShape(to + ChatSuffix, message, k);
  }

  /**
   * If all three attempts fail, the promise is rejected with the third
   * attempt's error behind the "Failed to send message: " prefix, after
   * exactly three calls and two pauses.
   */
  lemma AllAttemptsFail(to: string, message: string, transport: nat -> SendResult)
    requires IsDigits(to) && !IsBlank(message)
    requires forall j :: 0 <= j < MaxAttempts ==> transport(j).Threw?
    ensures Dispatch(to, message, true, transport)
            == Run(Failed(FailurePrefix + Describe(transport(2).thrown)),
                   [SendCall(to + ChatSuffix, message), Delay(RetryDelayMs),
                    SendCall(to + ChatSuffix, message), Delay(RetryDelayMs),
                    SendCall(to + ChatSuffix, message)])
  {
    AcceptedDispatch(to, message, transport);
    RetryExhausted(to + ChatSuffix, message, transport, 0);
  }

  /** The promise resolves exactly when the checks pass and one of the first three attempts delivers. */
  lemma SentIffSomeAttemptDelivers(to: string, message: string, ready: bool, transport: nat -> SendResult)
    ensures Dispatch(to, message, ready, transport).outcome == Sent
            <==> IsDigits(to) && !IsBlank(message) && ready
                 && exists k :: 0 <= k < MaxAttempts && transport(k).Delivered?
  {
    if IsDigits(to) && !IsBlank(message) && ready {
      AcceptedDispatch(to, message, transport);
      RetrySentIff(to + ChatSuffix, message, transport);
    }
  }

  /** Once the checks pass, the loop is entered with the number itself as the chat id. */
  lemma AcceptedDispatch(to: string, message: string, transport: nat -> SendResult)
    requires IsDigits(to) && !IsBlank(message)
    ensures Dispatch(to, message, true, transport) == RetryFrom(to + ChatSuffix, message, transport, 0)
  {
    assert ChatId(to) == to + ChatSuffix;
  }

  /** Whatever the client does, the loop makes some failed attempts and then a last call. */
  lemma RetryShape(chatId: string, body: string, transport: nat -> SendResult) returns (k: nat)
    ensures k < MaxAttempts
    ensures RetryFrom(chatId, body, transport, 0).effects == FailedAttempts(chatId, body, k) + [SendCall(chatId, body)]
  {
    if transport(0).Delivered? {
      k := 0;
      RetryDeliversAt(chatId, body, transport, 0, 0);
    } else if transport(1).Delivered? {
      k := 1;
      RetryDeliversAt(chatId, body, transport, 0, 1);
    } else if transport(2).Delivered? {
      k := 2;
      RetryDeliversAt(chatId, body, transport, 0, 2);
    } else {
      k := 2;
      RetryExhausted(chatId, body, transport, 0);
    }
  }

  /** The loop resolves exactly when one of the three attempts delivers. */
  lemma RetrySentIff(chatId: string, body: string, transport: nat -> SendResult)
    ensures RetryFrom(chatId, body, transport, 0).outcome == Sent
            <==> exists k :: 0 <= k < MaxAttempts && transport(k).Delivered?
  {
    if transport(0).Delivered? {
      RetryDeliversAt(chatId, body, transport, 0, 0);
    } else if transport(1).Delivered? {
      RetryDeliversAt(chatId, body, transport, 0, 1);
    } else if transport(2).Delivered? {
      RetryDeliversAt(chatId, body, transport, 0, 2);
    } else {
      RetryExhausted(chatId, body, transport, 0);
    }
  }

  /**
   * Whatever the client does: at most three calls, a pause between two
   * consecutive calls and nowhere else, and every call to the number with the
   * `@c.us` suffix and the text unchanged.
   */
  lemma AtMostThreeCalls(to: string, message: string, ready: bool, transport: nat -> SendResult)
    ensures Sends(Dispatch(to, message, ready, transport).effects) <= MaxAttempts
    ensures Delays(Dispatch(to, message, ready, transport).effects)
            == if Dispatch(to, message, ready, transport).effects == [] then 0
               else Sends(Dispatch(to, message, ready, transport).effects) - 1
    ensures forall e :: e in Dispatch(to, message, ready, transport).effects && e.SendCall?
              ==> e == SendCall(to + ChatSuffix, message)
  {
    var effects := Dispatch(to, message, ready, transport).effects;
    if IsDigits(to) && !IsBlank(message) && ready {
      var c := to + ChatSuffix;
      AcceptedDispatch(to, message, transport);
      var k := RetryShape(c, message, transport);
      FailedAttemptsShape(c, message, k);
      forall e | e in effects && e.SendCall? ensures e == SendCall(c, message) {
        assert e in FailedAttempts(c, message, k) || e == SendCall(c, message);
      }
    }
  }
}
