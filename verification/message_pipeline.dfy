/**
 * The chat message pipeline: ChatController hands chat messages to the
 * Kafka producer and routes typing events straight to the broker;
 * KafkaConsumerService persists each consumed record, broadcasts it and
 * acknowledges it; KafkaConfig's DefaultErrorHandler redelivers a failed
 * record up to three times and then, or at once for a non-retryable
 * failure, publishes it to the dead-letter topic, whose listener only
 * acknowledges. What the repository, the broker and the acknowledgment do
 * on each delivery is an oracle `AttemptOutcome`.
 */
module MessagePipeline {
  import opened Common
  import opened Wire

  /** `FixedBackOff(1000L, 3L)`: three redeliveries, one second apart (the delay is not modelled). */
  const MaxRetries: nat := 3
  const BackOffMillis: nat := 1000

  /** The first delivery plus the retries. */
  const MaxAttempts: nat := MaxRetries + 1

  /** The topic the DeadLetterPublishingRecoverer's destination resolver names. */
  const DeadLetterTopic := "chat-messages-dlt"

  /** The exception classes the error handler's classifier tells apart. */
  datatype Failure =
    | IllegalArgument
      /**
       * The classes DefaultErrorHandler refuses to retry out of the box:
       * DeserializationException, MessageConversionException,
       * ConversionException, MethodArgumentResolutionException,
       * NoSuchMethodException and ClassCastException.
       */
    | DefaultNotRetryable
    | OtherFailure

  /**
   * The classifier: the default not-retryable classes plus
   * `addNotRetryableExceptions(IllegalArgumentException.class)`; it looks
   * through the KafkaException wrapper at the cause.
   */
  predicate Retryable(f: Failure) {
    f == OtherFailure
  }

  /** What `messageRepository.save` does on one delivery: assigns an identity, or throws. */
  datatype SaveOutcome = Saved(id: nat) | SaveThrows(failure: Failure)

  /** What the outside world does on one delivery: the save, and whether the send or the acknowledge throws. */
  datatype AttemptOutcome = AttemptOutcome(save: SaveOutcome, sendThrows: Option<Failure>, ackThrows: Option<Failure>)

  /** The calls the pipeline makes, in order. */
  datatype Effect =
    | SaveCall(message: ChatMessage)
    | Send(outbound: Outbound)
    | Acknowledge
    | ProduceCall(message: ChatMessage)
    | PublishDeadLetter(topic: string, record: ChatMessage)

  /** The calls of one delivery and the exception it ends with, if any. */
  datatype Attempt = Attempt(effects: seq<Effect>, failure: Option<Failure>)

  /** The message as `save` returns it: the same row with its generated id. */
  function SavedMessage(message: ChatMessage, id: nat): (saved: ChatMessage)
    ensures saved.id == Some(id)
    ensures saved.(id := message.id) == message
  {
    message.(id := Some(id))
  }

  /**
   * The record DeadLetterPublishingRecoverer publishes after a failed last
   * delivery: the value the listener received on that delivery. `save` of a
   * message without an id persists that very object, and the generated id is
   * written into it; a message that already has an id is merged, and the copy
   * merge returns gets the id, not the received object. A save that throws
   * leaves the object as consumed. Each redelivery deserializes the record
   * afresh, so only the last delivery's save matters.
   */
  function DeadLetterRecord(message: ChatMessage, o: AttemptOutcome): (d: ChatMessage)
    ensures o.save.Saved? && message.id.None? ==> d == SavedMessage(message, o.save.id)
    ensures o.save.SaveThrows? || message.id.Some? ==> d == message
  {
    if o.save.Saved? && message.id.None? then SavedMessage(message, o.save.id) else message
  }

  /**
   * consumeMessage on one delivery: save, then send the saved message to
   * `/topic/chat/<roomId>`, then acknowledge; the first exception ends the
   * delivery and is rethrown (wrapped in a KafkaException).
   */
  function ConsumeMessage(message: ChatMessage, o: AttemptOutcome): (a: Attempt)
    ensures |a.effects| >= 1 && a.effects[0] == SaveCall(message)
  {
    match o.save
    case SaveThrows(failure) => Attempt([SaveCall(message)], Some(failure))
    case Saved(id) =>
      var saved := SavedMessage(message, id);
      var sent := [SaveCall(message), Send(ToTopic(ChatTopic(saved.roomId), ChatPayload(saved)))];
      if o.sendThrows.Some? then Attempt(sent, o.sendThrows)
      else Attempt(sent + [Acknowledge], o.ackThrows)
  }

  /**
   * One delivery in order: the save comes first; the saved message, with its
   * id, is sent to its room's chat topic only after a successful save; the
   * acknowledge comes last and only after the send; the delivery fails
   * exactly when one of the three throws, and a failed save ends it.
   */
  lemma ConsumeMessageOrder(message: ChatMessage, o: AttemptOutcome)
    ensures var a := ConsumeMessage(message, o);
            a.failure.None? <==> o.save.Saved? && o.sendThrows.None? && o.ackThrows.None?
    ensures o.save.SaveThrows? ==> ConsumeMessage(message, o) == Attempt([SaveCall(message)], Some(o.save.failure))
    ensures var a := ConsumeMessage(message, o);
            o.save.Saved? ==>
              var saved := SavedMessage(message, o.save.id);
              |a.effects| >= 2 && a.effects[1] == Send(ToTopic(ChatTopic(saved.roomId), ChatPayload(saved)))
    ensures var a := ConsumeMessage(message, o);
            Acknowledge in a.effects <==> o.save.Saved? && o.sendThrows.None?
    ensures var a := ConsumeMessage(message, o);
            Acknowledge in a.effects ==> a.effects[|a.effects| - 1] == Acknowledge
  {
  }

  /** The fate of a record: delivered `attempts` times, and either acknowledged or dead-lettered. */
  datatype Outcome = Outcome(effects: seq<Effect>, attempts: nat, deadLettered: bool)

  /**
   * DefaultErrorHandler driving deliveries `attempt`, `attempt + 1`, ... of
   * one record: a delivery that fails with a retryable exception is followed
   * by another while fewer than MaxAttempts were made; otherwise the record
   * is published to the dead-letter topic.
   */
  function Deliver(message: ChatMessage, outcomes: nat -> AttemptOutcome, attempt: nat): (r: Outcome)
    requires attempt < MaxAttempts
    ensures attempt < r.attempts <= MaxAttempts
    decreases MaxAttempts - attempt
  {
    var a := ConsumeMessage(message, outcomes(attempt));
    match a.failure
    case None => Outcome(a.effects, attempt + 1, false)
    case Some(failure) =>
      if Retryable(failure) && attempt + 1 < MaxAttempts then
        var rest := Deliver(message, outcomes, attempt + 1);
        Outcome(a.effects + rest.effects, rest.attempts, rest.deadLettered)
      else Outcome(a.effects + [PublishDeadLetter(DeadLetterTopic, DeadLetterRecord(message, outcomes(attempt)))], attempt + 1, true)
  }

  /** The error handler's treatment of a freshly consumed record. */
  function ProcessRecord(message: ChatMessage, outcomes: nat -> AttemptOutcome): (r: Outcome)
    ensures 1 <= r.attempts <= MaxAttempts
  {
    Deliver(message, outcomes, 0)
  }

  /** The outcome `o` of the remaining deliveries, after deliveries that made the calls `before`. */
  function After(before: seq<Effect>, o: Outcome): Outcome {
    Outcome(before + o.effects, o.attempts, o.deadLettered)
  }

  /**
   * The listener container's redelivery loop: the same treatment computed
   * delivery by delivery, as the container performs it.
   */
  method RunContainer(message: ChatMessage, outcomes: nat -> AttemptOutcome) returns (effects: seq<Effect>, attempts: nat, deadLettered: bool)
    ensures Outcome(effects, attempts, deadLettered) == ProcessRecord(message, outcomes)
    ensures 1 <= attempts <= MaxAttempts
  {
    effects := [];
    attempts := 0;
    var a := ConsumeMessage(message, outcomes(0));
    assert After([], Deliver(message, outcomes, 0)) == ProcessRecord(message, outcomes);
    while a.failure.Some? && Retryable(a.failure.value) && attempts + 1 < MaxAttempts
      invariant attempts < MaxAttempts
      invariant a == ConsumeMessage(message, outcomes(attempts))
      invariant After(effects, Deliver(message, outcomes, attempts)) == ProcessRecord(message, outcomes)
      decreases MaxAttempts - attempts
    {
      RetriedDelivery(effects, message, outcomes, attempts);
      effects := effects + a.effects;
      attempts := attempts + 1;
      a := ConsumeMessage(message, outcomes(attempts));
    }
    FinalDelivery(effects, message, outcomes, attempts);
    var last := Finish(effects, message, outcomes(attempts), attempts);
    effects, attempts, deadLettered := last.effects, last.attempts, last.deadLettered;
  }

  /** The last delivery, made after the calls `before`: acknowledged on success, otherwise followed by the dead-letter publication. */
  function Finish(before: seq<Effect>, message: ChatMessage, o: AttemptOutcome, attempt: nat): Outcome {
    var a := ConsumeMessage(message, o);
    if a.failure.None? then Outcome(before + a.effects, attempt + 1, false)
    else Outcome(before + (a.effects + [PublishDeadLetter(DeadLetterTopic, DeadLetterRecord(message, o))]), attempt + 1, true)
  }

  /** A delivery that fails retryably with attempts left contributes its calls and hands over to the next. */
  lemma {:induction false} RetriedDelivery(before: seq<Effect>, message: ChatMessage, outcomes: nat -> AttemptOutcome, attempt: nat)
    requires attempt + 1 < MaxAttempts
    requires var a := ConsumeMessage(message, outcomes(attempt)); a.failure.Some? && Retryable(a.failure.value)
    ensures After(before, Deliver(message, outcomes, attempt))
            == After(before + ConsumeMessage(message, outcomes(attempt)).effects, Deliver(message, outcomes, attempt + 1))
  {
    var a := ConsumeMessage(message, outcomes(attempt));
    var rest := Deliver(message, outcomes, attempt + 1);
    assert Deliver(message, outcomes, attempt) == Outcome(a.effects + rest.effects, rest.attempts, rest.deadLettered);
    assert before + (a.effects + rest.effects) == (before + a.effects) + rest.effects;
  }

  /** The last delivery: acknowledged on success, otherwise followed by the dead-letter publication. */
  lemma {:induction false} FinalDelivery(before: seq<Effect>, message: ChatMessage, outcomes: nat -> AttemptOutcome, attempt: nat)
    requires attempt < MaxAttempts
    requires var a := ConsumeMessage(message, outcomes(attempt));
             !(a.failure.Some? && Retryable(a.failure.value) && attempt + 1 < MaxAttempts)
    ensures After(before, Deliver(message, outcomes, attempt))
            == Finish(before, message, outcomes(attempt), attempt)
  {
  }

  /** consumeDeadLetterMessage: logs the record and acknowledges it. */
  function ConsumeDeadLetter(message: ChatMessage): (es: seq<Effect>)
    ensures Acknowledge in es
    ensures forall e | e in es :: !e.SaveCall? && !e.Send? && !e.ProduceCall? && !e.PublishDeadLetter?
  {
    [Acknowledge]
  }

  /** The topic the dead-letter listener subscribes to, given the configured chat-messages topic. */
  function DeadLetterListenerTopic(chatMessagesTopic: string): string {
    chatMessagesTopic + "-dlt"
  }

  /** ChatController.sendMessage: the message goes to the producer once; nothing is saved or sent to a topic. */
  function SendMessage(message: ChatMessage): (es: seq<Effect>)
    ensures |es| == 1 && es[0] == ProduceCall(message)
    ensures forall e | e in es :: !e.SaveCall? && !e.Send?
  {
    [ProduceCall(message)]
  }

  /**
   * ChatController.handleTyping: an event with a null or empty room id is
   * dropped; any other is sent once, unchanged, to that room's typing topic.
   * Typing events are never saved or handed to the producer.
   */
  function HandleTyping(event: TypingEvent): (es: seq<Effect>)
    ensures es == [] <==> event.roomId.None? || event.roomId.value == ""
    ensures |es| <= 1
    ensures forall e | e in es :: e == Send(ToTopic(TypingTopic(event.roomId.value), TypingPayload(event)))
  {
    if event.roomId.None? || |event.roomId.value| == 0 then []
    else [Send(ToTopic(TypingTopic(event.roomId.value), TypingPayload(event)))]
  }

  // ---------------------------------------------------------------------
  // Properties of the error handling
  // ---------------------------------------------------------------------

  /** A delivery whose save, send and acknowledge all succeed. */
  predicate Succeeds(o: AttemptOutcome) {
    o.save.Saved? && o.sendThrows.None? && o.ackThrows.None?
  }

  /** The failure a delivery ends with, if any. */
  function FailureOf(o: AttemptOutcome): Option<Failure> {
    if o.save.SaveThrows? then Some(o.save.failure)
    else if o.sendThrows.Some? then o.sendThrows
    else o.ackThrows
  }

  /** A record whose first delivery succeeds is saved, sent to its room's chat topic with its id, and acknowledged, once each. */
  lemma FirstDeliverySucceeds(message: ChatMessage, outcomes: nat -> AttemptOutcome)
    requires Succeeds(outcomes(0))
    ensures var saved := SavedMessage(message, outcomes(0).save.id);
            ProcessRecord(message, outcomes)
            == Outcome([SaveCall(message), Send(ToTopic(ChatTopic(saved.roomId), ChatPayload(saved))), Acknowledge], 1, false)
  {
  }

  /**
   * A record whose every delivery fails with a retryable exception is
   * delivered MaxAttempts (4) times and then published, once, to
   * "chat-messages-dlt".
   */
  lemma {:induction false} AlwaysFailingIsDeadLetteredAfterRetries(message: ChatMessage, outcomes: nat -> AttemptOutcome)
    requires forall k | 0 <= k < MaxAttempts :: FailureOf(outcomes(k)).Some? && Retryable(FailureOf(outcomes(k)).value)
    ensures ProcessRecord(message, outcomes).attempts == MaxAttempts == 4
    ensures ProcessRecord(message, outcomes).deadLettered
    ensures EndsWith(ProcessRecord(message, outcomes).effects, PublishDeadLetter(DeadLetterTopic, DeadLetterRecord(message, outcomes(3))))
    ensures multiset(ProcessRecord(message, outcomes).effects)[SaveCall(message)] == 4
    ensures multiset(ProcessRecord(message, outcomes).effects)[PublishDeadLetter(DeadLetterTopic, DeadLetterRecord(message, outcomes(3)))] == 1
  {
    RetriesRunOut(message, outcomes, 0);
    RetriesSaveOncePerDelivery(message, outcomes, 0);
    RetriesDeadLetterOnce(message, outcomes, 0);
    CountIsMultiplicity(ProcessRecord(message, outcomes).effects, SaveCall(message));
    CountIsMultiplicity(ProcessRecord(message, outcomes).effects, PublishDeadLetter(DeadLetterTopic, DeadLetterRecord(message, outcomes(3))));
  }

  /** Whether the last call in `es` is `e`. */
  predicate EndsWith(es: seq<Effect>, e: Effect) {
    |es| > 0 && es[|es| - 1] == e
  }

  /** Calls made before a sequence of calls leave its last call last. */
  lemma EndsWithAppend(xs: seq<Effect>, ys: seq<Effect>, e: Effect)
    requires EndsWith(ys, e)
    ensures EndsWith(xs + ys, e)
  {
    assert (xs + ys)[|xs + ys| - 1] == ys[|ys| - 1];
  }

  /** Deliveries from `attempt` on, each failing retryably, run out the attempts and end with the dead-letter publication. */
  lemma {:induction false} RetriesRunOut(message: ChatMessage, outcomes: nat -> AttemptOutcome, attempt: nat)
    requires attempt < MaxAttempts
    requires forall k | attempt <= k < MaxAttempts :: FailureOf(outcomes(k)).Some? && Retryable(FailureOf(outcomes(k)).value)
    ensures Deliver(message, outcomes, attempt).attempts == MaxAttempts
    ensures Deliver(message, outcomes, attempt).deadLettered
    ensures EndsWith(Deliver(message, outcomes, attempt).effects, PublishDeadLetter(DeadLetterTopic, DeadLetterRecord(message, outcomes(3))))
    decreases MaxAttempts - attempt
  {
    var last := PublishDeadLetter(DeadLetterTopic, DeadLetterRecord(message, outcomes(3)));
    FailureOfDelivery(message, outcomes(attempt));
    if attempt + 1 < MaxAttempts {
      RetriesRunOut(message, outcomes, attempt + 1);
      RetriedDelivery([], message, outcomes, attempt);
      EndsWithAppend(ConsumeMessage(message, outcomes(attempt)).effects, Deliver(message, outcomes, attempt + 1).effects, last);
    } else {
      assert attempt == 3;
      FinalDelivery([], message, outcomes, 3);
      assert Deliver(message, outcomes, 3).effects == ConsumeMessage(message, outcomes(3)).effects + [last];
      EndsWithAppend(ConsumeMessage(message, outcomes(3)).effects, [last], last);
    }
  }

  /**
   * A dead-lettered record's last call is the publication of what its last
   * delivery received, with the id that delivery's save wrote into it.
   */
  lemma {:induction false} DeadLetterIsLastDeliveryRecord(message: ChatMessage, outcomes: nat -> AttemptOutcome, attempt: nat, last: nat)
    requires attempt < MaxAttempts
    requires Deliver(message, outcomes, attempt).attempts == last + 1
    ensures Deliver(message, outcomes, attempt).deadLettered
            ==> EndsWith(Deliver(message, outcomes, attempt).effects, PublishDeadLetter(DeadLetterTopic, DeadLetterRecord(message, outcomes(last))))
    decreases MaxAttempts - attempt
  {
    var a := ConsumeMessage(message, outcomes(attempt));
    var r := Deliver(message, outcomes, attempt);
    var dead := PublishDeadLetter(DeadLetterTopic, DeadLetterRecord(message, outcomes(last)));
    if a.failure.Some? && Retryable(a.failure.value) && attempt + 1 < MaxAttempts {
      assert r.deadLettered ==> EndsWith(r.effects, dead) by {
        RetryStep(message, outcomes, attempt);
        var rest := Deliver(message, outcomes, attempt + 1);
        DeadLetterIsLastDeliveryRecord(message, outcomes, attempt + 1, last);
        if rest.deadLettered {
          EndsWithAppend(a.effects, rest.effects, dead);
        }
      }
    } else if a.failure.Some? {
      assert EndsWith(r.effects, dead) by {
        FinalStep(message, outcomes, attempt);
        EndsWithAppend(a.effects, [dead], dead);
      }
    } else {
      assert !r.deadLettered;
    }
  }

  /** A retried delivery passes the calls, count and fate of the deliveries after it through. */
  lemma RetryStep(message: ChatMessage, outcomes: nat -> AttemptOutcome, attempt: nat)
    requires attempt + 1 < MaxAttempts
    requires var a := ConsumeMessage(message, outcomes(attempt)); a.failure.Some? && Retryable(a.failure.value)
    ensures var r := Deliver(message, outcomes, attempt);
            var rest := Deliver(message, outcomes, attempt + 1);
            && r.effects == ConsumeMessage(message, outcomes(attempt)).effects + rest.effects
            && r.attempts == rest.attempts && r.deadLettered == rest.deadLettered
  {
  }

  /** A failed delivery that is not retried is followed by the publication of what it received. */
  lemma FinalStep(message: ChatMessage, outcomes: nat -> AttemptOutcome, attempt: nat)
    requires attempt < MaxAttempts
    requires var a := ConsumeMessage(message, outcomes(attempt));
             a.failure.Some? && !(Retryable(a.failure.value) && attempt + 1 < MaxAttempts)
    ensures var r := Deliver(message, outcomes, attempt);
            && r.effects == ConsumeMessage(message, outcomes(attempt)).effects
                            + [PublishDeadLetter(DeadLetterTopic, DeadLetterRecord(message, outcomes(attempt)))]
            && r.attempts == attempt + 1 && r.deadLettered
  {
  }

  /** The exception a delivery ends with is the first one its outcome throws. */
  lemma FailureOfDelivery(message: ChatMessage, o: AttemptOutcome)
    ensures ConsumeMessage(message, o).failure == FailureOf(o)
  {
  }

  /**
   * Deliveries stop at the first success: every delivery before the last
   * failed, and the record is dead-lettered exactly when the last one
   * failed too.
   */
  lemma {:induction false} StopsAtFirstSuccess(message: ChatMessage, outcomes: nat -> AttemptOutcome, attempt: nat)
    requires attempt < MaxAttempts
    ensures var r := Deliver(message, outcomes, attempt);
            forall k | attempt <= k < r.attempts - 1 :: !Succeeds(outcomes(k))
    ensures var r := Deliver(message, outcomes, attempt);
            r.deadLettered <==> !Succeeds(outcomes(r.attempts - 1))
    decreases MaxAttempts - attempt
  {
    var a := ConsumeMessage(message, outcomes(attempt));
    ConsumeMessageOrder(message, outcomes(attempt));
    assert a.failure.None? <==> Succeeds(outcomes(attempt));
    if a.failure.Some? && Retryable(a.failure.value) && attempt + 1 < MaxAttempts {
      StopsAtFirstSuccess(message, outcomes, attempt + 1);
      var rest := Deliver(message, outcomes, attempt + 1);
      assert Deliver(message, outcomes, attempt) == Outcome(a.effects + rest.effects, rest.attempts, rest.deadLettered);
    } else {
      assert Deliver(message, outcomes, attempt).attempts == attempt + 1;
      assert Deliver(message, outcomes, attempt).deadLettered == a.failure.Some?;
    }
  }

  /** A failure the classifier refuses to retry ends the record after one delivery, in the dead-letter topic. */
  lemma NotRetryableGoesStraightToDeadLetter(message: ChatMessage, outcomes: nat -> AttemptOutcome)
    requires FailureOf(outcomes(0)).Some? && !Retryable(FailureOf(outcomes(0)).value)
    ensures ProcessRecord(message, outcomes).attempts == 1
    ensures ProcessRecord(message, outcomes).deadLettered
    ensures ProcessRecord(message, outcomes).effects
            == ConsumeMessage(message, outcomes(0)).effects + [PublishDeadLetter(DeadLetterTopic, DeadLetterRecord(message, outcomes(0)))]
  {
    FailureOfDelivery(message, outcomes(0));
  }

  /**
   * An IllegalArgumentException is not retried: the message is saved once,
   * published once to the dead-letter topic, and broadcast only if the save
   * itself went through.
   */
  lemma IllegalArgumentIsNotRetried(message: ChatMessage, outcomes: nat -> AttemptOutcome)
    requires FailureOf(outcomes(0)) == Some(IllegalArgument)
    ensures ProcessRecord(message, outcomes).attempts == 1
    ensures ProcessRecord(message, outcomes).deadLettered
    ensures var es := ProcessRecord(message, outcomes).effects;
            && multiset(es)[SaveCall(message)] == 1
            && multiset(es)[PublishDeadLetter(DeadLetterTopic, DeadLetterRecord(message, outcomes(0)))] == 1
            && (SendsAnything(es) <==> outcomes(0).save.Saved?)
  {
    NotRetryableGoesStraightToDeadLetter(message, outcomes);
    var a := ConsumeMessage(message, outcomes(0));
    var dead := PublishDeadLetter(DeadLetterTopic, DeadLetterRecord(message, outcomes(0)));
    OneSavePerDelivery(message, outcomes(0));
    var es := a.effects + [dead];
    CountAppend(a.effects, [dead], SaveCall(message));
    CountAppend(a.effects, [dead], dead);
    CountIsMultiplicity(es, SaveCall(message));
    CountIsMultiplicity(es, dead);
    if outcomes(0).save.Saved? {
      ConsumeMessageOrder(message, outcomes(0));
      assert es[1].Send?;
    } else {
      assert es == [SaveCall(message), dead];
    }
  }

  /** Each delivery calls `save` once with the consumed message, and never publishes any record to the dead-letter topic itself. */
  lemma OneSavePerDelivery(message: ChatMessage, o: AttemptOutcome)
    ensures Count(ConsumeMessage(message, o).effects, SaveCall(message)) == 1
    ensures forall d: ChatMessage :: Count(ConsumeMessage(message, o).effects, PublishDeadLetter(DeadLetterTopic, d)) == 0
  {
    var a := ConsumeMessage(message, o).effects;
    if o.save.SaveThrows? {
      assert a[1..] == [];
    } else if o.sendThrows.Some? {
      assert a[1..][1..] == [];
      assert Count(a[1..], SaveCall(message)) == 0;
    } else {
      assert a[1..][1..] == [Acknowledge];
      assert a[1..][1..][1..] == [];
      assert Count(a[1..][1..], SaveCall(message)) == 0;
      assert Count(a[1..], SaveCall(message)) == 0;
    }
    forall d: ChatMessage ensures Count(a, PublishDeadLetter(DeadLetterTopic, d)) == 0 {
      CountIsMultiplicity(a, PublishDeadLetter(DeadLetterTopic, d));
    }
  }

  /** Deliveries from `attempt` on, each failing retryably, call `save` once per delivery. */
  lemma {:induction false} RetriesSaveOncePerDelivery(message: ChatMessage, outcomes: nat -> AttemptOutcome, attempt: nat)
    requires attempt < MaxAttempts
    requires forall k | attempt <= k < MaxAttempts :: FailureOf(outcomes(k)).Some? && Retryable(FailureOf(outcomes(k)).value)
    ensures Count(Deliver(message, outcomes, attempt).effects, SaveCall(message)) == MaxAttempts - attempt
    decreases MaxAttempts - attempt
  {
    FailureOfDelivery(message, outcomes(attempt));
    OneSavePerDelivery(message, outcomes(attempt));
    if attempt + 1 < MaxAttempts {
      RetriesSaveOncePerDelivery(message, outcomes, attempt + 1);
      RetriedCount(message, outcomes, attempt, SaveCall(message));
    } else {
      FinalCount(message, outcomes, attempt, SaveCall(message));
    }
  }

  /** Deliveries from `attempt` on, each failing retryably, publish to the dead-letter topic exactly once. */
  lemma {:induction false} RetriesDeadLetterOnce(message: ChatMessage, outcomes: nat -> AttemptOutcome, attempt: nat)
    requires attempt < MaxAttempts
    requires forall k | attempt <= k < MaxAttempts :: FailureOf(outcomes(k)).Some? && Retryable(FailureOf(outcomes(k)).value)
    ensures Count(Deliver(message, outcomes, attempt).effects, PublishDeadLetter(DeadLetterTopic, DeadLetterRecord(message, outcomes(3)))) == 1
    decreases MaxAttempts - attempt
  {
    var dead := PublishDeadLetter(DeadLetterTopic, DeadLetterRecord(message, outcomes(3)));
    FailureOfDelivery(message, outcomes(attempt));
    OneSavePerDelivery(message, outcomes(attempt));
    if attempt + 1 < MaxAttempts {
      RetriesDeadLetterOnce(message, outcomes, attempt + 1);
      RetriedCount(message, outcomes, attempt, dead);
    } else {
      FinalCount(message, outcomes, attempt, dead);
    }
  }

  /** The calls `e` of a retried delivery and of the deliveries after it add up. */
  lemma RetriedCount(message: ChatMessage, outcomes: nat -> AttemptOutcome, attempt: nat, e: Effect)
    requires attempt + 1 < MaxAttempts
    requires var a := ConsumeMessage(message, outcomes(attempt)); a.failure.Some? && Retryable(a.failure.value)
    ensures Count(Deliver(message, outcomes, attempt).effects, e)
            == Count(ConsumeMessage(message, outcomes(attempt)).effects, e) + Count(Deliver(message, outcomes, attempt + 1).effects, e)
  {
    RetriedDelivery([], message, outcomes, attempt);
    var a := ConsumeMessage(message, outcomes(attempt)).effects;
    var rest := Deliver(message, outcomes, attempt + 1).effects;
    assert Deliver(message, outcomes, attempt).effects == a + rest;
    CountAppend(a, rest, e);
  }

  /** The calls `e` of a last, failed delivery and of the dead-letter publication add up. */
  lemma FinalCount(message: ChatMessage, outcomes: nat -> AttemptOutcome, attempt: nat, e: Effect)
    requires attempt + 1 == MaxAttempts
    requires ConsumeMessage(message, outcomes(attempt)).failure.Some?
    ensures Count(Deliver(message, outcomes, attempt).effects, e)
            == Count(ConsumeMessage(message, outcomes(attempt)).effects, e)
               + Count([PublishDeadLetter(DeadLetterTopic, DeadLetterRecord(message, outcomes(attempt)))], e)
  {
    FinalDelivery([], message, outcomes, attempt);
    var a := ConsumeMessage(message, outcomes(attempt)).effects;
    var dead := PublishDeadLetter(DeadLetterTopic, DeadLetterRecord(message, outcomes(attempt)));
    assert Deliver(message, outcomes, attempt).effects == a + [dead];
    CountAppend(a, [dead], e);
  }

  /** How many of the calls in `es` are `e`. */
  function Count(es: seq<Effect>, e: Effect): nat {
    if |es| == 0 then 0 else (if es[0] == e then 1 else 0) + Count(es[1..], e)
  }

  /** Counting the calls of two runs one after the other adds up. */
  lemma {:induction false} CountAppend(xs: seq<Effect>, ys: seq<Effect>, e: Effect)
    ensures Count(xs + ys, e) == Count(xs, e) + Count(ys, e)
  {
    if |xs| > 0 {
      CountAppend(xs[1..], ys, e);
      assert (xs + ys)[1..] == xs[1..] + ys;
    } else {
      assert xs + ys == ys;
    }
  }

  /** The count is the multiplicity of `e` in the multiset of calls. */
  lemma {:induction false} CountIsMultiplicity(es: seq<Effect>, e: Effect)
    ensures Count(es, e) == multiset(es)[e]
  {
    if |es| > 0 {
      CountIsMultiplicity(es[1..], e);
      assert es == [es[0]] + es[1..];
      assert multiset(es) == multiset{es[0]} + multiset(es[1..]);
    }
  }

  /** Whether any call in `es` sends to a topic. */
  predicate SendsAnything(es: seq<Effect>) {
    exists i | 0 <= i < |es| :: es[i].Send?
  }

  /** When every save throws, nothing is ever sent, on any delivery, and the record is dead-lettered. */
  lemma {:induction false} FailedSavesNeverBroadcast(message: ChatMessage, outcomes: nat -> AttemptOutcome, attempt: nat)
    requires attempt < MaxAttempts
    requires forall k | attempt <= k < MaxAttempts :: outcomes(k).save.SaveThrows?
    ensures !SendsAnything(Deliver(message, outcomes, attempt).effects)
    ensures Deliver(message, outcomes, attempt).deadLettered
    decreases MaxAttempts - attempt
  {
    var a := ConsumeMessage(message, outcomes(attempt));
    var r := Deliver(message, outcomes, attempt);
    if a.failure.Some? && Retryable(a.failure.value) && attempt + 1 < MaxAttempts {
      FailedSavesNeverBroadcast(message, outcomes, attempt + 1);
      var rest := Deliver(message, outcomes, attempt + 1);
      forall i | 0 <= i < |r.effects| ensures !r.effects[i].Send? {
        if i >= |a.effects| {
          assert r.effects[i] == rest.effects[i - |a.effects|];
        }
      }
    } else {
      forall i | 0 <= i < |r.effects| ensures !r.effects[i].Send? {
        assert r.effects == a.effects + [PublishDeadLetter(DeadLetterTopic, DeadLetterRecord(message, outcomes(attempt)))];
      }
    }
  }

  /**
   * A save that keeps throwing a retryable exception: `save` is called four
   * times, nothing is ever broadcast, and the record is published once to
   * the dead-letter topic.
   */
  lemma PermanentSaveFailureIsDeadLettered(message: ChatMessage, outcomes: nat -> AttemptOutcome)
    requires forall k | 0 <= k < MaxAttempts :: outcomes(k).save == SaveThrows(OtherFailure)
    ensures var r := ProcessRecord(message, outcomes);
            && r.attempts == 4 && r.deadLettered
            && multiset(r.effects)[SaveCall(message)] == 4
            && multiset(r.effects)[PublishDeadLetter(DeadLetterTopic, message)] == 1
            && !SendsAnything(r.effects)
  {
    forall k | 0 <= k < MaxAttempts
      ensures FailureOf(outcomes(k)).Some? && Retryable(FailureOf(outcomes(k)).value)
    {
      assert outcomes(k).save == SaveThrows(OtherFailure);
    }
    AlwaysFailingIsDeadLetteredAfterRetries(message, outcomes);
    assert DeadLetterRecord(message, outcomes(3)) == message;
    FailedSavesNeverBroadcast(message, outcomes, 0);
  }

  /** Every send in `es` comes right after a save. */
  predicate SavedBeforeSent(es: seq<Effect>) {
    forall i | 0 <= i < |es| && es[i].Send? :: i > 0 && es[i - 1].SaveCall?
  }

  lemma SavedBeforeSentAppend(xs: seq<Effect>, ys: seq<Effect>)
    requires SavedBeforeSent(xs) && SavedBeforeSent(ys)
    requires |ys| > 0 ==> !ys[0].Send?
    ensures SavedBeforeSent(xs + ys)
  {
    var es := xs + ys;
    forall i | 0 <= i < |es| && es[i].Send? ensures i > 0 && es[i - 1].SaveCall? {
      if i >= |xs| {
        assert es[i] == ys[i - |xs|];
        assert es[i - 1] == ys[i - 1 - |xs|];
      } else {
        assert es[i] == xs[i];
        assert es[i - 1] == xs[i - 1];
      }
    }
  }

  /** Every send is made right after a save: nothing reaches a chat topic before it is persisted. */
  lemma {:induction false} SendFollowsSave(message: ChatMessage, outcomes: nat -> AttemptOutcome, attempt: nat)
    requires attempt < MaxAttempts
    ensures SavedBeforeSent(Deliver(message, outcomes, attempt).effects)
    decreases MaxAttempts - attempt
  {
    var a := ConsumeMessage(message, outcomes(attempt));
    assert SavedBeforeSent(a.effects);
    if a.failure.Some? && Retryable(a.failure.value) && attempt + 1 < MaxAttempts {
      SendFollowsSave(message, outcomes, attempt + 1);
      var rest := Deliver(message, outcomes, attempt + 1).effects;
      SavedBeforeSentAppend(a.effects, rest);
    } else if a.failure.Some? {
      SavedBeforeSentAppend(a.effects, [PublishDeadLetter(DeadLetterTopic, DeadLetterRecord(message, outcomes(attempt)))]);
    }
  }

  /** A record is acknowledged by the listener exactly when it is not dead-lettered, provided acknowledging never throws. */
  lemma {:induction false} AcknowledgedIffNotDeadLettered(message: ChatMessage, outcomes: nat -> AttemptOutcome, attempt: nat)
    requires attempt < MaxAttempts
    requires forall k | attempt <= k < MaxAttempts :: outcomes(k).ackThrows.None?
    ensures Acknowledge in Deliver(message, outcomes, attempt).effects <==> !Deliver(message, outcomes, attempt).deadLettered
    decreases MaxAttempts - attempt
  {
    var a := ConsumeMessage(message, outcomes(attempt));
    if a.failure.Some? && Retryable(a.failure.value) && attempt + 1 < MaxAttempts {
      AcknowledgedIffNotDeadLettered(message, outcomes, attempt + 1);
      assert Acknowledge !in a.effects;
    }
  }

  /**
   * Without the never-throwing acknowledge, a dead-lettered record may have
   * been broadcast: a record whose acknowledge throws on every delivery is
   * saved and sent four times and still ends in the dead-letter topic.
   */
  lemma FailingAcknowledgeDeadLettersASentRecord(message: ChatMessage)
    ensures var outcomes := (k: nat) => AttemptOutcome(Saved(k + 1), None, Some(OtherFailure));
            var r := ProcessRecord(message, outcomes);
            r.deadLettered && r.attempts == 4 && SendsAnything(r.effects)
  {
    var outcomes := (k: nat) => AttemptOutcome(Saved(k + 1), None, Some(OtherFailure));
    AlwaysFailingIsDeadLetteredAfterRetries(message, outcomes);
    var r := ProcessRecord(message, outcomes);
    var a := ConsumeMessage(message, outcomes(0));
    assert r.effects[1] == a.effects[1];
  }

  /**
   * A record consumed without an id whose last delivery saved it before the
   * send or the acknowledge threw is dead-lettered with the id that save
   * generated, the very message that delivery broadcast.
   */
  lemma {:induction false} DeadLetterCarriesGeneratedId(message: ChatMessage, outcomes: nat -> AttemptOutcome)
    requires message.id.None?
    requires forall k | 0 <= k < MaxAttempts :: FailureOf(outcomes(k)).Some? && Retryable(FailureOf(outcomes(k)).value)
    requires outcomes(3).save.Saved?
    ensures var r := ProcessRecord(message, outcomes);
            var saved := SavedMessage(message, outcomes(3).save.id);
            && EndsWith(r.effects, PublishDeadLetter(DeadLetterTopic, saved))
            && Send(ToTopic(ChatTopic(saved.roomId), ChatPayload(saved))) in r.effects
            && saved.id == Some(outcomes(3).save.id)
  {
    AlwaysFailingIsDeadLetteredAfterRetries(message, outcomes);
    var saved := SavedMessage(message, outcomes(3).save.id);
    var es := ProcessRecord(message, outcomes).effects;
    var a := ConsumeMessage(message, outcomes(3));
    ConsumeMessageOrder(message, outcomes(3));
    FailureOfDelivery(message, outcomes(3));
    FinalDelivery([], message, outcomes, 3);
    assert Send(ToTopic(ChatTopic(saved.roomId), ChatPayload(saved))) in Deliver(message, outcomes, 3).effects by {
      assert Deliver(message, outcomes, 3).effects[1] == a.effects[1];
    }
    SendInLaterDelivery(message, outcomes, 0, Send(ToTopic(ChatTopic(saved.roomId), ChatPayload(saved))));
  }

  /** A call made by the last delivery is among the calls of every run of deliveries that reaches it. */
  lemma {:induction false} SendInLaterDelivery(message: ChatMessage, outcomes: nat -> AttemptOutcome, attempt: nat, e: Effect)
    requires attempt < MaxAttempts
    requires forall k | attempt <= k < MaxAttempts :: FailureOf(outcomes(k)).Some? && Retryable(FailureOf(outcomes(k)).value)
    requires e in Deliver(message, outcomes, 3).effects
    ensures e in Deliver(message, outcomes, attempt).effects
    decreases MaxAttempts - attempt
  {
    if attempt + 1 < MaxAttempts {
      var a := ConsumeMessage(message, outcomes(attempt));
      FailureOfDelivery(message, outcomes(attempt));
      SendInLaterDelivery(message, outcomes, attempt + 1, e);
      var rest := Deliver(message, outcomes, attempt + 1);
      assert Deliver(message, outcomes, attempt).effects == a.effects + rest.effects;
    }
  }

  /** The recoverer's topic is the one the dead-letter listener reads exactly when the chat topic is "chat-messages". */
  lemma {:induction false} DeadLetterTopicsAgree(chatMessagesTopic: string)
    ensures DeadLetterListenerTopic(chatMessagesTopic) == DeadLetterTopic <==> chatMessagesTopic == "chat-messages"
  {
    if DeadLetterListenerTopic(chatMessagesTopic) == DeadLetterTopic {
      assert chatMessagesTopic == DeadLetterTopic[..|DeadLetterTopic| - 4];
    }
  }
}
