/**
 * Posting one chat message: the action that reads the chat server's
 * acknowledgement and decides between success, failure and a timed retry,
 * and the identity check that stops an action from being sent again.
 */
module PostMessage {
  import opened Wrappers
  import Strings

  /** A chat room, keyed by its identifier string. */
  datatype Room = Room(ident: string)

  /**
   * Content submitted for posting. Compared by object identity: two
   * messages with the same text in the same room are different messages.
   */
  class PendingMessage {
    const room: Room
    const text: string

    constructor (room: Room, text: string)
      ensures this.room == room && this.text == text
    {
      this.room := room;
      this.text := text;
    }
  }

  /** Content the server confirmed, with the id and time it assigned. */
  datatype PostedMessage = PostedMessage(room: Room, id: int, time: int, message: PendingMessage)

  /**
   * The per-room record of posted messages. Only its two operations are
   * modelled: `PushMessage` fills the slot of the message's room and
   * `PeekMessage` reads a room's slot, giving the pending message it came from.
   */
  class PostedMessageTracker {
    var latest: map<Room, PostedMessage>

    constructor ()
      ensures latest == map[]
    {
      latest := map[];
    }

    function PeekMessage(room: Room): Option<PendingMessage>
      reads this
    {
      if room in latest then Some(latest[room].message) else None
    }

    method PushMessage(p: PostedMessage)
      modifies this
      ensures latest == old(latest)[p.room := p]
    {
      latest := latest[p.room := p];
    }
  }

  /**
   * One key of the decoded JSON response: missing, present with `null`,
   * or present with a value.
   */
  datatype Field = Absent | Null | Present(value: int)

  /** The decoded response body; `others` holds the keys the action never reads. */
  datatype Response = Response(id: Field, time: Field, others: map<string, string>)

  /** PHP's `isset`: the key is there and its value is not `null`. */
  predicate Isset(f: Field) {
    f.Present?
  }

  /** PHP's `array_key_exists`: the key is there, whatever its value. */
  predicate KeyExists(f: Field) {
    !f.Absent?
  }

  /** The kind of error an action reports: the fully qualified name of its exception class. */
  type ErrorKind = string

  /** The exception class of a failed message post. */
  const MESSAGE_POST_FAILURE: ErrorKind := "Room11\\Jeeves\\Chat\\Client\\MessagePostFailureException"

  datatype PostFailure = PostFailure(kind: ErrorKind, reason: string)

  /** The action's result handle; it is settled at most once. */
  datatype Future = Pending | Succeeded(posted: PostedMessage) | Failed(error: PostFailure)

  /** What `processResponse` returns: the two sentinels, or a delay before the next attempt. */
  datatype Outcome = Success | Failure | Retry(delayMs: int)

  datatype LogLevel = Error

  datatype LogEntry = LogEntry(level: LogLevel, text: string, context: Option<Response>)

  /** Which of the three branches of `processResponse` a response takes. */
  datatype Verdict = Post(id: int, time: int) | Reject | Backoff

  const InvalidResponseReason := "Invalid response from server"
  const UnknownResponseText := "A JSON response that I don't understand was received"

  function NullResponseText(delay: int): string {
    "WARN: Got a null message post response, waiting for " + Strings.IntToString(delay) + "ms before trying again"
  }

  /**
   * The branch a response takes: success needs both keys set and non-null,
   * failure needs the `id` key to be missing, and everything else -- a null
   * `id`, or a non-null `id` whose `time` is null or missing -- is a retry.
   */
  function Classify(r: Response): (v: Verdict)
    ensures v.Post? <==> r.id.Present? && r.time.Present?
    ensures v.Post? ==> v.id == r.id.value && v.time == r.time.value
    ensures v.Reject? <==> r.id.Absent?
    ensures v.Backoff? <==> r.id.Null? || (r.id.Present? && !r.time.Present?)
  {
    if Isset(r.id) && Isset(r.time) then Post(r.id.value, r.time.value)
    else if !KeyExists(r.id) then Reject
    else Backoff
  }

  /** The linear back-off: attempt `n` waits `n` seconds. */
  function BackoffDelay(attempt: int): int {
    attempt * 1000
  }

  lemma BackoffIsLinear(attempt: int)
    ensures BackoffDelay(attempt + 1) - BackoffDelay(attempt) == 1000
    ensures attempt >= 1 ==> BackoffDelay(attempt) >= 1000
  {
  }

  /** A response whose `id` is set but whose `time` key is missing is retried, not rejected. */
  lemma MissingTimeRetries(r: Response)
    requires r.id.Present? && r.time.Absent?
    ensures Classify(r) == Backoff
  {
  }

  class PostMessageAction {
    const room: Room
    const tracker: PostedMessageTracker
    const message: PendingMessage
    var future: Future
    var log: seq<LogEntry>

    constructor (room: Room, tracker: PostedMessageTracker, message: PendingMessage)
      ensures this.room == room && this.tracker == tracker && this.message == message
      ensures future == Pending && log == []
    {
      this.room := room;
      this.tracker := tracker;
      this.message := message;
      future := Pending;
      log := [];
    }

    /** The error kind used whenever this action fails. */
    function ExceptionKind(): (k: ErrorKind)
      ensures k == MESSAGE_POST_FAILURE
    {
      MESSAGE_POST_FAILURE
    }

    /**
     * As written: the action may be sent unless the room's tracker slot
     * already holds this very message object.
     */
    function IsValid(): (valid: bool)
      reads tracker
      ensures !valid <==> room in tracker.latest && tracker.latest[room].message == message
    {
      tracker.PeekMessage(room) != Some(message)
    }

    /**
     * Reads the server's acknowledgement of attempt number `attempt`.
     * Exactly one branch runs, the tracker changes only on success, and the
     * future stays pending only on a retry.
     */
    method ProcessResponse(response: Response, attempt: int) returns (outcome: Outcome)
      requires future == Pending
      modifies this, tracker
      ensures match Classify(response)
        case Post(id, time) =>
          var posted := PostedMessage(room, id, time, message);
          && outcome == Success
          && future == Succeeded(posted)
          && tracker.latest == old(tracker.latest)[room := posted]
          && log == old(log)
        case Reject =>
          && outcome == Failure
          && future == Failed(PostFailure(ExceptionKind(), InvalidResponseReason))
          && tracker.latest == old(tracker.latest)
          && log == old(log) + [LogEntry(Error, UnknownResponseText, Some(response))]
        case Backoff =>
          && outcome == Retry(BackoffDelay(attempt))
          && future == Pending
          && tracker.latest == old(tracker.latest)
          && log == old(log) + [LogEntry(Error, NullResponseText(BackoffDelay(attempt)), None)]
      ensures outcome == Success ==> !IsValid()
      ensures outcome != Success ==> IsValid() == old(IsValid())
    {
      if Isset(response.id) && Isset(response.time) {
        var posted := PostedMessage(room, response.id.value, response.time.value, message);
        tracker.PushMessage(posted);
        future := Succeeded(posted);
        return Success;
      }

      if !KeyExists(response.id) {
        log := log + [LogEntry(Error, UnknownResponseText, Some(response))];
        future := Failed(PostFailure(MESSAGE_POST_FAILURE, InvalidResponseReason));
        return Failure;
      }

      var delay := BackoffDelay(attempt);
      log := log + [LogEntry(Error, NullResponseText(delay), None)];
      return Retry(delay);
    }
  }

  /** A first response with id and time settles the action. */
  method ScenarioAcknowledged() {
    var tracker := new PostedMessageTracker();
    var room := Room("11");
    var pending := new PendingMessage(room, "hello");
    var action := new PostMessageAction(room, tracker, pending);
    assert action.IsValid();
    var outcome := action.ProcessResponse(Response(Present(42), Present(1000), map[]), 1);
    assert outcome == Success;
    assert action.future == Succeeded(PostedMessage(room, 42, 1000, pending));
    assert !action.IsValid();
  }

  /** A null acknowledgement on attempt 2 waits two seconds; attempt 3 then succeeds. */
  method ScenarioNullThenAcknowledged() {
    var tracker := new PostedMessageTracker();
    var room := Room("11");
    var pending := new PendingMessage(room, "hello");
    var action := new PostMessageAction(room, tracker, pending);
    var first := action.ProcessResponse(Response(Null, Null, map[]), 2);
    assert first == Retry(2000);
    assert action.future == Pending && action.IsValid();
    var second := action.ProcessResponse(Response(Present(42), Present(1000), map[]), 3);
    assert second == Success;
  }

  /** A response without an `id` key fails the action and is logged. */
  method ScenarioUnknownShape() {
    var tracker := new PostedMessageTracker();
    var room := Room("11");
    var pending := new PendingMessage(room, "hello");
    var action := new PostMessageAction(room, tracker, pending);
    var response := Response(Absent, Absent, map["foo" := "bar"]);
    var outcome := action.ProcessResponse(response, 1);
    assert outcome == Failure;
    assert action.future.Failed? && action.future.error.reason == "Invalid response from server";
    assert action.log == [LogEntry(Error, UnknownResponseText, Some(response))];
    assert tracker.latest == map[];
  }

  /**
   * Identity, not content, decides validity: once another message with
   * the same text is recorded for the room, this action may be sent again.
   */
  method ScenarioIdentityNotContent() {
    var tracker := new PostedMessageTracker();
    var room := Room("11");
    var pending := new PendingMessage(room, "hello");
    var twin := new PendingMessage(room, "hello");
    var action := new PostMessageAction(room, tracker, pending);
    tracker.PushMessage(PostedMessage(room, 1, 10, pending));
    assert !action.IsValid();
    tracker.PushMessage(PostedMessage(room, 2, 20, twin));
    assert action.IsValid();
  }
}
