/**
 * The per-connection handler that turns a chunked HTTP message (section 3.6.1
 * of RFC 2616) into one complete message whose body is spooled to a
 * temporary file, answers `Expect: 100-continue` with an interim
 * `100 Continue` response (section 8.2.3 of RFC 2616), and caps the stored
 * body at `maxContentLength` bytes by dropping chunks that would cross the
 * cap and flagging the message with a `Warning` header.
 *
 * What the handler does to the pipeline is recorded as `Effect`s, the
 * backing file as its name and the bytes written to it so far.
 */
module Server {
  import opened Wrappers
  import opened Text
  import opened Http

  /** The fixed value of the `Warning` header set when a chunk is dropped. */
  const CONTENT_LENGTH_EXCEEDED := "play.netty.content.length.exceeded"

  /** `maxContentLength` takes this value to mean "no limit". */
  const UNLIMITED: int32 := -1

  datatype Response = Response(version: string, status: int)

  /** `new DefaultHttpResponse(HTTP_1_1, CONTINUE)`. */
  const CONTINUE_RESPONSE := Response("HTTP/1.1", 100)

  /** What one call does outside the handler, in order. */
  datatype Effect =
    | SendUpstream(unit: Unit)                    // `ctx.sendUpstream(e)`: the event is passed on unchanged
    | Write(response: Response)                   // `ctx.getChannel().write(...)`
    | FireMessageReceived(message: HttpMessage)   // `Channels.fireMessageReceived(ctx, m, ...)`

  /** How a call ends: normally, or with the `ClassCastException` of a cast at line 49 or 74. */
  datatype Outcome = Done | CastFailure

  /**
   * The handler's fields. `file` names the backing file, `out` tells whether
   * its output stream is open, and `stored` is what has been written to it.
   */
  datatype State = State(currentMessage: Option<HttpMessage>, file: Option<string>, out: bool, stored: seq<byte>)

  /** No message is being aggregated. */
  const Idle := State(None, None, false, [])

  datatype StepResult = StepResult(state: State, effects: seq<Effect>, outcome: Outcome)

  /**
   * What holds between calls: the three session fields are set together,
   * there is no stored content outside a session, and with a non-negative
   * limit the stored content never exceeds it.
   */
  predicate Invariant(max: int32, s: State)
  {
    && (s.currentMessage.Some? <==> s.file.Some?)
    && (s.currentMessage.Some? <==> s.out)
    && (s.currentMessage.None? ==> s.stored == [])
    && (max >= 0 ==> |s.stored| <= max)
  }

  /** Drops one `chunked` value from `Transfer-Encoding`, and the header itself when nothing is left. */
  function StripChunked(m: HttpMessage): HttpMessage
  {
    var encodings := RemoveFirst(GetHeaders(m, TRANSFER_ENCODING), CHUNKED);
    if encodings == [] then RemoveHeader(m, TRANSFER_ENCODING) else m
  }

  /** The `Expect` header is present and its first value is exactly `100-continue`. */
  predicate ExpectsContinue(m: HttpMessage)
  {
    GetHeader(m, EXPECT) == Some("100-continue")
  }

  /**
   * The overflow test at line 75: a limit is set and the stored length
   * exceeds the limit minus the chunk length, that difference being computed
   * in 32-bit `int` arithmetic.
   */
  predicate Overflows(max: int32, storedLength: nat, chunkLength: nat)
  {
    max != UNLIMITED && storedLength > WrapInt32(max - chunkLength)
  }

  /** The finished message: `Content-Length` is the decimal byte count and the body the stored bytes. */
  function Finalised(m: HttpMessage, stored: seq<byte>): HttpMessage
  {
    SetHeader(m, CONTENT_LENGTH, Decimal(|stored|)).(content := stored)
  }

  /** One call of `messageReceived` on state `s` with the event `u`; `freshName` stands for the random file name. */
  function Step(max: int32, s: State, u: Unit, freshName: string): StepResult
  {
    if u.Other? then
      StepResult(s, [SendUpstream(u)], Done)
    else if s.currentMessage.None? then
      if !u.Message? then
        StepResult(s, [], CastFailure)
      else if u.message.chunked then
        var m := StripChunked(u.message);
        StepResult(State(Some(m), Some(freshName), true, []),
                   if ExpectsContinue(m) then [Write(CONTINUE_RESPONSE)] else [],
                   Done)
      else
        StepResult(s, [SendUpstream(u)], Done)
    else if !u.Chunk? then
      StepResult(s, [], CastFailure)
    else
      var current := s.currentMessage.value;
      var chunk := u.chunk;
      if Overflows(max, |s.stored|, |chunk.content|) then
        StepResult(s.(currentMessage := Some(SetHeader(current, WARNING, CONTENT_LENGTH_EXCEEDED))), [], Done)
      else if chunk.isLast then
        StepResult(Idle, [FireMessageReceived(Finalised(current, s.stored + chunk.content))], Done)
      else
        StepResult(s.(stored := s.stored + chunk.content), [], Done)
  }

  datatype RunResult = RunResult(state: State, effects: seq<Effect>)

  /** The events `us` delivered in order; every session opened on the way takes `freshName`. */
  function Run(max: int32, s: State, us: seq<Unit>, freshName: string): RunResult
    decreases |us|
  {
    if us == [] then RunResult(s, [])
    else
      var r := Step(max, s, us[0], freshName);
      var rest := Run(max, r.state, us[1..], freshName);
      RunResult(rest.state, r.effects + rest.effects)
  }

  class StreamChunkAggregator {
    var currentMessage: Option<HttpMessage>
    var out: bool
    const maxContentLength: int32
    var file: Option<string>
    /** The content of `file`. */
    var stored: seq<byte>
    /** Everything the handler has done to the pipeline and the channel, oldest first. */
    var log: seq<Effect>

    function Snapshot(): State
      reads this
    {
      State(currentMessage, file, out, stored)
    }

    ghost predicate Valid()
      reads this
    {
      Invariant(maxContentLength, Snapshot())
    }

    constructor (maxContentLength: int32)
      ensures Valid()
      ensures Snapshot() == Idle && log == []
      ensures this.maxContentLength == maxContentLength
    {
      this.maxContentLength := maxContentLength;
      currentMessage, out, file, stored := None, false, None, [];
      log := [];
    }

    /** `messageReceived`: handles one event `msg`; `freshName` is the random name a new backing file gets. */
    method MessageReceived(msg: Unit, freshName: string) returns (outcome: Outcome)
      requires Valid()
      modifies this
      ensures Valid()
      ensures var r := Step(maxContentLength, old(Snapshot()), msg, freshName);
              Snapshot() == r.state && log == old(log) + r.effects && outcome == r.outcome
    {
      if msg.Other? {
        log := log + [SendUpstream(msg)];
        return Done;
      }
      var current := currentMessage;
      if current.None? {
        if !msg.Message? {
          return CastFailure;
        }
        var m := msg.message;
        if m.chunked {
          var encodings := GetHeaders(m, TRANSFER_ENCODING);
          encodings := RemoveFirst(encodings, CHUNKED);
          if encodings == [] {
            m := RemoveHeader(m, TRANSFER_ENCODING);
          }
          currentMessage := Some(m);
          file := Some(freshName);
          out := true;
          stored := [];
          var expectation := GetHeader(m, EXPECT);
          if expectation.Some? && expectation.value == "100-continue" {
            log := log + [Write(CONTINUE_RESPONSE)];
          }
        } else {
          log := log + [SendUpstream(msg)];
        }
      } else {
        if !msg.Chunk? {
          return CastFailure;
        }
        var chunk := msg.chunk;
        if maxContentLength != UNLIMITED && |stored| > WrapInt32(maxContentLength - |chunk.content|) {
          currentMessage := Some(SetHeader(current.value, WARNING, CONTENT_LENGTH_EXCEEDED));
        } else {
          stored := stored + chunk.content;
          if chunk.isLast {
            out := false;
            var complete := SetHeader(current.value, CONTENT_LENGTH, Decimal(|stored|));
            complete := complete.(content := stored);
            currentMessage := None;
            file := None;
            stored := [];
            log := log + [FireMessageReceived(complete)];
          }
        }
      }
      return Done;
    }
  }
}
