/**
 * What `messageReceived` guarantees, one event at a time and over whole
 * sequences of events.
 */
module AggregatorProperties {
  import opened Wrappers
  import opened Text
  import opened Http
  import opened Server

  /** The body bytes carried by `cs`, in order. */
  function Concat(cs: seq<HttpChunk>): seq<byte>
  {
    if cs == [] then [] else cs[0].content + Concat(cs[1..])
  }

  /** The chunks `cs` as pipeline events. */
  function Chunks(cs: seq<HttpChunk>): (us: seq<Unit>)
    ensures |us| == |cs| && forall i :: 0 <= i < |cs| ==> us[i] == Chunk(cs[i])
  {
    if cs == [] then [] else [Chunk(cs[0])] + Chunks(cs[1..])
  }

  /** A complete chunked body: only its final chunk is marked last. */
  predicate IsBody(cs: seq<HttpChunk>)
  {
    |cs| > 0 && cs[|cs| - 1].isLast && forall i :: 0 <= i < |cs| - 1 ==> !cs[i].isLast
  }

  /** How many interim responses a list of effects writes. */
  function Writes(es: seq<Effect>): nat
  {
    if es == [] then 0 else (if es[0].Write? then 1 else 0) + Writes(es[1..])
  }

  /** Within a session, everything else than a chunk fails the cast and changes nothing. */
  lemma SessionRejectsMessages(max: int32, s: State, m: HttpMessage, name: string)
    requires s.currentMessage.Some?
    ensures Step(max, s, Message(m), name) == StepResult(s, [], CastFailure)
  {
  }

  /** With no session, a chunk fails the cast and changes nothing. */
  lemma IdleRejectsChunks(max: int32, s: State, c: HttpChunk, name: string)
    requires s.currentMessage.None?
    ensures Step(max, s, Chunk(c), name) == StepResult(s, [], CastFailure)
  {
  }

  /** An event that is neither a message nor a chunk is passed on unchanged, in any state. */
  lemma OtherEventPassesThrough(max: int32, s: State, d: string, name: string)
    ensures Step(max, s, Other(d), name) == StepResult(s, [SendUpstream(Other(d))], Done)
  {
  }

  /** With no session, a message that is not chunked is passed on unchanged and no file is opened. */
  lemma PlainMessagePassesThrough(max: int32, m: HttpMessage, name: string)
    requires !m.chunked
    ensures Step(max, Idle, Message(m), name) == StepResult(Idle, [SendUpstream(Message(m))], Done)
  {
  }

  /**
   * With no session, a chunked message opens one: the message is kept, a new
   * empty backing file is opened, and `Transfer-Encoding` disappears exactly
   * when its values were nothing or the single value `chunked`; every other
   * header, the body and the chunked flag are kept.
   */
  lemma ChunkedMessageOpensSession(max: int32, s: State, m: HttpMessage, name: string)
    requires Invariant(max, s) && s.currentMessage.None? && m.chunked
    ensures var r := Step(max, s, Message(m), name);
            && r.outcome == Done
            && r.state.currentMessage.Some?
            && r.state.file == Some(name) && r.state.out && r.state.stored == []
            && var kept := r.state.currentMessage.value;
               && (TRANSFER_ENCODING !in kept.headers <==> GetHeaders(m, TRANSFER_ENCODING) in {[], [CHUNKED]})
               && (TRANSFER_ENCODING in kept.headers ==> kept == m)
               && (forall n :: n != TRANSFER_ENCODING ==> GetHeaders(kept, n) == GetHeaders(m, n))
               && kept.content == m.content && kept.chunked
  {
    RemoveFirstEmptyIff(GetHeaders(m, TRANSFER_ENCODING), CHUNKED);
  }

  /**
   * One `100 Continue` is written exactly when an idle handler receives a
   * chunked message whose `Expect` header is `100-continue`; no other event
   * writes one.
   */
  lemma ContinueWrittenOnlyForExpectation(max: int32, s: State, u: Unit, name: string)
    ensures Writes(Step(max, s, u, name).effects)
            == if s.currentMessage.None? && u.Message? && u.message.chunked
                  && GetHeader(u.message, EXPECT) == Some("100-continue") then 1 else 0
  {
    var r := Step(max, s, u, name);
    if s.currentMessage.None? && u.Message? && u.message.chunked {
      assert GetHeaders(StripChunked(u.message), EXPECT) == GetHeaders(u.message, EXPECT);
      if GetHeader(u.message, EXPECT) == Some("100-continue") {
        assert r.effects == [Write(CONTINUE_RESPONSE)];
      } else {
        assert r.effects == [];
      }
    } else {
      assert forall e :: e in r.effects ==> !e.Write?;
      assert r.effects == [] || (|r.effects| == 1 && !r.effects[0].Write?);
    }
  }

  /**
   * When the limit minus the chunk length does not wrap around, the 32-bit
   * test says exactly that a limit is set and the chunk would take the
   * stored length past it.
   */
  lemma OverflowsIffExceedsLimit(max: int32, storedLength: nat, chunkLength: nat)
    requires max - chunkLength >= INT32_MIN
    ensures Overflows(max, storedLength, chunkLength) <==> max != UNLIMITED && storedLength + chunkLength > max
  {
  }

  /**
   * A chunk that would take the stored length past the limit is not written;
   * the message gets the `Warning` header with the fixed value, nothing else
   * changes, and nothing is emitted.
   */
  lemma OverflowingChunkIsDropped(max: int32, s: State, c: HttpChunk, name: string)
    requires Invariant(max, s) && s.currentMessage.Some?
    requires Overflows(max, |s.stored|, |c.content|)
    ensures var r := Step(max, s, Chunk(c), name);
            && r.outcome == Done && r.effects == []
            && r.state.stored == s.stored && r.state.file == s.file && r.state.out
            && r.state.currentMessage.Some?
            && GetHeaders(r.state.currentMessage.value, WARNING) == [CONTENT_LENGTH_EXCEEDED]
            && (forall n :: n != WARNING ==> GetHeaders(r.state.currentMessage.value, n) == GetHeaders(s.currentMessage.value, n))
            && r.state.currentMessage.value.content == s.currentMessage.value.content
  {
  }

  /** Flagging an already flagged message leaves it as it is. */
  lemma OverflowFlagIsIdempotent(max: int32, s: State, c1: HttpChunk, c2: HttpChunk, name: string)
    requires Invariant(max, s) && s.currentMessage.Some?
    requires Overflows(max, |s.stored|, |c1.content|) && Overflows(max, |s.stored|, |c2.content|)
    ensures var once := Step(max, s, Chunk(c1), name).state;
            Step(max, once, Chunk(c2), name).state == once
  {
    SetHeaderIdempotent(s.currentMessage.value, WARNING, CONTENT_LENGTH_EXCEEDED);
  }

  /** A chunk that fits and is not the last is appended whole, and the stored length stays within the limit. */
  lemma FittingChunkIsAppended(max: int32, s: State, c: HttpChunk, name: string)
    requires Invariant(max, s) && s.currentMessage.Some?
    requires !Overflows(max, |s.stored|, |c.content|) && !c.isLast
    ensures var r := Step(max, s, Chunk(c), name);
            && r.outcome == Done && r.effects == []
            && r.state == s.(stored := s.stored + c.content)
            && (max >= 0 ==> |r.state.stored| <= max)
  {
  }

  /**
   * A last chunk that fits completes the message: it is emitted once, with
   * all stored bytes as its body and a `Content-Length` header whose decimal
   * value is that body's length; every other header is as it was, and the
   * handler is idle again.
   */
  lemma FittingLastChunkCompletesMessage(max: int32, s: State, c: HttpChunk, name: string)
    requires Invariant(max, s) && s.currentMessage.Some?
    requires !Overflows(max, |s.stored|, |c.content|) && c.isLast
    ensures var r := Step(max, s, Chunk(c), name);
            && r.outcome == Done && r.state == Idle
            && |r.effects| == 1 && r.effects[0].FireMessageReceived?
            && var done := r.effects[0].message;
               && done.content == s.stored + c.content
               && GetHeaders(done, CONTENT_LENGTH) == [Decimal(|done.content|)]
               && ParseDecimal(Decimal(|done.content|)) == |done.content|
               && (forall n :: n != CONTENT_LENGTH ==> GetHeaders(done, n) == GetHeaders(s.currentMessage.value, n))
  {
    DecimalRoundTrip(|s.stored + c.content|);
  }

  /**
   * A last chunk that overflows does not complete the message: nothing is
   * emitted, the file stays open and the session goes on.
   */
  lemma OverflowingLastChunkKeepsSession(max: int32, s: State, c: HttpChunk, name: string)
    requires Invariant(max, s) && s.currentMessage.Some?
    requires Overflows(max, |s.stored|, |c.content|) && c.isLast
    ensures var r := Step(max, s, Chunk(c), name);
            r.effects == [] && r.state.currentMessage.Some? && r.state.out && r.state.file == s.file
  {
  }

  /** An empty last chunk, the usual end of a chunked body, always completes the message when the limit is not negative. */
  lemma EmptyLastChunkCompletesMessage(max: int32, s: State, name: string)
    requires Invariant(max, s) && s.currentMessage.Some? && max >= UNLIMITED
    ensures Step(max, s, Chunk(HttpChunk([], true)), name)
            == StepResult(Idle, [FireMessageReceived(Finalised(s.currentMessage.value, s.stored))], Done)
  {
    assert s.stored + [] == s.stored;
  }

  /** Every event keeps the handler's invariant; in particular the stored length never exceeds a non-negative limit. */
  lemma StepKeepsInvariant(max: int32, s: State, u: Unit, name: string)
    requires Invariant(max, s)
    ensures Invariant(max, Step(max, s, u, name).state)
  {
  }

  lemma {:induction false} RunKeepsInvariant(max: int32, s: State, us: seq<Unit>, name: string)
    requires Invariant(max, s)
    ensures Invariant(max, Run(max, s, us, name).state)
    decreases |us|
  {
    if us != [] {
      StepKeepsInvariant(max, s, us[0], name);
      RunKeepsInvariant(max, Step(max, s, us[0], name).state, us[1..], name);
    }
  }

  /** Delivering `a` then `b` is delivering `a + b`. */
  lemma {:induction false} RunAppend(max: int32, s: State, a: seq<Unit>, b: seq<Unit>, name: string)
    ensures var ra := Run(max, s, a, name);
            var rb := Run(max, ra.state, b, name);
            Run(max, s, a + b, name) == RunResult(rb.state, ra.effects + rb.effects)
    decreases |a|
  {
    if a != [] {
      assert (a + b)[0] == a[0];
      assert (a + b)[1..] == a[1..] + b;
      var r := Step(max, s, a[0], name);
      RunAppend(max, r.state, a[1..], b, name);
      var ra := Run(max, r.state, a[1..], name);
      var rb := Run(max, ra.state, b, name);
      assert Run(max, s, a, name) == RunResult(ra.state, r.effects + ra.effects);
      assert Run(max, s, a + b, name) == RunResult(rb.state, r.effects + (ra.effects + rb.effects));
      assert r.effects + (ra.effects + rb.effects) == (r.effects + ra.effects) + rb.effects;
    } else {
      assert a + b == b;
    }
  }

  /** Non-last chunks that all fit are appended in order and emit nothing. */
  lemma {:induction false} FittingChunksAreConcatenated(max: int32, s: State, cs: seq<HttpChunk>, name: string)
    requires Invariant(max, s) && s.currentMessage.Some?
    requires forall i :: 0 <= i < |cs| ==> !cs[i].isLast
    requires max == UNLIMITED || (max >= 0 && |s.stored| + |Concat(cs)| <= max)
    ensures Run(max, s, Chunks(cs), name) == RunResult(s.(stored := s.stored + Concat(cs)), [])
    decreases |cs|
  {
    if cs != [] {
      var s1 := s.(stored := s.stored + cs[0].content);
      assert !Overflows(max, |s.stored|, |cs[0].content|);
      FittingChunkIsAppended(max, s, cs[0], name);
      assert Chunks(cs)[0] == Chunk(cs[0]) && Chunks(cs)[1..] == Chunks(cs[1..]);
      RunFirst(max, s, Chunks(cs), name);
      FittingChunksAreConcatenated(max, s1, cs[1..], name);
      assert s1.stored + Concat(cs[1..]) == s.stored + Concat(cs);
    }
  }

  /**
   * The chunks of `cs` that get written when the file already holds
   * `stored`: in order, each chunk that fits after the ones kept before it;
   * a chunk that would overflow is left out.
   */
  function Kept(max: int32, stored: seq<byte>, cs: seq<HttpChunk>): (r: seq<HttpChunk>)
    ensures |r| <= |cs| && forall c :: c in r ==> c in cs
    decreases |cs|
  {
    if cs == [] then []
    else if Overflows(max, |stored|, |cs[0].content|) then Kept(max, stored, cs[1..])
    else [cs[0]] + Kept(max, stored + cs[0].content, cs[1..])
  }

  /**
   * One more chunk keeps the chunks kept so far, in order, and is added after
   * them exactly when it fits after their bytes.
   */
  lemma {:induction false} KeptAppend(max: int32, stored: seq<byte>, cs: seq<HttpChunk>, c: HttpChunk)
    ensures var kept := Kept(max, stored, cs);
            Kept(max, stored, cs + [c]) ==
              kept + if Overflows(max, |stored| + |Concat(kept)|, |c.content|) then [] else [c]
    decreases |cs|
  {
    if cs == [] {
      assert cs + [c] == [c] && [c][1..] == [];
    } else {
      assert (cs + [c])[0] == cs[0] && (cs + [c])[1..] == cs[1..] + [c];
      if Overflows(max, |stored|, |cs[0].content|) {
        KeptAppend(max, stored, cs[1..], c);
      } else {
        var more := stored + cs[0].content;
        KeptAppend(max, more, cs[1..], c);
        var rest := Kept(max, more, cs[1..]);
        assert Concat([cs[0]] + rest) == cs[0].content + Concat(rest) by {
          assert ([cs[0]] + rest)[1..] == rest;
        }
      }
    }
  }

  /**
   * Non-last chunks, some of which may overflow: nothing is emitted, the
   * file holds the kept chunks' bytes in order after what it held, and the
   * message is flagged with the `Warning` header exactly when some chunk was
   * dropped.
   */
  lemma {:induction false} ChunksWithOverflows(max: int32, s: State, cs: seq<HttpChunk>, name: string)
    requires Invariant(max, s) && s.currentMessage.Some?
    requires forall i :: 0 <= i < |cs| ==> !cs[i].isLast
    ensures var r := Run(max, s, Chunks(cs), name);
            var kept := Kept(max, s.stored, cs);
            && r.effects == []
            && r.state.file == s.file && r.state.out && r.state.currentMessage.Some?
            && r.state.stored == s.stored + Concat(kept)
            && r.state.currentMessage.value
               == if |kept| < |cs| then SetHeader(s.currentMessage.value, WARNING, CONTENT_LENGTH_EXCEEDED)
                  else s.currentMessage.value
    decreases |cs|
  {
    if cs == [] {
      assert s.stored + [] == s.stored;
    } else {
      var c := cs[0];
      var step := Step(max, s, Chunk(c), name);
      assert Chunks(cs)[0] == Chunk(c) && Chunks(cs)[1..] == Chunks(cs[1..]);
      RunFirst(max, s, Chunks(cs), name);
      StepKeepsInvariant(max, s, Chunk(c), name);
      ChunksWithOverflows(max, step.state, cs[1..], name);
      if Overflows(max, |s.stored|, |c.content|) {
        SetHeaderIdempotent(s.currentMessage.value, WARNING, CONTENT_LENGTH_EXCEEDED);
      } else {
        var rest := Kept(max, s.stored + c.content, cs[1..]);
        assert Kept(max, s.stored, cs) == [c] + rest;
        assert Concat([c] + rest) == c.content + Concat(rest);
      }
    }
  }

  lemma {:induction false} ConcatAppend(a: seq<HttpChunk>, b: seq<HttpChunk>)
    ensures Concat(a + b) == Concat(a) + Concat(b)
    decreases |a|
  {
    if a != [] {
      assert (a + b)[0] == a[0];
      assert (a + b)[1..] == a[1..] + b;
      ConcatAppend(a[1..], b);
      assert a[0].content + (Concat(a[1..]) + Concat(b)) == (a[0].content + Concat(a[1..])) + Concat(b);
    } else {
      assert a + b == b;
    }
  }

  /**
   * A whole chunked message whose body fits the limit: at most one
   * `100 Continue` first, then exactly one complete message whose body is
   * the chunks' bytes in order and whose `Content-Length` is their number;
   * the handler ends idle.
   */
  lemma WholeMessageWithinLimit(max: int32, m: HttpMessage, body: seq<HttpChunk>, name: string)
    requires m.chunked && IsBody(body)
    requires max == UNLIMITED || (max >= 0 && |Concat(body)| <= max)
    ensures var r := Run(max, Idle, [Message(m)] + Chunks(body), name);
            && r.state == Idle
            && r.effects == (if ExpectsContinue(m) then [Write(CONTINUE_RESPONSE)] else [])
                            + [FireMessageReceived(Finalised(StripChunked(m), Concat(body)))]
  {
    var open := State(Some(StripChunked(m)), Some(name), true, []);
    assert Step(max, Idle, Message(m), name).state == open;
    BodyCompletesSession(max, open, body, name);
    var all := [Message(m)] + Chunks(body);
    assert all[0] == Message(m) && all[1..] == Chunks(body);
  }

  /** The body of a message, from the session its head opened, completes that message and closes the session. */
  lemma BodyCompletesSession(max: int32, open: State, body: seq<HttpChunk>, name: string)
    requires open.currentMessage.Some? && open.stored == [] && Invariant(max, open) && IsBody(body)
    requires max == UNLIMITED || (max >= 0 && |Concat(body)| <= max)
    ensures Run(max, open, Chunks(body), name)
              == RunResult(Idle, [FireMessageReceived(Finalised(open.currentMessage.value, Concat(body)))])
  {
    var n := |body| - 1;
    var init, last := body[..n], body[n];
    assert body == init + [last];
    ConcatAppend(init, [last]);
    assert Concat([last]) == last.content + Concat([]);
    assert Concat(body) == Concat(init) + last.content;
    assert Chunks(body) == Chunks(init) + [Chunk(last)];
    FittingChunksAreConcatenated(max, open, init, name);
    var full := open.(stored := Concat(init));
    assert open.(stored := open.stored + Concat(init)) == full;
    assert !Overflows(max, |Concat(init)|, |last.content|);
    var done := FireMessageReceived(Finalised(open.currentMessage.value, Concat(body)));
    assert Step(max, full, Chunk(last), name) == StepResult(Idle, [done], Done);
    assert Run(max, full, [Chunk(last)], name) == RunResult(Idle, [done]) by {
      assert [Chunk(last)][1..] == [];
    }
    RunAppend(max, open, Chunks(init), [Chunk(last)], name);
  }

  /** The message completed above carries no `Warning` beyond what the sender put there. */
  lemma CompletedMessageHeaders(m: HttpMessage, bytes: seq<byte>)
    ensures var done := Finalised(StripChunked(m), bytes);
            && done.content == bytes
            && ParseDecimal(GetHeader(done, CONTENT_LENGTH).value) == |bytes|
            && GetHeaders(done, WARNING) == GetHeaders(m, WARNING)
            && GetHeaders(done, EXPECT) == GetHeaders(m, EXPECT)
  {
    var stripped := StripChunked(m);
    var done := Finalised(stripped, bytes);
    assert GetHeaders(done, CONTENT_LENGTH) == [Decimal(|bytes|)];
    assert GetHeaders(stripped, WARNING) == GetHeaders(m, WARNING);
    assert GetHeaders(stripped, EXPECT) == GetHeaders(m, EXPECT);
    DecimalRoundTrip(|bytes|);
  }

  /** Two chunked messages in a row are handled independently: nothing of the first carries into the second. */
  lemma ConsecutiveMessagesAreIndependent(max: int32, m1: HttpMessage, b1: seq<HttpChunk>,
                                          m2: HttpMessage, b2: seq<HttpChunk>, name: string)
    requires m1.chunked && IsBody(b1) && m2.chunked && IsBody(b2)
    requires max == UNLIMITED || (max >= 0 && |Concat(b1)| <= max && |Concat(b2)| <= max)
    ensures var first := [Message(m1)] + Chunks(b1);
            var second := [Message(m2)] + Chunks(b2);
            Run(max, Idle, first + second, name)
              == RunResult(Idle, Run(max, Idle, first, name).effects + Run(max, Idle, second, name).effects)
  {
    var first := [Message(m1)] + Chunks(b1);
    var second := [Message(m2)] + Chunks(b2);
    WholeMessageWithinLimit(max, m1, b1, name);
    WholeMessageWithinLimit(max, m2, b2, name);
    var r1 := Run(max, Idle, first, name);
    var r2 := Run(max, Idle, second, name);
    assert r1.state == Idle && r2.state == Idle;
    RunAppend(max, Idle, first, second, name);
  }

  /** With a 10-byte limit, chunks `ABC` and a last `DE` give one message with body `ABCDE` and `Content-Length: 5`. */
  lemma BodyWithinLimitExample()
    ensures var m := HttpMessage(map[TRANSFER_ENCODING := [CHUNKED]], true, []);
            var r := Run(10, Idle, [Message(m), Chunk(HttpChunk([65, 66, 67], false)), Chunk(HttpChunk([68, 69], true))], "f");
            r == RunResult(Idle, [FireMessageReceived(HttpMessage(map[CONTENT_LENGTH := ["5"]], true, [65, 66, 67, 68, 69]))])
  {
    var m := HttpMessage(map[TRANSFER_ENCODING := [CHUNKED]], true, []);
    var body := [HttpChunk([65, 66, 67], false), HttpChunk([68, 69], true)];
    assert Concat(body) == [65, 66, 67, 68, 69];
    assert Chunks(body) == [Chunk(body[0]), Chunk(body[1])];
    WholeMessageWithinLimit(10, m, body, "f");
    assert StripChunked(m).headers == map[];
    assert Decimal(5) == "5";
  }

  /** Unfolds `Run` by one event. */
  lemma RunFirst(max: int32, s: State, us: seq<Unit>, name: string)
    requires us != []
    ensures var r := Step(max, s, us[0], name);
            var rest := Run(max, r.state, us[1..], name);
            Run(max, s, us, name) == RunResult(rest.state, r.effects + rest.effects)
  {
  }

  /**
   * With a 4-byte limit, a single last chunk of five bytes is dropped: the
   * message is flagged but not completed, and the session stays open.
   */
  lemma OverflowingLastChunkExample()
    ensures var m := HttpMessage(map[], true, []);
            var r := Run(4, Idle, [Message(m), Chunk(HttpChunk([65, 66, 67, 68, 69], true))], "f");
            && r.effects == []
            && r.state == State(Some(HttpMessage(map[WARNING := [CONTENT_LENGTH_EXCEEDED]], true, [])), Some("f"), true, [])
  {
    var m := HttpMessage(map[], true, []);
    var us := [Message(m), Chunk(HttpChunk([65, 66, 67, 68, 69], true))];
    assert StripChunked(m) == m by {
      assert m.headers - {TRANSFER_ENCODING} == m.headers;
    }
    var s1 := State(Some(m), Some("f"), true, []);
    var s2 := s1.(currentMessage := Some(SetHeader(m, WARNING, CONTENT_LENGTH_EXCEEDED)));
    assert Step(4, Idle, us[0], "f") == StepResult(s1, [], Done);
    assert Overflows(4, 0, 5);
    assert Step(4, s1, us[1], "f") == StepResult(s2, [], Done);
    RunFirst(4, Idle, us, "f");
    RunFirst(4, s1, us[1..], "f");
    assert us[1..][1..] == [];
  }

  /**
   * A chunk that overflows does not close the door on later ones: with a
   * 10-byte limit, 8 bytes, then 5 (dropped), then a last chunk of 2 give a
   * 10-byte body that skips the middle chunk.
   */
  lemma SmallerChunkFitsAfterOverflowExample()
    ensures var m := HttpMessage(map[], true, []);
            var r := Run(10, Idle, [Message(m),
                                    Chunk(HttpChunk([1, 2, 3, 4, 5, 6, 7, 8], false)),
                                    Chunk(HttpChunk([9, 9, 9, 9, 9], false)),
                                    Chunk(HttpChunk([10, 11], true))], "f");
            && r.state == Idle
            && r.effects == [FireMessageReceived(HttpMessage(map[WARNING := [CONTENT_LENGTH_EXCEEDED], CONTENT_LENGTH := ["10"]],
                                                             true, [1, 2, 3, 4, 5, 6, 7, 8, 10, 11]))]
  {
    var m := HttpMessage(map[], true, []);
    var us := [Message(m),
               Chunk(HttpChunk([1, 2, 3, 4, 5, 6, 7, 8], false)),
               Chunk(HttpChunk([9, 9, 9, 9, 9], false)),
               Chunk(HttpChunk([10, 11], true))];
    assert StripChunked(m) == m by {
      assert m.headers - {TRANSFER_ENCODING} == m.headers;
    }
    var eight: seq<byte> := [1, 2, 3, 4, 5, 6, 7, 8];
    var s1 := State(Some(m), Some("f"), true, []);
    var s2 := s1.(stored := eight);
    var flagged := SetHeader(m, WARNING, CONTENT_LENGTH_EXCEEDED);
    var s3 := s2.(currentMessage := Some(flagged));
    var done := FireMessageReceived(Finalised(flagged, eight + [10, 11]));
    assert Step(10, Idle, us[0], "f") == StepResult(s1, [], Done);
    assert [] + eight == eight;
    assert Step(10, s1, us[1], "f") == StepResult(s2, [], Done);
    assert Overflows(10, 8, 5);
    assert Step(10, s2, us[2], "f") == StepResult(s3, [], Done);
    assert !Overflows(10, 8, 2);
    assert Step(10, s3, us[3], "f") == StepResult(Idle, [done], Done);
    RunFirst(10, Idle, us, "f");
    RunFirst(10, s1, us[1..], "f");
    RunFirst(10, s2, us[2..], "f");
    RunFirst(10, s3, us[3..], "f");
    assert us[1..][1..] == us[2..] && us[2..][1..] == us[3..] && us[3..][1..] == [];
    assert Decimal(10) == "10";
    assert eight + [10, 11] == [1, 2, 3, 4, 5, 6, 7, 8, 10, 11];
    assert flagged.headers[CONTENT_LENGTH := ["10"]] == map[WARNING := [CONTENT_LENGTH_EXCEEDED], CONTENT_LENGTH := ["10"]];
  }

  /** A chunked message with `Expect: 100-continue` and a last chunk `X`: one `100 Continue`, then the message. */
  lemma ContinueBeforeMessageExample()
    ensures var m := HttpMessage(map[EXPECT := ["100-continue"]], true, []);
            Run(UNLIMITED, Idle, [Message(m), Chunk(HttpChunk([88], true))], "f").effects
              == [Write(CONTINUE_RESPONSE), FireMessageReceived(HttpMessage(map[EXPECT := ["100-continue"], CONTENT_LENGTH := ["1"]], true, [88]))]
  {
    var m := HttpMessage(map[EXPECT := ["100-continue"]], true, []);
    var body := [HttpChunk([88], true)];
    assert Concat(body) == [88];
    assert Chunks(body) == [Chunk(body[0])];
    WholeMessageWithinLimit(UNLIMITED, m, body, "f");
    assert StripChunked(m) == m by {
      assert m.headers - {TRANSFER_ENCODING} == m.headers;
    }
    assert ExpectsContinue(m);
    assert Decimal(1) == "1";
  }
}
