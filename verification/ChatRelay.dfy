/** The relay of a chat stream: one loop that splits, rewrites, folds the terminal state and writes on. */
module ChatRelay {
  import opened PyText
  import opened SseBlocks
  import opened TraceEvents

  /** What happens when a frame is offered to the client. */
  datatype Reply = Accepted | Refused | Raised

  // ---- What the relay computes, for a whole text ----

  /** The terminated blocks, and the unterminated tail unless it is blank. */
  function Units(text: string): seq<string> {
    if Strip(Tail(text)) == "" then Blocks(text) else Blocks(text) + [Tail(text)]
  }

  function Rewritten(lib: Library, units: seq<string>): (r: seq<string>)
    ensures |r| == |units|
    ensures forall i :: 0 <= i < |units| ==> r[i] == Normalized(lib, units[i])
  {
    seq(|units|, i requires 0 <= i < |units| => Normalized(lib, units[i]))
  }

  function Frames(lib: Library, units: seq<string>): (r: seq<string>)
    ensures |r| == |units|
    ensures forall i :: 0 <= i < |units| ==> r[i] == Normalized(lib, units[i]) + "\n\n"
  {
    seq(|units|, i requires 0 <= i < |units| => Normalized(lib, units[i]) + "\n\n")
  }

  function States(lib: Library, units: seq<string>): (r: seq<string>)
    ensures |r| == |units|
    ensures forall i :: 0 <= i < |units| ==> r[i] == TerminalState(lib, units[i])
  {
    seq(|units|, i requires 0 <= i < |units| => TerminalState(lib, units[i]))
  }

  /** The last non-empty state, if any. */
  function LastNonEmpty(states: seq<string>): string {
    if states == [] then ""
    else if states[|states| - 1] != "" then states[|states| - 1]
    else LastNonEmpty(states[..|states| - 1])
  }

  /** The state the relay of these units returns. */
  function FinalState(lib: Library, units: seq<string>): string {
    LastNonEmpty(States(lib, units))
  }

  predicate AllAccepted(count: nat, reply: nat -> Reply) {
    forall i :: 0 <= i < count ==> reply(i) == Accepted
  }

  /** The frames offered to a client that answers the i-th offer with `reply(i)`. */
  function Offered(frames: seq<string>, reply: nat -> Reply): seq<string> {
    if frames == [] then []
    else
      var front := Offered(frames[..|frames| - 1], reply);
      if AllAccepted(|frames| - 1, reply) then front + [frames[|frames| - 1]] else front
  }

  /** The chunks before the empty one that ends the stream. */
  function Upstream(chunks: seq<string>): seq<string> {
    if chunks == [] || chunks[0] == "" then [] else [chunks[0]] + Upstream(chunks[1..])
  }

  /** All text read, without carriage returns. */
  function Received(chunks: seq<string>): string {
    StripCr(Concat(Upstream(chunks)))
  }

  // ---- The loop ----

  lemma OfferedPush(frames: seq<string>, frame: string, reply: nat -> Reply)
    ensures Offered(frames + [frame], reply)
         == if AllAccepted(|frames|, reply) then Offered(frames, reply) + [frame] else Offered(frames, reply)
  {
    assert (frames + [frame])[..|frames|] == frames;
  }

  lemma LastNonEmptyPush(states: seq<string>, state: string)
    ensures LastNonEmpty(states + [state]) == if state != "" then state else LastNonEmpty(states)
  {
    assert (states + [state])[..|states|] == states;
  }

  lemma FinalStatePush(lib: Library, units: seq<string>, unit: string)
    ensures FinalState(lib, units + [unit])
         == if TerminalState(lib, unit) != "" then TerminalState(lib, unit) else FinalState(lib, units)
  {
    assert States(lib, units + [unit]) == States(lib, units) + [TerminalState(lib, unit)];
    LastNonEmptyPush(States(lib, units), TerminalState(lib, unit));
  }

  lemma FramesPush(lib: Library, units: seq<string>, unit: string)
    ensures Frames(lib, units + [unit]) == Frames(lib, units) + [Normalized(lib, unit) + "\n\n"]
  {
  }

  lemma {:induction false} AllAcceptedOffersAll(frames: seq<string>, reply: nat -> Reply)
    requires AllAccepted(|frames|, reply)
    ensures Offered(frames, reply) == frames
  {
    if frames != [] {
      AllAcceptedOffersAll(frames[..|frames| - 1], reply);
    }
  }

  lemma AllAcceptedNext(count: nat, reply: nat -> Reply)
    ensures AllAccepted(count + 1, reply) <==> AllAccepted(count, reply) && reply(count) == Accepted
  {
  }

  /** The loop's variables after the blocks `done` have been handled. */
  ghost predicate Handled(lib: Library, reply: nat -> Reply, done: seq<string>,
                          state: string, connected: bool, offered: seq<string>)
  {
    && state == FinalState(lib, done)
    && connected == AllAccepted(|done|, reply)
    && offered == Offered(Frames(lib, done), reply)
  }

  lemma HandledNext(lib: Library, reply: nat -> Reply, done: seq<string>, unit: string,
                    state: string, connected: bool, offered: seq<string>)
    requires Handled(lib, reply, done, state, connected, offered)
    ensures var terminal := TerminalState(lib, unit);
            Handled(lib, reply, done + [unit],
                    if terminal != "" then terminal else state,
                    connected && reply(|offered|) == Accepted,
                    if connected then offered + [Normalized(lib, unit) + "\n\n"] else offered)
  {
    FinalStatePush(lib, done, unit);
    FramesPush(lib, done, unit);
    var frames, frame := Frames(lib, done), Normalized(lib, unit) + "\n\n";
    OfferedPush(frames, frame, reply);
    if connected {
      AllAcceptedOffersAll(frames, reply);
      assert |offered| == |done|;
    }
    AllAcceptedNext(|done|, reply);
  }

  /** The text splits into the blocks `done` and whatever `rest` splits into. */
  ghost predicate Remains(text: string, done: seq<string>, rest: string) {
    Blocks(text) == done + Blocks(rest) && Tail(text) == Tail(rest)
  }

  lemma SplitStarts(chunks: seq<string>)
    ensures Remains(Received(chunks), [], "" + Received(chunks[0..]))
  {
    assert chunks[0..] == chunks && "" + Received(chunks) == Received(chunks);
  }

  lemma ReceivedNext(chunks: seq<string>, next: nat, buffer: string)
    requires next < |chunks| && chunks[next] != ""
    ensures buffer + Received(chunks[next..]) == buffer + StripCr(chunks[next]) + Received(chunks[next + 1..])
  {
    var rest := chunks[next..];
    assert rest[1..] == chunks[next + 1..];
    assert Upstream(rest)[1..] == Upstream(rest[1..]);
    StripCrAppend(rest[0], Concat(Upstream(rest[1..])));
    Associate(buffer, StripCr(rest[0]), Received(rest[1..]));
  }

  /** Taking the first block off the buffer leaves the rest of the stream as it was. */
  lemma SplitFirst(text: string, done: seq<string>, buffer: string, later: string)
    requires Remains(text, done, buffer + later) && HasBreak(buffer)
    ensures Remains(text, done + [buffer[..FirstBreak(buffer)]], buffer[FirstBreak(buffer) + 2..] + later)
  {
    var at := FirstBreak(buffer);
    FirstBlockIsBlock(buffer);
    Associate(buffer[..at] + "\n\n", buffer[at + 2..], later);
    SplitsOff(buffer[..at], buffer[at + 2..] + later);
    Associate(done, [buffer[..at]], Blocks(buffer[at + 2..] + later));
  }

  lemma SplitEnds(text: string, done: seq<string>, rest: seq<string>, buffer: string)
    requires Remains(text, done, buffer + Received(rest)) && !HasBreak(buffer)
    requires rest == [] || rest[0] == ""
    ensures Blocks(text) == done && Tail(text) == buffer
  {
    assert Received(rest) == "" && buffer + "" == buffer;
  }

  /**
   The relay. `chunks` are the successive results of the upstream read, already decoded; an empty one ends the
   stream. The result depends on the text alone, however it is cut into chunks, and the returned state does not
   depend on the client.
   */
  method RelayChatStream(lib: Library, chunks: seq<string>, reply: nat -> Reply)
    returns (state: string, offered: seq<string>)
    ensures state == FinalState(lib, Units(Received(chunks)))
    ensures offered == Offered(Frames(lib, Units(Received(chunks))), reply)
  {
    var buffer := "";
    var connected := true;
    state, offered := "", [];
    ghost var text, done: seq<string> := Received(chunks), [];
    var next := 0;
    SplitStarts(chunks);
    while next < |chunks| && chunks[next] != ""
      invariant 0 <= next <= |chunks|
      invariant Remains(text, done, buffer + Received(chunks[next..]))
      invariant !HasBreak(buffer)
      invariant Handled(lib, reply, done, state, connected, offered)
    {
      ghost var later := Received(chunks[next + 1..]);
      ReceivedNext(chunks, next, buffer);
      buffer := buffer + StripCr(chunks[next]);
      next := next + 1;
      while HasBreak(buffer)
        invariant Remains(text, done, buffer + later)
        invariant Handled(lib, reply, done, state, connected, offered)
        decreases |buffer|
      {
        var block := buffer[..FirstBreak(buffer)];
        SplitFirst(text, done, buffer, later);
        HandledNext(lib, reply, done, block, state, connected, offered);
        buffer := buffer[FirstBreak(buffer) + 2..];
        done := done + [block];
        var terminal := ChatStreamTerminalState(lib, block);
        if terminal != "" {
          state := terminal;
        }
        var normalized := NormalizeChatSseEvent(lib, block);
        if connected {
          connected := reply(|offered|) == Accepted;
          offered := offered + [normalized + "\n\n"];
        }
      }
    }
    SplitEnds(text, done, chunks[next..], buffer);
    if Strip(buffer) != "" {
      HandledNext(lib, reply, done, buffer, state, connected, offered);
      var terminal := ChatStreamTerminalState(lib, buffer);
      if terminal != "" {
        state := terminal;
      }
      var normalized := NormalizeChatSseEvent(lib, buffer);
      if connected {
        offered := offered + [normalized + "\n\n"];
      }
    }
  }
}
