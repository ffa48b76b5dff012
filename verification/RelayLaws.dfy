/** What the relay guarantees over whole streams. */
module RelayLaws {
  import opened PyText
  import opened SseBlocks
  import opened TraceEvents
  import opened ChatRelay

  lemma {:induction false} AllChunksAreRead(chunks: seq<string>)
    requires "" !in chunks
    ensures Upstream(chunks) == chunks
  {
    if chunks != [] {
      assert chunks[0] in chunks;
      AllChunksAreRead(chunks[1..]);
      assert chunks == [chunks[0]] + chunks[1..];
    }
  }

  /** Non-empty chunks are all read, so that the received text is that of any other way to cut it. */
  lemma CutsAreInvisible(chunks: seq<string>)
    requires "" !in chunks
    ensures Received(chunks) == StripCr(Concat(chunks))
    ensures Concat(chunks) != "" ==> Received(chunks) == Received([Concat(chunks)])
  {
    AllChunksAreRead(chunks);
    if Concat(chunks) != "" {
      AllChunksAreRead([Concat(chunks)]);
      ConcatSingle(Concat(chunks));
    }
  }

  lemma {:induction false} UpstreamStops(chunks: seq<string>, later: seq<string>)
    requires "" !in chunks
    ensures Upstream(chunks + [""] + later) == chunks
  {
    var all := chunks + [""] + later;
    if chunks != [] {
      assert chunks[0] in chunks && all[0] == chunks[0];
      assert all[1..] == chunks[1..] + [""] + later;
      UpstreamStops(chunks[1..], later);
      assert chunks == [chunks[0]] + chunks[1..];
    }
  }

  /** An empty chunk ends the stream: nothing after it is read. */
  lemma {:induction false} ReadingStopsAtTheEnd(chunks: seq<string>, later: seq<string>)
    requires "" !in chunks
    ensures Received(chunks + [""] + later) == StripCr(Concat(chunks))
  {
    UpstreamStops(chunks, later);
  }

  /** What is offered is a prefix of all frames: all of them, or those up to and including the first not accepted. */
  lemma {:induction false} OfferedUpToRefusal(frames: seq<string>, reply: nat -> Reply)
    ensures var offered := Offered(frames, reply);
            && offered <= frames
            && (forall i :: 0 <= i < |offered| - 1 ==> reply(i) == Accepted)
            && (offered != frames ==> offered != [] && reply(|offered| - 1) != Accepted)
  {
    if frames != [] {
      var front := frames[..|frames| - 1];
      OfferedUpToRefusal(front, reply);
      if AllAccepted(|front|, reply) {
        AllAcceptedOffersAll(front, reply);
        assert frames == front + [frames[|frames| - 1]];
      } else if Offered(front, reply) == front {
        assert forall i :: 0 <= i < |front| - 1 ==> reply(i) == Accepted;
      }
    }
  }

  /** The last non-empty state is the one at index `i`. */
  ghost predicate LastAt(states: seq<string>, i: nat) {
    i < |states| && states[i] != "" && forall j :: i < j < |states| ==> states[j] == ""
  }

  /** The state is that of the last unit that ends something, and empty exactly when none does. */
  lemma {:induction false} StateIsLastWins(states: seq<string>)
    ensures LastNonEmpty(states) == "" <==> forall i :: 0 <= i < |states| ==> states[i] == ""
    ensures LastNonEmpty(states) != "" ==> exists i: nat :: LastAt(states, i) && LastNonEmpty(states) == states[i]
  {
    if states != [] {
      var front, last := states[..|states| - 1], states[|states| - 1];
      StateIsLastWins(front);
      if last != "" {
        assert LastAt(states, |states| - 1);
      } else if LastNonEmpty(front) != "" {
        var i: nat :| LastAt(front, i) && LastNonEmpty(front) == front[i];
        assert LastAt(states, i);
      }
    }
  }

  /** A later "[DONE]" overrides an earlier error: the stream ends as completed. */
  lemma DoneOverridesError(lib: Library, units: seq<string>, error: string, done: string)
    requires TerminalState(lib, error) == "failed"
    requires Strip(JoinWith("\n", DataParts(Lines(done)))) == "[DONE]"
    ensures FinalState(lib, units + [error]) == "failed"
    ensures FinalState(lib, units + [error] + [done]) == "completed"
  {
    FinalStatePush(lib, units, error);
    FinalStatePush(lib, units + [error], done);
  }

  // ---- The output as a stream ----

  /** All frames, end to end. */
  function Output(lib: Library, text: string): string {
    Concat(Frames(lib, Units(text)))
  }

  lemma {:induction false} OutputIsJoin(lib: Library, units: seq<string>)
    ensures Concat(Frames(lib, units)) == Join(Rewritten(lib, units))
  {
    if units != [] {
      OutputIsJoin(lib, units[1..]);
      assert Frames(lib, units)[1..] == Frames(lib, units[1..]);
      assert Rewritten(lib, units)[1..] == Rewritten(lib, units[1..]);
    }
  }

  /** The tail is not blank, closes with a newline, and does not announce tool progress with an object. */
  predicate KeepsOpenTail(lib: Library, text: string) {
    var tail := Tail(text);
    Strip(tail) != "" && tail[|tail| - 1] == '\n' && !Rewrites(lib, tail)
  }

  lemma RewrittenPush(lib: Library, units: seq<string>, unit: string)
    ensures Rewritten(lib, units + [unit]) == Rewritten(lib, units) + [Normalized(lib, unit)]
  {
  }

  lemma TailRewritesToBlock(lib: Library, tail: string)
    requires !HasBreak(tail) && tail != ""
    requires tail[|tail| - 1] != '\n' || Rewrites(lib, tail)
    ensures IsBlock(Normalized(lib, tail))
  {
    NormalizedTwice(lib, tail);
  }

  lemma BlocksRewriteToBlocks(lib: Library, text: string)
    ensures forall r :: r in Rewritten(lib, Blocks(text)) ==> IsBlock(r)
  {
    SplitConserves(text);
    var blocks := Blocks(text);
    forall i | 0 <= i < |blocks| ensures IsBlock(Normalized(lib, blocks[i])) {
      NormalizedTwice(lib, blocks[i]);
      assert blocks[i] in blocks;
    }
  }

  lemma UnitsRewriteToBlocks(lib: Library, text: string)
    requires !KeepsOpenTail(lib, text)
    ensures forall r :: r in Rewritten(lib, Units(text)) ==> IsBlock(r)
  {
    BlocksRewriteToBlocks(lib, text);
    if Strip(Tail(text)) != "" {
      SplitConserves(text);
      TailRewritesToBlock(lib, Tail(text));
      RewrittenPush(lib, Blocks(text), Tail(text));
    }
  }

  lemma FramesOfRewritten(lib: Library, units: seq<string>)
    ensures Frames(lib, Rewritten(lib, units)) == Frames(lib, units)
  {
    forall i | 0 <= i < |units| ensures Normalized(lib, Normalized(lib, units[i])) == Normalized(lib, units[i]) {
      NormalizedTwice(lib, units[i]);
    }
  }

  lemma ClosedOutputSplitsBack(lib: Library, text: string)
    requires !KeepsOpenTail(lib, text)
    ensures Units(Output(lib, text)) == Rewritten(lib, Units(text))
  {
    var units := Rewritten(lib, Units(text));
    OutputIsJoin(lib, Units(text));
    UnitsRewriteToBlocks(lib, text);
    assert !HasBreak("");
    SplitIsUnique(units, "");
    assert Join(units) + "" == Join(units);
  }

  lemma JoinOpenTail(front: seq<string>, cut: string)
    ensures Join(front + [cut + "\n"]) == Join(front + [cut]) + "\n"
  {
    JoinAppend(front, [cut + "\n"]);
    JoinAppend(front, [cut]);
    assert Join([cut + "\n"]) == cut + "\n" + "\n\n";
    assert Join([cut]) == cut + "\n\n";
    assert cut + "\n" + "\n\n" == cut + "\n\n" + "\n";
    Associate(Join(front), Join([cut]), "\n");
  }

  lemma LoneNewline()
    ensures !HasBreak("\n") && Strip("\n") == ""
  {
    BlankIff("\n");
  }

  lemma CutTailIsBlock(tail: string)
    requires !HasBreak(tail) && tail != "" && tail[|tail| - 1] == '\n'
    ensures IsBlock(tail[..|tail| - 1])
  {
    var cut := tail[..|tail| - 1];
    NoBreak(tail);
    NoBreak(cut);
    forall i: nat ensures !BreakAt(cut, i) {
      assert !BreakAt(tail, i);
    }
    if |cut| > 0 {
      assert !BreakAt(tail, |cut| - 1);
    }
  }

  /** Blocks and an open tail, end to end, split into the blocks, the tail without its newline, and a newline. */
  lemma OpenTailSplits(front: seq<string>, tail: string)
    requires forall b :: b in front ==> IsBlock(b)
    requires !HasBreak(tail) && tail != "" && tail[|tail| - 1] == '\n'
    ensures Units(Join(front + [tail])) == front + [tail[..|tail| - 1]]
  {
    var cut := tail[..|tail| - 1];
    CutTailIsBlock(tail);
    assert tail == cut + "\n";
    JoinOpenTail(front, cut);
    LoneNewline();
    SplitIsUnique(front + [cut], "\n");
  }

  /** A tail kept open loses its newline when the output is split again, so that its last unit changes. */
  lemma OpenOutputSplitsDifferently(lib: Library, text: string)
    requires KeepsOpenTail(lib, text)
    ensures Units(Output(lib, text)) == Rewritten(lib, Blocks(text)) + [Tail(text)[..|Tail(text)| - 1]]
  {
    OutputIsJoin(lib, Units(text));
    RewrittenPush(lib, Blocks(text), Tail(text));
    BlocksRewriteToBlocks(lib, text);
    SplitConserves(text);
    OpenTailSplits(Rewritten(lib, Blocks(text)), Tail(text));
  }

  lemma {:induction false} BlocksLack(text: string, c: char)
    requires c !in text
    ensures forall i :: 0 <= i < |Blocks(text)| ==> c !in Blocks(text)[i]
    ensures c !in Tail(text)
    decreases |text|
  {
    if HasBreak(text) {
      BlocksLack(text[FirstBreak(text) + 2..], c);
    }
  }

  lemma {:induction false} ConcatLacks(pieces: seq<string>, c: char)
    requires forall i :: 0 <= i < |pieces| ==> c !in pieces[i]
    ensures c !in Concat(pieces)
  {
    if pieces != [] {
      ConcatLacks(pieces[1..], c);
    }
  }

  lemma OutputHasNoCr(lib: Library, text: string)
    requires '\r' !in text
    ensures '\r' !in Output(lib, text)
  {
    var units := Units(text);
    BlocksLack(text, '\r');
    forall i | 0 <= i < |units| ensures '\r' !in Frames(lib, units)[i] {
      NormalizedTwice(lib, units[i]);
      if i < |Blocks(text)| {
        assert units[i] == Blocks(text)[i];
      }
    }
    ConcatLacks(Frames(lib, units), '\r');
  }

  lemma OpenTailIsNoBlock(lib: Library, tail: string)
    requires !HasBreak(tail) && tail != "" && tail[|tail| - 1] == '\n'
    ensures Normalized(lib, tail[..|tail| - 1]) != tail
  {
    CutTailIsBlock(tail);
    NormalizedTwice(lib, tail[..|tail| - 1]);
  }

  lemma DifferentEnding(a: string, b: string)
    requires a != b
    ensures a + "\n\n" != b + "\n\n"
  {
    assert a == (a + "\n\n")[..|a|] && b == (b + "\n\n")[..|b|];
  }

  lemma LastFrameDiffers(lib: Library, a: seq<string>, b: seq<string>, n: nat)
    requires |a| == |b| && n < |a|
    requires a[n] != b[n] && Normalized(lib, b[n]) == b[n] && Normalized(lib, a[n]) != b[n]
    ensures a != Rewritten(lib, b) && Frames(lib, a) != Frames(lib, b)
  {
    DifferentEnding(Normalized(lib, a[n]), b[n]);
    assert Frames(lib, a)[n] != Frames(lib, b)[n];
    assert a[n] != Rewritten(lib, b)[n];
  }

  lemma OpenTailChangesFrames(lib: Library, text: string)
    requires KeepsOpenTail(lib, text)
    ensures Units(Output(lib, text)) != Rewritten(lib, Units(text))
    ensures Frames(lib, Units(Output(lib, text))) != Frames(lib, Units(text))
  {
    var tail := Tail(text);
    var cut, n := tail[..|tail| - 1], |Blocks(text)|;
    OpenOutputSplitsDifferently(lib, text);
    SplitConserves(text);
    OpenTailIsNoBlock(lib, tail);
    LastFrameDiffers(lib, Units(Output(lib, text)), Units(text), n);
  }

  lemma SingleChunk(text: string)
    requires '\r' !in text
    ensures Received([text]) == text
  {
    if text != "" {
      AllChunksAreRead([text]);
      ConcatSingle(text);
    }
  }

  /**
   Framing round trip: splitting the relay's whole output again gives back exactly the rewritten units, and
   relaying it again offers exactly the same frames, if and only if the input does not end in an unterminated
   tail that closes with a newline and is not a tool-progress event.
   */
  lemma RelayingAgainIffClosed(lib: Library, text: string)
    requires '\r' !in text
    ensures Units(Output(lib, text)) == Rewritten(lib, Units(text)) <==> !KeepsOpenTail(lib, text)
    ensures Frames(lib, Units(Received([Output(lib, text)]))) == Frames(lib, Units(text)) <==> !KeepsOpenTail(lib, text)
  {
    OutputHasNoCr(lib, text);
    SingleChunk(Output(lib, text));
    if KeepsOpenTail(lib, text) {
      OpenTailChangesFrames(lib, text);
    } else {
      ClosedOutputSplitsBack(lib, text);
      FramesOfRewritten(lib, Units(text));
    }
  }

  lemma LoneLineNamesNothing()
    ensures EventName(Lines("x\n")) == "message"
  {
    SplitOnFirst("x", "", '\n');
    assert "x\n" == "x" + ['\n'] + "";
    var lines := ["x", ""];
    assert lines[..1] == ["x"] && ["x"][..0] == [];
    assert "x"[0] == 'x';
  }

  lemma LoneLineIsTail()
    ensures Tail("x\n") == "x\n" && Strip("x\n") != ""
  {
    var text := "x\n";
    assert text[0] in text;
    BlankIff(text);
  }

  /** Such a tail exists, whatever the library routines: a lone line "x" and its newline. */
  lemma OpenTailExample(lib: Library)
    ensures KeepsOpenTail(lib, "x\n")
    ensures Frames(lib, Units(Received([Output(lib, "x\n")]))) != Frames(lib, Units("x\n"))
  {
    LoneLineNamesNothing();
    LoneLineIsTail();
    RelayingAgainIffClosed(lib, "x\n");
  }

  lemma NothingToRewrite(lib: Library, units: seq<string>)
    requires forall u :: u in units ==> EventName(Lines(u)) != TOOL_PROGRESS
    ensures Rewritten(lib, units) == units
  {
    assert forall i :: 0 <= i < |units| ==> units[i] in units;
  }

  lemma JoinLast(front: seq<string>, last: string)
    ensures Join(front + [last]) == Join(front) + last + "\n\n"
  {
    JoinAppend(front, [last]);
    assert Join([last]) == last + "\n\n" + "";
    Associate(Join(front), last, "\n\n");
  }

  /** With no tool-progress block, the output is the input: a blank tail is dropped, any other is terminated. */
  lemma WithoutToolProgressNothingChanges(lib: Library, text: string)
    requires forall u :: u in Units(text) ==> EventName(Lines(u)) != TOOL_PROGRESS
    ensures if Strip(Tail(text)) == "" then Output(lib, text) + Tail(text) == text
            else Output(lib, text) == text + "\n\n"
  {
    OutputIsJoin(lib, Units(text));
    NothingToRewrite(lib, Units(text));
    SplitConserves(text);
    if Strip(Tail(text)) != "" {
      JoinLast(Blocks(text), Tail(text));
    }
  }
}
