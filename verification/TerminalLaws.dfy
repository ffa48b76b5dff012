/** When a chat stream counts as failed, as completed, or as not ended. */
module TerminalLaws {
  import opened PyText
  import opened Json
  import opened TraceEvents
  import opened ChatRelay
  import opened RelayLaws

  /** The data of the block: the values of its data lines, one per line, stripped. */
  function Data(block: string): string {
    Strip(JoinWith("\n", DataParts(Lines(block))))
  }

  /** The data is an object whose first choice is an object with this reason for finishing. */
  ghost predicate FinishesWith(lib: Library, block: string, reason: Json) {
    && Data(block) != "" && Data(block) != "[DONE]"
    && lib.parse(Data(block)).Some? && lib.parse(Data(block)).value.Obj?
    && var payload := lib.parse(Data(block)).value.fields;
    && "choices" in payload && payload["choices"].List? && |payload["choices"].items| > 0
    && payload["choices"].items[0].Obj?
    && "finish_reason" in payload["choices"].items[0].fields
    && payload["choices"].items[0].fields["finish_reason"] == reason
    && reason != Null
  }

  /** The reason, as text without surrounding white space in lower case, is one of four words. */
  ghost predicate IsFailure(lib: Library, reason: Json) {
    var word := lib.lower(Strip(if reason.Str? then reason.text else lib.show(reason)));
    word == "error" || word == "cancel" || word == "cancelled" || word == "canceled"
  }

  ghost predicate Fails(lib: Library, block: string) {
    exists reason :: FinishesWith(lib, block, reason) && IsFailure(lib, reason)
  }

  ghost predicate Completes(lib: Library, block: string) {
    Data(block) == "[DONE]" || (exists reason :: FinishesWith(lib, block, reason) && !IsFailure(lib, reason))
  }

  lemma OneReason(lib: Library, block: string, reason: Json)
    requires FinishesWith(lib, block, reason)
    ensures forall other :: FinishesWith(lib, block, other) ==> other == reason
  {
  }

  lemma ReasonDecides(lib: Library, block: string, reason: Json)
    requires FinishesWith(lib, block, reason)
    ensures TerminalState(lib, block) == if IsFailure(lib, reason) then "failed" else "completed"
  {
    var payload := lib.parse(Data(block)).value.fields;
    assert Get(payload, "choices") == payload["choices"];
    assert Get(payload["choices"].items[0].fields, "finish_reason") == reason;
  }

  lemma NoReason(lib: Library, block: string)
    requires forall reason :: !FinishesWith(lib, block, reason)
    ensures TerminalState(lib, block) == if Data(block) == "[DONE]" then "completed" else ""
  {
    var data := Data(block);
    if data != "" && data != "[DONE]" && lib.parse(data).Some? && lib.parse(data).value.Obj? {
      var choices := Get(lib.parse(data).value.fields, "choices");
      if choices.List? && choices.items != [] && choices.items[0].Obj? {
        assert !FinishesWith(lib, block, Get(choices.items[0].fields, "finish_reason"));
      }
    }
  }

  /** A block answers "failed" and "completed" exactly when it fails and completes, and nothing otherwise. */
  lemma TerminalStateIs(lib: Library, block: string)
    ensures TerminalState(lib, block) == "failed" <==> Fails(lib, block)
    ensures TerminalState(lib, block) == "completed" <==> Completes(lib, block)
    ensures TerminalState(lib, block) == "" <==> !Fails(lib, block) && !Completes(lib, block)
  {
    if reason :| FinishesWith(lib, block, reason) {
      OneReason(lib, block, reason);
      ReasonDecides(lib, block, reason);
    } else {
      NoReason(lib, block);
    }
  }

  /** The unit at index `i` ends the stream, and no later unit does. */
  ghost predicate LastToEnd(lib: Library, units: seq<string>, i: nat) {
    && i < |units| && (Fails(lib, units[i]) || Completes(lib, units[i]))
    && forall j :: i < j < |units| ==> !Fails(lib, units[j]) && !Completes(lib, units[j])
  }

  lemma LastIsUnique(lib: Library, units: seq<string>, i: nat, j: nat)
    requires LastToEnd(lib, units, i) && LastToEnd(lib, units, j)
    ensures i == j
  {
  }

  /**
   The state of a whole relay: "failed" exactly when the last unit that ends anything carries one of the four
   words, "completed" exactly when it carries another reason or "[DONE]", and empty when none ends anything.
   */
  lemma FinalStateIs(lib: Library, units: seq<string>)
    ensures FinalState(lib, units) == "failed" <==> exists i: nat :: LastToEnd(lib, units, i) && Fails(lib, units[i])
    ensures FinalState(lib, units) == "completed" <==>
              exists i: nat :: LastToEnd(lib, units, i) && Completes(lib, units[i])
    ensures FinalState(lib, units) == "" <==> forall i: nat :: !LastToEnd(lib, units, i)
  {
    var states := States(lib, units);
    forall i | 0 <= i < |units| ensures states[i] == "" <==> !Fails(lib, units[i]) && !Completes(lib, units[i]) {
      TerminalStateIs(lib, units[i]);
    }
    StateIsLastWins(states);
    if FinalState(lib, units) != "" {
      var last: nat :| LastAt(states, last) && LastNonEmpty(states) == states[last];
      TerminalStateIs(lib, units[last]);
      assert LastToEnd(lib, units, last);
      forall i: nat | LastToEnd(lib, units, i) ensures i == last {
        LastIsUnique(lib, units, i, last);
      }
    }
  }
}
