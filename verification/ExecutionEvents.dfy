/** Reading a published execution event back: what a client finds in a rewritten block. */
module ExecutionEvents {
  import opened Wrappers
  import opened PyText
  import opened Json
  import opened TraceEvents
  import opened BlockFields

  // ---- A reader of one-line objects whose values are texts ----

  /** The characters of a JSON string up to its closing quote, and what follows it. */
  function ReadChars(s: string): (r: Option<(string, string)>)
    ensures r.Some? ==> |r.value.1| < |s|
    decreases |s|
  {
    if s == "" then None
    else if s[0] == '"' then Some(("", s[1..]))
    else
      match UnescapeHead(s)
      case None => None
      case Some((c, taken)) =>
        match ReadChars(s[taken..])
        case None => None
        case Some((text, rest)) => Some(([c] + text, rest))
  }

  /** A JSON string, and what follows it. */
  function ReadText(s: string): (r: Option<(string, string)>)
    ensures r.Some? ==> |r.value.1| < |s|
  {
    if s == "" || s[0] != '"' then None else ReadChars(s[1..])
  }

  /** A key, a colon and a text. */
  function ReadMember(s: string): (r: Option<((string, string), string)>)
    ensures r.Some? ==> |r.value.1| < |s|
  {
    match ReadText(s)
    case None => None
    case Some((key, rest)) =>
      if rest == "" || rest[0] != ':' then None
      else
        match ReadText(rest[1..])
        case None => None
        case Some((value, last)) => Some(((key, value), last))
  }

  /** Members separated by commas, up to the closing brace that ends the text. */
  function ReadMembers(s: string): Option<seq<(string, string)>>
    decreases |s|
  {
    match ReadMember(s)
    case None => None
    case Some((member, rest)) =>
      if rest == "}" then Some([member])
      else if rest == "" || rest[0] != ',' then None
      else
        match ReadMembers(rest[1..])
        case None => None
        case Some(others) => Some([member] + others)
  }

  function ReadObject(s: string): Option<seq<(string, string)>> {
    if s == "{}" then Some([]) else if s == "" || s[0] != '{' then None else ReadMembers(s[1..])
  }

  // ---- Reading undoes dumping ----

  lemma {:induction false} ReadsEscaped(text: string, rest: string)
    ensures ReadChars(Escape(text) + ("\"" + rest)) == Some((text, rest))
  {
    var tail := "\"" + rest;
    if text == "" {
      assert Escape(text) + tail == tail;
      DropFront("\"", rest);
    } else {
      var head, more := EscapeChar(text[0]), Escape(text[1..]) + tail;
      Associate(head, Escape(text[1..]), tail);
      UnescapeEscaped(text[0], more);
      DropFront(head, more);
      ReadsEscaped(text[1..], rest);
      FirstAndRest(text);
    }
  }

  lemma ReadsString(text: string, rest: string)
    ensures ReadText(DumpString(text) + rest) == Some((text, rest))
  {
    Regroup("\"", Escape(text), "\"", rest);
    DropFront("\"", Escape(text) + ("\"" + rest));
    ReadsEscaped(text, rest);
  }

  function DumpMember(member: (string, string)): string {
    DumpString(member.0) + ":" + DumpString(member.1)
  }

  lemma ReadsMember(member: (string, string), rest: string)
    ensures ReadMember(DumpMember(member) + rest) == Some((member, rest))
  {
    var value := DumpString(member.1) + rest;
    Regroup(DumpString(member.0), ":", DumpString(member.1), rest);
    ReadsString(member.0, ":" + value);
    DropFront(":", value);
    ReadsString(member.1, rest);
  }

  /** How the dump of several members begins. */
  lemma DumpFirst(members: seq<(string, string)>)
    requires |members| > 1
    ensures DumpMembers(members) + "}" == DumpMember(members[0]) + ("," + (DumpMembers(members[1..]) + "}"))
  {
    Regroup(DumpMember(members[0]), ",", DumpMembers(members[1..]), "}");
  }

  lemma {:induction false} ReadsMembers(members: seq<(string, string)>)
    requires members != []
    ensures ReadMembers(DumpMembers(members) + "}") == Some(members)
  {
    FirstAndRest(members);
    if |members| == 1 {
      ReadsMember(members[0], "}");
      assert members == [members[0]];
    } else {
      var others := DumpMembers(members[1..]) + "}";
      DumpFirst(members);
      ReadsMember(members[0], "," + others);
      DropFront(",", others);
      ReadsMembers(members[1..]);
    }
  }

  lemma MembersStartWithQuote(members: seq<(string, string)>)
    requires members != []
    ensures DumpMembers(members) != "" && DumpMembers(members)[0] == '"'
  {
  }

  /** The dump of any members is read back as exactly these members, in order. */
  lemma ObjectRoundTrip(members: seq<(string, string)>)
    ensures ReadObject(DumpObject(members)) == Some(members)
  {
    if members != [] {
      Associate("{", DumpMembers(members), "}");
      DropFront("{", DumpMembers(members) + "}");
      MembersStartWithQuote(members);
      assert DumpObject(members)[1] == '"';
      ReadsMembers(members);
    }
  }

  // ---- What a client reads in a rewritten block ----

  lemma DumpIsStripped(members: seq<(string, string)>)
    ensures Strip(" " + DumpObject(members)) == DumpObject(members)
  {
    var dump := DumpObject(members);
    assert dump[0] == '{' && dump[|dump| - 1] == '}';
    DropFront(" ", dump);
    TrimLeftOfGap(" ", dump);
  }

  lemma NameIsStripped()
    ensures Strip(EXECUTION_NAME) == "hermes.execution.event"
  {
    var name := "hermes.execution.event";
    assert EXECUTION_NAME == " " + name;
    TrimLeftOfGap(" ", name);
  }

  lemma DataOfTwoLines(name: string, value: string)
    requires !StartsWith(name, "data:")
    ensures DataParts([name, "data:" + value]) == [Strip(value)]
  {
    DataPartsAppend([name], ["data:" + value]);
    DataPartsOne(name);
    DataPartsOne("data:" + value);
    assert [name] + ["data:" + value] == [name, "data:" + value];
  }

  lemma PrefixesDiffer(name: string, value: string)
    ensures !StartsWith("event:" + name, "data:") && !StartsWith("data:" + value, "event:")
  {
    assert ("event:" + name)[0] == 'e' && ("data:" + value)[0] == 'd';
  }

  /** A block of an event line and a data line. */
  lemma TwoLineFields(name: string, value: string)
    requires '\n' !in name && '\n' !in value
    ensures EventName(Lines(TwoLines("event:" + name, "data:" + value))) == Strip(name)
    ensures DataParts(Lines(TwoLines("event:" + name, "data:" + value))) == [Strip(value)]
  {
    PrefixesDiffer(name, value);
    LinesOfTwo("event:" + name, "data:" + value);
    FirstLineNames(name, "data:" + value);
    DataOfTwoLines("event:" + name, value);
  }

  lemma EventForm(members: seq<(string, string)>)
    ensures ExecutionEvent(members) == TwoLines("event:" + EXECUTION_NAME, "data:" + (" " + DumpObject(members)))
    ensures '\n' !in EXECUTION_NAME && '\n' !in " " + DumpObject(members)
  {
    NameFacts();
    assert DataLine(DumpObject(members)) == "data:" + (" " + DumpObject(members));
  }

  /** The block of an event: its name, and one line of data. */
  lemma ExecutionEventFields(members: seq<(string, string)>)
    ensures EventName(Lines(ExecutionEvent(members))) == "hermes.execution.event"
    ensures DataParts(Lines(ExecutionEvent(members))) == [DumpObject(members)]
  {
    EventForm(members);
    TwoLineFields(EXECUTION_NAME, " " + DumpObject(members));
    NameIsStripped();
    DumpIsStripped(members);
  }

  /** Exactly the blocks named after tool progress whose data is a JSON object are rewritten. */
  lemma RewrittenExactly(lib: Library, block: string)
    ensures Rewrites(lib, block) <==>
              && EventName(Lines(block)) == "hermes.tool.progress"
              && DataParts(Lines(block)) != []
              && exists fields :: lib.parse(JoinWith("\n", DataParts(Lines(block)))) == Some(Obj(fields))
  {
    var parsed := lib.parse(JoinWith("\n", DataParts(Lines(block))));
    if parsed.Some? && parsed.value.Obj? {
      assert parsed == Some(Obj(parsed.value.fields));
    }
  }

  /** The payload of a block that is rewritten. */
  function Upstream(lib: Library, block: string): map<string, Json>
    requires Rewrites(lib, block)
  {
    lib.parse(JoinWith("\n", DataParts(Lines(block)))).value.fields
  }

  /**
   What a client reads in a rewritten block: the event's name, and one line of data that reads as exactly the
   members id, type, phase, tool, status, summary and, if there is one, detail, each taken from its own upstream
   field.
   */
  lemma RewrittenBlockSays(lib: Library, block: string)
    requires Rewrites(lib, block)
    ensures var out, upstream := Normalized(lib, block), Upstream(lib, block);
            var tool, status := TraceTool(lib, Get(upstream, "tool")), TraceStatus(lib, Get(upstream, "status"));
            var detail := TraceDetail(lib, Get(upstream, "label"));
            && EventName(Lines(out)) == "hermes.execution.event"
            && |DataParts(Lines(out))| == 1
            && var read := ReadObject(DataParts(Lines(out))[0]);
            && read.Some? && |read.value| == (if detail == "" then 6 else 7)
            && read.value[0] == ("id", TraceId(lib, Get(upstream, "toolCallId")))
            && read.value[1] == ("type", "tool")
            && read.value[2] == ("phase", if status == "completed" then "completed" else "started")
            && read.value[3] == ("tool", tool)
            && read.value[4] == ("status", status)
            && read.value[5] == ("summary", (if status == "completed" then "已完成工具调用" else "正在调用工具")
                                            + "：" + tool)
            && (detail != "" ==> read.value[6] == ("detail", detail))
  {
    var upstream := Upstream(lib, block);
    var members := TracePayload(lib, upstream);
    ExecutionEventFields(members);
    ObjectRoundTrip(members);
    PayloadFields(TraceId(lib, Get(upstream, "toolCallId")), TraceTool(lib, Get(upstream, "tool")),
                  TraceStatus(lib, Get(upstream, "status")), TraceDetail(lib, Get(upstream, "label")));
  }
}
