/** Rewriting of one stream block into a stable execution event, and reading of its terminal state. */
module TraceEvents {
  import opened Wrappers
  import opened PyText
  import opened SseBlocks
  import opened Json

  /**
   The library routines the code calls, as arbitrary functions: `json.loads`, `str` of a non-string value,
   `str.lower`, and the redaction of sensitive text (`None` when it raises).
   */
  datatype Library = Library(
    parse: string -> Option<Json>,
    show: Json -> string,
    lower: string -> string,
    redact: string -> Option<string>)

  const TRACE_DETAIL_MAX_LENGTH := 280
  const TOOL_PROGRESS := "hermes.tool.progress"

  // ---- Fields of a block ----

  function Lines(block: string): seq<string> {
    SplitOn(block, '\n')
  }

  /** The value of the last `event:` line, or "message". */
  function EventName(lines: seq<string>): string {
    if lines == [] then "message"
    else
      var last := lines[|lines| - 1];
      if StartsWith(last, "event:") then Strip(last[6..]) else EventName(lines[..|lines| - 1])
  }

  /** The values of the `data:` lines. */
  function DataParts(lines: seq<string>): seq<string> {
    if lines == [] then []
    else
      var last := lines[|lines| - 1];
      var front := DataParts(lines[..|lines| - 1]);
      if StartsWith(last, "data:") then front + [Strip(last[5..])] else front
  }

  // ---- Normalised values ----

  function Text(lib: Library, value: Json): string {
    if value.Str? then value.text else lib.show(value)
  }

  /** `str(value or default)` */
  function TextOr(lib: Library, value: Json, default: string): string {
    if value.Truthy() then Text(lib, value) else default
  }

  predicate IsTraceTool(s: string) {
    1 <= |s| <= 40 && forall c :: c in s ==> 'a' <= c <= 'z' || '0' <= c <= '9' || c == '.' || c == '_' || c == '-'
  }

  predicate IsTraceId(s: string) {
    1 <= |s| <= 128 && forall c :: c in s ==> IsNameChar(c)
  }

  /** The call id is kept exactly when it matches the pattern, and is empty otherwise. */
  function TraceId(lib: Library, raw: Json): (id: string)
    ensures var asked := Strip(TextOr(lib, raw, ""));
            id == if 1 <= |asked| <= 128 && forall c :: c in asked ==> IsNameChar(c) then asked else ""
  {
    var id := Strip(TextOr(lib, raw, ""));
    if IsTraceId(id) then id else ""
  }

  /** The asked-for tool name is kept exactly when it matches the pattern. */
  function TraceTool(lib: Library, raw: Json): (tool: string)
    ensures IsTraceTool(tool)
    ensures var asked := lib.lower(Strip(TextOr(lib, raw, "agent-tool")));
            (tool == asked <==> IsTraceTool(asked)) && (tool == asked || tool == "agent-tool")
  {
    var tool := lib.lower(Strip(TextOr(lib, raw, "agent-tool")));
    if IsTraceTool(tool) then tool else
      assert IsTraceTool("agent-tool");
      "agent-tool"
  }

  function TraceStatus(lib: Library, raw: Json): (status: string)
    ensures status == "completed" || status == "running"
    ensures status == "completed" <==> lib.lower(Strip(TextOr(lib, raw, ""))) == "completed"
  {
    if lib.lower(Strip(TextOr(lib, raw, ""))) == "completed" then "completed" else "running"
  }

  /** `" ".join(s.split())` */
  function CollapseSpaces(s: string): string {
    JoinWith(" ", Words(s))
  }

  /**
   The detail is empty, or the redacted text with its spaces collapsed, cut at the maximum length; what cannot
   be redacted is not published.
   */
  function TraceDetail(lib: Library, raw: Json): (detail: string)
    ensures |detail| <= 280
    ensures var redacted := lib.redact(Strip(TextOr(lib, raw, "")));
            detail != "" ==> redacted.Some? && detail <= CollapseSpaces(redacted.value)
    ensures var shown := Strip(TextOr(lib, raw, ""));
            shown != "" && lib.redact(shown).Some? && |detail| < 280 ==>
              detail == CollapseSpaces(lib.redact(shown).value)
  {
    var detail := Strip(TextOr(lib, raw, ""));
    if detail == "" then ""
    else
      match lib.redact(detail)
      case None => ""
      case Some(redacted) =>
        var flat := CollapseSpaces(redacted);
        if |flat| <= TRACE_DETAIL_MAX_LENGTH then flat else flat[..TRACE_DETAIL_MAX_LENGTH]
  }

  lemma {:induction false} WordsAreWords(s: string)
    ensures forall i :: 0 <= i < |Words(s)| ==> IsWord(Words(s)[i])
    decreases |s|
  {
    var t := TrimLeft(s);
    if t != "" {
      TrimLeftShrinks(s);
      WordsAreWords(t[WordLength(t)..]);
    }
  }

  lemma {:induction false} WordsOfJoin(words: seq<string>)
    requires forall i :: 0 <= i < |words| ==> IsWord(words[i])
    ensures Words(JoinWith(" ", words)) == words
    ensures words != [] ==> JoinWith(" ", words) != "" && !IsSpace(JoinWith(" ", words)[0])
  {
    if |words| == 1 {
      FirstWord(words[0], "");
      assert words[0] + "" == words[0] && [words[0]] == words;
    } else if words != [] {
      var rest := JoinWith(" ", words[1..]);
      WordsOfJoin(words[1..]);
      FirstWord(words[0], " " + rest);
      GapIsSkipped(" ", rest);
      Associate(words[0], " ", rest);
      assert words == [words[0]] + words[1..];
    }
  }

  /** Collapsing keeps the words, in order, and leaves nothing but single spaces between them. */
  lemma CollapsingKeepsWords(s: string)
    ensures Words(CollapseSpaces(s)) == Words(s)
    ensures forall i :: 0 <= i < |Words(s)| ==> IsWord(Words(s)[i])
    ensures CollapseSpaces(s) == JoinWith(" ", Words(s))
  {
    WordsAreWords(s);
    WordsOfJoin(Words(s));
  }

  // ---- Compact JSON output ----

  const HEX := "0123456789abcdef"

  /** One character inside a JSON string, as `json.dumps` writes it with `ensure_ascii=False`. */
  function EscapeChar(c: char): (r: string)
    ensures forall d :: d in r ==> d >= ' '
  {
    if c == '"' then "\\\""
    else if c == '\\' then "\\\\"
    else if c == '\n' then "\\n"
    else if c == '\r' then "\\r"
    else if c == '\t' then "\\t"
    else if c == '\U{C}' then "\\f"
    else if c == '\U{8}' then "\\b"
    else if c < ' ' then "\\u00" + [HEX[c as int / 16], HEX[c as int % 16]]
    else [c]
  }

  function Escape(s: string): (r: string)
    ensures forall d :: d in r ==> d >= ' '
  {
    if s == "" then "" else EscapeChar(s[0]) + Escape(s[1..])
  }

  function DumpString(s: string): (r: string)
    ensures forall d :: d in r ==> d >= ' '
  {
    "\"" + Escape(s) + "\""
  }

  function DumpMembers(members: seq<(string, string)>): (r: string)
    ensures forall d :: d in r ==> d >= ' '
  {
    if members == [] then ""
    else
      var first := DumpString(members[0].0) + ":" + DumpString(members[0].1);
      if |members| == 1 then first else first + "," + DumpMembers(members[1..])
  }

  /** `json.dumps` of an object whose values are strings; the output is one line. */
  function DumpObject(members: seq<(string, string)>): (r: string)
    ensures forall d :: d in r ==> d >= ' '
  {
    "{" + DumpMembers(members) + "}"
  }

  const EXECUTION_NAME := " hermes.execution.event"

  function TwoLines(a: string, b: string): string {
    a + "\n" + b
  }

  function DataLine(data: string): string {
    "data: " + data
  }

  function ExecutionEvent(members: seq<(string, string)>): string {
    TwoLines("event:" + EXECUTION_NAME, DataLine(DumpObject(members)))
  }

  function PayloadOf(id: string, tool: string, status: string, detail: string): seq<(string, string)> {
    var action := if status == "completed" then "已完成工具调用" else "正在调用工具";
    [("id", id),
     ("type", "tool"),
     ("phase", if status == "completed" then "completed" else "started"),
     ("tool", tool),
     ("status", status),
     ("summary", action + "：" + tool)]
    + (if detail == "" then [] else [("detail", detail)])
  }

  function TracePayload(lib: Library, upstream: map<string, Json>): seq<(string, string)> {
    PayloadOf(TraceId(lib, Get(upstream, "toolCallId")),
              TraceTool(lib, Get(upstream, "tool")),
              TraceStatus(lib, Get(upstream, "status")),
              TraceDetail(lib, Get(upstream, "label")))
  }

  // ---- The two functions of a block ----

  /** The block announces tool progress, and its data is a JSON object. */
  predicate Rewrites(lib: Library, block: string) {
    var lines := Lines(block);
    && EventName(lines) == TOOL_PROGRESS
    && DataParts(lines) != []
    && lib.parse(JoinWith("\n", DataParts(lines))).Some?
    && lib.parse(JoinWith("\n", DataParts(lines))).value.Obj?
  }

  /** A block announcing tool progress with a JSON object becomes an execution event; others stay. */
  function Normalized(lib: Library, block: string): string {
    if Rewrites(lib, block) then
      ExecutionEvent(TracePayload(lib, lib.parse(JoinWith("\n", DataParts(Lines(block)))).value.fields))
    else block
  }

  /** "completed", "failed", or "" when the block ends nothing. */
  function TerminalState(lib: Library, block: string): (state: string)
    ensures state == "" || state == "completed" || state == "failed"
  {
    var data := Strip(JoinWith("\n", DataParts(Lines(block))));
    if data == "[DONE]" then "completed"
    else if data == "" then ""
    else
      match lib.parse(data)
      case Some(Obj(payload)) =>
        var choices := Get(payload, "choices");
        if !choices.List? || choices.items == [] || !choices.items[0].Obj? then ""
        else
          var finish := Get(choices.items[0].fields, "finish_reason");
          if finish.Null? then ""
          else if lib.lower(Strip(Text(lib, finish))) in {"error", "cancel", "cancelled", "canceled"} then "failed"
          else "completed"
      case _ => ""
  }

  /** The line loop of `_normalize_chat_sse_event`. */
  method NormalizeChatSseEvent(lib: Library, block: string) returns (r: string)
    ensures r == Normalized(lib, block)
  {
    var eventName := "message";
    var dataParts: seq<string> := [];
    var lines := Lines(block);
    for i := 0 to |lines|
      invariant eventName == EventName(lines[..i])
      invariant dataParts == DataParts(lines[..i])
    {
      assert lines[..i + 1][..i] == lines[..i];
      var line := lines[i];
      if StartsWith(line, "event:") {
        eventName := Strip(line[6..]);
        assert line[0] == 'e';
      } else if StartsWith(line, "data:") {
        dataParts := dataParts + [Strip(line[5..])];
      }
    }
    assert lines[..|lines|] == lines;
    if eventName != TOOL_PROGRESS || dataParts == [] {
      return block;
    }
    var upstream := lib.parse(JoinWith("\n", dataParts));
    if upstream.None? || !upstream.value.Obj? {
      return block;
    }
    return ExecutionEvent(TracePayload(lib, upstream.value.fields));
  }

  /** The line loop of `_chat_stream_terminal_state`. */
  method ChatStreamTerminalState(lib: Library, block: string) returns (state: string)
    ensures state == TerminalState(lib, block)
  {
    var dataParts: seq<string> := [];
    var lines := Lines(block);
    for i := 0 to |lines|
      invariant dataParts == DataParts(lines[..i])
    {
      assert lines[..i + 1][..i] == lines[..i];
      if StartsWith(lines[i], "data:") {
        dataParts := dataParts + [Strip(lines[i][5..])];
      }
    }
    assert lines[..|lines|] == lines;
    var data := Strip(JoinWith("\n", dataParts));
    if data == "[DONE]" {
      return "completed";
    }
    if data == "" {
      return "";
    }
    var parsed := lib.parse(data);
    if parsed.None? || !parsed.value.Obj? {
      return "";
    }
    var choices := Get(parsed.value.fields, "choices");
    if !choices.List? || choices.items == [] || !choices.items[0].Obj? {
      return "";
    }
    var finish := Get(choices.items[0].fields, "finish_reason");
    if finish.Null? {
      return "";
    }
    var reason := lib.lower(Strip(Text(lib, finish)));
    state := if reason in {"error", "cancel", "cancelled", "canceled"} then "failed" else "completed";
  }

  // ---- Facts about rewritten blocks ----

  lemma LinesOfTwo(a: string, b: string)
    requires '\n' !in a && '\n' !in b
    ensures Lines(TwoLines(a, b)) == [a, b]
  {
    SplitOnFirst(a, b, '\n');
    assert TwoLines(a, b) == a + ['\n'] + b;
  }

  lemma FirstLineNames(name: string, other: string)
    requires !StartsWith(other, "event:")
    ensures EventName(["event:" + name, other]) == Strip(name)
  {
    var lines := ["event:" + name, other];
    assert lines[..1] == ["event:" + name];
    assert ("event:" + name)[6..] == name;
  }

  lemma StripLacks(name: string, target: string, c: char)
    requires c in target && c !in name
    ensures Strip(name) != target
  {
  }

  lemma DataLineFacts(data: string)
    requires forall c :: c in data ==> c >= ' '
    ensures forall c :: c in DataLine(data) ==> c >= ' '
    ensures DataLine(data) != "" && !StartsWith(DataLine(data), "event:")
  {
    assert DataLine(data)[0] == 'd';
  }

  /** A two-line block is rewritten only when its first line names tool progress. */
  lemma TwoLinesAreKept(lib: Library, name: string, data: string)
    requires 'g' !in name && 'g' in TOOL_PROGRESS
    requires '\n' !in name && '\n' !in data && !StartsWith(data, "event:")
    ensures !Rewrites(lib, TwoLines("event:" + name, data))
  {
    LinesOfTwo("event:" + name, data);
    FirstLineNames(name, data);
    StripLacks(name, TOOL_PROGRESS, 'g');
  }

  lemma OneNewlineIsBlock(a: string, b: string)
    requires '\n' !in a && '\n' !in b && a != "" && b != ""
    ensures IsBlock(TwoLines(a, b))
  {
    var s := TwoLines(a, b);
    NoBreak(s);
    assert s[|s| - 1] == b[|b| - 1] && b[|b| - 1] in b;
    forall i: nat ensures !BreakAt(s, i) {
      if i < |a| {
        assert s[i] == a[i] && a[i] in a;
      } else if i == |a| {
        assert s[i + 1] == b[0] && b[0] in b;
      } else if i < |s| {
        assert s[i] == b[i - |a| - 1] && b[i - |a| - 1] in b;
      }
    }
  }

  lemma TwoLinesAreABlock(name: string, data: string)
    requires '\n' !in name && '\n' !in data && '\r' !in name && '\r' !in data && data != ""
    ensures IsBlock(TwoLines("event:" + name, data)) && '\r' !in TwoLines("event:" + name, data)
  {
    OneNewlineIsBlock("event:" + name, data);
  }

  lemma NameFacts()
    ensures '\n' !in EXECUTION_NAME && '\r' !in EXECUTION_NAME && 'g' !in EXECUTION_NAME && 'g' in TOOL_PROGRESS
  {
  }

  /** An execution event is one block, free of carriage returns, and is not itself rewritten. */
  lemma ExecutionEventShape(lib: Library, members: seq<(string, string)>)
    ensures !Rewrites(lib, ExecutionEvent(members))
    ensures IsBlock(ExecutionEvent(members)) && '\r' !in ExecutionEvent(members)
  {
    NameFacts();
    DataLineFacts(DumpObject(members));
    TwoLinesAreKept(lib, EXECUTION_NAME, DataLine(DumpObject(members)));
    TwoLinesAreABlock(EXECUTION_NAME, DataLine(DumpObject(members)));
  }

  /** Rewriting is idempotent, changes exactly what announces tool progress with an object, and yields a block. */
  lemma NormalizedTwice(lib: Library, block: string)
    ensures Normalized(lib, Normalized(lib, block)) == Normalized(lib, block)
    ensures Normalized(lib, block) != block <==> Rewrites(lib, block)
    ensures Rewrites(lib, block) ==> IsBlock(Normalized(lib, block))
    ensures '\r' !in block ==> '\r' !in Normalized(lib, block)
  {
    if Rewrites(lib, block) {
      var upstream := lib.parse(JoinWith("\n", DataParts(Lines(block)))).value.fields;
      ExecutionEventShape(lib, TracePayload(lib, upstream));
    }
  }

  // ---- What a rewritten block says ----

  function HexDigit(c: char): int {
    if '0' <= c <= '9' then c as int - '0' as int
    else if 'a' <= c <= 'f' then c as int - 'a' as int + 10
    else -1
  }

  /** The character a JSON string starts with, and how much of the text it takes. */
  function UnescapeHead(s: string): (r: Option<(char, nat)>)
    requires s != ""
    ensures r.Some? ==> 1 <= r.value.1 <= |s|
  {
    if s[0] != '\\' then Some((s[0], 1))
    else if |s| < 2 then None
    else
      match s[1]
      case '"' => Some(('"', 2))
      case '\\' => Some(('\\', 2))
      case 'n' => Some(('\n', 2))
      case 'r' => Some(('\r', 2))
      case 't' => Some(('\t', 2))
      case 'f' => Some(('\U{C}', 2))
      case 'b' => Some(('\U{8}', 2))
      case 'u' =>
        if |s| >= 6 && s[2] == '0' && s[3] == '0' && 0 <= HexDigit(s[4]) < 8 && HexDigit(s[5]) >= 0 then
          Some(((16 * HexDigit(s[4]) + HexDigit(s[5])) as char, 6))
        else None
      case _ => None
  }

  /** Reading the inside of a JSON string back. */
  function Unescape(s: string): Option<string>
    decreases |s|
  {
    if s == "" then Some("")
    else
      match UnescapeHead(s)
      case None => None
      case Some((c, taken)) =>
        match Unescape(s[taken..])
        case None => None
        case Some(rest) => Some([c] + rest)
  }

  lemma HexRoundTrip(n: nat)
    requires n < 16
    ensures HexDigit(HEX[n]) == n
  {
  }

  lemma UnescapeEscaped(c: char, rest: string)
    ensures UnescapeHead(EscapeChar(c) + rest) == Some((c, |EscapeChar(c)|))
  {
    if c < ' ' {
      HexRoundTrip(c as int / 16);
      HexRoundTrip(c as int % 16);
    }
  }

  /** Escaping loses nothing: every string is read back from its JSON form. */
  lemma {:induction false} EscapeRoundTrip(s: string)
    ensures Unescape(Escape(s)) == Some(s)
  {
    if s != "" {
      EscapeRoundTrip(s[1..]);
      UnescapeEscaped(s[0], Escape(s[1..]));
      assert (EscapeChar(s[0]) + Escape(s[1..]))[|EscapeChar(s[0])|..] == Escape(s[1..]);
      assert s == [s[0]] + s[1..];
    }
  }

  lemma PayloadFields(id: string, tool: string, status: string, detail: string)
    ensures var payload := PayloadOf(id, tool, status, detail);
            && payload[0] == ("id", id) && payload[3] == ("tool", tool) && payload[4] == ("status", status)
            && payload[1] == ("type", "tool")
            && payload[2] == ("phase", if status == "completed" then "completed" else "started")
            && payload[5] == ("summary", (if status == "completed" then "已完成工具调用" else "正在调用工具")
                                         + "：" + tool)
            && (if detail == "" then |payload| == 6 else |payload| == 7 && payload[6] == ("detail", detail))
  {
  }

  /** The published payload: bounded fields, one phase per status, and no detail unless there is one. */
  lemma PayloadIsBounded(lib: Library, upstream: map<string, Json>)
    ensures var payload := TracePayload(lib, upstream);
            && 6 <= |payload| <= 7
            && (payload[0].1 == "" || IsTraceId(payload[0].1))
            && IsTraceTool(payload[3].1)
            && (payload[4].1 == "completed" || payload[4].1 == "running")
            && payload[2].1 == (if payload[4].1 == "completed" then "completed" else "started")
            && (|payload| == 7 ==> payload[6].0 == "detail" && 1 <= |payload[6].1| <= TRACE_DETAIL_MAX_LENGTH)
  {
    PayloadFields(TraceId(lib, Get(upstream, "toolCallId")),
                  TraceTool(lib, Get(upstream, "tool")),
                  TraceStatus(lib, Get(upstream, "status")),
                  TraceDetail(lib, Get(upstream, "label")));
  }
}
