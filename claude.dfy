/**
 * The pure parts of `commands/claude.rs`: turning one parsed line of a
 * Claude session transcript (`~/.claude/projects/<key>/<id>.jsonl`) into a
 * `SessionTurn` or a `SessionMessage`, reading a whole transcript with its
 * 500-line cap, and the title, preview and id of a plan file
 * (`.md` files under `~/.claude/plans`).
 *
 * Reading files is left out: a transcript or plan is its text, the JSON
 * parser is a parameter `parse` (None for a line `serde_json` rejects) and
 * `serde_json::to_string` of a tool input is a parameter `serialize`.
 */
module Claude {
  import opened Common
  import opened Models
  import opened Text

  /** `serde_json::Value`. An object has each key once, as in serde's map. */
  datatype Json =
    | Null
    | Bool(b: bool)
    | Number(n: int)
    | Str(s: string)
    | Array(items: seq<Json>)
    | Object(fields: map<string, Json>)

  /** `Value[key]`: the field, or `Null` when `v` is no object or lacks the key. */
  function Get(v: Json, key: string): (r: Json)
    ensures v.Object? && key in v.fields ==> r == v.fields[key]
    ensures !(v.Object? && key in v.fields) ==> r == Null
  {
    if v.Object? && key in v.fields then v.fields[key] else Null
  }

  /** `Value::as_str`. */
  function AsStr(v: Json): (r: Option<string>)
    ensures r.Some? <==> v.Str?
    ensures r.Some? ==> r.value == v.s
  {
    if v.Str? then Some(v.s) else None
  }

  /** `b["type"].as_str() == Some(t)`. */
  predicate HasType(b: Json, t: string) {
    AsStr(Get(b, "type")) == Some(t)
  }

  // ---------------------------------------------------------------------
  // Content blocks
  // ---------------------------------------------------------------------

  /** What one block gives to the `filter(type == "text").filter_map(text.as_str)` pipeline. */
  function TextPart(b: Json): (r: Option<string>)
    ensures r.Some? <==> HasType(b, "text") && Get(b, "text").Str?
    ensures r.Some? ==> r.value == Get(b, "text").s
  {
    if HasType(b, "text") then AsStr(Get(b, "text")) else None
  }

  function TextParts(blocks: seq<Json>): (parts: seq<Option<string>>)
    ensures |parts| == |blocks|
    ensures forall i | 0 <= i < |blocks| :: parts[i] == TextPart(blocks[i])
  {
    seq(|blocks|, i requires 0 <= i < |blocks| => TextPart(blocks[i]))
  }

  /** The text of a block list: the text blocks' `text` fields, joined with `""`. */
  function BlocksText(blocks: seq<Json>): string {
    Join(Somes(TextParts(blocks)), "")
  }

  lemma {:induction false} JoinNothingAppend(a: seq<string>, b: seq<string>)
    ensures Join(a + b, "") == Join(a, "") + Join(b, "")
    decreases |a|
  {
    if a == [] {
      assert a + b == b;
    } else if |a| == 1 {
      if b != [] {
        assert (a + b)[1..] == b;
      }
    } else {
      assert (a + b)[1..] == a[1..] + b;
      JoinNothingAppend(a[1..], b);
    }
  }

  /** The text of two block lists in a row is the first text followed by the second. */
  lemma BlocksTextAppend(a: seq<Json>, b: seq<Json>)
    ensures BlocksText(a + b) == BlocksText(a) + BlocksText(b)
  {
    assert TextParts(a + b) == TextParts(a) + TextParts(b);
    SomesAppend(TextParts(a), TextParts(b));
    JoinNothingAppend(Somes(TextParts(a)), Somes(TextParts(b)));
  }

  /** A single block contributes its `text` when it is a text block with string text, and nothing otherwise. */
  lemma BlocksTextSingle(b: Json)
    ensures HasType(b, "text") && Get(b, "text").Str? ==> BlocksText([b]) == Get(b, "text").s
    ensures !(HasType(b, "text") && Get(b, "text").Str?) ==> BlocksText([b]) == ""
  {
    assert TextParts([b]) == [TextPart(b)];
    assert TextParts([b])[1..] == [];
  }

  /** The `tool_use` blocks, in order. */
  function ToolUseBlocks(blocks: seq<Json>): (r: seq<Json>)
    ensures |r| <= |blocks|
    ensures forall b | b in r :: b in blocks && HasType(b, "tool_use")
    ensures forall b | b in blocks && HasType(b, "tool_use") :: b in r
    decreases |blocks|
  {
    if blocks == [] then []
    else if HasType(blocks[0], "tool_use") then [blocks[0]] + ToolUseBlocks(blocks[1..])
    else ToolUseBlocks(blocks[1..])
  }

  lemma {:induction false} ToolUseBlocksAppend(a: seq<Json>, b: seq<Json>)
    ensures ToolUseBlocks(a + b) == ToolUseBlocks(a) + ToolUseBlocks(b)
    decreases |a|
  {
    if a == [] {
      assert a + b == b;
    } else {
      assert (a + b)[0] == a[0];
      assert (a + b)[1..] == a[1..] + b;
      ToolUseBlocksAppend(a[1..], b);
    }
  }

  /** One `tool_use` block as a tool call: missing id is `""`, missing name `"unknown"`, no output yet. */
  function ToolCallOf(b: Json, serialize: Json -> string): (c: SessionToolCall)
    ensures Get(b, "id").Str? ==> c.id == Get(b, "id").s
    ensures !Get(b, "id").Str? ==> c.id == ""
    ensures Get(b, "name").Str? ==> c.name == Get(b, "name").s
    ensures !Get(b, "name").Str? ==> c.name == "unknown"
    ensures c.input == serialize(Get(b, "input"))
    ensures c.output.None?
  {
    SessionToolCall(
      AsStr(Get(b, "id")).GetOr(""),
      AsStr(Get(b, "name")).GetOr("unknown"),
      serialize(Get(b, "input")),
      None)
  }

  /** The tool calls of an assistant message: one per `tool_use` block, in block order. */
  function ToolCalls(blocks: seq<Json>, serialize: Json -> string): (calls: seq<SessionToolCall>)
    ensures |calls| == |ToolUseBlocks(blocks)|
    ensures forall i | 0 <= i < |calls| :: calls[i] == ToolCallOf(ToolUseBlocks(blocks)[i], serialize)
    ensures forall c | c in calls :: c.output.None?
  {
    CallsOf(ToolUseBlocks(blocks), serialize)
  }

  function CallsOf(uses: seq<Json>, serialize: Json -> string): seq<SessionToolCall> {
    seq(|uses|, i requires 0 <= i < |uses| => ToolCallOf(uses[i], serialize))
  }

  lemma CallsOfAppend(u: seq<Json>, v: seq<Json>, serialize: Json -> string)
    ensures CallsOf(u + v, serialize) == CallsOf(u, serialize) + CallsOf(v, serialize)
  {
    var whole, parts := CallsOf(u + v, serialize), CallsOf(u, serialize) + CallsOf(v, serialize);
    forall i | 0 <= i < |whole|
      ensures whole[i] == parts[i]
    {
      if i < |u| {
        assert (u + v)[i] == u[i];
      } else {
        assert (u + v)[i] == v[i - |u|];
      }
    }
  }

  /** Tool calls of two block lists in a row are the first list's followed by the second's. */
  lemma ToolCallsAppend(a: seq<Json>, b: seq<Json>, serialize: Json -> string)
    ensures ToolCalls(a + b, serialize) == ToolCalls(a, serialize) + ToolCalls(b, serialize)
  {
    ToolUseBlocksAppend(a, b);
    CallsOfAppend(ToolUseBlocks(a), ToolUseBlocks(b), serialize);
  }

  // ---------------------------------------------------------------------
  // One transcript line
  // ---------------------------------------------------------------------

  /**
   * `parse_session_turn` after the JSON parse: only user and assistant
   * lines make turns; a user's content is a string or the text of its
   * blocks, an assistant's the text and tool calls of its blocks; empty
   * turns are dropped.
   */
  function SessionTurnOf(v: Json, serialize: Json -> string): (r: Option<SessionTurn>)
    ensures r.Some? ==> Get(v, "type") == Str(r.value.role)
    ensures r.Some? ==> r.value.role == "user" || r.value.role == "assistant"
    ensures r.Some? ==> r.value.uuid == AsStr(Get(v, "uuid")).GetOr("")
    ensures r.Some? ==> r.value.timestamp == AsStr(Get(v, "timestamp")).GetOr("")
    ensures r.Some? && r.value.role == "user" ==> r.value.toolCalls == [] && r.value.content != []
    ensures r.Some? && r.value.role == "assistant" ==> r.value.content != [] || r.value.toolCalls != []
  {
    match AsStr(Get(v, "type"))
    case None => None
    case Some(kind) =>
      if kind != "user" && kind != "assistant" then None
      else
        var uuid := AsStr(Get(v, "uuid")).GetOr("");
        var timestamp := AsStr(Get(v, "timestamp")).GetOr("");
        var content := Get(Get(v, "message"), "content");
        if kind == "user" then
          var text :=
            match content
            case Str(s) => Some(s)
            case Array(blocks) => Some(BlocksText(blocks))
            case _ => None;
          if text.None? || text.value == "" then None
          else Some(SessionTurn(uuid, kind, text.value, timestamp, []))
        else if !content.Array? then None
        else
          var text := BlocksText(content.items);
          var calls := ToolCalls(content.items, serialize);
          if text == "" && calls == [] then None
          else Some(SessionTurn(uuid, kind, text, timestamp, calls))
  }

  /** A line whose type is neither `"user"` nor `"assistant"` (or missing) makes no turn. */
  lemma OtherTypesDropped(v: Json, serialize: Json -> string)
    requires Get(v, "type") != Str("user") && Get(v, "type") != Str("assistant")
    ensures SessionTurnOf(v, serialize).None?
  {
  }

  /** A user line whose content is a string makes a turn with that string iff it is non-empty. */
  lemma UserStringTurn(v: Json, serialize: Json -> string, s: string)
    requires Get(v, "type") == Str("user")
    requires Get(Get(v, "message"), "content") == Str(s)
    ensures SessionTurnOf(v, serialize).Some? <==> s != []
    ensures s != [] ==> SessionTurnOf(v, serialize).value.content == s
  {
  }

  /** A user line with content blocks makes a turn with their text iff that text is non-empty. */
  lemma UserBlocksTurn(v: Json, serialize: Json -> string, blocks: seq<Json>)
    requires Get(v, "type") == Str("user")
    requires Get(Get(v, "message"), "content") == Array(blocks)
    ensures SessionTurnOf(v, serialize).Some? <==> BlocksText(blocks) != []
    ensures BlocksText(blocks) != [] ==> SessionTurnOf(v, serialize).value.content == BlocksText(blocks)
  {
  }

  /** A user line whose content is neither a string nor an array makes no turn. */
  lemma UserOtherContentDropped(v: Json, serialize: Json -> string)
    requires Get(v, "type") == Str("user")
    requires !Get(Get(v, "message"), "content").Str? && !Get(Get(v, "message"), "content").Array?
    ensures SessionTurnOf(v, serialize).None?
  {
  }

  /**
   * An assistant line with content blocks makes a turn iff it has text or
   * a `tool_use` block; the turn's calls are those blocks' calls.
   */
  lemma AssistantTurn(v: Json, serialize: Json -> string, blocks: seq<Json>)
    requires Get(v, "type") == Str("assistant")
    requires Get(Get(v, "message"), "content") == Array(blocks)
    ensures SessionTurnOf(v, serialize).Some? <==> BlocksText(blocks) != [] || ToolUseBlocks(blocks) != []
    ensures SessionTurnOf(v, serialize).Some? ==>
      SessionTurnOf(v, serialize).value.content == BlocksText(blocks) &&
      SessionTurnOf(v, serialize).value.toolCalls == ToolCalls(blocks, serialize)
  {
    assert |ToolCalls(blocks, serialize)| == |ToolUseBlocks(blocks)|;
  }

  /** An assistant line whose content is not an array makes no turn (`as_array()?`). */
  lemma AssistantNonArrayDropped(v: Json, serialize: Json -> string)
    requires Get(v, "type") == Str("assistant")
    requires !Get(Get(v, "message"), "content").Array?
    ensures SessionTurnOf(v, serialize).None?
  {
  }

  /** `parse_session_turn` on the raw line: a line the JSON parser rejects makes no turn. */
  function ParseSessionTurn(line: string, parse: string -> Option<Json>, serialize: Json -> string): (r: Option<SessionTurn>)
    ensures parse(line).None? ==> r.None?
    ensures parse(line).Some? ==> r == SessionTurnOf(parse(line).value, serialize)
  {
    match parse(line)
    case None => None
    case Some(v) => SessionTurnOf(v, serialize)
  }

  // ---------------------------------------------------------------------
  // A whole transcript
  // ---------------------------------------------------------------------

  /** At most this many non-blank lines of a transcript are turned into turns. */
  const MaxTurns: nat := 500

  predicate Blank(l: string) {
    Trim(l) == []
  }

  /** The lines that are not blank after trimming, in order. */
  function NonBlank(lines: seq<string>): (r: seq<string>)
    ensures |r| <= |lines|
    ensures forall l | l in r :: l in lines && !Blank(l)
    ensures forall l | l in lines && !Blank(l) :: l in r
    decreases |lines|
  {
    if lines == [] then []
    else if Blank(lines[0]) then NonBlank(lines[1..])
    else [lines[0]] + NonBlank(lines[1..])
  }

  lemma {:induction false} NonBlankAppend(a: seq<string>, b: seq<string>)
    ensures NonBlank(a + b) == NonBlank(a) + NonBlank(b)
    decreases |a|
  {
    if a == [] {
      assert a + b == b;
    } else {
      assert (a + b)[0] == a[0];
      assert (a + b)[1..] == a[1..] + b;
      NonBlankAppend(a[1..], b);
    }
  }

  function ParsedTurns(lines: seq<string>, parse: string -> Option<Json>, serialize: Json -> string): (r: seq<Option<SessionTurn>>)
    ensures |r| == |lines|
    ensures forall i | 0 <= i < |lines| :: r[i] == ParseSessionTurn(lines[i], parse, serialize)
  {
    seq(|lines|, i requires 0 <= i < |lines| => ParseSessionTurn(lines[i], parse, serialize))
  }

  function Min(a: nat, b: nat): nat {
    if a <= b then a else b
  }

  /** `read_claude_session` on the lines of a transcript. */
  function SessionOfLines(lines: seq<string>, parse: string -> Option<Json>, serialize: Json -> string): (d: SessionDetail)
    ensures d.totalCount == |NonBlank(lines)|
    ensures |d.turns| <= Min(MaxTurns, d.totalCount)
    ensures forall t | t in d.turns ::
      Some(t) in ParsedTurns(NonBlank(lines)[..Min(MaxTurns, d.totalCount)], parse, serialize)
  {
    var kept := NonBlank(lines);
    SessionDetail(FirstTurns(kept, parse, serialize), |kept|)
  }

  /** The turns of the first 500 kept lines, in order. */
  function FirstTurns(kept: seq<string>, parse: string -> Option<Json>, serialize: Json -> string): seq<SessionTurn> {
    Somes(ParsedTurns(kept[..Min(MaxTurns, |kept|)], parse, serialize))
  }

  /** `read_claude_session` on the text of a transcript file. */
  function ReadClaudeSession(content: string, parse: string -> Option<Json>, serialize: Json -> string): (d: SessionDetail)
    ensures |d.turns| <= MaxTurns && |d.turns| <= d.totalCount
    ensures d.totalCount <= |Lines(content)|
  {
    SessionOfLines(Lines(content), parse, serialize)
  }

  /** Blank lines change neither the turns nor the count. */
  lemma BlankLineIgnored(a: seq<string>, l: string, b: seq<string>, parse: string -> Option<Json>, serialize: Json -> string)
    requires Blank(l)
    ensures SessionOfLines(a + [l] + b, parse, serialize) == SessionOfLines(a + b, parse, serialize)
  {
    NonBlankAppend(a + [l], b);
    NonBlankAppend(a, [l]);
    NonBlankAppend(a, b);
    assert NonBlank([l]) == [];
    assert NonBlank(a) + [] == NonBlank(a);
  }

  /** Once 500 non-blank lines have been read, later lines only add to the count. */
  lemma CapIgnoresTail(a: seq<string>, b: seq<string>, parse: string -> Option<Json>, serialize: Json -> string)
    requires |NonBlank(a)| >= MaxTurns
    ensures SessionOfLines(a + b, parse, serialize).turns == SessionOfLines(a, parse, serialize).turns
    ensures SessionOfLines(a + b, parse, serialize).totalCount == |NonBlank(a)| + |NonBlank(b)|
  {
    var ka, kb := NonBlank(a), NonBlank(b);
    NonBlankAppend(a, b);
    FirstTurnsPrefix(ka, kb, parse, serialize);
  }

  /** Past the cap, appending lines changes no turn. */
  lemma FirstTurnsPrefix(ka: seq<string>, kb: seq<string>, parse: string -> Option<Json>, serialize: Json -> string)
    requires |ka| >= MaxTurns
    ensures FirstTurns(ka + kb, parse, serialize) == FirstTurns(ka, parse, serialize)
  {
    assert (ka + kb)[..MaxTurns] == ka[..MaxTurns];
  }

  /** A blank line is no JSON document; `serde_json::from_str` rejects it. */
  ghost predicate RejectsBlank(parse: string -> Option<Json>) {
    forall l :: Blank(l) ==> parse(l).None?
  }

  /**
   * In a transcript of at most 500 non-blank lines, every line that parses
   * to a turn yields that turn.
   */
  lemma ShortSessionKeepsTurns(lines: seq<string>, i: nat, parse: string -> Option<Json>, serialize: Json -> string)
    requires RejectsBlank(parse)
    requires |NonBlank(lines)| <= MaxTurns
    requires i < |lines| && ParseSessionTurn(lines[i], parse, serialize).Some?
    ensures ParseSessionTurn(lines[i], parse, serialize).value in SessionOfLines(lines, parse, serialize).turns
  {
    var kept := NonBlank(lines);
    var l := lines[i];
    assert l in lines;
    assert l in kept;
    var j :| 0 <= j < |kept| && kept[j] == l;
    assert kept[..Min(MaxTurns, |kept|)] == kept;
    SomesHas(ParsedTurns(kept, parse, serialize), j);
  }

  // ---------------------------------------------------------------------
  // read_session_messages
  // ---------------------------------------------------------------------

  /**
   * The message reader of `read_session_messages`: unlike turns, any
   * string type is looked at, a user's content must be a string, and no
   * tool calls are kept.
   */
  function SessionMessageOf(v: Json): (r: Option<SessionMessage>)
    ensures r.Some? ==> Get(v, "type") == Str(r.value.role)
    ensures r.Some? ==> r.value.role == "user" || r.value.role == "assistant"
    ensures r.Some? ==> r.value.content != []
    ensures r.Some? ==> r.value.uuid == AsStr(Get(v, "uuid")).GetOr("")
    ensures r.Some? ==> r.value.timestamp == AsStr(Get(v, "timestamp")).GetOr("")
  {
    match AsStr(Get(v, "type"))
    case None => None
    case Some(kind) =>
      var timestamp := AsStr(Get(v, "timestamp")).GetOr("");
      var uuid := AsStr(Get(v, "uuid")).GetOr("");
      var content := Get(Get(v, "message"), "content");
      var text :=
        if kind == "user" then AsStr(content)
        else if kind == "assistant" then (if content.Array? then Some(BlocksText(content.items)) else None)
        else None;
      if text.None? || text.value == "" then None
      else Some(SessionMessage(uuid, kind, text.value, timestamp))
  }

  /** `read_session_messages` on the text of a transcript: every line on its own, no cap. */
  function ReadSessionMessages(content: string, parse: string -> Option<Json>): (msgs: seq<SessionMessage>)
    ensures |msgs| <= |Lines(content)|
    ensures forall m | m in msgs :: m.content != [] && (m.role == "user" || m.role == "assistant")
  {
    var lines := Lines(content);
    Somes(seq(|lines|, i requires 0 <= i < |lines| =>
      match parse(lines[i]) case None => None case Some(v) => SessionMessageOf(v)))
  }

  /** Every message `read_session_messages` reports is also a turn, with the same fields. */
  lemma MessageIsTurn(v: Json, serialize: Json -> string)
    requires SessionMessageOf(v).Some?
    ensures SessionTurnOf(v, serialize).Some?
    ensures var m, t := SessionMessageOf(v).value, SessionTurnOf(v, serialize).value;
      t.uuid == m.uuid && t.role == m.role && t.content == m.content && t.timestamp == m.timestamp
  {
  }

  /** A user line whose text comes in blocks is a turn but not a message. */
  lemma UserBlocksOnlyTurn(v: Json, serialize: Json -> string, blocks: seq<Json>)
    requires Get(v, "type") == Str("user")
    requires Get(Get(v, "message"), "content") == Array(blocks)
    requires BlocksText(blocks) != []
    ensures SessionMessageOf(v).None?
    ensures SessionTurnOf(v, serialize).Some?
  {
  }

  // ---------------------------------------------------------------------
  // Plans
  // ---------------------------------------------------------------------

  /** Position of the first line that starts with `"# "`. */
  function FirstHeading(lines: seq<string>): (r: Option<nat>)
    ensures r.Some? ==> r.value < |lines| && StartsWith(lines[r.value], "# ")
    ensures r.Some? ==> forall j | 0 <= j < r.value :: !StartsWith(lines[j], "# ")
    ensures r.None? ==> forall j | 0 <= j < |lines| :: !StartsWith(lines[j], "# ")
    decreases |lines|
  {
    if lines == [] then None
    else if StartsWith(lines[0], "# ") then Some(0)
    else
      match FirstHeading(lines[1..])
      case None => None
      case Some(i) => Some(i + 1)
  }

  /** The plan id: the file name without its trailing `.md` copies. */
  function PlanId(filename: string): (id: string)
    ensures !EndsWith(id, ".md")
    ensures StartsWith(filename, id)
    ensures exists k: nat :: filename == id + Repeat(".md", k)
  {
    TrimEndMatchesCopies(filename, ".md");
    TrimEndMatches(filename, ".md")
  }

  /**
   * A plan's title: the first `# ` heading with every leading `# ` removed,
   * and the plan id when there is no such heading.
   */
  function PlanTitle(content: string, filename: string): (title: string)
    ensures FirstHeading(Lines(content)).None? ==> title == PlanId(filename)
    ensures FirstHeading(Lines(content)).Some? ==>
      var heading := Lines(content)[FirstHeading(Lines(content)).value];
      && !StartsWith(title, "# ") && '\n' !in title
      && (exists k: nat :: heading == Repeat("# ", k) + title)
      && (!StartsWith(heading[2..], "# ") ==> title == heading[2..])
  {
    var lines := Lines(content);
    match FirstHeading(lines)
    case None => PlanId(filename)
    case Some(i) =>
      assert '\n' !in lines[i];
      HeadingTrimmed(lines[i]);
      TrimStartMatches(lines[i], "# ")
  }

  /** Trimming every leading `# ` off a one-line heading leaves one line that does not start with `# `. */
  lemma HeadingTrimmed(heading: string)
    requires StartsWith(heading, "# ") && '\n' !in heading
    ensures var title := TrimStartMatches(heading, "# ");
      && !StartsWith(title, "# ") && '\n' !in title
      && (exists k: nat :: heading == Repeat("# ", k) + title)
      && (!StartsWith(heading[2..], "# ") ==> title == heading[2..])
  {
    TrimStartMatchesCopies(heading, "# ");
  }

  /** A plan that opens with the heading `# t` is titled `t`, whatever follows. */
  lemma HeadingTitle(t: string, rest: string, filename: string)
    requires '\n' !in t && !EndsWith(t, "\r") && !StartsWith(t, "# ")
    ensures PlanTitle("# " + t + "\n" + rest, filename) == t
  {
    var line := "# " + t;
    var lines := Lines(line + "\n" + rest);
    HeadingFirstLine(t, rest);
    assert FirstHeading(lines) == Some(0);
    assert line[2..] == t;
  }

  /** The first line of a text opening with `# t` and a newline is `# t`. */
  lemma HeadingFirstLine(t: string, rest: string)
    requires '\n' !in t && !EndsWith(t, "\r")
    ensures Lines("# " + t + "\n" + rest) != [] && Lines("# " + t + "\n" + rest)[0] == "# " + t
    ensures StartsWith("# " + t, "# ")
  {
    var line := "# " + t;
    var content := line + "\n" + rest;
    assert content == line + ['\n'] + rest;
    assert '\n' !in line by {
      assert forall k | 0 <= k < |t| :: line[k + 2] == t[k];
    }
    IndexOfSplit(line, '\n', rest);
    assert content[..|line|] == line;
    assert !EndsWith(line, "\r") by {
      if t != [] {
        assert line[|line| - 1..] == t[|t| - 1..];
      }
    }
    assert line[..2] == "# ";
  }

  /** The lines that make a preview: non-empty and not starting with `#`. */
  predicate PreviewLine(l: string) {
    l != [] && !StartsWith(l, "#")
  }

  function PreviewLines(lines: seq<string>): (r: seq<string>)
    ensures |r| <= |lines|
    ensures forall l | l in r :: l in lines && PreviewLine(l)
    ensures forall l | l in lines && PreviewLine(l) :: l in r
    decreases |lines|
  {
    if lines == [] then []
    else if PreviewLine(lines[0]) then [lines[0]] + PreviewLines(lines[1..])
    else PreviewLines(lines[1..])
  }

  lemma {:induction false} PreviewLinesAppend(a: seq<string>, b: seq<string>)
    ensures PreviewLines(a + b) == PreviewLines(a) + PreviewLines(b)
    decreases |a|
  {
    if a == [] {
      assert a + b == b;
    } else {
      assert (a + b)[0] == a[0];
      assert (a + b)[1..] == a[1..] + b;
      PreviewLinesAppend(a[1..], b);
    }
  }

  /** At most this many lines, and this many characters, make a preview. */
  const PreviewLineCount: nat := 3
  const PreviewLength: nat := 200

  /** The preview of a plan given as lines: its first three preview lines, space-joined, cut at 200 characters. */
  function PreviewOfLines(lines: seq<string>): (preview: string)
    ensures |preview| <= PreviewLength
    ensures var picked := PreviewLines(lines)[..Min(PreviewLineCount, |PreviewLines(lines)|)];
      var joined := Join(picked, " ");
      |preview| == Min(PreviewLength, |joined|) && preview == joined[..|preview|]
  {
    var kept := PreviewLines(lines);
    var joined := Join(kept[..Min(PreviewLineCount, |kept|)], " ");
    joined[..Min(PreviewLength, |joined|)]
  }

  /** `list_claude_plans`'s preview of a plan text. */
  function PlanPreview(content: string): (preview: string)
    ensures |preview| <= PreviewLength
  {
    PreviewOfLines(Lines(content))
  }

  /** Three short preview lines ahead of anything else make the preview, joined by spaces. */
  lemma PreviewOfThree(a: string, b: string, c: string, rest: seq<string>)
    requires PreviewLine(a) && PreviewLine(b) && PreviewLine(c)
    requires |a| + |b| + |c| + 2 <= PreviewLength
    ensures PreviewOfLines([a, b, c] + rest) == a + " " + b + " " + c
  {
    PreviewLinesAppend([a, b, c], rest);
    PreviewLinesOfThree(a, b, c);
    var kept := PreviewLines([a, b, c] + rest);
    assert kept[..Min(PreviewLineCount, |kept|)] == [a, b, c];
    JoinOfThree(a, b, c);
  }

  /** Three preview lines are all kept. */
  lemma PreviewLinesOfThree(a: string, b: string, c: string)
    requires PreviewLine(a) && PreviewLine(b) && PreviewLine(c)
    ensures PreviewLines([a, b, c]) == [a, b, c]
  {
    assert [a, b, c][1..] == [b, c];
    assert [b, c][1..] == [c];
    assert [c][1..] == [];
  }

  /** Three parts joined by spaces. */
  lemma JoinOfThree(a: string, b: string, c: string)
    ensures Join([a, b, c], " ") == a + " " + b + " " + c
  {
    assert [a, b, c][1..] == [b, c];
    assert [b, c][1..] == [c];
    assert Join([b, c], " ") == b + " " + c;
  }

  /** Headings and empty lines never reach the preview. */
  lemma PreviewSkipsHeadings(lines: seq<string>, l: string)
    requires !PreviewLine(l)
    ensures PreviewOfLines([l] + lines) == PreviewOfLines(lines)
  {
    PreviewLinesAppend([l], lines);
    assert PreviewLines([l]) == [];
  }

  /** One entry of `list_claude_plans`, given a plan file's name, text and modification time. */
  function PlanOf(filename: string, content: string, modifiedAt: Option<string>): (p: ClaudePlan)
    ensures p.id == PlanId(filename) && p.filename == filename && p.content == content
    ensures p.title == PlanTitle(content, filename) && p.preview == PlanPreview(content)
    ensures p.modifiedAt == modifiedAt
    ensures FirstHeading(Lines(content)).None? ==> p.title == p.id
    ensures |p.preview| <= PreviewLength
  {
    ClaudePlan(PlanId(filename), filename, PlanTitle(content, filename), PlanPreview(content), content, modifiedAt)
  }
}
