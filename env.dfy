/**
 * `.env` files (src-tauri/src/commands/env.rs): reading `KEY=value` lines,
 * masking secret-looking keys, and the line editing behind `set_env_var`
 * and `delete_env_var`. Reading and atomically writing the file are outside
 * the model: the commands here take and give the file text.
 */
module Env {
  import opened Common
  import opened Models
  import opened Text

  // ─── is_secret_key ─────────────────────────────────────────────────────

  /** The words whose presence, in any letter case, marks a key as secret. */
  const SecretWords: seq<string> := ["secret", "password", "token", "key", "api", "auth", "private", "credential"]

  /** The stretch of `key` at `i`, lower-cased, is the word `w`. */
  predicate WordAt(key: string, w: string, i: nat) {
    i + |w| <= |key| && ToLowerAscii(key[i..i + |w|]) == w
  }

  /** `is_secret_key`: the lower-cased key contains a secret word. */
  function IsSecretKey(key: string): bool {
    exists w | w in SecretWords :: Contains(ToLowerAscii(key), w)
  }

  /** A key is masked exactly when some stretch of it, lower-cased, is a secret word. */
  lemma SecretWordsAt(key: string)
    ensures IsSecretKey(key) <==> exists w, i: nat | w in SecretWords :: WordAt(key, w, i)
  {
    var lower := ToLowerAscii(key);
    forall w, i: nat | i + |w| <= |key|
      ensures OccursAt(lower, w, i) <==> WordAt(key, w, i)
    {
      assert lower[i..i + |w|] == ToLowerAscii(key[i..i + |w|]);
    }
    forall w | w in SecretWords
      ensures Contains(lower, w) <==> exists i: nat :: WordAt(key, w, i)
    {
      ContainsAt(lower, w);
    }
  }

  lemma {:induction false} ContainsLower(s: string, p: string)
    requires Contains(s, p)
    ensures Contains(ToLowerAscii(s), ToLowerAscii(p))
    decreases |s|
  {
    if StartsWith(s, p) {
      assert ToLowerAscii(s)[..|p|] == ToLowerAscii(p);
    } else {
      ContainsLower(s[1..], p);
      assert ToLowerAscii(s)[1..] == ToLowerAscii(s[1..]);
    }
  }

  /** A key holding a secret word in any mix of upper and lower case is masked. */
  lemma SecretInAnyCase(key: string, u: string)
    requires Contains(key, u) && ToLowerAscii(u) in SecretWords
    ensures IsSecretKey(key)
  {
    ContainsLower(key, u);
  }

  /** Masking does not depend on letter case. */
  lemma SecretKeyCaseBlind(key: string)
    ensures IsSecretKey(ToLowerAscii(key)) == IsSecretKey(key)
  {
    assert ToLowerAscii(ToLowerAscii(key)) == ToLowerAscii(key);
  }

  // ─── parse_env_content ─────────────────────────────────────────────────

  /** A value wrapped in one matching pair of `"` or `'`. */
  predicate Quoted(raw: string) {
    (StartsWith(raw, "\"") && EndsWith(raw, "\"")) || (StartsWith(raw, "'") && EndsWith(raw, "'"))
  }

  /**
   * The quote stripping of `parse_env_content` AS WRITTEN: a value that is a
   * single quote character passes the test and the slice `[1..0]` panics,
   * shown here as None.
   */
  function UnquoteAsWritten(raw: string): (r: Option<string>)
    ensures r.None? <==> raw == "\"" || raw == "'"
  {
    if Quoted(raw) then (if |raw| >= 2 then Some(raw[1..|raw| - 1]) else None) else Some(raw)
  }

  /** The quote stripping as evidently intended: only a pair of quotes is removed. */
  function Unquote(raw: string): (r: string)
    ensures |raw| >= 2 && Quoted(raw) ==> raw == [raw[0]] + r + [raw[0]]
    ensures !(|raw| >= 2 && Quoted(raw)) ==> r == raw
  {
    if |raw| >= 2 && Quoted(raw) then raw[1..|raw| - 1] else raw
  }

  /** Where the code does not panic, it strips exactly as the corrected form does. */
  lemma UnquoteAgrees(raw: string)
    requires UnquoteAsWritten(raw).Some?
    ensures UnquoteAsWritten(raw).value == Unquote(raw)
  {
  }

  /** The input that shows the panic. */
  lemma UnquoteLoneQuote()
    ensures UnquoteAsWritten("\"") == None && UnquoteAsWritten("'") == None
    ensures Unquote("\"") == "\"" && Unquote("'") == "'"
  {
  }

  /** Lines `parse_env_content` skips before looking for `=`. */
  predicate Skipped(line: string) {
    StartsWith(line, "#") || Trim(line) == ""
  }

  /** One line of `parse_env_content` (corrected quote stripping). */
  function ParseEnvLine(line: string): (v: Option<EnvVar>)
    ensures v.None? <==> Skipped(line) || '=' !in line
    ensures v.Some? ==> v.value.masked == IsSecretKey(v.value.key) && '=' !in v.value.key
  {
    if Skipped(line) then None
    else
      match IndexOf(line, '=')
      case None => None
      case Some(eq) =>
        var key := Trim(line[..eq]);
        assert '=' !in key by {
          assert forall j | 0 <= j < |key| :: key[j] in line[..eq];
        }
        Some(EnvVar(key, Unquote(Trim(line[eq + 1..])), IsSecretKey(key)))
  }

  /** One line as written: Err is the slice panic, which hits exactly the lines whose value is a lone quote. */
  function ParseEnvLineAsWritten(line: string): (r: Result<Option<EnvVar>, string>)
    ensures r.Err? ==> ParseEnvLine(line).Some? && ParseEnvLine(line).value.value in {"\"", "'"}
  {
    if Skipped(line) then Ok(None)
    else
      match IndexOf(line, '=')
      case None => Ok(None)
      case Some(eq) =>
        var key := Trim(line[..eq]);
        match UnquoteAsWritten(Trim(line[eq + 1..]))
        case None =>
          LoneQuoteValue(line, eq);
          Err("begin <= end (1 <= 0) when slicing `" + Trim(line[eq + 1..]) + "`")
        case Some(value) => Ok(Some(EnvVar(key, value, IsSecretKey(key))))
  }

  /** Where the code as written panics, the corrected parser reads the lone quote as the value. */
  lemma LoneQuoteValue(line: string, eq: nat)
    requires !Skipped(line) && IndexOf(line, '=') == Some(eq)
    requires UnquoteAsWritten(Trim(line[eq + 1..])).None?
    ensures ParseEnvLine(line).Some? && ParseEnvLine(line).value.value in {"\"", "'"}
  {
    var raw := Trim(line[eq + 1..]);
    assert Unquote(raw) == raw;
  }

  /** Each line parsed on its own. */
  function ParsedLines(lines: seq<string>): (opts: seq<Option<EnvVar>>)
    ensures |opts| == |lines|
    ensures forall i | 0 <= i < |lines| :: opts[i] == ParseEnvLine(lines[i])
  {
    seq(|lines|, i requires 0 <= i < |lines| => ParseEnvLine(lines[i]))
  }

  /** The variables of the given lines, in line order. */
  function EnvVars(lines: seq<string>): (vars: seq<EnvVar>)
    ensures |vars| <= |lines|
  {
    Somes(ParsedLines(lines))
  }

  /** `parse_env_content` with the quote stripping corrected. */
  function ParseEnvContent(content: string): (vars: seq<EnvVar>)
    ensures |vars| <= |Lines(content)|
  {
    EnvVars(Lines(content))
  }

  /** Each line parsed as written. */
  function LineResults(lines: seq<string>): (rs: seq<Result<Option<EnvVar>, string>>)
    ensures |rs| == |lines|
    ensures forall i | 0 <= i < |lines| :: rs[i] == ParseEnvLineAsWritten(lines[i])
  {
    seq(|lines|, i requires 0 <= i < |lines| => ParseEnvLineAsWritten(lines[i]))
  }

  /** The lines read as written: the first panicking line aborts the whole read. */
  function EnvVarsAsWritten(lines: seq<string>): Result<seq<EnvVar>, string> {
    FirstErr(LineResults(lines))
  }

  /** `parse_env_content` as written: any lone-quote value aborts the whole read. */
  function ParseEnvContentAsWritten(content: string): Result<seq<EnvVar>, string> {
    EnvVarsAsWritten(Lines(content))
  }

  /** Reading a file as written panics exactly when one of its lines does. */
  lemma ContentPanics(content: string)
    ensures ParseEnvContentAsWritten(content).Err? ==>
      exists i | 0 <= i < |Lines(content)| :: ParseEnvLineAsWritten(Lines(content)[i]).Err?
    ensures (exists i | 0 <= i < |Lines(content)| :: ParseEnvLineAsWritten(Lines(content)[i]).Err?) ==>
      ParseEnvContentAsWritten(content).Err?
  {
    var lines := Lines(content);
    FirstErrFails(LineResults(lines));
  }

  /** The variables of non-empty lines: the first line's, then the rest's. */
  lemma EnvVarsCons(lines: seq<string>)
    requires lines != []
    ensures EnvVars(lines) == match ParseEnvLine(lines[0])
                              case None => EnvVars(lines[1..])
                              case Some(v) => [v] + EnvVars(lines[1..])
  {
    assert ParsedLines(lines) == [ParseEnvLine(lines[0])] + ParsedLines(lines[1..]);
  }

  /** On a line where the code as written does not panic, both parsers agree. */
  lemma LineAgrees(line: string)
    requires ParseEnvLineAsWritten(line).Ok?
    ensures ParseEnvLineAsWritten(line).value == ParseEnvLine(line)
  {
    if !Skipped(line) && IndexOf(line, '=').Some? {
      var eq := IndexOf(line, '=').value;
      UnquoteAgrees(Trim(line[eq + 1..]));
    }
  }

  /** Whenever the code as written returns, it returns what the corrected parser does. */
  lemma EnvVarsAgree(lines: seq<string>)
    requires EnvVarsAsWritten(lines).Ok?
    ensures EnvVarsAsWritten(lines).value == EnvVars(lines)
  {
    forall i | 0 <= i < |lines| && ParseEnvLineAsWritten(lines[i]).Ok?
      ensures ParseEnvLineAsWritten(lines[i]).value == ParseEnvLine(lines[i])
    {
      LineAgrees(lines[i]);
    }
    FirstErrValues(LineResults(lines), ParsedLines(lines));
  }

  lemma TokenIsSecret()
    ensures IsSecretKey("TOKEN")
  {
    assert ToLowerAscii("TOKEN") == "token";
    assert Contains("token", "token");
    assert "token" in SecretWords;
  }

  /** A line whose value is one `"` makes the code as written panic; the corrected parser reads the quote as the value. */
  lemma LoneQuoteLine(key: string)
    requires key != [] && Trim(key) == key && '=' !in key && !StartsWith(key, "#")
    ensures ParseEnvLineAsWritten(key + "=\"").Err?
    ensures ParseEnvLine(key + "=\"") == Some(EnvVar(key, "\"", IsSecretKey(key)))
  {
    TrimUnchanged("\"");
    assert key + "=\"" == key + "=" + "\"";
    ParseEntry(key, "\"");
    EntryParts(key, "\"");
    ParsedAt(key + "=\"", |key|);
  }

  /** A file holding such a line cannot be read by the code as written. */
  lemma LoneQuotePanics(key: string)
    requires key != [] && Trim(key) == key && '=' !in key && '\n' !in key && !StartsWith(key, "#")
    ensures ParseEnvContentAsWritten(key + "=\"\n").Err?
    ensures ParseEnvContent(key + "=\"\n") == [EnvVar(key, "\"", IsSecretKey(key))]
  {
    var line := key + "=\"";
    assert key + "=\"\n" == Join([line], "\n") + "\n";
    assert !EndsWith(line, "\r") by {
      assert line[|line| - 1] == '"';
    }
    LinesOfJoin([line]);
    LoneQuoteLine(key);
    EnvVarsCons([line]);
  }

  /** The `.env` line `TOKEN="` is such a line. */
  lemma TokenLoneQuote()
    ensures ParseEnvContentAsWritten("TOKEN" + "=\"\n").Err?
    ensures ParseEnvContent("TOKEN" + "=\"\n") == [EnvVar("TOKEN", "\"", true)]
  {
    TrimUnchanged("TOKEN");
    TokenIsSecret();
    LoneQuotePanics("TOKEN");
  }

  /** Variables keep the order of their lines. */
  lemma EnvVarsAppend(a: seq<string>, b: seq<string>)
    ensures EnvVars(a + b) == EnvVars(a) + EnvVars(b)
  {
    assert ParsedLines(a + b) == ParsedLines(a) + ParsedLines(b);
    SomesAppend(ParsedLines(a), ParsedLines(b));
  }

  /** Every line that parses contributes its variable. */
  lemma EnvVarsHas(lines: seq<string>, k: nat)
    requires k < |lines| && ParseEnvLine(lines[k]).Some?
    ensures ParseEnvLine(lines[k]).value in EnvVars(lines)
  {
    SomesHas(ParsedLines(lines), k);
  }

  // ─── set_env_var ───────────────────────────────────────────────────────

  /** The three-way test `set_env_var` applies to each line. */
  predicate SetMatches(line: string, key: string) {
    StartsWith(line, key + "=") || line == key || ('=' in line && FirstPiece(line, '=') == key)
  }

  /** The test `delete_env_var` applies to each line. */
  predicate DeleteMatches(line: string, key: string) {
    StartsWith(line, key + "=") || line == key
  }

  /** The third test of `set_env_var` adds nothing: both commands pick the same lines. */
  lemma SetDeleteSameLines(line: string, key: string)
    ensures SetMatches(line, key) <==> DeleteMatches(line, key)
  {
    if '=' in line && FirstPiece(line, '=') == key {
      assert line[..|key| + 1] == key + "=";
    }
  }

  /** Index of the first line `set_env_var` replaces. */
  function FirstKeyLine(lines: seq<string>, key: string): (r: Option<nat>)
    ensures r.Some? ==> r.value < |lines| && SetMatches(lines[r.value], key)
    ensures r.Some? ==> forall j | 0 <= j < r.value :: !SetMatches(lines[j], key)
    ensures r.None? ==> forall j | 0 <= j < |lines| :: !SetMatches(lines[j], key)
    decreases |lines|
  {
    if lines == [] then None
    else if SetMatches(lines[0], key) then Some(0)
    else
      match FirstKeyLine(lines[1..], key)
      case None => None
      case Some(i) => Some(i + 1)
  }

  /**
   * The lines after `set_env_var`: the first line that matches the key is
   * replaced by `key=value`, and the entry is appended when no line matches.
   */
  function SetLines(lines: seq<string>, key: string, value: string): (r: seq<string>)
    ensures key + "=" + value in r
    ensures (forall j | 0 <= j < |lines| :: !SetMatches(lines[j], key)) ==> r == lines + [key + "=" + value]
    ensures forall i | 0 <= i < |lines| && SetMatches(lines[i], key) && (forall j | 0 <= j < i :: !SetMatches(lines[j], key)) ::
      r == lines[i := key + "=" + value]
    ensures |lines| <= |r| <= |lines| + 1
    ensures forall j | 0 <= j < |lines| && !SetMatches(lines[j], key) :: r[j] == lines[j]
  {
    var entry := key + "=" + value;
    match FirstKeyLine(lines, key)
    case Some(i) =>
      assert lines[i := entry][i] == entry;
      lines[i := entry]
    case None =>
      assert (lines + [entry])[|lines|] == entry;
      lines + [entry]
  }

  /** The loop of `set_env_var`: replace the first key line and stop; append when none was found. */
  method SetEnvLines(lines: seq<string>, key: string, value: string) returns (out: seq<string>)
    ensures out == SetLines(lines, key, value)
  {
    var entry := key + "=" + value;
    out := lines;
    var found := false;
    var i := 0;
    while i < |out|
      invariant 0 <= i <= |lines| && out == lines && !found
      invariant forall j | 0 <= j < i :: !SetMatches(lines[j], key)
    {
      if SetMatches(out[i], key) {
        out := out[i := entry];
        found := true;
        break;
      }
      i := i + 1;
    }
    if !found {
      out := out + [entry];
    }
  }

  /** Setting a key twice leaves the file as setting it once with the second value. */
  lemma SetTwice(lines: seq<string>, key: string, v1: string, v2: string)
    ensures SetLines(SetLines(lines, key, v1), key, v2) == SetLines(lines, key, v2)
  {
    var once := SetLines(lines, key, v1);
    assert StartsWith(key + "=" + v1, key + "=") by {
      assert (key + "=" + v1)[..|key + "="|] == key + "=";
    }
    match FirstKeyLine(lines, key)
    case Some(i) =>
      FirstAt(once, key, i);
    case None =>
      FirstAt(once, key, |lines|);
  }

  /** A key line with no key line before it is the first one. */
  lemma {:induction false} FirstAt(lines: seq<string>, key: string, i: nat)
    requires i < |lines| && SetMatches(lines[i], key)
    requires forall j | 0 <= j < i :: !SetMatches(lines[j], key)
    ensures FirstKeyLine(lines, key) == Some(i)
    decreases |lines|
  {
    if i > 0 {
      FirstAt(lines[1..], key, i - 1);
    }
  }

  /** `lines.join("\n")` followed by a `\n` unless it already ends in one. */
  function EnvFileText(lines: seq<string>): (text: string)
    ensures EndsWith(text, "\n")
  {
    var joined := Join(lines, "\n");
    if EndsWith(joined, "\n") then joined else joined + "\n"
  }

  /** `set_env_var` on the current file text ("" when the file is missing). */
  method SetEnvVar(existing: string, key: string, value: string) returns (text: string)
    ensures text == EnvFileText(SetLines(Lines(existing), key, value))
    ensures EndsWith(text, "\n")
  {
    var lines := SetEnvLines(Lines(existing), key, value);
    text := EnvFileText(lines);
  }

  /** Lines that come back unchanged from the file they are written to: all plain, the last one not empty. */
  predicate Rereadable(ls: seq<string>) {
    |ls| > 0 && ls[|ls| - 1] != "" && forall i | 0 <= i < |ls| :: PlainLine(ls[i])
  }

  /** Lines read back from a written file are the lines written, when none ends in `\r` and the last is not empty. */
  lemma LinesOfEnvFileText(ls: seq<string>)
    requires Rereadable(ls)
    ensures Lines(EnvFileText(ls)) == ls
  {
    JoinEndsWithLast(ls, "\n");
    var joined := Join(ls, "\n");
    var last := ls[|ls| - 1];
    assert joined[|joined| - 1] == last[|last| - 1];
    assert !EndsWith(joined, "\n");
    LinesOfJoin(ls);
  }

  /** A well-formed `KEY=value` entry reads back as that variable. */
  lemma ParseEntry(key: string, value: string)
    requires key != [] && Trim(key) == key && '=' !in key && !StartsWith(key, "#")
    requires Trim(value) == value && !(|value| >= 2 && Quoted(value))
    ensures ParseEnvLine(key + "=" + value) == Some(EnvVar(key, value, IsSecretKey(key)))
  {
    var line := key + "=" + value;
    EntryParts(key, value);
    ParsedAt(line, |key|);
  }

  /** Where `KEY=value` is cut, and that it is not a skipped line. */
  lemma EntryParts(key: string, value: string)
    requires key != [] && Trim(key) == key && '=' !in key && !StartsWith(key, "#")
    ensures !Skipped(key + "=" + value)
    ensures IndexOf(key + "=" + value, '=') == Some(|key|)
    ensures (key + "=" + value)[..|key|] == key && (key + "=" + value)[|key| + 1..] == value
  {
    var line := key + "=" + value;
    assert line == key + ['='] + value;
    IndexOfSplit(key, '=', value);
    assert line[..|key|] == key;
    assert line[|key| + 1..] == value;
    assert line[..1] == key[..1];
    assert Trim(line) != "" by {
      assert !IsWhitespace(key[0]) by {
        assert TrimStart(TrimEnd(key)) == key;
      }
      TrimEndKeeps(line, |key|);
      TrimStartKeeps(TrimEnd(line), key[0]);
    }
  }

  /** `trim_end` keeps every character up to a non-blank one. */
  lemma {:induction false} TrimEndKeeps(s: string, i: nat)
    requires i < |s| && !IsWhitespace(s[i])
    ensures |TrimEnd(s)| > i && TrimEnd(s)[0] == s[0]
    decreases |s|
  {
    if i < |s| - 1 && IsWhitespace(s[|s| - 1]) {
      TrimEndKeeps(s[..|s| - 1], i);
    }
  }

  /** A line that is not skipped and has its first `=` at `eq`, parsed both ways. */
  lemma ParsedAt(line: string, eq: nat)
    requires !Skipped(line) && IndexOf(line, '=') == Some(eq)
    ensures ParseEnvLine(line) ==
      Some(EnvVar(Trim(line[..eq]), Unquote(Trim(line[eq + 1..])), IsSecretKey(Trim(line[..eq]))))
    ensures UnquoteAsWritten(Trim(line[eq + 1..])).None? ==> ParseEnvLineAsWritten(line).Err?
  {
  }

  /** Trimming the end of a text that starts with a non-blank keeps that start. */
  lemma TrimStartKeeps(s: string, c: char)
    requires s != [] && s[0] == c && !IsWhitespace(c)
    ensures TrimStart(s) == s
  {
  }

  /**
   * After `set_env_var`, reading the file gives the new variable (for a file
   * whose lines do not end in `\r` and whose last line is not empty).
   */
  lemma SetThenRead(existing: seq<string>, key: string, value: string)
    requires existing == [] || existing[|existing| - 1] != ""
    requires forall i | 0 <= i < |existing| :: PlainLine(existing[i])
    requires key != [] && Trim(key) == key && '=' !in key && '\n' !in key && !StartsWith(key, "#")
    requires Trim(value) == value && !(|value| >= 2 && Quoted(value)) && '\n' !in value
    ensures EnvVar(key, value, IsSecretKey(key)) in EnvVars(Lines(EnvFileText(SetLines(existing, key, value))))
  {
    SetLinesPlain(existing, key, value);
    ReadBackEntry(SetLines(existing, key, value), key, value);
  }

  /** Plain lines holding a well-formed entry read back, once written, with that variable among them. */
  lemma ReadBackEntry(ls: seq<string>, key: string, value: string)
    requires Rereadable(ls) && key + "=" + value in ls
    requires key != [] && Trim(key) == key && '=' !in key && !StartsWith(key, "#")
    requires Trim(value) == value && !(|value| >= 2 && Quoted(value))
    ensures EnvVar(key, value, IsSecretKey(key)) in EnvVars(Lines(EnvFileText(ls)))
  {
    LinesOfEnvFileText(ls);
    var k :| 0 <= k < |ls| && ls[k] == key + "=" + value;
    ParseEntry(key, value);
    EnvVarsHas(ls, k);
  }

  /** The line `set_env_var` writes is plain. */
  lemma EntryPlain(key: string, value: string)
    requires key != [] && '\n' !in key && Trim(value) == value && '\n' !in value
    ensures PlainLine(key + "=" + value)
  {
    var entry := key + "=" + value;
    assert entry[|entry| - 1] == (if value == [] then '=' else value[|value| - 1]);
    if value != [] {
      assert TrimEnd(value) == value;
    }
  }

  /** Setting an entry in plain lines leaves plain lines whose last one is not empty. */
  lemma SetLinesPlain(existing: seq<string>, key: string, value: string)
    requires existing == [] || existing[|existing| - 1] != ""
    requires forall i | 0 <= i < |existing| :: PlainLine(existing[i])
    requires key != [] && '\n' !in key && Trim(value) == value && '\n' !in value
    ensures Rereadable(SetLines(existing, key, value)) && key + "=" + value in SetLines(existing, key, value)
  {
    var entry := key + "=" + value;
    var ls := SetLines(existing, key, value);
    EntryPlain(key, value);
    assert entry[|key|] == '=';
    match FirstKeyLine(existing, key)
    case Some(i) =>
      assert ls == existing[i := entry];
      forall j | 0 <= j < |ls| ensures PlainLine(ls[j]) {
        if j != i {
          assert ls[j] == existing[j];
        }
      }
      if i != |existing| - 1 {
        assert ls[|ls| - 1] == existing[|existing| - 1];
      }
    case None =>
      assert ls == existing + [entry];
      forall j | 0 <= j < |ls| ensures PlainLine(ls[j]) {
        if j < |existing| {
          assert ls[j] == existing[j];
        }
      }
  }

  // ─── delete_env_var ────────────────────────────────────────────────────

  /** The lines `delete_env_var` keeps, in their order. */
  function DeleteLines(lines: seq<string>, key: string): (kept: seq<string>)
    ensures |kept| <= |lines|
    ensures forall l | l in kept :: l in lines && !DeleteMatches(l, key)
    ensures forall l | l in lines && !DeleteMatches(l, key) :: l in kept
    decreases |lines|
  {
    if lines == [] then []
    else if DeleteMatches(lines[0], key) then DeleteLines(lines[1..], key)
    else [lines[0]] + DeleteLines(lines[1..], key)
  }

  lemma {:induction false} DeleteLinesAppend(a: seq<string>, b: seq<string>, key: string)
    ensures DeleteLines(a + b, key) == DeleteLines(a, key) + DeleteLines(b, key)
    decreases |a|
  {
    if a == [] {
      assert a + b == b;
    } else {
      assert (a + b)[0] == a[0];
      assert (a + b)[1..] == a[1..] + b;
      DeleteLinesAppend(a[1..], b, key);
    }
  }

  /** Replacing a key line by another key line is invisible once key lines are deleted. */
  lemma {:induction false} DeleteLinesReplace(lines: seq<string>, key: string, i: nat, x: string)
    requires i < |lines| && DeleteMatches(lines[i], key) && DeleteMatches(x, key)
    ensures DeleteLines(lines[i := x], key) == DeleteLines(lines, key)
    decreases |lines|
  {
    if i > 0 {
      assert lines[i := x][1..] == lines[1..][i - 1 := x];
      DeleteLinesReplace(lines[1..], key, i - 1, x);
    }
  }

  /** Deleting a key after setting it gives the file as if only the deletion had happened. */
  lemma SetThenDelete(lines: seq<string>, key: string, value: string)
    ensures DeleteLines(SetLines(lines, key, value), key) == DeleteLines(lines, key)
  {
    var entry := key + "=" + value;
    assert DeleteMatches(entry, key) by {
      assert entry[..|key + "="|] == key + "=";
    }
    match FirstKeyLine(lines, key)
    case Some(i) =>
      SetDeleteSameLines(lines[i], key);
      DeleteLinesReplace(lines, key, i, entry);
    case None =>
      DeleteLinesAppend(lines, [entry], key);
      assert DeleteLines([entry], key) == [];
  }

  /** `delete_env_var` on the current file text: key lines dropped, `\n` added to non-empty output that lacks one. */
  function DeleteEnvVar(content: string, key: string): (text: string)
    ensures text == "" || EndsWith(text, "\n")
    ensures DeleteLines(Lines(content), key) == [] ==> text == ""
  {
    var joined := Join(DeleteLines(Lines(content), key), "\n");
    if joined != "" && !EndsWith(joined, "\n") then joined + "\n" else joined
  }
}
