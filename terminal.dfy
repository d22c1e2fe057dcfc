/**
 * Launching `claude` in a terminal (src-tauri/src/commands/terminal.rs):
 * which terminals are offered, which one is used, the POSIX single-quoting
 * of the paths placed in the command, and the percent-encoding of the Warp
 * URL. Which applications and binaries exist on disk are inputs; writing the
 * script and running `open` are outside the model, which returns the action
 * that would be taken.
 */
module Terminal {
  import opened Common
  import opened Text

  // ─── detect_terminal ───────────────────────────────────────────────────

  datatype TerminalInfo = TerminalInfo(detected: string, available: seq<string>)

  /** The order terminals are listed and preferred in. */
  function Rank(name: string): nat {
    if name == "warp" then 0 else if name == "iterm2" then 1 else 2
  }

  /** The terminal `launch_claude` uses when none is named: warp, else iterm2, else terminal. */
  function DefaultTerminal(hasWarp: bool, hasIterm: bool): (name: string)
    ensures name == "warp" <==> hasWarp
    ensures name == "iterm2" <==> !hasWarp && hasIterm
    ensures name == "terminal" <==> !hasWarp && !hasIterm
  {
    if hasWarp then "warp" else if hasIterm then "iterm2" else "terminal"
  }

  /**
   * `detect_terminal`: Warp and iTerm when installed, Terminal always, in
   * that order; the first one is reported as detected, which is also the one
   * `launch_claude` picks by default.
   */
  method DetectTerminal(hasWarp: bool, hasIterm: bool) returns (info: TerminalInfo)
    ensures |info.available| >= 1 && info.available[|info.available| - 1] == "terminal"
    ensures info.detected == info.available[0]
    ensures info.detected == DefaultTerminal(hasWarp, hasIterm)
    ensures "warp" in info.available <==> hasWarp
    ensures "iterm2" in info.available <==> hasIterm
    ensures forall i, j | 0 <= i < j < |info.available| :: Rank(info.available[i]) < Rank(info.available[j])
  {
    var available: seq<string> := [];
    if hasWarp {
      available := available + ["warp"];
    }
    if hasIterm {
      available := available + ["iterm2"];
    }
    available := available + ["terminal"];
    var detected := if |available| > 0 then available[0] else "terminal";
    info := TerminalInfo(detected, available);
  }

  // ─── shell_quote ───────────────────────────────────────────────────────

  /** Every `'` replaced by `'\''`. */
  function EscapeQuotes(s: string): (r: string)
    ensures |r| >= |s|
    decreases |s|
  {
    if s == [] then []
    else if s[0] == '\'' then "'\\''" + EscapeQuotes(s[1..])
    else [s[0]] + EscapeQuotes(s[1..])
  }

  /** `shell_quote`: POSIX single quoting. */
  function ShellQuote(s: string): (q: string)
    ensures |q| >= |s| + 2 && q[0] == '\'' && q[|q| - 1] == '\''
  {
    "'" + EscapeQuotes(s) + "'"
  }

  /**
   * How a POSIX shell reads a word made of single-quoted parts, backslash
   * escapes and plain characters (section 2.2 of the Shell Command Language
   * in IEEE Std 1003.1-2017): inside quotes everything but `'` is literal; a
   * quote left open is an error.
   */
  function ShellWord(t: string, quoted: bool): (r: Option<string>)
    decreases |t|
  {
    if t == [] then (if quoted then None else Some([]))
    else if quoted then
      if t[0] == '\'' then ShellWord(t[1..], false) else Prepend(t[0], ShellWord(t[1..], true))
    else if t[0] == '\'' then ShellWord(t[1..], true)
    else if t[0] == '\\' then (if |t| >= 2 then Prepend(t[1], ShellWord(t[2..], false)) else None)
    else Prepend(t[0], ShellWord(t[1..], false))
  }

  function Prepend(c: char, r: Option<string>): Option<string> {
    match r
    case None => None
    case Some(s) => Some([c] + s)
  }

  function PrependAll(s: string, r: Option<string>): Option<string> {
    match r
    case None => None
    case Some(x) => Some(s + x)
  }

  /** Inside quotes, `'\''` closes the quotes, adds an escaped `'` and reopens them. */
  lemma EscapedQuoteStep(u: string)
    ensures ShellWord("'\\''" + u, true) == Prepend('\'', ShellWord(u, true))
  {
    var t := "'\\''" + u;
    assert t[1..] == "\\''" + u;
    assert t[1..][2..] == "'" + u;
    assert t[1..][2..][1..] == u;
    assert t[0] == '\'' && t[1..][0] == '\\' && t[1..][1] == '\'' && t[1..][2..][0] == '\'';
    assert ShellWord(t, true) == ShellWord(t[1..], false);
    assert ShellWord(t[1..], false) == Prepend('\'', ShellWord(t[1..][2..], false));
    assert ShellWord(t[1..][2..], false) == ShellWord(u, true);
  }

  /** Inside quotes, any other character stands for itself. */
  lemma PlainStep(c: char, u: string)
    requires c != '\''
    ensures ShellWord([c] + u, true) == Prepend(c, ShellWord(u, true))
  {
    assert ([c] + u)[1..] == u;
  }

  lemma PrependStep(c: char, s: string, r: Option<string>)
    ensures Prepend(c, PrependAll(s, r)) == PrependAll([c] + s, r)
  {
    if r.Some? {
      assert [c] + (s + r.value) == ([c] + s) + r.value;
    }
  }

  /** Inside a quoted stretch, escaped text reads back as the original. */
  lemma {:induction false} EscapedReadsBack(s: string, rest: string)
    ensures ShellWord(EscapeQuotes(s) + rest, true) == PrependAll(s, ShellWord(rest, true))
    decreases |s|
  {
    if s == [] {
      assert EscapeQuotes(s) + rest == rest;
      assert PrependAll(s, ShellWord(rest, true)) == ShellWord(rest, true) by {
        if ShellWord(rest, true).Some? {
          assert s + ShellWord(rest, true).value == ShellWord(rest, true).value;
        }
      }
    } else {
      var u := EscapeQuotes(s[1..]) + rest;
      assert ShellWord(EscapeQuotes(s) + rest, true) == Prepend(s[0], ShellWord(u, true)) by {
        if s[0] == '\'' {
          assert EscapeQuotes(s) + rest == "'\\''" + u;
          EscapedQuoteStep(u);
        } else {
          assert EscapeQuotes(s) + rest == [s[0]] + u;
          PlainStep(s[0], u);
        }
      }
      EscapedReadsBack(s[1..], rest);
      PrependStep(s[0], s[1..], ShellWord(rest, true));
      assert [s[0]] + s[1..] == s;
    }
  }

  /** The shell reads a quoted string back as exactly the original string. */
  lemma ShellQuoteRoundTrip(s: string)
    ensures ShellWord(ShellQuote(s), false) == Some(s)
  {
    var q := ShellQuote(s);
    assert q[1..] == EscapeQuotes(s) + "'";
    EscapedReadsBack(s, "'");
    assert "'"[1..] == [];
    assert s + [] == s;
  }

  // ─── urlencoding_simple ────────────────────────────────────────────────

  type byte = x: int | 0 <= x < 256

  /** The UTF-8 encoding of one scalar value. */
  function Utf8Char(c: char): (bs: seq<byte>)
    ensures 1 <= |bs| <= 4
    ensures (c as int < 0x80) <==> |bs| == 1
    ensures c as int < 0x80 ==> bs[0] == c as int
  {
    var n := c as int;
    if n < 0x80 then [n]
    else if n < 0x800 then [0xC0 + n / 64, 0x80 + n % 64]
    else if n < 0x1_0000 then [0xE0 + n / 4096, 0x80 + (n / 64) % 64, 0x80 + n % 64]
    else [0xF0 + n / 0x4_0000, 0x80 + (n / 4096) % 64, 0x80 + (n / 64) % 64, 0x80 + n % 64]
  }

  /** `str::bytes`. */
  function Utf8(s: string): (bs: seq<byte>)
    ensures |bs| >= |s|
    decreases |s|
  {
    if s == [] then [] else Utf8Char(s[0]) + Utf8(s[1..])
  }

  /** The unreserved characters of section 2.3 of RFC 3986. */
  predicate Unreserved(b: int) {
    ('A' as int <= b <= 'Z' as int) || ('a' as int <= b <= 'z' as int) || ('0' as int <= b <= '9' as int) ||
    b == '-' as int || b == '_' as int || b == '.' as int || b == '~' as int
  }

  const HexDigits: string := "0123456789ABCDEF"

  /** One byte: itself if unreserved, else `%` and two upper-case hex digits (section 2.1 of RFC 3986). */
  function EncodeByte(b: byte): (t: string)
    ensures Unreserved(b) ==> t == [b as char]
    ensures !Unreserved(b) ==> |t| == 3 && t[0] == '%' && t[1] in HexDigits && t[2] in HexDigits
  {
    if Unreserved(b) then [b as char] else ['%', HexDigits[b / 16], HexDigits[b % 16]]
  }

  function CountUnreserved(bs: seq<byte>): (n: nat)
    ensures n <= |bs|
    decreases |bs|
  {
    if bs == [] then 0 else (if Unreserved(bs[0]) then 1 else 0) + CountUnreserved(bs[1..])
  }

  /** Encoded bytes: unreserved bytes take one character, all others three. */
  function EncodeBytes(bs: seq<byte>): (t: string)
    ensures |t| == CountUnreserved(bs) + 3 * (|bs| - CountUnreserved(bs))
    ensures forall i | 0 <= i < |t| :: Unreserved(t[i] as int) || t[i] == '%' || t[i] in HexDigits
    decreases |bs|
  {
    if bs == [] then "" else EncodeByte(bs[0]) + EncodeBytes(bs[1..])
  }

  /** `urlencoding_simple`. */
  function UrlEncode(s: string): (t: string)
    ensures |t| >= |s|
  {
    EncodeBytes(Utf8(s))
  }

  /** The value of a hex digit in either case. */
  function HexValue(c: char): Option<nat> {
    if '0' <= c <= '9' then Some(c as int - '0' as int)
    else if 'A' <= c <= 'F' then Some(c as int - 'A' as int + 10)
    else if 'a' <= c <= 'f' then Some(c as int - 'a' as int + 10)
    else None
  }

  /** Percent-decoding (section 2.1 of RFC 3986); anything but a byte-sized character or a full escape fails. */
  function PercentDecode(t: string): (r: Option<seq<byte>>)
    decreases |t|
  {
    if t == [] then Some([])
    else if t[0] == '%' then
      if |t| >= 3 && HexValue(t[1]).Some? && HexValue(t[2]).Some? then
        var b := HexValue(t[1]).value * 16 + HexValue(t[2]).value;
        match PercentDecode(t[3..])
        case None => None
        case Some(rest) => Some([b] + rest)
      else None
    else if t[0] as int < 256 then
      match PercentDecode(t[1..])
      case None => None
      case Some(rest) => Some([t[0] as int] + rest)
    else None
  }

  lemma HexDigitValue(v: nat)
    requires v < 16
    ensures HexValue(HexDigits[v]) == Some(v)
  {
  }

  /** An escape `%HL` decodes to the byte `16 * H + L`, whatever follows it. */
  lemma DecodeEscape(hi: nat, lo: nat, b: byte, rest: string)
    requires hi < 16 && lo < 16 && b == hi * 16 + lo
    ensures PercentDecode(['%', HexDigits[hi], HexDigits[lo]] + rest) ==
      match PercentDecode(rest) case None => None case Some(r) => Some([b] + r)
  {
    var t := ['%', HexDigits[hi], HexDigits[lo]] + rest;
    HexDigitValue(hi);
    HexDigitValue(lo);
    assert t[0] == '%' && t[1] == HexDigits[hi] && t[2] == HexDigits[lo];
    assert t[3..] == rest;
  }

  /** Decoding reverses the encoding of one byte, whatever follows it. */
  lemma DecodeByte(b: byte, rest: string)
    ensures PercentDecode(EncodeByte(b) + rest) ==
      match PercentDecode(rest) case None => None case Some(r) => Some([b] + r)
  {
    if Unreserved(b) {
      DecodePlain(b, rest);
    } else {
      DecodeReserved(b, rest);
    }
  }

  /** A reserved byte's escape decodes back to it, whatever follows it. */
  lemma DecodeReserved(b: byte, rest: string)
    requires !Unreserved(b)
    ensures PercentDecode(EncodeByte(b) + rest) ==
      match PercentDecode(rest) case None => None case Some(r) => Some([b] + r)
  {
    var hi, lo := Nibbles(b);
    DecodeEscape(hi, lo, b, rest);
  }

  /** An unreserved character decodes to its own byte, whatever follows it. */
  lemma DecodePlain(b: byte, rest: string)
    requires Unreserved(b)
    ensures PercentDecode(EncodeByte(b) + rest) ==
      match PercentDecode(rest) case None => None case Some(r) => Some([b] + r)
  {
    var t := [b as char] + rest;
    assert t[0] == b as char && t[1..] == rest;
  }

  /** A reserved byte's escape spells its high and low hex digits, which make up the byte. */
  lemma Nibbles(b: byte) returns (hi: nat, lo: nat)
    requires !Unreserved(b)
    ensures hi < 16 && lo < 16 && hi * 16 + lo == b
    ensures EncodeByte(b) == ['%', HexDigits[hi], HexDigits[lo]]
  {
    hi, lo := b / 16, b % 16;
  }

  /** Percent-decoding the encoded bytes gives them back. */
  lemma {:induction false} DecodeEncode(bs: seq<byte>)
    ensures PercentDecode(EncodeBytes(bs)) == Some(bs)
    decreases |bs|
  {
    if bs != [] {
      DecodeEncode(bs[1..]);
      DecodeByte(bs[0], EncodeBytes(bs[1..]));
      assert [bs[0]] + bs[1..] == bs;
    }
  }

  /** Text made of unreserved ASCII characters passes through unchanged. */
  lemma {:induction false} UnreservedUnchanged(s: string)
    requires forall i | 0 <= i < |s| :: Unreserved(s[i] as int)
    ensures UrlEncode(s) == s
    decreases |s|
  {
    if s != [] {
      UnreservedUnchanged(s[1..]);
      assert Utf8(s) == [s[0] as int] + Utf8(s[1..]);
      assert Utf8(s)[1..] == Utf8(s[1..]);
      assert [s[0]] + s[1..] == s;
    }
  }

  // ─── launch_claude ─────────────────────────────────────────────────────

  /** Where `claude` is looked for when it is not on the PATH, in order. */
  const ClaudeCandidates: seq<string> := ["/usr/local/bin/claude", "/opt/homebrew/bin/claude", "/usr/bin/claude"]

  /** The first candidate that is present, if any. */
  function FirstPresent(candidates: seq<string>, present: string -> bool): (r: Option<nat>)
    ensures r.Some? ==> r.value < |candidates| && present(candidates[r.value])
    ensures r.Some? ==> forall j | 0 <= j < r.value :: !present(candidates[j])
    ensures r.None? ==> forall j | 0 <= j < |candidates| :: !present(candidates[j])
    decreases |candidates|
  {
    if candidates == [] then None
    else if present(candidates[0]) then Some(0)
    else match FirstPresent(candidates[1..], present)
      case None => None
      case Some(i) => Some(i + 1)
  }

  /** The claude binary: from the PATH, else the first install location present, else plain `claude`. */
  function ClaudeBinary(onPath: Option<string>, present: string -> bool): (bin: string)
    ensures onPath.Some? ==> bin == onPath.value
    ensures onPath.None? && bin != "claude" ==> bin in ClaudeCandidates && present(bin)
    ensures onPath.None? && bin != "claude" ==>
      exists i | 0 <= i < |ClaudeCandidates| :: bin == ClaudeCandidates[i] && forall j | 0 <= j < i :: !present(ClaudeCandidates[j])
    ensures onPath.None? && (exists j | 0 <= j < |ClaudeCandidates| :: present(ClaudeCandidates[j])) ==> bin != "claude"
  {
    if onPath.Some? then onPath.value
    else
      match FirstPresent(ClaudeCandidates, present)
      case None => "claude"
      case Some(i) => ClaudeCandidates[i]
  }

  datatype LaunchAction = OpenScript(app: string, script: string) | OpenUrl(url: string)

  const KnownTerminals: set<string> := {"iterm2", "terminal", "warp"}

  const WarpPrefix: string := "warp://action/new_tab?command="

  /** The first two lines of the launch script: the interpreter and the extended PATH. */
  const ScriptHeader: string := "#!/bin/bash\nexport PATH=\"$PATH:/usr/local/bin:/opt/homebrew/bin\"\n"

  /**
   * The `.command` script run by iTerm or Terminal: after the header, `cd`
   * with a word the shell reads as the project path, then a line whose word
   * the shell reads as the claude binary.
   */
  function LaunchScript(projectPath: string, claudeBin: string): (script: string)
    ensures var q, h := ShellQuote(projectPath), |ScriptHeader + "cd "|;
      && StartsWith(script, ScriptHeader + "cd ")
      && h + |q| < |script| && script[h + |q|] == '\n'
      && ShellWord(script[h..h + |q|], false) == Some(projectPath)
    ensures var b := ShellQuote(claudeBin);
      && |b| + 1 < |script| && script[|script| - |b| - 2] == '\n' && script[|script| - 1] == '\n'
      && ShellWord(script[|script| - |b| - 1..|script| - 1], false) == Some(claudeBin)
  {
    var q, b := ShellQuote(projectPath), ShellQuote(claudeBin);
    var script := ScriptHeader + "cd " + q + "\n" + b + "\n";
    var h := |ScriptHeader + "cd "|;
    assert script[..h] == ScriptHeader + "cd ";
    assert script[h..h + |q|] == q;
    assert script[|script| - |b| - 1..|script| - 1] == b;
    ShellQuoteRoundTrip(projectPath);
    ShellQuoteRoundTrip(claudeBin);
    script
  }

  /** The shell command Warp is asked to run: `cd` to the project path, then run the claude binary. */
  function WarpCommand(projectPath: string, claudeBin: string): (cmd: string)
    ensures var q := ShellQuote(projectPath);
      && |cmd| == 3 + |q| + 4 + |ShellQuote(claudeBin)|
      && StartsWith(cmd, "cd ") && ShellWord(cmd[3..3 + |q|], false) == Some(projectPath)
      && cmd[3 + |q|..3 + |q| + 4] == " && "
      && ShellWord(cmd[3 + |q| + 4..], false) == Some(claudeBin)
  {
    var q, b := ShellQuote(projectPath), ShellQuote(claudeBin);
    var cmd := "cd " + q + " && " + b;
    assert cmd[..3] == "cd " && cmd[3..3 + |q|] == q;
    assert cmd[3 + |q|..3 + |q| + 4] == " && " && cmd[3 + |q| + 4..] == b;
    ShellQuoteRoundTrip(projectPath);
    ShellQuoteRoundTrip(claudeBin);
    cmd
  }

  /**
   * The choice `launch_claude` makes: the named terminal or the default;
   * iTerm and Terminal open the script, Warp opens its URL scheme, any other
   * name is an error.
   */
  function LaunchClaude(projectPath: string, terminal: Option<string>, hasWarp: bool, hasIterm: bool, claudeBin: string)
    : (r: Result<LaunchAction, string>)
    ensures r.Err? <==> terminal.Some? && terminal.value !in KnownTerminals
    ensures r.Err? ==> r.error == "Unknown terminal: " + terminal.value
    ensures r.Ok? && r.value.OpenScript? ==> r.value.script == LaunchScript(projectPath, claudeBin)
    ensures terminal.GetOr(DefaultTerminal(hasWarp, hasIterm)) == "iterm2" ==>
      r == Ok(OpenScript("iTerm", LaunchScript(projectPath, claudeBin)))
    ensures terminal.GetOr(DefaultTerminal(hasWarp, hasIterm)) == "terminal" ==>
      r == Ok(OpenScript("Terminal", LaunchScript(projectPath, claudeBin)))
    ensures r.Ok? && r.value.OpenScript? ==>
      (r.value.app == "iTerm" <==> terminal.GetOr(DefaultTerminal(hasWarp, hasIterm)) == "iterm2")
    ensures r.Ok? && r.value.OpenUrl? <==> terminal.GetOr(DefaultTerminal(hasWarp, hasIterm)) == "warp"
    ensures r.Ok? && r.value.OpenUrl? ==>
      StartsWith(r.value.url, WarpPrefix) && PercentDecode(r.value.url[|WarpPrefix|..]) == Some(Utf8(WarpCommand(projectPath, claudeBin)))
  {
    var name := terminal.GetOr(DefaultTerminal(hasWarp, hasIterm));
    if name == "iterm2" then Ok(OpenScript("iTerm", LaunchScript(projectPath, claudeBin)))
    else if name == "terminal" then Ok(OpenScript("Terminal", LaunchScript(projectPath, claudeBin)))
    else if name == "warp" then
      var url := WarpPrefix + UrlEncode(WarpCommand(projectPath, claudeBin));
      DecodeEncode(Utf8(WarpCommand(projectPath, claudeBin)));
      assert url[|WarpPrefix|..] == UrlEncode(WarpCommand(projectPath, claudeBin));
      Ok(OpenUrl(url))
    else Err("Unknown terminal: " + name)
  }

  /** Without a named terminal, the one launched is the one `detect_terminal` reports. */
  lemma DefaultLaunchesDetected(projectPath: string, hasWarp: bool, hasIterm: bool, claudeBin: string)
    ensures LaunchClaude(projectPath, None, hasWarp, hasIterm, claudeBin).Ok?
    ensures LaunchClaude(projectPath, None, hasWarp, hasIterm, claudeBin).value.OpenUrl? <==> hasWarp
    ensures LaunchClaude(projectPath, None, hasWarp, hasIterm, claudeBin).value ==
      if hasWarp then LaunchClaude(projectPath, Some("warp"), hasWarp, hasIterm, claudeBin).value
      else if hasIterm then OpenScript("iTerm", LaunchScript(projectPath, claudeBin))
      else OpenScript("Terminal", LaunchScript(projectPath, claudeBin))
  {
  }
}
