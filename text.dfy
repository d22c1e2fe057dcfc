/**
 * The slice of Rust's `str` API that the commands use, on `seq<char>`:
 * prefix and suffix tests, substring search, whitespace trimming,
 * `trim_end_matches` / `trim_start_matches`, `lines()`, `join` and
 * byte-wise (here: code-point-wise) ordering.
 */
module Text {
  import opened Common

  predicate StartsWith(s: string, p: string) {
    |p| <= |s| && s[..|p|] == p
  }

  predicate EndsWith(s: string, p: string) {
    |p| <= |s| && s[|s| - |p|..] == p
  }

  /** `str::contains` with a string pattern. */
  predicate Contains(s: string, p: string)
    decreases |s|
  {
    StartsWith(s, p) || (|s| > 0 && Contains(s[1..], p))
  }

  lemma {:induction false} ContainsAppend(s: string, t: string, p: string)
    requires Contains(s, p)
    ensures Contains(s + t, p)
    decreases |s|
  {
    if StartsWith(s, p) {
      assert (s + t)[..|p|] == s[..|p|];
    } else {
      ContainsAppend(s[1..], t, p);
      assert (s + t)[1..] == s[1..] + t;
    }
  }

  lemma {:induction false} ContainsPrepend(x: string, s: string, p: string)
    requires Contains(s, p)
    ensures Contains(x + s, p)
    decreases |x|
  {
    if x == [] {
      assert x + s == s;
    } else {
      ContainsPrepend(x[1..], s, p);
      assert (x + s)[1..] == x[1..] + s;
      assert |x + s| > 0 && Contains((x + s)[1..], p);
    }
  }

  /** `p` occurs in `s` starting at index `i`. */
  predicate OccursAt(s: string, p: string, i: nat) {
    i + |p| <= |s| && s[i..i + |p|] == p
  }

  /** A containment is found at some index. */
  lemma {:induction false} OccursAtOfContains(s: string, p: string) returns (i: nat)
    requires Contains(s, p)
    ensures OccursAt(s, p, i)
    decreases |s|
  {
    if StartsWith(s, p) {
      i := 0;
      assert s[0..|p|] == s[..|p|];
    } else {
      var j := OccursAtOfContains(s[1..], p);
      assert s[j + 1..j + 1 + |p|] == s[1..][j..j + |p|];
      i := j + 1;
    }
  }

  /** An occurrence at any index is a containment. */
  lemma {:induction false} ContainsOfOccursAt(s: string, p: string, i: nat)
    requires OccursAt(s, p, i)
    ensures Contains(s, p)
    decreases i
  {
    if i == 0 {
      assert s[..|p|] == s[0..|p|];
    } else {
      assert s[1..][i - 1..i - 1 + |p|] == s[i..i + |p|];
      ContainsOfOccursAt(s[1..], p, i - 1);
    }
  }

  /** `p` occurs in `s` exactly when it occurs at some index. */
  lemma ContainsAt(s: string, p: string)
    ensures Contains(s, p) <==> exists i: nat :: OccursAt(s, p, i)
  {
    if Contains(s, p) {
      var i := OccursAtOfContains(s, p);
    }
    forall i: nat | OccursAt(s, p, i) ensures Contains(s, p) {
      ContainsOfOccursAt(s, p, i);
    }
  }


  /** A pattern occurring in `s` occurs in every string that has `s` inside it. */
  lemma ContainsInside(x: string, s: string, y: string, p: string)
    requires Contains(s, p)
    ensures Contains(x + s + y, p)
  {
    ContainsPrepend(x, s, p);
    ContainsAppend(x + s, y, p);
  }

  /** The ASCII part of `char::is_whitespace`. */
  predicate IsWhitespace(c: char) {
    c == ' ' || c == '\t' || c == '\n' || c == '\r' || c == '\U{000B}' || c == '\U{000C}'
  }

  function TrimStart(s: string): (r: string)
    ensures |r| <= |s| && r == s[|s| - |r|..]
    ensures r != [] ==> !IsWhitespace(r[0])
    decreases |s|
  {
    if |s| > 0 && IsWhitespace(s[0]) then TrimStart(s[1..]) else s
  }

  function TrimEnd(s: string): (r: string)
    ensures |r| <= |s| && r == s[..|r|]
    ensures r != [] ==> !IsWhitespace(r[|r| - 1])
    decreases |s|
  {
    if |s| > 0 && IsWhitespace(s[|s| - 1]) then TrimEnd(s[..|s| - 1]) else s
  }

  /** Trailing whitespace after a text that ends in a non-blank character is all `trim_end` removes. */
  lemma {:induction false} TrimEndAfter(p: string, r: string)
    requires p != [] && !IsWhitespace(p[|p| - 1])
    ensures TrimEnd(p + r) == p + TrimEnd(r)
    decreases |r|
  {
    if r == [] {
      assert p + r == p;
    } else if IsWhitespace(r[|r| - 1]) {
      assert (p + r)[..|p + r| - 1] == p + r[..|r| - 1];
      TrimEndAfter(p, r[..|r| - 1]);
    }
  }

  /** `str::trim`. */
  function Trim(s: string): string {
    TrimStart(TrimEnd(s))
  }

  /** A text with non-blank first and last characters is its own trim. */
  lemma TrimUnchanged(s: string)
    requires s != [] && !IsWhitespace(s[0]) && !IsWhitespace(s[|s| - 1])
    ensures Trim(s) == s
  {
  }

  /** `str::trim_end_matches` with a non-empty string pattern: strips every trailing copy. */
  function TrimEndMatches(s: string, pat: string): (r: string)
    requires |pat| > 0
    ensures |r| <= |s| && r == s[..|r|]
    ensures !EndsWith(r, pat)
    decreases |s|
  {
    if EndsWith(s, pat) then TrimEndMatches(s[..|s| - |pat|], pat) else s
  }

  /** `str::trim_start_matches` with a non-empty string pattern: strips every leading copy. */
  function TrimStartMatches(s: string, pat: string): (r: string)
    requires |pat| > 0
    ensures |r| <= |s| && r == s[|s| - |r|..]
    ensures !StartsWith(r, pat)
    decreases |s|
  {
    if StartsWith(s, pat) then TrimStartMatches(s[|pat|..], pat) else s
  }

  /** `k` copies of `pat`, one after another. */
  function Repeat(pat: string, k: nat): string {
    if k == 0 then [] else pat + Repeat(pat, k - 1)
  }

  /** A string that starts with `pat` is `pat` followed by the rest. */
  lemma StartsWithSplit(s: string, pat: string)
    requires StartsWith(s, pat)
    ensures s == pat + s[|pat|..]
  {
    assert s == s[..|pat|] + s[|pat|..];
  }

  /** A string opening with `j` copies of `pat`, with one more copy in front, opens with `j + 1`. */
  lemma RepeatPrepended(rest: string, tail: string, pat: string, j: nat)
    requires rest == Repeat(pat, j) + tail
    ensures pat + rest == Repeat(pat, j + 1) + tail
  {
    assert pat + (Repeat(pat, j) + tail) == (pat + Repeat(pat, j)) + tail;
  }

  /** `trim_start_matches` removes `k` leading copies of `pat`, and no more than there are. */
  lemma {:induction false} TrimStartMatchesRepeat(s: string, pat: string) returns (k: nat)
    requires |pat| > 0
    ensures s == Repeat(pat, k) + TrimStartMatches(s, pat)
    decreases |s|
  {
    if StartsWith(s, pat) {
      var rest := s[|pat|..];
      var j := TrimStartMatchesRepeat(rest, pat);
      var tail := TrimStartMatches(rest, pat);
      assert TrimStartMatches(s, pat) == tail;
      StartsWithSplit(s, pat);
      RepeatPrepended(rest, tail, pat, j);
      k := j + 1;
    } else {
      k := 0;
      assert s == [] + s;
    }
  }

  /** `trim_start_matches` leaves what follows some number of leading copies of `pat`. */
  lemma TrimStartMatchesCopies(s: string, pat: string)
    requires |pat| > 0
    ensures exists k: nat :: s == Repeat(pat, k) + TrimStartMatches(s, pat)
  {
    var k := TrimStartMatchesRepeat(s, pat);
  }

  /** One more copy may go at either end. */
  lemma {:induction false} RepeatSnoc(pat: string, k: nat)
    ensures Repeat(pat, k) + pat == Repeat(pat, k + 1)
  {
    if k > 0 {
      RepeatSnoc(pat, k - 1);
      assert Repeat(pat, k) + pat == pat + (Repeat(pat, k - 1) + pat);
    }
  }

  /** A string that ends with `pat` is what precedes it followed by `pat`. */
  lemma EndsWithSplit(s: string, pat: string)
    requires EndsWith(s, pat)
    ensures s == s[..|s| - |pat|] + pat
  {
    assert s == s[..|s| - |pat|] + s[|s| - |pat|..];
  }

  /** A string ending in `j` copies of `pat`, with one more copy appended, ends in `j + 1`. */
  lemma RepeatAppended(front: string, head: string, pat: string, j: nat)
    requires front == head + Repeat(pat, j)
    ensures front + pat == head + Repeat(pat, j + 1)
  {
    RepeatSnoc(pat, j);
    assert (head + Repeat(pat, j)) + pat == head + (Repeat(pat, j) + pat);
  }

  /** `trim_end_matches` removes `k` trailing copies of `pat`, and no more than there are. */
  lemma {:induction false} TrimEndMatchesRepeat(s: string, pat: string) returns (k: nat)
    requires |pat| > 0
    ensures s == TrimEndMatches(s, pat) + Repeat(pat, k)
    decreases |s|
  {
    if EndsWith(s, pat) {
      var front := s[..|s| - |pat|];
      var j := TrimEndMatchesRepeat(front, pat);
      var head := TrimEndMatches(front, pat);
      assert TrimEndMatches(s, pat) == head;
      EndsWithSplit(s, pat);
      RepeatAppended(front, head, pat, j);
      k := j + 1;
    } else {
      k := 0;
      assert s == s + [];
    }
  }

  /** `trim_end_matches` leaves what precedes some number of trailing copies of `pat`. */
  lemma TrimEndMatchesCopies(s: string, pat: string)
    requires |pat| > 0
    ensures exists k: nat :: s == TrimEndMatches(s, pat) + Repeat(pat, k)
  {
    var k := TrimEndMatchesRepeat(s, pat);
  }

  /** Trimming trailing `p` copies and then trailing `q` copies removes a run of `q`s followed by a run of `p`s. */
  lemma TrimEndTwiceCopies(s: string, p: string, q: string)
    requires |p| > 0 && |q| > 0
    ensures |TrimEndMatches(TrimEndMatches(s, p), q)| <= |s|
    ensures TrimEndMatches(TrimEndMatches(s, p), q) == s[..|TrimEndMatches(TrimEndMatches(s, p), q)|]
    ensures exists j: nat, k: nat ::
      s == TrimEndMatches(TrimEndMatches(s, p), q) + Repeat(q, k) + Repeat(p, j)
      && !EndsWith(TrimEndMatches(TrimEndMatches(s, p), q) + Repeat(q, k), p)
  {
    var j := TrimEndMatchesRepeat(s, p);
    var k := TrimEndMatchesRepeat(TrimEndMatches(s, p), q);
  }

  lemma TrimEndMatchesAppended(s: string, pat: string)
    requires |pat| > 0
    ensures TrimEndMatches(s + pat, pat) == TrimEndMatches(s, pat)
  {
    assert EndsWith(s + pat, pat) by {
      assert (s + pat)[|s + pat| - |pat|..] == pat;
    }
    assert (s + pat)[..|s + pat| - |pat|] == s;
  }

  /** Position of the first `c` in `s` (`str::find` with a char). */
  function IndexOf(s: string, c: char): (r: Option<nat>)
    ensures r.Some? ==> r.value < |s| && s[r.value] == c && c !in s[..r.value]
    ensures r.None? ==> c !in s
    decreases |s|
  {
    if s == [] then None
    else if s[0] == c then Some(0)
    else
      match IndexOf(s[1..], c)
      case None => None
      case Some(i) => Some(i + 1)
  }

  /** Position of the last `c` in `s` (`str::rfind` with a char). */
  function LastIndexOf(s: string, c: char): (r: Option<nat>)
    ensures r.Some? ==> r.value < |s| && s[r.value] == c && c !in s[r.value + 1..]
    ensures r.None? ==> c !in s
    decreases |s|
  {
    if s == [] then None
    else if s[|s| - 1] == c then Some(|s| - 1)
    else LastIndexOf(s[..|s| - 1], c)
  }

  lemma IndexOfSplit(a: string, c: char, b: string)
    requires c !in a
    ensures IndexOf(a + [c] + b, c) == Some(|a|)
  {
    var s := a + [c] + b;
    assert s[|a|] == c;
    assert s[..|a|] == a;
    assert forall j | 0 <= j < |a| :: s[j] == a[j];
  }

  /** The line terminator `lines()` removes: a `\r` before the `\n`. */
  function StripCr(l: string): (r: string)
    ensures |r| <= |l| && r == l[..|r|]
  {
    if EndsWith(l, "\r") then l[..|l| - 1] else l
  }

  /**
   * `str::lines`: split at `\n`, drop a `\r` that precedes the `\n`, and
   * produce no empty last line for a trailing terminator.
   */
  function Lines(s: string): (r: seq<string>)
    ensures forall i | 0 <= i < |r| :: '\n' !in r[i]
    decreases |s|
  {
    if s == [] then []
    else
      match IndexOf(s, '\n')
      case None => [s]
      case Some(i) =>
        var line := StripCr(s[..i]);
        assert forall j | 0 <= j < |line| :: line[j] == s[..i][j];
        [line] + Lines(s[i + 1..])
  }

  /** `[String]::join`. */
  function Join(parts: seq<string>, sep: string): string
    decreases |parts|
  {
    if |parts| == 0 then ""
    else if |parts| == 1 then parts[0]
    else parts[0] + sep + Join(parts[1..], sep)
  }

  lemma JoinEndsWithLast(parts: seq<string>, sep: string)
    requires |parts| > 0
    ensures EndsWith(Join(parts, sep), parts[|parts| - 1])
    decreases |parts|
  {
    if |parts| > 1 {
      JoinEndsWithLast(parts[1..], sep);
      var rest := Join(parts[1..], sep);
      var last := parts[|parts| - 1];
      assert (parts[0] + sep + rest)[|parts[0] + sep + rest| - |last|..] == rest[|rest| - |last|..];
    }
  }

  /** `str::split` with a char pattern: `k` separators give `k + 1` pieces. */
  function Split(s: string, c: char): (r: seq<string>)
    ensures |r| > 0
    ensures forall i | 0 <= i < |r| :: c !in r[i]
    decreases |s|
  {
    match IndexOf(s, c)
    case None => [s]
    case Some(i) => [s[..i]] + Split(s[i + 1..], c)
  }

  /** `split(c).next()`: the text before the first `c`, or all of it when there is none. */
  function FirstPiece(s: string, c: char): (r: string)
    ensures c !in r && StartsWith(s, r)
    ensures |r| < |s| ==> s[|r|] == c
  {
    match IndexOf(s, c)
    case None => s
    case Some(i) => s[..i]
  }

  /** The first piece is the head of the split. */
  lemma FirstPieceSplit(s: string, c: char)
    ensures FirstPiece(s, c) == Split(s, c)[0]
  {
  }

  /** Splitting and re-joining with the same separator gives the text back. */
  lemma {:induction false} JoinSplit(s: string, c: char)
    ensures Join(Split(s, c), [c]) == s
    decreases |s|
  {
    match IndexOf(s, c)
    case None =>
    case Some(i) =>
      var rest := Split(s[i + 1..], c);
      JoinSplit(s[i + 1..], c);
      assert Split(s, c) == [s[..i]] + rest;
      assert ([s[..i]] + rest)[1..] == rest;
      assert s == s[..i] + [c] + s[i + 1..];
  }

  /** The first separator cuts off the first piece. */
  lemma SplitAt(s: string, c: char, i: nat)
    requires IndexOf(s, c) == Some(i)
    ensures Split(s, c) == [s[..i]] + Split(s[i + 1..], c)
  {
  }

  /** A separator between two texts separates their pieces. */
  lemma {:induction false} SplitAppend(a: string, c: char, b: string)
    ensures Split(a + [c] + b, c) == Split(a, c) + Split(b, c)
    decreases |a|
  {
    var s := a + [c] + b;
    match IndexOf(a, c)
    case None =>
      IndexOfSplit(a, c, b);
      SplitAt(s, c, |a|);
      assert s[..|a|] == a;
      assert s[|a| + 1..] == b;
    case Some(i) =>
      var head, tail := a[..i], a[i + 1..];
      SplitAppendAt(a, c, b, i);
      SplitAppend(tail, c, b);
      SplitAt(a, c, i);
      assert [head] + (Split(tail, c) + Split(b, c)) == ([head] + Split(tail, c)) + Split(b, c);
  }

  /** When `a` holds a separator, cutting `a + [c] + b` at it leaves the rest of `a` in front. */
  lemma SplitAppendAt(a: string, c: char, b: string, i: nat)
    requires IndexOf(a, c) == Some(i)
    ensures Split(a + [c] + b, c) == [a[..i]] + Split(a[i + 1..] + [c] + b, c)
  {
    var s := a + [c] + b;
    assert s == a + ([c] + b);
    IndexOfPrefix(a, c, [c] + b);
    assert s[..i] == a[..i];
    assert s[i + 1..] == a[i + 1..] + [c] + b;
    calc {
      Split(s, c);
      { SplitAt(s, c, i); }
      [s[..i]] + Split(s[i + 1..], c);
      [a[..i]] + Split(a[i + 1..] + [c] + b, c);
    }
  }

  /** An occurrence in `a` is found in `a + b` at the same place. */
  lemma {:induction false} IndexOfPrefix(a: string, c: char, b: string)
    requires IndexOf(a, c).Some?
    ensures IndexOf(a + b, c) == IndexOf(a, c)
    decreases |a|
  {
    if a[0] != c {
      IndexOfPrefix(a[1..], c, b);
      assert (a + b)[1..] == a[1..] + b;
    }
  }

  /** A line that `lines()` reads back as itself: it holds no `\n` and does not end in `\r`. */
  predicate PlainLine(line: string) {
    '\n' !in line && !EndsWith(line, "\r")
  }

  /** Re-reading plain lines that were joined and newline-terminated gives them back. */
  lemma {:induction false} LinesOfJoin(ls: seq<string>)
    requires |ls| > 0
    requires forall i | 0 <= i < |ls| :: PlainLine(ls[i])
    ensures Lines(Join(ls, "\n") + "\n") == ls
    decreases |ls|
  {
    var s := Join(ls, "\n") + "\n";
    var rest := if |ls| == 1 then "" else Join(ls[1..], "\n") + "\n";
    assert s == ls[0] + "\n" + rest;
    IndexOfSplit(ls[0], '\n', rest);
    assert s[..|ls[0]|] == ls[0];
    assert s[|ls[0]| + 1..] == rest;
    if |ls| > 1 {
      LinesOfJoin(ls[1..]);
    }
  }

  function LowerChar(c: char): char {
    if 'A' <= c <= 'Z' then (c as int + 32) as char else c
  }

  /** ASCII `to_lowercase`. */
  function ToLowerAscii(s: string): (r: string)
    ensures |r| == |s|
    ensures forall i | 0 <= i < |s| :: r[i] == LowerChar(s[i])
  {
    seq(|s|, i requires 0 <= i < |s| => LowerChar(s[i]))
  }

  /** `Ord` on `str`: lexicographic, by code point. */
  predicate StrLe(a: string, b: string)
    decreases |a|
  {
    a == [] || (b != [] && (a[0] < b[0] || (a[0] == b[0] && StrLe(a[1..], b[1..]))))
  }

  lemma {:induction false} StrLeTotal(a: string, b: string)
    ensures StrLe(a, b) || StrLe(b, a)
    decreases |a|
  {
    if a != [] && b != [] && a[0] == b[0] {
      StrLeTotal(a[1..], b[1..]);
    }
  }

  lemma {:induction false} StrLeTransitive(a: string, b: string, c: string)
    requires StrLe(a, b) && StrLe(b, c)
    ensures StrLe(a, c)
    decreases |a|
  {
    if a != [] && b != [] && c != [] && a[0] == b[0] && b[0] == c[0] {
      StrLeTransitive(a[1..], b[1..], c[1..]);
    }
  }
}
