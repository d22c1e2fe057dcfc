/**
 * The GitHub side of the board (src-tauri/src/commands/github.rs): the
 * three URL parsers and the database steps of the commands that link board
 * tasks to issues, over the `task_github_links` table keyed by (task id, team id).
 * Running `gh` and opening a browser are outside the model; whether
 * `gh issue close` succeeded is an input.
 */
module Github {
  import opened Common
  import opened Models
  import opened Store
  import opened Text

  const HttpsPrefix: string := "https://github.com/"
  const SshPrefix: string := "git@github.com:"

  // ─── parse_github_repo ─────────────────────────────────────────────────

  /** The remote path with every trailing `/`, then every trailing `.git`, removed. */
  function StripRepoSuffix(path: string): (repo: string)
    ensures !EndsWith(repo, ".git")
    ensures |repo| <= |path| && repo == path[..|repo|]
    ensures exists j: nat, k: nat ::
      path == repo + Repeat(".git", k) + Repeat("/", j) && !EndsWith(repo + Repeat(".git", k), "/")
  {
    TrimEndTwiceCopies(path, "/", ".git");
    TrimEndMatches(TrimEndMatches(path, "/"), ".git")
  }

  /** `str::strip_prefix`. */
  function StripPrefix(s: string, p: string): (r: Option<string>)
    ensures r.Some? <==> StartsWith(s, p)
    ensures r.Some? ==> s == p + r.value
  {
    if StartsWith(s, p) then Some(s[|p|..]) else None
  }

  /** `owner/repo` shape as `splitn(2, '/')` checks it: two non-empty sides of the first `/`. */
  predicate OwnerRepoShape(repo: string) {
    match IndexOf(repo, '/')
    case None => false
    case Some(i) => 0 < i && i + 1 < |repo|
  }

  /**
   * `parse_github_repo`: `owner/repo` from an HTTPS or SSH GitHub remote.
   * Only the first `/` is checked, so `a/b/c` is accepted as it stands.
   */
  function ParseGithubRepo(url: string): (r: Option<string>)
    ensures r.Some? ==> StartsWith(Trim(url), HttpsPrefix) || StartsWith(Trim(url), SshPrefix)
    ensures r.Some? ==> OwnerRepoShape(r.value) && !EndsWith(r.value, ".git")
  {
    var t := Trim(url);
    var path := StripPrefix(t, HttpsPrefix).Or(StripPrefix(t, SshPrefix));
    if path.None? then None
    else
      var repo := StripRepoSuffix(path.value);
      if OwnerRepoShape(repo) then Some(repo) else None
  }

  /** A URL that trims to neither GitHub prefix is rejected. */
  lemma ParseGithubRepoForeign(url: string)
    requires !StartsWith(Trim(url), HttpsPrefix) && !StartsWith(Trim(url), SshPrefix)
    ensures ParseGithubRepo(url) == None
  {
  }

  /** The path after the prefix is stripped of `/` and `.git` endings exactly as spelled. */
  lemma StripRepoSuffixSpellings(repo: string, suffix: string)
    requires repo != [] && repo[|repo| - 1] != '/' && !EndsWith(repo, ".git")
    requires suffix in {"", "/", ".git", ".git/"}
    ensures StripRepoSuffix(repo + suffix) == repo
  {
    var g := repo + ".git";
    assert !EndsWith(repo, "/");
    assert TrimEndMatches(repo, "/") == repo;
    assert TrimEndMatches(repo, ".git") == repo;
    if suffix == "/" {
      TrimEndMatchesAppended(repo, "/");
    } else if suffix == ".git" {
      assert !EndsWith(g, "/");
      assert TrimEndMatches(g, "/") == g;
      TrimEndMatchesAppended(repo, ".git");
    } else if suffix == ".git/" {
      assert repo + suffix == g + "/";
      TrimEndMatchesAppended(g, "/");
      assert !EndsWith(g, "/");
      assert TrimEndMatches(g, "/") == g;
      TrimEndMatchesAppended(repo, ".git");
    } else {
      assert repo + suffix == repo;
    }
  }

  /** Whitespace is trimmed only at the far ends, so a URL ending in a non-blank character is left alone. */
  lemma TrimGithubUrl(prefix: string, body: string)
    requires prefix == HttpsPrefix || prefix == SshPrefix
    requires body != [] && !IsWhitespace(body[|body| - 1])
    ensures Trim(prefix + body) == prefix + body
  {
    TrimEndAfter(prefix, body);
    assert TrimEnd(body) == body;
  }

  /** Either GitHub prefix is recognised and removed. */
  lemma StripGithubPrefix(prefix: string, body: string)
    requires prefix == HttpsPrefix || prefix == SshPrefix
    ensures StripPrefix(prefix + body, HttpsPrefix).Or(StripPrefix(prefix + body, SshPrefix)) == Some(body)
  {
    assert (prefix + body)[..|prefix|] == prefix;
    if prefix == SshPrefix {
      assert (prefix + body)[0] == 'g';
      assert !StartsWith(prefix + body, HttpsPrefix);
    }
  }

  /** `owner/name` ends as `name` does. */
  lemma OwnerRepoNotGit(owner: string, name: string)
    requires name != [] && name[|name| - 1] != '/' && !EndsWith(name, ".git")
    ensures (owner + "/" + name)[|owner + "/" + name| - 1] != '/'
    ensures !EndsWith(owner + "/" + name, ".git")
  {
    var repo := owner + "/" + name;
    assert repo[|repo| - 1] == name[|name| - 1];
    if |name| >= 4 {
      assert repo[|repo| - 4..] == name[|name| - 4..];
    } else if |repo| >= 4 {
      assert repo[|repo| - 4..][3 - |name|] == '/';
    }
  }

  /**
   * HTTPS and SSH spellings of one repository, with or without a trailing
   * `/`, `.git` or `.git/`, all give the same `owner/repo`.
   */
  lemma GithubRepoSpellings(prefix: string, owner: string, name: string, suffix: string)
    requires prefix == HttpsPrefix || prefix == SshPrefix
    requires owner != [] && '/' !in owner
    requires name != [] && name[|name| - 1] != '/' && !IsWhitespace(name[|name| - 1]) && !EndsWith(name, ".git")
    requires suffix in {"", "/", ".git", ".git/"}
    ensures ParseGithubRepo(prefix + owner + "/" + name + suffix) == Some(owner + "/" + name)
  {
    var repo := owner + "/" + name;
    var body := repo + suffix;
    var url := prefix + owner + "/" + name + suffix;
    assert url == prefix + body;
    assert Trim(url) == url by {
      assert body[|body| - 1] == if suffix == "" then name[|name| - 1] else suffix[|suffix| - 1];
      TrimGithubUrl(prefix, body);
    }
    assert StripPrefix(url, HttpsPrefix).Or(StripPrefix(url, SshPrefix)) == Some(body) by {
      StripGithubPrefix(prefix, body);
    }
    assert StripRepoSuffix(body) == repo by {
      OwnerRepoNotGit(owner, name);
      StripRepoSuffixSpellings(repo, suffix);
    }
    assert OwnerRepoShape(repo) by {
      IndexOfSplit(owner, '/', name);
    }
  }

  // ─── parse_issue_number ────────────────────────────────────────────────

  const I64Min: int := -0x8000_0000_0000_0000
  const I64Max: int := 0x7FFF_FFFF_FFFF_FFFF

  predicate IsDigit(c: char) {
    '0' <= c <= '9'
  }

  predicate AllDigits(s: string) {
    forall i | 0 <= i < |s| :: IsDigit(s[i])
  }

  /** The value of a run of decimal digits, most significant first. */
  function DigitsValue(s: string): nat
    requires AllDigits(s)
  {
    if s == [] then 0 else DigitsValue(s[..|s| - 1]) * 10 + (s[|s| - 1] - '0') as int
  }

  /** `<i64 as FromStr>::from_str`: an optional sign, at least one digit, and a value in range. */
  function ParseI64(s: string): (r: Option<int>)
    ensures r.Some? ==> I64Min <= r.value <= I64Max
  {
    var negative := |s| > 0 && s[0] == '-';
    var digits := if |s| > 0 && (s[0] == '-' || s[0] == '+') then s[1..] else s;
    if digits == [] || !AllDigits(digits) then None
    else
      var magnitude: int := DigitsValue(digits);
      var v := if negative then -magnitude else magnitude;
      if I64Min <= v <= I64Max then Some(v) else None
  }

  /** `rsplit('/').next()`: the text after the last `/`, or all of it. */
  function LastSegment(url: string): (seg: string)
    ensures '/' !in seg
    ensures EndsWith(url, seg)
  {
    match LastIndexOf(url, '/')
    case None => url
    case Some(i) =>
      assert url[|url| - |url[i + 1..]|..] == url[i + 1..];
      url[i + 1..]
  }

  /** `parse_issue_number`. */
  function ParseIssueNumber(url: string): (r: Option<int>)
    ensures r.Some? ==> I64Min <= r.value <= I64Max
  {
    ParseI64(LastSegment(url))
  }

  /** Decimal digits of a natural number, without leading zeros. */
  function Digits(n: nat): (s: string)
    ensures s != [] && AllDigits(s)
  {
    if n < 10 then ['0' + n as char] else Digits(n / 10) + ['0' + (n % 10) as char]
  }

  /** `i64::to_string`. */
  function Decimal(n: int): (s: string)
    ensures '/' !in s
  {
    var d := if n < 0 then Digits(-n) else Digits(n);
    assert forall i | 0 <= i < |d| :: d[i] != '/';
    if n < 0 then "-" + d else d
  }

  lemma {:induction false} DigitsValueOf(n: nat)
    ensures DigitsValue(Digits(n)) == n
  {
    if n >= 10 {
      DigitsValueOf(n / 10);
      var d := Digits(n);
      assert d[..|d| - 1] == Digits(n / 10);
    }
  }

  /** Parsing a printed 64-bit number gives it back. */
  lemma ParseDecimal(n: int)
    requires I64Min <= n <= I64Max
    ensures ParseI64(Decimal(n)) == Some(n)
  {
    if n < 0 {
      DigitsValueOf(-n);
      assert Decimal(n)[1..] == Digits(-n);
    } else {
      DigitsValueOf(n);
    }
  }

  /** The text after the last `/` is whatever follows a final `/`. */
  lemma LastSegmentAfterSlash(u: string, seg: string)
    requires '/' !in seg
    ensures LastSegment(u + "/" + seg) == seg
  {
    var s := u + "/" + seg;
    assert s[|u|] == '/';
    assert s[|u| + 1..] == seg;
  }

  /** An issue URL ending in `/<number>` gives back that number. */
  lemma IssueNumberOfUrl(u: string, n: int)
    requires I64Min <= n <= I64Max
    ensures ParseIssueNumber(u + "/" + Decimal(n)) == Some(n)
  {
    LastSegmentAfterSlash(u, Decimal(n));
    ParseDecimal(n);
  }

  // ─── parse_repo_from_url ───────────────────────────────────────────────

  /**
   * `parse_repo_from_url`: the first two `/`-separated pieces after the
   * HTTPS prefix, joined by `/`; None when the prefix is missing or there is
   * no `/` after it. Pieces may be empty.
   */
  function ParseRepoFromUrl(url: string): (r: Option<string>)
    ensures r.Some? <==> StartsWith(url, HttpsPrefix) && '/' in url[|HttpsPrefix|..]
  {
    match StripPrefix(url, HttpsPrefix)
    case None => None
    case Some(path) =>
      match IndexOf(path, '/')
      case None => None
      case Some(i) =>
        var rest := path[i + 1..];
        var second := match IndexOf(rest, '/') case None => rest case Some(j) => rest[..j];
        Some(path[..i] + "/" + second)
  }

  /** `https://github.com/<owner>/<repo>/<anything>` gives `owner/repo`. */
  lemma RepoFromIssueUrl(owner: string, repo: string, tail: string)
    requires '/' !in owner && '/' !in repo
    ensures ParseRepoFromUrl(HttpsPrefix + owner + "/" + repo + "/" + tail) == Some(owner + "/" + repo)
  {
    var path := owner + "/" + repo + "/" + tail;
    var url := HttpsPrefix + owner + "/" + repo + "/" + tail;
    assert url == HttpsPrefix + path;
    assert url[..|HttpsPrefix|] == HttpsPrefix;
    assert url[|HttpsPrefix|..] == path;
    assert path == owner + "/" + (repo + "/" + tail);
    IndexOfSplit(owner, '/', repo + "/" + tail);
    assert path[..|owner|] == owner;
    assert path[|owner| + 1..] == repo + "/" + tail;
    IndexOfSplit(repo, '/', tail);
    assert (repo + "/" + tail)[..|repo|] == repo;
  }

  /** The bare repository URL `https://github.com/<owner>/<repo>` gives `owner/repo`. */
  lemma RepoFromRepoUrl(owner: string, repo: string)
    requires '/' !in owner && '/' !in repo
    ensures ParseRepoFromUrl(HttpsPrefix + owner + "/" + repo) == Some(owner + "/" + repo)
  {
    var path := owner + "/" + repo;
    var url := HttpsPrefix + owner + "/" + repo;
    assert url == HttpsPrefix + path;
    assert url[..|HttpsPrefix|] == HttpsPrefix;
    assert url[|HttpsPrefix|..] == path;
    IndexOfSplit(owner, '/', repo);
    assert path[..|owner|] == owner;
    assert path[|owner| + 1..] == repo;
    assert IndexOf(repo, '/') == None;
  }

  /** A GitHub issue URL yields both its repository and its number. */
  lemma IssueUrlParts(owner: string, repo: string, n: int)
    requires '/' !in owner && '/' !in repo
    requires I64Min <= n <= I64Max
    ensures ParseRepoFromUrl(IssueUrl(owner, repo, n)) == Some(owner + "/" + repo)
    ensures ParseIssueNumber(IssueUrl(owner, repo, n)) == Some(n)
  {
    IssueUrlRepo(owner, repo, Decimal(n));
    IssueUrlNumber(HttpsPrefix + owner + "/" + repo, n);
  }

  /** The issue URL is the repository URL followed by `/issues/<n>`. */
  lemma IssueUrlRepo(owner: string, repo: string, d: string)
    requires '/' !in owner && '/' !in repo
    ensures ParseRepoFromUrl(HttpsPrefix + owner + "/" + repo + "/issues/" + d) == Some(owner + "/" + repo)
  {
    var head := HttpsPrefix + owner + "/" + repo;
    assert head + "/issues/" + d == head + "/" + ("issues/" + d);
    RepoFromIssueUrl(owner, repo, "issues/" + d);
  }

  /** The issue number is the last segment of the issue URL. */
  lemma IssueUrlNumber(head: string, n: int)
    requires I64Min <= n <= I64Max
    ensures ParseIssueNumber(head + "/issues/" + Decimal(n)) == Some(n)
  {
    assert head + "/issues/" + Decimal(n) == (head + "/issues") + "/" + Decimal(n);
    IssueNumberOfUrl(head + "/issues", n);
  }

  /** The URL `gh issue create` reports for issue `n` of `owner/repo`. */
  function IssueUrl(owner: string, repo: string, n: int): string {
    HttpsPrefix + owner + "/" + repo + "/issues/" + Decimal(n)
  }

  // ─── link commands ─────────────────────────────────────────────────────

  datatype GithubError = GhFailed | Database(cause: DbError)

  /**
   * `upsert_task_github_link`: the caller's number and repo win over those
   * read from the URL. An existing link keeps its created_at and cached
   * state, yet the value returned always reports `now` and no state.
   */
  method UpsertTaskGithubLink(db: Database, link: UpsertTaskGithubLinkInput, now: string)
    returns (r: TaskGithubLink)
    requires db.Valid()
    modifies db
    ensures db.Valid()
    ensures r.issueNumber == (if link.issueNumber.Some? then link.issueNumber else ParseIssueNumber(link.issueUrl))
    ensures r.repo == (if link.repo.Some? then link.repo else ParseRepoFromUrl(link.issueUrl))
    ensures r == TaskGithubLink(link.taskId, link.teamId, link.issueUrl, r.issueNumber, r.repo, now, None, None)
    ensures (link.taskId, link.teamId) in old(db.links) ==>
      db.links == old(db.links)[(link.taskId, link.teamId) :=
        old(db.links)[(link.taskId, link.teamId)].(issueUrl := link.issueUrl, issueNumber := r.issueNumber, repo := r.repo)]
    ensures (link.taskId, link.teamId) !in old(db.links) ==> db.links == old(db.links)[(link.taskId, link.teamId) := r]
    ensures db.projects == old(db.projects) && db.planning == old(db.planning)
  {
    var number := link.issueNumber.Or(ParseIssueNumber(link.issueUrl));
    var repo := link.repo.Or(ParseRepoFromUrl(link.issueUrl));
    db.UpsertLinkRow((link.taskId, link.teamId), link.issueUrl, number, repo, now);
    r := TaskGithubLink(link.taskId, link.teamId, link.issueUrl, number, repo, now, None, None);
  }

  /**
   * `close_github_issue` once `gh issue close` has run: on failure nothing
   * changes; on success the link's cached state becomes closed and the row is
   * read back, which fails with no rows when the link does not exist.
   */
  method CloseGithubIssue(db: Database, taskId: string, teamId: string, ghSucceeded: bool, now: string)
    returns (r: Result<TaskGithubLink, GithubError>)
    requires db.Valid()
    modifies db
    ensures db.Valid()
    ensures !ghSucceeded ==> r == Err(GhFailed) && db.links == old(db.links)
    ensures ghSucceeded && (taskId, teamId) !in old(db.links) ==> r == Err(Database(NoRows)) && db.links == old(db.links)
    ensures ghSucceeded && (taskId, teamId) in old(db.links) ==>
      r == Ok(old(db.links)[(taskId, teamId)].(issueState := Some("closed"), stateUpdatedAt := Some(now))) &&
      db.links == old(db.links)[(taskId, teamId) := r.value]
    ensures db.projects == old(db.projects) && db.planning == old(db.planning)
  {
    if !ghSucceeded {
      return Err(GhFailed);
    }
    db.SetLinkClosed((taskId, teamId), now);
    if (taskId, teamId) in db.links {
      r := Ok(db.links[(taskId, teamId)]);
    } else {
      r := Err(Database(NoRows));
    }
  }

  /** `delete_task_github_link`: removes that one link. */
  method DeleteTaskGithubLink(db: Database, taskId: string, teamId: string)
    requires db.Valid()
    modifies db
    ensures db.Valid()
    ensures db.links == old(db.links) - {(taskId, teamId)}
    ensures db.projects == old(db.projects) && db.planning == old(db.planning)
  {
    db.DeleteLinkRow((taskId, teamId));
  }
}
