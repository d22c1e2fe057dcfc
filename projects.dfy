/**
 * The pure half of the project registry (src-tauri/src/commands/projects.rs):
 * identity keys that survive renames, the directory filter and name sort of
 * `scan_projects`, and the component-wise path prefix test sync uses to
 * decide whether a stored path lies under the scan root.
 *
 * What the filesystem, git2 and the clock would answer is carried by the
 * values passed in: a `DirEntry` records what the walker saw at one path.
 */
module ProjectScan {
  import opened Common
  import opened Text

  // ─── Identity keys ─────────────────────────────────────────────────────

  /** The `origin` URL, trimmed, with every trailing `/` and then every trailing `.git` removed. */
  function NormaliseRemote(url: string): (n: string)
    ensures !EndsWith(n, ".git")
    ensures |n| <= |Trim(url)| && n == Trim(url)[..|n|]
    ensures exists j: nat, k: nat ::
      Trim(url) == n + Repeat(".git", k) + Repeat("/", j) && !EndsWith(n + Repeat(".git", k), "/")
  {
    var t := Trim(url);
    TrimEndTwiceCopies(t, "/", ".git");
    TrimEndMatches(TrimEndMatches(t, "/"), ".git")
  }

  /** `git_remote_identity` once the remote URL has been read. */
  function GitRemoteIdentity(url: string): (key: string)
    ensures StartsWith(key, "git:") && key[4..] == NormaliseRemote(url)
  {
    "git:" + NormaliseRemote(url)
  }

  /**
   * `uuid_stamp_identity`: the trimmed stamp file content when it is non-empty,
   * otherwise the UUID that is written to a new stamp file.
   */
  function StampIdentity(content: Option<string>, freshUuid: string): (key: string)
    ensures StartsWith(key, "stamp:")
    ensures content.Some? && Trim(content.value) != "" ==> key[6..] == Trim(content.value)
    ensures !(content.Some? && Trim(content.value) != "") ==> key[6..] == freshUuid
  {
    if content.Some? && Trim(content.value) != "" then "stamp:" + Trim(content.value)
    else "stamp:" + freshUuid
  }

  /** `compute_identity_key`: the git remote wins; the stamp is the fallback. */
  function ComputeIdentityKey(originUrl: Option<string>, stamp: Option<string>, freshUuid: string): (key: string)
    ensures originUrl.Some? <==> StartsWith(key, "git:")
    ensures originUrl.None? <==> StartsWith(key, "stamp:")
  {
    var key := match originUrl
      case Some(url) => GitRemoteIdentity(url)
      case None => StampIdentity(stamp, freshUuid);
    KeyKindsDisjoint(key);
    key
  }

  /** No key is both a git key and a stamp key. */
  lemma KeyKindsDisjoint(k: string)
    ensures !(StartsWith(k, "git:") && StartsWith(k, "stamp:"))
  {
    if StartsWith(k, "git:") {
      assert k[0] == k[..4][0] == 'g';
    }
  }

  /**
   * A remote URL spelled with or without a trailing `/`, `.git` or `.git/`
   * gives one and the same identity key.
   */
  lemma GitKeySpellings(u: string)
    requires u != [] && !IsWhitespace(u[0]) && !IsWhitespace(u[|u| - 1])
    requires u[|u| - 1] != '/' && !EndsWith(u, ".git")
    ensures NormaliseRemote(u) == u
    ensures NormaliseRemote(u + "/") == u
    ensures NormaliseRemote(u + ".git") == u
    ensures NormaliseRemote(u + ".git/") == u
  {
    assert !EndsWith(u, "/");
    TrimUnchanged(u);
    TrimUnchanged(u + "/");
    TrimEndMatchesAppended(u, "/");
    GitSuffixSpellings(u);
  }

  /** The `.git` and `.git/` spellings of a bare remote URL normalise to it. */
  lemma GitSuffixSpellings(u: string)
    requires u != [] && !IsWhitespace(u[0]) && !IsWhitespace(u[|u| - 1])
    requires !EndsWith(u, "/") && !EndsWith(u, ".git")
    ensures NormaliseRemote(u + ".git") == u
    ensures NormaliseRemote(u + ".git/") == u
  {
    var g := u + ".git";
    assert u + ".git/" == g + "/";
    TrimUnchanged(g);
    TrimUnchanged(g + "/");
    assert !EndsWith(g, "/");
    TrimEndMatchesAppended(g, "/");
    TrimEndMatchesAppended(u, ".git");
  }

  // ─── Paths ─────────────────────────────────────────────────────────────

  /** The normal components of a `/`-separated path: empty and `.` pieces vanish. */
  function NormalPieces(parts: seq<string>): (r: seq<string>)
    ensures forall i | 0 <= i < |r| :: r[i] in parts && r[i] != "" && r[i] != "."
    decreases |parts|
  {
    if parts == [] then []
    else if parts[0] == "" || parts[0] == "." then NormalPieces(parts[1..])
    else [parts[0]] + NormalPieces(parts[1..])
  }

  lemma {:induction false} NormalPiecesAppend(a: seq<string>, b: seq<string>)
    ensures NormalPieces(a + b) == NormalPieces(a) + NormalPieces(b)
    decreases |a|
  {
    if a != [] {
      NormalPiecesAppend(a[1..], b);
      assert (a + b)[1..] == a[1..] + b;
    } else {
      assert a + b == b;
    }
  }

  function Segments(path: string): seq<string> {
    NormalPieces(Split(path, '/'))
  }

  /** One path component: non-empty, not `.`, free of `/`. */
  predicate SimpleName(n: string) {
    n != "" && n != "." && '/' !in n
  }

  lemma SegmentsOfChild(base: string, n: string)
    requires SimpleName(n)
    ensures Segments(base + "/" + n) == Segments(base) + [n]
  {
    SplitAppend(base, '/', n);
    assert Split(n, '/') == [n];
    NormalPiecesAppend(Split(base, '/'), [n]);
    assert NormalPieces([n]) == [n];
  }

  /** `Path::components`, with `"/"` standing for the root directory. */
  function Components(path: string): seq<string> {
    (if StartsWith(path, "/") then ["/"] else []) + Segments(path)
  }

  /** `Path::starts_with`: whole components, not characters, must agree. */
  predicate PathStartsWith(path: string, base: string) {
    Components(base) <= Components(path)
  }

  /** A directory's child lies under it. */
  lemma ChildUnderBase(base: string, n: string)
    requires SimpleName(n)
    ensures PathStartsWith(base + "/" + n, base)
  {
    SegmentsOfChild(base, n);
    if base != [] {
      assert (base + "/" + n)[0] == base[0];
    }
  }

  /** A sibling whose name merely extends the base's name does not lie under it. */
  lemma SiblingNotUnder(parent: string, n: string, m: string)
    requires SimpleName(n) && SimpleName(m) && n != m
    ensures !PathStartsWith(parent + "/" + n, parent + "/" + m)
  {
    SegmentsOfChild(parent, n);
    SegmentsOfChild(parent, m);
    var cn := Components(parent + "/" + n);
    var cm := Components(parent + "/" + m);
    assert StartsWith(parent + "/" + n, "/") == StartsWith(parent + "/" + m, "/") by {
      if parent != [] {
        assert (parent + "/" + n)[0] == parent[0] == (parent + "/" + m)[0];
      }
    }
    assert |cn| == |cm| && cn[|cn| - 1] == n && cm[|cm| - 1] == m;
  }

  /** `Path::file_name` with the `"unknown"` fallback: the last normal component, unless it is `..`. */
  function FileName(path: string): (name: string)
    ensures name == "unknown" || (name in Segments(path) && name != ".." && '/' !in name)
  {
    var segs := Segments(path);
    if segs == [] || segs[|segs| - 1] == ".." then "unknown"
    else
      assert segs[|segs| - 1] in Split(path, '/');
      segs[|segs| - 1]
  }

  lemma FileNameOfChild(base: string, n: string)
    requires SimpleName(n) && n != ".."
    ensures FileName(base + "/" + n) == n
  {
    SegmentsOfChild(base, n);
  }

  // ─── scan_projects ─────────────────────────────────────────────────────

  /** One directory the walker reached, and what the filesystem and git said about it. */
  datatype DirEntry = DirEntry(
    path: string,
    isDir: bool,
    hasPackageJson: bool,
    hasCargoToml: bool,
    hasGit: bool,
    originUrl: Option<string>,
    stampContent: Option<string>,
    freshUuid: string)

  /** A scanned project: the fields of the scan result that the registry consumes. */
  datatype Candidate = Candidate(name: string, path: string, identityKey: Option<string>)

  /** The substring tests of the scan: a path mentioning a dependency, VCS or build tree. */
  predicate ExcludedPath(path: string) {
    Contains(path, "node_modules") || Contains(path, "/.git") || Contains(path, "/target") || Contains(path, "/.cargo")
  }

  /**
   * A path through `node_modules`, `.git`, `target` or `.cargo` is excluded at
   * any depth; since the tests are on substrings, `rest` is arbitrary, so a
   * directory merely named `targets` or `.github` is excluded as well.
   */
  lemma ExcludedInside(base: string, dir: string, rest: string)
    requires dir in ["node_modules", ".git", "target", ".cargo"]
    ensures ExcludedPath(base + "/" + dir + rest)
  {
    var path := base + "/" + dir + rest;
    if dir == "node_modules" {
      assert OccursAt(path, dir, |base| + 1);
      ContainsAt(path, dir);
    } else {
      var pat := "/" + dir;
      assert pat == "/.git" || pat == "/target" || pat == "/.cargo";
      assert OccursAt(path, pat, |base|);
      ContainsAt(path, pat);
    }
  }

  /** A directory with a project marker that is not inside a dependency or build tree. */
  predicate Kept(e: DirEntry) {
    e.isDir && (e.hasPackageJson || e.hasCargoToml || e.hasGit) && !ExcludedPath(e.path)
  }

  function ToCandidate(e: DirEntry): Candidate {
    Candidate(FileName(e.path), e.path, Some(ComputeIdentityKey(e.originUrl, e.stampContent, e.freshUuid)))
  }

  /** The loop over the walker's entries, before sorting. */
  function Collect(entries: seq<DirEntry>): (r: seq<Candidate>)
    ensures |r| <= |entries|
    decreases |entries|
  {
    if entries == [] then []
    else if Kept(entries[0]) then [ToCandidate(entries[0])] + Collect(entries[1..])
    else Collect(entries[1..])
  }

  /** A candidate is collected exactly when some kept entry produces it. */
  lemma {:induction false} CollectExactly(entries: seq<DirEntry>, x: Candidate)
    ensures x in Collect(entries) <==> exists e | e in entries :: Kept(e) && ToCandidate(e) == x
    decreases |entries|
  {
    if entries != [] {
      CollectExactly(entries[1..], x);
      assert forall e | e in entries :: e == entries[0] || e in entries[1..];
    }
  }

  /** Every candidate is a kept entry; excluded trees and marker-less directories never appear. */
  lemma {:induction false} CollectOnlyKept(entries: seq<DirEntry>)
    ensures forall i | 0 <= i < |Collect(entries)| :: !ExcludedPath(Collect(entries)[i].path)
    ensures forall i | 0 <= i < |Collect(entries)| :: Collect(entries)[i].identityKey.Some?
    decreases |entries|
  {
    if entries != [] {
      CollectOnlyKept(entries[1..]);
      var rest := Collect(entries[1..]);
      if Kept(entries[0]) {
        var r := [ToCandidate(entries[0])] + rest;
        assert Collect(entries) == r;
        forall i | 0 <= i < |r| ensures !ExcludedPath(r[i].path) && r[i].identityKey.Some? {
          if i > 0 {
            assert r[i] == rest[i - 1];
          }
        }
      } else {
        assert Collect(entries) == rest;
      }
    }
  }

  predicate SortedByName(s: seq<Candidate>) {
    forall i | 0 < i < |s| :: StrLe(s[i - 1].name, s[i].name)
  }

  /** One insertion step of a stable sort: `c` goes before the first name it does not exceed. */
  function InsertByName(c: Candidate, s: seq<Candidate>): (r: seq<Candidate>)
    requires SortedByName(s)
    ensures SortedByName(r)
    ensures multiset(r) == multiset(s) + multiset{c}
    ensures r[0] == c || (s != [] && r[0] == s[0])
    decreases |s|
  {
    if s == [] then [c]
    else if StrLe(c.name, s[0].name) then [c] + s
    else
      StrLeTotal(c.name, s[0].name);
      var t := InsertByName(c, s[1..]);
      assert s == [s[0]] + s[1..];
      assert multiset([s[0]] + t) == multiset{s[0]} + multiset(t);
      assert StrLe(s[0].name, t[0].name);
      [s[0]] + t
  }

  /** `sort_by(|a, b| a.name.cmp(&b.name))`: sorted by name, same candidates. */
  function SortByName(s: seq<Candidate>): (r: seq<Candidate>)
    ensures SortedByName(r)
    ensures multiset(r) == multiset(s)
    decreases |s|
  {
    if s == [] then []
    else
      assert s == [s[0]] + s[1..];
      InsertByName(s[0], SortByName(s[1..]))
  }

  /**
   * `scan_projects`: an unusable root is an error, a missing root gives no
   * candidates, otherwise the kept entries sorted by name.
   */
  function ScanProjects(base: Result<string, string>, baseExists: bool, entries: seq<DirEntry>): (r: Result<seq<Candidate>, string>)
    ensures base.Err? <==> r.Err?
    ensures base.Ok? && !baseExists ==> r == Ok([])
    ensures base.Ok? && baseExists ==> r.Ok? && SortedByName(r.value) && multiset(r.value) == multiset(Collect(entries))
  {
    if base.Err? then Err(base.error)
    else if !baseExists then Ok([])
    else Ok(SortByName(Collect(entries)))
  }

  /** The scan result holds exactly the candidates of kept entries. */
  lemma ScanFindsKept(base: string, entries: seq<DirEntry>, x: Candidate)
    ensures x in ScanProjects(Ok(base), true, entries).value <==> exists e | e in entries :: Kept(e) && ToCandidate(e) == x
  {
    var r := ScanProjects(Ok(base), true, entries).value;
    CollectExactly(entries, x);
    assert x in r <==> x in multiset(r);
    assert x in Collect(entries) <==> x in multiset(Collect(entries));
  }
}
