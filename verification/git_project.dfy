/**
  The git side of a loaded kluctl project: where a project is exported to
  (`buildCloneDir`), the provenance record of involved repositories
  (`addInvolvedRepo`) and which repositories a cache warm-up refreshes and
  what it reports (`updateGitCaches`).
 */
module GitProject {
  import opened Common
  import opened FilePaths

  /** The parts of a git URL this layer reads. */
  datatype GitUrl = GitUrl(scheme: string, host: string, path: string)

  // ---------------------------------------------------------------------------
  // buildCloneDir

  predicate IsLowerHex(c: char) {
    ('0' <= c <= '9') || ('a' <= c <= 'f')
  }

  /** What `utils.Sha256String` returns: 64 lower-case hex digits. */
  type Digest = s: string | |s| == 64 && forall i :: 0 <= i < |s| ==> IsLowerHex(s[i])
    witness seq(64, i => '0')

  /** Why an export path was refused. */
  datatype CloneDirError = OutsideBaseDir(path: string, baseDir: string)

  /** The directory all exports live under: `<archiveDir or TmpDir>/git`. */
  function CloneBaseDir(tmpDir: string, archiveDir: string): (r: string)
    ensures r != ""
    ensures var dir := if archiveDir != "" then archiveDir else tmpDir;
            CleanPath(r) == Path(CleanPath(dir).rooted, CleanPath(dir).segs + ["git"])
  {
    var dir := if archiveDir != "" then archiveDir else tmpDir;
    JoinName(dir, "git");
    JoinResolves(dir, "git");
    Join(dir, "git")
  }

  /** Every occurrence of `from` in `s` replaced by `to`. */
  function ReplaceAll(s: string, from: char, to: char): (r: string)
    ensures |r| == |s|
    ensures forall i :: 0 <= i < |s| ==> r[i] == (if s[i] == from then to else s[i])
  {
    seq(|s|, i requires 0 <= i < |s| => if s[i] == from then to else s[i])
  }

  /** The revision as a single file name: "HEAD" when unset, separators
      turned into '-'. */
  function RefSegment(ref: string): (r: string)
    ensures '/' !in r && '\\' !in r
    ensures r != ""
    ensures ref == "" ==> r == "HEAD"
    ensures ref != "" ==> |r| == |ref|
    ensures ref != "" ==>
              forall i :: 0 <= i < |ref| ==> r[i] == (if ref[i] == '/' || ref[i] == '\\' then '-' else ref[i])
  {
    var named := if ref == "" then "HEAD" else ref;
    var r := ReplaceAll(ReplaceAll(named, '/', '-'), '\\', '-');
    assert forall i :: 0 <= i < |r| ==> r[i] != '/' && r[i] != '\\';
    r
  }

  /** The first 16 hex digits of `sha256("host:path")`. */
  function HashPrefix(u: GitUrl, sha256: string -> Digest): (h: string)
    ensures |h| == 16 && forall i :: 0 <= i < |h| ==> IsLowerHex(h[i])
    ensures forall i :: 0 <= i < 16 ==> h[i] == sha256(u.host + ":" + u.path)[i]
  {
    sha256(u.host + ":" + u.path)[..16]
  }

  /** `<b>-<h>` for a base name `b` and 16 hex digits `h`: the parts can be
      read back. */
  function HashedName(b: string, h: string): (r: string)
    requires |h| == 16 && forall i :: 0 <= i < |h| ==> IsLowerHex(h[i])
    ensures |r| >= 17 && r[..|r| - 17] == b && r[|r| - 17] == '-'
    ensures r[|r| - 16..] == h
    ensures forall i :: |r| - 16 <= i < |r| ==> IsLowerHex(r[i])
  {
    var r := b + "-" + h;
    assert r[..|r| - 17] == b;
    assert r[|r| - 16..] == h;
    r
  }

  /** `<base name of the URL path>-<first 16 hex digits of sha256("host:path")>`. */
  function RepoDirName(u: GitUrl, sha256: string -> Digest): (r: string)
    ensures |r| >= 17 && r[..|r| - 17] == Base(u.path) && r[|r| - 17] == '-'
    ensures r[|r| - 16..] == HashPrefix(u, sha256)
    ensures forall i :: |r| - 16 <= i < |r| ==> IsLowerHex(r[i])
  {
    HashedName(Base(u.path), HashPrefix(u, sha256))
  }

  /** The repository directory name is a single path element other than "..". */
  lemma RepoDirElement(u: GitUrl, sha256: string -> Digest)
    ensures |Elements(RepoDirName(u, sha256))| == 1
    ensures Elements(RepoDirName(u, sha256))[0] != ".."
  {
    OneElement(RepoDirName(u, sha256), Base(u.path));
  }

  /** A name made of a base name, a '-' and hex digits is one path element,
      and not "..". */
  lemma OneElement(r: string, b: string)
    requires b != "" && (b == "/" || '/' !in b)
    requires |r| >= 17 && r[..|r| - 17] == b && r[|r| - 17] == '-'
    requires forall i :: |r| - 16 <= i < |r| ==> IsLowerHex(r[i])
    ensures |Elements(r)| == 1 && Elements(r)[0] != ".."
  {
    var tail := r[|r| - 17..];
    assert r == b + tail;
    assert forall i :: 0 <= i < |tail| ==> tail[i] == r[|r| - 17 + i];
    assert '/' !in tail by {
      assert forall i :: 0 <= i < |tail| ==> tail[i] == '-' || IsLowerHex(tail[i]);
    }
    assert tail != ".." && tail != "." by { assert tail[0] == '-'; }
    if b == "/" {
      assert r == "/" + tail;
      ElementsLeadingSlash(tail);
      ElementsOfName(tail);
    } else {
      assert r[|b|] == '-';
      assert '/' !in r by {
        assert forall i :: 0 <= i < |r| ==> r[i] == (if i < |b| then b[i] else tail[i - |b|]);
      }
      ElementsOfName(r);
    }
  }

  /** The export directory for `u` at revision `ref`, or an error when it
      would leave the base directory. */
  function BuildCloneDir(tmpDir: string, archiveDir: string, u: GitUrl, ref: string,
                         sha256: string -> Digest): (r: Result<string, CloneDirError>)
    ensures r.Ok?
    ensures |Elements(RepoDirName(u, sha256))| == 1
    ensures r.Ok? ==> InDir(CloneBaseDir(tmpDir, archiveDir), r.value)
    ensures r.Ok? ==>
              var baseDir := CleanPath(CloneBaseDir(tmpDir, archiveDir));
              var repo := Elements(RepoDirName(u, sha256))[0];
              var seg := RefSegment(ref);
              CleanPath(r.value) ==
              Path(baseDir.rooted, baseDir.segs + (if seg == ".." then [] else if seg == "." then [repo] else [repo, seg]))
  {
    var baseDir := CloneBaseDir(tmpDir, archiveDir);
    var cloneDir := Join(baseDir, Join(RepoDirName(u, sha256), RefSegment(ref)));
    CloneDirShape(tmpDir, archiveDir, u, ref, sha256);
    if InDir(baseDir, cloneDir) then Ok(cloneDir) else Err(OutsideBaseDir(cloneDir, baseDir))
  }

  /** The revision path resolved under the repository directory:
      `<repo>/<ref>` in general, `<repo>` for the revision "." and nothing
      for the revision "..". */
  lemma RepoAndRef(name: string, repo: string, seg: string)
    requires Elements(name) == [repo] && repo != ".."
    requires '/' !in seg && seg != ""
    ensures Elements(Join(name, seg)) ==
            (if seg == ".." then [] else if seg == "." then [repo] else [repo, seg])
  {
    assert name != "" by { if name == "" { ElementsNoSlash(name); } }
    assert IsName(repo) by { assert AllNames(Elements(name)) && Elements(name)[0] == repo; }
    var q := CleanPath(Join(name, seg));
    var nm := CleanPath(name);
    JoinResolves(name, seg);
    CleanIdempotent(name + "/" + seg);
    ResolveClean(nm.rooted, [], [repo]);
    assert nm.segs == [repo];
    ElementsNoSlash(seg);
    assert q == Path(nm.rooted, Resolve(nm.rooted, [repo], Keep(seg)));
    if seg == "." {
    } else if seg == ".." {
      assert Resolve(nm.rooted, [repo], [seg]) == Resolve(nm.rooted, [], []);
    } else {
      assert Resolve(nm.rooted, [repo], [seg]) == Resolve(nm.rooted, [repo, seg], []);
    }
    ElementsRender(q);
  }

  /** The three possible shapes of the export path below the base directory:
      `<repo>/<ref>` in general, `<repo>` for the revision ".", and the base
      directory itself for the revision "..". */
  lemma CloneDirShape(tmpDir: string, archiveDir: string, u: GitUrl, ref: string,
                      sha256: string -> Digest)
    ensures |Elements(RepoDirName(u, sha256))| == 1
    ensures
      var baseDir := CloneBaseDir(tmpDir, archiveDir);
      var repo := Elements(RepoDirName(u, sha256))[0];
      var seg := RefSegment(ref);
      var cloneDir := Join(baseDir, Join(RepoDirName(u, sha256), seg));
      && CleanPath(cloneDir) ==
         Path(CleanPath(baseDir).rooted,
              CleanPath(baseDir).segs + (if seg == ".." then [] else if seg == "." then [repo] else [repo, seg]))
      && InDir(baseDir, cloneDir)
  {
    RepoDirElement(u, sha256);
    var name := RepoDirName(u, sha256);
    assert Elements(name) == [Elements(name)[0]];
    ShapeBelow(CloneBaseDir(tmpDir, archiveDir), name, Elements(name)[0], RefSegment(ref));
  }

  /** `<dir>/<name>/<seg>` for a one-element `name` and a separator-free
      `seg`, resolved: below `dir` in all three shapes. */
  lemma ShapeBelow(dir: string, name: string, repo: string, seg: string)
    requires dir != ""
    requires Elements(name) == [repo] && repo != ".."
    requires '/' !in seg && seg != ""
    ensures var path := Join(dir, Join(name, seg));
      && CleanPath(path) ==
         Path(CleanPath(dir).rooted,
              CleanPath(dir).segs + (if seg == ".." then [] else if seg == "." then [repo] else [repo, seg]))
      && InDir(dir, path)
  {
    RepoAndRef(name, repo, seg);
    JoinBelow(dir, Join(name, seg));
  }

  /** Replacing separators by '-' merges revisions: "a/b" and "a-b" share
      one export directory. */
  lemma RefSegmentCollides()
    ensures RefSegment("a/b") == RefSegment("a-b") == "a-b"
  {
  }

  /** The export directory depends on the URL only through its host and path. */
  lemma CloneDirIgnoresScheme(tmpDir: string, archiveDir: string, u: GitUrl, v: GitUrl, ref: string,
                              sha256: string -> Digest)
    requires u.host == v.host && u.path == v.path
    ensures BuildCloneDir(tmpDir, archiveDir, u, ref, sha256) == BuildCloneDir(tmpDir, archiveDir, v, ref, sha256)
  {
  }

  // ---------------------------------------------------------------------------
  // addInvolvedRepo

  /** One provenance record: a ref pattern and the refs it resolved to. */
  datatype InvolvedRepo = InvolvedRepo(refPattern: string, refs: map<string, string>)

  /** Normalized repository key to its provenance records. */
  type InvolvedRepos = map<string, seq<InvolvedRepo>>

  /** Go's `<` on strings: lexicographic by byte, which on UTF-8 text is
      lexicographic by code point, as here. */
  predicate Less(a: string, b: string)
    decreases |a|
  {
    if a == [] then b != []
    else if b == [] then false
    else if a[0] != b[0] then a[0] < b[0]
    else Less(a[1..], b[1..])
  }

  lemma {:induction false} LessIrreflexive(a: string)
    ensures !Less(a, a)
    decreases |a|
  {
    if a != [] {
      LessIrreflexive(a[1..]);
    }
  }

  lemma {:induction false} LessTransitive(a: string, b: string, c: string)
    requires Less(a, b) && Less(b, c)
    ensures Less(a, c)
    decreases |a|
  {
    if a != [] && b != [] && c != [] && a[0] == b[0] == c[0] {
      LessTransitive(a[1..], b[1..], c[1..]);
    }
  }

  lemma {:induction false} LessTotal(a: string, b: string)
    ensures a == b || Less(a, b) || Less(b, a)
    decreases |a|
  {
    if a != [] && b != [] && a[0] == b[0] {
      LessTotal(a[1..], b[1..]);
      if a[1..] == b[1..] {
        assert a == [a[0]] + a[1..] && b == [b[0]] + b[1..];
      }
    }
  }

  /** Ordered by ref pattern, equal patterns in any order. */
  predicate SortedByPattern(s: seq<InvolvedRepo>) {
    forall i, j :: 0 <= i < j < |s| ==> !Less(s[j].refPattern, s[i].refPattern)
  }

  /** The records carrying pattern `p`, in order. */
  function WithPattern(s: seq<InvolvedRepo>, p: string): seq<InvolvedRepo>
    decreases |s|
  {
    if s == [] then []
    else (if s[0].refPattern == p then [s[0]] else []) + WithPattern(s[1..], p)
  }

  lemma {:induction false} WithPatternAppend(a: seq<InvolvedRepo>, b: seq<InvolvedRepo>, p: string)
    ensures WithPattern(a + b, p) == WithPattern(a, p) + WithPattern(b, p)
    decreases |a|
  {
    if a == [] {
      assert a + b == b;
    } else {
      assert (a + b)[0] == a[0];
      assert (a + b)[1..] == a[1..] + b;
      WithPatternAppend(a[1..], b, p);
    }
  }

  /** A sorted list holds no record of a pattern below its head. */
  lemma {:induction false} WithPatternBelowHead(s: seq<InvolvedRepo>, p: string)
    requires SortedByPattern(s) && s != [] && Less(p, s[0].refPattern)
    ensures WithPattern(s, p) == []
    decreases |s|
  {
    if s[0].refPattern == p {
      LessIrreflexive(p);
    }
    if |s| > 1 {
      assert !Less(s[1].refPattern, s[0].refPattern);
      LessTotal(s[0].refPattern, s[1].refPattern);
      if s[0].refPattern != s[1].refPattern {
        LessTransitive(p, s[0].refPattern, s[1].refPattern);
      }
      WithPatternBelowHead(s[1..], p);
    } else {
      assert s[1..] == [];
    }
  }

  /** `e` placed into a sorted list after every record whose pattern is not
      greater than its own. */
  function Insert(s: seq<InvolvedRepo>, e: InvolvedRepo): (r: seq<InvolvedRepo>)
    requires SortedByPattern(s)
    ensures SortedByPattern(r)
    ensures multiset(r) == multiset(s) + multiset{e}
    ensures forall p :: WithPattern(r, p) == WithPattern(s, p) + (if e.refPattern == p then [e] else [])
    decreases |s|
  {
    if s == [] then
      [e]
    else if Less(e.refPattern, s[0].refPattern) then
      InsertFront(s, e);
      [e] + s
    else
      var rest := Insert(s[1..], e);
      InsertBehindHead(s, e, rest);
      [s[0]] + rest
  }

  /** The head of a sorted list stays in front when `e` does not sort
      before it. */
  lemma InsertBehindHead(s: seq<InvolvedRepo>, e: InvolvedRepo, rest: seq<InvolvedRepo>)
    requires SortedByPattern(s) && s != [] && !Less(e.refPattern, s[0].refPattern)
    requires SortedByPattern(rest) && multiset(rest) == multiset(s[1..]) + multiset{e}
    requires forall p :: WithPattern(rest, p) == WithPattern(s[1..], p) + (if e.refPattern == p then [e] else [])
    ensures SortedByPattern([s[0]] + rest)
    ensures multiset([s[0]] + rest) == multiset(s) + multiset{e}
    ensures forall p :: WithPattern([s[0]] + rest, p) == WithPattern(s, p) + (if e.refPattern == p then [e] else [])
  {
    HeadStaysSorted(s, e, rest);
    HeadKeepsCount(s, e, rest);
    forall p
      ensures WithPattern([s[0]] + rest, p) == WithPattern(s, p) + (if e.refPattern == p then [e] else [])
    {
      HeadKeepsPattern(s, e, rest, p);
    }
  }

  lemma HeadKeepsCount(s: seq<InvolvedRepo>, e: InvolvedRepo, rest: seq<InvolvedRepo>)
    requires s != [] && multiset(rest) == multiset(s[1..]) + multiset{e}
    ensures multiset([s[0]] + rest) == multiset(s) + multiset{e}
  {
    assert s == [s[0]] + s[1..];
  }

  lemma HeadKeepsPattern(s: seq<InvolvedRepo>, e: InvolvedRepo, rest: seq<InvolvedRepo>, p: string)
    requires s != []
    requires WithPattern(rest, p) == WithPattern(s[1..], p) + (if e.refPattern == p then [e] else [])
    ensures WithPattern([s[0]] + rest, p) == WithPattern(s, p) + (if e.refPattern == p then [e] else [])
  {
    WithPatternCons(s[0], rest, p);
    WithPatternCons(s[0], s[1..], p);
    assert s == [s[0]] + s[1..];
  }

  lemma WithPatternCons(x: InvolvedRepo, rest: seq<InvolvedRepo>, p: string)
    ensures WithPattern([x] + rest, p) == (if x.refPattern == p then [x] else []) + WithPattern(rest, p)
  {
  }

  lemma HeadStaysSorted(s: seq<InvolvedRepo>, e: InvolvedRepo, rest: seq<InvolvedRepo>)
    requires SortedByPattern(s) && s != [] && !Less(e.refPattern, s[0].refPattern)
    requires SortedByPattern(rest) && multiset(rest) == multiset(s[1..]) + multiset{e}
    ensures SortedByPattern([s[0]] + rest)
  {
    var x := s[0].refPattern;
    var r := [s[0]] + rest;
    forall y | y in rest
      ensures !Less(y.refPattern, x)
    {
      assert y in multiset(rest);
      if y != e {
        assert y in multiset(s[1..]);
        var k :| 0 <= k < |s[1..]| && s[1..][k] == y;
        assert s[k + 1] == y;
      } else {
        LessTotal(e.refPattern, x);
        if Less(y.refPattern, x) {
          LessIrreflexive(x);
        }
      }
    }
    forall i, j | 0 <= i < j < |r|
      ensures !Less(r[j].refPattern, r[i].refPattern)
    {
      if i == 0 {
        assert r[j] == rest[j - 1];
      } else {
        assert r[i] == rest[i - 1] && r[j] == rest[j - 1];
      }
    }
  }

  lemma InsertFront(s: seq<InvolvedRepo>, e: InvolvedRepo)
    requires SortedByPattern(s) && s != [] && Less(e.refPattern, s[0].refPattern)
    ensures SortedByPattern([e] + s)
    ensures forall p :: WithPattern([e] + s, p) == WithPattern(s, p) + (if e.refPattern == p then [e] else [])
  {
    var r := [e] + s;
    assert r[1..] == s;
    forall i, j | 0 <= i < j < |r|
      ensures !Less(r[j].refPattern, r[i].refPattern)
    {
      if i == 0 {
        var y := r[j].refPattern;
        assert r[j] == s[j - 1];
        if Less(y, e.refPattern) {
          LessTransitive(y, e.refPattern, s[0].refPattern);
          LessIrreflexive(y);
        }
      } else {
        assert r[i] == s[i - 1];
      }
    }
    forall p
      ensures WithPattern(r, p) == WithPattern(s, p) + (if e.refPattern == p then [e] else [])
    {
      if e.refPattern == p {
        WithPatternBelowHead(s, p);
      }
    }
  }

  /** Go's `sort.SliceStable` by ref pattern, as an insertion sort: sorted,
      the same records, and records of equal pattern in their input order. */
  function SortStable(s: seq<InvolvedRepo>): (r: seq<InvolvedRepo>)
    ensures SortedByPattern(r)
    ensures multiset(r) == multiset(s)
    ensures forall p :: WithPattern(r, p) == WithPattern(s, p)
    decreases |s|
  {
    if s == [] then []
    else
      var init := s[..|s| - 1];
      var last := s[|s| - 1];
      assert s == init + [last];
      var r := Insert(SortStable(init), last);
      forall p
        ensures WithPattern(r, p) == WithPattern(s, p)
      {
        WithPatternAppend(init, [last], p);
      }
      r
  }

  /** Each record occurs exactly once. */
  predicate Distinct(s: seq<InvolvedRepo>) {
    forall x :: x in s ==> multiset(s)[x] == 1
  }

  /** Records `(refPattern, refs)` for the repository `u` unless an equal
      record is already there; the list is re-sorted after an addition. */
  function AddInvolvedRepo(repos: InvolvedRepos, u: GitUrl, normalize: GitUrl -> string,
                           refPattern: string, refs: map<string, string>): (r: InvolvedRepos)
    ensures normalize(u) in r
    ensures InvolvedRepo(refPattern, refs) in r[normalize(u)]
    ensures r - {normalize(u)} == repos - {normalize(u)}
    ensures var prev := if normalize(u) in repos then repos[normalize(u)] else [];
            var e := InvolvedRepo(refPattern, refs);
            && (e in prev ==> r == repos)
            && (e !in prev ==> multiset(r[normalize(u)]) == multiset(prev) + multiset{e})
            && (e !in prev ==> SortedByPattern(r[normalize(u)]))
            && (e !in prev ==> forall p :: WithPattern(r[normalize(u)], p) ==
                                           WithPattern(prev, p) + (if refPattern == p then [e] else []))
            && (Distinct(prev) ==> Distinct(r[normalize(u)]))
  {
    var key := normalize(u);
    var e := InvolvedRepo(refPattern, refs);
    var irs := if key in repos then repos[key] else [];
    if e in irs then
      repos
    else
      var sorted := SortStable(irs + [e]);
      SortedAppend(irs, e);
      assert e in multiset(sorted);
      repos[key := sorted]
  }

  /** Recording the same provenance twice is the same as recording it once. */
  lemma AddInvolvedRepoIdempotent(repos: InvolvedRepos, u: GitUrl, normalize: GitUrl -> string,
                                  refPattern: string, refs: map<string, string>)
    ensures var once := AddInvolvedRepo(repos, u, normalize, refPattern, refs);
            AddInvolvedRepo(once, u, normalize, refPattern, refs) == once
  {
  }

  /** `addInvolvedRepo` exactly as written: the duplicate check compares a
      stored record with a pointer to the new one, which reflection never
      finds deeply equal, so the record is always appended (and the list
      re-sorted). */
  function AddInvolvedRepoAsWritten(repos: InvolvedRepos, u: GitUrl, normalize: GitUrl -> string,
                                    refPattern: string, refs: map<string, string>): (r: InvolvedRepos)
    ensures normalize(u) in r
    ensures r - {normalize(u)} == repos - {normalize(u)}
    ensures var prev := if normalize(u) in repos then repos[normalize(u)] else [];
            var e := InvolvedRepo(refPattern, refs);
            && multiset(r[normalize(u)]) == multiset(prev) + multiset{e}
            && SortedByPattern(r[normalize(u)])
            && forall p :: WithPattern(r[normalize(u)], p) ==
                           WithPattern(prev, p) + (if refPattern == p then [e] else [])
  {
    var key := normalize(u);
    var e := InvolvedRepo(refPattern, refs);
    var irs := if key in repos then repos[key] else [];
    var sorted := SortStable(irs + [e]);
    SortedAppend(irs, e);
    assert multiset(sorted) == multiset(irs) + multiset{e};
    var r := repos[key := sorted];
    assert r[key] == sorted;
    r
  }

  /** Sorting the list with one record appended keeps every pattern's
      records in their order, the new one last among its pattern. */
  lemma SortedAppend(irs: seq<InvolvedRepo>, e: InvolvedRepo)
    ensures forall p :: WithPattern(SortStable(irs + [e]), p) ==
                        WithPattern(irs, p) + (if e.refPattern == p then [e] else [])
  {
  }

  /** Recording the same provenance twice with the code as written leaves
      two equal records in the list, which the corrected
      `AddInvolvedRepo` never does. */
  lemma AsWrittenRecordsDuplicates(repos: InvolvedRepos, u: GitUrl, normalize: GitUrl -> string,
                                   refPattern: string, refs: map<string, string>)
    ensures var twice := AddInvolvedRepoAsWritten(AddInvolvedRepoAsWritten(repos, u, normalize, refPattern, refs),
                                                  u, normalize, refPattern, refs);
            && multiset(twice[normalize(u)])[InvolvedRepo(refPattern, refs)] >= 2
            && !Distinct(twice[normalize(u)])
  {
  }

  // ---------------------------------------------------------------------------
  // updateGitCaches

  /** A git project reference of the configuration. */
  datatype GitProjectRef = GitProjectRef(url: GitUrl, ref: Option<string>)

  /** An optional project slot (deployment, sealed secrets, a cluster project). */
  datatype ExternalProject = ExternalProject(project: Option<GitProjectRef>)

  datatype TargetConfig = TargetConfig(project: Option<GitProjectRef>)

  datatype Target = Target(name: string, targetConfig: Option<TargetConfig>)

  /** The parts of the project configuration that name git projects. */
  datatype ProjectConfig = ProjectConfig(
    deployment: Option<ExternalProject>,
    sealedSecrets: Option<ExternalProject>,
    clusterProjects: seq<ExternalProject>,
    targets: seq<Target>)

  /** The wrapped error a failed refresh reports. */
  datatype GitCacheError = UpdateFailed(url: GitUrl, cause: string)

  /** Which URLs were refreshed, in launch order, and the reported error. */
  datatype CacheUpdate = CacheUpdate(refreshed: seq<GitUrl>, error: Option<GitCacheError>)

  /** The URL an external project slot refreshes, if any. */
  function SlotUrl(p: Option<ExternalProject>): (r: seq<GitUrl>)
    ensures |r| <= 1
    ensures r != [] <==> p.Some? && p.value.project.Some?
    ensures r != [] ==> r[0] == p.value.project.value.url
  {
    if p.Some? && p.value.project.Some? then [p.value.project.value.url] else []
  }

  function ClusterUrls(ps: seq<ExternalProject>): (r: seq<GitUrl>)
    ensures |r| <= |ps|
    ensures forall u :: u in r <==>
              exists i :: 0 <= i < |ps| && ps[i].project.Some? && ps[i].project.value.url == u
    decreases |ps|
  {
    if ps == [] then []
    else
      var rest := ClusterUrls(ps[1..]);
      assert forall i :: 0 < i < |ps| ==> ps[i] == ps[1..][i - 1];
      SlotUrl(Some(ps[0])) + rest
  }

  /** Targets without a config or without a project are skipped. */
  function TargetUrls(ts: seq<Target>): (r: seq<GitUrl>)
    ensures |r| <= |ts|
    ensures forall u :: u in r <==>
              exists i :: 0 <= i < |ts| && TargetProject(ts[i]).Some? && TargetProject(ts[i]).value.url == u
    decreases |ts|
  {
    if ts == [] then []
    else
      var rest := TargetUrls(ts[1..]);
      assert forall i :: 0 < i < |ts| ==> ts[i] == ts[1..][i - 1];
      (if TargetProject(ts[0]).Some? then [TargetProject(ts[0]).value.url] else []) + rest
  }

  function TargetProject(t: Target): Option<GitProjectRef> {
    if t.targetConfig.Some? then t.targetConfig.value.project else None
  }

  /** One refresh per configured project, duplicates included: deployment,
      sealed secrets, cluster projects, then targets. */
  function RefreshUrls(c: ProjectConfig): seq<GitUrl> {
    SlotUrl(c.deployment) + SlotUrl(c.sealedSecrets) + ClusterUrls(c.clusterProjects) + TargetUrls(c.targets)
  }

  /** The first failing refresh in `urls`, wrapped. */
  function FirstError(urls: seq<GitUrl>, refresh: GitUrl -> Option<string>): (r: Option<GitCacheError>)
    ensures r.None? <==> forall i :: 0 <= i < |urls| ==> refresh(urls[i]).None?
    ensures r.Some? ==> r.value.url in urls && refresh(r.value.url) == Some(r.value.cause)
    decreases |urls|
  {
    if urls == [] then None
    else if refresh(urls[0]).Some? then Some(UpdateFailed(urls[0], refresh(urls[0]).value))
    else
      assert forall i :: 0 < i < |urls| ==> urls[i] == urls[1..][i - 1];
      FirstError(urls[1..], refresh)
  }

  /** Refreshes every configured project's mirror (`refresh` stands for the
      mirror cache: `Some(cause)` when the refresh failed) and reports one of
      the failures, or none when all succeeded. */
  function UpdateGitCaches(c: ProjectConfig, refresh: GitUrl -> Option<string>): (r: CacheUpdate)
    ensures forall u :: u in r.refreshed <==> IsConfiguredUrl(c, u)
    ensures r.error.None? <==> forall u :: u in r.refreshed ==> refresh(u).None?
    ensures r.error.Some? ==>
              r.error.value.url in r.refreshed && refresh(r.error.value.url) == Some(r.error.value.cause)
  {
    var urls := RefreshUrls(c);
    CacheUpdate(urls, FirstError(urls, refresh))
  }

  /** `u` is the URL of a set project slot or of a target's project. */
  ghost predicate IsConfiguredUrl(c: ProjectConfig, u: GitUrl) {
    || (c.deployment.Some? && c.deployment.value.project.Some? && c.deployment.value.project.value.url == u)
    || (c.sealedSecrets.Some? && c.sealedSecrets.value.project.Some? && c.sealedSecrets.value.project.value.url == u)
    || (exists i :: 0 <= i < |c.clusterProjects| && c.clusterProjects[i].project.Some? &&
                    c.clusterProjects[i].project.value.url == u)
    || (exists i :: 0 <= i < |c.targets| && TargetProject(c.targets[i]).Some? &&
                    TargetProject(c.targets[i]).value.url == u)
  }

  /** URLs are not deduplicated: a repository used by two slots is refreshed twice. */
  lemma RefreshNotDeduplicated(u: GitUrl, refresh: GitUrl -> Option<string>)
    ensures
      var p := Some(ExternalProject(Some(GitProjectRef(u, None))));
      UpdateGitCaches(ProjectConfig(p, p, [], []), refresh).refreshed == [u, u]
  {
  }
}
