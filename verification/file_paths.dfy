/**
  Lexical path handling as Go's `path/filepath` does it on a Unix system
  (where it coincides with package `path`): `Clean`, two-element `Join` and
  `Base`, plus the containment test used to keep computed paths inside a base
  directory.

  A cleaned path is kept as a `Path`: whether it is rooted, and its elements.
 */
module FilePaths {

  datatype Path = Path(rooted: bool, segs: seq<string>)

  /** An element that can survive cleaning: non-empty, not ".", no separator. */
  predicate IsName(s: string) {
    s != "" && s != "." && '/' !in s
  }

  predicate AllNames(segs: seq<string>) {
    forall i :: 0 <= i < |segs| ==> IsName(segs[i])
  }

  /** The shape `Clean` produces: names only; ".." never under a root and,
      in a relative path, only as a leading run. */
  predicate CleanSegs(rooted: bool, segs: seq<string>) {
    && AllNames(segs)
    && (rooted ==> forall i :: 0 <= i < |segs| ==> segs[i] != "..")
    && (forall i, j :: 0 <= i < j < |segs| && segs[j] == ".." ==> segs[i] == "..")
  }

  // ---------------------------------------------------------------------------
  // Splitting a string into elements

  /** Empty and "." elements vanish when a path is cleaned. */
  function Keep(seg: string): seq<string> {
    if seg == "" || seg == "." then [] else [seg]
  }

  /** The elements of `s` that cleaning keeps or resolves, in order. */
  function Elements(s: string): (r: seq<string>)
    ensures AllNames(r)
  {
    Split(s, "")
  }

  /** Splits `s` at each '/', `cur` being the part of the current element
      already read. */
  function Split(s: string, cur: string): (r: seq<string>)
    requires '/' !in cur
    ensures AllNames(r)
    decreases |s|
  {
    if s == [] then Keep(cur)
    else if s[0] == '/' then Keep(cur) + Split(s[1..], "")
    else Split(s[1..], cur + [s[0]])
  }

  // ---------------------------------------------------------------------------
  // Resolving ".." against the elements seen so far

  /** One element onto the stack of already cleaned elements. */
  function Push(rooted: bool, stack: seq<string>, seg: string): seq<string> {
    if seg != ".." then stack + [seg]
    else if |stack| > 0 && stack[|stack| - 1] != ".." then stack[..|stack| - 1]
    else if rooted then stack
    else stack + [".."]
  }

  function Resolve(rooted: bool, stack: seq<string>, segs: seq<string>): seq<string>
    decreases |segs|
  {
    if segs == [] then stack else Resolve(rooted, Push(rooted, stack, segs[0]), segs[1..])
  }

  /** The cleaned form of `s`, as a `Path`. */
  function CleanPath(s: string): (p: Path)
    ensures p.rooted <==> |s| > 0 && s[0] == '/'
    ensures CleanSegs(p.rooted, p.segs)
  {
    var rooted := |s| > 0 && s[0] == '/';
    ResolveKeepsClean(rooted, [], Elements(s));
    Path(rooted, Resolve(rooted, [], Elements(s)))
  }

  /** Elements separated by single slashes. */
  function Intercalate(segs: seq<string>): string
    decreases |segs|
  {
    if |segs| == 0 then ""
    else if |segs| == 1 then segs[0]
    else segs[0] + "/" + Intercalate(segs[1..])
  }

  /** The string form of a cleaned path; the empty relative path is ".". */
  function Render(p: Path): string {
    if p.rooted then "/" + Intercalate(p.segs)
    else if p.segs == [] then "."
    else Intercalate(p.segs)
  }

  /** Go's `Clean`. */
  function Clean(s: string): string {
    Render(CleanPath(s))
  }

  /** Go's two-element `Join`: leading empty elements are skipped, all empty
      gives "", otherwise the elements are joined with '/' and cleaned. */
  function Join(a: string, b: string): string {
    if a != "" then Clean(a + "/" + b)
    else if b != "" then Clean(b)
    else ""
  }

  /** Go's `Base`: the last element after trailing separators are removed;
      "." for the empty path and "/" for a path of separators only. */
  function Base(path: string): (r: string)
    ensures r != "" && (r == "/" || '/' !in r)
    ensures path == "" ==> r == "."
    ensures path != "" && (forall i :: 0 <= i < |path| ==> path[i] == '/') ==> r == "/"
    ensures var t := TrimTrailingSlashes(path);
      t != "" ==>
        && r != "" && '/' !in r
        && |r| <= |t| && t[|t| - |r|..] == r
        && (|r| == |t| || t[|t| - |r| - 1] == '/')
  {
    if path == "" then "."
    else
      var last := LastElement(TrimTrailingSlashes(path));
      if last == "" then "/" else last
  }

  /** `s` without its trailing run of separators. */
  function TrimTrailingSlashes(s: string): (r: string)
    ensures r == [] || r[|r| - 1] != '/'
    ensures |r| <= |s| && s[..|r|] == r
    ensures forall i :: |r| <= i < |s| ==> s[i] == '/'
    decreases |s|
  {
    if s != [] && s[|s| - 1] == '/' then TrimTrailingSlashes(s[..|s| - 1]) else s
  }

  /** The text after the last '/'. */
  function LastElement(s: string): (r: string)
    ensures '/' !in r
    ensures s != [] && s[|s| - 1] != '/' ==> r != ""
    ensures |r| <= |s| && s[|s| - |r|..] == r
    ensures |r| < |s| ==> s[|s| - |r| - 1] == '/'
    decreases |s|
  {
    if s == [] || s[|s| - 1] == '/' then [] else LastElement(s[..|s| - 1]) + [s[|s| - 1]]
  }

  /** The containment test standing for `utils.CheckInDir(root, path)`:
      after cleaning, `path` is `root` itself or lies below it. */
  predicate InDir(root: string, path: string) {
    var r := CleanPath(root);
    var p := CleanPath(path);
    && r.rooted == p.rooted
    && |r.segs| <= |p.segs|
    && p.segs[..|r.segs|] == r.segs
    && ".." !in p.segs[|r.segs|..]
  }

  // ---------------------------------------------------------------------------
  // Lemmas

  lemma PushKeepsClean(rooted: bool, stack: seq<string>, seg: string)
    requires CleanSegs(rooted, stack) && IsName(seg)
    ensures CleanSegs(rooted, Push(rooted, stack, seg))
  {
  }

  /** Cleaning never leaves a non-clean stack behind. */
  lemma {:induction false} ResolveKeepsClean(rooted: bool, stack: seq<string>, segs: seq<string>)
    requires CleanSegs(rooted, stack) && AllNames(segs)
    ensures CleanSegs(rooted, Resolve(rooted, stack, segs))
    decreases |segs|
  {
    if segs != [] {
      assert IsName(segs[0]);
      PushKeepsClean(rooted, stack, segs[0]);
      ResolveKeepsClean(rooted, Push(rooted, stack, segs[0]), segs[1..]);
    }
  }

  /** Resolving already clean elements changes nothing. */
  lemma {:induction false} ResolveClean(rooted: bool, stack: seq<string>, segs: seq<string>)
    requires CleanSegs(rooted, stack + segs)
    ensures Resolve(rooted, stack, segs) == stack + segs
    decreases |segs|
  {
    if segs != [] {
      var all := stack + segs;
      assert all[|stack|] == segs[0];
      if segs[0] == ".." {
        if |stack| > 0 {
          assert all[|stack| - 1] == stack[|stack| - 1];
        }
      }
      assert Push(rooted, stack, segs[0]) == stack + [segs[0]];
      assert (stack + [segs[0]]) + segs[1..] == all;
      ResolveClean(rooted, stack + [segs[0]], segs[1..]);
    }
  }

  /** Resolving a concatenation is resolving its parts in turn. */
  lemma {:induction false} ResolveAppend(rooted: bool, stack: seq<string>, a: seq<string>, b: seq<string>)
    ensures Resolve(rooted, stack, a + b) == Resolve(rooted, Resolve(rooted, stack, a), b)
    decreases |a|
  {
    if a == [] {
      assert a + b == b;
    } else {
      assert (a + b)[0] == a[0];
      assert (a + b)[1..] == a[1..] + b;
      ResolveAppend(rooted, Push(rooted, stack, a[0]), a[1..], b);
    }
  }

  /** Reading separator-free text only extends the current element. */
  lemma {:induction false} SplitNoSlash(x: string, t: string, cur: string)
    requires '/' !in cur && '/' !in x
    ensures Split(x + t, cur) == Split(t, cur + x)
    decreases |x|
  {
    if x == [] {
      assert x + t == t;
      assert cur + x == cur;
    } else {
      assert (x + t)[0] == x[0];
      assert (x + t)[1..] == x[1..] + t;
      assert x[0] in x;
      assert (cur + [x[0]]) + x[1..] == cur + x;
      SplitNoSlash(x[1..], t, cur + [x[0]]);
    }
  }

  /** Splitting across a '/' splits the two sides independently. */
  lemma {:induction false} SplitConcat(a: string, b: string, cur: string)
    requires '/' !in cur
    ensures Split(a + "/" + b, cur) == Split(a, cur) + Split(b, "")
    decreases |a|
  {
    if a == [] {
      assert a + "/" + b == "/" + b;
      assert ("/" + b)[1..] == b;
    } else {
      assert (a + "/" + b)[0] == a[0];
      assert (a + "/" + b)[1..] == a[1..] + "/" + b;
      if a[0] == '/' {
        SplitConcat(a[1..], b, "");
      } else {
        SplitConcat(a[1..], b, cur + [a[0]]);
      }
    }
  }

  /** Splitting `a/b` gives the elements of `a` followed by those of `b`. */
  lemma ElementsConcat(a: string, b: string)
    ensures Elements(a + "/" + b) == Elements(a) + Elements(b)
  {
    SplitConcat(a, b, "");
  }

  /** Splitting the slash-joined names gives the names back. */
  lemma {:induction false} ElementsIntercalate(segs: seq<string>)
    requires AllNames(segs)
    ensures Elements(Intercalate(segs)) == segs
    decreases |segs|
  {
    if |segs| == 1 {
      ElementsOfName(segs[0]);
    } else if |segs| > 1 {
      assert IsName(segs[0]);
      ElementsConcat(segs[0], Intercalate(segs[1..]));
      ElementsOfName(segs[0]);
      ElementsIntercalate(segs[1..]);
    }
  }

  /** A string without separators is at most one element. */
  lemma ElementsNoSlash(s: string)
    requires '/' !in s
    ensures Elements(s) == Keep(s)
  {
    SplitNoSlash(s, "", "");
    assert s + "" == s;
    assert "" + s == s;
  }

  lemma ElementsOfName(s: string)
    requires IsName(s)
    ensures Elements(s) == [s]
  {
    ElementsNoSlash(s);
  }

  lemma ElementsLeadingSlash(s: string)
    ensures Elements("/" + s) == Elements(s)
  {
  }

  /** The string form of a clean path splits back into its elements. */
  lemma ElementsRender(p: Path)
    requires CleanSegs(p.rooted, p.segs)
    ensures Elements(Render(p)) == p.segs
  {
    ElementsIntercalate(p.segs);
    if p.rooted {
      ElementsLeadingSlash(Intercalate(p.segs));
    } else if p.segs == [] {
      ElementsNoSlash(".");
    }
  }

  lemma {:induction false} IntercalateHead(segs: seq<string>)
    requires |segs| > 0 && segs[0] != ""
    ensures |Intercalate(segs)| > 0 && Intercalate(segs)[0] == segs[0][0]
  {
  }

  /** Cleaning the string form of a clean path gives that path back. */
  lemma CleanRender(p: Path)
    requires CleanSegs(p.rooted, p.segs)
    ensures CleanPath(Render(p)) == p
  {
    ElementsRender(p);
    ResolveClean(p.rooted, [], p.segs);
    if !p.rooted && p.segs != [] {
      assert IsName(p.segs[0]);
      IntercalateHead(p.segs);
    }
  }

  /** `Clean` is idempotent at the level of cleaned paths, and never gives
      the empty string. */
  lemma CleanIdempotent(s: string)
    ensures CleanPath(Clean(s)) == CleanPath(s)
    ensures Clean(s) != ""
  {
    CleanRender(CleanPath(s));
  }

  /** Joining `a` (non-empty) with `b` resolves the elements of `b` on top of
      the cleaned `a`; in particular `b` cannot change whether the result is
      rooted. With `a` empty the join is `b` cleaned, and it is empty only
      when both are. */
  lemma JoinResolves(a: string, b: string)
    ensures a != "" ==>
              CleanPath(Join(a, b)) ==
              Path(CleanPath(a).rooted, Resolve(CleanPath(a).rooted, CleanPath(a).segs, Elements(b)))
    ensures a == "" ==> CleanPath(Join(a, b)) == CleanPath(b)
    ensures Join(a, b) == "" <==> a == "" && b == ""
  {
    if a != "" {
      var s := a + "/" + b;
      CleanIdempotent(s);
      ElementsConcat(a, b);
      assert s[0] == a[0];
      ResolveAppend(CleanPath(a).rooted, [], Elements(a), Elements(b));
    } else if b != "" {
      CleanIdempotent(b);
    }
  }

  /** Joining a directory with a path that has no ".." element lands below
      the directory, element by element. */
  lemma JoinBelow(dir: string, sub: string)
    requires dir != ""
    requires forall i :: 0 <= i < |Elements(sub)| ==> Elements(sub)[i] != ".."
    ensures CleanPath(Join(dir, sub)) == Path(CleanPath(dir).rooted, CleanPath(dir).segs + Elements(sub))
    ensures InDir(dir, Join(dir, sub))
  {
    var d := CleanPath(dir);
    var e := Elements(sub);
    JoinResolves(dir, sub);
    assert CleanSegs(d.rooted, d.segs + e);
    ResolveClean(d.rooted, d.segs, e);
    var p := CleanPath(Join(dir, sub));
    assert p.segs[..|d.segs|] == d.segs;
    assert p.segs[|d.segs|..] == e;
  }

  /** Joining a directory with a plain file name lands directly inside it. */
  lemma JoinName(dir: string, name: string)
    requires IsName(name) && name != ".."
    ensures CleanPath(Join(dir, name)) == Path(CleanPath(dir).rooted, CleanPath(dir).segs + [name])
    ensures InDir(dir, Join(dir, name))
  {
    ElementsOfName(name);
    if dir != "" {
      JoinBelow(dir, name);
    } else {
      CleanIdempotent(name);
      assert name[0] != '/' by { assert name[0] in name; }
      assert Resolve(false, [], [name]) == Resolve(false, [name], []);
      var p := CleanPath(Join(dir, name));
      assert p.segs[..0] == [];
      assert p.segs[0..] == [name];
    }
  }

  /** The containment test accepts the directory itself. */
  lemma InDirItself(root: string)
    ensures InDir(root, root)
  {
  }

  /** Joining ".." to a relative or rooted directory whose cleaned form ends
      in a name lands in its parent, which the containment test rejects. */
  lemma ParentNotInDir(dir: string)
    requires dir != ""
    requires var d := CleanPath(dir); |d.segs| > 0 && d.segs[|d.segs| - 1] != ".."
    ensures CleanPath(Join(dir, "..")) ==
            Path(CleanPath(dir).rooted, CleanPath(dir).segs[..|CleanPath(dir).segs| - 1])
    ensures !InDir(dir, Join(dir, ".."))
  {
    ElementsOfName("..");
    JoinResolves(dir, "..");
  }
}
