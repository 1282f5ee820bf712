/**
 The links of a page after job files moved into the archive (scripts/lib/archive_jobs_links.py,
 `rewrite_references`): a relative link is resolved from where its page was before the move and
 written again from where the page is now.
 */
module MovedLinks {
  import opened Wrappers
  import opened Paths

  const JOBS: Path := ["docs", "roadmap", "jobs"]
  const ARCHIVE: Path := ["docs", "roadmap", "jobs", "archive"]

  /** Where a path lies after the move. */
  function OldToNew(moved: set<string>, p: Path): Path {
    if |p| == 4 && p[..3] == JOBS && p[3] in moved then ARCHIVE + [p[3]] else p
  }

  function NewToOld(moved: set<string>, p: Path): Path {
    if |p| == 5 && p[..4] == ARCHIVE && p[4] in moved then JOBS + [p[4]] else p
  }

  ghost predicate MovedNames(moved: set<string>) {
    forall n <- moved :: IsName(n)
  }

  /** Whether a path was there before the move, asked of the tree after it. */
  predicate Existed(moved: set<string>, present: Path -> bool, p: Path) {
    if OldToNew(moved, p) != p then true
    else if NewToOld(moved, p) != p then false
    else present(p)
  }

  /** The tree after the move, from the tree before it. */
  predicate PresentAfter(moved: set<string>, before: Path -> bool, p: Path) {
    NewToOld(moved, p) != p || (before(p) && OldToNew(moved, p) == p)
  }

  /** A link target, cut at its fragment or query. Addresses with a scheme, a bare fragment and a
      root-relative path are no file links. */
  datatype Target = Other(text: string) | Relative(path: Path, suffix: string)

  function Directory(page: Path): Path
    requires page != []
  {
    page[..|page| - 1]
  }

  function Resolved(moved: set<string>, page: Path, path: Path): Path
    requires page != []
  {
    var was := NewToOld(moved, page);
    Norm(Directory(was) + path)
  }

  /** A leading `./` and a trailing slash are kept. */
  function Spelled(path: Path, rel: Path): Path {
    var dotted := if |path| >= 2 && path[0] == "." && !(|rel| >= 2 && rel[0] == "..") then ["."] + rel else rel;
    if |path| >= 2 && path[|path| - 1] == "" && !(|dotted| >= 2 && dotted[|dotted| - 1] == "") then dotted + [""]
    else dotted
  }

  function Fix(cwd: Path, moved: set<string>, present: Path -> bool, page: Path, target: Target): Target
    requires page != []
  {
    if target.Other? || target.path == [] then target
    else
      var resolved := Resolved(moved, page, target.path);
      if !Existed(moved, present, resolved) then target
      else if NewToOld(moved, page) == page && OldToNew(moved, resolved) == resolved then target
      else
        var rel := RelPath(cwd, OldToNew(moved, resolved), Directory(page));
        Relative(Spelled(target.path, rel), target.suffix)
  }

  // ---- the two maps ----

  lemma {:induction false} MapsAreInverse(moved: set<string>, p: Path)
    ensures OldToNew(moved, p) != p ==> NewToOld(moved, OldToNew(moved, p)) == p
    ensures NewToOld(moved, p) != p ==> OldToNew(moved, NewToOld(moved, p)) == p
  {
    if |p| == 4 && p[..3] == JOBS && p[3] in moved {
      assert (ARCHIVE + [p[3]])[..4] == ARCHIVE;
      assert p == p[..3] + [p[3]];
    }
    if |p| == 5 && p[..4] == ARCHIVE && p[4] in moved {
      assert (JOBS + [p[4]])[..3] == JOBS;
      assert p == p[..4] + [p[4]];
    }
  }

  /** Asked of the tree after the move, `Existed` answers for the tree before it. */
  lemma {:induction false} ExistedIsBefore(moved: set<string>, before: Path -> bool, p: Path)
    requires forall n <- moved :: before(JOBS + [n]) && !before(ARCHIVE + [n])
    ensures Existed(moved, q => PresentAfter(moved, before, q), p) == before(p)
  {
    if |p| == 4 && p[..3] == JOBS && p[3] in moved {
      assert p == JOBS + [p[3]] && ARCHIVE + [p[3]] != p;
    } else if |p| == 5 && p[..4] == ARCHIVE && p[4] in moved {
      assert p == ARCHIVE + [p[4]] && JOBS + [p[4]] != p;
    }
  }

  // ---- where a link leads ----

  /** The place a link of a page leads to, below the repository at `repo`. */
  function Leads(repo: Path, page: Path, path: Path): Path
    requires page != []
  {
    Walk(Walk(repo, Directory(page)), path)
  }

  /** What the rewriting owes a link: it leads to where its was target is now. */
  ghost predicate KeepsTarget(repo: Path, cwd: Path, moved: set<string>, present: Path -> bool, page: Path,
                              target: Target)
    requires page != []
  {
    var resolved := if target.Relative? then Resolved(moved, page, target.path) else [];
    target.Relative? && target.path != [] && Existed(moved, present, resolved) ==>
      var fixed := Fix(cwd, moved, present, page, target);
      fixed.Relative? && fixed.suffix == target.suffix
      && Leads(repo, page, fixed.path) == Walk(repo, OldToNew(moved, resolved))
  }

  lemma {:induction false} SpelledLeads(at: Path, path: Path, rel: Path)
    ensures Walk(at, Spelled(path, rel)) == Walk(at, rel)
  {
    var dotted := if |path| >= 2 && path[0] == "." && !(|rel| >= 2 && rel[0] == "..") then ["."] + rel else rel;
    assert (["."] + rel)[1..] == rel && Enter(at, ".") == at;
    WalkAppend(at, dotted, [""]);
    assert Walk(Walk(at, dotted), [""]) == Walk(Enter(Walk(at, dotted), ""), []);
  }

  lemma {:induction false} DirectoryIsNames(page: Path)
    requires page != [] && Names(page)
    ensures Names(Directory(page))
  {
  }

  /** The was target of a link, before the move: resolving and walking agree. */
  lemma {:induction false} ResolvedLeads(repo: Path, moved: set<string>, page: Path, path: Path)
    requires page != []
    ensures Walk(repo, Resolved(moved, page, path)) == Leads(repo, NewToOld(moved, page), path)
  {
    var was := NewToOld(moved, page);
    NormWalks(repo, [], Directory(was) + path);
    assert [] + (Directory(was) + path) == Directory(was) + path;
    WalkAppend(repo, Directory(was), path);
  }

  lemma {:induction false} UntouchedLeads(repo: Path, moved: set<string>, page: Path, path: Path)
    requires page != [] && NewToOld(moved, page) == page
    ensures Leads(repo, page, path) == Walk(repo, Resolved(moved, page, path))
  {
    ResolvedLeads(repo, moved, page, path);
  }

  lemma {:induction false} RewrittenLeads(repo: Path, cwd: Path, moved: set<string>, present: Path -> bool, page: Path,
                                          target: Target)
    requires page != [] && target.Relative? && target.path != []
    requires Preserves(cwd, repo, OldToNew(moved, Resolved(moved, page, target.path)), Directory(page))
    ensures KeepsTarget(repo, cwd, moved, present, page, target)
  {
    var resolved := Resolved(moved, page, target.path);
    var rel := RelPath(cwd, OldToNew(moved, resolved), Directory(page));
    SpelledLeads(Walk(repo, Directory(page)), target.path, rel);
    if NewToOld(moved, page) == page {
      UntouchedLeads(repo, moved, page, target.path);
    }
  }

  /** A link whose target lies in the repository leads to where that target is now, wherever the
      process was started. */
  lemma {:induction false} LinksInsideKeepTarget(repo: Path, cwd: Path, moved: set<string>, present: Path -> bool,
                                                 page: Path, target: Target)
    requires Names(repo) && Names(cwd) && MovedNames(moved) && page != [] && Names(page)
    requires target.Relative? && target.path != [] && Names(Resolved(moved, page, target.path))
    ensures KeepsTarget(repo, cwd, moved, present, page, target)
  {
    var now := OldToNew(moved, Resolved(moved, page, target.path));
    DirectoryIsNames(page);
    RelPathInside(cwd, repo, now, Directory(page));
    WalkNames(repo, now);
    RewrittenLeads(repo, cwd, moved, present, page, target);
  }

  /** A page of the archive that was just moved can link to anything: the way back from it. */
  lemma {:induction false} ArchivedPageReaches(moved: set<string>, name: string, target: Path)
    requires name in moved && (forall i :: 0 <= i < |target| ==> target[i] != "" && target[i] != ".")
    requires Norm(target) == target
    ensures Resolved(moved, ARCHIVE + [name], Ups(3) + target) == target
  {
    var page := ARCHIVE + [name];
    assert page[..4] == ARCHIVE && NewToOld(moved, page) == JOBS + [name];
    assert Directory(JOBS + [name]) == JOBS;
    NormAppend([], JOBS, Ups(3) + target);
    NormNames([], JOBS);
    NormBack(JOBS, 3, target);
    assert [] + JOBS == JOBS && JOBS[..0] == [];
  }

  lemma {:induction false} NormBack(done: Path, n: nat, p: Path)
    requires Names(done) && n <= |done|
    ensures NormFrom(done, Ups(n) + p) == NormFrom(done[..|done| - n], p)
    decreases n
  {
    if n == 0 {
      assert Ups(0) + p == p && done[..|done|] == done;
    } else {
      assert IsName(done[|done| - 1]);
      assert (Ups(n) + p)[0] == ".." && (Ups(n) + p)[1..] == Ups(n - 1) + p;
      NormBack(done[..|done| - 1], n - 1, p);
      assert done[..|done| - 1][..|done| - n] == done[..|done| - n];
    }
  }

  // ---- why the working directory matters ----

  predicate Everything(p: Path) {
    true
  }

  ghost predicate Kept(repo: Path, cwd: Path, moved: set<string>, page: Path, target: Target) {
    page != [] && Names(page) ==> KeepsTarget(repo, cwd, moved, Everything, page, target)
  }

  /** Run from anywhere but the repository, some link of a moved page out of the repository is
      written wrong; run from the repository every link of every page keeps its target. */
  lemma {:induction false} LinksAreExact(repo: Path, cwd: Path, moved: set<string>, name: string)
    requires Names(repo) && Names(cwd) && MovedNames(moved) && name in moved
    ensures (forall page, target :: Kept(repo, cwd, moved, page, target)) <==> cwd == repo
  {
    if cwd == repo {
      forall page, target ensures Kept(repo, cwd, moved, page, target) {
        if page != [] && Names(page) && target.Relative? && target.path != [] {
          RelPathFromCwd(cwd, OldToNew(moved, Resolved(moved, page, target.path)), Directory(page));
          RewrittenLeads(repo, cwd, moved, Everything, page, target);
        }
      }
    } else {
      var target := SomeLinkBreaks(repo, cwd, moved, name);
    }
  }

  lemma {:induction false} SomeLinkBreaks(repo: Path, cwd: Path, moved: set<string>, name: string)
    returns (target: Target)
    requires Names(repo) && Names(cwd) && MovedNames(moved) && name in moved && cwd != repo
    ensures !Kept(repo, cwd, moved, ARCHIVE + [name], target)
  {
    var n := if cwd != [] && cwd[0] == "a" then "b" else "a";
    TargetsArePlain(cwd, repo, n);
    if |cwd| < |repo| {
      FarTargetBreaks(cwd, repo, ARCHIVE, n);
      target := BrokenBy(repo, cwd, moved, name, FarTarget(repo, n));
    } else {
      DeepTargetBreaks(cwd, repo, ARCHIVE, n);
      target := BrokenBy(repo, cwd, moved, name, DeepTarget(cwd, repo, n));
    }
  }

  lemma {:induction false} ArchivedPage(moved: set<string>, name: string)
    requires MovedNames(moved) && name in moved
    ensures var page := ARCHIVE + [name];
      Names(page) && Directory(page) == ARCHIVE && NewToOld(moved, page) == JOBS + [name] != page
  {
    assert (ARCHIVE + [name])[..4] == ARCHIVE;
  }

  /** A path that names nothing below the working directory's start is none of the moved pages. */
  lemma {:induction false} AwayIsNotMoved(moved: set<string>, away: Path)
    requires Plain(away)
    ensures OldToNew(moved, away) == away && Existed(moved, Everything, away)
  {
  }

  lemma {:induction false} BrokenBy(repo: Path, cwd: Path, moved: set<string>, name: string, away: Path)
    returns (target: Target)
    requires MovedNames(moved) && name in moved
    requires Plain(away) && Norm(away) == away && !Preserves(cwd, repo, away, ARCHIVE)
    ensures !Kept(repo, cwd, moved, ARCHIVE + [name], target)
  {
    target := Relative(Ups(3) + away, "");
    ArchivedPageReaches(moved, name, away);
    ArchivedPage(moved, name);
    AwayIsNotMoved(moved, away);
    SpelledLeads(Walk(repo, ARCHIVE), target.path, RelPath(cwd, away, ARCHIVE));
    FixedIs(repo, cwd, moved, ARCHIVE + [name], target, away);
  }

  lemma {:induction false} FixedIs(repo: Path, cwd: Path, moved: set<string>, page: Path, target: Target, away: Path)
    requires page != [] && target.Relative? && target.path != [] && Resolved(moved, page, target.path) == away
    requires NewToOld(moved, page) != page && OldToNew(moved, away) == away && Existed(moved, Everything, away)
    ensures KeepsTarget(repo, cwd, moved, Everything, page, target) <==>
      Leads(repo, page, Spelled(target.path, RelPath(cwd, away, Directory(page)))) == Walk(repo, away)
  {
  }

  // ---- the lines of a page ----

  /** A line opens or closes a code fence, or holds links. */
  datatype Line = Fence | Prose(targets: seq<Target>)

  /** Whether a code fence is open above line `n`. */
  predicate InFence(lines: seq<Line>, n: nat)
    requires n <= |lines|
  {
    n > 0 && InFence(lines, n - 1) != lines[n - 1].Fence?
  }

  function FixAll(cwd: Path, moved: set<string>, present: Path -> bool, page: Path, targets: seq<Target>)
    : (r: seq<Target>)
    requires page != []
    ensures |r| == |targets|
  {
    seq(|targets|, i requires 0 <= i < |targets| => Fix(cwd, moved, present, page, targets[i]))
  }

  function FixLine(cwd: Path, moved: set<string>, present: Path -> bool, page: Path, lines: seq<Line>, n: nat): Line
    requires page != [] && n < |lines|
  {
    if lines[n].Fence? || InFence(lines, n) then lines[n]
    else Prose(FixAll(cwd, moved, present, page, lines[n].targets))
  }

  /** The lines of one page: every link outside the code fences, nothing inside them. */
  method RewritePage(cwd: Path, moved: set<string>, present: Path -> bool, page: Path, lines: seq<Line>)
    returns (out: seq<Line>)
    requires page != []
    ensures |out| == |lines|
    ensures forall n :: 0 <= n < |lines| ==> out[n] == FixLine(cwd, moved, present, page, lines, n)
  {
    out := [];
    var fence := false;
    for n := 0 to |lines|
      invariant |out| == n && fence == InFence(lines, n)
      invariant forall m :: 0 <= m < n ==> out[m] == FixLine(cwd, moved, present, page, lines, m)
    {
      var line := lines[n];
      if line.Fence? {
        fence := !fence;
      } else if !fence {
        line := Prose(FixAll(cwd, moved, present, page, line.targets));
      }
      assert line == FixLine(cwd, moved, present, page, lines, n);
      out := out + [line];
    }
  }

  /** A link to a place that was there leads to where that place is now; any other is left as it is. */
  ghost predicate LinkKept(repo: Path, moved: set<string>, present: Path -> bool, page: Path, target: Target,
                           fixed: Target)
    requires page != []
  {
    if target.Relative? && target.path != [] && Existed(moved, present, Resolved(moved, page, target.path)) then
      && fixed.Relative? && fixed.suffix == target.suffix
      && Leads(repo, page, fixed.path) == Walk(repo, OldToNew(moved, Resolved(moved, page, target.path)))
    else fixed == target
  }

  /** The process runs in the repository, or the link stays inside it. */
  ghost predicate Reachable(repo: Path, cwd: Path, moved: set<string>, page: Path, target: Target)
    requires page != []
  {
    cwd == repo || (target.Relative? ==> Names(Resolved(moved, page, target.path)))
  }

  lemma {:induction false} LinkIsKept(repo: Path, cwd: Path, moved: set<string>, present: Path -> bool, page: Path,
                                      target: Target)
    requires Names(repo) && Names(cwd) && MovedNames(moved) && page != [] && Names(page)
    requires Reachable(repo, cwd, moved, page, target)
    ensures LinkKept(repo, moved, present, page, target, Fix(cwd, moved, present, page, target))
  {
    if target.Relative? && target.path != [] {
      if cwd == repo {
        RelPathFromCwd(cwd, OldToNew(moved, Resolved(moved, page, target.path)), Directory(page));
        RewrittenLeads(repo, cwd, moved, present, page, target);
      } else {
        LinksInsideKeepTarget(repo, cwd, moved, present, page, target);
      }
    }
  }

  /** What becomes of one line: code is untouched, every link of prose is kept in its place. */
  ghost predicate LineKept(repo: Path, moved: set<string>, present: Path -> bool, page: Path, lines: seq<Line>, n: nat,
                           line: Line)
    requires page != [] && n < |lines|
  {
    if lines[n].Fence? || InFence(lines, n) then line == lines[n]
    else
      && line.Prose? && |line.targets| == |lines[n].targets|
      && forall i :: 0 <= i < |line.targets| ==>
           LinkKept(repo, moved, present, page, lines[n].targets[i], line.targets[i])
  }

  /** A page keeps its shape and its links, whatever the tree holds: run from the repository root, or
      from anywhere else for the links that stay inside the repository. */
  lemma {:induction false} PageKeepsTargets(repo: Path, cwd: Path, moved: set<string>, present: Path -> bool,
                                            page: Path, lines: seq<Line>, n: nat)
    requires Names(repo) && Names(cwd) && MovedNames(moved) && page != [] && Names(page) && n < |lines|
    requires lines[n].Prose? ==> forall target <- lines[n].targets :: Reachable(repo, cwd, moved, page, target)
    ensures LineKept(repo, moved, present, page, lines, n, FixLine(cwd, moved, present, page, lines, n))
  {
    if lines[n].Prose? {
      forall i | 0 <= i < |lines[n].targets|
        ensures LinkKept(repo, moved, present, page, lines[n].targets[i],
                         Fix(cwd, moved, present, page, lines[n].targets[i]))
      {
        LinkIsKept(repo, cwd, moved, present, page, lines[n].targets[i]);
      }
    }
  }
}
