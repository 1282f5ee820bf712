/**
 The path algebra of posixpath, on segments: `Walk` is what a path means from an absolute
 directory, `Norm` is normpath of a relative path, and `RelPath` is relpath, which expresses one
 path from a directory by way of the working directory of the process.
 */
module Paths {
  type Path = seq<string>

  predicate IsName(s: string) {
    s != "" && s != "." && s != ".."
  }

  /** Without empty segments and dots, and leading out of its directory. */
  ghost predicate Plain(p: Path) {
    p != [] && p[0] == ".." && forall i :: 0 <= i < |p| ==> p[i] != "" && p[i] != "."
  }

  ghost predicate Names(p: Path) {
    forall i :: 0 <= i < |p| ==> IsName(p[i])
  }

  /** One segment, from an absolute directory; the root is its own parent. */
  function Enter(at: Path, s: string): Path {
    if s == "" || s == "." then at
    else if s == ".." then (if at == [] then [] else at[..|at| - 1])
    else at + [s]
  }

  /** The directory a path leads to from an absolute one. */
  function Walk(at: Path, p: Path): Path
    decreases |p|
  {
    if p == [] then at else Walk(Enter(at, p[0]), p[1..])
  }

  /** normpath of a relative path: parents that lead out of it stay in front. */
  function NormFrom(done: Path, p: Path): Path
    decreases |p|
  {
    if p == [] then done
    else if p[0] == "" || p[0] == "." then NormFrom(done, p[1..])
    else if p[0] == ".." && done != [] && done[|done| - 1] != ".." then NormFrom(done[..|done| - 1], p[1..])
    else NormFrom(done + [p[0]], p[1..])
  }

  function Norm(p: Path): Path {
    NormFrom([], p)
  }

  function Ups(n: nat): (p: Path)
    ensures |p| == n && forall i :: 0 <= i < n ==> p[i] == ".."
  {
    seq(n, _ => "..")
  }

  function Common(a: Path, b: Path): (i: nat)
    ensures i <= |a| && i <= |b| && a[..i] == b[..i]
    ensures i < |a| && i < |b| ==> a[i] != b[i]
  {
    if a == [] || b == [] || a[0] != b[0] then 0
    else
      assert a == [a[0]] + a[1..] && b == [b[0]] + b[1..];
      1 + Common(a[1..], b[1..])
  }

  /** Up from one absolute path to the common part, and down to the other. */
  function Steps(a: Path, b: Path): Path {
    var i := Common(a, b);
    Ups(|a| - i) + b[i..]
  }

  /** relpath: both paths are made absolute from the working directory. The empty path is written
      as a dot. */
  function RelPath(cwd: Path, target: Path, start: Path): Path {
    var rel := Steps(Walk(cwd, start), Walk(cwd, target));
    if rel == [] then ["."] else rel
  }

  // ---- laws ----

  lemma {:induction false} WalkAppend(at: Path, p: Path, q: Path)
    ensures Walk(at, p + q) == Walk(Walk(at, p), q)
    decreases |p|
  {
    if p == [] {
      assert p + q == q;
    } else {
      assert (p + q)[1..] == p[1..] + q;
      WalkAppend(Enter(at, p[0]), p[1..], q);
    }
  }

  lemma {:induction false} WalkNames(at: Path, p: Path)
    requires Names(p)
    ensures Walk(at, p) == at + p
    decreases |p|
  {
    if p != [] {
      assert IsName(p[0]);
      WalkNames(at + [p[0]], p[1..]);
      assert at + [p[0]] + p[1..] == at + p;
    }
  }

  lemma {:induction false} WalkIsNames(at: Path, p: Path)
    requires Names(at)
    ensures Names(Walk(at, p))
    decreases |p|
  {
    if p != [] {
      WalkIsNames(Enter(at, p[0]), p[1..]);
    }
  }

  lemma {:induction false} WalkUps(at: Path, n: nat)
    ensures Walk(at, Ups(n)) == at[..if n <= |at| then |at| - n else 0]
    decreases n
  {
    if n > 0 {
      assert Ups(n)[1..] == Ups(n - 1);
      WalkUps(Enter(at, ".."), n - 1);
    }
  }

  /** Normalising does not change where a path leads. */
  lemma {:induction false} NormWalks(at: Path, done: Path, p: Path)
    requires forall i :: 0 <= i < |done| ==> done[i] != "" && done[i] != "."
    ensures Walk(at, NormFrom(done, p)) == Walk(at, done + p)
    decreases |p|
  {
    if p == [] {
      assert done + p == done;
    } else {
      assert done + p == (done + [p[0]]) + p[1..];
      if p[0] == "" || p[0] == "." {
        NormWalks(at, done, p[1..]);
        WalkAppend(at, done, p);
        WalkAppend(at, done, p[1..]);
      } else if p[0] == ".." && done != [] && done[|done| - 1] != ".." {
        var up, last := done[..|done| - 1], done[|done| - 1];
        NormWalks(at, up, p[1..]);
        assert done == up + [last];
        WalkAppend(at, up, p[1..]);
        assert done + p == up + ([last, ".."] + p[1..]);
        WalkAppend(at, up, [last, ".."] + p[1..]);
        WalkAppend(Walk(at, up), [last, ".."], p[1..]);
        EnterAndLeave(Walk(at, up), last);
      } else {
        NormWalks(at, done + [p[0]], p[1..]);
      }
    }
  }

  lemma {:induction false} NormAppend(done: Path, p: Path, q: Path)
    ensures NormFrom(done, p + q) == NormFrom(NormFrom(done, p), q)
    decreases |p|
  {
    if p == [] {
      assert p + q == q;
    } else {
      assert (p + q)[1..] == p[1..] + q;
      var next := if p[0] == "" || p[0] == "." then done
                  else if p[0] == ".." && done != [] && done[|done| - 1] != ".." then done[..|done| - 1]
                  else done + [p[0]];
      NormAppend(next, p[1..], q);
    }
  }

  lemma {:induction false} NormNames(done: Path, p: Path)
    requires Names(p)
    ensures NormFrom(done, p) == done + p
    decreases |p|
  {
    if p != [] {
      assert IsName(p[0]);
      NormNames(done + [p[0]], p[1..]);
      assert done + [p[0]] + p[1..] == done + p;
    }
  }

  /** A path of parents followed by names is normal already. */
  lemma {:induction false} UpsAndNamesAreNormal(n: nat, p: Path)
    requires Names(p)
    ensures Norm(Ups(n) + p) == Ups(n) + p
  {
    NormAppend([], Ups(n), p);
    NormUps([], n);
    NormNames(Ups(n), p);
  }

  lemma {:induction false} NormUps(done: Path, n: nat)
    requires done == Ups(|done|)
    ensures NormFrom(done, Ups(n)) == Ups(|done| + n)
    decreases n
  {
    if n > 0 {
      assert Ups(n)[1..] == Ups(n - 1) && done + [".."] == Ups(|done| + 1);
      NormUps(done + [".."], n - 1);
    }
  }

  lemma {:induction false} EnterAndLeave(at: Path, name: string)
    requires IsName(name)
    ensures Walk(at, [name, ".."]) == at
  {
    assert [name, ".."][1..] == [".."];
    assert Walk(at, [name, ".."]) == Walk(at + [name], [".."]);
    assert Walk(at + [name], [".."]) == Walk(Enter(at + [name], ".."), []);
    assert (at + [name])[..|at|] == at;
  }

  lemma {:induction false} DotStays(at: Path, rel: Path)
    ensures Walk(at, if rel == [] then ["."] else rel) == Walk(at, rel)
  {
    assert Walk(at, ["."]) == Walk(Enter(at, "."), []);
  }

  /** Up some directories and down by names, written as relpath writes it. */
  lemma {:induction false} UpAndDown(at: Path, n: nat, p: Path)
    requires n <= |at| && Names(p)
    ensures var rel := Ups(n) + p; Walk(at, if rel == [] then ["."] else rel) == at[..|at| - n] + p
  {
    DotStays(at, Ups(n) + p);
    WalkAppend(at, Ups(n), p);
    WalkUps(at, n);
    WalkNames(at[..|at| - n], p);
  }

  /** Up to the target and down again as seen from `root`. */
  lemma {:induction false} WalkUpDown(root: Path, n: nat, p: Path)
    requires Names(p)
    ensures Walk(root, Ups(n) + p) == root[..if n <= |root| then |root| - n else 0] + p
  {
    WalkAppend(root, Ups(n), p);
    WalkUps(root, n);
    WalkNames(root[..if n <= |root| then |root| - n else 0], p);
  }

  lemma {:induction false} DownAgain(root: Path, a: Path, b: Path, k: nat)
    requires k <= |a| && k <= |b| && a[..k] == b[..k]
    ensures (root + a)[..|root + a| - (|a| - k)] + b[k..] == root + b
  {
    assert (root + a)[..|root| + k] == root + a[..k];
    assert b == b[..k] + b[k..];
  }

  /** The steps from one path to another lead there from wherever the first one is. */
  lemma {:induction false} StepsLead(root: Path, a: Path, b: Path)
    requires Names(b)
    ensures Walk(root + a, Steps(a, b)) == root + b
  {
    var k := Common(a, b);
    WalkUpDown(root + a, |a| - k, b[k..]);
    DownAgain(root, a, b, k);
  }

  /** relpath leads from the directory to the target, seen from the working directory. */
  lemma {:induction false} RelPathFromCwd(cwd: Path, target: Path, start: Path)
    requires Names(cwd)
    ensures Walk(Walk(cwd, start), RelPath(cwd, target, start)) == Walk(cwd, target)
  {
    var a, b := Walk(cwd, start), Walk(cwd, target);
    WalkIsNames(cwd, target);
    StepsLead([], a, b);
    assert [] + a == a && [] + b == b;
    DotStays(a, Steps(a, b));
  }

  lemma {:induction false} CommonPrefix(prefix: Path, a: Path, b: Path)
    ensures Common(prefix + a, prefix + b) == |prefix| + Common(a, b)
  {
    if prefix == [] {
      assert prefix + a == a && prefix + b == b;
    } else {
      CommonPrefix(prefix[1..], a, b);
      assert (prefix + a)[1..] == prefix[1..] + a && (prefix + b)[1..] == prefix[1..] + b;
    }
  }

  lemma {:induction false} StepsBelow(prefix: Path, a: Path, b: Path)
    ensures Steps(prefix + a, prefix + b) == Steps(a, b)
  {
    CommonPrefix(prefix, a, b);
    var k := Common(a, b);
    assert (prefix + b)[|prefix| + k..] == b[k..];
  }

  /** From below the working directory to below it, relpath never names the working directory. */
  lemma {:induction false} RelPathBelow(cwd: Path, target: Path, start: Path)
    requires Names(target) && Names(start)
    ensures var rel := Steps(start, target); RelPath(cwd, target, start) == if rel == [] then ["."] else rel
  {
    WalkNames(cwd, start);
    WalkNames(cwd, target);
    StepsBelow(cwd, start, target);
  }

  /** For a target below the working directory it does so from any other root as well. */
  lemma {:induction false} RelPathInside(cwd: Path, root: Path, target: Path, start: Path)
    requires Names(target) && Names(start)
    ensures Walk(Walk(root, start), RelPath(cwd, target, start)) == root + target
  {
    RelPathBelow(cwd, target, start);
    WalkNames(root, start);
    DotStays(root + start, Steps(start, target));
    StepsLead(root, start, target);
  }

  // ---- when the detour by the working directory is harmless ----

  /** Written from `start` below `root`, the relative path still leads to the target. */
  ghost predicate Preserves(cwd: Path, root: Path, target: Path, start: Path) {
    Walk(Walk(root, start), RelPath(cwd, target, start)) == Walk(root, target)
  }

  /** The common part ends where the paths differ. */
  lemma {:induction false} CommonStops(a: Path, b: Path, j: nat)
    requires j < |a| && j < |b| && a[j] != b[j]
    ensures Common(a, b) <= j
    decreases j
  {
    if j > 0 && a[0] == b[0] {
      CommonStops(a[1..], b[1..], j - 1);
    }
  }

  lemma {:induction false} PartAt(cwd: Path, start: Path, n: string)
    requires start != [] && start[0] != n
    ensures Common(cwd + start, cwd + [n]) == |cwd|
  {
    CommonPrefix(cwd, start, [n]);
    CommonStops(cwd + start, cwd + [n], |cwd|);
  }

  /** A target that comes back to the working directory by name. */
  function DeepTarget(cwd: Path, root: Path, n: string): Path
    requires |cwd| >= |root|
  {
    var m := if |cwd| == |root| then 0 else |cwd| - |root| - 1;
    Ups(|cwd| - m) + (cwd[m..] + [n])
  }

  /** A target far above. */
  function FarTarget(root: Path, n: string): Path {
    Ups(|root|) + [n]
  }

  lemma {:induction false} TargetsArePlain(cwd: Path, root: Path, n: string)
    requires Names(cwd) && cwd != root && IsName(n)
    ensures |cwd| >= |root| ==> Norm(DeepTarget(cwd, root, n)) == DeepTarget(cwd, root, n)
                                && Plain(DeepTarget(cwd, root, n))
    ensures |cwd| < |root| ==> Norm(FarTarget(root, n)) == FarTarget(root, n) && Plain(FarTarget(root, n))
  {
    if |cwd| >= |root| {
      var m := if |cwd| == |root| then 0 else |cwd| - |root| - 1;
      UpsAndNamesAreNormal(|cwd| - m, cwd[m..] + [n]);
    } else {
      UpsAndNamesAreNormal(|root|, [n]);
    }
  }

  lemma {:induction false} DeepTargetWalks(cwd: Path, root: Path, n: string)
    requires Names(cwd) && cwd != root && |cwd| >= |root| && IsName(n)
    ensures Walk(cwd, DeepTarget(cwd, root, n)) == cwd + [n]
    ensures Walk(root, DeepTarget(cwd, root, n)) != root + [n]
  {
    var m := if |cwd| == |root| then 0 else |cwd| - |root| - 1;
    var down := cwd[m..] + [n];
    WalkUpDown(cwd, |cwd| - m, down);
    WalkUpDown(root, |cwd| - m, down);
    assert cwd[..m] + down == cwd + [n];
    if |cwd| == |root| {
      assert down[..|cwd|] == cwd && (root + [n])[..|root|] == root;
    } else {
      assert |down| == |root| + 2;
    }
  }

  lemma {:induction false} DeepTargetBreaks(cwd: Path, root: Path, start: Path, n: string)
    requires Names(cwd) && Names(root) && Names(start) && cwd != root && |cwd| >= |root|
    requires start != [] && IsName(n) && start[0] != n
    ensures !Preserves(cwd, root, DeepTarget(cwd, root, n), start)
  {
    var target := DeepTarget(cwd, root, n);
    DeepTargetWalks(cwd, root, n);
    WalkNames(cwd, start);
    WalkNames(root, start);
    PartAt(cwd, start, n);
    assert (cwd + [n])[|cwd|..] == [n];
    assert RelPath(cwd, target, start) == Ups(|start|) + [n];
    UpAndDown(root + start, |start|, [n]);
    assert (root + start)[..|root|] == root;
  }

  /** A target above a shallow working directory is cut off at the root of the file system. */
  lemma {:induction false} FarTargetBreaks(cwd: Path, root: Path, start: Path, n: string)
    requires Names(cwd) && Names(root) && Names(start) && |cwd| < |root|
    requires start != [] && IsName(n) && start[0] != n && (cwd != [] ==> cwd[0] != n)
    ensures !Preserves(cwd, root, FarTarget(root, n), start)
  {
    var target := FarTarget(root, n);
    WalkUpDown(cwd, |root|, [n]);
    WalkUpDown(root, |root|, [n]);
    WalkNames(cwd, start);
    WalkNames(root, start);
    var a := cwd + start;
    assert a[0] != n;
    assert Walk(cwd, target) == [n] && Walk(root, target) == [n];
    CommonStops(a, [n], 0);
    assert [n][0..] == [n];
    assert RelPath(cwd, target, start) == Ups(|a|) + [n];
    UpAndDown(root + start, |a|, [n]);
    assert |Walk(root + start, Ups(|a|) + [n])| > 1;
  }

  /** relpath keeps every target if and only if the process runs in the root the paths are taken
      from; inside that root it does so from anywhere (`RelPathInside`). */
  lemma {:induction false} RelPathIsExact(cwd: Path, root: Path, start: Path)
    requires Names(cwd) && Names(root) && Names(start) && start != []
    ensures (forall target :: Preserves(cwd, root, target, start)) <==> cwd == root
  {
    if cwd == root {
      forall target ensures Preserves(cwd, root, target, start) {
        RelPathFromCwd(cwd, target, start);
      }
    } else {
      var n := if start[0] != "a" && (cwd == [] || cwd[0] != "a") then "a"
               else if start[0] != "b" && (cwd == [] || cwd[0] != "b") then "b" else "c";
      if |cwd| < |root| {
        FarTargetBreaks(cwd, root, start, n);
      } else {
        DeepTargetBreaks(cwd, root, start, n);
      }
    }
  }
}
