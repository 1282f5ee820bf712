/**
 The lock graph of one checked-out workspace (scripts/lib/lock-scope.py): the packages of
 Cargo.lock with their resolved dependencies, the members' own declarations, and the closure of a
 member, which follows every edge of the member itself and only build edges of anything else.
 */
module LockGraph {
  import opened Wrappers

  datatype Key = Key(name: string, version: string, source: string)

  datatype Kind = Normal | Dev

  datatype Table = Dependencies | DevDependencies | BuildDependencies

  /** A TOML value whose inside nothing here looks at; only its equality matters. */
  datatype Value = Value(text: string)

  /** The right-hand side of one dependency line of a member manifest. */
  datatype Spec = Version(text: string) | Detailed(workspace: bool, package: Option<string>)

  /** One dependency line, of a plain or a target-specific table alike. */
  datatype Declaration = Declaration(table: Table, key: string, spec: Spec)

  /** One [workspace.dependencies] line: its whole value, and the name it renames to if any. */
  datatype Shared = Shared(value: Value, package: Option<string>)

  datatype Tree = Tree(
    rootRest: map<string, Value>,       // root manifest without [workspace]
    workspaceRest: map<string, Value>,  // [workspace] without dependencies
    lockRest: map<string, Value>,       // the lock without its packages
    workspaceDeps: map<string, Shared>,
    members: map<string, seq<Declaration>>,
    entries: map<Key, Option<string>>,  // checksum of every lock package
    deps: map<Key, set<Key>>,           // resolved dependencies of every lock package
    memberKeys: map<string, Key>)       // the lock package of a member
  {
    ghost predicate Valid() {
      && deps.Keys == entries.Keys
      && (forall k <- deps :: deps[k] <= entries.Keys)
      && (forall m <- memberKeys :: m in members && memberKeys[m] in entries
                                    && memberKeys[m].name == m && memberKeys[m].source == "")
      && (forall k <- entries :: k.source == "" && k.name in members ==> k.name in memberKeys)
    }

    /** The package a dependency line names, after the renames of the line and of the workspace. */
    function PackageName(d: Declaration): string {
      match d.spec
      case Version(_) => d.key
      case Detailed(workspace, package) =>
        if package.Some? then package.value
        else if workspace && d.key in workspaceDeps && workspaceDeps[d.key].package.Some?
        then workspaceDeps[d.key].package.value
        else d.key
    }

    /** The kinds under which a member declares a package. */
    function Kinds(member: string, name: string): set<Kind>
      requires member in members
    {
      set d | d in members[member] && PackageName(d) == name
        :: if d.table == DevDependencies then Dev else Normal
    }

    predicate IsMemberKey(k: Key) {
      k.name in memberKeys && memberKeys[k.name] == k
    }

    /** What whoever depends on `k` builds with it: for a member, not what it needs in development only. */
    function BuildEdges(k: Key): set<Key>
      requires Valid() && k in entries
    {
      if !IsMemberKey(k) then deps[k]
      else set d | d in deps[k] && Kinds(k.name, d.name) != {Dev}
    }

    /** The edges followed from `k` in the closure that starts at `start`. */
    function Edges(start: Key, k: Key): set<Key>
      requires Valid() && k in entries
    {
      if k == start then deps[k] else BuildEdges(k)
    }

    ghost predicate Path(start: Key, p: seq<Key>)
      requires Valid()
    {
      && p != [] && p[0] == start
      && (forall i :: 0 <= i < |p| ==> p[i] in entries)
      && (forall i :: 0 < i < |p| ==> p[i] in Edges(start, p[i - 1]))
    }

    ghost predicate Reaches(start: Key, k: Key)
      requires Valid()
    {
      exists p :: Path(start, p) && p[|p| - 1] == k
    }

    /** What the build and the tests of a member read: every package some path leads to. */
    ghost function Closure(member: string): set<Key>
      requires Valid() && member in memberKeys
    {
      set k | k in entries && Reaches(memberKeys[member], k)
    }
  }

  /** `s` holds the start of a closure and every edge followed from a package in it. */
  ghost predicate Closed(t: Tree, start: Key, s: set<Key>)
    requires t.Valid()
  {
    start in s && s <= t.entries.Keys && forall k <- s :: t.Edges(start, k) <= s
  }

  /** The closure is closed, and every other closed set holds it: it is the least one. */
  lemma {:induction false} ClosureIsClosed(t: Tree, member: string)
    requires t.Valid() && member in t.memberKeys
    ensures Closed(t, t.memberKeys[member], t.Closure(member))
  {
    var start := t.memberKeys[member];
    assert t.Path(start, [start]);
    forall k, d | k in t.Closure(member) && d in t.Edges(start, k)
      ensures d in t.Closure(member)
    {
      var p :| t.Path(start, p) && p[|p| - 1] == k;
      assert t.Path(start, p + [d]);
      assert (p + [d])[|p + [d]| - 1] == d;
    }
  }

  lemma {:induction false} ClosedHoldsPath(t: Tree, start: Key, closed: set<Key>, p: seq<Key>, i: nat)
    requires t.Valid() && Closed(t, start, closed) && t.Path(start, p) && i < |p|
    ensures p[i] in closed
  {
    if i > 0 {
      ClosedHoldsPath(t, start, closed, p, i - 1);
    }
  }

  lemma {:induction false} ClosedHoldsClosure(t: Tree, member: string, closed: set<Key>)
    requires t.Valid() && member in t.memberKeys && Closed(t, t.memberKeys[member], closed)
    ensures t.Closure(member) <= closed
  {
    forall k <- t.Closure(member) ensures k in closed {
      var p :| t.Path(t.memberKeys[member], p) && p[|p| - 1] == k;
      ClosedHoldsPath(t, t.memberKeys[member], closed, p, |p| - 1);
    }
  }

  /** Notes every unseen dependency and leaves it for later, in whatever order the set has. */
  method PushAll(unseen: set<Key>, pending: seq<Key>) returns (later: seq<Key>)
    ensures pending <= later
    ensures forall k :: k in later <==> k in pending || k in unseen
    ensures unseen == {} ==> later == pending
  {
    later := pending;
    var rest := unseen;
    while rest != {}
      invariant rest <= unseen && pending <= later
      invariant forall k :: k in later <==> k in pending || k in unseen - rest
      invariant unseen == {} ==> later == pending
      decreases rest
    {
      var dep :| dep in rest;
      rest, later := rest - {dep}, later + [dep];
    }
  }

  /** What the worklist keeps: only seen packages wait, and the others have handed on their edges. */
  ghost predicate Frontier(t: Tree, start: Key, seen: set<Key>, pending: seq<Key>)
    requires t.Valid()
  {
    && start in seen && seen <= t.entries.Keys
    && (forall k <- pending :: k in seen)
    && (forall k <- seen :: k in pending || t.Edges(start, k) <= seen)
  }

  lemma {:induction false} FrontierStep(t: Tree, start: Key, seen: set<Key>, rest: seq<Key>, key: Key, edges: set<Key>,
                     later: seq<Key>)
    requires t.Valid() && Frontier(t, start, seen, rest + [key]) && edges == t.Edges(start, key)
    requires forall k :: k in later <==> k in rest || k in edges - seen
    ensures Frontier(t, start, seen + edges, later)
  {
    assert key in rest + [key];
    assert edges <= t.entries.Keys;
    forall k <- seen + edges ensures k in later || t.Edges(start, k) <= seen + edges {
      if k in seen && k != key && k !in rest {
        assert k !in rest + [key];
      }
    }
  }

  lemma {:induction false} Shrinks(all: set<Key>, seen: set<Key>, edges: set<Key>)
    requires seen <= all && edges <= all
    ensures edges <= seen ==> seen + edges == seen && edges - seen == {}
    ensures !(edges <= seen) ==> |all - (seen + edges)| < |all - seen|
  {
    if !(edges <= seen) {
      SmallerRest(all, seen, seen + edges);
    }
  }

  /** The worklist: stops on every finite graph, cyclic or not, with the least closed set. */
  method Worklist(t: Tree, start: Key, ghost goal: set<Key>) returns (seen: set<Key>)
    requires t.Valid() && Closed(t, start, goal)
    ensures Closed(t, start, seen) && seen <= goal
  {
    seen := {start};
    var pending := [start];
    while pending != []
      invariant Frontier(t, start, seen, pending) && seen <= goal
      decreases |t.entries.Keys - seen|, |pending|
    {
      var rest, key := pending[..|pending| - 1], pending[|pending| - 1];
      assert key in pending && pending == rest + [key];
      var edges := t.Edges(start, key);
      var later := PushAll(edges - seen, rest);
      FrontierStep(t, start, seen, rest, key, edges, later);
      Shrinks(t.entries.Keys, seen, edges);
      seen, pending := seen + edges, later;
    }
  }

  /** The closure of a member is exactly what the paths from it reach. */
  method ComputeClosure(t: Tree, member: string) returns (seen: set<Key>)
    requires t.Valid() && member in t.memberKeys
    ensures seen == t.Closure(member)
  {
    ClosureIsClosed(t, member);
    seen := Worklist(t, t.memberKeys[member], t.Closure(member));
    ClosedHoldsClosure(t, member, seen);
  }

  lemma {:induction false} SmallerRest(all: set<Key>, before: set<Key>, after: set<Key>)
    requires before < after <= all
    ensures |all - after| < |all - before|
  {
    var k :| k in after && k !in before;
    assert all - after <= all - before - {k};
    Cardinality(all - after, all - before - {k});
  }

  lemma {:induction false} Cardinality(a: set<Key>, b: set<Key>)
    requires a <= b
    ensures |a| <= |b|
  {
    if a != {} {
      var k :| k in a;
      Cardinality(a - {k}, b - {k});
    }
  }

  // ---- lock dependency strings ----

  /** How the lock names a dependency: by name, with version and source where others share the name. */
  datatype LockSpec = LockSpec(name: string, version: Option<string>, source: Option<string>)

  predicate Matches(spec: LockSpec, k: Key) {
    && k.name == spec.name
    && (spec.version.Some? ==> k.version == spec.version.value)
    && (spec.source.Some? ==> k.source == spec.source.value)
  }

  function Candidates(spec: LockSpec, packages: seq<Key>): (r: seq<Key>)
    ensures forall k :: k in r <==> k in packages && Matches(spec, k)
  {
    if packages == [] then []
    else (if Matches(spec, packages[0]) then [packages[0]] else []) + Candidates(spec, packages[1..])
  }

  /** The package a string names, or the number of packages it could have named. */
  function Resolve(spec: LockSpec, packages: seq<Key>): Result<Key, nat> {
    var candidates := Candidates(spec, packages);
    if |candidates| == 1 then Ok(candidates[0]) else Err(|candidates|)
  }

  ghost predicate Distinct(packages: seq<Key>) {
    forall i, j :: 0 <= i < j < |packages| ==> packages[i] != packages[j]
  }

  lemma {:induction false} CandidatesDistinct(spec: LockSpec, packages: seq<Key>)
    requires Distinct(packages)
    ensures Distinct(Candidates(spec, packages))
  {
    if packages != [] {
      var c := Candidates(spec, packages[1..]);
      CandidatesDistinct(spec, packages[1..]);
      forall i | 0 <= i < |c| ensures c[i] != packages[0] {
        assert c[i] in packages[1..];
      }
    }
  }

  /** A string resolves to `k` exactly when `k` is the one package of the lock it matches. */
  lemma {:induction false} ResolveIsUnique(spec: LockSpec, packages: seq<Key>, k: Key)
    requires Distinct(packages)
    ensures Resolve(spec, packages) == Ok(k)
       <==> k in packages && Matches(spec, k) && forall o <- packages :: Matches(spec, o) ==> o == k
  {
    var c := Candidates(spec, packages);
    CandidatesDistinct(spec, packages);
    assert c != [] ==> c[0] in c;
    assert |c| > 1 ==> c[1] in c && c[0] != c[1];
    assert |c| == 1 ==> forall o <- c :: o == c[0];
  }
}
