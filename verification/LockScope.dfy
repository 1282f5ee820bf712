/**
 Which workspace members a change of Cargo.lock or of the root Cargo.toml reaches
 (scripts/lib/lock-scope.py, `scope`). The main result is that the answer is exact: by the lock's
 rules a member is named if and only if what its build and its tests read from the lock differs.
 */
module LockScope {
  import opened Wrappers
  import opened LockGraph

  datatype Reason =
    | WorkspaceDependency(name: string)
    | OwnDevDependencies(member: string)
    | PackageChanged(name: string)
    | DependenciesChanged(name: string)

  datatype Outcome = Wide | Affected(reasons: map<string, set<Reason>>)

  /** A change outside the dependency lines governs the whole build. */
  predicate IsWide(was: Tree, now: Tree) {
    || was.rootRest != now.rootRest
    || was.workspaceRest != now.workspaceRest
    || was.lockRest != now.lockRest
    || was.members.Keys != now.members.Keys
  }

  function ChangedWorkspaceDeps(was: Tree, now: Tree): set<string> {
    set n | n in was.workspaceDeps.Keys + now.workspaceDeps.Keys
         && !(n in was.workspaceDeps && n in now.workspaceDeps
              && was.workspaceDeps[n] == now.workspaceDeps[n])
  }

  predicate Takes(t: Tree, member: string, name: string) {
    member in t.members
    && exists d <- t.members[member] :: d.key == name && d.spec.Detailed? && d.spec.workspace
  }

  /** How a package that is in both locks differs between them. */
  datatype Change = Unchanged | Republished | OnlyDev | Rewired

  function ChangeOf(was: Tree, now: Tree, k: Key): Change
    requires was.Valid() && now.Valid() && k in was.entries && k in now.entries
  {
    if was.entries[k] != now.entries[k] then Republished
    else if was.deps[k] == now.deps[k] then Unchanged
    else if was.BuildEdges(k) == now.BuildEdges(k) then OnlyDev
    else Rewired
  }

  function Changes(was: Tree, now: Tree): map<Key, Change>
    requires was.Valid() && now.Valid()
  {
    map k | k in was.entries && k in now.entries :: ChangeOf(was, now, k)
  }

  function Those(changes: map<Key, Change>, which: Change): set<Key> {
    set k | k in changes && changes[k] == which
  }

  function AddedOrRemoved(was: Tree, now: Tree): set<Key> {
    (was.entries.Keys - now.entries.Keys) + (now.entries.Keys - was.entries.Keys)
  }

  /** Packages that arrived, left or were republished under the same version. */
  function Primary(was: Tree, now: Tree): set<Key>
    requires was.Valid() && now.Valid()
  {
    AddedOrRemoved(was, now) + Those(Changes(was, now), Republished)
  }

  /** Packages whose dependencies changed in a way that reaches a dependant. */
  function Carried(was: Tree, now: Tree): set<Key>
    requires was.Valid() && now.Valid()
  {
    Those(Changes(was, now), Rewired)
  }

  /** Packages of which only dev-dependencies changed. */
  function DevOnly(was: Tree, now: Tree): set<Key>
    requires was.Valid() && now.Valid()
  {
    Those(Changes(was, now), OnlyDev)
  }

  // ---- the reasons a member is named for ----

  function TakenReasons(was: Tree, now: Tree, names: set<string>, m: string): set<Reason> {
    set n | n in names && (Takes(was, m, n) || Takes(now, m, n)) :: WorkspaceDependency(n)
  }

  function WorkspaceReasons(was: Tree, now: Tree, m: string): set<Reason> {
    TakenReasons(was, now, ChangedWorkspaceDeps(was, now), m)
  }

  function OwnReasons(devOnly: set<Key>, m: string): set<Reason> {
    set k | k in devOnly && k.name == m :: OwnDevDependencies(m)
  }

  function DevReasons(was: Tree, now: Tree, m: string): set<Reason>
    requires was.Valid() && now.Valid()
  {
    OwnReasons(DevOnly(was, now), m)
  }

  ghost function ClosureOrNone(t: Tree, m: string): set<Key>
    requires t.Valid()
  {
    if m in t.memberKeys then t.Closure(m) else {}
  }

  /** Every package a member reads in either tree. */
  ghost function Read(was: Tree, now: Tree, m: string): set<Key>
    requires was.Valid() && now.Valid()
  {
    ClosureOrNone(was, m) + ClosureOrNone(now, m)
  }

  function CauseReasons(primary: set<Key>, carried: set<Key>, read: set<Key>): set<Reason> {
    if read * primary != {} then set k | k in read * primary :: PackageChanged(k.name)
    else set k | k in read * carried :: DependenciesChanged(k.name)
  }

  ghost function LockReasons(was: Tree, now: Tree, m: string): set<Reason>
    requires was.Valid() && now.Valid()
  {
    DevReasons(was, now, m)
    + CauseReasons(Primary(was, now), Carried(was, now), Read(was, now, m))
  }

  ghost function Reasons(was: Tree, now: Tree, m: string): set<Reason>
    requires was.Valid() && now.Valid()
  {
    WorkspaceReasons(was, now, m) + LockReasons(was, now, m)
  }

  // ---- what being unaffected means ----

  /** The member manifests declare the same dependencies for development only in both trees. */
  ghost predicate SameKinds(was: Tree, now: Tree) {
    was.members.Keys == now.members.Keys
    && forall m, n | m in was.members :: was.Kinds(m, n) == {Dev} <==> now.Kinds(m, n) == {Dev}
  }

  /** A package of both locks is a member's own package in both or in neither. */
  ghost predicate SameMemberKeys(was: Tree, now: Tree) {
    forall k <- was.entries.Keys * now.entries.Keys :: was.IsMemberKey(k) <==> now.IsMemberKey(k)
  }

  /** What the build of `m` reads is the same on both sides: its own dependencies, the packages
      below it, their checksums and the edges its build follows from them. */
  ghost predicate SameBuild(was: Tree, now: Tree, m: string)
    requires was.Valid() && now.Valid()
  {
    && m in was.memberKeys && m in now.memberKeys && was.memberKeys[m] == now.memberKeys[m]
    && was.deps[was.memberKeys[m]] == now.deps[now.memberKeys[m]]
    && was.Closure(m) == now.Closure(m)
    && forall k <- was.Closure(m) ::
         && k in now.entries && was.entries[k] == now.entries[k]
         && was.BuildEdges(k) == now.BuildEdges(k)
  }

  /** A lock with one source-less package to a name gives every member the same package. */
  ghost predicate OneLocalPackage(t: Tree) {
    forall k, o | k in t.entries && o in t.entries && k.source == "" && o.source == "" && k.name == o.name
      :: k == o
  }

  lemma {:induction false} OneLocalPackageAgrees(was: Tree, now: Tree)
    requires was.Valid() && now.Valid() && was.members.Keys == now.members.Keys
    requires OneLocalPackage(was) && OneLocalPackage(now)
    ensures SameMemberKeys(was, now)
  {
    forall k <- was.entries.Keys * now.entries.Keys
      ensures was.IsMemberKey(k) <==> now.IsMemberKey(k)
    {
      if k.source == "" && k.name in was.members {
        assert k.name in was.memberKeys && k.name in now.memberKeys;
      }
    }
  }

  /** A member has a package in both locks, and it is the same one. */
  predicate KeepsPackage(was: Tree, now: Tree, m: string) {
    m in was.memberKeys && m in now.memberKeys && was.memberKeys[m] == now.memberKeys[m]
  }

  /** A package of which the locks say nothing new, and whose build edges differ all the same: only the
      member manifests, or which package is a member's own, can make it so. */
  predicate SilentChange(was: Tree, now: Tree, k: Key)
    requires was.Valid() && now.Valid()
  {
    k in was.entries && k in now.entries && was.deps[k] == now.deps[k] && was.BuildEdges(k) != now.BuildEdges(k)
  }

  ghost predicate NoSilentChange(was: Tree, now: Tree, read: set<Key>)
    requires was.Valid() && now.Valid()
  {
    forall k <- read :: !SilentChange(was, now, k)
  }

  /** Of a member's package in both trees it is exactly a dependency that is dev-only in one of them. */
  lemma {:induction false} SilentIsKinds(was: Tree, now: Tree, k: Key)
    requires was.Valid() && now.Valid() && was.IsMemberKey(k) && now.IsMemberKey(k)
    requires k in was.entries && k in now.entries && was.deps[k] == now.deps[k]
    ensures SilentChange(was, now, k)
       <==> exists d <- was.deps[k] :: (was.Kinds(k.name, d.name) == {Dev}) != (now.Kinds(k.name, d.name) == {Dev})
  {
    if d :| d in was.deps[k] && (was.Kinds(k.name, d.name) == {Dev}) != (now.Kinds(k.name, d.name) == {Dev}) {
      assert (d in was.BuildEdges(k)) != (d in now.BuildEdges(k));
    }
  }

  /** Where the kinds and the members' packages agree there is none. */
  lemma {:induction false} SameKindsNoSilentChange(was: Tree, now: Tree, k: Key)
    requires was.Valid() && now.Valid() && SameKinds(was, now) && SameMemberKeys(was, now)
    ensures !SilentChange(was, now, k)
  {
    if k in was.entries && k in now.entries && was.deps[k] == now.deps[k] {
      assert k in was.entries.Keys * now.entries.Keys;
      if was.IsMemberKey(k) {
        assert k.name in was.members;
        SilentIsKinds(was, now, k);
      }
    }
  }

  /** The reads of one tree are closed in the other once nothing in them changed. */
  lemma {:induction false} UnchangedCarriesOver(a: Tree, b: Tree, m: string)
    requires a.Valid() && b.Valid() && m in a.memberKeys && m in b.memberKeys
    requires a.memberKeys[m] == b.memberKeys[m]
    requires a.deps[a.memberKeys[m]] == b.deps[b.memberKeys[m]]
    requires forall k <- a.Closure(m) :: k in b.entries && a.BuildEdges(k) == b.BuildEdges(k)
    ensures b.Closure(m) <= a.Closure(m)
  {
    var start := a.memberKeys[m];
    ClosureIsClosed(a, m);
    forall k <- a.Closure(m) ensures b.Edges(start, k) <= a.Closure(m) {
      assert a.Edges(start, k) == b.Edges(start, k);
    }
    ClosedHoldsClosure(b, m, a.Closure(m));
  }

  lemma {:induction false} SomeCause(primary: set<Key>, carried: set<Key>, read: set<Key>, k: Key)
    requires k in read && (k in primary || k in carried)
    ensures CauseReasons(primary, carried, read) != {}
  {
    if read * primary != {} {
      var p :| p in read * primary;
      assert PackageChanged(p.name) in CauseReasons(primary, carried, read);
    } else {
      assert k !in read * primary && k in read * carried;
      assert DependenciesChanged(k.name) in CauseReasons(primary, carried, read);
    }
  }

  lemma {:induction false} NoCause(primary: set<Key>, carried: set<Key>, read: set<Key>)
    requires forall k <- read :: k !in primary && k !in carried
    ensures CauseReasons(primary, carried, read) == {}
  {
    assert read * primary == {} && read * carried == {};
  }

  lemma {:induction false} CauseReasonsEmpty(primary: set<Key>, carried: set<Key>, read: set<Key>)
    ensures CauseReasons(primary, carried, read) == {} <==> forall k <- read :: k !in primary && k !in carried
  {
    if k :| k in read && (k in primary || k in carried) {
      SomeCause(primary, carried, read, k);
    } else {
      NoCause(primary, carried, read);
    }
  }

  lemma {:induction false} DevReasonsEmpty(was: Tree, now: Tree, m: string)
    requires was.Valid() && now.Valid()
    ensures DevReasons(was, now, m) == {} <==> forall k <- DevOnly(was, now) :: k.name != m
  {
    if k :| k in DevOnly(was, now) && k.name == m {
      assert OwnDevDependencies(m) in DevReasons(was, now, m);
    }
  }

  /** What an unnamed member reads differs at most silently. */
  lemma {:induction false} UnnamedReadsUnchanged(was: Tree, now: Tree, m: string, k: Key)
    requires was.Valid() && now.Valid() && LockReasons(was, now, m) == {} && k in Read(was, now, m)
    ensures k in was.entries && k in now.entries && was.entries[k] == now.entries[k]
    ensures was.BuildEdges(k) == now.BuildEdges(k) || SilentChange(was, now, k)
  {
    CauseReasonsEmpty(Primary(was, now), Carried(was, now), Read(was, now, m));
    assert k !in Primary(was, now) && k !in Carried(was, now);
  }

  lemma {:induction false} OwnIsRead(was: Tree, now: Tree, m: string)
    requires was.Valid() && now.Valid()
    ensures m in was.memberKeys ==> was.memberKeys[m] in Read(was, now, m)
    ensures m in now.memberKeys ==> now.memberKeys[m] in Read(was, now, m)
  {
    if m in was.memberKeys {
      ClosureIsClosed(was, m);
    }
    if m in now.memberKeys {
      ClosureIsClosed(now, m);
    }
  }

  /** An unnamed member's own dependencies, dev ones included, are the same. */
  lemma {:induction false} UnnamedKeepsItsDeps(was: Tree, now: Tree, m: string)
    requires was.Valid() && now.Valid() && LockReasons(was, now, m) == {} && KeepsPackage(was, now, m)
    ensures was.deps[was.memberKeys[m]] == now.deps[now.memberKeys[m]]
  {
    var start := was.memberKeys[m];
    OwnIsRead(was, now, m);
    DevReasonsEmpty(was, now, m);
    CauseReasonsEmpty(Primary(was, now), Carried(was, now), Read(was, now, m));
    assert start !in Primary(was, now) && start !in Carried(was, now) && start !in DevOnly(was, now);
  }

  /** An unnamed member whose package stays builds the same unless something it reads changed silently. */
  lemma {:induction false} UnnamedBuildsTheSame(was: Tree, now: Tree, m: string)
    requires was.Valid() && now.Valid() && LockReasons(was, now, m) == {} && KeepsPackage(was, now, m)
    requires NoSilentChange(was, now, Read(was, now, m))
    ensures SameBuild(was, now, m)
  {
    UnnamedKeepsItsDeps(was, now, m);
    forall k <- Read(was, now, m)
      ensures k in was.entries && k in now.entries && was.entries[k] == now.entries[k]
      ensures was.BuildEdges(k) == now.BuildEdges(k)
    {
      UnnamedReadsUnchanged(was, now, m, k);
    }
    UnchangedCarriesOver(was, now, m);
    UnchangedCarriesOver(now, was, m);
  }

  lemma {:induction false} SameBuildReadsUnchanged(was: Tree, now: Tree, m: string, k: Key)
    requires was.Valid() && now.Valid() && SameBuild(was, now, m) && k in Read(was, now, m)
    ensures k !in Primary(was, now) && k !in Carried(was, now) && !SilentChange(was, now, k)
  {
    assert k in was.Closure(m);
  }

  lemma {:induction false} SameBuildHasNoDevChange(was: Tree, now: Tree, m: string, k: Key)
    requires was.Valid() && now.Valid() && SameBuild(was, now, m) && k in DevOnly(was, now)
    ensures k.name != m
  {
  }

  /** A member whose build is the same on both sides is not named by the lock. */
  lemma {:induction false} UnaffectedIsUnnamed(was: Tree, now: Tree, m: string)
    requires was.Valid() && now.Valid() && SameBuild(was, now, m)
    ensures LockReasons(was, now, m) == {} && NoSilentChange(was, now, Read(was, now, m))
  {
    var primary, carried, read, dev := Primary(was, now), Carried(was, now), Read(was, now, m), DevOnly(was, now);
    forall k <- read ensures k !in primary && k !in carried && !SilentChange(was, now, k) {
      SameBuildReadsUnchanged(was, now, m, k);
    }
    CauseReasonsEmpty(primary, carried, read);
    forall k <- dev ensures k.name != m {
      SameBuildHasNoDevChange(was, now, m, k);
    }
    DevReasonsEmpty(was, now, m);
  }

  /** For any two trees: a member's build is the same if and only if the lock does not name it, its
      package is the same one, and nothing it reads changed silently. */
  lemma {:induction false} ScopeIsExact(was: Tree, now: Tree, m: string)
    requires was.Valid() && now.Valid()
    ensures SameBuild(was, now, m)
       <==> && LockReasons(was, now, m) == {} && KeepsPackage(was, now, m)
            && NoSilentChange(was, now, Read(was, now, m))
  {
    if SameBuild(was, now, m) {
      UnaffectedIsUnnamed(was, now, m);
    }
    if LockReasons(was, now, m) == {} && KeepsPackage(was, now, m) && NoSilentChange(was, now, Read(was, now, m)) {
      UnnamedBuildsTheSame(was, now, m);
    }
  }

  /** An unnamed member that has a package at all keeps it where the trees agree on the members'. */
  lemma {:induction false} UnnamedKeepsItsPackage(was: Tree, now: Tree, m: string)
    requires was.Valid() && now.Valid() && SameMemberKeys(was, now) && LockReasons(was, now, m) == {}
    requires m in was.memberKeys || m in now.memberKeys
    ensures KeepsPackage(was, now, m)
  {
    var start := if m in was.memberKeys then was.memberKeys[m] else now.memberKeys[m];
    OwnIsRead(was, now, m);
    UnnamedReadsUnchanged(was, now, m, start);
    assert start in was.entries.Keys * now.entries.Keys;
    assert was.IsMemberKey(start) <==> now.IsMemberKey(start);
  }

  /** Where the manifests declare the same kinds, the lock names a member if and only if its build
      differs. */
  lemma {:induction false} UnnamedIsUnaffected(was: Tree, now: Tree, m: string)
    requires was.Valid() && now.Valid() && SameKinds(was, now) && SameMemberKeys(was, now)
    requires m in was.memberKeys || m in now.memberKeys
    ensures LockReasons(was, now, m) == {} <==> SameBuild(was, now, m)
  {
    if LockReasons(was, now, m) == {} {
      UnnamedKeepsItsPackage(was, now, m);
      forall k <- Read(was, now, m) ensures !SilentChange(was, now, k) {
        SameKindsNoSilentChange(was, now, k);
      }
    }
    ScopeIsExact(was, now, m);
  }

  // ---- the loops of `scope` ----

  type Named = map<string, set<Reason>>

  function Of(reasons: Named, m: string): set<Reason> {
    if m in reasons then reasons[m] else {}
  }

  /** `reasons.setdefault(m, set()).update(more)`, for reasons that are there. */
  function Add(reasons: Named, m: string, more: set<Reason>): (r: Named)
    ensures forall o :: Of(r, o) == Of(reasons, o) + if o == m then more else {}
    ensures (forall o <- reasons :: reasons[o] != {}) ==> forall o <- r :: r[o] != {}
  {
    if more == {} then reasons else reasons[m := Of(reasons, m) + more]
  }

  method AddTakers(reasons: Named, t: Tree, name: string) returns (r: Named)
    requires forall o <- reasons :: reasons[o] != {}
    ensures forall o <- r :: r[o] != {}
    ensures forall m :: Of(r, m) == Of(reasons, m) + if Takes(t, m, name) then {WorkspaceDependency(name)} else {}
  {
    r := reasons;
    var rest := t.members.Keys;
    while rest != {}
      invariant rest <= t.members.Keys && forall o <- r :: r[o] != {}
      invariant forall m ::
          Of(r, m) == Of(reasons, m) + if m !in rest && Takes(t, m, name) then {WorkspaceDependency(name)} else {}
      decreases rest
    {
      var m :| m in rest;
      rest := rest - {m};
      if Takes(t, m, name) {
        r := Add(r, m, {WorkspaceDependency(name)});
      }
    }
  }

  lemma {:induction false} TakenNext(was: Tree, now: Tree, names: set<string>, name: string, m: string)
    ensures TakenReasons(was, now, names + {name}, m) == TakenReasons(was, now, names, m)
      + (if Takes(was, m, name) then {WorkspaceDependency(name)} else {})
      + (if Takes(now, m, name) then {WorkspaceDependency(name)} else {})
  {
    assert name in names + {name};
  }

  method AddWorkspaceReasons(was: Tree, now: Tree) returns (r: Named)
    ensures forall o <- r :: r[o] != {}
    ensures forall m :: Of(r, m) == WorkspaceReasons(was, now, m)
  {
    r := map[];
    var all := ChangedWorkspaceDeps(was, now);
    var rest := all;
    while rest != {}
      invariant rest <= all && forall o <- r :: r[o] != {}
      invariant forall m :: Of(r, m) == TakenReasons(was, now, all - rest, m)
      decreases rest
    {
      var name :| name in rest;
      ghost var before := all - rest;
      rest := rest - {name};
      r := AddTakers(r, was, name);
      r := AddTakers(r, now, name);
      assert all - rest == before + {name};
      forall m ensures Of(r, m) == TakenReasons(was, now, before + {name}, m) {
        TakenNext(was, now, before, name, m);
      }
    }
    assert all - {} == all;
  }

  /** The pass over the packages of both locks: three heaps, and the member's own reason at once. */
  method CompareEntries(changes: map<Key, Change>, lone: set<Key>, reasons: Named)
    returns (primary: set<Key>, carried: set<Key>, r: Named)
    requires forall o <- reasons :: reasons[o] != {}
    ensures primary == lone + Those(changes, Republished) && carried == Those(changes, Rewired)
    ensures NamesToo(reasons, r, Those(changes, OnlyDev))
  {
    primary, carried, r := lone, {}, reasons;
    var rest := changes.Keys;
    ghost var devOnly := {};
    while rest != {}
      invariant rest <= changes.Keys && NamesToo(reasons, r, devOnly)
      invariant primary == lone + (Those(changes, Republished) - rest)
      invariant carried == Those(changes, Rewired) - rest
      invariant devOnly == Those(changes, OnlyDev) - rest
      decreases rest
    {
      var key :| key in rest;
      forall which {
        ThoseStep(changes, which, rest, key);
      }
      rest := rest - {key};
      match changes[key] {
        case Unchanged =>
        case Republished => primary := primary + {key};
        case Rewired => carried := carried + {key};
        case OnlyDev =>
          OwnReasonsStep(reasons, r, devOnly, key);
          r := Add(r, key.name, {OwnDevDependencies(key.name)});
          devOnly := devOnly + {key};
      }
    }
    assert devOnly == Those(changes, OnlyDev);
  }

  lemma {:induction false} ThoseStep(changes: map<Key, Change>, which: Change, rest: set<Key>, key: Key)
    requires key in rest && key in changes
    ensures Those(changes, which) - (rest - {key})
         == (Those(changes, which) - rest) + if changes[key] == which then {key} else {}
  {
  }

  lemma {:induction false} OwnReasonsStep(reasons: Named, r: Named, devOnly: set<Key>, key: Key)
    requires NamesToo(reasons, r, devOnly)
    ensures NamesToo(reasons, Add(r, key.name, {OwnDevDependencies(key.name)}), devOnly + {key})
  {
    assert key in devOnly + {key};
    forall m ensures OwnReasons(devOnly + {key}, m)
                     == OwnReasons(devOnly, m) + if m == key.name then {OwnDevDependencies(m)} else {} {}
  }

  /** `r` names what `reasons` names, and the members of `devOnly` for their own change. */
  ghost predicate NamesToo(reasons: Named, r: Named, devOnly: set<Key>) {
    && (forall o <- r :: r[o] != {})
    && forall m :: Of(r, m) == Of(reasons, m) + OwnReasons(devOnly, m)
  }

  function KeysOf(reached: map<string, set<Key>>, m: string): set<Key> {
    if m in reached then reached[m] else {}
  }

  /** `r` adds to `reached` what changed of the closures of all members but `rest`. */
  ghost predicate ReachedToo(t: Tree, reached: map<string, set<Key>>, r: map<string, set<Key>>, changed: set<Key>,
                             rest: set<string>)
    requires t.Valid()
  {
    forall m :: KeysOf(r, m) == KeysOf(reached, m) + if m in rest then {} else ClosureOrNone(t, m) * changed
  }

  lemma {:induction false} ReachedStep(t: Tree, reached: map<string, set<Key>>, r: map<string, set<Key>>,
                                       changed: set<Key>, rest: set<string>, member: string, closure: set<Key>)
    requires t.Valid() && ReachedToo(t, reached, r, changed, rest)
    requires member in rest && closure == ClosureOrNone(t, member)
    ensures ReachedToo(t, reached, r[member := KeysOf(r, member) + closure * changed], changed, rest - {member})
  {
  }

  /** The packages of one tree that changed, member by member, on top of those of the other. */
  method AddReached(t: Tree, reached: map<string, set<Key>>, changed: set<Key>)
    returns (r: map<string, set<Key>>)
    requires t.Valid()
    ensures ReachedToo(t, reached, r, changed, {})
  {
    r := reached;
    var rest := t.memberKeys.Keys;
    while rest != {}
      invariant rest <= t.memberKeys.Keys && ReachedToo(t, reached, r, changed, rest)
      decreases rest
    {
      var member :| member in rest;
      var closure := ComputeClosure(t, member);
      ReachedStep(t, reached, r, changed, rest, member, closure);
      rest := rest - {member};
      r := r[member := KeysOf(r, member) + closure * changed];
    }
  }

  /** `r` names what `reasons` names and the causes in `reached` of all members but `rest`. */
  ghost predicate CausesToo(reasons: Named, r: Named, reached: map<string, set<Key>>, rest: set<string>,
                            primary: set<Key>, carried: set<Key>) {
    && (forall o <- r :: r[o] != {})
    && forall m ::
         Of(r, m) == Of(reasons, m)
                     + if m in reached && m !in rest then CauseReasons(primary, carried, reached[m]) else {}
  }

  lemma {:induction false} CausesStep(reasons: Named, r: Named, reached: map<string, set<Key>>, rest: set<string>,
                                      primary: set<Key>, carried: set<Key>, member: string)
    requires CausesToo(reasons, r, reached, rest, primary, carried) && member in rest && member in reached
    ensures CausesToo(reasons, Add(r, member, CauseReasons(primary, carried, reached[member])), reached,
                      rest - {member}, primary, carried)
  {
  }

  method AddCauses(reached: map<string, set<Key>>, primary: set<Key>, carried: set<Key>, reasons: Named)
    returns (r: Named)
    requires forall o <- reasons :: reasons[o] != {}
    ensures CausesToo(reasons, r, reached, {}, primary, carried)
  {
    r := reasons;
    var rest := reached.Keys;
    while rest != {}
      invariant rest <= reached.Keys && CausesToo(reasons, r, reached, rest, primary, carried)
      decreases rest
    {
      var member :| member in rest;
      CausesStep(reasons, r, reached, rest, primary, carried, member);
      rest := rest - {member};
      r := Add(r, member, CauseReasons(primary, carried, reached[member]));
    }
  }

  /** The whole answer: WIDE, or every affected member with all its reasons and no other member. */
  method Scope(was: Tree, now: Tree) returns (outcome: Outcome)
    requires was.Valid() && now.Valid()
    ensures outcome.Wide? <==> IsWide(was, now)
    ensures outcome.Affected? ==>
              forall m :: m in outcome.reasons <==> Reasons(was, now, m) != {}
    ensures outcome.Affected? ==>
              forall m <- outcome.reasons :: outcome.reasons[m] == Reasons(was, now, m)
  {
    if IsWide(was, now) {
      return Wide;
    }
    var reasons := AddWorkspaceReasons(was, now);
    var primary, carried;
    primary, carried, reasons := CompareEntries(Changes(was, now), AddedOrRemoved(was, now), reasons);
    reasons := AddAllCauses(was, now, primary, carried, reasons);
    outcome := Affected(reasons);
    assert forall m :: Of(reasons, m) == Reasons(was, now, m);
  }

  /** Both trees: what each member reads of what changed. */
  method Reached(was: Tree, now: Tree, changed: set<Key>) returns (r: map<string, set<Key>>)
    requires was.Valid() && now.Valid()
    ensures forall m :: KeysOf(r, m) == Read(was, now, m) * changed
  {
    r := AddReached(was, map[], changed);
    r := AddReached(now, r, changed);
    forall m ensures KeysOf(r, m) == Read(was, now, m) * changed {
      Distribute(ClosureOrNone(was, m), ClosureOrNone(now, m), changed);
    }
  }

  lemma {:induction false} Distribute(a: set<Key>, b: set<Key>, c: set<Key>)
    ensures {} + a * c + b * c == (a + b) * c
  {
  }

  method AddAllCauses(was: Tree, now: Tree, primary: set<Key>, carried: set<Key>, reasons: Named)
    returns (r: Named)
    requires was.Valid() && now.Valid() && forall o <- reasons :: reasons[o] != {}
    ensures forall o <- r :: r[o] != {}
    ensures forall m :: Of(r, m) == Of(reasons, m) + CauseReasons(primary, carried, Read(was, now, m))
  {
    var reached := Reached(was, now, primary + carried);
    r := AddCauses(reached, primary, carried, reasons);
    forall m ensures Of(r, m) == Of(reasons, m) + CauseReasons(primary, carried, Read(was, now, m)) {
      CausesOfChanged(primary, carried, Read(was, now, m), KeysOf(reached, m));
    }
  }

  /** Causes only look at what changed, so the part of the reads that changed is enough. */
  lemma {:induction false} CausesOfChanged(primary: set<Key>, carried: set<Key>, read: set<Key>, changed: set<Key>)
    requires changed == read * (primary + carried)
    ensures CauseReasons(primary, carried, changed) == CauseReasons(primary, carried, read)
    ensures changed == {} ==> CauseReasons(primary, carried, read) == {}
  {
    assert changed * primary == read * primary && changed * carried == read * carried;
  }

  lemma {:induction false} TakenIsNamed(was: Tree, now: Tree, m: string)
    ensures WorkspaceReasons(was, now, m) == {}
       <==> forall n <- ChangedWorkspaceDeps(was, now) :: !Takes(was, m, n) && !Takes(now, m, n)
  {
    if n :| n in ChangedWorkspaceDeps(was, now) && (Takes(was, m, n) || Takes(now, m, n)) {
      assert WorkspaceDependency(n) in WorkspaceReasons(was, now, m);
    }
  }

  /** What the gate relies on, for any two trees: a member the answer leaves out, whose package stays
      and that reads nothing that changed silently, takes no changed shared dependency and its build is
      the same on both sides; any other has one or the other. */
  lemma {:induction false} NamedIffAffected(was: Tree, now: Tree, m: string)
    requires was.Valid() && now.Valid()
    ensures Reasons(was, now, m) == {} && KeepsPackage(was, now, m) && NoSilentChange(was, now, Read(was, now, m))
       <==> SameBuild(was, now, m)
            && forall n <- ChangedWorkspaceDeps(was, now) :: !Takes(was, m, n) && !Takes(now, m, n)
  {
    ScopeIsExact(was, now, m);
    TakenIsNamed(was, now, m);
  }

  // ---- why the kinds have to agree ----

  const A := Key("a", "1", "")
  const B := Key("b", "1", "")
  const D := Key("d", "1", "registry")

  /** Member a builds on member b, and b declares package d in the given table. */
  function TwoMembers(table: Table): Tree {
    Tree(map[], map[], map[], map[],
         map["a" := [Declaration(Table.Dependencies, "b", Version("1"))],
             "b" := [Declaration(table, "d", Version("1"))]],
         map[A := None, B := None, D := None],
         map[A := {B}, B := {D}, D := {}],
         map["a" := A, "b" := B])
  }

  lemma {:induction false} TwoMembersEdges(table: Table)
    ensures var t := TwoMembers(table);
            && t.Valid() && B in t.Closure("a")
            && t.BuildEdges(B) == if table == DevDependencies then {} else {D}
  {
    var t := TwoMembers(table);
    assert t.Valid();
    assert t.Path(A, [A, B]);
    assert t.members["b"] == [Declaration(table, "d", Version("1"))];
    assert t.members["b"][0] in t.members["b"];
    assert t.Kinds("b", "d") == {if table == DevDependencies then Dev else Normal};
  }

  lemma {:induction false} BuildsDiffer(was: Tree, now: Tree, m: string, k: Key)
    requires was.Valid() && now.Valid() && m in was.memberKeys && k in was.Closure(m) && k in now.entries
    requires was.BuildEdges(k) != now.BuildEdges(k)
    ensures !SameBuild(was, now, m)
  {
  }

  lemma {:induction false} TwoMembersAreAlike(a: Table, b: Table)
    ensures var was, now := TwoMembers(a), TwoMembers(b);
      && SameMemberKeys(was, now) && !IsWide(was, now)
      && was.entries == now.entries && was.deps == now.deps && was.workspaceDeps == now.workspaceDeps
  {
    var was, now := TwoMembers(a), TwoMembers(b);
    assert was.memberKeys == now.memberKeys && was.members.Keys == {"a", "b"} == now.members.Keys;
  }

  /** A dependency of b that stops being dev-only enters a's build without a line of the lock
      changing: the answer does not name a. So `SameKinds` cannot be dropped. */
  lemma {:induction false} KindChangeIsNotSeen()
    ensures var was, now := TwoMembers(DevDependencies), TwoMembers(Table.Dependencies);
            && was.Valid() && now.Valid() && SameMemberKeys(was, now) && !IsWide(was, now)
            && Reasons(was, now, "a") == {} && !SameBuild(was, now, "a")
  {
    var was, now := TwoMembers(DevDependencies), TwoMembers(Table.Dependencies);
    TwoMembersEdges(DevDependencies);
    TwoMembersEdges(Table.Dependencies);
    TwoMembersAreAlike(DevDependencies, Table.Dependencies);
    assert D !in was.BuildEdges(B) && D in now.BuildEdges(B);
    BuildsDiffer(was, now, "a", B);
    SameLockNamesNobody(was, now, "a");
  }

  lemma {:induction false} SameLockChangesNothing(was: Tree, now: Tree)
    requires was.Valid() && now.Valid() && was.entries == now.entries && was.deps == now.deps
    ensures Primary(was, now) == {} && Carried(was, now) == {} && DevOnly(was, now) == {}
  {
    assert AddedOrRemoved(was, now) == {};
    assert forall k <- Changes(was, now) :: ChangeOf(was, now, k) == Unchanged;
  }

  /** Two trees with one lock and one root manifest: nobody is named. */
  lemma {:induction false} SameLockNamesNobody(was: Tree, now: Tree, m: string)
    requires was.Valid() && now.Valid()
    requires was.entries == now.entries && was.deps == now.deps && was.workspaceDeps == now.workspaceDeps
    ensures Reasons(was, now, m) == {}
  {
    SameLockChangesNothing(was, now);
    var primary, carried := Primary(was, now), Carried(was, now);
    assert CauseReasons(primary, carried, Read(was, now, m)) == {};
    assert ChangedWorkspaceDeps(was, now) == {};
  }

  /** Both trees have the same lock and the same root manifest, so the same member packages. */
  ghost predicate OneLock(was: Tree, now: Tree) {
    && was.entries == now.entries && was.deps == now.deps && was.memberKeys == now.memberKeys
    && was.workspaceDeps == now.workspaceDeps
  }

  /** With one lock on both sides nobody is named, and that is right if and only if every member's
      manifest leaves the same dependencies to its build. */
  lemma {:induction false} OneLockIsExact(was: Tree, now: Tree)
    requires was.Valid() && now.Valid() && OneLock(was, now)
    ensures forall m :: Reasons(was, now, m) == {}
    ensures (forall m <- was.memberKeys :: SameBuild(was, now, m))
       <==> forall m <- was.memberKeys :: was.BuildEdges(was.memberKeys[m]) == now.BuildEdges(was.memberKeys[m])
  {
    forall m ensures Reasons(was, now, m) == {} {
      SameLockNamesNobody(was, now, m);
    }
    if forall m <- was.memberKeys :: was.BuildEdges(was.memberKeys[m]) == now.BuildEdges(was.memberKeys[m]) {
      forall m <- was.memberKeys ensures SameBuild(was, now, m) {
        EqualEdgesBuildTheSame(was, now, m);
      }
    } else {
      var m :| m in was.memberKeys && was.BuildEdges(was.memberKeys[m]) != now.BuildEdges(was.memberKeys[m]);
      ClosureIsClosed(was, m);
      BuildsDiffer(was, now, m, was.memberKeys[m]);
    }
  }

  lemma {:induction false} EqualEdgesBuildTheSame(was: Tree, now: Tree, m: string)
    requires was.Valid() && now.Valid() && OneLock(was, now) && m in was.memberKeys
    requires forall o <- was.memberKeys :: was.BuildEdges(was.memberKeys[o]) == now.BuildEdges(was.memberKeys[o])
    ensures SameBuild(was, now, m)
  {
    forall k <- was.entries ensures was.BuildEdges(k) == now.BuildEdges(k) {
      if was.IsMemberKey(k) {
        assert k.name in was.memberKeys;
      }
    }
    UnchangedCarriesOver(was, now, m);
    UnchangedCarriesOver(now, was, m);
  }

  // ---- why the members' packages have to agree ----

  const A2 := Key("a", "2", "")

  /** Member b builds on package a 1, and a's manifest declares d for development only. */
  function OneLocal(): Tree {
    Tree(map[], map[], map[], map[],
         map["a" := [Declaration(DevDependencies, "d", Version("1"))],
             "b" := [Declaration(Table.Dependencies, "a", Version("1"))]],
         map[A := None, B := None, D := None],
         map[A := {D}, B := {A}, D := {}],
         map["a" := A, "b" := B])
  }

  /** The same with a second local package of that name in the lock, which then is the member's own. */
  function TwoLocals(): Tree {
    var t := OneLocal();
    t.(entries := t.entries[A2 := None], deps := t.deps[A2 := {}], memberKeys := t.memberKeys["a" := A2])
  }

  lemma {:induction false} OneLocalEdges()
    ensures OneLocal().Valid() && OneLocal().BuildEdges(A) == {}
  {
    var t := OneLocal();
    assert t.members["a"][0] in t.members["a"];
    assert t.Kinds("a", "d") == {Dev};
  }

  lemma {:induction false} DirectIsRead(t: Tree, m: string, k: Key)
    requires t.Valid() && m in t.memberKeys && k in t.deps[t.memberKeys[m]]
    ensures k in t.Closure(m)
  {
    ClosureIsClosed(t, m);
  }

  lemma {:induction false} TwoLocalsEdges()
    ensures var t := TwoLocals();
            t.Valid() && t.deps[B] == {A} && t.BuildEdges(A) == {D} && t.BuildEdges(D) == {}
  {
  }

  lemma {:induction false} TwoLocalsReads()
    ensures var t := TwoLocals(); t.Valid() && t.Closure("b") <= {B, A, D} && A in t.Closure("b")
  {
    var t := TwoLocals();
    TwoLocalsEdges();
    DirectIsRead(t, "b", A);
    ClosedHoldsClosure(t, "b", {B, A, D});
  }

  /** Packages that left the lock and that a member does not read give no reason to name it. */
  lemma {:induction false} UnreadIsUnnamed(was: Tree, now: Tree, m: string)
    requires was.Valid() && now.Valid() && now.entries.Keys <= was.entries.Keys
    requires forall k <- now.entries :: was.entries[k] == now.entries[k] && was.deps[k] == now.deps[k]
    requires Read(was, now, m) <= now.entries.Keys
    ensures LockReasons(was, now, m) == {}
  {
    forall k <- Changes(was, now) ensures ChangeOf(was, now, k) == Unchanged {}
    NoCause(Primary(was, now), Carried(was, now), Read(was, now, m));
    DevReasonsEmpty(was, now, m);
  }

  lemma {:induction false} SecondLocalIsUnread()
    ensures var was, now := TwoLocals(), OneLocal();
            was.Valid() && now.Valid() && LockReasons(was, now, "b") == {}
  {
    TwoLocalsReads();
    OneLocalEdges();
    UnreadIsUnnamed(TwoLocals(), OneLocal(), "b");
  }

  /** When the second package leaves the lock the first one becomes the member's own, and its
      dev-dependency leaves b's build: the answer does not name b. So `SameMemberKeys` is needed even
      where all manifests are the same. */
  lemma {:induction false} OwnPackageChangeIsNotSeen()
    ensures var was, now := TwoLocals(), OneLocal();
            && was.Valid() && now.Valid() && was.members == now.members && !IsWide(was, now)
            && LockReasons(was, now, "b") == {} && !SameBuild(was, now, "b")
  {
    var was, now := TwoLocals(), OneLocal();
    SecondLocalIsUnread();
    TwoLocalsEdges();
    TwoLocalsReads();
    OneLocalEdges();
    assert D in was.BuildEdges(A) && D !in now.BuildEdges(A);
    BuildsDiffer(was, now, "b", A);
  }
}
