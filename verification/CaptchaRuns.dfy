/**
 Every interleaving of the handlers that hold an origin permission for a captcha (extension/src/
 captcha.js): grants announced and withdrawn, tabs opened, answered, closed, declined and swept,
 origins released. One step is the code between two awaits, and a release is one step.
 */
module CaptchaRuns {
  import opened Wrappers
  import opened CaptchaTabs

  datatype Phase =
    | Started | Reusing(tab: string) | Creating | Recording(tab: string)
    | Dropping(tab: string) | Opened(tab: string) | Failed

  /** An `openTab` under way. */
  datatype Opening = Opening(id: string, origin: string, phase: Phase)

  /** The poll under way: what the server said is waiting, and the entries it has read. */
  datatype Poll = Poll(waiting: set<string>, tabs: map<string, Entry>, grants: map<string, string>)

  datatype State = State(
    tabs: map<string, Entry>,
    grants: map<string, string>,
    held: set<string>,          // origins the browser has granted
    created: set<string>,       // tab ids the browser has handed out
    openings: seq<Opening>,
    poll: Poll)

  datatype Step =
    | Announce(id: string, origin: string)
    | Withdraw(id: string)
    | Granted(origin: string)
    | Begin(id: string, origin: string)
    | Look(i: nat, found: Option<string>)
    | Activated(i: nat, ok: bool)
    | Created(i: nat, tab: string)
    | CreateFailed(i: nat)
    | Record(i: nat)
    | Drop(i: nat)
    | Answer(tab: string, id: string)   // a token, or the report that there is no widget
    | Close(tab: string)                // the person closed the tab
    | Decline(id: string, tab: string)
    | List(waiting: set<string>)
    | ReadTabs
    | SweepTab(tab: string)
    | ReadGrants
    | SweepGrant(id: string)
    | Release(origin: string)

  predicate At(s: State, i: nat, phase: Phase -> bool) {
    i < |s.openings| && phase(s.openings[i].phase)
  }

  predicate Enabled(s: State, step: Step) {
    match step
    case Look(i, found) =>
      At(s, i, p => p == Started)
      && (found.Some? ==> found.value in s.tabs && s.tabs[found.value].id == s.openings[i].id)
      && (found.None? ==> forall t <- s.tabs :: s.tabs[t].id != s.openings[i].id)
    case Activated(i, _) => At(s, i, (p: Phase) => p.Reusing?)
    case Created(i, tab) => At(s, i, p => p == Creating) && tab !in s.created
    case CreateFailed(i) => At(s, i, p => p == Creating)
    case Record(i) => At(s, i, (p: Phase) => p.Recording?)
    case Drop(i) => At(s, i, (p: Phase) => p.Dropping?)
    case Decline(id, tab) => tab in s.tabs ==> s.tabs[tab].id == id
    case SweepTab(tab) => tab in s.poll.tabs && s.poll.tabs[tab].id !in s.poll.waiting
    case SweepGrant(id) => id in s.poll.grants && id !in s.poll.waiting
    case _ => true
  }

  /** The tab whose entry a step removes. */
  function ForgottenTab(s: State, step: Step): Option<string>
    requires Enabled(s, step)
  {
    match step
    case Activated(i, ok) => if ok then None else Some(s.openings[i].phase.tab)
    case Answer(tab, _) => Some(tab)
    case Close(tab) => Some(tab)
    case Decline(_, tab) => Some(tab)
    case SweepTab(tab) => Some(tab)
    case _ => None
  }

  /** The grant a step removes. */
  function DroppedGrant(s: State, step: Step): Option<string>
    requires Enabled(s, step)
  {
    match step
    case Withdraw(id) => Some(id)
    case SweepGrant(id) => Some(id)
    case Drop(i) => Some(s.openings[i].id)
    case _ => None
  }

  predicate IsOwn(step: Step, i: nat) {
    match step
    case Look(j, _) => j == i
    case Activated(j, _) => j == i
    case Created(j, _) => j == i
    case CreateFailed(j) => j == i
    case Record(j) => j == i
    case Drop(j) => j == i
    case _ => false
  }

  /** An opening's own step. */
  function Advanced(o: Opening, step: Step): Opening
    requires step.Activated? && step.ok ==> o.phase.Reusing?
    requires step.Record? ==> o.phase.Recording?
    requires step.Drop? ==> o.phase.Dropping?
  {
    match step
    case Look(_, found) => o.(phase := if found.None? then Creating else Reusing(found.value))
    case Activated(_, ok) => o.(phase := if ok then Dropping(o.phase.tab) else Creating)
    case Created(_, tab) => o.(phase := Recording(tab))
    case CreateFailed(_) => o.(phase := Failed)
    case Record(_) => o.(phase := Dropping(o.phase.tab))
    case Drop(_) => o.(phase := Opened(o.phase.tab))
    case _ => o
  }

  function NextOpening(s: State, step: Step, i: nat): Opening
    requires Enabled(s, step) && i < |s.openings|
  {
    if IsOwn(step, i) then Advanced(s.openings[i], step) else s.openings[i]
  }

  function NextTabs(s: State, step: Step): map<string, Entry>
    requires Enabled(s, step)
  {
    if step.Record? then
      var o := s.openings[step.i]; s.tabs[o.phase.tab := Entry(o.id, o.origin)]
    else if ForgottenTab(s, step).Some? then s.tabs - {ForgottenTab(s, step).value}
    else s.tabs
  }

  function NextGrants(s: State, step: Step): map<string, string>
    requires Enabled(s, step)
  {
    if step.Announce? then s.grants[step.id := step.origin]
    else if DroppedGrant(s, step).Some? then s.grants - {DroppedGrant(s, step).value}
    else s.grants
  }

  function NextHeld(s: State, step: Step): set<string> {
    match step
    case Granted(origin) => s.held + {origin}
    case Release(origin) => if origin == "" || Names(s.tabs, s.grants, origin) then s.held else s.held - {origin}
    case _ => s.held
  }

  function NextPoll(s: State, step: Step): Poll {
    match step
    case List(waiting) => Poll(waiting, map[], map[])
    case ReadTabs => s.poll.(tabs := s.tabs)
    case ReadGrants => s.poll.(grants := s.grants)
    case _ => s.poll
  }

  function NextOpenings(s: State, step: Step): seq<Opening>
    requires Enabled(s, step)
  {
    seq(|s.openings|, i requires 0 <= i < |s.openings| => NextOpening(s, step, i))
    + if step.Begin? then [Opening(step.id, step.origin, Started)] else []
  }

  function Next(s: State, step: Step): State
    requires Enabled(s, step)
  {
    State(NextTabs(s, step), NextGrants(s, step), NextHeld(s, step),
          if step.Created? then s.created + {step.tab} else s.created,
          NextOpenings(s, step), NextPoll(s, step))
  }

  const START := State(map[], map[], {}, {}, [], Poll({}, map[], map[]))

  ghost predicate Run(steps: seq<Step>, states: seq<State>) {
    && |states| == |steps| + 1 && states[0] == START
    && forall i :: 0 <= i < |steps| ==> Enabled(states[i], steps[i]) && states[i + 1] == Next(states[i], steps[i])
  }

  // ---- what every step keeps ----

  /** The tab an opening works with, once it has one. */
  function TabOf(o: Opening): Option<string> {
    match o.phase
    case Reusing(tab) => Some(tab)
    case Recording(tab) => Some(tab)
    case Dropping(tab) => Some(tab)
    case Opened(tab) => Some(tab)
    case _ => None
  }

  /** A tab on its way into the map is known to nobody else. */
  ghost predicate Unknown(s: State, i: nat)
    requires i < |s.openings|
  {
    var tab := TabOf(s.openings[i]);
    && tab.Some? && tab.value !in s.tabs && tab.value !in s.poll.tabs
    && forall j :: 0 <= j < |s.openings| && j != i ==> TabOf(s.openings[j]) != tab
  }

  /** An entry of the map that an opening or the poll knows of is the one it knew. */
  ghost predicate Inv(s: State) {
    && s.tabs.Keys <= s.created && s.poll.tabs.Keys <= s.created
    && (forall t <- s.poll.tabs :: t in s.tabs ==> s.tabs[t] == s.poll.tabs[t])
    && (forall i :: 0 <= i < |s.openings| ==> Consistent(s, i))
  }

  ghost predicate Consistent(s: State, i: nat)
    requires i < |s.openings|
  {
    var o := s.openings[i];
    && (TabOf(o).Some? ==> TabOf(o).value in s.created)
    && (o.phase.Recording? ==> Unknown(s, i))
    && (TabOf(o).Some? && TabOf(o).value in s.tabs ==> s.tabs[TabOf(o).value].id == o.id)
  }

  lemma {:induction false} OpeningsStay(s: State, step: Step, i: nat)
    requires Enabled(s, step) && i < |s.openings|
    ensures i < |Next(s, step).openings| && Next(s, step).openings[i] == NextOpening(s, step, i)
    ensures |Next(s, step).openings| == |s.openings| + if step.Begin? then 1 else 0
    ensures Next(s, step).openings[i].id == s.openings[i].id && Next(s, step).openings[i].origin == s.openings[i].origin
  {
  }

  /** An opening's tab was its own before, was found by it, or is the one just created for it. */
  lemma {:induction false} TabComesFrom(s: State, step: Step, i: nat)
    requires Enabled(s, step) && i < |s.openings| && TabOf(NextOpening(s, step, i)).Some?
    ensures var tab := TabOf(NextOpening(s, step, i));
            || tab == TabOf(s.openings[i])
            || (step == Look(i, tab) && tab.value in s.tabs && s.tabs[tab.value].id == s.openings[i].id)
            || (step == Created(i, tab.value) && tab.value !in s.created)
  {
  }

  lemma {:induction false} StepKeepsUnknown(s: State, step: Step, i: nat)
    requires Inv(s) && Enabled(s, step) && i < |s.openings| && NextOpening(s, step, i).phase.Recording?
    ensures i < |Next(s, step).openings| && Unknown(Next(s, step), i)
  {
    var n := Next(s, step);
    var tab := NextOpening(s, step, i).phase.tab;
    OpeningsStay(s, step, i);
    TabComesFrom(s, step, i);
    assert Consistent(s, i);
    forall j | 0 <= j < |n.openings| && j != i ensures TabOf(n.openings[j]) != Some(tab) {
      if j < |s.openings| && TabOf(n.openings[j]).Some? {
        OpeningsStay(s, step, j);
        TabComesFrom(s, step, j);
        assert Consistent(s, j);
      }
    }
    assert step.Record? ==> step.i != i && Consistent(s, step.i);
  }

  lemma {:induction false} StepKeepsId(s: State, step: Step, i: nat)
    requires Inv(s) && Enabled(s, step) && i < |s.openings|
    ensures var o := NextOpening(s, step, i);
            TabOf(o).Some? ==>
              && TabOf(o).value in Next(s, step).created
              && (TabOf(o).value in NextTabs(s, step) ==> NextTabs(s, step)[TabOf(o).value].id == o.id)
  {
    assert Consistent(s, i);
    if TabOf(NextOpening(s, step, i)).Some? {
      TabComesFrom(s, step, i);
    }
    if step.Record? {
      assert Consistent(s, step.i);
    }
  }

  lemma {:induction false} StepKeepsInv(s: State, step: Step)
    requires Inv(s) && Enabled(s, step)
    ensures Inv(Next(s, step))
  {
    var n := Next(s, step);
    if step.Record? {
      assert Consistent(s, step.i);
    }
    forall i | 0 <= i < |n.openings| ensures Consistent(n, i) {
      if i < |s.openings| {
        OpeningsStay(s, step, i);
        StepKeepsId(s, step, i);
        if NextOpening(s, step, i).phase.Recording? {
          StepKeepsUnknown(s, step, i);
        }
      }
    }
  }

  lemma {:induction false} RunKeepsInv(steps: seq<Step>, states: seq<State>, k: nat)
    requires Run(steps, states) && k < |states|
    ensures Inv(states[k])
  {
    if k > 0 {
      RunKeepsInv(steps, states, k - 1);
      StepKeepsInv(states[k - 1], steps[k - 1]);
    }
  }

  /** An opening stays the one it was. */
  lemma {:induction false} OpeningIsTracked(steps: seq<Step>, states: seq<State>, j: nat, k: nat, i: nat)
    requires Run(steps, states) && j <= k < |states| && i < |states[j].openings|
    ensures i < |states[k].openings|
    ensures states[k].openings[i].id == states[j].openings[i].id
         && states[k].openings[i].origin == states[j].openings[i].origin
    decreases k
  {
    if j < k {
      OpeningIsTracked(steps, states, j, k - 1, i);
      OpeningsStay(states[k - 1], steps[k - 1], i);
    }
  }

  // ---- an opening's own record ----

  ghost predicate InGrant(s: State, o: Opening) {
    o.id in s.grants && s.grants[o.id] == o.origin
  }

  ghost predicate InTab(s: State, o: Opening, tab: string) {
    tab in s.tabs && s.tabs[tab].origin == o.origin
  }

  /** Where an opening has its origin on record: its grant until its tab is recorded, then the tab. */
  ghost predicate OnRecord(s: State, o: Opening) {
    match o.phase
    case Reusing(tab) => InGrant(s, o) && InTab(s, o, tab)
    case Dropping(tab) => InTab(s, o, tab)
    case Opened(tab) => InTab(s, o, tab)
    case _ => InGrant(s, o)
  }

  predicate StandsOnGrant(o: Opening) {
    !o.phase.Dropping? && !o.phase.Opened?
  }

  predicate StandsOnTab(o: Opening) {
    o.phase.Reusing? || o.phase.Dropping? || o.phase.Opened?
  }

  /** The steps that take an opening's record away: another handler drops its grant, announces the
      widget with another origin or forgets its tab, or the tab it finds carries another origin. */
  predicate Loses(s: State, step: Step, i: nat)
    requires Enabled(s, step) && i < |s.openings|
  {
    var o := s.openings[i];
    if IsOwn(step, i) then step.Look? && step.found.Some? && s.tabs[step.found.value].origin != o.origin
    else
      || (StandsOnGrant(o) && DroppedGrant(s, step) == Some(o.id))
      || (StandsOnGrant(o) && step.Announce? && step.id == o.id && step.origin != o.origin)
      || (StandsOnTab(o) && ForgottenTab(s, step) == TabOf(o))
  }

  lemma {:induction false} OwnStepKeepsRecord(s: State, step: Step, i: nat)
    requires Enabled(s, step) && i < |s.openings| && Consistent(s, i) && OnRecord(s, s.openings[i]) && IsOwn(step, i)
    ensures OnRecord(Next(s, step), NextOpening(s, step, i)) <==> !Loses(s, step, i)
  {
  }

  lemma {:induction false} OtherStepKeepsRecord(s: State, step: Step, i: nat)
    requires Enabled(s, step) && i < |s.openings| && OnRecord(s, s.openings[i]) && !IsOwn(step, i)
    requires step.Record? ==> Consistent(s, step.i)
    ensures OnRecord(Next(s, step), NextOpening(s, step, i)) <==> !Loses(s, step, i)
  {
  }

  /** The heart of it: a step leaves a record in place exactly if it is none of those. */
  lemma {:induction false} StepKeepsRecord(s: State, step: Step, i: nat)
    requires Inv(s) && Enabled(s, step) && i < |s.openings| && OnRecord(s, s.openings[i])
    ensures OnRecord(Next(s, step), NextOpening(s, step, i)) <==> !Loses(s, step, i)
  {
    if IsOwn(step, i) {
      OwnStepKeepsRecord(s, step, i);
    } else {
      OtherStepKeepsRecord(s, step, i);
    }
  }

  ghost predicate OnRecordThroughout(states: seq<State>, j: nat, k: nat, i: nat)
    requires k < |states|
  {
    forall m :: j <= m <= k ==> i < |states[m].openings| && OnRecord(states[m], states[m].openings[i])
  }

  ghost predicate NeverLoses(steps: seq<Step>, states: seq<State>, j: nat, k: nat, i: nat)
    requires Run(steps, states) && k < |states|
  {
    forall m :: j <= m < k ==> i < |states[m].openings| && !Loses(states[m], steps[m], i)
  }

  lemma {:induction false} RunStepKeepsRecord(steps: seq<Step>, states: seq<State>, m: nat, i: nat)
    requires Run(steps, states) && m < |steps| && i < |states[m].openings|
    requires OnRecord(states[m], states[m].openings[i])
    ensures i < |states[m + 1].openings|
    ensures OnRecord(states[m + 1], states[m + 1].openings[i]) <==> !Loses(states[m], steps[m], i)
  {
    RunKeepsInv(steps, states, m);
    OpeningsStay(states[m], steps[m], i);
    StepKeepsRecord(states[m], steps[m], i);
  }

  lemma {:induction false} RecordStays(steps: seq<Step>, states: seq<State>, j: nat, k: nat, i: nat)
    requires Run(steps, states) && j <= k < |states| && i < |states[j].openings|
    requires OnRecord(states[j], states[j].openings[i]) && NeverLoses(steps, states, j, k, i)
    ensures OnRecordThroughout(states, j, k, i)
    decreases k
  {
    if j < k {
      RecordStays(steps, states, j, k - 1, i);
      RunStepKeepsRecord(steps, states, k - 1, i);
    }
  }

  /** From the start of an `openTab` whose grant is recorded, and for as long as anyone looks, its own
      record is there in every state if and only if no step of the stretch takes it away. */
  lemma {:induction false} RecordIsExact(steps: seq<Step>, states: seq<State>, j: nat, k: nat, i: nat)
    requires Run(steps, states) && j <= k < |states| && i < |states[j].openings|
    requires OnRecord(states[j], states[j].openings[i])
    ensures OnRecordThroughout(states, j, k, i) <==> NeverLoses(steps, states, j, k, i)
  {
    if NeverLoses(steps, states, j, k, i) {
      RecordStays(steps, states, j, k, i);
    }
    if OnRecordThroughout(states, j, k, i) {
      forall m | j <= m < k ensures i < |states[m].openings| && !Loses(states[m], steps[m], i) {
        RunStepKeepsRecord(steps, states, m, i);
      }
    }
  }

  lemma {:induction false} OnRecordIsNamed(s: State, o: Opening)
    requires OnRecord(s, o)
    ensures Names(s.tabs, s.grants, o.origin)
  {
  }

  /** In every run a permission disappears only while nothing names its origin, and one that is named
      all the while is held all the while. */
  lemma {:induction false} NamedStaysHeld(steps: seq<Step>, states: seq<State>, j: nat, k: nat, origin: string)
    requires Run(steps, states) && j <= k < |states| && origin in states[j].held
    ensures origin in states[k].held
         || exists m :: j <= m < k && steps[m] == Release(origin) && origin in states[m].held
                        && !Names(states[m].tabs, states[m].grants, origin)
    decreases k
  {
    if j < k {
      NamedStaysHeld(steps, states, j, k - 1, origin);
      assert states[k] == Next(states[k - 1], steps[k - 1]);
      if origin in states[k - 1].held && origin !in states[k].held {
        assert steps[k - 1] == Release(origin) && !Names(states[k - 1].tabs, states[k - 1].grants, origin);
      }
    }
  }

  /** So an opening that loses nothing has its origin named in every state, and a permission held when
      it starts is never given back. */
  lemma {:induction false} OpeningStaysNamed(steps: seq<Step>, states: seq<State>, j: nat, k: nat, i: nat)
    requires Run(steps, states) && j <= k < |states| && i < |states[j].openings|
    requires OnRecord(states[j], states[j].openings[i]) && NeverLoses(steps, states, j, k, i)
    ensures Names(states[k].tabs, states[k].grants, states[j].openings[i].origin)
    ensures states[j].openings[i].origin in states[j].held ==> states[j].openings[i].origin in states[k].held
  {
    var origin := states[j].openings[i].origin;
    RecordIsExact(steps, states, j, k, i);
    forall m | j <= m <= k ensures Names(states[m].tabs, states[m].grants, origin) {
      OpeningIsTracked(steps, states, j, m, i);
      OnRecordIsNamed(states[m], states[m].openings[i]);
    }
    if origin in states[j].held {
      NamedStaysHeld(steps, states, j, k, origin);
    }
  }

  // ---- what a caller can see to ----

  /** The other handlers leave widget `o.id` to its opening: the poll is told that it waits, nobody
      answers, closes or declines it, no other click opens it, and it keeps its page. */
  predicate LeavesAlone(s: State, step: Step, i: nat)
    requires Enabled(s, step) && i < |s.openings|
  {
    var o := s.openings[i];
    match step
    case Announce(id, origin) => id == o.id ==> origin == o.origin
    case Withdraw(id) => id != o.id
    case Answer(tab, _) => TabOf(o) != Some(tab)
    case Close(tab) => TabOf(o) != Some(tab)
    case Decline(id, _) => id != o.id
    case SweepTab(_) => o.id in s.poll.waiting
    case SweepGrant(_) => o.id in s.poll.waiting
    case Look(j, found) => j == i && found.Some? ==> s.tabs[found.value].origin == o.origin
    case Activated(j, ok) => j != i && !ok ==> s.openings[j].id != o.id
    case Drop(j) => j != i ==> s.openings[j].id != o.id
    case _ => true
  }

  /** No handler of another widget reaches this one's grant or tab. */
  lemma {:induction false} LeftAloneLosesNothing(s: State, step: Step, i: nat)
    requires Inv(s) && Enabled(s, step) && i < |s.openings| && OnRecord(s, s.openings[i])
    requires LeavesAlone(s, step, i)
    ensures !Loses(s, step, i)
  {
    assert Consistent(s, i);
    match step
    case Activated(j, _) => assert Consistent(s, j);
    case _ =>
  }

  ghost predicate LeftAlone(steps: seq<Step>, states: seq<State>, j: nat, k: nat, i: nat)
    requires Run(steps, states) && k < |states|
  {
    forall m :: j <= m < k && i < |states[m].openings| ==> LeavesAlone(states[m], steps[m], i)
  }

  /** While the widget is in the waiting list of every sweep and nobody else touches it, an opening
      loses nothing. */
  lemma {:induction false} WaitedForLosesNothing(steps: seq<Step>, states: seq<State>, j: nat, k: nat, i: nat)
    requires Run(steps, states) && j <= k < |states| && i < |states[j].openings|
    requires OnRecord(states[j], states[j].openings[i]) && LeftAlone(steps, states, j, k, i)
    ensures NeverLoses(steps, states, j, k, i)
    decreases k
  {
    if j < k {
      WaitedForLosesNothing(steps, states, j, k - 1, i);
      RecordIsExact(steps, states, j, k - 1, i);
      OpeningIsTracked(steps, states, j, k - 1, i);
      RunKeepsInv(steps, states, k - 1);
      LeftAloneLosesNothing(states[k - 1], steps[k - 1], i);
    }
  }

  /** So it keeps its record and its permission to the end. */
  lemma {:induction false} WaitedForIsKept(steps: seq<Step>, states: seq<State>, j: nat, k: nat, i: nat)
    requires Run(steps, states) && j <= k < |states| && i < |states[j].openings|
    requires OnRecord(states[j], states[j].openings[i]) && LeftAlone(steps, states, j, k, i)
    ensures OnRecordThroughout(states, j, k, i)
    ensures states[j].openings[i].origin in states[j].held ==> states[j].openings[i].origin in states[k].held
  {
    WaitedForLosesNothing(steps, states, j, k, i);
    RecordIsExact(steps, states, j, k, i);
    OpeningStaysNamed(steps, states, j, k, i);
  }

  // ---- a run in which the promise fails ----

  function Openings(phase: Phase): seq<Opening> {
    [Opening("w", "o", phase)]
  }

  /** The states of the run below: a grant is announced and answered, the opening begins, a poll that
      was not told of the widget sweeps the grant and releases its origin, and only then is the tab
      created and recorded. */
  function SweptStates(): seq<State> {
    var grant := map["w" := "o"];
    var tab := map["7" := Entry("w", "o")];
    var none := Poll({}, map[], map[]);
    var seen := Poll({}, map[], grant);
    [START,
     State(map[], grant, {}, {}, [], none),
     State(map[], grant, {"o"}, {}, [], none),
     State(map[], grant, {"o"}, {}, Openings(Started), none),
     State(map[], grant, {"o"}, {}, Openings(Creating), none),
     State(map[], grant, {"o"}, {}, Openings(Creating), seen),
     State(map[], map[], {"o"}, {}, Openings(Creating), seen),
     State(map[], map[], {}, {}, Openings(Creating), seen),
     State(map[], map[], {}, {"7"}, Openings(Recording("7")), seen),
     State(tab, map[], {}, {"7"}, Openings(Dropping("7")), seen),
     State(tab, map[], {}, {"7"}, Openings(Opened("7")), seen)]
  }

  function SweptSteps(): seq<Step> {
    [Announce("w", "o"), Granted("o"), Begin("w", "o"), Look(0, None), ReadGrants, SweepGrant("w"), Release("o"),
     Created(0, "7"), Record(0), Drop(0)]
  }

  ghost predicate Leads(s: State, step: Step, n: State) {
    && Enabled(s, step)
    && n.tabs == NextTabs(s, step) && n.grants == NextGrants(s, step) && n.held == NextHeld(s, step)
    && n.created == (if step.Created? then s.created + {step.tab} else s.created)
    && n.poll == NextPoll(s, step) && !step.Begin?
    && |n.openings| == |s.openings| && forall i :: 0 <= i < |s.openings| ==> n.openings[i] == NextOpening(s, step, i)
  }

  lemma {:induction false} LeadsIsNext(s: State, step: Step, n: State)
    requires Leads(s, step, n)
    ensures n == Next(s, step)
  {
    assert n.openings == Next(s, step).openings;
  }

  lemma {:induction false} SweptStart()
    ensures var st, sp := SweptStates(), SweptSteps();
            forall k :: 0 <= k < 3 ==> Enabled(st[k], sp[k]) && st[k + 1] == Next(st[k], sp[k])
  {
  }

  lemma {:induction false} SweptMiddle()
    ensures var st, sp := SweptStates(), SweptSteps();
            forall k :: 3 <= k < 5 ==> Leads(st[k], sp[k], st[k + 1])
  {
    var st, sp := SweptStates(), SweptSteps();
    assert Leads(st[3], sp[3], st[4]);
    assert Leads(st[4], sp[4], st[5]);
  }

  lemma {:induction false} SweptAway()
    ensures var st, sp := SweptStates(), SweptSteps();
            forall k :: 5 <= k < 7 ==> Leads(st[k], sp[k], st[k + 1])
  {
    var st, sp := SweptStates(), SweptSteps();
    assert Leads(st[5], sp[5], st[6]);
    assert Leads(st[6], sp[6], st[7]);
  }

  lemma {:induction false} SweptEnd()
    ensures var st, sp := SweptStates(), SweptSteps();
            forall k :: 7 <= k < 10 ==> Leads(st[k], sp[k], st[k + 1])
  {
    var st, sp := SweptStates(), SweptSteps();
    assert Leads(st[7], sp[7], st[8]);
    assert Leads(st[8], sp[8], st[9]);
    assert Leads(st[9], sp[9], st[10]);
  }

  /** A poll that sweeps the grant while the tab is being created gives the permission back; the tab
      is recorded all the same, and its entry then names an origin that is no longer held. */
  lemma {:induction false} SweptOpeningLosesPermission()
    ensures Run(SweptSteps(), SweptStates())
    ensures var first, last := SweptStates()[3], SweptStates()[|SweptSteps()|];
            && |first.openings| == |last.openings| == 1 && "o" in first.held && OnRecord(first, first.openings[0])
            && last.openings[0] == Opening("w", "o", Opened("7"))
            && "7" in last.tabs && last.tabs["7"].origin == "o" && "o" !in last.held
  {
    var st, sp := SweptStates(), SweptSteps();
    SweptStart();
    SweptMiddle();
    SweptAway();
    SweptEnd();
    forall k | 0 <= k < 10 ensures Enabled(st[k], sp[k]) && st[k + 1] == Next(st[k], sp[k]) {
      if k >= 3 {
        LeadsIsNext(st[k], sp[k], st[k + 1]);
      }
    }
  }
}
