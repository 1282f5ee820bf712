/**
 What the captcha handlers leave behind (extension/src/captcha.js): when a permission stays granted
 though no tab, no grant and no release under way stands for its origin.
 */
module CaptchaLeaks {
  import opened Wrappers
  import opened CaptchaTabs
  import opened CaptchaRuns

  /** The origin whose release the handler of a step owes once the step is done. */
  function Owed(s: State, step: Step): Option<string>
    requires Enabled(s, step)
  {
    match step
    case Answer(tab, id) => if tab in s.tabs && s.tabs[tab].id == id then Some(s.tabs[tab].origin) else None
    case Close(tab) => if tab in s.tabs then Some(s.tabs[tab].origin) else None
    case Decline(_, tab) => if tab in s.tabs then Some(s.tabs[tab].origin) else None
    case SweepTab(tab) => Some(s.poll.tabs[tab].origin)
    case SweepGrant(id) => Some(s.poll.grants[id])
    case _ => None
  }

  /** How many releases of an origin are under way in state `k`. */
  ghost function Pending(steps: seq<Step>, states: seq<State>, k: nat, origin: string): nat
    requires Run(steps, states) && k < |states|
  {
    if k == 0 then 0 else
      var before := Pending(steps, states, k - 1, origin);
      if Owed(states[k - 1], steps[k - 1]) == Some(origin) then before + 1
      else if steps[k - 1] == Release(origin) && before > 0 then before - 1
      else before
  }

  /** The origin of the entry or the grant a step removes or writes over. */
  function Unnames(s: State, step: Step): Option<string>
    requires Enabled(s, step)
  {
    match ForgottenTab(s, step)
    case Some(tab) => if tab in s.tabs then Some(s.tabs[tab].origin) else None
    case None =>
      match DroppedGrant(s, step)
      case Some(id) => if id in s.grants then Some(s.grants[id]) else None
      case None =>
        if step.Announce? && step.id in s.grants && s.grants[step.id] != step.origin then Some(s.grants[step.id])
        else None
  }

  /** A step that takes an origin's last name away and owes it no release. */
  predicate DropsLastName(s: State, step: Step, origin: string)
    requires Enabled(s, step)
  {
    Unnames(s, step) == Some(origin) && Owed(s, step) != Some(origin)
    && !Names(NextTabs(s, step), NextGrants(s, step), origin)
  }

  /** Only these can do so: a withdrawn grant, one announced anew with another origin, the grant an
      opening drops although its tab is gone, a tab that was found dead, a tab that reports for
      another captcha, and a grant that has changed since the poll read it. */
  lemma {:induction false} WhoDropsLastName(s: State, step: Step, origin: string)
    requires Inv(s) && Enabled(s, step) && DropsLastName(s, step, origin)
    ensures match step
            case Withdraw(_) => true
            case Announce(id, other) => other != origin
            case Drop(i) => !InTab(s, s.openings[i], s.openings[i].phase.tab) || s.openings[i].origin != origin
            case Activated(_, ok) => !ok
            case Answer(tab, id) => s.tabs[tab].id != id
            case SweepGrant(id) => s.poll.grants[id] != s.grants[id]
            case _ => false
  {
    match step
    case Drop(i) =>
      var o := s.openings[i];
      assert InTab(s, o, o.phase.tab) ==> Names(s.tabs, s.grants - {o.id}, o.origin);
    case _ =>
  }

  /** A held permission that some entry, some grant or some release under way stands for. */
  ghost predicate Accounted(steps: seq<Step>, states: seq<State>, k: nat, origin: string)
    requires Run(steps, states) && k < |states|
  {
    origin in states[k].held ==>
      Names(states[k].tabs, states[k].grants, origin) || Pending(steps, states, k, origin) > 0
  }

  /** Step `k` leaves a permission behind: it is granted though nobody announced it, or it loses its
      last name. */
  ghost predicate Leaks(steps: seq<Step>, states: seq<State>, k: nat, origin: string)
    requires Run(steps, states) && k < |steps|
  {
    var s := states[k];
    && Pending(steps, states, k, origin) == 0
    && (|| (steps[k] == Granted(origin) && !Names(s.tabs, s.grants, origin))
        || (origin in s.held && DropsLastName(s, steps[k], origin)))
  }

  lemma {:induction false} NamesLost(s: State, step: Step, origin: string)
    requires Inv(s) && Enabled(s, step) && Names(s.tabs, s.grants, origin)
    ensures Names(NextTabs(s, step), NextGrants(s, step), origin) || Unnames(s, step) == Some(origin)
  {
    if step.Record? {
      assert Consistent(s, step.i);
    }
    if t :| t in s.tabs && s.tabs[t].origin == origin {
      assert t in NextTabs(s, step) ==> NextTabs(s, step)[t].origin == origin;
    } else {
      var id :| id in s.grants && s.grants[id] == origin;
      assert id in NextGrants(s, step) ==> NextGrants(s, step)[id] == origin || Unnames(s, step) == Some(origin);
    }
  }

  lemma {:induction false} StepAccounts(steps: seq<Step>, states: seq<State>, k: nat, origin: string)
    requires Run(steps, states) && k < |steps| && origin != "" && Accounted(steps, states, k, origin)
    ensures Accounted(steps, states, k + 1, origin) <==> !Leaks(steps, states, k, origin)
  {
    var s, step := states[k], steps[k];
    RunKeepsInv(steps, states, k);
    assert states[k + 1] == Next(s, step);
    if Names(s.tabs, s.grants, origin) {
      NamesLost(s, step, origin);
    }
  }

  ghost predicate NeverLeaks(steps: seq<Step>, states: seq<State>, j: nat, k: nat, origin: string)
    requires Run(steps, states) && k < |states|
  {
    forall m :: j <= m < k ==> !Leaks(steps, states, m, origin)
  }

  lemma {:induction false} StaysAccounted(steps: seq<Step>, states: seq<State>, j: nat, k: nat, origin: string)
    requires Run(steps, states) && j <= k < |states| && origin != "" && Accounted(steps, states, j, origin)
    requires NeverLeaks(steps, states, j, k, origin)
    ensures Accounted(steps, states, k, origin)
  {
    assert |states| == |steps| + 1;
    hide Run, Accounted, Leaks;
    for m := j to k
      invariant Accounted(steps, states, m, origin)
    {
      StepAccounts(steps, states, m, origin);
    }
  }

  /** In every stretch of every run that starts well a permission stays accounted for if and only if no
      step of the stretch leaves it behind. */
  lemma {:induction false} LeaksAreExact(steps: seq<Step>, states: seq<State>, j: nat, k: nat, origin: string)
    requires Run(steps, states) && j <= k < |states| && origin != "" && Accounted(steps, states, j, origin)
    ensures (forall m :: j <= m <= k ==> Accounted(steps, states, m, origin))
       <==> NeverLeaks(steps, states, j, k, origin)
  {
    if NeverLeaks(steps, states, j, k, origin) {
      forall m | j <= m <= k ensures Accounted(steps, states, m, origin) {
        StaysAccounted(steps, states, j, m, origin);
      }
    }
    if forall m :: j <= m <= k ==> Accounted(steps, states, m, origin) {
      forall m | j <= m < k ensures !Leaks(steps, states, m, origin) {
        StepAccounts(steps, states, m, origin);
      }
    }
  }

  /** The opening of a widget whose tab is in the map and whose grant is still to be dropped, with
      nothing else naming its origin. */
  ghost predicate AboutToDrop(s: State, i: nat) {
    && Inv(s) && i < |s.openings| && s.openings[i].phase.Dropping?
    && var o := s.openings[i];
    && o.origin in s.held && o.origin != "" && InGrant(s, o) && InTab(s, o, o.phase.tab)
    && !Names(s.tabs - {o.phase.tab}, s.grants - {o.id}, o.origin)
  }

  /** A tab the person closes just before its grant is dropped always leaves its permission behind: the
      release finds the grant, and nobody releases after the grant. */
  lemma {:induction false} ClosedBeforeDropLeaks(s: State, i: nat)
    requires AboutToDrop(s, i)
    ensures var o := s.openings[i];
            var closed := Next(s, Close(o.phase.tab));
            var released := Next(closed, Release(o.origin));
            && Enabled(released, Drop(i))
            && var dropped := Next(released, Drop(i));
               o.origin in dropped.held && !Names(dropped.tabs, dropped.grants, o.origin)
  {
    var o := s.openings[i];
    var closed := Next(s, Close(o.phase.tab));
    OpeningsStay(s, Close(o.phase.tab), i);
    OpeningsStay(closed, Release(o.origin), i);
    assert Names(closed.tabs, closed.grants, o.origin);
  }

  // ---- the way there ----

  function OpenedSteps(): seq<Step> {
    [Announce("w", "o"), Granted("o"), Begin("w", "o"), Look(0, None), Created(0, "7"), Record(0)]
  }

  /** A widget's tab is opened as usual, up to the record of it. */
  function OpenedStates(): seq<State> {
    var grant := map["w" := "o"];
    var none := Poll({}, map[], map[]);
    [START,
     State(map[], grant, {}, {}, [], none),
     State(map[], grant, {"o"}, {}, [], none),
     State(map[], grant, {"o"}, {}, Openings(Started), none),
     State(map[], grant, {"o"}, {}, Openings(Creating), none),
     State(map[], grant, {"o"}, {"7"}, Openings(Recording("7")), none),
     State(map["7" := Entry("w", "o")], grant, {"o"}, {"7"}, Openings(Dropping("7")), none)]
  }

  lemma {:induction false} OpenedStart()
    ensures var st, sp := OpenedStates(), OpenedSteps();
            forall k :: 0 <= k < 3 ==> Enabled(st[k], sp[k]) && st[k + 1] == Next(st[k], sp[k])
  {
  }

  lemma {:induction false} OpenedEnd()
    ensures var st, sp := OpenedStates(), OpenedSteps();
            forall k :: 3 <= k < 6 ==> Leads(st[k], sp[k], st[k + 1])
  {
    var st, sp := OpenedStates(), OpenedSteps();
    assert Leads(st[3], sp[3], st[4]);
    assert Leads(st[4], sp[4], st[5]);
    assert Leads(st[5], sp[5], st[6]);
  }

  /** The state is reached: by an opening as it usually goes. */
  lemma {:induction false} AboutToDropHappens()
    ensures Run(OpenedSteps(), OpenedStates()) && AboutToDrop(OpenedStates()[6], 0)
  {
    var st, sp := OpenedStates(), OpenedSteps();
    OpenedStart();
    OpenedEnd();
    forall k | 0 <= k < 6 ensures Enabled(st[k], sp[k]) && st[k + 1] == Next(st[k], sp[k]) {
      if k >= 3 {
        LeadsIsNext(st[k], sp[k], st[k + 1]);
      }
    }
    RunKeepsInv(sp, st, 6);
  }
}
