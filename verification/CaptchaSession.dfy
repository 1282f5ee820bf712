/**
 The handlers that let go of captcha tabs and grants (extension/src/captcha.js, extension/src/
 captcha-tabs.js), run one after the other from any state the interleaved handlers can reach. Each
 of their awaits is a step of that machine, so what holds in all its runs holds of them.
 */
module CaptchaSession {
  import opened Wrappers
  import opened CaptchaTabs
  import opened CaptchaRuns

  class Session {
    var tabs: map<string, Entry>
    var grants: map<string, string>
    var held: set<string>      // origins the browser has granted
    var closed: set<string>    // tabs the extension closed
    ghost var steps: seq<Step>
    ghost var states: seq<State>

    ghost function Now(): State
      requires Run(steps, states)
      reads this
    {
      states[|steps|]
    }

    /** The fields are what the run has come to. */
    ghost predicate Valid()
      reads this
    {
      Run(steps, states) && tabs == Now().tabs && grants == Now().grants && held == Now().held
    }

    constructor (ghost steps: seq<Step>, ghost states: seq<State>, tabs: map<string, Entry>,
                 grants: map<string, string>, held: set<string>)
      requires Run(steps, states)
      requires tabs == states[|steps|].tabs && grants == states[|steps|].grants && held == states[|steps|].held
      ensures Valid() && this.tabs == tabs && this.grants == grants && this.held == held && closed == {}
    {
      this.tabs, this.grants, this.held, closed := tabs, grants, held, {};
      this.steps, this.states := steps, states;
    }

    ghost method Take(step: Step)
      requires Run(steps, states) && Enabled(Now(), step)
      modifies this`steps, this`states
      ensures Run(steps, states) && steps == old(steps) + [step] && Now() == Next(old(Now()), step)
    {
      var n := Next(Now(), step);
      steps, states := steps + [step], states + [n];
    }

    /** A step of the poll that only reads. */
    ghost method Look(step: Step)
      requires Valid() && (step.List? || step.ReadTabs? || step.ReadGrants?)
      modifies this`steps, this`states
      ensures Valid() && steps == old(steps) + [step] && Now().poll == NextPoll(old(Now()), step)
    {
      Take(step);
    }

    /** Gives an origin back unless a tab or a pending grant still names it. */
    method Release(origin: string)
      requires Valid()
      modifies this`held, this`steps, this`states
      ensures Valid() && steps == old(steps) + [Step.Release(origin)]
      ensures held == old(held) - Unnamed(tabs, grants, {origin})
      ensures Now().poll == old(Now().poll)
    {
      Take(Step.Release(origin));
      if origin == "" { return; }
      if Names(tabs, grants, origin) { return; }
      held := held - {origin};
    }

    method Forget(tab: string, ghost step: Step) returns (entry: Option<Entry>)
      requires Valid() && Enabled(Now(), step) && ForgottenTab(Now(), step) == Some(tab) && !step.Activated?
      modifies this`tabs, this`steps, this`states
      ensures Valid() && steps == old(steps) + [step] && tabs == old(tabs) - {tab}
      ensures entry == if tab in old(tabs) then Some(old(tabs)[tab]) else None
      ensures Now().poll == old(Now().poll)
    {
      Take(step);
      if tab !in tabs { return None; }
      entry := Some(tabs[tab]);
      tabs := tabs - {tab};
    }

    /** Forgets a tab, closes it, and then gives its origin back. */
    method LetGo(tab: string, ghost step: Step)
      requires Valid() && tab in tabs
      requires Enabled(Now(), step) && ForgottenTab(Now(), step) == Some(tab) && !step.Activated?
      modifies this`tabs, this`held, this`closed, this`steps, this`states
      ensures Valid() && old(steps) < steps && Now().poll == old(Now().poll)
      ensures tabs == old(tabs) - {tab} && closed == old(closed) + {tab}
      ensures held == old(held) - Unnamed(tabs, grants, {old(tabs)[tab].origin})
    {
      var entry := Forget(tab, step);
      closed := closed + {tab};
      Release(entry.value.origin);
    }

    /** Drops a grant, and then gives the origin back that the poll had read for it. */
    method LetGoGrant(id: string, origin: string)
      requires Valid() && Enabled(Now(), SweepGrant(id))
      modifies this`grants, this`held, this`steps, this`states
      ensures Valid() && old(steps) < steps && Now().poll == old(Now().poll)
      ensures grants == old(grants) - {id}
      ensures held == old(held) - Unnamed(tabs, grants, {origin})
    {
      Take(SweepGrant(id));
      grants := grants - {id};
      Release(origin);
    }

    /** A token, or the report of a page without a widget: only the tab opened for this very captcha is
        heard, yet any tab that reports is forgotten; its origin is given back only if it was heard. */
    method OnReport(tab: string, id: string, close: bool) returns (heard: bool)
      requires Valid()
      modifies this
      ensures Valid() && old(steps) < steps && tabs == old(tabs) - {tab} && grants == old(grants)
      ensures heard <==> tab in old(tabs) && old(tabs)[tab].id == id
      ensures held == old(held) - if heard then Unnamed(tabs, grants, {old(tabs)[tab].origin}) else {}
      ensures closed == old(closed) + if heard && close then {tab} else {}
    {
      var entry := Forget(tab, Answer(tab, id));
      heard := entry.Some? && entry.value.id == id;
      if !heard { return; }
      if close {
        closed := closed + {tab};
      }
      Release(entry.value.origin);
    }

    /** The person closed the tab. */
    method OnTabRemoved(tab: string)
      requires Valid()
      modifies this
      ensures Valid() && old(steps) < steps && tabs == old(tabs) - {tab} && grants == old(grants)
      ensures held == old(held) - if tab in old(tabs) then Unnamed(tabs, grants, {old(tabs)[tab].origin}) else {}
      ensures closed == old(closed)
    {
      var entry := Forget(tab, Close(tab));
      if entry.None? { return; }
      Release(entry.value.origin);
    }

    /** Closes the tabs of a widget the person declines. */
    method DeclineTabs(id: string)
      requires Valid()
      modifies this`tabs, this`held, this`closed, this`steps, this`states
      ensures Valid() && old(steps) <= steps
      ensures tabs == old(tabs) - TabsFor(old(tabs), id)
      ensures closed == old(closed) + TabsFor(old(tabs), id)
      ensures held == old(held) - Unnamed(tabs, grants, TabOrigins(old(tabs), TabsFor(old(tabs), id)))
    {
      ghost var first, all := tabs, TabsFor(tabs, id);
      var rest := TabsFor(tabs, id);
      while rest != {}
        invariant Valid() && old(steps) <= steps && rest <= all
        invariant tabs == first - (all - rest) && closed == old(closed) + (all - rest)
        invariant held == old(held) - Unnamed(tabs, grants, TabOrigins(first, all - rest))
        decreases rest
      {
        var tab :| tab in rest;
        ghost var was, done := tabs, all - rest;
        rest := rest - {tab};
        LetGo(tab, Decline(id, tab));
        assert all - rest == done + {tab};
        TabSwept(first, was, grants, done, tab);
      }
    }

    /** The poll's first loop: forgets, closes and releases every tab whose captcha does not wait. */
    method SweepTabs(waiting: set<string>)
      requires Valid() && Now().poll.waiting == waiting && Now().poll.tabs == tabs
      modifies this`tabs, this`held, this`closed, this`steps, this`states
      ensures Valid() && old(steps) <= steps && Now().poll == old(Now().poll)
      ensures tabs == old(tabs) - StaleTabs(old(tabs), waiting)
      ensures closed == old(closed) + StaleTabs(old(tabs), waiting)
      ensures held == old(held) - Unnamed(tabs, grants, TabOrigins(old(tabs), StaleTabs(old(tabs), waiting)))
    {
      ghost var first, stale := tabs, StaleTabs(tabs, waiting);
      var rest := StaleTabs(tabs, waiting);
      while rest != {}
        invariant Valid() && old(steps) <= steps && rest <= stale
        invariant Now().poll == old(Now().poll)
        invariant tabs == first - (stale - rest) && closed == old(closed) + (stale - rest)
        invariant held == old(held) - Unnamed(tabs, grants, TabOrigins(first, stale - rest))
        decreases rest
      {
        var tab :| tab in rest;
        ghost var was, done := tabs, stale - rest;
        rest := rest - {tab};
        LetGo(tab, SweepTab(tab));
        assert stale - rest == done + {tab};
        TabSwept(first, was, grants, done, tab);
      }
    }

    /** The poll's second loop: drops every grant whose captcha does not wait. `earlier` are origins the
        first loop has dealt with. */
    method SweepGrants(waiting: set<string>, ghost earlier: set<string>)
      requires Valid() && Now().poll.waiting == waiting && Now().poll.grants == grants
      requires forall o <- earlier :: o == "" || Names(tabs, grants, o) || o !in held
      modifies this`grants, this`held, this`steps, this`states
      ensures Valid() && old(steps) <= steps
      ensures grants == old(grants) - StaleGrants(old(grants), waiting)
      ensures held == old(held)
                      - Unnamed(tabs, grants, earlier + GrantOrigins(old(grants), StaleGrants(old(grants), waiting)))
    {
      ghost var first, stale := grants, StaleGrants(grants, waiting);
      var rest := StaleGrants(grants, waiting);
      while rest != {}
        invariant Valid() && old(steps) <= steps && rest <= stale
        invariant Now().poll == old(Now().poll)
        invariant grants == first - (stale - rest)
        invariant held == old(held) - Unnamed(tabs, grants, earlier + GrantOrigins(first, stale - rest))
        decreases rest
      {
        var id :| id in rest;
        ghost var was, done := grants, stale - rest;
        rest := rest - {id};
        LetGoGrant(id, grants[id]);
        assert stale - rest == done + {id};
        GrantSwept(first, tabs, was, earlier, done, id);
      }
    }

    /** One uninterrupted poll is a run of the machine's steps; after it what nobody waits for is gone,
        what is waited for is untouched, and of the permissions exactly those have been given back
        whose origin lost its last entry. */
    method Sweep(waiting: set<string>)
      requires Valid()
      modifies this
      ensures Valid() && old(steps) < steps
      ensures tabs == old(tabs) - StaleTabs(old(tabs), waiting)
      ensures grants == old(grants) - StaleGrants(old(grants), waiting)
      ensures closed == old(closed) + StaleTabs(old(tabs), waiting)
      ensures held == old(held) - Unnamed(tabs, grants,
                        TabOrigins(old(tabs), StaleTabs(old(tabs), waiting))
                        + GrantOrigins(old(grants), StaleGrants(old(grants), waiting)))
    {
      Look(List(waiting));
      Look(ReadTabs);
      SweepTabs(waiting);
      Look(ReadGrants);
      SweepGrants(waiting, TabOrigins(old(tabs), StaleTabs(old(tabs), waiting)));
    }
  }
}
