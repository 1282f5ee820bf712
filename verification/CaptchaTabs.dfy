/**
 The tabs and grants a captcha holds, as changes of the serialised state (extension/src/
 captcha-tabs.js), and what names an origin: a tab's entry or a pending grant.
 */
module CaptchaTabs {
  import opened Wrappers
  import opened MutationQueue

  /** What a stored map holds under a key: a tab's entry, or the origin of a pending grant. */
  datatype Item = Tab(id: string, origin: string) | Grant(grantedOrigin: string)

  type Items = map<string, Item>

  const TABS_KEY := "captchaTabs"
  const GRANTS_KEY := "captchaGrants"

  datatype Change =
    | Forget(tab: string)
    | RecordTab(tab: string, entry: Item)
    | RecordGrant(id: string, origin: string)
    | DropGrant(id: string)

  function JobOf(change: Change): Job<Items, Option<Item>> {
    match change
    case Forget(tab) =>
      Job(TABS_KEY, map[], (tabs: Items) =>
        if tab in tabs then Changed(tabs - {tab}, Some(tabs[tab])) else Changed(tabs, None))
    case RecordTab(tab, entry) => Job(TABS_KEY, map[], (tabs: Items) => Changed(tabs[tab := entry], None))
    case RecordGrant(id, origin) =>
      Job(GRANTS_KEY, map[], (grants: Items) => Changed(grants[id := Grant(origin)], None))
    case DropGrant(id) => Job(GRANTS_KEY, map[], (grants: Items) => Changed(grants - {id}, None))
  }

  function TabsOf(store: map<string, Items>): Items {
    if TABS_KEY in store then store[TABS_KEY] else map[]
  }

  /** Every call of a run is one of the changes, in this order. */
  ghost predicate AreChanges(slots: seq<Slot<Items, Option<Item>>>, changes: seq<Change>) {
    |slots| == |changes| && forall i :: 0 <= i < |slots| ==> slots[i].job == JobOf(changes[i])
  }

  /** A tab that is not tracked stays so until some call records it again. */
  lemma {:induction false} StaysForgotten(first: map<string, Items>, slots: seq<Slot<Items, Option<Item>>>,
                                          changes: seq<Change>, tab: string, i: nat, j: nat)
    requires AreChanges(slots, changes) && i < j <= |slots| && changes[i] == Forget(tab)
    requires forall k :: i < k < j ==> !(changes[k].RecordTab? && changes[k].tab == tab)
    ensures tab !in TabsOf(InOrder(first, slots, j))
  {
    assert slots[j - 1].job == JobOf(changes[j - 1]);
    if i < j - 1 {
      StaysForgotten(first, slots, changes, tab, i, j - 1);
    }
  }

  /** The token, the no-widget and the tab-removed handler may all ask for one tab at once: at most
      one of them is handed its entry. */
  lemma {:induction false} ForgetHandsOutOnce(
      first: map<string, Items>, steps: seq<Step<Items, Option<Item>>>, states: seq<Queue<Items, Option<Item>>>,
      changes: seq<Change>, tab: string, i: nat, j: nat)
    requires Run(first, steps, states)
    requires AllSettled(states[|steps|]) && Reliable(states[|steps|].slots, |states[|steps|].slots|)
    requires AreChanges(states[|steps|].slots, changes) && i < j < |changes|
    requires changes[i] == Forget(tab) && changes[j] == Forget(tab)
    requires forall k :: i < k < j ==> !(changes[k].RecordTab? && changes[k].tab == tab)
    ensures states[|steps|].slots[j].phase.outcome == Some(None)
  {
    var slots := states[|steps|].slots;
    OverlappingCallsAreSequential(first, steps, states);
    StaysForgotten(first, slots, changes, tab, i, j);
    assert slots[j].job == JobOf(Forget(tab));
  }

  // ---- what names an origin ----

  datatype Entry = Entry(id: string, origin: string)

  predicate Names(tabs: map<string, Entry>, grants: map<string, string>, origin: string) {
    (exists t <- tabs :: tabs[t].origin == origin) || (exists id <- grants :: grants[id] == origin)
  }

  /** The tabs whose captcha does not wait any more. */
  function StaleTabs(tabs: map<string, Entry>, waiting: set<string>): set<string> {
    set t | t in tabs && tabs[t].id !in waiting
  }

  function TabsFor(tabs: map<string, Entry>, id: string): set<string> {
    set t | t in tabs && tabs[t].id == id
  }

  function StaleGrants(grants: map<string, string>, waiting: set<string>): set<string> {
    set id | id in grants && id !in waiting
  }

  function TabOrigins(tabs: map<string, Entry>, of: set<string>): set<string> {
    set t | t in of && t in tabs :: tabs[t].origin
  }

  function GrantOrigins(grants: map<string, string>, of: set<string>): set<string> {
    set id | id in of && id in grants :: grants[id]
  }

  /** The origins among `origins` that nothing names any more. */
  function Unnamed(tabs: map<string, Entry>, grants: map<string, string>, origins: set<string>): set<string> {
    set o | o in origins && o != "" && !Names(tabs, grants, o)
  }

  lemma {:induction false} NamesWithoutTab(tabs: map<string, Entry>, grants: map<string, string>, tab: string,
                                           o: string)
    requires tab in tabs
    ensures Names(tabs, grants, o) <==> Names(tabs - {tab}, grants, o) || o == tabs[tab].origin
  {
    var rest := tabs - {tab};
    assert forall t :: t in rest ==> t in tabs && rest[t] == tabs[t];
    if t :| t in tabs && tabs[t].origin == o && o != tabs[tab].origin {
      assert t in rest && rest[t].origin == o;
    }
  }

  lemma {:induction false} NamesWithoutGrant(tabs: map<string, Entry>, grants: map<string, string>, id: string,
                                             o: string)
    requires id in grants
    ensures Names(tabs, grants, o) <==> Names(tabs, grants - {id}, o) || o == grants[id]
  {
    var rest := grants - {id};
    assert forall g :: g in rest ==> g in grants && rest[g] == grants[g];
    if g :| g in grants && grants[g] == o && o != grants[id] {
      assert g in rest && rest[g] == o;
    }
  }

  /** Forgetting one tab can leave only that tab's own origin unnamed. */
  lemma {:induction false} TabSwept(first: map<string, Entry>, tabs: map<string, Entry>, grants: map<string, string>,
                                    done: set<string>, tab: string)
    requires tab in tabs && tab in first && tabs[tab] == first[tab]
    ensures Unnamed(tabs - {tab}, grants, TabOrigins(first, done + {tab}))
         == Unnamed(tabs, grants, TabOrigins(first, done)) + Unnamed(tabs - {tab}, grants, {tabs[tab].origin})
  {
    forall o ensures Names(tabs, grants, o) <==> Names(tabs - {tab}, grants, o) || o == tabs[tab].origin {
      NamesWithoutTab(tabs, grants, tab, o);
    }
  }

  lemma {:induction false} GrantSwept(first: map<string, string>, tabs: map<string, Entry>, grants: map<string, string>,
                                      earlier: set<string>, done: set<string>, id: string)
    requires id in grants && id in first && grants[id] == first[id]
    ensures Unnamed(tabs, grants - {id}, earlier + GrantOrigins(first, done + {id}))
         == Unnamed(tabs, grants, earlier + GrantOrigins(first, done)) + Unnamed(tabs, grants - {id}, {grants[id]})
  {
    forall o ensures Names(tabs, grants, o) <==> Names(tabs, grants - {id}, o) || o == grants[id] {
      NamesWithoutGrant(tabs, grants, id, o);
    }
  }
}
