/**
 The listeners of the hand-off as extension/src/downloads.js writes them: an entry object for each
 paused download, a map of the hand-offs that loses entries while calls under way still hold them,
 and a map of notifications. Each method is the code between two awaits and is handed the entry its
 call holds; `machine` says which awaits the calls stand at, and every method is a step of it, one
 for each kind of step there is.
 */
module Listeners {
  import opened Wrappers
  import opened HandOff

  // ---- entries and hand-offs as values ----

  /** What an entry object holds. */
  datatype Holds = Holds(state: EntryState, notificationId: Option<nat>)

  function Held(h: Handoff): Holds {
    Holds(h.state, h.notification)
  }

  /** Entries, map and notifications are those of the machine. */
  ghost predicate Ties(seen: map<nat, Holds>, listed: set<nat>, notifications: map<nat, nat>, s: System) {
    && notifications == s.notifications && (forall n <- notifications :: notifications[n] in seen)
    && (forall id :: id in seen <==> id in s.handoffs)
    && (forall id <- seen :: seen[id] == Held(s.handoffs[id]) && (id in listed <==> s.handoffs[id].listed))
  }

  /** A step makes these calls for a hand-off. */
  ghost predicate Makes(s: System, step: Step, id: nat, calls: seq<Call>)
    requires Enabled(s, step)
  {
    id in s.handoffs && id in Next(s, step).handoffs && Next(s, step).handoffs[id].calls == s.handoffs[id].calls + calls
  }

  lemma {:induction false} PauseTies(seen: map<nat, Holds>, listed: set<nat>, notifications: map<nat, nat>, s: System,
                                     id: nat)
    requires Ties(seen, listed, notifications, s) && Enabled(s, Pause(id))
    ensures id !in seen
    ensures Ties(seen[id := Holds(Paused, None)], listed + {id}, notifications, Next(s, Pause(id)))
  {
  }

  lemma {:induction false} ShownTies(seen: map<nat, Holds>, listed: set<nat>, notifications: map<nat, nat>, s: System,
                                     id: nat, n: Option<nat>)
    requires Ties(seen, listed, notifications, s) && Enabled(s, Shown(id, n)) && id in seen
    ensures var was := seen[id];
            var now := Holds(if was.state == Paused then Submitting else was.state,
                             if n.Some? then n else was.notificationId);
            && Ties(seen[id := now], listed, if n.Some? then notifications[n.value := id] else notifications,
                    Next(s, Shown(id, n)))
            && Makes(s, Shown(id, n), id, if was.state == Paused then [Submit] else [])
  {
  }

  lemma {:induction false} SubmittedTies(seen: map<nat, Holds>, listed: set<nat>, notifications: map<nat, nat>,
                                         s: System, id: nat, ok: bool)
    requires Ties(seen, listed, notifications, s) && Enabled(s, SubmitReturned(id, ok)) && id in seen
    ensures var was, n := seen[id], Next(s, SubmitReturned(id, ok));
            if was.state != Submitting then
              Ties(seen, listed, notifications, n) && Makes(s, SubmitReturned(id, ok), id, [])
            else
              && Ties(seen[id := was.(state := if ok then HandedOff else Resumed)], listed - {id}, notifications, n)
              && Makes(s, SubmitReturned(id, ok), id, [if ok then Cancel else Resume])
  {
  }

  /** The calls of the steps that change no entry. */
  function Work(s: System, step: Step): seq<Call>
    requires Enabled(s, step)
  {
    match step
    case CancelReturned(_) => [Erase]
    case ReturnReturned(id, ok) => ReturnCall(s.handoffs[id].listener.phase, ok)
    case ClickReturned(id, i, ok) => ReturnCall(s.handoffs[id].clicks[i].phase, ok)
    case _ => []
  }

  predicate IsWork(step: Step, id: nat) {
    !step.Pause? && !step.Clicked? && !step.Shown? && !step.SubmitReturned? && !step.ClickCleared? && step.id == id
  }

  lemma {:induction false} WorkTies(seen: map<nat, Holds>, listed: set<nat>, notifications: map<nat, nat>, s: System,
                                    step: Step, id: nat)
    requires Ties(seen, listed, notifications, s) && Enabled(s, step) && IsWork(step, id) && id in seen
    ensures Ties(seen, listed,
                 if TakesDown(s.handoffs[id], step) && seen[id].notificationId.Some?
                 then notifications - {seen[id].notificationId.value} else notifications, Next(s, step))
    ensures Makes(s, step, id, Work(s, step))
  {
  }

  lemma {:induction false} ClickTies(seen: map<nat, Holds>, listed: set<nat>, notifications: map<nat, nat>, s: System,
                                     shown: nat)
    requires Ties(seen, listed, notifications, s) && shown in notifications
    ensures Enabled(s, Clicked(shown))
    ensures var id, n := notifications[shown], Next(s, Clicked(shown));
            && Ties(seen, listed, notifications - {shown}, n)
            && id in s.handoffs && id in n.handoffs
            && n.handoffs[id].clicks == s.handoffs[id].clicks + [Looking(id in listed)]
  {
  }

  lemma {:induction false} KeptTies(seen: map<nat, Holds>, listed: set<nat>, notifications: map<nat, nat>, s: System,
                                    id: nat, click: nat, found: bool)
    requires Ties(seen, listed, notifications, s) && Enabled(s, ClickCleared(id, click)) && id in seen
    requires s.handoffs[id].clicks[click] == Looking(found)
    ensures var was, n := seen[id], Next(s, ClickCleared(id, click));
            if !found || (was.state != Paused && was.state != Submitting) then
              Ties(seen, listed, notifications, n) && Makes(s, ClickCleared(id, click), id, [])
            else
              && Ties(seen[id := was.(state := KeptByUser)], listed - {id}, notifications, n)
              && Makes(s, ClickCleared(id, click), id, [Resume])
  {
  }

  // ---- the object ----

  class Entry {
    var state: EntryState
    var notificationId: Option<nat>
    ghost const id: nat    // the download it was made for

    constructor (ghost id: nat)
      ensures this.id == id && state == Paused && notificationId == None
    {
      this.id := id;
      state, notificationId := Paused, None;
    }
  }

  class Interceptor {
    var handoffs: map<nat, Entry>
    var notifications: map<nat, nat>
    ghost var entries: map<nat, Entry>    // the entry of every download ever paused
    ghost var machine: System

    ghost function Seen(): map<nat, Holds>
      reads this, entries.Values
    {
      map id | id in entries :: Holds(entries[id].state, entries[id].notificationId)
    }

    /** A download's entry object is the machine's record of it, no two downloads share one, and the
        map holds it while it is listed. */
    ghost predicate Valid()
      reads this, entries.Values
    {
      && (forall id <- entries :: entries[id].id == id)
      && (forall id <- handoffs :: id in entries && handoffs[id] == entries[id])
      && Ties(Seen(), handoffs.Keys, notifications, machine)
    }

    constructor ()
      ensures Valid() && machine == START
    {
      handoffs, notifications, entries, machine := map[], map[], map[], START;
    }

    /** The code after the pause: the download gets its entry. */
    method OnPaused(id: nat) returns (entry: Entry)
      requires Valid() && Enabled(machine, Pause(id))
      modifies this
      ensures Valid() && machine == Next(old(machine), Pause(id))
      ensures fresh(entry) && entries == old(entries)[id := entry]
    {
      hide Next, Enabled, Ties;
      PauseTies(Seen(), handoffs.Keys, notifications, machine, id);
      ghost var seen := Seen();
      entry := new Entry(id);
      handoffs := handoffs[id := entry];
      entries := entries[id := entry];
      machine := Next(machine, Pause(id));
      assert Seen() == seen[id := Holds(Paused, None)] && handoffs.Keys == old(handoffs.Keys) + {id};
    }

    method RecordNotice(id: nat, entry: Entry, notificationId: Option<nat>)
      modifies `notifications, entry`notificationId
      ensures entry.notificationId == if notificationId.Some? then notificationId else old(entry.notificationId)
      ensures notifications
           == if notificationId.Some? then old(notifications)[notificationId.value := id] else old(notifications)
    {
      if notificationId.Some? {
        entry.notificationId := notificationId;
        notifications := notifications[notificationId.value := id];
      }
    }

    /** After the notice: it is recorded if there is one, and the submit goes out unless the person
        was faster. */
    method OnShown(id: nat, entry: Entry, notificationId: Option<nat>) returns (calls: seq<Call>)
      requires Valid() && Enabled(machine, Shown(id, notificationId)) && id in entries && entry == entries[id]
      modifies `notifications, `machine, entry
      ensures Valid() && machine == Next(old(machine), Shown(id, notificationId))
      ensures Makes(old(machine), Shown(id, notificationId), id, calls)
    {
      hide Next, Enabled, Makes, Ties;
      ghost var seen := Seen();
      ShownTies(seen, handoffs.Keys, notifications, machine, id, notificationId);
      machine := Next(machine, Shown(id, notificationId));
      RecordNotice(id, entry, notificationId);
      calls := [];
      if entry.state == Paused {
        entry.state := Submitting;
        calls := [Submit];
      }
      assert Seen() == seen[id := Holds(entry.state, entry.notificationId)];
    }

    /** `finish` up to its first await: an accepted submit cancels, a refused one gives back, a late
        one does neither. The entry is the one the call has held all along. */
    method Finish(id: nat, entry: Entry, ok: bool) returns (calls: seq<Call>)
      requires Valid() && Enabled(machine, SubmitReturned(id, ok)) && id in entries && entry == entries[id]
      modifies `handoffs, `machine, entry`state
      ensures Valid() && machine == Next(old(machine), SubmitReturned(id, ok))
      ensures Makes(old(machine), SubmitReturned(id, ok), id, calls)
      ensures old(entry.state) != Submitting ==> calls == [] && handoffs == old(handoffs)
    {
      hide Next, Enabled, Makes, Ties;
      ghost var seen := Seen();
      SubmittedTies(seen, handoffs.Keys, notifications, machine, id, ok);
      machine := Next(machine, SubmitReturned(id, ok));
      assert Seen() == seen;
      if entry.state != Submitting {
        return [];
      }
      entry.state := if ok then HandedOff else Resumed;
      handoffs := handoffs - {id};
      calls := if ok then [Cancel] else [Resume];
      assert Seen() == seen[id := Holds(entry.state, entry.notificationId)];
      assert handoffs.Keys == old(handoffs.Keys) - {id};
    }

    /** After the cancel, answered or refused, the row of the browser's list is erased. */
    method OnCancelled(id: nat) returns (calls: seq<Call>)
      requires Valid() && Enabled(machine, CancelReturned(id)) && id in entries
      modifies `machine
      ensures Valid() && machine == Next(old(machine), CancelReturned(id))
      ensures Makes(old(machine), CancelReturned(id), id, calls)
    {
      hide Next, Enabled, Makes, Ties;
      ghost var seen := Seen();
      WorkTies(seen, handoffs.Keys, notifications, machine, CancelReturned(id), id);
      machine := Next(machine, CancelReturned(id));
      assert Seen() == seen;
      calls := [Erase];
    }

    method ClearNotification(notificationId: Option<nat>)
      modifies this`notifications
      ensures notifications == if notificationId.None? then old(notifications)
                               else old(notifications) - {notificationId.value}
    {
      if notificationId.None? { return; }
      notifications := notifications - {notificationId.value};
    }

    /** After the erase of an accepted download the notice goes. */
    method OnErased(id: nat, entry: Entry)
      requires Valid() && Enabled(machine, EraseReturned(id)) && id in entries && entry == entries[id]
      modifies `notifications, `machine
      ensures Valid() && machine == Next(old(machine), EraseReturned(id))
      ensures Makes(old(machine), EraseReturned(id), id, [])
    {
      hide Next, Enabled, Makes, Ties;
      ghost var seen := Seen();
      WorkTies(seen, handoffs.Keys, notifications, machine, EraseReturned(id), id);
      machine := Next(machine, EraseReturned(id));
      ClearNotification(entry.notificationId);
      assert Seen() == seen;
    }

    /** `giveBack` for a refused submit, after each of its awaits: a failed resume fetches afresh, a
        successful fetch erases the old row, and at the end the notice goes. */
    method OnReturned(id: nat, entry: Entry, phase: Return, ok: bool) returns (calls: seq<Call>)
      requires Valid() && Enabled(machine, ReturnReturned(id, ok)) && id in entries && entry == entries[id]
      requires machine.handoffs[id].listener == Returning(phase)
      modifies `notifications, `machine
      ensures Valid() && machine == Next(old(machine), ReturnReturned(id, ok))
      ensures Makes(old(machine), ReturnReturned(id, ok), id, calls)
    {
      hide Next, Enabled, Makes, Ties;
      ghost var seen := Seen();
      WorkTies(seen, handoffs.Keys, notifications, machine, ReturnReturned(id, ok), id);
      machine := Next(machine, ReturnReturned(id, ok));
      assert Seen() == seen;
      if phase == Resuming && !ok {
        return [Fetch];
      }
      if phase == Fetching && ok {
        return [Erase];
      }
      ClearNotification(entry.notificationId);
      assert Seen() == seen;
      calls := [];
    }

    /** The notice is down, a message says what became of the download, and the listener ends. */
    ghost method OnTold(id: nat, step: Step)
      requires Valid() && Enabled(machine, step) && (step == Cleared(id) || step == Told(id)) && id in entries
      modifies `machine
      ensures Valid() && machine == Next(old(machine), step)
      ensures Makes(old(machine), step, id, [])
    {
      hide Next, Enabled, Makes, Ties;
      ghost var seen := Seen();
      WorkTies(seen, handoffs.Keys, notifications, machine, step, id);
      machine := Next(machine, step);
      assert Seen() == seen;
    }

    /** A click on a notice, up to the first await: what is clicked twice is found once, and the entry
        is looked up before the notice goes. */
    method KeepInBrowser(notificationId: nat) returns (id: Option<nat>, entry: Option<Entry>)
      requires Valid()
      modifies `notifications, `machine
      ensures Valid() && notificationId !in notifications
      ensures id == if notificationId in old(notifications) then Some(old(notifications)[notificationId]) else None
      ensures id == None ==> machine == old(machine)
      ensures id.Some? ==>
                && Enabled(old(machine), Clicked(notificationId))
                && machine == Next(old(machine), Clicked(notificationId))
                && entry == (if id.value in handoffs then Some(handoffs[id.value]) else None)
                && id.value in old(machine).handoffs && id.value in machine.handoffs
                && machine.handoffs[id.value].clicks == old(machine).handoffs[id.value].clicks + [Looking(entry.Some?)]
    {
      hide Next, Enabled, Ties;
      if notificationId !in notifications {
        return None, None;
      }
      id := Some(notifications[notificationId]);
      entry := if id.value in handoffs then Some(handoffs[id.value]) else None;
      ghost var seen := Seen();
      ClickTies(seen, handoffs.Keys, notifications, machine, notificationId);
      machine := Next(machine, Clicked(notificationId));
      ClearNotification(Some(notificationId));
      assert Seen() == seen;
    }

    /** After it: the state is read again through the entry found before, which the map may have lost
        meanwhile, and only a hand-off that is still open is taken back. */
    method OnKeepCleared(id: nat, entry: Option<Entry>, click: nat) returns (calls: seq<Call>)
      requires Valid() && Enabled(machine, ClickCleared(id, click)) && id in entries
      requires machine.handoffs[id].clicks[click] == Looking(entry.Some?)
      requires entry.Some? ==> entry.value == entries[id]
      modifies `handoffs, `machine, if entry.Some? then {entry.value} else {}
      ensures Valid() && machine == Next(old(machine), ClickCleared(id, click))
      ensures Makes(old(machine), ClickCleared(id, click), id, calls)
    {
      hide Next, Enabled, Makes, Ties;
      ghost var seen := Seen();
      KeptTies(seen, handoffs.Keys, notifications, machine, id, click, entry.Some?);
      machine := Next(machine, ClickCleared(id, click));
      assert Seen() == seen;
      if entry.None? || (entry.value.state != Paused && entry.value.state != Submitting) {
        return [];
      }
      entry.value.state := KeptByUser;
      handoffs := handoffs - {id};
      calls := [Resume];
      assert Seen() == seen[id := Holds(KeptByUser, entry.value.notificationId)];
      assert handoffs.Keys == old(handoffs.Keys) - {id};
    }

    /** `giveBack` for a download the person kept, after each of its awaits; its notice is down already. */
    method OnKeepReturned(id: nat, click: nat, phase: Return, ok: bool) returns (calls: seq<Call>)
      requires Valid() && Enabled(machine, ClickReturned(id, click, ok)) && id in entries
      requires machine.handoffs[id].clicks[click] == KeptReturning(phase)
      modifies `machine
      ensures Valid() && machine == Next(old(machine), ClickReturned(id, click, ok))
      ensures Makes(old(machine), ClickReturned(id, click, ok), id, calls)
    {
      hide Next, Enabled, Makes, Ties;
      ghost var seen := Seen();
      WorkTies(seen, handoffs.Keys, notifications, machine, ClickReturned(id, click, ok), id);
      machine := Next(machine, ClickReturned(id, click, ok));
      assert Seen() == seen;
      calls := if phase == Resuming && !ok then [Fetch] else if phase == Fetching && ok then [Erase] else [];
    }
  }
}
