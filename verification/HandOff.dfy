/**
 The hand-off of a paused download (extension/src/downloads.js, from the pause to `finish`,
 `giveBack` and `keepInBrowser`), one step for every stretch of code between two awaits. Any number
 of downloads and clicks are in flight at once, and their steps may come in any order.
 */
module HandOff {
  import opened Wrappers

  datatype EntryState = Paused | Submitting | HandedOff | Resumed | KeptByUser

  /** A call the extension makes for a download. */
  datatype Call = Submit | Cancel | Erase | Resume | Fetch

  /** What `giveBack` waits for: the resume, the download started afresh, the old row's removal. */
  datatype Return = Resuming | Fetching | ErasingOld

  /** Where the created-listener of a download stands. */
  datatype Listener =
    | Notifying | AwaitingSubmit | Cancelling | Erasing
    | Returning(phase: Return) | Clearing | Telling | Finished

  /** Where one `keepInBrowser` call stands; `found` is whether the hand-off was still listed. */
  datatype Click = Looking(found: bool) | KeptReturning(phase: Return) | Dismissed

  datatype Handoff = Handoff(
    state: EntryState,
    notification: Option<nat>,
    listed: bool,
    accepted: Option<bool>,
    listener: Listener,
    clicks: seq<Click>,
    calls: seq<Call>,
    resumed: Option<bool>,     // what the browser answered to the resume
    fetched: Option<bool>)     // and to the download started afresh

  datatype System = System(handoffs: map<nat, Handoff>, notifications: map<nat, nat>)

  datatype Step =
    | Pause(id: nat)
    | Shown(id: nat, notification: Option<nat>)
    | SubmitReturned(id: nat, ok: bool)
    | CancelReturned(id: nat)
    | EraseReturned(id: nat)
    | ReturnReturned(id: nat, ok: bool)
    | Cleared(id: nat)
    | Told(id: nat)
    | Clicked(shown: nat)
    | ClickCleared(id: nat, click: nat)
    | ClickReturned(id: nat, click: nat, ok: bool)

  /** What `giveBack` waits for after an answer: the fetch of a refused resume, the erase of the old
      row after a fetch, and then nothing more. */
  function AfterReturn(phase: Return, ok: bool): Option<Return> {
    if phase == Resuming && !ok then Some(Fetching)
    else if phase == Fetching && ok then Some(ErasingOld)
    else None
  }

  /** The call it makes for that. */
  function ReturnCall(phase: Return, ok: bool): seq<Call> {
    if phase == Resuming && !ok then [Fetch]
    else if phase == Fetching && ok then [Erase]
    else []
  }

  /** The answer of one phase, kept beside the calls. */
  function Answered(h: Handoff, phase: Return, ok: bool): Handoff {
    match phase
    case Resuming => h.(resumed := Some(ok))
    case Fetching => h.(fetched := Some(ok))
    case ErasingOld => h
  }

  /** The step is one the hand-off waits for. */
  predicate CanMove(h: Handoff, step: Step) {
    match step
    case Pause(_) => false
    case Shown(_, _) => h.listener == Notifying
    case SubmitReturned(_, _) => h.listener == AwaitingSubmit
    case CancelReturned(_) => h.listener == Cancelling
    case EraseReturned(_) => h.listener == Erasing
    case ReturnReturned(_, _) => h.listener.Returning?
    case Cleared(_) => h.listener == Clearing
    case Told(_) => h.listener == Telling
    case Clicked(_) => true
    case ClickCleared(_, i) => i < |h.clicks| && h.clicks[i].Looking?
    case ClickReturned(_, i, _) => i < |h.clicks| && h.clicks[i].KeptReturning?
  }

  function Move(h: Handoff, step: Step): Handoff
    requires CanMove(h, step)
  {
    match step
    case Shown(_, n) =>
      var notification := if n.Some? then n else h.notification;
      if h.state != Paused then h.(notification := notification, listener := Finished)
      else h.(notification := notification, state := Submitting, listener := AwaitingSubmit,
              calls := h.calls + [Submit])
    case SubmitReturned(_, ok) =>
      if h.state != Submitting then h.(accepted := Some(ok), listener := Finished)
      else if ok then
        h.(accepted := Some(ok), state := HandedOff, listed := false, listener := Cancelling,
           calls := h.calls + [Cancel])
      else
        h.(accepted := Some(ok), state := Resumed, listed := false, listener := Returning(Resuming),
           calls := h.calls + [Resume])
    case CancelReturned(_) => h.(listener := Erasing, calls := h.calls + [Erase])
    case EraseReturned(_) => h.(listener := Clearing)
    case ReturnReturned(_, ok) =>
      Answered(h, h.listener.phase, ok).(
        listener := if AfterReturn(h.listener.phase, ok).Some? then Returning(AfterReturn(h.listener.phase, ok).value)
                    else Clearing,
        calls := h.calls + ReturnCall(h.listener.phase, ok))
    case Cleared(_) => h.(listener := Telling)
    case Told(_) => h.(listener := Finished)
    case Clicked(_) => h.(clicks := h.clicks + [Looking(h.listed)])
    case ClickCleared(_, i) =>
      if !h.clicks[i].found || (h.state != Paused && h.state != Submitting)
      then h.(clicks := h.clicks[i := Dismissed])
      else h.(state := KeptByUser, listed := false, clicks := h.clicks[i := KeptReturning(Resuming)],
              calls := h.calls + [Resume])
    case ClickReturned(_, i, ok) =>
      Answered(h, h.clicks[i].phase, ok).(
        clicks := h.clicks[i := if AfterReturn(h.clicks[i].phase, ok).Some?
                                then KeptReturning(AfterReturn(h.clicks[i].phase, ok).value) else Dismissed],
        calls := h.calls + ReturnCall(h.clicks[i].phase, ok))
  }

  /** Whether the step ends with the hand-off's own notification being taken down. */
  predicate TakesDown(h: Handoff, step: Step)
    requires CanMove(h, step)
  {
    step.EraseReturned? || (step.ReturnReturned? && AfterReturn(h.listener.phase, step.ok).None?)
  }

  function Target(s: System, step: Step): Option<nat> {
    if step.Clicked? then if step.shown in s.notifications then Some(s.notifications[step.shown]) else None
    else Some(step.id)
  }

  predicate Enabled(s: System, step: Step) {
    if step.Pause? then step.id !in s.handoffs
    else
      var id := Target(s, step);
      && id.Some? && id.value in s.handoffs && CanMove(s.handoffs[id.value], step)
      && (step.Shown? && step.notification.Some? ==>
            step.notification.value !in s.notifications
            && forall o <- s.handoffs :: s.handoffs[o].notification != step.notification)
  }

  const FRESH := Handoff(Paused, None, true, None, Notifying, [], [], None, None)

  /** The notifications that still lead to a hand-off. */
  function Shows(s: System, step: Step): map<nat, nat>
    requires Enabled(s, step)
  {
    if step.Shown? && step.notification.Some? then s.notifications[step.notification.value := step.id]
    else if step.Clicked? then s.notifications - {step.shown}
    else if !step.Pause? && TakesDown(s.handoffs[step.id], step) && s.handoffs[step.id].notification.Some?
    then s.notifications - {s.handoffs[step.id].notification.value}
    else s.notifications
  }

  function Next(s: System, step: Step): System
    requires Enabled(s, step)
  {
    var id := Target(s, step).value;
    System(s.handoffs[id := if step.Pause? then FRESH else Move(s.handoffs[id], step)], Shows(s, step))
  }

  // ---- what every step keeps ----

  /** The calls and answers of a `giveBack` that stands at `phase`, or has ended. */
  predicate ReturnCalls(phase: Option<Return>, calls: seq<Call>, resumed: Option<bool>, fetched: Option<bool>) {
    match phase
    case Some(Resuming) => calls == [Resume] && resumed == None && fetched == None
    case Some(Fetching) => calls == [Resume, Fetch] && resumed == Some(false) && fetched == None
    case Some(ErasingOld) => calls == [Resume, Fetch, Erase] && resumed == Some(false) && fetched == Some(true)
    case None =>
      || (calls == [Resume] && resumed == Some(true) && fetched == None)
      || (calls == [Resume, Fetch] && resumed == Some(false) && fetched == Some(false))
      || (calls == [Resume, Fetch, Erase] && resumed == Some(false) && fetched == Some(true))
  }

  predicate Unanswered(h: Handoff) {
    h.resumed == None && h.fetched == None
  }

  /** The phase of a give-back by a click; None when it is over. */
  function ClickPhase(clicks: seq<Click>): Option<Return> {
    if clicks == [] || !clicks[0].KeptReturning? then None else Some(clicks[0].phase)
  }

  predicate NoClickReturns(clicks: seq<Click>) {
    forall c <- clicks :: !c.KeptReturning?
  }

  /** A hand-off is told apart by its state: who is at work on it and which calls were made. */
  predicate Consistent(h: Handoff) {
    && |h.clicks| <= 1
    && (h.listed <==> h.state == Paused || h.state == Submitting)
    && match h.state
       case Paused => h.listener == Notifying && h.clicks == [] && h.calls == [] && h.accepted == None
                      && h.notification == None && Unanswered(h)
       case Submitting => h.listener == AwaitingSubmit && NoClickReturns(h.clicks) && h.calls == [Submit]
                          && h.accepted == None && Unanswered(h)
       case HandedOff =>
         && Unanswered(h) && NoClickReturns(h.clicks) && h.accepted == Some(true)
         && (h.listener == Cancelling || h.listener == Erasing || h.listener == Clearing
             || h.listener == Telling || h.listener == Finished)
         && h.calls == if h.listener == Cancelling then [Submit, Cancel] else [Submit, Cancel, Erase]
       case Resumed =>
         && NoClickReturns(h.clicks) && h.accepted == Some(false)
         && (h.listener.Returning? || h.listener == Clearing || h.listener == Telling || h.listener == Finished)
         && |h.calls| >= 1 && h.calls[0] == Submit
         && ReturnCalls(if h.listener.Returning? then Some(h.listener.phase) else None, h.calls[1..],
                        h.resumed, h.fetched)
       case KeptByUser =>
         && h.clicks != [] && !h.clicks[0].Looking?
         && (h.listener == AwaitingSubmit || h.listener == Finished)
         && |h.calls| >= 1 && h.calls[0] == Submit
         && ReturnCalls(ClickPhase(h.clicks), h.calls[1..], h.resumed, h.fetched)
  }

  /** A notification that still counts belongs to one hand-off that nobody has clicked yet. */
  ghost predicate Notified(handoffs: map<nat, Handoff>, notifications: map<nat, nat>) {
    forall n <- notifications ::
      && notifications[n] in handoffs
      && handoffs[notifications[n]].notification == Some(n) && handoffs[notifications[n]].clicks == []
  }

  /** No two hand-offs share a notification. */
  ghost predicate OwnNotifications(handoffs: map<nat, Handoff>) {
    forall id, o | id in handoffs && o in handoffs && handoffs[id].notification.Some?
      :: handoffs[id].notification == handoffs[o].notification ==> id == o
  }

  ghost predicate Inv(s: System) {
    && (forall id <- s.handoffs :: Consistent(s.handoffs[id]))
    && Notified(s.handoffs, s.notifications) && OwnNotifications(s.handoffs)
  }

  const START := System(map[], map[])

  lemma {:induction false} ClickIsConsistent(h: Handoff, step: Step)
    requires Consistent(h) && CanMove(h, step) && (step.Clicked? ==> h.notification.Some? && h.clicks == [])
    requires step.Clicked? || step.ClickCleared? || step.ClickReturned?
    ensures Consistent(Move(h, step))
  {
  }

  lemma {:induction false} ListenerIsConsistent(h: Handoff, step: Step)
    requires Consistent(h) && CanMove(h, step) && !step.Clicked? && !step.ClickCleared? && !step.ClickReturned?
    ensures Consistent(Move(h, step))
  {
  }

  lemma {:induction false} MoveIsConsistent(h: Handoff, step: Step)
    requires Consistent(h) && CanMove(h, step) && (step.Clicked? ==> h.notification.Some? && h.clicks == [])
    ensures Consistent(Move(h, step))
  {
    if step.Clicked? || step.ClickCleared? || step.ClickReturned? {
      ClickIsConsistent(h, step);
    } else {
      ListenerIsConsistent(h, step);
    }
  }

  /** Only the notice itself names a notification, and only a click adds a click. */
  lemma {:induction false} MoveFrame(h: Handoff, step: Step)
    requires CanMove(h, step)
    ensures !step.Shown? ==> Move(h, step).notification == h.notification
    ensures !step.Clicked? && h.clicks == [] ==> Move(h, step).clicks == []
  {
  }

  lemma {:induction false} ReplacedNotified(handoffs: map<nat, Handoff>, was: map<nat, nat>, now: map<nat, nat>,
                                            id: nat, h: Handoff)
    requires Notified(handoffs, was) && OwnNotifications(handoffs) && id in handoffs
    requires h.notification == handoffs[id].notification
    requires forall n <- now :: n in was && now[n] == was[n]
    requires (handoffs[id].clicks == [] ==> h.clicks == []) || forall n <- now :: now[n] != id
    ensures Notified(handoffs[id := h], now) && OwnNotifications(handoffs[id := h])
  {
  }

  lemma {:induction false} AddedNotified(handoffs: map<nat, Handoff>, was: map<nat, nat>, id: nat, h: Handoff)
    requires Notified(handoffs, was) && OwnNotifications(handoffs)
    requires h.clicks == [] && id !in was.Values
    requires h.notification.Some? ==>
               h.notification.value !in was && forall o <- handoffs :: handoffs[o].notification != h.notification
    ensures OwnNotifications(handoffs[id := h])
    ensures Notified(handoffs[id := h], if h.notification.Some? then was[h.notification.value := id] else was)
  {
  }

  lemma {:induction false} StepKeepsConsistent(s: System, step: Step)
    requires Inv(s) && Enabled(s, step)
    ensures forall id <- Next(s, step).handoffs :: Consistent(Next(s, step).handoffs[id])
  {
    if !step.Pause? {
      MoveIsConsistent(s.handoffs[Target(s, step).value], step);
    }
  }

  lemma {:induction false} StepKeepsNotified(s: System, step: Step)
    requires Inv(s) && Enabled(s, step)
    ensures Notified(Next(s, step).handoffs, Next(s, step).notifications) && OwnNotifications(Next(s, step).handoffs)
  {
    var id := Target(s, step).value;
    if step.Pause? {
      AddedNotified(s.handoffs, s.notifications, id, FRESH);
    } else {
      var h := s.handoffs[id];
      MoveFrame(h, step);
      if step.Shown? {
        assert forall n <- s.notifications :: s.notifications[n] != id;
        AddedNotified(s.handoffs, s.notifications, id, Move(h, step));
      } else {
        if step.Clicked? {
          assert forall n <- Shows(s, step) :: s.notifications[n] != id;
        }
        ReplacedNotified(s.handoffs, s.notifications, Shows(s, step), id, Move(h, step));
      }
    }
  }

  lemma {:induction false} StepKeepsInv(s: System, step: Step)
    requires Inv(s) && Enabled(s, step)
    ensures Inv(Next(s, step))
  {
    StepKeepsConsistent(s, step);
    StepKeepsNotified(s, step);
  }
}
