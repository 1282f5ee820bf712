/**
 Every run of the hand-off: what a download that was paused can come to, that it comes to it, and which
 event decides what it comes to.
 */
module HandOffRuns {
  import opened Wrappers
  import opened HandOff

  /** A run from the empty extension: the steps and the states between them. */
  ghost predicate Run(steps: seq<Step>, states: seq<System>) {
    && |states| == |steps| + 1 && states[0] == START
    && forall i :: 0 <= i < |steps| ==> Enabled(states[i], steps[i]) && states[i + 1] == Next(states[i], steps[i])
  }

  lemma {:induction false} RunKeepsInv(steps: seq<Step>, states: seq<System>, i: nat)
    requires Run(steps, states) && i < |states|
    ensures Inv(states[i])
  {
    if i > 0 {
      RunKeepsInv(steps, states, i - 1);
      StepKeepsInv(states[i - 1], steps[i - 1]);
    }
  }

  predicate TakenBack(h: Handoff) {
    h.state == Resumed || h.state == KeptByUser
  }

  predicate Terminal(h: Handoff) {
    h.state == HandedOff || TakenBack(h)
  }

  /** A hand-off nobody works on any more. */
  predicate AtRest(h: Handoff) {
    h.listener == Finished && forall c <- h.clicks :: c == Dismissed
  }

  lemma {:induction false} TerminalIsAbsorbing(steps: seq<Step>, states: seq<System>, i: nat, j: nat, id: nat)
    requires Run(steps, states) && i <= j < |states|
    requires id in states[i].handoffs && Terminal(states[i].handoffs[id])
    ensures id in states[j].handoffs && states[j].handoffs[id].state == states[i].handoffs[id].state
    decreases j
  {
    if i < j {
      TerminalIsAbsorbing(steps, states, i, j - 1, id);
      RunKeepsInv(steps, states, j - 1);
      assert Consistent(states[j - 1].handoffs[id]);
      assert Enabled(states[j - 1], steps[j - 1]) && states[j] == Next(states[j - 1], steps[j - 1]);
    }
  }

  /** Whatever answers still come in, a download that was taken back is never cancelled. */
  lemma {:induction false} TakenBackIsNeverCancelled(steps: seq<Step>, states: seq<System>, i: nat, j: nat, id: nat)
    requires Run(steps, states) && i <= j < |states|
    requires id in states[i].handoffs && TakenBack(states[i].handoffs[id])
    ensures id in states[j].handoffs && Cancel !in states[j].handoffs[id].calls
  {
    TerminalIsAbsorbing(steps, states, i, j, id);
    RunKeepsInv(steps, states, j);
    NotCancelled(states[j].handoffs[id]);
  }

  lemma {:induction false} NotCancelled(h: Handoff)
    requires Consistent(h) && h.state != HandedOff
    ensures Cancel !in h.calls
  {
    assert h.calls != [] ==> h.calls == [Submit] + h.calls[1..];
  }

  /** A download is cancelled only after the service accepted it, and then never resumed or
      fetched again by the extension. */
  lemma {:induction false} CancelledWasAccepted(steps: seq<Step>, states: seq<System>, i: nat, id: nat)
    requires Run(steps, states) && i < |states|
    requires id in states[i].handoffs && Cancel in states[i].handoffs[id].calls
    ensures states[i].handoffs[id].accepted == Some(true)
    ensures Resume !in states[i].handoffs[id].calls && Fetch !in states[i].handoffs[id].calls
  {
    RunKeepsInv(steps, states, i);
    assert Consistent(states[i].handoffs[id]);
    if states[i].handoffs[id].state != HandedOff {
      NotCancelled(states[i].handoffs[id]);
    }
  }

  /** The three ways a paused download can end: with the service, in the browser again, or, where
      the browser refused both the resume and the download started afresh, nowhere. */
  predicate HandedOver(h: Handoff) {
    h.state == HandedOff && h.accepted == Some(true) && h.calls == [Submit, Cancel, Erase]
  }

  predicate GivenBack(h: Handoff) {
    TakenBack(h)
    && (|| (h.resumed == Some(true) && h.calls == [Submit, Resume])
        || (h.fetched == Some(true) && h.calls == [Submit, Resume, Fetch, Erase]))
  }

  predicate Lost(h: Handoff) {
    TakenBack(h) && h.resumed != Some(true) && h.fetched != Some(true)
  }

  /** Once nobody works on it, a paused download has exactly one of the three outcomes. */
  lemma {:induction false} RestIsOneOutcome(steps: seq<Step>, states: seq<System>, i: nat, id: nat)
    requires Run(steps, states) && i < |states|
    requires id in states[i].handoffs && AtRest(states[i].handoffs[id])
    ensures var h := states[i].handoffs[id];
            && (HandedOver(h) || GivenBack(h) || Lost(h))
            && !(HandedOver(h) && GivenBack(h)) && !(HandedOver(h) && Lost(h)) && !(GivenBack(h) && Lost(h))
  {
    RunKeepsInv(steps, states, i);
    var h := states[i].handoffs[id];
    assert Consistent(h);
    assert h.calls != [] ==> h.calls == [Submit] + h.calls[1..];
    assert h.clicks != [] ==> h.clicks[0] in h.clicks;
  }

  /** A download that was taken back is lost if and only if the browser said no twice. */
  lemma {:induction false} LostIsRefusedTwice(steps: seq<Step>, states: seq<System>, i: nat, id: nat)
    requires Run(steps, states) && i < |states|
    requires id in states[i].handoffs && AtRest(states[i].handoffs[id]) && TakenBack(states[i].handoffs[id])
    ensures var h := states[i].handoffs[id];
            Lost(h) <==> h.resumed == Some(false) && h.fetched == Some(false) && h.calls == [Submit, Resume, Fetch]
  {
    RunKeepsInv(steps, states, i);
    var h := states[i].handoffs[id];
    assert Consistent(h);
    assert h.calls == [Submit] + h.calls[1..];
    assert h.clicks != [] ==> h.clicks[0] in h.clicks;
  }

  function RefusedSteps(): seq<Step> {
    [Pause(0), Shown(0, None), SubmitReturned(0, false), ReturnReturned(0, false), ReturnReturned(0, false),
     Cleared(0), Told(0)]
  }

  /** The one hand-off of the run below, after each of its steps. */
  function RefusedHandoffs(): seq<Handoff> {
    var asked := FRESH.(state := Submitting, listener := AwaitingSubmit, calls := [Submit]);
    var refused := asked.(accepted := Some(false), state := Resumed, listed := false,
                          listener := Returning(Resuming), calls := [Submit, Resume]);
    var fetching := refused.(resumed := Some(false), listener := Returning(Fetching), calls := [Submit, Resume, Fetch]);
    var lost := fetching.(fetched := Some(false), listener := Clearing);
    [FRESH, asked, refused, fetching, lost, lost.(listener := Telling), lost.(listener := Finished)]
  }

  function Only(h: Handoff): System {
    System(map[0 := h], map[])
  }

  lemma {:induction false} OnlyMoves(h: Handoff, step: Step)
    requires CanMove(h, step) && !step.Clicked? && step.id == 0 && h.notification == None
    requires step.Shown? ==> step.notification == None
    ensures Enabled(Only(h), step) && Next(Only(h), step) == Only(Move(h, step))
  {
  }

  lemma {:induction false} RefusedMoves(i: nat)
    requires i < 6
    ensures var hs, p := RefusedHandoffs(), RefusedSteps();
            CanMove(hs[i], p[i + 1]) && hs[i + 1] == Move(hs[i], p[i + 1])
  {
  }

  /** It does happen: the service refuses, and the browser refuses both ways back. */
  lemma {:induction false} RefusedTwiceIsLost() returns (states: seq<System>)
    ensures Run(RefusedSteps(), states)
    ensures states[7] == Only(RefusedHandoffs()[6]) && AtRest(RefusedHandoffs()[6]) && Lost(RefusedHandoffs()[6])
  {
    var hs, p := RefusedHandoffs(), RefusedSteps();
    states := [START] + seq(7, i requires 0 <= i < 7 => Only(hs[i]));
    forall i | 0 <= i < 7 ensures Enabled(states[i], p[i]) && states[i + 1] == Next(states[i], p[i]) {
      if i > 0 {
        RefusedMoves(i - 1);
        OnlyMoves(hs[i - 1], p[i]);
      }
    }
  }

  // ---- which event decides ----

  /** An answer to the submit, or the end of clearing the notice of a click that found the hand-off. */
  predicate Decides(s: System, step: Step, id: nat)
    requires Enabled(s, step)
  {
    match step
    case SubmitReturned(o, _) => o == id
    case ClickCleared(o, i) => o == id && s.handoffs[o].clicks[i].found
    case _ => false
  }

  function Decision(step: Step): EntryState {
    match step
    case SubmitReturned(_, ok) => if ok then HandedOff else Resumed
    case _ => KeptByUser
  }

  ghost predicate Undecided(steps: seq<Step>, states: seq<System>, k: nat, id: nat)
    requires Run(steps, states) && k <= |steps|
  {
    forall n :: 0 <= n < k ==> !Decides(states[n], steps[n], id)
  }

  ghost predicate DecidesFirst(steps: seq<Step>, states: seq<System>, m: nat, id: nat)
    requires Run(steps, states) && m < |steps|
  {
    Undecided(steps, states, m, id) && Decides(states[m], steps[m], id)
  }

  predicate Open(h: Handoff) {
    h.state == Paused || h.state == Submitting
  }

  lemma {:induction false} MoveDecides(h: Handoff, step: Step)
    requires Consistent(h) && CanMove(h, step) && Open(h)
    ensures var n := Move(h, step);
            match step
            case SubmitReturned(_, _) => n.state == Decision(step)
            case ClickCleared(_, i) => if h.clicks[i].found then n.state == Decision(step) else Open(n)
            case _ => Open(n)
  {
  }

  lemma {:induction false} StepDecides(s: System, step: Step, id: nat)
    requires Inv(s) && Enabled(s, step) && id in Next(s, step).handoffs && (id in s.handoffs ==> Open(s.handoffs[id]))
    ensures var state := Next(s, step).handoffs[id].state;
            if Decides(s, step, id) then state == Decision(step) else state == Paused || state == Submitting
  {
    if id in s.handoffs && Target(s, step) == Some(id) && !step.Pause? {
      MoveDecides(s.handoffs[id], step);
    }
  }

  lemma {:induction false} UndecidedIsOpen(steps: seq<Step>, states: seq<System>, k: nat, id: nat)
    requires Run(steps, states) && k < |states| && id in states[k].handoffs && Undecided(steps, states, k, id)
    ensures Open(states[k].handoffs[id])
  {
    if k > 0 {
      RunKeepsInv(steps, states, k - 1);
      if id in states[k - 1].handoffs {
        UndecidedIsOpen(steps, states, k - 1, id);
      }
      StepDecides(states[k - 1], steps[k - 1], id);
    }
  }

  /** What the first deciding event says holds from then on. */
  lemma {:induction false} FirstDecisionHolds(steps: seq<Step>, states: seq<System>, m: nat, k: nat, id: nat)
    requires Run(steps, states) && m < k < |states| && DecidesFirst(steps, states, m, id)
    ensures id in states[k].handoffs && states[k].handoffs[id].state == Decision(steps[m])
  {
    RunKeepsInv(steps, states, m);
    UndecidedIsOpen(steps, states, m, id);
    StepDecides(states[m], steps[m], id);
    TerminalIsAbsorbing(steps, states, m + 1, k, id);
  }

  /** There is a first one, unless the hand-off is still open. */
  lemma {:induction false} FirstDecision(steps: seq<Step>, states: seq<System>, k: nat, id: nat) returns (m: nat)
    requires Run(steps, states) && k < |states| && !Undecided(steps, states, k, id)
    ensures m < k && DecidesFirst(steps, states, m, id)
  {
    m := 0;
    while !Decides(states[m], steps[m], id)
      invariant m < k && Undecided(steps, states, m, id) && exists n :: m <= n < k && Decides(states[n], steps[n], id)
      decreases k - m
    {
      m := m + 1;
    }
  }

  /** The order of the events decides the outcome: a download at rest is with the service if and only if
      an accepting answer came before every found click was done, kept by the person if and only if such
      a click came first, and resumed if and only if a refusal did. */
  lemma {:induction false} FirstEventDecides(steps: seq<Step>, states: seq<System>, k: nat, id: nat) returns (m: nat)
    requires Run(steps, states) && k < |states| && id in states[k].handoffs && AtRest(states[k].handoffs[id])
    ensures m < k && DecidesFirst(steps, states, m, id)
    ensures var h := states[k].handoffs[id];
            && (HandedOver(h) <==> steps[m] == SubmitReturned(id, true))
            && (h.state == Resumed <==> steps[m] == SubmitReturned(id, false))
            && (h.state == KeptByUser <==> steps[m].ClickCleared?)
  {
    RunKeepsInv(steps, states, k);
    if Undecided(steps, states, k, id) {
      UndecidedIsOpen(steps, states, k, id);
    }
    m := FirstDecision(steps, states, k, id);
    FirstDecisionHolds(steps, states, m, k, id);
    RestIsOneOutcome(steps, states, k, id);
  }

  // ---- every hand-off gets there ----

  function ReturnWork(phase: Return): nat {
    match phase case Resuming => 3 case Fetching => 2 case ErasingOld => 1
  }

  /** How many steps a hand-off can still take. */
  function Work(h: Handoff): nat {
    (match h.listener
     case Notifying => 7
     case AwaitingSubmit => 6
     case Cancelling => 4
     case Erasing => 3
     case Returning(phase) => 2 + ReturnWork(phase)
     case Clearing => 2
     case Telling => 1
     case Finished => 0)
    + if h.clicks == [] then 5
      else match h.clicks[0]
           case Looking(_) => 4
           case KeptReturning(phase) => ReturnWork(phase)
           case Dismissed => 0
  }

  lemma {:induction false} MoveWorks(h: Handoff, step: Step)
    requires Consistent(h) && CanMove(h, step) && (step.Clicked? ==> h.clicks == [])
    ensures Work(Move(h, step)) < Work(h)
  {
  }

  /** The steps among the first `k` that belong to one download. */
  function StepsOf(steps: seq<Step>, states: seq<System>, id: nat, k: nat): nat
    requires |states| == |steps| + 1 && k <= |steps|
  {
    if k == 0 then 0
    else StepsOf(steps, states, id, k - 1) + if Target(states[k - 1], steps[k - 1]) == Some(id) then 1 else 0
  }

  /** A download takes at most thirteen steps in any run: no click or answer can keep it going. */
  lemma {:induction false} HandOffIsBounded(steps: seq<Step>, states: seq<System>, id: nat, k: nat)
    requires Run(steps, states) && k <= |steps|
    ensures StepsOf(steps, states, id, k)
            + (if id in states[k].handoffs then Work(states[k].handoffs[id]) else 13) <= 13
  {
    if k > 0 {
      HandOffIsBounded(steps, states, id, k - 1);
      RunKeepsInv(steps, states, k - 1);
      var s, step := states[k - 1], steps[k - 1];
      assert Enabled(s, step) && states[k] == Next(s, step);
      if id in s.handoffs && Target(s, step) == Some(id) {
        MoveWorks(s.handoffs[id], step);
      }
    }
  }

  /** As long as a hand-off is not at rest, some answer it waits for can still come in. */
  lemma {:induction false} NotAtRestCanMove(s: System, id: nat) returns (step: Step)
    requires Inv(s) && id in s.handoffs && !AtRest(s.handoffs[id])
    ensures Enabled(s, step) && Target(s, step) == Some(id)
  {
    var h := s.handoffs[id];
    assert Consistent(h);
    match h.listener {
      case Notifying => step := Shown(id, None);
      case AwaitingSubmit => step := SubmitReturned(id, true);
      case Cancelling => step := CancelReturned(id);
      case Erasing => step := EraseReturned(id);
      case Returning(_) => step := ReturnReturned(id, true);
      case Clearing => step := Cleared(id);
      case Telling => step := Told(id);
      case Finished =>
        step := if h.clicks[0].Looking? then ClickCleared(id, 0) else ClickReturned(id, 0, true);
    }
  }
}
