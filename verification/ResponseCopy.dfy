/**
 The copy of a response taken while it arrives (extension/src/files.js, `newCapture`, `attach` and
 `deliver`): bytes are held back from the browser, and in the end it gets all of them or none.
 */
module ResponseCopy {
  import opened Wrappers

  const MAX_FILE_BYTES := 64 * 1024 * 1024

  datatype Outcome = HandedOver | Kept | Failed

  /** Receiving until the response stops, then waiting for the service, then over. */
  datatype Stage = Receiving | Submitting | Over

  datatype Copy = Copy(
    chunks: seq<Bytes>,          // held back
    size: nat,
    passing: bool,               // too large: everything goes to the browser
    stage: Stage,
    written: Bytes,              // what the browser was given
    submitted: Option<Bytes>,    // what the service was sent
    settled: Option<Outcome>)

  datatype Event = Data(chunk: Bytes) | Stop | Answer(ok: bool) | Error

  function Joined(chunks: seq<Bytes>): Bytes {
    if chunks == [] then [] else Joined(chunks[..|chunks| - 1]) + chunks[|chunks| - 1]
  }

  /** The first settling counts. */
  function Settled(settled: Option<Outcome>, outcome: Outcome): Option<Outcome> {
    if settled.Some? then settled else Some(outcome)
  }

  /** The browser delivers data and one stop; the answer follows a submit. An error may come at any
      time: the filter was lost. */
  predicate Enabled(c: Copy, event: Event) {
    match event
    case Data(_) => c.stage == Receiving
    case Stop => c.stage == Receiving
    case Answer(_) => c.stage == Submitting
    case Error => true
  }

  function Next(c: Copy, event: Event): Copy
    requires Enabled(c, event)
  {
    match event
    case Data(chunk) =>
      if c.passing then c.(written := c.written + chunk)
      else
        var held := c.(chunks := c.chunks + [chunk], size := c.size + |chunk|);
        if held.size <= MAX_FILE_BYTES then held
        else held.(passing := true, chunks := [], written := c.written + Joined(held.chunks),
                   settled := Settled(c.settled, Kept))
    case Stop =>
      if c.passing then c.(stage := Over)
      else c.(stage := Submitting, submitted := Some(Joined(c.chunks)))
    case Answer(ok) =>
      if ok then c.(stage := Over, settled := Settled(c.settled, HandedOver))
      else c.(stage := Over, written := c.written + Joined(c.chunks), settled := Settled(c.settled, Kept))
    case Error => c.(settled := Settled(c.settled, Failed))
  }

  const START := Copy([], 0, false, Receiving, [], None, None)

  /** The copy after a sequence of events; None if they cannot come in this order. */
  function After(events: seq<Event>): Option<Copy> {
    if events == [] then Some(START)
    else
      var before, last := After(events[..|events| - 1]), events[|events| - 1];
      if before.Some? && Enabled(before.value, last) then Some(Next(before.value, last)) else None
  }

  /** The response: every byte of every data event, in order. */
  function Response(events: seq<Event>): Bytes {
    if events == [] then []
    else
      var last := events[|events| - 1];
      Response(events[..|events| - 1]) + if last.Data? then last.chunk else []
  }

  /** Whether the service took the copy, None before it answered. */
  function Accepted(events: seq<Event>): Option<bool> {
    if events == [] then None
    else
      var last := events[|events| - 1];
      if last.Answer? then Some(last.ok) else Accepted(events[..|events| - 1])
  }

  /** The response splits into what the browser has and what is held back; nothing is lost, doubled
      or reordered. */
  ghost predicate Conserved(c: Copy, response: Bytes, accepted: Option<bool>) {
    && c.size == (if c.passing then c.size else |response|)
    && if c.passing then
         c.chunks == [] && c.written == response && c.submitted == None && accepted == None
         && c.stage != Submitting && |response| > MAX_FILE_BYTES
       else
         && Joined(c.chunks) == response && |response| <= MAX_FILE_BYTES
         && c.submitted == (if c.stage == Receiving then None else Some(response))
         && (c.stage == Over <==> accepted.Some?)
         && c.written == if accepted == Some(false) then response else []
  }

  lemma {:induction false} JoinedAppend(chunks: seq<Bytes>, chunk: Bytes)
    ensures Joined(chunks + [chunk]) == Joined(chunks) + chunk
  {
    assert (chunks + [chunk])[..|chunks|] == chunks;
  }

  lemma {:induction false} EventsConserve(events: seq<Event>)
    requires After(events).Some?
    ensures Conserved(After(events).value, Response(events), Accepted(events))
  {
    if events != [] {
      var before, last := events[..|events| - 1], events[|events| - 1];
      EventsConserve(before);
      if last.Data? {
        JoinedAppend(After(before).value.chunks, last.chunk);
      }
    }
  }

  /** Whenever the copy is over the browser has the whole response in order or nothing of it, and
      nothing exactly when the service accepted; what the service was sent is the whole response. */
  lemma {:induction false} AllOrNothing(events: seq<Event>)
    requires After(events).Some? && After(events).value.stage == Over
    ensures var c := After(events).value;
            && c.written == (if Accepted(events) == Some(true) then [] else Response(events))
            && (c.passing <==> |Response(events)| > MAX_FILE_BYTES)
            && (c.submitted.Some? <==> !c.passing)
            && (c.submitted.Some? ==> c.submitted.value == Response(events))
            && (Accepted(events).Some? <==> !c.passing)
  {
    EventsConserve(events);
    var accepted := Accepted(events);
    assert accepted.Some? ==> accepted == Some(accepted.value);
    assert accepted.Some? && accepted.value ==> accepted == Some(true);
    assert accepted.Some? && !accepted.value ==> accepted == Some(false);
  }

  /** Between events at most the limit is held back, and only while nothing has been given. */
  lemma {:induction false} HeldBackIsBounded(events: seq<Event>)
    requires After(events).Some? && After(events).value.stage != Over
    ensures var c := After(events).value;
            && |Joined(c.chunks)| <= MAX_FILE_BYTES
            && c.written + Joined(c.chunks) == Response(events)
            && (c.written == [] || c.chunks == [])
  {
    EventsConserve(events);
  }

  /** What an event asks to settle the copy with. */
  function Asks(c: Copy, event: Event): Option<Outcome> {
    match event
    case Data(chunk) => if !c.passing && c.size + |chunk| > MAX_FILE_BYTES then Some(Kept) else None
    case Stop => None
    case Answer(ok) => Some(if ok then HandedOver else Kept)
    case Error => Some(Failed)
  }

  /** Event `k` is the first that asks for an outcome. */
  ghost predicate FirstAsking(events: seq<Event>, k: int, outcome: Outcome) {
    && 0 <= k < |events| && After(events[..k]).Some? && Asks(After(events[..k]).value, events[k]) == Some(outcome)
    && forall j :: 0 <= j < k ==> After(events[..j]).Some? && Asks(After(events[..j]).value, events[j]) == None
  }

  /** Nothing among the first `n` events asks for an outcome. */
  ghost predicate NoneAsks(events: seq<Event>, n: nat)
    requires n <= |events|
  {
    forall j :: 0 <= j < n ==> After(events[..j]).Some? && Asks(After(events[..j]).value, events[j]) == None
  }

  lemma {:induction false} AskedLater(events: seq<Event>, last: Event)
    ensures NoneAsks(events, |events|) == NoneAsks(events + [last], |events|)
    ensures forall k, outcome :: FirstAsking(events, k, outcome) ==> FirstAsking(events + [last], k, outcome)
  {
    assert forall j :: 0 <= j <= |events| ==> (events + [last])[..j] == events[..j];
  }

  /** What is settled already stays so, and what is not is settled by what the event asks for. */
  lemma {:induction false} SettledNext(c: Copy, event: Event)
    requires Enabled(c, event)
    ensures Next(c, event).settled == if c.settled.Some? then c.settled else Asks(c, event)
  {
  }

  lemma {:induction false} SettledByFirst(events: seq<Event>) returns (k: int)
    requires After(events).Some?
    ensures match After(events).value.settled
            case None => NoneAsks(events, |events|)
            case Some(outcome) => FirstAsking(events, k, outcome)
  {
    k := 0;
    if events != [] {
      var n := |events| - 1;
      var before, last := events[..n], events[n];
      k := SettledByFirst(before);
      SettledNext(After(before).value, last);
      AskedLater(before, last);
      assert events == before + [last];
      if After(before).value.settled == None {
        k := n;
        LastAsks(events);
      }
    }
  }

  lemma {:induction false} LastAsks(events: seq<Event>)
    requires events != [] && NoneAsks(events, |events| - 1)
    ensures After(events[..|events| - 1]).Some? ==>
              match Asks(After(events[..|events| - 1]).value, events[|events| - 1])
              case None => NoneAsks(events, |events|)
              case Some(outcome) => FirstAsking(events, |events| - 1, outcome)
  {
  }

  /** The outcome a waiting download is told is what the first settling event asked for, for good. */
  lemma {:induction false} FirstSettlingWins(events: seq<Event>, outcome: Outcome)
    requires After(events).Some?
    ensures After(events).value.settled == Some(outcome) <==> exists k :: FirstAsking(events, k, outcome)
  {
    var k := SettledByFirst(events);
    if o :| FirstAsking(events, o, outcome) {
      assert Asks(After(events[..o]).value, events[o]) == Some(outcome);
      assert After(events).value.settled.Some? ==> k == o;
    }
  }

  /** A download told that its file was handed over can be removed: the service answered yes to the
      whole response and the browser has none of it. One told that it was kept has it all. */
  lemma {:induction false} ToldIsTrue(events: seq<Event>)
    requires After(events).Some?
    ensures var c := After(events).value;
            && (c.settled == Some(HandedOver) ==>
                  Accepted(events) == Some(true) && c.submitted == Some(Response(events)) && c.written == [])
            && (c.settled == Some(Kept) ==>
                  (c.passing || Accepted(events) == Some(false)) && c.written == Response(events))
  {
    EventsConserve(events);
    if events != [] {
      ToldIsTrue(events[..|events| - 1]);
      EventsConserve(events[..|events| - 1]);
    }
  }

  // ---- the handlers of `attach` ----

  /** One capture and its filter; `response` and `accepted` only remember what came in. */
  class Capture {
    var chunks: seq<Bytes>
    var size: nat
    var passing: bool
    var stage: Stage
    var written: Bytes
    var submitted: Option<Bytes>
    var settled: Option<Outcome>

    function View(): Copy
      reads this
    {
      Copy(chunks, size, passing, stage, written, submitted, settled)
    }

    constructor ()
      ensures View() == START
    {
      chunks, size, passing, stage, written, submitted, settled := [], 0, false, Receiving, [], None, None;
    }

    method Settle(outcome: Outcome)
      modifies this`settled
      ensures settled == Settled(old(settled), outcome)
    {
      if settled.Some? { return; }
      settled := Some(outcome);
    }

    /** Gives the browser every held-back chunk, in order. */
    method WriteHeldBack()
      modifies this`written
      ensures written == old(written) + Joined(chunks)
    {
      for n := 0 to |chunks|
        invariant written == old(written) + Joined(chunks[..n])
      {
        written := written + chunks[n];
        assert chunks[..n + 1] == chunks[..n] + [chunks[n]];
        JoinedAppend(chunks[..n], chunks[n]);
      }
      assert chunks[..|chunks|] == chunks;
    }

    method OnData(data: Bytes)
      requires Enabled(View(), Data(data))
      modifies this
      ensures View() == Next(old(View()), Data(data))
    {
      if passing {
        written := written + data;
        return;
      }
      chunks := chunks + [data];
      size := size + |data|;
      if size <= MAX_FILE_BYTES { return; }
      passing := true;
      WriteHeldBack();
      chunks := [];
      Settle(Kept);
    }

    method OnStop()
      requires Enabled(View(), Stop)
      modifies this
      ensures View() == Next(old(View()), Stop)
    {
      if passing {
        stage := Over;
        return;
      }
      stage, submitted := Submitting, Some(Joined(chunks));
    }

    /** `deliver` once the service has answered. */
    method OnAnswer(ok: bool)
      requires Enabled(View(), Answer(ok))
      modifies this
      ensures View() == Next(old(View()), Answer(ok))
    {
      stage := Over;
      if ok {
        Settle(HandedOver);
        return;
      }
      WriteHeldBack();
      Settle(Kept);
    }

    method OnError()
      modifies this
      ensures View() == Next(old(View()), Error)
    {
      Settle(Failed);
    }
  }
}
