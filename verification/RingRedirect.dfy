/**
 The ring against the log for a download with several addresses, as a redirect gives it. The newest
 request among them is the one that is asked, so an entry that shows nothing can be missed as well:
 it may be newer than one that shows something. What two addresses with one time answer depends on
 the order of the entries, and the theorems speak of the questions that are not tied so.
 */
module RingRedirect {
  import opened Wrappers
  import opened RequestRing
  import opened RingVerdict

  /** The newest candidate is newer than every other. */
  ghost predicate Untied(s: seq<Request>, urls: set<string>, now: int) {
    var i := Newest(s, urls, now);
    i == -1 || forall j :: 0 <= j < |s| && j != i && Candidate(s[j], urls, now) ==> s[j].timestamp < s[i].timestamp
  }

  ghost predicate IsNewer(s: seq<Request>, urls: set<string>, now: int, i: nat)
    requires i < |s|
  {
    Candidate(s[i], urls, now)
    && forall j :: 0 <= j < |s| && j != i && Candidate(s[j], urls, now) ==> s[j].timestamp < s[i].timestamp
  }

  lemma {:induction false} NewerIsFound(s: seq<Request>, urls: set<string>, now: int, i: nat)
    requires i < |s| && IsNewer(s, urls, now, i)
    ensures Newest(s, urls, now) == i && Untied(s, urls, now)
  {
  }

  /** Inside the window an address has one entry. */
  lemma {:induction false} OneEach(s: seq<Request>, now: int, i: nat, j: nat)
    requires Spaced(s) && Until(s, now) && i < |s| && j < |s|
    requires now - s[i].timestamp <= WINDOW && now - s[j].timestamp <= WINDOW
    ensures s[i].url == s[j].url ==> i == j
  {
  }

  // ---- the coupling ----

  /** Besides what `Tracks` says: what the ring has lost and shows nothing is no newer than anything it
      still holds that shows something. */
  ghost predicate Covers(f: Fact, ring: seq<Request>, log: seq<Request>, last: int) {
    Tracks(f, ring, log, last)
    && forall m, p :: Missing(f, ring, log, last, m) && Showing(f, ring, last, p) ==> m.timestamp <= p.timestamp
  }

  ghost predicate Missing(f: Fact, ring: seq<Request>, log: seq<Request>, last: int, m: Mark) {
    Has(f, log, m) && !Has(f, ring, m) && last - m.timestamp <= WINDOW
  }

  ghost predicate Showing(f: Fact, ring: seq<Request>, last: int, p: Mark) {
    Has(f, ring, p) && p.shown != NOTHING && last - p.timestamp <= WINDOW
  }

  lemma {:induction false} MarkUntil(f: Fact, s: seq<Request>, last: int, m: Mark)
    requires Until(s, last) && Has(f, s, m)
    ensures m.timestamp <= last
  {
  }

  lemma {:induction false} RecordedMissing(f: Fact, ring: seq<Request>, log: seq<Request>, last: int, e: Event, m: Mark)
    requires Tracks(f, ring, log, last) && last <= e.stamp && Missing(f, After(ring, e), After(log, e), e.stamp, m)
    ensures Missing(f, ring, log, last, m)
  {
    SameBefore(f, ring, log, last, e);
    RecordedMarks(f, ring, e, m);
    RecordedMarks(f, log, e, m);
  }

  lemma {:induction false} RecordedShowing(f: Fact, ring: seq<Request>, last: int, e: Event, p: Mark)
    requires Spaced(ring) && Until(ring, last) && last <= e.stamp && Showing(f, After(ring, e), e.stamp, p)
    ensures Showing(f, ring, last, p) || p.timestamp == e.stamp
  {
    RecordedMarks(f, ring, e, p);
  }

  lemma {:induction false} RecordedCovers(f: Fact, ring: seq<Request>, log: seq<Request>, last: int, e: Event)
    requires Covers(f, ring, log, last) && last <= e.stamp
    ensures Covers(f, After(ring, e), After(log, e), e.stamp)
  {
    RecordedTracks(f, ring, log, last, e);
    forall m, p | Missing(f, After(ring, e), After(log, e), e.stamp, m) && Showing(f, After(ring, e), e.stamp, p)
      ensures m.timestamp <= p.timestamp
    {
      RecordedMissing(f, ring, log, last, e, m);
      RecordedShowing(f, ring, last, e, p);
      MarkUntil(f, log, last, m);
    }
  }

  /** What may leave: what is past its window, or shows nothing and is no newer than anything in the
      window that shows something. */
  ghost predicate MayLeave(f: Fact, s: seq<Request>, stamp: int, v: nat)
    requires v < |s|
  {
    || stamp - s[v].timestamp > WINDOW
    || (Shown(f, s[v]) == NOTHING
        && forall r <- s :: Shown(f, r) != NOTHING && stamp - r.timestamp <= WINDOW ==> s[v].timestamp <= r.timestamp)
  }

  lemma {:induction false} WithoutCovers(f: Fact, ring: seq<Request>, log: seq<Request>, last: int, v: nat)
    requires Covers(f, ring, log, last) && v < |ring| && MayLeave(f, ring, last, v)
    ensures Covers(f, Without(ring, v), log, last)
  {
    WithoutTracks(f, ring, log, last, v);
    forall m, p | Missing(f, Without(ring, v), log, last, m) && Showing(f, Without(ring, v), last, p)
      ensures m.timestamp <= p.timestamp
    {
      WithoutMarks(f, ring, v, m);
      WithoutMarks(f, ring, v, p);
      if Has(f, ring, m) {
        var j :| 0 <= j < |ring| && MarkOf(f, ring[j]) == p;
        assert ring[j] in ring;
      }
    }
  }

  lemma {:induction false} CoversLater(f: Fact, ring: seq<Request>, log: seq<Request>, last: int, now: int)
    requires Covers(f, ring, log, last) && last <= now
    ensures Covers(f, ring, log, now)
  {
    TracksLater(f, ring, log, last, now);
    forall m, p | Missing(f, ring, log, now, m) && Showing(f, ring, now, p) ensures m.timestamp <= p.timestamp {
      assert Missing(f, ring, log, last, m) && Showing(f, ring, last, p);
    }
  }

  // ---- what the question answers under the couplings ----

  /** What the ring finds the log holds too, so the log's answer is no older. */
  lemma {:induction false} FoundIsLogged(f: Fact, ring: seq<Request>, log: seq<Request>, urls: set<string>, now: int)
    returns (q: nat)
    requires Tracks(f, ring, log, now) && Newest(ring, urls, now) >= 0
    ensures q < |log| && MarkOf(f, log[q]) == MarkOf(f, ring[Newest(ring, urls, now)])
    ensures Candidate(log[q], urls, now) && Newest(log, urls, now) >= 0
    ensures log[q].timestamp <= log[Newest(log, urls, now)].timestamp
  {
    var i := Newest(ring, urls, now);
    assert Has(f, ring, MarkOf(f, ring[i]));
    q :| 0 <= q < |log| && MarkOf(f, log[q]) == MarkOf(f, ring[i]);
    assert Candidate(log[q], urls, now);
  }

  /** Where nothing is lost that shows something, what the log's answer shows the ring's shows. */
  lemma {:induction false} TracksFind(f: Fact, ring: seq<Request>, log: seq<Request>, urls: set<string>, now: int)
    requires Tracks(f, ring, log, now) && Untied(log, urls, now)
    ensures Captured(f, log, urls, now) != NOTHING ==> Captured(f, ring, urls, now) == Captured(f, log, urls, now)
  {
    if Captured(f, log, urls, now) != NOTHING {
      var p := Newest(log, urls, now);
      assert Has(f, log, MarkOf(f, log[p]));
      var j :| 0 <= j < |ring| && MarkOf(f, ring[j]) == MarkOf(f, log[p]);
      assert Candidate(ring[j], urls, now);
      var q := FoundIsLogged(f, ring, log, urls, now);
      assert q == p;
    }
  }

  /** An answer of the ring that shows something is no older than the log's. */
  lemma {:induction false} ShowingIsNewest(f: Fact, ring: seq<Request>, log: seq<Request>, urls: set<string>, now: int)
    requires Covers(f, ring, log, now) && Captured(f, ring, urls, now) != NOTHING && Newest(log, urls, now) >= 0
    ensures log[Newest(log, urls, now)].timestamp <= ring[Newest(ring, urls, now)].timestamp
  {
    var i, p := Newest(ring, urls, now), Newest(log, urls, now);
    var m := MarkOf(f, log[p]);
    assert Has(f, log, m) && Has(f, ring, MarkOf(f, ring[i]));
    if Has(f, ring, m) {
      var j :| 0 <= j < |ring| && MarkOf(f, ring[j]) == m;
      assert Candidate(ring[j], urls, now);
    } else {
      assert Missing(f, ring, log, now, m) && Showing(f, ring, now, MarkOf(f, ring[i]));
    }
  }

  lemma {:induction false} CoversAgree(f: Fact, ring: seq<Request>, log: seq<Request>, urls: set<string>, now: int)
    requires Covers(f, ring, log, now) && Untied(log, urls, now)
    ensures Captured(f, ring, urls, now) == Captured(f, log, urls, now)
  {
    if Captured(f, ring, urls, now) != NOTHING {
      var q := FoundIsLogged(f, ring, log, urls, now);
      ShowingIsNewest(f, ring, log, urls, now);
      assert q == Newest(log, urls, now);
    } else {
      TracksFind(f, ring, log, urls, now);
    }
  }

  // ---- histories ----

  /** What leaves after event `k` may. */
  ghost predicate MayLeaveAt(f: Fact, h: seq<Event>, k: nat)
    requires k < |h|
  {
    var s := Filled(h, k);
    |s| > BUFFER_LIMIT ==> MayLeave(f, s, h[k].stamp, Victim(s))
  }

  ghost predicate MayLeaveBefore(f: Fact, h: seq<Event>, k: nat)
    requires k <= |h|
  {
    forall i :: 0 <= i < k ==> MayLeaveAt(f, h, i)
  }

  ghost predicate AlwaysMayLeave(f: Fact, h: seq<Event>) {
    MayLeaveBefore(f, h, |h|)
  }

  lemma {:induction false} MayLeaveCovers(f: Fact, h: seq<Event>, k: nat, now: int)
    requires Monotone(h) && k <= |h| && NotBefore(h, k, now) && MayLeaveBefore(f, h, k)
    ensures Covers(f, Ring(h, k), Log(h, k), now)
  {
    if k > 0 {
      var e, s := h[k - 1], Filled(h, k - 1);
      MayLeaveCovers(f, h, k - 1, e.stamp);
      RecordedCovers(f, Ring(h, k - 1), Log(h, k - 1), e.stamp, e);
      RingStep(h, k - 1);
      assert MayLeaveAt(f, h, k - 1);
      if |s| > BUFFER_LIMIT {
        WithoutCovers(f, s, Log(h, k), e.stamp, Victim(s));
      }
      CoversLater(f, Ring(h, k), Log(h, k), e.stamp, now);
    }
  }

  /** Asked at or after the last event, about any addresses, ring and log show one answer. */
  ghost predicate AgreeOnAll(f: Fact, h: seq<Event>, k: nat)
    requires k <= |h|
  {
    forall urls, now: int | NotBefore(h, k, now) && Untied(Log(h, k), urls, now) ::
      Captured(f, Ring(h, k), urls, now) == Captured(f, Log(h, k), urls, now)
  }

  /** About any two, they show something alike. */
  ghost predicate AlikeOnTwo(f: Fact, h: seq<Event>, k: nat)
    requires k <= |h|
  {
    forall a, b, now: int | NotBefore(h, k, now) && Untied(Log(h, k), {a, b}, now) ::
      Captured(f, Ring(h, k), {a, b}, now) == NOTHING <==> Captured(f, Log(h, k), {a, b}, now) == NOTHING
  }

  ghost predicate AlwaysAgreeOnAll(f: Fact, h: seq<Event>) {
    forall k :: 0 <= k <= |h| ==> AgreeOnAll(f, h, k)
  }

  ghost predicate AlwaysAlikeOnTwo(f: Fact, h: seq<Event>) {
    forall k :: 0 <= k <= |h| ==> AlikeOnTwo(f, h, k)
  }

  lemma {:induction false} MayLeaveAgrees(f: Fact, h: seq<Event>)
    requires Monotone(h) && AlwaysMayLeave(f, h)
    ensures AlwaysAgreeOnAll(f, h)
  {
    forall k | 0 <= k <= |h| ensures AgreeOnAll(f, h, k) {
      forall urls, now: int | NotBefore(h, k, now) && Untied(Log(h, k), urls, now)
        ensures Captured(f, Ring(h, k), urls, now) == Captured(f, Log(h, k), urls, now)
      {
        MayLeaveCovers(f, h, k, now);
        CoversAgree(f, Ring(h, k), Log(h, k), urls, now);
      }
    }
  }

  lemma {:induction false} AgreeIsAlike(f: Fact, h: seq<Event>, k: nat)
    requires k <= |h| && AgreeOnAll(f, h, k)
    ensures AlikeOnTwo(f, h, k)
  {
    forall a, b, now: int | NotBefore(h, k, now) && Untied(Log(h, k), {a, b}, now)
      ensures Captured(f, Ring(h, k), {a, b}, now) == NOTHING <==> Captured(f, Log(h, k), {a, b}, now) == NOTHING
    {
      assert Captured(f, Ring(h, k), {a, b}, now) == Captured(f, Log(h, k), {a, b}, now);
    }
  }

  lemma {:induction false} AlwaysAgreeIsAlike(f: Fact, h: seq<Event>)
    requires AlwaysAgreeOnAll(f, h)
    ensures AlwaysAlikeOnTwo(f, h)
  {
    forall k | 0 <= k <= |h| ensures AlikeOnTwo(f, h, k) {
      AgreeIsAlike(f, h, k);
    }
  }

  // ---- what may not leave is missed ----

  lemma {:induction false} LogHas(f: Fact, ring: seq<Request>, log: seq<Request>, last: int, i: nat) returns (a: nat)
    requires Tracks(f, ring, log, last) && i < |ring|
    ensures a < |log| && MarkOf(f, log[a]) == MarkOf(f, ring[i])
  {
    assert Has(f, ring, MarkOf(f, ring[i]));
    a :| 0 <= a < |log| && MarkOf(f, log[a]) == MarkOf(f, ring[i]);
  }

  /** In the window two addresses have at most these two entries. */
  lemma {:induction false} OnlyTwo(s: seq<Request>, now: int, i: nat, j: nat)
    requires Spaced(s) && Until(s, now) && i < |s| && j < |s|
    requires now - s[i].timestamp <= WINDOW && now - s[j].timestamp <= WINDOW
    ensures forall k :: 0 <= k < |s| ==> (Candidate(s[k], {s[i].url, s[j].url}, now) <==> k == i || k == j)
  {
    forall k | 0 <= k < |s| && Candidate(s[k], {s[i].url, s[j].url}, now) ensures k == i || k == j {
      if s[k].url == s[i].url {
        OneEach(s, now, k, i);
      } else {
        OneEach(s, now, k, j);
      }
    }
  }

  /** Asked about the addresses of two entries, the newer one answers. */
  lemma {:induction false} NewerAnswers(f: Fact, s: seq<Request>, now: int, v: nat, o: nat)
    requires Spaced(s) && Until(s, now) && v < |s| && o < |s| && s[o].timestamp < s[v].timestamp
    requires now - s[v].timestamp <= WINDOW && now - s[o].timestamp <= WINDOW
    ensures var urls := {s[v].url, s[o].url}; Untied(s, urls, now) && Captured(f, s, urls, now) == Shown(f, s[v])
  {
    OnlyTwo(s, now, v, o);
    NewerIsFound(s, {s[v].url, s[o].url}, now, v);
  }

  /** Without it, the other does. */
  lemma {:induction false} OtherAnswers(f: Fact, s: seq<Request>, now: int, v: nat, o: nat)
    requires Spaced(s) && Until(s, now) && v < |s| && o < |s| && v != o
    requires now - s[v].timestamp <= WINDOW && now - s[o].timestamp <= WINDOW
    ensures Captured(f, Without(s, v), {s[v].url, s[o].url}, now) == Shown(f, s[o])
  {
    OnlyTwo(s, now, v, o);
    var rest, k := Without(s, v), if o < v then o else o - 1;
    assert forall j :: 0 <= j < |rest| ==> rest[j] == s[if j < v then j else j + 1];
    NewerIsFound(rest, {s[v].url, s[o].url}, now, k);
  }

  /** The victim shows nothing and is newer than an entry that shows something: asked about both
      addresses, the log answers with the victim and the ring with the other. */
  lemma {:induction false} NewerIsMissed(f: Fact, s: seq<Request>, log: seq<Request>, last: int, v: nat, o: nat)
    requires Tracks(f, s, log, last) && v < |s| && o < |s|
    requires last - s[v].timestamp <= WINDOW && last - s[o].timestamp <= WINDOW
    requires Shown(f, s[v]) == NOTHING && Shown(f, s[o]) != NOTHING && s[o].timestamp < s[v].timestamp
    ensures var urls := {s[v].url, s[o].url};
            && Untied(log, urls, last) && Captured(f, log, urls, last) == NOTHING
            && Captured(f, Without(s, v), urls, last) != NOTHING
  {
    hide Untied, Captured, Without;
    var a := LogHas(f, s, log, last, v);
    var b := LogHas(f, s, log, last, o);
    NewerAnswers(f, log, last, a, b);
    OtherAnswers(f, s, last, v, o);
  }

  lemma {:induction false} AloneIsUntied(s: seq<Request>, url: string, now: int)
    requires Spaced(s) && Until(s, now)
    ensures Untied(s, {url}, now)
  {
    var i := Newest(s, {url}, now);
    forall j | 0 <= j < |s| && i >= 0 && Candidate(s[j], {url}, now) ensures j == i {
      OneEach(s, now, i, j);
    }
  }

  /** Two addresses at which a victim that may not leave is missed. */
  lemma {:induction false} VictimIsMissed(f: Fact, s: seq<Request>, log: seq<Request>, last: int, v: nat)
    returns (a: string, b: string)
    requires Tracks(f, s, log, last) && v < |s| && !MayLeave(f, s, last, v)
    ensures Untied(log, {a, b}, last)
    ensures Captured(f, Without(s, v), {a, b}, last) == NOTHING <==> Captured(f, log, {a, b}, last) != NOTHING
  {
    a := s[v].url;
    if Shown(f, s[v]) == NOTHING {
      var o :| 0 <= o < |s| && Shown(f, s[o]) != NOTHING && last - s[o].timestamp <= WINDOW
               && s[o].timestamp < s[v].timestamp;
      b := s[o].url;
      NewerIsMissed(f, s, log, last, v, o);
    } else {
      b := a;
      assert {a, b} == {a};
      LossShows(f, s, log, last, v);
      AloneIsUntied(log, a, last);
    }
  }

  lemma {:induction false} LossIsMissed(f: Fact, h: seq<Event>, k: nat) returns (a: string, b: string)
    requires Monotone(h) && k < |h| && !MayLeaveAt(f, h, k) && MayLeaveBefore(f, h, k)
    ensures Untied(Log(h, k + 1), {a, b}, h[k].stamp)
    ensures Captured(f, Ring(h, k + 1), {a, b}, h[k].stamp) == NOTHING
       <==> Captured(f, Log(h, k + 1), {a, b}, h[k].stamp) != NOTHING
  {
    var e, s := h[k], Filled(h, k);
    MayLeaveCovers(f, h, k, e.stamp);
    RecordedTracks(f, Ring(h, k), Log(h, k), e.stamp, e);
    RingStep(h, k);
    a, b := VictimIsMissed(f, s, Log(h, k + 1), e.stamp, Victim(s));
  }

  lemma {:induction false} NotAlike(f: Fact, h: seq<Event>, k: nat, a: string, b: string, now: int)
    requires k <= |h| && NotBefore(h, k, now) && Untied(Log(h, k), {a, b}, now)
    requires Captured(f, Ring(h, k), {a, b}, now) == NOTHING <==> Captured(f, Log(h, k), {a, b}, now) != NOTHING
    ensures !AlwaysAlikeOnTwo(f, h)
  {
    assert !AlikeOnTwo(f, h, k);
  }

  lemma {:induction false} LossIsNotAlike(f: Fact, h: seq<Event>, k: nat)
    requires Monotone(h) && k < |h| && !MayLeaveAt(f, h, k) && MayLeaveBefore(f, h, k)
    ensures !AlwaysAlikeOnTwo(f, h)
  {
    var now := h[k].stamp;
    var a, b := LossIsMissed(f, h, k);
    NotAlike(f, h, k + 1, a, b, now);
  }

  lemma {:induction false} FirstMissing(f: Fact, h: seq<Event>) returns (k: nat)
    requires !AlwaysMayLeave(f, h)
    ensures k < |h| && !MayLeaveAt(f, h, k) && MayLeaveBefore(f, h, k)
  {
    var held := seq(|h|, k requires 0 <= k < |h| => MayLeaveAt(f, h, k));
    var w :| 0 <= w < |h| && !MayLeaveAt(f, h, w);
    assert !held[w];
    k := FirstFalse(held);
    forall i | 0 <= i <= k ensures MayLeaveAt(f, h, i) == held[i] {}
  }

  lemma {:induction false} LossNeverAlike(f: Fact, h: seq<Event>)
    requires Monotone(h) && !AlwaysMayLeave(f, h)
    ensures !AlwaysAlikeOnTwo(f, h)
  {
    var k := FirstMissing(f, h);
    LossIsNotAlike(f, h, k);
  }

  /** For every question that is not tied, about any number of addresses, the ring answers like the log
      after every event if and only if every entry that leaves is past its window, or shows nothing and
      is no newer than anything in the window that shows something. Questions about two addresses are
      enough to tell, and so is whether anything is shown. */
  lemma {:induction false} RedirectVerdictIsExact(f: Fact, h: seq<Event>)
    requires Monotone(h)
    ensures AlwaysAgreeOnAll(f, h) <==> AlwaysMayLeave(f, h)
    ensures AlwaysAlikeOnTwo(f, h) <==> AlwaysMayLeave(f, h)
  {
    if AlwaysMayLeave(f, h) {
      MayLeaveAgrees(f, h);
      AlwaysAgreeIsAlike(f, h);
    } else {
      LossNeverAlike(f, h);
      if AlwaysAgreeOnAll(f, h) {
        AlwaysAgreeIsAlike(f, h);
      }
    }
  }

  // ---- one direction alone: nothing is overlooked ----

  /** What the log's answer shows, the ring's shows. */
  ghost predicate OverlooksNothing(f: Fact, h: seq<Event>, k: nat)
    requires k <= |h|
  {
    forall urls, now: int | NotBefore(h, k, now) && Untied(Log(h, k), urls, now) ::
      Captured(f, Log(h, k), urls, now) != NOTHING ==>
        Captured(f, Ring(h, k), urls, now) == Captured(f, Log(h, k), urls, now)
  }

  ghost predicate NeverOverlooks(f: Fact, h: seq<Event>) {
    forall k :: 0 <= k <= |h| ==> OverlooksNothing(f, h, k)
  }

  lemma {:induction false} HarmlessOverlooksNothing(f: Fact, h: seq<Event>)
    requires Monotone(h) && AlwaysHarmless(f, h)
    ensures NeverOverlooks(f, h)
  {
    forall k | 0 <= k <= |h| ensures OverlooksNothing(f, h, k) {
      forall urls, now: int | NotBefore(h, k, now) && Untied(Log(h, k), urls, now)
                              && Captured(f, Log(h, k), urls, now) != NOTHING
        ensures Captured(f, Ring(h, k), urls, now) == Captured(f, Log(h, k), urls, now)
      {
        HarmlessTracks(f, h, k, now);
        TracksFind(f, Ring(h, k), Log(h, k), urls, now);
      }
    }
  }

  lemma {:induction false} Overlooked(f: Fact, h: seq<Event>, k: nat, url: string, now: int)
    requires k <= |h| && NotBefore(h, k, now) && Untied(Log(h, k), {url}, now)
    requires Captured(f, Log(h, k), {url}, now) != NOTHING && Captured(f, Ring(h, k), {url}, now) == NOTHING
    ensures !OverlooksNothing(f, h, k)
  {
    var urls := {url};
    assert Captured(f, Ring(h, k), urls, now) != Captured(f, Log(h, k), urls, now);
  }

  lemma {:induction false} LogIsSpaced(h: seq<Event>, k: nat, now: int)
    requires Monotone(h) && k <= |h| && NotBefore(h, k, now)
    ensures Spaced(Log(h, k)) && Until(Log(h, k), now)
  {
    if k > 0 {
      LogIsSpaced(h, k - 1, h[k - 1].stamp);
      RecordedSpaced(Log(h, k - 1), h[k - 1]);
    }
  }

  lemma {:induction false} HarmIsOverlooked(f: Fact, h: seq<Event>, k: nat)
    requires Monotone(h) && k < |h| && !HarmlessAt(f, h, k) && HarmlessBefore(f, h, k)
    ensures !NeverOverlooks(f, h)
  {
    var now := h[k].stamp;
    var url := LossDisagrees(f, h, k);
    LogIsSpaced(h, k + 1, now);
    AloneIsUntied(Log(h, k + 1), url, now);
    Overlooked(f, h, k + 1, url, now);
  }

  lemma {:induction false} HarmOverlooks(f: Fact, h: seq<Event>)
    requires Monotone(h) && !AlwaysHarmless(f, h)
    ensures !NeverOverlooks(f, h)
  {
    var k := FirstHarm(f, h);
    HarmIsOverlooked(f, h, k);
  }

  /** What the log's answer shows is never overlooked, whatever the addresses, if and only if no entry
      that shows anything leaves inside its window: the same condition as for one address. */
  lemma {:induction false} OverlookingIsExact(f: Fact, h: seq<Event>)
    requires Monotone(h)
    ensures NeverOverlooks(f, h) <==> AlwaysHarmless(f, h)
  {
    if AlwaysHarmless(f, h) {
      HarmlessOverlooksNothing(f, h);
    } else {
      HarmOverlooks(f, h);
    }
  }

  // ---- where no question is tied ----

  /** Events of different addresses come at different times. */
  ghost predicate Apart(h: seq<Event>) {
    Monotone(h) && forall i, j :: 0 <= i < j < |h| && h[i].url != h[j].url ==> h[i].stamp != h[j].stamp
  }

  /** Every entry has the address and the time of some event. */
  lemma {:induction false} EntryIsEvent(h: seq<Event>, k: nat, i: nat) returns (e: nat)
    requires k <= |h| && i < |Log(h, k)|
    ensures e < k && h[e].url == Log(h, k)[i].url && h[e].stamp == Log(h, k)[i].timestamp
  {
    var before := Log(h, k - 1);
    if i < |before| && Log(h, k)[i] == before[i] {
      e := EntryIsEvent(h, k - 1, i);
    } else {
      e := k - 1;
    }
  }

  lemma {:induction false} ApartIsUntied(h: seq<Event>, k: nat, urls: set<string>, now: int)
    requires Apart(h) && k <= |h| && NotBefore(h, k, now)
    ensures Untied(Log(h, k), urls, now)
  {
    var log := Log(h, k);
    var i := Newest(log, urls, now);
    LogIsSpaced(h, k, now);
    forall j | 0 <= j < |log| && i >= 0 && j != i && Candidate(log[j], urls, now)
      ensures log[j].timestamp < log[i].timestamp
    {
      OneEach(log, now, i, j);
      var a := EntryIsEvent(h, k, i);
      var b := EntryIsEvent(h, k, j);
    }
  }
}
