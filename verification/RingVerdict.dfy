/**
 The ring against a log that never forgets, for what `staysInBrowser` reads off a request: that it was
 a POST, that its Content-Disposition names a file that stays, or both. An entry is compared by its
 mark: address, time and what it shows. Entries of one address lie further apart than the window, so
 inside the window an address has at most one entry and the order of the entries does not matter.
 */
module RingVerdict {
  import opened Wrappers
  import opened RequestRing

  datatype Event = Event(url: string, patch: Patch, stamp: int)

  /** What is asked of a request. `names` says whether a Content-Disposition names one of the file
      kinds that stay with the browser. */
  datatype Fact = Posted | Filed(names: string -> bool) | Either(names: string -> bool)

  /** What a request shows of it. */
  datatype Traits = Traits(post: bool, file: bool)

  const NOTHING := Traits(false, false)

  predicate CountsAsPost(f: Fact, verb: Option<string>) {
    !f.Filed? && IsPostVerb(verb)
  }

  predicate CountsAsFile(f: Fact, disposition: string) {
    !f.Posted? && f.names(disposition)
  }

  function Shown(f: Fact, r: Request): Traits {
    Traits(CountsAsPost(f, r.verb), r.disposition.Some? && CountsAsFile(f, r.disposition.value))
  }

  /** What an event makes of it. */
  function Patched(f: Fact, before: Traits, patch: Patch): Traits {
    match patch
    case SeenVerb(v) => before.(post := CountsAsPost(f, v))
    case SentHeaders(v, _) => before.(post := CountsAsPost(f, v))
    case Disposition(d) => before.(file := CountsAsFile(f, d))
  }

  lemma {:induction false} MergedShows(f: Fact, r: Request, patch: Patch, stamp: int)
    ensures Shown(f, Merged(r, patch, stamp)) == Patched(f, Shown(f, r), patch)
    ensures Shown(f, Fresh(r.url, patch, stamp)) == Patched(f, NOTHING, patch)
  {
  }

  datatype Mark = Mark(url: string, timestamp: int, shown: Traits)

  function MarkOf(f: Fact, r: Request): Mark {
    Mark(r.url, r.timestamp, Shown(f, r))
  }

  ghost predicate Has(f: Fact, s: seq<Request>, m: Mark) {
    exists i :: 0 <= i < |s| && MarkOf(f, s[i]) == m
  }

  /** Entries of one address follow each other by more than the window. */
  ghost predicate Spaced(s: seq<Request>) {
    forall i, j :: 0 <= i < j < |s| && s[i].url == s[j].url ==> s[j].timestamp - s[i].timestamp > WINDOW
  }

  ghost predicate Until(s: seq<Request>, last: int) {
    forall i :: 0 <= i < |s| ==> s[i].timestamp <= last
  }

  function After(s: seq<Request>, e: Event): seq<Request> {
    Recorded(s, e.url, e.patch, e.stamp)
  }

  lemma {:induction false} RecordedSpaced(s: seq<Request>, e: Event)
    requires Spaced(s) && Until(s, e.stamp)
    ensures Spaced(After(s, e)) && Until(After(s, e), e.stamp)
  {
  }

  /** What the entry an event is merged into shows; nothing where it starts an entry of its own. */
  function Before(f: Fact, s: seq<Request>, e: Event): Traits {
    var i := Latest(s, e.url);
    if i >= 0 && e.stamp - s[i].timestamp <= WINDOW then Shown(f, s[i]) else NOTHING
  }

  function NewMark(f: Fact, s: seq<Request>, e: Event): Mark {
    Mark(e.url, e.stamp, Patched(f, Before(f, s, e), e.patch))
  }

  /** One event, in marks: the address's mark inside the window gives way to a new one. */
  lemma {:induction false} RecordedMarks(f: Fact, s: seq<Request>, e: Event, m: Mark)
    requires Spaced(s) && Until(s, e.stamp)
    ensures Has(f, After(s, e), m)
       <==> m == NewMark(f, s, e) || (Has(f, s, m) && !(m.url == e.url && e.stamp - m.timestamp <= WINDOW))
  {
    var r := After(s, e);
    var i := Latest(s, e.url);
    if i >= 0 && e.stamp - s[i].timestamp <= WINDOW {
      MergedShows(f, s[i], e.patch, e.stamp);
      assert MarkOf(f, r[i]) == NewMark(f, s, e);
      assert forall j :: 0 <= j < |s| && j != i ==> r[j] == s[j] && (s[j].url == e.url ==> j < i);
    } else {
      MergedShows(f, Fresh(e.url, e.patch, e.stamp), e.patch, e.stamp);
      assert MarkOf(f, r[|s|]) == NewMark(f, s, e);
      assert forall j :: 0 <= j < |s| ==> r[j] == s[j];
      assert forall j :: 0 <= j < |s| && s[j].url == e.url ==> j <= i;
    }
  }

  // ---- the coupling ----

  /** The ring holds only what the log holds, and every entry of the log inside the window that shows
      anything. */
  ghost predicate Tracks(f: Fact, ring: seq<Request>, log: seq<Request>, last: int) {
    && Spaced(ring) && Until(ring, last) && Spaced(log) && Until(log, last)
    && (forall m :: Has(f, ring, m) ==> Has(f, log, m))
    && (forall m :: Has(f, log, m) && m.shown != NOTHING && last - m.timestamp <= WINDOW ==> Has(f, ring, m))
  }

  lemma {:induction false} BeforeIsMark(f: Fact, s: seq<Request>, e: Event, t: Traits)
    requires Spaced(s) && Until(s, e.stamp) && t != NOTHING
    ensures Before(f, s, e) == t <==> exists at :: Has(f, s, Mark(e.url, at, t)) && e.stamp - at <= WINDOW
  {
    var i := Latest(s, e.url);
    if i >= 0 {
      assert MarkOf(f, s[i]) == Mark(e.url, s[i].timestamp, Shown(f, s[i]));
    }
  }

  lemma {:induction false} SameBefore(f: Fact, ring: seq<Request>, log: seq<Request>, last: int, e: Event)
    requires Tracks(f, ring, log, last) && last <= e.stamp
    ensures Before(f, ring, e) == Before(f, log, e)
  {
    var a, b := Before(f, ring, e), Before(f, log, e);
    if a != NOTHING {
      BeforeIsMark(f, ring, e, a);
      BeforeIsMark(f, log, e, a);
    } else if b != NOTHING {
      BeforeIsMark(f, ring, e, b);
      BeforeIsMark(f, log, e, b);
    }
  }

  lemma {:induction false} RecordedTracks(f: Fact, ring: seq<Request>, log: seq<Request>, last: int, e: Event)
    requires Tracks(f, ring, log, last) && last <= e.stamp
    ensures Tracks(f, After(ring, e), After(log, e), e.stamp)
  {
    SameBefore(f, ring, log, last, e);
    RecordedSpaced(ring, e);
    RecordedSpaced(log, e);
    forall m
      ensures Has(f, After(ring, e), m) ==> Has(f, After(log, e), m)
      ensures Has(f, After(log, e), m) && m.shown != NOTHING && e.stamp - m.timestamp <= WINDOW ==>
                Has(f, After(ring, e), m)
    {
      RecordedMarks(f, ring, e, m);
      RecordedMarks(f, log, e, m);
    }
  }

  lemma {:induction false} WithoutMarks(f: Fact, s: seq<Request>, v: nat, m: Mark)
    requires v < |s| && Spaced(s)
    ensures Has(f, Without(s, v), m) <==> Has(f, s, m) && m != MarkOf(f, s[v])
  {
    var r := Without(s, v);
    assert forall j :: 0 <= j < |r| ==> r[j] == s[if j < v then j else j + 1];
    if Has(f, s, m) && m != MarkOf(f, s[v]) {
      var j :| 0 <= j < |s| && MarkOf(f, s[j]) == m;
      assert r[if j < v then j else j - 1] == s[j];
    }
  }

  /** What has to hold of an eviction for nothing to be lost: an entry that shows anything and leaves is
      past its window. */
  ghost predicate Harmless(f: Fact, s: seq<Request>, stamp: int) {
    |s| > BUFFER_LIMIT ==> var v := s[Victim(s)]; Shown(f, v) == NOTHING || stamp - v.timestamp > WINDOW
  }

  /** For POSTs that means: the ring holds something else as well, or its oldest is past its window. */
  lemma {:induction false} HarmlessPost(s: seq<Request>, stamp: int)
    ensures Harmless(Posted, s, stamp)
       <==> (|s| > BUFFER_LIMIT ==> !OnlyPosts(s) || stamp - s[0].timestamp > WINDOW)
  {
    if |s| > BUFFER_LIMIT {
      assert s[Victim(s)] in s;
    }
  }

  lemma {:induction false} WithoutTracks(f: Fact, ring: seq<Request>, log: seq<Request>, last: int, v: nat)
    requires Tracks(f, ring, log, last) && v < |ring|
    requires Shown(f, ring[v]) == NOTHING || last - ring[v].timestamp > WINDOW
    ensures Tracks(f, Without(ring, v), log, last)
  {
    forall m ensures Has(f, Without(ring, v), m) <==> Has(f, ring, m) && m != MarkOf(f, ring[v]) {
      WithoutMarks(f, ring, v, m);
    }
  }

  // ---- what the question answers under the coupling ----

  /** What the request found for a download shows. */
  function Captured(f: Fact, s: seq<Request>, urls: set<string>, now: int): Traits {
    var captured := Correlated(s, urls, now);
    if captured.Some? then Shown(f, captured.value) else NOTHING
  }

  lemma {:induction false} CapturedPosted(s: seq<Request>, urls: set<string>, now: int)
    ensures CapturedPost(s, urls, now) <==> Captured(Posted, s, urls, now) != NOTHING
  {
  }

  /** Inside the window an address has at most one entry, so the question finds it. */
  lemma {:induction false} CorrelatedMark(f: Fact, s: seq<Request>, url: string, now: int, t: Traits)
    requires Spaced(s) && Until(s, now) && t != NOTHING
    ensures Captured(f, s, {url}, now) == t <==> exists at :: Has(f, s, Mark(url, at, t)) && now - at <= WINDOW
  {
    var i := Newest(s, {url}, now);
    if i >= 0 {
      assert MarkOf(f, s[i]) == Mark(url, s[i].timestamp, Shown(f, s[i]));
    }
    if at :| Has(f, s, Mark(url, at, t)) && now - at <= WINDOW {
      var j :| 0 <= j < |s| && MarkOf(f, s[j]) == Mark(url, at, t);
      assert Candidate(s[j], {url}, now) && Candidate(s[i], {url}, now);
      assert i == j;
    }
  }

  lemma {:induction false} TracksAgree(f: Fact, ring: seq<Request>, log: seq<Request>, last: int, url: string, now: int)
    requires Tracks(f, ring, log, last) && last <= now
    ensures Captured(f, ring, {url}, now) == Captured(f, log, {url}, now)
  {
    var a, b := Captured(f, ring, {url}, now), Captured(f, log, {url}, now);
    if a != NOTHING {
      CorrelatedMark(f, ring, url, now, a);
      CorrelatedMark(f, log, url, now, a);
    } else if b != NOTHING {
      CorrelatedMark(f, ring, url, now, b);
      CorrelatedMark(f, log, url, now, b);
    }
  }

  // ---- histories ----

  ghost predicate Monotone(h: seq<Event>) {
    forall i, j :: 0 <= i < j < |h| ==> h[i].stamp <= h[j].stamp
  }

  /** The ring after the first `k` events. */
  function Ring(h: seq<Event>, k: nat): (r: seq<Request>)
    requires k <= |h|
    ensures |r| <= BUFFER_LIMIT
  {
    if k == 0 then [] else Remembered(Ring(h, k - 1), h[k - 1].url, h[k - 1].patch, h[k - 1].stamp)
  }

  /** The log after the first `k` events. */
  function Log(h: seq<Event>, k: nat): seq<Request>
    requires k <= |h|
  {
    if k == 0 then [] else Recorded(Log(h, k - 1), h[k - 1].url, h[k - 1].patch, h[k - 1].stamp)
  }

  ghost predicate NotBefore(h: seq<Event>, k: nat, now: int)
    requires k <= |h|
  {
    k > 0 ==> h[k - 1].stamp <= now
  }

  /** Asked at or after the last event, about any one address, ring and log show one answer. */
  ghost predicate Agree(f: Fact, h: seq<Event>, k: nat)
    requires k <= |h|
  {
    forall url, now: int | NotBefore(h, k, now) ::
      Captured(f, Ring(h, k), {url}, now) == Captured(f, Log(h, k), {url}, now)
  }

  /** The ring as event `k` leaves it, before anything is evicted. */
  function Filled(h: seq<Event>, k: nat): seq<Request>
    requires k < |h|
  {
    Recorded(Ring(h, k), h[k].url, h[k].patch, h[k].stamp)
  }

  /** The eviction after event `k` loses nothing that could still be asked about. */
  ghost predicate HarmlessAt(f: Fact, h: seq<Event>, k: nat)
    requires k < |h|
  {
    Harmless(f, Filled(h, k), h[k].stamp)
  }

  ghost predicate HarmlessBefore(f: Fact, h: seq<Event>, k: nat)
    requires k <= |h|
  {
    forall i :: 0 <= i < k ==> HarmlessAt(f, h, i)
  }

  lemma {:induction false} RingStep(h: seq<Event>, k: nat)
    requires k < |h|
    ensures Ring(h, k + 1) == var s := Filled(h, k); if |s| <= BUFFER_LIMIT then s else Without(s, Victim(s))
    ensures Log(h, k + 1) == Recorded(Log(h, k), h[k].url, h[k].patch, h[k].stamp)
  {
  }

  lemma {:induction false} HarmlessTracks(f: Fact, h: seq<Event>, k: nat, now: int)
    requires Monotone(h) && k <= |h| && NotBefore(h, k, now)
    requires HarmlessBefore(f, h, k)
    ensures Tracks(f, Ring(h, k), Log(h, k), now)
  {
    if k > 0 {
      var e := h[k - 1];
      HarmlessTracks(f, h, k - 1, e.stamp);
      RecordedTracks(f, Ring(h, k - 1), Log(h, k - 1), e.stamp, e);
      var s := Filled(h, k - 1);
      assert HarmlessAt(f, h, k - 1);
      if |s| > BUFFER_LIMIT {
        WithoutTracks(f, s, Log(h, k), e.stamp, Victim(s));
      }
      RingStep(h, k - 1);
      TracksLater(f, Ring(h, k), Log(h, k), e.stamp, now);
    }
  }

  lemma {:induction false} TracksLater(f: Fact, ring: seq<Request>, log: seq<Request>, last: int, now: int)
    requires Tracks(f, ring, log, last) && last <= now
    ensures Tracks(f, ring, log, now)
  {
  }

  lemma {:induction false} HarmlessAgrees(f: Fact, h: seq<Event>, k: nat)
    requires Monotone(h) && k <= |h| && HarmlessBefore(f, h, k)
    ensures Agree(f, h, k)
  {
    forall url, now: int | NotBefore(h, k, now)
      ensures Captured(f, Ring(h, k), {url}, now) == Captured(f, Log(h, k), {url}, now)
    {
      HarmlessTracks(f, h, k, now);
      TracksAgree(f, Ring(h, k), Log(h, k), now, url, now);
    }
  }

  /** An entry that shows anything and leaves inside its window is missed at once: the log still
      answers for it, and the ring finds nothing. */
  lemma {:induction false} LossShows(f: Fact, s: seq<Request>, log: seq<Request>, last: int, v: nat)
    requires Tracks(f, s, log, last) && v < |s| && Shown(f, s[v]) != NOTHING && last - s[v].timestamp <= WINDOW
    ensures Captured(f, log, {s[v].url}, last) == Shown(f, s[v])
    ensures Correlated(Without(s, v), {s[v].url}, last) == None
  {
    var lost, rest := s[v], Without(s, v);
    assert MarkOf(f, s[v]) == Mark(lost.url, lost.timestamp, Shown(f, lost)) && Has(f, s, MarkOf(f, lost));
    CorrelatedMark(f, log, lost.url, last, Shown(f, lost));
    assert forall j :: 0 <= j < |rest| ==> rest[j] == s[if j < v then j else j + 1];
    assert forall j :: 0 <= j < |rest| ==> !Candidate(rest[j], {lost.url}, last);
  }

  /** The first loss, at the address of what was lost. */
  lemma {:induction false} LossDisagrees(f: Fact, h: seq<Event>, k: nat) returns (url: string)
    requires Monotone(h) && k < |h| && !HarmlessAt(f, h, k) && HarmlessBefore(f, h, k)
    ensures Captured(f, Log(h, k + 1), {url}, h[k].stamp) != NOTHING
    ensures Correlated(Ring(h, k + 1), {url}, h[k].stamp) == None
    ensures Captured(f, Ring(h, k + 1), {url}, h[k].stamp) == NOTHING
  {
    var e, s := h[k], Filled(h, k);
    HarmlessTracks(f, h, k, e.stamp);
    RecordedTracks(f, Ring(h, k), Log(h, k), e.stamp, e);
    RingStep(h, k);
    url := s[Victim(s)].url;
    LossShows(f, s, Log(h, k + 1), e.stamp, Victim(s));
  }

  lemma {:induction false} FirstFalse(held: seq<bool>) returns (k: nat)
    requires exists k :: 0 <= k < |held| && !held[k]
    ensures k < |held| && !held[k] && forall i :: 0 <= i < k ==> held[i]
  {
    k := 0;
    while held[k]
      invariant k < |held| && forall i :: 0 <= i < k ==> held[i]
      decreases |held| - k
    {
      k := k + 1;
    }
  }

  ghost predicate AlwaysHarmless(f: Fact, h: seq<Event>) {
    HarmlessBefore(f, h, |h|)
  }

  /** The first event whose eviction loses something. */
  lemma {:induction false} FirstHarm(f: Fact, h: seq<Event>) returns (k: nat)
    requires !AlwaysHarmless(f, h)
    ensures k < |h| && !HarmlessAt(f, h, k) && HarmlessBefore(f, h, k)
  {
    var held := seq(|h|, k requires 0 <= k < |h| => HarmlessAt(f, h, k));
    var w :| 0 <= w < |h| && !HarmlessAt(f, h, w);
    assert !held[w];
    k := FirstFalse(held);
    forall i | 0 <= i <= k ensures HarmlessAt(f, h, i) == held[i] {}
  }

  ghost predicate AlwaysAgree(f: Fact, h: seq<Event>) {
    forall k :: 0 <= k <= |h| ==> Agree(f, h, k)
  }

  lemma {:induction false} NotAgreed(f: Fact, h: seq<Event>, k: nat, url: string, now: int)
    requires k <= |h| && NotBefore(h, k, now)
    requires Captured(f, Ring(h, k), {url}, now) != Captured(f, Log(h, k), {url}, now)
    ensures !AlwaysAgree(f, h)
  {
    assert !Agree(f, h, k);
  }

  lemma {:induction false} HarmlessAlwaysAgrees(f: Fact, h: seq<Event>)
    requires Monotone(h) && AlwaysHarmless(f, h)
    ensures AlwaysAgree(f, h)
  {
    forall k | 0 <= k <= |h| ensures Agree(f, h, k) {
      HarmlessAgrees(f, h, k);
    }
  }

  lemma {:induction false} LossIsNotAgreed(f: Fact, h: seq<Event>, k: nat)
    requires Monotone(h) && k < |h| && !HarmlessAt(f, h, k) && HarmlessBefore(f, h, k)
    ensures !AlwaysAgree(f, h)
  {
    var now := h[k].stamp;
    var url := LossDisagrees(f, h, k);
    NotAgreed(f, h, k + 1, url, now);
  }

  lemma {:induction false} HarmNeverAgrees(f: Fact, h: seq<Event>)
    requires Monotone(h) && !AlwaysHarmless(f, h)
    ensures !AlwaysAgree(f, h)
  {
    var k := FirstHarm(f, h);
    LossIsNotAgreed(f, h, k);
  }

  /** The ring answers like the log after every event if and only if no entry that shows anything
      leaves it inside its window. */
  lemma {:induction false} RingVerdictIsExact(f: Fact, h: seq<Event>)
    requires Monotone(h)
    ensures AlwaysAgree(f, h) <==> AlwaysHarmless(f, h)
  {
    if AlwaysHarmless(f, h) {
      HarmlessAlwaysAgrees(f, h);
    } else {
      HarmNeverAgrees(f, h);
    }
  }
}
