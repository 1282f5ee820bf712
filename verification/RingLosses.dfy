/**
 Histories in which the ring's answer is not the log's: a file overlooked, a POST found that was
 followed by a GET, and two addresses with one time, where the order of the entries decides.
 */
module RingLosses {
  import opened Interception
  import opened RequestRing
  import opened RingRedirect
  import opened RingRequest
  import opened RingVerdict
  import opened Strings
  import opened Wrappers

  // ---- events of many addresses ----

  ghost predicate IsNew(h: seq<Event>, n: nat)
    requires n < |h|
  {
    forall i :: 0 <= i < n ==> h[i].url != h[n].url
  }

  /** The first `n` events have different addresses. */
  ghost predicate AllDifferent(h: seq<Event>, n: nat)
    requires n <= |h|
  {
    forall i :: 0 <= i < n ==> IsNew(h, i)
  }

  lemma {:induction false} OnlyOne(h: seq<Event>, n: nat, i: nat)
    requires i < n <= |h| && AllDifferent(h, n)
    ensures forall j :: 0 <= j < n && j != i ==> h[j].url != h[i].url
  {
    forall j | 0 <= j < n && j != i ensures h[j].url != h[i].url {
      assert IsNew(h, if i < j then j else i);
    }
  }

  function Entries(h: seq<Event>, n: nat): (s: seq<Request>)
    requires n <= |h|
    ensures |s| == n && forall i :: 0 <= i < n ==> s[i] == Fresh(h[i].url, h[i].patch, h[i].stamp)
    ensures forall i :: 0 <= i < n ==> s[i].url == h[i].url && s[i].timestamp == h[i].stamp
  {
    seq(n, i requires 0 <= i < n => Fresh(h[i].url, h[i].patch, h[i].stamp))
  }

  lemma {:induction false} DifferentNext(h: seq<Event>, n: nat)
    requires n < |h| && IsNew(h, n)
    ensures After(Entries(h, n), h[n]) == Entries(h, n + 1)
  {
    Starts(Entries(h, n), h[n]);
    assert Entries(h, n + 1) == Entries(h, n) + [Fresh(h[n].url, h[n].patch, h[n].stamp)];
  }

  lemma {:induction false} LogNext(h: seq<Event>, n: nat)
    requires n < |h| && IsNew(h, n) && Log(h, n) == Entries(h, n)
    ensures Log(h, n + 1) == Entries(h, n + 1)
  {
    DifferentNext(h, n);
  }

  lemma {:induction false} DifferentLog(h: seq<Event>, n: nat)
    requires n <= |h| && AllDifferent(h, n)
    ensures Log(h, n) == Entries(h, n)
  {
    for k := 0 to n
      invariant Log(h, k) == Entries(h, k)
    {
      LogNext(h, k);
    }
  }

  lemma {:induction false} RingNext(h: seq<Event>, n: nat)
    requires n < |h| && n < BUFFER_LIMIT && IsNew(h, n) && Ring(h, n) == Entries(h, n)
    ensures Filled(h, n) == Ring(h, n + 1) == Entries(h, n + 1)
  {
    DifferentNext(h, n);
    RingStep(h, n);
  }

  lemma {:induction false} RingStart(h: seq<Event>)
    ensures Ring(h, 0) == Entries(h, 0)
  {
  }

  lemma {:induction false} DifferentRing(h: seq<Event>, n: nat)
    requires n <= |h| && n <= BUFFER_LIMIT && AllDifferent(h, n)
    ensures Ring(h, n) == Entries(h, n)
  {
    hide Ring;
    if n == 0 {
      RingStart(h);
    } else {
      DifferentRing(h, n - 1);
      RingNext(h, n - 1);
    }
  }

  /** One address more than the ring holds: the victim is missing. */
  lemma {:induction false} Overflowing(h: seq<Event>, all: seq<Request>)
    requires |h| == BUFFER_LIMIT + 1 && AllDifferent(h, |h|) && all == Entries(h, |h|)
    ensures Log(h, |h|) == all && Ring(h, |h|) == Without(all, Victim(all))
  {
    DifferentLog(h, |h|);
    DifferentRing(h, BUFFER_LIMIT);
    DifferentNext(h, BUFFER_LIMIT);
    RingStep(h, BUFFER_LIMIT);
  }

  predicate IsGet(e: Event) {
    e.patch == SeenVerb(Some("GET"))
  }

  predicate IsPosting(e: Event) {
    e.patch == SeenVerb(Some("POST"))
  }

  lemma {:induction false} FreshVerb(e: Event)
    ensures IsPosting(e) ==> IsPost(Fresh(e.url, e.patch, e.stamp))
    ensures IsGet(e) || e.patch.Disposition? ==> !IsPost(Fresh(e.url, e.patch, e.stamp))
  {
    assert Upper("POST") == "POST";
    assert Upper("GET")[0] == 'G' && "POST"[0] == 'P';
  }

  lemma {:induction false} Nowhere(s: seq<Request>, urls: set<string>, now: int)
    requires forall j :: 0 <= j < |s| ==> !Candidate(s[j], urls, now)
    ensures Correlated(s, urls, now) == None
  {
    var i := Newest(s, urls, now);
    assert i == -1 || IsNewest(s, urls, now, i);
  }

  // ---- a file overlooked ----

  /** One answer that names a file, then fifty POSTs to other addresses, all inside the window. */
  ghost predicate FileFlood(names: string -> bool, h: seq<Event>) {
    && |h| == BUFFER_LIMIT + 1 && Monotone(h) && AllDifferent(h, |h|)
    && h[0].patch.Disposition? && names(h[0].patch.disposition)
    && (forall i :: 1 <= i < |h| ==> IsPosting(h[i]))
    && h[BUFFER_LIMIT].stamp - h[0].stamp <= WINDOW
  }

  lemma {:induction false} FileIsOverlooked(names: string -> bool, h: seq<Event>)
    requires FileFlood(names, h)
    ensures var urls, now := {h[0].url}, h[BUFFER_LIMIT].stamp;
            && Correlated(Log(h, |h|), urls, now) == Some(Fresh(h[0].url, h[0].patch, h[0].stamp))
            && Correlated(Ring(h, |h|), urls, now) == None
  {
    hide Ring, Log;
    var urls, now, all := {h[0].url}, h[BUFFER_LIMIT].stamp, Entries(h, |h|);
    Overflowing(h, all);
    FreshVerb(h[0]);
    FirstIsVictim(all, 0);
    OnlyOne(h, |h|, 0);
    NewerIsFound(all, urls, now, 0);
    var rest := Without(all, 0);
    assert forall j :: 0 <= j < |rest| ==> rest[j] == all[j + 1];
    Nowhere(rest, urls, now);
  }

  /** Only POSTs survive by rule: a flood of them pushes out the answer that named a file, and the
      download that the log would leave to the browser is then paused. */
  lemma {:induction false} FileVerdictCanBeLost(at: Situation, names: string -> bool, h: seq<Event>)
    requires at.intercept && !at.itemIsFile && at.hasToken && at.reachable && !at.observable && FileFlood(names, h)
    ensures var urls, now := {h[0].url}, h[BUFFER_LIMIT].stamp;
            && Decide(at, names, Correlated(Log(h, |h|), urls, now)) == KeptAsFile
            && Decide(at, names, Correlated(Ring(h, |h|), urls, now)) == Paused
  {
    FileIsOverlooked(names, h);
  }

  // ---- a POST that was followed by a GET ----

  /** A POST to one address, a later GET to another, then POSTs to other addresses, all in the window. */
  ghost predicate GetFlood(h: seq<Event>) {
    && |h| == BUFFER_LIMIT + 1 && Monotone(h) && AllDifferent(h, |h|)
    && (forall i :: 0 <= i < |h| ==> if i == 1 then IsGet(h[i]) else IsPosting(h[i]))
    && h[0].stamp < h[1].stamp && h[BUFFER_LIMIT].stamp - h[0].stamp <= WINDOW
  }

  /** With the two addresses of a redirected download the ring sees a POST where the log sees the later
      GET: the GET had to leave for other POSTs. The download then stays in the browser without need. */
  lemma {:induction false} LaterGetCanBeLost(h: seq<Event>)
    requires GetFlood(h)
    ensures var urls, now := {h[0].url, h[1].url}, h[BUFFER_LIMIT].stamp;
            && Untied(Log(h, |h|), urls, now)
            && !CapturedPost(Log(h, |h|), urls, now) && CapturedPost(Ring(h, |h|), urls, now)
  {
    hide Ring, Log;
    var urls, now, all := {h[0].url, h[1].url}, h[BUFFER_LIMIT].stamp, Entries(h, |h|);
    Overflowing(h, all);
    FreshVerb(h[0]);
    FreshVerb(h[1]);
    FirstIsVictim(all, 1);
    OnlyOne(h, |h|, 0);
    OnlyOne(h, |h|, 1);
    NewerIsFound(all, urls, now, 1);
    var rest := Without(all, 1);
    assert forall j :: 0 <= j < |rest| ==> rest[j] == all[if j < 1 then j else j + 1];
    NewerIsFound(rest, urls, now, 0);
  }

  // ---- one time at two addresses ----

  /** Fifty-one GETs, then a POST, and at the same time the first address again. */
  ghost predicate TieFlood(h: seq<Event>) {
    && |h| == BUFFER_LIMIT + 3 && Monotone(h) && AllDifferent(h, BUFFER_LIMIT + 2)
    && (forall i :: 0 <= i < |h| ==> if i == BUFFER_LIMIT + 1 then IsPosting(h[i]) else IsGet(h[i]))
    && h[BUFFER_LIMIT + 2].url == h[0].url && h[BUFFER_LIMIT + 2].stamp == h[BUFFER_LIMIT + 1].stamp
    && h[BUFFER_LIMIT + 2].stamp - h[0].stamp <= WINDOW
  }

  /** All entries but the last event's, each as it was started. */
  function Started(h: seq<Event>): seq<Request>
    requires |h| == BUFFER_LIMIT + 3
  {
    Entries(h, BUFFER_LIMIT + 2)
  }

  /** The entry the last event starts, or merges into. */
  function Again(h: seq<Event>): Request
    requires |h| == BUFFER_LIMIT + 3
  {
    Fresh(h[BUFFER_LIMIT + 2].url, h[BUFFER_LIMIT + 2].patch, h[BUFFER_LIMIT + 2].stamp)
  }

  /** A GET in front that is as old as anything. */
  predicate OldGet(s: seq<Request>) {
    s != [] && !IsPost(s[0]) && forall i :: 0 <= i < |s| ==> s[0].timestamp <= s[i].timestamp
  }

  lemma {:induction false} OldGetLeaves(s: seq<Request>, stamp: int)
    requires OldGet(s)
    ensures Victim(s) == 0 && Without(s, 0) == s[1..] && MayLeave(Posted, s, stamp, 0)
  {
    FirstIsVictim(s, 0);
  }

  /** In a full ring such a GET leaves for an address that is new to it, and may. */
  lemma {:induction false} GivesWay(h: seq<Event>, k: nat, s: seq<Request>, r: Request)
    requires k < |h| && Ring(h, k) == s && |s| == BUFFER_LIMIT && r == Fresh(h[k].url, h[k].patch, h[k].stamp)
    requires OldGet(s + [r]) && forall j :: 0 <= j < |s| ==> s[j].url != h[k].url
    ensures Ring(h, k + 1) == s[1..] + [r] && MayLeaveAt(Posted, h, k)
  {
    hide Ring, Recorded, Fresh, Victim;
    var filled := s + [r];
    Starts(s, h[k]);
    assert Filled(h, k) == filled;
    RingStep(h, k);
    OldGetLeaves(filled, h[k].stamp);
    assert filled[1..] == s[1..] + [r];
  }

  lemma {:induction false} TieBegins(h: seq<Event>)
    requires TieFlood(h)
    ensures Ring(h, BUFFER_LIMIT) == Entries(h, BUFFER_LIMIT) && MayLeaveBefore(Posted, h, BUFFER_LIMIT)
  {
    forall k | 0 <= k < BUFFER_LIMIT ensures MayLeaveAt(Posted, h, k) {
      DifferentRing(h, k);
      RingNext(h, k);
    }
    DifferentRing(h, BUFFER_LIMIT);
  }

  lemma {:induction false} InOrder(h: seq<Event>, i: nat, j: nat)
    requires Monotone(h) && i <= j < |h|
    ensures h[i].stamp <= h[j].stamp
  {
  }

  /** A stretch of the entries has a GET in front that is as old as anything. */
  lemma {:induction false} StretchIsOld(h: seq<Event>, i: nat, r: Request)
    requires TieFlood(h) && i < 3 && r.timestamp >= h[BUFFER_LIMIT].stamp
    requires i + BUFFER_LIMIT <= |Started(h)|
    ensures OldGet(Started(h)[i..i + BUFFER_LIMIT] + [r])
  {
    var s := Started(h)[i..i + BUFFER_LIMIT];
    FreshVerb(h[i]);
    InOrder(h, i, BUFFER_LIMIT);
    forall j | 0 <= j < |s| ensures s[0].timestamp <= s[j].timestamp {
      InOrder(h, i, i + j);
    }
  }

  lemma {:induction false} StretchIsNew(h: seq<Event>, i: nat)
    requires TieFlood(h) && i < 2
    ensures var s := Started(h)[i..i + BUFFER_LIMIT];
            forall j :: 0 <= j < |s| ==> s[j].url != h[i + BUFFER_LIMIT].url
  {
    assert IsNew(h, i + BUFFER_LIMIT);
  }

  lemma {:induction false} NoneIsFirst(h: seq<Event>)
    requires TieFlood(h)
    ensures forall j :: 0 < j < |Started(h)| ==> Started(h)[j].url != h[BUFFER_LIMIT + 2].url
  {
    forall j | 0 < j < |Started(h)| ensures Started(h)[j].url != h[BUFFER_LIMIT + 2].url {
      assert IsNew(h, j) && h[0].url != h[j].url;
    }
  }

  lemma {:induction false} Slides(s: seq<Request>, i: nat, n: nat)
    requires 0 < n && i + n < |s|
    ensures s[i..i + n][1..] + [s[i + n]] == s[i + 1..i + 1 + n]
  {
  }

  /** The GET leaves for the next one. */
  lemma {:induction false} Onward(h: seq<Event>, i: nat)
    requires TieFlood(h) && i < 2 && Ring(h, i + BUFFER_LIMIT) == Started(h)[i..i + BUFFER_LIMIT]
    ensures Ring(h, i + 1 + BUFFER_LIMIT) == Started(h)[i + 1..i + 1 + BUFFER_LIMIT]
    ensures MayLeaveAt(Posted, h, i + BUFFER_LIMIT)
  {
    hide Ring, MayLeaveAt;
    var all, k := Started(h), i + BUFFER_LIMIT;
    InOrder(h, BUFFER_LIMIT, k);
    StretchIsOld(h, i, all[k]);
    StretchIsNew(h, i);
    Slides(all, i, BUFFER_LIMIT);
    GivesWay(h, k, all[i..k], all[k]);
  }

  lemma {:induction false} TieEnds(h: seq<Event>)
    requires TieFlood(h) && Ring(h, BUFFER_LIMIT + 2) == Started(h)[2..2 + BUFFER_LIMIT]
    ensures Ring(h, |h|) == Started(h)[3..] + [Again(h)] && MayLeaveAt(Posted, h, BUFFER_LIMIT + 2)
  {
    hide Ring, MayLeaveAt;
    var all, k := Started(h), BUFFER_LIMIT + 2;
    InOrder(h, BUFFER_LIMIT, k);
    StretchIsOld(h, 2, Again(h));
    NoneIsFirst(h);
    GivesWay(h, k, all[2..2 + BUFFER_LIMIT], Again(h));
    assert all[2..2 + BUFFER_LIMIT][1..] == all[3..];
  }

  lemma {:induction false} AllMayLeave(h: seq<Event>)
    requires |h| == BUFFER_LIMIT + 3 && MayLeaveBefore(Posted, h, BUFFER_LIMIT)
    requires MayLeaveAt(Posted, h, BUFFER_LIMIT) && MayLeaveAt(Posted, h, BUFFER_LIMIT + 1)
    requires MayLeaveAt(Posted, h, BUFFER_LIMIT + 2)
    ensures AlwaysMayLeave(Posted, h)
  {
    forall k | 0 <= k < |h| ensures MayLeaveAt(Posted, h, k) {
      assert k < BUFFER_LIMIT || k == BUFFER_LIMIT || k == BUFFER_LIMIT + 1 || k == BUFFER_LIMIT + 2;
    }
  }

  /** Three GETs leave, each for the next address, and the first address comes back behind the POST. */
  lemma {:induction false} TieRing(h: seq<Event>)
    requires TieFlood(h)
    ensures Ring(h, |h|) == Started(h)[3..] + [Again(h)] && AlwaysMayLeave(Posted, h)
  {
    hide Ring, MayLeaveAt, MayLeaveBefore, AlwaysMayLeave;
    TieBegins(h);
    assert Entries(h, BUFFER_LIMIT) == Started(h)[0..BUFFER_LIMIT];
    Onward(h, 0);
    Onward(h, 1);
    TieEnds(h);
    AllMayLeave(h);
  }

  lemma {:induction false} LatestAt(s: seq<Request>, url: string, i: nat)
    requires i < |s| && s[i].url == url && forall j :: i < j < |s| ==> s[j].url != url
    ensures Latest(s, url) == i
  {
  }

  /** In the log the first address is merged where it was, before the POST. */
  lemma {:induction false} TieLog(h: seq<Event>)
    requires TieFlood(h)
    ensures Log(h, |h|) == Started(h)[0 := Again(h)]
  {
    var k, all := BUFFER_LIMIT + 2, Started(h);
    DifferentLog(h, k);
    NoneIsFirst(h);
    LatestAt(all, h[k].url, 0);
    assert IsGet(h[0]) && IsGet(h[k]);
    assert Merged(all[0], h[k].patch, h[k].stamp) == Again(h);
    RingStep(h, k);
  }

  lemma {:induction false} FirstOfTie(s: seq<Request>, urls: set<string>, now: int, i: nat, j: nat)
    requires i < j < |s| && s[i].timestamp == s[j].timestamp
    requires forall k :: 0 <= k < |s| ==> (Candidate(s[k], urls, now) <==> k == i || k == j)
    ensures Correlated(s, urls, now) == Some(s[i])
  {
    var n := Newest(s, urls, now);
    assert Candidate(s[i], urls, now) && IsNewest(s, urls, now, n);
  }

  /** The two addresses of which ring and log are asked. */
  function Both(h: seq<Event>): set<string>
    requires |h| == BUFFER_LIMIT + 3
  {
    {h[0].url, h[BUFFER_LIMIT + 1].url}
  }

  lemma {:induction false} TieCandidates(h: seq<Event>)
    requires TieFlood(h)
    ensures var now := h[BUFFER_LIMIT + 2].stamp;
            && Candidate(Again(h), Both(h), now)
            && forall k :: 0 <= k < |Started(h)| ==>
                 (Candidate(Started(h)[k], Both(h), now) <==> k == 0 || k == BUFFER_LIMIT + 1)
  {
    var n := BUFFER_LIMIT + 1;
    OnlyOne(h, n + 1, 0);
    OnlyOne(h, n + 1, n);
    InOrder(h, 0, n);
  }

  lemma {:induction false} TieLogFinds(h: seq<Event>)
    requires TieFlood(h)
    ensures Correlated(Log(h, |h|), Both(h), h[BUFFER_LIMIT + 2].stamp) == Some(Again(h))
  {
    hide Log;
    TieLog(h);
    TieCandidates(h);
    FirstOfTie(Started(h)[0 := Again(h)], Both(h), h[BUFFER_LIMIT + 2].stamp, 0, BUFFER_LIMIT + 1);
  }

  lemma {:induction false} TieRingFinds(h: seq<Event>)
    requires TieFlood(h)
    ensures Correlated(Ring(h, |h|), Both(h), h[BUFFER_LIMIT + 2].stamp) == Some(Started(h)[BUFFER_LIMIT + 1])
  {
    hide Ring, AlwaysMayLeave;
    TieRing(h);
    TieCandidates(h);
    var ring := Started(h)[3..] + [Again(h)];
    FirstOfTie(ring, Both(h), h[BUFFER_LIMIT + 2].stamp, BUFFER_LIMIT - 2, BUFFER_LIMIT - 1);
  }

  /** Every entry that left may leave, and still ring and log differ on two addresses with one time: the
      first of the two answers, and the ring has them the other way round. So the theorems can only
      speak of questions that are not tied. */
  lemma {:induction false} TiesCanDiffer(h: seq<Event>)
    requires TieFlood(h)
    ensures AlwaysMayLeave(Posted, h)
    ensures !CapturedPost(Log(h, |h|), Both(h), h[BUFFER_LIMIT + 2].stamp)
    ensures CapturedPost(Ring(h, |h|), Both(h), h[BUFFER_LIMIT + 2].stamp)
  {
    TieRing(h);
    TieLogFinds(h);
    TieRingFinds(h);
    FreshVerb(h[BUFFER_LIMIT + 1]);
    FreshVerb(h[BUFFER_LIMIT + 2]);
  }

  // ---- there are such histories ----

  function Address(i: nat): (u: string)
    ensures |u| == i + 1
  {
    seq(i + 1, _ => 'p')
  }

  /** Events of the addresses, one after the other, with these patches and times. */
  function Flood(n: nat, patch: nat -> Patch, stamp: nat -> int): (h: seq<Event>)
    ensures |h| == n && forall i :: 0 <= i < n ==> h[i] == Event(Address(i), patch(i), stamp(i))
  {
    seq(n, i requires 0 <= i < n => Event(Address(i), patch(i), stamp(i)))
  }

  lemma {:induction false} FloodIsDifferent(h: seq<Event>, n: nat)
    requires n <= |h| && forall i :: 0 <= i < n ==> h[i].url == Address(i)
    ensures AllDifferent(h, n)
  {
    forall i, j | 0 <= i < j < n ensures h[i].url != h[j].url {
      assert |h[i].url| == i + 1 && |h[j].url| == j + 1;
    }
    forall j | 0 <= j < n ensures IsNew(h, j) {}
  }

  const POSTING := SeenVerb(Some("POST"))
  const GETTING := SeenVerb(Some("GET"))

  lemma {:induction false} FloodsExist(names: string -> bool, disposition: string)
    returns (file: seq<Event>, get: seq<Event>, tie: seq<Event>)
    requires names(disposition)
    ensures FileFlood(names, file) && GetFlood(get) && TieFlood(tie)
  {
    var n := BUFFER_LIMIT + 1;
    file := Flood(n, i => if i == 0 then Disposition(disposition) else POSTING, _ => 0);
    get := Flood(n, i => if i == 1 then GETTING else POSTING, i => if i == 0 then 0 else 1);
    tie := Flood(n + 1, i => if i == n then POSTING else GETTING, i => if i == n then 1 else 0)
           + [Event(Address(0), GETTING, 1)];
    FloodIsDifferent(file, n);
    FloodIsDifferent(get, n);
    FloodIsDifferent(tie, n + 1);
  }
}
