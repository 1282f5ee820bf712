/**
 The ring against the log for the whole request that is found, and for downloads with any number of
 addresses: both answer alike after every event if and only if every entry that leaves the ring is
 past its window. What counts of ring and log is the entries inside the window, in order.
 */
module RingRequest {
  import opened Wrappers
  import opened RequestRing
  import opened RingVerdict

  predicate IsRecent(r: Request, now: int) {
    now - r.timestamp <= WINDOW
  }

  /** The entries inside the window. */
  function Recent(s: seq<Request>, now: int): seq<Request> {
    if s == [] then []
    else
      var before, last := Recent(s[..|s| - 1], now), s[|s| - 1];
      if IsRecent(last, now) then before + [last] else before
  }

  lemma {:induction false} RecentNext(s: seq<Request>, r: Request, now: int)
    ensures Recent(s + [r], now) == if IsRecent(r, now) then Recent(s, now) + [r] else Recent(s, now)
  {
    assert (s + [r])[..|s|] == s;
  }

  lemma {:induction false} RecentHolds(s: seq<Request>, now: int, r: Request)
    ensures r in Recent(s, now) <==> r in s && IsRecent(r, now)
  {
    if s != [] {
      RecentHolds(s[..|s| - 1], now, r);
      assert s == s[..|s| - 1] + [s[|s| - 1]];
    }
  }

  lemma {:induction false} LatestNext(s: seq<Request>, r: Request, url: string)
    ensures Latest(s + [r], url) == if r.url == url then |s| else Latest(s, url)
  {
    assert (s + [r])[..|s|] == s;
  }

  /** An event that finds no entry to merge into starts one. */
  lemma {:induction false} Starts(s: seq<Request>, e: Event)
    requires forall i :: 0 <= i < |s| ==> s[i].url != e.url
    ensures After(s, e) == s + [Fresh(e.url, e.patch, e.stamp)]
  {
  }

  /** The event finds an entry of its address inside the window. */
  predicate Finds(s: seq<Request>, e: Event) {
    Latest(s, e.url) >= 0 && IsRecent(s[Latest(s, e.url)], e.stamp)
  }

  lemma {:induction false} StartsOld(s: seq<Request>, e: Event)
    requires Spaced(s) && Until(s, e.stamp) && !Finds(s, e)
    ensures Recent(After(s, e), e.stamp) == After(Recent(s, e.stamp), e)
  {
    var recent := Recent(s, e.stamp);
    forall i | 0 <= i < |recent| ensures recent[i].url != e.url {
      RecentHolds(s, e.stamp, recent[i]);
      var j :| 0 <= j < |s| && s[j] == recent[i];
      assert s[j].url == e.url ==> j <= Latest(s, e.url);
    }
    Starts(recent, e);
    RecentNext(s, Fresh(e.url, e.patch, e.stamp), e.stamp);
    assert After(s, e) == s + [Fresh(e.url, e.patch, e.stamp)];
  }

  lemma {:induction false} LatestHere(s: seq<Request>, r: Request, e: Event)
    requires r.url == e.url && IsRecent(r, e.stamp)
    ensures After(s + [r], e) == s + [Merged(r, e.patch, e.stamp)]
  {
    LatestNext(s, r, e.url);
  }

  /** An entry of another address behind changes nothing for those before. */
  lemma {:induction false} LatestBefore(s: seq<Request>, r: Request, e: Event)
    requires r.url != e.url
    ensures Finds(s + [r], e) <==> Finds(s, e)
    ensures Finds(s, e) ==> After(s + [r], e) == After(s, e) + [r]
  {
    LatestNext(s, r, e.url);
  }

  lemma {:induction false} RecentFinds(s: seq<Request>, e: Event)
    requires Finds(s, e)
    ensures Finds(Recent(s, e.stamp), e)
  {
    var t, last := s[..|s| - 1], s[|s| - 1];
    assert s == t + [last];
    if last.url == e.url {
      LatestNext(t, last, e.url);
      LatestNext(Recent(t, e.stamp), last, e.url);
    } else {
      LatestBefore(t, last, e);
      RecentFinds(t, e);
      LatestBefore(Recent(t, e.stamp), last, e);
    }
  }

  lemma {:induction false} Merges(s: seq<Request>, e: Event)
    requires Finds(s, e)
    ensures Recent(After(s, e), e.stamp) == After(Recent(s, e.stamp), e)
  {
    var t, last := s[..|s| - 1], s[|s| - 1];
    assert s == t + [last];
    if last.url == e.url {
      LatestNext(t, last, e.url);
      LatestHere(t, last, e);
      LatestHere(Recent(t, e.stamp), last, e);
      RecentNext(t, Merged(last, e.patch, e.stamp), e.stamp);
    } else {
      LatestBefore(t, last, e);
      Merges(t, e);
      RecentNext(After(t, e), last, e.stamp);
      RecentFinds(t, e);
      LatestBefore(Recent(t, e.stamp), last, e);
    }
  }

  /** Recording an event and forgetting what is past its window can be done in either order. */
  lemma {:induction false} RecentCommutes(s: seq<Request>, e: Event)
    requires Spaced(s) && Until(s, e.stamp)
    ensures Recent(After(s, e), e.stamp) == After(Recent(s, e.stamp), e)
  {
    if Finds(s, e) {
      Merges(s, e);
    } else {
      StartsOld(s, e);
    }
  }

  lemma {:induction false} RecentLater(s: seq<Request>, last: int, now: int)
    requires last <= now
    ensures Recent(Recent(s, last), now) == Recent(s, now)
  {
    if s != [] {
      var t, r := s[..|s| - 1], s[|s| - 1];
      RecentLater(t, last, now);
      RecentNext(Recent(t, last), r, now);
    }
  }

  lemma {:induction false} RecentWithout(s: seq<Request>, v: nat, now: int)
    requires v < |s| && !IsRecent(s[v], now)
    ensures Recent(Without(s, v), now) == Recent(s, now)
  {
    var n := |s| - 1;
    if v == n {
      assert Without(s, v) == s[..n];
    } else {
      RecentWithout(s[..n], v, now);
      RecentNext(Without(s[..n], v), s[n], now);
      assert Without(s, v) == Without(s[..n], v) + [s[n]];
    }
  }

  lemma {:induction false} CorrelatedNext(s: seq<Request>, r: Request, urls: set<string>, now: int)
    ensures Correlated(s + [r], urls, now)
         == var best := Correlated(s, urls, now);
            if Candidate(r, urls, now) && (best.None? || r.timestamp > best.value.timestamp) then Some(r) else best
  {
    assert (s + [r])[..|s|] == s;
  }

  /** Only what is inside the window is ever found. */
  lemma {:induction false} CorrelatedRecent(s: seq<Request>, urls: set<string>, now: int)
    ensures Correlated(Recent(s, now), urls, now) == Correlated(s, urls, now)
  {
    if s != [] {
      var t, last := s[..|s| - 1], s[|s| - 1];
      assert s == t + [last];
      RecentNext(t, last, now);
      CorrelatedRecent(t, urls, now);
      CorrelatedNext(t, last, urls, now);
      CorrelatedNext(Recent(t, now), last, urls, now);
    }
  }

  // ---- the coupling ----

  ghost predicate Same(ring: seq<Request>, log: seq<Request>, last: int) {
    && Spaced(ring) && Until(ring, last) && Spaced(log) && Until(log, last)
    && Recent(ring, last) == Recent(log, last)
  }

  lemma {:induction false} RecordedSame(ring: seq<Request>, log: seq<Request>, last: int, e: Event)
    requires Same(ring, log, last) && last <= e.stamp
    ensures Same(After(ring, e), After(log, e), e.stamp)
  {
    RecordedSpaced(ring, e);
    RecordedSpaced(log, e);
    RecentLater(ring, last, e.stamp);
    RecentLater(log, last, e.stamp);
    RecentCommutes(ring, e);
    RecentCommutes(log, e);
  }

  lemma {:induction false} SameAgrees(ring: seq<Request>, log: seq<Request>, last: int, urls: set<string>, now: int)
    requires Same(ring, log, last) && last <= now
    ensures Correlated(ring, urls, now) == Correlated(log, urls, now)
  {
    RecentLater(ring, last, now);
    RecentLater(log, last, now);
    CorrelatedRecent(ring, urls, now);
    CorrelatedRecent(log, urls, now);
  }

  /** The entry that leaves after event `k` is past its window. */
  ghost predicate ExpiredAt(h: seq<Event>, k: nat)
    requires k < |h|
  {
    var s := Filled(h, k);
    |s| > BUFFER_LIMIT ==> !IsRecent(s[Victim(s)], h[k].stamp)
  }

  ghost predicate ExpiredBefore(h: seq<Event>, k: nat)
    requires k <= |h|
  {
    forall i :: 0 <= i < k ==> ExpiredAt(h, i)
  }

  /** Asked at or after the last event, about any addresses, ring and log find one request. */
  ghost predicate FindAlike(h: seq<Event>, k: nat)
    requires k <= |h|
  {
    forall urls, now: int | NotBefore(h, k, now) ::
      Correlated(Ring(h, k), urls, now) == Correlated(Log(h, k), urls, now)
  }

  lemma {:induction false} LeavesSame(s: seq<Request>, log: seq<Request>, last: int, v: nat)
    requires Same(s, log, last) && v < |s| && !IsRecent(s[v], last)
    ensures Same(Without(s, v), log, last)
  {
    var rest := Without(s, v);
    RecentWithout(s, v, last);
    assert forall j :: 0 <= j < |rest| ==> rest[j] == s[if j < v then j else j + 1];
  }

  lemma {:induction false} SameLater(ring: seq<Request>, log: seq<Request>, last: int, now: int)
    requires Same(ring, log, last) && last <= now
    ensures Same(ring, log, now)
  {
    RecentLater(ring, last, now);
    RecentLater(log, last, now);
  }

  lemma {:induction false} ExpiredSame(h: seq<Event>, k: nat, now: int)
    requires Monotone(h) && k <= |h| && NotBefore(h, k, now) && ExpiredBefore(h, k)
    ensures Same(Ring(h, k), Log(h, k), now)
  {
    if k > 0 {
      var e, s := h[k - 1], Filled(h, k - 1);
      ExpiredSame(h, k - 1, e.stamp);
      RecordedSame(Ring(h, k - 1), Log(h, k - 1), e.stamp, e);
      RingStep(h, k - 1);
      assert ExpiredAt(h, k - 1);
      if |s| > BUFFER_LIMIT {
        LeavesSame(s, Log(h, k), e.stamp, Victim(s));
      }
      SameLater(Ring(h, k), Log(h, k), e.stamp, now);
    }
  }

  lemma {:induction false} ExpiredAgrees(h: seq<Event>, k: nat)
    requires Monotone(h) && k <= |h| && ExpiredBefore(h, k)
    ensures FindAlike(h, k)
  {
    forall urls, now: int | NotBefore(h, k, now)
      ensures Correlated(Ring(h, k), urls, now) == Correlated(Log(h, k), urls, now)
    {
      ExpiredSame(h, k, now);
      SameAgrees(Ring(h, k), Log(h, k), now, urls, now);
    }
  }

  /** An entry that leaves inside its window is missed at once. */
  lemma {:induction false} LossIsFelt(s: seq<Request>, log: seq<Request>, last: int, v: nat)
    requires Same(s, log, last) && v < |s| && IsRecent(s[v], last)
    ensures Correlated(log, {s[v].url}, last) == Some(s[v]) && Correlated(Without(s, v), {s[v].url}, last) == None
  {
    var url, rest := s[v].url, Without(s, v);
    SameAgrees(s, log, last, {url}, last);
    var i := Newest(s, {url}, last);
    assert Candidate(s[v], {url}, last) && i >= 0 && s[i].url == url;
    assert i == v;
    assert forall j :: 0 <= j < |rest| ==> rest[j] == s[if j < v then j else j + 1];
    assert forall j :: 0 <= j < |rest| ==> !Candidate(rest[j], {url}, last);
  }

  lemma {:induction false} LossIsSeen(h: seq<Event>, k: nat) returns (url: string)
    requires Monotone(h) && k < |h| && !ExpiredAt(h, k) && ExpiredBefore(h, k)
    ensures Correlated(Log(h, k + 1), {url}, h[k].stamp).Some? && Correlated(Ring(h, k + 1), {url}, h[k].stamp) == None
  {
    var e, s := h[k], Filled(h, k);
    url := s[Victim(s)].url;
    ExpiredSame(h, k, e.stamp);
    RecordedSame(Ring(h, k), Log(h, k), e.stamp, e);
    RingStep(h, k);
    LossIsFelt(s, Log(h, k + 1), e.stamp, Victim(s));
  }

  ghost predicate AlwaysExpired(h: seq<Event>) {
    forall k :: 0 <= k < |h| ==> ExpiredAt(h, k)
  }

  ghost predicate AlwaysFindAlike(h: seq<Event>) {
    forall k :: 0 <= k <= |h| ==> FindAlike(h, k)
  }

  /** The first event whose eviction is none of an expired entry. */
  lemma {:induction false} FirstLoss(h: seq<Event>) returns (k: nat)
    requires !AlwaysExpired(h)
    ensures k < |h| && !ExpiredAt(h, k) && ExpiredBefore(h, k)
  {
    var held := seq(|h|, k requires 0 <= k < |h| => ExpiredAt(h, k));
    var w :| 0 <= w < |h| && !ExpiredAt(h, w);
    assert !held[w];
    k := FirstFalse(held);
    forall i | 0 <= i <= k ensures ExpiredAt(h, i) == held[i] {}
  }

  lemma {:induction false} ExpiredIsEnough(h: seq<Event>)
    requires Monotone(h) && AlwaysExpired(h)
    ensures AlwaysFindAlike(h)
  {
    forall k | 0 <= k <= |h| ensures FindAlike(h, k) {
      ExpiredAgrees(h, k);
    }
  }

  lemma {:induction false} NotAlike(h: seq<Event>, k: nat, urls: set<string>, now: int)
    requires k <= |h| && NotBefore(h, k, now)
    requires Correlated(Ring(h, k), urls, now) != Correlated(Log(h, k), urls, now)
    ensures !FindAlike(h, k)
  {
  }

  lemma {:induction false} LossIsNotAlike(h: seq<Event>, k: nat)
    requires Monotone(h) && k < |h| && !ExpiredAt(h, k) && ExpiredBefore(h, k)
    ensures !FindAlike(h, k + 1)
  {
    var now := h[k].stamp;
    var url := LossIsSeen(h, k);
    assert Correlated(Ring(h, k + 1), {url}, now) != Correlated(Log(h, k + 1), {url}, now);
    NotAlike(h, k + 1, {url}, now);
  }

  lemma {:induction false} ExpiredIsNeeded(h: seq<Event>)
    requires Monotone(h) && !AlwaysExpired(h)
    ensures !AlwaysFindAlike(h)
  {
    var k := FirstLoss(h);
    LossIsNotAlike(h, k);
  }

  /** The ring finds what the log finds, after every event and for all addresses, if and only if every
      entry that leaves it is past its window. */
  lemma {:induction false} RingRequestIsExact(h: seq<Event>)
    requires Monotone(h)
    ensures AlwaysFindAlike(h) <==> AlwaysExpired(h)
  {
    if AlwaysExpired(h) {
      ExpiredIsEnough(h);
    } else {
      ExpiredIsNeeded(h);
    }
  }
}
