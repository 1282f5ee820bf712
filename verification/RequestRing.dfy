/**
 The ring of observed requests (extension/src/downloads.js, `remember` and `evict`) and the
 question asked of it before a download is touched (extension/src/intercept.js, `correlateRequest`
 and `staysInBrowser`): was the request a POST? The main result compares the ring of 50 entries
 with a log that never forgets: the answer is the same exactly as long as no POST still inside the
 correlation window has to leave.
 */
module RequestRing {
  import opened Wrappers
  import opened Strings

  const BUFFER_LIMIT := 50
  const WINDOW := 10_000

  datatype Request = Request(
    url: string,
    timestamp: int,
    verb: Option<string>,
    headers: seq<(string, string)>,
    disposition: Option<string>)

  /** What one webRequest event adds to an entry. */
  datatype Patch =
    | SeenVerb(verb: Option<string>)
    | SentHeaders(verb: Option<string>, headers: seq<(string, string)>)
    | Disposition(disposition: string)

  predicate IsPostVerb(verb: Option<string>) {
    verb.Some? && Upper(verb.value) == "POST"
  }

  predicate IsPost(r: Request) {
    IsPostVerb(r.verb)
  }

  function Merged(r: Request, patch: Patch, stamp: int): Request {
    match patch
    case SeenVerb(m) => r.(verb := m, timestamp := stamp)
    case SentHeaders(m, h) => r.(verb := m, headers := h, timestamp := stamp)
    case Disposition(d) => r.(disposition := Some(d), timestamp := stamp)
  }

  function Fresh(url: string, patch: Patch, stamp: int): Request {
    Merged(Request(url, stamp, None, [], None), patch, stamp)
  }

  /** The index of the newest entry of an address, or -1. */
  function Latest(s: seq<Request>, url: string): (i: int)
    ensures -1 <= i < |s|
    ensures i >= 0 ==> s[i].url == url
    ensures forall j :: i < j < |s| ==> s[j].url != url
  {
    if s == [] then -1
    else if s[|s| - 1].url == url then |s| - 1
    else Latest(s[..|s| - 1], url)
  }

  /** The merge rule without any limit: the newest entry of the address takes the event while it
      is within the window of it, and otherwise the event starts an entry of its own. */
  function Recorded(s: seq<Request>, url: string, patch: Patch, stamp: int): seq<Request> {
    var i := Latest(s, url);
    if i >= 0 && stamp - s[i].timestamp <= WINDOW then s[i := Merged(s[i], patch, stamp)]
    else s + [Fresh(url, patch, stamp)]
  }

  predicate OnlyPosts(s: seq<Request>) {
    forall r <- s :: IsPost(r)
  }

  /** The entry that leaves a full ring: the first that is no POST, or the first of all. */
  function Victim(s: seq<Request>): (v: nat)
    requires s != []
    ensures v < |s|
    ensures OnlyPosts(s) ==> v == 0
    ensures !OnlyPosts(s) ==> !IsPost(s[v]) && forall j :: 0 <= j < v ==> IsPost(s[j])
  {
    if OnlyPosts(s) then 0 else FirstNonPost(s)
  }

  function FirstNonPost(s: seq<Request>): (v: nat)
    requires !OnlyPosts(s)
    ensures v < |s| && !IsPost(s[v]) && forall j :: 0 <= j < v ==> IsPost(s[j])
  {
    if !IsPost(s[0]) then 0
    else
      assert s == [s[0]] + s[1..];
      1 + FirstNonPost(s[1..])
  }

  function Without(s: seq<Request>, v: nat): seq<Request>
    requires v < |s|
  {
    s[..v] + s[v + 1..]
  }

  function Evicted(s: seq<Request>): (r: seq<Request>)
    ensures |s| <= BUFFER_LIMIT ==> r == s
    ensures |r| <= BUFFER_LIMIT
    decreases |s|
  {
    if |s| <= BUFFER_LIMIT then s
    else Evicted(Without(s, Victim(s)))
  }

  /** One event on the ring. */
  function Remembered(s: seq<Request>, url: string, patch: Patch, stamp: int): seq<Request> {
    Evicted(Recorded(s, url, patch, stamp))
  }

  /** The buffer the listeners share. */
  class Buffer {
    var requests: seq<Request>

    constructor ()
      ensures requests == []
    {
      requests := [];
    }

    method Remember(url: string, patch: Patch, stamp: int)
      requires |requests| <= BUFFER_LIMIT
      modifies this
      ensures requests == Remembered(old(requests), url, patch, stamp)
      ensures |requests| <= BUFFER_LIMIT
    {
      var index := |requests| - 1;
      while index >= 0
        invariant -1 <= index < |requests|
        invariant requests == old(requests)
        invariant forall j :: index < j < |requests| ==> requests[j].url != url
      {
        if requests[index].url == url {
          if stamp - requests[index].timestamp <= WINDOW {
            requests := requests[index := Merged(requests[index], patch, stamp)];
            return;
          }
          break;
        }
        index := index - 1;
      }
      requests := requests + [Fresh(url, patch, stamp)];
      Evict();
    }

    method Evict()
      modifies this
      ensures requests == Evicted(old(requests))
    {
      ghost var goal := Evicted(requests);
      while |requests| > BUFFER_LIMIT
        invariant Evicted(requests) == goal
        decreases |requests|
      {
        var victim := FindVictim(requests);
        EvictOne(requests);
        assert Without(requests, victim) == requests[..victim] + requests[victim + 1..];
        requests := requests[..victim] + requests[victim + 1..];
      }
    }
  }

  lemma {:induction false} EvictOne(s: seq<Request>)
    requires |s| > BUFFER_LIMIT
    ensures Evicted(s) == Evicted(Without(s, Victim(s)))
  {
  }

  lemma {:induction false} FirstIsVictim(s: seq<Request>, v: nat)
    requires v < |s| && !IsPost(s[v]) && forall j :: 0 <= j < v ==> IsPost(s[j])
    ensures v == Victim(s)
  {
    assert s[v] in s;
  }

  /** `findIndex`, and the first entry where it finds none. */
  method FindVictim(requests: seq<Request>) returns (victim: nat)
    requires requests != []
    ensures victim == Victim(requests)
  {
    victim := 0;
    while victim < |requests|
      invariant 0 <= victim <= |requests|
      invariant forall j :: 0 <= j < victim ==> IsPost(requests[j])
    {
      if !IsPost(requests[victim]) {
        FirstIsVictim(requests, victim);
        return;
      }
      victim := victim + 1;
    }
    return 0;
  }

  // ---- the question asked of the entries ----

  predicate Candidate(r: Request, urls: set<string>, now: int) {
    r.url in urls && 0 <= now - r.timestamp <= WINDOW
  }

  /** The newest candidate, the first one where several share the newest timestamp. */
  ghost predicate IsNewest(s: seq<Request>, urls: set<string>, now: int, i: int) {
    && 0 <= i < |s| && Candidate(s[i], urls, now)
    && (forall j :: 0 <= j < |s| && Candidate(s[j], urls, now) ==> s[j].timestamp <= s[i].timestamp)
    && (forall j :: 0 <= j < i && Candidate(s[j], urls, now) ==> s[j].timestamp < s[i].timestamp)
  }

  function Newest(s: seq<Request>, urls: set<string>, now: int): (i: int)
    ensures i == -1 || IsNewest(s, urls, now, i)
    ensures i == -1 ==> forall j :: 0 <= j < |s| ==> !Candidate(s[j], urls, now)
  {
    if s == [] then -1
    else
      var last := |s| - 1;
      var i := Newest(s[..last], urls, now);
      if Candidate(s[last], urls, now) && (i == -1 || s[last].timestamp > s[i].timestamp) then last
      else i
  }

  function Correlated(s: seq<Request>, urls: set<string>, now: int): Option<Request> {
    var i := Newest(s, urls, now);
    if i == -1 then None else Some(s[i])
  }

  method CorrelateRequest(requests: seq<Request>, urls: set<string>, now: int) returns (best: Option<Request>)
    ensures best == Correlated(requests, urls, now)
  {
    best := None;
    for n := 0 to |requests|
      invariant best == Correlated(requests[..n], urls, now)
    {
      var entry := requests[n];
      assert requests[..n + 1][..n] == requests[..n];
      if Candidate(entry, urls, now) && (best.None? || entry.timestamp > best.value.timestamp) {
        best := Some(entry);
      }
    }
    assert requests[..|requests|] == requests;
  }

  predicate CapturedPost(s: seq<Request>, urls: set<string>, now: int) {
    var captured := Correlated(s, urls, now);
    captured.Some? && IsPost(captured.value)
  }
}
