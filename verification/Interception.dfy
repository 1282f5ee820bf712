/**
 What is decided before a download is touched (extension/src/downloads.js, `onDownloadCreated` up
 to the pause, and extension/src/intercept.js, `staysInBrowser`), on top of the ring: when each of its
 answers is the one all requests together would give.
 */
module Interception {
  import opened Strings
  import opened Wrappers
  import opened RequestRing
  import opened RingVerdict
  import opened RingRedirect
  import opened RingRequest

  datatype Kept = File | Post

  /** Everything the decision reads of the download and of the service. */
  datatype Situation = Situation(
    intercept: bool,      // switched on, a web address, not ours and not our server's
    itemIsFile: bool,     // by content type, file name or address
    hasToken: bool,
    reachable: bool,
    observable: bool)     // the browser would have shown us the request

  datatype Decision =
    | Ignored | KeptAsFile | KeptAsPost | Unconfigured | Unreachable | RequestUnknown | Paused

  /** `names` says whether a Content-Disposition names one of the file kinds that stay with the browser:
      a fixed piece of code, of which nothing is assumed. */
  function StaysInBrowser(at: Situation, names: string -> bool, captured: Option<Request>): Option<Kept> {
    if at.itemIsFile then Some(File)
    else if captured.Some? && captured.value.disposition.Some? && names(captured.value.disposition.value)
    then Some(File)
    else if captured.Some? && IsPost(captured.value) then Some(Post)
    else None
  }

  function Decide(at: Situation, names: string -> bool, captured: Option<Request>): Decision {
    if !at.intercept then Ignored
    else match StaysInBrowser(at, names, captured)
      case Some(File) => KeptAsFile
      case Some(Post) => KeptAsPost
      case None =>
        if !at.hasToken then Unconfigured
        else if !at.reachable then Unreachable
        else if captured.None? && at.observable then RequestUnknown
        else Paused
  }

  /** A download whose own traits decide nothing. */
  const PLAIN := Situation(true, false, true, true, false)

  /** The same where the request could have been observed. */
  const WATCHED := PLAIN.(observable := true)

  // ---- the whole decision ----

  /** Asked at or after the last event about any download, ring and log lead to one decision. */
  ghost predicate DecideAlike(names: string -> bool, h: seq<Event>, k: nat)
    requires k <= |h|
  {
    forall at, urls, now: int | NotBefore(h, k, now) ::
      Decide(at, names, Correlated(Ring(h, k), urls, now)) == Decide(at, names, Correlated(Log(h, k), urls, now))
  }

  ghost predicate AlwaysDecideAlike(names: string -> bool, h: seq<Event>) {
    forall k :: 0 <= k <= |h| ==> DecideAlike(names, h, k)
  }

  lemma {:induction false} FoundOrNot(names: string -> bool, r: Request)
    ensures Decide(WATCHED, names, Some(r)) != RequestUnknown == Decide(WATCHED, names, None)
  {
  }

  lemma {:induction false} NotDecidedAlike(names: string -> bool, h: seq<Event>, k: nat, urls: set<string>, now: int)
    requires k <= |h| && NotBefore(h, k, now)
    requires Decide(WATCHED, names, Correlated(Ring(h, k), urls, now))
          != Decide(WATCHED, names, Correlated(Log(h, k), urls, now))
    ensures !AlwaysDecideAlike(names, h)
  {
    assert !DecideAlike(names, h, k);
  }

  lemma {:induction false} LossChangesDecision(names: string -> bool, h: seq<Event>, k: nat)
    requires Monotone(h) && k < |h| && !ExpiredAt(h, k) && ExpiredBefore(h, k)
    ensures !AlwaysDecideAlike(names, h)
  {
    var now := h[k].stamp;
    var url := LossIsSeen(h, k);
    FoundOrNot(names, Correlated(Log(h, k + 1), {url}, now).value);
    NotDecidedAlike(names, h, k + 1, {url}, now);
  }

  lemma {:induction false} ExpiredDecidesAlike(names: string -> bool, h: seq<Event>)
    requires Monotone(h) && AlwaysExpired(h)
    ensures AlwaysDecideAlike(names, h)
  {
    ExpiredIsEnough(h);
    forall k | 0 <= k <= |h| ensures DecideAlike(names, h, k) {
      assert FindAlike(h, k);
    }
  }

  /** What is done with a download is what would be done with all requests remembered, after every
      event and for every download, if and only if every entry that leaves the ring is past its window:
      whatever file names the code keeps. */
  lemma {:induction false} DecisionIsExact(names: string -> bool, h: seq<Event>)
    requires Monotone(h)
    ensures AlwaysDecideAlike(names, h) <==> AlwaysExpired(h)
  {
    if AlwaysExpired(h) {
      ExpiredDecidesAlike(names, h);
    } else {
      var k := FirstLoss(h);
      LossChangesDecision(names, h, k);
    }
  }

  // ---- why a download stays ----

  /** What `staysInBrowser` answers depends on no more than what the request shows. */
  function Verdict(at: Situation, shown: Traits): Option<Kept> {
    if at.itemIsFile || shown.file then Some(File) else if shown.post then Some(Post) else None
  }

  lemma {:induction false} VerdictOfShown(at: Situation, names: string -> bool, s: seq<Request>, urls: set<string>,
                                          now: int)
    ensures StaysInBrowser(at, names, Correlated(s, urls, now)) == Verdict(at, Captured(Either(names), s, urls, now))
    ensures StaysInBrowser(at, names, Correlated(s, urls, now)) == Some(File)
       <==> at.itemIsFile || Captured(Filed(names), s, urls, now) != NOTHING
    ensures CapturedPost(s, urls, now) <==> Captured(Posted, s, urls, now) != NOTHING
  {
  }

  /** Asked at or after the last event about any download with one address, ring and log agree whether
      what was answered names a file that stays. */
  ghost predicate FileAlike(names: string -> bool, h: seq<Event>, k: nat)
    requires k <= |h|
  {
    forall at, url, now: int | NotBefore(h, k, now) ::
      StaysInBrowser(at, names, Correlated(Ring(h, k), {url}, now)) == Some(File)
      <==> StaysInBrowser(at, names, Correlated(Log(h, k), {url}, now)) == Some(File)
  }

  /** On one address, a fact that only files show is agreed on exactly when its presence is. */
  lemma {:induction false} FileAlikeIsAgree(names: string -> bool, h: seq<Event>, k: nat)
    requires k <= |h|
    ensures FileAlike(names, h, k) <==> Agree(Filed(names), h, k)
  {
    var f := Filed(names);
    if FileAlike(names, h, k) {
      forall url, now: int | NotBefore(h, k, now)
        ensures Captured(f, Ring(h, k), {url}, now) == Captured(f, Log(h, k), {url}, now)
      {
        VerdictOfShown(PLAIN, names, Ring(h, k), {url}, now);
        VerdictOfShown(PLAIN, names, Log(h, k), {url}, now);
        assert StaysInBrowser(PLAIN, names, Correlated(Ring(h, k), {url}, now)) == Some(File)
          <==> StaysInBrowser(PLAIN, names, Correlated(Log(h, k), {url}, now)) == Some(File);
      }
    }
    if Agree(f, h, k) {
      forall at, url, now: int | NotBefore(h, k, now)
        ensures StaysInBrowser(at, names, Correlated(Ring(h, k), {url}, now)) == Some(File)
           <==> StaysInBrowser(at, names, Correlated(Log(h, k), {url}, now)) == Some(File)
      {
        VerdictOfShown(at, names, Ring(h, k), {url}, now);
        VerdictOfShown(at, names, Log(h, k), {url}, now);
      }
    }
  }

  /** The verdict 'file' is the log's, after every event and for every download with one address, if
      and only if no entry leaves the ring inside its window whose Content-Disposition names a file that
      stays: for the very names the code keeps. */
  lemma {:induction false} FileVerdictIsExact(names: string -> bool, h: seq<Event>)
    requires Monotone(h)
    ensures (forall k :: 0 <= k <= |h| ==> FileAlike(names, h, k)) <==> AlwaysHarmless(Filed(names), h)
  {
    RingVerdictIsExact(Filed(names), h);
    forall k | 0 <= k <= |h| ensures FileAlike(names, h, k) <==> Agree(Filed(names), h, k) {
      FileAlikeIsAgree(names, h, k);
    }
  }

  /** Asked about any download, redirected or not, ring and log give one reason to stay, or none. */
  ghost predicate StayAlike(names: string -> bool, h: seq<Event>, k: nat)
    requires k <= |h|
  {
    forall at, urls, now: int | NotBefore(h, k, now) && Untied(Log(h, k), urls, now) ::
      StaysInBrowser(at, names, Correlated(Ring(h, k), urls, now))
      == StaysInBrowser(at, names, Correlated(Log(h, k), urls, now))
  }

  lemma {:induction false} AgreeStaysAlike(names: string -> bool, h: seq<Event>, k: nat)
    requires k <= |h| && AgreeOnAll(Either(names), h, k)
    ensures StayAlike(names, h, k)
  {
    forall at, urls, now: int | NotBefore(h, k, now) && Untied(Log(h, k), urls, now)
      ensures StaysInBrowser(at, names, Correlated(Ring(h, k), urls, now))
           == StaysInBrowser(at, names, Correlated(Log(h, k), urls, now))
    {
      VerdictOfShown(at, names, Ring(h, k), urls, now);
      VerdictOfShown(at, names, Log(h, k), urls, now);
    }
  }

  lemma {:induction false} StayAlikeShowsAlike(names: string -> bool, h: seq<Event>, k: nat)
    requires k <= |h| && StayAlike(names, h, k)
    ensures AlikeOnTwo(Either(names), h, k)
  {
    var f := Either(names);
    forall a, b, now: int | NotBefore(h, k, now) && Untied(Log(h, k), {a, b}, now)
      ensures Captured(f, Ring(h, k), {a, b}, now) == NOTHING <==> Captured(f, Log(h, k), {a, b}, now) == NOTHING
    {
      VerdictOfShown(PLAIN, names, Ring(h, k), {a, b}, now);
      VerdictOfShown(PLAIN, names, Log(h, k), {a, b}, now);
      assert StaysInBrowser(PLAIN, names, Correlated(Ring(h, k), {a, b}, now))
          == StaysInBrowser(PLAIN, names, Correlated(Log(h, k), {a, b}, now));
    }
  }

  ghost predicate AlwaysStayAlike(names: string -> bool, h: seq<Event>) {
    forall k :: 0 <= k <= |h| ==> StayAlike(names, h, k)
  }

  /** Why a download stays, if it does, is what the log says, for every untied download after every
      event, if and only if every entry that leaves is past its window, or is neither a POST nor an
      answer that names such a file and is no newer than any of these in the window. */
  lemma {:induction false} StayIsExact(names: string -> bool, h: seq<Event>)
    requires Monotone(h)
    ensures AlwaysStayAlike(names, h) <==> AlwaysMayLeave(Either(names), h)
  {
    RedirectVerdictIsExact(Either(names), h);
    if AlwaysMayLeave(Either(names), h) {
      forall k | 0 <= k <= |h| ensures StayAlike(names, h, k) {
        AgreeStaysAlike(names, h, k);
      }
    }
    if AlwaysStayAlike(names, h) {
      forall k | 0 <= k <= |h| ensures AlikeOnTwo(Either(names), h, k) {
        StayAlikeShowsAlike(names, h, k);
      }
    }
  }

  // ---- the verdict 'post' ----

  /** Asked about any download, redirected or not, ring and log agree whether a POST was observed. */
  ghost predicate PostAlike(h: seq<Event>, k: nat)
    requires k <= |h|
  {
    forall urls, now: int | NotBefore(h, k, now) && Untied(Log(h, k), urls, now) ::
      CapturedPost(Ring(h, k), urls, now) == CapturedPost(Log(h, k), urls, now)
  }

  lemma {:induction false} PostAlikeIsAgree(h: seq<Event>, k: nat)
    requires k <= |h|
    ensures AgreeOnAll(Posted, h, k) <==> PostAlike(h, k)
  {
    forall urls, now: int
      ensures CapturedPost(Ring(h, k), urls, now) == CapturedPost(Log(h, k), urls, now)
         <==> Captured(Posted, Ring(h, k), urls, now) == Captured(Posted, Log(h, k), urls, now)
    {
    }
  }

  /** Whether a POST was observed for a download, redirected or not, is what the log says after every
      event, for every question that is not tied, if and only if every entry that leaves is past its
      window, or is no POST and no newer than any POST in the window. */
  lemma {:induction false} PostVerdictIsExact(h: seq<Event>)
    requires Monotone(h)
    ensures (forall k :: 0 <= k <= |h| ==> PostAlike(h, k)) <==> AlwaysMayLeave(Posted, h)
  {
    RedirectVerdictIsExact(Posted, h);
    forall k | 0 <= k <= |h| ensures AgreeOnAll(Posted, h, k) <==> PostAlike(h, k) {
      PostAlikeIsAgree(h, k);
    }
  }

  /** No download is paused that the log knows as a POST. */
  ghost predicate PausesNoPost(names: string -> bool, h: seq<Event>, k: nat)
    requires k <= |h|
  {
    forall at, urls, now: int | NotBefore(h, k, now) && Untied(Log(h, k), urls, now) ::
      Decide(at, names, Correlated(Ring(h, k), urls, now)) == Paused ==> !CapturedPost(Log(h, k), urls, now)
  }

  ghost predicate NeverPausesPost(names: string -> bool, h: seq<Event>) {
    forall k :: 0 <= k <= |h| ==> PausesNoPost(names, h, k)
  }

  lemma {:induction false} HarmlessPausesNoPost(names: string -> bool, h: seq<Event>)
    requires Monotone(h) && AlwaysHarmless(Posted, h)
    ensures NeverPausesPost(names, h)
  {
    OverlookingIsExact(Posted, h);
    forall k | 0 <= k <= |h| ensures PausesNoPost(names, h, k) {
      assert OverlooksNothing(Posted, h, k);
      forall at, urls, now: int | NotBefore(h, k, now) && Untied(Log(h, k), urls, now)
                                  && Decide(at, names, Correlated(Ring(h, k), urls, now)) == Paused
        ensures !CapturedPost(Log(h, k), urls, now)
      {
        CapturedPosted(Ring(h, k), urls, now);
        CapturedPosted(Log(h, k), urls, now);
      }
    }
  }

  lemma {:induction false} PausesPost(names: string -> bool, h: seq<Event>, k: nat, urls: set<string>, now: int)
    requires k <= |h| && NotBefore(h, k, now) && Untied(Log(h, k), urls, now) && CapturedPost(Log(h, k), urls, now)
    requires Decide(PLAIN, names, Correlated(Ring(h, k), urls, now)) == Paused
    ensures !NeverPausesPost(names, h)
  {
    assert !PausesNoPost(names, h, k);
  }

  lemma {:induction false} HarmPausesPost(names: string -> bool, h: seq<Event>, k: nat)
    requires Monotone(h) && k < |h| && !HarmlessAt(Posted, h, k) && HarmlessBefore(Posted, h, k)
    ensures !NeverPausesPost(names, h)
  {
    var now := h[k].stamp;
    var url := LossDisagrees(Posted, h, k);
    LogIsSpaced(h, k + 1, now);
    AloneIsUntied(Log(h, k + 1), url, now);
    CapturedPosted(Log(h, k + 1), {url}, now);
    PausesPost(names, h, k + 1, {url}, now);
  }

  /** No download is ever paused whose newest request was a POST, redirected or not, if and only if no
      POST leaves the ring inside its window. */
  lemma {:induction false} PausedWasNoPost(names: string -> bool, h: seq<Event>)
    requires Monotone(h)
    ensures NeverPausesPost(names, h) <==> AlwaysHarmless(Posted, h)
  {
    if AlwaysHarmless(Posted, h) {
      HarmlessPausesNoPost(names, h);
    } else {
      var k := FirstHarm(Posted, h);
      HarmPausesPost(names, h, k);
    }
  }

  /** What makes the verdict the log's for one download: nothing was lost, nothing that matters and no
      tie, or one address and no POST lost. */
  ghost predicate PostIsKept(h: seq<Event>, urls: set<string>, now: int) {
    || AlwaysExpired(h)
    || (AlwaysMayLeave(Posted, h) && Untied(Log(h, |h|), urls, now))
    || (AlwaysHarmless(Posted, h) && exists url :: urls == {url})
  }

  lemma {:induction false} PostVerdictAgrees(h: seq<Event>, urls: set<string>, now: int)
    requires Monotone(h) && NotBefore(h, |h|, now) && PostIsKept(h, urls, now)
    ensures CapturedPost(Ring(h, |h|), urls, now) == CapturedPost(Log(h, |h|), urls, now)
  {
    if AlwaysExpired(h) {
      ExpiredIsEnough(h);
      assert FindAlike(h, |h|);
    } else if AlwaysMayLeave(Posted, h) && Untied(Log(h, |h|), urls, now) {
      MayLeaveCovers(Posted, h, |h|, now);
      CoversAgree(Posted, Ring(h, |h|), Log(h, |h|), urls, now);
    } else {
      var url :| urls == {url};
      HarmlessAgrees(Posted, h, |h|);
    }
  }

  /** One download: what is paused was no POST, and what is kept as a POST was one. */
  lemma {:induction false} KeptAsPostWasPost(names: string -> bool, h: seq<Event>, urls: set<string>, now: int,
                                             at: Situation)
    requires Monotone(h) && NotBefore(h, |h|, now) && PostIsKept(h, urls, now)
    ensures var decision := Decide(at, names, Correlated(Ring(h, |h|), urls, now));
            && (decision == Paused ==> !CapturedPost(Log(h, |h|), urls, now))
            && (decision == KeptAsPost ==> CapturedPost(Log(h, |h|), urls, now))
  {
    PostVerdictAgrees(h, urls, now);
  }
}
