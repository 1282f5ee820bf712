# A verified model of the hand-off, the captcha grants, the lock scope and the codecs

This project models seven small parts of the repository in which state, interleaving or arithmetic
carries the argument, and proves what they promise over all inputs, histories and interleavings.
`dafny verify dfyconfig.toml` checks it.

**Download hand-off** (`RequestRing`, `RingVerdict`, `RingRedirect`, `RingRequest`, `Interception`,
`RingLosses`, `HandOff`, `HandOffRuns`, `Listeners`). The extension watches requests in a ring of
fifty entries, decides from it whether a download may leave the browser, pauses it, submits it, and
then cancels the browser's copy or gives it back, while the person may interrupt at any await. The
ring is compared with a log that never forgets. Asked about any one address at any time, the two
agree about an observed POST, or a file that stays, after every event if and only if no eviction
drops such an entry inside its window. Asked about several addresses, as after a redirect, an entry
that shows neither must not be newer than one that does either; and they find the same request, and
so lead to the same decision, if and only if every entry that leaves is past its window. The
hand-off is a state machine with one step for each stretch between awaits: every paused download
comes to rest within thirteen steps of its own with exactly one of three outcomes. It was handed
over, given back to the browser, or, exactly where the browser refuses both the resume and the
download started afresh, lost; one that was taken back is never cancelled, and which answer or click
came first decides. `Listeners` has the handlers as they are written, with entry objects that stay
referenced after the map has lost them, and a method for every kind of step of that machine.

**Captcha session** (`MutationQueue`, `PromiseChain`, `CaptchaTabs`, `CaptchaRuns`, `CaptchaSession`,
`CaptchaLeaks`). Overlapping read-modify-write calls chain behind one another; any interleaving leaves
the store and gives the answers of the calls run one by one in call order, also when the store fails
or a change throws. On top of it a tab entry is handed out once, and in every interleaving an origin
permission is given back only while nothing names the origin. An opening keeps its own record of its
origin exactly as long as no other handler takes it away, which none does while the widget is in
every sweep's waiting list and nobody else touches it. The handlers that let go of tabs are runs of
the same machine, and a permission is left behind exactly by the steps named in `CaptchaLeaks`.

**Response copy** (`ResponseCopy`). Bytes are held back and then given to the browser all or not at
all.

**Lock scope** (`LockGraph`, `LockScope`). A worklist finds exactly the packages a member's build
reaches. For any two trees a member's build is the same if and only if the lock does not name it, its
package stays and nothing it reads changed silently: a package changes so when a dependency becomes or
stops being dev-only, or when it becomes or stops being a member's own, and the locks show neither.

**Text transformations** (`Paths`, `MovedLinks`, `ManifestDefaults`, `ConvertManifest`). Links keep
their target when pages move; a manifest keeps its meaning when the lines that restate defaults go,
and a second run changes nothing.

**Codecs** (`YEnc`, `CookieRows`, `CookieHandover`, `CookieJar`, `Base64Url`). Each is proved against
its reader: yEnc with its framing, the cookie rows from the extension's filter through the service's
check and a Set-Cookie text into the jar, where the last cookie of a path and name wins, and base64url
as a bijection onto its canonical texts.

**Soak fixture** (`SoakFixture`, `TokenBucket`). Any chain of cut and resumed answers leaves a
beginning of the file whose hash is expected, a byte range is answered with what it selects, and the
bucket conserves its tokens.

`Wrappers` and `Strings` hold what the parts share. Code that updates state in place is a class or a
method with loops. Algorithms are proved equal to a specification function, and the theorems are about
that function; handlers are proved to be steps of a state machine, with one transition for each
stretch between two awaits, and the theorems are about its runs, which are any sequences of steps.

## Where a promise does not hold

Each of these keeps the code as it is, shows an input or a run in which the promise fails, and says
exactly when it holds.

- The ring can lose the verdict `'file'`: only POSTs are kept by rule, so fifty of them push out the
  answer that named a ZIP, and a download the log would leave alone is paused
  (`RingLosses.FileVerdictCanBeLost`). The verdict is the log's for every download with one address
  if and only if no entry is evicted inside its window whose Content-Disposition names a file that
  stays (`Interception.FileVerdictIsExact`).
- For a redirected download the ring can find a POST that was followed by a GET
  (`RingLosses.LaterGetCanBeLost`). Whether a POST was observed is the log's if and only if every
  entry evicted is past its window, or is no POST and no newer than any POST there
  (`Interception.PostVerdictIsExact`; `Interception.StayIsExact` for POSTs and files together). What
  is paused by mistake needs the loss of a POST itself (`Interception.PausedWasNoPost`). All this is
  for questions without a tie; two addresses with one time are answered by the order of the entries,
  which ring and log need not share (`RingLosses.TiesCanDiffer`). Every decision is the log's, ties
  included, if and only if everything evicted is past its window (`Interception.DecisionIsExact`).
- A download that is refused by the service, and that the browser will neither resume nor fetch
  afresh, ends nowhere (`HandOffRuns.RefusedTwiceIsLost`); two refusals are the only way to lose one
  (`HandOffRuns.LostIsRefusedTwice`).
- The lock scope compares locks, so a dependency that merely stops being dev-only in a member
  manifest enters a dependant's build unseen (`LockScope.KindChangeIsNotSeen`), and so does a second
  local package of a member's name that leaves (`LockScope.OwnPackageChangeIsNotSeen`). With one lock
  on both sides nobody is named, which is right if and only if the manifests leave every member the
  same build edges (`LockScope.OneLockIsExact`); for any two trees the condition is
  `LockScope.ScopeIsExact`'s.
- `posixpath.relpath` takes the process's working directory for the root. The description in
  scripts/lib/archive-jobs.py promises every relative link; targets inside the repository always
  keep that promise, and all targets do if and only if the script runs in the repository root
  (`MovedLinks.LinksAreExact`).
- A poll that sweeps a grant while its tab is being created gives the permission back, and the tab's
  entry then names an origin that is no longer held (`CaptchaRuns.SweptOpeningLosesPermission`). An
  opening's record is there in every state if and only if no step takes it away
  (`CaptchaRuns.RecordIsExact`), and none does while the widget is waited for and left alone
  (`CaptchaRuns.WaitedForIsKept`).
- A permission is not always released: a tab that is closed between its record and the end of its
  grant leaves its permission behind (`CaptchaLeaks.ClosedBeforeDropLeaks`), as can a tab found dead
  or one that reports for another captcha. `CaptchaLeaks.LeaksAreExact` has the condition.
- The service counts every cookie handed over, and the jar stores all of them for one host: cookies
  of equal path and name replace each other, whatever domains they had (`CookieJar.TwoCountedOneKept`,
  `CookieJar.HostAndDomainAbove`). There is one for each if and only if no two share path and name
  (`CookieJar.HandedOverIsStored`), and each is the one handed over if and only if no field of it reads
  as something else in a Set-Cookie text (`CookieJar.ArrivesIfPlain`). One that does can take the
  place of another (`CookieJar.NotPlainDisplaces`, `CookieJar.HandedOverArrives`).
- The extension keeps a trailing dot of a scope's host and the service drops it; this is the only
  case in which they disagree (`CookieHandover.ScopesAgreeUnlessDotted`).
- A suffix range of an empty file is answered with an empty part instead of status 416
  (`SoakFixture.RangeIsExact`).
- A call that asks the bucket for more than its rate never returns (`TokenBucket.ReturnsExactly`), so
  a fixture slower than 64 KiB a second hangs at its first full chunk.

## Model

| member | source | states |
|---|---|---|
| RequestRing.Buffer.Remember | extension/src/downloads.js:110-128 | the buffer becomes the ring after one more event: the newest entry of the address within the window is merged in place, else an entry is added and the overflow evicted |
| RequestRing.Buffer.Evict | extension/src/downloads.js:138-143 | until fifty are left the first entry that is no POST goes, or else the first, and the others keep their order |
| RequestRing.CorrelateRequest | extension/src/intercept.js:210-219 | the loop finds the first of the newest entries that match an address of the download within the window, or none |
| RingVerdict.RecordedTracks | extension/src/downloads.js:110-126 | the coupling of ring and log about what requests show, a POST, a file that stays or either (spaced stamps per address, every entry in the window that shows something in both, none the log lacks), survives every event |
| RingVerdict.WithoutTracks | extension/src/downloads.js:138-143 | it survives every eviction that loses no such entry inside its window |
| RingVerdict.HarmlessAgrees | extension/src/downloads.js:110-143 | while none is lost, ring and log show the same for every address at every later time |
| RingVerdict.LossDisagrees | extension/src/downloads.js:138-143 | the first loss shows at once: at its address the log still shows it and the ring finds nothing |
| RingVerdict.RingVerdictIsExact | extension/src/downloads.js:110-143 | over every history with a non-decreasing clock, for POSTs, for any fixed kind of file and for either: agreement on every address after every event if and only if no entry that shows one leaves inside its window |
| RingRedirect.RecordedCovers | extension/src/downloads.js:110-126 | the coupling for several addresses (what the ring lost and shows nothing is no newer than what it holds and shows something) survives every event |
| RingRedirect.RedirectVerdictIsExact | extension/src/intercept.js:210-219 | for questions about any number of addresses that are not tied: agreement after every event if and only if every entry that leaves is past its window, or shows nothing and is no newer than anything in the window that shows something; two addresses are enough to tell |
| RingRedirect.OverlookingIsExact | extension/src/intercept.js:210-219 | what the log shows for any untied addresses is never overlooked if and only if no entry that shows something leaves inside its window |
| RingRedirect.ApartIsUntied | extension/src/intercept.js:210-219 | where events of different addresses come at different times no question is tied |
| RingVerdict.HarmlessPost | extension/src/downloads.js:138-143 | for POSTs an eviction is harmless if and only if the ring holds anything but POSTs or its oldest entry is past its window |
| RingRequest.RingRequestIsExact | extension/src/downloads.js:110-143 | ring and log find the same request for every set of addresses after every event if and only if every entry evicted is past its window |
| RingRequest.RecentCommutes | extension/src/downloads.js:110-126 | recording an event and forgetting what is past its window can be done in either order |
| Interception.DecisionIsExact | extension/src/downloads.js:277-314 | pause or not, and why not, is what it would be with all requests remembered, for every download after every event and whatever names the code keeps, if and only if every entry evicted is past its window |
| Interception.FileVerdictIsExact | extension/src/intercept.js:201-207 | for the very names the code keeps: the verdict 'file' is the log's for every download with one address after every event if and only if no entry whose Content-Disposition has such a name is evicted inside its window |
| Interception.StayIsExact | extension/src/intercept.js:201-219 | the whole answer of staysInBrowser is the log's for every untied download, redirected or not, if and only if every entry evicted is past its window, or is neither POST nor such a file and no newer than any of these in the window |
| Interception.PostVerdictIsExact | extension/src/intercept.js:206-219 | whether a POST was observed is the log's for every untied download, redirected or not, if and only if every entry evicted is past its window, or is no POST and no newer than any POST in the window |
| Interception.PausedWasNoPost | extension/src/downloads.js:277-314 | no untied download is ever paused that the log knows as a POST, redirected or not, if and only if no POST is evicted inside its window |
| Interception.KeptAsPostWasPost | extension/src/downloads.js:277-285 | for one download: what is paused was no POST and what is kept as one was, when nothing was lost, when nothing was lost that matters and the question is not tied, or for one address when no POST was |
| RingLosses.FileVerdictCanBeLost | extension/src/downloads.js:138-143 | every history of a file's answer and fifty POSTs after it ends with a download the log leaves with the browser and the ring lets be paused |
| RingLosses.LaterGetCanBeLost | extension/src/intercept.js:210-219 | every history of a POST, a later GET and a flood of POSTs ends with the ring finding a POST for two addresses where the log finds the GET |
| RingLosses.TiesCanDiffer | extension/src/intercept.js:210-219 | every history of that shape ends with ring and log disagreeing on two addresses with one time although every entry that left may leave |
| RingLosses.FloodsExist | extension/src/downloads.js:110-143 | there are histories of all three shapes |
| HandOff.MoveIsConsistent | extension/src/downloads.js:227-275 | every step keeps each hand-off consistent: its state fixes who works on it, whether it is listed, and which browser calls were made in which order |
| HandOff.StepKeepsInv | extension/src/downloads.js:320-364 | every step of every interleaving keeps all hand-offs consistent and every live notification tied to one unclicked hand-off |
| HandOffRuns.TerminalIsAbsorbing | extension/src/downloads.js:243-275 | once handed off, resumed or kept, a download stays so in every continuation |
| HandOffRuns.TakenBackIsNeverCancelled | extension/src/downloads.js:244-246 | a late success never cancels a download that was taken back |
| HandOffRuns.CancelledWasAccepted | extension/src/downloads.js:247-251 | only an accepted submit leads to a cancel, and a cancelled download is never resumed or fetched again |
| HandOffRuns.RestIsOneOutcome | extension/src/downloads.js:227-275 | a hand-off nobody works on any more has exactly one outcome: accepted, cancelled and erased; resumed, or fetched afresh with the old row erased; or lost |
| HandOffRuns.LostIsRefusedTwice | extension/src/downloads.js:227-241 | a download that was taken back is lost if and only if the browser refused the resume and then the fresh download |
| HandOffRuns.RefusedTwiceIsLost | extension/src/downloads.js:236-240 | a concrete run that ends so |
| HandOffRuns.FirstEventDecides | extension/src/downloads.js:243-271 | a download at rest is with the service, resumed or kept by the person if and only if the first of these came first: an accepting answer to the submit, a refusing one, or a click that found it listed and has cleared its notice |
| HandOffRuns.MoveWorks | extension/src/downloads.js:320-364 | every step on a hand-off uses up some of its remaining work |
| HandOffRuns.HandOffIsBounded | extension/src/downloads.js:313-364 | no run takes more than thirteen steps on one download |
| HandOffRuns.NotAtRestCanMove | extension/src/downloads.js:313-364 | a hand-off that is not at rest always has a step to take |
| Listeners.Interceptor.OnPaused | extension/src/downloads.js:320-322 | a successful pause makes a new entry object and is the machine's step |
| Listeners.Interceptor.OnShown | extension/src/downloads.js:323-329 | with the notice recorded in the entry, only an entry still paused is submitted; together the machine's step |
| Listeners.Interceptor.Finish | extension/src/downloads.js:243-263 | on the entry the call has held all along, listed or not: an answer that comes late makes no call and leaves the map, any other is the machine's cancel or resume |
| Listeners.Interceptor.OnCancelled | extension/src/downloads.js:247-258 | after the cancel, answered or refused, the row is erased |
| Listeners.Interceptor.OnReturned | extension/src/downloads.js:227-241 | each answer inside giveBack makes the machine's next call: fetch after a failed resume, erase after a fetch |
| Listeners.Interceptor.OnErased | extension/src/downloads.js:256-261 | after the erase the notice goes, found through the entry although the map has lost it |
| Listeners.Interceptor.KeepInBrowser | extension/src/downloads.js:354-358 | a click finds its download once, takes the notice down at once, and holds the entry the map had then |
| Listeners.Interceptor.OnKeepCleared | extension/src/downloads.js:359-363 | after the await the state is read through the entry held, which the map may have lost, and only a paused or submitting one is kept |
| Listeners.Interceptor.OnKeepReturned | extension/src/downloads.js:227-241 | giveBack for a kept download goes on the same way beside the listener of its submit |
| MutationQueue.StepKeepsInv | extension/src/captcha-state.js:66-76 | whichever call the scheduler moves, exactly one call is at work, those before it are settled as in the sequential order and those after it wait |
| MutationQueue.OverlappingCallsAreSequential | extension/src/captcha-state.js:66-76 | on a store that does not fail, any overlapping calls leave the store and the answers of the changes applied one after another in call order, and a throw changes nothing |
| MutationQueue.FailingStoreIsSequentialToo | extension/src/captcha-state.js:39-54 | the same with failing reads and writes: the fallback for a failed read, no change for a failed write |
| MutationQueue.OpenCallCanMove | extension/src/captcha-state.js:74-75 | a settled or throwing call blocks nobody: the first open call can always move |
| PromiseChain.CaptchaState.Call | extension/src/captcha-state.js:66-75 | a call waits for the promise it finds and leaves its own for the next, which is the queue's step |
| PromiseChain.CaptchaState.TurnIsItsPromise | extension/src/captcha-state.js:74-75 | the queue lets a waiting call start if and only if the promise it waits for is settled |
| PromiseChain.CaptchaState.OnRead | extension/src/captcha-state.js:68-70 | the change is applied to the stored value, or to the fallback, with nothing in between, and a throw settles the call's promise |
| PromiseChain.CaptchaState.OnWritten | extension/src/captcha-state.js:70-75 | the answer of the write, whatever it is, settles the call's promise and is the queue's step |
| CaptchaTabs.ForgetHandsOutOnce | extension/src/captcha-tabs.js:45-52 | of any number of handlers that forget one tab at once, no second one is handed its entry unless the tab was recorded again |
| CaptchaTabs.TabSwept | extension/src/captcha.js:125-129 | forgetting one tab can leave only that tab's own origin unnamed, so releasing entry by entry misses none |
| CaptchaSession.Session.Release | extension/src/captcha-tabs.js:15-27 | from every reachable state an origin is given back exactly when it is not empty and no tab entry and no grant names it, as one step of the machine |
| CaptchaSession.Session.OnReport | extension/src/captcha.js:289-297 | a reporting tab is forgotten in any case, and heard and released only if it was opened for this captcha |
| CaptchaSession.Session.OnTabRemoved | extension/src/captcha.js:343-354 | a closed tab is forgotten, and its origin given back if nothing else names it |
| CaptchaSession.Session.DeclineTabs | extension/src/captcha.js:364-369 | the loop lets go of exactly the tabs of the widget and of exactly the permissions that lose their last name |
| CaptchaSession.Session.Sweep | extension/src/captcha.js:123-143 | an uninterrupted poll is a run of the machine after which the stale tabs and grants are gone, the waiting ones untouched, and exactly the permissions whose origin lost its last name given back |
| CaptchaRuns.StepKeepsInv | extension/src/captcha.js:191-219 | in every interleaving a tab on its way into the map is known to nobody else, and the entry of a tab is the one its opening and the poll knew |
| CaptchaRuns.StepKeepsRecord | extension/src/captcha.js:209-216 | a step leaves an opening's own record in place if and only if it is no drop of its grant, no announcement with another origin and no forgetting of its tab by another handler, and finds no tab with another origin |
| CaptchaRuns.RecordIsExact | extension/src/captcha.js:191-219 | from its grant to its tab entry and beyond the record is there in every state if and only if no step of the stretch takes it away |
| CaptchaRuns.OpeningStaysNamed | extension/src/captcha.js:209-216 | an opening that loses nothing has its origin named in every state, and a permission held at its start is never given back |
| CaptchaRuns.WaitedForIsKept | extension/src/captcha.js:123-143 | while the widget is in the waiting list of every sweep, nobody answers, closes, declines or withdraws it, and no other click opens it, the record and the permission are kept |
| CaptchaRuns.OpeningIsTracked | extension/src/captcha.js:191-219 | an opening keeps its widget and its origin through a run |
| CaptchaRuns.NamedStaysHeld | extension/src/captcha-tabs.js:15-27 | in every stretch of every run a permission held at the start is held at the end unless some release of it found no tab entry and no grant that names its origin |
| CaptchaRuns.SweptOpeningLosesPermission | extension/src/captcha.js:139-143 | a concrete run in which the sweep releases the origin of a tab that is just being opened |
| CaptchaLeaks.LeaksAreExact | extension/src/captcha.js:10-11 | each permission is named or about to be released in every state of a stretch if and only if no step grants it unannounced or takes its last name without owing a release |
| CaptchaLeaks.WhoDropsLastName | extension/src/captcha.js:191-219 | only six kinds of step can take a last name so, each under the condition that makes it one |
| CaptchaLeaks.ClosedBeforeDropLeaks | extension/src/captcha.js:212-216 | a tab closed between its record and the drop of its grant leaves its permission behind in every state of that kind |
| CaptchaLeaks.AboutToDropHappens | extension/src/captcha.js:191-216 | a run from the start that reaches such a state |
| ResponseCopy.EventsConserve | extension/src/files.js:289-336 | after every sequence of events the response is what the browser has followed by what is held back, nothing lost, doubled or reordered |
| ResponseCopy.AllOrNothing | extension/src/files.js:317-336 | in the end the browser has the whole response or nothing, nothing exactly when the service accepted, and the service was sent the whole response |
| ResponseCopy.HeldBackIsBounded | extension/src/files.js:297-302 | between events at most the limit is held back |
| ResponseCopy.FirstSettlingWins | extension/src/files.js:246-250 | the copy is settled with an outcome if and only if some event asked for it before any event asked for another |
| ResponseCopy.ToldIsTrue | extension/src/files.js:317-336 | a download told it was handed over has all its bytes at the service and none in the browser; one told it was kept has them all in the browser |
| ResponseCopy.Capture.OnData | extension/src/files.js:292-305 | a chunk is held back, or with everything held back before it given to the browser once the limit is passed |
| ResponseCopy.Capture.OnAnswer | extension/src/files.js:317-336 | the answer closes the copy without a byte or writes every held-back chunk in order |
| LockGraph.Worklist | scripts/lib/lock-scope.py:125-135 | the loop stops on every finite graph, cyclic or not, with a closed set inside every closed set |
| LockGraph.ComputeClosure | scripts/lib/lock-scope.py:125-135 | its result is exactly the packages on paths that take every edge of the start and only build edges elsewhere |
| LockGraph.ClosureIsClosed | scripts/lib/lock-scope.py:129-134 | the packages reached by paths are closed under the followed edges |
| LockGraph.ClosedHoldsClosure | scripts/lib/lock-scope.py:129-134 | every closed set holds them, so they are the least one |
| LockGraph.ResolveIsUnique | scripts/lib/lock-scope.py:138-148 | a dependency string resolves to a package if and only if that is the only package of the lock it matches |
| LockScope.UnnamedIsUnaffected | scripts/lib/lock-scope.py:182-218 | where the manifests declare the same kinds and the locks agree on the members' packages: no reason from the lock if and only if closure, checksums and build edges are the same |
| LockScope.UnaffectedIsUnnamed | scripts/lib/lock-scope.py:182-218 | for any two trees a member whose build is the same is given no reason |
| LockScope.ScopeIsExact | scripts/lib/lock-scope.py:182-218 | for any two trees the build is the same if and only if there is no reason, the member's package is the same one and nothing it reads changed silently |
| LockScope.SilentIsKinds | scripts/lib/lock-scope.py:118-123 | a member's package changes silently if and only if some dependency is dev-only on one side alone |
| LockScope.NamedIffAffected | scripts/lib/lock-scope.py:170-218 | the same with the shared dependencies, for any two trees |
| LockScope.Scope | scripts/lib/lock-scope.py:170-218 | the loops answer WIDE exactly for the wide changes, and else a map that holds exactly the affected members, each with all its reasons |
| LockScope.CompareEntries | scripts/lib/lock-scope.py:185-195 | the pass over the common packages sorts each into republished, rewired or dev-only and gives the dev-only ones their own reason |
| LockScope.CausesOfChanged | scripts/lib/lock-scope.py:208-217 | looking only at the changed part of a closure gives the same causes as the whole closure |
| LockScope.OneLocalPackageAgrees | scripts/lib/lock-scope.py:94-96 | locks with one local package to a name satisfy the condition on member packages |
| LockScope.KindChangeIsNotSeen | scripts/lib/lock-scope.py:118-123 | two trees with one lock in which a build changes and nobody is named |
| LockScope.OneLockIsExact | scripts/lib/lock-scope.py:118-123 | with one lock on both sides nobody is named, and all builds are the same if and only if every member's package has the same build edges |
| LockScope.OwnPackageChangeIsNotSeen | scripts/lib/lock-scope.py:94-96 | two trees with the same manifests in which a second local package of a name leaves and a dependant's build changes unnamed |
| Paths.NormWalks | scripts/lib/archive_jobs_links.py:41 | normalising a path does not change where it leads |
| Paths.RelPathFromCwd | scripts/lib/archive_jobs_links.py:47 | relpath leads from the page's directory to the target, seen from the working directory |
| Paths.RelPathInside | scripts/lib/archive_jobs_links.py:47 | for a target below the root it does so from any other root |
| Paths.RelPathIsExact | scripts/lib/archive_jobs_links.py:47 | for all targets it does so if and only if the working directory is that root |
| MovedLinks.MapsAreInverse | scripts/lib/archive_jobs_links.py:22-23 | the maps from old to new places and back undo each other |
| MovedLinks.ExistedIsBefore | scripts/lib/archive_jobs_links.py:25-30 | asked of the tree after the move, `existed` answers for the tree before it |
| MovedLinks.LinksInsideKeepTarget | scripts/lib/archive_jobs_links.py:32-55 | every link whose target lies in the repository leads, from the page's new place, to the new place of that target |
| MovedLinks.LinksAreExact | scripts/lib/archive_jobs_links.py:32-55 | all links of all pages keep their targets if and only if the process runs in the repository root |
| MovedLinks.RewritePage | scripts/lib/archive_jobs_links.py:83-91 | the loop fixes every link outside the code fences and nothing inside them |
| MovedLinks.PageKeepsTargets | scripts/lib/archive_jobs_links.py:73-92 | whatever the tree holds, a page keeps its lines and its code, every link to a place that was there leads to where that place is now, and every other link is left as it is |
| ManifestDefaults.SurvivorsAreExact | scripts/lib/plugin-manifest-defaults.py:83-125 | the lines that stay are, in order, exactly those that have no reason to go, with no blank line first, last or twice in a row |
| ManifestDefaults.SectionIsKept | scripts/lib/plugin-manifest-defaults.py:70-81 | every line that stays belongs to the table it belonged to |
| ManifestDefaults.OthersStay | scripts/lib/plugin-manifest-defaults.py:84-115 | no stated value, no other header and no other line ever goes |
| ManifestDefaults.MeaningIsKept | scripts/lib/plugin-manifest-defaults.py:65-125 | the effective value of every key that a table states at most once is the same before and after, whatever else is repeated |
| ManifestDefaults.SubstanceIsKept | scripts/lib/plugin-manifest-defaults.py:65-125 | for every manifest, arrays of tables included: the values that are no defaults, the headers and the other lines are the same ones in the same order, each in its table |
| ManifestDefaults.ConvertedIsUnique | scripts/lib/plugin-manifest-defaults.py:65-125 | a key a table states at most once is stated at most once afterwards |
| ManifestDefaults.ConvertIsIdempotent | scripts/lib/plugin-manifest-defaults.py:65-125 | converting again changes nothing, the emptied limits table and the removed comments included |
| ConvertManifest.ExplainingComments | scripts/lib/plugin-manifest-defaults.py:92-105 | the loop removes exactly the comments that explain a removed line and introduce no field that stays |
| ConvertManifest.EmptiedLimits | scripts/lib/plugin-manifest-defaults.py:107-115 | the loop removes exactly the limits tables without a field left, with their bodies |
| ConvertManifest.Convert | scripts/lib/plugin-manifest-defaults.py:65-125 | the five loops together compute the converted manifest the theorems are about |
| YEnc.YencLines | scripts/screenshots/nntp_mock.py:54-71 | the loop computes the lines the theorems are about |
| YEnc.RoundTrip | scripts/screenshots/nntp_mock.py:54-71 | decoding the concatenated lines gives the data back, for every data and every line length |
| YEnc.LinesAreGood | scripts/screenshots/nntp_mock.py:54-71 | no escape is cut in two, no line holds NUL, CR or LF, starts with a dot or starts or ends in a blank, and every line but the last has length line or line + 1 |
| YEnc.SentIsReceived | scripts/screenshots/nntp_mock.py:74-77 | splitting at CRLF recovers the lines |
| YEnc.ArticleIsRead | scripts/screenshots/nntp_mock.py:80-93 | a reader of an article gets its lines and from them the data, and the only line that starts with a dot is the terminator (section 3.1.1 of RFC 3977) |
| CookieRows.ToNetscape | extension/src/session.js:55-74 | the loop prints one row for each named cookie, in order |
| CookieRows.CookiesInScope | crates/rd-api-access/src/browser_session_handlers.rs:225-272 | the loop answers the number of rows or the first refusal of any line |
| CookieHandover.DomainIsClean | extension/src/handover.js:84-89 | the domain of a cookie in scope holds no tab, line break or hash sign |
| CookieHandover.RowIsReadBack | crates/rd-api-access/src/browser_session_handlers.rs:230-236 | a printed row is not skipped and is split into the printer's seven fields, empty values and the HttpOnly prefix included |
| CookieHandover.AdmitFollowsScope | crates/rd-http/src/cookies.rs:70-82 | a cookie the extension lets through is admitted by the service unless its domain is a public suffix above the host |
| CookieHandover.ScopesAgreeUnlessDotted | crates/rd-http/src/cookies.rs:36-47 | nothing the extension lets through is outside the service's scope if and only if the host does not end in a dot |
| CookieHandover.HandedOverIsAnswered | crates/rd-api-access/src/browser_session_handlers.rs:225-281 | the whole printed set is answered with the number of named cookies, and refused only for a public suffix or for want of any |
| CookieHandover.HandedOverIsAdded | crates/rd-http/src/cookies.rs:154-180 | the import adds one cookie for each named cookie, in order, with its name, value, path and secure flag |
| CookieJar.ArrivesIfPlain | crates/rd-http/src/cookies.rs:166-173 | a cookie written as a Set-Cookie text is read as itself if and only if it has a name without an equals sign, no semicolon or outer blanks and a path from the root (section 5.2 of RFC 6265) |
| CookieJar.LastOneWins | crates/rd-http/src/cookies.rs:166-173 | the jar holds exactly the last cookie added for every path and name (section 5.3 of RFC 6265) |
| CookieJar.FilledSize | crates/rd-http/src/cookies.rs:166-173 | it holds as many as were added if and only if no two share path and name |
| CookieJar.HandedOverIsStored | crates/rd-http/src/cookies.rs:154-180 | a hand-over of plain cookies fills the jar with the last named cookie of every path and name, one for each named cookie if and only if no two share them |
| CookieJar.HandedOverArrives | crates/rd-http/src/cookies.rs:154-180 | for any hand-over, plain or not: at every place the jar holds exactly what arrived there last, as itself or as what it was taken for |
| CookieJar.NotPlainDisplaces | crates/rd-http/src/cookies.rs:172-173 | a cookie with an equals sign in its name arrives under the name before it and takes the place of a plain one |
| CookieJar.TwoCountedOneKept | crates/rd-http/src/cookies.rs:63-69 | any two cookies in scope with one path and name are counted as two and kept as one |
| CookieJar.HostAndDomainAbove | extension/src/handover.js:84-89 | a host and the domain above it give such cookies, which the extension keeps apart |
| CookieHandover.CheckedIsImported | crates/rd-api-access/src/browser_session_handlers.rs:273-279 | for any content at all: what the check counts is imported as rows, the same number, and the import never fails |
| CookieHandover.Put | extension/src/handover.js:103-108 | a known identity is replaced in its place, a new one goes last, no identity is there twice |
| CookieHandover.ReadScopeCookies | extension/src/handover.js:99-109 | the cookies in scope of both answers, each identity once and as it was answered last |
| Base64Url.Encode | web/src/webauthn.ts:122-127 | the loop over the buffer computes the encoding the theorems are about |
| Base64Url.Decode | web/src/webauthn.ts:113-119 | the filled buffer is the decoding, or there is none where atob throws |
| Base64Url.RoundTrip | web/src/webauthn.ts:113-127 | decoding an encoding gives the bytes back |
| Base64Url.EncodingIsUrlText | web/src/webauthn.ts:122-127 | an encoding has ceil(4n/3) characters of the url alphabet, no plus, slash or equals sign (section 5 of RFC 4648) |
| Base64Url.PaddingIsRestored | web/src/webauthn.ts:113-127 | atob is handed the very string btoa made, so the padding restored is the padding removed (section 3.2 of RFC 4648) |
| Base64Url.UrlTextIsRead | web/src/webauthn.ts:113-119 | a text of the url alphabet is decoded unless its length is one more than a multiple of four |
| Base64Url.CanonicalIsExact | web/src/webauthn.ts:113-127 | encoding what a text decodes to gives the text back if and only if the text is canonical, so encoding is a bijection |
| SoakFixture.ReadContent | scripts/lib/soak_fixture.py:39-47 | the loop over the pool gives the content at every offset and length, across the pool's end |
| SoakFixture.ContentSplits | scripts/lib/soak_fixture.py:39-47 | the content splits at every point |
| SoakFixture.Digested | scripts/lib/soak_fixture.py:50-54 | the pieces hashed are the whole file in order |
| SoakFixture.Send | scripts/lib/soak_fixture.py:236-250 | the chunk loop sends exactly the range, or the beginning of it up to the cut, and counts the whole chunks |
| SoakFixture.RangeIsInBounds | scripts/lib/soak_fixture.py:264-277 | whatever the header says, an answered range lies in the file, and is not empty unless the file is |
| SoakFixture.RangeIsExact | scripts/lib/soak_fixture.py:264-277 | for the three forms of section 14.1.2 of RFC 9110 the answer is exactly the positions selected, and 416 exactly when there are none, but for a suffix of an empty file |
| SoakFixture.TagNamesOneFile | scripts/lib/soak_fixture.py:207-223 | with the tag of another file If-Range is answered with the whole file, with the file's own as if there were none |
| SoakFixture.AttemptKeepsBeginning | scripts/lib/soak_fixture.py:194-250 | whatever is asked for and wherever it is cut, the client still holds a beginning of the file and no less of it |
| SoakFixture.ResumedFileIsTheFile | scripts/lib/soak_fixture.py:39-54 | after any chain of cut and resumed answers, a file of the full size is the file that is hashed |
| SoakFixture.ResumeAdvances | scripts/lib/soak_fixture.py:207-247 | a resume from the end adds exactly what is delivered, and finishes the file when it is not cut |
| TokenBucket.TokensAreConserved | scripts/lib/soak_fixture.py:66-78 | over every run of calls, granted, available and spilled tokens add up to what was there and what flowed in, and the bucket stays between empty and full |
| TokenBucket.NeverAheadOfTheClock | scripts/lib/soak_fixture.py:60-78 | from the start, granted and available together never exceed the rate times the time |
| TokenBucket.WindowIsBounded | scripts/lib/soak_fixture.py:66-78 | in any window of any run at most the rate times its length and one bucket is granted |
| TokenBucket.ReturnsExactly | scripts/lib/soak_fixture.py:69-78 | a lone call returns if and only if it asks for at most the rate, then within five passes |
| TokenBucket.RateLimiter.Pass | scripts/lib/soak_fixture.py:70-77 | one pass under the lock is one try of the bucket, and a refusal names the nap |
| TokenBucket.RateLimiter.Take | scripts/lib/soak_fixture.py:66-78 | for any amount and any number of passes watched: the call returns after the first pass that grants, within five if it asks for at most the rate and never if it asks for more; at once and without change for a rate of zero or less |

## Left out

- HandOffRuns.HandOffIsBounded: counts steps, not time; a submit or a browser call that never answers leaves its hand-off waiting.
- Listeners.Interceptor.OnShown: the browser is taken to give every notification an id of its own, and every paused download an id that is not in use.
- Interception.PostVerdictIsExact: for questions in which no other address has the time of the newest entry; `TiesCanDiffer` shows why, and `DecisionIsExact` has the condition that covers ties.
- Interception.FileVerdictIsExact: content types, file name extensions and header parsing are one predicate and one flag, of which nothing is assumed.
- CaptchaRuns.NamedStaysHeld: a release is one step; its two reads and the removal lie across awaits that are not serialised with the changes.
- CaptchaRuns.RecordIsExact: speaks of openings whose grant was recorded when they began; the popup's announcement before them is the steps Announce, Granted and Withdraw. An opening may have its origin named by others while its own record is gone.
- CaptchaTabs.ForgetHandsOutOnce: for a store that does not fail; a failed write hands the entry out and keeps it, as the queue's theorem about failing stores says.
- CaptchaSession.Session.Sweep: for a sweep no other handler interrupts; interruptions are the runs of CaptchaRuns.
- CaptchaLeaks.LeaksAreExact: releases under way are counted from the steps that owe them; a release the browser refuses counts as done.
- The badge, notifications and announcements of a poll, tab activation and script injection.
- ResponseCopy.AllOrNothing: the browser takes every write; a request it dropped, a filter it lost midway (it then fetches on its own) and the wait with its timeout are not modelled, and a file may be submitted more than once.
- LockScope.ScopeIsExact: for the reasons the lock gives; changed files of a member are the caller's affair.
- LockScope.Scope: reasons are values; the wording of a version change is left out, and the manifests' other tables are opaque parts compared for equality.
- LockGraph.ResolveIsUnique: a dependency string comes split into name, version and source.
- MovedLinks.LinksInsideKeepTarget: paths are segments; percent-encoding, the patterns that find links and plain mentions, and what a link in two patterns undergoes are left out.
- ManifestDefaults.MeaningIsKept: a key stated several times, as elements of an array of tables do, has no one value; `SubstanceIsKept` speaks of those. A value that does not end on its line is opaque and never a default, and its further lines are other lines. Values are compared with one equality, where Python takes 1, 1.0 and true for equal.
- ConvertManifest.Convert: works on classified lines; the patterns, the joining of lines and the reading of the defaults from the sources are left out.
- YEnc.ArticleIsRead: the checksum is a number; message ids and the session of the server are left out.
- CookieHandover.HandedOverIsAnswered: for fields without tabs and line breaks, hosts as an address has them and expiry times the browser prints without an exponent; the public suffix list is a predicate, and letter case is that of ASCII.
- CookieHandover.ReadScopeCookies: a cookie's identity is the triple the source joins with a separator.
- CookieJar.HandedOverIsStored: expiry, matching and the limits of the jar are not modelled, nor what it does with a stored cookie later.
- Base64Url.Encode: `btoa` and `atob` follow their standards and are not code of the repository; the options and answers of a ceremony around the codec are left out.
- SoakFixture.Send: the limiter is taken to return; when it does is `TokenBucket.ReturnsExactly`.
- SoakFixture.ResumedFileIsTheFile: the pool is any byte sequence of its length; that different seeds or a wrong offset change the hash depends on the pool's random bytes and the hash function.
- TokenBucket.TokensAreConserved: time and tokens are real numbers; the rounding of the floating point ones is left out.
- Threads, sockets, outages and statistics of the fixture beyond the cut of a body, files and git of the scripts, and the other handlers of the API crate.
