# A verified model of the COSA agent plane's stateful cores

COSA is an API in front of long-running agents. Most of it maps HTTP requests onto services. This
project models, in Dafny 4.11, the parts that carry state, concurrency or arithmetic of their own,
and proves what they guarantee on every input and in every run:

- **Run event stream** (`DurableLog`, `StreamSession`, `StreamRuns`, `StreamManager`). `emit` stores
  an event and then puts it on the subscribers' queues, and it can be suspended in between. A
  subscriber registers its queue, replays the log, then alternates between queue and log polls,
  dropping by sequence number what it has already sent. `StreamRuns` interleaves any number of
  emitters in this process, writers in other processes and subscribers. `StreamManager` is the
  manager with its in-place queue lists; each of its methods is proved to be one step of that model.
- **Project activity** (`ActivityFeed`). A stream that only polls in pages of 1000, and a paged
  listing that filters after the page is cut.
- **Rate limiter** (`RateLimiter`, `RateLimiterOrder`). Per-key deques with lazy expiry and bulk eviction, against the
  full history of accepted hits. The clock is read before the lock is taken, so the model takes
  readings in any order and says which results need clock order.
- **Desktop worker** (`Expiry`, `ReplayGuard`, `ShellApproval`, `Utf8Truncation`). Two expiring
  dictionaries under a wall clock that may step and, for nonces, under overlapping threads, and
  output truncation on UTF-8 bytes.
- **Org chart** (`ReportingGraph`, `OrgChart`). A forest of nodes linked in place, and the graph
  theory of what is reachable in it when the reporting relation may have cycles.
- **Skill candidates** (`SkillEvaluation`, `SkillLifecycle`, `SkillOverlap`). The evaluation, the
  record that caches its result while it is updated, deprecated and promoted, and the same handlers
  split into read and save and interleaved.
- **Identifiers** (`Bits`, `UuidV7`), **startup checks** (`CapabilityClosure`) and **plan repair**
  (`PlanRepair`).

The results a maintainer may not expect:

- The run stream's deduplication does more than drop duplicates, which is all its comment claims
  (`apps/cosa/api/event_stream.py:265-270`). An event that is stored but not yet delivered is lost
  for good as soon as a later one reaches the subscriber through the queue.
  `StreamRuns.GapFreedomIff` gives the exact condition, `StreamRuns.DisciplinedWriters` two
  disciplines of the writers that are enough, and two concrete runs lose an event: one with mixed
  writers, one inside a single process.
- Paging with a kind filter stops early exactly when a stretch of at least `limit` other events comes
  before a matching one (`ActivityFeed.PagingIff`).
- The org chart silently omits everybody whose manager chain runs into a cycle
  (`OrgChart.ChartHoldsEndingChains`).
- A candidate that is updated between evaluation and promotion is promoted on the old score; the
  promoted spec is within the boundary exactly when no capability is prohibited, which promotion does
  not check (`SkillLifecycle.Registry.Promote`, `SkillOverlap.StaleScoreIsPromoted`).
- Handlers that overlap can promote a deprecated candidate. The cached result agrees with the history
  of saves at every moment if and only if no update saves a record that differs from the stored one
  on being cleared (`SkillOverlap.AgreementIff`, `SkillOverlap.DeprecatedIsPromoted`).
- A nonce can be replayed within five minutes when the clock steps back or two calls overlap;
  `ReplayGuard.PromiseIff` and `ReplayGuard.OverlapIff` say exactly when.
- Hits whose clock readings reach the lock out of order can be misjudged. While nothing is evicted, the
  history of a key decides all its calls, whatever the limit and window, if and only if its readings
  are in clock order (`RateLimiterOrder.HistoryDecidesIff`), and the limit of every window survives
  every order if and only if it is 1 (`RateLimiterOrder.WindowBoundInAnyOrderIff`). What holds in every
  order is `RateLimiter.StretchBound`.
- An evaluation that overlaps an update stores the old spec again. Updates are kept in every
  interleaving if and only if no whole-record save loses one (`SkillOverlap.UpdatesKeptIff`).
- A client that reconnects to an address with `since_sequence` starts over, whatever `Last-Event-ID`
  says (`StreamRuns.ReconnectComposesIff`).
- The startup check of a spec says nothing about a skill that is pinned in two versions; it is
  complete exactly for specs that pin one version of each skill
  (`CapabilityClosure.GuaranteeIffOneVersionEach`).

Run `dafny verify dfyconfig.toml` to check all modules.

## Model

| member | source | states |
|---|---|---|
| `DurableLog.SinceIsSuffix` | packages/agent/runs/stream_events.py:72-78 | reading an increasing log above a cursor gives a suffix of the log |
| `DurableLog.SinceMember` | packages/agent/runs/stream_events.py:72-78 | it contains exactly the stored events above the cursor |
| `DurableLog.ContinueAfterPrefix` | packages/agent/runs/stream_events.py:72-78 | after receiving any prefix of a read, reading from the last id received gives exactly the rest |
| `DurableLog.SinceGrows` | packages/agent/runs/stream_events.py:64-78 | appends only extend what a reader at any cursor can read |
| `StreamSession.StepInv` | apps/cosa/api/event_stream.py:248-296 | every resumption of a subscriber keeps its invariant: output increasing, above the start cursor, stored; list being sent is what follows the last id; which phases may have sent a terminal event |
| `StreamSession.StepsInv` | apps/cosa/api/event_stream.py:248-296 | the same for any number of resumptions |
| `StreamSession.AppendInv` | apps/cosa/api/event_stream.py:175 | an append by anybody keeps every subscriber's invariant |
| `StreamSession.StepSafe` | apps/cosa/api/event_stream.py:248-296 | a gap-free subscriber with no overtaking envelope queued stays so under every resumption |
| `StreamSession.AcceptShifts` | apps/cosa/api/event_stream.py:275-283 | accepting the next stored event moves every hazard in the queue forward by one place, no more and no less |
| `StreamSession.OvertakingLoses` | apps/cosa/api/event_stream.py:275-283 | for every hazard there is a way of resuming the subscriber that skips an event |
| `StreamSession.LosslessIffNotOvertaken` | apps/cosa/api/event_stream.py:248-296 | a gap-free subscriber stays gap-free however it is resumed, if and only if no queued envelope overtakes a stored event it still needs |
| `StreamSession.PollCatchesUp` | apps/cosa/api/event_stream.py:288-296 | one poll takes a gap-free live subscriber to the end of the log when no terminal event is left |
| `StreamSession.PollEndsStream` | apps/cosa/api/event_stream.py:288-296 | if a terminal event is stored ahead, one poll ends the stream of a gap-free live subscriber: it is sent the log after its start cursor up to and including the first terminal event |
| `StreamSession.AppendKeepsHazard` | apps/cosa/api/event_stream.py:175 | an append alone neither creates nor removes a hazard |
| `StreamSession.FanOutHazard` | apps/cosa/api/event_stream.py:203-204 | putting an envelope on a queue creates a hazard exactly when it is ahead of a stored event that is not queued before it |
| `StreamRuns.RunInv` | apps/cosa/api/event_stream.py:128-304 | the invariant of log, events in flight and all subscribers holds after every run |
| `StreamRuns.StreamSafety` | apps/cosa/api/event_stream.py:248-296 | in every run, with any writers and fan-out order: output ids strictly increase, lie above the start cursor, each output is the log entry with its id, nothing is sent twice |
| `StreamRuns.RunExtends` | apps/cosa/api/event_stream.py:273-296 | output only grows, and only by events above the last one sent |
| `StreamRuns.PassedOverIsLost` | apps/cosa/api/event_stream.py:276-279 | an event passed over is delivered by no continuation of the run |
| `StreamRuns.LeavingIsFinal` | apps/cosa/api/event_stream.py:301-304 | once the client has gone nothing more is sent to it, whatever follows |
| `StreamRuns.GapFreedomIff` | apps/cosa/api/event_stream.py:175-300 | for every interleaving: the output is at every moment the log after the cursor up to some point, and stays so however the subscriber goes on, if and only if no fan-out of the run overtakes |
| `StreamRuns.DisciplinedWriters` | apps/cosa/api/event_stream.py:175-300 | whatever happened before subscribing: local writers that fan out in sequence order, or remote writers only, give gap-free output at every moment of every continuation |
| `StreamRuns.MixedWritersLoseAnEvent` | apps/cosa/api/event_stream.py:203-300 | remote append 1, local emit 2, dequeue 2: event 1 is never delivered, whatever follows |
| `StreamRuns.LateFanOutLosesAnEvent` | apps/cosa/api/event_stream.py:175-204 | two local emitters, the second fanned out first: event 1 is never delivered, whatever follows |
| `StreamRuns.ResumeComposes` | apps/cosa/api/event_stream.py:236-304 | cutting after any output and reopening with its id gives an increasing concatenation without repeats; if no fan-out overtakes either session it is one contiguous piece of the log just after the first cursor |
| `StreamRuns.ResumeEqualsUncut` | apps/cosa/api/event_stream.py:236-304 | under that condition the run can be continued by a new session with the first cursor that is sent exactly the two outputs together |
| `StreamRuns.UncutSession` | apps/cosa/api/event_stream.py:242-258 | every piece of the log just after a cursor is what some new session is sent, and no other session notices |
| `StreamRuns.ReconnectComposesIff` | apps/cosa/api/routes.py:158-163 | a reconnect to the same address with the last id in the header composes if and only if the address has no cursor of its own; otherwise the second session repeats from the first event |
| `StreamRuns.StreamEnd` | apps/cosa/api/event_stream.py:249-296 | a session ends by itself only after a terminal event, which outside replay is the last and only one; in replay the whole snapshot is sent; a cursor at or past the last terminal event never lets it end |
| `StreamManager.EventStore.Append` | packages/agent/runs/stream_events.py:64-70 | stores the event at the end of its run's log under the next global number; no other log changes |
| `StreamManager.EventStore.ListSince` | packages/agent/runs/stream_events.py:72-78 | returns the stored events above the cursor in order |
| `StreamManager.Subscription.Advance` | apps/cosa/api/event_stream.py:248-296 | runs the generator between two suspension points as the step of the interleaving model |
| `StreamManager.Manager.constructor` | apps/cosa/api/event_stream.py:121-122 | a new manager is the fresh system for every run |
| `StreamManager.Manager.StartRun` | apps/cosa/api/event_stream.py:124-126 | adds an empty queue list if the run has none, keeps all lists, and changes nothing else |
| `StreamManager.Manager.EmitStore` | apps/cosa/api/event_stream.py:166-191 | is a local append of its run; other runs untouched |
| `StreamManager.Manager.EmitFanOut` | apps/cosa/api/event_stream.py:193-204 | is the fan-out of its run: every registered queue and no other gets the envelope |
| `StreamManager.Manager.OpenStream` | apps/cosa/api/event_stream.py:242-243 | is a subscription of its run, registered before anything is read |
| `StreamManager.Manager.Resume` | apps/cosa/api/event_stream.py:248-304 | is one resumption; a queue is listed exactly while its generator has not finished |
| `StreamManager.Manager.Disconnect` | apps/cosa/api/event_stream.py:301-304 | ends the generator and unregisters its queue; other runs untouched |
| `StreamManager.PutAll` | apps/cosa/api/event_stream.py:203-204 | every queue in the list gets the envelope at its end, once |
| `StreamManager.Without` | apps/cosa/api/event_stream.py:302-304 | removes one queue and keeps all others in their order; a list without it is left alone |
| `ActivityFeed.StreamActivity` | apps/cosa/api/project_activity_routes.py:145-178 | after any number of polls over a growing log the output is the piece of the log just after the cursor, contiguous and in order, and exactly as long as a page per read allows when every read sees what is stored by then: what was stored at any read has been sent unless all reads since sent a full page |
| `ActivityFeed.SendPage` | apps/cosa/api/project_activity_routes.py:174-178 | sends a page and leaves the cursor at its last event |
| `ActivityFeed.ReadStep` | apps/cosa/api/project_activity_routes.py:168-173 | one bounded read extends a contiguous output by a full page or to the end of the log |
| `ActivityFeed.NextPageIsShorter` | apps/cosa/api/project_activity_routes.py:276-286 | a page with items has a cursor right after its last match, so following it terminates |
| `ActivityFeed.PagingIff` | apps/cosa/api/project_activity_routes.py:268-286 | following the cursor gives a prefix of the matching events, and all of them if and only if no stretch of at least `limit` non-matching events comes before a matching one |
| `ActivityFeed.CollectedEvents` | apps/cosa/api/project_activity_routes.py:268-286 | a client collects only stored events above its cursor of the kinds asked for, and every such event if none is stranded |
| `ActivityFeed.NextCursorMeans` | apps/cosa/api/project_activity_routes.py:276-286 | the next cursor is that of the last item, and none for an empty page |
| `ActivityFeed.UnfilteredPagingIsComplete` | apps/cosa/api/project_activity_routes.py:268-286 | without a filter it lists the log after the cursor exactly once |
| `RateLimiter.WindowBound` | apps/cosa/api/middleware.py:101-117 | in every run every half-open window of that length holds at most `limit` accepted hits of a key |
| `RateLimiter.DequeDecides` | apps/cosa/api/middleware.py:107-113 | after expiry the length of the deque decides as the full history does |
| `RateLimiter.IdleTracksNothing` | apps/cosa/api/middleware.py:114-116 | forgetting an idle key loses nothing that any later window could hold |
| `RateLimiter.ExpiryOfOldest` | apps/cosa/api/middleware.py:109-112 | a full key is admitted again at exactly the time its oldest hit leaves the window |
| `RateLimiter.SlidingWindowLimiter.Hit` | apps/cosa/api/middleware.py:101-117 | for any readings: passes if and only if the key's expired deque has room, and a refusal's wait is positive and exact for the deque; while readings are in clock order, passes if and only if fewer than `limit` accepted hits of the key lie in (now - window, now], bulk eviction included, and the wait is at most the window and exact for the history; a hit that passes evicts exactly the idle keys if there are more than 50,000, and otherwise no key |
| `RateLimiter.SlidingWindowLimiter.Record` | apps/cosa/api/middleware.py:106-117 | under the lock, every key's deque becomes what the call makes of it; a refusal leaves its own deque as it was |
| `RateLimiter.QueueIsTail` | apps/cosa/api/middleware.py:101-117 | for any readings and eviction at any call, every deque is how the list of hits that passed ends, and at most `limit` long |
| `RateLimiter.RefusedIff` | apps/cosa/api/middleware.py:107-112 | for any readings: refused if and only if the last `limit` hits that passed are all in the deque and the oldest of them is in the window |
| `RateLimiter.StretchBound` | apps/cosa/api/middleware.py:101-117 | for any readings: of the calls that take the lock one after another while all readings lie within less than one window, at most `limit` pass on each key |
| `RateLimiter.QueueRefinesHistory` | apps/cosa/api/middleware.py:101-117 | in clock order every deque agrees with the full history of its key, whenever idle keys are evicted, and what passes is what the history admits |
| `RateLimiter.DecisionInOrder` | apps/cosa/api/middleware.py:105-113 | the next call in clock order is decided as the full history decides |
| `RateLimiterOrder.HistoryDecidesIff` | apps/cosa/api/middleware.py:105-113 | for calls on any keys while nothing is evicted: the history of a key decides all its calls, whatever the limit and the window, if and only if the readings of that key are in clock order |
| `RateLimiterOrder.HistoryDecidesOneKeyIff` | apps/cosa/api/middleware.py:105-117 | for calls on one key, whenever idle keys are evicted: the same if and only if all readings are in clock order |
| `RateLimiterOrder.InversionIsMisjudged` | apps/cosa/api/middleware.py:105-112 | for every reading below an earlier one of its key there are a limit and a window for which the history does not decide the run |
| `RateLimiterOrder.OtherKeysDoNotMatter` | apps/cosa/api/middleware.py:107-113 | without eviction a key's deque, what passes and how it is decided depend on the calls on that key alone |
| `RateLimiterOrder.WindowBoundInAnyOrderIff` | apps/cosa/api/middleware.py:101-113 | while nothing is evicted, every window holds at most `limit` hits whatever the order of the readings, if and only if the limit is 1 |
| `RateLimiterOrder.LimitOneSpaces` | apps/cosa/api/middleware.py:107-113 | with limit 1 the hits that pass are at least a window apart, in any order of readings |
| `RateLimiterOrder.LateReadingBreaksWindow` | apps/cosa/api/middleware.py:105-113 | for every limit above 1 and any history: a reading taken before but locked after one a window later lets limit + 1 hits into one window |
| `RateLimiterOrder.LateEvictionBreaksWindow` | apps/cosa/api/middleware.py:105-116 | for every limit: an eviction by a call on another key that reads a window later lets limit + 1 hits into one window |
| `RateLimiter.EvictIdle` | apps/cosa/api/middleware.py:115-116 | keeps exactly the keys with a hit after the cutoff |
| `RateLimiter.Expire` | apps/cosa/api/middleware.py:109-110 | drops the expired front of the deque |
| `RateLimiter.TrimIs` | apps/cosa/api/middleware.py:109-110 | what is dropped had expired, the rest is how the deque ends, and its first hit is alive |
| `RateLimiter.RefusalInOrder` | apps/cosa/api/middleware.py:111-112 | in clock order the wait is at most the window and the exact time of the next admission |
| `RateLimiter.RetryIsTight` | apps/cosa/api/middleware.py:109-112 | over whole runs: hits on the key before the announced time are rejected and leave no trace, calls on other keys do not matter, and the first hit from that time on is admitted |
| `RateLimiter.RetryHeaders` | apps/cosa/api/middleware.py:120-125 | both Retry-After roundings (the other is in apps/cosa/api/conversation_routes.py:302) are at least the wait and less than or equal to one second above it |
| `Expiry.Purge` | desktop_worker/main.py:81-82 | deletes exactly the expired entries |
| `ReplayGuard.NonceStore.CheckNonce` | desktop_worker/main.py:79-86 | for any clock: rejects if and only if the nonce has been accepted and no reading since its latest acceptance, this one included, is more than 300 seconds past it; on a clock that has not stepped back, if and only if it was accepted in the last 300 seconds |
| `ReplayGuard.NonceStore.Look` | desktop_worker/main.py:80-84 | purges and tests; passes exactly when the nonce is not alive in the dictionary |
| `ReplayGuard.RememberedIff` | desktop_worker/main.py:79-86 | for any clock and any interleaving of threads, the dictionary holds exactly the latest acceptances that no reading has outlived |
| `ReplayGuard.RejectedIff` | desktop_worker/main.py:79-84 | the exact decision of a look for any clock and any interleaving |
| `ReplayGuard.PromiseIff` | desktop_worker/main.py:79-86 | a look rejects exactly the nonces whose latest acceptance is recent, if and only if no earlier look outlived that acceptance or this one does |
| `ReplayGuard.OverlapIff` | desktop_worker/main.py:83-85 | after a look that passed, a second look of the nonce within the time to live passes if and only if the first has not written yet |
| `ReplayGuard.ReplayNeedsLateReading` | desktop_worker/main.py:79-86 | for any clock, calls one at a time: a nonce passes again only after some reading more than 300 seconds past each of its acceptances |
| `ReplayGuard.AcceptancesAreApart` | desktop_worker/main.py:79-86 | for calls one at a time on a clock that does not step back, any two acceptances the dictionary made of a nonce are more than 300 seconds apart |
| `ReplayGuard.ClockOrderDecides` | desktop_worker/main.py:81-84 | on a clock that does not step back a nonce is rejected if and only if it was accepted in the last 300 seconds: purging never changes a decision |
| `ReplayGuard.SteppingClockAcceptsReplay` | desktop_worker/main.py:79-86 | after any history, a call that reads more than 300 seconds past an acceptance, and a clock that then steps back, let the nonce pass again while it is recent |
| `ShellApproval.ApprovalStore.RequestApproval` | desktop_worker/main.py:340-348 | stores the token if the capability is enabled and nothing otherwise |
| `ShellApproval.ApprovalStore.ConsumeApproval` | desktop_worker/main.py:315-322 | for any clock: succeeds if and only if the token has an outstanding request that neither this reading nor that of an earlier consumption has outlived by 120 seconds; uses it up; honours exactly the requests at most 120 seconds old if and only if no earlier reading outlived this one |
| `ShellApproval.AgeDecidesInOrder` | desktop_worker/main.py:315-322 | while no earlier reading is past this one, as on a clock that does not step back, the age of the request at this reading alone decides |
| `ShellApproval.SteppingClockRefuses` | desktop_worker/main.py:315-322 | the run where a request 100 seconds old is refused because an earlier call had read 121 seconds |
| `ShellApproval.ApprovalStore.Execute` | desktop_worker/main.py:351-376 | for any clock: a command starts if and only if it is enabled, consumes an approval and is inside the roots; commands started never exceed approvals requested |
| `ShellApproval.Match` | desktop_worker/main.py:315-322 | for any clock, every successful consumption has an earlier request of its token at most 120 seconds before |
| `ShellApproval.MatchIsOneToOne` | desktop_worker/main.py:315-322 | no two consumptions share a request, in any interleaving |
| `ShellApproval.OutstandingUnconsumed` | desktop_worker/main.py:315-322 | between an outstanding request and now the token was neither consumed nor requested again |
| `ShellApproval.NeverMoreThanRequested` | desktop_worker/main.py:312-360 | successful consumptions plus tokens still open never exceed requests |
| `ShellApproval.RequestsCounted` | desktop_worker/main.py:340-348 | the number it is measured against is that of the requests in the trace |
| `Utf8Truncation.HeadOfEncoded` | desktop_worker/main.py:156-159 | a well-formed character decodes to itself whatever follows |
| `Utf8Truncation.EncodeForm` | desktop_worker/main.py:156 | the table of section 3 of RFC 3629: length by the number, and the number from lead and continuation bytes in order |
| `Utf8Truncation.DecodedIsEncoded` | desktop_worker/main.py:159 | the decoder accepts nothing but encodings of scalar values: no overlong form, no surrogate |
| `Utf8Truncation.DecodeEncode` | desktop_worker/main.py:156-159 | decoding undoes encoding on all Unicode scalar values |
| `Utf8Truncation.BrokenCharacterVanishes` | desktop_worker/main.py:159 | a character that lost its last bytes decodes to nothing |
| `Utf8Truncation.CutDecodes` | desktop_worker/main.py:159 | cutting the bytes anywhere and decoding gives the characters that fit whole |
| `Utf8Truncation.TruncateIsLongestPrefix` | desktop_worker/main.py:155-159 | for every text and limit: the text itself if it fits, else the longest whole-character prefix of at most `limit` bytes, more than limit - 4 bytes long, plus the 15-byte marker; a negative limit counts from the end of the encoding |
| `ReportingGraph.ReachableIffChainEnds` | apps/cosa/api/workforce_routes.py:606-613 | following reports from the roots meets exactly the nodes whose manager chain ends or leaves the active set, each once, within as many levels as nodes |
| `ReportingGraph.CompleteIffAcyclic` | apps/cosa/api/workforce_routes.py:606-615 | the forest has all nodes if and only if the reporting relation is acyclic |
| `ReportingGraph.LevelContents` | apps/cosa/api/workforce_routes.py:606-613 | a node is met k levels down exactly when its chain ends after k steps |
| `OrgChart.BuildOrgChart` | apps/cosa/api/workforce_routes.py:592-615 | one node hangs under another if and only if its assignment names the other's non-empty id; a node is a root if and only if it names nobody, an empty id or the id of no assignment, and warned about if and only if it is the last; lists in order; the total is the number of assignments |
| `OrgChart.MakeNodes` | apps/cosa/api/workforce_routes.py:592-604 | one new unlinked node per assignment, found under its id; an empty manager id counts as none |
| `OrgChart.LinkAll` | apps/cosa/api/workforce_routes.py:606-613 | linking in place gives every node exactly its own reports |
| `OrgChart.LinkOne` | apps/cosa/api/workforce_routes.py:607-613 | one round adds a node under its manager or to the roots and changes no other list |
| `OrgChart.ActiveManagers` | apps/cosa/api/workforce_routes.py:598-609 | the reporting relation: whose non-empty id an assignment names |
| `OrgChart.ChartIsCompleteIffAcyclic` | apps/cosa/api/workforce_routes.py:606-615 | following the object links meets as many nodes as the announced total if and only if the relation is acyclic |
| `OrgChart.ChartHoldsEndingChains` | apps/cosa/api/workforce_routes.py:606-615 | following the object links meets a node if and only if its manager chain ends, and none twice |
| `SkillEvaluation.RunEvaluation` | apps/cosa/api/skill_registry_routes.py:79-142 | scores 1 if and only if ceiling and side effect are allowed, every capability is registered and no prohibited token stands anywhere in one, else 0; exact case list; as many failures as cases that went wrong |
| `SkillEvaluation.ProhibitedIff` | apps/cosa/api/skill_registry_routes.py:124 | a capability is prohibited if and only if one of the tokens stands anywhere in its name |
| `SkillEvaluation.Verdict` | apps/cosa/api/skill_registry_routes.py:94-134 | a report without an accepted case is exactly that of a spec within the boundary, case by case |
| `SkillLifecycle.Registry.CreateCandidate` | apps/cosa/api/skill_registry_routes.py:431-474 | only the workspace scope is accepted; the candidate starts unevaluated with score 0 |
| `SkillLifecycle.Registry.Evaluate` | apps/cosa/api/skill_registry_routes.py:503-519 | caches the score of the current spec; a failed evaluation lowers the score but leaves the status |
| `SkillLifecycle.Registry.Update` | apps/cosa/api/skill_registry_routes.py:827-851 | changes the given fields of the spec and neither score nor status; an unknown skill changes nothing |
| `SkillLifecycle.Registry.Deprecate` | apps/cosa/api/skill_registry_routes.py:641-650 | retires the candidate and changes nothing else |
| `SkillLifecycle.Registry.Promote` | apps/cosa/api/skill_registry_routes.py:554-586 | over all runs: accepted if and only if the latest evaluation passed, no deprecation followed and all capabilities are registered; without an update since, the promoted spec is the evaluated one; in any case it is within the boundary if and only if no capability is prohibited |
| `SkillLifecycle.Lookup` | packages/agent/skills/candidate_store.py:95-109 | never leaves the caller's workspace; a candidate id wins over a skill id, of several candidates for a skill the first is taken, and nothing is found only if there is none |
| `SkillLifecycle.ReadyMeans` | apps/cosa/api/skill_registry_routes.py:565-574 | readiness spelled out over the history: a passed evaluation with no creation, evaluation or deprecation after it |
| `SkillLifecycle.UpdateEvent` | apps/cosa/api/skill_registry_routes.py:827-844 | an update keeps the cached result in agreement with the history, and keeps ceiling and side effect |
| `SkillLifecycle.EvaluationEvent` | apps/cosa/api/skill_registry_routes.py:511-519 | an evaluation brings the cached result and the evaluated spec into agreement with the history |
| `SkillOverlap.StaleScoreIsPromoted` | apps/cosa/api/skill_registry_routes.py:827-844 | create, evaluate, update, as a run: the promotion is accepted on the old score, and what is promoted is within the boundary if and only if no capability is prohibited |
| `SkillOverlap.PayoutIsPromoted` | apps/cosa/api/skill_registry_routes.py:67-74 | such a run that gets a prohibited capability promoted |
| `SkillLifecycle.Patched` | apps/cosa/api/skill_registry_routes.py:829-842 | an update reaches neither id nor ceiling nor side effect, and capabilities only if it carries them |
| `SkillLifecycle.PatchedFields` | apps/cosa/api/skill_registry_routes.py:829-842 | every field after an update, and which empty values count as no change |
| `SkillOverlap.StepAgreesIff` | apps/cosa/api/skill_registry_routes.py:827-844 | with any other handlers under way, a step keeps the cached result in agreement with the history if and only if it is not an update's save of a record that differs from the stored one on being cleared |
| `SkillOverlap.AgreementIff` | apps/cosa/api/skill_registry_routes.py:483-851 | for every interleaving of reads and saves: agreement at every moment if and only if there is no such save |
| `SkillOverlap.RunKeepsSpec` | apps/cosa/api/skill_registry_routes.py:503-519 | in every interleaving the stored spec of a ready candidate is the evaluated one unless an update was saved since |
| `SkillOverlap.PromotionAfter` | apps/cosa/api/skill_registry_routes.py:554-586 | after every interleaving without such a save, a promotion is accepted if and only if the latest evaluation saved had passed, no deprecation was saved since, and the capabilities are registered |
| `SkillOverlap.StepIntendedIff` | apps/cosa/api/skill_registry_routes.py:503-519 | a step leaves the stored spec as the creation and updates intend it, if and only if it is not a whole-record save that read another spec (or, for an update, one it makes something else of) |
| `SkillOverlap.UpdatesKeptIff` | apps/cosa/api/skill_registry_routes.py:483-851 | for every interleaving: the stored spec is at every moment as the creation and the updates saved so far intend it, if and only if no save loses one |
| `SkillOverlap.EvaluationUndoesUpdate` | apps/cosa/api/skill_registry_routes.py:503-519 | evaluation reads, update reads and saves, evaluation saves: the old spec is stored again, from every state with the record |
| `SkillOverlap.Uninterrupted` | apps/cosa/api/skill_registry_routes.py:503-519 | a read followed at once by its save is the atomic handler |
| `SkillOverlap.DeprecatedIsPromoted` | apps/cosa/api/skill_registry_routes.py:641-645 | update reads, deprecation reads and saves, update saves: the candidate is promoted after its deprecation, from every state with a cleared record |
| `SkillOverlap.CreatedAndEvaluated` | apps/cosa/api/skill_registry_routes.py:465-519 | creating and evaluating a candidate reaches such a state |
| `Bits.OrIntoLowBits` | packages/agent/ids.py:29-33 | or-ing a value into free low bits adds it |
| `Bits.AndMask` | packages/agent/ids.py:24-27 | and-ing with k ones keeps the low k bits |
| `Bits.ShiftRightIs` | packages/agent/ids.py:26 | shifting right divides, the low bits are the remainder |
| `UuidV7.Uuid7` | packages/agent/ids.py:22-34 | the shifts and ors place time, version, random and variant fields as the layout of section 5.7 of RFC 9562 has them |
| `UuidV7.FieldsOfLayout` | packages/agent/ids.py:24-34 | the value fits in 128 bits, passes the check and gives back its time, version, variant and both random fields |
| `UuidV7.LayoutOfFields` | packages/agent/ids.py:42-48 | every 128-bit value that passes the check is the layout of its own fields |
| `UuidV7.PrefixOrder` | packages/agent/ids.py:24-39 | a later millisecond gives a larger integer; every hex prefix is weakly ordered, strictly from 12 digits on |
| `UuidV7.CanonicalOrder` | packages/agent/ids.py:37-39 | a later millisecond gives a larger canonical string |
| `UuidV7.CanonicalReadsBack` | packages/agent/ids.py:37-48 | the canonical string parses back to the value |
| `UuidV7.CanonicalShape` | packages/agent/ids.py:37-39 | 36 characters, lower-case hexadecimal digits in groups of 8, 4, 4, 4 and 12 between dashes (section 4 of RFC 9562) |
| `UuidV7.ParseMeans` | packages/agent/ids.py:42-47 | what parses is exactly 32 hexadecimal digits in either case with any dashes, and the number is the one with those digits |
| `UuidV7.CheckMeans` | packages/agent/ids.py:42-48 | the check on text: 32 hexadecimal digits in either case, the thirteenth a 7 and the seventeenth one of 8, 9, a and b |
| `UuidV7.MintedPassesCheck` | packages/agent/ids.py:22-48 | for every clock and random input, the minted value and its text pass the check and carry the time |
| `CapabilityClosure.SkillManifests` | apps/cosa/agents/seed.py:106-116 | manifests keyed by skill id, later pins replacing earlier ones |
| `CapabilityClosure.ManifestOrigin` | apps/cosa/agents/seed.py:106-116 | a manifest is that of the last published pin of its skill id, and only ids without a published pin have none |
| `CapabilityClosure.SkillTools` | apps/cosa/agents/seed.py:130-132 | exactly the non-empty entries of all manifests |
| `CapabilityClosure.VerifySkillClosure` | apps/cosa/agents/seed.py:119-141 | passes if and only if, for every seeded spec, every pinned skill has a manifest and every non-empty tool of every manifest is registered and in the references of the spec |
| `CapabilityClosure.ValidateOverlay` | apps/cosa/agents/advisor_overlay_validation.py:26-63 | reports exactly the violations committed; none if and only if the overlay stays within its profile |
| `CapabilityClosure.VerifyOverlays` | apps/cosa/agents/seed.py:144-172 | passes if and only if every overlay is published with its hash, has a known profile and stays within it |
| `CapabilityClosure.FirstSpec` | apps/cosa/agents/seed.py:163-165 | the first seeded spec with the id, and none only if there is none |
| `CapabilityClosure.CheckReadiness` | apps/cosa/agents/capability_readiness.py:38-64 | the missing tools, tool by tool; none if and only if references and pinned tools are covered |
| `CapabilityClosure.ClosedIffReady` | apps/cosa/agents/capability_readiness.py:38-64 | the startup check and the activation check agree when no manifest is missing |
| `CapabilityClosure.ClosedCoversEveryPin` | apps/cosa/agents/seed.py:124-141 | one version per skill: a closed spec needs no tool outside its references and the registry |
| `CapabilityClosure.StartupClosure` | apps/cosa/agents/seed.py:85-88 | all checks passed and one version per skill: every non-empty tool of every skill pinned by an overlay is in the references of the overlay, in those of the required profile and in the registry |
| `CapabilityClosure.HiddenPinEscapes` | apps/cosa/agents/seed.py:110-116 | for every spec that pins two versions of a skill there is a registry where the hidden version escapes the check |
| `CapabilityClosure.GuaranteeIffOneVersionEach` | apps/cosa/agents/seed.py:106-141 | passing the check covers every pinned skill, whatever is published, if and only if the spec pins one version of each |
| `PlanRepair.SeenTitles` | apps/cosa/agents/goal_decomposition.py:213-268 | gathers exactly the titles of the plan |
| `PlanRepair.CheckDependencies` | apps/cosa/agents/goal_decomposition.py:270-278 | accepts if and only if every dependency names a differently titled item of the plan; otherwise names a bad one of the first bad item, unknown titles first |
| `PlanRepair.BuildOwners` | apps/cosa/agents/goal_decomposition.py:292-295 | maps exactly the owned capabilities, each to its first owner in catalogue order |
| `PlanRepair.CapsOf` | apps/cosa/agents/goal_decomposition.py:303 | the capabilities filed under a key, none if it is unknown |
| `PlanRepair.ValidatePlanCapabilities` | apps/cosa/agents/goal_decomposition.py:281-317 | keeps length, order and all other fields; each capability is dropped exactly when nobody owns it, else listed under the resulting domain; a domain changes only if it does not list it, and then to the first owner |
| `PlanRepair.RepairIsDetermined` | apps/cosa/agents/goal_decomposition.py:297-304 | these promises leave only one possible result |
| `PlanRepair.UnchangedIff` | apps/cosa/agents/goal_decomposition.py:301-304 | an item is left alone if and only if it has no capability or its domain lists it |
| `PlanRepair.RepairIsIdempotent` | apps/cosa/agents/goal_decomposition.py:281-317 | repairing twice is repairing once |
| `PlanRepair.RepairKeepsDependencies` | apps/cosa/agents/goal_decomposition.py:270-317 | a plan passes the dependency checks after repair if and only if it did before |

## Left out

- Run stream storage: an append is taken as atomic and ids become visible in increasing order; the order in which database transactions commit is not modelled.
- Run stream timing: a poll may happen at any live moment, which covers every timing of the poll timeout; heartbeats, metrics, redaction and the content of Project Activity rows are not modelled.
- StreamRuns: another process is represented by its appends only, and a subscriber's steps are cut at its suspension points; a terminal event counts as the end when it is sent, before the generator's `finally` block.
- RateLimiter.SlidingWindowLimiter.Hit: time is a real number, so floating-point rounding is not modelled.
- ReplayGuard.NonceStore.CheckNonce: models a call that no other thread interrupts; `Look` and `Write` are its two halves, and the results about any interleaving are stated on them. A look is one step: two purges that race for the same key, which in the source can raise and fail the request, are not modelled.
- ShellApproval.ApprovalStore.ConsumeApproval: models a call that no other thread interrupts; of two calls that pass the test together, the second raises at its deletion and starts no command.
- ShellApproval.ApprovalStore.Execute: the path allow-list is a parameter, and the command itself, its time limit and its output are not modelled; tokens are any strings, so their randomness is not needed.
- Utf8Truncation.CutDecodes: the decoder skips malformed input byte by byte, which gives the same text as Python's larger steps on the byte strings that occur here, namely cut encodings.
- ActivityFeed.PagingIff: the log does not change while the client follows the cursor; the comma-separated list of kinds is a set, and the cap of 100 is covered because the result holds for every positive limit.
- OrgChart.BuildOrgChart: assignment ids are distinct, as primary keys are; the status field is constant and dropped.
- SkillLifecycle.Registry.Update: handlers of this class are atomic; overlapping handlers are in `SkillOverlap`, where history is the order of the saves. Definition hashes, the approval record, publication after approval, role checks and the text of evaluation reports are not modelled.
- SkillLifecycle.Registry.CreateCandidate: the candidate id and the spec derived from the request (skill id from the name, defaults) are parameters.
- UuidV7.Uuid7: clock and randomness are parameters; two ids of the same millisecond are not ordered, as in the source.
- UuidV7.CanonicalReadsBack: parsing covers hexadecimal text with dashes, not the `urn:` and brace forms that Python's parser also takes.
- CapabilityClosure: sorted lists in error messages are sets; publishing the specs and the resolver call before the checks are not modelled; a missing overlay spec, which raises in the source, fails the check.
- PlanRepair.CheckDependencies: JSON parsing, the checks on single fields and whitespace stripping come before and are not modelled; the source does not look for longer dependency cycles either.
- Connector, schedule, settings, knowledge and model-policy routes, vault publication and run cancellation: request mapping around services that decide elsewhere.
- Catalogues, prompts and contract tables: constant data.
