# NeuroHTTP kernels, modelled and proved

NeuroHTTP is a web server written in C that forwards prompts to AI providers.
This project models the parts of it that carry state, arithmetic or parsing of
their own, and proves what they do over whole runs and for all inputs.

Each part that updates a structure in place is a class (or works on an array),
and each of its methods is proved to compute a function on values. The main
results are lemmas about those functions, so they hold of the methods too.

| files | what they model |
|---|---|
| `CMachine.dfy`, `Counting.dfy` | bytes, unsigned words with wrap-around, optional results; counting elements |
| `RateLimiter.dfy`, `RateLimiterRuns.dfy`, `RateLimiterService.dfy`, `RateLimiterAliases.dfy`, `RateLimiterFullKeys.dfy` | the token bucket and fixed-window limiter in chained hash lists, its bounds over runs, when exactly it refuses and what it must admit, and which keys the bounds hold for |
| `ModelHealth.dfy`, `ModelHealthRuns.dfy`, `ModelHealthWaits.dfy` | one AI model's quarantine, cool-down, failure window and circuit breaker, runs of checks, attempts and administration, and how long each outcome keeps the model out |
| `Routing.dfy`, `RoutingLaws.dfy`, `RoutingChoices.dfy`, `PromptRouter.dfy` | selecting, ranking and trying models for a prompt, and what the ranking prefers |
| `HttpParser.dfy`, `HttpParserRuns.dfy`, `HttpPrint.dfy` | the byte automaton for HTTP/1.1 requests; cutting its input; printing requests and parsing them back |
| `ConnectionTable.dfy`, `ConnectionRuns.dfy` | the connection table with swap-remove, its index with stale entries, and the idle reaper |
| `Base64.dfy` | the decoder with a 32-bit accumulator (sections 4 and 5 of RFC 4648) |
| `JsonText.dfy`, `JsonRoundTrip.dfy` | escaping and unescaping JSON strings (section 7 of RFC 8259) |
| `ChunkedStream.dfy`, `ChunkedDecoding.dfy` | the chunked transfer writer under partial sends, and a reader (section 7.1 of RFC 9112) |
| `CompletionRing.dfy` | the io_uring completion and submission rings with wrapping counters |
| `StringReplace.dfy`, `StringReplaceLaws.dfy` | the two-pass string replacement |

Concurrency is modelled by steps: a region under a lock is one step, and runs
are arbitrary sequences of steps. The clock, the outcome of a transfer, how much
a send takes and what the kernel posts are parameters that may take any value.

## Where the code differs from what one would expect

These are results, each with its lemma.

- A rate-limit key longer than 127 bytes is hashed whole but stored cut off, so it
  is never found again and never limited (`OverlongKeyNeverLimited`). Worse, it can
  be stored under the name of a key of exactly 127 bytes and in its chain, and then
  gives that key a new, full bucket (`AliasRefills`); every key of 127 bytes has
  such an alias, a C string of at most 65663 bytes (`AliasExists`). So exactly the
  keys of at most 126 bytes are limited and isolated (`LimitedIffShort`,
  `IsolatedIffShort`). The server itself passes addresses of at most 15 characters
  (`src/server.c:821`), so longer keys reach the limiter through its exported
  functions only.
- Two threads can read the clock in one order and take the lock in the other. The
  differences then wrap, and one such call finds a full bucket and a new window
  (`InvertedCallUnlimited`). The bounds grow with the number of inversions
  (`TokenBoundInverted`, `WindowBoundInverted`), that growth is reached
  (`InversionsReachFactor`), and the plain bound holds exactly if there are none
  (`BoundedIffNoInversion`).
- A refill's sum can pass 64 bits only under extreme settings; then a full bucket is
  lost (`WrappedRefill`). The first calls of a key within its quota, bucket and
  window are always admitted exactly under settings that rule this out
  (`AlwaysServedIff`).
- Losing its key and getting it back makes even a decommissioned model eligible
  again (`KeyLostAndBack`).
- A decommissioned model is contacted again if an attempt was in flight when it
  was marked and then ends rate limited (`InFlightRevives`); otherwise never
  (`DecommissionedIffIdle`).
- A rate-limit error or a revived model can let the circuit open on a third
  failure in a row (`DisturbedCircuitOpensLate`); `OpensLateIffRipe` says from
  which states that can happen.
- A model whose circuit has just opened counts as eligible and is ranked by every
  request, while every attempt at it is refused until the circuit's deadline
  (`TrippedModelStaysCandidate`, `EligibleRefusedIff`).
- A disabled model, or one without a key, still serves requests that name it
  (`DisabledServesByName`).
- A requested name that is not in the table gets no model at all
  (`UnknownNameNeverRouted`): the second look-up at
  `src/ai/prompt_router.c:909-921` repeats the first one under the same lock and
  finds nothing either, so the model leaves it out.
- The array that ranks models holds 64 and is filled without a check
  (`src/ai/prompt_router.c:931-937` and `1140-1150`): a 65th eligible model is
  written behind it (`OverrunIffManyEligible`). The methods report this as an
  overrun and promise nothing about what follows it.
- An attempt counts as a success for routing whenever the transfer completed,
  even with an HTTP error status: the first candidate whose transfer completes is
  the answer (`AnswersIffFirstCompleted`).
- The HTTP parser compares whole header lines with header names, so it sees no
  Content-Length and no Connection header (`ContentLengthNeverSeen`); a first piece
  of input that reaches the end of the headers completes the request and the next
  piece is dropped (`SplitIffBeforeBody`); the verb OPTIONS is refused
  (`OptionsRefused`); a header with a blank value swallows the next line
  (`LineEndsItselfIff`); a bare line feed in place of the blank line leaves the
  body without a start, and one more byte gives it an address for a length
  (`BodySliceIff`).
- A worker closes an fd before it removes its row (`src/server.c:362-363`), so the
  number can be added again while the old row is still there. Then a look-up and a
  search of the table can disagree (`FdReusedBeforeRemoval`); they agree exactly in
  the runs that do not add an fd which is still there (`FindCorrectIffFresh`).
- The reaper moves connections without telling the index (`ReapLosesEntry`); the
  index stays full exactly if it already names what was moved at its new slot
  (`ReapKeepsIndexIff`), which without stale entries means that all expired
  connections stood behind all live ones (`ReapKeepsIndexIffBehind`).
- A submission is counted as taken whole even if the kernel took less of it; a slot
  can then be given out again while its old request waits, exactly when the lag and
  the batch fill the ring (`SubmissionRing.GetSqe`).
- A search for the version drops the byte that breaks a match even if that byte
  could begin a new one, so "HHTTP/" is not found (`VersionRestarts`); of a minor
  version of several digits only the last counts (`MinorLastDigit`); a Content-Type
  is noted only from a line with a value of one byte (`ContentTypeIff`).
- Deleting a text can bring a new occurrence of it together, exactly if it is not
  one byte repeated (`DeletionEliminatesIff`).

## Model

| member | source | states |
|---|---|---|
| `RateLimiting.HashKey` | src/ratelimiter.c:27-31 | the loop leaves the 64-bit FNV-1a hash of every byte of the key |
| `RateLimiting.RateLimiter.constructor` | src/ratelimiter.c:39-50 | an empty table of chains; zero settings become 100 tokens/s, a bucket of one second, a window of 1000 ms, 1000 requests and 1024 at a time |
| `RateLimiting.BucketEntry.Charge` | src/ratelimiter.c:85-104 | refill, window roll, admission test and payment, in place in one linked entry |
| `RateLimiting.RateLimiter.Search` | src/ratelimiter.c:63-67 | walking the linked chain finds its first entry for the key |
| `RateLimiting.RateLimiter.Insert` | src/ratelimiter.c:69-83 | a new entry goes to the head of its chain, with the cost paid and all other entries as before |
| `RateLimiting.RateLimiter.Charge` | src/ratelimiter.c:85-104 | charging a linked entry changes that entry of the table and no other |
| `RateLimiting.RateLimiter.AllowN` | src/ratelimiter.c:56-105 | a request changes the linked table and answers as one step of the table on values |
| `RateLimiting.RateLimiter.Allow` | src/ratelimiter.c:52-54 | a plain request costs one token |
| `RateLimiting.RateLimiter.SetConfig` | src/ratelimiter.c:107-112 | new settings leave every bucket as it is |
| `RateLimiterRuns.StepLookup` | src/ratelimiter.c:56-105 | a call steps the bucket of its own key, and another key's only if the caller is stored under that key, whatever chains they share |
| `RateLimiterRuns.KeyIsolation` | src/ratelimiter.c:56-105 | in any interleaving over any keys, a key that no caller is stored under gets the answers its own calls would get alone |
| `RateLimiterRuns.RefillExact` | src/ratelimiter.c:85-91 | while bucket and earnings stay within 64 bits, the wrapping refill adds the whole tokens earned, capped |
| `RateLimiterRuns.CreditElapsed` | src/ratelimiter.c:85-86 | the wrapping product never credits more than time has earned |
| `RateLimiterRuns.StepWorth` | src/ratelimiter.c:85-104 | what a call admits is paid out of the tokens and the uncredited fraction the bucket holds, at any reading of the clock and with any wrap-around |
| `RateLimiterRuns.TokenBoundInverted` | src/ratelimiter.c:59-104 | with n inversions of the clock between a key's calls, at most n + 1 times the allowance of the interval is admitted |
| `RateLimiterRuns.TokenBound` | src/ratelimiter.c:69-104 | between any two times a key that nobody is stored under is admitted less than bucket + 1 + rate * elapsed / 1000, whatever wraps |
| `RateLimiterRuns.FirstCallBound` | src/ratelimiter.c:69-104 | from the key's first call on, at most bucket + floor(rate * elapsed / 1000) |
| `RateLimiterRuns.WindowBoundInverted` | src/ratelimiter.c:59-102 | with n inversions, at most n + 1 times the windows' quota is admitted |
| `RateLimiterRuns.WindowBound` | src/ratelimiter.c:93-102 | no interval of window length admits more than twice the requests of a window |
| `RateLimiterRuns.InvertedCallUnlimited` | src/ratelimiter.c:85-104 | a call with an earlier reading than the last finds a full bucket and a new window |
| `RateLimiterRuns.InversionsReachFactor` | src/ratelimiter.c:59-104 | n inversions can let n + 1 whole buckets out, n milliseconds after one another |
| `RateLimiterRuns.BoundedIffNoInversion` | src/ratelimiter.c:59-104 | the plain token bound holds under every configuration with up to n inversions exactly if n is 0 |
| `RateLimiterRuns.IdleKeyRecovers` | src/ratelimiter.c:85-104 | a key idle for a full refill and a window is served as if it had never called |
| `RateLimiterRuns.OverlongKeyMissesAgain` | src/ratelimiter.c:63-80 | a key cut off on insertion is missed by its own next look-up |
| `RateLimiterRuns.OverlongKeyNeverLimited` | src/ratelimiter.c:63-83 | every call with such a key and an affordable cost is admitted |
| `RateLimiterService.StepExact` | src/ratelimiter.c:85-104 | within 64 bits a call is admitted exactly if its cost is at most min(tokens + earned / 1000, bucket) and the window is over or below its quota; and the whole new bucket, in arithmetic |
| `RateLimiterService.CountIsAdmitted` | src/ratelimiter.c:93-102 | a bucket's window count is the number of requests admitted since its window began |
| `RateLimiterService.LastCallRefusedIff` | src/ratelimiter.c:56-105 | in every timely run of an unaliased key, in any company, the last call is refused exactly if its cost exceeds the tokens there are, or the quota has been admitted since the window began and the window is not over |
| `RateLimiterService.FirstQuotaServed` | src/ratelimiter.c:56-105 | lower bound: the first calls of a key are all admitted while they number at most the quota, cost at most the bucket and lie in one window |
| `RateLimiterService.AlwaysServedIff` | src/ratelimiter.c:85-91 | that holds of all runs exactly if a window has at most one request or no refill within a window can pass 64 bits |
| `RateLimiterService.WrappedRefill` | src/ratelimiter.c:85-91 | where one can, two calls show it: the second is refused |
| `RateLimiterService.FnvVectors` | src/ratelimiter.c:27-31 | the hash has the published FNV-1a values |
| `RateLimiterAliases.MixInjective` | src/ratelimiter.c:27-31 | the 16 bits that choose the chain tell after one more byte what they were before it |
| `RateLimiterAliases.AliasExists` | src/ratelimiter.c:58-73 | every key of 127 bytes has a longer one, by at most 65536 bytes and a C string like the key, that is stored under it in its chain |
| `RateLimiterAliases.AliasedIffFull` | src/ratelimiter.c:58-73 | and no other key has |
| `RateLimiterAliases.AliasRefills` | src/ratelimiter.c:69-83 | a call by such a key puts a new bucket in front of the other's |
| `RateLimiterAliases.UnlimitedAtOnce` | src/ratelimiter.c:56-105 | a run over C strings in which a key of 127 bytes or more is admitted any number of requests of any affordable cost at one instant |
| `RateLimiterAliases.LimitedIffShort` | src/ratelimiter.c:56-105 | the token bound and the window bound hold of a key in all company exactly if it is shorter than 127 bytes; for 127 bytes under two requests per window or more |
| `RateLimiterAliases.AlwaysLimitedIffShort` | src/ratelimiter.c:56-105 | both bounds hold of a key under every configuration exactly if it is shorter than 127 bytes |
| `RateLimiterAliases.IsolatedIffShort` | src/ratelimiter.c:56-105 | a key is always served as if alone exactly if it is shorter than 127 bytes |
| `RateLimiterFullKeys.WindowBoundedIff` | src/ratelimiter.c:69-104 | for every configuration and key, the window bound holds exactly for keys under 127 bytes, and for those of 127 bytes if a window has one request |
| `RateLimiterFullKeys.FullKeyBoundedIfWindowEarns` | src/ratelimiter.c:69-104 | with one request per window the token bound holds of a key of 127 bytes if a window earns its bucket and a token |
| `RateLimiterFullKeys.FullKeyUnboundedIfWindowsFallShort` | src/ratelimiter.c:69-104 | it does not if some number of windows earns a token less than as many buckets |
| `RateLimiterFullKeys.FullKeyBoundedWithoutRequests` | src/ratelimiter.c:98-100 | it holds if windows have no requests |
| `ModelHealth.AIModel.constructor` | src/ai/prompt_router.c:755-785 | a new model is healthy or lacks its key, with a tier from 1 to 4 |
| `ModelHealth.AIModel.ProviderIsEligible` | src/ai/prompt_router.c:153-174 | the eligibility answer, lifting an expired quarantine or cool-down in place |
| `ModelHealth.AIModel.IsModelUsable` | src/ai/prompt_router.c:176-185 | usable: not out of use, no deadline ahead, not rate limited |
| `ModelHealth.AIModel.Gate` | src/ai/prompt_router.c:513-538 | what really refuses an attempt, and with which error, for two readings of the clock |
| `ModelHealth.AIModel.UpdateModelHealth` | src/ai/prompt_router.c:415-484 | the whole new health record and health flag after each outcome |
| `ModelHealth.AIModel.SendToModel` | src/ai/prompt_router.c:507-688 | a refused attempt changes nothing; one that goes out is recorded in health, latencies and account, and fails only on a transport error |
| `ModelHealth.AIModel.HotReload` | src/ai/prompt_router.c:828-836 | a missing key takes the model out, a key that is back makes it healthy, anything else stays |
| `ModelHealth.AIModel.SetModelState` | src/ai/prompt_router.c:1071-1075 | an explicit state change touches nothing else of the record |
| `ModelHealthRuns.SoundStep` | src/ai/prompt_router.c:513-538 | an attempt in flight began after all deadlines now set; every kind of step keeps this |
| `ModelHealthRuns.DeadlinesRespected` | src/ai/prompt_router.c:153-185 | after any history of a fresh model, no attempt of any continuation, administration included, goes out before a quarantine or circuit deadline set by then |
| `ModelHealthRuns.IdleDecommissionedStays` | src/ai/prompt_router.c:153-174 | routing and sending alone never contact a decommissioned idle model again |
| `ModelHealthRuns.InFlightRevives` | src/ai/prompt_router.c:449-454 | an attempt in flight that ends rate limited undoes the mark |
| `ModelHealthRuns.DecommissionedIffIdle` | src/ai/prompt_router.c:415-484 | no later contact, exactly when no attempt was in flight at the mark |
| `ModelHealthRuns.PacedStep` | src/ai/prompt_router.c:437-483 | the invariant that ties quarantine, window and the last contacts is kept by every step of a failing model |
| `ModelHealthRuns.FailingModelPaced` | src/ai/prompt_router.c:437-483 | a model that only fails is contacted for the third time at least 60 s after the first, and its circuit never opens |
| `ModelHealthRuns.FailingModelRate` | src/ai/prompt_router.c:153-185 | any t seconds hold at most 2 * (t / 60 + 1) of its contacts |
| `ModelHealthRuns.UnripeRun` | src/ai/prompt_router.c:455-479 | a model that cannot be tried again before a window with two of its failures ends stays so through every undisturbed run |
| `ModelHealthRuns.OpensLateIffRipe` | src/ai/prompt_router.c:437-483 | some undisturbed continuation opens the circuit on the third failure in a row or later, exactly if two failures and two counts stand, the model is in use, and clock and quarantine end before the window |
| `ModelHealthRuns.CircuitOpensEarly` | src/ai/prompt_router.c:455-479 | in a run without rate-limit errors and revivals the circuit opens on the first or second failure in a row only |
| `ModelHealthRuns.DisturbedCircuitOpensLate` | src/ai/prompt_router.c:441-454 | either disturbance alone leads a fresh model to such a state |
| `ModelHealthRuns.ProbePassesIff` | src/ai/prompt_router.c:176-185 | an attempt at an open circuit goes out exactly past both deadlines and in a state that is in use |
| `ModelHealthRuns.ProbeRestores` | src/ai/prompt_router.c:417-435 | one success behind an open circuit makes the model behave in every later run as a fresh one |
| `ModelHealthWaits.RateLimitWait` | src/ai/prompt_router.c:449-454 | after a rate-limit error at t, routing and sending can contact the model at u in some run exactly if u >= t + 10, whatever its record held |
| `ModelHealthWaits.FailureWait` | src/ai/prompt_router.c:455-483 | after any other failure exactly from t + 30 on if it is the third within 60 s, else from t + 60 if it is not the first in a row, else from t on |
| `ModelHealthWaits.SuccessWait` | src/ai/prompt_router.c:417-436 | after a success from t on, and at once without a check; from t + 5 on if it reports a rate limit |
| `ModelHealthWaits.DecommissionedWait` | src/ai/prompt_router.c:441-448 | after a decommissioning error never |
| `ModelHealthWaits.NextFailureWait` | src/ai/prompt_router.c:153-174 | the failure after another failure, rate limited or not, costs 60 s; the one after a success or a served quarantine nothing |
| `ModelHealthWaits.ThreeFailuresIff` | src/ai/prompt_router.c:455-471 | failures at three times with successes between open the circuit, for 30 s, exactly if the third is less than 60 s after the first |
| `ModelHealthWaits.PaceReached` | src/ai/prompt_router.c:153-174 | a model that only fails can be contacted twice in every minute, for any number of minutes |
| `ModelHealthWaits.KeyLostAndBack` | src/ai/prompt_router.c:828-836 | no check passes without the key; with the key back all do past the old deadlines, whatever mark the model had |
| `ModelHealthWaits.RefusalSays` | src/ai/prompt_router.c:513-538 | which refusal is reported when |
| `Routing.ScanExact` | src/ai/prompt_router.c:933-937 | a scan takes each model it is to take exactly once, and leaves none unchecked unless the list filled up |
| `Routing.SortRanks` | src/ai/prompt_router.c:938-946 | the exchange sort permutes the list into ascending score |
| `RoutingLaws.FailoverServesFirst` | src/ai/prompt_router.c:993-1029 | the first candidate whose attempt succeeds answers, none after it is contacted, and failure means that all failed |
| `RoutingLaws.RankingExact` | src/ai/prompt_router.c:1142-1164 | a ranking holds exactly the eligible models within the limits, each once, in ascending score |
| `RoutingLaws.SmartRanking` | src/ai/prompt_router.c:930-951 | the candidates for an unnamed prompt are exactly the eligible models of tier 1 and up, best score first |
| `RoutingLaws.OptionsWithinLimits` | src/ai/prompt_router.c:1122-1164 | every candidate meets the tier and cost limits; a requested one that does stands alone, otherwise all that do are ranked |
| `RoutingLaws.SelectionSound` | src/ai/prompt_router.c:891-989 | candidates are distinct models of the table and fit the array of 64 |
| `RoutingLaws.SmartSound` | src/ai/prompt_router.c:952-978 | a router with at least one model always has a candidate |
| `RoutingLaws.RequestedFirst` | src/ai/prompt_router.c:894-929 | a requested model is tried first, alone if eligible, otherwise followed by all eligible others |
| `RoutingLaws.SmartServesBest` | src/ai/prompt_router.c:930-1029 | a whole unnamed request is answered by the lowest-scoring model among those that would have answered, and fails only if there is none |
| `RoutingChoices.ScoreIsBurden` | src/ai/prompt_router.c:187-206 | the score is 0.4 times mean seconds plus five times dollars per call plus a mark (one second for degraded); an untried model counts as a free one of 3.75 s |
| `RoutingChoices.OrderedByBurden` | src/ai/prompt_router.c:938-946 | ranked lists are those ascending in that measure |
| `RoutingChoices.SmartServesLeastBurden` | src/ai/prompt_router.c:930-1029 | an unnamed request is answered by a model of least such measure among those that would have answered |
| `RoutingChoices.SmartPrefers` | src/ai/prompt_router.c:187-206 | against each model that would have answered, it is the faster of two alike in mark and cost, the cheaper of two alike in mark and latency, the healthy one of two alike otherwise; 1 s weighs as 0.2 USD per call or as degraded health |
| `RoutingChoices.OrderedStays` | src/ai/prompt_router.c:938-946 | a list already in order, ties included, is left as it is |
| `RoutingChoices.ScanInOrder` | src/ai/prompt_router.c:952-959 | a scan that ends when the list is full takes the first models it may, in table order |
| `RoutingChoices.PlainSelectionIs` | src/ai/prompt_router.c:979-989 | without smart routing a prompt goes to the first model named as the default, without one to the first of the table, and nowhere else |
| `RoutingChoices.SmartFallback` | src/ai/prompt_router.c:952-978 | with nothing to rank: the models eligible by then in table order, else the default whatever its state, else those with a key, else the first |
| `RoutingChoices.RequestedFollowers` | src/ai/prompt_router.c:894-929 | the models tried after a requested one are the first 63 eligible others in table order |
| `RoutingLaws.UnknownNameNeverRouted` | src/ai/prompt_router.c:894-922 | the list is empty exactly for a name not in the table, and then nothing is tried or changed |
| `RoutingLaws.AnswersIffFirstCompleted` | src/ai/prompt_router.c:993-1029 | a model answers a request exactly if it is the first candidate whose transfer completes, with whatever status |
| `RoutingLaws.RetiredLeftAlone` | src/ai/prompt_router.c:884-1030 | no request is answered by a decommissioned model or changes anything about it |
| `RoutingLaws.DisabledServesByName` | src/ai/prompt_router.c:513-538 | a disabled model asked for by name answers exactly if its circuit is closed and no quarantine runs |
| `RoutingLaws.EligibleRefusedIff` | src/ai/prompt_router.c:153-185 | a model that a check has let through is refused exactly while a circuit or quarantine deadline lies ahead |
| `RoutingLaws.FailureTrips` | src/ai/prompt_router.c:459-471 | the failure that opens a circuit leaves the model eligible exactly if no older quarantine runs |
| `RoutingLaws.TrippedModelStaysCandidate` | src/ai/prompt_router.c:930-1029 | in any series of requests until the circuit's deadline, each ranks the model and none is answered by it |
| `RoutingLaws.OverrunIffManyEligible` | src/ai/prompt_router.c:931-937 | the ranking array is overrun exactly if more than 64 models are eligible within the limits |
| `PromptRouting.PromptRouter.CheckModel` | src/ai/prompt_router.c:934-934 | checking one model of the table changes no other |
| `PromptRouting.PromptRouter.Collect` | src/ai/prompt_router.c:933-937 | one scan fills the array with the models it takes and leaves the table checked, and overruns the array exactly if it is to take more than fit |
| `PromptRouting.PromptRouter.SortByScore` | src/ai/prompt_router.c:938-946 | the in-place double loop computes the exchange sort |
| `PromptRouting.PromptRouter.RequestedCandidates` | src/ai/prompt_router.c:894-929 | candidates and table after a request for a named model |
| `PromptRouting.PromptRouter.SmartCandidates` | src/ai/prompt_router.c:930-978 | candidates and table after a request without a name, through all fall-backs, or when the array is overrun |
| `PromptRouting.PromptRouter.RouteCandidates` | src/ai/prompt_router.c:891-989 | the three ways of selecting |
| `PromptRouting.PromptRouter.OptionsCandidates` | src/ai/prompt_router.c:1122-1164 | candidates and table after a request with limits, or when the array is overrun |
| `PromptRouting.PromptRouter.TryCandidates` | src/ai/prompt_router.c:993-1029 | the failover loop over the table |
| `PromptRouting.PromptRouter.Route` | src/ai/prompt_router.c:884-1030 | 0 and the answering model's name, or -1 and the empty name, and the table as the whole request leaves it, unless the array is overrun |
| `PromptRouting.PromptRouter.RouteWithOptions` | src/ai/prompt_router.c:1114-1181 | the same with tier and cost limits |
| `HttpParsing.HTTPParser.constructor` | src/http_parser.c:8-13 | the parser's initial state |
| `HttpParsing.HTTPParser.TargetByte` | src/http_parser.c:52-88 | one byte of method, path or query |
| `HttpParsing.HTTPParser.FinishValue` | src/http_parser.c:163-207 | the CR behind a header value: the line is recorded and compared |
| `HttpParsing.HTTPParser.HeaderByte` | src/http_parser.c:130-225 | one byte of the header lines |
| `HttpParsing.HTTPParser.ExecuteBuffer` | src/http_parser.c:38-242 | the whole loop over a buffer, with the state it leaves and the error it returns |
| `HttpParsing.HTTPParser.Finish` | src/http_parser.c:244-250 | complete exactly from the states in or past the headers |
| `HttpParserRuns.EndUnseen` | src/http_parser.c:38-242 | before the body the end of the buffer does not influence the parser |
| `HttpParserRuns.SplitInvariance` | src/http_parser.c:38-242 | a buffer handed over in two pieces, cut before the body, gives the same parser and answer as in one |
| `HttpParserRuns.PiecesInvariance` | src/http_parser.c:38-242 | the same for any number of pieces |
| `HttpParserRuns.SplitIffBeforeBody` | src/http_parser.c:38-242 | from a fresh parser it holds exactly if the first piece does not complete the request; if it does, the rest is dropped |
| `HttpParserRuns.LineHasColon` | src/http_parser.c:163-207 | comparing a whole line never recognises a length or connection header |
| `HttpParserRuns.TrackedFeed` | src/http_parser.c:38-242 | the invariant on where slices lie is kept over all bytes |
| `HttpParserRuns.SlicesOrdered` | src/http_parser.c:38-242 | path, query and header lines lie in the buffer, in order and apart |
| `HttpParserRuns.ContentLengthNeverSeen` | src/http_parser.c:163-207 | for no input does the parser learn a body length or keep-alive; a request ends with its headers |
| `HttpParserRuns.BodySliceIff` | src/http_parser.c:130-140 | the body slice of a complete request lies in the buffer, and is all that follows, exactly if its headers end with CR LF |
| `HttpParserRuns.ContentTypeIff` | src/http_parser.c:173-188 | the content type is noted exactly at the end of a line of 14 bytes that begins with its name in any case |
| `HttpPrint.ParseMethodExact` | src/http_parser.c:15-32 | exactly six verbs are known |
| `HttpPrint.UnknownVerbRefused` | src/http_parser.c:62-70 | any other token is refused as an invalid method |
| `HttpPrint.OptionsRefused` | src/http_parser.c:27-30 | among them OPTIONS |
| `HttpPrint.BlankStartRefused` | src/http_parser.c:52-56 | exactly requests that begin with a space or a line end are refused at their first byte |
| `HttpPrint.NameEndsIff` | src/http_parser.c:142-152 | a header name ended by anything but a colon makes the request malformed, at that byte and wherever the buffer ends |
| `HttpPrint.JunkSkipped` | src/http_parser.c:58-225 | bytes a state does not wait for are passed over, any number of them |
| `HttpPrint.VersionRestarts` | src/http_parser.c:90-106 | a start of "HTTP/" that goes wrong is dropped with the byte that breaks it |
| `HttpPrint.MinorLastDigit` | src/http_parser.c:118-124 | of several minor digits the last one is kept |
| `HttpPrint.LineEndsItselfIff` | src/http_parser.c:154-167 | a header line is ended by its own CRLF exactly if its value has a byte other than space and tab |
| `HttpPrint.FeedLines` | src/http_parser.c:130-213 | any list of header lines is recorded line by line, the first 64 of them |
| `HttpPrint.PrintThenParse` | src/http_parser.c:38-242 | print then parse: verb, path, query, version, the first 64 header lines and the body of every valid request come back from one call, which ends complete |
| `ConnectionTables.ConnectionTable.HashAdd` | src/server.c:115-123 | the new index entry goes to the front of its chain |
| `ConnectionTables.ConnectionTable.HashRemove` | src/server.c:125-133 | the first entry for the fd goes, later ones stay |
| `ConnectionTables.ConnectionTable.AddConnection` | src/server.c:135-161 | the table grows by the connection, doubling its array when full, and so does the index |
| `ConnectionTables.ConnectionTable.FindConnection` | src/server.c:163-182 | look-up in the index, then in the table, re-indexing what the index missed |
| `ConnectionTables.ConnectionTable.RemoveConnection` | src/server.c:184-203 | swap-remove with the moved connection indexed anew |
| `ConnectionTables.ConnectionTable.ReapDuringScan` | src/server.c:405-423 | deleting at the scan position keeps the scan's invariant, also when the slot read next is just past the new end |
| `ConnectionTables.ConnectionTable.Reap` | src/server.c:385-429 | one pass leaves the connections that had not expired in the order its moves give, each expired one closed once, and the active count lowered by their number |
| `ConnectionTables.SweptIsLive` | src/server.c:394-425 | those moves keep exactly the connections that have not expired |
| `ConnectionTables.PartsUnique` | src/server.c:394-425 | a table splits into expired and live connections in one way only |
| `ConnectionTables.ReaperRule` | src/server.c:394-425 | a draining connection idle for more than 5 s and an active one idle for longer than the timeout go, if ever used, and no other; each by closing its TLS connection, or its fd without one |
| `ConnectionTables.RemovedOne` | src/server.c:184-203 | a removal takes the first connection with the fd and no other, and the last one gets its slot |
| `ConnectionRuns.FindIsLinearSearch` | src/server.c:163-182 | whatever stale entries there are, a look-up of an fd that occurs at most once answers what a search of the table answers and leaves a valid entry for it |
| `ConnectionRuns.FindExactIffOnce` | src/server.c:163-182 | for every index it does, exactly if the fd occurs at most once |
| `ConnectionRuns.OnceIffFresh` | src/server.c:135-203 | a run, reaper passes included, keeps an fd at one place exactly if it never adds the fd while it is there |
| `ConnectionRuns.FindCorrectIffFresh` | src/server.c:111-203 | with the index the run has built, every look-up of the fd is right at every point exactly in these runs |
| `ConnectionRuns.FindExactIffFresh` | src/server.c:111-203 | and with any other index over the run's tables |
| `ConnectionRuns.FdReusedBeforeRemoval` | src/server.c:358-364 | between closing an fd and removing its row a look-up of the reused number finds the new row and a search the old one, which the removal takes |
| `ConnectionRuns.IndexedIffHarmless` | src/server.c:111-203 | in every run that adds no fd which is still there, every live fd keeps a valid index entry at every point exactly if no reaper pass moves a connection to a slot the index does not name |
| `ConnectionRuns.IndexedFindsAtOnce` | src/server.c:163-172 | then no look-up of a live fd searches the table |
| `ConnectionRuns.ReapKeepsIndexIff` | src/server.c:394-425 | a pass leaves a full index full exactly if the index already names what it moves |
| `ConnectionRuns.ReapKeepsIndexIffBehind` | src/server.c:394-425 | without stale entries, exactly if every expired connection stands behind every live one |
| `ConnectionRuns.ReapLosesEntry` | src/server.c:405-423 | any idle connection in front of a busy one makes a pass lose the busy one's entry |
| `ConnectionRuns.EntriesStep` | src/server.c:115-203 | how many index entries each fd has after every addition, look-up and removal, the stale one of a moved connection included |
| `Base64Decoding.Decode` | src/server.c:45-73 | the bytes written, exactly those that fit, and -1 exactly when they do not |
| `Base64Decoding.WrapHarmless` | src/server.c:59-70 | the wrapping 32-bit accumulator writes what an unbounded one would |
| `Base64Decoding.DecodeSpelled` | src/server.c:45-73 | a text whose alphabet characters spell the encoding of some data decodes to the data |
| `Base64Decoding.DecodeEncode` | src/server.c:45-73 | every standard or URL-safe encoding, padded or not, is undone |
| `Base64Decoding.ForeignCharactersIgnored` | src/server.c:60-70 | characters outside the alphabets do not matter, wherever they stand |
| `Base64Decoding.DecodedLength` | src/server.c:59-72 | six eighths of a byte come out per character that counts |
| `Base64Decoding.AlphabetIs` | src/server.c:46-55 | a character counts exactly if it is in the standard or the URL-safe alphabet, with its place there as its value |
| `JsonText.JsonEscape` | src/ai/prompt_router.c:97-126 | the escaped text and its NUL, always within the doubling buffer |
| `JsonText.ParseJson` | src/parser.c:244-288 | -1, or 0 with the text of the prompt and its NUL in the output, nothing written behind it |
| `JsonText.ReadText` | src/parser.c:263-281 | the cursor loop reads up to the closing quote, unescaping |
| `JsonRoundTrip.UnitsOfEscape` | src/ai/prompt_router.c:97-126 | for every text the escape is a JSON string that stands for it |
| `JsonRoundTrip.ParseAgreesWithGrammar` | src/parser.c:244-288 | any JSON string body is read as the grammar says, or refused if it uses an escape beyond the five known |
| `JsonRoundTrip.EscapeThenParse` | src/parser.c:244-288 | escaping then parsing gives the text back exactly if its control characters are only LF, CR and TAB |
| `JsonRoundTrip.TextIsUnits` | src/parser.c:263-281 | a string, closed or cut off by the end of the text, is read as far as the output has room, if its escapes up to there are known, and refused otherwise |
| `JsonRoundTrip.PromptIsFirst` | src/parser.c:256-287 | the prompt is the value of the first key with a string value, keys without one being passed over; there is none exactly if no key has one |
| `JsonRoundTrip.PromptReadAnywhere` | src/parser.c:244-288 | behind any text in which no key begins, the key, separators and a quoted string are read as the grammar says |
| `JsonRoundTrip.EscapeShortest` | src/ai/prompt_router.c:97-126 | no JSON string for a text is shorter than its escape |
| `JsonRoundTrip.EscapeInjective` | src/ai/prompt_router.c:97-126 | different texts have different escapes |
| `ChunkedStream.Stream.SendWithTimeout` | src/stream.c:26-45 | for every schedule of partial sends, exactly how it ends: result, bytes on the wire and sends used; everything or a proper part |
| `ChunkedStream.Stream.SendChunkEx` | src/stream.c:133-161 | one frame in three parts as the schedule decides: in full, or an error that leaves a proper part of it, with the full parts counted |
| `ChunkedStream.Stream.End` | src/stream.c:56-68 | the terminator, once, and the stream ended exactly if the schedule takes all of it |
| `ChunkedStream.Stream.SendPieces` | src/stream.c:83-98 | the chunk loop frames the payload in pieces of 32 bytes, exactly as far as the schedule takes it, and counts bytes and chunks |
| `ChunkedStream.Stream.RespondBody` | src/stream.c:83-101 | result, wire and end for every schedule, streamed, in one chunk or without data; 0 and ended if all sends take something or block in time and there are as many as bytes |
| `ChunkedStream.WaitedIff` | src/stream.c:31-44 | with a timeout a part gets out exactly if the sends before the first bad one take all of it; otherwise that one decides between timeout and closed |
| `ChunkedStream.OutcomeIff` | src/stream.c:27-30 | without a timeout exactly if the first send takes all of it |
| `ChunkedStream.SingleSends` | src/stream.c:27-30 | without a timeout all parts get out exactly if each has a send of its own that takes all of it |
| `ChunkedStream.SteadySeries` | src/stream.c:26-45 | with one, a schedule without bad sends and with as many taking sends as bytes is enough for any list of parts |
| `ChunkedStream.HeaderFits` | src/stream.c:139-140 | the size line of any length fits its 32-byte buffer |
| `ChunkedDecoding.NumberOfHex` | src/stream.c:140-140 | printing a size in hexadecimal and reading it are inverse |
| `ChunkedDecoding.DecodeFrame` | src/stream.c:137-154 | a frame in front of a body adds its data in front of the payload |
| `ChunkedDecoding.WrittenBodyDecodes` | src/stream.c:56-98 | what a complete response wrote decodes to exactly its payload and ends where the writer ended it |
| `ChunkedDecoding.CutBodyIsIncomplete` | src/stream.c:56-98 | a response cut off anywhere is never taken for a complete one |
| `CompletionRings.MaskIsRemainder` | src/iouring_engine.c:256-261 | masking with a power of two less one is the remainder |
| `CompletionRings.SlotSurvivesWrap` | src/iouring_engine.c:256-261 | a wrapped counter gives the slot of the true one |
| `CompletionRings.FaithfulStep` | src/iouring_engine.c:252-265 | posting, reading and publishing keep ring and log in agreement |
| `CompletionRings.ExactlyOnceInOrder` | src/iouring_engine.c:252-265 | from the ring as set up, in every interleaving, completions are read exactly once and in order, and no slot is overwritten before it is handed back |
| `CompletionRings.CompletionRing.CqReady` | src/iouring_engine.c:252-254 | the wrapped difference is the number of completions waiting |
| `CompletionRings.CompletionRing.GetCqe` | src/iouring_engine.c:256-261 | reading one completion |
| `CompletionRings.CompletionRing.HandleCqes` | src/iouring_engine.c:394-451 | while the kernel goes on posting, the loop handles all that is posted before its last look, in order, and hands the slots back |
| `CompletionRings.SubmissionRing.GetSqe` | src/iouring_engine.c:244-250 | a slot no other request of the batch has, or none exactly when all are taken; it still holds an untaken request exactly when the kernel's lag and the batch fill the ring |
| `CompletionRings.SubmissionRing.Submit` | src/iouring_engine.c:222-235 | the batch is counted rightly across wrap-around, and as handed over even if the kernel takes less |
| `StringReplacing.MatchesLeftmost` | src/utils.c:298-303 | the matches visited do not overlap and no occurrence begins outside them |
| `StringReplacing.LeftmostUnique` | src/utils.c:298-303 | there is only one such list of places |
| `StringReplacing.ReplacesLeftmostMatches` | src/utils.c:290-344 | the result is the text with exactly these places exchanged |
| `StringReplacing.LengthFormula` | src/utils.c:310-310 | the wrapping length formula is right exactly if the true length is a size_t |
| `StringReplacing.StrReplace` | src/utils.c:290-344 | null for missing arguments, otherwise a buffer that holds the replaced text and its NUL and nothing more |
| `StringReplacing.Build` | src/utils.c:323-343 | the second pass fills the buffer exactly |
| `StringReplaceLaws.ReplaceBack` | src/utils.c:290-344 | a replacement by text with no byte of the original is undone by the reverse replacement |
| `StringReplaceLaws.ReplaceEliminates` | src/utils.c:290-344 | a replacement that shares no byte with the searched text leaves no occurrence of it |
| `StringReplaceLaws.DeletionLeavesOccurrence` | src/utils.c:332-339 | a text of different bytes, wrapped around itself and deleted, is left |
| `StringReplaceLaws.DeletionEliminatesIff` | src/utils.c:290-344 | deletion leaves no occurrence in any text exactly if the deleted text repeats one byte |

## Left out

- Sockets, epoll, io_uring system calls, TLS, HTTP/2, libcurl, plugins, signals, logging and files: foreign calls, whose outcomes are parameters.
- Allocation failure: every allocation succeeds.
- Locks: a locked region is one step; the reading of the limiter's clock before the lock is covered by inversions, the index read before the lock by the look-up being one step.
- RateLimiterFullKeys.FullKeyBoundedIfWindowEarns: sufficient only; between it and `FullKeyUnboundedIfWindowsFallShort` the token bound of a key of 127 bytes under one request per window is left open.
- RateLimiterAliases.LimitedIffShort: for keys of 127 bytes it asks for two requests per window; the cases of one and of none are in `RateLimiterFullKeys`.
- Integer counters of a health record and the latency sums: unbounded, since they count events; the window arithmetic wraps at 64 bits as in the code.
- Scores and costs are real numbers: rounding of floating point is not modelled.
- The retry loop inside an attempt and the HTTP exchange: one attempt has one outcome.
- RoutingLaws.SmartServesBest: about one request with no other request between its selection and its last attempt; interleavings are covered model by model in `ModelHealthRuns`.
- PromptRouting.PromptRouter.Route: says when the ranking array is overrun, but not what the source does then, which is undefined.
- Token estimates, log lines, and the response text of a routed prompt.
- Adding and removing models at run time, and renaming the default.
- `parse_ai_response`: a second unescaper of the kind proved for `parse_json`.
- ConnectionTables.ConnectionTable.Reap: one pass is one step.
- Receiving into a connection's buffer and `ensure_capacity`: doubling a capacity would add an easy member.
- Base64Decoding.Decode: the accumulator wraps at 32 bits and shifts as an unsigned word, as it does where compiled code wraps signed shifts.
- Decoding of chunk extensions and trailers: the writer sends none.
- The response header of a streamed response, server-sent events, callbacks and timing statistics.
- `StreamBuffer`: one position serves reads and writes, so reading back what was written is not what it does.
- Rings of more than 65536 slots, which the kernel does not offer; kernel-side polling is not distinguished from taking entries later.
- `str_replace_ex` with a pool.
- src/cache.c, src/router.c, src/firewall.c, src/optimizer.c, src/observability.c, src/config.c, src/plugin.c, src/arena.c, the gateway, statistics, moderation and tokenizer files, and the assembly: tables, counters and formatting, or claims that do not hold over their runs.
