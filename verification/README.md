# Verification of owid-python

A Dafny 4.11 model of the Python OWID package, with proofs. An OWID is a small signed envelope: a version
byte, the domain of its creator, a date, a payload and a 64 byte signature. The package writes and reads
envelopes, runs the creator's public key end point, and fetches, caches and shares the keys needed to say
whether a signature is genuine. The project follows an OWID from its creation to the verdict on its signature.

Check the whole of it with `dafny verify dfyconfig.toml`.

## How the model is laid out

| file | what it models |
|---|---|
| `Common.dfy` | options, minutes, the answers about a signature |
| `KeyStore.dfy` | the store of fetched keys: lookups, holding an answer, the table of requests in flight, and the mutable classes |
| `StoreLaws.dfy` | what holds of the store whatever creators answer |
| `Timeline.dfy` | a creator's real periods, and the store measured against them |
| `Verdict.dfy` | the coroutine that reaches a verdict, and what its verdicts mean |
| `Protocol.dfy` | callers, tasks, shared futures and clears as a state machine |
| `Forgery.dfy` | the safety of every run of that machine, and exactly what it asks of a creator |
| `Histories.dfy` | every run of the machine as runs of the coroutine |
| `Judgement.dfy` | the exact verdict in every run, under a whole published schedule |
| `RequestBound.dfy`, `MachineRequests.dfy` | how many requests lookups cost, of the store and of the machine |
| `Schedule.dfy` | the creator's schedule and the key in force |
| `Endpoints.dfy` | the creator's end point, the check on its answer, what a client reads |
| `Requests.dfy`, `Fetching.dfy` | the text of the URLs keys are asked for with, and what a request ends with |
| `EndToEnd.dfy` | both ends joined |
| `Impostors.dfy` | what becomes of signatures no key of the creator verifies |
| `Bytes.dfy`, `Wire.dfy` | integers and text as bytes; the bytes an OWID is written as |
| `Parse.dfy`, `Framing.dfy`, `Walk.dfy` | the indexed walk, the streaming laws, walking a run of frames |
| `Io.dfy`, `RoundTrip.dfy` | the appending writer, the raising reader, round trips, the readers compared |
| `Base64.dfy`, `Creation.dfy` | the text form; creating, signing and transport |

Moments are whole microseconds since 2020-01-01 00:00 UTC, minutes are counted from the same instant, and every
truncation the code makes is written out. A URL is an end point and an optional minute. A key is a PEM; what it
verifies is a parameter, with one law: what a private key signs verifies under its PEM. Clocks are parameters of
each step. The verifier's clock is unconstrained in the safety theorems and never decreases where a theorem says so.

A creator is described by the whole list of periods it ever publishes. When it answers, it has published a front
part of that list, and every period still to come starts after its clock. A schedule published in one piece is the
case where the front part is everything.

The protocol is a machine with eight actions. Each block the code runs under its lock is one action, publishing a
result on a shared future is another, and so are the arrival, the resumption and the cancellation of a caller, the
creation of a task, and a clear. A theorem about runs is about every interleaving of them.

## Main results

* No genuine identifier is called a forgery, in any run of the machine (`Forgery`), from the creator's schedule
  and end point (`EndToEnd.EndPointNeverMakesForgeries`), and from the bytes it signed
  (`EndToEnd.FromCreationToVerdict`). What this asks of each answer is exact (`Forgery.FairnessIsExact`).
* Without outages the verdict is exact: every check that ends ends with the one status the periods give
  (`Judgement.VerdictIsExactInEveryRun`), so a genuine identifier with VALID (`EndToEnd.EndPointMakesGenuineValid`,
  `EndToEnd.FromCreationToValid`), and from every state at most fifteen actions reach it
  (`Judgement.EveryCheckReachesItsVerdict`, `EndToEnd.EndPointBringsToValid`).
* A signature that no key its creator ever publishes verifies is called valid in no run (`Impostors.ForgedIsNeverValid`,
  `Impostors.ForgedIsNeverValidAtEndPoint`), and without outages it is called what it is
  (`Impostors.ForgedIsCalledForged`).
* Every status is accounted for: by the outcomes received (`Verdict.VerdictIsReadOff`), by the first of them in every run
  (`Protocol.OwnOutcomeDecides`), by what came back for a request (`Fetching.ReplyMeans`), and by the key and the
  signature (`Creation.StatusMeans`). So is every answer of a read, by the bytes (`Parse.WhyRefusedEarly`,
  `Parse.WhyRefusedLater`) or the text (`Base64.TextIsRefusedWhere`).
* The cache agrees with the creator (`Timeline.CacheAgreesWithCreator`), and is sound under any creator
  (`StoreLaws.StoreIsAlwaysSound`, `StoreLaws.AttributionIsStable`).
* Single flight, with every waiter handed the outcome its request ends with, for the URL it asked for, and every check
  brought to an end (`Protocol`).
* VALID is bounded in time, and clock skew is forgiven exactly where the answer states the edge (`Verdict`); in every
  run of the machine too, because each caller there stands where the coroutine does
  (`Histories.EveryRunIsTheCoroutine`).
* A key held is not asked for (`MachineRequests.HeldKeyIsNotAskedFor`), and lookups reach a creator once for each key
  whose period they ask about (`RequestBound.OneRequestForEachKey`, `MachineRequests.OneTaskForEachKey`).
* The framed read answers a stream: any answer but an unexpected end is final, and an unexpected end is exactly a
  buffer that could still become an envelope (`Framing.StreamingTrichotomy`).
* Round trips, the walk and the two readers, each with the exact condition under which they hold (`RoundTrip`, `Walk`).

## Where the code does less than its documentation suggests

* Skew across a later edge is not always forgiven. A creator that publishes its next key later leaves the end of a
  held period unstated, and an OWID of that period signed one key ahead is then reported as not matching, where the
  module comment (owid/public_key_fetch.py:44-47) says the key beyond the edge is tried
  (`Verdict.SkewMissedWhereEndUnstated`). It is forgiven exactly where the answer states the edge.
* The module comment says a key that was not in force proves nothing about an identifier
  (owid/public_key_fetch.py:50-55). The code can tell only where the answer says so. A creator whose clock is behind,
  within the allowance, and which states no end can answer for a minute it has not reached with the key before the
  one in force, and a genuine identifier is then reported as not matching (`Forgery.CreatorBehindMakesForgery`).
  The exact condition on an answer is `Forgery.FairInStep`: the creator's clock had reached the minute, or it stated
  both ends, or its key is still in force then. Every other answer has such a run (`Forgery.UnfairAnswerMakesForgery`).
* A creator can refuse its own answer, where the moment looked up lies in the same second as the start of the next
  key, because the answer's text drops fractions of a second (owid/endpoints.py:175;
  `Endpoints.CreatorRefusesOwnAnswer`).
  Every later start that is not a whole second gives such a moment (`Endpoints.FractionalStartIsRefused`), as at
  `Endpoints.RefusalAtAnInput`.
* The comment at owid/creator.py:68-71 says a creator that could only produce OWIDs the library refuses to read never
  exists. One can exist that creates nothing, or only OWIDs that do not read back as they were: one whose domain
  holds the NUL character, or is not ASCII (`Creation.CreatorCreates`, `Creation.CreatedSurvivesTransport`; inputs at
  `Creation.AcceptedButCannotCreate` and `Creation.AccentedDomainIsLost`).
* The two readers differ on a buffer that starts with the absent marker, which the raising route reads as an empty OWID
  (owid/owid.py:196-198), and on one accepted with a domain that is not ASCII, and on no other
  (`RoundTrip.ReadersAgree`; a buffer of each kind at `RoundTrip.ReadersDifferAtAnInput`).
* The loop in the documentation of the framed read (owid/parse.py:109-113) stops at an absent frame and finds none
  after it (`Walk.BreakingWalkStopsAtAbsent`; a list at `Walk.AbsentFrameStopsTheBreakingWalk`). It undoes writing
  exactly where no frame is absent and each OWID is lossless (`Walk.BreakingWalkUndoesWriting`). The loop in README.md
  of the package, which steps over an absent frame, needs only the latter (`Walk.WalkingUndoesWriting`).

## Model

| member | source | states |
|---|---|---|
| KeyStore.HeldKey.constructor | owid/public_key_fetch.py:137-151 | a held key is made with the PEM, span and flags given |
| KeyStore.KeyCache.constructor | owid/public_key_fetch.py:194-206 | the stores begin empty |
| KeyStore.KeyCache.Clear | owid/public_key_fetch.py:297-308 | keys, their count and the requests in flight are all forgotten |
| KeyStore.KeyCache.LookUp | owid/public_key_fetch.py:536-549 | the loop answers with the first held key serving the minute at this moment, or nothing |
| KeyStore.KeyCache.BeginAsk | owid/public_key_fetch.py:424-433 | under the lock a caller hits, joins the request running, or leads a new one, and only leading adds an entry |
| KeyStore.KeyCache.Settle | owid/public_key_fetch.py:462-465 | an answer is held, and the entry removed only where it is this request's own |
| KeyStore.KeyCache.Abandon | owid/public_key_fetch.py:468-471 | a failure holds nothing and removes only its own entry |
| KeyStore.KeyCache.Widen | owid/public_key_fetch.py:635-651 | the span becomes the hull of both exactly where no other key meets the hull, and else is unchanged |
| KeyStore.KeyCache.Absorb | owid/public_key_fetch.py:607-619 | a key held already takes in the new span and flags, or nothing |
| KeyStore.KeyCache.Append | owid/public_key_fetch.py:620-631 | a new key is added, to an emptied store where it was full |
| KeyStore.KeyCache.HoldAnswer | owid/public_key_fetch.py:573-632 | the whole new state of the mutable store, over lists and key objects changed in place, and the span returned |
| StoreLaws.StoreIsAlwaysSound | owid/public_key_fetch.py:573-651 | after any run of answers and clears, spans are real and disjoint, PEMs distinct, explicit and open ended never both, and the count is exact and within the bound |
| StoreLaws.HitIgnoresOrder | owid/public_key_fetch.py:546-549 | a hit does not depend on the order of the keys held |
| StoreLaws.KeysOnlyGrow | owid/public_key_fetch.py:635-651 | until the store is emptied a held key keeps its PEM, its minutes and what was stated of it |
| StoreLaws.AttributionIsStable | owid/public_key_fetch.py:536-561 | a minute once served stays served with the same PEM, and any span reported contains it, whatever creators answer |
| StoreLaws.AnswerIsServedAgain | owid/public_key_fetch.py:552-605 | exactly which minutes each form of answer saves a request for, and that a hit reports what the request reported |
| StoreLaws.KeptOfferServes | owid/public_key_fetch.py:606-631 | a span that was not turned away is served whatever else is held |
| StoreLaws.KeptExactly | owid/public_key_fetch.py:606-651 | an offer is added, or widens what is held of its key, exactly where no other key shares a minute with the span it would have |
| StoreLaws.KeptStatementIsReported | owid/public_key_fetch.py:607-619 | a hit after a kept offer reports at least the span it stated, and a span exactly where it or what was held stated one |
| StoreLaws.AskMeans | owid/public_key_fetch.py:424-433 | asking hits exactly where a held key serves the minute, with what was stated of it; else it joins what is in flight; else it leads |
| Timeline.HonestOfferIsKept | owid/public_key_fetch.py:606-651 | an honest answer is never refused, and widening keeps a span inside its key's period |
| Timeline.AnswerStatesEdges | owid/public_key_fetch.py:564-570 | the edges a creator's answer states are the edges of the key's period |
| Timeline.RunStaysCoherent | owid/public_key_fetch.py:573-651 | over every run, all three forms of answer and a growing schedule, every held span lies inside its key's true period |
| Timeline.HitIsInForce | owid/public_key_fetch.py:536-561 | a hit in such a store is the key in force at the minute asked, with true edges |
| Timeline.CacheAgreesWithCreator | owid/public_key_fetch.py:519-651 | from the empty store, every hit is the key in force and no answer was ever turned away |
| Verdict.NeighbourVerifies | owid/public_key_fetch.py:352-398 | the loop over neighbours ends as the coroutine's steps do |
| Verdict.SignatureStatusAtUrl | owid/public_key_fetch.py:317-349 | the verdict of the procedure is the one its steps reach |
| Verdict.VerdictRestsOnKeys | owid/public_key_fetch.py:317-349 | VALID means a key received verifies; INVALID means none does and the first does not exclude the minute |
| Verdict.VerdictIsReadOff | owid/public_key_fetch.py:334-349 | the verdict as a reading of the outcomes: the first one's failure, the first key's status, a neighbour that vouches, or neither, and then whether the key excluded the minute |
| Verdict.NeighboursAsked | owid/public_key_fetch.py:373-405 | the minutes asked beyond the edges are those next to a stated edge at most 15 minutes away, earlier first |
| Verdict.AtMostTwoNeighbours | owid/public_key_fetch.py:366-380 | a verdict costs at most two requests more than the first |
| Verdict.ValidIsBoundedInTime | owid/public_key_fetch.py:339-405 | VALID implies a key in force at most 16 minutes from the OWID's date verifies it, from cache or request |
| Verdict.SkewIsForgivenIfEdgeStated | owid/public_key_fetch.py:352-405 | signed across a near edge, the verdict is VALID if the answer states that edge and INVALID if not, under any honest creator |
| Verdict.SkewIsForgiven | owid/public_key_fetch.py:352-405 | under a whole published schedule such an OWID is VALID from every reachable store, in at most three outcomes |
| Verdict.SkewMissedWhereEndUnstated | owid/public_key_fetch.py:552-561 | a growing schedule and a concrete OWID for which skew at the later edge is called INVALID |
| Protocol.SingleFlight | owid/public_key_fetch.py:415-473 | over all interleavings an unresolved future has exactly one owner, entries in flight are under way, and requests under way per URL are at most one more than the clears |
| Protocol.ForgottenTaskRemovesNothing | owid/public_key_fetch.py:464-465 | a request a clear forgot leaves newer entries alone, and none points to it afterwards |
| Protocol.NobodyIsStranded | owid/public_key_fetch.py:440-473 | from every reachable state at most four actions, each starting, ending, publishing or delivering a request, move an awaiting caller on by the outcome its request ends with, or ended with |
| Protocol.EveryCheckEnds | owid/public_key_fetch.py:317-473 | from every reachable state at most fifteen actions, each finishing a request or the caller's own asking, bring any caller not cancelled to an end, whatever its requests end with |
| Protocol.OwnOutcomeDecides | owid/public_key_fetch.py:334-349 | in every run a caller whose own request has ended can end only as that outcome lets it: a failure as its status, a key that fails and excludes the minute never as INVALID |
| Protocol.DeliveredForOwnUrl | owid/public_key_fetch.py:429-444 | the outcome a caller receives ended a request for its own URL |
| Protocol.CancellingIsForOne | owid/public_key_fetch.py:440-444 | any waiting caller may be cancelled, and that leaves its request and all who await it as they were |
| Protocol.ClearStartsAfresh | owid/public_key_fetch.py:297-308 | after a clear the next caller leads a new request, while running requests keep their waiters and still hold their answers |
| Forgery.NoGenuineIdentifierIsCalledForgery | owid/public_key_fetch.py:317-349 | in no run does an identifier signed with the key in force at its minute end as INVALID |
| Forgery.FairInStep | owid/public_key_fetch.py:564-570 | the answer of a creator in step names the key in force at the minute asked, or states that its key was not in force then, exactly where its clock had reached that minute, or it stated both ends, or its key is in force then |
| Forgery.UnfairAnswerMakesForgery | owid/public_key_fetch.py:317-349 | every other honest answer has a run, giving no other answer, that ends a genuine identifier as INVALID |
| Forgery.FairnessIsExact | owid/public_key_fetch.py:50-55 | one honest answer can make a genuine identifier a forgery in some run exactly where it is not fair |
| Forgery.CreatorBehindMakesForgery | owid/endpoints.py:238-243 | a creator six minutes behind with no end published, and a run in which its one answer does so |
| Histories.EveryRunIsTheCoroutine | owid/public_key_fetch.py:317-473 | in every run each caller stands where the verdict coroutine stands after outcomes from the store, as an honest history left it, or from the creator |
| Histories.ValidIsBoundedInEveryRun | owid/public_key_fetch.py:339-405 | in every run VALID implies a key in force at most 16 minutes from the OWID's date verifies it |
| Judgement.VerdictIsExactInEveryRun | owid/public_key_fetch.py:317-398 | in every run under a whole published schedule without outages a check that ends ends with the status under the key in force, or VALID where that fails and the key across a near edge verifies |
| Judgement.GenuineIsValidInEveryRun | owid/public_key_fetch.py:317-349 | so a check of a genuine identifier that ends, ends VALID |
| Judgement.NoKeyIsUnavailableInEveryRun | owid/public_key_fetch.py:334-336 | and where no key is in force at the minute a check that ends, ends KEY_UNAVAILABLE |
| Judgement.SkewIsForgivenInEveryRun | owid/public_key_fetch.py:352-405 | and so does one of an OWID signed across a near edge |
| Judgement.EveryCheckReachesItsVerdict | owid/public_key_fetch.py:317-473 | from every state such a run reaches at most fifteen actions bring any caller not cancelled to that verdict |
| RequestBound.OneRequestForEachKey | owid/public_key_fetch.py:415-444 | among any answers from other end points, requests to one end point equal the number of distinct keys whose periods were asked about, while the store is not emptied |
| RequestBound.OneCreatorOneRequestForEachKey | owid/public_key_fetch.py:622-631 | with one creator asked the store is not emptied until more keys were asked about than it holds, however many the creator has |
| MachineRequests.HeldKeyIsNotAskedFor | owid/public_key_fetch.py:424-427 | from every reachable state, where a held key serves the minute the asking caller moves on by its answer and nothing else changes |
| MachineRequests.KeyNotHeldIsAskedForOnce | owid/public_key_fetch.py:428-440 | where none does the caller awaits the request in flight, or leads one, and nothing else changes |
| MachineRequests.OneTaskForEachKey | owid/public_key_fetch.py:415-444 | in a run whose requests to an end point are made in turn, the tasks created for it number the keys whose periods were asked about |
| Schedule.PublicKeySchedule.constructor | owid/public_key_schedule.py:97-116 | the schedule holds the keys supplied, stably sorted |
| Schedule.PublicKeySchedule.KeyInForce | owid/public_key_schedule.py:126-132 | the answer is the rule read on the keys in the order supplied |
| Schedule.PublicKeySchedule.ScanBack | owid/public_key_schedule.py:133-147 | the nested backwards loops find the latest start, first supplied among ties |
| Schedule.SortIsStable | owid/public_key_schedule.py:113-116 | sorting ascends, loses no key and keeps ties in the order supplied |
| Schedule.InForceIsLatest | owid/public_key_schedule.py:126-147 | the key in force has the latest start at or before the date, first among ties, and is missing only before every start |
| Schedule.SortingKeepsInForce | owid/public_key_schedule.py:113-147 | selecting from the sorted keys is selecting from the keys supplied |
| Schedule.SupplyOrderDoesNotMatter | owid/public_key_schedule.py:97-147 | with distinct starts the choice is the same for every order of supply |
| Schedule.NextStartAfter | owid/public_key_schedule.py:149-156 | the least start after the one given, or none |
| Schedule.PeriodsPartitionTime | owid/public_key_schedule.py:126-156 | a key's start is the one in force exactly from that start until the next |
| Endpoints.EndPointAnswers | owid/endpoints.py:199-250 | when the answer is 400, 404 or the key in force at the earlier of date and now, and that it brackets that moment |
| Endpoints.CreatorRefusesOwnAnswer | owid/endpoints.py:94-175 | the answer raises exactly where the key looked up cannot be read or the moment shares a second with the next start, so never for readable keys and whole second starts |
| Endpoints.FractionalStartIsRefused | owid/endpoints.py:94-175 | a schedule with a later start off the whole second has a moment at which its creator's answer raises |
| Endpoints.RefusalAtAnInput | owid/endpoints.py:94-175 | one such schedule and moment |
| Endpoints.ClientNeverRefusesServed | owid/endpoints.py:112-166 | a client accepts every answer a creator sends |
| Fetching.ClientReadsExactly | owid/endpoints.py:112-166 | a client takes exactly the answers with no format or spki, a readable key and an end only after a start, and from them the key and the minutes of its moments |
| Fetching.CreatorSendsExactly | owid/endpoints.py:94-166 | a creator sends exactly such answers as state a span around the moment asked about, to the second, and raises for any other |
| Fetching.ReplyMeans | owid/public_key_fetch.py:476-501 | a key is learned only from such an answer; any other content of a key's size is INVALID_KEY; no response, a refusal (lines 662-707) or too much is KEY_UNAVAILABLE |
| Fetching.NoAnswerHoldsNothing | owid/public_key_fetch.py:457-472 | a request so ended leaves the store as it was and its waiters that status |
| Endpoints.ClientDerivesThePeriod | owid/public_key_fetch.py:501-510 | with whole-minute starts the client's minutes are exactly those at which the schedule selects that start |
| Requests.CheckDomain | owid/public_key_fetch.py:759-784 | the loop accepts exactly the domains, not empty, made of letters, digits, dots and hyphens |
| Requests.KeyUrlReadsBack | owid/public_key_fetch.py:513-533 | with an accepted scheme and a usable domain, the end point and minute read back from a key URL are those it was made of |
| Requests.DomainsAccepted | owid/public_key_fetch.py:759-784 | those are the characters written out, each by itself |
| Requests.SchemesAccepted | owid/public_key_fetch.py:223-234 | the schemes accepted are http and https, in any case and with white space around them |
| Requests.KeyUrlIs | owid/public_key_fetch.py:237-244 | the text of a key URL, part by part |
| Requests.EndPointsAreApart | owid/public_key_fetch.py:209-244 | the end points of different schemes, domains or versions are different texts |
| EndToEnd.EndPointServesOrHasNone | owid/public_key_fetch.py:689-697 | a request to a creator's own end point brings a key exactly where it serves one, and else ends KEY_UNAVAILABLE |
| EndToEnd.FetchedIsFromWhole | owid/endpoints.py:199-250 | what a client reads from the end point, at any creator clock, is a truthful statement of a whole period |
| EndToEnd.EndPointNeverMakesForgeries | owid/endpoints.py:199-250 | no run against an end point serving keys with distinct whole-minute starts, supplied in any order, calls a genuine identifier a forgery |
| EndToEnd.EndPointMakesGenuineValid | owid/endpoints.py:199-250 | where requests for minutes near a genuine identifier's are answered, by a creator whose clock has reached it, a check that ends, ends VALID |
| EndToEnd.EndPointBringsToValid | owid/public_key_fetch.py:317-473 | and from every state at most fifteen actions, the creator answering, bring it there |
| EndToEnd.FromCreationToVerdict | owid/public_key_fetch.py:262-281 | an OWID created under any domain, carried as text, read and checked in any run is KEY_UNAVAILABLE where no key URL is made for the domain, and else is never INVALID |
| EndToEnd.FromCreationToValid | owid/public_key_fetch.py:262-281 | under a usable domain and so answered, the check on an OWID created, carried as text and read back begins at its creator's end point and can end only VALID |
| Impostors.ValidNeedsACreatorsKey | owid/public_key_fetch.py:317-398 | in every run against an honest creator, at whatever clocks, VALID means a key it publishes verifies the signature |
| Impostors.ForgedIsNeverValid | owid/owid.py:281-314 | an OWID whose signed bytes no key of the creator verifies with its signature ends VALID in no run |
| Impostors.ForgedIsNeverValidOnTerms | owid/owid.py:281-314 | so on any terms, firm or not |
| Impostors.ForgedIsNeverValidAtEndPoint | owid/owid.py:281-314 | and in no run against the creator's end point |
| Impostors.ForgedIsCalledForged | owid/public_key_fetch.py:317-349 | answered on time with readable keys, its check ends SIGNATURE_INVALID, or INVALID_SIGNATURE_LENGTH or VERIFICATION_ERROR where that is what is wrong |
| Impostors.BeforeFirstKeyIsUnavailable | owid/endpoints.py:244-246 | and a check of any OWID dated before the first key's start ends KEY_UNAVAILABLE |
| Bytes.Integers32RoundTrip | owid/io.py:211-213 | little endian 32 bit integers are read back, both ways |
| Bytes.DecodingUndoesEncoding | owid/io.py:113-114 | UTF-8 text is read back as it was written |
| Bytes.EncodingUndoesDecoding | owid/io.py:113-114 | bytes that decode as UTF-8 are the encoding of what they decode to |
| Bytes.Utf8Length | owid/io.py:198-206 | UTF-8 takes a byte a character exactly for ASCII, and holds a zero exactly where the text holds NUL |
| Bytes.AsciiDecodesAlike | owid/parse.py:177 | the replacing ASCII reading is the UTF-8 reading, and writes back the same bytes, exactly for ASCII bytes |
| Wire.SignedBytesAreUnambiguous | owid/owid.py:237-250 | equal signed bytes mean equal version, domain, date in the version's unit and payload |
| Wire.CanBeWritten | owid/io.py:185-256 | exactly which OWIDs can be written: domain, date, payload and signature within their bounds |
| Parse.ParseWalk | owid/parse.py:136-187 | the walk with its domain loop, every index in bounds, computes the read of the buffer |
| Parse.WalkFields | owid/parse.py:189-265 | so does the walk over date, payload and signature, and the malformed envelope branch is dead |
| Parse.WhyRefusedEarly | owid/parse.py:136-187 | empty, unsupported version, absent marker, unterminated domain and truncated domain, each exactly by the bytes |
| Parse.WhyRefusedLater | owid/parse.py:189-265 | unexpected end, date past the runtime, byte count mismatch and success with the bytes consumed, each exactly by the lengths and numbers in the bytes |
| Parse.FieldsStandInOrder | owid/parse.py:171-265 | the fields accepted are the bytes at their places in the buffer |
| Framing.FinalAnswersStay | owid/parse.py:136-265 | a final framed answer, with the bytes consumed, is unchanged by any bytes appended |
| Framing.StreamingTrichotomy | owid/parse.py:96-118 | an unexpected end is reported exactly where the bytes are no envelope but some extension is; every other answer is final |
| Framing.EnvelopeCutShort | owid/parse.py:236-241 | every proper beginning of an envelope is an unexpected end |
| Framing.EnvelopesArePrefixFree | owid/parse.py:96-118 | no envelope is the beginning of another |
| Framing.ContractsAgree | owid/parse.py:232-265 | the whole buffer read succeeds exactly where the framed read takes everything, with the same result |
| Walk.WalkFrames | README.md:372-382 | the caller's loop, which steps over an absent frame, ends on every input with the frames found and the bytes left |
| Walk.WalkingUndoesWriting | owid/owid.py:225-235 | the walk over frames written in turn gives the same list exactly where each OWID is lossless |
| Walk.BreakingWalkStopsAtAbsent | owid/parse.py:109-113 | the loop that stops at anything but a frame finds the frames before the first absent one and none after it |
| Walk.BreakingWalkUndoesWriting | owid/parse.py:109-113 | that loop gives back the list written exactly where no frame is absent and each OWID is lossless |
| Walk.AbsentFrameStopsTheBreakingWalk | owid/parse.py:109-113 | a list with an absent frame that it does not give back and the other loop does |
| Io.ByteArray.WriteByte | owid/io.py:180-182 | one byte is appended |
| Io.ByteArray.WriteString | owid/io.py:185-208 | the encoded domain and a terminator are appended, or nothing where it holds a zero or is too long |
| Io.ByteArray.WriteDate | owid/io.py:237-256 | the date is appended in the version's unit and byte order, or nothing where it does not fit |
| Io.ByteArray.WriteByteArray | owid/io.py:216-224 | the length and the bytes are appended |
| Io.ByteArray.WriteSignature | owid/io.py:227-234 | only a 64 byte signature is appended |
| Io.ByteArray.WriteUnsigned | owid/owid.py:237-243 | the signed bytes are appended, or a refusal leaves what was there in front |
| Io.ByteArray.WriteOwid | owid/owid.py:225-229 | the whole envelope is appended, or a refusal leaves what was there in front |
| Io.ByteArray.WriteEmpty | owid/owid.py:231-235 | the absent marker is appended |
| Io.Reader.constructor | owid/io.py:71-73 | the reader starts at the front of its buffer |
| Io.Reader.ReadByte | owid/io.py:75-81 | the next byte, moving past it, or an error in place |
| Io.Reader.ReadBytes | owid/io.py:83-90 | the next bytes, moving past them, or an error in place |
| Io.Reader.ReadU32 | owid/io.py:120-126 | the next integer, moving past it, or an error in place |
| Io.Reader.ReadString | owid/io.py:92-118 | the UTF-8 text up to a terminator inside the window, or an error in place |
| Io.Reader.ReadDate | owid/io.py:154-164 | the date in the version's encoding |
| Io.Reader.ReadByteArray | owid/io.py:128-148 | the payload, only where it leaves exactly the signature |
| Io.Reader.ReadOwid | owid/owid.py:193-209 | the raising route as a whole, from wherever the reader stands |
| RoundTrip.ReadOfWritten | owid/parse.py:136-265 | what either read makes of any OWID that can be written |
| RoundTrip.ReadingUndoesWriting | owid/owid.py:211-243 | parsing gives back the OWID written exactly for an ASCII domain and a whole-unit date the runtime holds |
| RoundTrip.WritingUndoesReading | owid/owid.py:211-243 | an accepted buffer re-serialises to itself exactly where its domain bytes are ASCII |
| RoundTrip.SignedBytesAreReceived | owid/owid.py:237-243 | the bytes checked after reading are the buffer received but for its last 64, which are the signature |
| RoundTrip.ReadersAgree | owid/io.py:63-164 | on every buffer the raising reader and the walk agree unless it starts with the absent marker, or is accepted with a domain that is not ASCII, and there they never do |
| RoundTrip.ReadersAgreeOnWritten | owid/owid.py:180-209 | on what an OWID is written as they agree exactly where its domain is ASCII |
| RoundTrip.ReadersDifferAtAnInput | owid/owid.py:193-209 | a buffer of each kind on which they differ |
| Base64.DecodingUndoesEncoding | owid/owid.py:42-44 | base 64 text decodes to the bytes it encodes |
| Base64.ParseBase64 | owid/parse.py:68-93 | stripping, padding repair and decoding lead to the read of the text |
| Base64.DigitsAreTheAlphabet | owid/owid.py:42-44 | the digits are those of RFC 4648, in order |
| Base64.GroupMeans | owid/parse.py:86-91 | a group decodes to its digits read as one number, odd bits dropped |
| Base64.DecodesExactlyText | owid/parse.py:86-91 | text decodes exactly where it is whole groups of digits, the last with padding at most |
| Base64.TextIsRefusedWhere | owid/parse.py:68-93 | text is refused as base 64 exactly where, stripped, it is not digits with at most the padding they call for |
| Base64.PaddingAndSpaceDoNotMatter | owid/parse.py:78-93 | with all, some or none of its padding, and white space around it, the text reads as its bytes do |
| Creation.MakeCreator | owid/creator.py:61-84 | a creator exists exactly for a domain that is not blank nor too long and a key that can sign |
| Creation.AcceptedCanBeWritten | owid/creator.py:61-84 | a domain is accepted exactly where it is not blank and, but for a terminator in it, can be written |
| Creation.CreatedIs | owid/creator.py:108-146 | what is created has version 3, the domain and payload given, the minute it was made in, and the key's signature of its own bytes |
| Creation.Creator.Sign | owid/creator.py:108-125 | the OWID is given version, domain, minute and signature in place, or signing raises |
| Creation.Creator.Create | owid/creator.py:133-146 | a new OWID signed by the creator, or nothing |
| Creation.StatusMeans | owid/owid.py:281-314 | exactly which key and signature give each of the six statuses, and that VALID and INVALID are the library's word on the signed bytes |
| Creation.CreatorCreates | owid/creator.py:61-125 | an accepted creator fails to create exactly where its domain holds NUL |
| Creation.AcceptedButCannotCreate | owid/creator.py:61-84 | a domain accepted for a creator that then creates nothing |
| Creation.CreatedSurvivesTransport | owid/creator.py:108-146 | carried as text a created OWID reads back with the same signed bytes exactly for an ASCII domain, and then verifies |
| Creation.AccentedDomainIsLost | owid/creator.py:61-146 | a domain accepted and created under whose OWIDs do not survive transport |

## Left out

- The network transport and redirects. What it brings is nothing, a refusal's code, or content that is too long, no JSON
  object, or an answer; an error the package did not raise ends the request too.
- ECDSA, PEM and DER. A signature is whatever the key's signing function gives, with the one law above, and a
  provider that fails on good inputs is not modelled.
- JSON, date text, time zones and the calendar. An answer is its four fields, its moments cut to the second.
- Percent encoding and fragments in a URL, which none of the URLs made here holds.
- Asyncio itself. Cancelling a caller ends that caller alone. A created task is taken to start, and creating it to succeed.
- Floating point in the seconds of a date: the counts of minutes and hours are exact integer divisions.
- `public_key_response` for a creator with one key, payload display helpers, messages, `Configuration`.
- Lone surrogates in a domain, which raise when encoded, are not characters here.
- Base 64 bits left over in a last group are ignored, as the decoder of the standard library ignores them.
- Verdict.NeighbourVerifies: takes the outcomes of its requests as parameters in the order they arrive, because awaiting them is the protocol's part.
- Schedule.PublicKeySchedule.constructor: the in-place sort of the standard library is a function here, with its stability proved.
- Forgery.NoGenuineIdentifierIsCalledForgery: asks of each answer that it is fair, which the code cannot check for itself; Forgery.FairnessIsExact shows no less will do.
- RequestBound.OneRequestForEachKey: is about lookups of minutes in periods with both ends stated, made one after another, because an answer without an end saves only the minutes it confirms (StoreLaws.AnswerIsServedAgain).
