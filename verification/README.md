# Verification of the VectorCore SMSC

A Dafny 4.11 model of two parts of the SMSC and of one concurrent piece between them, with proofs.

**The store-and-forward life of a message.** A message row, the store's calls on it, the routing pass, the finalisers
of the forwarder and of the retry scheduler, the expiry sweep, the alert requeue and crash recovery. Candidate
resolution, sends, policies and times are an arbitrary `Env`, so every theorem holds for every behaviour of the
network. `MessageStore`, `Routing` and `Forwarder` hold the methods, each proved against a function; `Lifecycle` proves
what holds over whole runs of one message, `Service` lifts it to every message of a store, and `Claims` treats each
store call as a step of its own, with the schedulers and alerts of any number of processes interleaved on one database.
`Serial` brings the two together: where finalisers do not split their writes, interleaved calls leave what whole steps leave.
`Outcomes` says what a step does in columns of the row, rules, policies and answers alone: where a pass ends, what a
deferral bounds, when retries run out and what expires.

**The wire codecs.** Bits and octets (`Bytes`), septet packing (`Septets`), the GSM 7-bit alphabet (`Gsm7`), UCS2 with
surrogate pairs (`Ucs2`), relative validity periods, TPDU addresses, user data and whole SUBMIT and DELIVER units
(`ValidityPeriod`, `TpduAddress`, `UserData`, `Tpdu`), SMPP fields, units and messages (`SmppFields`, `SmppWire`,
`SmppCodec`, `SmppMessage`), and Diameter AVPs, groups and messages (`Diameter`). `TpduLayouts`, `SmppLayouts` and
`DiameterLayouts` say where every field stands, in plain octets.

**Responses on an SMPP link.** `Link` is the pending map with its one-slot channels under arbitrary interleaving.

The codecs are specified by functions on octet strings; the methods beside them follow the loops and buffers of the
program and are proved equal to those functions. Bitwise operators are defined by what they do to each bit, so packing is
proved bit by bit and not by trusting shifts.

Run `dafny verify dfyconfig.toml`.

## What turned out false of the code

Each is proved together with the exact condition under which the code does what is expected of it.

* A retry that runs out of attempts while SGd waits for an event writes FAILED, reports it, and then writes
  WAIT_TIMER_EVENT over it. `Lifecycle.FailedThenDelivered` is a run whose originator is told FAILED and then DELIVRD;
  `Lifecycle.TerminalWritesAreLast` shows that runs are in order exactly when they hold no such step.
* A message deferred for SGd should have its cursor there, so that an alert makes it try SGd. Two steps break this and no
  others: a retry made for an SGd alert that finds SGd gone puts the cursor back to 0, and an alert requeues a message at the
  cursor it listed, although a retry has moved it to SGd since. The next SGd alert then tries the first candidate
  (`Lifecycle.OnlyLostAlertsMiss`, `Lifecycle.AimOfMessage`, `Lifecycle.AlertsCanMiss`, `Lifecycle.StaleAlertsMiss`).
* A message that a restart put back in the queue, and that an alert then requeued, waits without any expiry until its
  next retry although a queue lifetime is configured (`Lifecycle.OnlyAlertsUncover`, `Lifecycle.AlertedWithoutExpiry`).
* A finaliser that schedules a retry and then writes WAIT_TIMER_EVENT lets the schedulers of two processes own one message.
  Without such a finaliser, and without the next item, no interleaving does (`Claims.DispatchIsUnshared`,
  `Claims.RetryIsUnshared`, `Claims.TwoOwners`). The finaliser of an exhausted retry writes twice as well, but FAILED first,
  which nobody claims.
* Recovery at start-up requeues every DISPATCHED message, also one that a worker of another process is sending, and then
  two own it (`Claims.OnlyOrphansBreak`, `Claims.OrphanedDispatch`).
* Durations above 21 and below 30 days are encoded in weeks under a code that still means days, so 22 days become 29
  (`ValidityPeriod.NeverExceeds`, `ValidityPeriod.StretchedPeriod`).
* The length of an alphanumeric address is written in septets and read in semi-octets, so no such address survives
  (`TpduAddress.AlphaIsCutShort`, `TpduAddress.AlphaLosesPlace`).
* GSM 7-bit text of k septets gains an '@' over SMPP exactly when k mod 8 is 7 (`SmppMessage.TextSurvives`).
* A header other than the one built for a segment is never sent over SMPP (`SmppMessage.HeaderSurvives`,
  `SmppMessage.PortHeaderIsLost`).
* The sequence number counter of a link wraps; a number reused while a call still waits loses that call's response
  (`Link.OnlyReuseForgets`, `Link.ReuseLosesAResponse`).

Where the code and its comments disagree the model follows the code:

* `internal/forwarder/forwarder.go:149-154` says that a crash leaves a message QUEUED; the row is inserted as DISPATCHED and
  becomes QUEUED when the database is next opened (`internal/store/postgres/db.go:105-107`).
* `internal/smpp/codec.go:230-238` means to tolerate the end of data in a response body, but compares a wrapped error, so
  every body without a terminating NUL is refused (`SmppWire.ResponseNeedsTerminator`).
* `internal/smpp/conn.go:38` calls sequence numbers monotonically increasing; they wrap at 2^32.

## Model

| member | source | states |
|---|---|---|
| `Routing.RunRoutingPass` | internal/forwarder/forwarder.go:203-296 | The loop with its two flags and its memory of the last attempt computes the declarative `Pass` for every network, visits exactly the candidates of `Visited` in order, and never ends in failure |
| `Routing.VisitsEachOnce` | internal/forwarder/forwarder.go:209-217 | Candidates are visited in cyclic order from the cursor modulo n, none twice, and all of them unless one delivers or waits for an event |
| `Routing.WaitEventOnlyFromSgd` | internal/forwarder/forwarder.go:250-260 | A pass waits for an event alone exactly when it starts at index 2, the host of SGd is found and it answers 3002; waiting for both never starts there |
| `Routing.AttemptCases` | internal/forwarder/forwarder.go:725-744 | An attempt never asks for the next candidate without a verdict, SGd is never refused permanently, and only SGd waits for an event |
| `Routing.EgressOfIndex` | internal/forwarder/forwarder.go:577-632 | SGd is the candidate at index 2 and nowhere else, and a resolved candidate has the index, interface and policy of the planned one |
| `Routing.FallbackDecisions` | internal/forwarder/forwarder.go:634-647 | The loop keeps exactly the SMPP and SIP SIMPLE decisions, in order |
| `Routing.FallbackUsable` | internal/forwarder/forwarder.go:640-645 | A decision is kept if and only if it matched and its interface is SMPP or SIP SIMPLE |
| `Routing.ModuloInRange` | internal/forwarder/forwarder.go:766-775 | Over Go's truncating remainder the adjusted result is the mathematical one, in range for negative cursors too |
| `Routing.PassRoutes` | internal/forwarder/forwarder.go:244-295 | Which route a pass hands to the finaliser in each outcome: the delivering one, the last of the cycle, or SGd |
| `Routing.TryRouteAt` | internal/forwarder/forwarder.go:317-336 | One candidate is tried; a failed send keeps the route and an unresolved candidate leaves none |
| `Routing.SelectRoute` | internal/forwarder/forwarder.go:536-575 | The loop returns the first candidate behind the cursor that resolves |
| `Outcomes.RulesInOrder` | internal/forwarder/forwarder.go:634-647 | The rules that offer candidates keep their order, wherever others stand between them |
| `Outcomes.HowAnswersAreTaken` | internal/forwarder/forwarder.go:725-744 | 3002 from SGd waits for an event, 404 from SIP is permanent, any other answer waits for the timer |
| `Outcomes.HowPassesEnd` | internal/forwarder/forwarder.go:203-296 | For every network: delivered, and by whom, exactly if some candidate that is there takes the message before SGd answers 3002; waiting for an event exactly if SGd answers 3002 before that; and otherwise left at the last candidate |
| `Outcomes.HowSinglesEnd` | internal/forwarder/forwarder.go:317-336 | A retry made for an SGd alert is delivered exactly if the candidate at the cursor modulo n is there and takes the message, and never waits for an event |
| `MessageStore.Store.SaveMessage` | internal/store/postgres/messages.go:12-35 | Adds the row and leaves every other message alone |
| `MessageStore.Store.UpdateMessageRouting` | internal/store/postgres/messages.go:37-45 | Sets interface and peer of the named message only |
| `MessageStore.Store.UpdateMessageDeferred` | internal/store/postgres/messages.go:47-57 | Sets the three deferral marks and the cursor, and no status |
| `MessageStore.Store.UpdateMessageStatus` | internal/store/postgres/messages.go:59-74 | Writes the status whatever it was, and the delivery time for DELIVERED |
| `MessageStore.Store.ClaimMessageForDispatch` | internal/store/postgres/messages.go:76-93 | Succeeds if and only if the message is there in an allowed status, and then only its status changes |
| `MessageStore.Store.UpdateMessageRetry` | internal/store/postgres/messages.go:95-103 | Writes WAIT_TIMER with count, time and cursor, unguarded |
| `MessageStore.Store.UpdateMessageExpiryCap` | internal/store/postgres/messages.go:105-118 | The expiry becomes the lesser of itself and the limit |
| `MessageStore.Store.RequeueMessageForAlert` | internal/store/sqlite/messages.go:128-159 | Under its guard writes WAIT_TIMER, time, cursor and a reason if one is given; else nothing |
| `MessageStore.Store.ListRetryableMessages` | internal/store/postgres/messages.go:142-155 | Distinct due messages, earliest first with absent times before all, complete unless cut off at 100 by later ones |
| `MessageStore.Store.ListExpiredMessages` | internal/store/postgres/messages.go:157-169 | Distinct overdue messages, complete unless cut off at 100 |
| `MessageStore.Store.Recover` | internal/store/postgres/db.go:105-107 | Exactly the DISPATCHED messages become QUEUED and due |
| `MessageStore.ExpiryIsLeast` | internal/store/postgres/messages.go:105-118 | After any sequence of calls the expiry is the least of the one before and of every limit applied |
| `Forwarder.Worker.FinalizeRoutingPass` | internal/forwarder/forwarder.go:345-407 | Issues exactly the calls of its outcome, in order, and nothing else |
| `Forwarder.Worker.MarkDeferred` | internal/forwarder/forwarder.go:871-896 | Reason, interface, node and cursor of the route, or of the planned candidate without one |
| `Forwarder.Worker.ApplyDeferredExpiryCap` | internal/forwarder/forwarder.go:409-439 | One cap at the least of lifetime and override, or no call at all |
| `Forwarder.Worker.ScheduleOrFail` | internal/forwarder/retry.go:137-203 | A retry at the policy's delay, or FAILED and its report; the empty schedule ends the process |
| `Forwarder.Worker.FinalizeNonDelivered` | internal/forwarder/retry.go:107-135 | Issues exactly the calls of its outcome, both status writes of WAIT_TIMER_EVENT included |
| `Forwarder.PanicNeedsEmptySchedule` | internal/forwarder/retry.go:174-185 | The process can end there only through a policy with retries left and an empty schedule |
| `Forwarder.Dispatch` | internal/forwarder/forwarder.go:155-173 | The new message is the one of a first pass from candidate 0, all others are untouched |
| `Forwarder.RetryDispatch` | internal/forwarder/retry.go:50-105 | Without a claim nothing changes; with it the one message takes the retry's calls |
| `Forwarder.Tick` | internal/forwarder/retry.go:39-48 | Lists due messages, by status and time: all of them, or a hundred that no other due one comes before; each is retried once as it was read and every other is untouched, unless the process ends in between |
| `Forwarder.Sweep` | internal/forwarder/expiry.go:40-62 | Exactly the listed messages become EXPIRED, with a report where a receipt was asked for; listed are only pending ones whose expiry has come, by status and time, and all of those if they are fewer than a hundred |
| `Forwarder.TriggerAlertRetry` | cmd/smsc/main.go:478-556 | Requeued at their own cursor are exactly the waiting messages of the correlation identifier, or if it names none those of the subscriber, and from SGd only those deferred for SGd; the count is theirs; fails only without any identity |
| `Lifecycle.FirstDispatchEnds` | internal/forwarder/forwarder.go:345-407 | A first dispatch ends DELIVERED, WAIT_TIMER or WAIT_TIMER_EVENT with these fields, writes and reports, never FAILED and never WAIT_EVENT |
| `Lifecycle.RetriedDeferred` | internal/forwarder/retry.go:107-155 | The state a retry leaves that does not deliver: a deferral of the claimed row and its last writes, for each outcome |
| `Outcomes.HowMessagesBegin` | internal/forwarder/forwarder.go:808-855 | The columns a message is inserted with |
| `Outcomes.HowDeliveriesAreRecorded` | internal/forwarder/forwarder.go:345-362 | A first dispatch that some candidate takes leaves DELIVERED with its interface, peer and time, and one report |
| `Outcomes.HowRetriesDeliver` | internal/forwarder/retry.go:74-84 | The same of a retry, which leaves all else of the row alone |
| `Outcomes.HowDispatchesDefer` | internal/forwarder/forwarder.go:409-439 | A first dispatch that defers writes reason, interface, node and cursor of its route, a first retry 30 seconds later, and as expiry the least of the one there is, of now plus the lifetime of the policy or else of the queue, and of now plus the override |
| `Outcomes.HowRetriesDefer` | internal/forwarder/forwarder.go:871-896 | A retry that defers does so too, and counts both from the time of submission |
| `Outcomes.HowRetriesAreScheduled` | internal/forwarder/retry.go:137-203 | A claimed retry that waits for its timer leaves FAILED exactly if the retries of the governing policy are used up, or eight without one; and else WAIT_TIMER with one more retry, after the delay at that place of the schedule or its last one |
| `Outcomes.HowEventRetriesAreScheduled` | internal/forwarder/retry.go:119-125 | The same where the retry waits for an event too, whose status hides the failure |
| `Outcomes.WhenMessagesFail` | internal/forwarder/retry.go:137-150 | A step leaves a message FAILED exactly if it is a claimed retry waiting for its timer with no retries left by that count |
| `Outcomes.EightRetriesInVain` | internal/forwarder/retry.go:159-186 | Without a policy and with nobody reachable the first dispatch and seven retries leave WAIT_TIMER, and the eighth retry FAILED with the one report |
| `Outcomes.EightRetriesFail` | internal/forwarder/retry.go:159-186 | Such a run of eight retries exists for every message and every environment that offers nobody |
| `Outcomes.OnlyLateMessagesExpire` | internal/store/postgres/messages.go:157-169 | A step leaves EXPIRED behind if and only if it is a sweep at or after the expiry of a message in one of the four pending statuses |
| `Outcomes.WhatAlertsRequeue` | cmd/smsc/main.go:484-534 | An alert requeues a message if and only if it is pending and, for SGd, deferred for SGd; which columns change |
| `Lifecycle.TerminalIsAbsorbing` | internal/store/postgres/messages.go:76-140 | A message that is DELIVERED, FAILED or EXPIRED after a step is never changed by any further run |
| `Lifecycle.ReportsAreAccountedFor` | internal/forwarder/retry.go:107-155 | After every run the reports are one FAILED per revival followed by exactly the one the final status calls for, and terminal writes are counted likewise |
| `Lifecycle.TerminalWritesAreLast` | internal/forwarder/retry.go:119-125 | No terminal status is overwritten, and the reports are right, if and only if the run holds no exhausted WAIT_TIMER_EVENT retry |
| `Lifecycle.FailedThenDelivered` | internal/forwarder/retry.go:119-125 | A reachable run, every retry of it due in its time, reported FAILED and then DELIVERED |
| `Lifecycle.FailedIsExhaustion` | internal/forwarder/retry.go:137-150 | A step leaves a message FAILED if and only if it is a claimed retry that ends in WAIT_TIMER with no attempts left |
| `Lifecycle.ReachableCursors` | internal/forwarder/forwarder.go:861-869 | With n candidates throughout and no SGd alert the cursor is 0, 2 or n after every run |
| `Lifecycle.CursorOfFirstDispatch` | internal/forwarder/forwarder.go:363-393 | Which of the three the first dispatch leaves, by outcome and number of candidates |
| `Lifecycle.WaitingMeansSgd` | internal/forwarder/forwarder.go:250-260 | A first dispatch never ends in WAIT_EVENT, and in every run WAIT_EVENT means cursor 2 and deferred interface SGd |
| `Lifecycle.WhenEventAlone` | internal/forwarder/retry.go:113-118 | A step leaves a message in WAIT_EVENT if and only if it is a claimed full-pass retry that starts at SGd, which is there and answers 3002 |
| `Lifecycle.OnlyLostAlertsMiss` | internal/forwarder/retry.go:87-96 | Deferred for SGd implies cursor 2, and a step breaks this if and only if it is an SGd alert's retry that finds SGd gone and is rescheduled, or an alert that requeues such a message at another cursor it listed, whatever row each of them listed |
| `Lifecycle.AimOfMessage` | internal/forwarder/forwarder.go:871-896 | It holds from the first dispatch on, and at every point of a run if and only if no step of the run is one of those two |
| `Lifecycle.AimedRetryTriesSgd` | internal/forwarder/forwarder.go:317-324 | While it holds, a retry made for an SGd alert tries SGd, under every rule table |
| `Lifecycle.LostAimTriesFirstCandidate` | internal/forwarder/forwarder.go:317-324 | After every such step the next SGd alert makes the retry use the cursor left, which is not 2, and is candidate 0 when it is 0 or the number of candidates |
| `Lifecycle.AlertsCanMiss` | internal/forwarder/retry.go:87-96 | A reachable run of the first kind, every retry of it due in its time |
| `Lifecycle.StaleAlertsMiss` | cmd/smsc/main.go:521-532 | A reachable run of the second kind, with one scheduler, one alert handler and no retry made for an alert |
| `Lifecycle.RetryUsesOneUp` | internal/forwarder/retry.go:159-186 | Every claimed retry lowers a measure over retry count and cursor, revivals included |
| `Lifecycle.EveryMessageTerminates` | internal/forwarder/retry.go:137-186 | Without alerts and crashes, and with M bounding every policy, at most M + 1 retries, at most one revival and at most two reports in any run |
| `Lifecycle.ExpiryOfRun` | internal/forwarder/forwarder.go:409-439 | After every run the expiry is the least of the first one and of every cap imposed in it |
| `Lifecycle.ExpiryOfMessage` | internal/forwarder/forwarder.go:808-815 | After every run a message expires at the least of submission plus validity and of every cap since it was inserted; and each cap is submission plus the queue lifetime, or the lifetime or override in the policy of a rule that matched at its first dispatch or one of its retries, if those read the time of submission |
| `Lifecycle.ExpiryNeverLater` | internal/store/postgres/messages.go:105-118 | An expiry once set is never removed and never moves back |
| `Lifecycle.OnlyAlertsUncover` | cmd/smsc/main.go:529-534 | With a queue lifetime every waiting message has an expiry, and a step breaks this if and only if it is an alert on a QUEUED message without one |
| `Lifecycle.EveryWaitEnds` | internal/forwarder/forwarder.go:808-815 | In every run of a message that survived its first dispatch, or came with a validity, whatever waits has an expiry |
| `Lifecycle.AlertedWithoutExpiry` | internal/store/postgres/db.go:105-107 | A crashed, restarted and alerted message waits without an expiry, no sweep sees it, and its next retry gives it one if it waits on |
| `Lifecycle.CoveredIsSwept` | internal/forwarder/expiry.go:40-62 | A sweep at or after the expiry ends every wait, WAIT_EVENT included, with its report |
| `Service.Tick` | internal/forwarder/retry.go:39-48 | Keeps every message of the store in order, even when the process ends inside it |
| `Service.Sweep` | internal/forwarder/expiry.go:40-62 | Keeps every message in order and finished ones as they were |
| `Service.Alert` | cmd/smsc/main.go:478-556 | Keeps every message in order |
| `Service.InOrderIsReported` | internal/forwarder/forwarder.go:357-362 | A delivered or failed message that is in order was reported so last, and before that only falsely FAILED |
| `Claims.AtMostOneOwner` | internal/store/postgres/messages.go:76-140 | Under every interleaving of the schedulers and alerts of any number of processes at most one worker is between its claim or insert and its first status write, if a finaliser's status writes are one step and no restart finds the message owned by another process |
| `Claims.OneProcessSpares` | internal/store/postgres/db.go:105-107 | With a single process no restart ever does |
| `Claims.OnlyOrphansBreak` | internal/store/postgres/db.go:105-107 | A restart breaks exclusion if and only if a worker of another process owns the message |
| `Claims.OrphanIsShared` | internal/store/postgres/db.go:105-107 | A scheduler that lists the message afterwards owns it together with that worker |
| `Claims.OrphanedDispatch` | internal/store/postgres/db.go:105-107 | It happens to every message whose first dispatch is on its way in another process |
| `Claims.TwoWritesOfRetry` | internal/forwarder/retry.go:107-155 | A retry's finaliser writes a status twice if and only if its outcome is to wait for timer and event and its schedule does not end the process, and else at most once |
| `Claims.TwoWritesOfDispatch` | internal/forwarder/forwarder.go:345-407 | A first dispatch's finaliser writes a status twice if and only if its outcome is to wait for timer and event, and else once |
| `Claims.OrderlyRun` | internal/forwarder/retry.go:119-125 | With every store call a step of its own, exclusion and all that it rests on holds over every run in which no finaliser schedules a retry and waits for an event too, and no restart orphans an owner |
| `Claims.DispatchIsUnshared` | internal/forwarder/forwarder.go:382-393 | A message that was just inserted is never shared, whatever such a run brings, if and only if its first pass does not end in waiting for timer and event |
| `Claims.RetryIsUnshared` | internal/forwarder/retry.go:119-125 | The same of a message that a retry has just claimed: if and only if the retry does not schedule another and wait for an event too |
| `Claims.OnlyOverwritesBreak` | internal/forwarder/forwarder.go:382-393 | The step at which exclusion is lost: a second status write while another worker owns the message, or a restart that orphans an owner |
| `Claims.TwoOwners` | internal/forwarder/forwarder.go:387-391 | A reachable interleaving in which the schedulers of two processes own one message, each having listed it when it was due |
| `Serial.InterleavingIsSerial` | internal/forwarder/retry.go:50-155 | Once all calls are made, the row, its reports and every status written to it are those of a run of whole steps, for every interleaving of single calls in which no finaliser splits its writes and no restart interrupts a worker |
| `Serial.InterleavedReports` | internal/forwarder/retry.go:107-155 | So reports and terminal writes are accounted for under interleaving too |
| `Septets.PackGsm7` | internal/codec/tpdu/dcs.go:215-230 | The loop or-ing septets into octets produces the packing given bit by bit |
| `Septets.PackGsm7WithUdh` | internal/codec/tpdu/encode.go:184-222 | The same behind a header with fill bits, with the header counted in septets |
| `Septets.UnpackGsm7` | internal/codec/tpdu/dcs.go:188-212 | The shifting and masking loop reads the septets at every seventh bit and stops at the end of the octets |
| `Septets.UnpackPack` | internal/codec/tpdu/dcs.go:188-230 | Unpacking what was packed behind any header returns the same septets |
| `Septets.HeadIsPrefix` | internal/codec/tpdu/encode.go:202-222 | The header octets come out in front, unchanged |
| `Septets.LengthFormulasAgree` | internal/codec/tpdu/decode.go:303-314 | The decoder's formulas for header septets and octets describe the sizes the encoder wrote |
| `Septets.UnpackWholeOctets` | internal/codec/smpp/decode.go:75-80 | A reader that counts septets by octets reads one zero septet too many exactly when seven padding bits follow |
| `Gsm7.BasicInverts` | internal/codec/tpdu/dcs.go:83-132 | The default alphabet and its reverse table are inverse, and the escape position codes nothing |
| `Gsm7.ExtensionInverts` | internal/codec/tpdu/dcs.go:94-139 | The same for the extension table, which shares no character with the alphabet |
| `Gsm7.BuildReverse` | internal/codec/tpdu/dcs.go:126-139 | The start-up loops build those reverse tables |
| `Gsm7.EncodeGsm7` | internal/codec/tpdu/dcs.go:172-184 | Packed octets and septet count of the text |
| `Gsm7.DecodeGsm7` | internal/codec/tpdu/dcs.go:144-167 | The loop over septets and escapes is the recursive reading of them |
| `Gsm7.DecodeEncode` | internal/codec/tpdu/dcs.go:144-184 | Encoding, followed by any septets, decodes to the substituted text followed by their decoding |
| `Gsm7.SubstitutedIdentity` | internal/codec/tpdu/dcs.go:170-184 | The text survives exactly when every character is in one of the tables, and substitution is idempotent |
| `Gsm7.PackedTextRoundTrip` | internal/codec/tpdu/dcs.go:144-230 | Text behind any header survives packing and unpacking up to substitution |
| `Ucs2.EncodeUcs2` | internal/codec/tpdu/dcs.go:270-293 | The loop writes the octets of the UTF-16 units |
| `Ucs2.DecodeUcs2` | internal/codec/tpdu/dcs.go:236-265 | The loop reads units and pairs, and yields scalar values for any octets |
| `Ucs2.DecodeEncode` | internal/codec/tpdu/dcs.go:236-293 | Every sequence of Unicode scalar values survives |
| `Ucs2.EncodeDecode` | internal/codec/tpdu/dcs.go:236-293 | Octets survive exactly when their number is even and every surrogate is paired |
| `Ucs2.DecodeIsStable` | internal/codec/tpdu/dcs.go:236-265 | Decoding, encoding and decoding again gives what decoding gave |
| `ValidityPeriod.EncodeMonotone` | internal/codec/tpdu/encode.go:304-334 | A longer duration never gets a smaller code |
| `ValidityPeriod.DecodeStrictlyIncreasing` | internal/codec/tpdu/decode.go:254-265 | A larger code always means a longer period |
| `ValidityPeriod.EncodeIsLargestNotExceeding` | internal/codec/tpdu/encode.go:304-334 | From five minutes on the code is the largest whose period does not exceed the duration, exactly outside 30240 to 43200 minutes |
| `ValidityPeriod.NeverExceeds` | internal/codec/tpdu/encode.go:304-334 | The period read back never exceeds the duration, exactly outside that range and from five minutes on; below it is five minutes |
| `ValidityPeriod.StretchedPeriod` | internal/codec/tpdu/encode.go:326-332 | A period of 22 days is read back as one of 29 |
| `ValidityPeriod.EncodeDecode` | internal/codec/tpdu/decode.go:254-265 | Every code comes back except 188 to 195 |
| `Messages.DecodeUdh` | internal/codec/tpdu/decode.go:354-395 | The loop over information elements finds the last segment element and stops at a broken one |
| `Messages.BuiltDcsParses` | internal/codec/tpdu/dcs.go:11-66 | A coding octet that was built names the encoding it was built for, and no octet means UTF-8 |
| `Messages.BuiltConcatParses` | internal/codec/tpdu/encode.go:290-301 | A segment header that was built is well formed and parses to the same segment |
| `TpduAddress.EncodeBcd` | internal/codec/tpdu/encode.go:268-286 | The loop writes the semi-octets of digits and refuses anything else |
| `TpduAddress.DecodeBcd` | internal/codec/tpdu/decode.go:400-413 | The loop reads digits, skipping nibbles above nine |
| `TpduAddress.BcdRoundTrip` | internal/codec/tpdu/decode.go:400-413 | Any digits survive their semi-octets |
| `TpduAddress.EncodeAddress` | internal/codec/tpdu/encode.go:225-265 | The method writes the specified field, or its error |
| `TpduAddress.DecodeAddress` | internal/codec/tpdu/decode.go:166-210 | The method reads at a cursor what is specified at the start of the rest |
| `TpduAddress.RoundTrip` | internal/codec/tpdu/encode.go:225-253 | Whatever follows, an address comes back in canonical form and consumes its field exactly when it is made of at most 255 digits with a type and plan that fit |
| `TpduAddress.AlphaIsCutShort` | internal/codec/tpdu/decode.go:179-191 | No alphanumeric address is ever read back as itself |
| `TpduAddress.AlphaLosesPlace` | internal/codec/tpdu/encode.go:256-265 | And the reader takes the right number of octets only for a single septet, however long the address |
| `UserData.EncodeUserData` | internal/codec/tpdu/encode.go:134-167 | The method writes the specified user data and length |
| `UserData.DecodeUserData` | internal/codec/tpdu/decode.go:268-351 | The method reads what is specified, with every error case |
| `UserData.RoundTrip` | internal/codec/tpdu/decode.go:268-351 | Encoding, text or data, header and segment come back exactly when the coding octet names the encoding, the header is well formed and the length is at most 255 |
| `Tpdu.EncodeSubmit` | internal/codec/tpdu/encode.go:65-118 | The method writes the specified SUBMIT, or its error |
| `Tpdu.EncodeDeliver` | internal/codec/tpdu/encode.go:12-61 | The method writes the specified DELIVER, or its error |
| `Tpdu.DecodeTpdu` | internal/codec/tpdu/decode.go:21-37 | The method reads SUBMIT, DELIVER and STATUS-REPORT as specified |
| `Tpdu.SubmitRoundTrip` | internal/codec/tpdu/decode.go:40-89 | A SUBMIT decodes to the message it was made from, reference, flag, validity and segment included, exactly when destination and user data fit |
| `Tpdu.DeliverRoundTrip` | internal/codec/tpdu/decode.go:92-128 | The same for a DELIVER over its source and any time stamp |
| `TpduLayouts.DefaultAlphabet` | internal/codec/tpdu/dcs.go:83-92 | The 128 characters in the table of TS 23.038, row by row |
| `TpduLayouts.ExtensionTable` | internal/codec/tpdu/dcs.go:96-117 | The ten extension characters, and nothing at any other position |
| `TpduLayouts.ReadingSeptets` | internal/codec/tpdu/dcs.go:144-167 | An escape takes the next septet with it, reads as a space if that is undefined, and as nothing at the end |
| `TpduLayouts.PackingOrder` | internal/codec/tpdu/dcs.go:215-230 | Which bits of which octet the first two characters take |
| `TpduLayouts.UnitOrder` | internal/codec/tpdu/dcs.go:270-293 | High octet first, and the surrogate pair of every character above 0xFFFF octet by octet |
| `TpduLayouts.BrokenUnits` | internal/codec/tpdu/dcs.go:236-267 | An unpaired surrogate reads as U+FFFD and a last odd octet as nothing |
| `TpduLayouts.CodingGroups` | internal/codec/tpdu/dcs.go:11-77 | The encoding of every coding octet, by its bits |
| `TpduLayouts.ValiditySteps` | internal/codec/tpdu/decode.go:254-265 | The step from each of the 256 periods to the next |
| `TpduLayouts.LastSegmentCounts` | internal/codec/tpdu/decode.go:354-395 | Elements one behind the other yield the last one of kind 0 with three octets or kind 8 with four, its reference, total and sequence each in its place; the others change nothing |
| `TpduLayouts.HeaderOfElements` | internal/codec/tpdu/decode.go:354-395 | So a header made of them is accepted and read |
| `TpduLayouts.SegmentHeaders` | internal/codec/tpdu/decode.go:375-389 | Both usual segment headers, octet by octet |
| `TpduLayouts.HeadersRefused` | internal/codec/tpdu/decode.go:354-363 | A header is refused exactly if it is shorter than it says, and kept octet by octet |
| `TpduLayouts.SegmentOfUnit` | internal/codec/tpdu/decode.go:268-351 | A SUBMIT or DELIVER that announces such a header is of that segment |
| `TpduLayouts.SegmentsRead` | internal/codec/tpdu/decode.go:268-351 | The same of its user data, in every encoding |
| `TpduLayouts.BcdIsSwapped` | internal/codec/tpdu/encode.go:268-286 | Semi-octets are the digits in swapped pairs |
| `TpduLayouts.DigitAddress` | internal/codec/tpdu/encode.go:225-253 | An address field octet by octet: digits counted, type and plan, 1/1 in place of 0/0 |
| `TpduLayouts.OtherAddresses` | internal/codec/tpdu/encode.go:225-286 | What is sent without an address and of characters, and that anything but digits is refused |
| `TpduLayouts.SemiOctetsRead` | internal/codec/tpdu/decode.go:400-413 | Each octet adds its low digit and then its high one, skipping what is no digit, with the announced number limiting the high ones only |
| `TpduLayouts.AddressRead` | internal/codec/tpdu/decode.go:166-210 | Exactly when an address is accepted, and what of it is read from where |
| `TpduLayouts.CharactersInSemiOctets` | internal/codec/tpdu/decode.go:179-191 | A sender of characters whose length counts semi-octets is read whole |
| `TpduLayouts.HeaderSent` | internal/codec/tpdu/encode.go:169-182 | The raw header goes before one built for the segment |
| `TpduLayouts.UserDataRefused` | internal/codec/tpdu/decode.go:268-351 | Exactly when user data is refused, in lengths of octets and septets, and with which error |
| `TpduLayouts.SubmitSent` | internal/codec/tpdu/encode.go:65-118 | Where every field of a SUBMIT stands |
| `TpduLayouts.DeliverSent` | internal/codec/tpdu/encode.go:12-61 | Where every field of a DELIVER stands |
| `TpduLayouts.SubmitRead` | internal/codec/tpdu/decode.go:40-89 | What each octet of a SUBMIT is read as, in every form of validity period |
| `TpduLayouts.DeliverRead` | internal/codec/tpdu/decode.go:92-128 | What each octet of a DELIVER is read as |
| `TpduLayouts.StatusReportRead` | internal/codec/tpdu/decode.go:131-162 | A STATUS-REPORT yields its reference and recipient whatever its times and status |
| `TpduLayouts.UnitsRefused` | internal/codec/tpdu/decode.go:21-37 | Short units and the fourth kind are refused, and a STATUS-REPORT exactly if its fields do not fit, with which error |
| `TpduLayouts.FieldsRefused` | internal/codec/tpdu/decode.go:40-128 | A SUBMIT or DELIVER is refused exactly for its address, its fixed fields and period, or its user data, with the error of the first of them |
| `SmppFields.FieldsRoundTrip` | internal/smpp/codec.go:288-306 | NUL-free fields are read back, with whatever follows left over |
| `SmppFields.OnlyNulFreeSurvive` | internal/smpp/codec.go:288-306 | Fields with a NUL inside a string never are |
| `SmppFields.TlvsRoundTrip` | internal/smpp/codec.go:246-284 | The parameter map is read back whole from every order it may be written in |
| `SmppCodec.WriteTlvs` | internal/smpp/codec.go:246-260 | Ranging in an arbitrary order writes the encoding for one such order, or refuses an oversized value |
| `SmppCodec.ReadTlvs` | internal/smpp/codec.go:262-284 | The reading loop is the specified one, repeated tags and trailing octets included |
| `SmppCodec.EncodePdu` | internal/smpp/codec.go:19-37 | The method writes the specified unit for some order of its parameters, or its error |
| `SmppCodec.DecodePdu` | internal/smpp/codec.go:40-71 | The method reads the specified unit and leaves the rest of the stream |
| `SmppCodec.ReadBody` | internal/smpp/codec.go:136-242 | The moving reader reads every kind of body as specified |
| `SmppWire.RoundTrip` | internal/smpp/codec.go:19-71 | For every parameter order and whatever follows, a unit is read back with only its length set exactly when its strings are NUL-free and its true length is legal |
| `SmppWire.StreamRoundTrip` | internal/smpp/codec.go:40-71 | A concatenation of encodings decodes to exactly those units |
| `SmppWire.AcceptedIsStable` | internal/smpp/codec.go:75-242 | A unit that was accepted can be encoded again, in any order, and decodes to itself up to its length; it is no longer than it was, but for a bare header, which grows by one octet for each field of its command |
| `SmppWire.ResponseNeedsTerminator` | internal/smpp/codec.go:230-238 | A response body is refused if and only if it holds no NUL |
| `SmppLayouts.Commands` | internal/smpp/codec.go:136-242 | Which command carries what |
| `SmppLayouts.BindLaidOut` | internal/smpp/codec.go:79-86 | Where every field of a bind stands |
| `SmppLayouts.ResponsesLaidOut` | internal/smpp/codec.go:75-132 | A response is one string with its NUL, other commands are empty |
| `SmppLayouts.ShortMessageLaidOut` | internal/smpp/codec.go:91-117 | Where every field of a short message stands, and exactly when it is refused |
| `SmppLayouts.UnitLaidOut` | internal/smpp/codec.go:19-37 | The header says the number of octets, command, status and sequence in network order |
| `SmppLayouts.UnitNotSent` | internal/smpp/codec.go:19-37 | Exactly when no unit is made, and with which error |
| `SmppLayouts.UnitsAccepted` | internal/smpp/codec.go:40-71 | Exactly when a unit is accepted, what its header says and how much of the stream it takes, and why another is refused |
| `SmppLayouts.FieldsRefused` | internal/smpp/codec.go:288-306 | A field is refused exactly if its octet or its NUL is missing, and a string is what stands before the first NUL |
| `SmppLayouts.ShortTextRefused` | internal/smpp/codec.go:169-228 | A short message with less text than its length says is refused |
| `SmppLayouts.LastValueCounts` | internal/smpp/codec.go:262-284 | Parameters in any order and number: each tag keeps its last value |
| `SmppLayouts.BrokenParameters` | internal/smpp/codec.go:262-284 | Stray octets and values that are cut short are refused |
| `SmppMessage.EncodeSm` | internal/codec/smpp/encode.go:52-116 | The method builds the specified unit, with message_payload above 254 octets |
| `SmppMessage.DecodeSm` | internal/codec/smpp/decode.go:16-111 | The method reads the specified message, with every error case |
| `SmppMessage.AddressRoundTrip` | internal/codec/smpp/decode.go:137-150 | An address survives up to its leading plus exactly when it is not digits typed as alphanumeric and keeps no second plus |
| `SmppMessage.SegmentAligns` | internal/codec/smpp/encode.go:146-156 | Behind the seven-octet segment header the text needs no fill bits |
| `SmppMessage.TextArrives` | internal/codec/smpp/decode.go:71-80 | GSM text with or without a segment header arrives substituted, with one '@' added exactly for k mod 8 = 7 septets |
| `SmppMessage.PduRoundTrip` | internal/codec/smpp/decode.go:16-111 | Decoding an encoded message gives what is expected exactly when the coding octet names the encoding and both addresses fit |
| `SmppMessage.EndToEnd` | internal/smpp/codec.go:19-71 | The same across the wire, for every parameter order and whatever follows on the stream |
| `SmppMessage.TextSurvives` | internal/codec/smpp/decode.go:71-85 | Text is exactly the one sent if and only if it is not GSM text with an unknown character or with k mod 8 = 7; the segment is lost exactly for binary messages |
| `SmppMessage.HeaderSurvives` | internal/codec/smpp/encode.go:76-106 | The header that arrives is the one sent if and only if it is the one built for the message's segment, or neither is there |
| `SmppMessage.PortHeaderIsLost` | internal/codec/smpp/encode.go:76-106 | In every encoding a message with a port header and no segment is sent without its header |
| `SmppMessage.ArrivesAsSent` | internal/smpp/codec.go:19-71 | Across the wire, for every parameter order and whatever follows, once coding octet and addresses get through: exactly when text and data, segment, and header arrive as sent |
| `SmppLayouts.MessageSent` | internal/codec/smpp/encode.go:52-116 | Every field of the unit made of a message; text above 254 octets goes into message_payload |
| `SmppLayouts.MessageRead` | internal/codec/smpp/decode.go:16-111 | What each field of a unit is read as, and when it is refused |
| `SmppLayouts.SegmentRead` | internal/codec/smpp/decode.go:55-69 | The segment is that of the header, and without one that of the three SAR parameters, which count only together |
| `Diameter.EncodeAvp` | internal/diameter/codec/avp.go:69-100 | The buffer holds header, data and zero padding |
| `Diameter.DecodeAvps` | internal/diameter/codec/avp.go:139-153 | The shrinking loop is the recursive reading, with every error case |
| `Diameter.DecodeAdvances` | internal/diameter/codec/avp.go:103-136 | Every step consumes a positive multiple of four octets that are there |
| `Diameter.AvpRoundTrip` | internal/diameter/codec/avp.go:69-136 | An AVP comes back with its vendor bit normalised exactly when it is shorter than 2^24 octets |
| `Diameter.ListRoundTrip` | internal/diameter/codec/avp.go:139-153 | A concatenation decodes to the normalised list exactly when every AVP is |
| `Diameter.AcceptedList` | internal/diameter/codec/avp.go:139-153 | Octets that were accepted are encoded to themselves with the padding zeroed |
| `Diameter.PaddingIsIgnored` | internal/diameter/codec/avp.go:131-135 | Zeroing the padding changes nothing that is read |
| `Diameter.GroupedAvp.DecodeChildren` | internal/diameter/codec/avp.go:156-163 | Sets the children to the decoded list, and leaves them on an error |
| `Diameter.NewGrouped` | internal/diameter/codec/avp.go:217-231 | Builds the group of its children and keeps them |
| `Diameter.GroupRoundTrip` | internal/diameter/codec/avp.go:156-231 | A group that was sent yields its normalised children exactly when the whole group fits |
| `Diameter.WriteMessage` | internal/diameter/codec/message.go:80-104 | The buffer holds the header and every AVP |
| `Diameter.Stream.ReadMessage` | internal/diameter/codec/message.go:107-150 | Reads the message at the front of the stream and leaves the rest, or the specified error |
| `Diameter.MessageRoundTrip` | internal/diameter/codec/message.go:80-150 | Whatever follows, a message comes back normalised exactly when it is shorter than 2^24 octets |
| `Diameter.AcceptedMessage` | internal/diameter/codec/message.go:107-150 | A message that was accepted is encoded to the octets it came from with the padding zeroed |
| `Diameter.StreamRoundTrip` | internal/diameter/codec/message.go:107-127 | A stream of messages is read back as those messages |
| `DiameterLayouts.AvpLaidOut` | internal/diameter/codec/avp.go:69-100 | Where every field of an AVP stands, zero padding included |
| `DiameterLayouts.AvpsAccepted` | internal/diameter/codec/avp.go:103-136 | Exactly when octets begin with an AVP, what is read of them, and why others are refused |
| `DiameterLayouts.GroupLaidOut` | internal/diameter/codec/avp.go:217-231 | A group is its children one behind the other |
| `DiameterLayouts.MessageLaidOut` | internal/diameter/codec/message.go:80-104 | Where every field of a message stands |
| `DiameterLayouts.MessagesAccepted` | internal/diameter/codec/message.go:107-150 | Exactly when a stream begins with a message, what is read of its header, and why others are refused |
| `Link.StepIsSafe` | internal/smpp/link.go:99-155 | Every step keeps: entries belong to calls that have not returned, a call gets at most one response, and it carries the call's number |
| `Link.EveryRunIsSafe` | internal/smpp/link.go:99-155 | So under every interleaving, numbers reused or not, a channel send never blocks, a returned response has the number drawn, and no entry outlives its call |
| `Link.HowCallsEnd` | internal/smpp/link.go:119-155 | A waiting call whose response is dispatched returns that response, or a timeout if the time is up as well |
| `Link.OnlyReuseForgets` | internal/smpp/link.go:109-117 | A waiting call is forgotten by a step if and only if another call registers or returns with its number |
| `Link.NoResponseIsLost` | internal/smpp/link.go:99-129 | None is while fewer than 2^32 numbers are drawn during any call |
| `Link.ReuseLosesAResponse` | internal/smpp/conn.go:38-41 | A run with a reused number in which a call waits in vain |
| `Link.PendingMap.NextSeq` | internal/smpp/conn.go:38-41 | The 32-bit counter follows the count of draws modulo 2^32 |
| `Link.PendingMap.RegisterCall` | internal/smpp/link.go:108-111 | The first critical section is the modelled step |
| `Link.PendingMap.Await` | internal/smpp/link.go:123-128 | When a response is there or the time is up the select takes either branch that is ready, and a returned response carries the call's number |
| `Link.PendingMap.Unregister` | internal/smpp/link.go:113-117 | Nothing in the map refers to the call any more |
| `Link.PendingMap.DispatchPending` | internal/smpp/link.go:144-155 | Consumed if and only if an entry was there; the entry is gone and the response is in its channel |

## Left out

- Service centre time stamps and absolute validity periods: the seven octets are carried as they are, and the time an absolute period leaves is a parameter.
- Clocks: times are integers and each step sees one `now`; the wall clock is not read twice inside a step.
- Durations: whole minutes in the TPDU codec; the float conversion of Go's `Minutes()` is not modelled.
- SMPP validity strings: how they are parsed is an arbitrary function.
- Alphanumeric senders are characters in the TPDU codec and octets in the SMPP codec, where the program has one string type.
- Text: sequences of Unicode scalar values; octets that are not UTF-8 are not modelled.
- SMPP units carry the fields of their own command only, and neither the command length nor the length octet of a short message is written back into the unit.
- SMPP delivery receipts: composed and parsed by heuristics.
- Aliasing of octet slices, as between a decoded header and the payload it was cut from.
- The other AVP constructors and accessors, the message builders, and the hop-by-hop counters.
- Nested children of a grouped AVP: encoding ignores them and decoding does not fill them in, so one level is kept.
- Network, registry, Sh and S6c lookups, MME mapping, peer selection: each is an arbitrary value of `Env`. A rule table or policy that is reloaded inside one step is not modelled; between steps both may change freely.
- Rule matching: an arbitrary ordered list of decisions.
- The validity override that a policy puts on a message while it is sent: it is undone after the attempt and nothing of it is stored.
- Subscriber identities and the text matching of alert queries: the set of messages an identifier names is given.
- Payload columns, message identifiers, and the receipts that a report leads to: a report is the fact that it was made. A reporter is configured, as `cmd/smsc/main.go` does.
- Store failures: every call succeeds.
- SQLite compares times as text; times are integers here, and the list predicates are those of PostgreSQL.
- The sweep is one step: its unguarded write between the calls of a claimed dispatch is not interleaved.
- Two goroutines of one process at work on one message are independent workers in `Claims`; that a process runs its retries one after another is not used there.
- A process that ends inside a finaliser: `Crash` is an end while a message is being sent, before any of its outcome is written, and the empty schedule is the one other place.
- Lifecycle.EveryMessageTerminates: one retry scheduler, whose listed row is the message's row at some time since its last retry; what an alert lists may be any earlier row. With several schedulers listing at once a retry count can be written twice.
- Lifecycle.ReachableCursors: the same.
- Forwarder.Worker: keeps a history of its calls that the program does not have; so do the message ledgers in the store.
- Link.PendingMap: the lock and the blocking of a select are not modelled; each critical section is one method, and the select is made when a branch is ready.
- Reconnecting, keep-alives, binding and the throttling of links.
