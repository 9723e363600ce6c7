# Verification of Galène's media path and client protocols

Galène is a videoconference server: it receives RTP packets from senders, drops some of them for
each receiver, renumbers what it forwards, caches packets for retransmission, and asks senders
for what was lost. This project models the small stateful structures that do this, together with
the client's file-transfer protocol, offer/answer coalescing, trickle-ICE fragments and ETag
matching, and proves what they keep over every run.

Most of the difficulty is that the code works on 16-bit numbers that wrap. Each structure is
modelled twice: as an object with the fields of the original, in its arithmetic, and as a state
machine over unbounded numbers. The methods are proved to take exactly the steps of the machine,
and the properties are proved of every run of it.

Check the whole project with `dafny verify dfyconfig.toml`.

## Where things are

| file | subject |
|---|---|
| `Basics`, `Serial`, `Windows`, `Division`, `Bits` | shared types; wrap-around and modular comparison; searching runs of numbers modulo 2^16; division by a variable; bits of natural numbers |
| `RemapEpoch`, `PacketMap`, `PacketMapRuns`, `PacketMapMemory` | the packet map over unbounded numbers, the map itself, whole runs of calls on it, and what it forgets |
| `LossBitmap`, `RingQueue`, `ReceiverStats`, `PacketCache` | the parts of the packet cache, and the cache |
| `LossReports`, `Keyframes` | what becomes of lost packets in the loss window and in the reader's loop, and how long the last keyframe is remembered |
| `NackEncoding`, `NackPipeline`, `Replay` | packing NACKs, deferring them, and replaying the cache to a new receiver |
| `Unbounded` | the unbounded channel and its wakeup token |
| `RtpTime`, `LipSync`, `Alignment`, `LocalAlignment` | time conversions, the origins of recorded tracks, and what keeps them aligned, in remote and in local time |
| `FileTransfer`, `Negotiation` | the file-transfer protocol, and offer/answer coalescing |
| `SdpFrag`, `SdpLines`, `SdpLimits`, `SdpPatch` | printing and parsing trickle-ICE fragments, their lines written out, which of them survive that, and applying them |
| `Rewrite`, `VP8Packets`, `ETag` | rewriting RTP packets in place, what that does to packets built from their parts, and matching ETag lists |

## Results worth reading first

* `PacketMapRuns.AnswersAreByRank`: in every run of calls within an epoch, a number that the packet map returns in
  order, or late while every interval it remembers starts less than 2^15 before the next expected number, is the input
  minus the number of dropped packets below it, later drops included; and `PacketMap.Map.Retransmit`: under the same
  proviso a receiver that asks again for packet t is answered by a packet numbered t.
* `PacketMapMemory.HeldSince`: a number that was forwarded in order is remembered while it is at most 8192 before the
  next one and fewer than 128 packets were dropped since; `PacketMapMemory.StartsOverIff` says when the map starts over.
* `LossReports.EveryLossIsReported`: in every run of the reader's loop in which no packet is more than
  31 - max(patience, 14) ahead of the newest before it, every lost packet is asked for exactly once by the time it is
  max(patience, 14) behind; with the longest patience of 24 packets that bound is exact:
  `LossReports.OneFurtherIsTooFar`.
* `LossBitmap.RunKeepsInv`: no packet is reported lost twice, and the loss window passes a packet that
  has not arrived only by reporting it or when it is 32 or more behind.
* `NackEncoding.GreedyIsOptimal`: no set of NACK pairs that asks for a list is smaller than the greedy packing, for
  lists that do not reach around to within 16 of their own start. `NackEncoding.ShortestIffReach`: that is as far as a
  bound on the reach can go. The lists that the writer builds reach less than 2^15.
* `NackPipeline.UpTrack.NackWriter`: a batch asks for exactly the requests that are missing when they are looked up,
  while others store into and resize the cache between the lookups.
* `RingQueue.RunHoldsNewest`: after any stores and resizes the ring holds blanks followed by the
  newest packets, in order, and exactly as many as the capacities since allowed.
* `Alignment.OriginsAgree`: in every run of packets, sender reports and adjustments, the origins of any two tracks
  with a report denote one remote instant, to a tick and two nanoseconds each, and a tick and a nanosecond more for every
  adjustment since the last report.
* `LocalAlignment.OriginsAreSpaced`: in every run, the origins of any two tracks without a report are as far before their
  first packets as these arrived after each other, to a tick each, and a tick more for every adjustment since.
* `VP8Packets.RewritingVP8`: rewriting the bytes of any packet built from its parts gives the bytes of the packet with the
  new number, the marker, and the picture id moved in its 7 or 15 bits.
* `FileTransfer.TransferIsSafe`, `Unbounded.RunKeepsInv`, `Negotiation.RunServes`: the three
  protocols, under every interleaving.
* `ETag.MatchMeaning`: an exact description of what the matcher accepts, for every tag and header.

Some things that the code, its comments or its use suggest do not hold everywhere. Each comes with the exact condition
under which it holds, and with an input for which it does not:

* The late lookup of the packet map finds the interval that holds a number exactly when the number is at most 2^15
  after the interval's start, modulo 2^16; otherwise the number is refused, or an older interval answers for it:
  `PacketMapRuns.LateHolderAnswersIff`. A number in a gap between intervals, such as a dropped one, is refused by the
  interval before it on the same condition, and passed on otherwise: `PacketMapRuns.LateGapAnswer`. The reverse lookup
  takes numbers of any age. It finds the interval exactly when, besides, the number is less than 2^15 before the
  interval's end and the targets of the newer intervals start less than 2^15 after its own, all modulo 2^16:
  `PacketMapRuns.ReverseHolderAnswersIff`; both go without saying within 2^15 of the next expected number:
  `PacketMapRuns.ReverseNearAnswersIff`. `PacketMapRuns.LateAnswerCanBeWrong` and `PacketMapRuns.DroppedCanBeAnswered` are
  runs where a number is answered with what its successor was forwarded as, where retransmission requests are mapped to
  the wrong packet and refused, and where a dropped number is answered.
* A packet that arrives after a report, but before anything new is expected, is never counted as received:
  `ReceiverStats.NewPacketsAreCounted`, `ReceiverStats.LateAfterReportIsMissed`.
* The loss fraction of a receiver report is computed in 32 bits, and is the true one exactly when fewer than
  2^24 packets were lost: `ReceiverStats.FractionIsExactIff`, `ReceiverStats.FractionCanBeWrong`.
* `adjustOrigin` is documented to make the track's origin equal to its argument. It is, exactly when the distance
  is a whole number of nanoseconds, and is one tick short otherwise: `Alignment.AdjustedOrigin`,
  `Alignment.OneTickIsTooFar`.
* A time before 1900 comes back from NTP time, less at most a nanosecond and up to whole eras of 2^32 s, exactly if it
  is a whole number of seconds, and is off by 2^32 nanoseconds otherwise: `RtpTime.NTPRoundTripAnyTime`. So the sender
  report that fixes the remote origin leaves its track in sync exactly if the remote origin is not such a time, or the
  clock runs at 10^9 Hz: `Alignment.FirstSyncIff`, `Alignment.GarbledOrigin`.
* After a NACK packet is sent, as many more packets are expected as were asked for exactly when the list fits in 240 pairs:
  `NackPipeline.UpTrack.SendNACKs`, `NackEncoding.SpacedIsLong`.
* What a connection is to replace reaches the receiver exactly when no offer is outstanding: `Negotiation.ReplaceIsNamedIff`,
  `Negotiation.ReplaceCanBeLost`.
* A fragment applied again is no restart exactly when the session has a place for its credentials:
  `SdpPatch.RestartsEveryTimeIff`, `SdpPatch.NeverSettles`.
* Rewriting reads past the end of a packet exactly when an extension header begins less than 4 bytes before it:
  `Rewrite.RewritingFails`, `Rewrite.RewritingCanPanic`. The server itself strips extension headers before it caches a
  packet (rtpconn/rtpreader.go:67-86), so that only a direct call gets there.
* A fragment without line breaks is read back as it was exactly if it has no candidates at the session level, its other
  candidates carry what the parser adds to them, and every line fits the scanner's buffer: `SdpLimits.SurvivesIff`. A
  session-level candidate is printed without its prefix: `SdpLines.SessionCandidateIsCut`. The first line that does not
  fit is lost, silently and with all that follows: `SdpLimits.LongUfragIsLost`.
* The last keyframe is forgotten exactly when a packet ahead of the newest is 2^15 or more after it modulo 2^16:
  `Keyframes.KeptIffNotOutrun`; while the sender does not restart, exactly when the newest packet is that far ahead:
  `Keyframes.KeptIffNear`.

## Model

| member | source | states |
|---|---|---|
| Serial.CompareExact | packetmap/packetmap.go:212-221 | the modular comparison is the order of the unbounded numbers whenever they are less than 2^15 apart, or exactly 2^15 one way |
| Serial.NearestPosition | packetcache/packetcache.go:68-90 | every 16-bit test of a number against a reference, the far-past test included, read as a statement on the closest unbounded number |
| Windows.ScanHit | packetmap/packetmap.go:116-141 | the circular newest-first search finds a number in a recent interval, whatever the older intervals look like |
| Windows.ScanIsFind | packetmap/packetmap.go:116-181 | when all intervals start less than 2^15 back, the circular modular search agrees with a linear oldest-to-newest search, on every 16-bit number |
| Windows.JudgeIs | packetmap/packetmap.go:121-130 | how an interval of any length judges any number, at any distance: it passes it on if the number is more than 2^15 after its start modulo 2^16, accepts it if it is less than 2^15 before its end modulo 2^16, and rejects it otherwise |
| Windows.ScanIs | packetmap/packetmap.go:116-181 | where the circular search ends, for every list of intervals and every number: at the newest that does not pass it on, if it accepts |
| Windows.AnswersIff | packetmap/packetmap.go:116-181 | an interval answers exactly if it accepts the number, and all newer ones pass it on |
| RemapEpoch.ForwardKeepsInv | packetmap/packetmap.go:73-111 | forwarding keeps intervals disjoint, increasing in source and target, constant in rank, and anchored at next, whether an interval is extended, added, or replaces the oldest of 128 |
| RemapEpoch.DiscardKeepsInv | packetmap/packetmap.go:185-210 | dropping keeps all of that, the first drop of an epoch included |
| RemapEpoch.RecallKeepsInv | packetmap/packetmap.go:61-61 | looking up a late number keeps all of that |
| RemapEpoch.RunKeepsInv | packetmap/packetmap.go:28-210 | the invariant holds in every state of every run of an epoch |
| RemapEpoch.AnswersAreStable | packetmap/packetmap.go:28-141 | a number that was mapped once is mapped to the same number and picture-id delta ever after |
| RemapEpoch.RankRefinement | packetmap/packetmap.go:28-141 | what is logged for numbers forwarded in order, or late from an interval that starts less than 2^15 before next, is the number minus the drops below it; dropped numbers are never logged, and targets increase strictly, by the gap minus the drops between |
| RemapEpoch.PidDeltaIsStepsDropped | packetmap/packetmap.go:204-205 | in every run the picture-id delta is the sum, modulo 2^16, of the steps the picture id made at dropped packets |
| RemapEpoch.RenumberingIncreases | packetmap/packetmap.go:51-51 | renumbering by rank is strictly increasing on kept numbers, with that step |
| RemapEpoch.TargetsAreContiguous | packetmap/packetmap.go:87-94 | renumbered intervals leave no hole between them unless 8192 or more drops came in a row |
| RemapEpoch.RememberedIffKept | packetmap/packetmap.go:87-94 | under the same proviso a number from the oldest interval on is remembered exactly if it was not dropped |
| RemapEpoch.SpanAgreesWithLog | packetmap/packetmap.go:116-141 | what an interval says about a number is what was returned for it when it was forwarded |
| PacketMap.FirstMissing | packetmap/packetmap.go:86-90 | the first number after the newest interval, computed from its fields and the deltas in 16 bits, is the next expected one |
| PacketMap.FollowingIsAppended | packetmap/packetmap.go:85-100 | the entry computed in 16 bits is the image of the interval that starts at the first missing number, or at the packet itself after 8192 drops |
| PacketMap.AddedHolds | packetmap/packetmap.go:79-111 | extending, appending and overwriting the oldest of 128 slots keep the ring the image of the epoch's intervals, oldest to newest |
| PacketMap.MapIsStep | packetmap/packetmap.go:28-62 | every call of Map is a step of the epoch's machine, or the first step of a new epoch |
| PacketMap.InOrderMeaning | packetmap/packetmap.go:41-52 | an in-order number is answered by its rank |
| PacketMap.LateMeaning | packetmap/packetmap.go:54-61 | a late number that a recent interval holds is answered by its rank, as when it was first forwarded; with all intervals recent, exactly those are answered |
| PacketMap.SpanAnswers | packetmap/packetmap.go:116-141 | the interval that holds a number is the one both searches find, and its delta is minus the number's rank |
| PacketMap.ReverseInverts | packetmap/packetmap.go:146-181 | the reverse lookup of what a remembered number was mapped to is that number |
| PacketMap.ReverseSucceeds | packetmap/packetmap.go:146-181 | with recent intervals, the reverse lookup succeeds exactly on the numbers that some interval renumbers to |
| PacketMap.RetransmitMeaning | packetmap/packetmap.go:26-62 | mapping a remembered number again yields what was returned for it |
| PacketMap.Map.MapLocked | packetmap/packetmap.go:32-61 | the answer and the new fields for every number at every distance: before the first drop; more than 8192 away, where the map starts over; up to 8192 ahead; and up to 8192 behind; and the object takes the machine's step |
| PacketMap.Map.AddMapping | packetmap/packetmap.go:73-111 | the ring and its newest slot after a mapping is added |
| PacketMap.Map.Direct | packetmap/packetmap.go:116-141 | the walk over the ring terminates and is the newest-first search of the intervals |
| PacketMap.Map.ReverseLocked | packetmap/packetmap.go:150-180 | the same of the walk over target numbers |
| PacketMap.Map.Map | packetmap/packetmap.go:28-62 | the invariant is kept; after a drop, a number more than 8192 away empties the map and is forwarded as it is, and no other makes it forget a drop or an answer; every answer in order is by rank or starts a new epoch; a late answer is by rank if an interval that starts less than 2^15 before next holds the number, and with all intervals so recent exactly those numbers are answered |
| PacketMap.Map.Reverse | packetmap/packetmap.go:146-181 | whatever Map returned for a remembered number leads back to it |
| PacketMap.Map.Drop | packetmap/packetmap.go:185-210 | only the next expected number is dropped, and then the machine's step is taken |
| PacketMap.Map.Retransmit | rtpconn/rtpconn.go:766-786 | a request for packet t, mapped back and then forward again, sends a packet numbered t |
| PacketMapRuns.AnswersAreByRank | packetmap/packetmap.go:28-141 | in every run of Map and Drop within an epoch, every answer given in order, or late while all intervals start less than 2^15 before next, is the number minus the drops below it in the whole run, and the number is never dropped |
| PacketMapRuns.AnswersIncrease | packetmap/packetmap.go:28-141 | of two such answers the one for the later number is ahead by the gap minus the drops between, which is positive |
| PacketMapRuns.LateAnswerIs | packetmap/packetmap.go:54-61 | the answer for every late number, remembered, forgotten or dropped |
| PacketMapRuns.LateHolderAnswersIff | packetmap/packetmap.go:116-141 | the interval that holds a late number answers for it exactly when the number is at most 2^15 after its start modulo 2^16; otherwise an older one does, which does not hold it, or none |
| PacketMapRuns.LateGapAnswer | packetmap/packetmap.go:116-141 | a late number that no interval holds, at most 2^15 after the end of the one before it, is refused exactly on that condition, and otherwise left to the older intervals |
| PacketMapRuns.ReverseAnswerIs | packetmap/packetmap.go:146-181 | the answer of the reverse lookup for every number, however old |
| PacketMapRuns.ReverseHolderAnswersIff | packetmap/packetmap.go:160-180 | exactly when the reverse lookup of what an interval forwards a number as finds that interval, at any distance |
| PacketMapRuns.ReverseNearAnswersIff | packetmap/packetmap.go:160-180 | less than 2^15 before the next expected number only the distance from the interval's start matters |
| PacketMapRuns.LateAnswerCanBeWrong | packetmap/packetmap.go:116-181 | a run with one drop, after which a number is answered with what its successor was forwarded as, one retransmission request is mapped to the wrong packet, and one is refused although its number is at most 2^15 after the interval's start |
| PacketMapRuns.DroppedCanBeAnswered | packetmap/packetmap.go:116-141 | a run after which a dropped number is answered |
| PacketMapMemory.StartsOverIff | packetmap/packetmap.go:41-59 | after a drop the map starts over exactly at the numbers 8193 to 32767 ahead and 8193 to 32768 behind; nothing is left, and the number is its own answer |
| PacketMapMemory.OtherwiseNothingIsLost | packetmap/packetmap.go:41-111 | at all others no drop, no answer and no interval but the oldest of 128 is lost |
| PacketMapMemory.SenderStartsOver | packetmap/packetmap.go:54-59 | after a drop of 0, number 50000 is forwarded as it is |
| PacketMapMemory.HeldSince | packetmap/packetmap.go:73-111 | in every run of calls an interval still holds a number that was forwarded in order, if it is at most 8192 before the next number and fewer than 128 packets were dropped since |
| PacketMapMemory.AnsweredAgain | packetmap/packetmap.go:28-141 | so it is given the same answer again, if all intervals start less than 2^15 before the next number |
| PacketMapMemory.OldestOf128IsForgotten | packetmap/packetmap.go:102-110 | with 128 intervals, a new one leaves the numbers of the oldest without an interval |
| PacketMapMemory.NewInterval | packetmap/packetmap.go:84-100 | the interval that a packet begins takes in the numbers missing before it, unless 8192 or more were dropped |
| PacketMapMemory.FirstDropRemembers | packetmap/packetmap.go:193-202 | after the first drop the 8192 numbers before it lead back to themselves, those less than 8192 before it are mapped to themselves, and the one dropped is refused |
| Bits.BitOfShr | packetcache/packetcache.go:105-115 | bits of a shifted word; shifting out everything leaves 0 |
| Bits.BitOfSetBit | packetcache/packetcache.go:117-117 | setting a bit sets that bit and no other, and past the word's width it sets nothing |
| Bits.BitOfLowZeros | packetcache/packetcache.go:138-138 | the mask of low zeros has exactly the bits below the count that the word has not |
| LossBitmap.ArrivalKeepsInv | packetcache/packetcache.go:93-118 | an arrival keeps: nothing in the window is reported, nothing is reported twice, and a number leaves the window only received, reported or 32 behind |
| LossBitmap.ReportKeepsInv | packetcache/packetcache.go:129-153 | so does a report |
| LossBitmap.RunKeepsInv | packetcache/packetcache.go:92-153 | and so does every run between restarts |
| LossBitmap.ReportsAccumulate | packetcache/packetcache.go:92-153 | reports are never withdrawn and the window never moves back |
| LossBitmap.ZerosAsk | packetcache/packetcache.go:138-152 | the zeros shifted out decode, as a NACK pair of section 6.2.1 of RFC 4585, to exactly the numbers not received |
| LossBitmap.MarkShows | packetcache/packetcache.go:117-117 | setting a bit keeps bit k set exactly when first + k was received, a duplicate below the window, shifted by 32 or more, included |
| LossBitmap.Bitmap.Set | packetcache/packetcache.go:93-118 | the word keeps showing what was received; the window restarts on a number more than 256 behind, stays on others before it, and otherwise starts at the lowest number not received, no more than 31 before the new one |
| LossBitmap.Bitmap.Get | packetcache/packetcache.go:129-153 | the window moves on to next, but by no more than 17 numbers and not back, and the pair returned asks for exactly the numbers that it leaves behind without having received them |
| LossReports.PollsAdvance | packetcache/packetcache.go:129-153 | k calls in a row move the window on by 17 * k numbers, or to next |
| LossReports.PollsEmptyTheWindow | packetcache/packetcache.go:129-153 | as many calls as it takes to get to next in steps of 17 leave the window at next, and every number before next that was not received in exactly one report |
| LossReports.Patience | rtpconn/rtpreader.go:103-109 | how many packets late is too late: what arrives in 20 ms, but at least 2 and at most 24 |
| LossReports.Receive | rtpconn/rtpreader.go:89-125 | one turn of the reader's loop: the packet is recorded, and if the window starts more than the reader's patience before it, a NACK asks for exactly what is newly reported |
| LossReports.ReadingKeepsUp | rtpconn/rtpreader.go:89-125 | in every run of the reader where packets are close enough together, what left the window was received or reported, and the window is at most max(patience, 14) behind |
| LossReports.EveryLossIsReported | rtpconn/rtpreader.go:89-125 | so every lost number is reported exactly once by then |
| LossReports.OneFurtherIsTooFar | rtpconn/rtpreader.go:89-125 | five packets of which the last is 8 ahead, after which one is neither received nor reported |
| RingQueue.PushQueue | packetcache/packetcache.go:192-201 | storing drops the oldest element and appends the new one |
| RingQueue.ResizeQueue | packetcache/packetcache.go:286-309 | all three ways to resize leave the last elements of the queue padded with empty slots at the old end |
| RingQueue.ResizeKeepsIndex | packetcache/packetcache.go:293-301 | an index below the tail keeps its element across a resize that leaves room for the tail |
| RingQueue.ApplyRefines | packetcache/packetcache.go:157-309 | the ring refines a bounded queue step by step |
| RingQueue.RunHoldsNewest | packetcache/packetcache.go:157-309 | in every run of stores and resizes the queue is empty slots followed by the newest stores in order, in the exact number that the capacities allow |
| RingQueue.IndexStaysValid | packetcache/packetcache.go:157-340 | an element stays at the index it was stored at until an operation touches its slot |
| RingQueue.IndexLifetime | packetcache/packetcache.go:192-201 | without resizes that is after exactly as many further stores as there are slots |
| ReceiverStats.ResetConserves | packetcache/packetcache.go:351-370 | a reset moves the counters to the totals, and the totals reported do not change |
| ReceiverStats.RunCounts | packetcache/packetcache.go:157-214 | in every run the sequence number is the highest extended one modulo 2^32 and, as long as fewer than 2^32 packets were expected, the counters are exact and received never exceeds expected |
| ReceiverStats.ReportMeaning | packetcache/packetcache.go:351-370 | what a report says after any such run |
| ReceiverStats.ReportSinceReset | packetcache/packetcache.go:351-370 | the packets received are those stored since the last reset, but for repetitions and the late ones above, and the packets expected are those added since to all that is expected |
| ReceiverStats.TotalIsRange | packetcache/packetcache.go:161-214 | without far-past packets the total expected is the range from the first to the highest extended number plus all Expect increments (section 6.4.1 and appendix A.3 of RFC 3550) |
| ReceiverStats.AheadExtends | packetcache/packetcache.go:168-174 | the cycle count moves exactly when the 16-bit number wraps |
| ReceiverStats.ReceivedIsExact | packetcache/packetcache.go:161-184 | in every run, resets and far-past packets included, every packet stored is counted as received but for repetitions of the highest number and for late ones that find received not below expected |
| ReceiverStats.NewPacketsAreCounted | packetcache/packetcache.go:161-184 | in every run where no packet is stored twice, precedes the first or is far in the past, resets included, the total received falls short by exactly those late ones, and is the number of packets stored exactly if there are none |
| ReceiverStats.NoneMissedBeforeReset | packetcache/packetcache.go:179-183 | before the first reset there are none |
| ReceiverStats.LateAfterReportIsMissed | packetcache/packetcache.go:179-183 | a run of three packets and a reset where one is never counted |
| ReceiverStats.FractionIsExactIff | rtpconn/rtpconn.go:953-960 | the 8-bit loss fraction is the true one exactly when fewer than 2^24 packets were lost, and 0 if none was |
| ReceiverStats.FractionCanBeWrong | rtpconn/rtpconn.go:953-960 | counters reached by 514 packets, each 32767 ahead of the one before, for which the fraction reported is 0 and the true one 255 |
| PacketCache.Cache.Count | packetcache/packetcache.go:161-184 | the statistics after an arrival, and exactly when it ends the last keyframe: it is ahead of the newest packet, and 2^15 or more after the keyframe modulo 2^16 |
| PacketCache.Cache.Store | packetcache/packetcache.go:157-204 | statistics, loss window and keyframe are updated, what is kept of the packet replaces the oldest slot, its index and the window's first number are returned; a packet longer than a slot keeps its length and 1504 bytes; exactly when the last keyframe is kept |
| PacketCache.Cache.Expect | packetcache/packetcache.go:206-214 | positive increments are added modulo 2^32, others ignored |
| PacketCache.Cache.GetStats | packetcache/packetcache.go:351-370 | the report, and the reset |
| PacketCache.Cache.Get | packetcache/packetcache.go:216-247 | what is copied is the first packet with that number, one of the last capacity stores; bytes past it are untouched; it panics exactly if the packet's length exceeds the room |
| PacketCache.Cache.GetAt | packetcache/packetcache.go:258-273 | the packet at the index if it has that number, and it is then among the last capacity stores; the same of lengths and room |
| PacketCache.FoundIff | packetcache/packetcache.go:216-233 | unless an empty packet has the marker, the search by number succeeds exactly if some slot holds a packet with that number that is not empty |
| PacketCache.Cache.PerformAll | packetcache/packetcache.go:157-370 | any sequence of operations takes the ring and the statistics where the specified operations do |
| PacketCache.IndexOutlives | packetcache/packetcache.go:157-340 | a packet stays at the index it was stored at for as long as operations on the cache spare its slot: stores elsewhere, resizes that keep the indices below the tail, and every conditional resize of such an index |
| PacketCache.SlotIsRecent | packetcache/packetcache.go:286-340 | whatever a slot holds is nothing or one of the last capacity stores |
| PacketCache.ViewsOfResize | packetcache/packetcache.go:286-309 | resizing the slots resizes the queue of packets in them |
| PacketCache.Cache.Resized | packetcache/packetcache.go:286-309 | the slots copied in the three cases are the resized ring's |
| PacketCache.Cache.Resize | packetcache/packetcache.go:313-318 | the cache's ring after a resize, and the invariant |
| PacketCache.Cache.ResizeCond | packetcache/packetcache.go:320-340 | the cache gets the capacity exactly if that is at least 4/3 of its size and a slot, or at most half with room for the tail, and stays as it is otherwise; no index below the tail is lost either way |
| PacketCache.ShrinksInTime | packetcache/packetcache.go:320-340 | a cache that is twice too large is refused for at most one turn of the ring |
| Keyframes.KeptIffNotOutrun | packetcache/packetcache.go:172-191 | after any operations the last keyframe stored is remembered exactly if no packet since was ahead of the newest and 2^15 or more after it modulo 2^16 |
| Keyframes.KeptIffNear | packetcache/packetcache.go:172-191 | while the sender does not restart, exactly if the newest packet is less than 2^15 after it |
| NackEncoding.PairDecodes | packetcache/packetcache.go:375-388 | a pair decodes to exactly the prefix of the list that it covers |
| NackEncoding.ToBitmap | packetcache/packetcache.go:372-388 | the pair's decoding followed by the remainder is the list, and the remainder starts more than 16 away |
| NackEncoding.Pack | rtpconn/rtpconn.go:738-748 | the packet decodes to the whole list, in order, or to a prefix of it when cut at 240 pairs |
| NackEncoding.GreedyIsExact | rtpconn/rtpconn.go:740-748 | repeated packing decodes to exactly the list |
| NackEncoding.CutIsPrefix | rtpconn/rtpconn.go:741-744 | the first pairs decode to a prefix |
| NackEncoding.GreedyIsOptimal | rtpconn/rtpconn.go:740-748 | no set of pairs that asks for the whole list is smaller, for lists that do not reach around |
| NackEncoding.OptimalityBoundIsTight | rtpconn/rtpconn.go:740-748 | for every larger reach there is a list where a smaller set exists |
| NackEncoding.ShortestIffReach | rtpconn/rtpconn.go:740-748 | the greedy packing of every list with a given reach is the shortest exactly if the reach is less than 2^16 - 16 |
| NackEncoding.CutIsShorter | rtpconn/rtpconn.go:741-744 | every pair cut off asked for something |
| NackEncoding.SpacedIsLong | rtpconn/rtpconn.go:740-748 | lists of numbers 17 apart take a pair each, so that a list of 241 does not fit |
| NackPipeline.StepKeepsInv | rtpconn/rtpconn.go:788-810 | every request and every take keeps the buffer free of duplicates, a writer scheduled exactly when the buffer is not empty, and no request lost |
| NackPipeline.RunKeepsInv | rtpconn/rtpwriter.go:316-324 | so does every interleaving of them |
| NackPipeline.RequestsAreTaken | rtpconn/rtpconn.go:796-806 | in every run a request is in the buffer until a batch has it |
| NackPipeline.MissingIsExact | rtpconn/rtpwriter.go:344-358 | what is left of a batch is exactly what is not before the cutoff and not in the cache at the moment it is looked up |
| NackPipeline.BatchMeaning | rtpconn/rtpwriter.go:343-362 | the sorted batch is strictly sorted from the cutoff and spans less than 2^15 |
| NackPipeline.PacketMeaning | rtpconn/rtpwriter.go:343-367 | the packet sent asks for exactly that batch, or its first part past 240 pairs, and no packet that asks for all of it has fewer pairs |
| NackPipeline.WhichQualify | rtpconn/rtpwriter.go:347-347 | the cutoff's test lets pass the numbers less than 2^15 after the cutoff, and none up to 2^15 before it |
| NackPipeline.BatchReaches | rtpconn/rtpwriter.go:344-367 | so a request less than 2^15 after the cutoff is in the batch exactly if it was missing when looked up, and one up to 2^15 before it is not |
| NackPipeline.BatchIsEmptyIff | rtpconn/rtpwriter.go:365-367 | nothing is asked for exactly if no request qualifies |
| NackPipeline.UpTrack.GetPacket | rtpconn/rtpconn.go:788-810 | a packet from the cache, or a buffered request; a writer is started exactly by the first request |
| NackPipeline.UpTrack.TakeBuffer | rtpconn/rtpwriter.go:321-324 | the writer takes the whole buffer, which is not empty |
| NackPipeline.UpTrack.Cutoff | rtpconn/rtpwriter.go:330-342 | the last keyframe, or 256 before the last packet, or none on a fresh track |
| NackPipeline.UpTrack.DeleteFound | rtpconn/rtpwriter.go:344-358 | the in-place deletion terminates and keeps exactly the numbers missing when looked up, in order, whatever others do to the cache before each lookup |
| NackPipeline.UpTrack.SendNACKs | rtpconn/rtpconn.go:728-754 | what is sent, how many packets are then expected, and that these are the ones asked for exactly if the packing fits in 240 pairs |
| NackPipeline.UpTrack.Ship | rtpconn/rtpwriter.go:326-367 | the packet for some requests asks for exactly those less than 2^15 after the last keyframe, or else after 256 before the last packet, that are missing when looked up, with as few pairs as possible; on a fresh track it asks for nothing |
| NackPipeline.UpTrack.NackWriter | rtpconn/rtpwriter.go:316-368 | the same of the whole life of a writer, with others using the cache throughout: the keyframe and the last packet are those that the cache has seen when the writer looks; and what is expected afterwards |
| Replay.StepsLeft | rtpconn/rtpwriter.go:212-212 | the loop's 16-bit test counts the remaining numbers exactly |
| Replay.SendSequence | rtpconn/rtpwriter.go:209-224 | the packets replayed are numbered from the keyframe on without a hole, each as the cache has it at its turn while others use it, stop at the last, and stop before it only at a missing packet, one longer than a slot or a failed write |
| Replay.Relay | rtpconn/rtpwriter.go:294-302 | a packet that is stored, and looked up by a writer at its index after others used the cache, is found as it was kept if its slot was spared |
| Unbounded.Channel.Signal | unbounded/unbounded.go:31-36 | the send that gives up leaves a token in any case |
| Unbounded.Shared.Run | unbounded/unbounded.go:25-47 | the object takes the steps of the protocol |
| Unbounded.StepKeepsInv | unbounded/unbounded.go:25-47 | every step of every process keeps: a non-empty queue has a token, a producer about to send one, or a woken consumer; and got followed by queued is everything put, in lock order |
| Unbounded.RunKeepsInv | unbounded/unbounded.go:25-47 | no wakeup is lost in any run of any number of producers and consumers |
| Unbounded.QuiescentIsDrained | unbounded/unbounded.go:25-47 | when nobody is active and no token is left, everything put was got, in order |
| Unbounded.WaitingIsNotStuck | unbounded/unbounded.go:25-47 | while the queue is not empty some enabled step sends the token or empties it |
| RtpTime.QuotientMeaning | rtptime/rtptime.go:17-19 | exactly when the 128-bit division panics, and its value otherwise |
| RtpTime.FromDurationMeaning | rtptime/rtptime.go:13-20 | never panics for clocks of 1 to 10^9 Hz, and rounds towards zero, mirrored for negative durations; the smallest duration counts as its successor |
| RtpTime.ToDurationMeaning | rtptime/rtptime.go:23-30 | the same of the other direction, for results that fit |
| RtpTime.DurationRoundTrip | rtptime/rtptime.go:13-30 | converting to a duration and back loses nothing if hz divides t * 10^9, and exactly one unit towards zero otherwise |
| RtpTime.ExactIffDivides | rtptime/rtptime.go:70-75 | the fraction of a second is exact in units of 2^-32 exactly when 5^9 divides it |
| RtpTime.NTPToTimeIsFloor | rtptime/rtptime.go:60-67 | an NTP time, as a number of units of 2^-32 s, is converted to nanoseconds and rounded down |
| RtpTime.TimeToNTPIsFloor | rtptime/rtptime.go:70-75 | so is a time of the first era to units of 2^-32 s |
| RtpTime.NTPRoundTrip | rtptime/rtptime.go:60-75 | through NTP time and back loses exactly one nanosecond, unless 1953125 divides the nanoseconds within the second |
| RtpTime.NTPRoundTripBack | rtptime/rtptime.go:60-75 | the other round trip loses at most 5 units of 2^-32 s, and stays within the second |
| RtpTime.NTPRoundTripAnyTime | rtptime/rtptime.go:60-75 | for every time a duration can reach, the round trip loses at most a nanosecond, up to whole eras of 2^32 s, if the time is not before 1900 or is a whole number of seconds, and is off by 2^32 nanoseconds otherwise |
| LipSync.Track.SetTimeOffset | diskwriter/diskwriter.go:665-684 | the object takes the recording's step for a sender report, no other track changing |
| LipSync.Track.SetOrigin | diskwriter/diskwriter.go:616-655 | the same for the packet that gives a track its origin, in each of the three cases |
| LipSync.Track.AdjustOrigin | diskwriter/diskwriter.go:686-720 | the same for an adjustment, which moves all tracks |
| LipSync.Conn.AddTrack | diskwriter/diskwriter.go:399-404 | a track is added without an origin |
| LipSync.Conn.Close | diskwriter/diskwriter.go:215-230 | the same for closing the recording |
| Alignment.SyncedIffRepresentable | diskwriter/diskwriter.go:616-720 | a remote origin computed exactly and converted to NTP time is in sync, for every slack up to about 2^32 nanoseconds, exactly if the conversion does not garble it or the clock runs at 10^9 Hz |
| Alignment.FirstSyncIff | diskwriter/diskwriter.go:670-673 | so exactly when the report that fixes the remote origin leaves its track in sync |
| Alignment.FirstOriginIff | diskwriter/diskwriter.go:624-632 | the same of the first packet of a recording |
| Alignment.LocalOriginIff | diskwriter/diskwriter.go:642-654 | the same of an origin computed from local time |
| Alignment.FirstSync | diskwriter/diskwriter.go:670-673 | the report that fixes the remote origin leaves the track in sync with it, to two nanoseconds |
| Alignment.LaterSync | diskwriter/diskwriter.go:674-679 | a later report moves the track's origin into sync, to a tick and a nanosecond |
| Alignment.FirstOrigin | diskwriter/diskwriter.go:624-632 | the first origin of the recording is in sync with the remote origin computed from it |
| Alignment.LaterOrigin | diskwriter/diskwriter.go:635-641 | an origin computed from remote time is in sync |
| Alignment.LocalOrigin | diskwriter/diskwriter.go:642-654 | an origin computed from local time is in sync with the remote origin computed from it |
| Alignment.AdjustmentKeepsSync | diskwriter/diskwriter.go:698-719 | an adjustment loosens sync by at most one tick and one nanosecond |
| Alignment.SyncedOriginsAgree | diskwriter/diskwriter.go:665-684 | the origins of two tracks in sync with one remote origin denote one remote instant, to the sum of their slacks |
| Alignment.StepKeepsInv | diskwriter/diskwriter.go:616-720 | every packet, report, adjustment, close and new track keeps: each track with an origin and a report is in sync, with a slack that grows by one tick and one nanosecond per adjustment since its last sync |
| Alignment.RunKeepsInv | diskwriter/diskwriter.go:616-720 | so does every run on any number of tracks |
| Alignment.OriginsAgree | diskwriter/diskwriter.go:616-720 | so in every run the origins of any two such tracks denote one remote instant |
| Alignment.GarbledOrigin | diskwriter/diskwriter.go:670-673 | a report that puts the remote origin a millisecond before 1900 leaves the track out of sync |
| Alignment.AdjustedOrigin | diskwriter/diskwriter.go:686-720 | an adjustment leaves the chosen origin between its old value and its target, at most one tick from the target, and at the target exactly when the distance is a whole number of nanoseconds |
| Alignment.ShortOfTarget | diskwriter/diskwriter.go:694-718 | the distance in ticks, converted to a time and back |
| Alignment.OneTickIsTooFar | diskwriter/diskwriter.go:686-720 | an adjustment of a 48 kHz track by one tick moves nothing |
| LocalAlignment.FirstPacketIsPlaced | diskwriter/diskwriter.go:616-655 | the first packet of a track whose origin is not computed from remote time is as far from the origin, to a tick, as its arrival is from the local origin |
| LocalAlignment.AdjustmentKeepsPlace | diskwriter/diskwriter.go:698-719 | an adjustment costs a tick more |
| LocalAlignment.RunKeepsPlaces | diskwriter/diskwriter.go:616-720 | so it is in every run of packets, reports, adjustments and closings |
| LocalAlignment.OriginsAreSpaced | diskwriter/diskwriter.go:616-720 | so the distances of any two such packets from their origins differ by the difference of their arrival times, to a tick each and a tick for every adjustment since |
| LocalAlignment.WithoutReportsAllAreRecorded | diskwriter/diskwriter.go:642-645 | in a run without sender reports that holds for all tracks that have an origin |
| LocalAlignment.WhatTracksRemember | diskwriter/diskwriter.go:616-684 | in every run a track has the last report that it was sent, and an origin exactly if a packet of it arrived since the recording was last closed |
| FileTransfer.TransferredFile.DoClose | static/protocol.js:1740-1763 | the state after a close |
| FileTransfer.TransferredFile.DoCancel | static/protocol.js:1847-1856 | the state after giving up, and whether the peer is told |
| FileTransfer.TransferredFile.GetBufferedData | static/protocol.js:1790-1800 | the chunks buffered so far, as one |
| FileTransfer.TransferredFile.DoReceiveData | static/protocol.js:2149-2172 | a chunk continues, completes or breaks the transfer |
| FileTransfer.TransferredFile.DoReceiveDone | static/protocol.js:2039-2048 | the confirmation is accepted exactly when all bytes were sent |
| FileTransfer.TransferredFile.Send | static/protocol.js:2082-2124 | the chunks sent are at most 16384 bytes each and concatenate to the piece read |
| FileTransfer.ChunksConcat | static/protocol.js:2114-2124 | chopping a piece and concatenating the chunks yields the piece |
| FileTransfer.ChunksAreFull | static/protocol.js:2114-2124 | all chunks but the last are of exactly 16384 bytes, and the last is empty only if the piece is |
| FileTransfer.StepKeepsInv | static/protocol.js:2025-2190 | every event keeps: what was accepted is a prefix of what was sent, which is a prefix of the file; done means the whole file |
| FileTransfer.RunKeepsInv | static/protocol.js:2025-2190 | so does every run, with either side giving up at any moment and a closed channel losing what was in flight |
| FileTransfer.TransferIsSafe | static/protocol.js:2025-2190 | the receiver reports done only with the sender's file, and the sender reports done only after the receiver did |
| FileTransfer.DeliveredIsDone | static/protocol.js:2149-2172 | a non-empty file that was sent and delivered, with nobody giving up, makes the receiver done |
| FileTransfer.ConfirmationFinishes | static/protocol.js:2039-2048 | a confirmation that reaches an open sender finishes it: it has sent the whole file by then |
| FileTransfer.RunEndsProperly | static/protocol.js:1740-1856 | in every run a side is closed exactly if it said that it ended; it then finished or gave up |
| FileTransfer.SenderEndsBoth | static/protocol.js:1847-1856 | if the sender gives up, both sides are closed once its message is delivered, whatever else happens, and the receiver finished or says that it gave up |
| FileTransfer.ReceiverEndsBoth | static/protocol.js:1847-1856 | the same of a receiver that gives up before it is done |
| FileTransfer.FinishedTellsNothing | static/protocol.js:1851-1852 | a receiver that has finished no longer tells the sender that it gives up |
| Negotiation.DownConnection.Negotiate | rtpconn/webclient.go:540-575 | an offer with what was requested is sent if none is outstanding; otherwise the flag remembers the request, a restart is never forgotten, and what was to be replaced is |
| Negotiation.DownConnection.Ask | rtpconn/webclient.go:540-575 | the flag stands for the list of waiting requests |
| Negotiation.DownConnection.Answer | rtpconn/webclient.go:1497-1523 | an answer is followed by the offer that serves all waiting requests, if there are any |
| Negotiation.StepServes | rtpconn/webclient.go:540-575 | every request and every answer keeps: each request is served by exactly one offer or waiting, each offer restarts ICE exactly if a request it serves asked for it, offers and answers alternate |
| Negotiation.RunServes | rtpconn/webclient.go:1497-1523 | so does every run |
| Negotiation.ServedAtOnceIff | rtpconn/webclient.go:541-553 | a request is served at once exactly if all offers so far were answered |
| Negotiation.ServedByNextOffer | rtpconn/webclient.go:1514-1523 | otherwise it is served by the offer that the next answer sets off, nothing is sent between, and the offer names nothing to replace |
| Negotiation.ReplaceIsNamedIff | rtpconn/webclient.go:1087-1094 | an offer names a connection to replace exactly if a request named one when no offer was outstanding |
| Negotiation.ReplaceCanBeLost | rtpconn/webclient.go:1087-1094 | a run, with nothing left waiting, in which the connection to replace was never named |
| SdpFrag.Marshal | sdpfrag/sdpfrag.go:95-122 | the text is the fragment's lines in order |
| SdpFrag.Unmarshal | sdpfrag/sdpfrag.go:28-93 | the fragment is what reading the scanned lines yields, or the error of a mid outside a section |
| SdpFrag.ScanText | sdpfrag/sdpfrag.go:29-34 | the scanner delivers the lines that were printed |
| SdpFrag.LinesRoundTrip | sdpfrag/sdpfrag.go:28-122 | reading a canonical fragment's lines yields the fragment, each candidate's mid, index and ufrag included |
| SdpFrag.RoundTrip | sdpfrag/sdpfrag.go:28-122 | parsing inverts printing on every canonical fragment whose lines have no line break and fit the scanner's buffer |
| SdpFrag.Reread | sdpfrag/sdpfrag.go:28-122 | the same of the printing and parsing methods |
| SdpLines.PrintedLines | sdpfrag/sdpfrag.go:95-119 | the lines of a fragment, written out |
| SdpLines.PrintedText | sdpfrag/sdpfrag.go:95-122 | nothing is printed for an empty ufrag or password, and lines end with CR and LF |
| SdpLines.OtherLineEnds | sdpfrag/sdpfrag.go:29-34 | lines are scanned alike if they end with LF alone, and the last also if it does not end |
| SdpLines.ReadAtSession | sdpfrag/sdpfrag.go:33-83 | how each kind of line, written out, is read before any section |
| SdpLines.ReadInSection | sdpfrag/sdpfrag.go:33-83 | and within one |
| SdpLines.OthersAreIgnored | sdpfrag/sdpfrag.go:33-84 | all other lines are ignored |
| SdpLines.SessionCandidateIsCut | sdpfrag/sdpfrag.go:104-106 | a session-level candidate with a prefix of its own is read back without it |
| SdpLines.ParseFailsIff | sdpfrag/sdpfrag.go:59-62 | reading fails exactly if a mid comes before any section |
| SdpLimits.ScanIsCut | sdpfrag/sdpfrag.go:29-34 | the scanner delivers the lines before the first that does not fit its buffer, and no others |
| SdpLimits.RoundTripIff | sdpfrag/sdpfrag.go:28-122 | a canonical fragment without line breaks is read back as it was exactly if every line fits |
| SdpLimits.LongUfragIsLost | sdpfrag/sdpfrag.go:28-38 | a fragment whose ufrag of 65523 characters is lost |
| SdpLimits.SurvivesIff | sdpfrag/sdpfrag.go:28-122 | of all fragments without line breaks, exactly those are read back as they were that have no candidates at the session level, only candidates as the parser makes them in their sections, and lines that fit |
| SdpPatch.PatchKeepsOthers | sdpfrag/sdpfrag.go:124-154 | attributes that are not ICE's are kept, in order |
| SdpPatch.PatchUfrags | sdpfrag/sdpfrag.go:127-134 | every ufrag is replaced, or dropped if there is none |
| SdpPatch.PatchPwds | sdpfrag/sdpfrag.go:135-142 | every password is replaced, or dropped if there is none |
| SdpPatch.PatchCandidates | sdpfrag/sdpfrag.go:143-145 | old candidates are dropped exactly on a restart |
| SdpPatch.PatchMeaning | sdpfrag/sdpfrag.go:124-154 | one level after patching: other attributes, credentials and candidates |
| SdpPatch.Patch | sdpfrag/sdpfrag.go:124-154 | the attributes built by the two loops |
| SdpPatch.PatchSDP | sdpfrag/sdpfrag.go:207-228 | a restart exactly when the credentials differ; on every level other attributes are kept and the candidates are the fragment's for that level on a restart, or the old ones followed by them |
| SdpPatch.CredentialsAreTheFirst | sdpfrag/sdpfrag.go:156-175 | a session's credentials are the first ufrag of the first level that has one, and that level's first password |
| SdpPatch.FragCredentialsAreTheFirst | sdpfrag/sdpfrag.go:177-194 | a fragment's are those of its session level if it has a ufrag, and otherwise those of the first section that has one |
| SdpPatch.FirstIsFirstValue | sdpfrag/sdpfrag.go:161-175 | looking up an attribute finds the first value with its key |
| SdpPatch.PatchedMeaning | sdpfrag/sdpfrag.go:207-228 | the same of the patched session as a value |
| SdpPatch.PatchedCredentials | sdpfrag/sdpfrag.go:156-228 | the patched levels have the fragment's credentials exactly if the first level with a ufrag exists and has a password, or no password is wanted |
| SdpPatch.RestartsAgainIff | sdpfrag/sdpfrag.go:207-228 | patching again with the same fragment is no restart exactly if the fragment has no ufrag or the session has such a level |
| SdpPatch.RestartsEveryTimeIff | sdpfrag/sdpfrag.go:207-228 | and so every further time |
| SdpPatch.NeverSettles | sdpfrag/sdpfrag.go:207-228 | a session with a ufrag and no password that restarts every time |
| SdpPatch.PatchTwice | sdpfrag/sdpfrag.go:207-228 | the same iff, of the method called twice |
| Rewrite.RewritePacket | codecs/codecs.go:311-375 | the bytes of the array after rewriting, in place, and whether it succeeded, failed or panicked |
| Rewrite.RewriteVP8 | codecs/codecs.go:337-372 | the same of the picture id, of 7 or 15 bits |
| Rewrite.RewrittenMeaning | codecs/codecs.go:311-375 | the packet carries the new number, the marker is set if asked, the picture id moved by delta in its width, and no other byte changed |
| Rewrite.RewritingFails | codecs/codecs.go:312-366 | exactly when rewriting fails and exactly when it panics, and that the header is rewritten nevertheless unless the packet is shorter than one |
| Rewrite.RewritingCanPanic | codecs/codecs.go:332-333 | a packet of 13 bytes with the extension bit and a picture id to move |
| Rewrite.RewritingComposes | codecs/codecs.go:311-375 | rewriting twice is rewriting once, to the second number, by the sum of the deltas modulo 2^16, byte for byte |
| VP8Packets.RewritingVP8 | codecs/codecs.go:311-375 | the bytes of any VP8 packet built from its parts (sections 5.1 and 5.3.1 of RFC 3550, section 4.2 of RFC 7741), with or without contributing sources, extension, picture id and what else a descriptor may have, are rewritten to those of the packet with the new number, the marker, and the picture id moved by delta in its 7 or 15 bits |
| VP8Packets.RewritingOthers | codecs/codecs.go:311-375 | of a packet of another codec only number and marker change |
| VP8Packets.RewritingFailsIff | codecs/codecs.go:324-336 | a packet built from its parts fails exactly if the picture id is to move and the payload is empty, or shorter than 4 bytes after an extension; and it never panics |
| VP8Packets.OneStep | codecs/codecs.go:337-369 | a packet of 16 bytes whose 7-bit picture id moves from 5 to 6 |
| Rewrite.HeaderKeepsPlace | codecs/codecs.go:316-321 | writing marker and number does not move the picture id |
| Rewrite.SetPidKeepsPlace | codecs/codecs.go:356-369 | nor does writing a picture id, whose width stays |
| ETag.ScanETag | webserver/precondition.go:10-36 | the tag at the front of a string, and the rest; or nothing, exactly when no prefix is a well-formed tag (section 2.3 of RFC 7232) |
| ETag.TagLengthMeaning | webserver/precondition.go:13-36 | a string begins with at most one well-formed tag |
| ETag.TagCharIff | webserver/precondition.go:22-34 | a tag may hold the visible characters of ASCII but the double quote, and everything that is not ASCII (section 2.3 of RFC 7232) |
| ETag.WellFormedIff | webserver/precondition.go:10-36 | a tag is well formed exactly if it is such characters between quotes, perhaps after W/, and that in one way only |
| ETag.SeparatorIff | webserver/precondition.go:48-57 | tags are separated by commas, blanks, tabs and ends of lines |
| ETag.EtagMatch | webserver/precondition.go:38-71 | the loop terminates on every header and answers as specified |
| ETag.ListMeaning | webserver/precondition.go:38-71 | a well-formed tag matches a list of well-formed tags, separated by commas and blanks, exactly when it is in it |
| ETag.MatchMeaning | webserver/precondition.go:38-71 | for every tag and header: they match exactly when they are equal and not empty, or the header begins with a list that holds the tag, or with a list followed by a star and the tag is not empty |
| ETag.EmptyTagMatchesNothing | webserver/precondition.go:38-71 | the tag of an object that does not exist matches no header |

## Left out

- PacketMap.Map.Reverse: says nothing across a reset, where the same target number can mean another packet.
- PacketMap.Map.Retransmit: the layer selection in Write, which may decide to drop the packet instead, is not part of it; the packet found in the cache is taken to be the one asked for.
- PacketMapRuns.AnswersAreByRank: is about one epoch; a jump of more than 8192 starts another.
- RemapEpoch.PidDeltaIsStepsDropped: the picture-id delta is carried through, but that picture ids end up contiguous is not claimed; the code adds the skipped step twice.
- LossReports.EveryLossIsReported: holds between restarts as well. The rate of packets is a parameter, and so is whether the sender accepts NACKs.
- LocalAlignment.OriginsAreSpaced: the local clock stays within 292 years of the local origin.
- LossBitmap.RunKeepsInv: holds between restarts; a number more than 256 behind the window restarts the record.
- PacketCache.Cache.Get: when two slots hold the same number, the lowest slot is returned, and which packet is newer is not claimed. The capacity of a result buffer is taken to be its length.
- PacketCache.Cache.Resize: capacities from 1 to 65535; larger ones wrap the tail.
- NackEncoding.ToBitmap: the list must be sorted seen from its first element, which is what its comment asks; unsorted lists are not described.
- NackPipeline.UpTrack.Ship: the library's sort is modelled by insertion; sorted lists of distinct numbers are unique. Whether the packet could be written is a parameter.
- Replay.SendSequence: which write fails is a parameter.
- RtpTime.ToDurationMeaning: the smallest 64-bit value is excluded: its negation is itself, and the conversion would never return.
- LipSync.Track.SetTimeOffset: clock rates from 1 to 10^9 Hz; the clock rate is a field of the track instead of a lookup in its codec.
- LipSync.Conn.Close: the samples that are flushed while closing are not modelled.
- Alignment.RunKeepsInv: the remote origins that are computed are not garbled by the conversion to NTP time, and are not the NTP time 0, which the code takes for unknown.
- Alignment.LocalOriginIff: at 10^9 - 1 Hz the error is too close to a whole turn of the clock for the slack to tell, and nothing is said.
- FileTransfer.TransferIsSafe: starts when the data channel is open; invitations, signalling, `fail`, and progress callbacks are not modelled. Zero-length files never finish, and a side may report both done and cancelled, in the code as in the model.
- FileTransfer.StepKeepsInv: in the two-sided machine a chunk may have any size up to 16384; that the sender's are cut as they are is FileTransfer.TransferredFile.Send.
- Negotiation.DownConnection.Negotiate: failures to create or write an offer, after which the connection is closed, are not modelled.
- SdpLimits.SurvivesIff: fragments with line breaks in them, whose lines are read as other lines.
- SdpFrag.Unmarshal: works on a fragment passed by value rather than on the receiver; strings are sequences of characters standing for bytes.
- Rewrite.RewritePacket: the codec's name is a boolean, VP8 or not.
- Locks are modelled by atomic steps, goroutines by interleavings; sleeps, timers, the network and the clock are parameters or nondeterministic events.
- Slices and JavaScript arrays are fields holding sequences, so sharing of their backing store is not modelled.
- The writer pool: its square-root helper does not compute what its comment says, and its count of writers is not an invariant of every interleaving.
- Keyframe detection, codec payload parsing, jitter and rate estimators, layer selection.
- `FromSDP` and `AllCandidates`, and the HTTP preconditions around the ETag matcher.
- Groups, permissions, tokens, chat, TURN, and the browser interface.
