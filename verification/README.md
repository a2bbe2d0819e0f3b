# Router services, verified

A Dafny model of six pieces of the router's software, with proofs about whole runs, round trips and
exact conditions.

* **Airtime scheduler** of hostapd (`AirtimeModel`, `AirtimeFairness`, `AirtimeRuns`): counting backlogged
  stations with a hysteresis timer, computing integer weights, pushing them through a cached driver call.
* **HLR/AuC gateway** (`HlrSqn`, `HlrUsim`, `HlrFile`, `HlrGrammar`, `HlrLines`, `HlrReread`, `HlrRestart`,
  `HlrGateway`, `HlrFreshness`, `GsmTriplets`, `EapSimPeer`): sequence numbers of Annex C of 3GPP TS 33.102,
  re-synchronisation, the key file across restarts, rotation of GSM triplets, and how the EAP server at the
  other end of the socket reads the replies.
* **Parsers and printers** of hostapd: key holder lists (`RxkhSpec`, `RxkhLines`, `Rxkh`), key management suites
  (`KeyMgmt`), the 3GPP network list (`Plmn`), the domain list (`DomainList`).
* **Arithmetic of the control interface**: the header checksum (`Ipv4Checksum`) and the channel geometry
  (`ChannelParams`).
* **SAE-PK password packing** (`SaePk`).
* **DNS log** of `bin/run_unbound.py` (`DnsLogSpec`, `DnsLogOrder`, `DnsLog`).

Code that changes things in place is modelled by classes, arrays and loops; each such method is proved
against a function on values, and the theorems are about these functions. `Text` holds the shared helpers
(C strings, hexadecimal, `fgets`). Clock readings, random bytes, driver and database answers, the Milenage
algorithms, the key derivation function and the table of puncturing patterns are parameters, so the theorems
hold for every one of them. Linked lists are sequences; a pointer into a buffer is an index or the rest of
the text; where the code cuts a string by writing a NUL, the model takes a slice.

`dafny verify dfyconfig.toml` checks the whole project.

## What the proofs found

Where the code does not meet what one would expect of it, the model keeps the code, and a lemma gives the
exact condition or the input.

* A key file is rewritten by printing each record over the line that was read, so the end of a longer line, or
  of an older line in the same buffer, can be left behind. Any rewritten file can be read back if and only if
  everything left behind can (`HlrReread.RewrittenReadableIff`). For a documented file a restart works if and
  only if no data line has the optional RES length, which is left behind as a line of its own, and what the
  buffer leaves behind an unterminated last line does no harm (`HlrRestart.RestartKeepsSubscribersIff`); when
  every line ends in a newline only the RES length matters (`HlrRestart.RestartKeepsSubscribersIffNoResLen`).
  Two inputs without RES length that break: the end of a comment behind an unterminated last line
  (`HlrRestart.StaleCommentBreaksRestart`) and a line with two blanks too many
  (`HlrRestart.TwoBlanksBreakRestart`). A line that begins with a blank is read but never rewritten, so its
  subscriber falls back to the old sequence number (`HlrReread.RestartFinds`, `HlrReread.RestartKeepsIff`).
* A USIM accepts every vector of a loss-free delivery if and only if no vector arrives after the one issued
  `2^ind_len` later. With losses that window is not enough (`HlrUsim.WindowIsNotEnoughWithLosses`); the exact
  condition per vector is `HlrUsim.AcceptedIffYoungest`.
* `GET_RXKHS` is meant to stop at the last line that fits, but a line that is cut inside its key with an even
  number of characters left is reported as complete (`RxkhSpec.WholeLinesIff`), and reading it back gives
  another key or an error (`RxkhSpec.CutLineIsMisread`, `RxkhSpec.CutR1khLineIsMisread`).
* The 3GPP network parser accepts texts that are no lists: a trailing semicolon adds network 000-000, and a
  country code may swallow a semicolon. The octets say what the text says if and only if the text is a list of
  at most 42 pairs (`Plmn.FaithfulIffList`).
* Duplicating `wpa_key_mgmt` loses OSEN and PASN, which are parsed but never printed
  (`KeyMgmt.RoundTripIffPrinted`, `KeyMgmt.PrintedSuites`).
* A domain longer than 255 bytes makes the domain list undecodable (`DomainList.DecodesIffFits`).
* For 320 MHz a secondary channel offset other than 1 and -1 switches the geometry check off
  (`ChannelParams.AcceptedAlignedIff`, `ChannelParams.AnyCenterFor320`).
* For 20 MHz the 6 GHz check also takes 5960 MHz, the centre of no channel, for one
  (`ChannelParams.CentresAreTiles`).
* The counters of the DNS log equal the rows of the table if and only if the database never answered an
  insertion with a failure after its commit (`DnsLogSpec.CountersFollowAnswers`).
* The airtime update divides by zero if and only if every used BSS loses its weight to the 32-bit product
  (`AirtimeFairness.UpdateTrapsIff`, for all counts and weights). Within the bounds of `AirtimeFairness.Fits`
  that only happens when no BSS is started with a weight; beyond them eight BSSs with 16 backlogged stations
  each are enough (`AirtimeFairness.EightTimesSixteenTraps`).

## Model

| member | source | states |
|---|---|---|
| AirtimeModel.SetNewBacklogTime | src/hostapd-2.11/src/ap/airtime_policy.c:56-67 | the normalising loop ends, with a normal time that is the window's length after the clock |
| AirtimeModel.GetAirtimeQuantum | src/hostapd-2.11/src/ap/airtime_policy.c:120-130 | the quantum is within its bounds, its product with the weight is at most the target unless it is the smallest, and one more would exceed the target unless it is the largest |
| AirtimeModel.QuantumUnique | src/hostapd-2.11/src/ap/airtime_policy.c:120-130 | there is only one such quantum |
| AirtimeModel.Bss.PollSta | src/hostapd-2.11/src/ap/airtime_policy.c:79-91 | one station: a failed read is skipped, backlog opens a new window, and an open window counts |
| AirtimeModel.Bss.CountBackloggedSta | src/hostapd-2.11/src/ap/airtime_policy.c:70-93 | every station is polled once, nothing but its timer changes, and the stored number counts the open windows |
| AirtimeModel.Bss.StaSetAirtimeWeight | src/hostapd-2.11/src/ap/airtime_policy.c:96-108 | the driver is called iff the weight differs, and the cache changes iff that call succeeds |
| AirtimeModel.Bss.SetStaWeights | src/hostapd-2.11/src/ap/airtime_policy.c:111-117 | the weight is pushed to every station in list order, past any failure |
| AirtimeModel.Bss.GetWeightForSta | src/hostapd-2.11/src/ap/airtime_policy.c:230-239 | the first entry for the address decides, else the BSS default |
| AirtimeModel.Bss.NewSta | src/hostapd-2.11/src/ap/airtime_policy.c:242-252 | only in STATIC mode, and only with a non-zero weight, a new station is given its weight; the result is the driver call's, else 0 |
| AirtimeModel.Interface.CountStations | src/hostapd-2.11/src/ap/airtime_policy.c:146-162 | smallest count, product, sums and number over exactly the active BSSs, in 32 bits |
| AirtimeModel.Interface.CheckLimits | src/hostapd-2.11/src/ap/airtime_policy.c:164-190 | the flags say whether all counts are multiples of the smallest and whether some limited BSS exceeds its share |
| AirtimeModel.Interface.AssignWeights | src/hostapd-2.11/src/ap/airtime_policy.c:192-211 | every used BSS gets its weight, the others keep theirs, and the maximum is the signed one |
| AirtimeModel.Interface.PushWeights | src/hostapd-2.11/src/ap/airtime_policy.c:215-220 | every used BSS pushes its weight times the quantum; no other BSS changes |
| AirtimeModel.Interface.UpdateAirtimeWeights | src/hostapd-2.11/src/ap/airtime_policy.c:133-227 | a whole update: poll, plan, assign, scale and push, the timer armed again after the interval, or a trap before anything is pushed; a BSS not started or without weight is left alone |
| AirtimeFairness.TotalsWrap | src/hostapd-2.11/src/ap/airtime_policy.c:158-161 | for all counts and weights the accumulators hold the true product and sums modulo 2^32 |
| AirtimeFairness.TotalsExact | src/hostapd-2.11/src/ap/airtime_policy.c:158-161 | within the 32-bit bounds the accumulators hold the true product and sums |
| AirtimeFairness.MinIsLeast | src/hostapd-2.11/src/ap/airtime_policy.c:155-156 | the minimum is 0 iff no BSS is active, and else it is the least active count and one of them |
| AirtimeFairness.CountDividesScaled | src/hostapd-2.11/src/ap/airtime_policy.c:170-190 | with two active BSSs every count divides the product also after the division by the smallest |
| AirtimeFairness.ShortcutIsSound | src/hostapd-2.11/src/ap/airtime_policy.c:170-204 | both divisions are exact, and shortened weights times the smallest count are the unshortened ones |
| AirtimeFairness.ExactShare | src/hostapd-2.11/src/ap/airtime_policy.c:202-206 | weight times station count is BSS weight times one common product, with no rounding |
| AirtimeFairness.ProportionalFairness | src/hostapd-2.11/src/ap/airtime_policy.c:146-211 | DYNAMIC mode: the total shares of any two active BSSs are exactly in the ratio of their weights |
| AirtimeFairness.ShareEqualsWeightShare | src/hostapd-2.11/src/ap/airtime_policy.c:146-211 | whenever weights are scaled, each active BSS gets exactly its weight's part of the whole load |
| AirtimeFairness.LimitedShareIsCapped | src/hostapd-2.11/src/ap/airtime_policy.c:178-206 | a limited active BSS never gets more than its weight's part, scaled or not, alone or not |
| AirtimeFairness.UnscaledIsWithinShare | src/hostapd-2.11/src/ap/airtime_policy.c:178-187 | if scaling was not triggered, a limited BSS's station count is already within its part |
| AirtimeFairness.LimitScalesIff | src/hostapd-2.11/src/ap/airtime_policy.c:178-187 | within the bounds LIMIT mode scales iff a started, limited BSS has more than its weight's part of the stations |
| AirtimeFairness.NoLimitUnitWeights | src/hostapd-2.11/src/ap/airtime_policy.c:178-206 | without a limited BSS LIMIT mode leaves every weight at 1, for all counts |
| AirtimeFairness.IdleBssIsIgnored | src/hostapd-2.11/src/ap/airtime_policy.c:146-190 | a BSS not started, without weight or without backlog does not influence the plan for the others |
| AirtimeFairness.IdleHasUnitWeight | src/hostapd-2.11/src/ap/airtime_policy.c:198-205 | a BSS without backlog has weight 1 |
| AirtimeFairness.WeightAtLeastOne | src/hostapd-2.11/src/ap/airtime_policy.c:202-210 | every used BSS has a weight of at least 1 that the signed comparison sees correctly |
| AirtimeFairness.UpdateTrapsIff | src/hostapd-2.11/src/ap/airtime_policy.c:120-210 | for all counts and weights the quantum division traps iff every used BSS is scaled to a weight of 0 or at least 2^31; within the bounds iff no BSS is used |
| AirtimeFairness.PushedIsExact | src/hostapd-2.11/src/ap/airtime_policy.c:213-220 | scaling by the quantum neither overflows nor rounds, and pushes at least the smallest quantum |
| AirtimeFairness.PushedWeightsKeepRatios | src/hostapd-2.11/src/ap/airtime_policy.c:213-220 | the weights that reach the stations are still in exact proportion |
| AirtimeFairness.SmallNetworksFit | src/hostapd-2.11/src/ap/airtime_policy.c:158-203 | the 32-bit bounds hold for two BSSs of up to 1000 stations and weights up to 500 |
| AirtimeFairness.LostProductTraps | src/hostapd-2.11/src/ap/airtime_policy.c:158-213 | in DYNAMIC mode a product that is a multiple of 2^32 traps the update, if every used BSS is active and there are two |
| AirtimeFairness.EightTimesSixteenTraps | src/hostapd-2.11/src/ap/airtime_policy.c:158-213 | eight BSSs of 16 backlogged stations each trap the update, whatever their weights |
| AirtimeFairness.HeaviestNearTarget | src/hostapd-2.11/src/ap/airtime_policy.c:120-130 | the word the heaviest BSS pushes is within one weight below 1024, or 256 times a weight up to 4, or 8 times one above 128 |
| AirtimeRuns.BeforeIsMicros | src/hostapd-2.11/src/ap/airtime_policy.c:89-90 | comparing seconds, then microseconds, is comparing times |
| AirtimeRuns.ExpiryMicros | src/hostapd-2.11/src/ap/airtime_policy.c:60-66 | the expiry is normal and exactly the window after the clock |
| AirtimeRuns.TimerIsLatestWindow | src/hostapd-2.11/src/ap/airtime_policy.c:56-93 | over any run a timer is the end of the latest window that a sighting of backlog opened |
| AirtimeRuns.CountedIffInWindow | src/hostapd-2.11/src/ap/airtime_policy.c:70-93 | hysteresis: a station is counted iff its read succeeds and some sighting so far is still in its window |
| AirtimeRuns.CountedForTwoMorePolls | src/hostapd-2.11/src/ap/airtime_policy.c:56-93 | with evenly spaced polls a station is counted iff this poll reads it and this one or one of the two before saw data |
| AirtimeRuns.NumBackloggedIsExact | src/hostapd-2.11/src/ap/airtime_policy.c:70-93 | the stored number is the size of the set of stations inside their window |
| AirtimeRuns.CacheStaysCoherent | src/hostapd-2.11/src/ap/airtime_policy.c:96-117 | cache and driver agree after every run of polls, pushes and assignments, whatever the driver fails |
| AirtimeRuns.CallsOnlyWhenStale | src/hostapd-2.11/src/ap/airtime_policy.c:96-117 | a push calls the driver once per station whose weight differs, and never else |
| AirtimeRuns.PushReachesAll | src/hostapd-2.11/src/ap/airtime_policy.c:111-117 | with a driver that accepts, every station ends with the weight |
| AirtimeRuns.PushIsIdempotent | src/hostapd-2.11/src/ap/airtime_policy.c:96-117 | pushing the same weight again changes nothing and calls nobody |
| AirtimeRuns.TickIsTwoSteps | src/hostapd-2.11/src/ap/airtime_policy.c:147-220 | what an update does to a used BSS is one poll and one push of a run |
| HlrSqn.DecodeEncode | src/hostapd-2.11/hostapd/hlr_auc_gw.c:725-730 | six big-endian bytes hold any 48-bit value |
| HlrSqn.EncodeDecode | src/hostapd-2.11/hostapd/hlr_auc_gw.c:725-730 | and every six bytes are the spelling of their value |
| HlrSqn.IncSqn | src/hostapd-2.11/hostapd/hlr_auc_gw.c:712-731 | the array is overwritten with the next sequence number |
| HlrSqn.IncFields | src/hostapd-2.11/hostapd/hlr_auc_gw.c:724-728 | SEQ and IND grow by one independently, each modulo the size of its field |
| HlrSqn.LowIsMod | src/hostapd-2.11/hostapd/hlr_auc_gw.c:727 | the IND field is the remainder modulo 2^ind_len |
| HlrSqn.IncGrowsIffBelowLimit | src/hostapd-2.11/hostapd/hlr_auc_gw.c:724-730 | the next value is greater iff SEQ has not reached its last value |
| HlrSqn.IncTimesFields | src/hostapd-2.11/hostapd/hlr_auc_gw.c:712-731 | after k calls short of the wrap SEQ has grown by exactly k and IND by k modulo 2^ind_len |
| HlrUsim.EntryIsMax | src/hostapd-2.11/hostapd/hlr_auc_gw.c:712-731 | an entry of the USIM's array is the largest of its start and the SEQs that came with its IND |
| HlrUsim.AcceptedIffNewest | src/hostapd-2.11/hostapd/hlr_auc_gw.c:712-731 | Annex C.2.2 of 3GPP TS 33.102: accepted iff newer than the start and all earlier arrivals of that IND |
| HlrUsim.AcceptedIffYoungest | src/hostapd-2.11/hostapd/hlr_auc_gw.c:712-731 | in any delivery, with losses: accepted iff issued after every earlier arrival of the same IND |
| HlrUsim.AllAcceptedIffWindowKept | src/hostapd-2.11/hostapd/hlr_auc_gw.c:712-731 | in a loss-free delivery all vectors are accepted iff none arrives after the one issued 2^ind_len later |
| HlrUsim.WindowIsNotEnoughWithLosses | src/hostapd-2.11/hostapd/hlr_auc_gw.c:712-731 | a delivery with a loss that keeps the window and has a vector rejected |
| HlrGateway.Gateway.GetMilenage | src/hostapd-2.11/hostapd/hlr_auc_gw.c:570-586 | the first record of the IMSI, or none |
| HlrGateway.Gateway.AkaReqAuth | src/hostapd-2.11/hostapd/hlr_auc_gw.c:734-808 | reply, result and change for known and unknown IMSI, failing random source and a prefix without room: only the IMSI's own SQN advances, once, and the peer reads the reply as RAND, AUTN, IK, CK and the allowed part of RES, or as a failure |
| HlrGateway.VectorIsDelivered | src/hostapd-2.11/hostapd/hlr_auc_gw.c:774-806 | every reply with a vector is read by the peer as just that vector, RES cut to its length iff that is 4 to 16 and shorter |
| HlrGateway.AutsAcceptedIff | src/hostapd-2.11/hostapd/hlr_auc_gw.c:816-838 | a request is parsed iff it is two words and a rest that spell 14 and 16 bytes |
| HlrGateway.AutsResyncs | src/hostapd-2.11/hostapd/hlr_auc_gw.c:811-863 | a printed request gives the first record of its IMSI what milenage_auts makes of its own keys and the printed AUTS and RAND |
| EapSimPeer.MessageIsReceived | src/hostapd-2.11/src/eap_server/eap_sim_db.c:647-668 | command, IMSI and body are cut at the first two blanks |
| EapSimPeer.VectorIsRead | src/hostapd-2.11/src/eap_server/eap_sim_db.c:535-592 | fields printed in the order RAND AUTN IK CK RES are read as just these |
| EapSimPeer.ChallengeIsRead | src/hostapd-2.11/src/eap_server/eap_sim_db.c:486-512 | a printed challenge is read as its Kc, SRES and RAND |
| HlrGateway.Gateway.AkaAuts | src/hostapd-2.11/hostapd/hlr_auc_gw.c:811-863 | SQN_MS is installed iff the command parses, the IMSI is known and MAC-S is right; nothing else changes |
| HlrGateway.Gateway.ReadMilenage | src/hostapd-2.11/hostapd/hlr_auc_gw.c:387-493 | records are prepended line by line; the first bad line ends reading with a failure and keeps what was read |
| HlrGateway.Gateway.RewriteLine | src/hostapd-2.11/hostapd/hlr_auc_gw.c:518-549 | a line of a known IMSI is overprinted in the buffer, every other line is left alone |
| HlrGateway.Gateway.UpdateMilenageFile | src/hostapd-2.11/hostapd/hlr_auc_gw.c:496-553 | the new file's text, stale characters of the line buffer included |
| HlrGateway.PrintRecord | src/hostapd-2.11/hostapd/hlr_auc_gw.c:537-546 | the record is printed over the start of the buffer with no NUL after its newline |
| HlrGrammar.EveryTextIsSpread | src/hostapd-2.11/hostapd/hlr_auc_gw.c:419-427 | every line is words with blanks around them |
| HlrGrammar.LineIsItsWords | src/hostapd-2.11/hostapd/hlr_auc_gw.c:426-486 | exactly which lines are accepted, by their words, and which record each of them is |
| HlrGrammar.AtoiReadsDecimal | src/hostapd-2.11/hostapd/hlr_auc_gw.c:469-483 | the RES length is read as a decimal number, signed or not, up to another character |
| HlrGrammar.StopsAtBadLine | src/hostapd-2.11/hostapd/hlr_auc_gw.c:387-493 | after a failure the records are those in front of the first bad line, and there is one iff reading fails |
| HlrFreshness.RunKeepsSubscribers | src/hostapd-2.11/hostapd/hlr_auc_gw.c:734-863 | no run of commands changes anything but sequence numbers |
| HlrFreshness.StepOnSubscriber | src/hostapd-2.11/hostapd/hlr_auc_gw.c:734-863 | a command advances, re-synchronises or leaves alone a subscriber; others' requests and failed AUTS leave it alone |
| HlrFreshness.SqnCountsIssues | src/hostapd-2.11/hostapd/hlr_auc_gw.c:734-863 | between re-synchronisations the SQN is the old one advanced once per vector issued |
| HlrFreshness.IssuedSqnsIncrease | src/hostapd-2.11/hostapd/hlr_auc_gw.c:734-863 | in every interleaving the SQNs issued per IMSI strictly increase between re-synchronisations, however many vectors others get |
| HlrFreshness.TwoRequestsIncrease | src/hostapd-2.11/hostapd/hlr_auc_gw.c:734-808 | from any state short of the wrap two requests in a row issue increasing SQNs |
| HlrFreshness.FirstIssueAfterResync | src/hostapd-2.11/hostapd/hlr_auc_gw.c:846-860 | the first vector after an authentic AUTS carries SEQ_MS + 1 |
| HlrFreshness.IssuedIsVector | src/hostapd-2.11/hostapd/hlr_auc_gw.c:734-808 | the vectors of a run are the ones the USIM theorems speak of |
| HlrFreshness.OrderContinues | src/hostapd-2.11/hostapd/hlr_auc_gw.c:734-863 | a later run that starts where an earlier one left a subscriber issues it greater SEQs and SQNs |
| HlrFreshness.OrderSurvivesRestart | src/hostapd-2.11/hostapd/hlr_auc_gw.c:387-863 | run, rewrite, reload, run: for any file whose remainders add nothing, vectors after the restart are newer than all before, for an IMSI at the start of its line |
| HlrFreshness.FreshnessSurvivesRestart | src/hostapd-2.11/hostapd/hlr_auc_gw.c:387-863 | the same for every IMSI of a documented file without RES length, which can always be read back |
| HlrLines.ParseDataLine | src/hostapd-2.11/hostapd/hlr_auc_gw.c:426-486 | a documented line parses to its fields |
| HlrLines.ParseShape | src/hostapd-2.11/hostapd/hlr_auc_gw.c:426-486 | whatever line is accepted, its record is well formed, the line is at least 84 characters longer than the IMSI, and begins with it unless with a blank |
| HlrLines.TakeDocumented | src/hostapd-2.11/hostapd/hlr_auc_gw.c:405-486 | a documented line, with or without its newline, is skipped or adds exactly its record |
| HlrLines.ReadCanonical | src/hostapd-2.11/hostapd/hlr_auc_gw.c:387-493 | the line printed for a record is read as that record without its RES length, whatever follows |
| HlrReread.WrittenLine | src/hostapd-2.11/hostapd/hlr_auc_gw.c:518-549 | for any line and buffer: the new record, then what is left of the longer old line or of the buffer |
| HlrReread.RereadIsRead | src/hostapd-2.11/hostapd/hlr_auc_gw.c:387-553 | reading a rewritten file is reading, line by line, the new records and what is left behind them |
| HlrReread.RewrittenReadableIff | src/hostapd-2.11/hostapd/hlr_auc_gw.c:387-553 | any readable file can be read again after its rewrite iff all that is left behind new lines can be read |
| HlrReread.RewritesIff | src/hostapd-2.11/hostapd/hlr_auc_gw.c:514-537 | a readable line of a known IMSI is rewritten iff it does not begin with a blank |
| HlrReread.RestartFinds | src/hostapd-2.11/hostapd/hlr_auc_gw.c:387-586 | if what is left adds nothing, get_milenage finds the current record, or the old one for a line that begins with a blank |
| HlrReread.RestartKeepsIff | src/hostapd-2.11/hostapd/hlr_auc_gw.c:387-586 | a restart keeps what get_milenage finds for every IMSI iff all that is left can be read, no rewritten line had a RES length and no line with a leading blank was issued a vector |
| HlrRestart.ReadIsParsed | src/hostapd-2.11/hostapd/hlr_auc_gw.c:387-493 | reading a documented file, its last line terminated or not, yields its data lines, last first, comments skipped |
| HlrRestart.DocumentedTail | src/hostapd-2.11/hostapd/hlr_auc_gw.c:518-549 | behind the new text of a documented line stays its RES length with the newline, or stale buffer text if it had neither, or nothing |
| HlrRestart.RereadDocumented | src/hostapd-2.11/hostapd/hlr_auc_gw.c:387-553 | a rewritten documented file reads to the current records iff no line had a RES length and the stale text of the last line reads |
| HlrRestart.LoneWordIsRejected | src/hostapd-2.11/hostapd/hlr_auc_gw.c:427-435 | a single word on a line, such as a RES length, makes the file unreadable |
| HlrRestart.RestartKeepsSubscribersIff | src/hostapd-2.11/hostapd/hlr_auc_gw.c:387-586 | documented file: a restart keeps what get_milenage finds for every IMSI iff no data line has a RES length and the text behind an unterminated last line is harmless |
| HlrRestart.RestartKeepsSubscribersIffNoResLen | src/hostapd-2.11/hostapd/hlr_auc_gw.c:387-586 | with a newline on every line, a restart keeps what get_milenage finds for every IMSI iff no data line has a RES length |
| HlrRestart.StaleCommentBreaksRestart | src/hostapd-2.11/hostapd/hlr_auc_gw.c:510-549 | a comment before an unterminated last line without RES length that leaves its end behind and breaks the restart |
| HlrRestart.TwoBlanksBreakRestart | src/hostapd-2.11/hostapd/hlr_auc_gw.c:426-549 | an accepted line with two extra blanks that breaks the restart |
| HlrRestart.EveryDbHasFile | src/hostapd-2.11/hostapd/hlr_auc_gw.c:387-553 | any records without RES length whose IMSI does not begin with a number sign, written one a line, are a documented file that reads back to them reversed |
| GsmTriplets.TripletStore.GetGsmTriplet | src/hostapd-2.11/hostapd/hlr_auc_gw.c:362-384 | both searches: the next match from the cursor, else from the head, and the cursor behind it |
| GsmTriplets.TripletStore.AppendTriplets | src/hostapd-2.11/hostapd/hlr_auc_gw.c:633-648 | the loop collects the triplets of that many lookups in order, and stops at once when nothing matches |
| GsmTriplets.TripletStore.SimReqAuth | src/hostapd-2.11/hostapd/hlr_auc_gw.c:600-659 | the reply lists the triplets of one to three lookups or says FAILURE, and the peer reads it as the entries of the IMSI in rotation, as many as asked for, or as a failure; else it is refused for lack of room |
| GsmTriplets.ReplyFits | src/hostapd-2.11/hostapd/hlr_auc_gw.c:600-659 | the reply with its triplets never overruns the 1000 bytes the caller provides |
| GsmTriplets.ReplyIsRead | src/hostapd-2.11/hostapd/hlr_auc_gw.c:620-656 | the printed fields are read by the peer as the Kc, SRES and RAND of the chosen entries, in order |
| GsmTriplets.NoneIffNoMatch | src/hostapd-2.11/hostapd/hlr_auc_gw.c:362-384 | NULL iff no entry matches, and then the cursor stays |
| GsmTriplets.NextByRank | src/hostapd-2.11/hostapd/hlr_auc_gw.c:362-384 | a lookup returns the match whose rank is the number of matches before the cursor |
| GsmTriplets.RoundRobin | src/hostapd-2.11/hostapd/hlr_auc_gw.c:362-384 | the k-th lookup returns match (r + k) mod m, from any cursor |
| GsmTriplets.ConsecutiveDiffer | src/hostapd-2.11/hostapd/hlr_auc_gw.c:362-384 | m consecutive lookups return m different entries |
| GsmTriplets.EveryMatchReturned | src/hostapd-2.11/hostapd/hlr_auc_gw.c:362-384 | every match is returned in any m consecutive lookups |
| GsmTriplets.RepeatsAfterAll | src/hostapd-2.11/hostapd/hlr_auc_gw.c:362-384 | lookup k + m repeats lookup k |
| GsmTriplets.ChosenIsFull | src/hostapd-2.11/hostapd/hlr_auc_gw.c:633-648 | with any match a reply holds as many triplets as were asked for |
| GsmTriplets.ReplyDistinctIffEnough | src/hostapd-2.11/hostapd/hlr_auc_gw.c:633-648 | the triplets of a reply are distinct iff the store holds at least that many for the IMSI |
| RxkhSpec.MacRoundTrip | src/hostapd-2.11/src/utils/common.c:41-69 | a printed address parses to itself, whatever follows |
| RxkhSpec.ListingComplete | src/hostapd-2.11/hostapd/ctrl_iface.c:1479-1527 | with room for the whole text and a NUL the reply is complete |
| RxkhSpec.WholeLinesIff | src/hostapd-2.11/hostapd/ctrl_iface.c:1492-1524 | a reply consists of whole lines iff the printer does not stop at an even distance inside a key |
| RxkhSpec.WholeCountIsMost | src/hostapd-2.11/hostapd/ctrl_iface.c:1492-1524 | the whole lines of a reply are as many as the room allows |
| RxkhSpec.ListingIs | src/hostapd-2.11/hostapd/ctrl_iface.c:1479-1527 | for every room: those lines, and behind them, iff the printer stops at an even distance inside a key, that line cut there |
| RxkhSpec.ReadLine0 | src/hostapd-2.11/hostapd/config_file.c:1043-1086 | a printed R0KH line is one line for the reader, taken as an R0KH entry, whatever follows |
| RxkhSpec.DeriveCutKey | src/hostapd-2.11/hostapd/config_file.c:915-931 | a key printed in part is read as the whole key, as a short old key, or not at all |
| RxkhSpec.PrintReadReverses | src/hostapd-2.11/hostapd/config_file.c:915-1093 | reading a complete reply gives both lists reversed, in front of what was there, without errors |
| RxkhSpec.PrintReadTwice | src/hostapd-2.11/hostapd/config_file.c:915-1093 | printing and reading twice is the identity, in the same room |
| RxkhSpec.ReadIsPlain | src/hostapd-2.11/hostapd/config_file.c:933-978 | identifiers from any file can be printed and read again |
| RxkhSpec.CutLineIsMisread | src/hostapd-2.11/hostapd/config_file.c:915-978 | a cut R0KH line gives another key if half of it was printed, else an error |
| RxkhSpec.CutR1khLineIsMisread | src/hostapd-2.11/hostapd/config_file.c:915-1022 | and so does a cut R1KH line |
| RxkhLines.ParseMacIs | src/hostapd-2.11/src/utils/common.c:41-69 | exactly which texts begin with an address, and which |
| RxkhLines.R0khIff | src/hostapd-2.11/hostapd/config_file.c:934-977 | exactly which values are R0KH entries, and which entry each of them is |
| RxkhLines.R1khIff | src/hostapd-2.11/hostapd/config_file.c:980-1022 | the same for R1KH entries |
| RxkhLines.ErrorIffBad | src/hostapd-2.11/hostapd/config_file.c:1043-1082 | a line counts as one error iff it is neither skipped nor an entry |
| RxkhLines.LineThen | src/hostapd-2.11/hostapd/config_file.c:1040-1056 | a line of up to 255 characters is read as what it holds before a NUL, whatever follows |
| RxkhLines.LongLineIsBroken | src/hostapd-2.11/hostapd/config_file.c:1040-1056 | a longer line is read as if it were broken after 255 characters |
| RxkhLines.LastLineIsLine | src/hostapd-2.11/hostapd/config_file.c:1040-1056 | a last line needs no newline |
| RxkhLines.NoErrorIff | src/hostapd-2.11/hostapd/config_file.c:1025-1093 | a file is read without an error iff all its lines are of a good kind |
| RxkhLines.SkippedDoNotMatter | src/hostapd-2.11/hostapd/config_file.c:1043-1082 | a file reads as it does without its comments, empty lines and other names |
| Rxkh.PrintHex | src/hostapd-2.11/src/utils/common.c:317-349 | as many whole bytes as fit, in front of which nothing changes, not even by the NUL at the end of the buffer |
| Rxkh.Config.AddR0kh | src/hostapd-2.11/hostapd/config_file.c:934-977 | the entry is prepended, or nothing changes |
| Rxkh.Config.AddR1kh | src/hostapd-2.11/hostapd/config_file.c:980-1022 | the entry is prepended, or nothing changes |
| Rxkh.Config.HandleLine | src/hostapd-2.11/hostapd/config_file.c:1043-1082 | comments, empty lines and other names change nothing, an entry of the grammar is put in front of its list, and every other line is one error |
| Rxkh.Config.ReadFile | src/hostapd-2.11/hostapd/config_file.c:1025-1093 | every good line is kept; the result is 0 iff every line of the file is skipped or an entry by the grammar, or there is no file name |
| Rxkh.Config.Reload | src/hostapd-2.11/hostapd/ctrl_iface.c:1530-1545 | the lists are those of the file alone, empty without one, and the result is -1 iff the file is missing or a line is bad by the grammar |
| Rxkh.Config.GetRxkhs | src/hostapd-2.11/hostapd/ctrl_iface.c:1479-1527 | for every buffer size the reply is exactly the specified listing |
| KeyMgmt.WordsAppend | src/hostapd-2.11/hostapd/config_file.c:645-654 | a blank separates words wherever it stands |
| KeyMgmt.FindName | src/hostapd-2.11/hostapd/config_file.c:655-722 | the chain of comparisons finds each of the 22 suites by its name |
| KeyMgmt.AcceptedIffKnown | src/hostapd-2.11/hostapd/config_file.c:645-743 | a value is accepted iff it has a word and all its words are suites |
| KeyMgmt.ParseAppend | src/hostapd-2.11/hostapd/config_file.c:645-743 | parse(a b) is the union of parse(a) and parse(b) |
| KeyMgmt.OnlyWordsMatter | src/hostapd-2.11/hostapd/config_file.c:645-743 | order, repetition and extra blanks do not matter |
| KeyMgmt.BitSetIffNamed | src/hostapd-2.11/hostapd/config_file.c:645-743 | in an accepted value the bit of a suite is set iff its name is a word |
| KeyMgmt.TextFits | src/hostapd-2.11/hostapd/ctrl_iface.c:816-976 | the text of every mask fits the 256 bytes of DUP_NETWORK and is complete |
| KeyMgmt.PrintParse | src/hostapd-2.11/hostapd/ctrl_iface.c:816-976 | parsing the text of a mask gives its printed suites, or fails if there are none |
| KeyMgmt.NamedIffBitSet | src/hostapd-2.11/hostapd/ctrl_iface.c:816-976 | the text of a mask names a suite iff its bit is set and it is not OSEN or PASN |
| KeyMgmt.ReplyIsLongest | src/hostapd-2.11/hostapd/ctrl_iface.c:816-976 | in a buffer too small the text ends in front of the first name that does not fit |
| KeyMgmt.RoundTripIffPrinted | src/hostapd-2.11/hostapd/ctrl_iface.c:816-976 | a non-empty mask survives iff all its suites are printed |
| KeyMgmt.PrintedSuites | src/hostapd-2.11/hostapd/ctrl_iface.c:816-976 | printed are all suites the parser knows but OSEN and PASN |
| KeyMgmt.ParseKeyMgmt | src/hostapd-2.11/hostapd/config_file.c:636-744 | the parser's loops compute the union of the words' suites, or -1 |
| KeyMgmt.GetKeyMgmt | src/hostapd-2.11/hostapd/ctrl_iface.c:816-976 | for every buffer size: names up to the first that does not fit, and no blank behind a complete text |
| KeyMgmt.DupKeyMgmt | src/hostapd-2.11/hostapd/ctrl_iface.c:5187-5192 | duplicating never fails to print, and passes on exactly the printed suites |
| Plmn.Body | src/hostapd-2.11/hostapd/config_file.c:1427-1475 | for every text the octets of the pairs fit the block sized by the semicolons |
| Plmn.Bss.ParseCellNet | src/hostapd-2.11/hostapd/config_file.c:1418-1490 | octets installed or nothing changed; no octet is written outside the block, for any text |
| Plmn.WritePairs | src/hostapd-2.11/hostapd/config_file.c:1441-1475 | header, octets of all pairs in order, zeros behind them; or a refusal |
| Plmn.DecodeCode | src/hostapd-2.11/hostapd/config_file.c:1468-1476 | section 10.5.1.13 of 3GPP TS 24.008: the three octets of a pair decode to it, filler included |
| Plmn.PrintedIsAccepted | src/hostapd-2.11/hostapd/config_file.c:1418-1490 | a printed list is accepted iff it has at most 42 networks, and decodes to itself with lengths and count right |
| Plmn.TrailingSemicolonAddsNetwork | src/hostapd-2.11/hostapd/config_file.c:1426-1449 | a trailing semicolon is accepted and adds network 000-000 |
| Plmn.FaithfulIffList | src/hostapd-2.11/hostapd/config_file.c:1418-1490 | the octets decode to what the text says iff the text is a list of at most 42 pairs |
| Plmn.AcceptedIffPieces | src/hostapd-2.11/hostapd/config_file.c:1418-1490 | exactly which texts are accepted, and the octets of each |
| Plmn.MisplacedSemicolon | src/hostapd-2.11/hostapd/config_file.c:1449-1470 | an accepted text whose octets decode to no list |
| DomainList.PiecesAreSplit | src/hostapd-2.11/hostapd/config_file.c:4240-4260 | the pieces are free of commas and join to the text |
| DomainList.PiecesOfJoin | src/hostapd-2.11/hostapd/config_file.c:4240-4260 | and they are the only such pieces |
| DomainList.EncodeLength | src/hostapd-2.11/hostapd/config_file.c:4233-4260 | the encoding is exactly one byte longer than the text |
| DomainList.DecodesIffFits | src/hostapd-2.11/hostapd/config_file.c:4245-4260 | decoding gives the comma split iff every piece has at most 255 bytes |
| DomainList.CountDomains | src/hostapd-2.11/hostapd/config_file.c:4238-4243 | the first pass counts the pieces |
| DomainList.WriteDomains | src/hostapd-2.11/hostapd/config_file.c:4244-4260 | the second pass fills the block exactly, with the encoding of the comma split |
| DomainList.Bss.SetDomainName | src/hostapd-2.11/hostapd/config_file.c:4229-4264 | the option is the encoding of the comma split in a block of the text's length plus one |
| Ipv4Checksum.FoldKeepsRemainder | src/hostapd-2.11/hostapd/ctrl_iface.c:1863-1864 | the folding loop ends, keeps the remainder modulo 65535 and never turns a positive sum into zero |
| Ipv4Checksum.HdrChecksum | src/hostapd-2.11/hostapd/ctrl_iface.c:1854-1867 | no 32-bit overflow for up to 65537 words; the result is the complement of the folded sum |
| Ipv4Checksum.XorIsComplement | src/hostapd-2.11/hostapd/ctrl_iface.c:1866 | the exclusive or with 0xffff is the complement |
| Ipv4Checksum.StoredChecksumVerifies | src/hostapd-2.11/hostapd/ctrl_iface.c:2009-2019 | section 3.1 of RFC 791: over a header that holds its checksum the result is 0, for all headers |
| Ipv4Checksum.OnlyChecksumVerifies | src/hostapd-2.11/hostapd/ctrl_iface.c:2009-2019 | any word that verifies is the checksum, up to the two forms of zero of RFC 1071 |
| Ipv4Checksum.ChangeIsNoticed | src/hostapd-2.11/hostapd/ctrl_iface.c:1854-1867 | a header with one changed word does not verify, but for one zero in place of the other |
| ChannelParams.AlignedIffBlock | src/hostapd-2.11/hostapd/ctrl_iface.c:2512-2615 | the formula holds iff primary and secondary fill one of the channel's 40 MHz blocks |
| ChannelParams.PrimaryIndexExact | src/hostapd-2.11/hostapd/ctrl_iface.c:2635-2637 | the unsigned index is the exact place of the primary, below bandwidth/20, and the secondary is its block's other half |
| ChannelParams.SegmentsApart | src/hostapd-2.11/hostapd/ctrl_iface.c:2550-2561 | accepted 80+80 segments neither overlap nor touch |
| ChannelParams.AcceptedAlignedIff | src/hostapd-2.11/hostapd/ctrl_iface.c:2512-2615 | accepted 40 MHz channels with a centre and accepted wider ones are aligned, unless 320 MHz came with an offset other than 1 and -1 |
| ChannelParams.AnyCenterFor320 | src/hostapd-2.11/hostapd/ctrl_iface.c:2586-2615 | with such an offset every centre is accepted outside the 6 GHz band |
| ChannelParams.VerdictIff | src/hostapd-2.11/hostapd/ctrl_iface.c:2457-2644 | the same condition for the answer 0, on values |
| ChannelParams.VerdictCodes | src/hostapd-2.11/hostapd/ctrl_iface.c:2534-2561 | the answers are 0, 1 and -1, and 1 is exactly 80 MHz without centre or offset, misplaced for offset 1, or with segments too close |
| ChannelParams.CentresAreTiles | src/hostapd-2.11/src/common/ieee802_11_common.c:2887-2909 | on the 5 MHz grid the centres of a width are those of the channels the band is divided into, and 5960 MHz for 20 MHz |
| ChannelParams.HalvesAreTiles | src/hostapd-2.11/src/common/ieee802_11_common.c:2887-2909 | both halves of a channel are channels of half the width |
| ChannelParams.ImpliedOnlyAdds | src/hostapd-2.11/hostapd/ctrl_iface.c:2462-2495 | the band only adds capabilities, exactly when HE, HT and VHT are added, EHT implies HE, and applying it twice is applying it once |
| ChannelParams.FreqParams.ApplyBand | src/hostapd-2.11/hostapd/ctrl_iface.c:2462-2495 | the capability flags after the band's rules, and the check of the 6 GHz centre |
| ChannelParams.FreqParams.Check40 | src/hostapd-2.11/hostapd/ctrl_iface.c:2512-2533 | the table of 40 MHz centres is the formula; 0 iff the parameters describe such a channel |
| ChannelParams.FreqParams.Check80 | src/hostapd-2.11/hostapd/ctrl_iface.c:2534-2561 | the table of 80 MHz centres is the formula, with its three return codes; 0 iff the parameters describe such a channel, the second segment far enough |
| ChannelParams.FreqParams.Check160 | src/hostapd-2.11/hostapd/ctrl_iface.c:2562-2585 | the table of 160 MHz centres is the formula; 0 iff the pair fills a block, for both offsets |
| ChannelParams.FreqParams.Check320 | src/hostapd-2.11/hostapd/ctrl_iface.c:2586-2615 | the table of 320 MHz centres is the formula for offsets 1 and -1; 0 iff the pair fills a block or the offset is another one |
| ChannelParams.FreqParams.Check | src/hostapd-2.11/hostapd/ctrl_iface.c:2457-2644 | accepted are, for all parameters, exactly channels whose pair fills a 40 MHz block, with the rule of their bandwidth for both centres, the 6 GHz centre and an allowed pattern; the answer 1 has its own condition, and the flags are set also when it is negative |
| SaePk.WordRow | src/hostapd-2.11/src/common/sae_pk.c:317-320 | the word read is Sec_1b and the first 19 bits of three bytes |
| SaePk.ShiftLeft19 | src/hostapd-2.11/src/common/sae_pk.c:323-340 | the loop shifts the bytes left by 19 bits in place |
| SaePk.ShiftedBit | src/hostapd-2.11/src/common/sae_pk.c:323-340 | that moves every bit 19 places, zeros coming in |
| SaePk.WriteOdd | src/hostapd-2.11/hostapd/sae_pk_gen.c:154-158 | an odd round appends its 20 bits, though its first byte already holds four bits |
| SaePk.WriteEven | src/hostapd-2.11/hostapd/sae_pk_gen.c:159-163 | an even round appends its 20 bits and leaves the last four for the next |
| SaePk.ReadGroup | src/hostapd-2.11/hostapd/sae_pk_gen.c:150-152 | a round reads the next 19 bits of the original hash behind Sec_1b |
| SaePk.PackPasswordBase | src/hostapd-2.11/hostapd/sae_pk_gen.c:145-164 | for any hash and number of rounds the output is the concatenation of the groups, then zeros |
| SaePk.GeneratePasswordBase | src/hostapd-2.11/hostapd/sae_pk_gen.c:145-164 | the generator's own calls stay inside their arrays |
| SaePk.HashBitsRecovered | src/hostapd-2.11/hostapd/sae_pk_gen.c:145-164 | every 20th bit is Sec_1b, and the others are the hash from its skipped prefix on |
| DnsLogSpec.ProcessKeepsInvariant | bin/run_unbound.py:278-300 | merging, appending and evicting account for every line and record, and no late update fires |
| DnsLogSpec.FlushKeepsInvariant | bin/run_unbound.py:255-276 | a flush accounts for every line and record and leaves only records inside the window |
| DnsLogSpec.InsertDueCount | bin/run_unbound.py:259-271 | each due record is attempted exactly once |
| DnsLogSpec.InsertDueLines | bin/run_unbound.py:259-276 | each line of the queue moves to exactly one list or stays pending |
| DnsLogSpec.InsertDueSound | bin/run_unbound.py:259-271 | an inserted row is blocked iff one of its lines was |
| DnsLogSpec.RunKeepsInvariant | bin/run_unbound.py:326-353 | over every run: unique keys, at most 25 pending, rows with the right status, every line in one record, created = inserted + failed + evicted + pending |
| DnsLogSpec.WholeRunKeepsInvariant | bin/run_unbound.py:326-359 | the same after the final flush |
| DnsLogSpec.InitialInvariant | bin/run_unbound.py:69-75 | the start meets it |
| DnsLogSpec.CountersFollowAnswers | bin/run_unbound.py:218-270 | rows and counters as numbers of database answers; they agree iff no attempted insertion was answered by a failure after its commit |
| DnsLogSpec.InitialAnswers | bin/run_unbound.py:69-75 | the empty start is one from which that holds |
| DnsLogSpec.NoRowTwice | bin/run_unbound.py:255-276 | no record is inserted twice: no two rows are equal or share a log line |
| DnsLogOrder.OldestIsEvicted | bin/run_unbound.py:278-300 | a record is lost iff 25 are pending and the key is new, and it is the one with the oldest first line; all others stay |
| DnsLogOrder.RunKeepsOrder | bin/run_unbound.py:278-353 | over every run pending and evicted records are in the order of the log, the evicted ones older than all pending |
| DnsLogOrder.InitialOrder | bin/run_unbound.py:69-75 | the empty start is in order |
| DnsLogOrder.WholeRunTells | bin/run_unbound.py:278-359 | every row, pending and evicted record has the key of its lines, client and time of the first, and is blocked iff one of them is |
| DnsLogOrder.TableIsDeduplicated | bin/run_unbound.py:255-359 | with an advancing clock the rows are in log order, two rows of one key began at least 5 seconds apart, every row at least 5 seconds before the end, and every record still pending less than that |
| DnsLog.WithoutOne | bin/run_unbound.py:272-276 | deleting one place of a list without repetitions is deleting that object |
| DnsLog.Logger.MergeLine | bin/run_unbound.py:288-294 | the pending record takes the line, and its status changes only to blocked |
| DnsLog.Logger.AppendLine | bin/run_unbound.py:295-300 | a record is appended behind the others, and a full queue loses its oldest |
| DnsLog.Logger.ProcessLine | bin/run_unbound.py:278-300 | a line goes to the pending record of its key, or starts one behind the others, and a full queue loses its oldest |
| DnsLog.Logger.InsertLog | bin/run_unbound.py:218-240 | stored, rejected, or committed but reported as failed |
| DnsLog.Logger.InsertAllDue | bin/run_unbound.py:260-271 | due records are inserted and counted in order, and listed once each |
| DnsLog.Logger.Remove | bin/run_unbound.py:272-276 | the first record with equal contents goes, or nothing; with distinct keys that is the very object meant |
| DnsLog.Logger.RemoveAll | bin/run_unbound.py:272-276 | exactly the listed objects are gone, the rest keeps its order |
| DnsLog.Logger.FlushPending | bin/run_unbound.py:255-276 | a flush of the mutable queue is the flush of the state machine |
| DnsLog.Logger.HandleLine | bin/run_unbound.py:349-352 | one turn of the event loop is a process step and a flush step |
| DnsLog.Logger.RunLog | bin/run_unbound.py:326-359 | the whole program run is a run of the state machine |
| Text.HexRoundTrip | src/hostapd-2.11/src/utils/common.c:171-186 | printed bytes parse to themselves, whatever follows |
| Text.HexValIff | src/hostapd-2.11/src/utils/common.c:16-25 | hexadecimal digits of either case, and no other character |
| Text.ParseHexIs | src/hostapd-2.11/src/utils/common.c:171-186 | exactly which texts spell the bytes, and which bytes |

## Left out

- Airtime: the conversion of a weight to 16 bits in the driver interface, the forced backlog of the testing build, and arming the timer when the mode changes.
- HLR gateway: the SQLite database, the Milenage branch of `sim_req_auth` with its unchecked buffer, `GSM-AUTH-REQ`, sockets and command dispatch.
- HLR gateway: IND lengths of 31 and 32, where the code shifts a 32-bit one out of its range.
- GSM triplets: the reader of the triplet file, whose records are the given store; the pending queries of the EAP server.
- Key file: `atoi` is modelled on unbounded integers, so a RES length beyond 32 bits is refused here and may wrap in C.
- Key file: files with NUL bytes or with lines of 200 characters and more, which `fgets` splits; opening and renaming the files.
- HlrReread.RestartKeepsIff: speaks of remainders that are unreadable or add no record; one that is a whole data line is covered by `HlrReread.RereadIsRead` and, behind the last line of a documented file, by `HlrRestart.RestartKeepsSubscribersIff`.
- HlrFreshness.IssuedSqnsIncrease: speaks of runs in which SEQ does not reach its last value; `HlrSqn.IncGrowsIffBelowLimit` says what happens there.
- Key management: the printer's 20 equal tests are a loop over a table in their order; builds without some of the suites are not modelled.
- Channel parameters: frequencies near the limits of 32-bit integers; the table of valid puncturing patterns is a parameter.
- DNS log: the regular expressions, the truncation of domains, the effect of `update_log` on a row (it is never reached), an interrupt inside a flush, and printing.
- SAE-PK: the search for the modifier, the elliptic curve key and the base32 text of the password.
- NUL bytes written into a buffer to cut a string are slices here, so aliasing between the pieces is not modelled; logging is left out everywhere.
- The many flat options of the configuration parser, the command line client, the live interface monitor and the other scripts, which have no property of this kind.
