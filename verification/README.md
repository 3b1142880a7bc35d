# Verified model of ableton-link-rs

A Dafny 4.11 model of four parts of the crate in which a fast, staged or grouped form has to agree with a simple
specification, with proofs over all inputs, all runs or all reachable states. `dafny verify dfyconfig.toml` checks
the whole project.

**Clock and tempo arithmetic.** `Rounding.dfy` holds the one-line specifications (round half away from zero over the
reals, then clamp) and the integer lemmas. `Tempo.dfy` models the beat conversions, including the bit-serial division
taken when the numerator would overflow. `GhostXForm.dfy`, `GhostMicros.dfy` and `GhostInverse.dfy` model the binary64
clock map: the split 128-bit product with its carry, every shift range, the divide-before-multiply form, and the
doubling long division with its early exit. `GhostRoundTrip.dfy` relates the two directions. A finite slope is a sign,
a significand below 2^53 and an exponent in -1075..971, normalised except at the smallest exponent (section 3.4 of
IEEE 754); times are integer nanoseconds within Chrono's limits of ±(2^63 - 1) milliseconds. u128 operations are
naturals with explicit truncation or saturation.

**Discovery announcements.** `Routes.dfy` models the measurement route cache and the revision index, `Timeouts.dfy`
the gateway's deadline list, `Peers.dfy` the observer's peer list and its notifications: each a class with methods
proved against specification functions. `Pipeline.dfy` composes those functions into a step system with history: a
datagram is observed atomically, then waits in a handoff, is delivered, published by the gateway and applied by the
observer, while withdrawals, byebyes, pruning, sweeps, drops and lease changes interleave freely. Instants are read in
order within a step and never run back. `PipelineRoutes.dfy` and `PipelineSafety.dfy` prove what every run keeps;
`PipelineProgress.dfy` shows that the checks refuse only what is stale. `Interfaces.dfy` models the address-keyed
interface map and multicast memberships as a refinement of a flat set of registrations.

**Measurement.** `Measurement.dfy` is one job as three interleaved workers over a sample vector and a capacity-one
terminal slot; `Regression.dfy` is the least-squares fit over exact reals.

**Codec.** `Wire.dfy`, `Payload.dfy`, `PayloadLaws.dfy` and `Messages.dfy` model the big-endian integers, the entry
parser and printer, and whole discovery messages; `Layout.dfy` pins every field to its bytes and says what is refused.

Seven promises do not hold of the code on all inputs, and each is settled by an exact condition:

- microbeats to nanoseconds and back is the identity on every storable beat exactly when the beat period is at least
  1000 microseconds in magnitude (`Tempo.RoundTripExactlyFrom1000`, with a skipped microbeat for every shorter one);
- host time to ghost time and back is the identity, in nanoseconds and for the public maps in whole microseconds,
  exactly when the slope is at least one in magnitude (`GhostRoundTrip.RoundTripExactlyWhenSteep` and
  `GhostRoundTrip.PublicRoundTripExactlyWhenSteep`, with two colliding host times for every flatter slope);
- a payload round-trips exactly when its entries are in normal form (`PayloadLaws.IdentityExactlyOnNormal`);
- a produced message is within 512 bytes exactly when the 32-bit sum of its entry sizes does not wrap
  (`Messages.MessageFits`, with a message of four gigabytes that passes the size check; the sum wraps in builds without
  overflow checks and panics in the others);
- an exactly affine clock is measured exactly if and only if two samples differ in host time or the clock runs at rate
  one (`Measurement.AffineClockRecovered`, with a run of eleven equal PONGs that loses the slope);
- a delivery can take effect after its announcement's deadline, exactly when the deadline falls between the delivery's
  check and the second reading of the clock inside the route cache (`PipelineSafety.LateExactlyWhen`); such a delivery
  leaves no hint and no later stage acts on it (`PipelineSafety.LateDeliveryIsHarmless`);
- recording a route on its own takes a key back in time exactly when it revives, with an older observation, a hint the
  sweep has just dropped (`Routes.NeverBackExactlyWhen`, with such a record); the pipeline never makes such a call
  (`PipelineSafety.RoutesNeverGoBack`).

## Model

| member | source | states |
|---|---|---|
| Tempo.RoundRatioRounds | src/link/mod.rs:91-111 | the integer ratio with its remainder test is the real quotient rounded half away from zero, for every nonzero denominator |
| Tempo.MicrobeatsFromNanos | src/link/tempo.rs:64-111 | for every i128 time and period the result is 1000 * nanos / period rounded once and clamped to i128; a zero period saturates by sign |
| Tempo.DivideWide | src/link/tempo.rs:72-110 | the slow path gives the same correctly rounded, clamped value for all inputs, so it agrees with the fast path wherever both apply |
| Tempo.ScaleRemainder | src/link/tempo.rs:75-97 | the bit loop leaves the exact quotient and remainder of 1000 * remainder by the denominator |
| Tempo.SplitThenRound | src/link/tempo.rs:113-135 | splitting beats and period, rounding only the small product and adding with saturation equals one rounding of the exact product, ties included |
| Tempo.MicrosFromMicrobeatsRounds | src/link/tempo.rs:113-124 | microbeats to microseconds is beats * period / 10^6 rounded half away and clamped |
| Tempo.NanosFromMicrobeatsRounds | src/link/tempo.rs:126-135 | microbeats to nanoseconds is beats * period / 1000 rounded half away and clamped |
| Tempo.BeatsRoundTrip | src/link/tempo.rs:64-135 | unsaturated beats survive the trip to nanoseconds and back for every period of magnitude at least 1000 |
| Tempo.SkippedMicrobeat | README.md:497-498 | for every shorter nonzero period some microbeat of the first beat is hit by no nanosecond at all |
| Tempo.RoundTripExactlyFrom1000 | README.md:497-498 | the round trip is the identity on every storable beat if and only if the period's magnitude is at least 1000 |
| GhostXForm.ForwardWideIsExact | src/link/ghostxform.rs:26-87 | for every finite slope, host time and intercept the split-product map is the rounded real product plus the intercept, clamped to i128 |
| GhostXForm.WideProductExact | src/link/ghostxform.rs:34-38 | the two words and the carry denote the exact product |
| GhostXForm.ShiftRoundExact | src/link/ghostxform.rs:40-67 | every shift range, overflow flag and rounding bit yields the product times two to the exponent, rounded and saturated |
| GhostXForm.AddInterceptExact | src/link/ghostxform.rs:68-86 | sign-and-magnitude addition of a saturated magnitude equals the clamped exact sum, opposite signs and the i128 minimum included |
| GhostMicros.ForwardMicrosIsExact | src/link/ghostxform.rs:169-220 | the public forward map is one rounding of slope * nanos / 1000, times 1000, plus the intercept, clamped at Chrono's limits |
| GhostMicros.MicrosMagnitudeExact | src/link/ghostxform.rs:183-206 | given a normalised significand the inner saturations and the divided product never change the rounded microseconds |
| GhostMicros.MapsDifferByHalfMicrosecond | src/link/ghostxform.rs:22-220 | the public and the nanosecond forward maps differ by at most 500 ns |
| GhostInverse.GhostNanosToHostUnits | src/link/ghostxform.rs:107-167 | for every finite nonzero slope the result is in range exactly when the rounded quotient is a Chrono duration, and otherwise the limit on its side |
| GhostInverse.GrowingUnits | src/link/ghostxform.rs:140-159 | the doubling division returns the correctly rounded quotient, and reports overflow only when that quotient exceeds the limit |
| GhostInverse.DoublingExceeds | src/link/ghostxform.rs:144-150 | the early exit never fires on a representable result |
| GhostInverse.ShrinkingExact | src/link/ghostxform.rs:130-139 | for nonnegative exponents dividing first and shifting afterwards still rounds the exact quotient half away |
| GhostInverse.GhostToHost | src/link/ghostxform.rs:222-225 | the public inverse is the exact host time in whole microseconds, clamped |
| GhostRoundTrip.ForwardMonotone | src/link/ghostxform.rs:26-87 | the forward map is monotone in the direction of the slope's sign, saturation included |
| GhostRoundTrip.SteepRoundTrip | src/link/ghostxform.rs:26-167 | for slopes of magnitude at least one the inverse recovers every unsaturated host time |
| GhostRoundTrip.FlatRoundTripError | src/link/ghostxform.rs:26-167 | for every unsaturated host time and slope the error is at most 1 / (2 * slope) + 1/2 nanoseconds, a result clamped at Chrono's limit included |
| GhostRoundTrip.FlatSlopeCollides | src/link/ghostxform.rs:26-87 | every slope of magnitude below one sends two neighbouring host times to one ghost time |
| GhostRoundTrip.RoundTripExactlyWhenSteep | src/link/ghostxform.rs:26-167 | all unsaturated host times are recovered if and only if the slope's magnitude is at least one |
| GhostRoundTrip.PublicRoundTripError | src/link/ghostxform.rs:169-225 | through the public maps a whole microsecond is recovered for slopes of magnitude at least one, and is off by at most 1 / (2 * slope) + 1/2 microseconds otherwise |
| GhostRoundTrip.PublicRoundTripExactlyWhenSteep | src/link/ghostxform.rs:169-225 | all unsaturated whole microseconds survive the public maps if and only if the slope's magnitude is at least one |
| Wire.DecodeEncoded | src/encoding.rs:120-218 | fixed-width big-endian integers decode to what was encoded |
| Wire.EncodeDecoded | src/encoding.rs:120-218 | and every byte string of that width is the encoding of what it decodes to |
| Wire.I64RoundTrip | src/encoding.rs:200-218 | signed 64-bit values round-trip |
| Wire.BigEndianAt | src/encoding.rs:120-197 | byte i of a field is the value divided by 256 to the number of bytes behind it: the most significant byte comes first |
| Wire.FromBigEndianIsWeighted | src/encoding.rs:120-197 | a field reads as the sum of its bytes, each times its weight |
| Wire.I64Bytes | src/encoding.rs:200-218 | a signed number is written modulo 2^64 |
| Layout.EntryLayout | src/link/encoding.rs:16-45 | an entry is the four ASCII characters of its name, its length and its body, at fixed offsets |
| Layout.EndpointLayout | src/link/audio_endpoint.rs:40-56 | four address bytes, then two port bytes |
| Layout.StartStopLayout | src/link/state.rs:37-50 | a flag byte, eight bytes of beats, eight bytes of time |
| Layout.TimeLayout | src/link/payload.rs:112-122 | a time entry is its whole microseconds in eight bytes |
| Layout.MicrosTruncate | src/link/payload.rs:112-122 | microseconds are cut towards zero, keeping the sign |
| Layout.MessageLayout | src/discovery/messages.rs:77-110 | protocol name and version, type, lifetime, group and sender at fixed offsets, then the payload |
| Layout.HeaderExactlyWhen | src/discovery/messages.rs:134-155 | over all byte strings, which error or header results, and the header encodes back to the bytes it came from |
| Layout.BodyRefusedExactlyWhen | src/link/payload.rs:136-216 | over all keys and bodies, an entry is refused exactly for a wrong length or a flag above one, and skipped exactly when its key is unknown |
| Layout.DecodedEncodesBack | src/link/payload.rs:144-216 | an entry that is read encodes back to its own key and bytes, but for audio endpoints without address or port |
| Layout.DecodingStops | src/link/payload.rs:124-220 | on every byte string decoding consumes whole entries without error and stops at a short tail, at an entry cut off, or at a refused body, with that error |
| Payload.Payload.Size | src/link/payload.rs:54-61 | the announced size is the sum of header and body sizes modulo 2^32 |
| Payload.Payload.Encode | src/link/payload.rs:63-73 | entries are written in order and the first failure is the result |
| Payload.Payload.Decode | src/link/payload.rs:124-220 | the loop appends exactly the entries before the end or the first error and reports that error, on every byte string |
| PayloadLaws.DecodeConcat | src/link/payload.rs:124-220 | decoding distributes over concatenation after whole entries, errors included |
| PayloadLaws.BodyRoundTrip | src/link/payload.rs:235-263 | each entry encodes to its declared size, fails exactly when a time does not fit the wire, and decodes to its normal form |
| PayloadLaws.EncodeSucceeds | src/link/payload.rs:53-73 | encoding succeeds if and only if every time fits, and then its length is the announced size |
| PayloadLaws.PayloadRoundTrip | src/link/payload.rs:53-220 | decoding an encoded payload gives the normalised entries and no error |
| PayloadLaws.IdentityExactlyOnNormal | src/link/payload.rs:53-220 | the round trip is the identity if and only if every entry is in normal form |
| PayloadLaws.DecodedIsNormal | src/link/payload.rs:124-220 | whatever bytes arrive, the decoded entries are valid and in normal form |
| PayloadLaws.ReencodeIsStable | src/link/payload.rs:53-220 | so re-encoding what was read always succeeds and reads back the same |
| PayloadLaws.EndpointRoundTrip | src/link/audio_endpoint.rs:40-71 | endpoints round-trip at the byte level; absence is spelled as zeros |
| PayloadLaws.InterleavedDecode | src/link/payload.rs:124-220 | unknown or aep6 entries anywhere and fewer than 8 trailing bytes never change the result |
| Messages.EncodeMessage | src/discovery/messages.rs:77-110 | the message is the two headers and the payload, or the size error, checked first on the announced 32-bit size |
| Messages.ParsePayload | src/discovery/messages.rs:157-162 | the entries, or the error that stopped decoding |
| Messages.MessageFits | src/discovery/messages.rs:77-110 | a message is produced if and only if its announced size is at most 512 bytes and every time fits; it is then within 512 bytes if and only if the 32-bit sum did not wrap |
| Messages.WrappedMessagePasses | src/link/payload.rs:54-61 | 2^28 entries announce no bytes, and a message of more than four gigabytes is produced |
| Messages.MessageRoundTrip | src/discovery/messages.rs:77-162 | a produced message parses to its header, or is refused for its type, and to its normalised entries |
| Messages.DeliveredExactlyWhen | src/discovery/messages.rs:77-162 | a message round-trips if and only if its type is known, its announced size fits 512 bytes and its entries are in normal form |
| Regression.FitMinimises | src/link/linear_regression.rs:5-32 | no line has a smaller squared error, for any point sequence, equal abscissae included |
| Regression.FitUnique | src/link/linear_regression.rs:5-32 | with two different abscissae it is the only best line |
| Regression.ZeroDenominatorIffSameX | src/link/linear_regression.rs:23-28 | the fallback is taken if and only if all abscissae are equal |
| Regression.RecoversLine | src/link/linear_regression.rs:5-32 | points of one line give that line back |
| Regression.RecoversLineExactlyWhen | src/link/linear_regression.rs:5-32 | points of one line give that line back if and only if they differ in x or the line is level |
| Measurement.ForwardedIsFirstAndComplete | src/link/measurement.rs:857-919 | in every interleaving the forwarded vector is the first one published and is empty or has 21 or 22 samples |
| Measurement.PongSamplesExactly | src/link/measurement.rs:1212-1235 | in exact integers, which readings yield no samples, a failure, one or two samples, and where those lie |
| Measurement.GivesUpAfterFive | src/link/measurement.rs:1078-1120 | in every run at most five retries go out and the timer gives up after exactly five |
| Measurement.DiscardedStaysDiscarded | src/link/measurement.rs:1110-1118 | samples collected before giving up and not taken by the finisher are never forwarded |
| Measurement.ForwardedAsReceived | src/link/measurement.rs:1015-1041 | a forwarded vector is a contiguous stretch of the samples the PONGs brought, in arrival order |
| Measurement.ForwardedOnce | src/link/measurement.rs:900-919 | a forwarded vector never changes again |
| Measurement.SlotFilledWhenTimerExits | src/link/measurement.rs:1048-1144 | whenever the timer has exited the terminal slot holds or held a result |
| Measurement.FallbackUnreachable | src/link/measurement.rs:519-543 | so a failure reports the zero transform and every other result is fitted by regression |
| Measurement.AffineClockRecovered | src/link/measurement.rs:1212-1235 | in every run whose PONGs read an exactly affine clock at the midpoints, a nonempty result gives back its slope and its intercept rounded to the microsecond if and only if two samples differ in host time or the clock runs at rate one |
| Measurement.EqualInstantsLoseTheSlope | src/link/measurement.rs:519-543 | a complete run of eleven PONGs at one host time measures a clock of rate two as rate one |
| Peers.PeerList.ApplyPeer | src/discovery/peers.rs:499-560 | the list and the notifications follow the specification; the own node and an expired announcement change nothing, any other is listed |
| Peers.PeerList.RemovePeer | src/discovery/peers.rs:562-570 | exactly the node's entries go, and a departure is reported if and only if there were any |
| Peers.PeerList.UniqueSessionPeerCount | src/discovery/peers.rs:265-278 | the number of distinct other nodes in the session |
| Peers.LogIsFaithful | src/discovery/peers.rs:499-570 | over every run node ids stay unique, a consumer replaying endpoint notifications agrees with every listed peer, and every listed session, timeline and start/stop state has been announced |
| Peers.NoticesExactlyWhen | src/discovery/peers.rs:508-547 | a timeline, start/stop, membership or endpoint notice is sent exactly when no listed peer has made it already |
| Peers.NoticesInOrder | src/discovery/peers.rs:523-547 | each at most once, membership before endpoint |
| Peers.UpsertInPlace | src/discovery/peers.rs:553-558 | a known node is replaced where it stands and a new one comes last |
| Peers.WithoutAppend | src/discovery/peers.rs:562-564 | removal keeps the order of the others |
| Peers.CountChangesAreAnnounced | src/discovery/peers.rs:265-278 | in every reachable state a step emits a membership or departure notice if and only if some session's unique peer count changes |
| Timeouts.PeerTimeouts.OnPeerState | src/discovery/gateway.rs:415-443 | an announcement replaces the node's entry in place, a withdrawal removes a known one, an expired announcement changes nothing |
| Timeouts.PeerTimeouts.OnByebye | src/discovery/gateway.rs:499-509 | a known peer is removed and reported, an unknown one ignored |
| Timeouts.PeerTimeouts.PruneExpired | src/discovery/gateway.rs:547-580 | on a sorted list the loop over the head removes exactly the expired entries, in order |
| Timeouts.TimeoutsFollowEvents | src/discovery/gateway.rs:413-443 | over every run from empty the list is sorted with one entry per node, and holds exactly the peers announced and not reported gone, each at the earlier of its deadline and three seconds after its commit |
| Timeouts.WatchedSinceLastCommit | src/discovery/gateway.rs:428-435 | in every run a watched peer has a last commit not reported on since, and its time is the earlier of that announcement's deadline and three seconds after the commit |
| Timeouts.CommittedIsWatched | src/discovery/gateway.rs:428-435 | and whoever was committed and not reported on since is watched |
| Timeouts.EventsAreJustified | src/discovery/gateway.rs:413-580 | in every reachable state which event is sent follows from the deadlines alone; pruning sends nothing if and only if nothing has expired |
| Timeouts.HeadPruningIsExact | src/discovery/gateway.rs:547-580 | on every reachable list, prune steps at one instant repeated until one sends nothing leave exactly the later deadlines and report exactly the peers whose deadline has come |
| Routes.MeasurementRoutes.RecordReceived | src/discovery/messenger.rs:531-592 | sweep, staleness, expiry, existing-only and eviction follow the specification, with ties for eviction free |
| Routes.MeasurementRoutes.Earliest | src/discovery/messenger.rs:561-579 | the victim expires no later than any other candidate |
| Routes.RecordKeeps | src/discovery/messenger.rs:531-592 | recording keeps 1024 hints and 16 per peer as bounds, never takes a key that survives the sweep back in time, adds nothing but its own hint, and adds no key when restricted to existing ones |
| Routes.RecordTakesEffect | src/discovery/messenger.rs:540-589 | at the record's key a newer live hint stays, an expired record clears it, and otherwise the record's own hint is stored, replacing or inserting |
| Routes.RecordLeavesOthers | src/discovery/messenger.rs:540-591 | unless a new key enters every other live hint stays as it was, and without an endpoint exactly the node's older hints go |
| Routes.EvictsTheEarliest | src/discovery/messenger.rs:560-580 | a new key costs at most one hint: the peer's first to expire at its 16, or the cache's first to expire at 1024 |
| Routes.NeverBackExactlyWhen | src/discovery/messenger.rs:540-589 | against the cache before the sweep no key goes back in time, unless a current, unexpired record with an older observation revives the very key the sweep dropped: an if-and-only-if |
| Routes.RecordCanGoBack | src/discovery/messenger.rs:540-589 | an observation made at 3 replaces a hint of 4 that expires as it is recorded |
| Routes.EvictionIsContained | src/discovery/messenger.rs:560-580 | without pressure nothing is evicted, and a peer at its own limit displaces no other peer's hint |
| Routes.RevisionIndex.Observe | src/discovery/messenger.rs:444-476 | dead entries go, an older observation is refused, the superseded revision is cancelled and a new one is indexed only when admitted |
| Pipeline.NeverRefused | src/discovery/messenger.rs:451-457 | with serialised receive times no observation is ever refused as older |
| Pipeline.StepKeepsOwners | src/discovery/messenger.rs:444-476 | every step keeps each queued item tied to its revision, its original deadline and, while live, to the latest datagram of its node |
| Pipeline.QueuedExactlyWhen | src/discovery/messenger.rs:2510-2546 | a datagram is queued, with its own deadline and a fresh live revision, exactly when there is room and its lifetime has not passed |
| Pipeline.OnlyTheNodeIsSuperseded | src/discovery/messenger.rs:458-463 | a datagram supersedes every queued announcement of its node and no other |
| Pipeline.IndexHoldsOnlyQueuedWork | src/discovery/messenger.rs:451-475 | after every observation the index holds only revisions of queued work |
| PipelineSafety.OneLiveRevisionPerNode | src/discovery/messenger.rs:444-476 | in every reachable state the uncancelled queued items of a node share one revision, the one in the pending index |
| PipelineSafety.CommitsAreLatestAndTimely | src/discovery/messenger.rs:1743-1763 | in every run whatever is delivered, published or applied is the latest datagram parsed for its node, dropped ones included; its deadline is received + ttl and is checked in time at every stage, and the gateway and the observer take effect strictly before it |
| PipelineSafety.LateExactlyWhen | src/discovery/messenger.rs:1746-1761 | a delivered announcement has outlived itself if and only if its deadline fell between the check and the last reading of the clock |
| PipelineSafety.LateLeavesNoHint | src/discovery/messenger.rs:553-556 | a late delivery removes its own key, and nothing that expires with it is left in the cache |
| PipelineSafety.LateDeliveryIsHarmless | src/discovery/gateway.rs:415-419 | after a late delivery no later delivery, publication or application of that announcement changes timeouts, queue, peers or history |
| PipelineSafety.WithdrawalIsFinal | src/discovery/messenger.rs:2510-2532 | after a withdrawal is parsed nothing announced before it takes effect at any stage |
| PipelineSafety.NoPeerIsOrphaned | src/discovery/gateway.rs:413-443 | in every reachable state each listed peer and each queued announcement has a gateway timeout or a later departure in the queue |
| PipelineSafety.LifetimesAreNeverRenewed | src/discovery/gateway.rs:395-432 | every timeout stems from a committed announcement and is no later than received + ttl and no later than commit + 3 s, being one of the two; every listed peer comes from an observer commit |
| PipelineSafety.RoutesStayFresh | src/discovery/messenger.rs:531-592 | in every reachable state the cache is bounded, each hint has the deadline of a parsed announcement, and none is older than its node's latest withdrawal |
| PipelineSafety.RoutesNeverGoBack | src/discovery/messenger.rs:2510-2532 | in every run a key that stays never goes back in time, and only a delivery adds one |
| PipelineSafety.DeliveryRecordsRoute | src/discovery/messenger.rs:1743-1763 | a live announcement delivered under a current lease is forwarded, and its route is then in the cache, with its own deadline, exactly when the delivery was in time |
| PipelineSafety.ParsingRefreshesRoute | src/discovery/messenger.rs:2523-2532 | parsing an announcement refreshes a live route at once, even without room, and adds none |
| PipelineSafety.WithdrawalClearsNode | src/discovery/messenger.rs:2518-2522 | in every run parsing a withdrawal removes exactly the hints of its node |
| PipelineSafety.CommitsHoldTheirLease | src/discovery/messenger.rs:652-669 | in every run nothing takes effect at any stage unless its ingress registration still stands |
| PipelineProgress.PromptAnnouncementIsListed | src/discovery/peers.rs:399-466 | from every reachable quiet state an announcement with room, a current lease and time left can pass every stage and is listed and watched |
| PipelineProgress.PromptWithdrawalIsApplied | src/discovery/gateway.rs:420-427 | and a withdrawal of a watched peer with room can pass every stage and removes it from gateway and list |
| PipelineProgress.ByebyeIsReported | src/discovery/gateway.rs:499-509 | from every reachable state a byebye takes a watched peer off and queues its departure, and changes nothing otherwise |
| PipelineProgress.PruningIsReported | src/discovery/gateway.rs:563-577 | from every reachable state pruning takes off a peer of earliest deadline, if that has come, and queues its departure, and changes nothing otherwise |
| PipelineProgress.DeliveryCanBeLate | src/discovery/messenger.rs:1746-1761 | from every reachable state without events a prompt announcement can still be delivered after its deadline |
| Interfaces.InterfaceMap.Add | src/discovery/messenger.rs:1107-1171 | each error occurs exactly under its own condition on the system's answers and leaves everything as it was; success adds exactly one registration with the host's identity and needs a bound socket, a current topology, a new identity, and an index in use or joined |
| Interfaces.InterfaceMap.Attach | src/discovery/messenger.rs:1163-1168 | the flat set gains the entry and siblings stay one level deep at the group's address |
| Interfaces.InterfaceMap.Detach | src/discovery/messenger.rs:1189-1209 | the flat set loses exactly the identity's registration, a root being replaced by its last sibling |
| Interfaces.InterfaceMap.Remove | src/discovery/messenger.rs:1184-1228 | the removed socket is cancelled and its index left only when no other registration uses it |
| Interfaces.InterfaceMap.Reconcile | src/discovery/messenger.rs:1449-1519 | scanned registrations of the generation keep their socket, exactly the others are cancelled, the result lies within the scan at its generation and misses only interfaces whose own attempt failed; a registration appears only where binding and topology check passed and a membership only where the system joined it; memberships equal registered indices given successful leaves, every registration consults the present host identity, exactly the new ones get a receive loop, the failure log holds exactly the unregistered interfaces of a scan without repetitions, and a change is reported if and only if there is one |
| Interfaces.InterfaceMap.Plan | src/discovery/messenger.rs:1459-1481 | failures outside the scan are forgotten, registrations refreshed, the stale identities leave exactly the registrations to keep, and every other scanned interface is to be added |
| Interfaces.InterfaceMap.RemoveAll | src/discovery/messenger.rs:1483-1485 | exactly the named registrations go and are cancelled |
| Interfaces.InterfaceMap.AddAll | src/discovery/messenger.rs:1487-1513 | attempts only add fresh registrations, each failed position is accounted for by its own answer, and memberships, receive loops and the failure log follow |
| Interfaces.LogMatchesScan | src/discovery/messenger.rs:1239-1254 | so the failure log matches the scan |
| Interfaces.PromotedKeeps | src/discovery/messenger.rs:1190-1195 | promoting the last sibling keeps the group well formed and loses only the root |
| Interfaces.PromotedRoot | src/discovery/messenger.rs:1191-1194 | the last sibling becomes the root and the others stay in order |

## Left out

- NaN, infinite and zero slopes in the clock map, and the floating-point formula used for them.
- The f64 rounding of measurement samples and of BPM to a beat period: periods are integers, samples exact reals; the non-finite regression fallback does not arise there.
- Timeline bodies and session ids are kept as opaque bytes of fixed size; the string, tuple and f64 codecs are not modelled.
- `socket_for_ingress`, which picks the registration of the ingress adapter with the least key of exact destination, link-local scope, subnet and address.
- Sockets, packet metadata, topology monitors and interface scanning: only a generation number, a lease-current flag and the outcome of each operating system call remain.
- Tokio scheduling, wakeups, lock contention and wall-clock bounds: each guarded commit is one atomic step, and nothing is claimed about liveness.
- Handoff capacity is a free choice per datagram rather than a count of 64.
- `SawPeer`, `set_session_timeline`, `forget_session`, `reset_peers` and `retain_live_sessions`, which change peers or sessions outside the gateway pipeline.
- The dispatch registration dropped with a measurement, and managed follow-up pings.
- Timelines, phase, sessions, controller, audio, start/stop clients and the real-time session state handlers.
