# Verified model of the GNSS-disciplined NTP/NTS server

This project models, in Dafny 4.11, the state machines, codecs and integer arithmetic under the
drivers of the firmware, and proves what they are for. One module stands for one source component;
`Bytes`, `Esp`, `Arith` and `Timestamps` hold
machine integers, error codes, division facts and the wire times.

| module | component |
|---|---|
| `AesSiv` | AES-SIV: S2V, doubling, counter mode (RFC 5297) |
| `KeyRing` | the persisted three-slot cookie key ring and its rotation |
| `KeyIssue` | that ring in closed form: the secret, identifier and window of every slot |
| `Cookie` | minting and unpacking NTS cookies (section 6 of RFC 8915) |
| `NtpAuth` | the NTPv4 extension fields: walk, verify, protect (sections 5.3 to 5.7 of RFC 8915) |
| `NtsExchange` | theorems across ring, cookies, AES-SIV and extension fields |
| `NtpFields` | requests as bytes built from lists of fields |
| `LateFrames` | late stamping of frames built from their parts |
| `LateStamp` | in-place transmit timestamp and incremental UDP checksum (section 3 of RFC 1624) |
| `RxQueue` | the sixteen-entry receive timestamp ring |
| `PtpMap` | hardware time to UTC by split 64-bit division |
| `PtpRate` | the estimator of the hardware clock's rate |
| `RateLimit` | token buckets with least-recently-seen eviction |
| `CredentialStore` | the dual-slot credential store under power cuts |
| `Cooldown` | the persisted six-hour cooldowns of renewal and TLS handoff |
| `UbxStream` | the UBX and NMEA byte-stream demultiplexer and the frame writer |
| `UbxResync` | how that stream falls into step again after arbitrary input |
| `RxPath` | the receive call: ring and mapping together |
| `Calendar` | civil dates to day numbers and Unix seconds |
| `PeerStats` | rolling window, integer square root and statistics of a peer |
| `PeerOffset` | offset and delay of a peer exchange (section 8 of RFC 5905) |
| `ClockDiscipline` | samples, rejection, lock and holdover |
| `ClockSamples` | the frequency filter over runs, and how samples move served time |
| `ClockDispersion` | served time and the error bound advertised with it |

The source is C. Code that changes state is a class or an array method here, and its postconditions
equate the new state with a function of the old one; the theorems are then lemmas about that
function, over every input, every run or every reachable state. Foreign primitives are function
values: CMAC and the AES counter keystream are fields of `AesSiv.Prims`, X.509 judgement is the
parameter `judge`, random bytes are arbitrary arguments. Each region the firmware guards by a lock is
one step. Non-volatile storage is a map whose single-key writes are atomic and durable in order.
Clocks are arguments. The clock discipline's floating point is real arithmetic.

Where the code and its own documentation differ, the model follows the code:

- Late stamping applies only to a UDP length of exactly 56 (main/eth_service.c:159-163), so it never
  touches an NTS-protected response. `LateStamp.OtherLengthsUntouched` states this.
- Peer polls are started for all peers before any is awaited (main/ntp_peer_monitor.c:475-481). The
  model takes one response at a time and does not depend on the order.

Properties that turned out false of the code are proved with their exact condition:

- The key-ring validator is not an invariant of maintenance: `KeyRing.ValidatorIsNotInductive` and, for a
  whole call, `KeyRing.MaintainedAcceptedIff`. Rings reachable from start-up are fine.
- A store does not keep the old credential across a power cut when the selected slot has stopped
  validating: `CredentialStore.OldCredentialSurvivesIff`.
- A handoff that fails while the clock reads earlier than its begin lowers the deadline:
  `Cooldown.DeadlineKeptIff`, `Cooldown.NextBeginSpacedIff` and `Cooldown.ClockStepDefeatsCooldown`.
- A cookie is not readable until its expiry when that is more than a period past the end of its sealing key's
  window: `Cookie.AlwaysOpensIff`. Keys are not always sealed under the key they were named after:
  `Cookie.NamedKeySealsIff`. The one-day lifetime in use (main/nts_ke.c:33) is safe: `Cookie.GeneratedKeysSurvive`.
- A request whose predecessors of the same client were overwritten unread does not get the timestamp its place
  in line suggests: `RxQueue.DeliveryIsOwnRequestIff`.
- The estimate of the hardware clock's rate wraps once that clock has gained or lost 9.2 s since the first
  sample, after five days at 20 ppm: `PtpRate.RunEstimatesIff` and `PtpRate.DriftWrapsTheEstimate`.
- A valid certificate can be refused for good: `CredentialStore.RefusedForGoodIff`.
- A frame sent right after other input can be missed, and without a gap in the stream so can all that follow:
  `UbxResync.FrameReadIff`, `UbxResync.ResyncGapIff` and `UbxResync.LossMayNeverEnd`.
- The bucket bound holds only while a client is not evicted: `RateLimit.ResidentIffFewCall`, and
  `RateLimit.GrantsWhileFewCall` from there.
- The token bucket grants every call made at a clock of zero: `RateLimit.ZeroInstantBoundIff`, and
  `RateLimit.GrantsAcrossZero` for runs that go on from there.
- The receive-time mapping overflows in two ways at rates far off nominal: `PtpMap.SplitAgeIff`,
  `PtpMap.MapReceiveIsExactIff` and `PtpMap.SplitAgeOverflows`.
- The rolling sums overflow for offsets that an accepted response can have:
  `PeerStats.SafeBoundIff`, `PeerStats.FullWindowMeanIff` and `PeerOffset.AcceptedMayOverflowWindow`.
- A date past the end of its month is accepted and stands for a later date: `Calendar.EpochsEqualIff`.
- A refused sample can move served time: `ClockSamples.RefusedMovesTimeIff`.
- The advertised dispersion stops being an error bound when the configured holdover limit exceeds
  49 995 s, because of its cap of one second, while the setting allows 86 400 s
  (main/Kconfig.projbuild:72-75): `ClockDispersion.SafeIff`.

Lemmas that assume the success of another step are not vacuous. `NtsExchange.ExchangeRoundTrip` exhibits
verified requests for every live cookie, `NtpFields.RequestVerifies` for every cookie that unpacks, and `NtsExchange.MintAllMakesLive` live cookies for every healthy
ring, which `KeyRing.FreshIsHealthy` provides; `PtpMap.MapReceiveIff` says which events are mapped, `LateFrames.ResponseIsStamped` which frames are stamped,
`PeerOffset.HonestResponseIsAccepted` accepted responses, and `PeerStats.Peer.UpdateSuccess` described
windows.

## Model

| member | source | states |
|---|---|---|
| AesSiv.XorBlock | main/nts_aes_siv.c:49-56 | exclusive or of two blocks, also when the output is one of the inputs |
| AesSiv.XorSeqBits | main/nts_aes_siv.c:49-56 | which is a one bit exactly where one of the two has one |
| AesSiv.DblBlock | main/nts_aes_siv.c:58-76 | the carry loop writes the doubled block, also in place |
| AesSiv.DblIsFieldDoubling | main/nts_aes_siv.c:58-76 | coefficient by coefficient, the doubled block is the product with x in GF(2^128) modulo x^128+x^7+x^2+x+1 |
| AesSiv.ConstantTimeEqual | main/nts_aes_siv.c:78-91 | true exactly when the two prefixes are equal |
| AesSiv.ComputeTag | main/nts_aes_siv.c:300-428 | the in-place chain of CMACs, doublings and xorend or padding computes the synthetic tag |
| AesSiv.TagIsS2v | main/nts_aes_siv.c:300-428 | the tag is the recursive S2V of RFC 5297 over (AD, nonce, plaintext); the AD component drops out when AD is empty |
| AesSiv.TagWrittenOut | main/nts_aes_siv.c:300-428 | the tag written out in CMACs, doublings and combinations, with the zero block, the padding and the key half spelled out |
| AesSiv.CtrIvClearsTwoBits | main/nts_aes_siv.c:212-298 | the counter start is the tag with exactly bits 63 and 31 cleared |
| AesSiv.Encrypt | main/nts_aes_siv.c:435-501 | writes the sealed text at its place and nothing else, or refuses a short buffer and changes nothing |
| AesSiv.Decrypt | main/nts_aes_siv.c:503-590 | returns the opened plaintext, and wipes what it had written when the tag differs |
| AesSiv.OpenIffSealed | main/nts_aes_siv.c:435-590 | an input opens to a plaintext if and only if it is that plaintext sealed under the same key, AD and nonce, for any CMAC and keystream |
| AesSiv.CiphertextIsMasked | main/nts_aes_siv.c:212-298 | after the tag every bit of a sealed text is the plaintext's combined with the keystream under the second key half, started at the tag with two bits cleared |
| KeyRing.KeyIdsDistinct | main/nts_storage.c:95-117 | true exactly when no two populated slots share an identifier |
| KeyRing.ValidateCookieKeyring | main/nts_storage.c:119-221 | OK exactly for the rings the validator's clauses describe |
| KeyRing.AcceptedIff | main/nts_storage.c:119-221 | a ring is accepted if and only if every slot but the first is in use, and slots in use are marked so, have their own nonzero identifier and windows that are not empty and follow one another |
| KeyRing.NtsStorage.Load | main/nts_storage.c:281-322 | missing ring, read error or the stored ring |
| KeyRing.NtsStorage.Save | main/nts_storage.c:324-357 | replaces the stored ring exactly when the write succeeds |
| KeyRing.NtsStorage.Ensure | main/nts_storage.c:359-404 | keeps an accepted ring, refuses a bad one, creates a fresh one when there is none |
| KeyRing.NtsStorage.Maintain | main/nts_storage.c:406-495 | the rotation loop and the single save have the effect of catching up the stored ring |
| KeyRing.FreshIsHealthy | main/nts_storage.c:234-404 | the first ring has the strengthened invariant |
| KeyRing.HealthyIsAccepted | main/nts_storage.c:119-221 | the strengthened invariant (contiguous 30-day windows, successor identifiers skipping 0) implies acceptance |
| KeyRing.CatchUpKeepsHealthy | main/nts_storage.c:424-495 | catching up over any forward jump keeps the invariant and ends with now inside the ACTIVE window |
| KeyRing.CatchUpEnds | main/nts_storage.c:424-495 | the loop terminates from every ring the validator accepts, with now before ACTIVE's expiry |
| KeyRing.CatchUpWithinOnePeriod | main/nts_storage.c:424-495 | within one period of ACTIVE's expiry there is at most one rotation |
| KeyRing.CatchUpCounts | main/nts_storage.c:223-495 | catching up moves windows and identifiers on by one and the same number of steps, which is zero exactly while ACTIVE has not expired |
| KeyRing.RunKeepsHealthy | main/nts_storage.c:406-495 | every run of maintenance calls, failing ones among them, keeps the invariant and acceptance |
| KeyRing.ReachableRingsAreValid | main/nts_storage.c:359-495 | every ring reachable from the first one is accepted, and a successful call leaves its time in the ACTIVE window |
| KeyRing.RotateAcceptedIff | main/nts_storage.c:119-250 | one rotation of an accepted ring is accepted if and only if NEXT's successor identifier is not ACTIVE's and one more period fits in 64 bits |
| KeyRing.MaintainedAcceptedIff | main/nts_storage.c:406-495 | a whole maintenance call leaves an accepted ring accepted if and only if it does not rotate exactly once into one of these two cases; two or more rotations always repair the ring |
| KeyRing.RejectedStaysRejected | main/nts_storage.c:406-495 | a rejected ring is never changed again and every later call fails |
| KeyRing.UnusableIsRefused | main/nts_storage.c:406-423 | the answers to a missing and to a bad ring, which change nothing |
| KeyRing.ValidatorIsNotInductive | main/nts_storage.c:119-221 | a concrete accepted ring whose rotation is rejected |
| KeyIssue.FreshIs | main/nts_storage.c:224-404 | the first ring holds the first two drawn secrets as ACTIVE and NEXT and nothing before them |
| KeyIssue.CatchUpIs | main/nts_storage.c:424-495 | catching up issues one key for every window that has ended, with the next drawn secrets in order, and keeps the last three |
| KeyIssue.MaintainedIs | main/nts_storage.c:406-495 | what a maintenance call answers and leaves: an error or success for every failure, clock and due rotation, and a changed ring only with clock and storage at hand |
| KeyIssue.ReachableRingIs | main/nts_storage.c:224-495 | over every run from the first start the ring is the last three of the keys issued so far, each slot with its own drawn secret, identifier and window |
| KeyIssue.SlotsHoldDistinctSecrets | main/nts_storage.c:224-495 | so no two slots share a secret while no two drawn ones are the same |
| Cookie.FindCookieMasterKey | main/nts_cookie.c:96-114 | the key of the first slot with the identifier |
| Cookie.FindsFirst | main/nts_cookie.c:96-114 | on any ring the first slot in use under the identifier is found, and none if there is none |
| Cookie.GenerateKeys | main/nts_cookie.c:131-201 | the keys with their master key and window, or exactly the error of the failing step; what it leaves in the out-parameter |
| Cookie.WritePlaintext | main/nts_cookie.c:260-305 | the offset writer produces the big-endian plaintext layout |
| Cookie.Create | main/nts_cookie.c:203-362 | the whole call: maintenance, ACTIVE key, sealed cookie or error, and the ring left in storage |
| Cookie.Unpack | main/nts_cookie.c:364-557 | the whole call: length, maintenance, key lookup, opening, decoding, times |
| Cookie.PlaintextRoundTrip | main/nts_cookie.c:260-305 | decoding the encoded plaintext gives back keys and times while current |
| Cookie.PlaintextShows | main/nts_cookie.c:260-305 | magic, version, identifier, times and both keys at their offsets, most significant byte first |
| Bytes.MostSignificantFirst | main/nts_cookie.c:22-94 | integers are laid out most significant byte first |
| Cookie.DecodesIff | main/nts_cookie.c:450-557 | a plaintext decodes to given keys if and only if it is their encoding and they are current |
| Cookie.DecodeRefusals | main/nts_cookie.c:450-557 | the error of every refused plaintext: not one for this identifier, or not within its times by the clock |
| Cookie.MintedOpens | main/nts_cookie.c:364-557 | a minted cookie opens under every ring that finds its key |
| Cookie.UnpacksIffMinted | main/nts_cookie.c:364-557 | a ring opens a cookie to given keys if and only if the key it finds for them sealed exactly those keys, within their lifetime |
| Cookie.UnpackRefusals | main/nts_cookie.c:364-470 | the error of a cookie of the wrong size, under no known key, or sealed from no text |
| Cookie.MaintainRetains | main/nts_storage.c:406-495 | maintenance before a deadline keeps a key that was retained until it |
| Cookie.RetainedOpens | main/nts_cookie.c:364-557 | a retained key's cookie opens in every call before its expiry |
| Cookie.RunRetains | main/nts_storage.c:406-495 | retention over every run of maintenance calls |
| Cookie.CookieSurvives | main/nts_cookie.c:203-557 | a cookie minted with at most one period to live (the key-establishment server gives it one day, main/nts_ke.c:33) opens after any run, at every time before its expiry, to exactly its keys and times |
| Cookie.AlwaysOpensIff | main/nts_cookie.c:364-557 | a cookie just sealed under the ACTIVE key opens to its keys in every call before its expiry, after every run, if and only if it expires no later than one period after that key's window ends |
| Cookie.GeneratedKeysSurvive | main/nts_cookie.c:131-557 | keys generated with a lifetime of at most one period, put into a cookie by a create call after any run: after any further run every call before expiry unpacks exactly these keys, under the name of the key that sealed them |
| Cookie.NamedKeySealsIff | main/nts_cookie.c:131-362 | a create call right after generation seals under the key that generation named if and only if it comes before that key's expiry; both calls succeed |
| NtpAuth.RequestPresent | main/nts_ntp_auth.c:64-90 | true exactly when the scan reaches a field of an NTS type |
| NtpAuth.WalkedIsPresent | main/nts_ntp_auth.c:64-208 | a walk that collects anything is of a packet the scan recognises |
| NtpAuth.AppendExtension | main/nts_ntp_auth.c:92-122 | appends the wire form of a field, or changes nothing and says why |
| NtpAuth.WalkRequest | main/nts_ntp_auth.c:135-208 | the offset loop collects what the recursive walk does, with the same errors |
| NtpAuth.WalkKeepsSound | main/nts_ntp_auth.c:135-208 | collected fields are in bounds, within their length limits and fit in the packet side by side |
| NtpAuth.VerifyRequest | main/nts_ntp_auth.c:124-285 | fills the context exactly when verification succeeds, clears it otherwise, and leaves the maintained ring |
| NtpAuth.AuthContext.Clear | main/nts_ntp_auth.c:447-455 | zeroes the context |
| NtpAuth.AuthPartsOfBody | main/nts_ntp_auth.c:209-240 | an authenticator body laid out by protect parses to its nonce and ciphertext |
| NtpAuth.WriteCookies | main/nts_ntp_auth.c:315-348 | the scratch buffer holds the cookie fields of successive mints, or the first mint's error |
| NtpAuth.LayOutAuthBody | main/nts_ntp_auth.c:350-396 | nonce length, ciphertext length, nonce, ciphertext and zero padding, in bounds |
| NtpAuth.ProtectResponse | main/nts_ntp_auth.c:287-413 | the whole call in place: the response bytes, the length and the ring, or the error and an unauthenticated context refused untouched |
| NtpFields.WalkIs | main/nts_ntp_auth.c:150-208 | the walk of a header, any list of fields and a rest: refused for a second or illegal identifier or cookie before the authenticator, else for a rest, and otherwise collecting what the fields before the authenticator say; fields of other types, and all after it, have no part |
| NtpFields.EveryPacketSplits | main/nts_ntp_auth.c:150-165 | every packet is such a header, list and rest |
| NtpFields.RequestVerifies | main/nts_ntp_auth.c:124-285 | a request of any fields but authenticators - one identifier and one cookie among them - a sealing authenticator and any fields after it is accepted with its identifier, its cookie's keys and the cookie-sized among its first seven placeholders before the authenticator |
| NtpFields.VerifiesIff | main/nts_ntp_auth.c:124-285 | and a packet is accepted to a context if and only if it is such a request for it |
| NtpFields.RefusalIs | main/nts_ntp_auth.c:124-255 | the error of every refusal up to the cookie's, by the fields of the packet, and that the ring is left alone until the cookie is unpacked |
| NtsExchange.VerifiedRequestCoversResponse | main/nts_ntp_auth.c:150-284 | the response a verified context entitles to is no longer than the request |
| NtsExchange.VerifiedIsPresent | main/nts_ntp_auth.c:64-285 | the cheap scan never turns away a request that would verify |
| NtsExchange.VerifiedIffAuthentic | main/nts_ntp_auth.c:124-285 | a packet verifies to a context if and only if it walks to all three fields, its cookie unpacks to the context's keys, and its authenticator seals the empty text over all bytes before it under the C2S key |
| NtsExchange.ProtectNeverFailsSpuriously | main/nts_ntp_auth.c:302-412 | after any successful verify, protect succeeds in a buffer of the request's size and the length is 92 + uid + 132 per cookie, not above the request |
| NtsExchange.ProtectsIff | main/nts_ntp_auth.c:287-413 | for any context, on a healthy ring: success if and only if the header is one, the identifier fills words, and the response fits the buffer and the length of the request; the error otherwise; the length, and the ring after as many maintenance calls as cookies |
| NtsExchange.ResponseShows | main/nts_ntp_auth.c:302-412 | the header as given, the identifier in its field, and an authenticator that carries the nonce drawn for the response |
| NtsExchange.MintAllIs | main/nts_ntp_auth.c:315-348 | the j-th cookie of a response is sealed under the key ACTIVE after j + 1 maintenance calls, with the nonce drawn for it |
| NtsExchange.ProtectedResponseIsNotStamped | main/eth_service.c:159-163 | whatever frame carries a protected response leaves the late-stamping hook with every byte as sealed |
| NtsExchange.RequestIsAccepted | main/nts_ntp_auth.c:124-285 | a client's request is accepted with exactly its identifier, placeholder count and cookie keys |
| NtsExchange.ResponseIsReceived | main/nts_ntp_auth.c:302-412 | a client that walks and opens a response gets exactly the identifier and cookies it was built from |
| NtsExchange.MintAllMakesLive | main/nts_ntp_auth.c:315-348 | all cookies of one response stay live, whatever rotations happened between them |
| NtsExchange.LiveCookieOpens | main/nts_cookie.c:364-557 | a live cookie opens to its traffic keys and times |
| NtsExchange.LiveCookieSurvives | main/nts_storage.c:406-495 | a live cookie stays live over every run before its expiry |
| NtsExchange.ExchangeRoundTrip | main/nts_ntp_auth.c:124-413 | request, verify, protect and reception together: same identifier, 1+k cookies, each live for the same keys, sealed under the key ACTIVE at its creation and showing the nonce drawn for it, response as long as the request; so the exchange can be repeated |
| LateStamp.IsResponseFrame | main/eth_service.c:283-329 | true exactly for unfragmented IPv4 UDP frames from port 123 behind zero, one or two VLAN tags |
| LateStamp.FindLayout | main/eth_service.c:283-329 | finds the IPv4 and UDP offsets or none, within the frame |
| LateStamp.Prepare | main/eth_service.c:120-188 | the context of a stampable frame, or none |
| LateStamp.ChecksumReplaceWord | main/eth_service.c:190-201 | the fold loop gives the incremental update of RFC 1624 |
| LateStamp.ReplacedWordBalances | main/eth_service.c:190-201 | the updated checksum plus the new word is congruent to the old checksum plus the old word modulo 2^16-1 |
| LateStamp.FoldsToOnesIff | main/eth_service.c:190-201 | a positive sum folds to all ones if and only if it is a multiple of 2^16-1 |
| LateStamp.UpdateChecksum | main/eth_service.c:203-233 | four word replacements, and zero sent as all ones |
| LateStamp.Apply | main/eth_service.c:203-233 | the stamped frame, in place |
| LateStamp.OnlyStampBytesChange | main/eth_service.c:203-233 | only the eight timestamp bytes and the two checksum bytes change, to the stamp and the new checksum |
| LateStamp.StampKeepsChecksum | main/eth_service.c:120-366 | a frame whose checksum verifies over the pseudo-header still verifies after stamping, with a nonzero checksum, and the stamp reads back |
| LateStamp.GetResponseXmt | main/eth_service.c:336-366 | reads the transmit timestamp of a response frame, or none |
| LateStamp.Transmit | main/eth_service.c:477-524 | the transmit hook's effect on the frame |
| LateStamp.TransmitKeepsChecksum | main/eth_service.c:477-524 | what any receiver sees of a frame of known layout: a checksum that verified still verifies, and a stamped frame shows the compensated clock |
| LateFrames.StampableIff | main/eth_service.c:120-188 | a frame built from MAC addresses, up to two tags, an IPv4 header and what follows qualifies if and only if it is unfragmented UDP from port 123 of length 56, agreeing with the IP length, with a checksum, mode 4 and a stratum |
| LateFrames.ResponseIsStamped | main/eth_service.c:120-524 | every such response leaves with the compensated time and a new nonzero checksum in their places and all else as it was, the receiver's sum unchanged modulo 2^16-1, and the stamp reads back |
| LateFrames.OthersLeaveIdentical | main/eth_service.c:120-524 | every other frame, of any bytes, and every frame without a clock leaves byte-identical |
| LateFrames.ResponseXmtIs | main/eth_service.c:283-366 | the hook reads the transmit timestamp back from any first fragment from port 123 that holds one, and from nothing else |
| LateStamp.OtherLengthsUntouched | main/eth_service.c:120-188 | frames with any other UDP length than 56 leave byte-identical |
| LateStamp.CompensationAdds | main/eth_service.c:477-524 | the transmit compensation is a constant added to the 32.32 time modulo 2^64 |
| RxQueue.RxTimestampRing.Insert | main/eth_service.c:704-716 | the new ring, sequence and overrun count |
| RxQueue.RxTimestampRing.Take | main/eth_service.c:1295-1317 | the oldest match removed and its time returned, or a miss |
| RxQueue.TakeIs | main/eth_service.c:1295-1317 | from any queue: the first in line of the client's live entries is freed and handed over, and without one the take is a miss |
| RxQueue.RunKeepsInvariant | main/eth_service.c:704-716 | the ring invariant over every run of fewer than 2^32-1 inserts |
| RxQueue.DeliveriesAreFaithful | main/eth_service.c:704-1317 | over every such run: inserts = deliveries + overruns + live entries, slots follow sequence numbers, nothing is delivered twice or to another client, and each client's deliveries are in order |
| RxQueue.TakeServesItsClient | main/eth_service.c:1295-1317 | a take returns its client's oldest live entry and misses only when there is none |
| RxQueue.RunIsBalanced | main/eth_service.c:704-1317 | per client and sequence number, after every run: insertions below it = deliveries + live entries + entries overwritten while live |
| RxQueue.DeliveryRank | main/eth_service.c:704-1317 | over every run, what a take delivers is preceded by as many insertions of the client as it has had deliveries, plus its earlier ones overwritten while live |
| RxQueue.DeliveryIsOwnRequestIff | main/ntp_server.c:589-597 | so a client's j-th delivery is its j-th insertion if and only if none of its insertions before that was overwritten while live |
| PtpMap.SplitIsExact | main/eth_service.c:1382-1390 | the quotient and remainder form equals the rounded product, for every age and divisor |
| PtpMap.SplitAgeIff | main/eth_service.c:1374-1390 | for every age and every positive 64-bit divisor, the 64-bit computation is right if and only if both the true quotient and the remainder term fit in 64 bits |
| PtpMap.SaneRatesFit | main/eth_service.c:1374-1390 | for rates within 5e8 ppb and ages between two hardware times both fit |
| PtpMap.SplitAgeOverflows | main/eth_service.c:1374-1390 | a rate and age for each of the two ways the computation fails |
| PtpMap.RoundedIsNearest | main/eth_service.c:1382-1390 | the rounded age is within half a divisor of the scaled age |
| PtpMap.FractionRoundTrip | main/eth_service.c:1399-1411 | nanoseconds to fraction never reaches 2^32, and converting back is the identity |
| PtpMap.FractionIsNearest | main/eth_service.c:746-1411 | both conversions between fractions and nanoseconds round to the nearest, halves up |
| PtpMap.NtpToNsMonotone | main/eth_service.c:746-752 | the conversion respects the order of (seconds, fraction) |
| PtpMap.MapReceiveIsExactIff | main/eth_service.c:1336-1414 | at every rate the code lets through, a mapped time is exactly the bracket's midpoint less the rounded scaled age if and only if the split computation fits |
| PtpMap.MappedNearTruth | main/eth_service.c:1336-1414 | wherever it fits, for any true scale of the hardware clock and any true time of the reading inside the bracket, the mapped time is off the true time of the event by at most half the bracket, one nanosecond, and the age times the relative error of the estimated scale |
| PtpMap.EventNowMapsToNow | main/eth_service.c:1336-1414 | an event at the instant of the reading maps to the clock reading itself, at every rate |
| PtpMap.MapReceiveIff | main/eth_service.c:1336-1414 | nothing implausible is mapped, and wherever the split computation fits an event is mapped if and only if it is plausible - readings and event in order, bracket, correlation and rate within their limits - and its exact time has 32-bit seconds; the bracket and age it comes with |
| PtpRate.RateEstimator.Sample | main/eth_service.c:760-820 | one sample: the whole new state, or no change without a reading or with a clock gone backwards |
| PtpRate.EstimateIff | main/eth_service.c:799-812 | for every offset change and elapsed time the estimate is the true quotient if and only if the change is at most 9 223 372 036 ns |
| PtpRate.BackwardEstimateIff | main/eth_service.c:799-812 | the same condition when the clock has gone back behind the first sample |
| PtpRate.SteadyDriftIff | main/eth_service.c:799-812 | a clock off by a steady rate is measured right after k seconds if and only if it is off by no more than that by then |
| PtpRate.EstimateNearTruth | main/eth_service.c:799-812 | up to that change the estimated scale is off the true one by at most 1 ppb and the samples' own errors over the time between them |
| PtpRate.RunMeasuresFromFirst | main/eth_service.c:760-820 | after every run the state compares the last counting sample with the first, which is never replaced |
| PtpRate.RunEstimatesIff | main/eth_service.c:760-820 | so after every run the rate is the true quotient if and only if the offset has changed by at most 9.2 s since the first sample |
| PtpRate.DriftWrapsTheEstimate | main/eth_service.c:799-812 | a run in which a hardware clock 20 ppm fast is measured as 20 ppm slow |
| PtpRate.OverflowingRatesOccur | main/eth_service.c:799-1390 | two runs whose estimates make the mapping of a receive time overflow, one in each way |
| RxPath.GetRxTimestamp | main/eth_service.c:1278-1422 | the whole receive call: take from the ring, then every check and step of the mapping |
| RxPath.FetchedIff | main/eth_service.c:1278-1422 | after every run a client gets no time without a live entry or readings, and for its oldest live entry, used up either way, one if and only if that event can be mapped |
| RxPath.FetchedIsOwnReceiveTime | main/eth_service.c:704-1422 | after every run of inserts and takes, a fetched time is the UTC of a receive timestamp that this client inserted, delivered to nobody before and later than all delivered to it; exactly so if and only if the split computation fits |
| RateLimit.RateLimiter.RefillClient | main/ntp_rate_limit.c:25-62 | tokens and refill time after a refill |
| RateLimit.RateLimiter.FindOrAllocate | main/ntp_rate_limit.c:64-98 | the client's slot, a free one or the least recently seen, and only that slot changes |
| RateLimit.RateLimiter.Allow | main/ntp_rate_limit.c:105-131 | the decision and the whole table afterwards |
| RateLimit.AllowedKeepsSane | main/ntp_rate_limit.c:25-131 | used slots stay a prefix with distinct addresses, tokens at most 8, times ordered |
| RateLimit.RunStaysSane | main/ntp_rate_limit.c:25-131 | the same over every run |
| RateLimit.EvictsLeastRecentlySeen | main/ntp_rate_limit.c:64-98 | a newcomer to a full table replaces an entry seen no later than any other and touches no other |
| RateLimit.OthersDoNotTouch | main/ntp_rate_limit.c:64-131 | another client's request leaves a resident entry alone or replaces it |
| RateLimit.GrantsSinceAllocation | main/ntp_rate_limit.c:25-131 | at most 8 + floor(elapsed / 2 s) grants since allocation while resident |
| RateLimit.GrantsInWindow | main/ntp_rate_limit.c:25-131 | at most 8 + ceil(window / 2 s) grants in any window while resident |
| RateLimit.RefusalIsEarned | main/ntp_rate_limit.c:25-131 | whenever a resident client is refused, its bucket was full at an earlier call of its own, and since then it has been granted eight requests and one for every four seconds but the last two |
| RateLimit.SlowCallersAreGranted | main/ntp_rate_limit.c:25-131 | a resident seen at least 2 s ago, or a newcomer, is granted |
| RateLimit.PoliteClientsAreNeverRefused | main/ntp_rate_limit.c:25-131 | in every run, a client's calls at least 2 s apart are granted, evicted meanwhile or not |
| RateLimit.StaysWhileFewCall | main/ntp_rate_limit.c:64-131 | the eviction guarantee over every run: a client stays resident after its call while at most 32 clients, itself included, have called since, counting those of the same instant |
| RateLimit.ResidentIffFewCall | main/ntp_rate_limit.c:64-131 | where nobody else called at the instant of its last call, a client is resident if and only if at most 32 clients, itself included, have called from that call on |
| RateLimit.GrantsWhileFewCall | main/ntp_rate_limit.c:25-131 | the bucket bound from the calls alone: a client between whose calls at most 32 clients call gets at most 8 + ceil(elapsed / 2 s) grants from any of its calls on, in every run |
| RateLimit.ZeroClockGrantsAll | main/ntp_rate_limit.c:25-131 | in every run, all calls made at a clock of zero are granted |
| RateLimit.ZeroInstantBoundIff | main/ntp_rate_limit.c:25-131 | so at that instant the burst bounds a client if and only if it makes no more calls than that |
| RateLimit.GrantsAcrossZero | main/ntp_rate_limit.c:25-131 | a run from zero on exceeds the window bound by exactly those calls at most |
| CredentialStore.Flash.MigrateLegacy | main/acme_client.c:1572-1609 | the flash writes made before the power goes, and the result |
| CredentialStore.Flash.RetireLegacy | main/acme_client.c:1611-1689 | exactly the specified erasures, as far as the power lasts, and the result |
| CredentialStore.Flash.ResolveSlot | main/acme_client.c:1691-1709 | migration, then the selected slot or the other one if only that validates |
| CredentialStore.Flash.StoreMaterial | main/acme_client.c:1711-1757 | exactly the specified flash writes, as far as the power lasts; the error of every failure, and OK only after the selector write |
| CredentialStore.MigrateIsSafe | main/acme_client.c:1572-1609 | cut anywhere, migration keeps "the selected slot validates" and the effective credential |
| CredentialStore.RetireIsSafe | main/acme_client.c:1611-1689 | cut anywhere, retiring legacy keys does too |
| CredentialStore.CommitIsAtomic | main/acme_client.c:1711-1757 | old credential until the selector write, new one after it |
| CredentialStore.StoreIsSafe | main/acme_client.c:1711-1757 | the same for a whole store, its migration and resolution included |
| CredentialStore.CutIsSafe | main/acme_client.c:1572-1757 | any operation cut anywhere keeps the invariant, and changes the effective credential only by completing a store of a valid one |
| CredentialStore.HistoryIsSafe | main/acme_client.c:1572-1757 | over every history of boots, operations and cuts the effective credential is the last one stored |
| CredentialStore.OldCredentialSurvivesIff | main/acme_client.c:1691-1757 | the old credential survives every earlier cut if and only if the selected slot validated to begin with |
| CredentialStore.FallbackExposesNew | main/acme_client.c:1691-1757 | in the fallback state the new credential is effective before the selector write |
| CredentialStore.LoadsIff | main/acme_client.c:1572-1757 | a place loads if and only if its three keys are there with legal sizes, and yields just them |
| CredentialStore.StoreSucceedsIff | main/acme_client.c:1711-1757 | a store succeeds if and only if the credential is valid, its sizes fit and something can be resolved; an invalid one leaves the flash as it was |
| CredentialStore.RetiresIff | main/acme_client.c:1611-1689 | legacy material is erased - all of it and nothing else - if and only if both slots are valid and the selected one is a copy of it |
| CredentialStore.MaintenanceAnswers | main/acme_client.c:1572-1689 | when migration and retiring report success |
| CredentialStore.StoreRefusedIff | main/acme_client.c:1691-1757 | a valid credential of storable size is refused if and only if nothing resolves for another reason than missing material: no selector with unreadable or invalid legacy material, a selector above 1, or neither slot valid |
| CredentialStore.RefusedForGoodIff | main/acme_client.c:1572-1757 | after every history of operations and cuts such a credential is refused if and only if the flash was in that state at the start, and then nothing has been written |
| Cooldown.Scheduler.Persist | main/web_console.c:458-477 | the record written exactly when the write succeeds |
| Cooldown.Scheduler.Start | main/web_console.c:479-502 | boot: attempt state and the interrupted flag from the record, or nothing loaded |
| Cooldown.Scheduler.EvaluateNow | main/web_console.c:1131-1133 | an evaluation between executions, which starts nothing |
| Cooldown.Scheduler.ExecuteIfReady | main/web_console.c:840-891 | gate, deadline persisted before the transaction, transaction, finish, with a cut at any point |
| Cooldown.NextKeepsGuard | main/web_console.c:840-891 | one event keeps "the deadline in force is six hours past the last start" |
| Cooldown.StartsAreSpaced | main/web_console.c:840-891 | in every run of boots, evaluations and cut executions, transactions start at least 21600 s apart, whatever the clock does |
| Cooldown.StartsIff | main/web_console.c:840-891 | from a loaded, idle scheduler evaluations and an execution start a transaction if and only if the last evaluation found it eligible with the cooldown over or no clock, and the execution has a clock past the deadline, its record written and power |
| Cooldown.BootLoads | main/web_console.c:479-502 | what a boot loads, and that nothing starts before the next evaluation |
| Cooldown.UnwrittenIsNotStarted | main/web_console.c:840-891 | a record that cannot be written: nothing starts, and memory waits six hours and for another evaluation all the same |
| Cooldown.BootedStartsIff | main/web_console.c:479-891 | over every run from an empty flash: boot, evaluations and execution start one if and only if the record could be read, the last evaluation allows it and the execution comes six hours after the recorded attempt with a clock, a write and power |
| Cooldown.StartIsRecorded | main/web_console.c:840-891 | what a start leaves in memory and flash |
| Cooldown.HandoffStore.Write | main/web_console.c:596-606 | the record replaced exactly when the write succeeds |
| Cooldown.HandoffStore.LoadAndReconcile | main/web_console.c:631-650 | an interrupted handoff is marked recovered and its deadline only raised |
| Cooldown.HandoffStore.BeginHandoff | main/web_console.c:652-670 | refusals, or the record with its deadline persisted |
| Cooldown.HandoffStore.FinishHandoff | main/web_console.c:672-686 | deadline cleared on success, set from the clock on failure |
| Cooldown.DeadlineKeptIff | main/web_console.c:631-686 | over every run of begins, finishes, reboots and failed writes, the deadline protects the last open handoff if and only if the last written failure since its begin did not read an earlier clock |
| Cooldown.NextBeginSpacedIff | main/web_console.c:631-686 | under the same condition and only then, every begin that would be let through next is at least 21600 s past the last open one |
| Cooldown.BeginsAreSpaced | main/web_console.c:631-686 | so handoffs begun with no successful finish between them are at least 21600 s apart in every run that keeps it wherever a handoff begins |
| Cooldown.HandoffCycle | main/web_console.c:631-686 | when the next handoff can begin after a success, a failure with or without a clock, and a restart |
| Cooldown.HandoffRecords | main/web_console.c:596-686 | what finishing and restarting leave of any record, and that a failed write leaves it as it was |
| Cooldown.BeginRefusals | main/web_console.c:652-670 | the error of every begin that is refused |
| Cooldown.ClockStepDefeatsCooldown | main/web_console.c:652-686 | a run in which two begins are one second apart |
| UbxStream.Receiver.Reset | main/gnss_service.c:374-378 | the parser back at its start |
| UbxStream.Receiver.ChecksumAdd | main/gnss_service.c:380-385 | one step of the running checksum |
| UbxStream.Receiver.Consume | main/gnss_service.c:739-835 | one byte through the parser, buffers in range, events as specified |
| UbxStream.Receiver.ProcessReceivedByte | main/gnss_service.c:890-933 | one byte through the demultiplexer, line buffer in range |
| UbxStream.WriteFrame | main/gnss_service.c:837-888 | sync, header, payload and the checksum of header and payload |
| UbxStream.CkIsFletcher | main/gnss_service.c:380-385 | the running pair is the sum and the position-weighted sum of the bytes modulo 256 |
| UbxStream.OneByteErrorIsDetected | main/gnss_service.c:380-385 | changing any one byte changes the checksum |
| UbxStream.FrameIsDispatched | main/gnss_service.c:739-888 | a written frame is dispatched as the message it was written from |
| UbxStream.SentenceIsDispatched | main/gnss_service.c:890-933 | a sentence is dispatched without its line end |
| UbxStream.StreamRoundTrip | main/gnss_service.c:739-933 | any sequence of written frames, sentences and idle bytes is read back exactly, in order, ending idle |
| UbxStream.RunStaysFaithful | main/gnss_service.c:739-835 | on arbitrary bytes the parser state always agrees with the input it has seen |
| UbxStream.FramesAreInputSlices | main/gnss_service.c:739-835 | on arbitrary bytes every dispatched frame is the input slice that has just ended, of legal length and right checksum |
| UbxStream.LinesAreInputSlices | main/gnss_service.c:890-933 | every dispatched line is the input from a dollar sign to the line feed, carriage returns dropped |
| UbxResync.Resynchronises | main/gnss_service.c:739-933 | after arbitrary input and 519 bytes without a first sync byte, every frame and sentence written from then on is read back exactly, in order, ending idle |
| UbxResync.FrameReadIff | main/gnss_service.c:739-835 | after arbitrary input a written frame is dispatched by its last byte if and only if the parser was waiting for the first or the second sync byte |
| UbxResync.ResyncGapIff | main/gnss_service.c:739-835 | a gap guarantees that the next frame is read, whatever came before, if and only if it has at least 519 bytes |
| UbxResync.LossMayNeverEnd | main/gnss_service.c:739-835 | a frame such that a receiver joining in the middle of a stream of it never reads one, for any length of the stream |
| Calendar.EraIsFloor | main/gnss_service.c:169-180 | the corrected truncating division is floor division, for negative years too |
| Calendar.NextDayIsNextNumber | main/gnss_service.c:169-180 | 1970-01-01 is day 0 and every Gregorian date's successor is one day further |
| Calendar.DaysCountFromEpoch | main/gnss_service.c:169-180 | the n-th date after the epoch has day number n |
| Calendar.DateIsItsCount | main/gnss_service.c:169-180 | every date from the epoch on is the one reached by counting out its day number |
| Calendar.DaysOrderDates | main/gnss_service.c:169-180 | day numbers order valid dates and tell them apart, in every year |
| Calendar.SecondsOrderTime | main/gnss_service.c:182-217 | epoch seconds are strictly increasing on valid date-times without a leap second |
| Calendar.EpochInRange | main/gnss_service.c:182-217 | accepted times lie from 2000 to the end of 2100, day past month end or not |
| Calendar.AcceptedIff | main/gnss_service.c:182-217 | which date-times are accepted, for GNSS time and for certificates |
| Calendar.DayPastMonthEndCarries | main/gnss_service.c:182-217 | a day past the end of the month is the corresponding day of the next month |
| Calendar.EpochsEqualIff | main/gnss_service.c:182-217 | two accepted date-times get one number if and only if they agree after carrying the day and clamping the leap second, and are ordered otherwise |
| Calendar.InvalidDateIsAlias | main/gnss_service.c:182-217 | 30 February 2023 is accepted as 2 March |
| Calendar.CopiesAgreeIff | main/web_console.c:284-292 | the second copy of the transform agrees if and only if the second is not 60, and is one larger then |
| PeerStats.Isqrt | main/ntp_peer_monitor.c:100-115 | the floor square root of every 64-bit value, with no overflow on the way |
| PeerStats.DivRoundIsNearest | main/ntp_peer_monitor.c:117-122 | a nearest integer to the quotient, symmetric in sign |
| PeerStats.SaturatedSquare | main/ntp_peer_monitor.c:270-272 | the guarded square is the true square capped at 2^64-1, for every int64 |
| PeerStats.SaturatedSum | main/ntp_peer_monitor.c:270-279 | adding guarded squares with saturation caps the true sum |
| PeerStats.Total | main/ntp_peer_monitor.c:253-280 | the loop's wrapped sums, saturated square sums and extremes over any window |
| PeerStats.DivRoundIsExact | main/ntp_peer_monitor.c:117-122 | the mean is the rounded quotient of the true sum where the sum and half the count fit in 64 bits |
| PeerStats.FullWindowMeanIff | main/ntp_peer_monitor.c:117-289 | for a full window that is the case if and only if they fit |
| PeerStats.Peer.ComputeRollingStats | main/ntp_peer_monitor.c:248-293 | status describes the window, or is left alone when it is empty |
| PeerStats.Peer.Store | main/ntp_peer_monitor.c:298-316 | the window becomes the last sixteen of the old one and the new sample, oldest first |
| PeerStats.Peer.UpdateSuccess | main/ntp_peer_monitor.c:295-340 | after any number of successes, of any size, the arrays hold the last sixteen samples in order and the statistics describe them |
| PeerStats.MeanBetween | main/ntp_peer_monitor.c:282-289 | min <= mean <= max, rounding included, wherever the sum fits |
| PeerStats.MeanLeavesRange | main/ntp_peer_monitor.c:282-289 | a full window of one sample from 2^59 to 2^60 ns averages below that sample |
| PeerStats.RootMeanSquares | main/ntp_peer_monitor.c:287-292 | RMS and jitter bracket the true root mean squares within one unit when nothing saturates and no step wraps |
| PeerStats.MeanWithinRms | main/ntp_peer_monitor.c:282-292 | the mean is at most the RMS plus one |
| PeerStats.SafeBoundIff | main/ntp_peer_monitor.c:253-289 | no step over a full window's samples overflows if and only if they stay below 2^59 ns |
| PeerOffset.ScaleIsTruncated | main/ntp_peer_monitor.c:84-92 | the split scaling is one truncated division of the full product |
| PeerOffset.ScaleFits | main/ntp_peer_monitor.c:84-92 | no intermediate overflows and the result stays within 2^31 s |
| PeerOffset.HalfSumIsHalf | main/ntp_peer_monitor.c:458-460 | the split halving is within half a unit of the average for all int64 values, without overflow |
| PeerOffset.DeltaAcrossEras | main/ntp_peer_monitor.c:84-87 | the signed difference is the true one within 2^63 units, across eras |
| PeerOffset.DelayIsPathDelay | main/ntp_peer_monitor.c:461-465 | the delay is the path delays' sum within 2 ns and never negative, so an honest response is never refused for it |
| PeerOffset.OffsetErrorIsAsymmetry | main/ntp_peer_monitor.c:458-460 | the offset error is half the path asymmetry within 1.5 ns |
| PeerOffset.OffsetWithinHalfDelay | main/ntp_peer_monitor.c:448-466 | the true offset is within half the measured delay and 2.5 ns of the measured one |
| PeerOffset.HonestResponseIsAccepted | main/ntp_peer_monitor.c:434-466 | a well-formed fresh response is accepted with these numbers |
| PeerOffset.AcceptedIff | main/ntp_peer_monitor.c:390-466 | the conditions on fields and times under which a response is accepted, and what every other one is taken for |
| PeerOffset.AcceptedIsBounded | main/ntp_peer_monitor.c:434-466 | any accepted response answers this request, has bounded numbers, and is refused when repeated |
| PeerOffset.AcceptedStepsFit | main/ntp_peer_monitor.c:274-279 | the steps between accepted offsets never wrap |
| PeerOffset.AcceptedMayOverflowWindow | main/ntp_peer_monitor.c:253-466 | sixteen answers of a peer 34 years ahead are accepted one after the other, and once their offsets fill the window the mean is negative |
| ClockDiscipline.ClockContext.RejectSample | main/clock_discipline.c:369-386 | counts up and drops the solution at the third rejection in a row |
| ClockDiscipline.ClockContext.SubmitSample | main/clock_discipline.c:481-642 | result and whole new state of every branch, invariant kept |
| ClockDiscipline.ClockContext.Discipline | main/clock_discipline.c:551-642 | frequency, phase, and the far-off and accepting branches |
| ClockDiscipline.ClockContext.EnforceHoldoverPolicy | main/clock_discipline.c:332-367 | new state; whoever still serves is within the holdover limit |
| ClockDiscipline.ClockContext.UpdateReferenceState | main/clock_discipline.c:300-330 | only a clock without a solution changes state |
| ClockDiscipline.StepKeepsInv | main/clock_discipline.c:300-642 | every step keeps anchor = last sample, frequency within 200 ppm, and service only from a valid solution |
| ClockDiscipline.AcceptedIff | main/clock_discipline.c:481-642 | a sample is accepted if and only if it has its times, its quantization error is at most 50 us, and it is the first of a solution or later than the last with a phase of at most 250 ms |
| ClockDiscipline.RefusalIs | main/clock_discipline.c:369-603 | the answer to every other sample and what it leaves: nothing, a rejection, or a rejection from a clock anchored at it |
| ClockDiscipline.AcceptanceIs | main/clock_discipline.c:481-642 | what an accepted sample leaves: anchor, reference, leap indicator, counts, frequency, phase and state |
| ClockDiscipline.HoldoverIs | main/clock_discipline.c:332-367 | the policy in microseconds: holdover after a whole second, fail-closed after more whole seconds than the limit |
| ClockDiscipline.WaitingShows | main/clock_discipline.c:300-367 | without a solution no time is served, and the state shows whether receiver and pulse could give one |
| ClockDiscipline.ReachableIsSound | main/clock_discipline.c:300-642 | so does every run from start-up |
| ClockDiscipline.AcceptedCountsUp | main/clock_discipline.c:481-642 | from no solution, serving needs as many accepted samples as the lock setting |
| ClockDiscipline.FailedClosedStaysClosed | main/clock_discipline.c:332-367 | past the holdover limit no time is served, in any run, before a full new lock |
| ClockSamples.SteadySampleIsAccepted | main/clock_discipline.c:545-642 | a sample within ten minutes of the last, at a rate within the limit, is accepted and takes one filter step |
| ClockSamples.FrequencyConverges | main/clock_discipline.c:545-642 | in every run of such samples at one rate all are accepted, and the frequency error after n is (7/8)^n of the first |
| ClockSamples.TargetCorrects | main/clock_discipline.c:545-570 | the target frequency, applied to the interval it was measured on, gives its UTC length back up to the square of the rate error |
| ClockSamples.ComparedBounds | main/clock_discipline.c:565-596 | the step from served time to a sample against its miss at the filtered rate: within 400 ppm of the interval, and at most eight sevenths of it plus the second-order term |
| ClockSamples.AcceptedStepBound | main/clock_discipline.c:545-642 | an accepted sample becomes the served time at its instant and steps it by at most 0.25005 s + 400 ppm of the interval, and at most 8/7 of 0.25005 s plus the second-order term of the measured rate |
| ClockSamples.AcceptedStepMayExceedLimit | main/clock_discipline.c:545-642 | a run from start-up after which an accepted sample steps served time by 0.28 s |
| ClockSamples.RefusedMovesTimeIff | main/clock_discipline.c:369-603 | a refused sample leaves a serving clock serving if and only if it is not the third in a row, and then moves served time if and only if it is later than the last in both times and within the quantization limit |
| ClockSamples.FarOffJump | main/clock_discipline.c:584-603 | such a refused sample becomes the anchor, a jump of at least 0.2499 s less 400 ppm of the interval |
| ClockSamples.RefusedSampleMayMoveADay | main/clock_discipline.c:584-603 | a run from start-up after which a refused sample moves served time by a day while service continues |
| ClockSamples.TicksReach | main/clock_discipline.c:481-642 | on-time samples from start-up lead to a clock at nominal frequency and zero phase, locked once there are enough |
| ClockDiscipline.ThreeRejectionsEndSolution | main/clock_discipline.c:369-386 | three refused samples in a row end the solution, for whatever mix of reasons |
| ClockDispersion.StampRoundsDown | main/clock_discipline.c:668-690 | the stamp is the time rounded down to 2^-32 s |
| ClockDispersion.ServedTimeIsMonotone | main/clock_discipline.c:644-695 | between samples served time never goes back |
| ClockDispersion.DispersionIsBudget | main/clock_discipline.c:117-140 | the 16.16 value is base + phase + wander to within its last unit, and one second from the cap on |
| ClockDispersion.BudgetCoversPhase | main/clock_discipline.c:106-695 | below the cap the dispersion also covers an anchor off by the last phase error and 64 us more |
| ClockDispersion.DispersionCoversError | main/clock_discipline.c:106-695 | with anchor error up to 64 us and 20 ppm of residual rate error, served time is within the advertised dispersion of true UTC throughout permitted holdover, for limits up to 49 995 s |
| ClockDispersion.OutgrowingReaches | main/clock_discipline.c:300-642 | the run from start-up that locks and then goes into a holdover of just under 49 997 s |
| ClockDispersion.CapIsOutgrown | main/clock_discipline.c:132-134 | for every buildable setting with a larger limit, that run ends in a permitted moment at which the dispersion does not cover the error |
| ClockDispersion.SafeIff | main/clock_discipline.c:106-695 | over all runs from start-up, for every buildable setting, the advertised dispersion is an error bound if and only if the holdover limit is at most 49 995 s |

## Left out

- AES, CMAC and the keystream are uninterpreted, so nothing is claimed about secrecy or forgery; random bytes are arguments.
- Failures of the crypto library, of allocation and of mutexes: the model's calls always get them.
- Logging, statistics counters that decide nothing, dashboards, HTTP, sockets, DNS, ACME network flows and JSON.
- Hardware access: timers, PPS capture, UART, Ethernet and PHY drivers. The readings of the hardware clock are arguments, and `RxPath` takes any correlation.
- NTP rollover in 2036 within the 32-bit clock of cookies, key ring and served time, and wrap of 32-bit sequence numbers and counters: preconditions where they matter.
- Rounding of IEEE doubles, and the range of llround, in the clock discipline: reals and unbounded integers.
- Second read errors of the key-ring load, and storage errors other than a missing key in the credential store and scheduler records.
- Hostname syntax and empty-PEM checks of a credential store are part of the abstract judgement of a credential.
- The certificate store for non-production material, and the re-validation of the effective slot while legacy keys are retired.
- The parsing of NTS-KE records, health rules, configuration, packet assembly in ntp_packet.c and peer health classification: they would add only easy members.
- The polling order of peers and its timeouts.
- PeerStats.Total: signed sums and differences wrap in two's complement here; in the source's language their overflow is undefined.
- PtpMap.MapReceiveIsExactIff: assumes that 10^9 plus the rate is itself a 64-bit integer, for the same reason.
- ClockDispersion.ServedTimeIsMonotone: speaks of one state of the clock; how far an accepted sample steps time, and when a refused one does, is stated by AcceptedStepBound and RefusedMovesTimeIff.
- ClockDispersion.SafeIff: takes the lock and holdover settings from the ranges the build accepts.
- UbxStream.StreamRoundTrip: sentences are up to 159 bytes with no sync byte in them, as longer ones are dropped by the source.
