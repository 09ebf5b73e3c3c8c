# Verification of the UnCrackable L5 backend

A Dafny model of the server of this repository, with proofs. The server hands out challenges, judges
Android key attestations that answer them, and grants each challenge at most once. Run
`dafny verify dfyconfig.toml` to check everything.

The model follows three parts of `server/src`.

**The single-use protocol** (`worker.ts`, `state.ts`, `challenges.ts`, `revocations.ts`). `State.dfy` has
the Durable Object as a class and as functions on its rows and cache; `Protocol.dfy` runs any number of
requests, refreshes, alarms and restarts against it, interleaved at every await, with a clock that may step
back by at most `skew` seconds. A run is any sequence of actions. `ProtocolSafety.dfy` proves what every
run keeps, `ProtocolGrants.dfy` what the readings of a granted request say, `ProtocolAnswers.dfy` what each
request is answered, and `ProtocolLimits.dfy` what is possible, and how tight the bounds are. The attestation is
an abstract function there; `Verifier.dfy` is what the server puts in its place, and `EndToEnd.dfy` joins the two.

**The strict readers** (`der.ts`, `base64.ts`, `x509.ts`, `keydescription.ts`), with the writers of
`test/corpus` as printers. `Der.dfy`, `DerWriter.dfy`, `Integers.dfy`, `Ecdsa.dfy`, `Oid.dfy`,
`Calendar.dfy`, `Base64.dfy`, `Names.dfy`, `Identifiers.dfy`, `KeyDescription.dfy` and
`KeyDescriptionWriter.dfy` prove the readers and the writers inverse to each other, accepted encodings unique,
and say octet by octet what is accepted.

**The verdict** (`path.ts`, `verifier.ts`). `Path.dfy` proves the walk along the chain equal to a
declarative description of valid paths; `Verifier.dfy` and `Patches.dfy` do the same for the verdict, as the
first failing control of a fixed list. `Requirements.dfy` states the verdict once more as one decision over the
fields of a request, without the program's controls, constraints and steps, and proves it the same.
`Accepted.dfy` builds chains, with written names and attestation extensions, that reach tier 2, and one that
does not.

Loops and objects that the program updates in place are methods and a class here, each proved against a
function or a predicate about which the theorems are stated. `Radix.dfy`, `Text.dfy`, `ByteStrings.dfy` and
`Common.dfy` hold what several parts share.

## What the proofs show about the code

- The single-use guarantee tolerates a clock that steps back by 61 seconds, one more than the pruning margin
  of 60 (a row is deleted only when it expired more than 60 seconds ago), and no more. At 62 seconds
  whatever can be granted at all can be granted twice (`ProtocolLimits.SingleUseExactlyWithin61Seconds`, for
  every server; `EndToEnd.SixtyOneIsExactForTheVerifier` has the verifier in place).
- The comment on `consume` (server/src/state.ts:52) promises "true exactly once" without a limit. It returns
  true again for an id when a call in between reads more than 60 seconds past its expiry, and only then
  (`ReplayRuns.ConsumedTwice`, `ConsumedAgainExactlyWhenLate`).
- The comment on `allowRequest` (server/src/state.ts:42) promises at most 60 requests per wall-clock minute.
  More are granted exactly when a minute has more than 60 calls and a call that is more than two minutes later
  comes between them (`BudgetRuns.BudgetIsExactUnlessSplit`).
- `server/README.md:96-97` says that a critical attestation extension on the leaf counts as missing. The code
  reports it missing only when the leaf stands at the target step. The leaf of a chain that is one or two
  certificates shorter never reaches that step, and its extension is parsed and used. A remotely provisioned
  chain of four with a critical extension is accepted with tier 2 (`AcceptedRequests.RequestIsAccepted`). A
  chain of three passes the path rules and the default constraints, but not the server's constraint on the
  certified level, because the certificate that should name the level is then the one below the root. Tier 2
  means four certificates with a critical extension and five with a non-critical one
  (`Verdicts.TierTwoIsRemotelyProvisionedHardware`).
- A refresh counts freshness from a reading taken before the download. When the clock steps back during the
  download, a response that forbids storing can be committed, with an expiry at its start, and shown to a
  query with an earlier reading. Some run commits one if and only if the clock can step back at all
  (`ProtocolStoring`). A feed shown to a query that does not read earlier than the refresh started is within
  the limits of the origin (`ProtocolSnapshots.FreshIsWithinLimits`).
- The test writer of identifiers puts the first two arcs into one octet, which is right only below 128
  (`OidWriter.WriterIsExactBelow128`): of the identifiers under the root 2 it writes those with a second arc up to 47.
- `utc` accepts second 60 as the first second of the next minute, except at 23:59, and reads GeneralizedTime
  years 0 to 99 as 1900 to 1999 (`Calendar.UtcAcceptsExactlyExistingTimes`, `UtcOrdersLikeShownFields`).

## Model

| member | source | states |
|---|---|---|
| DerBijection.ReadsWhatWasWritten | server/src/verifier/der.ts:52-95 | At any offset of any buffer, reading gives back the class, form, tag below 2^28 and content below 2^32 octets that the writer put there, and the offset right after |
| DerBijection.AcceptedIsWritten | server/src/verifier/der.ts:52-95 | Whatever is accepted at an offset is, octet for octet, the writer's encoding of the result: encodings are unique |
| DerBijection.AcceptsExactlyEncodings | server/src/verifier/der.ts:52-95 | An element is accepted at an offset if and only if some encoding stands there |
| DerBijection.EncodingsArePrefixFree | server/src/verifier/der.ts:52-95 | No encoding is a proper prefix of another (X.690 section 10.1) |
| DerBijection.ChildrenAreTheUniqueSplit | server/src/verifier/der.ts:105-115 | Content splits into children if and only if their encodings concatenate to it; the split is unique |
| DerBijection.ElementsConcatenate | server/src/verifier/der.ts:105-115 | The encodings of the children concatenate back to the content |
| Der.ReadTlv | server/src/verifier/der.ts:52-95 | The reader computes exactly the specified element and next offset, with the same errors |
| Der.ReadTag | server/src/verifier/der.ts:56-72 | The loop over tag octets, with its minimality and size limits |
| Der.ReadLength | server/src/verifier/der.ts:73-85 | Short and long lengths, with every rejected form |
| Der.Children | server/src/verifier/der.ts:105-115 | The loop over content yields exactly the elements of the recursive reading, or its error |
| DerWriter.EncodeTag | server/test/corpus/der-writer.ts:27-39 | The shift loop writes the base-128 identifier octets |
| DerWriter.EncodeLength | server/test/corpus/der-writer.ts:16-25 | The division loop writes the shortest length octets |
| DerWriter.Headers | server/src/verifier/der.ts:31-49 | The header octets of every type, of context tags in both forms and of lengths in both forms |
| Integers.IntegerValue | server/src/verifier/der.ts:143-153 | The accumulate-then-subtract loop reads two's complement, and rejects empty and non-minimal content |
| Integers.SignedIsUnsignedMinusPower | server/src/verifier/der.ts:149-152 | Two's complement is the unsigned value less 2^(8n) when the sign bit is set |
| Integers.IntegerContent | server/test/corpus/der-writer.ts:58-75 | The two do-while loops write the minimal two's complement octets of any integer |
| Integers.SignedOfOctets | server/test/corpus/der-writer.ts:58-75 | Writing then reading any integer, negative ones included, gives it back, and the octets are minimal (X.690 section 8.3) |
| Integers.OctetsOfSigned | server/src/verifier/der.ts:134-153 | Reading then writing any minimal octets gives them back |
| Integers.AcceptedIntegerIsWritten | server/src/verifier/der.ts:143-153 | An accepted INTEGER or ENUMERATED is the writer's element for its value, octet for octet |
| Ecdsa.EcdsaDerToRaw | server/src/verifier/x509.ts:377-396 | The conversion to fixed width, filling its array, refuses exactly the malformed, negative and oversized signatures |
| Ecdsa.RawRoundTrip | server/src/verifier/x509.ts:377-396 | Converting the DER signature of a raw pair gives the raw pair back, for every curve size |
| Ecdsa.AcceptedSignatureIsUnique | server/src/verifier/x509.ts:377-396 | An accepted DER signature is the writer's signature of its own output (RFC 3279 section 2.2.3) |
| Ecdsa.RawDeterminesSignature | server/src/verifier/x509.ts:377-396 | Two accepted DER signatures with the same raw pair are the same |
| Oid.OidValue | server/src/verifier/der.ts:181-206 | The loop reads exactly the subidentifiers and prints them, or gives the specified error |
| Oid.AcceptsExactlySubidentifierLists | server/src/verifier/der.ts:181-206 | Content is accepted if and only if it is the encoding of a nonempty list of subidentifiers (X.690 section 8.19) |
| Oid.OidInjective | server/src/verifier/der.ts:181-206 | Different accepted contents have different dotted strings |
| Oid.NoEqualsSign | server/src/verifier/der.ts:181-206 | A dotted string holds no "=" |
| OidWriter.ArcsRead | server/src/verifier/der.ts:181-206 | Any identifier, with its first two arcs in one subidentifier, is read as the decimals of its arcs with points between |
| OidWriter.ReadsExactlyIdentifiers | server/src/verifier/der.ts:181-206 | Content is accepted, with a text, if and only if it is the content of an identifier whose arcs make that text |
| OidWriter.WriteOid | server/test/corpus/der-writer.ts:79-92 | The writer's loops put the first two arcs into one octet and then the base-128 octets of each arc |
| OidWriter.WriterIsExactBelow128 | server/test/corpus/der-writer.ts:81 | They write an identifier correctly if and only if its first subidentifier is below 128 |
| Identifiers.KeyAttestation | server/src/verifier/x509.ts:16 | The identifier compared with is that of the arcs 1 3 6 1 4 1 11129 2 1 17 |
| Identifiers.EcPublicKey | server/src/verifier/x509.ts:5 | 1 2 840 10045 2 1 |
| Identifiers.P256 | server/src/verifier/x509.ts:7 | 1 2 840 10045 3 1 7 |
| Identifiers.EcdsaWithSha256 | server/src/verifier/x509.ts:10 | 1 2 840 10045 4 3 2 |
| Identifiers.AttributeTypes | server/src/verifier/x509.ts:19-21 | 2 5 4 3, 2 5 4 10 and 2 5 4 5 |
| Identifiers.NormalisedTypes | server/src/verifier/x509.ts:97-104 | Of all identifiers exactly seven of X.520, user id and domain component are compared in canonical form |
| Calendar.UtcAcceptsExactlyExistingTimes | server/src/verifier/der.ts:228-234 | Accepted exactly when the day is in the Gregorian calendar and the time is of that day, for every year and second that the syntax allows, and the value is the number of milliseconds |
| Calendar.UtcOrdersLikeShownFields | server/src/verifier/der.ts:228-234 | Time values of accepted times order exactly like (year, month, day, hour, minute, second), and are equal exactly when these are, with years 0 to 99 read as 1900 to 1999 and second 60 carried into the next minute |
| Calendar.DateExists | server/src/verifier/der.ts:230-231 | Every day number has a date of the calendar |
| Calendar.DateIsUnique | server/src/verifier/der.ts:230-231 | and only one |
| CertificateTime.UtcTimeRoundTrip | server/src/verifier/der.ts:209-218 | From 1950 to 2049, reading what utcTime wrote gives the time floored to the second (RFC 5280 section 4.1.2.5) |
| CertificateTime.GeneralizedTimeRoundTrip | server/src/verifier/der.ts:219-224 | The same for generalizedTime and the years 1000 to 9999 |
| CertificateTime.UtcTimeIsSpelled | server/src/verifier/der.ts:209-218 | A UTCTime has a value if and only if its octets spell YYMMDDhhmmssZ of a time that exists, and that value |
| CertificateTime.GeneralizedTimeIsSpelled | server/src/verifier/der.ts:219-224 | A GeneralizedTime has a value if and only if its octets spell YYYYMMDDhhmmss of a time that exists, with none or one to three decimals and Z; the decimals are added as milliseconds |
| Base64.Table | server/src/verifier/base64.ts:9-13 | The filled table maps every code to its last index in the alphabet, -1 for the others |
| Base64.Decode | server/src/verifier/base64.ts:18-49 | Although the accumulator overflows 32 bits, the result is the unbounded bit-string decoding and fills the output exactly, with every error |
| Base64.DecodeText | server/src/verifier/base64.ts:34-48 | The accumulator loop, on 32-bit integers, over the characters that carry data |
| Base64.OctetsAreTheBitString | server/src/verifier/base64.ts:34-48 | The decoded octets, as one number, are the sextets as one number without the unused low bits |
| Base64.DecodesExactlyPadded | server/src/verifier/base64.ts:18-49 | A string is decoded if and only if it is characters of the alphabet, not one past a group of four, with no padding or the complete one |
| Base64.Encode | server/src/verifier/base64.ts:57-71 | The loop writes the sextets of the octets in order, with the padding asked for |
| Base64.DecodeOfEncode | server/src/verifier/base64.ts:18-71 | Decoding inverts encoding for both alphabets, padded or not (RFC 4648 sections 4 and 5) |
| Base64.SeventySixCharacters | server/src/verifier/base64.ts:18-71 | A string of 76 characters that decodes to 57 octets is their encoding, so that the comparison with the encoding rejects no such token |
| Base64.AlphabetsAreGood | server/src/verifier/base64.ts:52-55 | The alphabets are those of RFC 4648, each character in its place |
| ByteStrings.Hex | server/src/verifier/der.ts:236-240 | The loop writes two lowercase digits for each octet |
| ByteStrings.HexInjective | server/src/verifier/der.ts:236-240 | Different octet strings have different hexadecimal text |
| ByteStrings.DigitsAre | server/src/verifier/der.ts:236-240 | The digits are 0 to 9 and a to f in order, the higher four bits first |
| ByteStrings.BytesEqual | server/src/verifier/der.ts:242-247 | The accumulating comparison is equality |
| Challenges.Issue | server/src/challenges.ts:21-31 | Filling the two buffers in place yields the token of version, time, nonce and tag |
| Challenges.SetUint64 | server/src/challenges.ts:24 | Writes the eight octets big end first and nothing else |
| Challenges.Verify | server/src/challenges.ts:33-48 | The bytes of a token or the code of a rejection, as specified |
| Challenges.AcceptsExactlyLiveTokens | server/src/challenges.ts:33-48 | Accepted at a time exactly when the token encodes an authentic challenge issued no later than then and less than 120 seconds before |
| Challenges.TokensAndBytesAreOneToOne | server/src/challenges.ts:34-41 | Accepted tokens and challenge bytes determine each other |
| Challenges.IssuedTokenLivesTwoMinutes | server/src/challenges.ts:21-52 | An issued token is accepted, with its own bytes, exactly during its 120 seconds |
| Challenges.ChecksExactly | server/src/challenges.ts:33-48 | A check accepts exactly the live tokens; an authentic token that is not live has expired, every other string is invalid |
| Challenges.Layout | server/src/challenges.ts:21-31 | Version, big-endian time, nonce and tag stand at 0, 1, 9 and 41 of an issued challenge |
| Revocations.ParseFeed | server/src/revocations.ts:21-40 | The loop collects the normalised serials without duplicates, or refuses the feed at its first bad entry |
| Revocations.FeedIsUsable | server/src/revocations.ts:33-38 | A feed is used if and only if every key has 1 to 128 hexadecimal digits and a status |
| Revocations.NormalisedIsNumeral | server/src/revocations.ts:15-18 | The normalised form of a listed key is the hexadecimal numeral of its value |
| Revocations.RevokedByNumber | server/src/revocations.ts:14-40 | A certificate's serial is in the set if and only if it is not negative and some listed key, in any case and with any leading zeros, has its value |
| Revocations.ParsedIsStorable | server/src/revocations.ts:15-18 | No stored serial is empty or holds a line break |
| Revocations.TtlIsTheTightestLimit | server/src/revocations.ts:46-54 | A snapshot may be used d seconds on exactly when d is below 300 and below max-age minus Age, and the response allows storing |
| State.State.constructor | server/src/state.ts:25-40 | A start or restart keeps the rows and has no cache |
| State.State.AllowRequest | server/src/state.ts:43-50 | The new budget table and the answer, as the budget function gives them |
| State.State.Consume | server/src/state.ts:53-60 | The new replay table and the answer, as the consumption function gives them |
| State.State.CommitRefresh | server/src/state.ts:89-106 | The new row and cache, or no change on any failure |
| State.State.RevocationView | server/src/state.ts:63-72 | The serials shown and the cache that is left |
| BudgetRuns.RowCountsEpoch | server/src/state.ts:43-50 | In every run, the row of a minute counts min(60, calls) of that minute since the last call that was more than two minutes later |
| BudgetRuns.GrantedExactlyWithinEpoch | server/src/state.ts:43-50 | In every run, a call is granted if and only if its minute has had fewer than sixty calls since then |
| BudgetRuns.BudgetIsExactUnlessSplit | server/src/state.ts:42-50 | In every run, a minute is granted min(60, calls made in it) if and only if it has at most sixty calls or no call more than two minutes later stands between two of them |
| BudgetRuns.BudgetIsExact | server/src/state.ts:43-50 | Hence no minute is granted more when no call is more than two minutes behind the largest minute seen |
| BudgetRuns.MarginOfTwoMinutesIsTight | server/src/state.ts:43-50 | With one call three or more minutes later in between, sixty-one requests of one minute are made and all granted |
| ReplayRuns.RowIsThereExactlyWhenKept | server/src/state.ts:53-60 | In every run, an id has a row if and only if some call for it was followed by no valid call that reads more than 60 seconds past its expiry; the row holds that expiry |
| ReplayRuns.ReplayedExactlyWhenKept | server/src/state.ts:53-60 | In every run, a call returns false if and only if some earlier call for its id was followed, up to and including it, by no valid call that reads more than 60 seconds past the expiry; otherwise it returns true |
| ReplayRuns.ConsumedAgainExactlyWhenLate | server/src/state.ts:52-60 | After a first call for an id, another one returns true if and only if some valid call after the first, not later than some call for the id, reads more than 60 seconds past the expiry |
| ReplayRuns.ConsumedTwice | server/src/state.ts:52-60 | The smallest such run: two calls for an id, the second 61 seconds past its expiry, both return true |
| ReplayRuns.PrunedAgreesWithUnpruned | server/src/state.ts:53-60 | Hence the rows of ids that expired at most 60 seconds before the largest reading are those of a table that is never pruned |
| ReplayRuns.LiveCallsAreAnsweredExactly | server/src/state.ts:53-60 | and a call for such an id is answered as that table would answer it |
| ReplayRuns.LiveIdIsConsumedExactlyOnce | server/src/state.ts:52-60 | and exactly one call for it returns true, the first |
| ProtocolSnapshots.StoredRecovers | server/src/state.ts:70 | Splitting the stored text gives back the list that was joined; an empty row is the empty list |
| ProtocolSnapshots.AgreesWhenDigestsDo | server/src/state.ts:63-72 | A cache with the row's digest holds the row's serials, from the invariant and the absence of digest collisions among stored texts |
| ProtocolSnapshots.ViewIsFresh | server/src/state.ts:63-72 | A view shows the serials of one feed that is still fresh for the query, and keeps the invariant |
| ProtocolSnapshots.CommitKeepsSnapshot | server/src/state.ts:89-106 | A commit keeps the invariant whether or not the digest changed; a failure leaves the row alone |
| ProtocolSnapshots.FreshIsWithinLimits | server/src/revocations.ts:42-54 | A feed is fresh for a query if and only if the query reads earlier than the refresh started, or less than 300 seconds later, within max-age less Age, and the response allows storing |
| ProtocolClaims.IdsAreGood | server/src/challenges.ts:54-56 | Challenge ids are always of the form that the replay table takes |
| ProtocolClaims.ConsumeKeepsClaims | server/src/state.ts:53-60 | Inserting a claim, pruning included, keeps: every row belongs to a claim, every claim has its row until a minute after its expiry, second claims come later than that |
| ProtocolClaims.GrantKeepsUnique | server/src/worker.ts:77-79 | A claimed request that passes its last check is the only one granted for its challenge |
| ProtocolRuns.StepKeeps | server/src/worker.ts:35-91 | Every step of every request, refresh, alarm and restart keeps the invariant |
| ProtocolRuns.RunKeeps | server/src/worker.ts:35-91 | Every run reaches only states with the invariant |
| ProtocolRuns.ChallengeIsGrantedOnce | server/src/worker.ts:65-79 | Single use over all interleavings: no challenge and no token is answered 200 twice, when no reading is more than 61 seconds below an earlier one |
| ProtocolRuns.RowsWereVetted | server/src/worker.ts:65-76 | Every row of the replay table was inserted by a request that passed both challenge checks and the attestation |
| ProtocolRuns.GrantsWereVetted | server/src/worker.ts:65-79 | Every 200 answer passed three challenge checks and an attestation judged against a fresh snapshot |
| ProtocolRuns.SnapshotsAreFresh | server/src/state.ts:63-112 | In every reachable state without digest collisions, the serials a request was shown are those of one feed whose refresh started less than its time to live before the query |
| ProtocolRuns.CacheAgreesWithRow | server/src/state.ts:63-106 | In every reachable state without digest collisions, restarts included, a cache with the row's digest holds the row's serials |
| ProtocolRuns.ReplaysAreGenuine | server/src/worker.ts:72-77 | A consume call finds its id replayed only when another request claimed it, and always when another one claimed its challenge and that expired at most a minute before the largest reading |
| ProtocolAnswers.ReplayedExactly | server/src/worker.ts:70-76 | Without digest collisions, a request is answered challenge_replayed only when another request claimed the same challenge, and up to a minute after its expiry if and only if one did; otherwise it has claimed it |
| ProtocolAnswers.UnclaimedIsGranted | server/src/worker.ts:41-79 | From any reachable state, a request for a live challenge that no request has claimed, with an accepted attestation, a fresh snapshot and budget left, can be followed to its answer 200 |
| ProtocolAnswers.BudgetIsOfCalls | server/src/worker.ts:43-49 | In every run the budget table is that of its budget calls in the order they were executed |
| ProtocolAnswers.RateLimitedExactly | server/src/worker.ts:43-49 | In every run a request is admitted if and only if its minute has had fewer than sixty calls since one more than two minutes later, and answered 429 otherwise |
| ProtocolAnswers.CheckIsAnswered | server/src/worker.ts:65-78 | Each of the three checks lets a request on if and only if its token is live; an authentic token is answered challenge_expired, any other attestation_invalid |
| ProtocolAnswers.AttestIsAnswered | server/src/worker.ts:67-68 | A verdict other than 2 ends the request, with its code or device_integrity |
| ProtocolAnswers.CommittedIsServed | server/src/state.ts:63-106 | A response that is fresh when its download ends is shown, once committed, to every query for which it is fresh, whatever was stored before and whether or not the digest changed |
| ProtocolAnswers.UnavailableIsAnswered | server/src/worker.ts:44-91 | Without a fresh snapshot or an answer of the Durable Object a request is answered 503 |
| ProtocolAnswers.QueryIsAnswered | server/src/state.ts:63-72 | In every run a query is answered at once when there is a snapshot for it; otherwise it waits for a refresh of its own, dated by its reading |
| ProtocolAnswers.WaitsForItsRefresh | server/src/state.ts:63-72 | However a run goes on, a request that waits for its refresh waits until that refresh has ended, or fails with 503 |
| ProtocolAnswers.RestartLosesRefreshes | server/src/state.ts:25-40 | A restart keeps the tables and forgets the cache; a request that waited for a refresh under way is never answered anything but 503, however the run goes on |
| ProtocolAnswers.AnsweredOnce | server/src/worker.ts:35-91 | An answer is final in every continuation of every run |
| ProtocolGrants.RunIsTimed | server/src/worker.ts:41-79 | In every reachable state, the readings of a request bound each other as the clock allows, and what it was shown is some feed |
| ProtocolGrants.GrantedIsGrantable | server/src/worker.ts:65-79 | A granted request answers an authentic challenge, and its attestation is accepted, against some feed, at a time within the challenge's life widened by how far the clock steps back |
| ProtocolLimits.UndisturbedRequestIsGranted | server/src/worker.ts:41-79 | From any reachable state, a request with a live, unconsumed challenge, a fresh snapshot, budget left and an accepted attestation is answered 200, with the resulting state |
| ProtocolLimits.GrantsExactlyTheGrantable | server/src/worker.ts:41-79 | Some run grants something if and only if some body answers an authentic challenge and is accepted at such a time |
| ProtocolLimits.StepBackGrantsTwice | server/src/worker.ts:65-79 | Whatever can be granted at all is granted twice in some run when the clock may step back by 62 seconds or more |
| ProtocolLimits.SingleUseExactlyWithin61Seconds | server/src/worker.ts:65-79 | For every server, single use holds in every run if and only if the clock never steps back by more than 61 seconds or nothing can be granted at all |
| ProtocolStoring.RunIsOrdered | server/src/state.ts:83-106 | With a clock that never steps back, no reachable state has stored a response that forbids it, and every download ends no earlier than it started |
| ProtocolStoring.StepBackShowsForbidden | server/src/state.ts:83-106 | Any response that forbids storing is stored and shown to a request in a run where the clock steps back by one second during its download |
| ProtocolStoring.ForbiddenIsNeverStoredExactlyWithoutStepBack | server/src/revocations.ts:46-54 | No run stores a response that forbids it if and only if the clock never steps back |
| Names.NamesEqual | server/src/verifier/x509.ts:124-133 | The nested loops compute the specified comparison |
| Names.KeyDetermines | server/src/verifier/x509.ts:128-129 | Joining type and value with "=" is injective |
| Names.EqualIsSameMeaning | server/src/verifier/x509.ts:106-133 | Accepted names are equal if and only if they have, relative name by relative name, the same multiset of type octets and canonical values; the comparison of encodings adds nothing |
| Names.EqualIsAnEquivalence | server/src/verifier/x509.ts:124-133 | On accepted names the comparison is reflexive, symmetric and transitive |
| Names.NameAttribute | server/src/verifier/x509.ts:136-140 | The nested loops find the trimmed text of the last attribute of a type that has one |
| Names.LastTextIsLast | server/src/verifier/x509.ts:135-140 | No later attribute of that type has a text |
| NameAttributes.AttributeIsRead | server/src/verifier/x509.ts:68-121 | A written attribute of any identifier and string type is read with its text, malformed texts are refused, and its canonical form is used only for PrintableString and UTF8String of a normalised type |
| Text.SortDecidesMultisets | server/src/verifier/x509.ts:128-130 | Sorted lists are equal exactly when the multisets are |
| Text.SortIsAscending | server/src/state.ts:93 | Sorting gives the one list of the same strings in ascending order of code units |
| Text.SplitOfJoin | server/src/state.ts:70 | Splitting inverts joining for parts free of the separator |
| KeyDescription.ToIntSet | server/src/verifier/keydescription.ts:121-128 | The loop yields the numbers in order of first occurrence, without duplicates, or the failure class of the first obstacle |
| KeyDescription.ToApplicationId | server/src/verifier/keydescription.ts:142-172 | The parsed application id, its packages and signatures without duplicates, or the failure class of the check that fails first |
| AuthorizationLists.CollectObjects | server/src/verifier/keydescription.ts:185-194 | The loop fills the map with the last element of each number, or aborts |
| AuthorizationLists.ObjectsAreTheLast | server/src/verifier/keydescription.ts:185-194 | The map holds exactly the last element of each number |
| AuthorizationLists.ParseFailsWhenAborted | server/src/verifier/keydescription.ts:174-200 | Recovery turns an attribute failure into an absent value and lets only fatal failures through |
| AuthorizationLists.ReadAttributes | server/src/verifier/keydescription.ts:207-241 | The attributes that are read, each as converted |
| AuthorizationLists.ParseAuthorizationList | server/src/verifier/keydescription.ts:183-242 | The parser computes the list that the map of attributes stands for, unless the conversion of some attribute, read or not, aborts |
| AuthorizationLists.ListIsAccepted | server/src/verifier/keydescription.ts:183-242 | A list is accepted if and only if every element wraps, explicitly, an attribute of the schema and the conversion of the last of each number does not abort |
| KeyDescription.SchemaIsFollowed | server/src/verifier/keydescription.ts:70-87 | The numbers taken, and the type each is read with, are those of the schema; every other number fails the parse |
| AttributeOutcomes.JudgedByShape | server/src/verifier/keydescription.ts:93-172 | Whether a malformed attribute is dropped or fails the whole parse, by the elements it consists of, for every attribute |
| AttributeOutcomes.RootByElements | server/src/verifier/keydescription.ts:130-140 | A root of trust is read if and only if its elements spell it, octet by octet |
| AttributeOutcomes.OriginByOctet | server/src/verifier/keydescription.ts:222-226 | Each origin is read from exactly one octet |
| AttributeOutcomes.LevelByOctet | server/src/verifier/keydescription.ts:244-248 | Each security level is read from exactly one octet |
| AuthorizationLists.DescriptionIsRead | server/src/verifier/keydescription.ts:254-266 | The extension is read if and only if it is one SEQUENCE of eight elements, each converted |
| AuthorizationLists.FailedIsAbsent | server/src/verifier/keydescription.ts:174-242 | When the last element of a number fails as an attribute, deleting all elements of that number changes nothing; patch levels never fail that way |
| AuthorizationLists.ParseKeyDescription | server/src/verifier/keydescription.ts:254-266 | The parser of the whole extension computes the specified description or failure |
| KeyDescriptionWriter.IntSetReads | server/src/verifier/keydescription.ts:121-128 | A written set is read back as its distinct numbers, in order of first occurrence |
| KeyDescriptionWriter.RootOfTrustReads | server/test/corpus/synthetic.ts:112-117 | A written root of trust, with or without hash, is read back |
| KeyDescriptionWriter.ApplicationIdReads | server/src/verifier/keydescription.ts:142-172 | A written application id is read back as its distinct packages and signatures exactly when both lists are within the limits; otherwise the attribute fails without being fatal |
| KeyDescriptionWriter.OutOfRangeIsFatal | server/src/verifier/keydescription.ts:222-248 | An origin or security level outside its enumeration is fatal, one inside is read back |
| KeyDescriptionWriter.ListRoundTrip | server/test/corpus/synthetic.ts:120-152 | Any values of attributes of the schema, written in any order under their numbers, are parsed back |
| KeyDescriptionWriter.DeletionParsesAlike | server/src/verifier/keydescription.ts:174-242 | The list without the elements of a number that failed can be written, is read as these elements, and parses to the same result |
| KeyDescriptionWriter.DescriptionRoundTrip | server/test/corpus/synthetic.ts:154-166 | Any description, with the attributes of both lists in any order, is parsed back from its encoding |
| Path.ValidateWithAnchor | server/src/verifier/path.ts:88-124 | The loop with its step automaton accepts exactly the valid paths, returns the leaf's key, and otherwise reports the first failing check of the first failing certificate |
| Path.CheckCertificate | server/src/verifier/path.ts:107-120 | The checks of one certificate, in their order |
| Path.NoProblemIsValid | server/src/verifier/path.ts:95-120 | A certificate has no problem exactly when it satisfies all conditions of a valid path (compare RFC 5280 section 6.1) |
| ChainShape.ChainLength | server/src/verifier/path.ts:82-123 | The leaf stands at the target step exactly when its attestation extension is there and not critical; then the chain has 5 certificates if remotely provisioned, 4 if factory, 3 or 4 if unknown |
| WrittenNames.NameReads | server/src/verifier/x509.ts:106-121 | A written name of two PrintableString attributes is read as these attributes |
| WrittenDescription.SpecifiedReads | server/test/corpus/synthetic.ts:120-166 | The extension of an acceptable key, for any challenge, application and patch month, can be written and is parsed back |
| AcceptedRequests.RequestIsAccepted | server/src/verifier/verifier.ts:130-193 | On every day from 1970 to 9999, for keys in a trusted environment and in StrongBox, a request with four certificates and a critical leaf extension has verdict 2, and so has one with five and a non-critical extension |
| AcceptedRequests.CriticalExtensionShortensChain | server/src/verifier/path.ts:82-196 | A remotely provisioned chain of three with a critical leaf extension is a valid path, its extension is parsed, and under the default constraints its verification succeeds |
| AcceptedRequests.ThreeIsNotHardware | server/src/verifier/verifier.ts:130-193 | The server rejects that chain with no_hardware_attestation |
| AcceptedRequests.SomeCase | server/test/corpus/synthetic.ts:105-166 | Such requests exist for each of the three lengths |
| ChainVerification.FindAnchor | server/src/verifier/path.ts:167-180 | The loop over anchors returns the leaf's key exactly when some anchor accepts the chain |
| ChainVerification.VerifyChain | server/src/verifier/path.ts:160-196 | The outcome is the first failing stage, or the first violated constraint, or success with the leaf's key; which anchor was found makes no difference |
| Patches.PatchMonthIsArithmetic | server/src/verifier/verifier.ts:93-100 | A level has a month exactly when it is YYYYMM or YYYYMMDD with a year from 1000 on and a month from 1 to 12 |
| Patches.CurrentOnADay | server/src/verifier/verifier.ts:106-113 | On a day of the calendar a level is accepted exactly from twelve months before to one month after |
| Verifier.ReadChain | server/src/verifier/verifier.ts:134-153 | The decoded certificates, completed by the one configured root that fits when the chain brings none |
| Verdicts.RootCompletion | server/src/verifier/verifier.ts:142-150 | A chain is completed by itself when it ends in a self-issued certificate, otherwise exactly when one configured anchor and no other has the missing name and checks the last signature |
| Verifier.AnyListed | server/src/verifier/verifier.ts:195-197 | Whether some certificate's serial is listed |
| Verifier.ConstraintsAreControls | server/src/verifier/verifier.ts:57-87 | The seven constraints stand in the order origin, level, root of trust, certified level, app, device, signing key, each with its code |
| Verifier.VerificationVerdict | server/src/verifier/verifier.ts:156-192 | What a verification of the chain means for the verdict |
| Verifier.Verify | server/src/verifier/verifier.ts:130-193 | Tier 2 when every control holds, otherwise the code of the first that fails; the closing look at the list never rejects |
| Verifier.CheckPossession | server/src/verifier/verifier.ts:164-175 | Leaf validity, key type and proof of possession, in this order |
| Verifier.CheckPolicy | server/src/verifier/verifier.ts:176-181 | Remote provisioning, then current patches |
| Verdicts.VerdictIsExact | server/src/verifier/verifier.ts:130-193 | 2 if and only if every control holds, a code if and only if it is that of the first control that fails |
| Verdicts.PolicyOnlyNarrows | server/src/verifier/verifier.ts:176-179 | Dropping the two policy controls changes only verdicts of requests that all other controls accept |
| Verdicts.AnchorOrderDoesNotMatter | server/src/verifier/verifier.ts:142-150 | Permuting the configured anchors changes no verdict |
| Verdicts.TierTwoIsRemotelyProvisionedHardware | server/src/verifier/verifier.ts:156-182 | Tier 2 means a remotely provisioned chain, of five certificates if the leaf's attestation extension is not critical and of four if it is, never three, and an attestation subject O of "TEE" or "StrongBox" matching the KeyMint level |
| Requirements.VerdictIsDecision | server/src/verifier/verifier.ts:57-193 | The verdict on every request is one decision over its fields: which requirement is the first to fail, in which order and with which code, down to the package name, the digest of the signer, the boot state, the key parameters and the months of the patch levels |
| Requirements.LevelControl | server/src/verifier/path.ts:49-73 | The level of the key must be the one the certificates name: for remotely provisioned chains by O of the attestation certificate, TEE, StrongBox or neither, for factory chains by "strongbox" in a text of two subjects, and never StrongBox without a name |
| Requirements.ProvisioningIs | server/src/verifier/path.ts:49-57 | Factory chains are those with a serial number in the subject below the root, remotely provisioned ones name Droid CA2 of Google LLC there |
| Requirements.PathControl | server/src/verifier/path.ts:88-124 | The walk with its step automaton accepts exactly the chains that lead link by link to an anchor, of at most 5, 4 or 3 certificates, the leaf attesting openly exactly at that length |
| Requirements.PatchIsRecent | server/src/verifier/verifier.ts:93-113 | A level is current if and only if it is YYYYMM or YYYYMMDD of a month from twelve before to one after that of the calendar day |
| Requirements.ChainIsSent | server/src/verifier/verifier.ts:134-153 | The chain that is judged is the certificates sent, each decoded within its limits, and the one configured root that fits |
| EndToEnd.VerdictIsFunction | server/src/verifier/verifier.ts:130-193 | There is exactly one verdict for every request and configuration |
| EndToEnd.ShownListsByNumber | server/src/verifier/verifier.ts:195-197 | Finding a certificate in the shown serials is finding its number in the feed |
| EndToEnd.GrantedIsSoundAndUnrevoked | server/src/worker.ts:65-79 | With the verifier in place, every 200 answer had a chain that passes every control at the moment it was judged, and no certificate of it is listed, by number, in a feed that was fresh for the request |
| EndToEnd.GrantedMeetsRequirements | server/src/worker.ts:65-79 | With the verifier in place, every 200 answer met all requirements, over its fields, at the moment it was judged |
| EndToEnd.DeployedSingleUse | server/src/worker.ts:65-79 | With the verifier in place, single use holds in every run if and only if the clock never steps back by more than 61 seconds or the verifier accepts no answer to any challenge around its life |
| EndToEnd.SixtyOneIsExactForTheVerifier | server/src/worker.ts:65-79 | Whatever the key, the hashes and the step back of the clock, there is a configuration of the verifier, signature check and text decoding included, under which something is granted and single use holds in every run if and only if that step is at most 61 seconds |

## Left out

- HTTP routing, methods, content types, body reading, JSON decoding and header syntax in `worker.ts` and
  `revocations.ts`: requests, feed entries and the parsed max-age and Age values are inputs, and answers given before
  the first challenge check are one action.
- WebCrypto: the HMAC, SHA-256 and signature verification are function parameters. Single use needs no assumption about
  them but the length of a digest; the snapshot theorems assume that no two of the texts committed in the run have the same
  digest, and the runs of the replay table alone that an id determines its expiry. `hashFor`, `curveName` and key import are
  part of the abstract signature check.
- SQLite and Durable Object storage: tables are maps; alarms matter only as further refreshes, so the times
  they are set for are not modelled.
- Challenge secrecy and randomness: the nonce is a parameter, and a request may carry any token at all.
- UTF-8 decoding, the Unicode canonical form of names, trimming, lower case and the two wide string types:
  function parameters.
- Strings are sequences of characters, not of UTF-16 units; sorting is by character, which affects only the
  order of lists whose members are ASCII.
- `parseCertificate`, `checkKnownExtension`, SPKI parsing and BIT STRINGs in `x509.ts`: a parameter turns octets into a
  certificate; of it, names, integers, times, identifiers and the serial text are modelled.
- Numbers are unbounded integers where the program uses doubles far below 2^53; the 32-bit accumulator of `base64.ts` is
  modelled exactly.
- Times before the epoch: the verifier takes a time from the epoch on.
- PEM parsing, `parseAnchors` and `config.ts`: start-up validation.
- Messages of errors: only their kind is kept.
- KeyDescriptionWriter.DescriptionRoundTrip: holds for contents that the writer can announce in four length octets, below
  2^32 octets, which is also the limit of the reader.
- BudgetRuns.BudgetIsExact: about the order in which calls reach the Durable Object, which the protocol does not relate
  to the order of the readings they carry.
- Snapshots are not shown to be monotone in fetch time: two overlapping refreshes may commit in either order.
- The Android client, the release scripts and the test corpus data.
