# REFInet Pillar: verified model

This project models the parts of a REFInet Pillar that everything else leans
on, in the Pillar's own terms, and proves what they promise. Each module
follows one component:

* **Key recovery** (`Bits`, `GF256`, `PrimitiveElement`, `GaloisTables`,
  `Polynomials`, `HexText`, `KeyRecovery`, `ShareLaws`): the logarithm tables
  are filled in place and shown to compute in the field of 256 elements;
  interpolation recovers every polynomial; fewer shares than the threshold say
  nothing; any selection of a key's shares has exactly the outcome it should.
* **Canonical JSON and signed envelopes** (`CodePoints`, `JsonText`,
  `CanonicalJson`, `JsonLaws`, `PythonText`, `TextLaws`, `Envelopes`,
  `EnvelopeLaws`): canonical texts stand for documents one to one, and the
  trailer a Pillar prints is the one its verifier reads.
* **The rate limiter** (`RequestLog`, `RateLimiter`): a bounded, lazily swept
  table against the plain log of accepted requests.
* **Gossip** (`Selectors`, `Gopherholes`, `ListingLaws`, `ForeignListings`,
  `GossipMesh`): which selectors are valid for whom, one Pillar's registry and
  its import loop, what foreign listings can say of a Pillar, and a mesh of
  Pillars with listings in flight.
* **The liveness oracle** (`Verdicts`, `LivenessMonitor`, `LivenessLaws`,
  `LivenessRuns`): rounds, verdicts, batches, failures, deaths and restarts.
* **Challenges** (`SiweMessages`, `SiweLaws`, `ChallengeRegistry`,
  `ChallengeLaws`, `ChallengeRuns`, `ChallengeFlows`): messages built and
  parsed back; nonces, sessions and bindings over any run.
* **The audit chain** (`AuditChain`, `AuditLaws`), **the staking reader**
  (`Abi`, `StakingDirectory`, `StakeStanding`, `StakingLaws`), **discovery**
  (`PeerDiscovery`, `AnnouncementLaws`) and **money** (`Money`, `MoneyLaws`).
  `Collections` and `Wrappers` are shared.

Objects that the program updates in place are classes, and their methods are
proved against functions on sequences and maps; the lemmas about those
functions carry the properties. The modules called `...Laws` say what these
functions mean in terms of their arguments alone, with the program's texts and
numbers written out. Hashing, signatures, wallet recovery, base64, `int()`,
`str.lower` and date formats are parameters, with the laws a proof needs of
them stated as `Ideal` (verification accepts what was signed, a printed number
or date is read back) or in the lemma that needs more. Clocks and random values
are arguments, and where a run is described its clock never goes back.

Where the code differs from what is written about it, the model follows the
code:

* `register_gopherhole` dates a record whose date is empty or null, although
  the importer must never re-date one, and the table keeps `true` as `1`; a
  record stored otherwise than it was signed no longer verifies
  (`Gopherholes.ImportVerifiesIff`, `Gopherholes.AlteredIsTaken`).
* The monitor's start without a stored cursor begins two days back, so a
  restart before the first stored cursor can pass over a day that the contract
  would still take (`LivenessRuns.QuickStartsPass`; the exact condition is
  `LivenessMonitor.StartPassesIff`).
* A process without `--submit` stores the cursor too, so a submitting process
  that starts after it never submits the days it finalized, however recent
  (`LivenessRuns.DryRunPasses`; the exact condition is
  `LivenessMonitor.DryPassesIff`).
* An authority called `URI`, or one that begins with a field label, is read as
  a field (`SiweMessages.FirstLineUnlabelled`, `SiweMessages.StatementHidden`).
* A binding made by a contract wallet is stored, but `verify_binding` reports a
  wallet mismatch for it (`ChallengeRegistry.StatedVerifiesIff`,
  `ChallengeFlows.ContractWalletMismatch`).
* The signature of an announcement covers its hostname, but a local name is
  replaced by the sender's address, and the onion address is not covered at all
  (`PeerDiscovery.SignedHostname`, `PeerDiscovery.OnionUnsigned`).
* The selector pattern, like every `$` of Python, also matches before a final
  newline (`Selectors.Match`).

## Model

| member | source | states |
|---|---|---|
| `GF256.MulIsRemainder` | crypto/recovery.py:49-53 | field multiplication is the remainder of the carry-less product after division by x^8+x^4+x^3+x^2+1 (0x11D), for all bytes |
| `GF256.RemainderIsUnique` | crypto/recovery.py:49-53 | division by 0x11D leaves one remainder only, so the previous row determines multiplication |
| `GF256.MulAddRight` | crypto/recovery.py:49-53 | multiplication distributes over exclusive-or |
| `PrimitiveElement.MulCommutes` | crypto/recovery.py:49-53 | multiplication commutes |
| `PrimitiveElement.MulAssociates` | crypto/recovery.py:49-53 | multiplication associates |
| `PrimitiveElement.MulIsNonzero` | crypto/recovery.py:49-62 | no two nonzero bytes multiply to zero |
| `PrimitiveElement.QuotientIsUnique` | crypto/recovery.py:56-62 | a quotient by a nonzero byte is unique |
| `PrimitiveElement.PeriodIs255` | crypto/recovery.py:34-44 | 2^255 = 1 in the field |
| `PrimitiveElement.NoPeriodBelow255` | crypto/recovery.py:34-44 | no smaller positive power of 2 is 1, so the first table loop meets every nonzero byte once |
| `PrimitiveElement.LogExists` | crypto/recovery.py:34-46 | every nonzero byte is a power of 2 with exponent below 255 |
| `PrimitiveElement.LogOfPower` | crypto/recovery.py:34-46 | the logarithm table inverts the power table |
| `GaloisTables.Tables.constructor` | crypto/recovery.py:30-46 | building the tables in place leaves the powers of 2 in all 512 cells of one and each nonzero byte's logarithm in the other |
| `GaloisTables.Tables.FillPeriod` | crypto/recovery.py:36-42 | the first loop fills the first 255 powers and the logarithms |
| `GaloisTables.Tables.RepeatPeriod` | crypto/recovery.py:43-44 | the second loop continues the powers up to 512 |
| `GaloisTables.Tables.GfMul` | crypto/recovery.py:49-53 | the table lookup is field multiplication, and its index stays in the table |
| `GaloisTables.Tables.GfDiv` | crypto/recovery.py:56-62 | the lookup fails for a zero divisor only and otherwise gives the one quotient |
| `Polynomials.DivideCorrect` | crypto/recovery.py:68-73 | synthetic division: c(x) = q(x)(x - r) + c(r) for every polynomial and point |
| `Polynomials.ZeroByRoots` | crypto/recovery.py:68-88 | a polynomial with as many distinct roots as coefficients is zero |
| `Polynomials.LagrangeAtPoint` | crypto/recovery.py:76-88 | the interpolation formula goes through every one of its points |
| `Polynomials.SameByPoints` | crypto/recovery.py:68-88 | two polynomials of k coefficients that agree at k points are equal |
| `Polynomials.InterpolationRecovers` | crypto/recovery.py:68-88 | interpolating k points of any polynomial with k coefficients gives that polynomial's value at every x |
| `Polynomials.ShareValuesInjective` | crypto/recovery.py:91-96 | for a fixed secret byte, the values that threshold-1 holders see determine the random coefficients |
| `Polynomials.ShareValuesSurjective` | crypto/recovery.py:91-96 | for every secret byte and every values of threshold-1 holders there are coefficients that give them, so the values say nothing of the secret |
| `KeyRecovery.EvalPolynomial` | crypto/recovery.py:68-73 | Horner's loop computes the polynomial's value |
| `KeyRecovery.LagrangeInterpolate` | crypto/recovery.py:76-88 | the two loops compute the interpolation formula, and fail exactly when an x coordinate repeats |
| `KeyRecovery.SplitByte` | crypto/recovery.py:91-96 | the shares of a byte are its polynomial's values at 1, 2, ..., num_shares |
| `KeyRecovery.SplitKey` | crypto/recovery.py:99-150 | all shares' texts, or the first error in the order of the checks |
| `ShareLaws.SplitErrorMeans` | crypto/recovery.py:118-128 | which keys, thresholds and numbers of shares are accepted, and which of the reasons a refusal gives |
| `ShareLaws.ShareCarries` | crypto/recovery.py:91-150 | share i carries i + 1, the threshold, the fingerprint, and of each key byte the value at i + 1 of the polynomial whose coefficients are that byte and its random bytes, in order |
| `ShareLaws.SharesDetermineChance` | crypto/recovery.py:91-96 | the random bytes are used: what any threshold - 1 different shares carry for a key byte determines all of them |
| `ShareLaws.EveryKeyFits` | crypto/recovery.py:91-150 | fewer shares than the threshold say nothing: for every key and every choice of values some random bytes make any threshold - 1 different shares carry exactly those values |
| `KeyRecovery.RecoverKey` | crypto/recovery.py:153-223 | the three loops recover what the specification says of any list of texts, including every error |
| `ShareLaws.ParseShareMeans` | crypto/recovery.py:172-193 | a text is a share exactly when it is the prefix and the base64 of an index, a threshold, four bytes of fingerprint and at least one value |
| `ShareLaws.RecoverErrorMeans` | crypto/recovery.py:195-214 | shares are refused exactly when they are fewer than the first one's threshold, when one does not fit the first, by the first that does not and its first difference, or when a number repeats |
| `ShareLaws.RecoveredIsConstant` | crypto/recovery.py:216-223 | of consistent shares, whoever made them, each recovered byte is the constant of the one polynomial through the first threshold of them |
| `KeyRecovery.HexRoundTrip` | crypto/recovery.py:124-126 | reading and printing lower-case hexadecimal text gives it back |
| `ShareLaws.PairMeans` | crypto/recovery.py:125-125 | two hexadecimal digits of either case are read as one byte, the first counting sixteen |
| `ShareLaws.SpaceMeans` | crypto/recovery.py:125-125 | white space between bytes is skipped |
| `ShareLaws.OtherMeans` | crypto/recovery.py:125-125 | half a byte, and any other character, is refused |
| `ShareLaws.ToHexMeans` | crypto/recovery.py:223-223 | bytes are printed as two lower-case digits each |
| `KeyRecovery.LowerHexSplits` | crypto/recovery.py:119-136 | no lower-case hexadecimal key is refused for 2 <= threshold <= num_shares <= 255 |
| `KeyRecovery.RecoverFromSplit` | crypto/recovery.py:99-223 | the exact outcome for any selection of the shares of any accepted key, in any order: too few, duplicated, or the key's bytes in lower-case hexadecimal |
| `KeyRecovery.ReadBackIff` | crypto/recovery.py:124-126 | the bytes of an accepted key are printed as that key exactly when it is lower-case hexadecimal |
| `KeyRecovery.RecoverUndoesSplit` | crypto/recovery.py:99-223 | any threshold or more different shares of a split, in any order, recover the key's bytes, and exactly the key if and only if it is lower-case hexadecimal |
| `CodePoints.CompareCodePoints` | sdk/js/src/index.js:77-84 | the scan with its early return computes the code point order |
| `CodePoints.CompareMeans` | sdk/js/src/index.js:77-84 | a text comes first exactly when it is a proper prefix of the other or has the smaller character where they first differ |
| `CodePoints.TotalOrder` | sdk/js/src/index.js:77-84 | the comparison is a total order: connected, antisymmetric, transitive |
| `CodePoints.SortCorrect` | sdk/js/src/index.js:70-70 | sorting gives an ordered permutation |
| `CodePoints.SortedUnique` | sdk/js/src/index.js:70-70 | there is one such permutation, so the result does not depend on insertion order or on the algorithm |
| `JsonText.ParsePrint` | sdk/js/src/index.js:67-71 | every printed value is read back, whatever text follows it |
| `JsonText.PrintInjective` | sdk/js/src/index.js:67-71 | printing is injective |
| `CanonicalJson.CanonicalIsPrint` | sdk/js/src/index.js:67-71 | the canonical text is the plain text of the document with its members sorted |
| `JsonLaws.KeysAscend` | sdk/js/src/index.js:70-84 | the members of an object come once each, strictly ascending in their keys' characters |
| `JsonLaws.CanonicalMeans` | sdk/js/src/index.js:67-71 | the text of each kind of document, spelled out: constants, numbers, strings, and the parts of arrays and objects between commas |
| `JsonLaws.EscapeMeans` | sdk/js/src/index.js:67-71 | the escape of every character of a string |
| `JsonLaws.StringMeans` | sdk/js/src/index.js:67-71 | a string is its characters' escapes between quotation marks |
| `JsonLaws.NumberMeans` | sdk/js/src/index.js:67-71 | an integer is its decimal digits, after a minus sign if it is negative |
| `CanonicalJson.CanonicalEqualIffSame` | sdk/js/src/index.js:67-71 | two documents with distinct keys and integer numbers have equal canonical texts exactly when they are equal up to member order |
| `CanonicalJson.ParseCanonical` | crypto/signing.py:191-195 | reading a canonical text gives a document that is the same up to member order |
| `Envelopes.JoinInjective` | crypto/signing.py:71-73 | within a domain, a preimage determines its line-free fields |
| `Envelopes.DomainsSeparate` | crypto/signing.py:61-73 | preimages under different domains differ whatever the fields |
| `Envelopes.VerifyResponseBlock` | crypto/signing.py:139-185 | the loop over the block's lines and the checks give the specified verdict |
| `EnvelopeLaws.VerdictMeans` | crypto/signing.py:139-185 | each part of the verdict: a text is valid exactly when the named key hashes to the PID, the hash is the body's, sig verifies on the body and, for version 1, the time is a number and sig1 verifies on PID, selector, time and hash |
| `EnvelopeLaws.SplitAtMarker` | crypto/signing.py:148-152 | a text is unsigned exactly when it has no marker, and is cut at the first one otherwise |
| `EnvelopeLaws.AlteredIsRefused` | crypto/signing.py:117-185 | with signatures that fit one message: whatever body, PID, hash, version, selector and time stand around the signatures of a served response, it is valid exactly when body, PID and hash are the served ones and, under version 1, selector and time too |
| `EnvelopeLaws.AddLineMeans` | crypto/signing.py:154-159 | a line with a colon sets the field named before its first colon, stripped, and any other line sets none |
| `EnvelopeLaws.ReadFieldsMeans` | crypto/signing.py:154-159 | lines are read in order up to the end marker, so a repeated field has its last value |
| `Envelopes.MarkerAtBodyEnd` | crypto/signing.py:139-150 | the first marker found is at the body's end exactly when the body has none, and inside the body otherwise |
| `Envelopes.ReadTrailer` | crypto/signing.py:117-136 | every field of a printed trailer is read back under its name |
| `EnvelopeLaws.ServedText` | crypto/signing.py:108-136 | the eight values that a Pillar puts into the trailer of a body, and what its signatures are made over |
| `EnvelopeLaws.TrailerLines` | crypto/signing.py:125-136 | the ten lines of a trailer |
| `Envelopes.ServedVerifies` | crypto/signing.py:117-185 | a body without the marker, signed for a one-line selector, verifies in every respect, with its PID, selector and time |
| `Envelopes.JsonBodyRecovers` | mesh/admission.py:34-46 | the JSON text before terminator and trailer is recovered exactly when it does not contain the begin line |
| `EnvelopeLaws.JsonBodyMeans` | mesh/admission.py:34-46 | which ending of an unsigned response is not part of its document |
| `Envelopes.DocumentRecovers` | mesh/admission.py:34-46 | and the document is read from it |
| `RateLimiters.RemoveStale` | core/gopher_server.py:110-118 | the sweep deletes exactly the addresses with nothing in the window and keeps the order of the rest |
| `RateLimiters.RateLimiter.Sweep` | core/gopher_server.py:110-118 | a sweep forgets no request that is still in the window |
| `RateLimiters.SweptAreLive` | core/gopher_server.py:129-132 | after a sweep the table is no larger than the number of other addresses accepted in the window |
| `RateLimiters.RateLimiter.Evict` | core/gopher_server.py:131-132 | the eviction loop ends and drops exactly the oldest addresses until there is room |
| `RateLimiters.RateLimiter.MakeRoom` | core/gopher_server.py:128-133 | room is made by sweeping before evicting, the other queues stay as they were, and a live queue is dropped only when max_tracked_ips others are live |
| `RateLimiters.RateLimiter.Decide` | core/gopher_server.py:135-145 | pruning, counting and the decision, against the log of accepted requests |
| `RateLimiters.RateLimiter.IsAllowed` | core/gopher_server.py:120-145 | every sweep_every calls only live queues remain; the table stays within max_tracked_ips; the decision is the unbounded log's whenever no live queue was dropped in the window, and one is dropped only in a crowded window |
| `RateLimiters.Serve` | core/gopher_server.py:96-145 | over every run, in terms of calls and answers alone: a call is let through whenever fewer than max_requests calls of its address were accepted in the window before it, and exactly then while no call met max_tracked_ips other addresses in its window; over every run without a crowded window the log is the unbounded log's |
| `RequestLog.WindowBound` | core/gopher_server.py:120-145 | no closed window of window_seconds holds more than max_requests accepted requests of one address |
| `RequestLog.WindowHolds` | core/gopher_server.py:120-145 | in terms of calls and answers alone: when a call is let through only below the limit, no closed window holds more than max_requests accepted calls of one address |
| `Selectors.PlainIsValid` | core/gopherhole.py:27-83 | /holes/ and a slug of 1 to 64 letters, digits, dashes and underscores is valid for every PID |
| `Selectors.NamespacedIsValid` | core/gopherhole.py:27-83 | /holes/, sixteen lower-case hexadecimal digits, / and a slug is valid for a PID exactly when it begins with those digits |
| `Selectors.ValidForms` | core/gopherhole.py:27-83 | and no other selector is valid, but for a newline after one of these |
| `Selectors.FitsUnlessForeign` | core/gopherhole.py:202-204 | the importers' check fails exactly for a selector in another PID's namespace |
| `Gopherholes.SignedVerifies` | core/gopherhole.py:156-158 | a record signed at creation verifies |
| `ListingLaws.SignedMeans` | core/gopherhole.py:148-164 | what is recorded and signed at creation, with the signed text |
| `ListingLaws.VerifyMeans` | core/gopherhole.py:184-213 | an entry verifies exactly when its key hashes to its PID, its selector is in no foreign namespace, no signed field is missing and the signature is the key's on PID, selector, name and date |
| `ListingLaws.VerifyRaises` | core/gopherhole.py:184-213 | which missing fields raise |
| `Gopherholes.PayloadInjective` | core/gopherhole.py:204-208 | a signed payload stands for one PID, selector, name and date when only the name may have colons |
| `Gopherholes.MatchedIsColonFree` | core/gopherhole.py:27-29 | a selector that matches the pattern has no colon |
| `Gopherholes.Registry.Exists` | db/live_db.py:727-734 | finds exactly the keys of the table |
| `Gopherholes.Registry.Register` | db/live_db.py:535-575 | appends one row, or changes nothing when PID and selector are taken |
| `Gopherholes.Registry.Create` | core/gopherhole.py:86-181 | each refusal in the order of the checks, every selector in a foreign namespace among them; success appends one verifying row and keeps keys unique |
| `ListingLaws.MadeMeans` | core/gopherhole.py:127-127 | making a directory makes those above it |
| `Gopherholes.Registry.ImportListing` | mesh/replication.py:61-119 | the import loop appends exactly the rows of the specification, none under a foreign namespace, and returns how many |
| `Gopherholes.ImportGrows` | mesh/replication.py:61-119 | importing any listing only appends, keeps keys unique, and afterwards holds every key with a verifying entry that the table can store |
| `Gopherholes.ImportAdds` | mesh/replication.py:66-112 | every added row is a verifying entry of the listing with its own signature and fields |
| `ListingLaws.ImportedMeans` | mesh/replication.py:66-112 | each added row is new, in no foreign namespace, and has its values from an entry whose signer signed what it shows; where the date is empty it is the day's |
| `ListingLaws.ImportHolds` | mesh/replication.py:61-119 | afterwards the registry has exactly the keys it had and those of the entries that verify and can be stored |
| `Gopherholes.StoredVerifiesIff` | db/live_db.py:547-549 | a verifying entry is stored so that it verifies exactly when its date is not one that Python takes for false, and the table keeps name and date in the text that was signed |
| `Gopherholes.ImportVerifiesIff` | mesh/replication.py:92-105 | an import of any listing leaves only verifying rows exactly when it takes no entry whose name or date it stores otherwise than signed |
| `Gopherholes.AlteredIsTaken` | mesh/replication.py:66-112 | every entry that its signer signed as it shows and the table alters is taken and leaves a row that does not verify |
| `Gopherholes.AlteredDates` | db/live_db.py:547-549 | the empty date, null, true and 1e22 are such dates |
| `ForeignListings.OwnListingIsHonest` | core/gopherhole.py:156-158 | with an ideal library a Pillar that lists what it signed forges nothing, and all of it verifies |
| `ForeignListings.StoredAsSignedIff` | core/gopherhole.py:184-213 | an entry that forges nothing is stored with the name and date signed for its selector exactly when the row verifies and its date has no colon, and always when it verifies and the signed name has none |
| `ForeignListings.ForeignAgreement` | mesh/replication.py:61-119 | of two registries that import any listings without a forged signature of a Pillar, the rows for one of its plain selectors both have the signed name and date exactly when both verify and neither date has a colon; they agree whenever both verify and the signed name has none |
| `ForeignListings.DescriptionUnsigned` | core/gopherhole.py:204-208 | description and owner address may differ: they are not signed |
| `ForeignListings.NameMaySplit` | core/gopherhole.py:204-208 | a name with a colon can be listed as a shorter name with a longer date under the same signature |
| `GossipMesh.AuthorHolds` | core/gopherhole.py:104-127 | a key signed under a Pillar's PID is in that Pillar's own registry |
| `GossipMesh.StepKeepsValid` | mesh/replication.py:27-119 | each creation, fetch and import keeps the mesh invariant and only grows registries |
| `GossipMesh.RunKeepsValid` | mesh/replication.py:27-142 | so does every run, in any interleaving, with listings in any order and delivered late, repeatedly or never |
| `GossipMesh.EveryRowVerifies` | core/gopherhole.py:184-213 | in every run of creating and importing Pillars every stored row verifies |
| `GossipMesh.Agreement` | mesh/replication.py:91-105 | in every run all rows with the same PID and selector agree in everything but source and tx_hash |
| `GossipMesh.SyncSpreads` | mesh/replication.py:27-119 | a fetch and its later import carry every key the peer had when the round began |
| `GossipMesh.RoundsSpread` | mesh/replication.py:122-142 | d successful rounds carry every key to all Pillars within d edges |
| `GossipMesh.RoundsExist` | mesh/replication.py:122-142 | from every mesh on there are rounds, any number of them, in which every Pillar syncs with all its peers |
| `GossipMesh.ConnectedWithin` | mesh/replication.py:122-142 | in a connected mesh some number of rounds is enough for every pair |
| `GossipMesh.Convergence` | mesh/replication.py:122-142 | after enough successful rounds without new records every registry holds exactly the records ever signed |
| `Verdicts.InactiveMeans` | monitor/liveness.py:164-181 | a PID is judged inactive exactly when at least 77 rounds ran, some Pillar answered, and it failed more than a fifth of its probes; the list is sorted without repetitions |
| `LivenessLaws.InactiveIs` | monitor/liveness.py:164-181 | in terms of the rows alone: 77 rounds or more of the day, some probe of it answered, and of the PID's probes, one at least, fewer than four fifths |
| `LivenessLaws.InactiveAscends` | monitor/liveness.py:180-180 | the list is strictly ascending |
| `Verdicts.RoundElsewhere` | monitor/liveness.py:154-158 | a round on another day changes nothing a day's verdict depends on |
| `Verdicts.RecordedKeyed` | monitor/liveness.py:154-156 | replacing rows keeps (pid, ts) unique |
| `LivenessLaws.RecordedMeans` | monitor/liveness.py:154-156 | after a round the table has its last result for each PID, and every row of another time or PID |
| `LivenessMonitor.Monitor.RunRound` | monitor/liveness.py:138-159 | the tables after a round |
| `LivenessMonitor.Monitor.MarkSubmitted` | monitor/liveness.py:200-203 | marks the batch and overwrites nothing |
| `LivenessMonitor.PendingMeans` | monitor/liveness.py:184-186 | exactly the PIDs not submitted for the day |
| `LivenessLaws.TodoMeans` | monitor/liveness.py:247-248 | the PIDs to submit are the inactive ones that were not submitted for the day, each once and in order |
| `LivenessLaws.BatchMeans` | monitor/liveness.py:256-257 | batch j is the j-th hundred of them, the last one what is left |
| `LivenessLaws.MarkedMeans` | monitor/liveness.py:200-203 | each PID of the batches is marked, with the transaction of one that has it, and what was marked stays |
| `LivenessMonitor.Monitor.SubmitBatches` | monitor/liveness.py:256-262 | the loop sends exactly the batches that the answers accept, up to the first that fails or kills |
| `LivenessMonitor.BatchesAreAnswered` | monitor/liveness.py:256-262 | batch j is the j-th hundred of the PIDs, with the transaction that answer j gave |
| `LivenessMonitor.Monitor.FinalizeDay` | monitor/liveness.py:244-263 | batches of at most 100 PIDs, all judged inactive, none submitted before; a failure at any batch leaves the earlier ones marked; success leaves nothing unsent |
| `LivenessMonitor.AdvancedAfterFailure` | monitor/liveness.py:284-292 | a submitting pass goes on past a day with unsent PIDs only after an answer that failed, when the day is at least 7 days old |
| `LivenessMonitor.Monitor.FinalizeNext` | monitor/liveness.py:281-292 | one day of the loop, exactly as its answers decide: finalized, left to be submitted again, or ended by the process dying |
| `LivenessLaws.AfterDayMeans` | monitor/liveness.py:281-292 | when n batches of the day are accepted: the first n hundreds are sent, and the day is passed unless the process dies or an unsent batch failed within seven days |
| `LivenessLaws.DryDayMeans` | monitor/liveness.py:252-255 | without a submitter nothing is sent or marked, and the day is passed |
| `LivenessMonitor.Monitor.FinishDays` | monitor/liveness.py:279-292 | the cursor never goes back, days are judged an hour or more after they end, and every finished day is finalized unless the process dies or a submission will be tried again |
| `LivenessMonitor.Monitor.RunPass` | monitor/liveness.py:272-293 | one pass keeps every judged day's verdict as it was, and a pass that nothing kills catches up with yesterday unless a day is to be submitted again |
| `LivenessLaws.RoundMeans` | monitor/liveness.py:272-278 | the round of a pass is in the tables, and a process that dies after it leaves no more |
| `LivenessLaws.SmoothDays` | monitor/liveness.py:279-292 | a pass whose submissions are all mined finalizes every day that is over, and leaves none of their inactive PIDs unsubmitted |
| `LivenessLaws.ClockMeans` | monitor/liveness.py:268-280 | a day is judged an hour after it ends, and a process starts after its cursor but at most eight days back, or two days back without one |
| `LivenessMonitor.Monitor.Run` | monitor/liveness.py:266-293 | over any sequence of rounds, answers, failures, deaths and restarts, exactly the tables that they lead to: no (day, PID) is submitted twice, every submitted PID was judged inactive on a finished day, verdicts stand, the cursor never goes back, passes stop only for a death, and since the last start without a cursor a day is passed over unsent only if it is at least 7 days old or a process without --submit finalized it |
| `LivenessMonitor.Restart` | monitor/liveness.py:266-271 | a start finds everything a stopped process left behind intact |
| `LivenessMonitor.StartPassesIff` | monitor/liveness.py:268-271 | a start keeps the promise about passed days exactly when it finds a cursor or nothing recent is unsent |
| `LivenessMonitor.DryPassesIff` | monitor/liveness.py:252-255 | finalizing a day without submitting keeps the promise about passed days exactly when the day has nothing pending or is at least 7 days old |
| `LivenessRuns.DryRunPasses` | monitor/liveness.py:266-293 | a run in which a dry process stores the cursor and the next, submitting, passes over a recent day with an unsent PID |
| `LivenessRuns.QuickStartsPass` | monitor/liveness.py:268-271 | a run of 77 short processes after which a start without a cursor passes over such a day |
| `SiweLaws.OpeningLines` | auth/siwe.py:97-102 | the lines that open a challenge |
| `SiweLaws.FieldLines` | auth/siwe.py:103-108 | the lines with its fields |
| `SiweLaws.BuildMeans` | auth/siwe.py:110-113 | the lines are joined, and resources follow as a list |
| `SiweLaws.StatementsMean` | auth/siwe.py:79-91 | the statements of the two purposes and the resource that names a Pillar |
| `SiweLaws.ReadersMean` | auth/siwe.py:200-225 | nonce, expiry and chain id are those of the first line with their label, for every text |
| `SiweLaws.StatementMeans` | auth/siwe.py:236-246 | the statement is the last line with text before the first that opens the fields |
| `SiweLaws.NamesMeans` | auth/siwe.py:228-277 | a message names the Pillar that its first URI line names |
| `SiweLaws.BindingMeans` | auth/siwe.py:249-267 | a binding statement binds to the PID and role around the first "as its", when the role is one of the two |
| `SiweMessages.FirstLineUnlabelled` | auth/siwe.py:97-98 | the first line reads as a field exactly when the authority begins with a label or is a label without its space |
| `SiweMessages.BuiltReadsBack` | auth/siwe.py:94-113 | nonce, chain id, URI, expiry and statement of every built message are read back, whatever the resources say |
| `SiweMessages.StatementHidden` | auth/siwe.py:236-246 | an authority whose line opens the fields hides the statement |
| `SiweMessages.NonceReadsBackIff` | auth/siwe.py:209-214 | the nonce is read back exactly when neither the first line nor the address has its label, unless the address says the same |
| `SiweMessages.UriReadsBackIff` | auth/siwe.py:228-233 | so is the URI |
| `SiweMessages.StatementReadsBackIff` | auth/siwe.py:236-246 | and the statement, but that a labelled address leaves the first line as the statement |
| `SiweMessages.ChainIdReadsBackIff` | auth/siwe.py:217-225 | and the chain id, but that a labelled first line gives the default |
| `SiweMessages.ExpiryReadsBackIff` | auth/siwe.py:200-206 | and the expiry |
| `SiweMessages.BindingReadsBack` | auth/siwe.py:254-277 | a binding challenge is read back as its Pillar's, with its role, and as no other Pillar's |
| `SiweMessages.LoginReadsBack` | auth/siwe.py:200-277 | a login challenge is read back as its Pillar's and as no binding |
| `ChallengeRuns.NotBoth` | auth/session.py:99-104 | no text is accepted both as a session and as a binding, whatever the tables and the rest of the calls |
| `ChallengeRegistry.Registry.CreateChallenge` | auth/session.py:37-79 | registers a fresh nonce for its purpose and Pillar and returns the message |
| `ChallengeLaws.MessageMeans` | auth/siwe.py:147-166 | the message of a challenge: its statement, its resources, and its expiry after a day for a login and ten minutes for a binding |
| `ChallengeLaws.IssuedMeans` | auth/session.py:37-79 | the nonce is good for fifteen minutes for a login and ten for a binding |
| `ChallengeRegistry.Registry.ConsumeNonce` | db/live_db.py:220-255 | each answer, and that any attempt on an issued nonce spends it |
| `ChallengeLaws.RulingMeans` | db/live_db.py:220-255 | a nonce is accepted exactly when it was issued to this Pillar for this purpose, was never tried and has not expired; and which reason a refusal gives |
| `ChallengeLaws.SpendMeans` | db/live_db.py:237-243 | the first attempt is noted on the nonce's row, and nowhere else |
| `ChallengeRegistry.Registry.Purge` | db/live_db.py:258-265 | drops exactly the nonces that expired before the cutoff |
| `ChallengeRegistry.Registry.EstablishSession` | auth/session.py:82-156 | a session exactly for an unspent, unexpired login nonce of this Pillar, a verifying wallet and an unexpired message; each refusal otherwise |
| `ChallengeLaws.SessionAccepted` | auth/session.py:82-156 | the exact condition for a session, spelled out |
| `ChallengeLaws.SessionRefused` | auth/session.py:99-131 | and the order of the eight checks |
| `ChallengeLaws.RedeemingMeans` | auth/session.py:82-156 | what a session records, and all that redeeming changes |
| `ChallengeRegistry.Registry.CreateBinding` | crypto/binding.py:68-170 | a binding exactly for a stated Pillar and role, an unspent, unexpired binding nonce and a verifying wallet; each refusal otherwise |
| `ChallengeLaws.BindingAccepted` | crypto/binding.py:68-170 | the exact condition for a binding, spelled out |
| `ChallengeLaws.BindingRefused` | crypto/binding.py:105-141 | and the order of its checks |
| `ChallengeLaws.NewBindingMeans` | crypto/binding.py:48-57 | what a binding records: its id is the hash of PID, lower-case wallet and nonce, and the Pillar's key signs that id under the binding domain |
| `ChallengeRegistry.Registry.RevokeSession` | auth/session.py:185-192 | revokes the session and changes nothing else |
| `ChallengeLaws.RevokedMeans` | auth/session.py:185-192 | exactly the sessions with the id are marked |
| `ChallengeRegistry.Registry.Serve` | auth/session.py:82-192 | exactly the reply and the tables after any one call |
| `ChallengeRegistry.Registry.Operate` | auth/session.py:82-192 | over every run of issuing, redeeming, binding, revoking and purging, exactly the replies and tables: each nonce has at most one session or binding, of its purpose and Pillar and accepted in its lifetime |
| `ChallengeRuns.OneAttemptSpends` | db/live_db.py:237-243 | once a call of a run has put a nonce to the registry, whatever came of it, no later call is accepted with it unless it is issued again |
| `ChallengeRuns.AtMostOneAccepted` | db/live_db.py:237-243 | of two calls of a run with one nonce at most one is accepted |
| `ChallengeRegistry.OneUse` | crypto/binding.py:122-127 | no nonce has both a session and a binding |
| `ChallengeRegistry.OneAttempt` | db/live_db.py:237-243 | a nonce once put to the registry, as every call that passes the checks of its message does, is never accepted afterwards |
| `ChallengeRegistry.NeverReplayed` | auth/session.py:126-131 | the second replay check never has to refuse |
| `ChallengeRegistry.ValidateMeans` | auth/session.py:159-182 | a session is valid exactly while it is not revoked and not expired |
| `ChallengeRegistry.RefusedForEver` | auth/session.py:159-192 | a session refused once is refused for ever |
| `ChallengeRegistry.StatedVerifiesIff` | crypto/binding.py:176-241 | a stored binding verifies exactly when ecrecover answers for its wallet |
| `ChallengeLaws.VerifyMeans` | crypto/binding.py:176-241 | when any binding verifies, as stated or as legacy, and the verdicts on the others |
| `ChallengeFlows.LoginAccepted` | auth/session.py:82-156 | an issued login message with a verifying wallet opens a session exactly until the message expires |
| `ChallengeFlows.BindingAccepted` | crypto/binding.py:68-170 | an issued binding message with a verifying wallet makes a binding |
| `ChallengeFlows.SignIn` | auth/session.py:37-156 | issuing, signing and redeeming a login challenge in time signs in |
| `ChallengeFlows.BindWallet` | crypto/binding.py:68-241 | issuing, signing and redeeming a binding challenge in time binds the wallet |
| `ChallengeFlows.ContractWalletMismatch` | crypto/binding.py:206-216 | a run that binds a contract wallet, whose stored record then does not verify |
| `ChallengeRegistry.DeployerStays` | crypto/binding.py:249-264 | once a Pillar has a stated deployer binding it is canonical for ever |
| `ChallengeLaws.DeployerMeans` | crypto/binding.py:249-264 | the canonical deployer is the first that is stated, else the first legacy one, else none |
| `AuditChain.AuditLog.Append` | db/audit.py:64-110 | appends one entry that links to the last, signed, and keeps a verifying log verifying |
| `AuditChain.AuditLog.VerifyChain` | db/audit.py:113-157 | reports exactly the length of the longest valid prefix asked about, and which check failed after it |
| `AuditLaws.VerifiesMeans` | db/audit.py:113-157 | a log verifies exactly when each entry names the hash before it and carries the hash of its own five fields, colons between them |
| `AuditLaws.GenesisMeans` | db/audit.py:27-27 | the first entry follows 64 zeros |
| `AuditLaws.AlteredEntryShows` | db/audit.py:113-157 | with any entry but the last replaced, a verifying log verifies exactly when no hashed field and no hash was changed, unless the hash collides |
| `AuditLaws.RemovedEntryShows` | db/audit.py:113-157 | with such an entry taken out it does not verify |
| `AuditChain.EveryPrefixVerifies` | db/audit.py:113-157 | a verifying log verifies under every limit |
| `AuditChain.PayloadInjective` | db/audit.py:51-55 | a payload determines its fields when names and hashes have no colon |
| `AuditChain.ColonsConfuse` | db/audit.py:51-55 | every entry with a colon in a hash or a name shares its hash with another entry |
| `AuditChain.LastHashFixesHistory` | db/audit.py:113-157 | two verifying logs with the same last hash have the same length and hashed fields, for any hash that neither collides on their payloads nor gives the genesis value |
| `Abi.ArrayRoundTrip` | mesh/staking.py:100-107 | every encoded array of words is decoded |
| `StakingLaws.DecodeMeans` | mesh/staking.py:71-107 | of any data, which items are decoded, and exactly when none are |
| `Abi.DecodedWords` | mesh/staking.py:100-107 | whatever is decoded is a run of whole words inside the data |
| `StakingDirectory.TakePage` | mesh/staking.py:249-256 | one page adds exactly its nonempty new PIDs, in its order |
| `StakingLaws.MergedMeans` | mesh/staking.py:249-256 | slots are taken in the page's order, but for empty ones and PIDs that are there already |
| `StakingLaws.PageMeans` | mesh/staking.py:46-46 | a page is two hundred slots from the offset on, or what is left |
| `StakingLaws.EmptyMeans` | mesh/staking.py:51-51 | an empty slot is 64 zeros |
| `StakingDirectory.DirectoryReader.PillarCount` | mesh/staking.py:183-196 | each call gets the next identifier, and answers from the table as it is at that call |
| `StakingDirectory.DirectoryReader.ReadContract` | mesh/staking.py:242-257 | the paging loop ends after the count and the pages one after another, reads every slot below the count, and has all that it found |
| `StakingDirectory.DirectoryReader.Directory` | mesh/staking.py:237-258 | over tables that grow and empty between calls: the calls read every contract in turn; the result is the first max_entries of the distinct nonempty PIDs that the calls found, in that order, and all that the slots below the counts held when fewer |
| `StakingDirectory.StayedIsFound` | contracts/README.md:58-62 | a PID that held its slot from the call that read its contract's count to the last call is in the result |
| `StakeStanding.Consult` | mesh/staking.py:222-229 | the first contract where the PID is active, else the first where it is registered, else none |
| `StakingLaws.ActiveDecides` | mesh/staking.py:222-229 | the first contract where the PID is registered and active decides, with its operator, endpoint and stake |
| `StakingLaws.SilenceDecides` | mesh/staking.py:222-235 | a contract before that which does not answer leaves the question open |
| `StakingLaws.RegisteredDecides` | mesh/staking.py:222-229 | else the first contract where it is registered is reported, as not active |
| `StakingLaws.NobodyDecides` | mesh/staking.py:222-229 | and with no registration there is no operator, stake or contract |
| `StakeStanding.Reader.Status` | mesh/staking.py:209-235 | of the PID in lower case an answer is the latest reading and younger than the cache limit, or, flagged stale, younger than the grace period; without one the Pillar is not active |
| `PeerDiscovery.VerifiedIsGenuine` | mesh/discovery.py:97-115 | an announcement passes exactly when it is fresh and verifies |
| `AnnouncementLaws.VerifyMeans` | mesh/discovery.py:49-115 | the text an announcement must be signed over, within 60 seconds, to be accepted, and which missing fields raise |
| `PeerDiscovery.Listener.Accept` | mesh/discovery.py:189-212 | each decision, and exactly the table of timestamps after it |
| `AnnouncementLaws.AuthenticMoves` | mesh/discovery.py:189-296 | an authentic announcement that is newer than the last is always accepted: its Pillar is where it says, its timestamp is kept, and of the others only the oldest of a full table stops being tracked |
| `AnnouncementLaws.Ignored` | mesh/discovery.py:189-296 | replayed, incomplete and unidentified ones change nothing, nor do unsigned ones where signatures are required |
| `AnnouncementLaws.UnsignedIntroduces` | mesh/discovery.py:207-212 | an unsigned one introduces a Pillar that is not known |
| `AnnouncementLaws.UnsignedStays` | mesh/discovery.py:207-212 | and of one that is known changes name and version alone |
| `PeerDiscovery.RunKeepsValid` | mesh/discovery.py:189-206 | in every run the table stays within max_tracked_pids |
| `PeerDiscovery.EvictedIsOldest` | mesh/discovery.py:200-205 | a PID stops being tracked only as the oldest entry of a full table when a new PID is accepted |
| `PeerDiscovery.MovesIncrease` | mesh/discovery.py:196-206 | in every run two accepted signed announcements of a PID that is not evicted between them have increasing timestamps |
| `PeerDiscovery.AddressesAfter` | mesh/discovery.py:255-296 | of the peers known before a datagram none is dropped, and one that it lets move goes where the message says, no other anywhere |
| `PeerDiscovery.NewPeers` | mesh/discovery.py:241-296 | a new peer is the one its datagram names, with the key that hashes to its PID, where the message says |
| `PeerDiscovery.Tracked` | mesh/discovery.py:255-296 | between any two points of a run a peer known at the first is where its own moves between them, in order, have taken it |
| `PeerDiscovery.MovesAreGenuine` | mesh/discovery.py:97-115 | every move of a run is fresh and verifies |
| `PeerDiscovery.RunsCompose` | mesh/discovery.py:214-304 | a run and its moves can be taken up at any point |
| `PeerDiscovery.NeverMoved` | mesh/discovery.py:255-275 | a known peer without an accepted signed announcement is where it was |
| `PeerDiscovery.LastMoveDecides` | mesh/discovery.py:277-296 | a peer that has moved has the host and port its last accepted announcement gives, and the last onion address named |
| `PeerDiscovery.SignedHostname` | mesh/discovery.py:52-54 | the stored hostname is the signed one exactly when that is no local name, or is the sender's own |
| `PeerDiscovery.OnionUnsigned` | mesh/discovery.py:52-54 | the onion address is not covered by the signature |
| `PeerDiscovery.Listener.Receive` | mesh/discovery.py:238-296 | exactly the timestamps, their order and the peers after each datagram |
| `PeerDiscovery.Listener.Listen` | mesh/discovery.py:214-304 | a run leaves what its datagrams, in order, make of the state it began in |
| `Money.FoldUnits` | db/money.py:40-49 | the loop computes the exact total, or fails on an amount that does not parse |
| `MoneyLaws.TotalMeans` | db/money.py:33-49 | a row adds the number its amount stands for; blank, null and missing amounts are zero |
| `MoneyLaws.ReadableMeans` | db/money.py:33-49 | only a text that is no number spoils a total |
| `Money.FoldByAsset` | db/money.py:52-62 | the loop computes the totals per asset |
| `Money.TotalsArePerAsset` | db/money.py:52-62 | each asset's total is the fold of its own rows, and there is one exactly when it has an amount |
| `MoneyLaws.OneAsset` | db/money.py:26-30 | two rows are in one asset exactly when chain, decimals and lower-cased address agree |
| `Money.TotalsAddUp` | db/money.py:40-62 | the totals per asset add up to the total |
| `Money.TotalInAnyOrder` | db/money.py:40-49 | the total does not depend on the order of the rows |
| `Money.TotalsInAnyOrder` | db/money.py:52-62 | nor do the totals per asset |
| `Money.FormatTruncates` | db/money.py:65-75 | for any decimals and precision the printed decimal is the amount truncated toward zero at the places kept, exact when precision >= decimals |
| `MoneyLaws.FormatMeans` | db/money.py:65-75 | the printed amount has a minus sign exactly when negative, its whole part, and a point only before a fraction that does not end in a zero |

## Left out

- Cryptographic and library internals: SHA-256, Ed25519, ecrecover, EIP-1271, base64, os.urandom, int(), ISO dates are parameters.
- UTF-8: a text stands for its bytes, and characters are Unicode scalar values, so lone surrogates of JavaScript and Python strings do not occur.
- JSON numbers other than integers, and the rounding of integers above 2^53 in JavaScript.
- `json.loads` on text that is not in the printed form (spaces, other escapes).
- Fields of a peer's listing or announcement that are not text or integers, other than the name and date of a gopherhole, and the listing's own decoding at mesh/replication.py:42-59; the model starts from the decoded list.
- The ledger row written for a rejected gopherhole, starter files, and directories other than their names.
- The tx_hash of a gopherhole is a function of its fields and source; how its text is formed is not modelled.
- Mesh admission by stake and its verdict cache: one comparison of times, with the same shape as `StakeStanding.Reader.Status`.
- GossipMesh.EveryRowVerifies: for Pillars that only create and import; foreign listings are covered by `Gopherholes.ImportVerifiesIff` and `ForeignListings.ForeignAgreement`.
- LivenessMonitor.Monitor.FinalizeDay: a submission and its mark are one step; a process that dies between the two, or a submission that raises after it was mined, may be sent again, which the contract ignores.
- LivenessMonitor.Monitor.RunRound: which PIDs a round probes and what a probe verifies are given; floating-point thresholds are the equal integer tests.
- Judging one day from the command line calls the same `FinalizeDay`, but verdicts are only shown to stand for days the loop judged.
- ChallengeRegistry.Registry.Operate: one call is one step; races between processes, `consume_nonce=False` and sessions from zero-knowledge proofs are not modelled.
- ISO dates are compared as times where the purge compares their texts.
- StakingDirectory.Directory: the contract is only what its documentation says of its slots; replies that contradict it are not modelled.
- ABI strings, addresses and call encoding, which are slices and concatenations.
- Accounting dates, archives, menus, proxies, the vault, Tor and the browser extension.
