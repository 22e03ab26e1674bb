# Casa1 verification model

A Dafny 4.11 model of the parts of Casa1 where correctness depends on several
functions agreeing with each other, with the agreements proved for all inputs.
`dafny verify dfyconfig.toml` checks every file.

## What is modelled

- **ARM64X images** (`src/arm64x.rs`). Dynamic relocation tables of both
  versions: the parsing loops equal recursive functions (`Relocations`,
  `RelocationParser`), laying out and parsing are inverse
  (`RelocationLayout`, `TableLayout`), parsing followed by the in-place
  patching loop is total, local and order independent (`RelocationApply`,
  `RelocationTheorems`), and a table written by a linker does to memory what its
  fixups mean (`RelocationMeaning`). Reads through sections against the loaded
  image (`Sections`, `SectionMeaning`). CHPE metadata, the code map and routing,
  word by word (`ChpeMetadata`, `CodeMap`, `ChpeMeaning`). The backward
  entry-thunk search against the forward metadata and the x64 code it recognises
  (`ThunkSearch`, `ThunkMeaning`).
- **The asynchronous pipeline compiler** (`src/async_pipeline_compiler.rs`). A
  transition system whose steps are the atomic actions of the caller and of the
  Metal completion handlers (`PipelineProtocol`), an inductive invariant
  (`PipelineInvariant`), theorems over every interleaving
  (`PipelineTheorems`), what becomes of each outcome (`PipelineFates`) and of a
  flush (`PipelineFlush`), what the cache, the results and the queue are after any
  run (`PipelineHistory`), and the object itself as a class whose methods are
  sequences of protocol steps (`PipelineCompiler`).
- **Attestation and anti-debug** (`src/anticheat.rs`). Encodings
  (`AttestationEncoding`), the provider registry over whole runs
  (`AttestationRegistry`), and debug register packing (`DebugRegisters`).
- **CryptoAPI key objects and SIDs** (`src/advapi32.rs`, `src/crypto.rs`).
  RC4, the DES and RC2 block ciphers, chaining, triple DES against its
  documented mode (`Rc4`, `Rc4Meaning`, `DesBlock`, `Rc2Block`,
  `Rc2Meaning`, `BlockModes`, `TripleDes`),
  padding and whole encrypt/decrypt sessions
  (`KeyObject`, `KeySessions`), and the SID codec (`Decimal`, `Sid`).
- **The API completeness database** (`src/api_database.rs`): `ApiModel`,
  `ApiTheorems`, `ApiMeaning`, `ApiDatabase`.
- **The evidence manifest** (`ci/evidence_manifest.py`): `ManifestModel`,
  `ManifestPaths`, `ManifestTheorems`, `ManifestMeaning`, `ManifestBuilder`, and
  the JSON text that its digest
  covers (`Json`, `ManifestEncoding`).
- **ADPCM decoding** (`src/audio_format.rs`): `AdpcmSteps`, `Adpcm`,
  `AdpcmMeaning`.

Loops of the source are Dafny loops with invariants, objects that update their
fields are classes, and the image that relocations patch is an array. Machine
integers are subset types or explicit reductions; cursors over a buffer have
the type of a 64-bit `usize`, under the host language's bound on slice lengths.

## What turned out not to hold

Each of these has the exact condition under which the code does keep the
property, and a concrete case in which it does not.

- A relocation list that the parser accepts can run past the image. Acceptance
  implies that every entry applies exactly when `SizeOfImage % 8 < 4`, because
  the parser checks four bytes although entries reach eight
  (`AppliesExactly`, `AcceptedOverrun`).
- A one-byte zero fill at page offset 0 encodes as the terminating zero word;
  a fixup list reads back exactly when it holds no such fixup
  (`ReadBackExactlyWithoutTerminator`).
- Version 2 relocation records do not re-align the cursor; version 1 records
  do. The next record starts where a record ends exactly in version 2 or after
  an aligned end (`NextIsEndExactly`, `OneByteBodies`).
- The entry-thunk scan does not terminate when the code range ends at the
  largest 32-bit address and nothing names the thunk (`ScanDiverges`,
  `SomeCallDiverges`).
- `flush` is documented to return every result. No interleaving of it with the
  handlers drops a result exactly when nothing is queued, or the first queued
  request is the only one ready or still with Metal
  (`PipelineFlush.FlushLosesNothingExactly`, `FlushLosesResults`). What it does
  return is in queue order, and the first request is never the one dropped
  (`FlushReturnsInOrder`, `FlushAnswersFirst`).
- `cancel` is documented to drop the result silently. No later run delivers it
  exactly when the request had already failed
  (`CancelledNeverDeliveredExactly`, `CancelledIsDelivered`).
- `poll` discards failures. A failure is reported exactly when the first step
  that collects it is `poll_failures` or the wait on its own id
  (`FailureReportedExactly`, `PollLosesFailure`).
- A submission discards results or failures exactly at the concurrency limit,
  when there are any (`SubmitDiscardsExactly`, `SubmitDropsResult`); a ready
  result is handed out exactly when the first step that collects it is `poll`
  or a wait on its own id (`ResultDeliveredExactly`).
- `canonical_measurement` truncates lengths to 32 bits. Measurements of strings
  below a bound determine their encoding exactly when the bound is at most 2^32
  (`InjectiveExactly`, `TruncationCollides`).
- `encode_sid` says that the authority has 48 bits and admits 56; it narrows
  the subauthority count to a byte; it accepts a leading plus sign and leading
  zeros (`TextRoundTrip`, `LimitsAreReal`).
- `triple_des_cbc` is documented as 3DES-EDE-CBC. It runs three chained passes
  from the same vector instead of chaining the composite cipher. At a given key
  the two agree on given data, for every primitive and vector, exactly when the
  data is shorter than two blocks or the middle key part equals the first or the
  third (`DocumentedModeExactly`, `LongDataDiffers`). Its own decryption inverts
  it for every key (`TripleUndone`).
- The interface gate can reject what seeding has just produced: exactly when
  every deciding method is claimed exact and the evidence of one of them is
  below Differential (`SeedingPassesGate`, `UnitEvidenceFailsGate`).
- The manifest verifier can reject a fully bound manifest: exactly when the
  first target of a name that lists a bound test ignores it, while a later
  target of that name can run it (`BuilderVerifierAgree`, `ShadowingHappens`).
- The Microsoft ADPCM prediction is narrowed with wrap-around; the narrowing is
  exact for every history only for the predictors 0, 2, 3 and 4
  (`PredictionFitsExactly`).

## Assumptions

Each is a parameter or a precondition of the theorems that need it.

- SHA-256 and ECDSA are functions. `AcceptedWasSigned` assumes of the accepted
  quote alone that its signature, if it verifies, was made by the key's holder,
  and that the digest of its measurement collides with none of the signed ones;
  `HonestQuoteIsAuthentic` shows that quotes of a sound key pair meet both.
- AES on one block is a permutation for keys of 16 and 32 bytes; only theorems
  about AES keys assume it. The DES round
  function and key schedule and the RC2 key expansion are arbitrary functions.
- The manifest hash is a function of the hashed text.
- Metal completes a submission at most once. Its threads act between any two
  steps of a caller method, as an arbitrary script.
- The repository's extraction scripts, seed tables and evidence tables are inputs.

## Model

| member | source | states |
|---|---|---|
| `RelocationParser.ReadFixup` | src/arm64x.rs:968-1048 | reading one fixup from the block equals the word-level parser, for every kind, error and word count |
| `RelocationParser.ParseBlock` | src/arm64x.rs:964-1053 | the fixup loop of a page block equals the recursive parser, with no index or cursor overflow |
| `RelocationParser.ParseRelocationBlocks` | src/arm64x.rs:925-1058 | the block loop equals the recursive parser on every byte string and terminates |
| `RelocationParser.ParseTableRecords` | src/arm64x.rs:844-922 | the record loop of both table versions equals the recursive parser |
| `RelocationParser.ParseDynamicRelocations` | src/arm64x.rs:811-923 | finding the table through the sections and parsing it, with every error case |
| `RelocationLayout.FixupReadBack` | src/arm64x.rs:968-1048 | a valid fixup written as words is read as that fixup, taking exactly its words |
| `RelocationLayout.WordsReadBack` | src/arm64x.rs:964-1053 | a list of valid fixups followed by the block's end or a zero word is read back exactly |
| `RelocationLayout.PagesReadBack` | src/arm64x.rs:925-1058 | pages written one after another are read back from any aligned cursor |
| `RelocationLayout.LayoutRoundTrip` | src/arm64x.rs:925-1058 | every list of valid pages with any zero padding after it parses to the same pages and entries in order |
| `RelocationLayout.ReadBackExactlyWithoutTerminator` | src/arm64x.rs:964-1053 | a fixup list reads back exactly when it avoids the one-byte zero fill at page offset 0 |
| `RelocationLayout.WordsAreEncoded` | src/arm64x.rs:964-1053 | every word list the parser accepts is the encoding of valid fixups |
| `RelocationLayout.AcceptedIsLayout` | src/arm64x.rs:925-1058 | every accepted block list has a valid layout that parses to the same blocks |
| `TableLayout.HeaderReadBack` | src/arm64x.rs:844-922 | a record header of either version is read back wherever the record stands |
| `TableLayout.RecordsReadBack` | src/arm64x.rs:844-922 | a list of records, ARM64X and foreign, parses to the blocks of the ARM64X ones |
| `TableLayout.TableRoundTrip` | src/arm64x.rs:811-923 | a whole table of either version followed by anything parses to its blocks |
| `TableLayout.NextIsEndExactly` | src/arm64x.rs:844-922 | the next record starts where this one ends exactly in version 2 or after an aligned end |
| `TableLayout.OneByteBodies` | src/arm64x.rs:844-922 | one-byte bodies after which the two versions continue at different alignments |
| `RelocationApply.ApplyEntry` | src/arm64x.rs:1333-1370 | one entry patched in place, or refused unchanged when it does not fit |
| `RelocationApply.ApplyRelocations` | src/arm64x.rs:1333-1370 | the in-place loops leave the memory and verdict of the functional application, up to the first entry that does not fit |
| `RelocationTheorems.TableParsed` | src/arm64x.rs:976-1051 | every parsed entry has a supported size, is aligned to it and starts four bytes inside the image |
| `RelocationTheorems.AcceptedApplies` | src/arm64x.rs:1333-1370 | with SizeOfImage modulo 8 below 4 every accepted table applies to any image at least that long |
| `RelocationTheorems.AcceptedOverrun` | src/arm64x.rs:976-1051 | otherwise some accepted table holds an entry that does not fit |
| `RelocationTheorems.AppliesExactly` | src/arm64x.rs:976-1051 | acceptance implies application for all tables if and only if SizeOfImage modulo 8 is below 4 |
| `RelocationTheorems.Frame` | src/arm64x.rs:1333-1370 | no byte outside the targets changes, on success or failure |
| `RelocationTheorems.Pointwise` | src/arm64x.rs:1333-1370 | with disjoint targets each target holds the patch of the original memory |
| `RelocationTheorems.OrderIndependent` | src/arm64x.rs:1333-1370 | entries with disjoint targets give one memory and verdict in every order |
| `RelocationTheorems.DeltaUndone` | src/arm64x.rs:1356-1365 | a delta is undone by the opposite delta, wrap-around included |
| `RelocationTheorems.ValueStored` | src/arm64x.rs:1352-1355 | a value patch leaves the low bytes of the value, little-endian |
| `RelocationMeaning.InImageExactly` | src/arm64x.rs:976-1051 | the parser admits a target when four bytes at it are inside the image, or at the end of the largest image |
| `RelocationMeaning.FixupApplied` | src/arm64x.rs:1333-1370 | the entry of any fixup zeroes its bytes, stores its value, or adds or subtracts its count times four or eight, modulo 2^32 |
| `RelocationMeaning.TableMeans` | src/arm64x.rs:811-1058 | a table of either version, written, parsed and applied, makes every disjoint target what the fixup written for it means, the sign of deltas included |
| `CodeMap.ValidateCodeMap` | src/arm64x.rs:213-235 | the validator loop equals the running check |
| `CodeMap.SortedExactly` | src/arm64x.rs:213-235 | the check accepts exactly the sorted, disjoint, in-image maps |
| `CodeMap.KindIsUnique` | src/arm64x.rs:196-201 | on a valid map the first range that contains an address is the only one |
| `CodeMap.NoKind` | src/arm64x.rs:196-201 | no kind is answered exactly when no range contains the address |
| `CodeMap.ContainsExactly` | src/arm64x.rs:119-126 | a range contains the addresses from its start on, its length long, but never the largest address |
| `CodeMap.OrderIndependent` | src/arm64x.rs:196-201 | classification does not depend on the order of the ranges |
| `CodeMap.LinearIsBinary` | src/arm64x.rs:196-201 | on a valid map the linear scan equals a binary search |
| `ChpeMetadata.ParseCodeMap` | src/arm64x.rs:495-529 | the code map loop equals the recursive parser |
| `ChpeMetadata.ParseEntryPoints` | src/arm64x.rs:531-557 | the entry point loop equals the recursive parser |
| `ChpeMetadata.ParseRedirections` | src/arm64x.rs:559-580 | the redirection loop equals the recursive parser |
| `ChpeMetadata.ParseMetadata` | src/arm64x.rs:438-610 | the whole metadata parser, in the source's order of checks and errors |
| `ChpeMetadata.CodeMapExactly` | src/arm64x.rs:495-529 | the parser returns a list exactly when the table stores that list and it is sorted, disjoint, aligned and in the image |
| `ChpeMetadata.AcceptedValidates` | src/arm64x.rs:213-235 | every accepted image has a non-empty code map that passes the validator |
| `ChpeMetadata.RoutesInside` | src/arm64x.rs:237-256 | every route of an accepted image starts and ends inside the image |
| `SectionMeaning.ReadExactly` | src/arm64x.rs:366-404 | a read answers exactly the file bytes behind the first section that spans the range |
| `SectionMeaning.ReadIsLoaded` | src/arm64x.rs:366-404 | a read answers what an image loaded from the file holds at that address |
| `ChpeMeaning.HeaderExactly` | src/arm64x.rs:438-494 | a header is accepted exactly for these words, versions, counts and pointers |
| `ChpeMeaning.CodeMapIsWords` | src/arm64x.rs:495-529 | the code map is exactly the table of aligned starts tagged with their kind, and lengths, sorted and disjoint |
| `ChpeMeaning.EntryPointsExactly` | src/arm64x.rs:531-557 | the entry ranges are exactly the triples of the table, ordered and inside the image |
| `ChpeMeaning.RedirectionsExactly` | src/arm64x.rs:559-580 | the redirections are exactly the pairs of the table, source first, inside the image |
| `ChpeMeaning.ParsesExactly` | src/arm64x.rs:438-610 | a file is accepted as given metadata if and only if its words are those metadata |
| `ChpeMeaning.RoutesExactly` | src/arm64x.rs:237-256 | an address goes to the entry point of the first range around it, else to the destination of its first redirection, else nowhere |
| `ThunkSearch.Scan` | src/arm64x.rs:744-762 | the backward scan answers the lowest aligned body that names the thunk, or none when there is none |
| `ThunkSearch.Detect` | src/arm64x.rs:685-763 | the whole detection: admission errors, the x64 form first, then the scan |
| `ThunkSearch.NamesIsForward` | src/arm64x.rs:616-646 | a body names a thunk in the mapped image exactly when the forward reader yields it from the file |
| `ThunkSearch.ScanInvertsMetadata` | src/arm64x.rs:744-762 | the scan inverts the forward reader: the lowest body that yields the thunk, none exactly when no body does |
| `ThunkSearch.ScanDiverges` | src/arm64x.rs:744-762 | on the calls excluded from the scan the candidate stays in range for ever |
| `ThunkSearch.SomeCallDiverges` | src/arm64x.rs:744-762 | a call that does not return: a zeroed image whose code range is its last address |
| `ThunkSearch.VisitsCandidates` | src/arm64x.rs:744-762 | the loop's candidates are the aligned addresses from the start of the range on |
| `ThunkMeaning.DeltaExactly` | src/arm64x.rs:616-646 | every metadata word is one signed multiple of four with a tag in its low bits |
| `ThunkMeaning.EntryThunkExactly` | src/arm64x.rs:616-646 | the word written for a distance leads there, nowhere for zero, and is refused outside the image |
| `ThunkMeaning.StubRoute` | src/arm64x.rs:708-723 | the bytes of a stub to a target lead to that target relative to the base, or are refused outside the image |
| `ThunkMeaning.ForwardRoute` | src/arm64x.rs:724-742 | the bytes of a fast-forward sequence lead as far past its end as its signed displacement says, or are refused |
| `ThunkMeaning.OnlyForms` | src/arm64x.rs:708-743 | whatever is taken for an x64 form is one of the two byte sequences |
| `ThunkMeaning.LoadedAgrees` | src/arm64x.rs:744-762 | in an image loaded from the file the scan and the forward reader see the same words |
| `PipelineInvariant.ConservedStep` | src/async_pipeline_compiler.rs:336-441 | every step keeps each issued id in exactly one place |
| `PipelineInvariant.QueueStep` | src/async_pipeline_compiler.rs:579-586 | every step keeps block handles equal to the queue and queued ids live |
| `PipelineInvariant.ProvenanceStep` | src/async_pipeline_compiler.rs:381-412 | every step keeps each pipeline tied to a compilation or insertion for its key |
| `PipelineInvariant.InvStep` | src/async_pipeline_compiler.rs:336-738 | the invariant is inductive over every caller and handler step |
| `PipelineInvariant.InvRun` | src/async_pipeline_compiler.rs:336-738 | the invariant holds after every run |
| `PipelineTheorems.AtMostOnce` | src/async_pipeline_compiler.rs:547-575 | in every reachable state no id is delivered twice, or both delivered and failed, lost or live |
| `PipelineTheorems.EveryRequestAccountedFor` | src/async_pipeline_compiler.rs:547-626 | between calls every issued id is live or has one recorded fate |
| `PipelineTheorems.IdsAreSequential` | src/async_pipeline_compiler.rs:349-354 | request ids count submissions and never repeat |
| `PipelineTheorems.NoStuckWait` | src/async_pipeline_compiler.rs:596-626 | a wait spins only while Metal holds its request; otherwise the next turn ends it with the right outcome |
| `PipelineTheorems.HandlesFollowQueue` | src/async_pipeline_compiler.rs:579-586 | block handles are held for exactly the queued requests, in order |
| `PipelineTheorems.FlushEmptiesQueue` | src/async_pipeline_compiler.rs:654-663 | a flush leaves an empty queue however handlers interleave |
| `PipelineTheorems.FlushProgress` | src/async_pipeline_compiler.rs:654-663 | once Metal holds nothing each step of a flush is enabled and brings it closer to its end |
| `PipelineTheorems.FlushTerminates` | src/async_pipeline_compiler.rs:654-663 | with nothing outstanding a flush returns with an empty queue |
| `PipelineFlush.FlushReturnsInOrder` | src/async_pipeline_compiler.rs:654-663 | at every point of every interleaving a flush has handed out results of queued requests only, in queue order |
| `PipelineFlush.FlushAnswersFirst` | src/async_pipeline_compiler.rs:654-663 | past its first request a flush has delivered it or seen it fail, and never drops it, however handlers interleave |
| `PipelineFlush.FlushLosesNothingExactly` | src/async_pipeline_compiler.rs:648-663 | no interleaving of a flush drops a result if and only if nothing is queued or the first queued request is the only one ready or with Metal |
| `PipelineTheorems.FlushLosesResults` | src/async_pipeline_compiler.rs:648-663 | a reachable state in which flush loses a result |
| `PipelineFates.CancelledNeverDeliveredExactly` | src/async_pipeline_compiler.rs:628-646 | no run after a cancellation delivers the result if and only if the request had already failed |
| `PipelineFates.CancelledIsDelivered` | src/async_pipeline_compiler.rs:628-646 | a reachable cancelled request whose result is delivered |
| `PipelineFates.FailureReportedExactly` | src/async_pipeline_compiler.rs:547-575 | over any run a failure is reported if and only if the first step that collects it is poll_failures or a wait on its id |
| `PipelineFates.PollLosesFailure` | src/async_pipeline_compiler.rs:547-575 | a reachable failure that poll takes before poll_failures can report it |
| `PipelineFates.ResultDeliveredExactly` | src/async_pipeline_compiler.rs:547-626 | over any run a ready result is handed out if and only if the first step that collects it is poll or a wait on its id |
| `PipelineFates.SubmitDiscardsExactly` | src/async_pipeline_compiler.rs:344-346 | a submission discards results or failures if and only if the limit is reached and there are any |
| `PipelineFates.SubmitDropsResult` | src/async_pipeline_compiler.rs:344-346 | a reachable result that a submission at the limit drops |
| `PipelineTheorems.CacheAndResultsSound` | src/async_pipeline_compiler.rs:357-369 | over every run a cache hit or delivered pipeline was compiled from or inserted for the same key |
| `PipelineHistory.CacheExactly` | src/async_pipeline_compiler.rs:396-404 | after any run a key is cached if and only if a compilation or insertion for it came after the last clearing, and holds the latest |
| `PipelineHistory.HitsExactly` | src/async_pipeline_compiler.rs:356-372 | a submission is answered from the cache if and only if its key is stored, and then with the latest pipeline |
| `PipelineHistory.ResultIsOwn` | src/async_pipeline_compiler.rs:396-412 | a result handed out is what its own handler compiled or what was cached for its key when it was submitted |
| `PipelineHistory.QueueExactly` | src/async_pipeline_compiler.rs:433-440 | after any run the queue holds exactly the requests sent to Metal, not cancelled since and not collected |
| `PipelineHistory.QueueInOrder` | src/async_pipeline_compiler.rs:433-440 | the queue is in the order of submission |
| `PipelineTheorems.DeliveredWasSubmitted` | src/async_pipeline_compiler.rs:547-561 | every delivered result belongs to a recorded submission |
| `PipelineCompiler.Compiler.constructor` | src/async_pipeline_compiler.rs:299-313 | a new compiler is the initial protocol state with limit 8 |
| `PipelineCompiler.Compiler.SetMaxConcurrent` | src/async_pipeline_compiler.rs:320-322 | the limit step of the protocol |
| `PipelineCompiler.Compiler.SubmitPipeline` | src/async_pipeline_compiler.rs:336-441 | a submission is a run of protocol steps that answers the next id |
| `PipelineCompiler.Compiler.PollReady` | src/async_pipeline_compiler.rs:547-561 | poll hands out every ready result once and forgets finished requests |
| `PipelineCompiler.Compiler.CollectFailures` | src/async_pipeline_compiler.rs:568-575 | the failed ids are handed out once |
| `PipelineCompiler.Compiler.ReleaseFinished` | src/async_pipeline_compiler.rs:579-586 | no finished id remains in the queue or the handles, every other id does, and handles that followed the queue still follow it |
| `PipelineCompiler.Compiler.CancelRequest` | src/async_pipeline_compiler.rs:638-646 | true exactly for a queued id, which leaves queue and handles |
| `PipelineCompiler.Compiler.WaitForPipeline` | src/async_pipeline_compiler.rs:596-626 | the wait loop as protocol steps, ending with the request's outcome |
| `PipelineCompiler.Compiler.FlushQueue` | src/async_pipeline_compiler.rs:654-663 | flush as protocol steps; the queue ends empty |
| `PipelineCompiler.Compiler.ClearCache` | src/async_pipeline_compiler.rs:681-684 | both caches cleared, one after the other |
| `PipelineCompiler.Compiler.CachePipeline` | src/async_pipeline_compiler.rs:705-738 | an explicit insertion for a key |
| `PipelineCompiler.Compiler.GetCached` | src/async_pipeline_compiler.rs:694-728 | a hit if and only if a compilation or insertion for the key came after the last clearing, and then the latest one |
| `AttestationEncoding.CanonicalMeasurement` | src/anticheat.rs:1426-1446 | the encoding loops equal the recursive encoding |
| `AttestationEncoding.CanonicalInjective` | src/anticheat.rs:1426-1446 | different measurements below the 2^32 bounds have different encodings, even with anything after them |
| `AttestationEncoding.TruncationCollides` | src/anticheat.rs:1442-1446 | a UTF-8 build id of 2^32 bytes with the encoding of a measurement of three features |
| `AttestationEncoding.InjectiveExactly` | src/anticheat.rs:1426-1445 | measurements of UTF-8 strings below a bound determine their encoding if and only if the bound is at most 2^32 |
| `AttestationEncoding.MessageInjective` | src/anticheat.rs:1453-1460 | a signed message determines provider, nonce and digest |
| `AttestationEncoding.WireRoundTrip` | src/anticheat.rs:1191-1230 | a challenge comes back off the wire but for its verifier, or not at all when malformed |
| `AttestationEncoding.WireExact` | src/anticheat.rs:1191-1230 | an accepted challenge is written back byte for byte |
| `AttestationRegistry.TrustStore.RegisterProvider` | src/anticheat.rs:1046-1055 | enrolment in place, every refusal leaving the store unchanged |
| `AttestationRegistry.TrustStore.RevokeProvider` | src/anticheat.rs:1063-1067 | revocation in place, answering whether the provider was registered |
| `AttestationRegistry.TrustStore.VerifyQuote` | src/anticheat.rs:1089-1149 | the verdict in the source's order of checks; only acceptance consumes the nonce |
| `AttestationRegistry.NonceAcceptedOnce` | src/anticheat.rs:1089-1149 | over any run each nonce is accepted at most once |
| `AttestationRegistry.RevokedForGood` | src/anticheat.rs:1046-1067 | after a revocation the provider is never accepted or enrolled again |
| `AttestationRegistry.KeyNeverChanges` | src/anticheat.rs:1046-1055 | a registered key stays the same for ever |
| `AttestationRegistry.NoProviderNeverRecurs` | src/anticheat.rs:1089-1149 | the no-provider verdict never recurs after an enrolment or revocation |
| `AttestationRegistry.RejectedChangesNothing` | src/anticheat.rs:1046-1149 | a rejected call leaves the state as it was |
| `AttestationRegistry.AcceptedExactly` | src/anticheat.rs:1089-1149 | a quote is accepted if and only if it passes fifteen checks stated in numbers, the deadline issuedAt + ttl included |
| `AttestationRegistry.RefusalNamed` | src/anticheat.rs:1089-1149 | the first check in source order that a quote fails names the error |
| `AttestationRegistry.EmptyRegistryRefuses` | src/anticheat.rs:1089-1100 | before any enrolment or revocation nothing can be attested |
| `AttestationRegistry.AcceptedWasSigned` | src/anticheat.rs:1089-1149 | an accepted quote was signed by the registered key for that provider, nonce and measurement |
| `AttestationRegistry.AcceptedAsExpected` | src/anticheat.rs:1089-1149 | a demanded measurement is the accepted one |
| `AttestationRegistry.HonestQuoteAccepted` | src/anticheat.rs:1010-1026 | a quote signed by an enrolled, unrevoked, unexpired provider for a fresh challenge is accepted |
| `AttestationRegistry.HonestQuoteIsAuthentic` | src/anticheat.rs:1010-1026 | the same quote meets the assumptions about forgery and collisions |
| `AttestationRegistry.ReplayRefused` | src/anticheat.rs:1089-1149 | an accepted quote is refused after any later run |
| `DebugRegisters.SetRefines` | src/anticheat.rs:365-398 | setting a slot's DR7 bits is storing one breakpoint in an abstract array of four |
| `DebugRegisters.ClearRefines` | src/anticheat.rs:400-409 | clearing a slot's bits is emptying that slot and no other |
| `DebugRegisters.ReadsBack` | src/anticheat.rs:136-164 | enable, condition and length code of every slot read back from the register |
| `DebugRegisters.CodeExactly` | src/anticheat.rs:361-380 | a length is encoded by the one field that makes the processor watch so many bytes |
| `DebugRegisters.PackInjective` | src/anticheat.rs:136-164 | no register stands for two different arrays |
| `DebugRegisters.EveryRunReadsBack` | src/anticheat.rs:356-409 | after any sets and clears on any threads every slot reads back its own last edit |
| `DebugRegisters.AntiDebugSurface.constructor` | src/anticheat.rs:196-208 | a new surface is detached with no thread contexts |
| `DebugRegisters.AntiDebugSurface.SetHardwareBreakpoint` | src/anticheat.rs:365-398 | accepted exactly for a valid slot, condition and length; other slots and threads untouched |
| `DebugRegisters.AntiDebugSurface.ClearHardwareBreakpoint` | src/anticheat.rs:400-409 | accepted exactly for a valid slot; only that slot changes and the address stays |
| `DebugRegisters.AntiDebugSurface.ReadBreakpoint` | src/anticheat.rs:136-164 | a guest reads what was last asked for |
| `DebugRegisters.AntiDebugSurface.Attach` | src/anticheat.rs:262-287 | attach errors, the fresh handle, and agreement of flag, port and object |
| `DebugRegisters.AntiDebugSurface.Detach` | src/anticheat.rs:293-304 | detach errors and agreement of flag, port and object |
| `Rc4.CipherUndone` | src/crypto.rs:27-53 | applying RC4 twice under one key returns the data |
| `Rc4.Schedule` | src/crypto.rs:27-42 | the in-place key schedule equals its recursive form |
| `Rc4.Run` | src/crypto.rs:27-53 | the two loops xor the data with a stream that depends on the key alone |
| `Rc4Meaning.ScheduleStep` | src/crypto.rs:27-41 | each schedule step adds the table and the repeated key modulo 256 and exchanges two positions |
| `Rc4Meaning.StreamStep` | src/crypto.rs:42-51 | each stream byte: the counter, the running sum, the exchange and the selected byte |
| `Rc4Meaning.StreamPermutes` | src/crypto.rs:27-53 | whatever the key, the table is a permutation of the bytes at every point |
| `DesBlock.PermutationsInverse` | src/crypto.rs:60-72 | the initial and final permutations of FIPS 46-3 undo each other both ways |
| `DesBlock.RoundsUndone` | src/crypto.rs:177-195 | the Feistel rounds with reversed keys on swapped halves undo the rounds, for every round function |
| `DesBlock.CipherUndone` | src/crypto.rs:177-200 | each direction of the block cipher undoes the other |
| `DesBlock.CipherBlock` | src/crypto.rs:177-200 | the round loop with its key index equals the specification |
| `Rc2Block.BackwardAfterForward` | src/crypto.rs:330-350 | a reverse mixing or mashing step undoes the step |
| `Rc2Block.DecryptionReversesEncryption` | src/crypto.rs:352-398 | the decryption schedule, counting its key index down, is the encryption schedule reversed |
| `Rc2Block.CipherUndone` | src/crypto.rs:316-410 | each direction of the block cipher undoes the other, for every expanded key |
| `Rc2Block.CipherBlock` | src/crypto.rs:316-410 | the round loops with the running key index equal the specification |
| `Rc2Meaning.RotateExactly` | src/crypto.rs:331-350 | the four words rotate left by one, two, three and five |
| `Rc2Meaning.CompositeExactly` | src/crypto.rs:324-328 | a mixing step adds the bitwise choice, by the word before, between the two words before that |
| `Rc2Meaning.MixExactly` | src/crypto.rs:330-339 | a mixing step adds key word and choice modulo 2^16 and rotates, and touches no other word |
| `Rc2Meaning.MashExactly` | src/crypto.rs:358-361 | a mashing step adds the key word that the low six bits of the word before select |
| `BlockModes.WholeExactly` | src/advapi32.rs:849-870 | data splits into whole blocks exactly when its length is a multiple of the block size |
| `BlockModes.CbcUndone` | src/crypto.rs:203-228 | chaining in one direction undoes chaining in the other from the same vector, for every cipher |
| `BlockModes.SealedBlock` | src/crypto.rs:212-220 | ciphertext block i is the cipher of plaintext block i xored with ciphertext block i-1 (section 6.2 of NIST SP 800-38A) |
| `BlockModes.RunCbc` | src/crypto.rs:203-228 | the chaining loop equals the specification |
| `BlockModes.RunTriple` | src/crypto.rs:240-254 | the three passes and the choice of key parts |
| `BlockModes.TripleUndone` | src/crypto.rs:240-254 | triple DES decryption undoes encryption and the reverse |
| `BlockModes.TripleCollapses` | src/crypto.rs:236-254 | with two equal neighbouring key parts triple DES is single DES under the remaining part |
| `TripleDes.ShortDataAgrees` | src/crypto.rs:236-254 | below two blocks the three passes are CBC over the encrypt-decrypt-encrypt composite |
| `TripleDes.EqualPartsAgree` | src/crypto.rs:236-254 | when the middle key part equals a neighbour the two modes agree on any data, partial last blocks included |
| `TripleDes.LongDataDiffers` | src/crypto.rs:236-254 | at any other key and for any data of two blocks or more, a round function, key schedule and vector under which the two modes differ |
| `TripleDes.DocumentedModeExactly` | src/crypto.rs:236-254 | at a given key the source encrypts given data as documented under every primitive and vector if and only if the data is shorter than two blocks or the middle key part equals a neighbour |
| `KeyObject.UnpadExactly` | src/advapi32.rs:802-915 | among whole blocks exactly the padded messages unpad, each to its own message (section 6.3 of RFC 5652) |
| `KeyObject.BlocksUndone` | src/advapi32.rs:813-944 | either direction of every block algorithm undoes the other from one chaining state, the zero-extended AES vector included |
| `KeyObject.EncryptsExactly` | src/advapi32.rs:813-846 | encryption answers exactly for supported algorithms and key lengths, with the padded length |
| `KeyObject.DecryptsExactly` | src/advapi32.rs:849-888 | decryption answers m on c if and only if encryption answers c on m, and both leave the same key |
| `KeyObject.KeyKept` | src/advapi32.rs:813-888 | a call changes nothing of a key but its chaining state |
| `KeyObject.SessionReadBack` | src/advapi32.rs:813-888 | decrypting a whole encrypt session from an equal key returns every message, with equal keys after each |
| `KeySessions.NextStart` | src/advapi32.rs:812-900 | every block call leaves the last eight bytes of its ciphertext as chaining state, refused padding included |
| `KeySessions.NothingMoves` | src/advapi32.rs:812-900 | a call that does not reach the cipher leaves the key as it was |
| `KeySessions.CallsChain` | src/advapi32.rs:812-850 | each call of a session starts from the last eight bytes of the answer before it |
| `KeySessions.SessionIsOneChain` | src/advapi32.rs:812-850 | the answers of a DES or RC2 session are one chain over all its padded messages |
| `KeySessions.AesStart` | src/advapi32.rs:838-844 | an AES call chains its first block from the eight kept bytes and eight zeros |
| `KeyObject.CryptKey.constructor` | src/advapi32.rs:784-797 | a new key object has the zero vector |
| `KeyObject.CryptKey.Encrypt` | src/advapi32.rs:813-846 | the answer and the chaining state the call leaves |
| `KeyObject.CryptKey.Decrypt` | src/advapi32.rs:849-888 | the answer and the chaining state the call leaves, which moves on even when padding is refused |
| `Decimal.PrintsBackExactly` | src/advapi32.rs:154-161 | an accepted decimal prints back as itself exactly when it has no sign and no leading zero |
| `Sid.ParseOfText` | src/advapi32.rs:151-164 | the text of an identifier parses back to it exactly when the authority is at most 56 bits and there is a subauthority |
| `Sid.TextInjective` | src/advapi32.rs:187-199 | one text stands for one identifier |
| `Sid.ParseOfBinary` | src/advapi32.rs:165-197 | the binary form reads back up to the 48-bit authority, or not at all past 255 subauthorities |
| `Sid.BinaryOfParse` | src/advapi32.rs:177-197 | every accepted binary form is the binary form of what it stands for |
| `Sid.BinaryRoundTrip` | src/advapi32.rs:151-200 | decode then encode returns the bytes exactly when there is a subauthority |
| `Sid.DecodeInjective` | src/advapi32.rs:177-200 | no two binary forms decode to one text |
| `Sid.TextRoundTrip` | src/advapi32.rs:151-200 | encode then decode returns the text if and only if it is canonical, with a 48-bit authority and 1 to 255 subauthorities |
| `Sid.LimitsAreReal` | src/advapi32.rs:156-167 | a 49-bit authority comes back as zero and 256 subauthorities do not come back |
| `Sid.EncodeSid` | src/advapi32.rs:151-174 | the encoding loop equals parse then binary form |
| `Sid.DecodeSid` | src/advapi32.rs:177-200 | the decoding loop equals binary parse then text |
| `ApiTheorems.WorstExactly` | src/api_database.rs:473-488 | the fold is below a bound exactly when every considered row is, on all four axes |
| `ApiTheorems.ConsideredExactly` | src/api_database.rs:460-470 | required rows decide the aggregate, or all rows when none is required |
| `ApiTheorems.ProvenExactly` | src/api_database.rs:489-503 | an aggregate is proven exactly when every considered row is |
| `ApiTheorems.SeedingSettles` | src/api_database.rs:924-984 | after seeding every interface's entry carries the worst status of its rows, duplicate listings included |
| `ApiTheorems.SeedingPassesGate` | src/api_database.rs:779-891 | seeding leaves only unproven-claim findings, and none exactly when no interface with an entry makes an unproven claim in the tables |
| `ApiTheorems.ProvenTablesPassGate` | src/api_database.rs:779-891 | with only Differential and Conformance evidence the gate is empty |
| `ApiTheorems.UnitEvidenceFailsGate` | src/api_database.rs:872-888 | unit evidence leads to a finding |
| `ApiTheorems.CompletenessImpliesShipping` | src/api_database.rs:1125-1258 | both completeness gates empty leave the shipping gate only duplicate keys and excluded optional features |
| `ApiTheorems.NothingExcludedShips` | src/api_database.rs:1006-1105 | with nothing excluded it can report only duplicate keys |
| `ApiTheorems.AmbiguityExactly` | src/api_database.rs:1008-1027 | a duplicate is reported exactly when two entries share a full key |
| `ApiTheorems.GuardedAddKeepsDistinct` | src/api_database.rs:656-663 | adding a row keeps full keys distinct exactly when its key is free |
| `ApiTheorems.LookUpExactly` | src/api_database.rs:719-733 | with distinct keys a lookup answers the one row of its key |
| `ApiTheorems.LookUpOrderIndependent` | src/api_database.rs:719-733 | with distinct keys no reordering changes a lookup |
| `ApiTheorems.DuplicateOrderMatters` | src/api_database.rs:719-733 | two different rows with one full key make some reordering change a lookup |
| `ApiTheorems.RaisedExactly` | src/api_database.rs:1389-1410 | a merged coverage level is the strongest of the entry's and the applying rows' |
| `ApiTheorems.EvidenceOrderIndependent` | src/api_database.rs:1389-1410 | evidence order does not matter and a second merge changes nothing |
| `ApiMeaning.StemOf` | src/api_database.rs:580-585 | a library is named by its stem in any case, with or without suffix and surrounding space |
| `ApiMeaning.LowerExactly` | src/api_database.rs:580-585 | two names have one key exactly when they differ only in the case of ASCII letters |
| `ApiMeaning.SeedExactly` | src/api_database.rs:924-984 | what a seeded row claims, from its evidence and restriction |
| `ApiMeaning.InterfaceExactly` | src/api_database.rs:779-891 | of one interface the gate reports exactly missing rows, overstated rows, or unproven claims |
| `ApiMeaning.UnknownExactly` | src/api_database.rs:779-891 | a row of an unlisted interface is reported once, at its first row |
| `ApiMeaning.ShippingExactly` | src/api_database.rs:1006-1105 | the shipping gate reports exactly what is wrong with each entry, by kind |
| `ApiMeaning.CompletenessExactly` | src/api_database.rs:1125-1258 | the completeness gate reports exactly the incomplete entries in a tier's scope |
| `ApiMeaning.AppliesExactly` | src/api_database.rs:1389-1410 | evidence raises exactly the entries of its API, architecture and version |
| `ApiDatabase.AggregateStatus` | src/api_database.rs:454-504 | the aggregation loops equal the specification |
| `ApiDatabase.Database.AddSkeleton` | src/api_database.rs:1334-1357 | a row is added exactly when its full key is free |
| `ApiDatabase.Database.DeclareUnsupported` | src/api_database.rs:672-693 | every spelling of the API's names finds the error, no other API's answer changes, and its stubs pass the shipping gate |
| `ApiDatabase.Database.ApplySurface` | src/api_database.rs:924-984 | the seeding loops equal the specification |
| `ApiDatabase.Database.CheckInterfaces` | src/api_database.rs:779-891 | the interface gate's loops equal the specification, one unknown finding an interface |
| `ApiDatabase.Database.CheckShipping` | src/api_database.rs:1006-1105 | the shipping gate's loop with its set of seen keys equals the specification |
| `ApiDatabase.Database.CheckCompleteness` | src/api_database.rs:1125-1258 | the completeness gate's loop followed by the interface gate |
| `ApiDatabase.Database.ApplyEvidence` | src/api_database.rs:1389-1410 | every entry is raised by exactly the applying rows |
| `Ordering.SortedExactly` | ci/evidence_manifest.py:530-539 | a list equals its stable sort exactly when it is in order |
| `Ordering.StringLeqExactly` | ci/evidence_manifest.py:525-560 | a string is not after another when it begins it or has the smaller character where they first differ |
| `ManifestPaths.ShortExactly` | ci/evidence_manifest.py:373-382 | the short name of a path is the name it is or ends in after `::`, and no other |
| `ManifestMeaning.SuiteExactly` | ci/evidence_manifest.py:396-423 | a suite's bindings are sorted, distinct, and exactly its runnable integration target and the runnable tests whose path names it |
| `ManifestMeaning.BuildExactly` | ci/evidence_manifest.py:351-465 | a declared id is bound to everything that proves it, deferred when the oracle has no such category, and else unbound |
| `ManifestMeaning.ReasonExactly` | ci/evidence_manifest.py:425-462 | an unbound entry says exactly what is missing |
| `ManifestMeaning.VerifiesExactly` | ci/evidence_manifest.py:525-852 | a manifest is accepted if and only if its header, targets, coverage, deferrals and every binding hold |
| `ManifestTheorems.TestEntryExactly` | ci/evidence_manifest.py:714-740 | a built test binding is refused exactly when the first target that lists the test ignores it |
| `ManifestTheorems.BuiltBindingsExactly` | ci/evidence_manifest.py:647-743 | the built bindings are refused exactly when a runnable test is shadowed |
| `ManifestTheorems.BuilderVerifierAgree` | ci/evidence_manifest.py:795-851 | a built manifest verifies if and only if its targets are well formed, nothing is unbound and no runnable test is shadowed |
| `ManifestTheorems.BuildFailsExactly` | ci/evidence_manifest.py:365-374 | the builder gives up exactly when the verifier refuses every manifest over the required categories |
| `ManifestTheorems.UniquePathsNotShadowed` | ci/evidence_manifest.py:714-740 | nothing is shadowed when no test path is listed by two targets of one name |
| `ManifestTheorems.ShadowingHappens` | ci/evidence_manifest.py:714-740 | a fully bound manifest over a well-formed target list that is refused for an ignored test |
| `ManifestTheorems.TargetsExactly` | ci/evidence_manifest.py:525-560 | a target list passes exactly when it is non-empty, ordered, key-unique, with sorted unique tests and ignored tests among them |
| `ManifestTheorems.AcceptedIsProven` | ci/evidence_manifest.py:647-743 | any manifest that verifies gives every declared conformance or scenario id a compiled, non-ignored, non-meta test |
| `ManifestTheorems.AcceptedDifferential` | ci/evidence_manifest.py:580-682 | any manifest that verifies binds every differential id to a required, executable category or lists it as deferred with a reason |
| `Json.PrintedInjective` | ci/evidence_manifest.py:204-207 | two JSON values with one compact text are equal, escapes and surrogate pairs included, whatever follows that cannot continue a number |
| `ManifestEncoding.EncodingInjective` | ci/evidence_manifest.py:184-207 | different payloads have different hashed texts |
| `ManifestEncoding.EncodingCanonical` | ci/evidence_manifest.py:184-207 | every object of the hashed document has its keys in strict order, and the text is printable ASCII |
| `ManifestEncoding.DigestCoversPayload` | ci/evidence_manifest.py:184-207 | two verifying manifests with one digest have one payload, or their texts are a collision of the hash |
| `ManifestTheorems.NotesAreNotCovered` | ci/evidence_manifest.py:184-207 | the verdict does not depend on the toolchain and source notes |
| `ManifestBuilder.IndexTargets` | ci/evidence_manifest.py:376-382 | the two dictionaries answer what a scan of the targets would |
| `ManifestBuilder.BindSuite` | ci/evidence_manifest.py:398-419 | one suite's entries through the index equal the specification |
| `ManifestBuilder.BindDeclarations` | ci/evidence_manifest.py:351-465 | every declared id is bound, unbound or deferred as specified, or the builder gives up |
| `ManifestBuilder.VerifyBindings` | ci/evidence_manifest.py:647-743 | the loop over the bindings collects exactly the specified errors |
| `AdpcmSteps.DeltaInRange` | src/audio_format.rs:292-295 | every updated delta is between 16 and 32767, whatever the header held |
| `AdpcmSteps.Change` | src/audio_format.rs:281-287 | the sample change fits 16 bits without wrapping for every delta and nibble |
| `AdpcmSteps.PredictionFitsExactly` | src/audio_format.rs:276-278 | the 16-bit narrowing is exact for every history if and only if the predictor is 0, 2, 3 or 4 |
| `AdpcmSteps.DifferenceClose` | src/audio_format.rs:404-415 | the IMA difference is the odd multiple of an eighth step that the bits name, within 17 eighths |
| `Adpcm.DecodedLength` | src/audio_format.rs:187-194 | the output has whole blocks times samples per block times channels samples |
| `Adpcm.DecodedSample` | src/audio_format.rs:196-304 | every output sample is the sample of its own channel, by that channel's header and nibbles in its own block |
| `Adpcm.NibbleInside` | src/audio_format.rs:253-260 | the byte of every nibble is inside its block, so the zero-fill fallback is never taken |
| `AdpcmMeaning.NibbleReadBack` | src/audio_format.rs:156-307 | each nibble is the one written as the so-manieth after the header, high half first |
| `AdpcmMeaning.MsBlock` | src/audio_format.rs:156-307 | in a Microsoft block of given headers and nibbles a channel is its own header run over its own nibbles |
| `AdpcmMeaning.ImaBlock` | src/audio_format.rs:324-434 | in an IMA block of given headers and nibbles a channel is its own header run over its own nibbles |
| `AdpcmMeaning.OldestFirst` | src/audio_format.rs:156-307 | a Microsoft block starts with the older and then the newer header sample |
| `AdpcmMeaning.BlockFits` | src/audio_format.rs:156-434 | a written block of so many samples a channel is exactly as long as the decoders expect |
| `AdpcmMeaning.DecodesExactly` | src/audio_format.rs:156-434 | what is decoded at all: a channel, and three or one samples a block |
| `AdpcmMeaning.MsMoves` | src/audio_format.rs:156-307 | the prediction, change, saturation and adaptation of one Microsoft step |
| `AdpcmMeaning.ImaMoves` | src/audio_format.rs:324-434 | an IMA step moves by the odd multiple of an eighth of the step that the nibble names, down for its high bit, within range |
| `AdpcmMeaning.QuotientExactly` | src/audio_format.rs:156-307 | division toward zero, by what makes the quotient unique |
| `Adpcm.DecodeMsBlock` | src/audio_format.rs:204-303 | the interleaved Microsoft loops equal the channel-by-channel reference |
| `Adpcm.DecodeImaBlock` | src/audio_format.rs:362-430 | the interleaved IMA loops equal the channel-by-channel reference |
| `Adpcm.Decode` | src/audio_format.rs:156-434 | both decoders over whole buffers, degenerate parameters and a partial last block included |

## Left out

- The ARM64 exception and unwind tables, the auxiliary import tables and export routing of `src/arm64x.rs`: they would add bounds checks only.
- PipelineCompiler.Compiler.SubmitPipeline: render and compute submissions are one method over a flavour and a key, because their bodies differ only in the descriptor and the cache they use; the two caches are one map keyed by flavour and key.
- Descriptor-to-key extraction, the Metal device and the Objective-C blocks: foreign code; keys, completions and compiled states are inputs.
- Memory ordering below mutex and atomic granularity in the pipeline compiler: each locked region is one step.
- `InstallIdentityStore`, file hashing, the monotonic clock and driver-name detection of `src/anticheat.rs`: disk, host clock and string tables.
- SHA-256, ECDSA, SPKI and DER: parameters of the attestation theorems.
- Exception dispatch, hidden threads and the process-information queries of the anti-debug surface: short branch tables.
- BlockModes.RunCbc: the DES round function and key schedule, the RC2 key expansion and the AES block are parameters; the key expansion loops are not modelled.
- TripleDes.LongDataDiffers: the round function and key schedule that tell the modes apart are not the tables of DES, which are not part of this model; nothing is stated of those tables alone.
- ManifestEncoding.EncodingInjective: strings are sequences of Unicode scalar values; the lone surrogates that the host language also admits are not modelled.
- Sid.EncodeSid: decimal parsing and splitting are functions of the host language's library and are modelled as such, not as loops.
- Token, service and registry helpers of `src/advapi32.rs`.
- ApiDatabase.Database.CheckCompleteness: message texts are not modelled; findings carry library, name and kind.
- Seed tables, semantic overrides, the completeness report and workload recording of `src/api_database.rs`.
- ManifestTheorems.BuilderVerifierAgree: manifests are typed records, so the verifier's reports about malformed JSON shapes are not modelled; errors are a set of kinds without message texts, and the unbound and deferred lists are in declaration order, which is the source's order of ids when the declarations are sorted, as the source extracts them.
- Extraction by cargo, git and regular expressions in `ci/evidence_manifest.py`.
- Adpcm.Decode: the source's fallbacks for a missing byte and for a short last block are proved dead and are not written as branches.
- G.711, float and PCM width conversions of `src/audio_format.rs`: finite per-sample tables.
- Floating-point reporting, the CPU and JIT back ends, the window system and the other subsystems of the repository.
