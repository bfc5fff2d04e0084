# A verified mirror: log index, admission and series

This project models one mirror of an append-only transparency log and proves what it holds and
what it serves. The mirror has two halves that meet when a checkpoint is admitted.

*The index.* Canonical entries sit in consecutive positions. Beside them the store keeps the root of
every complete power-of-two subtree, extended at each promotion. Roots, inclusion paths, consistency
paths and range proofs are all opened from those rows in logarithmically many reads, and a complete
row that is missing is refused by name rather than recomputed. Everything opened is compared with the
Merkle tree hash of section 2.1 of RFC 6962 over the whole leaf sequence, and with the proofs of
sections 2.1.3 and 2.1.4 of RFC 9162.

*Admission and the series.* Entries are staged by content, promoted only against a proof, and
checkpoints are ingested in one transaction: a proof-gated visible prefix, the governance chain it
contains, the questions of series membership and rotation, then the commit. Over the two checkpoint
tables stand the computed views: which members are series-usable, where two records disagree, how far
the series is proven gap-free, and the incorporation bound (ITUB) of an index.

The strongest result joins the halves: if every checkpoint that verifies comes from one log, then
after any sequence of stage, promote and ingest steps, failed ones included, the mirror holds exactly
a prefix of that log and there is no equivocation. Whether it then serves what it holds turns on one
thing, which is stated exactly: the governance the frontier asks for must not be out of reach, as it
is once an authentic statement of another revision is among the entries asked about. Where the walk
of the log goes through that never happens, and every listed size held answers every window of it
with a range response that a receiver accepts and that carries exactly that log's entries.

## How it is laid out

| files | what they hold |
|---|---|
| `Wrappers`, `Bits`, `Digits`, `TextOrder` | result types, powers of two and bit counts, digit text, the series order |
| `Encoding` | digests, entry bytes and JSON statements as terms |
| `Merkle`, `Inclusion`, `Consistency`, `Range` | the tree and its three kinds of proof, sound and complete |
| `Tables`, `StoreSpec`, `SubtreeCache`, `CacheRepair` | the tables, what each store operation makes of them, and the cache invariant |
| `TreeOpening`, `ProofOpening`, `NodeReader` | opening roots and proofs from stored nodes; the reader object that counts and captures |
| `MirrorStore`, `Mirror` | the store as a class, and ingest, promotion and the view as methods over it |
| `Duration`, `DurationParser`, `DurationProofs` | cadence text |
| `Calendar`, `CheckpointTime` | checkpoint time text and the civil calendar behind it |
| `Governance`, `GovernanceWalk`, `GovernanceChain`, `Authentication`, `Succession` | the verified manifest chain, what each entry does to it, and what it authenticates |
| `SeriesOrder`, `Series`, `Usability`, `GapFree`, `Views`, `Incorporation`, `Retroactivity` | the series and its views |
| `Computability`, `Governed`, `OtherRevision` | when a view errs, what a run never leaves ungoverned, and one entry that takes the view back |
| `Admission`, `DenseSlots`, `Commitment`, `RotationAnchors`, `Publication`, `CatchUp`, `Acceptance` | admission: what it keeps, and exactly when it accepts |
| `Runs`, `Content` | runs of steps, and what every run keeps |
| `Enumeration`, `Grounding`, `LostRows` | range responses, what each read route may ground an answer on, and what it does over a damaged cache |

Operations that update state are methods of classes (`MirrorStore.Store`, `NodeReader.Reader`,
`GovernanceWalk.Walker`) or methods with loops; each is proved equal to a function of its inputs or of
the old tables, and the theorems are about those functions. Some lemmas begin with a `hide` statement:
it only keeps definitions the proof does not need away from the solver.

## What is assumed

- Digests are terms: distinct inputs have distinct digests, an entry id determines the bytes it names,
  and the textual form of a hash is read back injectively. This is collision resistance made exact.
- The producer-signature check of an envelope and the Ed25519 check of a checkpoint blob are arbitrary
  functions carried in `Governance.Config`; either may fail outright. No property of them is assumed
  except where a lemma says so in its `requires`.
- The proof builders and verifiers of the two external crates are modelled from the recursions of RFC
  6962 and RFC 9162 and from what this repository documents of its callbacks: a builder asks the node
  reader only for aligned power-of-two spans and descends where it is told nothing is stored; a path of
  the wrong length opens no root; a header outside the tree is an error. A proof from the empty tree is
  the empty path, which no admitted checkpoint needs.
- A public key text denotes one key, so key objects are compared by the key they denote.
- `u64` read counters saturate in the program and are unbounded here; every index and size that is
  stored is held to the `i64` and `u64` bounds the program checks.

## Where the code and its own text disagree, and where a property fails

- `src/store.rs:1135-1137` says a cache table of the right size but the wrong shape is caught on open.
  `CacheRepair.WrongShapeLooksComplete` gives a table that passes both tests and is wrong.
  `CacheRepair.RightShapeExact` gives the exact condition, in key arithmetic alone: a table has the
  right shape if and only if it has no stray row and the tests pass. `CacheRepair.LooksCompleteExact`
  adds the hashes: it is the exact cache if and only if every row it holds is right and they pass.
- The duration grammar of `src/duration.rs:34-41` has no sign, but the integer parse of whole seconds
  accepts a leading plus. `DurationProofs.PlusIsAccepted` exhibits it, and
  `DurationProofs.DocumentedExact` says the parser is the documented grammar exactly on texts without
  a plus sign.
- `src/checkpoint.rs:936-938` says the computed view passes on errors of the store and of time parsing.
  Over the store of any run it passes on neither, and does pass on another: an authentic statement of
  another revision, or a signature check that fails outright, fails the walk of every prefix holding
  that entry (`src/manifest.rs:304-317`), and the frontier's lookup propagates it
  (`src/checkpoint.rs:773`, `src/checkpoint.rs:906`). So one appended entry can take the whole view
  back, and with it every route that reads the view, for sizes served before.
  `OtherRevision.OneEntryTakesTheViewBack` is such a run over one honest log.
  `Computability.ViewErrsExact` says exactly when: the view errs if and only if the frontier asks for
  the governance of a usable member and the walk of the entries up to it fails.
  `Computability.AppendingKeepsTheView` says what an append keeps where the walk goes through.

## Model

| member | source | states |
|---|---|---|
| Runs.OneLogIsMirrored | src/checkpoint.rs:676-749 | If every checkpoint that verifies, under entries of one log and entries its own claimed root opens to, commits the root of a prefix of that log, then after any run of stage, promote and ingest steps, failures included, canonical storage is a prefix of that log, there is no equivocation floor, and every listed member within the held prefix is series-usable |
| Grounding.OneLogAnswers | src/http.rs:294-312 | Under the same hypothesis a listed size the mirror holds answers a window of it exactly when no governance the frontier asks for is out of reach, and what it answers is accepted by the receiver's check and carries exactly that part of the log |
| Grounding.OneLogIsServed | src/http.rs:294-312 | Under the same hypothesis and where the governance walk of that log goes through, every listed size the mirror holds answers every window of it, and the receiver's check accepts the answer, which carries exactly that part of the log |
| Computability.ViewErrsExact | src/checkpoint.rs:939-1001 | Over a valid store of well-recorded checkpoints the view errs, and with which error, exactly when the frontier asks for the governance of a usable member and the walk of the entries up to its size fails with that error |
| Computability.FrontierAsks | src/checkpoint.rs:845-912 | For any lookup that answers the genesis it names and members whose times parse, the frontier errs exactly where a question it asks errs: about the first member, when it is below the floor, or about the last member of a gap-free prefix whose successor is below the floor and in time order |
| Computability.RunViewExact | src/checkpoint.rs:939-1001 | After any run the view computes exactly when no such question is in vain |
| Computability.RunHasView | src/checkpoint.rs:759-775 | After any run, if the governance walk of what is held goes through, the view computes, whatever was recorded |
| Computability.WalkErrors | src/manifest.rs:426-462 | The only errors a walk of any entries can meet are an unsupported revision and a signature check that failed outright |
| Computability.LookupExact | src/checkpoint.rs:759-775 | Over a held prefix the lookup answers the state the walk of it reaches, nothing where no genesis was met, and the walk's own error otherwise |
| Computability.UnheldLookup | src/checkpoint.rs:764-770 | Past what is held the lookup finds nothing, and does not fail |
| OtherRevision.OneEntryTakesTheViewBack | src/manifest.rs:304-317 | A concrete deployment, honest log and run: the view computes and the first size is served, then one more entry of the log is promoted, and the view and that same route err with the unsupported revision |
| OtherRevision.RevisionStopsTheWalk | src/manifest.rs:304-317 | The concrete log's genesis resolves, and the walk of its two entries fails at the second |
| Governed.NeverUnresolvable | src/checkpoint.rs:901-911 | After any run a view that computes never stops for unresolvable governance: that stop is unreachable |
| Governed.RunGoverns | src/checkpoint.rs:684-719 | After any run every recorded checkpoint has a verified version in the log at or below its size |
| CatchUp.CatchesUp | src/checkpoint.rs:635-675 | A checkpoint of the log that verifies under the log's own governance, contested by no record at its size and time, and submitted with exactly the entries the mirror lacks, distinct and already staged, is admitted, and the mirror then holds exactly the entries it commits |
| Acceptance.IngestExact | src/checkpoint.rs:676-749 | Over a store as runs keep it a submission is accepted exactly when its size and root can be read, every claim proves itself and belongs where it asks to go, and by the entries then held up to its size the checkpoint is judged, not contradicted by their root, and opposed by no record where it earned a place; what is then held and listed is stated |
| Acceptance.RunAccepts | src/checkpoint.rs:676-749 | So it is after any run, with nothing assumed of the store |
| Acceptance.PromoteAllExact | src/checkpoint.rs:720-729 | A batch goes through exactly when each claim proves itself and its bytes are in its slot already, or its slot is the first empty one and its bytes are in none; claims of entries already held are accepted with the rest |
| Acceptance.PromoteInExact | src/ingest.rs:128-172 | A promotion under a checkpoint is accepted exactly when its path opens the claimed root to the staged bytes, and those are held at the position or the position is next and they are not held |
| Acceptance.PromoteUnderStoredExact | src/ingest.rs:117-127 | A promotion against what is listed is accepted exactly when the latest checkpoint of the size proves it and it belongs |
| Acceptance.ProvenExact | src/ingest.rs:100-110 | Bytes are proven exactly when they are staged and the submitted hash texts write out a proof that opens the root to them |
| Acceptance.CheckRootExact | src/checkpoint.rs:731-740 | A claimed root is refused exactly when the prefix of its own size is held and has another root, however much more is held |
| Acceptance.RecordExact | src/checkpoint.rs:741-748 | An admission is recorded exactly when no record of its size and time contradicts it in the listing, if it is a member, or under any rotation it anchors |
| Acceptance.InsertAnchorExact | src/store.rs:1251-1312 | An anchor is refused exactly when its rotation has a different one of its size and time, is added exactly when it precedes every one held, and is otherwise superseded or held already |
| Acceptance.RunIsWellKept | src/store.rs:512-515 | After any run no rotation has two anchors of one size and time, nor the listing two checkpoints |
| Runs.StepExact | src/ingest.rs:128-172 | Every step keeps the tree valid, loses no record, and appends only entries proven under a checkpoint already recorded or admitted by that step |
| Runs.RunIsProven | src/ingest.rs:128-172 | After any run every canonical entry opens, at its own position, the root of a checkpoint that some step of the run admitted; nothing is assumed about the checkpoints |
| Runs.RecordedWasAdmitted | src/checkpoint.rs:741-746 | Every checkpoint recorded after a run, in either table, was admitted by one of its steps |
| Runs.RunIsValid | src/store.rs:671-732 | After any run rows are contiguous from zero with their leaf hashes, and the cache holds exactly the complete subtrees, each with its right root |
| Runs.RunCachePopulation | src/store.rs:771-811 | After any run the cache has one row per leaf less one per set bit of the leaf count |
| Runs.RunIsWellRecorded | src/checkpoint.rs:684-716 | Every recorded checkpoint commits at least one entry and at most what the store can address, and its root and time parse |
| Runs.RunAnchorsCommit | src/checkpoint.rs:601-615 | Every anchor's checkpoint is larger than the index of the rotating manifest it anchors |
| Runs.FloorNeverRecovers | src/checkpoint.rs:142-154 | Over any run the equivocation floor never rises and never disappears |
| Runs.SeriesOrderIsTimeOrder | src/checkpoint.rs:6-15 | For recorded checkpoints the text order of the series is the numeric order of size and time |
| Content.RunIsContentAddressed | src/ingest.rs:22-84 | After any run every staged and canonical row is the canonical form of a JSON value under the id of exactly its bytes, and no entry is held twice |
| Content.FormatExact | src/ingest.rs:48-82 | The staging checks pass exactly for canonical bytes of a signed envelope under their own id with the fixed metadata |
| Content.StagingExact | src/store.rs:307-332 | Staging succeeds exactly when the checks pass, and then holds the bytes under their id and moves nothing else |
| Content.VersionNamesItsEntry | src/manifest.rs:337 | The id governance computes for an envelope is the id its entry is stored under |
| Commitment.CheckedIsCommitted | src/checkpoint.rs:635-675 | After a successful ingest, canonical storage cut to the checkpoint's size is exactly the prefix its governance was resolved from |
| Commitment.AdmissionIsOfTheStore | src/checkpoint.rs:692-709 | Judging an ingested checkpoint again by the entries then committed up to its size gives the admission it was recorded for, as member, as anchor or both |
| Commitment.AuthenticatedGovernanceIsCommitted | src/checkpoint.rs:692-695 | Where the committed store reaches the checkpoint's size, the governance it resolves to for that size is the last version the checkpoint was judged by |
| Commitment.IngestAppends | src/checkpoint.rs:720-748 | A successful ingest only appends: each new entry was proven under the checkpoint, at most one listed row and only anchors for rotations it was admitted for are added |
| Commitment.PromoteAllFills | src/checkpoint.rs:721-729 | Promoting a batch in order leaves the log equal to what a first-claim-wins slot array holds for it |
| Commitment.EmptyTreeNeverAdmitted | src/checkpoint.rs:690-695 | A checkpoint of size zero is never admitted |
| DenseSlots.VisiblePrefixIsDense | src/checkpoint.rs:452-512 | The sparse overlay gives the longest contiguous run of a dense first-claim-wins slot array, no longer than held rows plus claims carried |
| DenseSlots.RefusedForBadClaims | src/checkpoint.rs:444-451 | The prefix is refused exactly when a claim it consults does not prove itself; a gap never refuses it |
| Publication.AdmittedAgreesWithHeld | src/checkpoint.rs:731-739 | A checkpoint whose root disagrees with a prefix the store then holds is never recorded; that nothing else about what is held refuses one is `Acceptance.CheckRootExact` |
| Publication.AdmittedIsListed | src/checkpoint.rs:741-743 | What is admitted as a series member is listed |
| Publication.AdmittedAnchors | src/checkpoint.rs:744-746 | Every rotation a checkpoint is admitted for is served by an anchor no later than it |
| Publication.RunServesEarliest | src/store.rs:574-600 | At the end of any run the anchor served for a rotation was admitted for it by some step, and is no later than every checkpoint any step admitted for it |
| Publication.InsertCheckpointExact | src/store.rs:1215-1248 | A record is refused exactly when its size and time carry a different one, is accepted again as it stands, and otherwise joins without touching another row |
| Publication.RunIsOnePerKey | src/store.rs:512-515 | After any run at most one checkpoint is listed for each size and time |
| Publication.LatestAtExact | src/store.rs:537-547 | The lookup by size answers with the latest member of it, when there is one |
| RotationAnchors.RotationAnchorsExact | src/checkpoint.rs:552-633 | The anchors are exactly the ascending rotations below the checkpoint's size whose outgoing state verifies it, and naming one only turns absence into an error |
| RotationAnchors.ServedIsEarliest | src/store.rs:1251-1312 | In any arrival order the served anchor is an offer the store accepted, and no addressable offer, accepted or refused, is earlier |
| RotationAnchors.LeastOfferIsServed | src/store.rs:1279-1287 | An offer no addressable offer precedes, and no other shares its rotation and key with, is served, whatever was offered or refused around it and in whatever order |
| RotationAnchors.ServedKeyIgnoresOrder | src/store.rs:578-581 | The size and time of the served anchor are the same for every order of the same offers |
| RotationAnchors.ServedIgnoresOrder | src/store.rs:578-581 | Two runs of the same offers serve the same anchor if at most one offer for the rotation is least |
| RotationAnchors.OrderMattersExact | src/store.rs:578-581 | And only then: every order of the same offers serves the same anchor if and only if at most one of them is least |
| Authentication.JudgeExact | src/checkpoint.rs:692-718 | A checkpoint is admitted exactly when the version in force or some rotation's outgoing state verifies it and any rotation named is among them; membership and anchors are decided independently |
| Authentication.AuthenticateExact | src/checkpoint.rs:291-313 | A checkpoint authenticates exactly when the first object listed under its key id, later ones under it notwithstanding, is active at its size and signed the blob of its log, size, root and the instant its time text renders, which is also what raw bytes given are, in this log |
| Authentication.BlobExact | src/checkpoint.rs:264-276 | A checkpoint assembles to a blob exactly when the log, size and root are the blob's and its time text is the rendering of the blob's instant |
| Authentication.FindKeyExact | src/manifest.rs:98-116 | The key object consulted for an id is the first listed under it, and there is none exactly when no object has the id |
| Authentication.BlobBinds | src/checkpoint.rs:264-276 | Equal blobs have equal log, size, root and time text |
| Authentication.ParsedDeclares | src/manifest.rs:220-294 | A payload is governance exactly when keys and log are present, the log is this one, every producer, log and witness key self-checks, witnesses are well formed, the cadence text spells a positive duration and the grace text a duration that fit in u64, and the epoch is in range and the one required; what it parses to carries the cadence its own text spells, its epoch, and exactly its key objects |
| Authentication.CadenceIsSpelled | src/manifest.rs:244-247 | Whichever spelling the cadence text is, the version carries that spelling's total |
| Authentication.UncheckedIsRefused | src/manifest.rs:262-283 | One producer, log or witness key that does not self-check and the payload is no governance at all |
| Authentication.ResolveWitnessesExact | src/manifest.rs:270-283 | Witness blocks are read exactly when every key of every block self-checks, and give one object per key, in order, each under the witness it was declared for |
| Authentication.KeyStatementExact | src/manifest.rs:388-418 | An authentic key statement changes the producer keys at the id it carries alone, binding it to a self-checking object or unbinding it; anything else about it changes nothing |
| Authentication.ResolveKeysExact | src/config.rs:63-79 | A key list is read exactly when every key id recomputes from its key, one object per spec in order |
| Authentication.KeyTableExact | src/manifest.rs:231-235 | The key table holds, for each id, the last object declared under it |
| Authentication.RotatesExact | src/manifest.rs:120-152 | Rotation is about sets of key objects: any object gained, lost or changed on either side counts, order and repetition do not |
| Succession.StatementExact | src/manifest.rs:330-418 | A statement met by the walk of any entries ends it exactly when its signature check fails outright or it is authentic and of another revision; adds a version and puts it in force exactly when it is the authentic configured genesis naming no predecessor, or an authentic manifest naming the version in force, that declares governance at the genesis epoch; and otherwise leaves the version, an authentic key statement binding or unbinding the producer key at the id it names and no other |
| Succession.VersionsExact | src/manifest.rs:426-504 | The versions of a prefix are exactly the entries that are such a genesis or successor over the entries before them, and without any the chain is unresolvable |
| Succession.OtherExact | src/manifest.rs:436-438 | An entry that carries no payload changes nothing |
| Succession.KeysAtExact | src/manifest.rs:190-208 | The keys a statement is checked against are exactly those valid from its index or before: in the table in force, or until a genesis the first configured under each id |
| GovernanceChain.WalkInvariant | src/manifest.rs:426-462 | For every entry sequence versions start at the configured genesis, rise strictly, each names its predecessor and was signed under the producer keys then in force, epoch and genesis never move, cadence stays positive, and the state reached differs from the last version in producer keys only; that every valid successor is among them is `Succession.VersionsExact` |
| GovernanceChain.VersionsRise | src/manifest.rs:354-377 | Over the whole list indices rise strictly and what the genesis fixed stays fixed |
| GovernanceChain.VersionsOfPrefix | src/manifest.rs:495-504 | The versions of a prefix are a prefix of the versions of an extension |
| GovernanceChain.VersionsAgreeWithResolve | src/manifest.rs:475-504 | The two views of the walk succeed and fail together, and agree on everything but producer keys |
| Governance.WalkErrorPersists | src/manifest.rs:430-458 | An error met in a prefix is the error of every extension |
| GovernanceWalk.RunWalk | src/manifest.rs:426-462 | The mutable walk computes the walk function |
| GovernanceWalk.Walker.TryApplyManifest | src/manifest.rs:330-380 | The mutable state moves exactly as genesis selection or succession says, which `Succession.StatementExact` states, and an error leaves it |
| GovernanceWalk.Walker.TryApplyKey | src/manifest.rs:388-418 | The mutable state moves as `Governance.ApplyKey` says, whose effect `Authentication.KeyStatementExact` states, and an error leaves it |
| GovernanceWalk.Walker.Step | src/manifest.rs:432-459 | One entry moves state and version list together |
| GovernanceWalk.ReadGovernance | src/manifest.rs:220-294 | The collecting loops read the version that `Authentication.ParsedDeclares` states, or none |
| GovernanceWalk.ReadProducerKeys | src/manifest.rs:231-236 | The insert loop builds the table of the resolved keys, or refuses where one does not check |
| GovernanceWalk.ReadKeys | src/manifest.rs:257-260 | The push loop resolves the list, or refuses it |
| GovernanceWalk.ReadWitnesses | src/manifest.rs:270-283 | The nested loop resolves every key of every witness block in order, as `Authentication.ResolveWitnessesExact` states, or refuses |
| GapFree.FrontierExact | src/checkpoint.rs:825-923 | The frontier is the size of the last member of the longest usable prefix that starts in the closed epoch window, stays below the floor, never decreases in time and keeps each interval within the cadence governing its earlier member; the stop names the first condition that fails |
| GapFree.LongestUnique | src/checkpoint.rs:784-812 | Gap-free prefixes are closed downward, so that longest prefix is unique |
| GapFree.FloorOnlyCuts | src/checkpoint.rs:803-812 | Under a floor the frontier is the one computed over the members below it with no floor |
| Series.RunFrontier | src/checkpoint.rs:825-923 | The loop over frontier, previous member and previous time computes the frontier function |
| Series.TimedAt | src/checkpoint.rs:881-897 | Each member is judged by the time its own text parses to |
| Views.FrontierOfView | src/checkpoint.rs:972-1000 | The frontier and stop of a computed view are those of its own usable members and floor |
| Views.UsableIsEstablished | src/checkpoint.rs:939-970 | A member is reported series-usable exactly when it is listed, its prefix is held and its root recomputes |
| Views.DivergencesExact | src/checkpoint.rs:978-991 | Over both tables the sizes reported are exactly those at which two records disagree, ascending without repeats, and the floor is the least |
| Views.FloorRemovesMembers | src/checkpoint.rs:991-993 | The view's frontier lies below its floor and equals the one computed with every member at or above the floor removed |
| SeriesOrder.ScanExact | src/checkpoint.rs:163-175 | The adjacent scan of a sorted listing finds exactly the sizes where two members disagree |
| SeriesOrder.ScanDivergences | src/checkpoint.rs:163-175 | The scan loop computes the scan function |
| SeriesOrder.SortIsOrdered | src/store.rs:640-649 | The listing is the table's rows, each as often as held, in size and time order |
| SeriesOrder.FloorExact | src/checkpoint.rs:991 | The floor is the least size at which two records disagree, and absent exactly when none do |
| SeriesOrder.FloorNeverRises | src/checkpoint.rs:831-837 | More records never raise the floor and never remove it |
| Usability.UsableExact | src/checkpoint.rs:422-431 | For members of size at least one, usability is holding the prefix and recomputing the root, whatever earlier usable member is consulted, with no storage fault |
| Usability.ConsistencyAlwaysHolds | src/checkpoint.rs:390-400 | Between any two established members the consistency check passes |
| Usability.LabelExact | src/checkpoint.rs:944-970 | Every listing over a valid store is labelled, with the established members and no others usable |
| Usability.HoldsPrefixExact | src/checkpoint.rs:368-374 | Over a valid store a prefix is held exactly when the log reaches it, and no cache row is missing |
| Usability.LogRootExact | src/store.rs:983-988 | The root of a held prefix opens, in one read per set bit of its size |
| Usability.ConsistencyProofExact | src/store.rs:1032-1044 | The proof between two held sizes is the one of RFC 9162, in at most twice the tree height plus one reads |
| Incorporation.ItubExact | src/checkpoint.rs:1018-1025 | ITUB is defined exactly below the frontier; its answer lies in the proven prefix, is the first usable member past the index, and no usable member past the index precedes it |
| Incorporation.ItubRises | src/checkpoint.rs:1003-1017 | ITUB is defined on a downward-closed set of indices and its time does not decrease over it |
| Incorporation.BoundExact | src/checkpoint.rs:1018-1025 | The same of any sorted usable listing with a proven prefix, even where a later republication at that size broke cadence |
| Computability.AppendingKeepsTheView | src/checkpoint.rs:925-938 | With the checkpoint tables fixed and the walk of the longer log going through, both views compute, and the later one keeps the floor and divergences, the frontier or a larger one, every start, time, cadence or governance stop and every ITUB |
| Retroactivity.AppendingNeverTakesBack | src/checkpoint.rs:925-938 | With the checkpoint tables fixed and both views computed, appending entries never lowers the frontier, never moves the floor, and never changes a start, time, cadence or governance stop already reported |
| Retroactivity.BoundStays | src/checkpoint.rs:1003-1017 | With the tables fixed and both views computed, an ITUB once defined keeps its checkpoint |
| Retroactivity.GovernanceStays | src/checkpoint.rs:759-775 | The governance of a held prefix is the same after entries are appended |
| Mirror.IngestCheckpoint | src/checkpoint.rs:676-749 | Ingest commits exactly what the specification says or answers its error with the store exactly as it was |
| Mirror.CommitAdmission | src/checkpoint.rs:720-748 | The transaction body: promotions, root check and records in order, first error first |
| Mirror.AuthorizeSubmission | src/checkpoint.rs:684-719 | Everything decided before the first write, from the visible prefix alone |
| Mirror.BuildVisiblePrefix | src/checkpoint.rs:452-512 | The overlay and extension loops compute the visible prefix |
| Mirror.FindRotationAnchors | src/checkpoint.rs:590-633 | The rotation loop computes the anchors, and the report for the one named |
| Mirror.RunSeriesView | src/checkpoint.rs:939-1001 | The member loop, the scan and the frontier loop compute the view |
| Mirror.LabelMembers | src/checkpoint.rs:944-970 | A storage fault is propagated and any other failure leaves a member merely authenticated |
| Mirror.StageChecked | src/ingest.rs:48-84 | Checked staging commits or leaves the store as it was |
| Mirror.PromoteUnder | src/ingest.rs:117-127 | A proven promotion is a transaction of its own |
| Mirror.PromoteProven | src/ingest.rs:143-172 | Only bytes whose proof opens the checkpoint's root are handed to the store |
| MirrorStore.Store.PromoteEntryRaw | src/store.rs:671-732 | A raw promotion reaches the specified tables and answer, or the specified error |
| MirrorStore.Store.PromoteEntry | src/store.rs:383-385 | In its transaction a refused promotion changes nothing, not even a row written before the cache was extended |
| MirrorStore.Store.ExtendSubtreeCache | src/store.rs:778-811 | The climbing loop computes the specified extension |
| MirrorStore.Store.StageEntry | src/store.rs:307-332 | Staging commits the specified rows or changes nothing |
| MirrorStore.Store.InsertCheckpointRaw | src/store.rs:1215-1248 | Recording commits the specified row or changes nothing |
| MirrorStore.Store.InsertRotationCheckpointRaw | src/store.rs:1251-1312 | Recording an anchor commits the specified row or changes nothing |
| MirrorStore.Store.RequireSubtreeCache | src/store.rs:1002-1024 | The offset loop checks every block root of the size, from the highest down |
| MirrorStore.Store.RebuildSubtreeCache | src/store.rs:1170-1196 | Folding level by level from the leaf hashes gives the exact cache of them, which over rows without a gap is the table successive extensions give, or the named missing leaf |
| MirrorStore.Store.ExpectedPopulation | src/store.rs:1147-1155 | The halving loop computes the number of complete subtrees above the leaves |
| MirrorStore.Store.RebuildIfIncomplete | src/store.rs:1143-1164 | A table that passes the tests is left alone and any other is rebuilt whole |
| MirrorStore.Store.BackfillLeafHashes | src/store.rs:1104-1125 | Exactly the missing leaf hashes are filled, each from its own bytes |
| MirrorStore.Store.Migrate | src/store.rs:1079-1084 | A store that has only lost leaf hashes or cache rows opens as a valid tree over the same log |
| MirrorStore.RepairedIsValid | src/store.rs:1126-1142 | Whichever way the population test goes, a store that only lost rows ends exact |
| StoreSpec.PromoteIntoValidTree | src/store.rs:671-732 | From a valid tree a promotion inserts exactly when it is the next index for a staged entry not yet held, is accepted again exactly where that id and those bytes are held, and is otherwise refused with the error that names why; the tree stays valid and neither the overflow nor the missing-child error of the extension is reachable |
| SubtreeCache.ExtendExact | src/store.rs:771-811 | From the exact cache of all but the last leaf, extension gives the exact cache, one row per factor of two in the new count |
| CacheRepair.ExtendAllExact | src/store.rs:771-811 | Extending an empty table entry by entry never fails and gives the exact cache, one row per leaf less one per set bit |
| CacheRepair.RebuildIsIncremental | src/store.rs:1167-1196 | Whatever table is the exact cache of the leaves held is the one successive extensions give, so `MirrorStore.Store.RebuildSubtreeCache` promises that of its own table |
| SubtreeCache.PopulationClosedForm | src/store.rs:1129-1131 | The expected population is the entry count less its set bits |
| SubtreeCache.ExactCachePopulation | src/store.rs:1143-1164 | The exact cache has exactly that many rows |
| SubtreeCache.LostRowsAreCounted | src/store.rs:1156-1161 | For a table that has only lost rows the count matches exactly when none is missing |
| CacheRepair.RightShapeExact | src/store.rs:1135-1137 | Whatever hashes a table holds, it has a row for every complete node and no other if and only if it has no stray row and the tests pass |
| CacheRepair.LooksCompleteExact | src/store.rs:1143-1164 | Any table is the exact cache if and only if every row it holds is right and the tests pass |
| CacheRepair.WrongShapeLooksComplete | src/store.rs:1135-1137 | A concrete table of the right size and wrong shape passes both tests |
| CacheRepair.RequireFromExact | src/store.rs:990-1024 | The check passes exactly when every block root is held, and its error names one that is complete and absent |
| Tables.NodeIsCompleteExact | src/store.rs:882-887 | The checked arithmetic is exact for every bound a u64 holds |
| TreeOpening.OpenSpanAgrees | src/store.rs:889-944 | From sound rows with any of them lost, opening a span either captures a complete absent node or gives its root in exactly its reads |
| TreeOpening.AlignedCost | src/range.rs:196-204 | An aligned span opens in one read per set bit of its size |
| ProofOpening.LogRootRefusesOrAgrees | src/store.rs:983-988 | A prefix root is refused naming a complete absent node, or is the true root in one read per set bit |
| ProofOpening.SubtreeRootRefusesOrAgrees | src/store.rs:969-975 | The same for any span inside the tree |
| ProofOpening.InclusionProofRefusesOrAgrees | src/store.rs:952-961 | An inclusion path is refused naming such a node, or is the true path within twice the height in reads |
| ProofOpening.ConsistencyProofRefusesOrAgrees | src/store.rs:1026-1044 | A consistency path is refused naming such a node, or is the true path within twice the height plus one |
| NodeReader.Reader.Get | src/store.rs:922-939 | One read obtains a node and counts it, or captures the first failure and keeps it |
| NodeReader.Reader.Span | src/store.rs:963-975 | Opening a span over the reader gives the specified root, count and failure |
| NodeReader.RunLogRoot | src/store.rs:983-988 | A captured failure is raised in place of any root |
| NodeReader.RunInclusionProof | src/store.rs:952-961 | The same for an inclusion path |
| NodeReader.RunConsistencyProof | src/store.rs:1032-1044 | The same for a consistency path, and a prefix not held is refused first |
| Inclusion.InclusionExact | src/ingest.rs:100-110 | Against the root of the first n leaves a proof verifies exactly for the leaf at its position and the path of RFC 9162 |
| Consistency.ConsistencyExact | src/checkpoint.rs:335-350 | Against the root of the first n leaves a proof verifies exactly when it is the one of RFC 9162 and the old root is the root of the first m |
| Merkle.RootBinds | src/store.rs:963-975 | Over equally many leaves equal roots are exactly equal leaves |
| Merkle.TreeRootIsMTH | src/store.rs:977-988 | The root a prefix opens to is the Merkle tree hash of RFC 6962 over it |
| Merkle.NodeRootIsSpan | src/store.rs:734-769 | A stored node is the tree hash of its aligned leaf slice |
| Range.VerifyExact | src/range.rs:261-310 | A range proof against the root of a log verifies exactly when it carries the log's leaves for the window and the reference nodes, all consumed |
| Range.WindowedIsReference | src/range.rs:125-137 | The spans walked are, root for root, the reference builder's nodes |
| Range.SpansAreGood | src/range.rs:125-137 | Every span lies outside the window and is aligned to the largest power of two not above its size |
| Range.FewSpans | src/range.rs:6-12 | A window leaves at most two spans per level |
| Enumeration.RangeIsServed | src/range.rs:178-259 | Over a valid store every window of an established checkpoint is served as the reference response, reading entries of that window only and the counted nodes |
| Enumeration.ReportedIsRead | src/range.rs:79-98 | The nodes reported as read are the nodes opening the spans reads, over at most twice the tree height in spans |
| Enumeration.WindowedBuilderIsReference | src/range.rs:312-381 | The windowed and full-prefix builders give the same response for every size and window |
| Enumeration.ServedVerifies | src/range.rs:141-145 | What is served is what a receiver accepts |
| Enumeration.AcceptedCarriesTheLog | src/range.rs:261-310 | A response accepted against a root of the log carries exactly the log's entries of the window in order, whatever nodes it supplies |
| Enumeration.PushOutside | src/range.rs:127-137 | The recursive push appends exactly the outside spans |
| Enumeration.RunBuildRange | src/range.rs:178-259 | The builder's loops and counter compute the specified response and cost |
| Grounding.GroundedIsCanonical | src/http.rs:272-292 | Range, consistency, single lookup and rotation routes ground nothing at or above a size where two records disagree |
| Grounding.BoundsAreCanonical | src/checkpoint.rs:142-154 | Neither do the frontier and ITUB |
| Grounding.UsableAtExact | src/http.rs:272-292 | With a computed view a usable lookup answers exactly when no two records disagree at or below the size and some listed member of it is established, and answers with the first such member in series order |
| Grounding.UsableAtRefusal | src/http.rs:272-292 | And its refusal names the lowest disagreeing size, or that nothing of the size is listed, or that nothing listed of it is established |
| Grounding.LookupAtExact | src/http.rs:398-424 | With a computed view a single lookup answers, below the floor, with the latest member of the size |
| Grounding.ServeRangeExact | src/http.rs:294-312 | The range route answers exactly the windows of a usable size |
| Grounding.ServedRangeVerifies | src/http.rs:294-312 | Every window of a usable size is served and verifies |
| Grounding.ServeConsistencyExact | src/http.rs:562-604 | The consistency route answers exactly between two usable sizes in order |
| Grounding.ServedConsistencyVerifies | src/http.rs:562-604 | Between two usable sizes the served path verifies between their roots |
| LostRows.RefusesOrAgreesThroughout | src/checkpoint.rs:403-431 | Over a store that has lost any number of cache rows, the view, every route over it and the root check of an ingest answer exactly what they would with none lost, or refuse by naming a lost row; no member is passed over and no checkpoint let through because a row was missing |
| Grounding.ServeRotationExact | src/http.rs:468-521 | After any run the rotation route answers exactly when the rotation has an anchor, the view computes, no two records disagree at the anchor's size or below, and its root is the held prefix's; it answers with the served anchor and a path that opens its root to the rotating manifest's entry |
| Grounding.RotationExact | src/http.rs:490-521 | For a given anchor over a held prefix, the floor aside, the element is opened exactly when the anchor's root is that prefix's, and its path opens that root to the rotating manifest's entry |
| CheckpointTime.ParseExact | src/checkpoint.rs:243-255 | A text parses to a value exactly when it is that value's rendering and the value fits in u64 |
| CheckpointTime.ParseRendered | src/checkpoint.rs:196-201 | Every u64 of nanoseconds renders to a text that parses back to it |
| CheckpointTime.TextOrderIsTimeOrder | src/checkpoint.rs:986-988 | For accepted texts lexicographic order is numeric order |
| CheckpointTime.ReRenderNeverRefuses | src/checkpoint.rs:251-253 | For a text of the right shape and ranges the re-rendering check never refuses |
| Calendar.FromToNanos | src/checkpoint.rs:249-250 | Every valid civil date-time comes back from its nanoseconds since the epoch, over leap years |
| Calendar.FromNanosIsRight | src/checkpoint.rs:196-201 | Every instant has a valid civil date-time that denotes it |
| DurationProofs.DurationExact | src/duration.rs:42-133 | A text is accepted with a value exactly when it spells that total and the total fits in u64 |
| DurationProofs.ParseSpelled | src/duration.rs:42-133 | Every well-formed spelling parses to its exact total, and is refused only when the total does not fit |
| DurationProofs.DocumentedExact | src/duration.rs:34-41 | The parser is the documented grammar exactly on texts without a plus sign |
| DurationProofs.PlusIsAccepted | src/duration.rs:119 | A signed text outside the grammar is accepted |
| DurationParser.Parse | src/duration.rs:42-133 | The cursor and its two loops compute the parse function |

## Left out

- HTTP routing, status mapping, request bodies and `spawn_blocking`: plumbing around the modelled calls.
- SQL text, `SQLite` and the mutex: a table is a map or a sequence, a transaction commits or restores, and one request is taken at a time.
- SHA-256, Ed25519, JCS, base64, hex and JSON text: digests are terms, signatures are parameters, statements are datatypes.
- The 98-octet blob layout and the `AHLRP1` byte encoding: the first is an easy round trip, and the second is not part of this model because its definition is not in the repository.
- Rows whose stored hash has the wrong width (`TreeMaterialCorrupt`): a stored digest here is always a digest.
- Entry byte counts in `RangeReadCost`: the model counts entries read, not octets.
- RFC 3339 parsing of `cadence_epoch`: the field is read as an integer of nanoseconds, present or malformed.
- Retrieval by id, metadata constants, configuration loading, error display and the binary: one-branch facts.
- Receipts and the witness component: outside this repository.
- Views.DivergencesExact: speaks of records the store holds; an anchor that was superseded and never stored is not scanned, as in the program.
- Whether every series member verifies under the version governing its own size: not claimed, since a visible prefix shorter than the checkpoint is deliberately allowed.
- EntryIdAtDifferentIndex: the model's error does not carry the index the entry is already held at.
