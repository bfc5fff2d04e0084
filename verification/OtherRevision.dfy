/** One appended entry of another revision takes the view back: an input, and what it does. */
module OtherRevision {
  import opened Wrappers
  import opened Bits
  import opened Encoding
  import opened Merkle
  import opened Tables
  import opened StoreSpec
  import opened TextOrder
  import opened CheckpointTime
  import opened Digits
  import opened Duration
  import opened Governance
  import opened Admission
  import opened Commitment
  import opened Series
  import opened Usability
  import opened Runs
  import opened Computability
  import Authentication
  import CatchUp
  import Content
  import DurationProofs
  import Enumeration
  import GapFree
  import Grounding
  import Publication
  import Range
  import Retroactivity
  import RotationAnchors
  import SeriesOrder
  import SubtreeCache

  // ---- the deployment and its log ----

  const LOG_ID: HashText := Hex(Opaque(0))
  const LOG_KEY: KeySpec := KeySpec(KeyIdOf(0), Ed25519(0), 0)
  const REVISION: nat := 1
  const NANOS: nat := 5_000_000_000

  /** A manifest of one revision; a candidate genesis names no predecessor. */
  function ManifestOf(revision: nat, predecessor: Field<EntryId>): Blob {
    Jcs(JObject(
      Present(Payload(Present(Manifest), Present(revision), predecessor, Present([]),
                      Present(LogBlock(LOG_ID, "PT5S", Present(0), "PT5S", [LOG_KEY])), Absent, Absent, Absent, 0)),
      Present([SignatureEntry(KeyIdOf(0), 0)]), 0))
  }

  const GENESIS: Blob := ManifestOf(REVISION, Absent)
  const SUCCESSOR: Blob := ManifestOf(REVISION + 1, Present(IdOf(GENESIS)))

  /** The whole log: the genesis, and one manifest of the next revision. */
  const WHOLE: seq<Blob> := [GENESIS, SUCCESSOR]

  /** Every envelope is authentic, and the checkpoints signed are those of `WHOLE`. */
  ghost function Deployment(): Config {
    Config(LOG_ID, IdOf(GENESIS), [], REVISION,
           (envelope, keys) => Some(true),
           (key, blob: CheckpointBlob, sig) => Some(blob.treeSize <= 2 && blob.root == TreeRoot(Leaves(WHOLE), blob.treeSize)))
  }

  /** The checkpoint of the first `n` entries, taken `nanos` after the epoch. */
  ghost function Published(n: nat, nanos: nat): Checkpoint
    requires n <= 2
  {
    Checkpoint(LOG_ID, n, Hex(TreeRoot(Leaves(WHOLE), n)), RenderTime(nanos), KeyIdOf(0), 0)
  }

  /** Stage both entries; take in the first checkpoint with its entry, then two of size two without
    * theirs; then promote the second entry.
    */
  ghost function Steps(): seq<Step> {
    [Staging(IdOf(GENESIS), GENESIS, ADAPTOR_METADATA),
     Staging(IdOf(SUCCESSOR), SUCCESSOR, ADAPTOR_METADATA),
     Ingesting(First()),
     Ingesting(Submission(Published(2, 1), None, [], None)),
     Ingesting(Submission(Published(2, 2), None, [], None)),
     Promoting(2, CatchUp.PendingFor(WHOLE, 2, 1))]
  }

  // ---- its governance ----

  lemma CadenceReads()
    ensures ParseDuration("PT5S") == Ok(NANOS)
  {
    var sp := FiveSeconds();
    DurationProofs.ParseSpelled(sp);
  }

  lemma FiveSeconds() returns (sp: Spelling)
    ensures WellFormed(sp) && Spell(sp) == "PT5S" && Total(sp) == NANOS
  {
    sp := Spelling(None, Some(TimeSpelling(None, None, Some(SecondsSpelling(false, "5", None)))));
    assert AllDigits("5") && Value("5") == 5 by { assert "5"[..0] == ""; }
    assert SpellSecondsText(SecondsSpelling(false, "5", None)) == "5";
  }

  /** The genesis version. */
  ghost function Installed(): State {
    State(map[], [KeyObject(KeyIdOf(0), 0, 0)], [], NANOS, 0, 0, IdOf(GENESIS), 0)
  }

  lemma GenesisParses()
    ensures ParseGovernance(PayloadOf(GENESIS).value, 0, IdOf(GENESIS), LOG_ID, 0, None) == Some(Installed())
  {
    hide ParseDuration;
    CadenceReads();
    var specs := [LOG_KEY];
    assert specs[..|specs| - 1] == [] && ResolveKeys([]) == Some([]);
    assert [] + [KeyObject(KeyIdOf(0), 0, 0)] == [KeyObject(KeyIdOf(0), 0, 0)];
  }

  lemma GenesisApplies()
    ensures Apply(None, GENESIS, 0, Deployment()) == Ok(Some(Installed()))
  {
    hide ParseGovernance;
    GenesisParses();
    assert KindOf(GENESIS) == Some(Manifest);
    assert EnvelopeId(EnvelopeOf(GENESIS)) == IdOf(GENESIS);
    assert Authentic(EnvelopeOf(GENESIS), PayloadOf(GENESIS).value, ActiveOfSlice([], 0), 0, Deployment()) == Ok(true);
  }

  lemma GenesisWalks()
    ensures Walk([GENESIS], Deployment()) == Ok(Walked(Some(Installed()), [Installed()]))
  {
    hide ParseGovernance;
    GenesisApplies();
    assert [GENESIS][..0] == [];
    assert Walk([], Deployment()) == Ok(Walked(None, []));
    assert [] + [Installed()] == [Installed()];
    assert WalkOn(Walked(None, []), GENESIS, 0, Deployment()) == Ok(Walked(Some(Installed()), [Installed()]));
  }

  /** The genesis resolves, and the walk of both entries fails. */
  lemma RevisionStopsTheWalk()
    ensures Resolve([GENESIS], Deployment()) == Ok(Installed())
    ensures Walk(WHOLE, Deployment()) == Err(UnsupportedStatementVersion(1))
  {
    hide ParseGovernance;
    GenesisWalks();
    assert WHOLE[..1] == [GENESIS];
    assert WalkOn(Walked(Some(Installed()), [Installed()]), SUCCESSOR, 1, Deployment()) == Err(UnsupportedStatementVersion(1));
  }

  // ---- its checkpoints ----

  lemma JudgedIsSigned(prefix: seq<Blob>, config: Config, c: Claim, named: Option<nat>) returns (key: nat)
    requires Judge(prefix, config, c, named).Ok?
    ensures VerifySignature(c, config, key).Ok?
  {
    hide VerifySignature, Judge;
    var state := JudgedAuthenticates(prefix, config, c, named);
    key := ResolveLogKey(state, c.cp.keyId, c.cp.treeSize).value;
  }

  lemma JudgedAuthenticates(prefix: seq<Blob>, config: Config, c: Claim, named: Option<nat>) returns (state: State)
    requires Judge(prefix, config, c, named).Ok?
    ensures Authenticate(state, c, config).Ok?
  {
    hide Authenticate;
    JudgedHasVersions(prefix, config, c, named);
    Authentication.JudgeExact(prefix, config, c, named);
    var versions := Versions(prefix, config).value;
    state := versions[|versions| - 1];
    if !Authenticate(state, c, config).Ok? {
      var m: nat :| RotationAnchors.AnchorsAt(versions, config, c, m);
      var j: nat :| RotationAnchors.AnchorsRotation(versions, config, c, j) && versions[j].manifestIndex == m;
      state := versions[j - 1];
    }
  }

  lemma JudgedHasVersions(prefix: seq<Blob>, config: Config, c: Claim, named: Option<nat>)
    requires Judge(prefix, config, c, named).Ok?
    ensures Versions(prefix, config).Ok? && |Versions(prefix, config).value| > 0
  {
  }

  lemma SignedIsPublished(cp: Checkpoint, raw: Option<Raw>, key: nat)
    requires VerifySignature(ClaimOf(cp, raw), Deployment(), key).Ok?
    ensures Commits(WHOLE, cp)
  {
    hide ParseTime;
    var blob := BlobOf(cp).value;
    assert blob.treeSize == cp.treeSize && cp.rootHash == Hex(blob.root);
  }

  /** Every checkpoint that verifies is one of this log. */
  lemma IsOneLog()
    ensures OneLog(Deployment(), WHOLE)
  {
    hide Judge, Plausible, Commits;
    forall prefix, cp, raw, named | Plausible(WHOLE, cp, prefix) && Judge(prefix, Deployment(), ClaimOf(cp, raw), named).Ok?
      ensures Commits(WHOLE, cp)
    {
      var key := JudgedIsSigned(prefix, Deployment(), ClaimOf(cp, raw), named);
      SignedIsPublished(cp, raw, key);
    }
  }

  lemma PublishedIsSigned(n: nat, nanos: nat)
    requires n <= 2 && nanos <= MAX_U64
    ensures VerifySignature(ClaimOf(Published(n, nanos), None), Deployment(), 0) == Ok(())
  {
    hide ParseTime, RenderTime;
    ParseRendered(nanos);
  }

  /** Over the genesis alone each of them is a member, and no anchor. */
  lemma PublishedIsAdmitted(n: nat, nanos: nat)
    requires n <= 2 && nanos <= MAX_U64
    ensures Judge([GENESIS], Deployment(), ClaimOf(Published(n, nanos), None), None) == Ok(AdmissionOf(true, []))
  {
    hide ParseTime, RenderTime, VerifySignature, Walk;
    GenesisWalks();
    PublishedIsSigned(n, nanos);
    assert Versions([GENESIS], Deployment()) == Ok([Installed()]);
    var c := ClaimOf(Published(n, nanos), None);
    assert Authenticate(Installed(), c, Deployment()) == Ok(());
    assert RotationsIn([Installed()]) == [];
  }

  // ---- the run ----

  /** What the store holds along the way. */
  ghost predicate Holds(db: Db, log: seq<Blob>, rows: seq<Checkpoint>) {
    && ValidTree(db) && LogOf(db) == log && db.checkpoints == rows && db.anchors == []
    && Content.ContentAddressed(db)
    && IdOf(GENESIS) in db.staged && db.staged[IdOf(GENESIS)] == GENESIS
    && IdOf(SUCCESSOR) in db.staged && db.staged[IdOf(SUCCESSOR)] == SUCCESSOR
  }

  lemma RunStep(steps: seq<Step>, k: nat)
    requires k < |steps|
    ensures Run(Deployment(), steps[..k + 1]) == After(Run(Deployment(), steps[..k]), Deployment(), steps[k])
  {
    var p := steps[..k + 1];
    assert p[..k] == steps[..k] && p[k] == steps[k];
  }

  /** A member with nothing at its key is recorded. */
  lemma MemberIsRecorded(db: Db, cp: Checkpoint)
    requires cp.treeSize <= MAX_I64 && forall x :: x in db.checkpoints ==> !SameKey(x, cp)
    ensures RecordAdmission(db, cp, AdmissionOf(true, [])) == Ok(db.(checkpoints := db.checkpoints + [cp]))
  {
    RotationAnchors.FindExact(db.checkpoints, cp);
  }

  /** A checkpoint past what is held, submitted without entries, is admitted on the governance held. */
  lemma EarlyIsRecorded(db: Db, rows: seq<Checkpoint>, nanos: nat)
    requires Holds(db, [GENESIS], rows) && nanos <= MAX_U64
    requires forall x :: x in rows ==> !SameKey(x, Published(2, nanos))
    ensures Ingest(db, Deployment(), Submission(Published(2, nanos), None, [], None))
         == Ok(Admitted(db.(checkpoints := rows + [Published(2, nanos)]), AdmissionOf(true, [])))
  {
    hide Judge, RecordAdmission, SubtreeCache.CacheExact, SameKey, RenderTime, BlobOf;
    var cp := Published(2, nanos);
    RangeOfContiguous(db.entries, 0, 2);
    assert LogOf(db)[0..1] == [GENESIS];
    assert VisiblePrefix(db, [], 2, cp.rootHash.hash) == Ok([GENESIS]);
    PublishedIsAdmitted(2, nanos);
    HoldsPrefixExact(db, 2);
    assert |db.entries| == |LogOf(db)| == 1;
    assert CheckRoot(db, cp, cp.rootHash.hash) == Ok(());
    MemberIsRecorded(db, cp);
  }

  lemma FormatsPass(bytes: Blob)
    requires bytes == GENESIS || bytes == SUCCESSOR
    ensures CheckFormat(IdOf(bytes), bytes, ADAPTOR_METADATA) == Ok(())
  {
  }

  lemma BothAreStaged()
    ensures Holds(Run(Deployment(), Steps()[..2]), [], [])
  {
    hide CheckFormat, Content.ContentAddressed, SubtreeCache.CacheExact;
    var db := EMPTY_DB.(staged := map[IdOf(GENESIS) := GENESIS, IdOf(SUCCESSOR) := SUCCESSOR]);
    var steps := Steps();
    assert steps[..0] == [];
    RunStep(steps, 0);
    RunStep(steps, 1);
    FormatsPass(GENESIS);
    FormatsPass(SUCCESSOR);
    assert Run(Deployment(), steps[..2]) == db;
    Content.RunIsContentAddressed(Deployment(), steps[..2]);
    RunIsValid(Deployment(), steps[..2]);
  }

  ghost function First(): Submission {
    Submission(Published(1, 0), None, CatchUp.PendingRange(WHOLE, 1, 0, 1), None)
  }

  lemma FirstGoesThrough(db: Db)
    requires Holds(db, [], [])
    ensures var r := Ingest(db, Deployment(), First());
      r.Ok? && ValidTree(r.value.db) && LogOf(r.value.db) == [GENESIS]
    ensures SeenPrefix(db, First()) == [GENESIS]
  {
    hide Judge, RecordAdmission, SubtreeCache.CacheExact, LeafColumn, Ingest, RenderTime, Content.EntryContent, Content.StagedContent;
    assert |LogOf(db)| == |db.entries| == 0;
    assert WHOLE[..0] == [] && WHOLE[..1] == [GENESIS];
    PublishedIsAdmitted(1, 0);
    CatchUp.CatchesUp(db, Deployment(), WHOLE, First().cp, None, None);
    CatchUp.PrefixIsLog(db, WHOLE, 1, First().cp);
  }

  /** The first checkpoint is taken in with its entry. */
  lemma FirstIsTaken(db: Db)
    requires Holds(db, [], [])
    ensures var r := Ingest(db, Deployment(), First());
      r.Ok? && Holds(r.value.db, [GENESIS], [Published(1, 0)])
  {
    hide Judge, RecordAdmission, SubtreeCache.CacheExact, LeafColumn, Ingest, RenderTime, Content.EntryContent, Content.StagedContent;
    FirstGoesThrough(db);
    PublishedIsAdmitted(1, 0);
    FirstIsRecorded(db, First());
    Content.IngestKeeps(db, Deployment(), First());
  }

  /** A submission judged a member and no anchor adds its row and moves nothing else but entries. */
  lemma FirstIsRecorded(db: Db, s: Submission)
    requires ValidTree(db) && db.checkpoints == [] && Ingest(db, Deployment(), s).Ok?
    requires s.cp.rootHash.Hex? && Judge(SeenPrefix(db, s), Deployment(), ClaimOf(s.cp, s.raw), s.rotationFor) == Ok(AdmissionOf(true, []))
    ensures var after := Ingest(db, Deployment(), s).value.db;
      ValidTree(after) && after.staged == db.staged && after.checkpoints == [s.cp] && after.anchors == db.anchors
  {
    hide Judge, RecordAdmission, SubtreeCache.CacheExact, LeafColumn, Ingest;
    IngestParts(db, Deployment(), s);
    PromoteAllFills(db, s.cp, s.pending);
    IngestAppends(db, Deployment(), s);
    MemberIsRecorded(PromoteAll(db, s.cp, s.pending).value, s.cp);
  }

  /** The whole log can be taken in from its first entry. */
  lemma SecondIsPromoted(db: Db, rows: seq<Checkpoint>)
    requires Holds(db, [GENESIS], rows) && Published(2, 1) in rows
    requires forall x :: x in rows && x.treeSize == 2 ==> Commits(WHOLE, x)
    ensures var r := PromoteUnderStored(db, 2, CatchUp.PendingFor(WHOLE, 2, 1));
      r.Ok? && Holds(r.value.db, WHOLE, rows)
  {
    hide SubtreeCache.CacheExact, LeafColumn, RenderTime, Content.EntryContent, Content.StagedContent, Commits, PromoteIn, LatestAt;
    Publication.LatestAtExact(rows, 2);
    var cp := LatestAt(rows, 2).value;
    assert |LogOf(db)| == |db.entries| == 1;
    assert WHOLE[..1] == [GENESIS];
    CatchUp.NextGoesThrough(db, WHOLE, 2, cp);
    assert [GENESIS] + [SUCCESSOR] == WHOLE;
  }

  /** The three checkpoints, in the order they came in. */
  ghost function Rows(): seq<Checkpoint> {
    [Published(1, 0), Published(2, 1), Published(2, 2)]
  }

  lemma TimesDiffer()
    ensures RenderTime(1) != RenderTime(2)
    ensures KeyLe(Published(1, 0), Published(2, 1)) && KeyLe(Published(1, 0), Published(2, 2)) && KeyLe(Published(2, 1), Published(2, 2))
  {
    hide ParseTime, RenderTime, TextLe;
    ParseRendered(1);
    ParseRendered(2);
    TextOrderIsTimeOrder(RenderTime(1), RenderTime(2));
  }

  /** Before the last step the store holds the genesis alone, and after it the whole log. */
  lemma RunHolds()
    ensures Holds(Run(Deployment(), Steps()[..5]), [GENESIS], Rows())
    ensures Holds(Run(Deployment(), Steps()), WHOLE, Rows())
  {
    hide Holds, PromoteUnderStored, Ingest, RenderTime;
    var steps := Steps();
    BothAreStaged();
    TimesDiffer();
    RunStep(steps, 2);
    FirstIsTaken(Run(Deployment(), steps[..2]));
    EarlyStep(steps, 3, [Published(1, 0)], 1);
    assert [Published(1, 0)] + [Published(2, 1)] == [Published(1, 0), Published(2, 1)];
    EarlyStep(steps, 4, [Published(1, 0), Published(2, 1)], 2);
    assert [Published(1, 0), Published(2, 1)] + [Published(2, 2)] == Rows();
    RunStep(steps, 5);
    SecondIsPromoted(Run(Deployment(), steps[..5]), Rows());
    assert steps[..6] == steps;
  }

  lemma EarlyStep(steps: seq<Step>, k: nat, rows: seq<Checkpoint>, nanos: nat)
    requires k < |steps| && nanos <= 2 && steps[k] == Ingesting(Submission(Published(2, nanos), None, [], None))
    requires Holds(Run(Deployment(), steps[..k]), [GENESIS], rows)
    requires forall x :: x in rows ==> !SameKey(x, Published(2, nanos))
    ensures Holds(Run(Deployment(), steps[..k + 1]), [GENESIS], rows + [Published(2, nanos)])
  {
    hide Ingest, RenderTime, SubtreeCache.CacheExact, LeafColumn, Content.EntryContent, Content.StagedContent, Run;
    RunStep(steps, k);
    EarlyIsRecorded(Run(Deployment(), steps[..k]), rows, nanos);
  }

  // ---- the view before and after ----

  lemma RowsAreSorted()
    ensures SeriesOrder.Sort(Rows()) == Rows()
  {
    hide KeyLe, RenderTime;
    TimesDiffer();
    var rows := Rows();
    assert rows[..2] == [rows[0], rows[1]] && rows[..2][..1] == [rows[0]] && rows[..2][..1][..0] == [];
    assert SeriesOrder.Sort([rows[0]]) == [rows[0]];
    assert SeriesOrder.Sort(rows[..2]) == rows[..2];
  }

  lemma RowsAreEstablished()
    ensures EstablishedOf(Leaves(WHOLE), Rows()) == Rows()
  {
    hide RenderTime;
    var rows := Rows();
    assert rows[..2] == [rows[0], rows[1]] && rows[..2][..1] == [rows[0]] && rows[..2][..1][..0] == [];
    assert EstablishedOf(Leaves(WHOLE), [rows[0]]) == [rows[0]];
    assert EstablishedOf(Leaves(WHOLE), rows[..2]) == rows[..2];
  }

  /** How the frontier reads them. */
  ghost function Members(): seq<Member> {
    [Member(1, Ok(0)), Member(2, Ok(1)), Member(2, Ok(2))]
  }

  lemma RowsAreTimed()
    ensures Timed(Rows()) == Members()
  {
    hide ParseTime, RenderTime;
    ParseRendered(0);
    ParseRendered(1);
    ParseRendered(2);
    TimedAt(Rows(), 0);
    TimedAt(Rows(), 1);
    TimedAt(Rows(), 2);
  }

  /** The first two members are gap-free, so the frontier asks for the governance of the second. */
  lemma AsksForTheSecond(lookup: Lookup)
    requires lookup(1) == Ok(Some(Installed()))
    ensures AsksAbout(lookup, Members(), None, 1)
  {
    var usable := Members();
    assert GapFree.StartsInWindow(lookup, usable[0]);
    assert GapFree.IntervalKept(lookup, usable, 1);
    assert GapFree.GapFreePrefix(lookup, usable, None, 2);
  }

  lemma SecondBreaks()
    ensures var db := Run(Deployment(), Steps());
      ValidTree(db) && Breaks(db, Deployment(), 1, UnsupportedStatementVersion(1))
  {
    hide SubtreeCache.CacheExact, LeafColumn, RenderTime, Run, Floor, GovernanceFor, AsksAbout, Walk, Published, Content.ContentAddressed, EstablishedOf, SeriesOrder.Sort;
    var db := Run(Deployment(), Steps());
    RunHolds();
    IsOneLog();
    RunMirrors(Deployment(), Steps(), WHOLE);
    NoFloorOverOneLog(db, WHOLE);
    RowsAreSorted();
    RowsAreEstablished();
    RowsAreTimed();
    GenesisIsInForce(db);
    AsksForTheSecond(LookupIn(db.entries, Deployment()));
    RevisionStopsTheWalk();
    assert WHOLE[..2] == WHOLE;
  }

  lemma GenesisIsInForce(db: Db)
    requires ValidTree(db) && LogOf(db) == WHOLE
    ensures LookupIn(db.entries, Deployment())(1) == Ok(Some(Installed()))
  {
    hide GovernanceFor, Walk;
    assert |db.entries| == |LogOf(db)| == 2;
    LookupExact(db, Deployment(), 1);
    GenesisWalks();
    assert WHOLE[..1] == [GENESIS];
  }

  /** Over one log in which every checkpoint that verifies commits a prefix, the view of this run computes
    * and its first size is served; then one entry more is promoted, and from there on the view errs, and
    * with it every route that reads it, for the size that was served as well.
    */
  lemma OneEntryTakesTheViewBack()
    ensures OneLog(Deployment(), WHOLE)
    ensures var before := Run(Deployment(), Steps()[..5]);
      && SeriesView(before, Deployment()).Ok?
      && Grounding.ServeRange(before, Deployment(), 1, Range.Window(0, 1)).Ok?
    ensures var before, after := Run(Deployment(), Steps()[..5]), Run(Deployment(), Steps());
      && Retroactivity.Grown(before, after)
      && SeriesView(after, Deployment()) == Err(UnsupportedStatementVersion(1))
      && Grounding.ServeRange(after, Deployment(), 1, Range.Window(0, 1)) == Err(UnsupportedStatementVersion(1))
  {
    hide SubtreeCache.CacheExact, LeafColumn, RenderTime, Run, SeriesView, OneLog, Walk, Enumeration.BuildRange, Breaks;
    IsOneLog();
    RunHolds();
    SecondBreaks();
    var steps := Steps()[..5];
    var before, after := Run(Deployment(), steps), Run(Deployment(), Steps());
    GenesisWalks();
    RunHasView(Deployment(), steps);
    assert |before.entries| == |LogOf(before)| == 1;
    Grounding.ViewIsServed(Deployment(), steps, WHOLE, Published(1, 0), Range.Window(0, 1));
    RunIsWellRecorded(Deployment(), Steps());
    ViewErrsExact(after, Deployment(), UnsupportedStatementVersion(1));
  }
}
