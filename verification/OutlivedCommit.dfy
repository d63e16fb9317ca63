/**
  * A run of the store in which a wrong older commit costs a durable object: a power loss keeps a commit and loses the
  * records it describes, others of the same lengths take their place and are group-committed, and a second power loss
  * brings the commit back.
  */
module OutlivedCommit {
  import opened Bytes
  import opened Pack
  import opened Recovery
  import opened RecoveryTwice
  import opened IndexCheck
  import opened Durability
  import opened StoreRuns
  import opened CrashRecovery
  import opened StoreTheorems
  import opened GroupCommits
  import opened OlderCommits
  import opened AnyCommit
  import opened ForgottenRow
  import Refs

  /** What the objects and the reference of the run must be: `p` is a snapshot that refers to `y`, and `x` and `y` have
      records of the same length. */
  ghost predicate Roles(e: Env, x: Obj, y: Obj, z: Obj, p: Obj, record: Refs.RefRecord) {
    && x.Fits() && y.Fits() && z.Fits() && p.Fits() && p.kind == Snapshot
    && |EncodeRecord(e.h, x)| == |EncodeRecord(e.h, y)|
    && x.Id(e.h) != y.Id(e.h) && x.Id(e.h) != z.Id(e.h) && x.Id(e.h) != p.Id(e.h)
    && y.Id(e.h) != z.Id(e.h) && y.Id(e.h) != p.Id(e.h) && z.Id(e.h) != p.Id(e.h)
    && e.edges(x) == [] && e.edges(y) == [] && e.edges(z) == [] && e.edges(p) == [Edge(y.Id(e.h), y.kind)]
    && Continues(e, [], record) && record.snapshot == p.Id(e.h)
  }

  // ---- the first batch, and the loss of its records ----

  lemma PutNew(h: Hasher, name: PackName, s: Session, obj: Obj)
    requires obj.Id(h) !in s.cat.rows
    ensures Put(h, name, s, obj)
         == Session(s.pack + EncodeRecord(h, obj),
                    s.cat.(rows := s.cat.rows[obj.Id(h) := RowOf(name, NewLoc(h, s.pack, obj))]),
                    Some(Then(s.run, obj.Id(h), |s.pack|, NewLoc(h, s.pack, obj).End())))
  {
    hide EncodeRecord, Obj.Id;
  }

  function PairSteps(first: Obj, second: Obj): seq<Step> {
    [Begin] + ([PutObject(first)] + ([PutObject(second)] + ([AdvanceCheckpoint] + [Commit])))
  }

  /** Two objects put, checkpointed and committed. */
  function WithPair(e: Env, s: State, first: Obj, second: Obj): State {
    var session := Advance(e.name, Put(e.h, e.name, Put(e.h, e.name, s.session, first), second));
    s.(session := session, commits := s.commits + [session.cat],
       objects := s.objects[first.Id(e.h) := first][second.Id(e.h) := second])
  }

  /** Either object may be known already. */
  ghost predicate MayPut(e: Env, s: State, first: Obj, second: Obj) {
    && first.Fits() && second.Fits() && e.edges(first) == [] && e.edges(second) == []
    && first.Id(e.h) != second.Id(e.h)
    && (first.Id(e.h) in s.objects ==> s.objects[first.Id(e.h)] == first)
    && (second.Id(e.h) in s.objects ==> s.objects[second.Id(e.h)] == second)
  }

  lemma PairRuns(e: Env, s: State, first: Obj, second: Obj)
    requires s.commits != [] && !s.inBatch && MayPut(e, s, first, second)
    ensures Run(e, s, PairSteps(first, second), WithPair(e, s, first, second))
  {
    hide EncodeRecord, Agrees, Recover, Run, Obj.Id, Put, Advance;
    var s1 := s.(inBatch := true);
    var s2 := s1.(session := Put(e.h, e.name, s1.session, first), objects := s1.objects[first.Id(e.h) := first]);
    var s3 := s2.(session := Put(e.h, e.name, s2.session, second), objects := s2.objects[second.Id(e.h) := second]);
    var s4 := s3.(session := Advance(e.name, s3.session));
    var s5 := WithPair(e, s, first, second);
    RunEmpty(e, s5);
    assert s4.commits + [s4.View()] == s5.commits;
    RunStep(e, s4, Commit, [], s5);
    assert [Commit] + [] == [Commit];
    RunStep(e, s3, AdvanceCheckpoint, [Commit], s5);
    RunStep(e, s2, PutObject(second), [AdvanceCheckpoint] + [Commit], s5);
    RunStep(e, s1, PutObject(first), [PutObject(second)] + ([AdvanceCheckpoint] + [Commit]), s5);
    RunStep(e, s, Begin, [PutObject(first)] + ([PutObject(second)] + ([AdvanceCheckpoint] + [Commit])), s5);
  }

  lemma NoSampleInPair(first: Obj, second: Obj)
    ensures forall step | step in PairSteps(first, second) :: !step.SampleRefs? && !step.PowerLoss?
  {
  }

  lemma PairKeepsInv(e: Env, s: State, first: Obj, second: Obj)
    requires EnvOk(e) && Inv(e, s) && s.commits != [] && !s.inBatch && MayPut(e, s, first, second)
    ensures Run(e, s, PairSteps(first, second), WithPair(e, s, first, second)) && Inv(e, WithPair(e, s, first, second))
  {
    hide Inv, Run, Enabled, Next, WithPair, PairSteps, SamplesClean, RunTrusts, Obj.Id;
    PairRuns(e, s, first, second);
    NoSampleInPair(first, second);
    NoSampleIsClean(e, s, PairSteps(first, second));
    RecentIsTrusted(e, s, PairSteps(first, second));
    RunKeepsInv(e, s, PairSteps(first, second), WithPair(e, s, first, second));
  }

  /** What a pair leaves in a store without rows. */
  lemma PairIs(e: Env, s: State, first: Obj, second: Obj)
    requires first.Id(e.h) != second.Id(e.h) && s.View().rows == map[] && s.Pack() == []
    ensures var s' := WithPair(e, s, first, second);
            && s'.Pack() == EncodeRecord(e.h, first) + EncodeRecord(e.h, second)
            && s'.View().rows == CatalogOfTwo(e.h, e.name, first, second).rows && s'.View() == Current(s')
            && s'.commits != [] && s'.inBatch == s.inBatch
  {
    PutNew(e.h, e.name, s.session, first);
    PutNew(e.h, e.name, Put(e.h, e.name, s.session, first), second);
    AdvanceKeepsRows(e.name, Put(e.h, e.name, Put(e.h, e.name, s.session, first), second));
    hide EncodeRecord, Obj.Id, Put, Advance;
    assert [] + EncodeRecord(e.h, first) == EncodeRecord(e.h, first);
  }

  lemma AdvanceKeepsRows(name: PackName, s: Session)
    ensures Advance(name, s).pack == s.pack && Advance(name, s).cat.rows == s.cat.rows
  {
  }

  lemma RunOfTwo(h: Hasher, x: Obj, z: Obj)
    requires x.Fits() && z.Fits()
    ensures var one := EncodeRecord(h, x);
            var run := Then(None, x.Id(h), 0, NewLoc(h, [], x).End());
            Then(Some(run), z.Id(h), |one|, NewLoc(h, one, z).End())
            == AppendRun(0, |one + EncodeRecord(h, z)|, 2, z.Id(h), |one|)
  {
    EncodedLength(h, x);
    EncodedLength(h, z);
    hide EncodeRecord, Obj.Id;
  }

  /** In an empty store the pair's checkpoint counts both. */
  lemma FirstSession(h: Hasher, name: PackName, x: Obj, z: Obj)
    requires x.Fits() && z.Fits() && x.Id(h) != z.Id(h)
    ensures var s0 := Session([], Catalog(map[], map[]), None);
            Advance(name, Put(h, name, Put(h, name, s0, x), z)).cat == CatalogOfTwo(h, name, x, z)
  {
    var one := EncodeRecord(h, x);
    RunOfTwo(h, x, z);
    hide EncodeRecord, Obj.Id, Put, Advance, Then, NewLoc, RowOf;
    var s0 := Session([], Catalog(map[], map[]), None);
    assert [] + one == one;
    PutNew(h, name, s0, x);
    var s1 := Put(h, name, s0, x);
    PutNew(h, name, s1, z);
    var s2 := Put(h, name, s1, z);
    assert s2.cat.rows == CatalogOfTwo(h, name, x, z).rows;
    FirstAdvance(name, s2.pack, s2.cat.rows, s2.run.value);
  }

  lemma FirstPair(e: Env, x: Obj, z: Obj)
    requires x.Fits() && z.Fits() && x.Id(e.h) != z.Id(e.h)
    requires Start(e) == Fresh().(visible := FrontierAt(e.name, 0), stable := FrontierAt(e.name, 0))
    ensures WithPair(e, Start(e), x, z).View() == CatalogOfTwo(e.h, e.name, x, z)
  {
    hide Put, Advance, Obj.Id, CatalogOfTwo, Start;
    FirstSession(e.h, e.name, x, z);
  }

  // ---- the first power loss ----

  /** All records are lost, the commit is not. */
  function LossOfAll(cat: Catalog): Step { PowerLoss([], map[], cat, true) }

  lemma LossOfAllIsEnabled(e: Env, s: State, cat: Catalog)
    requires s.commits != [] && s.visible.Some? && cat in s.commits && s.packSynced == 0 && s.logs == map[]
    ensures Enabled(e, s, LossOfAll(cat)) && Trusts(e, s, LossOfAll(cat))
    ensures Next(e, s, LossOfAll(cat)) == Reopen(e, s, [], map[], cat, s.visible, s.visible)
  {
    EmptyScan(e.h);
    hide Scan, ScanEnd, Reopen;
    assert [][..0] == s.Pack()[..0];
  }

  /** The store opens empty, and the commit may come back. */
  lemma NothingIsLeft(e: Env, s: State, cat: Catalog)
    requires s.commits != [] && cat in s.commits && s.visible == FrontierAt(e.name, 0)
    requires e.name in cat.checkpoints && 0 < cat.checkpoints[e.name].verifiedLen
    requires Reopen(e, s, [], map[], cat, s.visible, s.visible).Ok? && OwnRows(e, cat)
    ensures var s' := Reopen(e, s, [], map[], cat, s.visible, s.visible).value;
            && s'.commits != [] && s'.Pack() == [] && s'.View().rows == map[] && s'.View() == Current(s')
            && cat in s'.older && s'.logs == map[] && !s'.inBatch && s'.group.Idle? && s'.objects == s.objects
            && s'.visible == FrontierAt(e.name, 0)
  {
    LongCheckpointIsNotTrusted(e.name, [], cat, s.visible);
    ReopenParts(e, s, [], cat, s.visible);
    UntrustedIsSound(e.h, e.name, [], cat, s.visible);
    EmptyScan(e.h);
    RecoveryKeepsLongestPrefix(e.h, e.name, [], cat, s.visible);
    hide Recover, Reopen, Scan, ScanEnd, TrustedCheckpoint, TrustIsSound;
    var rows := Recover(e.h, e.name, [], cat, s.visible).value.cat.rows;
    forall id
      ensures id !in rows
    {
      RecoveryRows(e.h, e.name, [], cat, s.visible, id);
    }
    assert rows == map[];
  }

  // ---- other records in their place ----

  /** The store after the first loss: empty, with the lost records' commit among the older ones. */
  ghost predicate Emptied(e: Env, s: State, x: Obj, z: Obj) {
    && Inv(e, s) && s.commits != [] && s.Pack() == [] && s.View().rows == map[] && s.View() == Current(s)
    && CatalogOfTwo(e.h, e.name, x, z) in s.older && s.logs == map[] && !s.inBatch && s.group.Idle?
    && s.objects == map[x.Id(e.h) := x, z.Id(e.h) := z] && s.visible.Some?
  }

  lemma EmptiedIsReached(e: Env, x: Obj, y: Obj, z: Obj, p: Obj, record: Refs.RefRecord)
    returns (steps: seq<Step>, s: State)
    requires EnvOk(e) && Roles(e, x, y, z, p, record)
    ensures Run(e, Fresh(), steps, s) && Emptied(e, s, x, z)
  {
    StartIsReached(e);
    CatalogOfTwoHas(e.h, e.name, x, z);
    FirstPair(e, x, z);
    hide Inv, Run, Enabled, Next, Continues, CatalogOfTwo, EncodeRecord, Obj.Id, Put, Advance, FrontierAt, Reopen, Trusts, Start;
    PairKeepsInv(e, Start(e), x, z);
    var s1 := WithPair(e, Start(e), x, z);
    var cat := CatalogOfTwo(e.h, e.name, x, z);
    assert s1.commits[|s1.commits| - 1] == cat;
    LossOfAllIsEnabled(e, s1, cat);
    StepKeepsInv(e, s1, LossOfAll(cat));
    s := Next(e, s1, LossOfAll(cat)).value;
    NothingIsLeft(e, s1, cat);
    RunOne(e, s1, LossOfAll(cat));
    RunThen(e, Fresh(), GroupSteps(0), Start(e), PairSteps(x, z), s1);
    RunThen(e, Fresh(), GroupSteps(0) + PairSteps(x, z), s1, [LossOfAll(cat)], s);
    steps := GroupSteps(0) + PairSteps(x, z) + [LossOfAll(cat)];
  }

  /** `y`, `z` and a snapshot of `y` are in the pack, published and covered by the frontier. */
  ghost predicate Published3(e: Env, s: State, x: Obj, y: Obj, z: Obj, p: Obj, w: string, record: Refs.RefRecord) {
    && Inv(e, s) && s.commits != []
    && s.Pack() == EncodeRecord(e.h, y) + EncodeRecord(e.h, z) + EncodeRecord(e.h, p)
    && s.packSynced == |s.Pack()| && CatalogOfTwo(e.h, e.name, x, z) in s.older
    && s.visible.Some? && s.visible.value.Pack(e.name) == |s.Pack()|
    && y.Id(e.h) in s.objects && s.objects[y.Id(e.h)] == y && p.Id(e.h) in s.objects && s.objects[p.Id(e.h)] == p
    && w in s.logs && DurablyPublished(e, s, w, 1) && Frames(e, s.logs[w].bytes) != []
    && Frames(e, s.logs[w].bytes)[0].record == record
    && OpensAfterAnyCrash(e, s)
  }

  lemma PairKeeps(e: Env, s: State, first: Obj, second: Obj)
    ensures var s' := WithPair(e, s, first, second);
            && s'.logs == s.logs && s'.group == s.group && s'.older == s.older
            && s'.objects == s.objects[first.Id(e.h) := first][second.Id(e.h) := second]
  {
    hide Put, Advance, Obj.Id;
  }

  lemma PairIsPut(e: Env, s: State, x: Obj, y: Obj, z: Obj, p: Obj, record: Refs.RefRecord)
    requires EnvOk(e) && Roles(e, x, y, z, p, record) && Emptied(e, s, x, z)
    ensures var s2 := WithPair(e, s, y, z);
            && Run(e, s, PairSteps(y, z), s2) && Inv(e, s2) && s2.commits != []
            && s2.Pack() == EncodeRecord(e.h, y) + EncodeRecord(e.h, z)
            && s2.logs == map[] && s2.group.Idle? && s2.older == s.older
            && s2.objects == s.objects[y.Id(e.h) := y][z.Id(e.h) := z]
            && MayPublish(e, s2, p)
  {
    hide Inv, Run, Continues, EncodeRecord, Obj.Id, WithPair, PairSteps, CatalogOfTwo;
    PairKeepsInv(e, s, y, z);
    PairIs(e, s, y, z);
    PairKeeps(e, s, y, z);
    CatalogOfTwoHas(e.h, e.name, y, z);
  }

  ghost predicate MayPublish(e: Env, s: State, p: Obj) {
    && !s.inBatch && p.Fits() && p.kind == Snapshot && p.Id(e.h) !in s.View().rows && p.Id(e.h) !in s.objects
    && forall edge | edge in e.edges(p) :: edge.id in s.View().rows && s.View().rows[edge.id].kind == edge.kind
  }

  lemma PublishKeepsInv(e: Env, s: State, p: Obj, w: string, record: Refs.RefRecord)
    requires EnvOk(e) && Inv(e, s) && s.commits != [] && w !in s.logs && MayPublish(e, s, p)
    requires Continues(e, [], record) && record.snapshot == p.Id(e.h)
    ensures var s' := WithSnapshot(e, s, p, w, record);
            Run(e, s, PublishSteps(p, w, record), s') && Inv(e, s')
  {
    hide Inv, Run, Enabled, Next, Continues, Obj.Id, SamplesClean, RunTrusts, PublishSteps, WithSnapshot;
    PublishRuns(e, s, p, w, record);
    NoSampleInPublish(p, w, record);
    NoSampleIsClean(e, s, PublishSteps(p, w, record));
    RecentIsTrusted(e, s, PublishSteps(p, w, record));
    RunKeepsInv(e, s, PublishSteps(p, w, record), WithSnapshot(e, s, p, w, record));
  }

  lemma PairThenSnapshot(e: Env, s: State, x: Obj, y: Obj, z: Obj, p: Obj, w: string, record: Refs.RefRecord)
    requires EnvOk(e) && Roles(e, x, y, z, p, record) && Emptied(e, s, x, z)
    ensures var s2 := WithPair(e, s, y, z);
            && s2.commits != [] && Inv(e, WithSnapshot(e, s2, p, w, record))
            && Run(e, s, PairSteps(y, z) + PublishSteps(p, w, record), WithSnapshot(e, s2, p, w, record))
  {
    hide Emptied, Inv, Run, Continues, EncodeRecord, Obj.Id, PairSteps, PublishSteps, WithSnapshot, WithPair, MayPublish;
    PairIsPut(e, s, x, y, z, p, record);
    var s2 := WithPair(e, s, y, z);
    PublishKeepsInv(e, s2, p, w, record);
    RunThen(e, s, PairSteps(y, z), s2, PublishSteps(p, w, record), WithSnapshot(e, s2, p, w, record));
  }

  /** The same before the group commit. */
  ghost predicate Uncovered(e: Env, s: State, x: Obj, y: Obj, z: Obj, p: Obj, w: string, record: Refs.RefRecord) {
    && Inv(e, s) && s.commits != [] && s.group.Idle? && AllClean(e, s)
    && s.Pack() == EncodeRecord(e.h, y) + EncodeRecord(e.h, z) + EncodeRecord(e.h, p)
    && CatalogOfTwo(e.h, e.name, x, z) in s.older
    && y.Id(e.h) in s.objects && s.objects[y.Id(e.h)] == y && p.Id(e.h) in s.objects && s.objects[p.Id(e.h)] == p
    && w in s.logs && |Frames(e, s.logs[w].bytes)| == 1 && Frames(e, s.logs[w].bytes)[0].record == record
    && exists id :: id in Current(s).rows && Current(s).rows[id].End() == |s.Pack()|
  }

  lemma GroupCovers(e: Env, s: State, x: Obj, y: Obj, z: Obj, p: Obj, w: string, record: Refs.RefRecord)
    requires EnvOk(e) && Uncovered(e, s, x, y, z, p, w, record)
    ensures var s' := GroupCommitted(e, s, |s.Pack()|);
            Run(e, s, GroupSteps(|s.Pack()|), s') && Published3(e, s', x, y, z, p, w, record)
  {
    hide Inv, Run, Enabled, Next, EncodeRecord, Obj.Id, CatalogOfTwo, AllClean, DurablyPublished, Refs.Frames,
         OpensAfterAnyCrash, GroupSteps;
    SnapshotIsCommitted(e, s, |s.Pack()|, w);
    SnapshotMaySample(e, s);
    GroupCommitReopensIff(e, s, |s.Pack()|);
  }

  lemma SnapshotIsUncovered(e: Env, s: State, x: Obj, y: Obj, z: Obj, p: Obj, w: string, record: Refs.RefRecord)
    requires EnvOk(e) && Roles(e, x, y, z, p, record) && Emptied(e, s, x, z)
    ensures Uncovered(e, WithSnapshot(e, WithPair(e, s, y, z), p, w, record), x, y, z, p, w, record)
  {
    PairIsPut(e, s, x, y, z, p, record);
    PairThenSnapshot(e, s, x, y, z, p, w, record);
    hide Inv, Run, Continues, EncodeRecord, Obj.Id, CatalogOfTwo, WithPair, WithSnapshot, AllClean, Refs.Frames, PairSteps,
         PublishSteps;
    var s2 := WithPair(e, s, y, z);
    SnapshotIsLast(e, s2, p, w, record);
    SnapshotObjects(e, s2, p, w, record);
  }

  lemma SnapshotObjects(e: Env, s: State, p: Obj, w: string, record: Refs.RefRecord)
    ensures var s' := WithSnapshot(e, s, p, w, record);
            s'.objects == s.objects[p.Id(e.h) := p] && s'.group == s.group
  {
    hide Put, Appended, Obj.Id;
  }

  lemma PublishedIsReached(e: Env, s: State, x: Obj, y: Obj, z: Obj, p: Obj, w: string, record: Refs.RefRecord)
    returns (steps: seq<Step>, s': State)
    requires EnvOk(e) && Roles(e, x, y, z, p, record) && Emptied(e, s, x, z)
    ensures Run(e, s, steps, s') && Published3(e, s', x, y, z, p, w, record)
  {
    hide Roles, Emptied, Uncovered, Published3, Run, WithPair, WithSnapshot, GroupCommitted, PairSteps, PublishSteps, GroupSteps,
         Inv;
    PairThenSnapshot(e, s, x, y, z, p, w, record);
    SnapshotIsUncovered(e, s, x, y, z, p, w, record);
    var s3 := WithSnapshot(e, WithPair(e, s, y, z), p, w, record);
    GroupCovers(e, s3, x, y, z, p, w, record);
    s' := GroupCommitted(e, s3, |s3.Pack()|);
    steps := PairSteps(y, z) + PublishSteps(p, w, record) + GroupSteps(|s3.Pack()|);
    RunThen(e, s, PairSteps(y, z) + PublishSteps(p, w, record), s3, GroupSteps(|s3.Pack()|), s');
  }

  lemma SnapshotMaySample(e: Env, s: State)
    requires Inv(e, s) && s.commits != []
    requires exists id :: id in Current(s).rows && Current(s).rows[id].End() == |s.Pack()|
    ensures MaySample(e, s, |s.Pack()|)
  {
    hide Base, Inv;
    InvIsBase(e, s);
    CurrentInside(e, s);
  }

  // ---- the second power loss ----

  /** The lost commit comes back: recovery trusts it, up to where a record ends. */
  lemma LossIsWrong(e: Env, s: State, x: Obj, y: Obj, z: Obj, p: Obj, w: string, record: Refs.RefRecord)
    requires e.anyCommit && Roles(e, x, y, z, p, record) && Published3(e, s, x, y, z, p, w, record)
    ensures LogsIntact(e, s)
    ensures var step, two := LossTo(e, s, CatalogOfTwo(e.h, e.name, x, z)), EncodeRecord(e.h, y) + EncodeRecord(e.h, z);
            var c := CrashIn(e, s, step);
            && step.PowerLoss? && Enabled(e, s, step) && TrustsBoundary(e, c)
            && c.pack == s.Pack() && c.cat == CatalogOfTwo(e.h, e.name, x, z) && c.visible == s.visible
            && e.name in c.cat.checkpoints && c.cat.checkpoints[e.name].verifiedLen == |two|
            && TrustedCheckpoint(e.name, c.pack, c.cat, c.visible) == Some(c.cat.checkpoints[e.name])
  {
    var cat := CatalogOfTwo(e.h, e.name, x, z);
    hide Inv, Base, Enabled, EncodeRecord, CatalogOfTwo, LossTo, DurablyPublished, Refs.Frames, OpensAfterAnyCrash, Continues,
         TrustedCheckpoint, Boundary, CrashIn, LogsIntact, Obj.Id;
    InvIsBase(e, s);
    LogsAreIntact(e, s);
    LossIsEnabled(e, s, cat);
    OutlivedIsTrusted(e.h, e.name, x, y, z, EncodeRecord(e.h, p), s.visible);
  }

  lemma LossOpens(e: Env, s: State, step: Step)
    requires EnvOk(e) && Inv(e, s) && s.commits != [] && step.PowerLoss? && Enabled(e, s, step)
    requires OpensAfterAnyCrash(e, s) && TrustsBoundary(e, CrashIn(e, s, step))
    ensures Next(e, s, step).Ok?
  {
    InvIsBase(e, s);
    LogsAreIntact(e, s);
    hide Inv, Base, Enabled, Next, CrashIn, OpensAfterAnyCrash, TrustsBoundary, PackAfter, FramesReach, LogsIntact,
         FrontiersReached, CrashFiles, After, PackOk, CatalogsOk, OlderOk, OwnRows;
    OpensIff(e, s);
    ReachedByAnyCrash(e, s, step);
    LossFound(e, s, step);
    PackLeftAnyway(e, s, CrashIn(e, s, step));
    StepSucceedsIff(e, s, step);
  }

  /** The recovered rows are those of the lost pair and of the snapshot. */
  lemma WrongRows(e: Env, s: State, c: Crash, x: Obj, y: Obj, z: Obj, p: Obj, id: Digest)
    requires x.Fits() && y.Fits() && z.Fits() && p.Fits() && x.Id(e.h) != z.Id(e.h)
    requires |EncodeRecord(e.h, x)| == |EncodeRecord(e.h, y)|
    requires c.pack == EncodeRecord(e.h, y) + EncodeRecord(e.h, z) + EncodeRecord(e.h, p)
    requires c.cat == CatalogOfTwo(e.h, e.name, x, z) && PackAfter(e, s, c).Ok?
    requires e.name in c.cat.checkpoints
    requires c.cat.checkpoints[e.name].verifiedLen == |EncodeRecord(e.h, y) + EncodeRecord(e.h, z)|
    requires TrustedCheckpoint(e.name, c.pack, c.cat, c.visible) == Some(c.cat.checkpoints[e.name])
    ensures id in PackAfter(e, s, c).value.cat.rows <==> id == x.Id(e.h) || id == z.Id(e.h) || id == p.Id(e.h)
    ensures id in PackAfter(e, s, c).value.cat.rows ==>
              var row := PackAfter(e, s, c).value.cat.rows[id];
              row.pack == e.name && row.End() <= |c.pack|
  {
    ThirdRecord(e.h, y, z, p);
    EncodedLength(e.h, p);
    CatalogOfTwoHas(e.h, e.name, x, z);
    hide ParseRecord, Scan, ScanEnd, Recover, EncodeRecord, CatalogOfTwo, TrustedCheckpoint, Obj.Id;
    RecoveryRows(e.h, e.name, c.pack, c.cat, c.visible, id);
    RowReturnsIff(e, s, c, id);
    var two := EncodeRecord(e.h, y) + EncodeRecord(e.h, z);
    assert Scan(e.h, c.pack, |two|)[0].id == p.Id(e.h);
  }

  /** The recovered checkpoint counts as many. */
  lemma WrongCount(e: Env, s: State, c: Crash, y: Obj, z: Obj, p: Obj)
    requires y.Fits() && z.Fits() && p.Fits()
    requires c.pack == EncodeRecord(e.h, y) + EncodeRecord(e.h, z) + EncodeRecord(e.h, p)
    requires PackAfter(e, s, c).Ok? && e.name in c.cat.checkpoints && c.cat.checkpoints[e.name].objectCount == 2
    requires c.cat.checkpoints[e.name].verifiedLen == |EncodeRecord(e.h, y) + EncodeRecord(e.h, z)|
    requires TrustedCheckpoint(e.name, c.pack, c.cat, c.visible) == Some(c.cat.checkpoints[e.name])
    ensures var cat := PackAfter(e, s, c).value.cat;
            && e.name in cat.checkpoints && cat.checkpoints[e.name].verifiedLen == |c.pack|
            && cat.checkpoints[e.name].objectCount == 3
  {
    ThirdRecord(e.h, y, z, p);
    EncodedLength(e.h, p);
    hide ParseRecord, Scan, ScanEnd, Recover, EncodeRecord, TrustedCheckpoint, RecoveredRows, DropFrom, ReadRecords;
    var trusted := TrustedCheckpoint(e.name, c.pack, c.cat, c.visible);
    var start := StartProgress(e.name, c.cat.rows, trusted);
    var two := EncodeRecord(e.h, y) + EncodeRecord(e.h, z);
    RecoverShape(e.h, e.name, c.pack, c.cat, c.visible);
    ReadRecordsCounters(start, e.name, Scan(e.h, c.pack, |two|));
  }

  lemma ThreeRowsAgree(e: Env, cat: Catalog, len: nat, a: Digest, b: Digest, c: Digest)
    requires a != b && a != c && b != c && forall id :: id in cat.rows <==> id == a || id == b || id == c
    requires forall id | id in cat.rows :: cat.rows[id].pack == e.name && cat.rows[id].End() <= len
    requires e.name in cat.checkpoints && cat.checkpoints[e.name].verifiedLen == len
    requires cat.checkpoints[e.name].objectCount == 3
    ensures Agrees(e.name, cat)
  {
    assert PrefixRows(cat.rows, e.name, len) == {a, b, c};
    assert CrossingRows(cat.rows, e.name, len) == {};
  }

  lemma WrongAgrees(e: Env, s: State, c: Crash, x: Obj, y: Obj, z: Obj, p: Obj, w: string, record: Refs.RefRecord)
    requires Roles(e, x, y, z, p, record) && PackAfter(e, s, c).Ok? && c.cat == CatalogOfTwo(e.h, e.name, x, z)
    requires c.pack == EncodeRecord(e.h, y) + EncodeRecord(e.h, z) + EncodeRecord(e.h, p)
    requires e.name in c.cat.checkpoints
    requires c.cat.checkpoints[e.name].verifiedLen == |EncodeRecord(e.h, y) + EncodeRecord(e.h, z)|
    requires TrustedCheckpoint(e.name, c.pack, c.cat, c.visible) == Some(c.cat.checkpoints[e.name])
    ensures Agrees(e.name, PackAfter(e, s, c).value.cat) && y.Id(e.h) !in PackAfter(e, s, c).value.cat.rows
  {
    CatalogOfTwoHas(e.h, e.name, x, z);
    hide PackAfter, EncodeRecord, CatalogOfTwo, TrustedCheckpoint, Obj.Id, Agrees, Continues;
    WrongCount(e, s, c, y, z, p);
    var cat := PackAfter(e, s, c).value.cat;
    forall id
      ensures id in cat.rows <==> id == x.Id(e.h) || id == z.Id(e.h) || id == p.Id(e.h)
      ensures id in cat.rows ==> cat.rows[id].pack == e.name && cat.rows[id].End() <= |c.pack|
    {
      WrongRows(e, s, c, x, y, z, p, id);
    }
    ThreeRowsAgree(e, cat, |c.pack|, x.Id(e.h), z.Id(e.h), p.Id(e.h));
  }

  /** What the second loss leaves: the index agrees with itself, and `y` has no row. */
  lemma LossLeaves(e: Env, s: State, x: Obj, y: Obj, z: Obj, p: Obj, w: string, record: Refs.RefRecord)
    returns (step: Step, s': State)
    requires EnvOk(e) && e.anyCommit && Roles(e, x, y, z, p, record) && Published3(e, s, x, y, z, p, w, record)
    ensures step.PowerLoss? && Enabled(e, s, step) && Next(e, s, step) == Ok(s') && TrustsBoundary(e, CrashIn(e, s, step))
    ensures s'.commits != [] && !s'.inBatch && s'.objects == s.objects
    ensures Agrees(e.name, s'.View()) && y.Id(e.h) !in s'.View().rows
  {
    hide Roles, Inv, Base, Enabled, Next, CrashIn, After, PackAfter, FramesReach, CrashRecovery.LogKept, EncodeRecord,
         CatalogOfTwo, LossTo, DurablyPublished, Refs.Frames, OpensAfterAnyCrash, TrustsBoundary, TrustedCheckpoint, Agrees,
         Obj.Id, PackOk, CatalogsOk, OlderOk, LogsIntact, FrontiersInPack, OwnRows, CrashFiles;
    LossIsWrong(e, s, x, y, z, p, w, record);
    step := LossTo(e, s, CatalogOfTwo(e.h, e.name, x, z));
    LossOpens(e, s, step);
    InvIsBase(e, s);
    s' := Next(e, s, step).value;
    var c := CrashIn(e, s, step);
    AnyLossIsBare(e, s, step);
    LossFound(e, s, step);
    PackLeftAnyway(e, s, c);
    ReopensAnyIff(e, s, c);
    WrongAgrees(e, s, c, x, y, z, p, w, record);
  }

  /** What the run ends in: the reference is where it was, and the object below its snapshot cannot be read. */
  ghost predicate Unreadable(e: Env, s: State, s': State, y: Obj, w: string, record: Refs.RefRecord) {
    && SameFrames(e, s, s', w, 1) && s'.commits != [] && !s'.inBatch
    && record.snapshot in s'.objects && Refers(e, s'.objects[record.snapshot], y.Id(e.h))
    && ReadIn(e, s', y.Id(e.h), y.kind) == Err && !ClosureReadable(e, s', record.snapshot)
  }

  lemma SelfAgreedReadsNothing(e: Env, s: State, p: Obj, y: Obj)
    requires !s.inBatch && Agrees(e.name, s.View()) && y.Id(e.h) !in s.View().rows
    requires y.Id(e.h) in s.objects && s.objects[y.Id(e.h)] == y && p.Id(e.h) in s.objects && s.objects[p.Id(e.h)] == p
    requires e.edges(p) == [Edge(y.Id(e.h), y.kind)]
    ensures ReadIn(e, s, y.Id(e.h), y.kind) == Err && !ClosureReadable(e, s, p.Id(e.h))
    ensures Refers(e, p, y.Id(e.h))
  {
    hide Agrees, Obj.Id, Read, Recover, Verify, ClosureReadable;
    NoRowReadsNothing(e.h, map[e.name := s.Pack()], s.View().rows, y.Id(e.h), y.kind);
    assert Edge(y.Id(e.h), y.kind) in e.edges(p);
    if ClosureReadable(e, s, p.Id(e.h)) {
      ChildReads(e, s, p.Id(e.h), y.Id(e.h), Edge(y.Id(e.h), y.kind));
    }
  }

  lemma LossIsNotTrusted(e: Env, s: State, step: Step, w: string)
    requires EnvOk(e) && Inv(e, s) && s.commits != [] && step.PowerLoss? && Enabled(e, s, step) && Next(e, s, step).Ok?
    requires w in s.logs && DurablyPublished(e, s, w, 1) && Frames(e, s.logs[w].bytes) != []
    requires !ClosureReadable(e, Next(e, s, step).value, Frames(e, s.logs[w].bytes)[0].record.snapshot)
    ensures !Trusts(e, s, step)
  {
    hide Inv, Base, Enabled, Next, Trusts, ClosureReadable, DurablyPublished, Refs.Frames;
    InvIsBase(e, s);
    if Trusts(e, s, step) {
      var s' := Next(e, s, step).value;
      StepKeepsBase(e, s, step);
      StepKeepsDurable(e, s, step, w, 1);
      DurableIsReadable(e, s', w, 1);
      FirstFrame(e, s, s', w);
    }
  }

  lemma RepairReturns(e: Env, s: State, step: Step, w: string)
    requires EnvOk(e) && e.anyCommit && Inv(e, s) && s.commits != [] && step.PowerLoss? && Enabled(e, s, step)
    requires Next(e, s, step).Ok? && TrustsBoundary(e, CrashIn(e, s, step))
    requires w in s.logs && DurablyPublished(e, s, w, 1) && Frames(e, s.logs[w].bytes) != []
    ensures SameFrames(e, s, Next(e, s, step).value, w, 1)
    ensures var s' := Checked(e, Next(e, s, step).value, true);
            && s'.commits != [] && DurablyPublished(e, s', w, 1)
            && ClosureReadable(e, s', Frames(e, s.logs[w].bytes)[0].record.snapshot)
  {
    hide Inv, Base, Enabled, Next, CrashIn, Checked, TrustsBoundary, ClosureReadable, DurablyPublished, Refs.Frames;
    InvIsBase(e, s);
    FramesAfterAnyLoss(e, s, step, w, 1);
    DeepVerifyKeepsDurable(e, s, step, w, 1);
    FirstFrame(e, s, Checked(e, Next(e, s, step).value, true), w);
  }

  lemma LossCosts(e: Env, s: State, x: Obj, y: Obj, z: Obj, p: Obj, w: string, record: Refs.RefRecord)
    returns (step: Step, s': State)
    requires EnvOk(e) && e.anyCommit && Roles(e, x, y, z, p, record) && Published3(e, s, x, y, z, p, w, record)
    ensures step.PowerLoss? && Enabled(e, s, step) && Next(e, s, step) == Ok(s') && !Trusts(e, s, step)
    ensures Unreadable(e, s, s', y, w, record)
    ensures Checked(e, s', true).commits != [] && DurablyPublished(e, Checked(e, s', true), w, 1)
    ensures ClosureReadable(e, Checked(e, s', true), record.snapshot)
  {
    hide Inv, Enabled, Next, CrashIn, Checked, TrustsBoundary, ClosureReadable, DurablyPublished, Refs.Frames, Trusts, Agrees,
         EncodeRecord, CatalogOfTwo, OpensAfterAnyCrash, Obj.Id, Continues, ReadIn, Refers, SameFrames;
    step, s' := LossLeaves(e, s, x, y, z, p, w, record);
    SelfAgreedReadsNothing(e, s', p, y);
    LossIsNotTrusted(e, s, step, w);
    RepairReturns(e, s, step, w);
  }

  /**
    * From an empty store to a durably published reference, and from there by one power loss to a store in which an
    * object below it cannot be read, retry or not. A deep verification brings it back.
    */
  lemma OutlivedCommitCosts(e: Env, x: Obj, y: Obj, z: Obj, p: Obj, w: string, record: Refs.RefRecord)
    returns (steps: seq<Step>, s: State, step: Step, s': State)
    requires EnvOk(e) && e.anyCommit && Roles(e, x, y, z, p, record)
    ensures Run(e, Fresh(), steps, s) && s.commits != [] && DurablyPublished(e, s, w, 1) && w in s.logs
    ensures Frames(e, s.logs[w].bytes) != [] && Frames(e, s.logs[w].bytes)[0].record == record
    ensures step.PowerLoss? && Enabled(e, s, step) && Next(e, s, step) == Ok(s') && !Trusts(e, s, step)
    ensures Unreadable(e, s, s', y, w, record)
    ensures Checked(e, s', true).commits != [] && DurablyPublished(e, Checked(e, s', true), w, 1)
    ensures ClosureReadable(e, Checked(e, s', true), record.snapshot)
  {
    hide Inv, Run, Roles, Emptied, Enabled, Next, Checked, ClosureReadable, DurablyPublished, Refs.Frames, Trusts, Unreadable,
         EncodeRecord, CatalogOfTwo, OpensAfterAnyCrash, Obj.Id;
    var first, emptied := EmptiedIsReached(e, x, y, z, p, record);
    var rest;
    rest, s := PublishedIsReached(e, emptied, x, y, z, p, w, record);
    RunThen(e, Fresh(), first, emptied, rest, s);
    steps := first + rest;
    step, s' := LossCosts(e, s, x, y, z, p, w, record);
  }
}
