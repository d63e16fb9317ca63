/**
  * A run of the store in which an older catalog commit costs a durable object its row: a batch is aborted, a rescan
  * gives its object a row, a snapshot is built on it and group-committed, and a power loss brings back the catalog
  * from before the rescan.
  */
module ForgottenRow {
  import opened Bytes
  import opened Pack
  import opened Recovery
  import opened RecoveryTwice
  import opened IndexCheck
  import opened Durability
  import opened StoreRuns
  import opened CrashRecovery
  import opened StoreTheorems
  import opened GroupCommits
  import opened OlderCommits
  import Refs

  // ---- an empty store with a frontier ----

  function Start(e: Env): State { GroupCommitted(e, Fresh(), 0) }

  lemma StartIsReached(e: Env)
    requires EnvOk(e)
    ensures Run(e, Fresh(), GroupSteps(0), Start(e)) && Inv(e, Start(e))
    ensures Start(e) == Fresh().(visible := FrontierAt(e.name, 0), stable := FrontierAt(e.name, 0))
  {
    FreshStoreOk(e);
    hide Inv, Run, Enabled, Next;
    assert MaySample(e, Fresh(), 0);
    CleanGroupCommit(e, Fresh(), 0);
    NoLogsCommitted(e, Fresh(), 0);
  }

  lemma NoLogsCommitted(e: Env, s: State, written: nat)
    requires s.logs == map[]
    ensures GroupFrontier(e, s, written) == Frontier(map[e.name := written], map[])
    ensures GroupCommitted(e, s, written).logs == map[]
  {
    assert GroupFrontier(e, s, written).refs.Keys == {};
    assert GroupCommitted(e, s, written).logs.Keys == {};
  }

  // ---- an aborted batch and a committed one ----

  function TwoBytes(e: Env, a: Obj, b: Obj): seq<byte> { EncodeRecord(e.h, a) + EncodeRecord(e.h, b) }

  /** `a` was put and rolled back, `b` put and committed. */
  function Batched(e: Env, a: Obj, b: Obj): State {
    Start(e).(session := Session(TwoBytes(e, a, b), AfterAbort(e.h, e.name, a, b), None),
              commits := [Catalog(map[], map[]), AfterAbort(e.h, e.name, a, b)],
              objects := map[a.Id(e.h) := a, b.Id(e.h) := b])
  }

  function AbortSteps(a: Obj): seq<Step> { [Begin] + ([PutObject(a)] + [Rollback]) }

  function CommitSteps(b: Obj): seq<Step> { [Begin] + ([PutObject(b)] + ([AdvanceCheckpoint] + [Commit])) }

  /** The store after the aborted batch. */
  function Aborted(e: Env, a: Obj): State {
    Start(e).(session := Session(EncodeRecord(e.h, a), Catalog(map[], map[]),
                                 Some(AppendRun(0, |EncodeRecord(e.h, a)|, 1, a.Id(e.h), 0))),
              objects := map[a.Id(e.h) := a])
  }

  lemma PutFirst(e: Env, a: Obj)
    requires a.Fits()
    ensures Put(e.h, e.name, Session([], Catalog(map[], map[]), None), a)
         == Session(EncodeRecord(e.h, a), Catalog(map[a.Id(e.h) := RowOf(e.name, NewLoc(e.h, [], a))], map[]),
                    Some(AppendRun(0, |EncodeRecord(e.h, a)|, 1, a.Id(e.h), 0)))
  {
    EncodedLength(e.h, a);
    hide EncodeRecord;
    assert [] + EncodeRecord(e.h, a) == EncodeRecord(e.h, a);
  }

  lemma AbortRuns(e: Env, a: Obj)
    requires a.Fits() && e.edges(a) == []
    requires Start(e) == Fresh().(visible := FrontierAt(e.name, 0), stable := FrontierAt(e.name, 0))
    ensures Run(e, Start(e), AbortSteps(a), Aborted(e, a))
  {
    PutFirst(e, a);
    hide Start, EncodeRecord, Put, Agrees, Recover, Run, RowOf, NewLoc;
    var s0 := Start(e);
    var s1 := s0.(inBatch := true);
    var s2 := s1.(session := Put(e.h, e.name, s1.session, a), objects := map[a.Id(e.h) := a]);
    RunEmpty(e, Aborted(e, a));
    RunStep(e, s2, Rollback, [], Aborted(e, a));
    assert [Rollback] + [] == [Rollback];
    RunStep(e, s1, PutObject(a), [Rollback], Aborted(e, a));
    RunStep(e, s0, Begin, [PutObject(a)] + [Rollback], Aborted(e, a));
  }

  /** The run of the two records, and the checkpoint it makes. */
  lemma PutSecond(e: Env, a: Obj, b: Obj)
    requires a.Fits() && b.Fits()
    ensures var s := Put(e.h, e.name, Aborted(e, a).session, b);
            && s.cat == Catalog(AfterAbort(e.h, e.name, a, b).rows, map[])
            && Advance(e.name, s) == Batched(e, a, b).session
  {
    EncodedLength(e.h, b);
    hide EncodeRecord, Start, Obj.Id;
    var one := EncodeRecord(e.h, a);
    PutAfter(e.h, e.name, one, Some(AppendRun(0, |one|, 1, a.Id(e.h), 0)), b);
    SecondAdvance(e.h, e.name, a, b);
  }

  lemma PutAfter(h: Hasher, name: PackName, pack: seq<byte>, run: Option<AppendRun>, b: Obj)
    ensures Put(h, name, Session(pack, Catalog(map[], map[]), run), b)
         == Session(pack + EncodeRecord(h, b), Catalog(map[b.Id(h) := RowOf(name, NewLoc(h, pack, b))], map[]),
                    Some(Then(run, b.Id(h), |pack|, NewLoc(h, pack, b).End())))
  {
    hide EncodeRecord, Obj.Id;
  }

  lemma SecondAdvance(h: Hasher, name: PackName, a: Obj, b: Obj)
    requires a.Fits() && b.Fits()
    ensures var one := EncodeRecord(h, a);
            var run := Then(Some(AppendRun(0, |one|, 1, a.Id(h), 0)), b.Id(h), |one|, NewLoc(h, one, b).End());
            Advance(name, Session(one + EncodeRecord(h, b), Catalog(AfterAbort(h, name, a, b).rows, map[]), Some(run)))
            == Session(one + EncodeRecord(h, b), AfterAbort(h, name, a, b), None)
  {
    EncodedLength(h, b);
    AfterAbortHas(h, name, a, b);
    hide EncodeRecord, Obj.Id, AfterAbort;
    var one, cat := EncodeRecord(h, a), AfterAbort(h, name, a, b);
    var run := AppendRun(0, |one + EncodeRecord(h, b)|, 2, b.Id(h), |one|);
    assert Then(Some(AppendRun(0, |one|, 1, a.Id(h), 0)), b.Id(h), |one|, NewLoc(h, one, b).End()) == run;
    FirstAdvance(name, one + EncodeRecord(h, b), cat.rows, run);
    assert map[name := Checkpoint(run.end, run.objects, Some(run.lastObject), run.lastRecordStart)] == cat.checkpoints;
  }

  lemma FirstAdvance(name: PackName, pack: seq<byte>, rows: map<Digest, Row>, run: AppendRun)
    requires run.start == 0
    ensures Advance(name, Session(pack, Catalog(rows, map[]), Some(run)))
         == Session(pack, Catalog(rows, map[name := Checkpoint(run.end, run.objects, Some(run.lastObject),
                                                               run.lastRecordStart)]), None)
  {
  }

  lemma CommitRuns(e: Env, a: Obj, b: Obj)
    requires a.Fits() && b.Fits() && e.edges(b) == [] && a.Id(e.h) != b.Id(e.h)
    requires Start(e) == Fresh().(visible := FrontierAt(e.name, 0), stable := FrontierAt(e.name, 0))
    ensures Run(e, Aborted(e, a), CommitSteps(b), Batched(e, a, b))
  {
    PutSecond(e, a, b);
    hide Start, EncodeRecord, Put, Advance, Agrees, Recover, Run, AfterAbort, TwoBytes;
    var s0 := Aborted(e, a);
    var s1 := s0.(inBatch := true);
    var s2 := s1.(session := Put(e.h, e.name, s1.session, b), objects := s1.objects[b.Id(e.h) := b]);
    var s3 := s2.(session := Advance(e.name, s2.session));
    var s4 := Batched(e, a, b);
    RunEmpty(e, s4);
    assert s3.commits + [s3.View()] == s4.commits;
    RunStep(e, s3, Commit, [], s4);
    assert [Commit] + [] == [Commit];
    RunStep(e, s2, AdvanceCheckpoint, [Commit], s4);
    RunStep(e, s1, PutObject(b), [AdvanceCheckpoint] + [Commit], s4);
    RunStep(e, s0, Begin, [PutObject(b)] + ([AdvanceCheckpoint] + [Commit]), s4);
  }

  lemma BatchesRun(e: Env, a: Obj, b: Obj)
    requires a.Fits() && b.Fits() && e.edges(a) == [] && e.edges(b) == [] && a.Id(e.h) != b.Id(e.h)
    requires Start(e) == Fresh().(visible := FrontierAt(e.name, 0), stable := FrontierAt(e.name, 0))
    ensures Run(e, Start(e), AbortSteps(a) + CommitSteps(b), Batched(e, a, b))
  {
    hide Run, Start, Aborted, Batched, Enabled, Next, AbortSteps, CommitSteps, Obj.Id;
    AbortRuns(e, a);
    CommitRuns(e, a, b);
    RunThen(e, Start(e), AbortSteps(a), Aborted(e, a), CommitSteps(b), Batched(e, a, b));
  }

  lemma BatchedIsReached(e: Env, a: Obj, b: Obj)
    requires EnvOk(e) && a.Fits() && b.Fits() && e.edges(a) == [] && e.edges(b) == [] && a.Id(e.h) != b.Id(e.h)
    ensures Run(e, Fresh(), GroupSteps(0) + (AbortSteps(a) + CommitSteps(b)), Batched(e, a, b)) && Inv(e, Batched(e, a, b))
  {
    NoSampleInBatches(a, b);
    hide Run, Inv, Start, Aborted, Batched, SamplesClean, Enabled, Next, AbortSteps, CommitSteps, GroupSteps, Obj.Id;
    StartIsReached(e);
    BatchesRun(e, a, b);
    RunThen(e, Fresh(), GroupSteps(0), Start(e), AbortSteps(a) + CommitSteps(b), Batched(e, a, b));
    NoSampleIsClean(e, Start(e), AbortSteps(a) + CommitSteps(b));
    RecentIsTrusted(e, Start(e), AbortSteps(a) + CommitSteps(b));
    RunKeepsInv(e, Start(e), AbortSteps(a) + CommitSteps(b), Batched(e, a, b));
  }

  lemma NoSampleInBatches(a: Obj, b: Obj)
    ensures forall step | step in AbortSteps(a) + CommitSteps(b) :: !step.SampleRefs? && !step.PowerLoss?
  {
  }

  // ---- a process crash: the rescan finds the aborted object ----

  ghost function Rescanned(e: Env, a: Obj, b: Obj): Result<State> {
    Reopen(e, Batched(e, a, b), TwoBytes(e, a, b), map[], AfterAbort(e.h, e.name, a, b), FrontierAt(e.name, 0),
           FrontierAt(e.name, 0))
  }

  lemma CrashRescans(e: Env, a: Obj, b: Obj)
    requires Start(e) == Fresh().(visible := FrontierAt(e.name, 0), stable := FrontierAt(e.name, 0))
    requires Inv(e, Batched(e, a, b))
    ensures var step := PlainCrash(Batched(e, a, b));
            && Batched(e, a, b).commits != [] && Enabled(e, Batched(e, a, b), step) && IsCrash(step)
            && Next(e, Batched(e, a, b), step) == Rescanned(e, a, b)
  {
    hide Inv, Base, Start, EncodeRecord, Reopen, AfterAbort, Enabled, Next, PlainCrash, TwoBytes, Obj.Id;
    InvIsBase(e, Batched(e, a, b));
    PlainCrashIs(e, Batched(e, a, b));
  }

  /** A process crash that tears nothing, in a store without logs. */
  lemma PlainCrashIs(e: Env, s: State)
    requires Base(e, s) && s.commits != [] && s.logs == map[]
    ensures Enabled(e, s, PlainCrash(s)) && IsCrash(PlainCrash(s))
    ensures Next(e, s, PlainCrash(s)) == Reopen(e, s, s.Pack(), map[], Current(s), s.visible, s.stable)
  {
    LogsAreIntact(e, s);
    hide Base, EncodeRecord, Reopen, Enabled, LogsIntact;
    PlainCrashIsEnabled(e, s);
    assert PlainCrash(s).logs.Keys == {};
    assert s.Pack() + EncodeRecord(e.h, Obj(Blob, []))[..0] == s.Pack();
  }

  lemma LogsAreIntact(e: Env, s: State)
    requires Base(e, s)
    ensures LogsIntact(e, s)
  {
    hide PackOk, CatalogsOk, OlderOk, LogsIntact, PackCovered, GroupInPack;
  }

  /** What the reopened store consists of. */
  lemma ReopenParts(e: Env, s: State, pack: seq<byte>, cat: Catalog, frontier: Option<Frontier>)
    requires Reopen(e, s, pack, map[], cat, frontier, frontier).Ok?
    ensures Recover(e.h, e.name, pack, cat, frontier).Ok?
    ensures var r := Recover(e.h, e.name, pack, cat, frontier).value;
            var s' := Reopen(e, s, pack, map[], cat, frontier, frontier).value;
            && s'.Pack() == r.pack && s'.View() == r.cat && s'.commits == [r.cat] && !s'.inBatch && s'.group.Idle?
            && s'.objects == s.objects && s'.visible == frontier && s'.logs == map[]
            && forall older | older in s.commits :: older in s'.older
  {
    hide Recover, ReopenLog;
    assert Reopen(e, s, pack, map[], cat, frontier, frontier).value.logs.Keys == {};
  }

  /** The frontier does not reach the checkpoint, so the pack is read from its start and `a` has a row; the catalog
      without that row may still come back. */
  lemma RescanFinds(e: Env, a: Obj, b: Obj)
    requires a.Fits() && b.Fits() && a.Id(e.h) != b.Id(e.h) && Rescanned(e, a, b).Ok?
    ensures var s := Rescanned(e, a, b).value;
            && s.commits != [] && s.Pack() == TwoBytes(e, a, b) && a.Id(e.h) in s.View().rows && s.View() == Current(s)
            && AfterAbort(e.h, e.name, a, b) in s.older && s.logs == map[] && !s.inBatch && s.group.Idle?
            && s.objects == map[a.Id(e.h) := a, b.Id(e.h) := b] && s.visible == FrontierAt(e.name, 0)
  {
    hide EncodeRecord, Recover, Start, Reopen, FrontierAt, Obj.Id;
    OlderCatalogForgets(e.h, e.name, a, b);
    ReopenParts(e, Batched(e, a, b), TwoBytes(e, a, b), AfterAbort(e.h, e.name, a, b), FrontierAt(e.name, 0));
    AfterAbortHas(e.h, e.name, a, b);
    assert Batched(e, a, b).commits[1] == AfterAbort(e.h, e.name, a, b);
  }

  // ---- a snapshot is built on it ----

  function PublishSteps(p: Obj, w: string, record: Refs.RefRecord): seq<Step> {
    [Begin] + ([PutObject(p)] + ([Commit] + [Publish(w, record)]))
  }

  function WithSnapshot(e: Env, s: State, p: Obj, w: string, record: Refs.RefRecord): State {
    var session := Put(e.h, e.name, s.session, p);
    s.(session := session, commits := s.commits + [session.cat], objects := s.objects[p.Id(e.h) := p],
       logs := s.logs[w := Appended(e, Log([], 0), record)])
  }

  lemma PublishRuns(e: Env, s: State, p: Obj, w: string, record: Refs.RefRecord)
    requires s.commits != [] && !s.inBatch && w !in s.logs && p.Fits() && p.kind == Snapshot
    requires p.Id(e.h) !in s.View().rows && p.Id(e.h) !in s.objects
    requires forall edge | edge in e.edges(p) :: edge.id in s.View().rows && s.View().rows[edge.id].kind == edge.kind
    requires Continues(e, [], record) && record.snapshot == p.Id(e.h)
    ensures Run(e, s, PublishSteps(p, w, record), WithSnapshot(e, s, p, w, record))
  {
    hide EncodeRecord, Agrees, Recover, Run, Appended, Continues, Obj.Id;
    var s1 := s.(inBatch := true);
    var s2 := s1.(session := Put(e.h, e.name, s1.session, p), objects := s1.objects[p.Id(e.h) := p]);
    var s3 := s2.(commits := s2.commits + [s2.View()], inBatch := false);
    var s4 := WithSnapshot(e, s, p, w, record);
    RunEmpty(e, s4);
    RunStep(e, s3, Publish(w, record), [], s4);
    assert [Publish(w, record)] + [] == [Publish(w, record)];
    RunStep(e, s2, Commit, [Publish(w, record)], s4);
    RunStep(e, s1, PutObject(p), [Commit] + [Publish(w, record)], s4);
    RunStep(e, s, Begin, [PutObject(p)] + ([Commit] + [Publish(w, record)]), s4);
  }

  /** The pack ends with the snapshot, which has a row, and the log with the reference. */
  lemma SnapshotIsLast(e: Env, s: State, p: Obj, w: string, record: Refs.RefRecord)
    requires EnvOk(e) && s.commits != [] && s.logs == map[] && p.Fits() && p.Id(e.h) !in s.View().rows
    requires Continues(e, [], record)
    ensures var s' := WithSnapshot(e, s, p, w, record);
            && s'.Pack() == s.Pack() + EncodeRecord(e.h, p) && s'.commits != [] && w in s'.logs && s'.older == s.older
            && p.Id(e.h) in Current(s').rows && Current(s').rows[p.Id(e.h)].End() == |s'.Pack()|
            && AllClean(e, s') && |Frames(e, s'.logs[w].bytes)| == 1 && Frames(e, s'.logs[w].bytes)[0].record == record
  {
    EncodedLength(e.h, p);
    EmptyEnd(e);
    NoFrames(e);
    AppendedFrames(e, Log([], 0), record);
    hide EncodeRecord, Appended, Continues, Obj.Id, Refs.Frames, Refs.FramesEnd;
  }

  lemma NoFrames(e: Env)
    ensures Frames(e, []) == []
  {
  }

  // ---- the power loss ----

  /** A power loss that takes nothing written to disk, and finds an older catalog. */
  ghost function LossTo(e: Env, s: State, cat: Catalog): Step
    requires s.commits != [] && LogsIntact(e, s)
  {
    PowerLoss(s.Pack(), BareLoss(e, s, true).logs, cat, true)
  }

  /** Where one commit may come back, any older one may. */
  lemma OlderMayReturn(e: Env, s: State, pack: seq<byte>, logs: map<string, seq<byte>>, cat: Catalog, older: Catalog)
    requires s.commits != [] && e.anyCommit && older in s.older && Enabled(e, s, PowerLoss(pack, logs, cat, true))
    ensures Enabled(e, s, PowerLoss(pack, logs, older, true))
  {
    hide LogSurvives, Genuine, Settled;
  }

  lemma LossIsEnabled(e: Env, s: State, cat: Catalog)
    requires Base(e, s) && s.commits != [] && s.visible.Some? && e.anyCommit && cat in s.older
    ensures LossTo(e, s, cat).PowerLoss? && Enabled(e, s, LossTo(e, s, cat))
    ensures CrashIn(e, s, LossTo(e, s, cat)).pack == s.Pack() && CrashIn(e, s, LossTo(e, s, cat)).cat == cat
    ensures CrashIn(e, s, LossTo(e, s, cat)).visible == s.visible
  {
    BareLossIsEnabled(e, s, true);
    LogsAreIntact(e, s);
    hide Base, LogsIntact, Enabled, SettledInside, OnDisk;
    OlderMayReturn(e, s, s.Pack(), BareLoss(e, s, true).logs, Current(s), cat);
  }

  lemma LongerFrontierTrusts(name: PackName, pack: seq<byte>, cat: Catalog, f: Option<Frontier>, g: Option<Frontier>)
    requires TrustedCheckpoint(name, pack, cat, f).Some?
    requires g.Some? && cat.checkpoints[name].verifiedLen <= g.value.Pack(name)
    ensures TrustedCheckpoint(name, pack, cat, g) == TrustedCheckpoint(name, pack, cat, f)
  {
    hide ValidCheckpoint;
  }

  lemma SameTrust(h: Hasher, name: PackName, pack: seq<byte>, cat: Catalog, f: Option<Frontier>, g: Option<Frontier>)
    requires TrustIsSound(h, name, pack, cat, f)
    requires TrustedCheckpoint(name, pack, cat, g) == TrustedCheckpoint(name, pack, cat, f)
    ensures TrustIsSound(h, name, pack, cat, g)
  {
    hide TrustedCheckpoint, SoundPrefix;
  }

  /** The older catalog is trusted up to its own checkpoint, behind which `a` lies without a row. */
  lemma RowIsForgotten(e: Env, a: Obj, b: Obj, p: Obj, c: Crash)
    requires a.Fits() && b.Fits() && p.Fits() && a.Id(e.h) != b.Id(e.h) && a.Id(e.h) != p.Id(e.h)
    requires c.pack == TwoBytes(e, a, b) + EncodeRecord(e.h, p) && c.cat == AfterAbort(e.h, e.name, a, b)
    requires c.visible.Some? && c.visible.value.Pack(e.name) == |c.pack|
    ensures !KeepsRow(e, c, a.Id(e.h)) && TrustIsSound(e.h, e.name, c.pack, c.cat, c.visible)
  {
    ThirdRecord(e.h, a, b, p);
    AfterAbortHas(e.h, e.name, a, b);
    AfterAbortIsTrusted(e.h, e.name, a, b, EncodeRecord(e.h, p));
    hide ParseRecord, Scan, ScanEnd, EncodeRecord, AfterAbort, TrustedCheckpoint, TrustIsSound, Obj.Id, FrontierAt;
    LongerFrontierTrusts(e.name, c.pack, c.cat, FrontierAt(e.name, |TwoBytes(e, a, b)|), c.visible);
    SameTrust(e.h, e.name, c.pack, c.cat, FrontierAt(e.name, |TwoBytes(e, a, b)|), c.visible);
  }

  // ---- the whole run ----

  /** What the objects and the reference of the run must be: `p` is a snapshot that refers to `a`. */
  ghost predicate Cast(e: Env, a: Obj, b: Obj, p: Obj, record: Refs.RefRecord) {
    && a.Fits() && b.Fits() && p.Fits() && p.kind == Snapshot
    && a.Id(e.h) != b.Id(e.h) && a.Id(e.h) != p.Id(e.h) && b.Id(e.h) != p.Id(e.h)
    && e.edges(a) == [] && e.edges(b) == [] && e.edges(p) == [Edge(a.Id(e.h), a.kind)]
    && Continues(e, [], record) && record.snapshot == p.Id(e.h)
  }

  function BeforeCrash(a: Obj, b: Obj): seq<Step> { GroupSteps(0) + (AbortSteps(a) + CommitSteps(b)) }

  lemma RescannedIsReached(e: Env, a: Obj, b: Obj, p: Obj, record: Refs.RefRecord)
    requires EnvOk(e) && Cast(e, a, b, p, record)
    ensures Rescanned(e, a, b).Ok? && Inv(e, Rescanned(e, a, b).value)
    ensures Run(e, Fresh(), BeforeCrash(a, b) + [PlainCrash(Batched(e, a, b))], Rescanned(e, a, b).value)
  {
    var step := PlainCrash(Batched(e, a, b));
    StartIsReached(e);
    BatchedIsReached(e, a, b);
    CrashRescans(e, a, b);
    hide Inv, Run, Start, Batched, Rescanned, PlainCrash, Enabled, Next, AllClean;
    StepKeepsInv(e, Batched(e, a, b), step);
    RunOne(e, Batched(e, a, b), step);
    RunThen(e, Fresh(), BeforeCrash(a, b), Batched(e, a, b), [step], Rescanned(e, a, b).value);
  }

  /** Over the rescanned store the snapshot is new, and its child has a row. */
  lemma SnapshotIsNew(e: Env, s: State, a: Obj, b: Obj, p: Obj, record: Refs.RefRecord)
    requires Cast(e, a, b, p, record) && Base(e, s) && s.commits != [] && s.View() == Current(s)
    requires a.Id(e.h) in s.View().rows && s.objects == map[a.Id(e.h) := a, b.Id(e.h) := b]
    ensures p.Id(e.h) !in s.View().rows && p.Id(e.h) !in s.objects
    ensures forall edge | edge in e.edges(p) :: edge.id in s.View().rows && s.View().rows[edge.id].kind == edge.kind
  {
    BaseParts(e, s);
    hide Base, PackOk, CatalogsOk, Continues, Obj.Id;
    CommittedKind(e, s, a.Id(e.h));
    if p.Id(e.h) in s.View().rows {
      CommittedKind(e, s, p.Id(e.h));
    }
  }

  /** The snapshot is put, committed and published. */
  lemma SnapshotIsReached(e: Env, s: State, a: Obj, b: Obj, p: Obj, w: string, record: Refs.RefRecord)
    requires EnvOk(e) && Cast(e, a, b, p, record) && Inv(e, s) && s.commits != []
    requires s.View() == Current(s) && a.Id(e.h) in s.View().rows && s.logs == map[] && !s.inBatch
    requires s.objects == map[a.Id(e.h) := a, b.Id(e.h) := b]
    ensures p.Id(e.h) !in s.View().rows
    ensures Run(e, s, PublishSteps(p, w, record), WithSnapshot(e, s, p, w, record))
    ensures Inv(e, WithSnapshot(e, s, p, w, record))
  {
    NoSampleInPublish(p, w, record);
    hide Inv, Base, Continues, Run, Obj.Id, SamplesClean, Enabled, Next, WithSnapshot, PublishSteps, AllClean;
    InvIsBase(e, s);
    SnapshotIsNew(e, s, a, b, p, record);
    PublishRuns(e, s, p, w, record);
    NoSampleIsClean(e, s, PublishSteps(p, w, record));
    RecentIsTrusted(e, s, PublishSteps(p, w, record));
    RunKeepsInv(e, s, PublishSteps(p, w, record), WithSnapshot(e, s, p, w, record));
  }

  lemma NoSampleInPublish(p: Obj, w: string, record: Refs.RefRecord)
    ensures forall step | step in PublishSteps(p, w, record) :: !step.SampleRefs? && !step.PowerLoss?
  {
  }

  /** The group commit covers it. */
  lemma SnapshotIsCommitted(e: Env, s: State, written: nat, w: string)
    requires EnvOk(e) && Inv(e, s) && s.commits != [] && s.group.Idle? && AllClean(e, s) && w in s.logs
    requires written == |s.Pack()| && exists id :: id in Current(s).rows && Current(s).rows[id].End() == written
    requires |Frames(e, s.logs[w].bytes)| == 1
    ensures Run(e, s, GroupSteps(written), GroupCommitted(e, s, written)) && Inv(e, GroupCommitted(e, s, written))
    ensures DurablyPublished(e, GroupCommitted(e, s, written), w, 1)
  {
    hide Inv, Base, Run, AllClean, RowsEndBy, GroupCommitted, Refs.Frames, GroupSteps;
    InvIsBase(e, s);
    CurrentInside(e, s);
    CommittedIsDurable(e, s, written, w);
    CleanGroupCommit(e, s, written);
  }

  lemma CurrentInside(e: Env, s: State)
    requires Base(e, s) && s.commits != []
    ensures RowsEndBy(Current(s).rows, e.name, |s.Pack()|)
  {
    hide PackOk, CatalogsOk, OlderOk, LogsIntact, GroupInPack, PackCovered, CatalogOk;
    ViewOfCurrent(e, s);
    CatalogInside(e, s.Pack(), Current(s), s.objects);
  }

  /** What the crash left: a store without logs in which `a` has a row, and the catalog without it among the older. */
  ghost predicate Ready(e: Env, s: State, a: Obj, b: Obj) {
    && Inv(e, s) && s.commits != [] && s.Pack() == TwoBytes(e, a, b) && a.Id(e.h) in s.View().rows
    && s.View() == Current(s) && AfterAbort(e.h, e.name, a, b) in s.older && s.logs == map[] && !s.inBatch
    && s.group.Idle? && s.objects == map[a.Id(e.h) := a, b.Id(e.h) := b]
  }

  ghost predicate Forgotten(e: Env, s: State, a: Obj, w: string, record: Refs.RefRecord) {
    && s.commits != [] && !s.inBatch && w in s.logs && DurablyPublished(e, s, w, 1)
    && Frames(e, s.logs[w].bytes) != [] && Frames(e, s.logs[w].bytes)[0].record == record
    && Read(e.h, map[e.name := s.Pack()], s.View().rows, a.Id(e.h), a.kind) == Err
    && ReadIn(e, s, a.Id(e.h), a.kind) == Ok(a.bytes)
  }

  /** The state after the group commit: the frontier covers the whole pack, and the reference. */
  ghost predicate Committed(e: Env, s: State, a: Obj, b: Obj, p: Obj, w: string, record: Refs.RefRecord) {
    && Inv(e, s) && s.commits != []
    && s.Pack() == TwoBytes(e, a, b) + EncodeRecord(e.h, p) && AfterAbort(e.h, e.name, a, b) in s.older
    && s.visible.Some? && s.visible.value.Pack(e.name) == |s.Pack()|
    && s.objects == map[a.Id(e.h) := a, b.Id(e.h) := b, p.Id(e.h) := p]
    && w in s.logs && DurablyPublished(e, s, w, 1) && Frames(e, s.logs[w].bytes) != []
    && Frames(e, s.logs[w].bytes)[0].record == record
  }

  /** The power loss brings back the older catalog: the reference stays, `a` loses its row, and still reads back. */
  lemma LossForgets(e: Env, s: State, a: Obj, b: Obj, p: Obj, w: string, record: Refs.RefRecord)
    returns (step: Step, s': State)
    requires EnvOk(e) && e.anyCommit && Cast(e, a, b, p, record) && Committed(e, s, a, b, p, w, record)
    ensures s.commits != [] && Enabled(e, s, step) && Next(e, s, step) == Ok(s') && Forgotten(e, s', a, w, record)
  {
    var cat := AfterAbort(e.h, e.name, a, b);
    hide Inv, Base, PackOk, CatalogsOk, Enabled, Next, CrashIn, LossTo, AfterAbort, Obj.Id, EncodeRecord, Continues,
         Refs.Frames, DurablyPublished, KeepsRow, LogsIntact, Read, ReadIn, AllClean, TwoBytes, ClosureReadable, Run, Trusts,
         RunTrusts, TrustIsSound;
    InvIsBase(e, s);
    LogsAreIntact(e, s);
    LossIsEnabled(e, s, cat);
    step := LossTo(e, s, cat);
    RowIsForgotten(e, a, b, p, CrashIn(e, s, step));
    SoundIsTrusted(e, s, step);
    StepKeepsInv(e, s, step);
    s' := Next(e, s, step).value;
    RunOne(e, s, step);
    OneTrusts(e, s, step);
    DurablyPublishedForever(e, s, [step], s', w, 1);
    LossRow(e, s, step, a.Id(e.h));
    NoRowReadsNothing(e.h, map[e.name := s'.Pack()], s'.View().rows, a.Id(e.h), a.kind);
    FirstFrame(e, s, s', w);
    ChildReads(e, s', p.Id(e.h), a.Id(e.h), Edge(a.Id(e.h), a.kind));
  }

  lemma SoundIsTrusted(e: Env, s: State, step: Step)
    requires s.commits != [] && step.PowerLoss?
    requires var c := CrashIn(e, s, step); TrustIsSound(e.h, e.name, c.pack, c.cat, c.visible)
    ensures Trusts(e, s, step)
  {
    hide TrustIsSound;
  }

  lemma OneTrusts(e: Env, s: State, step: Step)
    requires Trusts(e, s, step)
    ensures RunTrusts(e, s, [step])
  {
    hide Trusts, Enabled, Next;
  }

  lemma BaseParts(e: Env, s: State)
    requires Base(e, s)
    ensures PackOk(e, s) && CatalogsOk(e, s)
  {
    hide PackOk, CatalogsOk, OlderOk, LogsIntact, PackCovered, GroupInPack;
  }

  lemma LossRow(e: Env, s: State, step: Step, id: Digest)
    requires EnvOk(e) && Base(e, s) && s.commits != [] && IsCrash(step) && Enabled(e, s, step) && Next(e, s, step).Ok?
    requires Trusts(e, s, step)
    ensures var s' := Next(e, s, step).value;
            && (id in s'.View().rows <==> KeepsRow(e, CrashIn(e, s, step), id))
            && !s'.inBatch && s'.objects == s.objects
  {
    CrashStepIsCrash(e, s, step);
    BaseParts(e, s);
    hide Base, PackOk, CatalogsOk, Enabled, Next, CrashIn, CrashOf, KeepsRow, After, FramesReach, PackAfter,
         CrashRecovery.LogKept;
    ReopensIff(e, s, CrashIn(e, s, step));
    RowReturnsIff(e, s, CrashIn(e, s, step), id);
  }

  lemma FirstFrame(e: Env, s: State, s': State, w: string)
    requires s.commits != [] && s'.commits != [] && DurablyPublished(e, s', w, 1) && DurablyPublished(e, s, w, 1)
    requires SameFrames(e, s, s', w, 1)
    ensures w in s.logs && w in s'.logs && Frames(e, s.logs[w].bytes) != [] && Frames(e, s'.logs[w].bytes) != []
    ensures Frames(e, s'.logs[w].bytes)[0] == Frames(e, s.logs[w].bytes)[0]
  {
    hide Refs.Frames;
    var was, now := Frames(e, s.logs[w].bytes), Frames(e, s'.logs[w].bytes);
    assert now[..1][0] == was[..1][0];
  }

  /** An object that a readable root refers to reads back. */
  lemma ChildReads(e: Env, s: State, root: Digest, child: Digest, edge: Edge)
    requires ClosureReadable(e, s, root) && !s.inBatch && root in s.objects && child in s.objects
    requires edge in e.edges(s.objects[root]) && edge.id == child
    ensures ReadIn(e, s, child, s.objects[child].kind) == Ok(s.objects[child].bytes)
  {
    hide ReadIn;
    var path := [root, child];
    assert Refers(e, s.objects[path[0]], path[1]);
    assert Path(e, s.objects, path) && path[0] == root && path[|path| - 1] == child;
  }

  /** The snapshot is published and group-committed. */
  lemma CoveredIsReached(e: Env, s: State, a: Obj, b: Obj, p: Obj, w: string, record: Refs.RefRecord)
    returns (steps: seq<Step>, s': State)
    requires EnvOk(e) && Cast(e, a, b, p, record) && Ready(e, s, a, b)
    ensures Run(e, s, steps, s') && Committed(e, s', a, b, p, w, record)
  {
    hide Inv, Run, Continues, AfterAbort, DurablyPublished, Refs.Frames, TwoBytes, EncodeRecord, Obj.Id, Put, Appended,
         AllClean, Enabled, Next;
    SnapshotIsReached(e, s, a, b, p, w, record);
    SnapshotIsLast(e, s, p, w, record);
    var s4 := WithSnapshot(e, s, p, w, record);
    var written := |s4.Pack()|;
    SnapshotIsCommitted(e, s4, written, w);
    s' := GroupCommitted(e, s4, written);
    steps := PublishSteps(p, w, record) + GroupSteps(written);
    RunThen(e, s, PublishSteps(p, w, record), s4, GroupSteps(written), s');
  }

  /**
    * From an empty store to a reference that is durably published and vouched for by both frontier files, below which
    * an object has lost its row: a first attempt to read it fails, and the retry returns it.
    */
  lemma OlderCommitForgets(e: Env, a: Obj, b: Obj, p: Obj, w: string, record: Refs.RefRecord)
    returns (steps: seq<Step>, s': State)
    requires EnvOk(e) && e.anyCommit && Cast(e, a, b, p, record)
    ensures Run(e, Fresh(), steps, s') && Forgotten(e, s', a, w, record)
  {
    hide Inv, Run, Cast, Ready, Forgotten, AfterAbort, DurablyPublished, Refs.Frames, TwoBytes, EncodeRecord, Obj.Id,
         Rescanned, Batched, PlainCrash, Enabled, Next, LossTo, BeforeCrash, LogsIntact;
    RescannedIsReady(e, a, b, p, record);
    var s3 := Rescanned(e, a, b).value;
    var rest, s5 := CoveredIsReached(e, s3, a, b, p, w, record);
    var loss;
    loss, s' := LossForgets(e, s5, a, b, p, w, record);
    RunOne(e, s5, loss);
    var first := BeforeCrash(a, b) + [PlainCrash(Batched(e, a, b))];
    RunThen(e, Fresh(), first, s3, rest, s5);
    RunThen(e, Fresh(), first + rest, s5, [loss], s');
    steps := first + rest + [loss];
  }

  lemma RescannedIsReady(e: Env, a: Obj, b: Obj, p: Obj, record: Refs.RefRecord)
    requires EnvOk(e) && Cast(e, a, b, p, record)
    ensures Rescanned(e, a, b).Ok? && Ready(e, Rescanned(e, a, b).value, a, b)
    ensures Run(e, Fresh(), BeforeCrash(a, b) + [PlainCrash(Batched(e, a, b))], Rescanned(e, a, b).value)
  {
    hide Inv, Run, Continues, AfterAbort, TwoBytes, Obj.Id, Rescanned, Batched, PlainCrash, BeforeCrash;
    RescannedIsReached(e, a, b, p, record);
    RescanFinds(e, a, b);
  }
}
