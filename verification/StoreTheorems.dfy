/** The durability theorems over whole runs of the store. */
module StoreTheorems {
  import opened Bytes
  import opened Pack
  import opened Recovery
  import opened IndexCheck
  import opened Durability
  import opened StoreRuns
  import opened CrashRecovery
  import Refs

  ghost predicate EnvOk(e: Env) {
    e.reader.codec.Lossless()
  }

  /** An empty store. */
  function Fresh(): State {
    var cat := Catalog(map[], map[]);
    State(Session([], cat, None), 0, [cat], {}, false, map[], None, None, Idle, map[])
  }

  lemma FreshStoreOk(e: Env)
    ensures Inv(e, Fresh())
  {
    var s := Fresh();
    assert Scan(e.h, [], 0) == [] && ScanEnd(e.h, [], 0) == 0;
    hide Names;
  }

  /** The crash a crash step stands for. */
  ghost function CrashIn(e: Env, s: State, step: Step): Crash
    requires s.commits != [] && (step.ProcessCrash? || step.PowerLoss?)
  {
    match step
    case ProcessCrash(obj, cut, logs) =>
      Crash(s.Pack() + EncodeRecord(e.h, obj)[..Min(cut, |EncodeRecord(e.h, obj)|)], logs, Current(s),
            s.visible, s.stable)
    case PowerLoss(pack, logs, cat, keepVisible) =>
      var found := if keepVisible then s.visible else s.stable;
      Crash(pack, logs, cat, found, found)
  }

  /** The catalog a power loss brings back, unless it was committed in this session, is right about the prefix it makes
      recovery trust, if any. */
  ghost predicate Trusts(e: Env, s: State, step: Step) {
    step.PowerLoss? && step.cat !in s.commits ==>
      TrustIsSound(e.h, e.name, step.pack, step.cat, if step.keepVisible then s.visible else s.stable)
  }

  lemma PowerLossIsOfFiles(e: Env, s: State, step: Step)
    requires Base(e, s) && s.commits != [] && step.PowerLoss? && Enabled(e, s, step)
    ensures CrashFiles(e, s, CrashIn(e, s, step))
    ensures Next(e, s, step) == After(e, s, CrashIn(e, s, step))
    ensures step.cat in s.commits || (e.anyCommit && OwnRows(e, step.cat))
  {
    hide PackOk, CatalogsOk, GroupInPack, LogIntact, LogTorn, Genuine, Recover, ReopenLog, Reopen, ScanEnd, Settled,
         Refs.FramesEnd, OwnRows, Whole;
    PackBasics(e, s);
    forall w | w in step.logs
      ensures LogSurvives(e, LogOf(s, w), step.logs[w])
    {
      assert w in s.logs;
    }
  }

  lemma PowerLossIsCrash(e: Env, s: State, step: Step)
    requires Base(e, s) && s.commits != [] && step.PowerLoss? && Enabled(e, s, step) && Trusts(e, s, step)
    ensures CrashOf(e, s, CrashIn(e, s, step))
    ensures Next(e, s, step) == After(e, s, CrashIn(e, s, step))
  {
    hide Base, Enabled, CrashFiles, After, Next, OwnRows, TrustIsSound;
    PowerLossIsOfFiles(e, s, step);
  }

  /** A process crash leaves a torn record at most, so nothing reads as corruption. */
  lemma TornPackSurvives(e: Env, s: State, obj: Obj, cut: nat)
    requires PackOk(e, s) && obj.Fits() && cut < |EncodeRecord(e.h, obj)|
    ensures var survived := s.Pack() + EncodeRecord(e.h, obj)[..cut];
            && Genuine(e.h, survived, s.Pack())
            && ScanEnd(e.h, survived, 0) == |s.Pack()|
            && s.packSynced <= |survived| && survived[..s.packSynced] == s.Pack()[..s.packSynced]
            && (|survived| == |s.Pack()| || ParseRecord(e.h, survived, |s.Pack()|).Torn?)
  {
    var survived := s.Pack() + EncodeRecord(e.h, obj)[..cut];
    if 0 < cut {
      CutRecordIsTorn(e.h, s.Pack(), obj, cut);
    }
    hide ParseRecord, EncodeRecord, Scan, RecordsKnown, ObjectsClosed, Covered, RunOk;
    assert survived[..|s.Pack()|] == s.Pack();
    ScanSplit(e.h, survived, 0, |s.Pack()|);
    PrefixOfPrefix(survived, |s.Pack()|, s.packSynced);
  }

  lemma TornLogSurvives(e: Env, log: Log, survived: seq<byte>)
    requires LogTorn(e, log, survived)
    ensures LogSurvives(e, log, survived)
  {
    hide Refs.FramesEnd, Refs.FrameAt;
    PrefixOfPrefix(log.bytes, Refs.FramesEnd(e.reader, log.bytes), Settled(e, log));
    PrefixOfPrefix(survived, Refs.FramesEnd(e.reader, log.bytes), Settled(e, log));
  }

  lemma ProcessCrashIsCrash(e: Env, s: State, step: Step)
    requires Base(e, s) && s.commits != [] && step.ProcessCrash? && Enabled(e, s, step)
    ensures CrashFiles(e, s, CrashIn(e, s, step)) && CrashOf(e, s, CrashIn(e, s, step))
    ensures Next(e, s, step) == After(e, s, CrashIn(e, s, step))
  {
    hide CatalogsOk, GroupInPack, LogIntact, LogSurvives, LogTorn, Genuine, Recover, ReopenLog, Reopen, PackOk,
         EncodeRecord, ParseRecord, ScanEnd, OlderOk;
    TornPackSurvives(e, s, step.obj, step.cut);
    PackBasics(e, s);
    forall w | w in step.logs
      ensures LogSurvives(e, LogOf(s, w), step.logs[w])
    {
      TornLogSurvives(e, LogOf(s, w), step.logs[w]);
    }
  }

  lemma PackBasics(e: Env, s: State)
    requires PackOk(e, s)
    ensures s.packSynced <= |s.Pack()|
  {
  }

  // ---- steps under either invariant ----

  predicate IsCrash(step: Step) {
    step.ProcessCrash? || step.PowerLoss?
  }

  /** The part of a step that no group commit can spoil. */
  lemma StepKeepsPack(e: Env, s: State, step: Step)
    requires PackOk(e, s) && CatalogsOk(e, s) && OlderOk(e, s) && LogsIntact(e, s) && s.commits != []
    requires s.visible.Some? ==> PackCovered(e, s, s.visible.value, true)
    requires Enabled(e, s, step) && !IsCrash(step)
    ensures Next(e, s, step).Ok? && Next(e, s, step).value.commits != []
    ensures PackOk(e, Next(e, s, step).value) && CatalogsOk(e, Next(e, s, step).value)
    ensures OlderOk(e, Next(e, s, step).value) && Grows(e, s, Next(e, s, step).value)
  {
    if step.VerifyIndex? {
      hide PackOk, CatalogsOk, OlderOk, Grows, Checked, PackCovered;
      CheckedKeepsPack(e, s, step.deep);
    } else {
      hide OlderOk, Enabled, Next, PackOk, CatalogsOk, Grows, LogsIntact;
      WriterKeepsPack(e, s, step);
      OlderStays(e, s, step);
      OlderSame(e, s, Next(e, s, step).value);
    }
  }

  lemma OlderSame(e: Env, s: State, s': State)
    requires OlderOk(e, s) && s'.older == s.older
    ensures OlderOk(e, s')
  {
    hide OwnRows;
  }

  lemma OlderStays(e: Env, s: State, step: Step)
    requires s.commits != [] && Enabled(e, s, step) && !IsCrash(step) && !step.VerifyIndex?
    ensures Next(e, s, step).Ok? && Next(e, s, step).value.older == s.older
  {
    hide Put, Advance, Continues, Appended, Trimmed, EncodeRecord, RowsEndBy;
  }

  lemma WriterKeepsPack(e: Env, s: State, step: Step)
    requires PackOk(e, s) && CatalogsOk(e, s) && LogsIntact(e, s) && s.commits != []
    requires Enabled(e, s, step) && !IsCrash(step) && !step.VerifyIndex?
    ensures Next(e, s, step).Ok? && Next(e, s, step).value.commits != []
    ensures PackOk(e, Next(e, s, step).value) && CatalogsOk(e, Next(e, s, step).value)
    ensures Grows(e, s, Next(e, s, step).value)
  {
    var s' := Next(e, s, step).value;
    hide PackOk, CatalogsOk, Put, Advance, Continues, EncodeRecord, Reopen, Recover, LogSurvives, LogTorn, Genuine,
         Grows, LogIntact, Appended, Trimmed;
    match step
    case Begin => BatchKeepsPack(e, s, s');
    case PutObject(obj) => PutKeepsPack(e, s, obj, s');
    case AdvanceCheckpoint => AdvanceKeepsPack(e, s, s');
    case Commit => BatchKeepsPack(e, s, s');
    case Rollback => BatchKeepsPack(e, s, s');
    case SyncPack => BatchKeepsPack(e, s, s');
    case Publish(w, record) =>
      PackPartKept(e, s, s');
      AppendGrows(e, s, w, record, s');
    case Lookup(w) =>
      PackPartKept(e, s, s');
      MoveGrows(e, s, w, s');
    case SyncLog(w) =>
      PackPartKept(e, s, s');
      MoveGrows(e, s, w, s');
    case _ =>
      GroupStepChanges(e, s, step);
      PackPartKept(e, s, s');
      PackBasics(e, s);
      GroupStepGrows(e, s, s');
    CommitsExist(e, s');
  }

  lemma GroupStepGrows(e: Env, s: State, s': State)
    requires s.commits != [] && s'.commits == s.commits && LogsIntact(e, s) && s.packSynced <= |s.Pack()|
    requires GroupStepShape(s, s')
    ensures Grows(e, s, s')
  {
    SameLogsGrow(e, s);
    hide CompletePart, Settled, Refs.Intact, Located;
    assert forall w | w in s.logs :: LogIntact(e, s.logs[w]);
  }

  lemma StepKeepsLogs(e: Env, s: State, step: Step)
    requires EnvOk(e) && LogsIntact(e, s) && s.commits != [] && Enabled(e, s, step) && !IsCrash(step)
    ensures Next(e, s, step).Ok? && LogsIntact(e, Next(e, s, step).value)
  {
    var s' := Next(e, s, step).value;
    hide Put, Advance, EncodeRecord, Reopen, Recover, LogSurvives, LogTorn, Genuine, RowsEndBy, Appended, Trimmed,
         Refs.Intact, Continues, Agrees;
    match step
    case Publish(w, record) =>
      AppendedIntact(e, LogOf(s, w), record);
    case Lookup(w) => MovedFrames(e, s.logs[w], s'.logs[w]);
    case _ =>
  }

  lemma AppendedIntact(e: Env, log: Log, record: Refs.RefRecord)
    requires EnvOk(e) && Continues(e, log.bytes, record)
    ensures LogIntact(e, Appended(e, log, record))
  {
    hide Refs.FramesEnd, Refs.FrameAt, Refs.EncodeFrame, Continues;
    AppendedFrames(e, log, record);
  }

  ghost predicate FrontiersInPack(e: Env, s: State) {
    && (s.visible.Some? ==> PackCovered(e, s, s.visible.value, true))
    && (s.stable.Some? ==> PackCovered(e, s, s.stable.value, true))
    && GroupInPack(e, s)
  }

  lemma StepLeavesGroup(e: Env, s: State, step: Step)
    requires s.commits != [] && Enabled(e, s, step) && !IsCrash(step) && !IsGroupStep(step) && Next(e, s, step).Ok?
    ensures var s' := Next(e, s, step).value;
            s'.visible == s.visible && s'.stable == s.stable && s'.group == s.group
  {
    hide Put, Advance, Continues, Appended, Trimmed, EncodeRecord, Agrees, Recover;
  }

  lemma GroupStepKeepsFrontiers(e: Env, s: State, step: Step)
    requires CatalogsOk(e, s) && s.commits != [] && Enabled(e, s, step) && IsGroupStep(step) && Next(e, s, step).Ok?
    requires FrontiersInPack(e, s) && Grows(e, s, Next(e, s, step).value)
    ensures FrontiersInPack(e, Next(e, s, step).value)
  {
    var s' := Next(e, s, step).value;
    hide CatalogsOk, PackCovered, RowsEndBy, Grows;
    if step.SamplePacks? {
      SampledPackIsCovered(e, s, s.group.refs, step.written);
    }
    CoveredGrows(e, s, s');
    if step.FlushPacks? {
      FlushedPackIsCovered(e, s', s.group.frontier);
    }
  }

  lemma CoveredGrows(e: Env, s: State, s': State)
    requires s.commits != [] && s'.commits != [] && Grows(e, s, s')
    ensures forall f, synced | PackCovered(e, s, f, synced) :: PackCovered(e, s', f, synced)
  {
    hide PackCovered;
    forall f, synced | PackCovered(e, s, f, synced)
      ensures PackCovered(e, s', f, synced)
    {
      PackCoveredGrows(e, s, s', f, synced);
    }
  }

  lemma FlushedPackIsCovered(e: Env, s: State, f: Frontier)
    requires s.packSynced == |s.Pack()| && PackCovered(e, s, f, false)
    ensures PackCovered(e, s, f, true)
  {
    hide ScanEnd;
  }

  lemma StepKeepsFrontiers(e: Env, s: State, step: Step)
    requires CatalogsOk(e, s) && s.commits != [] && Enabled(e, s, step) && !IsCrash(step) && FrontiersInPack(e, s)
    requires Next(e, s, step).Ok? && Next(e, s, step).value.commits != [] && Grows(e, s, Next(e, s, step).value)
    ensures FrontiersInPack(e, Next(e, s, step).value)
  {
    hide CatalogsOk, PackCovered, Next, Enabled;
    var s' := Next(e, s, step).value;
    if IsGroupStep(step) {
      GroupStepKeepsFrontiers(e, s, step);
    } else {
      StepLeavesGroup(e, s, step);
      CoveredGrows(e, s, s');
    }
  }

  /** Every step that is not a crash succeeds and keeps the base invariant. */
  lemma OrdinaryKeepsBase(e: Env, s: State, step: Step)
    requires EnvOk(e) && Base(e, s) && s.commits != [] && Enabled(e, s, step) && !IsCrash(step)
    ensures Next(e, s, step).Ok? && Base(e, Next(e, s, step).value)
    ensures Next(e, s, step).value.commits != [] && Grows(e, s, Next(e, s, step).value)
  {
    hide PackOk, CatalogsOk, OlderOk, LogsIntact, PackCovered, Next, Enabled;
    StepKeepsPack(e, s, step);
    StepKeepsLogs(e, s, step);
    StepKeepsFrontiers(e, s, step);
  }

  /** Every step that is not a crash, and samples no torn log, keeps the invariant. */
  lemma OrdinaryStep(e: Env, s: State, step: Step)
    requires EnvOk(e) && Inv(e, s) && s.commits != [] && Enabled(e, s, step) && !IsCrash(step)
    requires step.SampleRefs? ==> AllClean(e, s)
    ensures Next(e, s, step).Ok? && Inv(e, Next(e, s, step).value)
    ensures Next(e, s, step).value.commits != []
  {
    hide Inv, Enabled, Next, Checked;
    if step.VerifyIndex? {
      VerifyIs(e, s, step);
      CheckedKeepsInv(e, s, step.deep);
    } else {
      WriterStep(e, s, step);
    }
  }

  lemma VerifyIs(e: Env, s: State, step: Step)
    requires s.commits != [] && step.VerifyIndex? && Enabled(e, s, step)
    ensures !s.inBatch && Next(e, s, step) == Ok(Checked(e, s, step.deep))
  {
    hide Checked;
  }

  /** Checking the index, and rebuilding it, costs no reference. */
  lemma CheckedKeepsInv(e: Env, s: State, deep: bool)
    requires Inv(e, s) && s.commits != [] && !s.inBatch
    ensures Inv(e, Checked(e, s, deep)) && Checked(e, s, deep).commits != []
  {
    var s' := Checked(e, s, deep);
    InvIsBase(e, s);
    CheckedShape(e, s, deep);
    hide PackOk, CatalogsOk, OlderOk, RefsOk, Checked, Grows, PackCovered, LogsIntact;
    CheckedKeepsPack(e, s, deep);
    LogsKept(e, s, s');
  }

  lemma CheckedShape(e: Env, s: State, deep: bool)
    ensures var s' := Checked(e, s, deep);
            s'.logs == s.logs && s'.group == s.group && s'.visible == s.visible && s'.stable == s.stable
  {
    hide Agrees, Recover;
  }

  lemma WriterStep(e: Env, s: State, step: Step)
    requires EnvOk(e) && Inv(e, s) && s.commits != [] && Enabled(e, s, step) && !IsCrash(step) && !step.VerifyIndex?
    requires step.SampleRefs? ==> AllClean(e, s)
    ensures Next(e, s, step).Ok? && Inv(e, Next(e, s, step).value)
    ensures Next(e, s, step).value.commits != []
  {
    var s' := Next(e, s, step).value;
    hide PackOk, CatalogsOk, RefsOk, Put, Advance, Continues, EncodeRecord, Reopen, Recover, LogSurvives, LogTorn, Genuine,
         Grows, AllClean, Appended, Trimmed;
    match step
    case Begin => BatchKeepsInv(e, s, s');
    case PutObject(obj) => PutKeepsInv(e, s, obj, s');
    case AdvanceCheckpoint => AdvanceKeepsInv(e, s, s');
    case Commit => BatchKeepsInv(e, s, s');
    case Rollback => BatchKeepsInv(e, s, s');
    case SyncPack => BatchKeepsInv(e, s, s');
    case Publish(w, record) => PublishKeepsInv(e, s, w, record, s');
    case Lookup(w) => MoveKeepsInv(e, s, w, s');
    case SyncLog(w) => MoveKeepsInv(e, s, w, s');
    case _ => GroupStepKeepsInv(e, s, step);
    CommitsExist(e, s');
  }

  predicate IsGroupStep(step: Step) {
    step.SampleRefs? || step.SamplePacks? || step.FlushPacks? || step.FlushRefs? || step.RenameFrontier?
    || step.SyncDirectory? || step.AbandonGroup?
  }

  /** The fields a group commit step changes. */
  ghost predicate GroupStepShape(s: State, s': State) {
    && s'.session == s.session && s'.commits == s.commits && s'.inBatch == s.inBatch && s'.objects == s.objects
    && s'.older == s.older
    && (s'.packSynced == s.packSynced || s'.packSynced == |s.Pack()|)
    && s'.logs.Keys == s.logs.Keys
    && (forall w | w in s.logs ::
          && s'.logs[w].bytes == s.logs[w].bytes
          && (s'.logs[w].synced == s.logs[w].synced || s'.logs[w].synced == |s.logs[w].bytes|))
    && (s'.stable == s.stable || s'.stable == s.visible)
  }

  lemma GroupStepChanges(e: Env, s: State, step: Step)
    requires s.commits != [] && Enabled(e, s, step) && IsGroupStep(step)
    ensures Next(e, s, step).Ok? && GroupStepShape(s, Next(e, s, step).value)
    ensures !step.RenameFrontier? ==> Next(e, s, step).value.visible == s.visible
  {
    hide Continues, RowsEndBy, LogTorn, LogSurvives, Genuine, EncodeRecord;
  }

  lemma SamplingStage(e: Env, s: State, step: Step)
    requires Inv(e, s) && s.commits != [] && Enabled(e, s, step) && (step.SampleRefs? || step.SamplePacks?)
    requires step.SampleRefs? ==> AllClean(e, s)
    ensures Next(e, s, step).Ok? && Next(e, s, step).value.commits != [] && GroupOk(e, Next(e, s, step).value)
  {
    var s' := Next(e, s, step).value;
    hide PackOk, CatalogsOk, FrontierOk, LogOk, RowsEndBy, FrameBoundary;
    if step.SampleRefs? {
      SampleRefsKeepsGroup(e, s, s');
    } else {
      SampledRefsAreBacked(e, s, s.group.refs, step.written);
      SameFrontier(e, s, s', s'.group.frontier, false, false);
    }
  }

  lemma FlushingStage(e: Env, s: State, step: Step)
    requires Inv(e, s) && s.commits != [] && Enabled(e, s, step) && IsGroupStep(step)
    requires !step.SampleRefs? && !step.SamplePacks?
    ensures Next(e, s, step).Ok? && Next(e, s, step).value.commits != [] && GroupOk(e, Next(e, s, step).value)
    ensures step.RenameFrontier? ==>
              var s' := Next(e, s, step).value;
              s'.visible.Some? && FrontierOk(e, s', s'.visible.value, true, true)
  {
    var s' := Next(e, s, step).value;
    hide PackOk, CatalogsOk, FrontierOk, LogOk, Continues, RowsEndBy, LogTorn, LogSurvives, Genuine, FrameBoundary;
    if step.FlushPacks? {
      PackBasics(e, s);
      SameFrontier(e, s, s', s.group.frontier, false, false);
    } else if step.FlushRefs? {
      FlushedRefs(e, s, s', s.group.frontier);
    } else if step.RenameFrontier? {
      SameFrontier(e, s, s', s.group.frontier, true, true);
    }
  }

  lemma GroupStepKeepsInv(e: Env, s: State, step: Step)
    requires Inv(e, s) && s.commits != [] && Enabled(e, s, step) && IsGroupStep(step)
    requires step.SampleRefs? ==> AllClean(e, s)
    ensures Next(e, s, step).Ok? && Inv(e, Next(e, s, step).value)
    ensures Next(e, s, step).value.commits != []
  {
    hide PackOk, CatalogsOk, RefsOk, Enabled, Next, Grows, FrontierOk, GroupOk, AllClean, Refs.Intact, OlderOk;
    GroupStepChanges(e, s, step);
    GroupStepVouches(e, s, step);
    var s' := Next(e, s, step).value;
    if step.SampleRefs? || step.SamplePacks? {
      SamplingStage(e, s, step);
    } else {
      FlushingStage(e, s, step);
    }
    PackPartKept(e, s, s');
    PackBasics(e, s);
    InvIsBase(e, s);
    assert forall w | w in s.logs :: LogIntact(e, s.logs[w]);
    GroupStepOfClean(e, s, step);
    OlderSame(e, s, s');
    GroupMoved(e, s, s');
  }

  /** A group commit only ever moves frontiers forward over the frames that all of them covered. */
  lemma GroupStepVouches(e: Env, s: State, step: Step)
    requires s.commits != [] && Enabled(e, s, step) && IsGroupStep(step)
    ensures Next(e, s, step).Ok? && VouchedKept(s, Next(e, s, step).value)
  {
    hide RowsEndBy;
  }

  /** While a log is torn, no frontier speaks of the logs yet. */
  lemma GroupStepOfClean(e: Env, s: State, step: Step)
    requires s.commits != [] && RefsOk(e, s) && Enabled(e, s, step) && IsGroupStep(step)
    requires step.SampleRefs? ==> AllClean(e, s)
    ensures Next(e, s, step).Ok?
    ensures AllClean(e, s) || (Next(e, s, step).value.visible.None? && Next(e, s, step).value.group.Idle?)
  {
    hide AllClean, LogOk, FrontierOk, GroupOk, RowsEndBy;
  }

  // ---- crashes ----

  lemma CrashStepIsCrash(e: Env, s: State, step: Step)
    requires Base(e, s) && s.commits != [] && Enabled(e, s, step) && IsCrash(step) && Trusts(e, s, step)
    ensures CrashOf(e, s, CrashIn(e, s, step)) && Next(e, s, step) == After(e, s, CrashIn(e, s, step))
  {
    hide Base, CrashOf, After;
    if step.PowerLoss? {
      PowerLossIsCrash(e, s, step);
    } else {
      ProcessCrashIsCrash(e, s, step);
    }
  }

  /** When the store opens again, whatever commit came back: exactly if the pack recovers and the complete frames of
      every log that is left reach the length the frontier vouches for. The pack always recovers unless an older
      commit makes recovery trust what is wrong. Every other step succeeds. */
  lemma StepSucceedsIff(e: Env, s: State, step: Step)
    requires EnvOk(e) && Base(e, s) && s.commits != [] && Enabled(e, s, step)
    ensures Next(e, s, step).Ok? <==>
              (IsCrash(step) ==> PackAfter(e, s, CrashIn(e, s, step)).Ok? && FramesReach(e, CrashIn(e, s, step)))
    ensures IsCrash(step) && Trusts(e, s, step) ==> PackAfter(e, s, CrashIn(e, s, step)).Ok?
  {
    hide Enabled, Next, CrashOf, CrashFiles, After, PackAfter, FramesReach, PackOk, CatalogsOk, Trusts;
    if IsCrash(step) {
      if step.PowerLoss? {
        PowerLossIsOfFiles(e, s, step);
      } else {
        ProcessCrashIsCrash(e, s, step);
      }
      ReopensAnyIff(e, s, CrashIn(e, s, step));
      if Trusts(e, s, step) {
        CrashStepIsCrash(e, s, step);
        ReopensIff(e, s, CrashIn(e, s, step));
      }
    } else {
      OrdinaryKeepsBase(e, s, step);
    }
  }

  /** Whatever group commits sample, every step that succeeds keeps the base invariant, unless an older commit makes
      recovery trust what is wrong. */
  lemma StepKeepsBase(e: Env, s: State, step: Step)
    requires EnvOk(e) && Base(e, s) && s.commits != [] && Enabled(e, s, step) && Next(e, s, step).Ok?
    requires Trusts(e, s, step)
    ensures Base(e, Next(e, s, step).value)
  {
    hide Base, Enabled, Next, CrashOf, After, Trusts;
    if IsCrash(step) {
      CrashStepIsCrash(e, s, step);
      CrashKeepsBase(e, s, CrashIn(e, s, step));
    } else {
      OrdinaryKeepsBase(e, s, step);
    }
  }

  lemma CrashStepIsSound(e: Env, s: State, step: Step)
    requires Inv(e, s) && s.commits != [] && Enabled(e, s, step) && IsCrash(step)
    requires CrashOf(e, s, CrashIn(e, s, step))
    ensures SoundCrash(e, s, CrashIn(e, s, step))
  {
    hide PackOk, CatalogsOk, FrontierOk, GroupOk, LogOk, AllClean, CrashOf, LogTorn, LogSurvives, Genuine, EncodeRecord;
  }

  /** As long as group commits sample clean logs and no older commit makes recovery trust what is wrong, opening the
      store never fails, and every step keeps the invariant. */
  lemma StepKeepsInv(e: Env, s: State, step: Step)
    requires EnvOk(e) && Inv(e, s) && s.commits != [] && Enabled(e, s, step)
    requires (step.SampleRefs? ==> AllClean(e, s)) && Trusts(e, s, step)
    ensures Next(e, s, step).Ok? && Inv(e, Next(e, s, step).value)
  {
    hide Inv, Base, Enabled, Next, CrashOf, SoundCrash, After, AllClean, Trusts;
    if IsCrash(step) {
      InvIsBase(e, s);
      CrashStepIsCrash(e, s, step);
      CrashStepIsSound(e, s, step);
      CrashKeepsInv(e, s, CrashIn(e, s, step));
    } else {
      OrdinaryStep(e, s, step);
    }
  }

  /** The same references, in the same places. */
  ghost predicate SameFrames(e: Env, s: State, s': State, w: string, n: nat) {
    n == 0
    || (w in s.logs && w in s'.logs
        && n <= |Frames(e, s.logs[w].bytes)| && n <= |Frames(e, s'.logs[w].bytes)|
        && Frames(e, s'.logs[w].bytes)[..n] == Frames(e, s.logs[w].bytes)[..n])
  }

  /** Frontiers go on covering a frame that all of them cover. */
  lemma StepKeepsVouched(e: Env, s: State, step: Step)
    requires s.commits != [] && Enabled(e, s, step) && !IsCrash(step) && Next(e, s, step).Ok?
    ensures VouchedKept(s, Next(e, s, step).value)
  {
    if IsGroupStep(step) {
      GroupStepVouches(e, s, step);
    } else {
      hide Enabled, Next;
      StepLeavesGroup(e, s, step);
    }
  }

  lemma GrowthKeepsDurable(e: Env, s: State, s': State, w: string, n: nat)
    requires s.commits != [] && s'.commits != [] && Grows(e, s, s') && VouchedKept(s, s') && DurablyPublished(e, s, w, n)
    ensures DurablyPublished(e, s', w, n) && SameFrames(e, s, s', w, n)
  {
    hide Refs.Frames, Refs.FramesEnd, CompletePart, Vouched, Located, Within;
    if 0 < n {
      FramesExtend(e, s.logs[w].bytes, s'.logs[w].bytes);
      var frames, more := Frames(e, s.logs[w].bytes), Frames(e, s'.logs[w].bytes);
      forall i | 0 <= i < n
        ensures more[i] == frames[i] && DurableFrame(e, s', w, frames[i])
      {
        assert DurableFrame(e, s, w, frames[i]);
        FrameInside(e, s.logs[w].bytes, i);
        FrameBounds(e, s.logs[w].bytes, i);
        WithinGrows(e, s, s', frames[i].record.snapshot, s.packSynced);
        WithinMore(e, s', frames[i].record.snapshot, s.packSynced, s'.packSynced);
      }
    }
  }

  lemma FrameBounds(e: Env, bytes: seq<byte>, i: nat)
    requires i < |Frames(e, bytes)|
    ensures Frames(e, bytes)[i].start < Frames(e, bytes)[i].end <= Refs.FramesEnd(e.reader, bytes) <= |bytes|
  {
    hide Refs.Chain, Refs.FrameAt, Refs.ChainEnd;
    Refs.FramesOrdered(e.reader, bytes, i, i);
  }

  lemma WithinMore(e: Env, s: State, id: Digest, limit: nat, more: nat)
    requires s.commits != [] && Within(e, s, id, limit) && limit <= more
    ensures Within(e, s, id, more)
  {
    hide Scan;
  }

  /** No step that succeeds loses or moves a durably published reference. */
  lemma StepKeepsDurable(e: Env, s: State, step: Step, w: string, n: nat)
    requires EnvOk(e) && Base(e, s) && s.commits != [] && Enabled(e, s, step) && DurablyPublished(e, s, w, n)
    requires Next(e, s, step).Ok? && Trusts(e, s, step)
    ensures Next(e, s, step).value.commits != []
    ensures DurablyPublished(e, Next(e, s, step).value, w, n) && SameFrames(e, s, Next(e, s, step).value, w, n)
  {
    StepKeepsBase(e, s, step);
    hide PackOk, CatalogsOk, OlderOk, Enabled, Next, CrashOf, After, LogsIntact, PackCovered, Trusts;
    CommitsExist(e, Next(e, s, step).value);
    if IsCrash(step) {
      CrashStepIsCrash(e, s, step);
      if 0 < n {
        CrashKeepsDurable(e, s, CrashIn(e, s, step), w, n);
      }
    } else {
      OrdinaryKeepsBase(e, s, step);
      StepKeepsVouched(e, s, step);
      GrowthKeepsDurable(e, s, Next(e, s, step).value, w, n);
    }
  }

  // ---- runs ----

  /** `s'` is reached from `s` by `steps`. */
  ghost predicate Run(e: Env, s: State, steps: seq<Step>, s': State)
    decreases |steps|
  {
    if steps == [] then s' == s
    else
      && s.commits != [] && Enabled(e, s, steps[0]) && Next(e, s, steps[0]).Ok?
      && Run(e, Next(e, s, steps[0]).value, steps[1..], s')
  }

  /** Group commits of the run sample no log that ends in a torn frame. */
  ghost predicate SamplesClean(e: Env, s: State, steps: seq<Step>)
    decreases |steps|
  {
    steps != [] && s.commits != [] && Enabled(e, s, steps[0]) && Next(e, s, steps[0]).Ok? ==>
      && (steps[0].SampleRefs? ==> AllClean(e, s))
      && SamplesClean(e, Next(e, s, steps[0]).value, steps[1..])
  }

  /** No power loss of the run brings back an older commit that makes recovery trust what is wrong. */
  ghost predicate RunTrusts(e: Env, s: State, steps: seq<Step>)
    decreases |steps|
  {
    steps != [] && s.commits != [] && Enabled(e, s, steps[0]) && Next(e, s, steps[0]).Ok? ==>
      Trusts(e, s, steps[0]) && RunTrusts(e, Next(e, s, steps[0]).value, steps[1..])
  }

  /** Runs in which power losses bring back only commits of the session need no such condition, and neither do runs
      without one. */
  lemma {:induction false} RecentIsTrusted(e: Env, s: State, steps: seq<Step>)
    requires !e.anyCommit || forall step | step in steps :: !step.PowerLoss?
    ensures RunTrusts(e, s, steps)
    decreases |steps|
  {
    if steps != [] && s.commits != [] && Enabled(e, s, steps[0]) && Next(e, s, steps[0]).Ok? {
      RecentStep(e, s, steps[0]);
      hide Enabled, Next, Trusts;
      RecentIsTrusted(e, Next(e, s, steps[0]).value, steps[1..]);
    }
  }

  lemma RecentStep(e: Env, s: State, step: Step)
    requires s.commits != [] && Enabled(e, s, step) && (!e.anyCommit || !step.PowerLoss?)
    ensures Trusts(e, s, step)
  {
    hide TrustIsSound, LogSurvives, LogTorn, Genuine, Continues, EncodeRecord;
  }

  /** Every state so reached satisfies the base invariant. */
  lemma {:induction false} RunKeepsBase(e: Env, s: State, steps: seq<Step>, s': State)
    requires EnvOk(e) && Base(e, s) && Run(e, s, steps, s') && RunTrusts(e, s, steps)
    ensures Base(e, s')
    decreases |steps|
  {
    hide Base, Enabled, Next, Trusts;
    if steps != [] {
      StepKeepsBase(e, s, steps[0]);
      RunKeepsBase(e, Next(e, s, steps[0]).value, steps[1..], s');
    }
  }

  /** Where group commits sampled clean logs, the reached state satisfies the invariant: from it, too, every step
      succeeds. */
  lemma {:induction false} RunKeepsInv(e: Env, s: State, steps: seq<Step>, s': State)
    requires EnvOk(e) && Inv(e, s) && Run(e, s, steps, s') && SamplesClean(e, s, steps) && RunTrusts(e, s, steps)
    ensures Inv(e, s')
    decreases |steps|
  {
    hide Inv, Enabled, Next, AllClean, Trusts;
    if steps != [] {
      StepKeepsInv(e, s, steps[0]);
      RunKeepsInv(e, Next(e, s, steps[0]).value, steps[1..], s');
    }
  }

  /**
    * Durability over every run: once the first `n` references of a workspace are on disk with what they need, no
    * interleaving of writes, rollbacks, group commits, process crashes and power losses removes or reorders them,
    * and their snapshots stay readable in full, byte for byte, unless a power loss brings back an older commit that
    * makes recovery trust what is wrong. This does not need clean samples.
    */
  lemma {:induction false} DurablyPublishedForever(e: Env, s: State, steps: seq<Step>, s': State, w: string, n: nat)
    requires EnvOk(e) && Base(e, s) && s.commits != [] && Run(e, s, steps, s') && DurablyPublished(e, s, w, n)
    requires RunTrusts(e, s, steps)
    ensures Base(e, s') && s'.commits != []
    ensures DurablyPublished(e, s', w, n) && SameFrames(e, s, s', w, n)
    ensures 0 < n ==> forall i | 0 <= i < n :: ClosureReadable(e, s', Frames(e, s'.logs[w].bytes)[i].record.snapshot)
    decreases |steps|
  {
    hide Base, Enabled, Next, Refs.Frames, ClosureReadable, Trusts;
    if steps == [] {
      DurableIsReadable(e, s, w, n);
    } else {
      var s1 := Next(e, s, steps[0]).value;
      StepKeepsBase(e, s, steps[0]);
      StepKeepsDurable(e, s, steps[0], w, n);
      DurablyPublishedForever(e, s1, steps[1..], s', w, n);
    }
  }

  lemma DurableIsReadable(e: Env, s: State, w: string, n: nat)
    requires Base(e, s) && s.commits != [] && DurablyPublished(e, s, w, n)
    ensures SameFrames(e, s, s, w, n)
    ensures 0 < n ==> forall i | 0 <= i < n :: ClosureReadable(e, s, Frames(e, s.logs[w].bytes)[i].record.snapshot)
  {
    BaseFrontierInside(e, s);
    hide PackOk, CatalogsOk, OlderOk, LogsIntact, PackCovered, Refs.Frames, ClosureReadable, Located, Within;
    if 0 < n {
      forall i | 0 <= i < n
        ensures ClosureReadable(e, s, Frames(e, s.logs[w].bytes)[i].record.snapshot)
      {
        assert DurableFrame(e, s, w, Frames(e, s.logs[w].bytes)[i]);
        CommittedIsReadable(e, s, Frames(e, s.logs[w].bytes)[i].record.snapshot);
      }
    }
  }

  lemma BaseFrontierInside(e: Env, s: State)
    requires Base(e, s)
    ensures FrontierInside(e, s)
  {
    hide PackOk, CatalogsOk, LogsIntact, ScanEnd, GroupInPack;
  }

  /** Everything the frontier covers is durably published: at once or, where power losses may cost rows, when the
      frontier file itself is on disk and no other is under way. */
  lemma FrontierIsDurable(e: Env, s: State, w: string) returns (n: nat)
    requires Inv(e, s) && s.visible.Some? && w in s.logs
    ensures s.commits != [] && n <= |Frames(e, s.logs[w].bytes)|
    ensures !e.anyCommit || (s.stable == s.visible && s.group.Idle?) ==> DurablyPublished(e, s, w, n)
    ensures forall i | 0 <= i < |Frames(e, s.logs[w].bytes)| ::
              i < n <==> Frames(e, s.logs[w].bytes)[i].end <= s.visible.value.Refs(w)
  {
    hide PackOk, CatalogsOk, OlderOk, FrontierOk, Refs.Frames, Refs.FramesEnd, FrameBoundary, GroupOk, AllClean, LogIntact,
         Located, Within;
    assert s.commits != [] by { CommitsExist(e, s); }
    var f := s.visible.value;
    FrontierLimits(e, s, f, w);
    n := FramesBeforeBoundary(e, s.logs[w].bytes, f.Refs(w));
    assert LogOk(e, s, w, s.logs[w]);
    forall i | 0 <= i < n
      ensures !e.anyCommit || (s.stable == s.visible && s.group.Idle?) ==>
                DurableFrame(e, s, w, Frames(e, s.logs[w].bytes)[i])
    {
      var frame := Frames(e, s.logs[w].bytes)[i];
      assert Published(e, s, w, frame);
      FrontierBacks(e, s, f, w, i);
      WithinMore(e, s, frame.record.snapshot, f.Pack(e.name), s.packSynced);
    }
  }

  // ---- a process crash ----

  /** The same store with everything written already on disk: all that a process crash leaves of it. */
  ghost function AllSynced(s: State): State {
    s.(packSynced := |s.Pack()|, logs := map w | w in s.logs :: Log(s.logs[w].bytes, |s.logs[w].bytes|))
  }

  lemma AllSyncedKeepsBase(e: Env, s: State)
    requires Base(e, s)
    ensures Base(e, AllSynced(s))
  {
    hide Boundary, Scan, ScanEnd, Refs.Frames, Refs.Intact, CatalogOk, RecordsKnown, ObjectsClosed, Covered, RunOk, Extends,
         OwnRows;
    forall f, synced | PackCovered(e, s, f, synced)
      ensures PackCovered(e, AllSynced(s), f, synced)
    {
      BoundaryInside(e.h, s.Pack(), f.Pack(e.name));
    }
    hide PackCovered;
  }

  /** With everything synced every reference is durably published; where power losses may cost rows, those that every
      frontier covers. */
  lemma EverythingIsDurable(e: Env, s: State, w: string)
    requires Inv(e, s) && w in s.logs
    requires e.anyCommit ==>
               forall i | 0 <= i < |Frames(e, s.logs[w].bytes)| :: Vouched(s, w, Frames(e, s.logs[w].bytes)[i].start)
    ensures s.commits != []
    ensures DurablyPublished(e, AllSynced(s), w, |Frames(e, s.logs[w].bytes)|)
  {
    hide PackOk, CatalogsOk, OlderOk, FrontierOk, GroupOk, Refs.Frames, Refs.FramesEnd, AllClean, LogIntact, Located, Within;
    assert s.commits != [] by { CommitsExist(e, s); }
    assert LogOk(e, s, w, s.logs[w]);
    var bytes := s.logs[w].bytes;
    forall i | 0 <= i < |Frames(e, bytes)|
      ensures DurableFrame(e, AllSynced(s), w, Frames(e, bytes)[i])
    {
      FrameBounds(e, bytes, i);
      assert Published(e, s, w, Frames(e, bytes)[i]);
      PublishedIsInPack(e, s, w, Frames(e, bytes)[i]);
      SyncedWithin(e, s, Frames(e, bytes)[i].record.snapshot);
    }
  }

  lemma SyncedWithin(e: Env, s: State, id: Digest)
    requires s.commits != [] && Within(e, s, id, |s.Pack()|)
    ensures Within(e, AllSynced(s), id, AllSynced(s).packSynced)
  {
    hide RecordedBy;
  }

  lemma CrashForgetsOnlySync(e: Env, s: State, step: Step)
    requires s.commits != [] && step.ProcessCrash? && Enabled(e, s, step)
    requires Next(e, s, step).Ok?
    ensures Enabled(e, AllSynced(s), step) && Next(e, AllSynced(s), step).Ok?
    ensures var a, b := Next(e, s, step).value, Next(e, AllSynced(s), step).value;
      && a.logs.Keys == b.logs.Keys == step.logs.Keys
      && forall w | w in step.logs :: a.logs[w].bytes == b.logs[w].bytes
  {
    hide Recover, ReopenLog, EncodeRecord, Refs.FramesEnd, Refs.Intact;
  }

  /** A process crash loses no reference at all, synced or not: every log reopens with all its frames, and the
      snapshots they name read back in full. */
  lemma ProcessCrashLosesNothing(e: Env, s: State, step: Step, w: string)
    requires EnvOk(e) && Inv(e, s) && s.commits != [] && step.ProcessCrash? && Enabled(e, s, step) && w in s.logs
    ensures Next(e, s, step).Ok? && w in Next(e, s, step).value.logs
    ensures Frames(e, Next(e, s, step).value.logs[w].bytes) == Frames(e, s.logs[w].bytes)
    ensures forall i | 0 <= i < |Frames(e, s.logs[w].bytes)| ::
              ClosureReadable(e, Next(e, s, step).value, Frames(e, s.logs[w].bytes)[i].record.snapshot)
  {
    hide Inv, Base, Enabled, Next, Refs.Frames, Refs.FramesEnd, ClosureReadable, AllSynced;
    StepKeepsInv(e, s, step);
    InvIsBase(e, s);
    SyncedLog(e, s, step, w);
    CrashKeepsFrames(e, s, step, w);
    var n := |Frames(e, s.logs[w].bytes)|;
    forall i | 0 <= i < n
      ensures ClosureReadable(e, Next(e, s, step).value, Frames(e, s.logs[w].bytes)[i].record.snapshot)
    {
      ReferencesAreReadable(e, Next(e, s, step).value, w, i);
    }
  }

  lemma SyncedLog(e: Env, s: State, step: Step, w: string)
    requires w in s.logs && s.commits != [] && step.ProcessCrash? && Enabled(e, s, step)
    ensures AllSynced(s).commits == s.commits && w in AllSynced(s).logs && w in step.logs
    ensures AllSynced(s).logs[w].bytes == s.logs[w].bytes
  {
    hide LogTorn, EncodeRecord;
  }

  lemma CrashKeepsFrames(e: Env, s: State, step: Step, w: string)
    requires EnvOk(e) && Inv(e, s) && s.commits != [] && step.ProcessCrash? && Enabled(e, s, step) && w in s.logs
    requires Next(e, s, step).Ok?
    ensures w in Next(e, s, step).value.logs
    ensures Frames(e, Next(e, s, step).value.logs[w].bytes) == Frames(e, s.logs[w].bytes)
  {
    var synced := AllSynced(s);
    var c := CrashIn(e, synced, step);
    InvIsBase(e, s);
    LogIsOk(e, s, w);
    AllSyncedKeepsBase(e, s);
    SyncedLog(e, s, step, w);
    hide Inv, PackOk, CatalogsOk, OlderOk, LogsIntact, PackCovered, Refs.Frames, Refs.FramesEnd, After, CrashOf,
         Next, Enabled, AllSynced, GroupInPack, CrashIn, Whole, LogOk;
    CrashForgetsOnlySync(e, s, step);
    CrashStepIsCrash(e, synced, step);
    ProcessCrashIsWhole(e, synced, step);
    CrashLogs(e, synced, step);
    WholeKeepsFrames(e, s, c, w);
  }

  lemma LogIsOk(e: Env, s: State, w: string)
    requires Inv(e, s) && w in s.logs
    ensures s.commits != [] && LogOk(e, s, w, s.logs[w])
  {
    hide LogOk, PackOk, FrontierOk, GroupOk, AllClean, OlderOk, CatalogOk, Extends;
  }

  lemma CrashLogs(e: Env, s: State, step: Step)
    requires s.commits != [] && step.ProcessCrash?
    ensures CrashIn(e, s, step).logs == step.logs
  {
  }

  /** A crash that takes nothing but the memory finds every published frame worth keeping. */
  lemma WholeKeepsFrame(e: Env, s: State, c: Crash, w: string, frame: Refs.Frame)
    requires PackOk(e, s) && CatalogsOk(e, s) && s.commits != [] && CrashOf(e, s, c) && PackAfter(e, s, c).Ok?
    requires Whole(e, s, c) && (frame.record.snapshot in Current(s).rows || Vouched(s, w, frame.start))
    ensures c.visible.None? || frame.start < c.visible.value.Refs(w)
            || frame.record.snapshot in PackAfter(e, s, c).value.cat.rows
  {
    hide PackOk, CatalogsOk, CrashOf, PackAfter, Whole;
    WholeFiles(e, s, c);
    if frame.record.snapshot in Current(s).rows {
      WholeKeepsRow(e, s, c, frame.record.snapshot);
    }
  }

  lemma AllRetained(e: Env, s: State, c: Crash, w: string)
    requires s.commits != [] && w in s.logs && LogOk(e, s, w, s.logs[w])
    requires PackOk(e, AllSynced(s)) && CatalogsOk(e, AllSynced(s))
    requires CrashOf(e, AllSynced(s), c) && Whole(e, AllSynced(s), c) && PackAfter(e, AllSynced(s), c).Ok?
    ensures RetainedFrames(e, AllSynced(s), c, w, |Frames(e, s.logs[w].bytes)|)
  {
    var synced, bytes := AllSynced(s), s.logs[w].bytes;
    SyncedLogIs(s, w);
    hide PackOk, CatalogsOk, Refs.Frames, Refs.FramesEnd, CrashOf, PackAfter, Whole, LogIntact, Published, AllSynced;
    forall i | 0 <= i < |Frames(e, bytes)|
      ensures var frame := Frames(e, bytes)[i];
              && frame.end <= |bytes|
              && (c.visible.None? || frame.start < c.visible.value.Refs(w)
                  || frame.record.snapshot in PackAfter(e, synced, c).value.cat.rows)
    {
      FrameBounds(e, bytes, i);
      assert Published(e, s, w, Frames(e, bytes)[i]);
      SyncedPublished(e, s, w, Frames(e, bytes)[i]);
      WholeKeepsFrame(e, synced, c, w, Frames(e, bytes)[i]);
    }
  }

  lemma SyncedLogIs(s: State, w: string)
    requires w in s.logs
    ensures LogOf(AllSynced(s), w) == Log(s.logs[w].bytes, |s.logs[w].bytes|) && AllSynced(s).commits == s.commits
  {
  }

  lemma SyncedPublished(e: Env, s: State, w: string, frame: Refs.Frame)
    requires s.commits != [] && Published(e, s, w, frame)
    ensures frame.record.snapshot in Current(AllSynced(s)).rows || Vouched(AllSynced(s), w, frame.start)
  {
    hide Located;
  }

  /** All frames of a log come through such a crash. */
  lemma WholeKeepsFrames(e: Env, s: State, c: Crash, w: string)
    requires s.commits != [] && w in s.logs && w in c.logs && LogOk(e, s, w, s.logs[w])
    requires PackOk(e, AllSynced(s)) && CatalogsOk(e, AllSynced(s)) && AllSynced(s).commits != []
    requires CrashOf(e, AllSynced(s), c) && Whole(e, AllSynced(s), c) && After(e, AllSynced(s), c).Ok?
    ensures w in After(e, AllSynced(s), c).value.logs
    ensures Frames(e, After(e, AllSynced(s), c).value.logs[w].bytes) == Frames(e, s.logs[w].bytes)
  {
    SyncedLogIs(s, w);
    hide PackOk, CatalogsOk, Refs.Frames, Refs.FramesEnd, After, CrashOf, KeptLog, RetainedFrames, AllSynced, Whole, LogOk,
         PackAfter, FramesReach;
    ReopensIff(e, AllSynced(s), c);
    AllRetained(e, s, c, w);
    var k := LogOfAfter(e, AllSynced(s), c, w, |Frames(e, s.logs[w].bytes)|);
    KeptFrames(e, s.logs[w].bytes, After(e, AllSynced(s), c).value.logs[w].bytes, k);
  }

  lemma ProcessCrashIsWhole(e: Env, s: State, step: Step)
    requires Base(e, s) && s.commits != [] && step.ProcessCrash? && Enabled(e, s, step)
    ensures Whole(e, s, CrashIn(e, s, step))
  {
    hide PackOk, CatalogsOk, OlderOk, LogsIntact, PackCovered, LogTorn, EncodeRecord, ParseRecord, ScanEnd, Genuine;
    TornPackSurvives(e, s, step.obj, step.cut);
  }
}
