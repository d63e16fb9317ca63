/**
  * Power losses that bring back any commit at all, right or wrong about the pack: exactly what can be read then, what
  * stays all the same, and what a deep verification repairs.
  */
module AnyCommit {
  import opened Bytes
  import opened Pack
  import opened Recovery
  import opened IndexCheck
  import opened Durability
  import opened StoreRuns
  import opened CrashRecovery
  import opened StoreTheorems
  import Refs

  // ---- when a commit is trusted rightly ----

  /** A commit that is right about the written pack never makes recovery trust what is wrong. */
  lemma StandingCommitIsTrusted(e: Env, s: State, step: Step)
    requires Base(e, s) && s.commits != [] && step.PowerLoss? && Enabled(e, s, step)
    requires CatalogNamed(e, s.Pack(), step.cat)
    ensures Trusts(e, s, step)
  {
    hide Base, Enabled, Next, After, CatalogNamed;
    PowerLossIsOfFiles(e, s, step);
    hide LogSurvives, LogTorn, PackCovered, Whole, PackSurvives, TrustIsSound;
    TrustSurvives(e, s.Pack(), step.cat, step.pack, s.packSynced, if step.keepVisible then s.visible else s.stable);
  }

  /** A commit whose checkpoint lies past the end of the file is not trusted at all. */
  lemma CutCommitIsUntrusted(e: Env, s: State, step: Step)
    requires step.PowerLoss? && |step.pack| < Verified(e, step.cat)
    ensures Trusts(e, s, step)
  {
    hide HeaderNames, SoundPrefix;
  }

  /** The commit's last record is no longer where its checkpoint says: another record stands there. */
  ghost predicate TailReplaced(e: Env, pack: seq<byte>, cat: Catalog) {
    && e.name in cat.checkpoints && 0 < cat.checkpoints[e.name].objectCount
    && var c := cat.checkpoints[e.name];
    && c.lastRecordStart < |pack| && ParseRecord(e.h, pack, c.lastRecordStart).Complete?
    && var loc := ParseRecord(e.h, pack, c.lastRecordStart).loc;
    Some(loc.id) != c.lastObject || loc.End() != c.verifiedLen
  }

  /** Nor is a commit over whose last record another was written: so it misleads only if the last record is there again. */
  lemma ReplacedCommitIsUntrusted(e: Env, s: State, step: Step)
    requires step.PowerLoss? && TailReplaced(e, step.pack, step.cat)
    ensures Trusts(e, s, step)
  {
    hide ParseRecord, TrustedCheckpoint, SoundPrefix;
    ReplacedTailIsUntrusted(e.h, e.name, step.pack, step.cat, if step.keepVisible then s.visible else s.stable);
  }

  /** The pack is then read from its start: whatever the file holds has a row, and reads back at the first attempt. */
  lemma ReplacedTailIsRead(e: Env, s: State, step: Step, id: Digest)
    requires EnvOk(e) && Base(e, s) && s.commits != [] && step.PowerLoss? && Enabled(e, s, step)
    requires TailReplaced(e, step.pack, step.cat) && Next(e, s, step).Ok? && Recorded(e.h, step.pack, id)
    ensures var s' := Next(e, s, step).value;
            && id in s'.View().rows && id in s'.objects
            && Read(e.h, map[e.name := s'.Pack()], s'.View().rows, id, s'.objects[id].kind) == Ok(s'.objects[id].bytes)
  {
    var c, s' := CrashIn(e, s, step), Next(e, s, step).value;
    hide ParseRecord, TailReplaced, Base, Enabled, Next, After, TrustedCheckpoint, Scan, PackOk, CatalogsOk, Read, Trusts,
         CrashFiles, FramesReach, CrashRecovery.LogKept, Recover, Names, OlderOk, OwnRows;
    ReplacedCommitIsUntrusted(e, s, step);
    UntrustedAfter(e, s, step);
    StepKeepsBase(e, s, step);
    LossFound(e, s, step);
    ReopensAnyIff(e, s, c);
    var i: nat :| i < |Scan(e.h, step.pack, 0)| && Scan(e.h, step.pack, 0)[i].id == id;
    UntrustedRescans(e.h, e.name, c.pack, c.cat, c.visible, i);
    SoundParts(e, s');
    RowIsObject(e, s'.Pack(), s'.View().rows, s'.objects, id);
    NamedReads(e.h, map[e.name := s'.Pack()], s'.View().rows, id);
  }

  lemma UntrustedAfter(e: Env, s: State, step: Step)
    requires s.commits != [] && step.PowerLoss? && TailReplaced(e, step.pack, step.cat)
    ensures var c := CrashIn(e, s, step);
            c.pack == step.pack && TrustedCheckpoint(e.name, c.pack, c.cat, c.visible) == None
  {
    hide ParseRecord, TrustedCheckpoint;
    ReplacedTailIsUntrusted(e.h, e.name, step.pack, step.cat, if step.keepVisible then s.visible else s.stable);
  }

  lemma SoundParts(e: Env, s: State)
    requires Base(e, s) && s.commits != []
    ensures RecordsKnown(e, s.Pack(), s.objects) && RowsNamed(e, s.Pack(), s.View().rows)
  {
    hide LogsIntact, OlderOk, PackCovered, GroupInPack, RecordsKnown, RowsNamed, RowsClosed, Covered;
  }

  // ---- what can be read ----

  /**
    * The exact condition, whatever the catalog says of the pack: a recorded object can be read if and only if the
    * first attempt succeeds, or the check finds the index wrong and has it rebuilt.
    */
  lemma AnyReadIff(e: Env, s: State, id: Digest)
    requires e.anyCommit && PackOk(e, s) && FrontierInside(e, s) && OwnRows(e, s.View())
    requires Recorded(e.h, s.Pack(), id)
    ensures id in s.objects
    ensures ReadIn(e, s, id, s.objects[id].kind).Ok? <==>
              || Read(e.h, map[e.name := s.Pack()], s.View().rows, id, s.objects[id].kind).Ok?
              || !Agrees(e.name, s.View())
  {
    hide ParseRecord, Scan, ScanEnd, Boundary, Names, Covered, Agrees, Recover, Read, RunOk, ObjectsClosed;
    var packs := map[e.name := s.Pack()];
    var i: nat :| i < |Scan(e.h, s.Pack(), 0)| && Scan(e.h, s.Pack(), 0)[i].id == id;
    ResetFinds(e.h, e.name, s.Pack(), s.View(), s.visible, id);
    var rows := Recover(e.h, e.name, s.Pack(), ResetIndex(e.name, s.View()), s.visible).value.cat.rows;
    NamedIsObject(e, s.Pack(), s.objects, id, rows[id]);
    NamedReads(e.h, packs, rows, id);
    assert packs[e.name := s.Pack()] == packs;
  }

  /** Everything reachable from `root` can be read, with the retry and without it. */
  ghost predicate Readable(e: Env, s: State, root: Digest) {
    forall path | Path(e, s.objects, path) && path[0] == root ::
      ReadIn(e, s, path[|path| - 1], s.objects[path[|path| - 1]].kind).Ok?
  }

  ghost predicate FirstReadable(e: Env, s: State, root: Digest) {
    forall path | Path(e, s.objects, path) && path[0] == root ::
      Read(e.h, map[e.name := s.Pack()], s.View().rows, path[|path| - 1], s.objects[path[|path| - 1]].kind).Ok?
  }

  lemma {:induction false} ReachableIsRecorded(e: Env, s: State, path: seq<Digest>)
    requires PackOk(e, s) && Path(e, s.objects, path) && Recorded(e.h, s.Pack(), path[0])
    ensures Recorded(e.h, s.Pack(), path[|path| - 1])
    decreases |path|
  {
    hide Scan, ScanEnd, Covered, PackOk, Recorded;
    if |path| > 1 {
      var front := path[..|path| - 1];
      assert Path(e, s.objects, front) by {
        forall i | 0 < i < |front|
          ensures Refers(e, s.objects[front[i - 1]], front[i])
        {
          assert path[i - 1] == front[i - 1] && path[i] == front[i];
        }
      }
      ReachableIsRecorded(e, s, front);
      assert Refers(e, s.objects[path[|path| - 2]], path[|path| - 1]);
      ChildIsRecorded(e, s, path[|path| - 2], path[|path| - 1]);
    }
  }

  lemma ChildIsRecorded(e: Env, s: State, id: Digest, child: Digest)
    requires PackOk(e, s) && Recorded(e.h, s.Pack(), id) && id in s.objects && Refers(e, s.objects[id], child)
    ensures Recorded(e.h, s.Pack(), child)
  {
    hide Scan, ScanEnd, Covered, ObjectsClosed, RunOk;
    var edge :| edge in e.edges(s.objects[id]) && edge.id == child;
    var i: nat :| i < |Scan(e.h, s.Pack(), 0)| && Scan(e.h, s.Pack(), 0)[i].id == id;
    CoveredAt(e, s.Pack(), map[], 0, i, edge);
  }

  /** The same of all that an object refers to: it can be read whole if and only if the first attempts all succeed, or
      the check finds the index wrong. */
  lemma AnyClosureIff(e: Env, s: State, root: Digest)
    requires e.anyCommit && PackOk(e, s) && FrontierInside(e, s) && OwnRows(e, s.View())
    requires Recorded(e.h, s.Pack(), root)
    ensures Readable(e, s, root) <==> FirstReadable(e, s, root) || !Agrees(e.name, s.View())
  {
    hide PackOk, FrontierInside, OwnRows, Agrees, Read, ReadIn, Recorded, Refers;
    forall path | Path(e, s.objects, path) && path[0] == root
      ensures path[|path| - 1] in s.objects
      ensures ReadIn(e, s, path[|path| - 1], s.objects[path[|path| - 1]].kind).Ok? <==>
                || Read(e.h, map[e.name := s.Pack()], s.View().rows, path[|path| - 1],
                        s.objects[path[|path| - 1]].kind).Ok?
                || !Agrees(e.name, s.View())
    {
      ReachableIsRecorded(e, s, path);
      AnyReadIff(e, s, path[|path| - 1]);
    }
  }

  // ---- the store after any power loss ----

  /** The checkpoint that recovery trusts ends where a record does. */
  ghost predicate TrustsBoundary(e: Env, c: Crash) {
    Boundary(e.h, c.pack, ScanFrom(TrustedCheckpoint(e.name, c.pack, c.cat, c.visible)))
  }

  lemma EmptyIsSound(e: Env, survived: seq<byte>, frontier: Option<Frontier>)
    ensures TrustIsSound(e.h, e.name, survived, Catalog(map[], map[]), frontier)
  {
  }

  /** Then the pack recovers, and what is left of it is what was written. */
  lemma PackLeftAnyway(e: Env, s: State, c: Crash)
    requires PackOk(e, s) && s.commits != [] && CrashFiles(e, s, c) && TrustsBoundary(e, c)
    ensures PackAfter(e, s, c).Ok? && PackLeft(e, s, c)
    ensures var pack := PackAfter(e, s, c).value.pack;
            RecordsKnown(e, pack, s.objects) && Covered(e, pack, map[], 0)
  {
    var empty := Catalog(map[], map[]);
    var v := ScanFrom(TrustedCheckpoint(e.name, c.pack, c.cat, c.visible));
    hide ParseRecord, Scan, ScanEnd, Recover, Covered, RecordsKnown, PackSurvives, LogSurvives, LogTorn, RunOk, TrustIsSound,
         TrustedCheckpoint, Boundary, ObjectsClosed, PackCovered, Whole, RecoveryFails;
    EmptyIsSound(e, c.pack, c.visible);
    PackReopens(e, s.Pack(), empty, c.pack, s.packSynced, c.visible);
    RecoveryKeepsLongestPrefix(e.h, e.name, c.pack, empty, c.visible);
    BoundaryIsInside(e.h, c.pack, v);
    ScanEndIsBoundary(e.h, c.pack, v);
    FailsIff(e.h, c.pack, v, DurableLen(c.visible, e.name));
    RecoverShape(e.h, e.name, c.pack, c.cat, c.visible);
    PrefixKeepsRecords(e, s.Pack(), s.objects, ScanEnd(e.h, c.pack, 0));
  }

  lemma OwnRowsAfter(e: Env, s: State, c: Crash)
    requires OwnRows(e, c.cat) && PackAfter(e, s, c).Ok?
    ensures OwnRows(e, PackAfter(e, s, c).value.cat)
  {
    hide ParseRecord, Scan, ScanEnd, Recover, TrustedCheckpoint;
    var cat := PackAfter(e, s, c).value.cat;
    forall id | id in cat.rows
      ensures cat.rows[id].pack == e.name
    {
      RecoveryRows(e.h, e.name, c.pack, c.cat, c.visible, id);
    }
  }

  /** All that is certain of a store whose catalog may be wrong: its files, and that its rows are of its pack. */
  ghost predicate Bare(e: Env, s: State) {
    && s.commits != [] && s.View() == Current(s) && !s.inBatch && s.group.Idle?
    && PackOk(e, s) && OlderOk(e, s) && LogsIntact(e, s) && FrontiersInPack(e, s)
    && forall i | 0 <= i < |s.commits| :: OwnRows(e, s.commits[i])
  }

  /** Whatever commit a power loss brings back, this much holds when the store opens. */
  lemma AnyLossIsBare(e: Env, s: State, step: Step)
    requires Base(e, s) && s.commits != [] && step.PowerLoss? && Enabled(e, s, step) && Next(e, s, step).Ok?
    requires TrustsBoundary(e, CrashIn(e, s, step))
    ensures Bare(e, Next(e, s, step).value)
  {
    var c, s' := CrashIn(e, s, step), Next(e, s, step).value;
    LossFound(e, s, step);
    PackLeftAnyway(e, s, c);
    OwnRowsAfter(e, s, c);
    OlderAfter(e, s, c);
    LogsIntactAfter(e, s, c);
    ReopensAnyIff(e, s, c);
    FrontiersAfterAnyLoss(e, s, c);
    BarePack(e, s, c);
    hide Base, Enabled, Next, After, CrashIn, PackAfter, FramesReach, CrashRecovery.LogKept, PackLeft, PackOk, OlderOk,
         LogsIntact, FrontiersInPack, CrashFiles, TrustsBoundary, RecordsKnown, Covered, OwnRows;
  }

  lemma LossFound(e: Env, s: State, step: Step)
    requires Base(e, s) && s.commits != [] && step.PowerLoss? && Enabled(e, s, step)
    ensures var c := CrashIn(e, s, step);
            && CrashFiles(e, s, c) && Next(e, s, step) == After(e, s, c) && OwnRows(e, c.cat)
            && PackOk(e, s) && CatalogsOk(e, s) && OlderOk(e, s) && c.visible == c.stable
  {
    PowerLossIsOfFiles(e, s, step);
    hide PackOk, OwnRows, CatalogOk, LogsIntact, GroupInPack, PackCovered, CrashFiles, Enabled, Next, After, Extends;
    if step.cat in s.commits {
      CommitOwns(e, s, step.cat);
    }
  }

  lemma BarePack(e: Env, s: State, c: Crash)
    requires PackOk(e, s) && s.commits != [] && After(e, s, c).Ok? && PackAfter(e, s, c).Ok? && PackLeft(e, s, c)
    requires var pack := PackAfter(e, s, c).value.pack;
             RecordsKnown(e, pack, s.objects) && Covered(e, pack, map[], 0)
    ensures PackOk(e, After(e, s, c).value)
  {
    ReopensAnyIff(e, s, c);
    hide After, PackAfter, CrashRecovery.LogKept, FramesReach, RecordsKnown, Covered, Scan, ScanEnd, ObjectsClosed, RunOk;
  }

  lemma FrontiersAfterAnyLoss(e: Env, s: State, c: Crash)
    requires PackOk(e, s) && s.commits != [] && CrashFiles(e, s, c) && After(e, s, c).Ok?
    requires PackAfter(e, s, c).Ok? && PackLeft(e, s, c)
    ensures FrontiersInPack(e, After(e, s, c).value)
  {
    PackIsWhole(e, s);
    ReopensAnyIff(e, s, c);
    hide After, PackAfter, CrashRecovery.LogKept, FramesReach, PackLeft, ScanEnd, LogSurvives, LogTorn, PackSurvives,
         PackCovered, Whole, PackOk;
    if c.visible.Some? {
      hide CrashFiles;
      VisibleIsCovered(e, s, c);
      FrontierPackAfter(e, s, c, c.visible.value);
    }
    if c.stable.Some? {
      StableIsCovered(e, s, c);
      hide CrashFiles;
      FrontierPackAfter(e, s, c, c.stable.value);
    }
  }

  lemma PackIsWhole(e: Env, s: State)
    requires PackOk(e, s)
    ensures ScanEnd(e.h, s.Pack(), 0) == |s.Pack()|
  {
  }

  lemma StableIsCovered(e: Env, s: State, c: Crash)
    requires s.commits != [] && CrashFiles(e, s, c) && c.stable.Some?
    ensures PackCovered(e, s, c.stable.value, true)
  {
    hide LogSurvives, LogTorn, PackSurvives, PackCovered, Whole;
  }

  lemma BareReads(e: Env, s: State)
    requires Bare(e, s)
    ensures PackOk(e, s) && FrontierInside(e, s) && OwnRows(e, s.View())
  {
    hide PackOk, OlderOk, LogsIntact, OwnRows, GroupInPack, ScanEnd;
  }

  /**
    * The exact condition after a power loss that brings back any commit: what lay in the synced part of the pack is
    * still recorded, and all that it refers to can be read if and only if the rows that came back suffice for every
    * first attempt, or the check finds the index wrong.
    */
  lemma AnyLossReadsIff(e: Env, s: State, step: Step, root: Digest)
    requires e.anyCommit && Base(e, s) && s.commits != [] && step.PowerLoss? && Enabled(e, s, step)
    requires Next(e, s, step).Ok? && TrustsBoundary(e, CrashIn(e, s, step)) && RecordedBy(e, s.Pack(), s.packSynced, root)
    ensures var s' := Next(e, s, step).value;
            && Recorded(e.h, s'.Pack(), root) && root in s'.objects && s'.objects == s.objects
            && (Readable(e, s', root) <==> FirstReadable(e, s', root) || !Agrees(e.name, s'.View()))
  {
    var c, s' := CrashIn(e, s, step), Next(e, s, step).value;
    AnyLossIsBare(e, s, step);
    LossFound(e, s, step);
    hide Base, Enabled, Next, CrashIn, Bare, CrashFiles, After, PackOk, CatalogsOk, OlderOk, OwnRows, Read, ReadIn, Agrees,
         TrustsBoundary, FrontierInside, RecordedBy, PackAfter, FramesReach, CrashRecovery.LogKept, Readable, FirstReadable;
    BareReads(e, s');
    SyncedStaysRecorded(e, s, c, root);
    ReopensAnyIff(e, s, c);
    hide PackLeft;
    AnyReadIff(e, s', root);
    AnyClosureIff(e, s', root);
  }

  lemma SyncedStaysRecorded(e: Env, s: State, c: Crash, id: Digest)
    requires PackOk(e, s) && s.commits != [] && CrashFiles(e, s, c) && TrustsBoundary(e, c)
    requires RecordedBy(e, s.Pack(), s.packSynced, id)
    ensures PackAfter(e, s, c).Ok?
    ensures var pack := PackAfter(e, s, c).value.pack;
            Recorded(e.h, pack, id) && RecordedBy(e, pack, Min(s.packSynced, |pack|), id)
  {
    PackLeftAnyway(e, s, c);
    PackIsWhole(e, s);
    EndIsBoundary(e, s, c);
    hide ParseRecord, Scan, ScanEnd, PackAfter, PackOk, CrashFiles, TrustsBoundary, Boundary, RecordsKnown, Covered;
    var i: nat :| i < |Scan(e.h, s.Pack(), 0)| && Scan(e.h, s.Pack(), 0)[i].id == id
                  && Scan(e.h, s.Pack(), 0)[i].End() <= s.packSynced;
    SyncedRecordSurvives(e, s, c, i);
    ScanOfPart(e, s.Pack(), ScanEnd(e.h, c.pack, 0));
    assert Scan(e.h, PackAfter(e, s, c).value.pack, 0)[i] == Scan(e.h, s.Pack(), 0)[i];
  }

  lemma EndIsBoundary(e: Env, s: State, c: Crash)
    requires PackAfter(e, s, c).Ok? && PackLeft(e, s, c)
    ensures Boundary(e.h, s.Pack(), ScanEnd(e.h, c.pack, 0))
  {
    hide PackAfter, ScanEnd;
  }

  // ---- what stays, and what a deep verification repairs ----

  /** A reference that every frontier covers is kept, whatever commit comes back. */
  lemma CoveredFramesStay(e: Env, s: State, c: Crash, w: string, n: nat)
    requires e.anyCommit && s.commits != [] && CrashFiles(e, s, c) && PackAfter(e, s, c).Ok?
    requires w in s.logs && DurablyPublished(e, s, w, n)
    ensures RetainedFrames(e, s, c, w, n)
  {
    hide Refs.Frames, Located, Within, PackAfter, PackSurvives, LogSurvives, LogTorn, Whole, PackCovered;
    forall i | 0 <= i < n
      ensures var frame := Frames(e, s.logs[w].bytes)[i];
              c.visible.None? || frame.start < c.visible.value.Refs(w)
    {
      assert DurableFrame(e, s, w, Frames(e, s.logs[w].bytes)[i]);
    }
  }

  /** Of a kept log the frames that were on disk still are. */
  lemma KeptIsSynced(e: Env, log: Log, kept: Log, k: nat, n: nat)
    requires KeptLog(e, log.bytes, kept.bytes, k) && n <= k
    requires kept.synced == Min(log.synced, Refs.FramesEnd(e.reader, kept.bytes))
    requires n <= |Frames(e, log.bytes)| && forall i | 0 <= i < n :: Frames(e, log.bytes)[i].end <= log.synced
    ensures n <= |Frames(e, kept.bytes)| && Frames(e, kept.bytes)[..n] == Frames(e, log.bytes)[..n]
    ensures forall i | 0 <= i < n :: Frames(e, log.bytes)[i].end <= kept.synced
  {
    hide Refs.Frames, Refs.FramesEnd;
    forall i | 0 <= i < n
      ensures Frames(e, log.bytes)[i].end <= kept.synced
    {
      assert Frames(e, kept.bytes)[i] == Frames(e, log.bytes)[i];
      FrameInside(e, kept.bytes, i);
    }
  }

  lemma CoveredFramesAfter(e: Env, s: State, c: Crash, w: string, n: nat)
    requires e.anyCommit && s.commits != [] && CrashFiles(e, s, c) && After(e, s, c).Ok? && 0 < n
    requires w in s.logs && w in c.logs && DurablyPublished(e, s, w, n)
    ensures SameFrames(e, s, After(e, s, c).value, w, n)
    ensures w in After(e, s, c).value.logs
    ensures n <= |Frames(e, s.logs[w].bytes)|
    ensures forall i | 0 <= i < n :: Frames(e, s.logs[w].bytes)[i].end <= After(e, s, c).value.logs[w].synced
  {
    hide CrashFiles, After, PackAfter, FramesReach, CrashRecovery.LogKept, Reopened, RetainedFrames, Refs.Frames,
         Refs.FramesEnd, KeptLog, DurablyPublished, DurableFrame;
    ReopensAnyIff(e, s, c);
    FirstIsSynced(e, s, w, n);
    CoveredFramesStay(e, s, c, w, n);
    var k := LogOfAfter(e, s, c, w, n);
    forall i | 0 <= i < n
      ensures Frames(e, s.logs[w].bytes)[i].end <= s.logs[w].synced
    {
      DurableIsSynced(e, s, w, n, i);
    }
    KeptIsSynced(e, s.logs[w], After(e, s, c).value.logs[w], k, n);
  }

  /** The log after the power loss: the same first frames, and as much of them on disk. */
  lemma FramesAfterAnyLoss(e: Env, s: State, step: Step, w: string, n: nat)
    requires e.anyCommit && Base(e, s) && s.commits != [] && step.PowerLoss? && Enabled(e, s, step)
    requires Next(e, s, step).Ok? && DurablyPublished(e, s, w, n)
    ensures SameFrames(e, s, Next(e, s, step).value, w, n)
    ensures 0 < n ==> forall i | 0 <= i < n ::
              Frames(e, s.logs[w].bytes)[i].end <= Next(e, s, step).value.logs[w].synced
  {
    hide Base, Enabled, Next, CrashIn, CrashFiles, After, PackOk, CatalogsOk, OlderOk, OwnRows, Refs.Frames, DurablyPublished;
    if 0 < n {
      LossFound(e, s, step);
      FirstIsSynced(e, s, w, n);
      LogIsLeft(e, s, CrashIn(e, s, step), w);
      CoveredFramesAfter(e, s, CrashIn(e, s, step), w, n);
    }
  }

  lemma FirstIsSynced(e: Env, s: State, w: string, n: nat)
    requires s.commits != [] && DurablyPublished(e, s, w, n) && 0 < n
    ensures w in s.logs && 0 < s.logs[w].synced && n <= |Frames(e, s.logs[w].bytes)|
  {
    hide Refs.Frames, Located, Within;
    assert DurableFrame(e, s, w, Frames(e, s.logs[w].bytes)[0]);
    FrameNonempty(e, s.logs[w].bytes, 0);
  }

  lemma DurableIsSynced(e: Env, s: State, w: string, n: nat, i: nat)
    requires s.commits != [] && DurablyPublished(e, s, w, n) && i < n
    ensures w in s.logs && n <= |Frames(e, s.logs[w].bytes)|
    ensures DurableFrame(e, s, w, Frames(e, s.logs[w].bytes)[i])
    ensures Frames(e, s.logs[w].bytes)[i].end <= s.logs[w].synced
  {
    hide Refs.Frames, Located, Within;
  }

  lemma LogIsLeft(e: Env, s: State, c: Crash, w: string)
    requires s.commits != [] && CrashFiles(e, s, c) && w in s.logs && 0 < s.logs[w].synced
    ensures w in c.logs
  {
    hide PackSurvives, LogSurvives, LogTorn, Whole, PackCovered;
  }

  /** A deep verification makes any store sound again, whatever its catalog says. */
  lemma DeepVerifyRestores(e: Env, s: State)
    requires Bare(e, s)
    ensures Base(e, Checked(e, s, true)) && Checked(e, s, true).commits != []
    ensures forall id | Recorded(e.h, s.Pack(), id) :: id in Current(Checked(e, s, true)).rows
    ensures Checked(e, s, true).Pack() == s.Pack()
  {
    var s' := Checked(e, s, true);
    BareReads(e, s);
    BareFrontier(e, s);
    RebuiltIsOk(e, s);
    RebuiltParts(e, s);
    hide Recover, CatalogOk, PackOk, OwnRows, Agrees, Recorded, PackCovered, LogIntact;
    SamePackOk(e, s, s');
    SingleCommit(e, s');
    CoveredSame(e, s, s');
  }

  lemma BareFrontier(e: Env, s: State)
    requires Bare(e, s)
    ensures s.visible.Some? ==> PackCovered(e, s, s.visible.value, true)
  {
    hide PackOk, OlderOk, LogsIntact, OwnRows, GroupInPack, PackCovered;
  }

  lemma RebuiltParts(e: Env, s: State)
    requires Bare(e, s) && Recover(e.h, e.name, s.Pack(), ResetIndex(e.name, s.View()), s.visible).Ok?
    ensures var r, s' := Recover(e.h, e.name, s.Pack(), ResetIndex(e.name, s.View()), s.visible).value, Checked(e, s, true);
            && s' == s.(session := Session(r.pack, r.cat, s.session.run), commits := [r.cat], older := s.older + CommitSet(s))
            && OlderOk(e, s')
  {
    hide Recover, PackOk, LogsIntact, OwnRows, FrontiersInPack, Agrees;
  }

  lemma CoveredSame(e: Env, s: State, s': State)
    requires s'.Pack() == s.Pack() && s'.packSynced == s.packSynced
    ensures forall f, synced :: PackCovered(e, s, f, synced) ==> PackCovered(e, s', f, synced)
  {
    hide Boundary;
  }

  /**
    * And no durably published reference is lost for good: after a power loss that brings back any commit, and a deep
    * verification, it is durably published in a sound store, so that all its snapshot reaches reads back.
    */
  lemma DeepVerifyKeepsDurable(e: Env, s: State, step: Step, w: string, n: nat)
    requires e.anyCommit && Base(e, s) && s.commits != [] && step.PowerLoss? && Enabled(e, s, step)
    requires Next(e, s, step).Ok? && TrustsBoundary(e, CrashIn(e, s, step)) && DurablyPublished(e, s, w, n)
    ensures var s' := Checked(e, Next(e, s, step).value, true);
            && Base(e, s') && s'.commits != [] && DurablyPublished(e, s', w, n) && SameFrames(e, s, s', w, n)
            && (0 < n ==> forall i | 0 <= i < n :: ClosureReadable(e, s', Frames(e, s'.logs[w].bytes)[i].record.snapshot))
  {
    var lost := Next(e, s, step).value;
    var s' := Checked(e, lost, true);
    AnyLossIsBare(e, s, step);
    DeepVerifyRestores(e, lost);
    FramesAfterAnyLoss(e, s, step, w, n);
    CheckedShape(e, lost, true);
    hide Base, Bare, Enabled, Next, CrashIn, Checked, Refs.Frames, TrustsBoundary, Recorded, ClosureReadable;
    if 0 < n {
      forall i | 0 <= i < n
        ensures DurableFrame(e, s', w, Frames(e, s.logs[w].bytes)[i])
      {
        DurableIsSynced(e, s, w, n, i);
        DurableAfterRepair(e, s, step, w, Frames(e, s.logs[w].bytes)[i]);
      }
      SameFramesDurable(e, s, s', w, n);
    }
    DurableIsReadable(e, s', w, n);
  }

  lemma SameFramesDurable(e: Env, s: State, s': State, w: string, n: nat)
    requires s.commits != [] && s'.commits != [] && 0 < n && SameFrames(e, s, s', w, n)
    requires forall i | 0 <= i < n :: DurableFrame(e, s', w, Frames(e, s.logs[w].bytes)[i])
    ensures DurablyPublished(e, s', w, n)
  {
    hide Refs.Frames, DurableFrame;
    var was, now := Frames(e, s.logs[w].bytes), Frames(e, s'.logs[w].bytes);
    forall i | 0 <= i < n
      ensures DurableFrame(e, s', w, now[i])
    {
      assert now[..n][i] == was[..n][i];
    }
  }

  lemma DurableAfterRepair(e: Env, s: State, step: Step, w: string, frame: Refs.Frame)
    requires e.anyCommit && Base(e, s) && s.commits != [] && step.PowerLoss? && Enabled(e, s, step)
    requires Next(e, s, step).Ok? && TrustsBoundary(e, CrashIn(e, s, step)) && DurableFrame(e, s, w, frame)
    requires w in Next(e, s, step).value.logs && frame.end <= Next(e, s, step).value.logs[w].synced
    requires Bare(e, Next(e, s, step).value)
    ensures var s' := Checked(e, Next(e, s, step).value, true);
            s'.commits != [] && DurableFrame(e, s', w, frame)
  {
    var c, lost := CrashIn(e, s, step), Next(e, s, step).value;
    var s' := Checked(e, lost, true);
    LossFound(e, s, step);
    LossVouches(e, s, step, w, frame.start);
    DeepVerifyRestores(e, lost);
    CheckedShape(e, lost, true);
    CheckedSynced(e, lost);
    hide Base, Bare, Enabled, Next, CrashIn, CrashFiles, After, Checked, PackOk, CatalogsOk, OlderOk, OwnRows, TrustsBoundary,
         PackAfter, FramesReach, CrashRecovery.LogKept, Counted, Recorded, RecordedBy;
    SyncedStaysRecorded(e, s, c, frame.record.snapshot);
    ReopensAnyIff(e, s, c);
    PackLeftAnyway(e, s, c);
  }

  lemma CheckedSynced(e: Env, s: State)
    ensures Checked(e, s, true).packSynced == s.packSynced
  {
    hide Agrees, Recover;
  }

  lemma LossVouches(e: Env, s: State, step: Step, w: string, start: nat)
    requires Base(e, s) && s.commits != [] && step.PowerLoss? && Enabled(e, s, step) && Next(e, s, step).Ok?
    requires Vouched(s, w, start)
    ensures Vouched(Next(e, s, step).value, w, start)
  {
    LossFound(e, s, step);
    ReopensAnyIff(e, s, CrashIn(e, s, step));
    hide Base, Enabled, Next, After, PackAfter, FramesReach, CrashRecovery.LogKept, PackSurvives, LogSurvives, LogTorn, Whole,
         PackCovered, PackOk, CatalogsOk, OlderOk, OwnRows;
  }
}
