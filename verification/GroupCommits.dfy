/** A group commit that completes: what it makes durable, and that stores do reach such states. */
module GroupCommits {
  import opened Bytes
  import opened Pack
  import opened Recovery
  import opened IndexCheck
  import opened Durability
  import opened StoreRuns
  import opened CrashRecovery
  import opened StoreTheorems
  import Refs
  import RefLog

  /** The high water of the rows of one pack. */
  lemma {:induction false} HighWaterExists(rows: map<Digest, Row>, name: PackName) returns (n: nat)
    ensures RowsEndBy(rows, name, n)
    ensures n == 0 || exists id :: id in rows && rows[id].End() == n
    decreases |rows|
  {
    if rows == map[] {
      return 0;
    }
    var id :| id in rows;
    var rest := rows - {id};
    assert rest.Keys == rows.Keys - {id};
    n := HighWaterExists(rest, name);
    assert forall other | other in rows && other != id :: other in rest && rest[other] == rows[other];
    if n < rows[id].End() {
      n := rows[id].End();
    } else if n > 0 {
      var other :| other in rest && rest[other].End() == n;
      assert other in rows && rows[other].End() == n;
    }
  }

  lemma RunStep(e: Env, s: State, step: Step, rest: seq<Step>, s': State)
    requires s.commits != [] && Enabled(e, s, step) && Next(e, s, step).Ok?
    requires Run(e, Next(e, s, step).value, rest, s')
    ensures Run(e, s, [step] + rest, s')
  {
    hide Enabled, Next;
    assert ([step] + rest)[1..] == rest;
  }

  lemma {:induction false} RunThen(e: Env, s: State, first: seq<Step>, middle: State, second: seq<Step>, s': State)
    requires Run(e, s, first, middle) && Run(e, middle, second, s')
    ensures Run(e, s, first + second, s')
    decreases |first|
  {
    hide Enabled, Next;
    if first == [] {
      assert first + second == second;
    } else {
      RunThen(e, Next(e, s, first[0]).value, first[1..], middle, second, s');
      assert (first + second)[1..] == first[1..] + second;
    }
  }

  /** What a group commit publishes, with `written` as the sampled high water. */
  function GroupFrontier(e: Env, s: State, written: nat): Frontier {
    Frontier(map[e.name := written], map w | w in s.logs :: |s.logs[w].bytes|)
  }

  function GroupCommitted(e: Env, s: State, written: nat): State {
    s.(packSynced := |s.Pack()|,
       logs := map w | w in s.logs :: Log(s.logs[w].bytes, |s.logs[w].bytes|),
       visible := Some(GroupFrontier(e, s, written)), stable := Some(GroupFrontier(e, s, written)), group := Idle)
  }

  /** A group commit that nothing else interleaves with. */
  function GroupSteps(written: nat): seq<Step> {
    [SampleRefs] + ([SamplePacks(written)] + ([FlushPacks] + ([FlushRefs] + ([RenameFrontier] + [SyncDirectory]))))
  }

  /** `written` is the pack high water a group commit may sample. */
  ghost predicate MaySample(e: Env, s: State, written: nat)
    requires s.commits != []
  {
    && RowsEndBy(Current(s).rows, e.name, written)
    && (written == 0 || exists id :: id in Current(s).rows && Current(s).rows[id].End() == written)
  }

  lemma RenamingRuns(e: Env, s: State, f: Frontier)
    requires s.commits != [] && s.group == RefsSynced(f)
    ensures Run(e, s, [RenameFrontier] + [SyncDirectory], s.(visible := Some(f), stable := Some(f), group := Idle))
  {
    hide Recover, EncodeRecord, Refs.EncodeFrame, Put, Advance, Appended, Trimmed, Agrees, Run;
    var s1 := s.(visible := Some(f), group := Idle);
    var s2 := s.(visible := Some(f), stable := Some(f), group := Idle);
    RunEmpty(e, s2);
    RunStep(e, s1, SyncDirectory, [], s2);
    assert [SyncDirectory] + [] == [SyncDirectory];
    RunStep(e, s, RenameFrontier, [SyncDirectory], s2);
  }

  lemma RunEmpty(e: Env, s: State)
    ensures Run(e, s, [], s)
  {
  }

  lemma FlushingRuns(e: Env, s: State, written: nat)
    requires s.commits != []
    ensures Run(e, s.(group := PacksSampled(GroupFrontier(e, s, written))),
                [FlushPacks] + ([FlushRefs] + ([RenameFrontier] + [SyncDirectory])), GroupCommitted(e, s, written))
  {
    hide Recover, EncodeRecord, Refs.EncodeFrame, Put, Advance, Appended, Trimmed, Agrees, Run;
    var f := GroupFrontier(e, s, written);
    var rest := [RenameFrontier] + [SyncDirectory];
    var s2 := s.(group := PacksSampled(f));
    var s3 := s.(packSynced := |s.Pack()|, group := PacksSynced(f));
    var s4 := GroupCommitted(e, s, written).(visible := s.visible, stable := s.stable, group := RefsSynced(f));
    RenamingRuns(e, s4, f);
    RunStep(e, s3, FlushRefs, rest, GroupCommitted(e, s, written));
    RunStep(e, s2, FlushPacks, [FlushRefs] + rest, GroupCommitted(e, s, written));
  }

  lemma GroupCommitRuns(e: Env, s: State, written: nat)
    requires s.commits != [] && s.group.Idle? && MaySample(e, s, written)
    ensures Run(e, s, GroupSteps(written), GroupCommitted(e, s, written))
  {
    hide Recover, EncodeRecord, Refs.EncodeFrame, Put, Advance, Appended, Trimmed, Run;
    var f := GroupFrontier(e, s, written);
    var s1 := s.(group := RefsSampled(f.refs));
    var rest := [FlushPacks] + ([FlushRefs] + ([RenameFrontier] + [SyncDirectory]));
    FlushingRuns(e, s, written);
    RunStep(e, s1, SamplePacks(written), rest, GroupCommitted(e, s, written));
    RunStep(e, s, SampleRefs, [SamplePacks(written)] + rest, GroupCommitted(e, s, written));
  }

  lemma {:induction false} NoSampleIsClean(e: Env, s: State, steps: seq<Step>)
    requires forall step | step in steps :: !step.SampleRefs?
    ensures SamplesClean(e, s, steps)
    decreases |steps|
  {
    hide Enabled, Next, AllClean;
    if steps != [] && s.commits != [] && Enabled(e, s, steps[0]) && Next(e, s, steps[0]).Ok? {
      NoSampleIsClean(e, Next(e, s, steps[0]).value, steps[1..]);
    }
  }

  lemma GroupSamplesClean(e: Env, s: State, written: nat)
    requires AllClean(e, s)
    ensures SamplesClean(e, s, GroupSteps(written))
  {
    hide Enabled, Next, AllClean;
    var rest := [SamplePacks(written)] + ([FlushPacks] + ([FlushRefs] + ([RenameFrontier] + [SyncDirectory])));
    assert GroupSteps(written)[1..] == rest;
    if s.commits != [] && Enabled(e, s, SampleRefs) && Next(e, s, SampleRefs).Ok? {
      NoSampleIsClean(e, Next(e, s, SampleRefs).value, rest);
    }
  }

  /** Over clean logs a group commit completes and leaves a sound store. */
  lemma CleanGroupCommit(e: Env, s: State, written: nat)
    requires EnvOk(e) && Inv(e, s) && s.commits != [] && s.group.Idle? && AllClean(e, s) && MaySample(e, s, written)
    ensures Run(e, s, GroupSteps(written), GroupCommitted(e, s, written)) && Inv(e, GroupCommitted(e, s, written))
  {
    hide Inv, Run, AllClean, SamplesClean, RunTrusts, MaySample, Enabled, Next, GroupCommitted;
    GroupCommitRuns(e, s, written);
    GroupSamplesClean(e, s, written);
    RecentIsTrusted(e, s, GroupSteps(written));
    RunKeepsInv(e, s, GroupSteps(written), GroupCommitted(e, s, written));
  }

  /**
    * A group commit can always complete, and then every reference that existed when it began is durably published,
    * in every log. Over clean logs it also leaves a sound store.
    */
  lemma GroupCommitCovers(e: Env, s: State) returns (written: nat, s': State)
    requires EnvOk(e) && Inv(e, s) && s.group.Idle?
    ensures s.commits != [] && MaySample(e, s, written) && s' == GroupCommitted(e, s, written)
    ensures Run(e, s, GroupSteps(written), s') && Base(e, s') && s'.commits != []
    ensures forall w | w in s.logs ::
              w in s'.logs && s'.logs[w].bytes == s.logs[w].bytes
              && DurablyPublished(e, s', w, |Frames(e, s.logs[w].bytes)|)
    ensures AllClean(e, s) ==> Inv(e, s')
  {
    hide Refs.Frames, Refs.FramesEnd, Run, PackOk, CatalogsOk, LogOk, GroupOk, AllClean, SamplesClean, LogsIntact,
         PackCovered, FrontierOk, OlderOk;
    CommitsExist(e, s);
    written := HighWaterExists(Current(s).rows, e.name);
    s' := GroupCommitted(e, s, written);
    GroupCommitRuns(e, s, written);
    InvIsBase(e, s);
    RecentIsTrusted(e, s, GroupSteps(written));
    RunKeepsBase(e, s, GroupSteps(written), s');
    forall w | w in s.logs
      ensures DurablyPublished(e, s', w, |Frames(e, s.logs[w].bytes)|)
    {
      CommittedIsDurable(e, s, written, w);
    }
    if AllClean(e, s) {
      CleanGroupCommit(e, s, written);
    }
  }

  lemma CommittedIsDurable(e: Env, s: State, written: nat, w: string)
    requires Inv(e, s) && s.commits != [] && w in s.logs
    ensures DurablyPublished(e, GroupCommitted(e, s, written), w, |Frames(e, s.logs[w].bytes)|)
  {
    hide PackOk, CatalogsOk, OlderOk, FrontierOk, GroupOk, Refs.Frames, Refs.FramesEnd, AllClean, LogIntact, Located, Within;
    var s' := GroupCommitted(e, s, written);
    assert LogOk(e, s, w, s.logs[w]);
    var bytes := s.logs[w].bytes;
    forall i | 0 <= i < |Frames(e, bytes)|
      ensures DurableFrame(e, s', w, Frames(e, bytes)[i])
    {
      FrameBounds(e, bytes, i);
      assert Published(e, s, w, Frames(e, bytes)[i]);
      PublishedIsInPack(e, s, w, Frames(e, bytes)[i]);
      SyncedWithin(e, s, Frames(e, bytes)[i].record.snapshot);
      WithinLogless(e, AllSynced(s), s', Frames(e, bytes)[i].record.snapshot, |s.Pack()|);
    }
  }

  lemma WithinLogless(e: Env, s: State, s': State, id: Digest, limit: nat)
    requires s.commits != [] && s'.commits == s.commits && s'.session == s.session && Within(e, s, id, limit)
    ensures Within(e, s', id, limit)
  {
    hide RecordedBy;
  }

  // ---- when the store opens again ----

  ghost predicate OpensAfterAnyCrash(e: Env, s: State)
    requires s.commits != []
  {
    forall step | IsCrash(step) && Enabled(e, s, step) && Trusts(e, s, step) :: Next(e, s, step).Ok?
  }

  /** The crash that tears nothing. */
  ghost function PlainCrash(s: State): Step {
    ProcessCrash(Obj(Blob, []), 0, map w | w in s.logs :: s.logs[w].bytes)
  }

  lemma PlainCrashIsEnabled(e: Env, s: State)
    requires s.commits != [] && LogsIntact(e, s)
    ensures IsCrash(PlainCrash(s)) && Enabled(e, s, PlainCrash(s))
    ensures forall w | w in s.logs :: w in PlainCrash(s).logs && PlainCrash(s).logs[w] == s.logs[w].bytes
  {
    hide Refs.Intact, Refs.FramesEnd, Agrees, Recover;
    assert forall w | w in s.logs :: LogIntact(e, s.logs[w]);
  }

  /** What is on disk for good of one log. */
  function OnDisk(e: Env, log: Log): seq<byte>
    requires Settled(e, log) <= |log.bytes|
  {
    log.bytes[..Settled(e, log)]
  }

  /** In every log the complete frames on disk reach what the frontier vouches for. */
  ghost predicate DiskReaches(e: Env, s: State, f: Frontier)
    requires LogsIntact(e, s)
  {
    forall w | w in s.logs :: SettledInside(e, s.logs[w]) && f.Refs(w) <= Refs.FramesEnd(e.reader, OnDisk(e, s.logs[w]))
  }

  predicate SettledInside(e: Env, log: Log) {
    Settled(e, log) <= |log.bytes|
  }

  /** Both frontiers a crash may leave are reached: the visible one by what is written and by what is on disk, the
      stable one by what is on disk. */
  ghost predicate FrontiersReached(e: Env, s: State)
    requires LogsIntact(e, s)
  {
    && (s.visible.Some? ==> forall w :: s.visible.value.Refs(w) <= Refs.FramesEnd(e.reader, LogOf(s, w).bytes))
    && (s.visible.Some? ==> DiskReaches(e, s, s.visible.value))
    && (s.stable.Some? ==> DiskReaches(e, s, s.stable.value))
  }

  /** The power loss that leaves of every log just what is on disk for good. */
  ghost function BareLoss(e: Env, s: State, keepVisible: bool): Step
    requires s.commits != [] && LogsIntact(e, s)
  {
    PowerLoss(s.Pack(), map w | w in s.logs && SettledInside(e, s.logs[w]) :: OnDisk(e, s.logs[w]), Current(s),
              keepVisible)
  }

  lemma BareLogSurvives(e: Env, log: Log)
    ensures SettledInside(e, log) && LogSurvives(e, log, OnDisk(e, log))
  {
    var part := OnDisk(e, log);
    var end := Refs.FramesEnd(e.reader, part);
    PrefixOfPrefix(log.bytes, |part|, end);
    assert part[..end] == log.bytes[..end];
  }

  lemma BareLossIsEnabled(e: Env, s: State, keepVisible: bool)
    requires Base(e, s) && s.commits != [] && (if keepVisible then s.visible else s.stable).Some?
    ensures Enabled(e, s, BareLoss(e, s, keepVisible))
    ensures BareLoss(e, s, keepVisible).logs.Keys == s.logs.Keys
    ensures forall w | w in s.logs ::
              SettledInside(e, s.logs[w]) && BareLoss(e, s, keepVisible).logs[w] == OnDisk(e, s.logs[w])
  {
    PackIsWhole(e, s);
    hide PackOk, CatalogsOk, OlderOk, PackCovered, GroupInPack, ScanEnd, Settled, Refs.FramesEnd, LogSurvives, Agrees, Recover;
    assert s.Pack()[..|s.Pack()|] == s.Pack();
    forall w | w in s.logs
      ensures SettledInside(e, s.logs[w]) && LogSurvives(e, s.logs[w], OnDisk(e, s.logs[w]))
    {
      BareLogSurvives(e, s.logs[w]);
    }
  }

  lemma PackIsWhole(e: Env, s: State)
    requires PackOk(e, s)
    ensures ScanEnd(e.h, s.Pack(), 0) == |s.Pack()| && s.packSynced <= |s.Pack()|
    ensures Genuine(e.h, s.Pack(), s.Pack())
  {
    assert s.Pack()[..|s.Pack()|] == s.Pack();
  }

  /** What survives extends what is on disk for good, frame by frame. */
  lemma SurvivorReaches(e: Env, log: Log, survived: seq<byte>)
    requires LogSurvives(e, log, survived)
    ensures SettledInside(e, log)
    ensures Refs.FramesEnd(e.reader, OnDisk(e, log)) <= Refs.FramesEnd(e.reader, survived)
  {
    var part := OnDisk(e, log);
    hide Refs.FramesEnd;
    assert CompletePart(e, part) <= survived by {
      PrefixOfPrefix(survived, |part|, Refs.FramesEnd(e.reader, part));
    }
    FramesExtend(e, part, survived);
  }

  /**
    * The exact condition in every reachable state: the store opens whatever crash comes next if and only if the
    * complete frames of every log reach what the frontier files vouch for.
    */
  lemma OpensIff(e: Env, s: State)
    requires EnvOk(e) && Base(e, s) && s.commits != []
    ensures OpensAfterAnyCrash(e, s) <==> FrontiersReached(e, s)
  {
    hide PackOk, CatalogsOk, PackCovered, GroupInPack, Enabled, Next, Refs.FramesEnd, LogIntact, FramesReach;
    if FrontiersReached(e, s) {
      forall step | IsCrash(step) && Enabled(e, s, step) && Trusts(e, s, step)
        ensures Next(e, s, step).Ok?
      {
        StepSucceedsIff(e, s, step);
        ReachedByAnyCrash(e, s, step);
      }
    }
    if OpensAfterAnyCrash(e, s) {
      if s.visible.Some? {
        BareLossReaches(e, s, true);
        forall w
          ensures s.visible.value.Refs(w) <= Refs.FramesEnd(e.reader, LogOf(s, w).bytes)
        {
          PlainCrashReaches(e, s, w);
        }
      }
      if s.stable.Some? {
        BareLossReaches(e, s, false);
      }
    }
  }

  lemma ReachedByAnyCrash(e: Env, s: State, step: Step)
    requires Base(e, s) && s.commits != [] && FrontiersReached(e, s) && IsCrash(step) && Enabled(e, s, step)
    ensures FramesReach(e, CrashIn(e, s, step))
  {
    hide PackOk, CatalogsOk, PackCovered, GroupInPack, Refs.FramesEnd, LogIntact, LogSurvives, Genuine, EncodeRecord;
    var c := CrashIn(e, s, step);
    if c.visible.Some? {
      forall w | w in c.logs
        ensures c.visible.value.Refs(w) <= Refs.FramesEnd(e.reader, c.logs[w])
      {
        if step.PowerLoss? {
          SurvivorReaches(e, s.logs[w], c.logs[w]);
        } else {
          assert LogTorn(e, LogOf(s, w), c.logs[w]);
        }
      }
    }
  }

  lemma BareLossReaches(e: Env, s: State, keepVisible: bool)
    requires EnvOk(e) && Base(e, s) && s.commits != [] && OpensAfterAnyCrash(e, s)
    requires (if keepVisible then s.visible else s.stable).Some?
    ensures DiskReaches(e, s, (if keepVisible then s.visible else s.stable).value)
  {
    var step := BareLoss(e, s, keepVisible);
    BareLossIsEnabled(e, s, keepVisible);
    hide PackOk, CatalogsOk, PackCovered, GroupInPack, Enabled, Next, Refs.FramesEnd, LogIntact, BareLoss, Settled;
    StepSucceedsIff(e, s, step);
  }

  lemma UntouchedIsTorn(e: Env, log: Log)
    requires LogIntact(e, log)
    ensures LogTorn(e, log, log.bytes)
  {
    hide Refs.Chain, Refs.ChainEnd, Refs.FrameAt;
  }

  /** A plain crash, just after the log of `w` was created if there was none. */
  function CreatingCrash(s: State, w: string): Step {
    ProcessCrash(Obj(Blob, []), 0, (map x | x in s.logs :: s.logs[x].bytes)[w := LogOf(s, w).bytes])
  }

  lemma CreatingIsEnabled(e: Env, s: State, w: string)
    requires s.commits != [] && LogsIntact(e, s)
    ensures IsCrash(CreatingCrash(s, w)) && Enabled(e, s, CreatingCrash(s, w))
    ensures CrashIn(e, s, CreatingCrash(s, w)).logs[w] == LogOf(s, w).bytes
    ensures w in CrashIn(e, s, CreatingCrash(s, w)).logs && CrashIn(e, s, CreatingCrash(s, w)).visible == s.visible
  {
    RefLog.EmptyLog(e.reader);
    Refs.NothingPastTheEnd(e.reader, []);
    hide Refs.Chain, Refs.ChainEnd, Refs.FrameAt, LogTorn;
    forall x | x in CreatingCrash(s, w).logs
      ensures LogTorn(e, LogOf(s, x), CreatingCrash(s, w).logs[x])
    {
      assert LogIntact(e, LogOf(s, x));
      UntouchedIsTorn(e, LogOf(s, x));
    }
  }

  lemma PlainCrashReaches(e: Env, s: State, w: string)
    requires EnvOk(e) && Base(e, s) && s.commits != [] && OpensAfterAnyCrash(e, s) && s.visible.Some?
    ensures s.visible.value.Refs(w) <= Refs.FramesEnd(e.reader, LogOf(s, w).bytes)
  {
    CreatingIsEnabled(e, s, w);
    hide PackOk, CatalogsOk, OlderOk, LogsIntact, PackCovered, GroupInPack, Refs.FramesEnd, Enabled, Next, CrashIn,
         CreatingCrash;
    StepSucceedsIff(e, s, CreatingCrash(s, w));
  }

  /**
    * The exact condition: after a group commit the store opens whatever crash follows if and only if no log ended in
    * a torn frame when it was sampled.
    */
  lemma GroupCommitReopensIff(e: Env, s: State, written: nat)
    requires EnvOk(e) && Inv(e, s) && s.group.Idle? && s.commits != [] && MaySample(e, s, written)
    ensures OpensAfterAnyCrash(e, GroupCommitted(e, s, written)) <==> AllClean(e, s)
  {
    hide Run, PackOk, CatalogsOk, RefsOk, LogsIntact, PackCovered, SamplesClean, MaySample, Enabled, Next, Refs.FramesEnd;
    var s' := GroupCommitted(e, s, written);
    GroupCommitRuns(e, s, written);
    InvIsBase(e, s);
    RecentIsTrusted(e, s, GroupSteps(written));
    RunKeepsBase(e, s, GroupSteps(written), s');
    if AllClean(e, s) {
      CleanGroupCommit(e, s, written);
      forall step | IsCrash(step) && Enabled(e, s', step) && Trusts(e, s', step)
        ensures Next(e, s', step).Ok?
      {
        StepKeepsInv(e, s', step);
      }
    } else {
      var w :| w in s.logs && Refs.FramesEnd(e.reader, s.logs[w].bytes) != |s.logs[w].bytes|;
      TornIsFatal(e, s', w);
    }
  }

  /** A frontier that vouches for a torn frame: the next opening fails. */
  lemma TornIsFatal(e: Env, s: State, w: string)
    requires EnvOk(e) && Base(e, s) && s.commits != []
    requires s.visible.Some? && w in s.logs && Refs.FramesEnd(e.reader, s.logs[w].bytes) < s.visible.value.Refs(w)
    ensures IsCrash(PlainCrash(s)) && Enabled(e, s, PlainCrash(s)) && Next(e, s, PlainCrash(s)) == Err
  {
    PlainCrashIsEnabled(e, s);
    StepSucceedsIff(e, s, PlainCrash(s));
    hide Enabled, Next, Base, Refs.FramesEnd, EncodeRecord;
    assert CrashIn(e, s, PlainCrash(s)).logs[w] == s.logs[w].bytes;
  }

  /** A snapshot that refers to nothing, put, committed and published in an empty store. */
  ghost function FirstPublished(e: Env, obj: Obj, w: string, record: Refs.RefRecord): State {
    var session := Put(e.h, e.name, Fresh().session, obj);
    State(session, 0, [Fresh().session.cat, session.cat], {}, false,
          map[w := Log([] + Refs.EncodeFrame(e.reader, record), 0)], None, None, Idle, map[obj.Id(e.h) := obj])
  }

  lemma FirstPublishedIsReached(e: Env, obj: Obj, w: string, record: Refs.RefRecord)
    requires EnvOk(e) && obj.Fits() && obj.kind == Snapshot && e.edges(obj) == []
    requires record.sequence == 1 && record.previous == ZeroDigest() && record.snapshot == obj.Id(e.h)
    requires |e.reader.codec.encode(record)| <= Refs.MAX_RECORD
    ensures Run(e, Fresh(), [Begin, PutObject(obj), Commit, Publish(w, record)], FirstPublished(e, obj, w, record))
  {
    hide Refs.Chain, Refs.ChainEnd, Refs.FrameAt, Refs.EncodeFrame, EncodeRecord, Agrees, Recover;
    var s1 := Fresh().(inBatch := true);
    var s2 := s1.(session := Put(e.h, e.name, s1.session, obj), objects := map[obj.Id(e.h) := obj]);
    var s3 := s2.(commits := s2.commits + [s2.View()], inBatch := false);
    var s4 := FirstPublished(e, obj, w, record);
    RefLog.EmptyLog(e.reader);
    assert s3.commits == s4.commits;
    RunStep(e, s3, Publish(w, record), [], s4);
    RunStep(e, s2, Commit, [Publish(w, record)], s4);
    RunStep(e, s1, PutObject(obj), [Commit] + [Publish(w, record)], s4);
    RunStep(e, Fresh(), Begin, [PutObject(obj)] + ([Commit] + [Publish(w, record)]), s4);
    assert [Begin] + ([PutObject(obj)] + ([Commit] + [Publish(w, record)]))
        == [Begin, PutObject(obj), Commit, Publish(w, record)];
  }

  /**
    * From an empty store: a snapshot put, committed, published and group-committed is durably published, so the
    * durability theorems speak of states that stores do reach.
    */
  lemma FirstReferenceIsDurable(e: Env, obj: Obj, w: string, record: Refs.RefRecord)
    returns (steps: seq<Step>, s': State)
    requires EnvOk(e) && obj.Fits() && obj.kind == Snapshot && e.edges(obj) == []
    requires record.sequence == 1 && record.previous == ZeroDigest() && record.snapshot == obj.Id(e.h)
    requires |e.reader.codec.encode(record)| <= Refs.MAX_RECORD
    ensures Run(e, Fresh(), steps, s') && Inv(e, s') && s'.commits != []
    ensures w in s'.logs && DurablyPublished(e, s', w, 1)
    ensures Frames(e, s'.logs[w].bytes) != [] && Frames(e, s'.logs[w].bytes)[0].record == record
  {
    hide Inv, Refs.Chain, Refs.ChainEnd, Refs.FrameAt, Refs.EncodeFrame, Refs.Frames, EncodeRecord, DurablyPublished,
      Run, Base, SamplesClean;
    var middle := FirstPublished(e, obj, w, record);
    var first := [Begin, PutObject(obj), Commit, Publish(w, record)];
    FreshStoreOk(e);
    FirstPublishedIsReached(e, obj, w, record);
    NoSampleIsClean(e, Fresh(), first);
    RecentIsTrusted(e, Fresh(), first);
    RunKeepsInv(e, Fresh(), first, middle);
    OnlyFrame(e, record);
    var written;
    written, s' := GroupCommitCovers(e, middle);
    steps := first + GroupSteps(written);
    RunThen(e, Fresh(), first, middle, GroupSteps(written), s');
  }

  lemma OnlyFrame(e: Env, record: Refs.RefRecord)
    requires EnvOk(e) && record.sequence == 1 && record.previous == ZeroDigest()
    requires |e.reader.codec.encode(record)| <= Refs.MAX_RECORD
    ensures var bytes := [] + Refs.EncodeFrame(e.reader, record);
            && Refs.FramesEnd(e.reader, bytes) == |bytes|
            && |Frames(e, bytes)| == 1 && Frames(e, bytes)[0].record == record
  {
    hide Refs.EncodeFrame;
    RefLog.EmptyLog(e.reader);
    Refs.ChainAppend(e.reader, [], 0, ZeroDigest(), 1, record);
  }

  /** A crash that tears the first byte of the next frame of `w`. */
  function TearingCrash(s: State, w: string): Step
    requires w in s.logs
  {
    ProcessCrash(Obj(Blob, []), 0, map x | x in s.logs ::
                   if x == w then s.logs[x].bytes + [Refs.MAGIC[0]] else s.logs[x].bytes)
  }

  /** Before the first group commit, opening leaves the torn frame where it is. */
  lemma TearingLeavesTorn(e: Env, s: State, w: string)
    requires EnvOk(e) && Inv(e, s) && s.commits != [] && s.visible.None? && AllClean(e, s) && w in s.logs
    ensures Enabled(e, s, TearingCrash(s, w)) && Next(e, s, TearingCrash(s, w)).Ok?
    ensures var s' := Next(e, s, TearingCrash(s, w)).value;
            && Inv(e, s') && s'.group.Idle? && w in s'.logs
            && Refs.FramesEnd(e.reader, s'.logs[w].bytes) < |s'.logs[w].bytes|
  {
    hide Refs.FramesEnd, Refs.Frames, Refs.Intact, Recover, EncodeRecord, PackOk, CatalogsOk, FrontierOk, GroupOk;
    var step := TearingCrash(s, w);
    forall x | x in step.logs
      ensures LogTorn(e, LogOf(s, x), step.logs[x])
    {
      assert LogOk(e, s, x, s.logs[x]);
      assert s.logs[x].bytes[..|s.logs[x].bytes|] == s.logs[x].bytes;
      assert (s.logs[x].bytes + [Refs.MAGIC[0]])[..|s.logs[x].bytes|] == s.logs[x].bytes;
      Refs.TornByte(e.reader, s.logs[x].bytes);
    }
    Refs.TornByte(e.reader, s.logs[w].bytes);
    TearingIsEnabled(e, s, w);
    hide Inv, Enabled, LogTorn;
    StepKeepsInv(e, s, step);
  }

  lemma TearingIsEnabled(e: Env, s: State, w: string)
    requires s.commits != [] && w in s.logs
    requires forall x | x in TearingCrash(s, w).logs :: LogTorn(e, LogOf(s, x), TearingCrash(s, w).logs[x])
    ensures Enabled(e, s, TearingCrash(s, w))
  {
    hide LogTorn;
  }

  /**
    * The promise that opening never fails, broken by a run from an empty store: a reference is published, a crash
    * tears the next one, the store opens, a group commit samples the torn log, and after one more crash, which tears
    * nothing, the store does not open.
    */
  lemma TornLogStopsOpening(e: Env, obj: Obj, w: string, record: Refs.RefRecord)
    returns (steps: seq<Step>, s': State)
    requires EnvOk(e) && obj.Fits() && obj.kind == Snapshot && e.edges(obj) == []
    requires record.sequence == 1 && record.previous == ZeroDigest() && record.snapshot == obj.Id(e.h)
    requires |e.reader.codec.encode(record)| <= Refs.MAX_RECORD
    ensures Run(e, Fresh(), steps, s') && s'.commits != []
    ensures IsCrash(PlainCrash(s')) && Enabled(e, s', PlainCrash(s')) && Next(e, s', PlainCrash(s')) == Err
  {
    hide Inv, Refs.FramesEnd, Refs.EncodeFrame, Refs.Frames, EncodeRecord, DurablyPublished, Run, Base, SamplesClean,
         Enabled, Next;
    var middle := FirstPublished(e, obj, w, record);
    var first := [Begin, PutObject(obj), Commit, Publish(w, record)];
    FreshStoreOk(e);
    FirstPublishedIsReached(e, obj, w, record);
    NoSampleIsClean(e, Fresh(), first);
    RecentIsTrusted(e, Fresh(), first);
    RunKeepsInv(e, Fresh(), first, middle);
    OnlyFrame(e, record);
    TearingLeavesTorn(e, middle, w);
    var torn := Next(e, middle, TearingCrash(middle, w)).value;
    RunOne(e, middle, TearingCrash(middle, w));
    RunThen(e, Fresh(), first, middle, [TearingCrash(middle, w)], torn);
    var written;
    written, s' := GroupCommitCovers(e, torn);
    RunThen(e, Fresh(), first + [TearingCrash(middle, w)], torn, GroupSteps(written), s');
    steps := first + [TearingCrash(middle, w)] + GroupSteps(written);
    TornIsFatal(e, s', w);
  }

  lemma RunOne(e: Env, s: State, step: Step)
    requires s.commits != [] && Enabled(e, s, step) && Next(e, s, step).Ok?
    ensures Run(e, s, [step], Next(e, s, step).value)
  {
    hide Enabled, Next;
    RunStep(e, s, step, [], Next(e, s, step).value);
  }
}
