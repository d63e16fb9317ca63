/** The steps of the store, and what every run of them keeps. */
module StoreRuns {
  import opened Bytes
  import opened Pack
  import opened Recovery
  import opened IndexCheck
  import opened Durability
  import Refs
  import RefLog

  datatype Step =
    | Begin
    | PutObject(obj: Obj)
    | AdvanceCheckpoint
    | Commit
    | Rollback
    | SyncPack
    | Publish(workspace: string, record: Refs.RefRecord)
    | Lookup(workspace: string)
    | SyncLog(workspace: string)
    | SampleRefs
    | SamplePacks(written: nat)
    | FlushPacks
    | FlushRefs
    | RenameFrontier
    | SyncDirectory
    | AbandonGroup
    | VerifyIndex(deep: bool)
    | ProcessCrash(obj: Obj, cut: nat, logs: map<string, seq<byte>>)
    | PowerLoss(pack: seq<byte>, logs: map<string, seq<byte>>, cat: Catalog, keepVisible: bool)

  function Min(a: nat, b: nat): nat { if a < b then a else b }

  /** A record that continues the log of a workspace. */
  ghost predicate Continues(e: Env, bytes: seq<byte>, record: Refs.RefRecord) {
    var frames := Frames(e, bytes);
    && record.sequence == |frames| + 1
    && record.previous == (if frames == [] then ZeroDigest() else frames[|frames| - 1].hash)
    && |e.reader.codec.encode(record)| <= Refs.MAX_RECORD
  }

  function LogOf(s: State, workspace: string): Log {
    if workspace in s.logs then s.logs[workspace] else Log([], 0)
  }

  function CompletePart(e: Env, bytes: seq<byte>): seq<byte> {
    Refs.Complete(e.reader, bytes)
  }

  /** How much of a log is on disk for good: a torn frame at its end may be trimmed at any time. */
  function Settled(e: Env, log: Log): nat {
    Min(log.synced, Refs.FramesEnd(e.reader, log.bytes))
  }

  /** The log as a lookup or an append finds it: a torn frame at its end is trimmed first. */
  function Trimmed(e: Env, log: Log): Log {
    Log(CompletePart(e, log.bytes), Settled(e, log))
  }

  /** An append trims first. */
  function Appended(e: Env, log: Log, record: Refs.RefRecord): Log {
    Log(Trimmed(e, log).bytes + Refs.EncodeFrame(e.reader, record), Trimmed(e, log).synced)
  }

  /** A log after power loss: the settled part, and no frame that was not written there. */
  ghost predicate LogSurvives(e: Env, log: Log, survived: seq<byte>) {
    var settled := Settled(e, log);
    && settled <= |survived| && settled <= |log.bytes|
    && survived[..settled] == log.bytes[..settled]
    && var end := Refs.FramesEnd(e.reader, survived);
    && end <= |log.bytes| && survived[..end] == log.bytes[..end]
  }

  /** A log after a process crash: every frame written, and at most a torn frame after them. */
  ghost predicate LogTorn(e: Env, log: Log, survived: seq<byte>) {
    var end := Refs.FramesEnd(e.reader, log.bytes);
    && end <= |survived| && survived[..end] == log.bytes[..end]
    && Refs.FramesEnd(e.reader, survived) == end
    && Refs.Intact(e.reader, survived)
  }

  ghost predicate Enabled(e: Env, s: State, step: Step)
    requires s.commits != []
  {
    match step
    case Begin => !s.inBatch
    case PutObject(obj) =>
      // A writer stores children first; no two of its objects share an identifier.
      && s.inBatch && obj.Fits()
      && (obj.Id(e.h) in s.objects ==> s.objects[obj.Id(e.h)] == obj)
      && forall edge | edge in e.edges(obj) :: edge.id in s.View().rows && s.View().rows[edge.id].kind == edge.kind
    case AdvanceCheckpoint => s.inBatch
    case Commit => s.inBatch
    case Rollback => s.inBatch
    case SyncPack => true
    case Publish(w, record) =>
      // The catalog is committed before the reference is appended.
      && !s.inBatch && Continues(e, LogOf(s, w).bytes, record)
      && record.snapshot in Current(s).rows && Current(s).rows[record.snapshot].kind == Snapshot
    case Lookup(w) => w in s.logs
    case SyncLog(w) => w in s.logs
    case SampleRefs => s.group.Idle?
    case SamplePacks(written) =>
      && s.group.RefsSampled?
      && RowsEndBy(Current(s).rows, e.name, written)
      && (written == 0 || exists id :: id in Current(s).rows && Current(s).rows[id].End() == written)
    case FlushPacks => s.group.PacksSampled?
    case FlushRefs => s.group.PacksSynced?
    case RenameFrontier => s.group.RefsSynced?
    case SyncDirectory => s.group.Idle?
    case AbandonGroup => true
    case VerifyIndex(deep) => !s.inBatch
    case ProcessCrash(obj, cut, logs) =>
      && obj.Fits() && cut < |EncodeRecord(e.h, obj)|
      && s.logs.Keys <= logs.Keys
      && forall w | w in logs :: LogTorn(e, LogOf(s, w), logs[w])
    case PowerLoss(pack, logs, cat, keepVisible) =>
      && (if keepVisible then s.visible else s.stable).Some?
      && (cat in s.commits || (e.anyCommit && cat in s.older))
      && s.packSynced <= |pack| && s.packSynced <= |s.Pack()| && pack[..s.packSynced] == s.Pack()[..s.packSynced]
      && Genuine(e.h, pack, s.Pack())
      && logs.Keys <= s.logs.Keys
      && forall w | w in s.logs :: if w in logs then LogSurvives(e, s.logs[w], logs[w]) else s.logs[w].synced == 0
  }

  /** What opening the store makes of one reference log: without a frontier, nothing. */
  ghost function ReopenLog(e: Env, frontier: Option<Frontier>, w: string, bytes: seq<byte>, rows: map<Digest, Row>)
    : Result<seq<byte>>
  {
    match frontier
    case Some(f) => RefLog.RepairSuffix(e.reader, bytes, f.Refs(w), rows.Keys)
    case None => Ok(bytes)
  }

  function CommitSet(s: State): set<Catalog> {
    set i | 0 <= i < |s.commits| :: s.commits[i]
  }

  /** Opening the store over what a crash left: pack recovery, then reference repair. */
  ghost function Reopen(e: Env, s: State, pack: seq<byte>, logs: map<string, seq<byte>>, cat: Catalog,
                        visible: Option<Frontier>, stable: Option<Frontier>): Result<State>
  {
    match Recover(e.h, e.name, pack, cat, visible)
    case Err => Err
    case Ok(r) =>
      if exists w :: w in logs && ReopenLog(e, visible, w, logs[w], r.cat.rows).Err? then Err
      else
        Ok(State(
             Session(r.pack, r.cat, None), Min(s.packSynced, |r.pack|), [r.cat],
             s.older + CommitSet(s), false,
             map w | w in logs ::
               var kept := ReopenLog(e, visible, w, logs[w], r.cat.rows).value;
               Log(kept, Min(LogOf(s, w).synced, Refs.FramesEnd(e.reader, kept))),
             visible, stable, Idle, s.objects))
  }

  /** Checking the index, as a failed read does, and rebuilding it if the check fails; an error leaves everything as
      it was. */
  function Checked(e: Env, s: State, deep: bool): State {
    match Verify(e.h, e.name, s.Pack(), s.View(), s.visible, deep)
    case Ok(r) =>
      if Agrees(e.name, s.View()) && !deep then s
      else s.(session := Session(r.pack, r.cat, s.session.run), commits := [r.cat], older := s.older + CommitSet(s))
    case Err => s
  }

  ghost function Next(e: Env, s: State, step: Step): Result<State>
    requires s.commits != [] && Enabled(e, s, step)
  {
    match step
    case Begin => Ok(s.(inBatch := true))
    case PutObject(obj) =>
      Ok(s.(session := Put(e.h, e.name, s.session, obj), objects := s.objects[obj.Id(e.h) := obj]))
    case AdvanceCheckpoint => Ok(s.(session := Advance(e.name, s.session)))
    case Commit => Ok(s.(commits := s.commits + [s.View()], inBatch := false))
    case Rollback => Ok(s.(session := s.session.(cat := Current(s)), inBatch := false))
    case SyncPack => Ok(s.(packSynced := |s.Pack()|))
    case Publish(w, record) =>
      Ok(s.(logs := s.logs[w := Appended(e, LogOf(s, w), record)]))
    case Lookup(w) => Ok(s.(logs := s.logs[w := Trimmed(e, s.logs[w])]))
    case SyncLog(w) => Ok(s.(logs := s.logs[w := Log(s.logs[w].bytes, |s.logs[w].bytes|)]))
    case SampleRefs => Ok(s.(group := RefsSampled(map w | w in s.logs :: |s.logs[w].bytes|)))
    case SamplePacks(written) =>
      Ok(s.(group := PacksSampled(Frontier(map[e.name := written], s.group.refs))))
    case FlushPacks => Ok(s.(packSynced := |s.Pack()|, group := PacksSynced(s.group.frontier)))
    case FlushRefs =>
      Ok(s.(logs := map w | w in s.logs :: Log(s.logs[w].bytes, |s.logs[w].bytes|),
            group := RefsSynced(s.group.frontier)))
    case RenameFrontier => Ok(s.(visible := Some(s.group.frontier), group := Idle))
    case SyncDirectory => Ok(s.(stable := s.visible))
    case AbandonGroup => Ok(s.(group := Idle))
    case VerifyIndex(deep) => Ok(Checked(e, s, deep))
    case ProcessCrash(obj, cut, logs) =>
      Reopen(e, s, s.Pack() + EncodeRecord(e.h, obj)[..cut], logs, Current(s), s.visible, s.stable)
    case PowerLoss(pack, logs, cat, keepVisible) =>
      var found := if keepVisible then s.visible else s.stable;
      Reopen(e, s, pack, logs, cat, found, found)
  }

  // ---- steps that only add ----

  /** Nothing written, committed or synced goes away, except torn frames. */
  ghost predicate Grows(e: Env, s: State, s': State)
    requires s.commits != [] && s'.commits != []
  {
    && s.Pack() <= s'.Pack()
    && s.packSynced <= s'.packSynced
    && (forall w | w in s.logs ::
          && w in s'.logs && CompletePart(e, s.logs[w].bytes) <= s'.logs[w].bytes
          && Settled(e, s.logs[w]) <= s'.logs[w].synced)
    && (forall id | id in Current(s).rows ::
          id in Current(s').rows && Current(s').rows[id].End() <= Current(s).rows[id].End())
    && (forall id | Located(e, s.Pack(), Current(s), id) :: Located(e, s'.Pack(), Current(s'), id))
    && (forall id | id in s.objects :: id in s'.objects && s'.objects[id] == s.objects[id])
  }

  lemma ScanGrows(h: Hasher, pack: seq<byte>, longer: seq<byte>)
    requires pack <= longer
    ensures Scan(h, pack, 0) <= Scan(h, longer, 0)
  {
    var end := ScanEnd(h, pack, 0);
    RecordsEndInside(h, pack);
    ScanOfPrefix(h, pack, 0);
    PrefixOfPrefix(longer, |pack|, end);
    assert longer[..end] == pack[..end];
    hide ParseRecord, Scan, ScanEnd;
    ScanSplit(h, longer, 0, end);
  }

  lemma RecordsEndInside(h: Hasher, pack: seq<byte>)
    ensures ScanEnd(h, pack, 0) <= |pack|
  {
  }

  lemma WithinGrows(e: Env, s: State, s': State, id: Digest, limit: nat)
    requires s.commits != [] && s'.commits != [] && Grows(e, s, s') && Within(e, s, id, limit)
    ensures Within(e, s', id, limit)
  {
    ScanGrows(e.h, s.Pack(), s'.Pack());
    hide Scan, Located, CompletePart, Settled;
  }

  /** A catalog that lost no row and whose checkpoint did not move back locates what it located. */
  lemma LocatedGrows(e: Env, pack: seq<byte>, longer: seq<byte>, cat: Catalog, newer: Catalog, id: Digest)
    requires pack <= longer && Verified(e, cat) <= Verified(e, newer)
    requires forall other | other in cat.rows :: other in newer.rows && newer.rows[other] == cat.rows[other]
    requires Located(e, pack, cat, id)
    ensures Located(e, longer, newer, id)
  {
    ScanGrows(e.h, pack, longer);
    hide Scan;
    if id !in cat.rows {
      var i: nat :| i < |Scan(e.h, pack, 0)| && Scan(e.h, pack, 0)[i].id == id
                    && Scan(e.h, pack, 0)[i].End() <= Verified(e, cat) && RowsReach(cat.rows, Scan(e.h, pack, 0)[i].End());
      assert Scan(e.h, longer, 0)[i] == Scan(e.h, pack, 0)[i];
    }
  }

  lemma AllLocatedGrow(e: Env, pack: seq<byte>, longer: seq<byte>, cat: Catalog, newer: Catalog)
    requires pack <= longer && Verified(e, cat) <= Verified(e, newer)
    requires forall other | other in cat.rows :: other in newer.rows && newer.rows[other] == cat.rows[other]
    ensures forall id | Located(e, pack, cat, id) :: Located(e, longer, newer, id)
  {
    forall id | Located(e, pack, cat, id)
      ensures Located(e, longer, newer, id)
    {
      LocatedGrows(e, pack, longer, cat, newer, id);
    }
  }

  lemma NamedInExtension(e: Env, pack: seq<byte>, longer: seq<byte>, cat: Catalog)
    requires CatalogNamed(e, pack, cat) && pack <= longer
    ensures CatalogNamed(e, longer, cat)
  {
    hide Names, Counts;
    NamedInLonger(e, pack, longer, cat.rows);
    if e.name in cat.checkpoints {
      CountsInLonger(e.h, pack, longer, cat.checkpoints[e.name]);
    }
  }

  /** The frames of a log are the first frames of any extension of its complete part. */
  lemma FramesExtend(e: Env, bytes: seq<byte>, more: seq<byte>)
    requires CompletePart(e, bytes) <= more
    ensures Frames(e, bytes) <= Frames(e, more)
    ensures forall i | 0 <= i < |Frames(e, more)| ::
              i < |Frames(e, bytes)| <==> Frames(e, more)[i].end <= Refs.FramesEnd(e.reader, bytes)
    ensures Refs.FramesEnd(e.reader, bytes) <= Refs.FramesEnd(e.reader, more)
  {
    hide Refs.FrameAt, Refs.Chain, Refs.ChainEnd;
    var end := Refs.FramesEnd(e.reader, bytes);
    assert more[..end] == bytes[..end];
    Refs.ChainInOther(e.reader, bytes, more, 0, ZeroDigest(), 1);
    Refs.ChainEndsAt(e.reader, bytes, 0, ZeroDigest(), 1);
    var was, grown := Frames(e, bytes), Frames(e, more);
    if was != [] {
      Refs.FramesOrdered(e.reader, more, |was| - 1, |was| - 1);
    }
    forall i | 0 <= i < |grown|
      ensures i < |was| <==> grown[i].end <= end
    {
      if i < |was| {
        Refs.FramesOrdered(e.reader, bytes, i, i);
      } else {
        Refs.ChainAt(e.reader, more, 0, ZeroDigest(), 1, |was|);
        Refs.FramesOrdered(e.reader, more, |was|, i);
        Refs.FramesOrdered(e.reader, more, |was|, |was|);
      }
    }
  }

  /** A frame boundary lies inside the complete part of a log, and stays one when that part is extended. */
  lemma BoundaryExtends(e: Env, bytes: seq<byte>, more: seq<byte>, at: nat)
    requires CompletePart(e, bytes) <= more && FrameBoundary(e, bytes, at)
    ensures at <= Refs.FramesEnd(e.reader, bytes) && FrameBoundary(e, more, at)
  {
    hide Refs.Chain, Refs.ChainEnd, Refs.FrameAt;
    var part, end := bytes[..at], Refs.FramesEnd(e.reader, bytes);
    Refs.FramesOfCut(e.reader, part);
    assert CompletePart(e, part) == part;
    FramesExtend(e, part, bytes);
    PrefixOfPrefix(bytes, end, at);
    PrefixOfPrefix(more, end, at);
    assert more[..end] == bytes[..end];
  }

  lemma FrontierGrows(e: Env, s: State, s': State, f: Frontier, packSynced: bool, refsSynced: bool)
    requires s.commits != [] && s'.commits != [] && Grows(e, s, s')
    requires FrontierOk(e, s, f, packSynced, refsSynced)
    ensures FrontierOk(e, s', f, packSynced, refsSynced)
  {
    hide ParseRecord, Scan, ScanEnd, Refs.Frames, Refs.FramesEnd, FrameBoundary, CompletePart, PackCovered, Within, Located;
    PackCoveredGrows(e, s, s', f, packSynced);
    forall w | w in f.refs && 0 < f.refs[w]
      ensures && w in s'.logs
              && FrameBoundary(e, s'.logs[w].bytes, f.refs[w])
              && (refsSynced ==> f.refs[w] <= s'.logs[w].synced)
              && FramesBacked(e, s', s'.logs[w].bytes, f.refs[w], f.Pack(e.name))
    {
      var bytes, more := s.logs[w].bytes, s'.logs[w].bytes;
      FramesExtend(e, bytes, more);
      BoundaryExtends(e, bytes, more, f.refs[w]);
      forall i | 0 <= i < |Frames(e, more)| && Frames(e, more)[i].end <= f.refs[w]
        ensures Within(e, s', Frames(e, more)[i].record.snapshot, f.Pack(e.name))
      {
        assert Frames(e, bytes)[i] == Frames(e, more)[i];
        WithinGrows(e, s, s', Frames(e, bytes)[i].record.snapshot, f.Pack(e.name));
      }
    }
  }

  lemma PackCoveredGrows(e: Env, s: State, s': State, f: Frontier, packSynced: bool)
    requires s.Pack() <= s'.Pack() && s.packSynced <= s'.packSynced && PackCovered(e, s, f, packSynced)
    ensures PackCovered(e, s', f, packSynced)
  {
    hide ParseRecord, Scan, ScanEnd;
    BoundaryShared(e.h, s.Pack(), s'.Pack(), |s.Pack()|, f.Pack(e.name));
  }

  lemma GroupGrows(e: Env, s: State, s': State)
    requires s.commits != [] && s'.commits != [] && Grows(e, s, s') && s'.group == s.group
    requires GroupOk(e, s)
    ensures GroupOk(e, s')
  {
    hide FrontierOk, Refs.FramesEnd, FrameBoundary, CompletePart;
    match s.group
    case Idle =>
    case RefsSampled(refs) =>
      forall w | w in refs
        ensures w in s'.logs && FrameBoundary(e, s'.logs[w].bytes, refs[w])
      {
        BoundaryExtends(e, s.logs[w].bytes, s'.logs[w].bytes, refs[w]);
      }
    case PacksSampled(f) => FrontierGrows(e, s, s', f, false, false);
    case PacksSynced(f) => FrontierGrows(e, s, s', f, true, false);
    case RefsSynced(f) => FrontierGrows(e, s, s', f, true, true);
  }

  /** The invariant about references, for a step that only adds and leaves the group commit alone. */
  lemma RefsGrow(e: Env, s: State, s': State)
    requires s.commits != [] && s'.commits != [] && RefsOk(e, s) && Grows(e, s, s')
    requires s'.group == s.group && s'.visible == s.visible && s'.stable == s.stable
    requires forall w | w in s'.logs :: LogOk(e, s', w, s'.logs[w])
    requires AllClean(e, s) ==> AllClean(e, s')
    ensures RefsOk(e, s')
  {
    hide FrontierOk, GroupOk, Refs.FramesEnd, Refs.Frames, AllClean, CompletePart;
    GroupGrows(e, s, s');
    if s.visible.Some? {
      FrontierGrows(e, s, s', s.visible.value, true, true);
    }
    if s.stable.Some? {
      FrontierGrows(e, s, s', s.stable.value, true, true);
    }
  }

  lemma LogsKept(e: Env, s: State, s': State)
    requires s.commits != [] && s'.commits != [] && RefsOk(e, s) && Grows(e, s, s') && s'.logs == s.logs
    requires s'.group == s.group && s'.visible == s.visible && s'.stable == s.stable
    ensures RefsOk(e, s')
  {
    hide FrontierOk, GroupOk, Refs.FramesEnd, Refs.Frames, LogIntact, CompletePart, Grows;
    forall w | w in s'.logs
      ensures LogOk(e, s', w, s'.logs[w])
    {
      LogKept(e, s, s', w, s.logs[w]);
    }
    RefsGrow(e, s, s');
  }

  // ---- appending an object ----

  lemma NamedInLonger(e: Env, pack: seq<byte>, longer: seq<byte>, rows: map<Digest, Row>)
    requires RowsNamed(e, pack, rows) && pack <= longer
    ensures RowsNamed(e, longer, rows)
  {
    hide ParseRecord, ScanEnd;
    forall id | id in rows
      ensures Names(e.h, longer, id, rows[id])
    {
      PrefixOfPrefix(longer, |pack|, rows[id].End());
      NamesIsLocal(e.h, pack, longer, id, rows[id]);
    }
  }

  lemma CountsInLonger(h: Hasher, pack: seq<byte>, longer: seq<byte>, c: Checkpoint)
    requires Counts(h, pack, c) && pack <= longer
    ensures Counts(h, longer, c)
  {
    hide Scan, ScanEnd;
    PrefixOfPrefix(longer, |pack|, c.verifiedLen);
    assert longer[..|pack|] == pack;
  }

  /** A child with a row is available to every earlier catalog. */
  lemma ChildAvailable(e: Env, pack: seq<byte>, rows: map<Digest, Row>, v: nat, view: map<Digest, Row>, id: Digest)
    requires Boundary(e.h, pack, v) && ScanEnd(e.h, pack, 0) == |pack| && RowsNamed(e, pack, view)
    requires id in view && (view[id].End() <= v ==> id in rows && rows[id] == view[id])
    ensures Available(e, pack, rows, v, |pack|, id)
  {
    StartIsBoundary(e.h, pack);
    hide ParseRecord, Scan, ScanEnd, Boundary;
    var row := view[id];
    if v < row.End() {
      BoundarySeparates(e.h, pack, v, row.offset - HEADER_LEN);
      var i := NamedIsScanned(e.h, pack, 0, id, row);
    }
  }

  /** The records of a pack with one more appended, and the objects they hold. */
  lemma AppendShape(e: Env, pack: seq<byte>, obj: Obj)
    requires ScanEnd(e.h, pack, 0) == |pack| && obj.Fits()
    ensures var longer := pack + EncodeRecord(e.h, obj);
            var locs := Scan(e.h, pack, 0);
            var loc := NewLoc(e.h, pack, obj);
            && ScanEnd(e.h, longer, 0) == |longer|
            && Scan(e.h, longer, 0) == locs + [loc]
            && loc.End() == |longer| && ObjAt(longer, loc) == obj
            && forall i | 0 <= i < |locs| :: locs[i].End() <= |pack| && ObjAt(longer, locs[i]) == ObjAt(pack, locs[i])
  {
    hide ParseRecord, ScanEnd, Scan, EncodeRecord, ObjAt;
    var longer := pack + EncodeRecord(e.h, obj);
    ScanAppend(e.h, pack, 0, obj);
    ParseEncoded(e.h, pack, obj, []);
    assert pack + EncodeRecord(e.h, obj) + [] == longer;
    forall i | 0 <= i < |Scan(e.h, pack, 0)|
      ensures Scan(e.h, pack, 0)[i].End() <= |pack|
      ensures ObjAt(longer, Scan(e.h, pack, 0)[i]) == ObjAt(pack, Scan(e.h, pack, 0)[i])
    {
      ScanElements(e.h, pack, 0, i);
      ObjInLonger(pack, longer, Scan(e.h, pack, 0)[i]);
    }
  }

  lemma ObjInLonger(pack: seq<byte>, longer: seq<byte>, loc: Loc)
    requires pack <= longer && loc.End() <= |pack|
    ensures ObjAt(longer, loc) == ObjAt(pack, loc)
  {
    assert longer[..|pack|] == pack;
    SliceOfPrefix(longer, |pack|, loc.Payload(), loc.Payload() + loc.len);
  }

  lemma CoveredAppend(e: Env, pack: seq<byte>, rows: map<Digest, Row>, v: nat, obj: Obj)
    requires Covered(e, pack, rows, v) && ScanEnd(e.h, pack, 0) == |pack| && obj.Fits()
    requires forall edge | edge in e.edges(obj) :: Available(e, pack, rows, v, |pack|, edge.id)
    ensures Covered(e, pack + EncodeRecord(e.h, obj), rows, v)
  {
    hide ParseRecord, Scan, ScanEnd, EncodeRecord, Covered, ObjAt, Available;
    var longer := pack + EncodeRecord(e.h, obj);
    AppendShape(e, pack, obj);
    var locs := Scan(e.h, pack, 0);
    forall i, edge | 0 <= i < |Scan(e.h, longer, 0)| && v <= Scan(e.h, longer, 0)[i].start
                     && Scan(e.h, longer, 0)[i].End() <= |longer|
                     && edge in e.edges(ObjAt(longer, Scan(e.h, longer, 0)[i]))
      ensures Available(e, longer, rows, v, Scan(e.h, longer, 0)[i].start, edge.id)
    {
      if i < |locs| {
        assert Scan(e.h, longer, 0)[i] == locs[i];
        CoveredAt(e, pack, rows, v, i, edge);
        AvailableInLonger(e, pack, longer, rows, v, locs[i].start, edge.id);
      } else {
        AvailableInLonger(e, pack, longer, rows, v, |pack|, edge.id);
      }
    }
    CoveredIntro(e, longer, rows, v);
  }

  lemma CoveredIntro(e: Env, pack: seq<byte>, rows: map<Digest, Row>, v: nat)
    requires forall i, edge | 0 <= i < |Scan(e.h, pack, 0)| && v <= Scan(e.h, pack, 0)[i].start
                              && Scan(e.h, pack, 0)[i].End() <= |pack|
                              && edge in e.edges(ObjAt(pack, Scan(e.h, pack, 0)[i])) ::
               Available(e, pack, rows, v, Scan(e.h, pack, 0)[i].start, edge.id)
    ensures Covered(e, pack, rows, v)
  {
  }

  lemma AvailableInLonger(
    e: Env, pack: seq<byte>, longer: seq<byte>, rows: map<Digest, Row>, v: nat, before: nat, id: Digest)
    requires Scan(e.h, pack, 0) <= Scan(e.h, longer, 0)
    requires Available(e, pack, rows, v, before, id)
    ensures Available(e, longer, rows, v, before, id)
  {
    hide Scan;
    if !(id in rows && rows[id].End() <= v) {
      var j :| 0 <= j < |Scan(e.h, pack, 0)| && Scan(e.h, pack, 0)[j].id == id
               && v <= Scan(e.h, pack, 0)[j].start && Scan(e.h, pack, 0)[j].End() <= before;
      assert Scan(e.h, longer, 0)[j] == Scan(e.h, pack, 0)[j];
    }
  }

  lemma VerifiedIsBoundary(e: Env, pack: seq<byte>, cat: Catalog)
    requires CatalogNamed(e, pack, cat)
    ensures Boundary(e.h, pack, Verified(e, cat))
  {
    StartIsBoundary(e.h, pack);
    hide Boundary, Scan, Names;
  }

  /** A catalog stays sound when an object it has no row for is appended. */
  lemma CatalogAfterAppend(e: Env, s: State, cat: Catalog, obj: Obj)
    requires PackOk(e, s) && CatalogOk(e, s.Pack(), cat, s.objects) && RowsNamed(e, s.Pack(), s.View().rows)
    requires Extends(e, cat, s.View()) && obj.Fits() && obj.Id(e.h) !in s.View().rows
    requires forall edge | edge in e.edges(obj) :: edge.id in s.View().rows
    ensures CatalogOk(e, s.Pack() + EncodeRecord(e.h, obj), cat, s.objects[obj.Id(e.h) := obj])
  {
    var pack := s.Pack();
    var longer := pack + EncodeRecord(e.h, obj);
    var v := Verified(e, cat);
    StartIsBoundary(e.h, pack);
    VerifiedIsBoundary(e, pack, cat);
    hide ParseRecord, Scan, ScanEnd, EncodeRecord, Covered, RecordsKnown, ObjectsClosed, CatalogNamed, RunOk, Located, Names,
         Boundary;
    NamedInExtension(e, pack, longer, cat);
    AllLocatedGrow(e, pack, longer, cat, cat);
    forall edge | edge in e.edges(obj)
      ensures Available(e, pack, cat.rows, v, |pack|, edge.id)
    {
      ChildAvailable(e, pack, cat.rows, v, s.View().rows, edge.id);
    }
    CoveredAppend(e, pack, cat.rows, v, obj);
  }

  /** The catalog with the new row. */
  lemma ViewAfterAppend(e: Env, s: State, obj: Obj)
    requires PackOk(e, s) && CatalogOk(e, s.Pack(), s.View(), s.objects)
    requires obj.Fits() && obj.Id(e.h) !in s.View().rows
    requires forall edge | edge in e.edges(obj) :: edge.id in s.View().rows
    ensures var s' := Put(e.h, e.name, s.session, obj);
            CatalogOk(e, s'.pack, s'.cat, s.objects[obj.Id(e.h) := obj])
  {
    var s' := Put(e.h, e.name, s.session, obj);
    assert Extends(e, s.View(), s.View());
    assert ScanEnd(e.h, s.Pack(), 0) == |s.Pack()|;
    hide ParseRecord, Scan, ScanEnd, EncodeRecord, Names, Counts, PackOk, Covered, Extends;
    CatalogAfterAppend(e, s, s.View(), obj);
    NewRowNamed(e, s.Pack(), obj);
    hide Obj.Id;
    CatalogWithRow(e, s'.pack, s.View(), s.objects[obj.Id(e.h) := obj], obj.Id(e.h),
                   RowOf(e.name, NewLoc(e.h, s.Pack(), obj)));
  }

  /** A sound catalog with one more named row whose object's children it has. */
  lemma CatalogWithRow(e: Env, pack: seq<byte>, cat: Catalog, objects: map<Digest, Obj>, id: Digest, row: Row)
    requires CatalogOk(e, pack, cat, objects) && id !in cat.rows
    requires row.pack == e.name && Names(e.h, pack, id, row)
    requires id in objects && forall edge | edge in e.edges(objects[id]) :: edge.id in cat.rows
    ensures CatalogOk(e, pack, cat.(rows := cat.rows[id := row]), objects)
  {
    hide Names, Counts, Covered, Located;
    CoveredMonotone(e, pack, cat.rows, cat.rows[id := row], Verified(e, cat));
    AllLocatedGrow(e, pack, pack, cat, cat.(rows := cat.rows[id := row]));
    RowsAreLocated(e, pack, cat);
  }

  lemma RowsAreLocated(e: Env, pack: seq<byte>, cat: Catalog)
    ensures forall id | id in cat.rows :: Located(e, pack, cat, id)
  {
  }

  lemma NewRowNamed(e: Env, pack: seq<byte>, obj: Obj)
    requires ScanEnd(e.h, pack, 0) == |pack| && obj.Fits()
    ensures Names(e.h, pack + EncodeRecord(e.h, obj), obj.Id(e.h), RowOf(e.name, NewLoc(e.h, pack, obj)))
  {
    var longer := pack + EncodeRecord(e.h, obj);
    AppendShape(e, pack, obj);
    StartIsBoundary(e.h, longer);
    hide ParseRecord, Scan, ScanEnd, EncodeRecord, Names, Boundary;
    ScannedNames(e.h, longer, 0, |Scan(e.h, pack, 0)|, e.name);
  }

  /** The new row lies past every checkpoint. */
  lemma ExtendsAfterAppend(e: Env, s: State, older: Catalog, obj: Obj)
    requires Extends(e, older, s.View()) && Verified(e, older) <= |s.Pack()|
    requires obj.Id(e.h) !in s.View().rows
    ensures Extends(e, older, Put(e.h, e.name, s.session, obj).cat)
  {
    hide EncodeRecord;
  }

  lemma CoveredMonotone(e: Env, pack: seq<byte>, rows: map<Digest, Row>, more: map<Digest, Row>, v: nat)
    requires Covered(e, pack, rows, v)
    requires forall id | id in rows :: id in more && more[id] == rows[id]
    ensures Covered(e, pack, more, v)
  {
    hide Scan;
    forall i, edge | 0 <= i < |Scan(e.h, pack, 0)| && v <= Scan(e.h, pack, 0)[i].start
                     && Scan(e.h, pack, 0)[i].End() <= |pack|
                     && edge in e.edges(ObjAt(pack, Scan(e.h, pack, 0)[i]))
      ensures Available(e, pack, more, v, Scan(e.h, pack, 0)[i].start, edge.id)
    {
      assert Available(e, pack, rows, v, Scan(e.h, pack, 0)[i].start, edge.id);
    }
  }

  lemma PackAfterAppend(e: Env, s: State, obj: Obj)
    requires PackOk(e, s) && RowsNamed(e, s.Pack(), s.View().rows)
    requires obj.Fits() && obj.Id(e.h) !in s.View().rows
    requires obj.Id(e.h) in s.objects ==> s.objects[obj.Id(e.h)] == obj
    requires forall edge | edge in e.edges(obj) ::
               edge.id in s.View().rows && s.View().rows[edge.id].kind == edge.kind
    ensures PackOk(e, s.(session := Put(e.h, e.name, s.session, obj), objects := s.objects[obj.Id(e.h) := obj]))
  {
    var s' := s.(session := Put(e.h, e.name, s.session, obj), objects := s.objects[obj.Id(e.h) := obj]);
    var pack, longer := s.Pack(), s'.Pack();
    AppendShape(e, pack, obj);
    StartIsBoundary(e.h, pack);
    RunAfterAppend(e, s, obj);
    hide ParseRecord, Scan, ScanEnd, EncodeRecord, RunOk, Covered, Boundary, Names, Available, ObjAt;
    forall edge | edge in e.edges(obj)
      ensures Available(e, pack, map[], 0, |pack|, edge.id)
      ensures edge.id in s.objects && s.objects[edge.id].kind == edge.kind
    {
      NameIsNonempty(e.h, pack, edge.id, s.View().rows[edge.id]);
      ChildAvailable(e, pack, map[], 0, s.View().rows, edge.id);
      RowIsObject(e, pack, s.View().rows, s.objects, edge.id);
    }
    CoveredAppend(e, pack, map[], 0, obj);
    KnownAfterAppend(e, pack, s.objects, obj);
    assert ObjectsClosed(e, s'.objects);
  }

  lemma KnownAfterAppend(e: Env, pack: seq<byte>, objects: map<Digest, Obj>, obj: Obj)
    requires ScanEnd(e.h, pack, 0) == |pack| && obj.Fits() && RecordsKnown(e, pack, objects)
    requires obj.Id(e.h) in objects ==> objects[obj.Id(e.h)] == obj
    ensures RecordsKnown(e, pack + EncodeRecord(e.h, obj), objects[obj.Id(e.h) := obj])
  {
    hide ParseRecord, Scan, ScanEnd, EncodeRecord, ObjAt;
    AppendShape(e, pack, obj);
    var longer, objects' := pack + EncodeRecord(e.h, obj), objects[obj.Id(e.h) := obj];
    forall i | 0 <= i < |Scan(e.h, longer, 0)|
      ensures var loc := Scan(e.h, longer, 0)[i];
              loc.End() <= |longer| && loc.id in objects' && ObjAt(longer, loc) == objects'[loc.id]
    {
      if i < |Scan(e.h, pack, 0)| {
        assert Scan(e.h, longer, 0)[i] == Scan(e.h, pack, 0)[i];
      }
    }
  }

  lemma RunAfterAppend(e: Env, s: State, obj: Obj)
    requires PackOk(e, s) && obj.Fits() && obj.Id(e.h) !in s.View().rows
    ensures var s' := Put(e.h, e.name, s.session, obj);
            RunOk(e, s'.pack, s'.run.value)
  {
    var pack := s.Pack();
    var s' := Put(e.h, e.name, s.session, obj);
    StartIsBoundary(e.h, pack);
    ScanEndIsBoundary(e.h, pack, 0);
    hide ParseRecord, EncodeRecord, RecordsKnown, ObjectsClosed, Covered;
    BoundaryShared(e.h, pack, s'.pack, |pack|, |pack|);
    if s.session.run.Some? {
      var start := s.session.run.value.start;
      BoundaryShared(e.h, pack, s'.pack, |pack|, start);
      ScanEndIsBoundary(e.h, pack, start);
      ScanAppend(e.h, pack, start, obj);
    } else {
      ScanAppend(e.h, pack, |pack|, obj);
    }
  }

  // ---- the invariant over each step ----

  lemma VerifiedBound(e: Env, pack: seq<byte>, cat: Catalog, objects: map<Digest, Obj>)
    requires CatalogOk(e, pack, cat, objects)
    ensures Verified(e, cat) <= |pack|
  {
  }

  lemma PutKeepsInv(e: Env, s: State, obj: Obj, s': State)
    requires Inv(e, s) && s.inBatch && obj.Fits()
    requires obj.Id(e.h) in s.objects ==> s.objects[obj.Id(e.h)] == obj
    requires forall edge | edge in e.edges(obj) ::
               edge.id in s.View().rows && s.View().rows[edge.id].kind == edge.kind
    requires s' == s.(session := Put(e.h, e.name, s.session, obj), objects := s.objects[obj.Id(e.h) := obj])
    ensures Inv(e, s') && Grows(e, s, s')
  {
    hide PackOk, CatalogsOk, RefsOk, Obj.Id, EncodeRecord, Put, OwnRows;
    assert s.commits != [] by { CommitsExist(e, s); }
    PutKeepsPack(e, s, obj, s');
    LogsKept(e, s, s');
  }

  /** Whatever a rolled back batch left, the pack and every catalog stay sound. */
  lemma PutKeepsPack(e: Env, s: State, obj: Obj, s': State)
    requires PackOk(e, s) && CatalogsOk(e, s) && s.inBatch && obj.Fits()
    requires obj.Id(e.h) in s.objects ==> s.objects[obj.Id(e.h)] == obj
    requires forall edge | edge in e.edges(obj) ::
               edge.id in s.View().rows && s.View().rows[edge.id].kind == edge.kind
    requires s' == s.(session := Put(e.h, e.name, s.session, obj), objects := s.objects[obj.Id(e.h) := obj])
    ensures PackOk(e, s') && CatalogsOk(e, s') && s.commits != [] && s'.commits != [] && Grows(e, s, s')
  {
    hide PackOk, CatalogsOk, Obj.Id, EncodeRecord;
    assert s.commits != [] by { CommitsExist(e, s); }
    PutGrows(e, s, obj, s');
    hide Put;
    if obj.Id(e.h) in s.View().rows {
      PutKnown(e, s, obj);
      assert s' == s;
    } else {
      ViewOk(e, s);
      PackAfterAppend(e, s, obj);
      PutCatalogsOk(e, s, obj, s');
    }
  }

  lemma SameLogsGrow(e: Env, s: State)
    ensures forall w | w in s.logs ::
              CompletePart(e, s.logs[w].bytes) <= s.logs[w].bytes && Settled(e, s.logs[w]) <= s.logs[w].synced
  {
  }

  lemma PutGrows(e: Env, s: State, obj: Obj, s': State)
    requires s.commits != [] && (obj.Id(e.h) in s.objects ==> s.objects[obj.Id(e.h)] == obj)
    requires s' == s.(session := Put(e.h, e.name, s.session, obj), objects := s.objects[obj.Id(e.h) := obj])
    ensures Grows(e, s, s') && s'.commits == s.commits
  {
    hide EncodeRecord, CompletePart, Settled, Located;
    SameLogsGrow(e, s);
    assert s.Pack() <= s'.Pack();
    AllLocatedGrow(e, s.Pack(), s'.Pack(), Current(s), Current(s));
  }

  /** Putting an object that has a row changes nothing. */
  lemma PutKnown(e: Env, s: State, obj: Obj)
    requires PackOk(e, s) && CatalogsOk(e, s) && obj.Id(e.h) in s.View().rows
    requires obj.Id(e.h) in s.objects ==> s.objects[obj.Id(e.h)] == obj
    ensures Put(e.h, e.name, s.session, obj) == s.session && s.objects[obj.Id(e.h) := obj] == s.objects
  {
    hide Obj.Id, ParseRecord, Scan, ScanEnd, Names, Covered, RunOk, EncodeRecord;
    PutNothing(e, s, obj);
    ViewOk(e, s);
    PackKnown(e, s);
    RowIsObject(e, s.Pack(), s.View().rows, s.objects, obj.Id(e.h));
  }

  lemma ViewOk(e: Env, s: State)
    requires CatalogsOk(e, s)
    ensures CatalogOk(e, s.Pack(), s.View(), s.objects)
    ensures RowsNamed(e, s.Pack(), s.View().rows)
  {
    hide Names, Covered, Extends;
  }

  lemma PutCatalogsOk(e: Env, s: State, obj: Obj, s': State)
    requires PackOk(e, s) && CatalogsOk(e, s) && s.inBatch && obj.Fits() && obj.Id(e.h) !in s.View().rows
    requires forall edge | edge in e.edges(obj) :: edge.id in s.View().rows
    requires s' == s.(session := Put(e.h, e.name, s.session, obj), objects := s.objects[obj.Id(e.h) := obj])
    ensures CatalogsOk(e, s')
  {
    hide PackOk, CatalogOk, Extends, Obj.Id, Put;
    ViewAfterAppend(e, s, obj);
    forall i | 0 <= i < |s.commits|
      ensures CatalogOk(e, s'.Pack(), s.commits[i], s'.objects)
      ensures Extends(e, s.commits[i], s'.View())
    {
      PutCatalogs(e, s, s.commits[i], obj);
    }
  }

  lemma PutNothing(e: Env, s: State, obj: Obj)
    requires obj.Id(e.h) in s.View().rows
    ensures Put(e.h, e.name, s.session, obj) == s.session
  {
  }

  lemma PackKnown(e: Env, s: State)
    requires PackOk(e, s)
    ensures RecordsKnown(e, s.Pack(), s.objects)
  {
  }

  lemma PutCatalogs(e: Env, s: State, cat: Catalog, obj: Obj)
    requires PackOk(e, s) && CatalogOk(e, s.Pack(), cat, s.objects) && CatalogOk(e, s.Pack(), s.View(), s.objects)
    requires Extends(e, cat, s.View()) && obj.Fits() && obj.Id(e.h) !in s.View().rows
    requires forall edge | edge in e.edges(obj) :: edge.id in s.View().rows
    ensures CatalogOk(e, Put(e.h, e.name, s.session, obj).pack, cat, s.objects[obj.Id(e.h) := obj])
    ensures Extends(e, cat, Put(e.h, e.name, s.session, obj).cat)
  {
    hide ParseRecord, Scan, ScanEnd, EncodeRecord, Covered, Counts, PackOk, Extends;
    CatalogAfterAppend(e, s, cat, obj);
    VerifiedBound(e, s.Pack(), cat, s.objects);
    ExtendsAfterAppend(e, s, cat, obj);
  }

  /** The advanced checkpoint counts the records of the whole pack. */
  lemma AdvanceCounts(e: Env, s: State)
    requires PackOk(e, s) && CatalogOk(e, s.Pack(), s.View(), s.objects) && s.session.run.Some?
    ensures var s' := Advance(e.name, s.session);
            && CatalogOk(e, s.Pack(), s'.cat, s.objects)
            && s'.cat.rows == s.View().rows && Verified(e, s.View()) <= Verified(e, s'.cat)
            && s'.pack == s.Pack() && s'.run == None
  {
    var run := s.session.run.value;
    var s' := Advance(e.name, s.session);
    var checkpoint := if e.name in s.View().checkpoints then s.View().checkpoints[e.name] else EMPTY_CHECKPOINT;
    hide ParseRecord, Scan, ScanEnd, RecordsKnown, ObjectsClosed, RowsNamed, Located, Covered;
    if checkpoint.verifiedLen == run.start {
      EmptyCounts(e.h, s.Pack());
      ExtendedCounts(e, s.Pack(), checkpoint, run);
      CoveredAtEnd(e, s.Pack(), s.View().rows, |s.Pack()|);
      AllLocatedGrow(e, s.Pack(), s.Pack(), s.View(), s'.cat);
    }
  }

  lemma EmptyCounts(h: Hasher, pack: seq<byte>)
    ensures Counts(h, pack, EMPTY_CHECKPOINT)
  {
    assert pack[..0] == [];
  }

  lemma ExtendedCounts(e: Env, pack: seq<byte>, c: Checkpoint, run: AppendRun)
    requires ScanEnd(e.h, pack, 0) == |pack| && Counts(e.h, pack, c) && RunOk(e, pack, run)
    requires c.verifiedLen == run.start
    ensures Counts(e.h, pack, Extend(run, c).value)
  {
    hide ParseRecord, Scan, ScanEnd;
    ScanSplit(e.h, pack, 0, run.start);
    assert pack[..|pack|] == pack;
  }

  lemma AdvanceKeepsInv(e: Env, s: State, s': State)
    requires Inv(e, s) && s.inBatch && s' == s.(session := Advance(e.name, s.session))
    ensures Inv(e, s') && Grows(e, s, s')
  {
    hide PackOk, CatalogsOk, RefsOk, OwnRows;
    AdvanceKeepsPack(e, s, s');
    LogsKept(e, s, s');
  }

  lemma AdvanceKeepsPack(e: Env, s: State, s': State)
    requires PackOk(e, s) && CatalogsOk(e, s) && s.inBatch && s' == s.(session := Advance(e.name, s.session))
    ensures PackOk(e, s') && CatalogsOk(e, s') && s.commits != [] && s'.commits != [] && Grows(e, s, s')
  {
    SameLogsGrow(e, s);
    hide CompletePart, Settled;
    if s.session.run.Some? {
      hide CatalogsOk, RefsOk, CatalogOk, Advance, RecordsKnown, ObjectsClosed, Covered, RunOk, ScanEnd;
      ViewOk(e, s);
      AdvanceCounts(e, s);
      CommitsExist(e, s);
      AdvanceCatalogsOk(e, s, s');
      hide Located;
    }
  }

  lemma AdvanceCatalogsOk(e: Env, s: State, s': State)
    requires CatalogsOk(e, s) && s.inBatch
    requires s' == s.(session := s'.session) && s'.Pack() == s.Pack() && s'.View().rows == s.View().rows
    requires Verified(e, s.View()) <= Verified(e, s'.View())
    requires CatalogOk(e, s'.Pack(), s'.View(), s'.objects)
    ensures CatalogsOk(e, s')
  {
    hide CatalogOk;
    forall i | 0 <= i < |s.commits|
      ensures Extends(e, s.commits[i], s'.View())
    {
      assert Extends(e, s.commits[i], s.View());
    }
  }

  /** Commit, rollback and the flushes: the pack and its catalogs stay what they were. */
  lemma BatchKeepsInv(e: Env, s: State, s': State)
    requires Inv(e, s)
    requires || s' == s.(inBatch := true)
             || (s.inBatch && s' == s.(commits := s.commits + [s.View()], inBatch := false))
             || (s.inBatch && s' == s.(session := s.session.(cat := Current(s)), inBatch := false))
             || s' == s.(packSynced := |s.Pack()|)
    ensures Inv(e, s') && Grows(e, s, s')
  {
    hide PackOk, CatalogsOk, RefsOk, OwnRows;
    BatchKeepsPack(e, s, s');
    LogsKept(e, s, s');
  }

  lemma BatchKeepsPack(e: Env, s: State, s': State)
    requires PackOk(e, s) && CatalogsOk(e, s)
    requires || s' == s.(inBatch := true)
             || (s.inBatch && s' == s.(commits := s.commits + [s.View()], inBatch := false))
             || (s.inBatch && s' == s.(session := s.session.(cat := Current(s)), inBatch := false))
             || s' == s.(packSynced := |s.Pack()|)
    ensures PackOk(e, s') && CatalogsOk(e, s') && s.commits != [] && s'.commits != [] && Grows(e, s, s')
  {
    hide ParseRecord, Scan, ScanEnd, CatalogOk, RecordsKnown, ObjectsClosed, Covered, RunOk, CompletePart, Settled, Located;
    SameLogsGrow(e, s);
    assert Extends(e, Current(s), s.View());
    AllLocatedGrow(e, s.Pack(), s.Pack(), Current(s), s.View());
    CatalogsAfterBatch(e, s, s');
  }

  lemma CatalogsAfterBatch(e: Env, s: State, s': State)
    requires CatalogsOk(e, s) && s'.Pack() == s.Pack() && s'.objects == s.objects
    requires
      || (s'.View() == s.View() && s'.commits == s.commits && (s'.inBatch || s'.inBatch == s.inBatch))
      || (s'.View() == s.View() && s'.commits == s.commits + [s.View()])
      || (s'.View() == Current(s) && s'.commits == s.commits)
    ensures CatalogsOk(e, s')
  {
    hide CatalogOk, Extends;
    assert Extends(e, s.View(), s.View()) by { ExtendsItself(e, s.View()); }
    forall i | 0 <= i < |s'.commits|
      ensures CatalogOk(e, s'.Pack(), s'.commits[i], s'.objects)
      ensures Extends(e, s'.commits[i], Current(s')) && Extends(e, s'.commits[i], s'.View())
    {
      if i < |s.commits| {
        assert s'.commits[i] == s.commits[i];
      }
    }
  }

  lemma ExtendsItself(e: Env, cat: Catalog)
    ensures Extends(e, cat, cat)
  {
  }

  /** Steps that touch neither the pack nor the catalog. */
  lemma PackPartKept(e: Env, s: State, s': State)
    requires PackOk(e, s) && CatalogsOk(e, s)
    requires s'.session == s.session && s'.commits == s.commits && s'.inBatch == s.inBatch && s'.objects == s.objects
    requires s'.packSynced == s.packSynced || s'.packSynced == |s.Pack()|
    ensures PackOk(e, s') && CatalogsOk(e, s')
  {
    hide ParseRecord, Scan, ScanEnd, CatalogOk, RecordsKnown, ObjectsClosed, Covered, RunOk, Extends;
  }

  /** A published frame continues its log, past whatever a crash left torn, and names a committed snapshot. */
  lemma PublishKeepsInv(e: Env, s: State, w: string, record: Refs.RefRecord, s': State)
    requires e.reader.codec.Lossless()
    requires Inv(e, s) && Continues(e, LogOf(s, w).bytes, record)
    requires record.snapshot in Current(s).rows && Current(s).rows[record.snapshot].kind == Snapshot
    requires s' == s.(logs := s.logs[w := Appended(e, LogOf(s, w), record)])
    ensures Inv(e, s') && Grows(e, s, s')
  {
    hide ParseRecord, Scan, ScanEnd, CatalogsOk, PackOk, FrontierOk, GroupOk, Refs.Chain, Refs.ChainEnd, Refs.EncodeFrame,
         Appended, LogIntact, OwnRows, Grows, LogOk;
    assert s.commits != [] by { CommitsExist(e, s); }
    PackPartKept(e, s, s');
    AppendGrows(e, s, w, record, s');
    CommittedKind(e, s, record.snapshot);
    LogAfterPublish(e, s, w, record, s');
    forall x | x in s'.logs
      ensures LogOk(e, s', x, s'.logs[x])
    {
      if x != w {
        LogKept(e, s, s', x, s.logs[x]);
      }
    }
    AppendedFrames(e, LogOf(s, w), record);
    RefsGrow(e, s, s');
  }

  /** A row's kind is its object's. */
  lemma CommittedKind(e: Env, s: State, id: Digest)
    requires PackOk(e, s) && CatalogsOk(e, s) && s.commits != [] && id in Current(s).rows
    ensures id in s.objects && s.objects[id].kind == Current(s).rows[id].kind
  {
    RowsAreNamed(e, s);
    PackKnown(e, s);
    hide PackOk, CatalogsOk, RecordsKnown, Names;
    RowIsObject(e, s.Pack(), Current(s).rows, s.objects, id);
  }

  lemma AppendedFrames(e: Env, log: Log, record: Refs.RefRecord)
    requires e.reader.codec.Lossless() && Continues(e, log.bytes, record)
    ensures var bytes := Appended(e, log, record).bytes;
            && Refs.FramesEnd(e.reader, bytes) == |bytes| && |bytes| >= Refs.FramesEnd(e.reader, log.bytes)
            && |Frames(e, bytes)| == |Frames(e, log.bytes)| + 1
            && Frames(e, log.bytes) <= Frames(e, bytes)
            && Frames(e, bytes)[|Frames(e, log.bytes)|].record == record
  {
    hide Refs.Chain, Refs.ChainEnd, Refs.EncodeFrame;
    Refs.FramesOfCut(e.reader, log.bytes);
    Refs.ChainAppend(e.reader, CompletePart(e, log.bytes), 0, ZeroDigest(), 1, record);
  }

  lemma AppendGrows(e: Env, s: State, w: string, record: Refs.RefRecord, s': State)
    requires s.commits != [] && s' == s.(logs := s.logs[w := Appended(e, LogOf(s, w), record)])
    ensures Grows(e, s, s')
  {
    hide Refs.EncodeFrame, Refs.FramesEnd, Located;
  }

  lemma LogKept(e: Env, s: State, s': State, w: string, log: Log)
    requires s.commits != [] && s'.commits != [] && Grows(e, s, s') && LogOk(e, s, w, log)
    requires s'.group == s.group && s'.visible == s.visible && s'.stable == s.stable
    ensures LogOk(e, s', w, log)
  {
    hide Refs.Frames, Refs.FramesEnd, LogIntact, Located, CompletePart, Settled;
    forall i | 0 <= i < |Frames(e, log.bytes)|
      ensures Published(e, s', w, Frames(e, log.bytes)[i])
    {
      assert Published(e, s, w, Frames(e, log.bytes)[i]);
    }
  }

  lemma LogAfterPublish(e: Env, s: State, w: string, record: Refs.RefRecord, s': State)
    requires e.reader.codec.Lossless() && s.commits != [] && s'.commits == s.commits
    requires s'.session == s.session && s'.objects == s.objects
    requires s'.group == s.group && s'.visible == s.visible && s'.stable == s.stable
    requires w in s.logs ==> LogOk(e, s, w, s.logs[w])
    requires Continues(e, LogOf(s, w).bytes, record)
    requires record.snapshot in Current(s).rows
    requires record.snapshot in s.objects && s.objects[record.snapshot].kind == Snapshot
    ensures LogOk(e, s', w, Appended(e, LogOf(s, w), record))
  {
    var log := LogOf(s, w);
    hide Refs.Chain, Refs.ChainEnd, Refs.EncodeFrame;
    RefLog.EmptyLog(e.reader);
    AppendedFrames(e, log, record);
    var frames := Frames(e, log.bytes);
    var bytes := Appended(e, log, record).bytes;
    forall i | 0 <= i < |Frames(e, bytes)|
      ensures Published(e, s', w, Frames(e, bytes)[i])
    {
      if i < |frames| {
        assert Frames(e, bytes)[i] == frames[i];
        assert w in s.logs;
        assert Published(e, s, w, frames[i]);
      }
    }
  }

  /** One log is trimmed or its synced length moves; its frames stay. */
  ghost predicate LogMoved(e: Env, log: Log, log': Log) {
    || log' == Log(log.bytes, |log.bytes|)
    || log' == Trimmed(e, log)
  }

  lemma MovedFrames(e: Env, log: Log, log': Log)
    requires LogMoved(e, log, log') && LogIntact(e, log)
    ensures LogIntact(e, log') && Frames(e, log'.bytes) == Frames(e, log.bytes)
    ensures Refs.FramesEnd(e.reader, log'.bytes) == Refs.FramesEnd(e.reader, log.bytes)
    ensures Refs.FramesEnd(e.reader, log.bytes) == |log.bytes| ==> Refs.FramesEnd(e.reader, log'.bytes) == |log'.bytes|
    ensures CompletePart(e, log.bytes) <= log'.bytes && Settled(e, log) <= log'.synced
  {
    hide Refs.Chain, Refs.ChainEnd, Refs.FrameAt;
    Refs.FramesOfCut(e.reader, log.bytes);
  }

  lemma MoveGrows(e: Env, s: State, w: string, s': State)
    requires s.commits != [] && w in s.logs && w in s'.logs && s' == s.(logs := s.logs[w := s'.logs[w]])
    requires LogMoved(e, s.logs[w], s'.logs[w]) && LogIntact(e, s.logs[w])
    ensures Grows(e, s, s')
  {
    hide LogMoved, LogIntact, CompletePart, Settled, Located;
    SameLogsGrow(e, s);
    MovedFrames(e, s.logs[w], s'.logs[w]);
  }

  /** A lookup trims its log, a flush moves its synced length, nothing else. */
  lemma MoveKeepsInv(e: Env, s: State, w: string, s': State)
    requires Inv(e, s) && w in s.logs && w in s'.logs && s' == s.(logs := s.logs[w := s'.logs[w]])
    requires LogMoved(e, s.logs[w], s'.logs[w])
    ensures Inv(e, s') && Grows(e, s, s')
  {
    hide ParseRecord, Scan, ScanEnd, CatalogsOk, PackOk, FrontierOk, GroupOk, Refs.Frames, Refs.FramesEnd, LogMoved,
         LogIntact, OwnRows, Grows, Located;
    assert s.commits != [] by { CommitsExist(e, s); }
    PackPartKept(e, s, s');
    assert LogOk(e, s, w, s.logs[w]);
    MovedFrames(e, s.logs[w], s'.logs[w]);
    MoveGrows(e, s, w, s');
    forall x | x in s'.logs
      ensures LogOk(e, s', x, s'.logs[x])
    {
      LogKept(e, s, s', x, s.logs[x]);
    }
    RefsGrow(e, s, s');
  }

  // ---- the group commit ----

  /**
    * The durability argument: references sampled first name snapshots that were committed by then, so the high
    * water of the committed rows, sampled later, covers every one of them.
    */
  lemma SampledRefsAreBacked(e: Env, s: State, refs: map<string, nat>, written: nat)
    requires Inv(e, s) && s.commits != []
    requires forall w | w in refs :: w in s.logs && FrameBoundary(e, s.logs[w].bytes, refs[w])
    requires RowsEndBy(Current(s).rows, e.name, written)
    requires written == 0 || exists id :: id in Current(s).rows && Current(s).rows[id].End() == written
    ensures FrontierOk(e, s, Frontier(map[e.name := written], refs), false, false)
  {
    hide ParseRecord, Scan, ScanEnd, CatalogsOk, PackOk, FrameBoundary, Boundary, Refs.Frames, Refs.FramesEnd, LogIntact,
         Located, Within, RowsEndBy, OlderOk;
    SampledPackIsCovered(e, s, refs, written);
    forall w | w in refs
      ensures FramesBacked(e, s, s.logs[w].bytes, refs[w], written)
    {
      assert LogOk(e, s, w, s.logs[w]);
      forall i | 0 <= i < |Frames(e, s.logs[w].bytes)|
        ensures Within(e, s, Frames(e, s.logs[w].bytes)[i].record.snapshot, written)
      {
        assert Published(e, s, w, Frames(e, s.logs[w].bytes)[i]);
        LocatedIsWithin(e, s, Frames(e, s.logs[w].bytes)[i].record.snapshot, written);
      }
    }
  }

  /** What is located lies below the high water of the rows. */
  lemma LocatedIsWithin(e: Env, s: State, id: Digest, written: nat)
    requires CatalogsOk(e, s) && s.commits != []
    requires Located(e, s.Pack(), Current(s), id) && RowsEndBy(Current(s).rows, e.name, written)
    ensures Within(e, s, id, written)
  {
    RowsAreNamed(e, s);
    StartIsBoundary(e.h, s.Pack());
    hide ParseRecord, Scan, ScanEnd, CatalogsOk, Boundary, Names;
    if id in Current(s).rows {
      NameIsNonempty(e.h, s.Pack(), id, Current(s).rows[id]);
      var i := NamedIsScanned(e.h, s.Pack(), 0, id, Current(s).rows[id]);
    }
  }

  lemma RowsAreNamed(e: Env, s: State)
    requires CatalogsOk(e, s)
    ensures s.commits != [] && RowsNamed(e, s.Pack(), Current(s).rows)
  {
    assert CatalogOk(e, s.Pack(), Current(s), s.objects);
    hide Names;
  }

  lemma SampledPackIsCovered(e: Env, s: State, refs: map<string, nat>, written: nat)
    requires CatalogsOk(e, s) && s.commits != []
    requires written == 0 || exists id :: id in Current(s).rows && Current(s).rows[id].End() == written
    ensures PackCovered(e, s, Frontier(map[e.name := written], refs), false)
  {
    hide ParseRecord, Scan, ScanEnd, CatalogsOk, Boundary;
    RowsAreNamed(e, s);
    StartIsBoundary(e.h, s.Pack());
    if written > 0 {
      var id :| id in Current(s).rows && Current(s).rows[id].End() == written;
      NamedEndIsBoundary(e.h, s.Pack(), id, Current(s).rows[id]);
    }
  }

  lemma NamedEndIsBoundary(h: Hasher, pack: seq<byte>, id: Digest, row: Row)
    requires Names(h, pack, id, row)
    ensures Boundary(h, pack, row.End())
  {
    hide ParseRecord, Boundary;
    NextBoundary(h, pack, row.offset - HEADER_LEN);
  }

  /** Frontier facts do not look at the frontier files or at the group. */
  lemma SameFrontier(e: Env, s: State, s': State, f: Frontier, packSynced: bool, refsSynced: bool)
    requires s.commits != [] && s'.commits == s.commits && s'.session == s.session && s'.logs == s.logs
    requires s.packSynced <= s'.packSynced
    requires FrontierOk(e, s, f, packSynced, refsSynced)
    ensures FrontierOk(e, s', f, packSynced, refsSynced)
    ensures s'.packSynced == |s'.Pack()| ==> FrontierOk(e, s', f, true, refsSynced)
  {
    hide Scan, ScanEnd, Refs.Frames, Refs.FramesEnd, FrameBoundary, Boundary, RecordedBy;
    BoundaryInside(e.h, s.Pack(), f.Pack(e.name));
    forall w | w in f.refs && 0 < f.refs[w]
      ensures FramesBacked(e, s', s'.logs[w].bytes, f.refs[w], f.Pack(e.name))
    {
      assert FramesBacked(e, s, s.logs[w].bytes, f.refs[w], f.Pack(e.name));
    }
  }

  lemma BoundaryInside(h: Hasher, pack: seq<byte>, at: nat)
    requires Boundary(h, pack, at)
    ensures at <= |pack|
  {
  }

  /** Flushing every log makes the sampled lengths synced. */
  lemma FlushedRefs(e: Env, s: State, s': State, f: Frontier)
    requires s.commits != [] && FrontierOk(e, s, f, true, false)
    requires s' == s.(logs := map w | w in s.logs :: Log(s.logs[w].bytes, |s.logs[w].bytes|),
                      group := RefsSynced(f))
    ensures FrontierOk(e, s', f, true, true)
  {
    hide Scan, ScanEnd, Refs.Frames, Refs.FramesEnd, Boundary, RecordedBy;
    forall w | w in f.refs && 0 < f.refs[w]
      ensures FramesBacked(e, s', s'.logs[w].bytes, f.refs[w], f.Pack(e.name))
    {
      assert FramesBacked(e, s, s.logs[w].bytes, f.refs[w], f.Pack(e.name));
    }
  }

  /** The references part of the invariant when only the group commit moved. */
  lemma GroupMoved(e: Env, s: State, s': State)
    requires s.commits != [] && RefsOk(e, s)
    requires s'.commits == s.commits && s'.session == s.session && s.packSynced <= s'.packSynced
    requires s'.logs.Keys == s.logs.Keys && s'.objects == s.objects && VouchedKept(s, s')
    requires forall w | w in s.logs ::
               && s'.logs[w].bytes == s.logs[w].bytes
               && s.logs[w].synced <= s'.logs[w].synced <= |s.logs[w].bytes|
    requires GroupOk(e, s')
    requires s'.visible == s.visible || (s'.visible.Some? && FrontierOk(e, s', s'.visible.value, true, true))
    requires s'.stable == s.stable || s'.stable == s.visible
    requires AllClean(e, s) || (s'.visible.None? && s'.group.Idle?)
    ensures RefsOk(e, s') && Grows(e, s, s')
  {
    hide Scan, ScanEnd, Refs.Frames, Refs.FramesEnd, FrontierOk, Located, Vouched;
    assert Grows(e, s, s') by { SameLogsGrow(e, s); hide CompletePart; }
    forall w | w in s'.logs
      ensures LogOk(e, s', w, s'.logs[w])
    {
      LogFlushed(e, s, s', w);
    }
    if s.visible.Some? {
      FrontierGrows(e, s, s', s.visible.value, true, true);
    }
    if s.stable.Some? {
      FrontierGrows(e, s, s', s.stable.value, true, true);
    }
  }

  /** A frame of a log that every frontier covered is covered still. */
  ghost predicate VouchedKept(s: State, s': State) {
    forall w, start: nat | w in s.logs && start < |s.logs[w].bytes| && Vouched(s, w, start) :: Vouched(s', w, start)
  }

  lemma LogFlushed(e: Env, s: State, s': State, w: string)
    requires s.commits != [] && s'.commits == s.commits && s'.session == s.session && s'.objects == s.objects
    requires VouchedKept(s, s') && w in s.logs && w in s'.logs && LogOk(e, s, w, s.logs[w])
    requires s'.logs[w].bytes == s.logs[w].bytes && s'.logs[w].synced <= |s.logs[w].bytes|
    ensures LogOk(e, s', w, s'.logs[w])
  {
    hide Refs.Chain, Refs.ChainEnd, Refs.FrameAt, Located, Vouched;
    var bytes := s.logs[w].bytes;
    forall i | 0 <= i < |Frames(e, bytes)|
      ensures Published(e, s', w, Frames(e, bytes)[i])
    {
      assert Published(e, s, w, Frames(e, bytes)[i]);
      Refs.FramesOrdered(e.reader, bytes, i, i);
    }
  }

  lemma SampleRefsKeepsGroup(e: Env, s: State, s': State)
    requires s.commits != [] && RefsOk(e, s) && AllClean(e, s)
    requires s' == s.(group := RefsSampled(map w | w in s.logs :: |s.logs[w].bytes|))
    ensures GroupOk(e, s')
  {
    hide Refs.Frames, Refs.FramesEnd;
    forall w | w in s.logs
      ensures FrameBoundary(e, s.logs[w].bytes, |s.logs[w].bytes|)
    {
      assert s.logs[w].bytes[..|s.logs[w].bytes|] == s.logs[w].bytes;
    }
  }

  // ---- checking the index ----

  lemma EmptyIndexOk(e: Env, s: State)
    requires PackOk(e, s) && OwnRows(e, s.View())
    ensures var empty := ResetIndex(e.name, s.View());
            CatalogOk(e, s.Pack(), empty, s.objects) && empty.rows == map[] && e.name !in empty.checkpoints
  {
    hide Scan, ScanEnd, Names;
    assert ResetIndex(e.name, s.View()).rows == map[];
  }

  lemma WholePackSurvives(e: Env, s: State)
    requires PackOk(e, s) && (s.visible.Some? ==> PackCovered(e, s, s.visible.value, true))
    ensures PackSurvives(e, s.Pack(), s.Pack(), s.packSynced, s.visible) && FrontierInside(e, s)
  {
    assert s.Pack()[..|s.Pack()|] == s.Pack();
    hide ParseRecord, Scan, ScanEnd;
  }

  /** Whatever the index was, right or wrong: rebuilt, it is sound and has a row for every recorded object. */
  lemma RebuiltIsOk(e: Env, s: State)
    requires PackOk(e, s) && OwnRows(e, s.View())
    requires s.visible.Some? ==> PackCovered(e, s, s.visible.value, true)
    ensures var r := Recover(e.h, e.name, s.Pack(), ResetIndex(e.name, s.View()), s.visible);
            && r.Ok? && r.value.pack == s.Pack() && CatalogOk(e, s.Pack(), r.value.cat, s.objects)
            && (forall id | Recorded(e.h, s.Pack(), id) :: id in r.value.cat.rows)
  {
    var empty := ResetIndex(e.name, s.View());
    EmptyIndexOk(e, s);
    WholePackSurvives(e, s);
    PackKnown(e, s);
    assert ScanEnd(e.h, s.Pack(), 0) == |s.Pack()| && Covered(e, s.Pack(), map[], 0);
    hide ParseRecord, Scan, ScanEnd, Recover, CatalogOk, PackOk, PackSurvives, Covered, RecordsKnown, Recorded;
    EmptyIsRecoverable(e, s, empty);
    RecoveredCatalogOk(e, s.Pack(), empty, s.objects, s.Pack(), s.packSynced, s.visible);
    ResetSucceeds(e.h, e.name, s.Pack(), s.View(), s.visible);
    forall id | Recorded(e.h, s.Pack(), id)
      ensures id in Recover(e.h, e.name, s.Pack(), empty, s.visible).value.cat.rows
    {
      ResetFinds(e.h, e.name, s.Pack(), s.View(), s.visible, id);
    }
  }

  lemma EmptyIsRecoverable(e: Env, s: State, cat: Catalog)
    requires CatalogOk(e, s.Pack(), cat, s.objects)
    requires PackSurvives(e, s.Pack(), s.Pack(), s.packSynced, s.visible)
    ensures Recoverable(e, s.Pack(), cat, s.objects, s.Pack(), s.visible)
  {
    hide CatalogNamed, RowsClosed, Covered, Reliable, PackSurvives;
    NamedIsReliable(e, s.Pack(), cat, s.Pack(), s.packSynced, s.visible);
  }

  /** Of a right index no row is lost, and none moves further down the pack. */
  lemma RebuiltIndex(e: Env, s: State)
    requires PackOk(e, s) && CatalogsOk(e, s) && s.commits != []
    requires s.visible.Some? ==> PackCovered(e, s, s.visible.value, true)
    ensures var r := Recover(e.h, e.name, s.Pack(), ResetIndex(e.name, s.View()), s.visible);
            && r.Ok? && r.value.pack == s.Pack() && CatalogOk(e, s.Pack(), r.value.cat, s.objects)
            && (forall id | id in Current(s).rows ::
                  id in r.value.cat.rows && r.value.cat.rows[id].End() <= Current(s).rows[id].End())
            && (forall id | Recorded(e.h, s.Pack(), id) :: id in r.value.cat.rows)
  {
    var empty := ResetIndex(e.name, s.View());
    ViewOwns(e, s);
    RebuiltIsOk(e, s);
    EmptyIndexOk(e, s);
    WholePackSurvives(e, s);
    RowsAreNamed(e, s);
    assert ScanEnd(e.h, s.Pack(), 0) == |s.Pack()|;
    assert Extends(e, empty, Current(s));
    hide ParseRecord, Scan, ScanEnd, Recover, CatalogOk, PackOk, CatalogsOk, Extends, PackSurvives, Names, Recorded;
    forall id | id in Current(s).rows
      ensures var rows := Recover(e.h, e.name, s.Pack(), empty, s.visible).value.cat.rows;
              id in rows && rows[id].End() <= Current(s).rows[id].End()
    {
      NamedIsInside(e.h, s.Pack(), id, Current(s).rows[id]);
      RowSurvives(e, s.Pack(), empty, Current(s), s.objects, s.Pack(), s.packSynced, s.visible, id);
    }
  }

  lemma ViewOwns(e: Env, s: State)
    requires CatalogsOk(e, s)
    ensures OwnRows(e, s.View())
  {
    ViewOk(e, s);
    hide CatalogsOk, CatalogOk, Names;
  }

  lemma LocatedIsRecorded(e: Env, s: State, id: Digest)
    requires CatalogsOk(e, s) && s.commits != [] && Located(e, s.Pack(), Current(s), id)
    ensures Recorded(e.h, s.Pack(), id)
  {
    RowsAreNamed(e, s);
    StartIsBoundary(e.h, s.Pack());
    hide ParseRecord, Scan, ScanEnd, CatalogsOk, Boundary, Names;
    if id in Current(s).rows {
      NameIsNonempty(e.h, s.Pack(), id, Current(s).rows[id]);
      var i := NamedIsScanned(e.h, s.Pack(), 0, id, Current(s).rows[id]);
    }
  }

  lemma RebuiltGrows(e: Env, s: State, s': State)
    requires s.commits != [] && s'.commits == [s'.View()] && CatalogsOk(e, s)
    requires s'.Pack() == s.Pack() && s'.packSynced == s.packSynced && s'.logs == s.logs && s'.objects == s.objects
    requires forall id | id in Current(s).rows ::
               id in s'.View().rows && s'.View().rows[id].End() <= Current(s).rows[id].End()
    requires forall id | Recorded(e.h, s.Pack(), id) :: id in s'.View().rows
    ensures Grows(e, s, s')
  {
    SameLogsGrow(e, s);
    hide CatalogsOk, Located, CompletePart, Settled, Recorded;
    forall id | Located(e, s.Pack(), Current(s), id)
      ensures id in s'.View().rows
    {
      LocatedIsRecorded(e, s, id);
    }
    RowsAreLocated(e, s'.Pack(), s'.View());
  }

  lemma RebuiltOlderOk(e: Env, s: State, s': State)
    requires CatalogsOk(e, s) && OlderOk(e, s) && s'.older == s.older + CommitSet(s)
    ensures OlderOk(e, s')
  {
    hide CatalogsOk, OwnRows;
    forall cat | cat in s'.older
      ensures OwnRows(e, cat)
    {
      if cat in CommitSet(s) {
        CommitOwns(e, s, cat);
      }
    }
  }

  /** Checking the index, and rebuilding it, costs nothing. */
  lemma CheckedKeepsPack(e: Env, s: State, deep: bool)
    requires PackOk(e, s) && CatalogsOk(e, s) && OlderOk(e, s) && s.commits != [] && !s.inBatch
    requires s.visible.Some? ==> PackCovered(e, s, s.visible.value, true)
    ensures var s' := Checked(e, s, deep);
            && PackOk(e, s') && CatalogsOk(e, s') && OlderOk(e, s') && s'.commits != [] && Grows(e, s, s')
  {
    var s' := Checked(e, s, deep);
    RebuiltIndex(e, s);
    hide Recover, CatalogOk, PackOk, CatalogsOk, OlderOk, Agrees, Recorded, PackCovered, Grows;
    if !Agrees(e.name, s.View()) || deep {
      SamePackOk(e, s, s');
      SingleCommit(e, s');
      RebuiltOlderOk(e, s, s');
      RebuiltGrows(e, s, s');
    } else {
      SameGrows(e, s);
    }
  }

  lemma SameGrows(e: Env, s: State)
    requires s.commits != []
    ensures Grows(e, s, s)
  {
    hide Located, CompletePart, Settled;
    SameLogsGrow(e, s);
  }

  lemma CommitOwns(e: Env, s: State, cat: Catalog)
    requires CatalogsOk(e, s) && cat in s.commits
    ensures OwnRows(e, cat)
  {
    hide RowsClosed, Covered, Counts, Names, Extends;
  }

  lemma CommitIsNamed(e: Env, s: State, cat: Catalog)
    requires CatalogsOk(e, s) && cat in s.commits
    ensures CatalogNamed(e, s.Pack(), cat)
  {
    hide RowsClosed, Covered, CatalogNamed, Extends;
  }

  lemma SamePackOk(e: Env, s: State, s': State)
    requires PackOk(e, s) && s'.Pack() == s.Pack() && s'.session.run == s.session.run
    requires s'.packSynced == s.packSynced && s'.objects == s.objects
    ensures PackOk(e, s')
  {
    hide ParseRecord, Scan, ScanEnd, RecordsKnown, ObjectsClosed, Covered, RunOk;
  }

  lemma SingleCommit(e: Env, s: State)
    requires s.commits == [s.View()] && !s.inBatch && CatalogOk(e, s.Pack(), s.View(), s.objects)
    ensures CatalogsOk(e, s)
  {
    hide CatalogOk;
    ExtendsItself(e, s.View());
  }
}
