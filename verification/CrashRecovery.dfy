/** Reopening the store after a crash: it succeeds, restores the invariant, and keeps what was durably published. */
module CrashRecovery {
  import opened Bytes
  import opened Pack
  import opened Recovery
  import opened Durability
  import opened StoreRuns
  import Refs
  import RefLog

  /** A reference is on disk together with everything it needs. Where rows may be lost, every frontier covers it too. */
  ghost predicate DurableFrame(e: Env, s: State, w: string, frame: Refs.Frame)
    requires s.commits != []
  {
    var id := frame.record.snapshot;
    && frame.end <= LogOf(s, w).synced
    && Located(e, s.Pack(), Current(s), id) && Within(e, s, id, s.packSynced)
    && (e.anyCommit ==> Vouched(s, w, frame.start))
  }

  /** The first `n` references of a workspace are. */
  ghost predicate DurablyPublished(e: Env, s: State, w: string, n: nat)
    requires s.commits != []
  {
    n == 0
    || (w in s.logs && n <= |Frames(e, s.logs[w].bytes)|
        && forall i | 0 <= i < n :: DurableFrame(e, s, w, Frames(e, s.logs[w].bytes)[i]))
  }

  /** The log that remains: the first `k` frames of what was written, and at most a torn frame. */
  ghost predicate KeptLog(e: Env, bytes: seq<byte>, kept: seq<byte>, k: nat) {
    var frames := Frames(e, bytes);
    && k <= |frames|
    && RefLog.KeptEnd(frames, k) <= |bytes|
    && Refs.FramesEnd(e.reader, kept) == RefLog.KeptEnd(frames, k)
    && CompletePart(e, kept) == bytes[..RefLog.KeptEnd(frames, k)]
    && Frames(e, kept) == frames[..k]
    && Refs.Intact(e.reader, kept)
  }

  lemma CutLogIsKept(e: Env, bytes: seq<byte>, k: nat)
    requires k <= |Frames(e, bytes)|
    ensures RefLog.KeptEnd(Frames(e, bytes), k) <= |bytes|
    ensures KeptLog(e, bytes, bytes[..RefLog.KeptEnd(Frames(e, bytes), k)], k)
    ensures Refs.FramesEnd(e.reader, bytes[..RefLog.KeptEnd(Frames(e, bytes), k)]) == RefLog.KeptEnd(Frames(e, bytes), k)
  {
    Refs.ChainOfCut(e.reader, bytes, 0, ZeroDigest(), 1, k);
    hide Refs.Chain, Refs.ChainEnd;
    var cut := bytes[..RefLog.KeptEnd(Frames(e, bytes), k)];
    assert cut[..|cut|] == cut;
  }

  /** Frames in the settled part of a log are found again after the crash, and nothing else than written frames is. */
  lemma SurvivingFrames(e: Env, log: Log, survived: seq<byte>, n: nat)
    requires LogSurvives(e, log, survived)
    requires n <= |Frames(e, log.bytes)|
    requires forall i | 0 <= i < n :: Frames(e, log.bytes)[i].end <= log.synced
    ensures Frames(e, survived) <= Frames(e, log.bytes)
    ensures n <= |Frames(e, survived)|
  {
    var bytes := log.bytes;
    var end := Refs.FramesEnd(e.reader, survived);
    hide Refs.FrameAt, Refs.Chain, Refs.ChainEnd;
    assert bytes[..end] == survived[..end];
    Refs.ChainInOther(e.reader, survived, bytes, 0, ZeroDigest(), 1);
    if n > 0 {
      CutLogIsKept(e, bytes, n);
      Refs.FramesOrdered(e.reader, bytes, n - 1, n - 1);
      var at := RefLog.KeptEnd(Frames(e, bytes), n);
      var cut := bytes[..at];
      PrefixOfPrefix(bytes, Settled(e, log), at);
      PrefixOfPrefix(survived, Settled(e, log), at);
      assert survived[..at] == cut[..at];
      Refs.ChainInOther(e.reader, cut, survived, 0, ZeroDigest(), 1);
      assert |Frames(e, cut)| == n;
    }
  }

  /** Frames that may stay do stay. */
  lemma {:induction false} KeepAtLeast(r: Refs.Reader, frames: seq<Refs.Frame>, durable: nat, present: set<Digest>, n: nat)
    requires n <= |frames|
    requires forall i | 0 <= i < n :: frames[i].start < durable || frames[i].record.snapshot in present
    ensures n <= RefLog.Keep(r, frames, durable, present)
    decreases n
  {
    if n > 0 {
      KeepAtLeast(r, frames[1..], durable, present, n - 1);
    }
  }

  /** Frames that stay may stay. */
  lemma {:induction false} KeepAtMost(r: Refs.Reader, frames: seq<Refs.Frame>, durable: nat, present: set<Digest>, i: nat)
    requires i < RefLog.Keep(r, frames, durable, present)
    ensures i < |frames| && (frames[i].start < durable || frames[i].record.snapshot in present)
    decreases i
  {
    if i > 0 {
      KeepAtMost(r, frames[1..], durable, present, i - 1);
    }
  }

  /** A frame boundary lies after whole frames. */
  lemma FramesBeforeBoundary(e: Env, bytes: seq<byte>, at: nat) returns (g: nat)
    requires FrameBoundary(e, bytes, at)
    ensures g <= |Frames(e, bytes)| && RefLog.KeptEnd(Frames(e, bytes), g) == at
    ensures forall i | 0 <= i < |Frames(e, bytes)| :: i < g <==> Frames(e, bytes)[i].end <= at
    ensures forall i | 0 <= i < |Frames(e, bytes)| :: i < g <==> Frames(e, bytes)[i].start < at
  {
    hide Refs.FrameAt, Refs.Chain, Refs.ChainEnd;
    var part := bytes[..at];
    assert CompletePart(e, part) == part;
    FramesExtend(e, part, bytes);
    g := |Frames(e, part)|;
    Refs.ChainEndsAt(e.reader, part, 0, ZeroDigest(), 1);
    forall i | 0 <= i < |Frames(e, bytes)|
      ensures i < g <==> Frames(e, bytes)[i].start < at
    {
      Refs.FramesOrdered(e.reader, bytes, i, i);
      if g <= i && 0 < g {
        Refs.FramesOrdered(e.reader, bytes, g - 1, i);
      }
    }
  }

  /** Reference repair after a crash, where it succeeds: it keeps a prefix of the log with all the frames that were on
      disk and either begin before the durable length or name snapshots still there; it keeps no others. */
  lemma RepairKeeps(e: Env, log: Log, survived: seq<byte>, durable: nat, present: set<Digest>, n: nat) returns (k: nat)
    requires LogSurvives(e, log, survived) && n <= |Frames(e, log.bytes)|
    requires forall i | 0 <= i < n ::
               && Frames(e, log.bytes)[i].end <= log.synced
               && (Frames(e, log.bytes)[i].start < durable || Frames(e, log.bytes)[i].record.snapshot in present)
    requires RefLog.RepairSuffix(e.reader, survived, durable, present).Ok?
    ensures var kept := RefLog.RepairSuffix(e.reader, survived, durable, present).value;
            KeptLog(e, log.bytes, kept, k) && Refs.FramesEnd(e.reader, kept) == |kept| && durable <= |kept|
    ensures n <= k
    ensures forall i | 0 <= i < k ::
              Frames(e, log.bytes)[i].start < durable || Frames(e, log.bytes)[i].record.snapshot in present
  {
    hide Refs.FrameAt, Refs.Chain, Refs.ChainEnd, RefLog.Keep, KeptLog;
    var frames, found := Frames(e, log.bytes), Frames(e, survived);
    SurvivingFrames(e, log, survived, n);
    KeepAtLeast(e.reader, found, durable, present, n);
    k := RefLog.Keep(e.reader, found, durable, present);
    assert found[..k] == frames[..k];
    CutLogIsKept(e, log.bytes, k);
    assert RefLog.KeptEnd(found, k) == RefLog.KeptEnd(frames, k);
    var end := RefLog.KeptEnd(frames, k);
    assert end <= Refs.FramesEnd(e.reader, survived) by {
      if 0 < k {
        Refs.FramesOrdered(e.reader, survived, k - 1, k - 1);
      }
    }
    PrefixOfPrefix(survived, Refs.FramesEnd(e.reader, survived), end);
    PrefixOfPrefix(log.bytes, Refs.FramesEnd(e.reader, survived), end);
    assert survived[..end] == log.bytes[..end];
    assert end == |survived| ==> survived[..end] == survived;
    forall i | 0 <= i < k
      ensures frames[i].start < durable || frames[i].record.snapshot in present
    {
      KeepAtMost(e.reader, found, durable, present, i);
    }
  }

  /** A durable length that is a frame boundary on disk is always reached. */
  lemma BoundaryIsReached(e: Env, log: Log, survived: seq<byte>, durable: nat)
    requires LogSurvives(e, log, survived) && durable <= log.synced && FrameBoundary(e, log.bytes, durable)
    ensures durable <= Refs.FramesEnd(e.reader, survived)
  {
    hide Refs.FrameAt, Refs.Chain, Refs.ChainEnd, FrameBoundary;
    var g := FramesBeforeBoundary(e, log.bytes, durable);
    SurvivingFrames(e, log, survived, g);
    if 0 < g {
      assert Frames(e, survived)[g - 1] == Frames(e, log.bytes)[g - 1];
      Refs.FramesOrdered(e.reader, survived, g - 1, g - 1);
    }
  }

  // ---- one crash ----

  /** A crash: what it leaves of each file, and the frontier and catalog state found on reopening. */
  datatype Crash = Crash(
    pack: seq<byte>, logs: map<string, seq<byte>>, cat: Catalog, visible: Option<Frontier>, stable: Option<Frontier>)

  /** A crash that takes nothing from the pack, the catalog or the frontier files. */
  ghost predicate Whole(e: Env, s: State, c: Crash)
    requires s.commits != []
  {
    c.cat == Current(s) && c.visible == s.visible && c.stable == s.stable && ScanEnd(e.h, c.pack, 0) == |s.Pack()|
  }

  /** What a crash leaves of the files, and which frontier files it may leave, whatever catalog it finds. */
  ghost predicate CrashFiles(e: Env, s: State, c: Crash)
    requires s.commits != []
  {
    && (c.visible == s.visible || c.visible == s.stable) && (c.stable == s.visible || c.stable == s.stable)
    && (c.stable == c.visible || Whole(e, s, c))
    && PackSurvives(e, s.Pack(), c.pack, s.packSynced, c.visible)
    && (c.stable.Some? ==> PackCovered(e, s, c.stable.value, true))
    && (forall w | w in s.logs && w !in c.logs :: s.logs[w].synced == 0)
    && forall w | w in c.logs ::
         if c.visible.Some? then LogSurvives(e, LogOf(s, w), c.logs[w])
         else LogTorn(e, LogOf(s, w), c.logs[w])
  }

  /** A crash that finds a commit of this session, or an older one that does not make recovery trust what is wrong. */
  ghost predicate CrashOf(e: Env, s: State, c: Crash)
    requires s.commits != []
  {
    && CrashFiles(e, s, c)
    && (c.cat in s.commits || (e.anyCommit && Reliable(e, c.pack, c.cat, c.visible)))
  }

  lemma CrashIsOfFiles(e: Env, s: State, c: Crash)
    requires s.commits != [] && CrashOf(e, s, c)
    ensures CrashFiles(e, s, c)
  {
    hide CrashFiles, Reliable;
  }

  ghost function PackAfter(e: Env, s: State, c: Crash): Result<Recovered> {
    Recover(e.h, e.name, c.pack, c.cat, c.visible)
  }

  /** The pack half of reopening. */
  lemma PackAfterCrash(e: Env, s: State, c: Crash)
    requires PackOk(e, s) && CatalogsOk(e, s) && CrashOf(e, s, c)
    ensures PackAfter(e, s, c).Ok?
    ensures var r := PackAfter(e, s, c).value;
            && |r.pack| == ScanEnd(e.h, c.pack, 0) <= |s.Pack()|
            && r.pack == s.Pack()[..ScanEnd(e.h, c.pack, 0)]
            && ScanEnd(e.h, r.pack, 0) == |r.pack|
            && CatalogOk(e, r.pack, r.cat, s.objects)
            && RecordsKnown(e, r.pack, s.objects) && Covered(e, r.pack, map[], 0)
  {
    hide ParseRecord, Scan, ScanEnd, Recover, CatalogOk, Covered, RecordsKnown, PackSurvives, LogSurvives,
         LogTorn, RunOk, Reliable, CatalogsOk, TrustIsSound;
    CommitsExist(e, s);
    CrashCatalog(e, s, c);
    RecoverableIsReliable(e, s.Pack(), c.cat, s.objects, c.pack, s.packSynced, c.visible);
    ReliableIsSound(e, c.pack, c.cat, c.visible);
    PackReopens(e, s.Pack(), c.cat, c.pack, s.packSynced, c.visible);
    RecoveredCatalogOk(e, s.Pack(), c.cat, s.objects, c.pack, s.packSynced, c.visible);
  }

  lemma ReliableIsSound(e: Env, survived: seq<byte>, cat: Catalog, frontier: Option<Frontier>)
    requires Reliable(e, survived, cat, frontier)
    ensures TrustIsSound(e.h, e.name, survived, cat, frontier)
  {
  }

  lemma CrashCatalog(e: Env, s: State, c: Crash)
    requires CatalogsOk(e, s) && s.commits != [] && CrashOf(e, s, c)
    ensures Recoverable(e, s.Pack(), c.cat, s.objects, c.pack, c.visible)
    ensures PackSurvives(e, s.Pack(), c.pack, s.packSynced, c.visible)
  {
    hide CatalogOk, Reliable, Extends, PackSurvives, LogSurvives, LogTorn;
    if c.cat in s.commits && e.anyCommit {
      CommitIsNamed(e, s, c.cat);
      NamedIsReliable(e, s.Pack(), c.cat, c.pack, s.packSynced, c.visible);
    }
  }

  /** A row inside the synced part of the pack lies inside the records that survive. */
  lemma SyncedRowSurvives(e: Env, s: State, c: Crash, id: Digest)
    requires PackOk(e, s) && CatalogsOk(e, s) && CrashOf(e, s, c)
    requires id in Current(s).rows
    requires Current(s).rows[id].End() <= s.packSynced || c.visible.None?
    ensures Current(s).rows[id].End() <= ScanEnd(e.h, c.pack, 0)
  {
    var row := Current(s).rows[id];
    assert CatalogOk(e, s.Pack(), Current(s), s.objects);
    hide ParseRecord, Scan, ScanEnd, Covered, RecordsKnown, LogSurvives, LogTorn, RunOk, Boundary, Counts;
    if c.visible.Some? {
      PrefixOfPrefix(s.Pack(), s.packSynced, row.End());
      PrefixOfPrefix(c.pack, s.packSynced, row.End());
      NamesIsLocal(e.h, s.Pack(), c.pack, id, row);
      NamedEndsInScan(e.h, c.pack, id, row);
    }
  }

  /** So does a record of the synced part. */
  lemma SyncedRecordSurvives(e: Env, s: State, c: Crash, i: nat)
    requires PackOk(e, s) && s.commits != [] && CrashFiles(e, s, c) && i < |Scan(e.h, s.Pack(), 0)|
    requires Scan(e.h, s.Pack(), 0)[i].End() <= s.packSynced || c.visible.None?
    ensures Scan(e.h, s.Pack(), 0)[i].End() <= ScanEnd(e.h, c.pack, 0)
  {
    var loc := Scan(e.h, s.Pack(), 0)[i];
    StartIsBoundary(e.h, s.Pack());
    ScanBoundaries(e.h, s.Pack(), 0, i);
    hide ParseRecord, Scan, Covered, RecordsKnown, LogSurvives, LogTorn, RunOk;
    if c.visible.Some? {
      BoundaryShared(e.h, s.Pack(), c.pack, s.packSynced, loc.End());
      StartIsBoundary(e.h, c.pack);
      ScanSplit(e.h, c.pack, 0, loc.End());
      ScanAfter(e.h, c.pack, loc.End());
    }
  }

  lemma NamedEndsInScan(h: Hasher, pack: seq<byte>, id: Digest, row: Row)
    requires Names(h, pack, id, row)
    ensures row.End() <= ScanEnd(h, pack, 0)
  {
    StartIsBoundary(h, pack);
    hide ParseRecord, Scan, ScanEnd, Boundary;
    var i := BoundaryRecordIsScanned(h, pack, 0, row.offset - HEADER_LEN);
  }

  /** An object whose committed row survives has a recovered row, no later in the pack, under every commit made since
      the store was opened. */
  lemma RowAfterCrash(e: Env, s: State, c: Crash, id: Digest)
    requires PackOk(e, s) && CatalogsOk(e, s) && CrashOf(e, s, c) && PackAfter(e, s, c).Ok? && c.cat in s.commits
    requires id in Current(s).rows && Current(s).rows[id].End() <= ScanEnd(e.h, c.pack, 0)
    ensures var rows := PackAfter(e, s, c).value.cat.rows;
            id in rows && rows[id].End() <= Current(s).rows[id].End()
  {
    assert CatalogOk(e, s.Pack(), Current(s), s.objects);
    assert CatalogOk(e, s.Pack(), c.cat, s.objects) && Extends(e, c.cat, Current(s));
    hide ParseRecord, Scan, ScanEnd, Recover, Covered, RecordsKnown, LogSurvives, LogTorn, RunOk, PackSurvives,
         Names, Counts, RowsClosed, Extends;
    RowSurvives(e, s.Pack(), c.cat, Current(s), s.objects, c.pack, s.packSynced, c.visible, id);
  }

  /** Every object recorded in what survives is located again, whatever commit came back. */
  lemma RecordAfterCrash(e: Env, s: State, c: Crash, i: nat)
    requires e.anyCommit && PackOk(e, s) && CatalogsOk(e, s) && CrashOf(e, s, c) && PackAfter(e, s, c).Ok?
    requires i < |Scan(e.h, s.Pack(), 0)| && Scan(e.h, s.Pack(), 0)[i].End() <= ScanEnd(e.h, c.pack, 0)
    ensures var r := PackAfter(e, s, c).value;
            && i < |Scan(e.h, r.pack, 0)| && Scan(e.h, r.pack, 0)[i] == Scan(e.h, s.Pack(), 0)[i]
            && Located(e, r.pack, r.cat, Scan(e.h, s.Pack(), 0)[i].id)
  {
    CrashCatalog(e, s, c);
    RecoverableIsReliable(e, s.Pack(), c.cat, s.objects, c.pack, s.packSynced, c.visible);
    ReliableIsSound(e, c.pack, c.cat, c.visible);
    hide ParseRecord, Scan, ScanEnd, Recover, CatalogOk, Covered, RecordsKnown, LogSurvives, LogTorn, RunOk, PackSurvives,
         CatalogsOk, Located, Reliable;
    PackReopens(e, s.Pack(), c.cat, c.pack, s.packSynced, c.visible);
    ScanOfPart(e, s.Pack(), ScanEnd(e.h, c.pack, 0));
    RecordedIsLocated(e, s.Pack(), c.cat, c.pack, s.packSynced, c.visible, i);
  }

  /** What lies in the synced part of the pack, or in all that survives of it, is located and lies there again. */
  lemma WithinAfterCrash(e: Env, s: State, c: Crash, id: Digest, limit: nat)
    requires PackOk(e, s) && CatalogsOk(e, s) && s.commits != [] && CrashOf(e, s, c) && PackAfter(e, s, c).Ok?
    requires Within(e, s, id, limit) && (limit <= s.packSynced || limit <= ScanEnd(e.h, c.pack, 0) || c.visible.None?)
    ensures var r := PackAfter(e, s, c).value;
            && Located(e, r.pack, r.cat, id)
            && if e.anyCommit then RecordedBy(e, r.pack, limit, id)
               else id in r.cat.rows && r.cat.rows[id].End() <= limit
  {
    hide ParseRecord, Scan, ScanEnd, Recover, CatalogsOk, PackOk, PackAfter, PackSurvives, LogSurvives, LogTorn, Reliable,
         Counted;
    if e.anyCommit {
      var i: nat :| i < |Scan(e.h, s.Pack(), 0)| && Scan(e.h, s.Pack(), 0)[i].id == id
                    && Scan(e.h, s.Pack(), 0)[i].End() <= limit;
      if limit <= s.packSynced || c.visible.None? {
        SyncedRecordSurvives(e, s, c, i);
      }
      RecordAfterCrash(e, s, c, i);
    } else {
      if limit <= s.packSynced || c.visible.None? {
        SyncedRowSurvives(e, s, c, id);
      }
      RowAfterCrash(e, s, c, id);
    }
  }

  /** The first `n` frames are on disk, and repair finds a reason to keep each. */
  ghost predicate RetainedFrames(e: Env, s: State, c: Crash, w: string, n: nat)
    requires PackAfter(e, s, c).Ok?
  {
    var log := LogOf(s, w);
    && n <= |Frames(e, log.bytes)|
    && forall i | 0 <= i < n ::
         var frame := Frames(e, log.bytes)[i];
         && frame.end <= log.synced
         && (c.visible.None? || frame.start < c.visible.value.Refs(w)
             || frame.record.snapshot in PackAfter(e, s, c).value.cat.rows)
  }

  lemma DurableIsRetained(e: Env, s: State, c: Crash, w: string, n: nat)
    requires PackOk(e, s) && CatalogsOk(e, s) && s.commits != [] && CrashOf(e, s, c) && PackAfter(e, s, c).Ok?
    requires w in s.logs && DurablyPublished(e, s, w, n)
    ensures RetainedFrames(e, s, c, w, n)
  {
    hide ParseRecord, Scan, ScanEnd, Recover, CatalogsOk, PackOk, PackAfter, PackSurvives, LogSurvives, LogTorn, Reliable,
         Refs.Frames, Within, Whole;
    forall i | 0 <= i < n
      ensures var frame := Frames(e, s.logs[w].bytes)[i];
              c.visible.None? || frame.start < c.visible.value.Refs(w)
              || frame.record.snapshot in PackAfter(e, s, c).value.cat.rows
    {
      var frame := Frames(e, s.logs[w].bytes)[i];
      assert DurableFrame(e, s, w, frame);
      WithinAfterCrash(e, s, c, frame.record.snapshot, s.packSynced);
    }
  }

  /** The reference half of reopening, for one log, where it succeeds. */
  lemma LogAfterCrash(e: Env, s: State, c: Crash, w: string, n: nat) returns (k: nat)
    requires s.commits != [] && CrashFiles(e, s, c) && PackAfter(e, s, c).Ok?
    requires w in c.logs && RetainedFrames(e, s, c, w, n)
    requires ReopenLog(e, c.visible, w, c.logs[w], PackAfter(e, s, c).value.cat.rows).Ok?
    ensures var frames := Frames(e, LogOf(s, w).bytes);
            var rows := PackAfter(e, s, c).value.cat.rows;
            var kept := ReopenLog(e, c.visible, w, c.logs[w], rows).value;
            && KeptLog(e, LogOf(s, w).bytes, kept, k) && n <= k <= |frames|
            && (c.visible.None? ==> k == |frames|)
            && (c.visible.Some? ==>
                  && Refs.FramesEnd(e.reader, kept) == |kept| && c.visible.value.Refs(w) <= |kept|
                  && forall i | 0 <= i < k :: frames[i].start < c.visible.value.Refs(w) || frames[i].record.snapshot in rows)
  {
    var log := LogOf(s, w);
    var rows := PackAfter(e, s, c).value.cat.rows;
    var frames := Frames(e, log.bytes);
    hide ParseRecord, Scan, ScanEnd, Recover, CatalogsOk, PackOk, PackAfter, PackSurvives, PackCovered, Reliable, Whole,
         Refs.Frames, Refs.FramesEnd, RefLog.RepairSuffix, RefLog.Keep, LogSurvives, KeptLog;
    if c.visible.Some? {
      k := RepairKeeps(e, log, c.logs[w], c.visible.value.Refs(w), rows.Keys, n);
      KeptBound(e, log.bytes, ReopenLog(e, c.visible, w, c.logs[w], rows).value, k);
    } else {
      k := |frames|;
      TornLogIsKept(e, log, c.logs[w]);
    }
  }

  lemma KeptBound(e: Env, bytes: seq<byte>, kept: seq<byte>, k: nat)
    requires KeptLog(e, bytes, kept, k)
    ensures k <= |Frames(e, bytes)|
  {
  }

  lemma TornLogIsKept(e: Env, log: Log, survived: seq<byte>)
    requires LogTorn(e, log, survived)
    ensures KeptLog(e, log.bytes, survived, |Frames(e, log.bytes)|)
  {
    hide Refs.FrameAt, Refs.Chain, Refs.ChainEnd;
    var end := Refs.FramesEnd(e.reader, log.bytes);
    Refs.ChainEndsAt(e.reader, log.bytes, 0, ZeroDigest(), 1);
    FramesExtend(e, log.bytes, survived);
    FramesExtend(e, survived, CompletePart(e, log.bytes));
    Refs.FramesOfCut(e.reader, log.bytes);
    assert Frames(e, survived) == Frames(e, log.bytes);
  }

  // ---- the state after a crash ----

  ghost function After(e: Env, s: State, c: Crash): Result<State>
    requires s.commits != []
  {
    Reopen(e, s, c.pack, c.logs, c.cat, c.visible, c.stable)
  }

  ghost function LogKept(e: Env, s: State, c: Crash, w: string): Result<seq<byte>>
    requires s.commits != [] && w in c.logs && PackAfter(e, s, c).Ok?
  {
    ReopenLog(e, c.visible, w, c.logs[w], PackAfter(e, s, c).value.cat.rows)
  }

  /** In every surviving log the complete frames reach the length that the frontier vouches for. */
  ghost predicate FramesReach(e: Env, c: Crash) {
    c.visible.Some? ==> forall w | w in c.logs :: c.visible.value.Refs(w) <= Refs.FramesEnd(e.reader, c.logs[w])
  }

  /** What the reopened store consists of. */
  ghost predicate Reopened(e: Env, s: State, c: Crash, s': State)
    requires s.commits != [] && PackAfter(e, s, c).Ok?
    requires forall w | w in c.logs :: LogKept(e, s, c, w).Ok?
  {
    var r := PackAfter(e, s, c).value;
    && s'.session == Session(r.pack, r.cat, None)
    && s'.packSynced == Min(s.packSynced, |r.pack|)
    && s'.commits == [r.cat] && !s'.inBatch
    && s'.older == s.older + CommitSet(s)
    && s'.logs.Keys == c.logs.Keys
    && (forall w | w in c.logs ::
          s'.logs[w] == Log(LogKept(e, s, c, w).value,
                            Min(LogOf(s, w).synced, Refs.FramesEnd(e.reader, LogKept(e, s, c, w).value))))
    && s'.visible == c.visible && s'.stable == c.stable && s'.group == Idle && s'.objects == s.objects
  }

  lemma ReopenIs(e: Env, s: State, c: Crash)
    requires s.commits != [] && PackAfter(e, s, c).Ok?
    ensures After(e, s, c).Ok? <==> forall w | w in c.logs :: LogKept(e, s, c, w).Ok?
    ensures After(e, s, c).Ok? ==> Reopened(e, s, c, After(e, s, c).value)
  {
    hide Recover, ReopenLog;
  }

  /** Whatever catalog a crash finds: reopening succeeds exactly when the pack recovers and the complete frames of every
      log reach what the frontier vouches for. */
  lemma ReopensAnyIff(e: Env, s: State, c: Crash)
    requires s.commits != []
    ensures After(e, s, c).Ok? <==> PackAfter(e, s, c).Ok? && FramesReach(e, c)
    ensures After(e, s, c).Ok? ==>
              && (forall w | w in c.logs :: LogKept(e, s, c, w).Ok?)
              && Reopened(e, s, c, After(e, s, c).value)
  {
    if PackAfter(e, s, c).Ok? {
      ReopenIs(e, s, c);
      hide After, Reopened, PackAfter, Refs.FramesEnd, RefLog.RepairSuffix;
      forall w | w in c.logs
        ensures LogKept(e, s, c, w).Ok? <==>
                  c.visible.None? || c.visible.value.Refs(w) <= Refs.FramesEnd(e.reader, c.logs[w])
      {
        if c.visible.Some? {
          RefLog.RepairsIff(e.reader, c.logs[w], c.visible.value.Refs(w), PackAfter(e, s, c).value.cat.rows.Keys);
        }
      }
    } else {
      hide Recover, ReopenLog;
    }
  }

  /** With a catalog of this session, or an older one that is not wrongly trusted, the pack never stands in the way. */
  lemma ReopensIff(e: Env, s: State, c: Crash)
    requires PackOk(e, s) && CatalogsOk(e, s) && s.commits != [] && CrashOf(e, s, c)
    ensures PackAfter(e, s, c).Ok?
    ensures After(e, s, c).Ok? <==> FramesReach(e, c)
    ensures After(e, s, c).Ok? ==>
              && (forall w | w in c.logs :: LogKept(e, s, c, w).Ok?)
              && Reopened(e, s, c, After(e, s, c).value)
  {
    PackAfterCrash(e, s, c);
    hide After, Reopened, PackAfter, CatalogsOk, PackOk, CrashOf, FramesReach, LogKept;
    ReopensAnyIff(e, s, c);
  }

  lemma NoFramesAreRetained(e: Env, s: State, c: Crash, w: string)
    requires PackAfter(e, s, c).Ok?
    ensures RetainedFrames(e, s, c, w, 0)
  {
  }

  /** The log after the crash, beside the log before it. */
  lemma LogOfAfter(e: Env, s: State, c: Crash, w: string, n: nat) returns (k: nat)
    requires s.commits != [] && CrashFiles(e, s, c) && After(e, s, c).Ok?
    requires w in c.logs && PackAfter(e, s, c).Ok? && RetainedFrames(e, s, c, w, n)
    ensures w in After(e, s, c).value.logs
    ensures var frames := Frames(e, LogOf(s, w).bytes);
            var kept := After(e, s, c).value.logs[w];
            && KeptLog(e, LogOf(s, w).bytes, kept.bytes, k) && n <= k <= |frames|
            && kept.synced == Min(LogOf(s, w).synced, Refs.FramesEnd(e.reader, kept.bytes))
            && (c.visible.None? ==> k == |frames|)
            && (c.visible.Some? ==>
                  && Refs.FramesEnd(e.reader, kept.bytes) == |kept.bytes| && c.visible.value.Refs(w) <= |kept.bytes|
                  && forall i | 0 <= i < k :: frames[i].start < c.visible.value.Refs(w)
                                              || frames[i].record.snapshot in PackAfter(e, s, c).value.cat.rows)
  {
    ReopensAnyIff(e, s, c);
    hide PackSurvives, LogSurvives, LogTorn, PackAfter, ReopenLog, RetainedFrames, After, KeptLog,
         FramesReach, Refs.FramesEnd, Refs.Frames, Reliable, Whole;
    k := LogAfterCrash(e, s, c, w, n);
  }

  // ---- what every crash keeps ----

  lemma PackPartAfter(e: Env, s: State, c: Crash)
    requires PackOk(e, s) && CatalogsOk(e, s) && s.commits != [] && CrashOf(e, s, c) && After(e, s, c).Ok?
    ensures PackOk(e, After(e, s, c).value) && CatalogsOk(e, After(e, s, c).value)
  {
    hide After, CatalogsOk, PackAfter, LogKept, CrashOf, CatalogOk, RecordsKnown, Covered, Scan, ScanEnd, ObjectsClosed,
         RunOk, FramesReach;
    ReopensIff(e, s, c);
    PackAfterCrash(e, s, c);
    SingleCommit(e, After(e, s, c).value);
  }

  /** Every commit ever made may still come back. */
  lemma OlderAfter(e: Env, s: State, c: Crash)
    requires CatalogsOk(e, s) && OlderOk(e, s) && s.commits != [] && After(e, s, c).Ok?
    ensures OlderOk(e, After(e, s, c).value)
  {
    ReopensAnyIff(e, s, c);
    hide After, CatalogsOk, PackAfter, LogKept, FramesReach, OwnRows;
    RebuiltOlderOk(e, s, After(e, s, c).value);
  }

  /** What is left of the pack: the records that survived, as they were written. */
  ghost predicate PackLeft(e: Env, s: State, c: Crash)
    requires PackAfter(e, s, c).Ok?
  {
    var r := PackAfter(e, s, c).value;
    var end := ScanEnd(e.h, c.pack, 0);
    |r.pack| == end <= |s.Pack()| && r.pack == s.Pack()[..end] && ScanEnd(e.h, r.pack, 0) == |r.pack|
  }

  lemma FrontierPackAfter(e: Env, s: State, c: Crash, f: Frontier)
    requires s.commits != [] && CrashFiles(e, s, c) && ScanEnd(e.h, s.Pack(), 0) == |s.Pack()|
    requires After(e, s, c).Ok? && PackAfter(e, s, c).Ok? && PackLeft(e, s, c) && PackCovered(e, s, f, true)
    ensures PackCovered(e, After(e, s, c).value, f, true)
  {
    ReopensAnyIff(e, s, c);
    var d := f.Pack(e.name);
    var end := ScanEnd(e.h, c.pack, 0);
    var pack := PackAfter(e, s, c).value.pack;
    assert pack == After(e, s, c).value.Pack();
    hide PackAfter, After, LogKept, FramesReach, LogSurvives, LogTorn;
    assert d <= end by {
      if c.visible.Some? {
        BoundaryShared(e.h, s.Pack(), c.pack, s.packSynced, d);
        assert c.pack[..0] == [];
        hide ParseRecord, Scan;
        ScanSplit(e.h, c.pack, 0, d);
        ScanAfter(e.h, c.pack, d);
      } else {
        BoundaryInside(e.h, s.Pack(), d);
      }
    }
    hide ParseRecord, Scan, ScanEnd;
    BoundaryShared(e.h, s.Pack(), pack, end, d) by { assert pack[..end] == pack; }
  }

  lemma LogsIntactAfter(e: Env, s: State, c: Crash)
    requires s.commits != [] && CrashFiles(e, s, c) && After(e, s, c).Ok?
    ensures LogsIntact(e, After(e, s, c).value)
    ensures c.visible.Some? ==> AllClean(e, After(e, s, c).value)
  {
    hide After, CrashFiles, PackAfter, LogKept, FramesReach, RetainedFrames, Refs.Frames, Refs.Intact;
    ReopensAnyIff(e, s, c);
    var s' := After(e, s, c).value;
    forall w | w in s'.logs
      ensures LogIntact(e, s'.logs[w])
      ensures c.visible.Some? ==> Refs.FramesEnd(e.reader, s'.logs[w].bytes) == |s'.logs[w].bytes|
    {
      NoFramesAreRetained(e, s, c, w);
      var k := LogOfAfter(e, s, c, w, 0);
    }
  }

  /** Whatever a group commit sampled, reopening restores the base invariant where it succeeds. */
  lemma CrashKeepsBase(e: Env, s: State, c: Crash)
    requires Base(e, s) && s.commits != [] && CrashOf(e, s, c) && After(e, s, c).Ok?
    ensures Base(e, After(e, s, c).value)
  {
    PackPartAfter(e, s, c);
    OlderAfter(e, s, c);
    LogsIntactAfter(e, s, c);
    ReopensIff(e, s, c);
    PackAfterCrash(e, s, c);
    PackIsLeft(e, s, c);
    if c.visible.Some? {
      VisibleIsCovered(e, s, c);
      FrontierPackAfter(e, s, c, c.visible.value);
    }
    if c.stable.Some? {
      FrontierPackAfter(e, s, c, c.stable.value);
    }
    hide After, PackOk, CatalogsOk, PackAfter, LogKept, FramesReach, PackCovered, LogsIntact, PackSurvives, LogSurvives,
         LogTorn, OlderOk, Reliable, Whole;
  }

  lemma PackIsLeft(e: Env, s: State, c: Crash)
    requires PackOk(e, s) && CatalogsOk(e, s) && s.commits != [] && CrashOf(e, s, c) && PackAfter(e, s, c).Ok?
    ensures PackLeft(e, s, c) && ScanEnd(e.h, s.Pack(), 0) == |s.Pack()|
  {
    PackAfterCrash(e, s, c);
    hide PackAfter, CatalogsOk, CrashOf, ScanEnd, RecordsKnown, Covered, CatalogOk;
  }

  lemma VisibleIsCovered(e: Env, s: State, c: Crash)
    requires s.commits != [] && CrashFiles(e, s, c) && c.visible.Some?
    ensures PackCovered(e, s, c.visible.value, true)
  {
  }

  /** What is durably published survives every crash the store opens after, and is durably published then. */
  lemma CrashKeepsDurable(e: Env, s: State, c: Crash, w: string, n: nat)
    requires PackOk(e, s) && CatalogsOk(e, s) && s.commits != [] && CrashOf(e, s, c) && After(e, s, c).Ok?
    requires DurablyPublished(e, s, w, n) && 0 < n
    ensures After(e, s, c).value.commits != []
    ensures DurablyPublished(e, After(e, s, c).value, w, n)
    ensures w in s.logs && w in After(e, s, c).value.logs
    ensures n <= |Frames(e, s.logs[w].bytes)| && n <= |Frames(e, After(e, s, c).value.logs[w].bytes)|
    ensures Frames(e, After(e, s, c).value.logs[w].bytes)[..n] == Frames(e, s.logs[w].bytes)[..n]
  {
    hide After, PackOk, CatalogsOk, CrashOf, PackAfter, LogKept, CatalogOk, Covered, RecordsKnown, Scan,
         ScanEnd, Refs.Frames, Refs.FramesEnd, KeptLog, FramesReach, Located, Within, RetainedFrames;
    ReopensIff(e, s, c);
    PackAfterCrash(e, s, c);
    var s' := After(e, s, c).value;
    var log := s.logs[w];
    assert DurableFrame(e, s, w, Frames(e, log.bytes)[0]);
    FrameNonempty(e, log.bytes, 0);
    SyncedLogSurvives(e, s, c, w);
    DurableIsRetained(e, s, c, w, n);
    CrashIsOfFiles(e, s, c);
    var k := LogOfAfter(e, s, c, w, n);
    var frames := Frames(e, log.bytes);
    var kept := s'.logs[w].bytes;
    assert Frames(e, kept) == frames[..k] by { KeptFrames(e, log.bytes, kept, k); }
    forall i | 0 <= i < n
      ensures Frames(e, kept)[i] == frames[i]
      ensures DurableFrame(e, s', w, frames[i])
    {
      assert DurableFrame(e, s, w, frames[i]);
      FrameInside(e, kept, i);
      DurableAfterCrash(e, s, c, w, frames[i]);
    }
  }

  /** What a durable frame needs besides the log is there again. */
  lemma DurableAfterCrash(e: Env, s: State, c: Crash, w: string, frame: Refs.Frame)
    requires PackOk(e, s) && CatalogsOk(e, s) && s.commits != [] && CrashOf(e, s, c) && After(e, s, c).Ok?
    requires DurableFrame(e, s, w, frame)
    ensures var s' := After(e, s, c).value;
            && s'.commits != [] && Located(e, s'.Pack(), Current(s'), frame.record.snapshot)
            && Within(e, s', frame.record.snapshot, s'.packSynced)
            && (e.anyCommit ==> Vouched(s', w, frame.start))
  {
    hide After, PackOk, CatalogsOk, PackAfter, LogKept, FramesReach, Located, Scan, ScanEnd, PackSurvives, LogSurvives, LogTorn,
         Reliable, Counted;
    ReopensIff(e, s, c);
    PackAfterCrash(e, s, c);
    WithinAfterCrash(e, s, c, frame.record.snapshot, s.packSynced);
    var s' := After(e, s, c).value;
    if e.anyCommit {
      RecordsInside(e, s'.Pack(), frame.record.snapshot, s.packSynced);
    } else {
      CatalogRowsInside(e, s'.Pack(), Current(s'), s.objects, frame.record.snapshot);
    }
  }

  lemma RecordsInside(e: Env, pack: seq<byte>, id: Digest, limit: nat)
    requires RecordedBy(e, pack, limit, id)
    ensures RecordedBy(e, pack, Min(limit, |pack|), id)
  {
    hide Scan, ScanEnd;
    var i: nat :| i < |Scan(e.h, pack, 0)| && Scan(e.h, pack, 0)[i].id == id && Scan(e.h, pack, 0)[i].End() <= limit;
    RecordIsNonempty(e.h, pack, i);
  }

  lemma CatalogRowsInside(e: Env, pack: seq<byte>, cat: Catalog, objects: map<Digest, Obj>, id: Digest)
    requires CatalogOk(e, pack, cat, objects) && id in cat.rows
    ensures cat.rows[id].End() <= |pack|
  {
    hide Covered, RowsClosed, Counts, Boundary;
    assert Names(e.h, pack, id, cat.rows[id]);
  }

  lemma SyncedLogSurvives(e: Env, s: State, c: Crash, w: string)
    requires s.commits != [] && CrashOf(e, s, c) && w in s.logs && 0 < s.logs[w].synced
    ensures w in c.logs
  {
    hide PackSurvives, LogSurvives, LogTorn, Reliable, Whole;
  }

  lemma KeptFrames(e: Env, bytes: seq<byte>, kept: seq<byte>, k: nat)
    requires KeptLog(e, bytes, kept, k)
    ensures k <= |Frames(e, bytes)| && Frames(e, kept) == Frames(e, bytes)[..k]
  {
  }

  lemma FrameInside(e: Env, bytes: seq<byte>, i: nat)
    requires i < |Frames(e, bytes)|
    ensures Frames(e, bytes)[i].end <= Refs.FramesEnd(e.reader, bytes)
  {
    hide Refs.Chain, Refs.FrameAt, Refs.ChainEnd;
    Refs.FramesOrdered(e.reader, bytes, i, i);
  }

  lemma FrameNonempty(e: Env, bytes: seq<byte>, i: nat)
    requires i < |Frames(e, bytes)|
    ensures 0 < Frames(e, bytes)[i].end
  {
    hide Refs.Chain, Refs.FrameAt;
    Refs.FramesOrdered(e.reader, bytes, i, i);
  }

  // ---- crashes of a store whose frontiers are right about its logs ----

  /** A crash that finds frontiers of the invariant. */
  ghost predicate SoundCrash(e: Env, s: State, c: Crash)
    requires s.commits != []
  {
    && CrashOf(e, s, c)
    && (c.visible.Some? ==> FrontierOk(e, s, c.visible.value, true, true))
    && (c.stable.Some? ==> FrontierOk(e, s, c.stable.value, true, true) && c.visible.Some?)
  }

  /** What a frontier says about one log, listed or not. */
  lemma FrontierLimits(e: Env, s: State, f: Frontier, w: string)
    requires s.commits != [] && FrontierOk(e, s, f, true, true)
    ensures f.Refs(w) <= LogOf(s, w).synced && FrameBoundary(e, LogOf(s, w).bytes, f.Refs(w))
  {
    hide PackCovered, Refs.Frames;
    if f.Refs(w) == 0 {
      RefLog.EmptyLog(e.reader);
      assert LogOf(s, w).bytes[..0] == [];
      hide Refs.FramesEnd;
      EmptyEnd(e);
    }
  }

  lemma EmptyEnd(e: Env)
    ensures Refs.FramesEnd(e.reader, []) == 0
  {
  }

  lemma FrontierBacks(e: Env, s: State, f: Frontier, w: string, i: nat)
    requires s.commits != [] && FrontierOk(e, s, f, true, true)
    requires i < |Frames(e, LogOf(s, w).bytes)| && Frames(e, LogOf(s, w).bytes)[i].end <= f.Refs(w)
    ensures Within(e, s, Frames(e, LogOf(s, w).bytes)[i].record.snapshot, f.Pack(e.name))
    ensures f.Pack(e.name) <= s.packSynced
    ensures Frames(e, LogOf(s, w).bytes)[i].end <= LogOf(s, w).synced
  {
    hide Scan, ScanEnd, Refs.FramesEnd, Boundary, Within;
    FrameNonempty(e, LogOf(s, w).bytes, i);
  }

  /** Frontiers that end at frame boundaries are always reached, so the store opens. */
  lemma SoundCrashReopens(e: Env, s: State, c: Crash)
    requires PackOk(e, s) && CatalogsOk(e, s) && s.commits != [] && SoundCrash(e, s, c)
    ensures FramesReach(e, c) && After(e, s, c).Ok?
  {
    hide PackOk, CatalogsOk, After, FrontierOk, PackSurvives, PackCovered, LogSurvives, LogTorn, FrameBoundary,
         Refs.FramesEnd, Reliable, Whole;
    if c.visible.Some? {
      forall w | w in c.logs
        ensures c.visible.value.Refs(w) <= Refs.FramesEnd(e.reader, c.logs[w])
      {
        FrontierLimits(e, s, c.visible.value, w);
        BoundaryIsReached(e, LogOf(s, w), c.logs[w], c.visible.value.Refs(w));
      }
    }
    ReopensIff(e, s, c);
  }

  /** A published snapshot keeps its row when nothing of pack, catalog and frontier files was lost. */
  lemma WholeKeepsRow(e: Env, s: State, c: Crash, id: Digest)
    requires PackOk(e, s) && CatalogsOk(e, s) && s.commits != [] && CrashOf(e, s, c) && PackAfter(e, s, c).Ok?
    requires Whole(e, s, c) && id in Current(s).rows
    ensures id in PackAfter(e, s, c).value.cat.rows
  {
    ViewOfCurrent(e, s);
    hide PackOk, CatalogsOk, PackAfter, CrashOf, CatalogOk, ScanEnd;
    CatalogRowsInside(e, s.Pack(), Current(s), s.objects, id);
    RowAfterCrash(e, s, c, id);
  }

  lemma ViewOfCurrent(e: Env, s: State)
    requires CatalogsOk(e, s) && s.commits != []
    ensures CatalogOk(e, s.Pack(), Current(s), s.objects) && Current(s) in s.commits
  {
    hide CatalogOk, Extends;
  }

  /** Every kept frame names a snapshot that the recovered pack has and a reader finds, and that has a row unless the
      frontiers cover the frame. */
  lemma KeptArePresent(e: Env, s: State, c: Crash, w: string, i: nat)
    requires PackOk(e, s) && CatalogsOk(e, s) && s.commits != [] && SoundCrash(e, s, c) && PackAfter(e, s, c).Ok?
    requires i < |Frames(e, LogOf(s, w).bytes)| && Published(e, s, w, Frames(e, LogOf(s, w).bytes)[i])
    requires c.visible.Some? ==>
               Frames(e, LogOf(s, w).bytes)[i].start < c.visible.value.Refs(w)
               || Frames(e, LogOf(s, w).bytes)[i].record.snapshot in PackAfter(e, s, c).value.cat.rows
    ensures var frame := Frames(e, LogOf(s, w).bytes)[i];
            var r := PackAfter(e, s, c).value;
            && Located(e, r.pack, r.cat, frame.record.snapshot)
            && (frame.record.snapshot in r.cat.rows
                || (Covers(c.visible, w, frame.start) && Covers(c.stable, w, frame.start)))
  {
    hide PackOk, CatalogsOk, PackAfter, FrontierOk, PackSurvives, PackCovered, LogSurvives, LogTorn, FrameBoundary,
         Refs.FramesEnd, Refs.Frames, Scan, ScanEnd, Counted, Reliable, Whole, Within;
    var frame := Frames(e, LogOf(s, w).bytes)[i];
    var id := frame.record.snapshot;
    if id !in PackAfter(e, s, c).value.cat.rows {
      if c.visible.None? {
        PublishedIsInPack(e, s, w, frame);
        WithinAfterCrash(e, s, c, id, |s.Pack()|);
      } else {
        FrontierLimits(e, s, c.visible.value, w);
        var g := FramesBeforeBoundary(e, LogOf(s, w).bytes, c.visible.value.Refs(w));
        FrontierBacks(e, s, c.visible.value, w, i);
        WithinAfterCrash(e, s, c, id, c.visible.value.Pack(e.name));
      }
      if c.stable != c.visible && id in Current(s).rows {
        WholeKeepsRow(e, s, c, id);
      }
      WholeFiles(e, s, c);
    }
  }

  lemma WholeFiles(e: Env, s: State, c: Crash)
    requires s.commits != []
    ensures Whole(e, s, c) ==> c.visible == s.visible && c.stable == s.stable
  {
  }

  lemma PublishedIsInPack(e: Env, s: State, w: string, frame: Refs.Frame)
    requires CatalogsOk(e, s) && s.commits != [] && Published(e, s, w, frame)
    ensures Within(e, s, frame.record.snapshot, |s.Pack()|)
  {
    ViewOfCurrent(e, s);
    hide CatalogsOk, Located, Within;
    CatalogInside(e, s.Pack(), Current(s), s.objects);
    LocatedIsWithin(e, s, frame.record.snapshot, |s.Pack()|);
  }

  lemma CatalogInside(e: Env, pack: seq<byte>, cat: Catalog, objects: map<Digest, Obj>)
    requires CatalogOk(e, pack, cat, objects)
    ensures RowsEndBy(cat.rows, e.name, |pack|)
  {
    hide CatalogOk;
    forall id | id in cat.rows
      ensures cat.rows[id].End() <= |pack|
    {
      CatalogRowsInside(e, pack, cat, objects, id);
    }
  }

  lemma LogOfIsOk(e: Env, s: State, w: string)
    requires s.commits != [] && RefsOk(e, s)
    ensures LogOk(e, s, w, LogOf(s, w))
  {
    hide FrontierOk, GroupOk, AllClean, Refs.Chain, Refs.ChainEnd, Located;
    RefLog.EmptyLog(e.reader);
    Refs.NothingPastTheEnd(e.reader, []);
  }

  /** Every log of the reopened store is intact and names only snapshots it has. */
  lemma LogOkAfter(e: Env, s: State, c: Crash, w: string)
    requires Inv(e, s) && s.commits != [] && SoundCrash(e, s, c) && w in c.logs && After(e, s, c).Ok?
    ensures After(e, s, c).value.commits != [] && w in After(e, s, c).value.logs
    ensures LogOk(e, After(e, s, c).value, w, After(e, s, c).value.logs[w])
  {
    hide After, PackOk, CatalogsOk, OlderOk, RefsOk, PackAfter, LogKept, Scan, ScanEnd, Refs.Frames, Refs.FramesEnd,
         Refs.Intact, RetainedFrames, CrashOf, FrontierOk, FramesReach, Located;
    ReopensIff(e, s, c);
    var s' := After(e, s, c).value;
    LogOfIsOk(e, s, w);
    NoFramesAreRetained(e, s, c, w);
    CrashIsOfFiles(e, s, c);
    var k := LogOfAfter(e, s, c, w, 0);
    var frames := Frames(e, LogOf(s, w).bytes);
    forall i | 0 <= i < |Frames(e, s'.logs[w].bytes)|
      ensures Published(e, s', w, Frames(e, s'.logs[w].bytes)[i])
    {
      assert Frames(e, s'.logs[w].bytes)[i] == frames[i];
      assert Published(e, s, w, frames[i]);
      KeptArePresent(e, s, c, w, i);
    }
  }

  /** A frame boundary inside the kept part is a boundary of what is kept. */
  lemma KeptBoundary(e: Env, bytes: seq<byte>, kept: seq<byte>, k: nat, g: nat, at: nat)
    requires KeptLog(e, bytes, kept, k) && g <= k && RefLog.KeptEnd(Frames(e, bytes), g) == at
    requires FrameBoundary(e, bytes, at)
    ensures at <= Refs.FramesEnd(e.reader, kept) && FrameBoundary(e, kept, at)
  {
    hide Refs.Chain, Refs.ChainEnd, Refs.FrameAt;
    if 0 < g {
      Refs.FramesOrdered(e.reader, bytes, g - 1, k - 1);
    }
    var end := RefLog.KeptEnd(Frames(e, bytes), k);
    PrefixOfPrefix(bytes, end, at);
    PrefixOfPrefix(kept, end, at);
  }

  /** A frame that a frontier found after the crash vouches for is kept. */
  lemma CoveredIsRetained(e: Env, s: State, c: Crash, f: Frontier, w: string, i: nat)
    requires PackOk(e, s) && CatalogsOk(e, s) && s.commits != [] && CrashOf(e, s, c) && PackAfter(e, s, c).Ok?
    requires FrontierOk(e, s, f, true, true) && (c.visible == Some(f) || c.stable == Some(f))
    requires i < |Frames(e, LogOf(s, w).bytes)| && Frames(e, LogOf(s, w).bytes)[i].end <= f.Refs(w)
    requires Frames(e, LogOf(s, w).bytes)[i].start < f.Refs(w)
    requires Published(e, s, w, Frames(e, LogOf(s, w).bytes)[i])
    ensures var frame := Frames(e, LogOf(s, w).bytes)[i];
            c.visible.None? || frame.start < c.visible.value.Refs(w)
            || frame.record.snapshot in PackAfter(e, s, c).value.cat.rows
  {
    hide PackOk, CatalogsOk, PackAfter, FrontierOk, PackSurvives, PackCovered, LogSurvives, LogTorn, Refs.FramesEnd,
         Refs.Frames, Located, Reliable, Whole;
    WholeFiles(e, s, c);
    if c.visible != Some(f) && Frames(e, LogOf(s, w).bytes)[i].record.snapshot in Current(s).rows {
      WholeKeepsRow(e, s, c, Frames(e, LogOf(s, w).bytes)[i].record.snapshot);
    }
  }

  /** The part of a frontier about one log, after the crash. */
  lemma FrontierLogAfter(e: Env, s: State, c: Crash, f: Frontier, w: string)
    requires PackOk(e, s) && CatalogsOk(e, s) && s.commits != [] && CrashOf(e, s, c) && After(e, s, c).Ok?
    requires FrontierOk(e, s, f, true, true) && w in f.refs && 0 < f.refs[w]
    requires (c.visible == Some(f) || c.stable == Some(f)) && LogOk(e, s, w, LogOf(s, w))
    ensures var s' := After(e, s, c).value;
            && s'.commits != [] && w in s'.logs
            && FrameBoundary(e, s'.logs[w].bytes, f.refs[w])
            && f.refs[w] <= s'.logs[w].synced
            && FramesBacked(e, s', s'.logs[w].bytes, f.refs[w], f.Pack(e.name))
  {
    hide After, PackOk, CatalogsOk, CrashOf, FrontierOk, FrameBoundary, Scan, ScanEnd, Refs.Frames, Refs.FramesEnd,
         PackAfter, KeptLog, LogKept, FramesReach, Published, Within, Located;
    ReopensIff(e, s, c);
    FrontierLimits(e, s, f, w);
    assert w in s.logs by { FrontierNamesLog(e, s, f, w); }
    SyncedLogSurvives(e, s, c, w);
    var s' := After(e, s, c).value;
    var at := f.refs[w];
    var log := s.logs[w];
    var g := FramesBeforeBoundary(e, log.bytes, at);
    forall i | 0 <= i < g
      ensures var frame := Frames(e, log.bytes)[i];
              && frame.end <= log.synced
              && (c.visible.None? || frame.start < c.visible.value.Refs(w)
                  || frame.record.snapshot in PackAfter(e, s, c).value.cat.rows)
    {
      FrontierBacks(e, s, f, w, i);
      CoveredIsRetained(e, s, c, f, w, i);
    }
    CrashIsOfFiles(e, s, c);
    var k := LogOfAfter(e, s, c, w, g);
    var kept := s'.logs[w].bytes;
    KeptBoundary(e, log.bytes, kept, k, g, at);
    KeptFrames(e, log.bytes, kept, k);
    forall i | 0 <= i < |Frames(e, kept)| && Frames(e, kept)[i].end <= at
      ensures Within(e, s', Frames(e, kept)[i].record.snapshot, f.Pack(e.name))
    {
      assert Frames(e, kept)[i] == Frames(e, log.bytes)[i];
      FrontierBacks(e, s, f, w, i);
      WithinIn(e, s, c, Frames(e, kept)[i].record.snapshot, f.Pack(e.name));
    }
  }

  lemma WithinIn(e: Env, s: State, c: Crash, id: Digest, limit: nat)
    requires PackOk(e, s) && CatalogsOk(e, s) && s.commits != [] && CrashOf(e, s, c) && After(e, s, c).Ok?
    requires Within(e, s, id, limit) && limit <= s.packSynced
    ensures After(e, s, c).value.commits != [] && Within(e, After(e, s, c).value, id, limit)
  {
    hide After, PackOk, CatalogsOk, CrashOf, PackAfter, LogKept, FramesReach, Located, RecordedBy;
    ReopensIff(e, s, c);
    WithinAfterCrash(e, s, c, id, limit);
  }

  lemma FrontierNamesLog(e: Env, s: State, f: Frontier, w: string)
    requires s.commits != [] && FrontierOk(e, s, f, true, true) && w in f.refs && 0 < f.refs[w]
    ensures w in s.logs
  {
    hide PackCovered, FrameBoundary, FramesBacked;
  }

  /** A frontier stays right across the crash: everything it vouches for was on disk. */
  lemma FrontierAfterCrash(e: Env, s: State, c: Crash, f: Frontier)
    requires PackOk(e, s) && CatalogsOk(e, s) && s.commits != [] && CrashOf(e, s, c) && After(e, s, c).Ok?
    requires FrontierOk(e, s, f, true, true) && (c.visible == Some(f) || c.stable == Some(f)) && RefsOk(e, s)
    ensures After(e, s, c).value.commits != [] && FrontierOk(e, After(e, s, c).value, f, true, true)
  {
    hide After, PackOk, CatalogsOk, PackAfter, CrashOf, CrashFiles, LogKept, FramesBacked, FrameBoundary, PackCovered,
         FramesReach, RefsOk, LogOk, PackLeft, ScanEnd;
    ReopensIff(e, s, c);
    CrashIsOfFiles(e, s, c);
    PackIsLeft(e, s, c);
    FrontierPackAfter(e, s, c, f);
    var s' := After(e, s, c).value;
    forall w | w in f.refs && 0 < f.refs[w]
      ensures && w in s'.logs
              && FrameBoundary(e, s'.logs[w].bytes, f.refs[w])
              && f.refs[w] <= s'.logs[w].synced
              && FramesBacked(e, s', s'.logs[w].bytes, f.refs[w], f.Pack(e.name))
    {
      LogOfIsOk(e, s, w);
      FrontierLogAfter(e, s, c, f, w);
    }
  }

  /** Reopening succeeds and restores the invariant. */
  lemma CrashKeepsInv(e: Env, s: State, c: Crash)
    requires Inv(e, s) && s.commits != [] && SoundCrash(e, s, c)
    ensures After(e, s, c).Ok? && Inv(e, After(e, s, c).value)
  {
    SoundCrashReopens(e, s, c);
    ReopensIff(e, s, c);
    PackPartAfter(e, s, c);
    LogsIntactAfter(e, s, c);
    OlderAfter(e, s, c);
    hide After, PackOk, CatalogsOk, PackAfter, LogKept, FrontierOk, LogOk, CrashOf, FramesReach, AllClean, LogsIntact, OlderOk;
    var s' := After(e, s, c).value;
    forall w | w in s'.logs
      ensures LogOk(e, s', w, s'.logs[w])
    {
      LogOkAfter(e, s, c, w);
    }
    if c.visible.Some? {
      FrontierAfterCrash(e, s, c, c.visible.value);
    }
    if c.stable.Some? {
      FrontierAfterCrash(e, s, c, c.stable.value);
    }
  }
}
