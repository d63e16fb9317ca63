/** A sound store is one that compaction may start from. */
module StoreHealth {
  import opened Bytes
  import opened Pack
  import opened Recovery
  import opened Durability
  import opened StoreRuns
  import opened StoreTheorems
  import opened GroupCommits
  import Refs
  import Compaction

  /** The store outside a batch, as its files lie on disk. */
  function DiskOf(e: Env, s: State): Compaction.Disk {
    Compaction.Disk(map[e.name := s.Pack()], e.name, s.View(), s.visible)
  }

  /** Objects the store was given and has rows for. */
  ghost predicate Wanted(s: State, want: map<Digest, Obj>) {
    forall id | id in want :: id in s.View().rows && id in s.objects && want[id] == s.objects[id]
  }

  /** In every sound store outside a batch both ways to all stored objects are open: through the catalog and by
      scanning the pack. So whatever a collection marks in it, a compaction keeps through every crash. */
  lemma SoundIsHealthy(e: Env, s: State, want: map<Digest, Obj>)
    requires Base(e, s) && s.commits != [] && !s.inBatch && Wanted(s, want)
    ensures Compaction.Healthy(e.h, DiskOf(e, s), want)
  {
    ViewOk(e, s);
    hide ParseRecord, Scan, ScanEnd, Boundary, Names, Covered, RecordsKnown, ObjectsClosed, RunOk, CatalogsOk, LogsIntact,
         GroupInPack, ValidCheckpoint;
    assert RecordsKnown(e, s.Pack(), s.objects) && CatalogOk(e, s.Pack(), s.View(), s.objects);
    WantedRowsHold(e, s, want);
    WantedAreBacked(e, s, want);
    ViewIsTrusted(e, s);
    if s.visible.Some? {
      BoundaryInside(e.h, s.Pack(), s.visible.value.Pack(e.name));
    }
  }

  lemma WantedRowsHold(e: Env, s: State, want: map<Digest, Obj>)
    requires RecordsKnown(e, s.Pack(), s.objects) && RowsNamed(e, s.Pack(), s.View().rows) && Wanted(s, want)
    ensures Compaction.RowsHold(e.h, DiskOf(e, s), want)
  {
    hide ParseRecord, Scan, ScanEnd, Boundary, Names, RecordsKnown;
    forall id | id in want
      ensures Compaction.RowHolds(e.h, DiskOf(e, s).packs, DiskOf(e, s).cat.rows, id, want[id])
    {
      RowIsObject(e, s.Pack(), s.View().rows, s.objects, id);
    }
  }

  lemma WantedAreBacked(e: Env, s: State, want: map<Digest, Obj>)
    requires RecordsKnown(e, s.Pack(), s.objects) && RowsNamed(e, s.Pack(), s.View().rows) && Wanted(s, want)
    ensures Compaction.Backed(e.h, s.Pack(), want)
  {
    hide ParseRecord, Scan, ScanEnd, Boundary, Names;
    forall id | id in want
      ensures Compaction.Recorded(e.h, s.Pack(), id)
    {
      StartIsBoundary(e.h, s.Pack());
      NameIsNonempty(e.h, s.Pack(), id, s.View().rows[id]);
      var i := NamedIsScanned(e.h, s.Pack(), 0, id, s.View().rows[id]);
    }
  }

  lemma ViewIsTrusted(e: Env, s: State)
    requires CatalogOk(e, s.Pack(), s.View(), s.objects)
    ensures TrustIsSound(e.h, e.name, s.Pack(), s.View(), s.visible)
  {
    hide ParseRecord, Scan, ScanEnd, Boundary, Names, Covered, ValidCheckpoint;
  }

  /** Such stores are reached, with something to keep: after its first reference a store is healthy for the
      snapshot. */
  lemma FirstReferenceIsHealthy(e: Env, obj: Obj, w: string, record: Refs.RefRecord)
    requires EnvOk(e) && obj.Fits() && obj.kind == Snapshot && e.edges(obj) == []
    requires record.sequence == 1 && record.previous == ZeroDigest() && record.snapshot == obj.Id(e.h)
    requires |e.reader.codec.encode(record)| <= Refs.MAX_RECORD
    ensures Compaction.Healthy(e.h, DiskOf(e, FirstPublished(e, obj, w, record)), map[obj.Id(e.h) := obj])
  {
    var s := FirstPublished(e, obj, w, record);
    hide Base, Run, Compaction.Healthy, Refs.EncodeFrame, EncodeRecord, Obj.Id;
    FreshStoreOk(e);
    InvIsBase(e, Fresh());
    FirstPublishedIsReached(e, obj, w, record);
    RecentIsTrusted(e, Fresh(), [Begin, PutObject(obj), Commit, Publish(w, record)]);
    RunKeepsBase(e, Fresh(), [Begin, PutObject(obj), Commit, Publish(w, record)], s);
    SoundIsHealthy(e, s, map[obj.Id(e.h) := obj]);
  }
}
