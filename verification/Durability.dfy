/**
  * The crash-safe store as a state machine: a writer with catalog batches, a group commit running beside it,
  * process crashes, power losses and reopening. What survives is proved over every run.
  */
module Durability {
  import opened Bytes
  import opened Pack
  import opened Recovery
  import opened IndexCheck
  import Refs

  /**
    * The fixed parameters of a store: hashing, the reference reader, the active pack, how objects refer, and which
    * catalog commits a power loss may bring back. Commits are not flushed: with `anyCommit` it may be one of an
    * earlier session, otherwise only one made since the store was opened or its index rebuilt.
    */
  datatype Env = Env(h: Hasher, reader: Refs.Reader, name: PackName, edges: Obj -> seq<Edge>, anyCommit: bool)

  /** A reference log and how much of it is known to be on disk. */
  datatype Log = Log(bytes: seq<byte>, synced: nat)

  /** How far a group commit has come. */
  datatype Group =
    | Idle
    | RefsSampled(refs: map<string, nat>)
    | PacksSampled(frontier: Frontier)
    | PacksSynced(frontier: Frontier)
    | RefsSynced(frontier: Frontier)

  datatype State = State(
    session: Session,            // the written pack, the catalog this connection sees, the append run
    packSynced: nat,             // how much of the pack is known to be on disk
    commits: seq<Catalog>,       // catalog states committed since the store was opened; the last is current
    older: set<Catalog>,         // catalog states committed before that
    inBatch: bool,
    logs: map<string, Log>,
    visible: Option<Frontier>,   // the frontier file as processes see it
    stable: Option<Frontier>,    // the frontier file as a power loss may find it
    group: Group,
    objects: map<Digest, Obj>)   // every object ever handed to the store
  {
    function Pack(): seq<byte> { session.pack }

    function View(): Catalog { session.cat }
  }

  ghost function Current(s: State): Catalog
    requires s.commits != []
  {
    s.commits[|s.commits| - 1]
  }

  /** How much of the pack a catalog's checkpoint vouches for. */
  function Verified(e: Env, cat: Catalog): nat {
    if e.name in cat.checkpoints then cat.checkpoints[e.name].verifiedLen else 0
  }

  // ---- invariants ----

  /** Every record in the pack is an object the store was given. */
  ghost predicate RecordsKnown(e: Env, pack: seq<byte>, objects: map<Digest, Obj>) {
    forall i | 0 <= i < |Scan(e.h, pack, 0)| ::
      var loc := Scan(e.h, pack, 0)[i];
      && loc.End() <= |pack| && loc.id in objects && ObjAt(pack, loc) == objects[loc.id]
  }

  /** Known objects refer to known objects of the right kind. */
  ghost predicate ObjectsClosed(e: Env, objects: map<Digest, Obj>) {
    forall id, edge | id in objects && edge in e.edges(objects[id]) ::
      edge.id in objects && objects[edge.id].kind == edge.kind
  }

  ghost predicate RowsNamed(e: Env, pack: seq<byte>, rows: map<Digest, Row>) {
    forall id | id in rows :: rows[id].pack == e.name && Names(e.h, pack, id, rows[id])
  }

  /** The pack has a record of the object that ends by `limit`. */
  ghost predicate RecordedBy(e: Env, pack: seq<byte>, limit: nat, id: Digest) {
    exists i: nat :: i < |Scan(e.h, pack, 0)| && Scan(e.h, pack, 0)[i].id == id && Scan(e.h, pack, 0)[i].End() <= limit
  }

  predicate RowsReach(rows: map<Digest, Row>, at: nat) {
    exists id :: id in rows && at <= rows[id].End()
  }

  /** The object has a record that the checkpoint counts, and that does not end past the last row. */
  ghost predicate Counted(e: Env, pack: seq<byte>, cat: Catalog, id: Digest) {
    exists i: nat :: i < |Scan(e.h, pack, 0)| && Scan(e.h, pack, 0)[i].id == id
                     && Scan(e.h, pack, 0)[i].End() <= Verified(e, cat) && RowsReach(cat.rows, Scan(e.h, pack, 0)[i].End())
  }

  /** A reader finds the object: by its row or, where an older commit may have lost the row, by the reset. */
  ghost predicate Located(e: Env, pack: seq<byte>, cat: Catalog, id: Digest) {
    id in cat.rows || (e.anyCommit && Counted(e, pack, cat, id))
  }

  /** A catalog never has an object without what it refers to. */
  ghost predicate RowsClosed(e: Env, pack: seq<byte>, cat: Catalog, objects: map<Digest, Obj>) {
    forall id, edge | id in cat.rows && id in objects && edge in e.edges(objects[id]) :: Located(e, pack, cat, edge.id)
  }

  /** `id` has a row ending by `v`, or a record between `v` and `before`. */
  ghost predicate Available(e: Env, pack: seq<byte>, rows: map<Digest, Row>, v: nat, before: nat, id: Digest) {
    || (id in rows && rows[id].End() <= v)
    || exists j | 0 <= j < |Scan(e.h, pack, 0)| ::
         var loc := Scan(e.h, pack, 0)[j];
         loc.id == id && v <= loc.start && loc.End() <= before
  }

  /**
    * Children precede parents, as a recovery that trusts `v` will see it: whatever a record past `v` refers to
    * has a row up to `v` or a record between `v` and it, even when the batch that wrote it was rolled back.
    */
  ghost predicate Covered(e: Env, pack: seq<byte>, rows: map<Digest, Row>, v: nat) {
    forall i, edge | 0 <= i < |Scan(e.h, pack, 0)| && v <= Scan(e.h, pack, 0)[i].start
                     && Scan(e.h, pack, 0)[i].End() <= |pack|
                     && edge in e.edges(ObjAt(pack, Scan(e.h, pack, 0)[i])) ::
      Available(e, pack, rows, v, Scan(e.h, pack, 0)[i].start, edge.id)
  }

  /** What a catalog says of the pack is right: its rows name records, its checkpoint counts them. */
  ghost predicate CatalogNamed(e: Env, pack: seq<byte>, cat: Catalog) {
    && RowsNamed(e, pack, cat.rows)
    && (e.name in cat.checkpoints ==> Counts(e.h, pack, cat.checkpoints[e.name]))
  }

  ghost predicate CatalogOk(e: Env, pack: seq<byte>, cat: Catalog, objects: map<Digest, Obj>) {
    && CatalogNamed(e, pack, cat)
    && RowsClosed(e, pack, cat, objects)
    && Covered(e, pack, cat.rows, Verified(e, cat))
  }

  ghost predicate OwnRows(e: Env, cat: Catalog) {
    forall id | id in cat.rows :: cat.rows[id].pack == e.name
  }

  /** A catalog that recovery of `survived` may start from: right about the prefix it makes recovery trust, if any. */
  ghost predicate Reliable(e: Env, survived: seq<byte>, cat: Catalog, frontier: Option<Frontier>) {
    OwnRows(e, cat) && TrustIsSound(e.h, e.name, survived, cat, frontier)
  }

  /** Two catalogs of one session: no row was lost or moved, and none is new below the older checkpoint. */
  ghost predicate Extends(e: Env, older: Catalog, newer: Catalog) {
    && Verified(e, older) <= Verified(e, newer)
    && (forall id | id in older.rows :: id in newer.rows && newer.rows[id] == older.rows[id])
    && (forall id | id in newer.rows && newer.rows[id].End() <= Verified(e, older) :: id in older.rows)
  }

  /** The append run describes the end of the pack. */
  ghost predicate RunOk(e: Env, pack: seq<byte>, run: AppendRun) {
    && run.start < run.end == |pack|
    && Boundary(e.h, pack, run.start)
    && var locs := Scan(e.h, pack, run.start);
    && locs != [] && run.objects == |locs|
    && run.lastObject == locs[|locs| - 1].id && run.lastRecordStart == locs[|locs| - 1].start
  }

  ghost predicate PackOk(e: Env, s: State) {
    && ScanEnd(e.h, s.Pack(), 0) == |s.Pack()|
    && s.packSynced <= |s.Pack()|
    && RecordsKnown(e, s.Pack(), s.objects)
    && ObjectsClosed(e, s.objects)
    && Covered(e, s.Pack(), map[], 0)
    && (s.session.run.Some? ==> RunOk(e, s.Pack(), s.session.run.value))
  }

  ghost predicate CatalogsOk(e: Env, s: State) {
    && s.commits != []
    && (!s.inBatch ==> s.View() == Current(s))
    && CatalogOk(e, s.Pack(), s.View(), s.objects)
    && (forall i | 0 <= i < |s.commits| :: CatalogOk(e, s.Pack(), s.commits[i], s.objects))
    && (forall i | 0 <= i < |s.commits| :: Extends(e, s.commits[i], Current(s)))
    && (forall i | 0 <= i < |s.commits| :: Extends(e, s.commits[i], s.View()))
  }

  ghost predicate OlderOk(e: Env, s: State) {
    forall cat | cat in s.older :: OwnRows(e, cat)
  }

  function Frames(e: Env, bytes: seq<byte>): seq<Refs.Frame> {
    Refs.Frames(e.reader, bytes)
  }

  /** What the group commit under way will vouch for. */
  function Pending(group: Group): Option<Frontier> {
    match group
    case Idle => None
    case RefsSampled(refs) => Some(Frontier(map[], refs))
    case PacksSampled(f) => Some(f)
    case PacksSynced(f) => Some(f)
    case RefsSynced(f) => Some(f)
  }

  predicate Covers(frontier: Option<Frontier>, w: string, start: nat) {
    frontier.Some? ==> start < frontier.value.Refs(w)
  }

  /** Every frontier that a crash may find, now or after the group commit under way, reaches past `start`. */
  predicate Vouched(s: State, w: string, start: nat) {
    Covers(s.visible, w, start) && Covers(s.stable, w, start) && Covers(Pending(s.group), w, start)
  }

  /** A published reference: its snapshot can be found, and it has a row unless every frontier covers the reference. */
  ghost predicate Published(e: Env, s: State, w: string, frame: Refs.Frame)
    requires s.commits != []
  {
    var id := frame.record.snapshot;
    && id in s.objects && s.objects[id].kind == Snapshot
    && Located(e, s.Pack(), Current(s), id)
    && (id in Current(s).rows || Vouched(s, w, frame.start))
  }

  /** A log ends after its last frame, or in a torn one that no lookup or append has trimmed yet. */
  ghost predicate LogIntact(e: Env, log: Log) {
    Refs.Intact(e.reader, log.bytes) && log.synced <= |log.bytes|
  }

  /** No log ends in a torn frame. */
  ghost predicate AllClean(e: Env, s: State) {
    forall w | w in s.logs :: Refs.FramesEnd(e.reader, s.logs[w].bytes) == |s.logs[w].bytes|
  }

  ghost predicate LogOk(e: Env, s: State, w: string, log: Log)
    requires s.commits != []
  {
    && LogIntact(e, log)
    && forall i | 0 <= i < |Frames(e, log.bytes)| :: Published(e, s, w, Frames(e, log.bytes)[i])
  }

  /** A length at which the log's frames end cleanly. */
  ghost predicate FrameBoundary(e: Env, bytes: seq<byte>, at: nat) {
    at <= |bytes| && Refs.FramesEnd(e.reader, bytes[..at]) == at
  }

  /** The object lies in the first `limit` bytes of the pack: its row says so or, where rows may be lost, a record. */
  ghost predicate Within(e: Env, s: State, id: Digest, limit: nat)
    requires s.commits != []
  {
    if e.anyCommit then RecordedBy(e, s.Pack(), limit, id)
    else id in Current(s).rows && Current(s).rows[id].End() <= limit
  }

  /** Every frame that ends by `at` names a snapshot whose record ends by `packLen`. */
  ghost predicate FramesBacked(e: Env, s: State, bytes: seq<byte>, at: nat, packLen: nat)
    requires s.commits != []
  {
    forall i | 0 <= i < |Frames(e, bytes)| && Frames(e, bytes)[i].end <= at ::
      Within(e, s, Frames(e, bytes)[i].record.snapshot, packLen)
  }

  ghost predicate PackCovered(e: Env, s: State, f: Frontier, packSynced: bool) {
    Boundary(e.h, s.Pack(), f.Pack(e.name)) && (packSynced ==> f.Pack(e.name) <= s.packSynced)
  }

  /** A frontier that may be published; `packSynced` and `refsSynced` say what of it must already be on disk. */
  ghost predicate FrontierOk(e: Env, s: State, f: Frontier, packSynced: bool, refsSynced: bool)
    requires s.commits != []
  {
    && PackCovered(e, s, f, packSynced)
    && forall w | w in f.refs && 0 < f.refs[w] ::
         && w in s.logs
         && FrameBoundary(e, s.logs[w].bytes, f.refs[w])
         && (refsSynced ==> f.refs[w] <= s.logs[w].synced)
         && FramesBacked(e, s, s.logs[w].bytes, f.refs[w], f.Pack(e.name))
  }

  ghost predicate GroupOk(e: Env, s: State)
    requires s.commits != []
  {
    match s.group
    case Idle => true
    case RefsSampled(refs) => forall w | w in refs :: w in s.logs && FrameBoundary(e, s.logs[w].bytes, refs[w])
    case PacksSampled(f) => FrontierOk(e, s, f, false, false)
    case PacksSynced(f) => FrontierOk(e, s, f, true, false)
    case RefsSynced(f) => FrontierOk(e, s, f, true, true)
  }

  ghost predicate RefsOk(e: Env, s: State)
    requires s.commits != []
  {
    && (forall w | w in s.logs :: LogOk(e, s, w, s.logs[w]))
    && (s.visible.Some? ==> FrontierOk(e, s, s.visible.value, true, true))
    && (s.stable.Some? ==> FrontierOk(e, s, s.stable.value, true, true) && s.visible.Some?)
    && GroupOk(e, s)
    && (AllClean(e, s) || (s.visible.None? && s.group.Idle?))
  }

  /** What holds as long as no group commit samples a log that ends in a torn frame. */
  ghost predicate Inv(e: Env, s: State) {
    PackOk(e, s) && CatalogsOk(e, s) && OlderOk(e, s) && RefsOk(e, s)
  }

  ghost predicate GroupInPack(e: Env, s: State) {
    match s.group
    case Idle => true
    case RefsSampled(_) => true
    case PacksSampled(f) => PackCovered(e, s, f, false)
    case PacksSynced(f) => PackCovered(e, s, f, true)
    case RefsSynced(f) => PackCovered(e, s, f, true)
  }

  ghost predicate LogsIntact(e: Env, s: State) {
    forall w | w in s.logs :: LogIntact(e, s.logs[w])
  }

  /** What holds in every run, whatever a group commit samples: frontiers are right about the pack, but what they
      say of the logs may be wrong. */
  ghost predicate Base(e: Env, s: State) {
    && PackOk(e, s) && CatalogsOk(e, s) && OlderOk(e, s) && LogsIntact(e, s)
    && (s.visible.Some? ==> PackCovered(e, s, s.visible.value, true))
    && (s.stable.Some? ==> PackCovered(e, s, s.stable.value, true))
    && GroupInPack(e, s)
  }

  lemma InvIsBase(e: Env, s: State)
    requires Inv(e, s)
    ensures Base(e, s)
  {
    hide PackOk, CatalogOk, PackCovered, Extends, Refs.Intact, Refs.Frames, OlderOk;
    forall w | w in s.logs ensures LogIntact(e, s.logs[w]) {
      assert LogOk(e, s, w, s.logs[w]);
    }
  }

  // ---- what readers rely on ----

  ghost predicate Refers(e: Env, obj: Obj, id: Digest) {
    exists edge | edge in e.edges(obj) :: edge.id == id
  }

  /** A chain of references between known objects. */
  ghost predicate Path(e: Env, objects: map<Digest, Obj>, path: seq<Digest>) {
    && path != []
    && (forall i | 0 <= i < |path| :: path[i] in objects)
    && forall i | 0 < i < |path| :: Refers(e, objects[path[i - 1]], path[i])
  }

  /** A read, with its one retry where commits of earlier sessions may come back. */
  ghost function ReadIn(e: Env, s: State, id: Digest, kind: Kind): Result<seq<byte>> {
    ReadBack(e.h, e.name, map[e.name := s.Pack()], s.View(), s.visible, e.anyCommit, id, kind)
  }

  /** Everything reachable from `root` reads back as the bytes the store was given. A retry needs an idle catalog. */
  ghost predicate ClosureReadable(e: Env, s: State, root: Digest) {
    (e.anyCommit ==> !s.inBatch) ==>
      forall path | Path(e, s.objects, path) && path[0] == root ::
        var obj := s.objects[path[|path| - 1]];
        ReadIn(e, s, path[|path| - 1], obj.kind) == Ok(obj.bytes)
  }

  ghost predicate FrontierInside(e: Env, s: State) {
    s.visible.Some? ==> s.visible.value.Pack(e.name) <= |s.Pack()|
  }

  /** Whatever a reader finds reads back as it was given. */
  lemma LocatedReads(e: Env, s: State, id: Digest)
    requires PackOk(e, s) && FrontierInside(e, s) && CatalogOk(e, s.Pack(), s.View(), s.objects)
    requires Located(e, s.Pack(), s.View(), id)
    ensures id in s.objects && ReadIn(e, s, id, s.objects[id].kind) == Ok(s.objects[id].bytes)
  {
    hide ParseRecord, Scan, ScanEnd, Boundary, Names, Covered, RowsClosed, Agrees, Recover, Read, ReadBack, RunOk;
    var packs := map[e.name := s.Pack()];
    if id in s.View().rows {
      RowIsObject(e, s.Pack(), s.View().rows, s.objects, id);
      NamedReads(e.h, packs, s.View().rows, id);
      FirstReadSuffices(e.h, e.name, packs, s.View(), s.visible, e.anyCommit, id, s.objects[id].kind);
    } else {
      var i: nat :| i < |Scan(e.h, s.Pack(), 0)| && Scan(e.h, s.Pack(), 0)[i].id == id
                    && Scan(e.h, s.Pack(), 0)[i].End() <= Verified(e, s.View());
      RecordIsNonempty(e.h, s.Pack(), i);
      MissingRowHeals(e.h, e.name, packs, s.View(), s.visible, i);
      NamedIsObject(e, s.Pack(), s.objects, id,
                    Recover(e.h, e.name, s.Pack(), ResetIndex(e.name, s.View()), s.visible).value.cat.rows[id]);
    }
  }

  lemma FirstReadSuffices(h: Hasher, name: PackName, packs: map<PackName, seq<byte>>, cat: Catalog,
                          frontier: Option<Frontier>, mayHeal: bool, id: Digest, kind: Kind)
    requires name in packs && Read(h, packs, cat.rows, id, kind).Ok?
    ensures ReadBack(h, name, packs, cat, frontier, mayHeal, id, kind) == Read(h, packs, cat.rows, id, kind)
  {
    hide Read, Recover, Agrees;
  }

  lemma RecordIsNonempty(h: Hasher, pack: seq<byte>, i: nat)
    requires i < |Scan(h, pack, 0)|
    ensures Scan(h, pack, 0)[i].start < Scan(h, pack, 0)[i].End() <= ScanEnd(h, pack, 0) <= |pack|
  {
    ScanElements(h, pack, 0, i);
  }

  /** A named row describes the known object of its identifier. */
  lemma RowIsObject(e: Env, pack: seq<byte>, rows: map<Digest, Row>, objects: map<Digest, Obj>, id: Digest)
    requires RecordsKnown(e, pack, objects) && RowsNamed(e, pack, rows) && id in rows
    ensures id in objects && rows[id].kind == objects[id].kind
    ensures rows[id].End() <= |pack|
    ensures pack[rows[id].offset..rows[id].offset + rows[id].len] == objects[id].bytes
  {
    hide Names, RecordsKnown;
    NamedIsObject(e, pack, objects, id, rows[id]);
  }

  lemma NamedIsObject(e: Env, pack: seq<byte>, objects: map<Digest, Obj>, id: Digest, row: Row)
    requires RecordsKnown(e, pack, objects) && Names(e.h, pack, id, row)
    ensures id in objects && row.kind == objects[id].kind && row.End() <= |pack|
    ensures pack[row.offset..row.offset + row.len] == objects[id].bytes
  {
    StartIsBoundary(e.h, pack);
    hide ParseRecord, Scan, ScanEnd, Boundary;
    NameIsNonempty(e.h, pack, id, row);
    var i := NamedIsScanned(e.h, pack, 0, id, row);
  }

  lemma StartIsBoundary(h: Hasher, pack: seq<byte>)
    ensures Boundary(h, pack, 0)
  {
    assert pack[..0] == [];
  }

  /** What a found object refers to is found. */
  lemma ChildIsLocated(e: Env, pack: seq<byte>, cat: Catalog, objects: map<Digest, Obj>, id: Digest, child: Digest)
    requires RecordsKnown(e, pack, objects) && Covered(e, pack, map[], 0) && RowsClosed(e, pack, cat, objects)
    requires Located(e, pack, cat, id) && id in objects && Refers(e, objects[id], child)
    ensures Located(e, pack, cat, child)
  {
    hide Scan, Covered;
    var edge :| edge in e.edges(objects[id]) && edge.id == child;
    if id !in cat.rows {
      var i: nat :| i < |Scan(e.h, pack, 0)| && Scan(e.h, pack, 0)[i].id == id
                    && Scan(e.h, pack, 0)[i].End() <= Verified(e, cat) && RowsReach(cat.rows, Scan(e.h, pack, 0)[i].End());
      RecordIsNonempty(e.h, pack, i);
      CoveredAt(e, pack, map[], 0, i, edge);
    }
  }

  lemma {:induction false} ReachableIsLocated(e: Env, s: State, cat: Catalog, path: seq<Digest>)
    requires Path(e, s.objects, path) && RecordsKnown(e, s.Pack(), s.objects) && Covered(e, s.Pack(), map[], 0)
    requires RowsClosed(e, s.Pack(), cat, s.objects) && Located(e, s.Pack(), cat, path[0])
    ensures Located(e, s.Pack(), cat, path[|path| - 1])
    decreases |path|
  {
    hide Located, RowsClosed, RecordsKnown, Covered;
    if |path| > 1 {
      var front := path[..|path| - 1];
      assert Path(e, s.objects, front) by {
        forall i | 0 < i < |front|
          ensures Refers(e, s.objects[front[i - 1]], front[i])
        {
          assert path[i - 1] == front[i - 1] && path[i] == front[i];
        }
      }
      ReachableIsLocated(e, s, cat, front);
      assert Refers(e, s.objects[path[|path| - 2]], path[|path| - 1]);
      ChildIsLocated(e, s.Pack(), cat, s.objects, path[|path| - 2], path[|path| - 1]);
    }
  }

  /** Whatever the committed catalog locates is readable with everything it reaches. */
  lemma CommittedIsReadable(e: Env, s: State, root: Digest)
    requires PackOk(e, s) && CatalogsOk(e, s) && FrontierInside(e, s) && Located(e, s.Pack(), Current(s), root)
    ensures ClosureReadable(e, s, root)
  {
    hide ParseRecord, Scan, ScanEnd, Boundary, Covered, RecordsKnown, CatalogNamed, RowsClosed, Counted, RunOk, ReadIn;
    assert Extends(e, Current(s), s.View());
    if e.anyCommit ==> !s.inBatch {
      forall path | Path(e, s.objects, path) && path[0] == root
        ensures var obj := s.objects[path[|path| - 1]];
                ReadIn(e, s, path[|path| - 1], obj.kind) == Ok(obj.bytes)
      {
        ReachableIsLocated(e, s, s.View(), path);
        LocatedReads(e, s, path[|path| - 1]);
      }
    }
  }

  /** In every state of the invariant, every reference of every log has its whole closure readable. */
  lemma ReferencesAreReadable(e: Env, s: State, w: string, i: nat)
    requires Inv(e, s)
    requires w in s.logs && i < |Frames(e, s.logs[w].bytes)|
    ensures ClosureReadable(e, s, Frames(e, s.logs[w].bytes)[i].record.snapshot)
  {
    hide PackOk, CatalogsOk, OlderOk, Refs.Frames, FramesBacked, FrameBoundary, GroupOk, ClosureReadable, LogIntact, ScanEnd,
         Located;
    assert s.commits != [] by { assert CatalogsOk(e, s); CommitsExist(e, s); }
    assert LogOk(e, s, w, s.logs[w]) && Published(e, s, w, Frames(e, s.logs[w].bytes)[i]);
    CommittedIsReadable(e, s, Frames(e, s.logs[w].bytes)[i].record.snapshot);
  }

  lemma CommitsExist(e: Env, s: State)
    requires CatalogsOk(e, s)
    ensures s.commits != []
  {
  }

  // ---- the pack after a crash ----

  /** The surviving file's valid records are a prefix of those written: storage does not forge records. */
  ghost predicate Genuine(h: Hasher, survived: seq<byte>, written: seq<byte>) {
    var end := ScanEnd(h, survived, 0);
    end <= |written| && survived[..end] == written[..end]
  }

  /** What a crash leaves of the pack. With a frontier anything may follow the synced part. */
  ghost predicate PackSurvives(
    e: Env, pack: seq<byte>, survived: seq<byte>, synced: nat, frontier: Option<Frontier>)
  {
    && Genuine(e.h, survived, pack)
    && synced <= |pack| && synced <= |survived| && survived[..synced] == pack[..synced]
    && (match frontier
        case Some(f) => f.Pack(e.name) <= synced && Boundary(e.h, pack, f.Pack(e.name))
        case None => ScanEnd(e.h, survived, 0) == |pack|
                     && (|survived| == |pack| || ParseRecord(e.h, survived, |pack|).Torn?))
  }

  lemma BoundaryShared(h: Hasher, pack: seq<byte>, other: seq<byte>, shared: nat, at: nat)
    requires at <= shared <= |pack| && shared <= |other| && other[..shared] == pack[..shared]
    ensures Boundary(h, pack, at) <==> Boundary(h, other, at)
    ensures other[..at] == pack[..at]
  {
    hide ScanEnd;
    PrefixOfPrefix(pack, shared, at);
    PrefixOfPrefix(other, shared, at);
  }

  /** A checkpoint recovery trusts lies in the part of the pack that survived. */
  lemma TrustSurvives(
    e: Env, pack: seq<byte>, cat: Catalog, survived: seq<byte>, synced: nat,
    frontier: Option<Frontier>)
    requires CatalogNamed(e, pack, cat) && PackSurvives(e, pack, survived, synced, frontier)
    ensures TrustIsSound(e.h, e.name, survived, cat, frontier)
  {
    hide ParseRecord, Scan, ScanEnd, Boundary, Names, Covered, HeaderNames;
    var trusted := TrustedCheckpoint(e.name, survived, cat, frontier);
    if trusted.Some? {
      var c := trusted.value;
      var shared := if frontier.Some? then synced else |pack|;
      assert c.verifiedLen <= shared <= |survived| && survived[..shared] == pack[..shared] by {
        assert Counts(e.h, pack, c);
        CountsBound(e.h, pack, c);
        assert pack[..|pack|] == pack;
      }
      BoundaryShared(e.h, pack, survived, shared, c.verifiedLen);
      forall id | id in cat.rows && cat.rows[id].pack == e.name && cat.rows[id].End() <= c.verifiedLen
        ensures Names(e.h, survived, id, cat.rows[id])
      {
        PrefixOfPrefix(pack, shared, cat.rows[id].End());
        PrefixOfPrefix(survived, shared, cat.rows[id].End());
        NamesIsLocal(e.h, pack, survived, id, cat.rows[id]);
      }
    }
  }

  lemma CountsBound(h: Hasher, pack: seq<byte>, c: Checkpoint)
    requires Counts(h, pack, c)
    ensures c.verifiedLen <= |pack|
  {
  }

  /** Reopening after a crash succeeds, keeps every durable byte, and leaves a clean prefix of what was written. */
  lemma PackReopens(
    e: Env, pack: seq<byte>, cat: Catalog, survived: seq<byte>, synced: nat,
    frontier: Option<Frontier>)
    requires TrustIsSound(e.h, e.name, survived, cat, frontier) && PackSurvives(e, pack, survived, synced, frontier)
    ensures var end := ScanEnd(e.h, survived, 0);
            var r := Recover(e.h, e.name, survived, cat, frontier);
            && r.Ok? && r.value.pack == pack[..end]
            && (frontier.Some? ==> frontier.value.Pack(e.name) <= end)
            && end <= |pack| && Boundary(e.h, pack, end)
            && ScanEnd(e.h, r.value.pack, 0) == |r.value.pack|
            && Scan(e.h, survived, 0) == Scan(e.h, r.value.pack, 0)
  {
    var end := ScanEnd(e.h, survived, 0);
    ScanOfPrefix(e.h, survived, 0);
    if frontier.Some? {
      var d := frontier.value.Pack(e.name);
      BoundaryShared(e.h, pack, survived, synced, d);
      StartIsBoundary(e.h, survived);
      hide ParseRecord, Scan;
      ScanSplit(e.h, survived, 0, d) by {
        assert ScanEnd(e.h, survived[..d], 0) == d;
      }
      ScanAfter(e.h, survived, d);
    }
    hide ParseRecord, Scan, Recover, TrustIsSound;
    RecoveryKeepsLongestPrefix(e.h, e.name, survived, cat, frontier);
  }

  /** A catalog that is right about the pack is right about what a crash leaves of it. */
  lemma NamedIsReliable(
    e: Env, pack: seq<byte>, cat: Catalog, survived: seq<byte>, synced: nat, frontier: Option<Frontier>)
    requires CatalogNamed(e, pack, cat) && PackSurvives(e, pack, survived, synced, frontier)
    ensures Reliable(e, survived, cat, frontier)
  {
    TrustSurvives(e, pack, cat, survived, synced, frontier);
    hide Names, Counts, PackSurvives, TrustIsSound;
  }

  /** Scanning a clean prefix lists the first records of the whole pack. */
  lemma ScanOfPart(e: Env, pack: seq<byte>, end: nat)
    requires Boundary(e.h, pack, end)
    ensures var part := pack[..end];
            && Scan(e.h, part, 0) <= Scan(e.h, pack, 0)
            && (forall i | 0 <= i < |Scan(e.h, pack, 0)| ::
                  (i < |Scan(e.h, part, 0)| <==> Scan(e.h, pack, 0)[i].End() <= end)
                  && Scan(e.h, pack, 0)[i].End() <= ScanEnd(e.h, pack, 0))
            && (forall i | 0 <= i < |Scan(e.h, part, 0)| ::
                  Scan(e.h, part, 0)[i].End() <= end
                  && ObjAt(part, Scan(e.h, part, 0)[i]) == ObjAt(pack, Scan(e.h, part, 0)[i]))
  {
    hide ParseRecord, Scan, ScanEnd, Boundary, ObjAt, Loc.End;
    SplitAtBoundary(e.h, pack, end);
    var part := pack[..end];
    forall i | 0 <= i < |Scan(e.h, pack, 0)|
      ensures i < |Scan(e.h, part, 0)| <==> Scan(e.h, pack, 0)[i].End() <= end
      ensures Scan(e.h, pack, 0)[i].End() <= ScanEnd(e.h, pack, 0)
      ensures i < |Scan(e.h, part, 0)| ==>
                Scan(e.h, pack, 0)[i].End() <= end && ObjAt(part, Scan(e.h, pack, 0)[i]) == ObjAt(pack, Scan(e.h, pack, 0)[i])
    {
      RecordIsNonempty(e.h, pack, i);
      if i < |Scan(e.h, part, 0)| {
        RecordIsNonempty(e.h, part, i);
        SameObject(pack, end, Scan(e.h, part, 0)[i]);
      } else {
        ScanBoundaries(e.h, pack, end, i - |Scan(e.h, part, 0)|);
      }
    }
  }

  lemma SplitAtBoundary(h: Hasher, pack: seq<byte>, end: nat)
    requires Boundary(h, pack, end)
    ensures end <= |pack| && Scan(h, pack, 0) == Scan(h, pack[..end], 0) + Scan(h, pack, end)
  {
    hide ParseRecord, Scan;
    ScanSplit(h, pack, 0, end);
  }

  lemma SameObject(pack: seq<byte>, end: nat, loc: Loc)
    requires loc.End() <= end <= |pack|
    ensures ObjAt(pack[..end], loc) == ObjAt(pack, loc)
  {
    SliceOfPrefix(pack, end, loc.Payload(), loc.Payload() + loc.len);
  }

  /** The record invariants hold for any clean prefix. */
  lemma PrefixKeepsRecords(e: Env, pack: seq<byte>, objects: map<Digest, Obj>, end: nat)
    requires Boundary(e.h, pack, end) && ScanEnd(e.h, pack, 0) == |pack|
    requires RecordsKnown(e, pack, objects) && Covered(e, pack, map[], 0)
    ensures RecordsKnown(e, pack[..end], objects) && Covered(e, pack[..end], map[], 0)
  {
    var part := pack[..end];
    ScanOfPart(e, pack, end);
    hide ParseRecord, Scan, ScanEnd, Boundary;
    forall i, edge | 0 <= i < |Scan(e.h, part, 0)| && edge in e.edges(ObjAt(part, Scan(e.h, part, 0)[i]))
      ensures Available(e, part, map[], 0, Scan(e.h, part, 0)[i].start, edge.id)
    {
      hide Covered, RecordsKnown;
      CoveredAt(e, pack, map[], 0, i, edge);
      PartAvailable(e, pack, end, Scan(e.h, pack, 0)[i].start, edge.id);
    }
  }

  lemma PartAvailable(e: Env, pack: seq<byte>, end: nat, before: nat, id: Digest)
    requires Boundary(e.h, pack, end) && before <= end
    requires Available(e, pack, map[], 0, before, id)
    ensures Available(e, pack[..end], map[], 0, before, id)
  {
    var part := pack[..end];
    ScanOfPart(e, pack, end);
    hide ParseRecord, Scan, ScanEnd, Boundary;
    var j :| 0 <= j < |Scan(e.h, pack, 0)| && Scan(e.h, pack, 0)[j].id == id
             && Scan(e.h, pack, 0)[j].End() <= before;
    assert Scan(e.h, part, 0)[j] == Scan(e.h, pack, 0)[j];
  }

  /** The rows recovery starts from: those of the trusted prefix, or none. */
  function BaseRows(cat: Catalog, trusted: Option<Checkpoint>): map<Digest, Row> {
    if trusted.Some? then cat.rows else map[]
  }

  /** Recovered rows are the trusted ones and one for every record found past them. */
  lemma RecoveredRowsAre(
    e: Env, cat: Catalog, survived: seq<byte>, frontier: Option<Frontier>, id: Digest)
    requires Reliable(e, survived, cat, frontier)
    requires Recover(e.h, e.name, survived, cat, frontier).Ok?
    ensures var rows := Recover(e.h, e.name, survived, cat, frontier).value.cat.rows;
            var trusted := TrustedCheckpoint(e.name, survived, cat, frontier);
            var base := BaseRows(cat, trusted);
            var v := ScanFrom(trusted);
            && v <= |survived| && Boundary(e.h, survived, v)
            && (id in base ==> base[id].End() <= v && id in rows && rows[id] == base[id])
            && (id in rows && id !in base ==> RowScanned(e.h, e.name, survived, v, id, rows[id]))
            && (forall i | 0 <= i < |Scan(e.h, survived, v)| :: Scan(e.h, survived, v)[i].id in rows)
  {
    TrustGivesBoundary(e.h, e.name, survived, cat, frontier);
    RecoveryRows(e.h, e.name, survived, cat, frontier, id);
    var trusted := TrustedCheckpoint(e.name, survived, cat, frontier);
    assert trusted.Some? ==> RowsEndBy(cat.rows, e.name, trusted.value.verifiedLen);
    hide ParseRecord, Scan, ScanEnd, Boundary, Recover, CatalogNamed, ValidCheckpoint, TrustedCheckpoint, TrustIsSound;
  }

  /** Whatever a recovered row's object refers to has a recovered row. */
  lemma RecoveredIsClosed(
    e: Env, pack: seq<byte>, cat: Catalog, objects: map<Digest, Obj>, survived: seq<byte>, synced: nat,
    frontier: Option<Frontier>)
    requires ScanEnd(e.h, pack, 0) == |pack| && RecordsKnown(e, pack, objects) && Covered(e, pack, map[], 0)
    requires CatalogOk(e, pack, cat, objects) && PackSurvives(e, pack, survived, synced, frontier)
    requires !e.anyCommit
    ensures Recover(e.h, e.name, survived, cat, frontier).Ok?
    ensures var r := Recover(e.h, e.name, survived, cat, frontier).value; RowsClosed(e, r.pack, r.cat, objects)
  {
    NamedIsReliable(e, pack, cat, survived, synced, frontier);
    PackReopens(e, pack, cat, survived, synced, frontier);
    var r := Recover(e.h, e.name, survived, cat, frontier).value;
    hide ParseRecord, Scan, ScanEnd, Boundary, Recover, Covered, TrustedCheckpoint, PackSurvives, RecordsKnown, Reliable,
         Counted;
    forall id, edge | id in r.cat.rows && id in objects && edge in e.edges(objects[id])
      ensures edge.id in r.cat.rows
    {
      RecoveredRowsAre(e, cat, survived, frontier, id);
      RecoveredRowsAre(e, cat, survived, frontier, edge.id);
      var trusted := TrustedCheckpoint(e.name, survived, cat, frontier);
      if id in BaseRows(cat, trusted) {
        assert edge.id in BaseRows(cat, trusted);
      } else {
        ScannedRowIsClosed(e, pack, cat, objects, survived, synced, frontier, id, edge);
      }
    }
  }

  lemma ScannedRowIsClosed(
    e: Env, pack: seq<byte>, cat: Catalog, objects: map<Digest, Obj>, survived: seq<byte>, synced: nat,
    frontier: Option<Frontier>, id: Digest, edge: Edge)
    requires ScanEnd(e.h, pack, 0) == |pack| && RecordsKnown(e, pack, objects) && Covered(e, pack, map[], 0)
    requires CatalogOk(e, pack, cat, objects) && PackSurvives(e, pack, survived, synced, frontier)
    requires Recover(e.h, e.name, survived, cat, frontier).Ok?
    requires id in Recover(e.h, e.name, survived, cat, frontier).value.cat.rows
    requires id !in BaseRows(cat, TrustedCheckpoint(e.name, survived, cat, frontier))
    requires id in objects && edge in e.edges(objects[id])
    ensures edge.id in Recover(e.h, e.name, survived, cat, frontier).value.cat.rows
  {
    var rows := Recover(e.h, e.name, survived, cat, frontier).value.cat.rows;
    var trusted := TrustedCheckpoint(e.name, survived, cat, frontier);
    var base, v := BaseRows(cat, trusted), ScanFrom(trusted);
    assert Covered(e, pack, base, v);
    NamedIsReliable(e, pack, cat, survived, synced, frontier);
    PackReopens(e, pack, cat, survived, synced, frontier);
    RecoveredRowsAre(e, cat, survived, frontier, id);
    RecoveredRowsAre(e, cat, survived, frontier, edge.id);
    hide ParseRecord, Scan, ScanEnd, Boundary, Recover, Covered, TrustedCheckpoint, PackSurvives, CatalogOk, Reliable;
    var i: nat :| FirstAt(Scan(e.h, survived, v), i, id);
    var k := RecordOfPack(e, pack, survived, v, i);
    var loc := Scan(e.h, pack, 0)[k];
    assert ObjAt(pack, loc) == objects[id];
    CoveredAt(e, pack, base, v, k, edge);
    if edge.id !in base {
      var j := ChildRecord(e, pack, survived, v, loc, edge.id, base);
      assert Scan(e.h, survived, v)[j].id in rows;
    }
  }

  /** A record found after the crash is the record written there. */
  lemma RecordOfPack(e: Env, pack: seq<byte>, survived: seq<byte>, v: nat, i: nat) returns (k: nat)
    requires ScanEnd(e.h, pack, 0) == |pack|
    requires var end := ScanEnd(e.h, survived, 0);
             && end <= |pack| && survived[..end] == pack[..end] && Boundary(e.h, pack, end)
    requires Boundary(e.h, survived, v) && i < |Scan(e.h, survived, v)|
    ensures k < |Scan(e.h, pack, 0)| && Scan(e.h, pack, 0)[k] == Scan(e.h, survived, v)[i]
    ensures v <= Scan(e.h, pack, 0)[k].start && Scan(e.h, pack, 0)[k].End() <= |pack|
    ensures Scan(e.h, pack, 0)[k].End() <= ScanEnd(e.h, survived, 0)
  {
    ScanOfPrefix(e.h, survived, 0);
    hide ParseRecord, Scan, ScanEnd, Boundary;
    k := ScannedFromStart(e, survived, v, i);
    ScanOfPart(e, pack, ScanEnd(e.h, survived, 0));
    ScannedStart(e, survived, v, i);
  }

  /** A child's record before a surviving record survived too. */
  lemma ChildRecord(e: Env, pack: seq<byte>, survived: seq<byte>, v: nat, loc: Loc, child: Digest,
                    base: map<Digest, Row>) returns (j: nat)
    requires var end := ScanEnd(e.h, survived, 0);
             && end <= |pack| && survived[..end] == pack[..end] && Boundary(e.h, pack, end) && loc.End() <= end
    requires Boundary(e.h, survived, v)
    requires Available(e, pack, base, v, loc.start, child) && child !in base
    ensures j < |Scan(e.h, survived, v)| && Scan(e.h, survived, v)[j].id == child
  {
    ScanOfPrefix(e.h, survived, 0);
    hide ParseRecord, Scan, ScanEnd, Boundary;
    ScanOfPart(e, pack, ScanEnd(e.h, survived, 0));
    var k :| 0 <= k < |Scan(e.h, pack, 0)| && Scan(e.h, pack, 0)[k].id == child
             && v <= Scan(e.h, pack, 0)[k].start && Scan(e.h, pack, 0)[k].End() <= loc.start;
    assert Scan(e.h, survived, 0)[k] == Scan(e.h, pack, 0)[k];
    j := ScannedFromV(e, survived, v, k);
  }

  lemma CoveredAt(e: Env, pack: seq<byte>, rows: map<Digest, Row>, v: nat, i: nat, edge: Edge)
    requires Covered(e, pack, rows, v)
    requires i < |Scan(e.h, pack, 0)| && v <= Scan(e.h, pack, 0)[i].start && Scan(e.h, pack, 0)[i].End() <= |pack|
    requires edge in e.edges(ObjAt(pack, Scan(e.h, pack, 0)[i]))
    ensures Available(e, pack, rows, v, Scan(e.h, pack, 0)[i].start, edge.id)
  {
  }

  lemma ScannedStart(e: Env, pack: seq<byte>, v: nat, i: nat)
    requires Boundary(e.h, pack, v) && i < |Scan(e.h, pack, v)|
    ensures v <= Scan(e.h, pack, v)[i].start
  {
    ScanBoundaries(e.h, pack, v, i);
  }

  /** A record the scan from `v` lists, in the scan from the start. */
  lemma ScannedFromStart(e: Env, pack: seq<byte>, v: nat, i: nat) returns (k: nat)
    requires Boundary(e.h, pack, v) && i < |Scan(e.h, pack, v)|
    ensures k < |Scan(e.h, pack, 0)| && Scan(e.h, pack, 0)[k] == Scan(e.h, pack, v)[i]
  {
    hide ParseRecord, Scan, ScanEnd;
    ScanSplit(e.h, pack, 0, v);
    k := |Scan(e.h, pack[..v], 0)| + i;
  }

  /** A record past `v` in the scan from the start, in the scan from `v`. */
  lemma ScannedFromV(e: Env, pack: seq<byte>, v: nat, k: nat) returns (i: nat)
    requires Boundary(e.h, pack, v) && k < |Scan(e.h, pack, 0)| && v <= Scan(e.h, pack, 0)[k].start
    ensures i < |Scan(e.h, pack, v)| && Scan(e.h, pack, v)[i] == Scan(e.h, pack, 0)[k]
  {
    StartIsBoundary(e.h, pack);
    StartIsBoundary(e.h, pack[..v]);
    ScanSplit(e.h, pack, 0, v);
    if k < |Scan(e.h, pack[..v], 0)| {
      ScanBoundaries(e.h, pack[..v], 0, k);
    }
    hide ParseRecord, Scan;
    i := k - |Scan(e.h, pack[..v], 0)|;
  }

  /**
    * After any recovery every recorded object is located: past the trusted checkpoint it has a row, before it the new
    * checkpoint counts it, and the last row of the trusted prefix ends past it.
    */
  lemma RecordedIsLocated(
    e: Env, pack: seq<byte>, cat: Catalog, survived: seq<byte>, synced: nat, frontier: Option<Frontier>, i: nat)
    requires e.anyCommit && Reliable(e, survived, cat, frontier) && PackSurvives(e, pack, survived, synced, frontier)
    requires i < |Scan(e.h, survived, 0)|
    ensures Recover(e.h, e.name, survived, cat, frontier).Ok?
    ensures var r := Recover(e.h, e.name, survived, cat, frontier).value;
            Located(e, r.pack, r.cat, Scan(e.h, survived, 0)[i].id)
  {
    PackReopens(e, pack, cat, survived, synced, frontier);
    StartIsBoundary(e.h, survived);
    ScanBoundaries(e.h, survived, 0, i);
    RecordIsNonempty(e.h, survived, i);
    var loc := Scan(e.h, survived, 0)[i];
    var trusted := TrustedCheckpoint(e.name, survived, cat, frontier);
    var v := ScanFrom(trusted);
    RecoveredRowsAre(e, cat, survived, frontier, loc.id);
    hide ParseRecord, Scan, ScanEnd, Boundary, Recover, Reliable, TrustIsSound, PackSurvives, HeaderNames;
    BoundarySeparates(e.h, survived, v, loc.start);
    if v <= loc.start {
      var j := ScannedFromV(e, survived, v, i);
    } else {
      var last := trusted.value.lastObject.value;
      RecoveredRowsAre(e, cat, survived, frontier, last);
      RecoveryCheckpoint(e.h, e.name, survived, cat, frontier);
      FullCheckpointCounts(e.h, survived);
      var r := Recover(e.h, e.name, survived, cat, frontier).value;
      assert r.cat.rows[last].End() == v;
      assert RowsReach(r.cat.rows, loc.End());
      assert Scan(e.h, r.pack, 0)[i] == loc;
    }
  }

  /** So whatever catalog recovery began with, what a row's object refers to is located. */
  lemma RecoveredIsLocated(
    e: Env, pack: seq<byte>, cat: Catalog, objects: map<Digest, Obj>, survived: seq<byte>, synced: nat,
    frontier: Option<Frontier>)
    requires e.anyCommit && Reliable(e, survived, cat, frontier) && PackSurvives(e, pack, survived, synced, frontier)
    requires Recover(e.h, e.name, survived, cat, frontier).Ok?
    requires var r := Recover(e.h, e.name, survived, cat, frontier).value;
             && RowsNamed(e, r.pack, r.cat.rows) && RecordsKnown(e, r.pack, objects) && Covered(e, r.pack, map[], 0)
             && Scan(e.h, r.pack, 0) == Scan(e.h, survived, 0)
    ensures var r := Recover(e.h, e.name, survived, cat, frontier).value; RowsClosed(e, r.pack, r.cat, objects)
  {
    var r := Recover(e.h, e.name, survived, cat, frontier).value;
    StartIsBoundary(e.h, r.pack);
    hide ParseRecord, Scan, ScanEnd, Boundary, Recover, Reliable, PackSurvives, Names, Located, Covered;
    forall id, edge | id in r.cat.rows && id in objects && edge in e.edges(objects[id])
      ensures Located(e, r.pack, r.cat, edge.id)
    {
      NameIsNonempty(e.h, r.pack, id, r.cat.rows[id]);
      var k := NamedIsScanned(e.h, r.pack, 0, id, r.cat.rows[id]);
      RecordIsNonempty(e.h, r.pack, k);
      CoveredAt(e, r.pack, map[], 0, k, edge);
      var j :| 0 <= j < |Scan(e.h, r.pack, 0)| && Scan(e.h, r.pack, 0)[j].id == edge.id;
      RecordedIsLocated(e, pack, cat, survived, synced, frontier, j);
    }
  }

  /** A catalog that opening the store may start from. */
  ghost predicate Recoverable(
    e: Env, pack: seq<byte>, cat: Catalog, objects: map<Digest, Obj>, survived: seq<byte>, frontier: Option<Frontier>)
  {
    if e.anyCommit then Reliable(e, survived, cat, frontier) else CatalogOk(e, pack, cat, objects)
  }

  lemma RecoverableIsReliable(
    e: Env, pack: seq<byte>, cat: Catalog, objects: map<Digest, Obj>, survived: seq<byte>, synced: nat,
    frontier: Option<Frontier>)
    requires Recoverable(e, pack, cat, objects, survived, frontier)
    requires PackSurvives(e, pack, survived, synced, frontier)
    ensures Reliable(e, survived, cat, frontier)
  {
    hide CatalogNamed, RowsClosed, Covered, Reliable, PackSurvives;
    if !e.anyCommit {
      NamedIsReliable(e, pack, cat, survived, synced, frontier);
    }
  }

  /** The recovered catalog satisfies the catalog invariant over the recovered pack. */
  lemma RecoveredCatalogOk(
    e: Env, pack: seq<byte>, cat: Catalog, objects: map<Digest, Obj>, survived: seq<byte>, synced: nat,
    frontier: Option<Frontier>)
    requires ScanEnd(e.h, pack, 0) == |pack| && RecordsKnown(e, pack, objects) && Covered(e, pack, map[], 0)
    requires Recoverable(e, pack, cat, objects, survived, frontier)
    requires PackSurvives(e, pack, survived, synced, frontier)
    ensures Recover(e.h, e.name, survived, cat, frontier).Ok?
    ensures var r := Recover(e.h, e.name, survived, cat, frontier).value;
            && CatalogOk(e, r.pack, r.cat, objects)
            && RecordsKnown(e, r.pack, objects) && Covered(e, r.pack, map[], 0)
  {
    RecoverableIsReliable(e, pack, cat, objects, survived, synced, frontier);
    PackReopens(e, pack, cat, survived, synced, frontier);
    var r := Recover(e.h, e.name, survived, cat, frontier).value;
    PrefixKeepsRecords(e, pack, objects, ScanEnd(e.h, survived, 0));
    RecoveredIsNamed(e, pack, cat, survived, synced, frontier);
    hide ParseRecord, Scan, ScanEnd, Boundary, Recover, TrustedCheckpoint, TrustIsSound, RowsClosed, CatalogNamed,
         RecordsKnown, CatalogOk, Reliable, Covered, PackSurvives;
    if e.anyCommit {
      RecoveredIsLocated(e, pack, cat, objects, survived, synced, frontier);
    } else {
      RecoveredIsClosed(e, pack, cat, objects, survived, synced, frontier);
    }
    CoveredAtEnd(e, r.pack, r.cat.rows, Verified(e, r.cat));
    CatalogParts(e, r.pack, r.cat, objects);
  }

  lemma CatalogParts(e: Env, pack: seq<byte>, cat: Catalog, objects: map<Digest, Obj>)
    ensures CatalogOk(e, pack, cat, objects) <==>
              CatalogNamed(e, pack, cat) && RowsClosed(e, pack, cat, objects) && Covered(e, pack, cat.rows, Verified(e, cat))
  {
    hide CatalogNamed, RowsClosed, Covered;
  }

  lemma RecoveredIsNamed(
    e: Env, pack: seq<byte>, cat: Catalog, survived: seq<byte>, synced: nat, frontier: Option<Frontier>)
    requires Reliable(e, survived, cat, frontier) && PackSurvives(e, pack, survived, synced, frontier)
    requires Recover(e.h, e.name, survived, cat, frontier).Ok?
    ensures var r := Recover(e.h, e.name, survived, cat, frontier).value;
            CatalogNamed(e, r.pack, r.cat) && Verified(e, r.cat) == |r.pack| && RowsNamed(e, r.pack, r.cat.rows)
  {
    var r := Recover(e.h, e.name, survived, cat, frontier).value;
    PackReopens(e, pack, cat, survived, synced, frontier);
    RecoveryRowsSound(e.h, e.name, survived, cat, frontier);
    RecoveredIsSound(e.h, e.name, survived, cat, frontier);
    RecoveryCheckpoint(e.h, e.name, survived, cat, frontier);
    RecoveryKeepsLongestPrefix(e.h, e.name, survived, cat, frontier);
    FullCheckpointCounts(e.h, survived);
    hide ParseRecord, Scan, ScanEnd, Boundary, Recover, TrustedCheckpoint, TrustIsSound, Names, FullCheckpoint, Reliable;
    forall id | id in r.cat.rows
      ensures r.cat.rows[id].pack == e.name
    {
      RecoveredRowsAre(e, cat, survived, frontier, id);
    }
  }

  /** Nothing lies past the end of the pack. */
  lemma CoveredAtEnd(e: Env, pack: seq<byte>, rows: map<Digest, Row>, v: nat)
    requires v == |pack|
    ensures Covered(e, pack, rows, v)
  {
  }

  /** An object whose row ends inside the surviving records keeps a row, no later in the pack. */
  lemma RowSurvives(
    e: Env, pack: seq<byte>, cat: Catalog, newer: Catalog, objects: map<Digest, Obj>, survived: seq<byte>,
    synced: nat, frontier: Option<Frontier>, id: Digest)
    requires CatalogOk(e, pack, cat, objects) && PackSurvives(e, pack, survived, synced, frontier)
    requires Extends(e, cat, newer) && RowsNamed(e, pack, newer.rows)
    requires id in newer.rows && newer.rows[id].End() <= ScanEnd(e.h, survived, 0)
    ensures Recover(e.h, e.name, survived, cat, frontier).Ok?
    ensures var rows := Recover(e.h, e.name, survived, cat, frontier).value.cat.rows;
            id in rows && rows[id].End() <= newer.rows[id].End()
  {
    NamedIsReliable(e, pack, cat, survived, synced, frontier);
    PackReopens(e, pack, cat, survived, synced, frontier);
    RecoveredRowsAre(e, cat, survived, frontier, id);
    var trusted := TrustedCheckpoint(e.name, survived, cat, frontier);
    var base, v := BaseRows(cat, trusted), ScanFrom(trusted);
    var row := newer.rows[id];
    var end := ScanEnd(e.h, survived, 0);
    var rows := Recover(e.h, e.name, survived, cat, frontier).value.cat.rows;
    assert trusted.Some? ==> v == Verified(e, cat);
    hide ParseRecord, Scan, ScanEnd, Boundary, Recover, Covered, TrustedCheckpoint;
    if id in base {
      assert rows[id] == row;
    } else {
      NameIsNonempty(e.h, pack, id, row);
      assert v < row.End();
      PrefixOfPrefix(pack, end, row.End());
      PrefixOfPrefix(survived, end, row.End());
      NamesIsLocal(e.h, pack, survived, id, row);
      var i := NamedIsScanned(e.h, survived, v, id, row);
      assert id in rows;
      var j: nat :| FirstAt(Scan(e.h, survived, v), j, id) && rows[id] == RowOf(e.name, Scan(e.h, survived, v)[j]);
      ScanOrdered(e.h, survived, v, j, i);
    }
  }
}
