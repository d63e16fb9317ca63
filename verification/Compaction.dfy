/** Compaction: rewriting the marked objects into a fresh pack and moving the store over to it (gc.rs).
    The rename of CURRENT is the recovery boundary. */
module Compaction {
  import opened Bytes
  import opened Pack
  import opened Recovery

  const RECORD_OVERHEAD: nat := HEADER_LEN + |OBJECT_END|

  /** What a process crash leaves behind. */
  datatype Disk =
    Disk(packs: map<PackName, seq<byte>>, current: PackName, cat: Catalog, frontier: Option<Frontier>)

  const EMPTY_CATALOG := Catalog(map[], map[])

  /** Opening the store, with the catalog as it was left or with its file gone. */
  function Reopen(h: Hasher, d: Disk, keepCatalog: bool): Result<Disk> {
    if d.current !in d.packs then Ok(d)
    else
      var cat := if keepCatalog then d.cat else EMPTY_CATALOG;
      match Recover(h, d.current, d.packs[d.current], cat, d.frontier)
      case Err => Err
      case Ok(r) => Ok(d.(packs := d.packs[d.current := r.pack], cat := r.cat))
  }

  /** The catalog leads to the object. */
  predicate RowHolds(h: Hasher, packs: map<PackName, seq<byte>>, rows: map<Digest, Row>, id: Digest, obj: Obj) {
    && id in rows && rows[id].pack in packs
    && Names(h, packs[rows[id].pack], id, rows[id])
    && rows[id].kind == obj.kind
    && packs[rows[id].pack][rows[id].offset..rows[id].offset + rows[id].len] == obj.bytes
  }

  /** The pack holds a complete record of the object. */
  ghost predicate Recorded(h: Hasher, pack: seq<byte>, id: Digest) {
    exists i: nat :: i < |Scan(h, pack, 0)| && Scan(h, pack, 0)[i].id == id
  }

  predicate LocHolds(pack: seq<byte>, loc: Loc, obj: Obj) {
    loc.End() <= |pack| && ObjAt(pack, loc) == obj
  }

  /** No record of the pack carries the identity of a wanted object and other bytes. */
  ghost predicate Faithful(h: Hasher, pack: seq<byte>, want: map<Digest, Obj>) {
    forall i: nat | i < |Scan(h, pack, 0)| && Scan(h, pack, 0)[i].id in want ::
      LocHolds(pack, Scan(h, pack, 0)[i], want[Scan(h, pack, 0)[i].id])
  }

  ghost predicate Backed(h: Hasher, pack: seq<byte>, want: map<Digest, Obj>) {
    (forall id | id in want :: Recorded(h, pack, id)) && Faithful(h, pack, want)
  }

  predicate Recoverable(h: Hasher, name: PackName, pack: seq<byte>, frontier: Option<Frontier>) {
    var end := ScanEnd(h, pack, 0);
    if frontier.Some? then frontier.value.Pack(name) <= end
    else end == |pack| || ParseRecord(h, pack, end).Torn?
  }

  ghost predicate RowsHold(h: Hasher, d: Disk, want: map<Digest, Obj>) {
    forall id | id in want :: RowHolds(h, d.packs, d.cat.rows, id, want[id])
  }

  /** Both ways to the wanted objects are open: through the catalog, and by scanning the active pack. */
  ghost predicate Healthy(h: Hasher, d: Disk, want: map<Digest, Obj>) {
    && d.current in d.packs
    && RowsHold(h, d, want)
    && Backed(h, d.packs[d.current], want)
    && TrustIsSound(h, d.current, d.packs[d.current], d.cat, d.frontier)
    && Recoverable(h, d.current, d.packs[d.current], d.frontier)
  }

  // ---------- Reopening ----------

  lemma RowHoldsReads(h: Hasher, packs: map<PackName, seq<byte>>, rows: map<Digest, Row>, id: Digest, obj: Obj)
    requires RowHolds(h, packs, rows, id, obj)
    ensures Read(h, packs, rows, id, obj.kind) == Ok(obj.bytes)
  {
    hide Names;
    NamedReads(h, packs, rows, id);
  }

  /** What the scan finds is unchanged when the file is cut where the scan stops. */
  lemma CutKeepsBacked(h: Hasher, pack: seq<byte>, want: map<Digest, Obj>)
    requires Backed(h, pack, want)
    ensures Backed(h, pack[..ScanEnd(h, pack, 0)], want)
  {
    hide ParseRecord, Scan, ScanEnd;
    var end := ScanEnd(h, pack, 0);
    var cut := pack[..end];
    ScanOfPrefix(h, pack, 0);
    forall id | id in want ensures Recorded(h, cut, id) {
      assert Recorded(h, pack, id);
    }
    forall i: nat | i < |Scan(h, cut, 0)| && Scan(h, cut, 0)[i].id in want
      ensures LocHolds(cut, Scan(h, cut, 0)[i], want[Scan(h, cut, 0)[i].id])
    {
      var loc := Scan(h, pack, 0)[i];
      ScanElements(h, pack, 0, i);
      SliceOfPrefix(pack, end, loc.Payload(), loc.Payload() + loc.len);
    }
  }

  /** A row made by the scan leads to the wanted object. */
  lemma ScannedRowHolds(
      h: Hasher, name: PackName, pack: seq<byte>, v: nat, want: map<Digest, Obj>, id: Digest, row: Row)
    requires Backed(h, pack, want) && id in want && v <= |pack|
    requires Boundary(h, pack, v) && RowScanned(h, name, pack, v, id, row)
    requires Scan(h, pack, 0) == Scan(h, pack[..v], 0) + Scan(h, pack, v)
    ensures Names(h, pack, id, row) && row.kind == want[id].kind
    ensures pack[row.offset..row.offset + row.len] == want[id].bytes
    ensures row.End() <= ScanEnd(h, pack, v)
  {
    hide ParseRecord, Scan, ScanEnd, Boundary, Names;
    var i: nat :| FirstAt(Scan(h, pack, v), i, id) && row == RowOf(name, Scan(h, pack, v)[i]);
    ScannedNames(h, pack, v, i, name);
    var k := |Scan(h, pack[..v], 0)| + i;
    assert Scan(h, pack, 0)[k] == Scan(h, pack, v)[i];
    assert LocHolds(pack, Scan(h, pack, 0)[k], want[id]);
  }

  /** After recovery the catalog leads to every wanted object it led to, or that the pack records. */
  lemma RecoveredRowHolds(
      h: Hasher, d: Disk, cat: Catalog, want: map<Digest, Obj>, id: Digest)
    requires d.current in d.packs && id in want
    requires Backed(h, d.packs[d.current], want)
    requires id in cat.rows ==> RowHolds(h, d.packs, cat.rows, id, want[id])
    requires TrustIsSound(h, d.current, d.packs[d.current], cat, d.frontier)
    requires Recover(h, d.current, d.packs[d.current], cat, d.frontier).Ok?
    requires id in cat.rows || TrustedCheckpoint(d.current, d.packs[d.current], cat, d.frontier).None?
    ensures var r := Recover(h, d.current, d.packs[d.current], cat, d.frontier).value;
            RowHolds(h, d.packs[d.current := r.pack], r.cat.rows, id, want[id])
  {
    hide Recover, TrustIsSound, TrustedCheckpoint, ParseRecord, Scan, ScanEnd, Boundary, Names, RowScanned, RowsSound,
      Backed, RowsEndBy;
    var name, pack := d.current, d.packs[d.current];
    var r := Recover(h, name, pack, cat, d.frontier).value;
    var v := ScanFrom(TrustedCheckpoint(name, pack, cat, d.frontier));
    TrustGivesBoundary(h, name, pack, cat, d.frontier);
    RecoveryKeepsLongestPrefix(h, name, pack, cat, d.frontier);
    RecoveryRows(h, name, pack, cat, d.frontier, id);
    RecoveryRowsSound(h, name, pack, cat, d.frontier);
    ScanAfter(h, pack, v);
    if RowKept(name, cat.rows, v, id) {
      KeptRowHolds(h, d, cat, want, id, r.pack);
    } else {
      assert id in r.cat.rows by {
        if id in cat.rows {
          var i := NamedIsScanned(h, pack, v, id, cat.rows[id]);
        } else {
          FromStart(h, pack, v, want, id);
        }
      }
      ScannedRowHolds(h, name, pack, v, want, id, r.cat.rows[id]);
      CutRowHolds(h, pack, r.pack, id, r.cat.rows[id]);
      ScannedPack(h, name, pack, v, id, r.cat.rows[id]);
    }
  }

  lemma ScannedPack(h: Hasher, name: PackName, pack: seq<byte>, v: nat, id: Digest, row: Row)
    requires v <= |pack| && RowScanned(h, name, pack, v, id, row)
    ensures row.pack == name
  {
    hide Scan, ParseRecord;
  }

  lemma FromStart(h: Hasher, pack: seq<byte>, v: nat, want: map<Digest, Obj>, id: Digest)
    requires v <= |pack| && id in want && Backed(h, pack, want)
    requires v == 0
    ensures exists i :: 0 <= i < |Scan(h, pack, v)| && Scan(h, pack, v)[i].id == id
  {
    assert Recorded(h, pack, id);
  }

  lemma CutRowHolds(h: Hasher, pack: seq<byte>, cut: seq<byte>, id: Digest, row: Row)
    requires Names(h, pack, id, row) && cut <= pack && row.End() <= |cut|
    ensures Names(h, cut, id, row)
    ensures cut[row.offset..row.offset + row.len] == pack[row.offset..row.offset + row.len]
  {
    hide Names;
    PrefixOfPrefix(pack, |cut|, row.End());
    NamesIsLocal(h, pack, cut, id, row);
  }

  lemma KeptRowHolds(h: Hasher, d: Disk, cat: Catalog, want: map<Digest, Obj>, id: Digest, cut: seq<byte>)
    requires d.current in d.packs && id in want && RowHolds(h, d.packs, cat.rows, id, want[id])
    requires cut <= d.packs[d.current]
    requires cat.rows[id].pack == d.current ==> cat.rows[id].End() <= |cut|
    ensures RowHolds(h, d.packs[d.current := cut], cat.rows, id, want[id])
  {
    hide Names;
    if cat.rows[id].pack == d.current {
      CutRowHolds(h, d.packs[d.current], cut, id, cat.rows[id]);
    }
  }

  lemma NothingTrusted(h: Hasher, d: Disk)
    requires d.current in d.packs
    ensures TrustIsSound(h, d.current, d.packs[d.current], EMPTY_CATALOG, d.frontier)
    ensures TrustedCheckpoint(d.current, d.packs[d.current], EMPTY_CATALOG, d.frontier).None?
  {
  }

  /** Recovery of a recoverable pack succeeds, and would again. */
  lemma RecoverableReopens(h: Hasher, d: Disk, cat: Catalog)
    requires d.current in d.packs && Recoverable(h, d.current, d.packs[d.current], d.frontier)
    requires TrustIsSound(h, d.current, d.packs[d.current], cat, d.frontier)
    ensures var r := Recover(h, d.current, d.packs[d.current], cat, d.frontier);
            && r.Ok?
            && r.value.pack == d.packs[d.current][..ScanEnd(h, d.packs[d.current], 0)]
            && TrustIsSound(h, d.current, r.value.pack, r.value.cat, d.frontier)
            && Recoverable(h, d.current, r.value.pack, d.frontier)
  {
    hide Recover, TrustIsSound, ParseRecord, Scan, ScanEnd, Names;
    RecoveryKeepsLongestPrefix(h, d.current, d.packs[d.current], cat, d.frontier);
    RecoveredIsSound(h, d.current, d.packs[d.current], cat, d.frontier);
    var r := Recover(h, d.current, d.packs[d.current], cat, d.frontier).value;
    RecoveryKeepsLongestPrefix(h, d.current, r.pack, r.cat, d.frontier);
  }

  /** A healthy store opens with its catalog or without, stays healthy, and reads every wanted object. */
  lemma HealthyReopens(h: Hasher, d: Disk, keepCatalog: bool, want: map<Digest, Obj>)
    requires Healthy(h, d, want)
    ensures Reopen(h, d, keepCatalog).Ok?
    ensures Healthy(h, Reopen(h, d, keepCatalog).value, want)
    ensures forall id | id in want ::
      Read(h, Reopen(h, d, keepCatalog).value.packs, Reopen(h, d, keepCatalog).value.cat.rows, id, want[id].kind)
        == Ok(want[id].bytes)
  {
    hide Recover, TrustIsSound, TrustedCheckpoint, ParseRecord, Scan, ScanEnd, Names, Backed, Recoverable, RowHolds, Read;
    NothingTrusted(h, d);
    var cat := if keepCatalog then d.cat else EMPTY_CATALOG;
    RecoverableReopens(h, d, cat);
    CutKeepsBacked(h, d.packs[d.current], want);
    var after := Reopen(h, d, keepCatalog).value;
    forall id | id in want
      ensures RowHolds(h, after.packs, after.cat.rows, id, want[id])
      ensures Read(h, after.packs, after.cat.rows, id, want[id].kind) == Ok(want[id].bytes)
    {
      assert RowHolds(h, d.packs, d.cat.rows, id, want[id]);
      if keepCatalog {
        RowHoldsHasRow(h, d.packs, d.cat.rows, id, want[id]);
      }
      RecoveredRowHolds(h, d, cat, want, id);
      RowHoldsReads(h, after.packs, after.cat.rows, id, want[id]);
    }
  }

  lemma RowHoldsHasRow(h: Hasher, packs: map<PackName, seq<byte>>, rows: map<Digest, Row>, id: Digest, obj: Obj)
    requires RowHolds(h, packs, rows, id, obj)
    ensures id in rows
  {
  }

  // ---------- The new pack ----------

  ghost predicate Distinct(h: Hasher, objs: seq<Obj>) {
    forall i, j | 0 <= i < j < |objs| :: objs[i].Id(h) != objs[j].Id(h)
  }

  /** The pack holds exactly these objects, in this order, and nothing after them. */
  ghost predicate HoldsObjects(h: Hasher, pack: seq<byte>, objs: seq<Obj>) {
    && ScanEnd(h, pack, 0) == |pack|
    && |Scan(h, pack, 0)| == |objs|
    && forall k | 0 <= k < |objs| ::
         LocHolds(pack, Scan(h, pack, 0)[k], objs[k]) && Scan(h, pack, 0)[k].id == objs[k].Id(h)
  }

  /** The locations recorded for the records of the pack. */
  ghost predicate Located(name: PackName, locs: seq<Loc>, locations: map<Digest, Row>) {
    && (forall id | id in locations :: exists k :: 0 <= k < |locs| && locs[k].id == id)
    && (forall k | 0 <= k < |locs| :: locs[k].id in locations && locations[locs[k].id] == RowOf(name, locs[k]))
  }

  function Payload(objs: seq<Obj>): nat {
    if objs == [] then 0 else Payload(objs[..|objs| - 1]) + |objs[|objs| - 1].bytes|
  }

  lemma HoldsNext(h: Hasher, pack: seq<byte>, objs: seq<Obj>, obj: Obj)
    requires HoldsObjects(h, pack, objs) && obj.Fits()
    ensures HoldsObjects(h, pack + EncodeRecord(h, obj), objs + [obj])
    ensures Scan(h, pack + EncodeRecord(h, obj), 0) == Scan(h, pack, 0) + [Loc(|pack|, obj.kind, obj.Id(h), |obj.bytes|)]
  {
    hide ParseRecord, Scan, ScanEnd, EncodeRecord, LocHolds;
    ScanAppend(h, pack, 0, obj);
    var after, all := pack + EncodeRecord(h, obj), objs + [obj];
    AppendedRecordHolds(h, pack, obj);
    forall k | 0 <= k < |all|
      ensures LocHolds(after, Scan(h, after, 0)[k], all[k]) && Scan(h, after, 0)[k].id == all[k].Id(h)
    {
      if k < |objs| {
        assert LocHolds(pack, Scan(h, pack, 0)[k], objs[k]);
        LocHoldsInLonger(pack, after, Scan(h, pack, 0)[k], objs[k]);
      }
    }
  }

  lemma LocatedNext(name: PackName, locs: seq<Loc>, locations: map<Digest, Row>, loc: Loc)
    requires Located(name, locs, locations)
    requires forall k | 0 <= k < |locs| :: locs[k].id != loc.id
    ensures Located(name, locs + [loc], locations[loc.id := RowOf(name, loc)])
  {
    var all, after := locs + [loc], locations[loc.id := RowOf(name, loc)];
    forall id | id in after ensures exists k :: 0 <= k < |all| && all[k].id == id {
      if id == loc.id {
        assert all[|locs|].id == id;
      } else {
        var k :| 0 <= k < |locs| && locs[k].id == id;
        assert all[k].id == id;
      }
    }
  }

  lemma AppendedRecordHolds(h: Hasher, pack: seq<byte>, obj: Obj)
    ensures LocHolds(pack + EncodeRecord(h, obj), Loc(|pack|, obj.kind, obj.Id(h), |obj.bytes|), obj)
  {
    hide EncodeHeader;
    JoinBetween(pack, EncodeHeader(h, obj), obj.bytes, OBJECT_END, []);
    assert pack + EncodeRecord(h, obj) + [] == pack + EncodeRecord(h, obj);
  }

  lemma LocHoldsInLonger(pack: seq<byte>, longer: seq<byte>, loc: Loc, obj: Obj)
    requires LocHolds(pack, loc, obj) && pack <= longer
    ensures LocHolds(longer, loc, obj)
  {
    assert longer[..|pack|] == pack;
    SliceOfPrefix(longer, |pack|, loc.Payload(), loc.Payload() + loc.len);
  }

  /** What the writing loop knows of its counters. */
  ghost predicate Counted(h: Hasher, pack: seq<byte>, objs: seq<Obj>, c: Checkpoint) {
    && c.verifiedLen == |pack| && c.objectCount == |objs|
    && |pack| == Payload(objs) + |objs| * RECORD_OVERHEAD
    && |Scan(h, pack, 0)| == |objs|
    && if objs == [] then c.lastObject.None? && c.lastRecordStart == 0
       else c.lastObject == Some(objs[|objs| - 1].Id(h)) && c.lastRecordStart == Scan(h, pack, 0)[|objs| - 1].start
  }

  lemma CountedIsFull(h: Hasher, pack: seq<byte>, objs: seq<Obj>, c: Checkpoint)
    requires HoldsObjects(h, pack, objs) && Counted(h, pack, objs, c)
    ensures c == FullCheckpoint(h, pack)
    ensures Counts(h, pack, c)
  {
    FullCheckpointCounts(h, pack);
    ScanEmptyIff(h, pack, 0);
    hide ParseRecord, Scan, ScanEnd;
    assert pack[..|pack|] == pack;
  }

  /** Every location names its record. */
  lemma LocatedNames(h: Hasher, name: PackName, pack: seq<byte>, objs: seq<Obj>, locations: map<Digest, Row>, k: nat)
    requires HoldsObjects(h, pack, objs) && Located(name, Scan(h, pack, 0), locations) && k < |objs|
    ensures objs[k].Id(h) in locations
    ensures var row := locations[objs[k].Id(h)];
            && Names(h, pack, objs[k].Id(h), row) && row.pack == name && row.kind == objs[k].kind
            && row.End() <= |pack| && pack[row.offset..row.offset + row.len] == objs[k].bytes
  {
    StartBoundary(h, pack);
    hide ParseRecord, Scan, ScanEnd, Boundary, Names;
    ScannedNames(h, pack, 0, k, name);
    assert LocHolds(pack, Scan(h, pack, 0)[k], objs[k]);
  }

  lemma StartBoundary(h: Hasher, pack: seq<byte>)
    ensures Boundary(h, pack, 0)
  {
    assert pack[..0] == [];
  }

  lemma HoldsAt(h: Hasher, pack: seq<byte>, objs: seq<Obj>, k: nat)
    requires HoldsObjects(h, pack, objs) && k < |Scan(h, pack, 0)|
    ensures k < |objs| && Scan(h, pack, 0)[k].id == objs[k].Id(h)
  {
    hide Scan;
  }

  lemma LocatedAll(h: Hasher, name: PackName, pack: seq<byte>, objs: seq<Obj>, locations: map<Digest, Row>)
    requires HoldsObjects(h, pack, objs) && Located(name, Scan(h, pack, 0), locations)
    ensures forall id | id in locations :: Names(h, pack, id, locations[id]) && locations[id].pack == name
    ensures RowsEndBy(locations, name, |pack|) && RowsSound(h, name, pack, locations, |pack|)
  {
    hide ParseRecord, Scan, ScanEnd, Boundary, Names, HoldsObjects;
    forall id | id in locations
      ensures Names(h, pack, id, locations[id]) && locations[id].pack == name && locations[id].End() <= |pack|
    {
      var k :| 0 <= k < |Scan(h, pack, 0)| && Scan(h, pack, 0)[k].id == id;
      HoldsAt(h, pack, objs, k);
      LocatedNames(h, name, pack, objs, locations, k);
    }
  }

  /** The new pack with the new catalog: the checkpoint validates and recovery may rely on it. */
  lemma NewPackIsSound(
      h: Hasher, name: PackName, pack: seq<byte>, objs: seq<Obj>, locations: map<Digest, Row>, c: Checkpoint)
    requires HoldsObjects(h, pack, objs) && Located(name, Scan(h, pack, 0), locations) && Counted(h, pack, objs, c)
    ensures ValidCheckpoint(name, pack, locations, c)
    ensures SoundPrefix(h, name, pack, Catalog(locations, map[name := c]), c)
  {
    hide ParseRecord, Scan, ScanEnd, Boundary, Names, HeaderNames;
    LocatedAll(h, name, pack, objs, locations);
    CountedIsFull(h, pack, objs, c);
    if objs != [] {
      LastRecordEnds(h, pack, objs);
      LocatedNames(h, name, pack, objs, locations, |objs| - 1);
      NamedHeader(h, pack, objs[|objs| - 1].Id(h), locations[objs[|objs| - 1].Id(h)]);
    }
  }

  lemma LastRecordEnds(h: Hasher, pack: seq<byte>, objs: seq<Obj>)
    requires HoldsObjects(h, pack, objs) && objs != []
    ensures Scan(h, pack, 0)[|objs| - 1].End() == |pack|
  {
    ScanEmptyIff(h, pack, 0);
  }

  // ---------- One compaction, step by step ----------

  /** A row of the mark table, as compaction reads it. */
  datatype Target = Target(id: Digest, kind: Kind)

  function ReadTarget(h: Hasher, d: Disk, target: Target): (r: Result<Obj>)
    ensures r.Ok? ==> r.value.Id(h) == target.id && r.value.kind == target.kind
  {
    match Read(h, d.packs, d.cat.rows, target.id, target.kind)
    case Ok(bytes) => Ok(Obj(target.kind, bytes))
    case Err => Err
  }

  ghost predicate ReadsAs(h: Hasher, d: Disk, targets: seq<Target>, objs: seq<Obj>) {
    |targets| == |objs| && forall k | 0 <= k < |targets| :: ReadTarget(h, d, targets[k]) == Ok(objs[k])
  }

  ghost predicate AllRead(h: Hasher, d: Disk, targets: seq<Target>) {
    forall k | 0 <= k < |targets| :: ReadTarget(h, d, targets[k]).Ok?
  }

  ghost predicate DistinctTargets(targets: seq<Target>) {
    forall i, j | 0 <= i < j < |targets| :: targets[i].id != targets[j].id
  }

  /** No writer stores a longer object, so no row claims one. */
  ghost predicate RowsFit(rows: map<Digest, Row>) {
    forall id | id in rows :: rows[id].len <= MAX_OBJECT_LEN
  }

  /** What the dry run says the new pack will take. */
  function Projected(rows: map<Digest, Row>, targets: seq<Target>): nat {
    if targets == [] then 0
    else
      var last := targets[|targets| - 1];
      Projected(rows, targets[..|targets| - 1]) + RowLen(rows, last) + RECORD_OVERHEAD
  }

  lemma ReadLength(h: Hasher, d: Disk, target: Target)
    requires ReadTarget(h, d, target).Ok?
    ensures target.id in d.cat.rows && |ReadTarget(h, d, target).value.bytes| == d.cat.rows[target.id].len
  {
  }

  function RowLen(rows: map<Digest, Row>, target: Target): nat {
    if target.id in rows then rows[target.id].len else 0
  }

  lemma {:induction false} ProjectedLengths(rows: map<Digest, Row>, targets: seq<Target>, objs: seq<Obj>)
    requires |targets| == |objs|
    requires forall k | 0 <= k < |objs| :: |objs[k].bytes| == RowLen(rows, targets[k])
    ensures Projected(rows, targets) == Payload(objs) + |objs| * RECORD_OVERHEAD
  {
    if targets != [] {
      var n := |targets| - 1;
      ProjectedLengths(rows, targets[..n], objs[..n]);
      assert Payload(objs) == Payload(objs[..n]) + RowLen(rows, targets[n]);
    }
  }

  lemma ProjectionIsExact(h: Hasher, d: Disk, targets: seq<Target>, objs: seq<Obj>)
    requires ReadsAs(h, d, targets, objs)
    ensures Projected(d.cat.rows, targets) == Payload(objs) + |objs| * RECORD_OVERHEAD
  {
    hide ReadTarget;
    forall k | 0 <= k < |objs| ensures |objs[k].bytes| == RowLen(d.cat.rows, targets[k]) {
      assert ReadTarget(h, d, targets[k]) == Ok(objs[k]);
      ReadLength(h, d, targets[k]);
    }
    ProjectedLengths(d.cat.rows, targets, objs);
  }

  /** Nothing on disk uses the name yet: it carries a time stamp in nanoseconds. */
  ghost predicate Fresh(d: Disk, name: PackName) {
    && name !in d.packs && name !in d.cat.checkpoints && d.current != name
    && (forall id | id in d.cat.rows :: d.cat.rows[id].pack != name)
    && (d.frontier.Some? ==> name !in d.frontier.value.packs)
  }

  /** The written pack with its locations and checkpoint. */
  ghost predicate NewPack(
      h: Hasher, name: PackName, pack: seq<byte>, objs: seq<Obj>, locations: map<Digest, Row>, c: Checkpoint)
  {
    HoldsObjects(h, pack, objs) && Located(name, Scan(h, pack, 0), locations) && Counted(h, pack, objs, c)
  }

  /** The objects written include every wanted one, and none that contradicts it. */
  ghost predicate Includes(h: Hasher, objs: seq<Obj>, want: map<Digest, Obj>) {
    && (forall id | id in want :: exists k :: 0 <= k < |objs| && objs[k].Id(h) == id)
    && (forall k | 0 <= k < |objs| :: objs[k].Id(h) in want ==> objs[k] == want[objs[k].Id(h)])
  }

  lemma ReadIncludes(h: Hasher, d: Disk, targets: seq<Target>, objs: seq<Obj>, want: map<Digest, Obj>)
    requires RowsHold(h, d, want) && ReadsAs(h, d, targets, objs)
    requires forall id | id in want :: Target(id, want[id].kind) in targets
    requires DistinctTargets(targets)
    ensures Includes(h, objs, want)
  {
    hide Read, RowHolds, ObjectId;
    forall id | id in want ensures exists k :: 0 <= k < |objs| && objs[k].Id(h) == id {
      var k :| 0 <= k < |targets| && targets[k] == Target(id, want[id].kind);
      assert ReadTarget(h, d, targets[k]) == Ok(objs[k]);
    }
    forall k | 0 <= k < |objs| && objs[k].Id(h) in want ensures objs[k] == want[objs[k].Id(h)] {
      var id := objs[k].Id(h);
      assert ReadTarget(h, d, targets[k]) == Ok(objs[k]);
      var j :| 0 <= j < |targets| && targets[j] == Target(id, want[id].kind);
      assert targets[k].id == targets[j].id;
      assert RowHolds(h, d.packs, d.cat.rows, id, want[id]);
      RowHoldsReads(h, d.packs, d.cat.rows, id, want[id]);
    }
  }

  // Every step leaves the store healthy.

  lemma RenameKeepsHealthy(h: Hasher, d: Disk, name: PackName, pack: seq<byte>, want: map<Digest, Obj>)
    requires Healthy(h, d, want) && name !in d.packs
    ensures Healthy(h, d.(packs := d.packs[name := pack]), want)
  {
    hide TrustIsSound, Names, Backed, Recoverable;
    forall id | id in want ensures RowHolds(h, d.packs[name := pack], d.cat.rows, id, want[id]) {
      assert RowHolds(h, d.packs, d.cat.rows, id, want[id]);
    }
  }

  lemma NewRowsHold(
      h: Hasher, packs: map<PackName, seq<byte>>, name: PackName, objs: seq<Obj>, locations: map<Digest, Row>,
      c: Checkpoint, want: map<Digest, Obj>, id: Digest)
    requires name in packs && NewPack(h, name, packs[name], objs, locations, c) && Includes(h, objs, want) && id in want
    ensures RowHolds(h, packs, locations, id, want[id]) && locations[id].pack == name
  {
    hide HoldsObjects, Located, Scan, Names, ObjectId;
    var k :| 0 <= k < |objs| && objs[k].Id(h) == id;
    LocatedNames(h, name, packs[name], objs, locations, k);
  }

  lemma SwapKeepsHealthy(
      h: Hasher, d: Disk, name: PackName, objs: seq<Obj>, locations: map<Digest, Row>, c: Checkpoint,
      want: map<Digest, Obj>)
    requires Healthy(h, d, want) && name in d.packs && d.current != name
    requires NewPack(h, name, d.packs[name], objs, locations, c) && Includes(h, objs, want)
    ensures Healthy(h, d.(cat := Catalog(locations, map[name := c])), want)
  {
    hide Names, Backed, Recoverable, NewPack, Includes, RowHolds;
    forall id | id in want ensures RowHolds(h, d.packs, locations, id, want[id]) {
      NewRowsHold(h, d.packs, name, objs, locations, c, want, id);
    }
  }

  lemma NewPackBacks(h: Hasher, name: PackName, pack: seq<byte>, objs: seq<Obj>, want: map<Digest, Obj>)
    requires HoldsObjects(h, pack, objs) && Includes(h, objs, want)
    ensures Backed(h, pack, want)
  {
    hide Scan, ScanEnd, ObjectId, LocHolds;
    forall id | id in want ensures Recorded(h, pack, id) {
      var k: nat :| k < |objs| && objs[k].Id(h) == id;
      assert Scan(h, pack, 0)[k].id == id;
    }
    forall i: nat | i < |Scan(h, pack, 0)| && Scan(h, pack, 0)[i].id in want
      ensures LocHolds(pack, Scan(h, pack, 0)[i], want[Scan(h, pack, 0)[i].id])
    {
      assert LocHolds(pack, Scan(h, pack, 0)[i], objs[i]);
    }
  }

  /** Moved over: the catalog describes the new pack and nothing else. */
  ghost predicate Swapped(
      h: Hasher, d: Disk, name: PackName, objs: seq<Obj>, locations: map<Digest, Row>, c: Checkpoint,
      want: map<Digest, Obj>)
  {
    && name in d.packs && d.cat == Catalog(locations, map[name := c])
    && NewPack(h, name, d.packs[name], objs, locations, c) && Includes(h, objs, want)
    && (d.frontier.Some? ==> d.frontier.value.Pack(name) <= |d.packs[name]|)
  }

  lemma ActiveIsHealthy(
      h: Hasher, d: Disk, name: PackName, objs: seq<Obj>, locations: map<Digest, Row>, c: Checkpoint,
      want: map<Digest, Obj>)
    requires Swapped(h, d, name, objs, locations, c, want) && d.current == name
    ensures Healthy(h, d, want)
  {
    NewPackIsSound(h, name, d.packs[name], objs, locations, c);
    NewPackBacks(h, name, d.packs[name], objs, want);
    assert Recoverable(h, name, d.packs[name], d.frontier);
    hide HoldsObjects, Located, Scan, ScanEnd, Names, Backed, Recoverable, SoundPrefix, ValidCheckpoint;
    forall id | id in want ensures RowHolds(h, d.packs, locations, id, want[id]) {
      NewRowsHold(h, d.packs, name, objs, locations, c, want, id);
    }
  }

  /** What a finished compaction promises. */
  ghost predicate Finished(h: Hasher, before: Disk, after: Disk, name: PackName, targets: seq<Target>) {
    && after.current == name && after.packs.Keys == {name}
    && (forall id :: id in after.cat.rows <==> exists k :: 0 <= k < |targets| && targets[k].id == id)
    && (forall k | 0 <= k < |targets| ::
          ReadTarget(h, before, targets[k]).Ok? && ReadTarget(h, after, targets[k]) == ReadTarget(h, before, targets[k]))
    && after.cat.checkpoints.Keys == {name}
    && ValidCheckpoint(name, after.packs[name], after.cat.rows, after.cat.checkpoints[name])
    && |after.packs[name]| == Projected(before.cat.rows, targets)
    && (after.frontier.Some? <==> before.frontier.Some?)
  }

  lemma SwappedIsFinished(
      h: Hasher, before: Disk, after: Disk, name: PackName, targets: seq<Target>, objs: seq<Obj>,
      locations: map<Digest, Row>, c: Checkpoint)
    requires Swapped(h, after, name, objs, locations, c, map[]) && after.current == name && after.packs.Keys == {name}
    requires ReadsAs(h, before, targets, objs)
    requires after.frontier.Some? <==> before.frontier.Some?
    ensures Finished(h, before, after, name, targets)
  {
    hide HoldsObjects, Located, Scan, ScanEnd, Names, SoundPrefix, ValidCheckpoint, Projected, Payload, Includes, Read,
      ReadTarget;
    var pack := after.packs[name];
    NewPackIsSound(h, name, pack, objs, locations, c);
    ProjectionIsExact(h, before, targets, objs);
    RowsAreTargets(h, before, pack, name, targets, objs, locations);
    forall k | 0 <= k < |targets|
      ensures ReadTarget(h, before, targets[k]).Ok? && ReadTarget(h, after, targets[k]) == ReadTarget(h, before, targets[k])
    {
      assert ReadTarget(h, before, targets[k]) == Ok(objs[k]);
      ReadsBack(h, after, name, objs, locations, targets[k], k);
    }
  }

  lemma ReadsBack(
      h: Hasher, d: Disk, name: PackName, objs: seq<Obj>, locations: map<Digest, Row>, target: Target, k: nat)
    requires name in d.packs && d.cat.rows == locations && k < |objs|
    requires HoldsObjects(h, d.packs[name], objs) && Located(name, Scan(h, d.packs[name], 0), locations)
    requires target == Target(objs[k].Id(h), objs[k].kind)
    ensures ReadTarget(h, d, target) == Ok(objs[k])
  {
    hide HoldsObjects, Located, Scan, ScanEnd, Names, Read, ObjectId;
    LocatedNames(h, name, d.packs[name], objs, locations, k);
    RowHoldsReads(h, d.packs, locations, target.id, objs[k]);
  }

  lemma RowsAreTargets(
      h: Hasher, before: Disk, pack: seq<byte>, name: PackName, targets: seq<Target>, objs: seq<Obj>,
      locations: map<Digest, Row>)
    requires HoldsObjects(h, pack, objs) && Located(name, Scan(h, pack, 0), locations)
    requires ReadsAs(h, before, targets, objs)
    ensures forall id :: id in locations <==> exists k :: 0 <= k < |targets| && targets[k].id == id
  {
    hide Scan, ScanEnd, ObjectId, LocHolds, Read;
    forall k | 0 <= k < |targets| ensures Scan(h, pack, 0)[k].id == targets[k].id {
      assert ReadTarget(h, before, targets[k]) == Ok(objs[k]);
    }
    forall id ensures id in locations <==> exists k :: 0 <= k < |targets| && targets[k].id == id {
      if id in locations {
        var k :| 0 <= k < |Scan(h, pack, 0)| && Scan(h, pack, 0)[k].id == id;
        assert targets[k].id == id;
      }
      if k :| 0 <= k < |targets| && targets[k].id == id {
        assert Scan(h, pack, 0)[k].id == id;
      }
    }
  }

  predicate IsHighWater(rows: map<Digest, Row>, name: PackName, n: nat) {
    RowsEndBy(rows, name, n) && (n == 0 || exists id | id in rows :: rows[id].pack == name && rows[id].End() == n)
  }

  /** Up to the swap. The old pack stays active, and its rows leave the catalog with its checkpoint. */
  lemma BeforeSwap(
      h: Hasher, d: Disk, name: PackName, pack: seq<byte>, targets: seq<Target>, objs: seq<Obj>,
      locations: map<Digest, Row>, c: Checkpoint, want: map<Digest, Obj>)
    requires Healthy(h, d, want) && Fresh(d, name)
    requires NewPack(h, name, pack, objs, locations, c) && ReadsAs(h, d, targets, objs) && DistinctTargets(targets)
    requires forall id | id in want :: Target(id, want[id].kind) in targets
    ensures var d1 := d.(packs := d.packs[name := pack]);
            var d2 := d1.(cat := Catalog(locations, map[name := c]));
            && Healthy(h, d1, want) && Healthy(h, d2, want)
            && Swapped(h, d2, name, objs, locations, c, want)
            && forall p | p in d2.packs :: RowsEndBy(locations, p, |d2.packs[p]|)
  {
    hide TrustIsSound, Names, Backed, Recoverable, ReadsAs, HoldsObjects, Located, Counted, Includes, RowHolds;
    RenameKeepsHealthy(h, d, name, pack, want);
    ReadIncludes(h, d, targets, objs, want);
    SwapKeepsHealthy(h, d.(packs := d.packs[name := pack]), name, objs, locations, c, want);
    LocatedAll(h, name, pack, objs, locations);
  }

  lemma AfterActivation(
      h: Hasher, before: Disk, d: Disk, name: PackName, objs: seq<Obj>, locations: map<Digest, Row>, c: Checkpoint,
      want: map<Digest, Obj>)
    requires Swapped(h, before, name, objs, locations, c, want)
    requires d == before.(current := name, frontier := d.frontier)
    requires d.frontier == before.frontier ||
      (before.frontier.Some? && d.frontier.Some?
       && forall p | p in d.packs :: p in d.frontier.value.packs && IsHighWater(d.cat.rows, p, d.frontier.value.packs[p]))
    ensures Swapped(h, d, name, objs, locations, c, want) && Healthy(h, d, want)
    ensures d.frontier.Some? <==> before.frontier.Some?
  {
    hide HoldsObjects, Located, Counted, Includes, Names, Healthy;
    if d.frontier != before.frontier {
      LocatedAll(h, name, d.packs[name], objs, locations);
      assert IsHighWater(d.cat.rows, name, d.frontier.value.packs[name]);
    }
    ActiveIsHealthy(h, d, name, objs, locations, c, want);
  }

  lemma AfterRemoval(
      h: Hasher, before: Disk, d: Disk, name: PackName, objs: seq<Obj>, locations: map<Digest, Row>, c: Checkpoint,
      want: map<Digest, Obj>)
    requires Swapped(h, before, name, objs, locations, c, want) && before.current == name
    requires d == before.(packs := d.packs) && name in d.packs && d.packs[name] == before.packs[name]
    ensures Healthy(h, d, want)
    ensures Swapped(h, d, name, objs, locations, c, map[])
  {
    hide HoldsObjects, Located, Counted, Names, Healthy;
    ActiveIsHealthy(h, d, name, objs, locations, c, want);
  }

  class StoreFiles {
    var disk: Disk
    var temporary: seq<byte>

    constructor (d: Disk)
      ensures disk == d && temporary == []
    {
      disk := d;
      temporary := [];
    }

    /** Writes the marked objects to the temporary file, in order, and notes where each one went. */
    method WritePack(h: Hasher, name: PackName, targets: seq<Target>)
      returns (locations: map<Digest, Row>, c: Option<Checkpoint>, ghost objs: seq<Obj>)
      requires DistinctTargets(targets) && RowsFit(disk.cat.rows)
      modifies this`temporary
      ensures c.Some? <==> AllRead(h, disk, targets)
      ensures c.Some? ==> ReadsAs(h, disk, targets, objs) && NewPack(h, name, temporary, objs, locations, c.value)
    {
      hide Scan, ScanEnd, EncodeRecord, ParseRecord, Read, ObjectId, HoldsObjects, Located, Counted, ReadsAs;
      temporary, locations, objs := [], map[], [];
      var count: nat, position: nat, lastId: Option<Digest>, lastStart: nat := 0, 0, None, 0;
      EmptyPack(h, name, disk);
      for i := 0 to |targets|
        invariant ReadsAs(h, disk, targets[..i], objs)
        invariant NewPack(h, name, temporary, objs, locations, Checkpoint(position, count, lastId, lastStart))
      {
        var bytes := Read(h, disk.packs, disk.cat.rows, targets[i].id, targets[i].kind);
        if bytes.Err? {
          assert ReadTarget(h, disk, targets[i]).Err?;
          return locations, None, objs;
        }
        ghost var obj := Obj(targets[i].kind, bytes.value);
        ReadFits(h, disk, targets[i]);
        WriteNext(h, disk, name, temporary, objs, locations, Checkpoint(position, count, lastId, lastStart),
                  targets, i, obj);
        var recordStart := position;
        temporary := temporary + EncodeRecord(h, Obj(targets[i].kind, bytes.value));
        var payloadOffset := recordStart + HEADER_LEN;
        position := payloadOffset + |bytes.value| + |OBJECT_END|;
        locations := locations[targets[i].id := Row(targets[i].kind, name, payloadOffset, |bytes.value|)];
        count, lastStart, lastId := count + 1, recordStart, Some(targets[i].id);
        objs := objs + [obj];
      }
      assert targets[..|targets|] == targets;
      ReadsAsAll(h, disk, targets, objs);
      c := Some(Checkpoint(position, count, lastId, lastStart));
    }

    /** `COALESCE(MAX(offset + len + 4), 0)` over the rows of one pack. */
    method HighWater(name: PackName) returns (n: nat)
      ensures IsHighWater(disk.cat.rows, name, n)
    {
      n := 0;
      var rest := disk.cat.rows.Keys;
      while rest != {}
        invariant rest <= disk.cat.rows.Keys
        invariant forall id | id in disk.cat.rows && id !in rest :: disk.cat.rows[id].pack == name ==> disk.cat.rows[id].End() <= n
        invariant n == 0 || exists id | id in disk.cat.rows :: disk.cat.rows[id].pack == name && disk.cat.rows[id].End() == n
        decreases rest
      {
        var id :| id in rest;
        rest := rest - {id};
        if disk.cat.rows[id].pack == name && n < disk.cat.rows[id].End() {
          n := disk.cat.rows[id].End();
        }
      }
    }

    /** A group commit of everything on disk; it refuses a pack shorter than its rows. */
    method SyncFrontier(refs: map<string, nat>) returns (ok: bool)
      modifies this`disk
      ensures ok <==> forall p | p in old(disk).packs :: RowsEndBy(old(disk).cat.rows, p, |old(disk).packs[p]|)
      ensures !ok ==> disk == old(disk)
      ensures ok ==>
        && disk == old(disk).(frontier := disk.frontier)
        && disk.frontier.Some? && disk.frontier.value.packs.Keys == disk.packs.Keys
        && forall p | p in disk.packs :: IsHighWater(disk.cat.rows, p, disk.frontier.value.packs[p])
    {
      var frontier: map<PackName, nat> := map[];
      var rest := disk.packs.Keys;
      while rest != {}
        invariant disk == old(disk)
        invariant rest <= disk.packs.Keys && frontier.Keys == disk.packs.Keys - rest
        invariant forall p | p in frontier ::
          IsHighWater(disk.cat.rows, p, frontier[p]) && frontier[p] <= |disk.packs[p]|
        decreases rest
      {
        var p :| p in rest;
        var written := HighWater(p);
        if |disk.packs[p]| < written {
          var id :| id in disk.cat.rows && disk.cat.rows[id].pack == p && disk.cat.rows[id].End() == written;
          return false;
        }
        frontier := frontier[p := written];
        rest := rest - {p};
      }
      disk := disk.(frontier := Some(Frontier(frontier, refs)));
      ok := true;
    }

    /** Points CURRENT at the new pack and, in a store that commits in groups, writes a new frontier. */
    method ActivatePack(name: PackName, refs: map<string, nat>, budget: nat) returns (done: bool)
      requires forall p | p in disk.packs :: RowsEndBy(disk.cat.rows, p, |disk.packs[p]|)
      modifies this`disk
      ensures disk == old(disk).(current := disk.current, frontier := disk.frontier)
      ensures budget == 0 ==> disk == old(disk)
      ensures budget > 0 ==> disk.current == name
      ensures done <==> budget > 1
      ensures disk.frontier == old(disk).frontier ||
        (disk.current == name && old(disk).frontier.Some? && disk.frontier.Some?
         && forall p | p in disk.packs ::
              p in disk.frontier.value.packs && IsHighWater(disk.cat.rows, p, disk.frontier.value.packs[p]))
    {
      if budget == 0 {
        return false;
      }
      disk := disk.(current := name);
      if budget == 1 {
        return false;
      }
      done := true;
      if disk.frontier.Some? {
        done := SyncFrontier(refs);
      }
    }

    /** Deletes every other pack, one file at a time. */
    method RemoveOthers(name: PackName, budget: nat) returns (done: bool)
      requires name in disk.packs
      modifies this`disk
      ensures disk == old(disk).(packs := disk.packs)
      ensures name in disk.packs && disk.packs[name] == old(disk).packs[name]
      ensures done ==> disk.packs.Keys == {name}
      ensures |old(disk).packs| <= budget ==> done
      ensures forall p | p in disk.packs :: p in old(disk).packs && disk.packs[p] == old(disk).packs[p]
    {
      var removed := 0;
      while exists p :: p in disk.packs && p != name
        invariant name in disk.packs && disk == old(disk).(packs := disk.packs)
        invariant forall p | p in disk.packs :: p in old(disk).packs && disk.packs[p] == old(disk).packs[p]
        invariant |disk.packs| + removed <= |old(disk).packs| && removed <= budget
        decreases disk.packs.Keys
      {
        if removed == budget {
          Populated(disk.packs, name);
          return false;
        }
        var p :| p in disk.packs && p != name;
        RemoveOne(disk.packs, p);
        disk := disk.(packs := disk.packs - {p});
        removed := removed + 1;
      }
      assert disk.packs.Keys == {name};
      done := true;
    }

    /**
      * One compaction that a process crash may end after any of its durable steps: `budget` says how many
      * complete. Wherever it ends, the store is healthy, so it opens with or without its catalog and reads
      * every wanted object; run to the end, exactly the marked objects remain.
      */
    method Compact(
        h: Hasher, name: PackName, targets: seq<Target>, refs: map<string, nat>, budget: nat,
        ghost want: map<Digest, Obj>)
      returns (done: bool)
      requires Healthy(h, disk, want) && Fresh(disk, name)
      requires DistinctTargets(targets) && RowsFit(disk.cat.rows)
      requires forall id | id in want :: Target(id, want[id].kind) in targets
      modifies this
      ensures Healthy(h, disk, want)
      ensures done ==> Finished(h, old(disk), disk, name, targets)
      ensures AllRead(h, old(disk), targets) && budget >= 5 + |old(disk).packs| ==> done
      ensures !AllRead(h, old(disk), targets) ==> disk == old(disk)
    {
      hide Healthy, Swapped, NewPack, Finished, ReadsAs, AllRead, Includes, RowsEndBy, IsHighWater;
      var locations, c, objs := WritePack(h, name, targets);
      if c.None? || budget == 0 {
        return false;
      }
      ghost var before := disk;
      BeforeSwap(h, disk, name, temporary, targets, objs, locations, c.value, want);

      // rename the temporary file into place
      disk := disk.(packs := disk.packs[name := temporary]);
      if budget == 1 {
        return false;
      }

      // swap the catalog over
      disk := disk.(cat := Catalog(locations, map[name := c.value]));
      if budget == 2 {
        return false;
      }

      ghost var swapped := disk;
      var activated := ActivatePack(name, refs, budget - 2);
      AfterActivation(h, swapped, disk, name, objs, locations, c.value, want);
      if !activated {
        return false;
      }

      ghost var moved := disk;
      done := RemoveOthers(name, budget - 4);
      AfterRemoval(h, moved, disk, name, objs, locations, c.value, want);
      if done {
        SwappedIsFinished(h, before, disk, name, targets, objs, locations, c.value);
      }
    }
  }

  lemma EmptyPack(h: Hasher, name: PackName, d: Disk)
    ensures NewPack(h, name, [], [], map[], EMPTY_CHECKPOINT) && ReadsAs(h, d, [], [])
  {
  }

  lemma ReadsAsAll(h: Hasher, d: Disk, targets: seq<Target>, objs: seq<Obj>)
    requires ReadsAs(h, d, targets, objs)
    ensures AllRead(h, d, targets)
  {
    hide ReadTarget;
  }

  lemma ReadFits(h: Hasher, d: Disk, target: Target)
    requires RowsFit(d.cat.rows) && ReadTarget(h, d, target).Ok?
    ensures ReadTarget(h, d, target).value.Fits()
  {
  }

  /** One turn of the writing loop. */
  lemma WriteNext(
      h: Hasher, d: Disk, name: PackName, pack: seq<byte>, objs: seq<Obj>, locations: map<Digest, Row>, c: Checkpoint,
      targets: seq<Target>, i: nat, obj: Obj)
    requires i < |targets| && DistinctTargets(targets)
    requires ReadsAs(h, d, targets[..i], objs) && ReadTarget(h, d, targets[i]) == Ok(obj) && obj.Fits()
    requires NewPack(h, name, pack, objs, locations, c)
    ensures ReadsAs(h, d, targets[..i + 1], objs + [obj])
    ensures NewPack(h, name, pack + EncodeRecord(h, obj), objs + [obj],
                    locations[targets[i].id := Row(obj.kind, name, |pack| + HEADER_LEN, |obj.bytes|)],
                    Checkpoint(|pack| + HEADER_LEN + |obj.bytes| + |OBJECT_END|, |objs| + 1, Some(targets[i].id), |pack|))
    ensures c.verifiedLen == |pack| && c.objectCount == |objs|
  {
    hide Scan, ScanEnd, ParseRecord, ReadTarget, ObjectId, LocHolds, EncodeRecord, ReadsAs, HoldsObjects, Located;
    ReadsNext(h, d, targets, objs, i, obj);
    HoldsNext(h, pack, objs, obj);
    var locs := Scan(h, pack, 0);
    NotYetLocated(h, d, pack, targets, objs, i, obj);
    LocatedNext(name, locs, locations, Loc(|pack|, obj.kind, obj.Id(h), |obj.bytes|));
    assert (objs + [obj])[..|objs|] == objs;
  }

  lemma ReadsNext(h: Hasher, d: Disk, targets: seq<Target>, objs: seq<Obj>, i: nat, obj: Obj)
    requires i < |targets| && ReadsAs(h, d, targets[..i], objs) && ReadTarget(h, d, targets[i]) == Ok(obj)
    ensures ReadsAs(h, d, targets[..i + 1], objs + [obj])
    ensures obj.Id(h) == targets[i].id
  {
    hide ReadTarget, ObjectId;
    forall k | 0 <= k < i + 1 ensures ReadTarget(h, d, targets[..i + 1][k]) == Ok((objs + [obj])[k]) {
      if k < i {
        assert ReadTarget(h, d, targets[..i][k]) == Ok(objs[k]);
      }
    }
  }

  lemma NotYetLocated(h: Hasher, d: Disk, pack: seq<byte>, targets: seq<Target>, objs: seq<Obj>, i: nat, obj: Obj)
    requires i < |targets| && DistinctTargets(targets)
    requires ReadsAs(h, d, targets[..i], objs) && ReadTarget(h, d, targets[i]) == Ok(obj)
    requires HoldsObjects(h, pack, objs)
    ensures forall k | 0 <= k < |Scan(h, pack, 0)| :: Scan(h, pack, 0)[k].id != obj.Id(h)
  {
    hide Scan, ScanEnd, ReadTarget, ObjectId, LocHolds;
    forall k | 0 <= k < |Scan(h, pack, 0)| ensures Scan(h, pack, 0)[k].id != obj.Id(h) {
      assert ReadTarget(h, d, targets[..i][k]) == Ok(objs[k]);
      assert targets[k].id != targets[i].id;
    }
  }

  lemma Populated(packs: map<PackName, seq<byte>>, name: PackName)
    requires name in packs
    ensures |packs| > 0
  {
  }

  lemma RemoveOne(packs: map<PackName, seq<byte>>, p: PackName)
    requires p in packs
    ensures |packs - {p}| == |packs| - 1
  {
    assert (packs - {p}).Keys == packs.Keys - {p};
  }
}
