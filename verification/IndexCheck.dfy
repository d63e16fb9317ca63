/** Checking the index of a pack against its checkpoint, and the one retry that a failed read gets from it. */
module IndexCheck {
  import opened Bytes
  import opened Pack
  import opened Recovery

  /** Rows of `name` that lie within the first `v` bytes. */
  function PrefixRows(rows: map<Digest, Row>, name: PackName, v: nat): set<Digest> {
    set id | id in rows && rows[id].pack == name && rows[id].End() <= v
  }

  /** Rows of `name` that start before `v` and end after it. */
  function CrossingRows(rows: map<Digest, Row>, name: PackName, v: nat): set<Digest> {
    set id | id in rows && rows[id].pack == name && rows[id].offset < v < rows[id].End()
  }

  /** The quick check: it counts rows and reads no record. */
  predicate Agrees(name: PackName, cat: Catalog) {
    if name in cat.checkpoints then
      var c := cat.checkpoints[name];
      |PrefixRows(cat.rows, name, c.verifiedLen)| == c.objectCount && CrossingRows(cat.rows, name, c.verifiedLen) == {}
    else RowsEndBy(cat.rows, name, 0)
  }

  function ResetIndex(name: PackName, cat: Catalog): Catalog {
    Catalog(map id | id in cat.rows && cat.rows[id].pack != name :: cat.rows[id], cat.checkpoints - {name})
  }

  /** The index is kept when it passes the quick check, and otherwise rebuilt from the pack. */
  function Verify(h: Hasher, name: PackName, pack: seq<byte>, cat: Catalog, frontier: Option<Frontier>, deep: bool)
    : Result<Recovered>
  {
    if Agrees(name, cat) && !deep then Ok(Recovered(pack, cat, false))
    else Recover(h, name, pack, ResetIndex(name, cat), frontier)
  }

  /** A read with its one retry, which is made only if the check found something to repair. */
  function ReadBack(h: Hasher, name: PackName, packs: map<PackName, seq<byte>>, cat: Catalog,
                    frontier: Option<Frontier>, mayHeal: bool, id: Digest, kind: Kind): Result<seq<byte>>
    requires name in packs
  {
    var first := Read(h, packs, cat.rows, id, kind);
    if first.Ok? || !mayHeal || Agrees(name, cat) then first
    else
      match Verify(h, name, packs[name], cat, frontier, false)
      case Ok(r) => Read(h, packs[name := r.pack], r.cat.rows, id, kind)
      case Err => first
  }

  // ---- what the quick check finds ----

  function Ids(locs: seq<Loc>): set<Digest> {
    set i | 0 <= i < |locs| :: locs[i].id
  }

  lemma IdsOfLast(locs: seq<Loc>)
    requires locs != []
    ensures var n := |locs| - 1;
            && Ids(locs) == Ids(locs[..n]) + {locs[n].id}
            && (locs[n].id in Ids(locs[..n]) <==> exists i :: 0 <= i < n && locs[i].id == locs[n].id)
  {
    var n := |locs| - 1;
    var front := locs[..n];
    forall id
      ensures id in Ids(locs) <==> id in Ids(front) || id == locs[n].id
    {
      if i :| 0 <= i < |locs| && locs[i].id == id {
        assert i < n ==> front[i].id == id;
      }
      if i :| 0 <= i < n && front[i].id == id {
        assert locs[i].id == id;
      }
    }
    assert forall i | 0 <= i < n :: front[i] == locs[i];
  }

  ghost predicate Distinct(locs: seq<Loc>) {
    forall i, j | 0 <= i < j < |locs| :: locs[i].id != locs[j].id
  }

  lemma {:induction false} IdsCount(locs: seq<Loc>)
    ensures |Ids(locs)| <= |locs|
    ensures |Ids(locs)| == |locs| <==> Distinct(locs)
    decreases |locs|
  {
    if locs != [] {
      var n := |locs| - 1;
      IdsOfLast(locs);
      IdsCount(locs[..n]);
      hide Ids;
      if locs[n].id in Ids(locs[..n]) {
        assert Ids(locs) == Ids(locs[..n]);
      } else {
        assert |Ids(locs)| == |Ids(locs[..n])| + 1;
        DistinctFront(locs);
      }
    }
  }

  lemma DistinctFront(locs: seq<Loc>)
    requires locs != [] && forall i | 0 <= i < |locs| - 1 :: locs[i].id != locs[|locs| - 1].id
    ensures Distinct(locs) <==> Distinct(locs[..|locs| - 1])
  {
    var front := locs[..|locs| - 1];
    if Distinct(front) {
      forall i, j | 0 <= i < j < |locs|
        ensures locs[i].id != locs[j].id
      {
        assert j < |front| ==> front[i].id != front[j].id;
      }
    }
    if Distinct(locs) {
      assert forall i, j | 0 <= i < j < |front| :: front[i] == locs[i] && front[j] == locs[j];
    }
  }

  lemma SubsetCount<T>(a: set<T>, b: set<T>)
    requires a <= b
    ensures |a| <= |b| && (|a| == |b| ==> a == b)
  {
    var rest := b - a;
    assert b == a + rest;
    if |a| == |b| {
      assert |rest| == 0;
    }
  }

  /** Every row of the pack names one of its records. */
  ghost predicate AllNamed(h: Hasher, name: PackName, pack: seq<byte>, rows: map<Digest, Row>) {
    forall id | id in rows && rows[id].pack == name :: Names(h, pack, id, rows[id])
  }

  /** A row of the prefix names a record of the prefix. */
  lemma PrefixRowIsScanned(h: Hasher, name: PackName, pack: seq<byte>, rows: map<Digest, Row>, v: nat, id: Digest)
    returns (i: nat)
    requires AllNamed(h, name, pack, rows) && Boundary(h, pack, v) && id in PrefixRows(rows, name, v)
    ensures i < |Scan(h, pack[..v], 0)| && Scan(h, pack[..v], 0)[i].id == id
    ensures rows[id] == RowOf(name, Scan(h, pack[..v], 0)[i])
  {
    var row := rows[id];
    var part := pack[..v];
    assert part[..0] == [];
    PrefixOfPrefix(pack, v, row.End());
    NamesIsLocal(h, pack, part, id, row);
    NameIsNonempty(h, part, id, row);
    hide ParseRecord, Scan;
    i := NamedIsScanned(h, part, 0, id, row);
  }

  /** Each record of the prefix is the one its identifier's row names. */
  ghost predicate PrefixIndexed(h: Hasher, name: PackName, pack: seq<byte>, rows: map<Digest, Row>, v: nat)
    requires v <= |pack|
  {
    forall i | 0 <= i < |Scan(h, pack[..v], 0)| ::
      var loc := Scan(h, pack[..v], 0)[i];
      loc.id in rows && rows[loc.id] == RowOf(name, loc)
  }

  lemma ScannedOnce(h: Hasher, pack: seq<byte>, i: nat, j: nat)
    requires i < j < |Scan(h, pack, 0)|
    ensures Scan(h, pack, 0)[i].start < Scan(h, pack, 0)[j].start
  {
    ScanElements(h, pack, 0, i);
    var at := Scan(h, pack, 0)[i].End();
    ScanElements(h, pack, at, j - i - 1);
    hide ParseRecord, Scan;
    assert Scan(h, pack, 0)[i + 1..][j - i - 1] == Scan(h, pack, 0)[j];
  }

  lemma NothingCrosses(h: Hasher, name: PackName, pack: seq<byte>, rows: map<Digest, Row>, v: nat)
    requires AllNamed(h, name, pack, rows) && Boundary(h, pack, v)
    ensures CrossingRows(rows, name, v) == {}
  {
    hide ParseRecord, Boundary;
    forall id | id in rows && rows[id].pack == name
      ensures !(rows[id].offset < v < rows[id].End())
    {
      BoundarySeparates(h, pack, v, rows[id].offset - HEADER_LEN);
    }
  }

  lemma IndexedCount(h: Hasher, name: PackName, pack: seq<byte>, rows: map<Digest, Row>, v: nat)
    requires AllNamed(h, name, pack, rows) && Boundary(h, pack, v)
    ensures |PrefixRows(rows, name, v)| == |Scan(h, pack[..v], 0)| <==> PrefixIndexed(h, name, pack, rows, v)
  {
    hide ParseRecord, Scan, Boundary, Names, ScanEnd;
    assert v <= |pack| by { BoundaryIsInside(h, pack, v); }
    var part := pack[..v];
    var locs, have := Scan(h, part, 0), PrefixRows(rows, name, v);
    IdsCount(locs);
    assert have <= Ids(locs) by {
      forall id | id in have
        ensures id in Ids(locs)
      {
        var i := PrefixRowIsScanned(h, name, pack, rows, v, id);
      }
    }
    SubsetCount(have, Ids(locs));
    if |have| == |locs| {
      forall i | 0 <= i < |locs|
        ensures locs[i].id in rows && rows[locs[i].id] == RowOf(name, locs[i])
      {
        assert locs[i].id in have;
        var j := PrefixRowIsScanned(h, name, pack, rows, v, locs[i].id);
      }
    }
    if PrefixIndexed(h, name, pack, rows, v) {
      forall i, j | 0 <= i < j < |locs|
        ensures locs[i].id != locs[j].id
      {
        ScannedOnce(h, part, i, j);
      }
      forall id | id in Ids(locs)
        ensures id in have
      {
        var i :| 0 <= i < |locs| && locs[i].id == id;
        ScannedInside(h, part, i);
      }
      assert have == Ids(locs);
    }
  }

  lemma BoundaryIsInside(h: Hasher, pack: seq<byte>, v: nat)
    requires Boundary(h, pack, v)
    ensures v <= |pack|
  {
  }

  lemma ScannedInside(h: Hasher, pack: seq<byte>, i: nat)
    requires i < |Scan(h, pack, 0)|
    ensures Scan(h, pack, 0)[i].End() <= |pack|
  {
    ScanElements(h, pack, 0, i);
  }

  /**
    * What the quick check finds, although it only counts: it passes if and only if each record of the counted prefix
    * is the one its identifier's row names; so it fails as soon as one object of the prefix has no row, or one
    * record there is a second copy.
    */
  lemma AgreesIff(h: Hasher, name: PackName, pack: seq<byte>, cat: Catalog)
    requires AllNamed(h, name, pack, cat.rows)
    requires name in cat.checkpoints && Counts(h, pack, cat.checkpoints[name])
    ensures Agrees(name, cat) <==> PrefixIndexed(h, name, pack, cat.rows, cat.checkpoints[name].verifiedLen)
  {
    hide ParseRecord, Scan, ScanEnd, AllNamed, PrefixIndexed;
    var v := cat.checkpoints[name].verifiedLen;
    NothingCrosses(h, name, pack, cat.rows, v);
    IndexedCount(h, name, pack, cat.rows, v);
  }

  // ---- what the reset brings back ----

  /** The pack has a record of the object. */
  ghost predicate Recorded(h: Hasher, pack: seq<byte>, id: Digest) {
    exists i: nat :: i < |Scan(h, pack, 0)| && Scan(h, pack, 0)[i].id == id
  }

  lemma ResetIsUntrusted(h: Hasher, name: PackName, pack: seq<byte>, cat: Catalog, frontier: Option<Frontier>)
    ensures TrustedCheckpoint(name, pack, ResetIndex(name, cat), frontier).None?
    ensures TrustIsSound(h, name, pack, ResetIndex(name, cat), frontier)
  {
  }

  /** Over a pack of whole records that reaches the frontier the reset succeeds, and leaves the pack alone. */
  lemma ResetSucceeds(h: Hasher, name: PackName, pack: seq<byte>, cat: Catalog, frontier: Option<Frontier>)
    requires ScanEnd(h, pack, 0) == |pack| && (frontier.Some? ==> frontier.value.Pack(name) <= |pack|)
    ensures var r := Recover(h, name, pack, ResetIndex(name, cat), frontier);
            r.Ok? && r.value.pack == pack
  {
    hide ParseRecord, Scan, ScanEnd, Recover, TrustIsSound, TrustedCheckpoint;
    ResetIsUntrusted(h, name, pack, cat, frontier);
    RecoveryKeepsLongestPrefix(h, name, pack, ResetIndex(name, cat), frontier);
    assert pack[..|pack|] == pack;
  }

  /** Then every recorded object has a row that names a record of it, unless another pack holds it. */
  lemma ResetFinds(h: Hasher, name: PackName, pack: seq<byte>, cat: Catalog, frontier: Option<Frontier>, id: Digest)
    requires ScanEnd(h, pack, 0) == |pack| && (frontier.Some? ==> frontier.value.Pack(name) <= |pack|)
    requires Recorded(h, pack, id)
    ensures var r := Recover(h, name, pack, ResetIndex(name, cat), frontier);
            && r.Ok? && r.value.pack == pack && id in r.value.cat.rows
            && (r.value.cat.rows[id].pack == name ==> Names(h, pack, id, r.value.cat.rows[id]))
            && (r.value.cat.rows[id].pack != name ==> id in cat.rows && cat.rows[id] == r.value.cat.rows[id])
  {
    var empty := ResetIndex(name, cat);
    ResetIsUntrusted(h, name, pack, cat, frontier);
    ResetSucceeds(h, name, pack, cat, frontier);
    hide ParseRecord, Scan, ScanEnd, Recover, TrustIsSound, TrustedCheckpoint, Names;
    RecoveryRows(h, name, pack, empty, frontier, id);
    RecoveryRowsSound(h, name, pack, empty, frontier);
  }

  /**
    * An object of the counted prefix that has no row reads back all the same: the failed read finds the index short,
    * rebuilds it, and reads again.
    */
  lemma MissingRowHeals(h: Hasher, name: PackName, packs: map<PackName, seq<byte>>, cat: Catalog,
                        frontier: Option<Frontier>, i: nat)
    requires name in packs && AllNamed(h, name, packs[name], cat.rows)
    requires ScanEnd(h, packs[name], 0) == |packs[name]|
    requires frontier.Some? ==> frontier.value.Pack(name) <= |packs[name]|
    requires name in cat.checkpoints && Counts(h, packs[name], cat.checkpoints[name])
    requires i < |Scan(h, packs[name], 0)| && Scan(h, packs[name], 0)[i].End() <= cat.checkpoints[name].verifiedLen
    requires Scan(h, packs[name], 0)[i].id !in cat.rows
    ensures !Agrees(name, cat)
    ensures var id := Scan(h, packs[name], 0)[i].id;
            var rows := Recover(h, name, packs[name], ResetIndex(name, cat), frontier).value.cat.rows;
            && Verify(h, name, packs[name], cat, frontier, false).Ok?
            && id in rows && Names(h, packs[name], id, rows[id]) && rows[id].pack == name
            && rows[id].End() <= |packs[name]|
            && ReadBack(h, name, packs, cat, frontier, true, id, rows[id].kind)
               == Ok(packs[name][rows[id].offset..rows[id].offset + rows[id].len])
  {
    hide ParseRecord, Scan, ScanEnd, AllNamed, Recover, Read, Boundary, Names;
    var pack := packs[name];
    var id, v := Scan(h, pack, 0)[i].id, cat.checkpoints[name].verifiedLen;
    AgreesIff(h, name, pack, cat);
    ScannedInPrefix(h, pack, v, i);
    ResetFinds(h, name, pack, cat, frontier, id);
    var rows := Recover(h, name, pack, ResetIndex(name, cat), frontier).value.cat.rows;
    assert packs[name := pack] == packs;
    NamedReads(h, packs, rows, id);
    NoRowReadsNothing(h, packs, cat.rows, id, rows[id].kind);
    NamedIsInside(h, pack, id, rows[id]);
  }

  lemma NoRowReadsNothing(h: Hasher, packs: map<PackName, seq<byte>>, rows: map<Digest, Row>, id: Digest, kind: Kind)
    requires id !in rows
    ensures Read(h, packs, rows, id, kind) == Err
  {
  }

  lemma NamedIsInside(h: Hasher, pack: seq<byte>, id: Digest, row: Row)
    requires Names(h, pack, id, row)
    ensures row.End() <= |pack|
  {
  }

  lemma ScannedInPrefix(h: Hasher, pack: seq<byte>, v: nat, i: nat)
    requires Boundary(h, pack, v) && i < |Scan(h, pack, 0)| && Scan(h, pack, 0)[i].End() <= v
    ensures i < |Scan(h, pack[..v], 0)| && Scan(h, pack[..v], 0)[i] == Scan(h, pack, 0)[i]
  {
    ScanSplit(h, pack, 0, v);
    if |Scan(h, pack[..v], 0)| <= i {
      var k := i - |Scan(h, pack[..v], 0)|;
      ScanBoundaries(h, pack, v, k);
      ScanNonempty(h, pack, i);
    }
  }

  lemma ScanNonempty(h: Hasher, pack: seq<byte>, i: nat)
    requires i < |Scan(h, pack, 0)|
    ensures Scan(h, pack, 0)[i].start < Scan(h, pack, 0)[i].End()
  {
  }

  // ---- what checking leaves alone, and what it repairs ----

  /** Neither a check nor a rebuild touches the rows and checkpoints of other packs. */
  lemma CheckLeavesOthers(h: Hasher, name: PackName, pack: seq<byte>, cat: Catalog, frontier: Option<Frontier>,
                          deep: bool, id: Digest)
    requires Verify(h, name, pack, cat, frontier, deep).Ok? && id in cat.rows && cat.rows[id].pack != name
    ensures var after := Verify(h, name, pack, cat, frontier, deep).value.cat;
            && id in after.rows && after.rows[id] == cat.rows[id]
            && after.checkpoints - {name} == cat.checkpoints - {name}
  {
    hide ParseRecord, Scan, ScanEnd, Recover, Agrees, TrustedCheckpoint;
    if !Agrees(name, cat) || deep {
      ResetIsUntrusted(h, name, pack, cat, frontier);
      RecoveryRows(h, name, pack, ResetIndex(name, cat), frontier, id);
      RecoveryCheckpoint(h, name, pack, ResetIndex(name, cat), frontier);
      assert (cat.checkpoints - {name}) - {name} == cat.checkpoints - {name};
    }
  }

  /** A row that the checkpoint cuts in two, or any row where there is no checkpoint, is found out: the check rebuilds the
      index, and every row of the pack then names a record of it. */
  lemma StrayRowIsRepaired(h: Hasher, name: PackName, pack: seq<byte>, cat: Catalog, frontier: Option<Frontier>,
                           id: Digest)
    requires ScanEnd(h, pack, 0) == |pack| && (frontier.Some? ==> frontier.value.Pack(name) <= |pack|)
    requires id in cat.rows && cat.rows[id].pack == name
    requires name in cat.checkpoints ==>
               cat.rows[id].offset < cat.checkpoints[name].verifiedLen < cat.rows[id].End()
    ensures !Agrees(name, cat)
    ensures var r := Verify(h, name, pack, cat, frontier, false);
            r.Ok? && r.value.pack == pack && AllNamed(h, name, pack, r.value.cat.rows)
  {
    if name in cat.checkpoints {
      assert id in CrossingRows(cat.rows, name, cat.checkpoints[name].verifiedLen);
    }
    ResetIsUntrusted(h, name, pack, cat, frontier);
    ResetSucceeds(h, name, pack, cat, frontier);
    RecoveryRowsSound(h, name, pack, ResetIndex(name, cat), frontier);
    hide ParseRecord, Scan, ScanEnd, Recover, Agrees, TrustIsSound, TrustedCheckpoint, Names;
  }
}
