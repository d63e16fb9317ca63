/** Recovering a pack twice, and recovering it with an older catalog: what changes, and exactly when. */
module RecoveryTwice {
  import opened Bytes
  import opened Pack
  import opened Recovery

  /** Up to `v`, the first record of every identifier is the one its row names: no aborted batch left a record there
      that has no row, or that precedes the one with the row. */
  ghost predicate PrefixNamed(h: Hasher, name: PackName, pack: seq<byte>, rows: map<Digest, Row>, v: nat) {
    forall i: nat | i < |Scan(h, pack, 0)| && FirstAt(Scan(h, pack, 0), i, Scan(h, pack, 0)[i].id) ::
      var loc := Scan(h, pack, 0)[i];
      loc.End() <= v && !(loc.id in rows && rows[loc.id].pack != name) ==>
        loc.id in rows && rows[loc.id] == RowOf(name, loc)
  }

  /** A record that ends past `v` comes after the records before `v`. */
  lemma PastIndex(h: Hasher, pack: seq<byte>, v: nat, i: nat)
    requires Boundary(h, pack, v) && i < |Scan(h, pack, 0)| && v < Scan(h, pack, 0)[i].End()
    ensures |Scan(h, pack[..v], 0)| <= i && Scan(h, pack, 0) == Scan(h, pack[..v], 0) + Scan(h, pack, v)
  {
    var part := pack[..v];
    assert part[..0] == [];
    hide ParseRecord;
    ScanSplit(h, pack, 0, v);
    if i < |Scan(h, part, 0)| {
      ScanBoundaries(h, part, 0, i);
    }
  }

  lemma FirstInJoin(p: seq<Loc>, q: seq<Loc>, i: nat, j: nat, id: Digest)
    requires FirstAt(p + q, i, id) && FirstAt(q, j, id) && |p| <= i
    ensures (p + q)[i] == q[j]
  {
    assert (p + q)[|p| + j] == q[j] && (p + q)[i] == q[i - |p|];
  }

  /** The first record of an identifier in the scan from `v` is its first record of all when none lies before `v`. */
  lemma FirstPastPrefix(h: Hasher, pack: seq<byte>, v: nat, i: nat, j: nat, id: Digest)
    requires Boundary(h, pack, v)
    requires FirstAt(Scan(h, pack, 0), i, id) && FirstAt(Scan(h, pack, v), j, id)
    requires v < Scan(h, pack, 0)[i].End()
    ensures Scan(h, pack, 0)[i] == Scan(h, pack, v)[j]
  {
    PastIndex(h, pack, v, i);
    assert v <= |pack|;
    hide ParseRecord, Scan, ScanEnd;
    FirstInJoin(Scan(h, pack[..v], 0), Scan(h, pack, v), i, j, id);
  }

  /** A record past `v` is listed by the scan from `v`. */
  lemma PastPrefix(h: Hasher, pack: seq<byte>, v: nat, i: nat) returns (j: nat)
    requires Boundary(h, pack, v) && i < |Scan(h, pack, 0)| && v < Scan(h, pack, 0)[i].End()
    ensures j < |Scan(h, pack, v)| && Scan(h, pack, v)[j] == Scan(h, pack, 0)[i]
  {
    PastIndex(h, pack, v, i);
    assert v <= |pack|;
    hide ParseRecord, Scan, ScanEnd;
    j := i - |Scan(h, pack[..v], 0)|;
  }

  lemma {:induction false} FirstOf(locs: seq<Loc>, k: nat, id: Digest) returns (i: nat)
    requires k < |locs| && locs[k].id == id
    ensures FirstAt(locs, i, id) && i <= k
    decreases k
  {
    if j :| 0 <= j < k && locs[j].id == id {
      i := FirstOf(locs, j, id);
    } else {
      i := k;
    }
  }

  lemma FirstIsUnique(locs: seq<Loc>, i: nat, j: nat, id: Digest)
    requires FirstAt(locs, i, id) && FirstAt(locs, j, id)
    ensures i == j
  {
  }

  /** The same row, or none, in both tables. */
  ghost predicate SameRow(a: map<Digest, Row>, b: map<Digest, Row>, id: Digest) {
    (id in a <==> id in b) && (id in a ==> a[id] == b[id])
  }

  /** What a trusting recovery makes of one identifier's row. */
  ghost predicate Trusting(h: Hasher, name: PackName, pack: seq<byte>, rows: map<Digest, Row>, v: nat,
                           r: map<Digest, Row>, id: Digest)
    requires v <= |pack|
  {
    && (id in rows ==> id in r && r[id] == rows[id])
    && (id in r && id !in rows ==> RowScanned(h, name, pack, v, id, r[id]))
    && (forall i | 0 <= i < |Scan(h, pack, v)| :: Scan(h, pack, v)[i].id in r)
  }

  /** What a full scan makes of it. */
  ghost predicate Rebuilding(h: Hasher, name: PackName, pack: seq<byte>, r: map<Digest, Row>, a: map<Digest, Row>,
                             id: Digest)
  {
    && (id in r && r[id].pack != name ==> id in a && a[id] == r[id])
    && (id in a && !(id in r && r[id].pack != name) ==> RowScanned(h, name, pack, 0, id, a[id]))
    && (forall i | 0 <= i < |Scan(h, pack, 0)| :: Scan(h, pack, 0)[i].id in a)
  }

  ghost predicate FirstIsNamed(h: Hasher, name: PackName, pack: seq<byte>, rows: map<Digest, Row>, v: nat, id: Digest) {
    forall i: nat | FirstAt(Scan(h, pack, 0), i, id) ::
      Scan(h, pack, 0)[i].End() <= v && !(id in rows && rows[id].pack != name) ==>
        id in rows && rows[id] == RowOf(name, Scan(h, pack, 0)[i])
  }

  /** A recovery that trusted a checkpoint, followed by one that cannot: one identifier. */
  lemma RebuiltRow(h: Hasher, name: PackName, pack: seq<byte>, rows: map<Digest, Row>, v: nat,
                   r: map<Digest, Row>, a: map<Digest, Row>, id: Digest)
    requires Boundary(h, pack, v) && Boundary(h, pack, 0)
    requires RowsSound(h, name, pack, rows, v) && RowsEndBy(rows, name, v)
    requires Trusting(h, name, pack, rows, v, r, id) && Rebuilding(h, name, pack, r, a, id)
    ensures SameRow(r, a, id) <==> FirstIsNamed(h, name, pack, rows, v, id)
  {
    assert v <= |pack|;
    hide ParseRecord, Scan, ScanEnd, Boundary, Names;
    var locs := Scan(h, pack, 0);
    if id in rows {
      if rows[id].pack == name {
        NameIsNonempty(h, pack, id, rows[id]);
        var k := NamedIsScanned(h, pack, 0, id, rows[id]);
        var i := FirstOf(locs, k, id);
        ScanOrdered(h, pack, 0, i, k);
        RebuiltIsFirst(h, name, pack, r, a, id, i);
      }
    } else if k :| 0 <= k < |locs| && locs[k].id == id {
      var i := FirstOf(locs, k, id);
      if id in r {
        ScannedIsNamed(h, name, pack, v, id, r[id]);
      }
      RebuiltIsFirst(h, name, pack, r, a, id, i);
      if v < locs[i].End() {
        var j := PastPrefix(h, pack, v, i);
        var m: nat :| FirstAt(Scan(h, pack, v), m, id) && r[id] == RowOf(name, Scan(h, pack, v)[m]);
        FirstPastPrefix(h, pack, v, i, m, id);
      }
    } else if id in r {
      var m: nat :| FirstAt(Scan(h, pack, v), m, id) && r[id] == RowOf(name, Scan(h, pack, v)[m]);
      var k := InWholeScan(h, pack, v, m);
      assert false;
    }
  }

  lemma RebuiltIsFirst(h: Hasher, name: PackName, pack: seq<byte>, r: map<Digest, Row>, a: map<Digest, Row>, id: Digest,
                       i: nat)
    requires Rebuilding(h, name, pack, r, a, id) && FirstAt(Scan(h, pack, 0), i, id)
    requires id in r ==> r[id].pack == name
    ensures id in a && a[id] == RowOf(name, Scan(h, pack, 0)[i])
    ensures forall j: nat | FirstAt(Scan(h, pack, 0), j, id) :: j == i
  {
    hide Scan;
    var j: nat :| FirstAt(Scan(h, pack, 0), j, id) && a[id] == RowOf(name, Scan(h, pack, 0)[j]);
    FirstIsUnique(Scan(h, pack, 0), i, j, id);
  }

  lemma InWholeScan(h: Hasher, pack: seq<byte>, v: nat, j: nat) returns (k: nat)
    requires Boundary(h, pack, v) && j < |Scan(h, pack, v)|
    ensures k < |Scan(h, pack, 0)| && Scan(h, pack, 0)[k] == Scan(h, pack, v)[j]
  {
    hide ParseRecord, Scan, ScanEnd;
    ScanSplit(h, pack, 0, v);
    k := |Scan(h, pack[..v], 0)| + j;
  }

  lemma ScannedIsNamed(h: Hasher, name: PackName, pack: seq<byte>, v: nat, id: Digest, row: Row)
    requires Boundary(h, pack, v) && RowScanned(h, name, pack, v, id, row)
    ensures row.pack == name && v + HEADER_LEN <= row.offset
  {
    var j: nat :| FirstAt(Scan(h, pack, v), j, id) && row == RowOf(name, Scan(h, pack, v)[j]);
    ScanBoundaries(h, pack, v, j);
  }

  // ---- whether the second recovery trusts a checkpoint ----

  /** The last record past `v`, if there is one, is the first of its identifier, which has no row yet. */
  ghost predicate LastIsNew(h: Hasher, pack: seq<byte>, rows: map<Digest, Row>, v: nat)
    requires v <= |pack|
  {
    var locs := Scan(h, pack, v);
    locs == [] || (FirstAt(locs, |locs| - 1, locs[|locs| - 1].id) && locs[|locs| - 1].id !in rows)
  }

  lemma TrustedStaysRecorded(h: Hasher, name: PackName, pack: seq<byte>, cat: Catalog, frontier: Option<Frontier>)
    requires TrustIsSound(h, name, pack, cat, frontier) && Recover(h, name, pack, cat, frontier).Ok?
    requires TrustedCheckpoint(name, pack, cat, frontier).Some?
    ensures var r := Recover(h, name, pack, cat, frontier).value;
            name in r.cat.checkpoints && r.cat.checkpoints[name] == FullCheckpoint(h, pack)
  {
    RecoveryCheckpoint(h, name, pack, cat, frontier);
    hide ParseRecord, Scan, ScanEnd, RecoveredRows, ReadRecords, ValidCheckpoint;
  }

  /** A row that names a record makes a valid last object exactly if it ends where the checkpoint does. */
  lemma NamedRowIsLast(h: Hasher, name: PackName, pack: seq<byte>, rows: map<Digest, Row>, c: Checkpoint, loc: Loc)
    requires c.verifiedLen == |pack| && c.objectCount != 0 && c.lastObject == Some(loc.id) && c.lastRecordStart == loc.start
    requires RowsEndBy(rows, name, |pack|) && loc.id in rows && loc.End() == |pack|
    requires rows[loc.id].pack == name ==> Names(h, pack, loc.id, rows[loc.id])
    ensures ValidCheckpoint(name, pack, rows, c) <==> rows[loc.id].pack == name && rows[loc.id].offset == loc.Payload()
                                                      && rows[loc.id].End() == loc.End()
  {
    if rows[loc.id].pack == name {
      NamedHeader(h, pack, loc.id, rows[loc.id]);
    }
    hide HeaderNames, Names;
  }

  lemma LastOfScan(h: Hasher, pack: seq<byte>, v: nat)
    requires Boundary(h, pack, v) && Scan(h, pack, v) != []
    ensures var locs, all := Scan(h, pack, v), Scan(h, pack, 0);
            && all != [] && all[|all| - 1] == locs[|locs| - 1]
            && locs[|locs| - 1].End() == ScanEnd(h, pack, 0) && v < ScanEnd(h, pack, 0)
  {
    var locs := Scan(h, pack, v);
    ScanSplit(h, pack, 0, v);
    ScanElements(h, pack, v, |locs| - 1);
    ScanEmptyIff(h, pack, locs[|locs| - 1].End());
    hide ParseRecord, Scan, ScanEnd;
  }

  lemma {:induction false} StartsAreDistinct(h: Hasher, pack: seq<byte>, v: nat, i: nat, j: nat)
    requires v <= |pack| && i < |Scan(h, pack, v)| && j < |Scan(h, pack, v)|
    requires Scan(h, pack, v)[i].start == Scan(h, pack, v)[j].start
    ensures i == j
  {
    if i < j {
      ScanElements(h, pack, v, i);
      ScanElements(h, pack, Scan(h, pack, v)[i].End(), j - i - 1);
    } else if j < i {
      StartsAreDistinct(h, pack, v, j, i);
    }
  }

  /** The recovered row of the last record's identifier is the row of that record exactly if it is new. */
  lemma LastRowIff(h: Hasher, name: PackName, pack: seq<byte>, v: nat, rows: map<Digest, Row>, r: map<Digest, Row>,
                   loc: Loc)
    requires v <= |pack| && Scan(h, pack, v) != [] && loc == Scan(h, pack, v)[|Scan(h, pack, v)| - 1] && v < loc.End()
    requires RowsEndBy(rows, name, v) && Trusting(h, name, pack, rows, v, r, loc.id)
    ensures loc.id in r
    ensures r[loc.id].pack == name && r[loc.id].offset == loc.Payload() && r[loc.id].End() == loc.End()
            <==> LastIsNew(h, pack, rows, v)
  {
    hide ParseRecord, Scan, ScanEnd;
    var locs := Scan(h, pack, v);
    assert locs[|locs| - 1].id in r;
    if loc.id !in rows {
      var i: nat :| FirstAt(locs, i, loc.id) && r[loc.id] == RowOf(name, locs[i]);
      if locs[i].start == loc.start {
        StartsAreDistinct(h, pack, v, i, |locs| - 1);
      }
    }
  }

  lemma TrustedRows(h: Hasher, name: PackName, pack: seq<byte>, cat: Catalog, frontier: Option<Frontier>, id: Digest)
    requires TrustIsSound(h, name, pack, cat, frontier) && Recover(h, name, pack, cat, frontier).Ok?
    requires TrustedCheckpoint(name, pack, cat, frontier).Some?
    ensures var v := TrustedCheckpoint(name, pack, cat, frontier).value.verifiedLen;
            && Boundary(h, pack, v) && RowsEndBy(cat.rows, name, v)
            && Trusting(h, name, pack, cat.rows, v, Recover(h, name, pack, cat, frontier).value.cat.rows, id)
  {
    TrustGivesBoundary(h, name, pack, cat, frontier);
    RecoveryRows(h, name, pack, cat, frontier, id);
    hide ParseRecord, Scan, ScanEnd, Recover, TrustIsSound, Boundary, HeaderNames;
  }

  lemma FullCheckpointIs(h: Hasher, pack: seq<byte>, loc: Loc)
    requires Scan(h, pack, 0) != [] && loc == Scan(h, pack, 0)[|Scan(h, pack, 0)| - 1]
    ensures var c := FullCheckpoint(h, pack);
            && c.verifiedLen == ScanEnd(h, pack, 0) && c.objectCount != 0
            && c.lastObject == Some(loc.id) && c.lastRecordStart == loc.start
  {
    hide Scan, ScanEnd;
  }

  /** Past the trusted checkpoint something was scanned: the new checkpoint is valid exactly if its object is new. */
  lemma ScannedIsValidIff(h: Hasher, name: PackName, pack: seq<byte>, cat: Catalog, frontier: Option<Frontier>, loc: Loc)
    requires TrustIsSound(h, name, pack, cat, frontier) && Recover(h, name, pack, cat, frontier).Ok?
    requires TrustedCheckpoint(name, pack, cat, frontier).Some?
    requires var locs := Scan(h, pack, TrustedCheckpoint(name, pack, cat, frontier).value.verifiedLen);
             locs != [] && loc == locs[|locs| - 1]
    ensures var r := Recover(h, name, pack, cat, frontier).value;
            var v := TrustedCheckpoint(name, pack, cat, frontier).value.verifiedLen;
            ValidCheckpoint(name, r.pack, r.cat.rows, FullCheckpoint(h, pack)) <==> LastIsNew(h, pack, cat.rows, v)
  {
    hide ParseRecord, Scan, ScanEnd, Recover, ValidCheckpoint, TrustedCheckpoint, TrustIsSound, Names, Boundary, LastIsNew,
         Trusting, FullCheckpoint, FirstAt;
    var r := Recover(h, name, pack, cat, frontier).value;
    var v := TrustedCheckpoint(name, pack, cat, frontier).value.verifiedLen;
    TrustedRows(h, name, pack, cat, frontier, loc.id);
    RecoveryKeepsLongestPrefix(h, name, pack, cat, frontier);
    LastOfScan(h, pack, v);
    FullCheckpointIs(h, pack, loc);
    LastRowIff(h, name, pack, v, cat.rows, r.cat.rows, loc);
    RecoveryRowsSound(h, name, pack, cat, frontier);
    NamedRowIsLast(h, name, r.pack, r.cat.rows, FullCheckpoint(h, pack), loc);
  }

  lemma TrustedIsValid(h: Hasher, name: PackName, pack: seq<byte>, cat: Catalog, frontier: Option<Frontier>)
    requires TrustIsSound(h, name, pack, cat, frontier) && TrustedCheckpoint(name, pack, cat, frontier).Some?
    ensures var c := TrustedCheckpoint(name, pack, cat, frontier).value;
            Counts(h, pack, c) && ValidCheckpoint(name, pack, cat.rows, c)
  {
    hide Scan, ScanEnd, Boundary, RowsSound, HeaderNames;
  }

  /** Nothing was scanned past it: the new checkpoint is the trusted one. */
  lemma UnmovedIsValid(h: Hasher, name: PackName, pack: seq<byte>, cat: Catalog, frontier: Option<Frontier>)
    requires TrustIsSound(h, name, pack, cat, frontier) && Recover(h, name, pack, cat, frontier).Ok?
    requires var trusted := TrustedCheckpoint(name, pack, cat, frontier);
             trusted.Some? && Scan(h, pack, trusted.value.verifiedLen) == []
    ensures var r := Recover(h, name, pack, cat, frontier).value;
            ValidCheckpoint(name, r.pack, r.cat.rows, FullCheckpoint(h, pack))
  {
    var c := TrustedCheckpoint(name, pack, cat, frontier).value;
    var r := Recover(h, name, pack, cat, frontier).value;
    TrustGivesBoundary(h, name, pack, cat, frontier);
    RecoveryKeepsLongestPrefix(h, name, pack, cat, frontier);
    RecoveryRowsSound(h, name, pack, cat, frontier);
    ScanSplit(h, pack, 0, c.verifiedLen);
    ScanEmptyIff(h, pack, c.verifiedLen);
    TrustedIsValid(h, name, pack, cat, frontier);
    hide ParseRecord, Scan, ScanEnd, Recover, TrustedCheckpoint, TrustIsSound, Names, Boundary, HeaderNames, RecoveryFails,
         RowsSound;
    assert FullCheckpoint(h, pack) == c;
    if c.objectCount != 0 {
      var id := c.lastObject.value;
      RecoveryRows(h, name, pack, cat, frontier, id);
      NamedRowIsLast(h, name, r.pack, r.cat.rows, c, Loc(c.lastRecordStart, cat.rows[id].kind, id, cat.rows[id].len));
    }
  }

  lemma TrustsValid(name: PackName, pack: seq<byte>, cat: Catalog, frontier: Option<Frontier>)
    ensures TrustedCheckpoint(name, pack, cat, frontier).Some? <==>
              && name in cat.checkpoints
              && (frontier.Some? ==> cat.checkpoints[name].verifiedLen <= frontier.value.Pack(name))
              && ValidCheckpoint(name, pack, cat.rows, cat.checkpoints[name])
  {
    hide ValidCheckpoint;
  }

  lemma NewIsValidIff(h: Hasher, name: PackName, pack: seq<byte>, cat: Catalog, frontier: Option<Frontier>)
    requires TrustIsSound(h, name, pack, cat, frontier) && Recover(h, name, pack, cat, frontier).Ok?
    requires TrustedCheckpoint(name, pack, cat, frontier).Some?
    ensures var r := Recover(h, name, pack, cat, frontier).value;
            var v := TrustedCheckpoint(name, pack, cat, frontier).value.verifiedLen;
            ValidCheckpoint(name, r.pack, r.cat.rows, FullCheckpoint(h, pack)) <==> LastIsNew(h, pack, cat.rows, v)
  {
    hide ParseRecord, Scan, ScanEnd, Recover, TrustIsSound, ValidCheckpoint, TrustedCheckpoint, FullCheckpoint;
    var v := TrustedCheckpoint(name, pack, cat, frontier).value.verifiedLen;
    if Scan(h, pack, v) == [] {
      UnmovedIsValid(h, name, pack, cat, frontier);
    } else {
      hide LastIsNew;
      ScannedIsValidIff(h, name, pack, cat, frontier, Scan(h, pack, v)[|Scan(h, pack, v)| - 1]);
    }
  }

  lemma FullEndsAt(h: Hasher, pack: seq<byte>)
    ensures FullCheckpoint(h, pack).verifiedLen == ScanEnd(h, pack, 0)
  {
    ScanEmptyIff(h, pack, 0);
    hide Scan, ScanEnd, ParseRecord;
  }

  /** A recovery that trusted a checkpoint leaves one that is trusted again if and only if the frontier reaches the end
      of the records and the last record scanned is new. */
  lemma SecondTrustsIff(h: Hasher, name: PackName, pack: seq<byte>, cat: Catalog, frontier: Option<Frontier>)
    requires TrustIsSound(h, name, pack, cat, frontier) && Recover(h, name, pack, cat, frontier).Ok?
    requires TrustedCheckpoint(name, pack, cat, frontier).Some?
    ensures var r := Recover(h, name, pack, cat, frontier).value;
            TrustedCheckpoint(name, r.pack, r.cat, frontier).Some? <==>
              && (frontier.None? || ScanEnd(h, pack, 0) <= frontier.value.Pack(name))
              && LastIsNew(h, pack, cat.rows, TrustedCheckpoint(name, pack, cat, frontier).value.verifiedLen)
  {
    hide ParseRecord, Scan, ScanEnd, Recover, TrustIsSound, ValidCheckpoint, TrustedCheckpoint, LastIsNew, FullCheckpoint;
    var r := Recover(h, name, pack, cat, frontier).value;
    TrustedStaysRecorded(h, name, pack, cat, frontier);
    TrustsValid(name, r.pack, r.cat, frontier);
    NewIsValidIff(h, name, pack, cat, frontier);
    FullEndsAt(h, pack);
  }

  /**
    * The exact condition under which a second recovery changes nothing: the first started from nothing; or the
    * frontier reaches the end of the records and the last of them is new, so that the second trusts a checkpoint
    * again; or up to the checkpoint the first trusted every identifier's first record is the one its row names. File
    * and checkpoints never change.
    */
  lemma SecondRecoveryIff(h: Hasher, name: PackName, pack: seq<byte>, cat: Catalog, frontier: Option<Frontier>)
    requires TrustIsSound(h, name, pack, cat, frontier)
    requires Recover(h, name, pack, cat, frontier).Ok?
    ensures var trusted := TrustedCheckpoint(name, pack, cat, frontier);
            var r := Recover(h, name, pack, cat, frontier).value;
            var again := Recover(h, name, r.pack, r.cat, frontier);
            && again.Ok? && again.value.pack == r.pack && again.value.cat.checkpoints == r.cat.checkpoints
            && (again.value.cat == r.cat <==>
                  || trusted.None?
                  || ((frontier.None? || ScanEnd(h, pack, 0) <= frontier.value.Pack(name))
                      && LastIsNew(h, pack, cat.rows, trusted.value.verifiedLen))
                  || PrefixNamed(h, name, pack, cat.rows, trusted.value.verifiedLen))
  {
    SecondRecovery(h, name, pack, cat, frontier);
    var trusted := TrustedCheckpoint(name, pack, cat, frontier);
    var r := Recover(h, name, pack, cat, frontier).value;
    var again := Recover(h, name, r.pack, r.cat, frontier).value;
    hide ParseRecord, Scan, ScanEnd, Recover, TrustIsSound, TrustedCheckpoint, PrefixNamed, SameRow, FirstIsNamed, LastIsNew;
    if trusted.Some? {
      SecondTrustsIff(h, name, pack, cat, frontier);
      if TrustedCheckpoint(name, r.pack, r.cat, frontier).None? {
        forall id
          ensures SameRow(r.cat.rows, again.cat.rows, id) <==>
                    FirstIsNamed(h, name, pack, cat.rows, trusted.value.verifiedLen, id)
        {
          RebuiltAfterTrust(h, name, pack, cat, frontier, id);
        }
        PrefixById(h, name, pack, cat.rows, trusted.value.verifiedLen);
        SameTables(r.cat.rows, again.cat.rows);
      }
    }
  }

  lemma SameTables(a: map<Digest, Row>, b: map<Digest, Row>)
    ensures a == b <==> forall id :: SameRow(a, b, id)
  {
    if forall id :: SameRow(a, b, id) {
      assert forall id | id in a :: SameRow(a, b, id);
      assert forall id | id in b :: SameRow(a, b, id);
    }
  }

  lemma PrefixById(h: Hasher, name: PackName, pack: seq<byte>, rows: map<Digest, Row>, v: nat)
    ensures PrefixNamed(h, name, pack, rows, v) <==> forall id :: FirstIsNamed(h, name, pack, rows, v, id)
  {
    hide Scan;
    if forall id :: FirstIsNamed(h, name, pack, rows, v, id) {
      forall i: nat | i < |Scan(h, pack, 0)| && FirstAt(Scan(h, pack, 0), i, Scan(h, pack, 0)[i].id)
        ensures FirstIsNamed(h, name, pack, rows, v, Scan(h, pack, 0)[i].id)
      {
      }
    }
  }

  lemma RebuiltAfterTrust(
    h: Hasher, name: PackName, pack: seq<byte>, cat: Catalog, frontier: Option<Frontier>, id: Digest)
    requires TrustIsSound(h, name, pack, cat, frontier) && Recover(h, name, pack, cat, frontier).Ok?
    requires TrustedCheckpoint(name, pack, cat, frontier).Some?
    requires var r := Recover(h, name, pack, cat, frontier).value;
             TrustedCheckpoint(name, r.pack, r.cat, frontier).None? && Recover(h, name, r.pack, r.cat, frontier).Ok?
    ensures var v := TrustedCheckpoint(name, pack, cat, frontier).value.verifiedLen;
            var r := Recover(h, name, pack, cat, frontier).value;
            var again := Recover(h, name, r.pack, r.cat, frontier).value;
            SameRow(r.cat.rows, again.cat.rows, id) <==> FirstIsNamed(h, name, pack, cat.rows, v, id)
  {
    var v := TrustedCheckpoint(name, pack, cat, frontier).value.verifiedLen;
    var r := Recover(h, name, pack, cat, frontier).value;
    var again := Recover(h, name, r.pack, r.cat, frontier).value;
    RecoveredIsSound(h, name, pack, cat, frontier);
    RecoveryRows(h, name, pack, cat, frontier, id);
    RecoveryRows(h, name, r.pack, r.cat, frontier, id);
    TrustGivesBoundary(h, name, pack, cat, frontier);
    RecoveryRowsSound(h, name, pack, cat, frontier);
    assert RowsEndBy(cat.rows, name, v) && RowsSound(h, name, pack, cat.rows, v);
    assert pack[..0] == [];
    hide ParseRecord, Scan, ScanEnd, Recover, ValidCheckpoint, TrustedCheckpoint, TrustIsSound, Names;
    if id in r.cat.rows && r.cat.rows[id].pack == name {
      NameIsNonempty(h, r.pack, id, r.cat.rows[id]);
    }
    RebuiltRow(h, name, pack, cat.rows, v, r.cat.rows, again.cat.rows, id);
  }

  // ---- an aborted batch ----

  function FrontierAt(name: PackName, len: nat): Option<Frontier> {
    Some(Frontier(map[name := len], map[]))
  }

  /** `a` was appended by a batch that was rolled back, `b` by one that committed and moved the checkpoint. */
  function AfterAbort(h: Hasher, name: PackName, a: Obj, b: Obj): Catalog {
    var start := |EncodeRecord(h, a)|;
    Catalog(map[b.Id(h) := RowOf(name, NewLoc(h, EncodeRecord(h, a), b))],
            map[name := Checkpoint(|EncodeRecord(h, a) + EncodeRecord(h, b)|, 2, Some(b.Id(h)), start)])
  }

  lemma TwoRecords(h: Hasher, a: Obj, b: Obj)
    requires a.Fits() && b.Fits()
    ensures var pack := EncodeRecord(h, a) + EncodeRecord(h, b);
            && Scan(h, pack, 0) == [NewLoc(h, [], a), NewLoc(h, EncodeRecord(h, a), b)]
            && ScanEnd(h, pack, 0) == |pack| == NewLoc(h, EncodeRecord(h, a), b).End()
            && NewLoc(h, [], a).End() == |EncodeRecord(h, a)|
            && Boundary(h, pack, |pack|) && Boundary(h, pack, 0)
  {
    hide ParseRecord, ScanEnd, Scan, EncodeRecord, Boundary;
    var one := EncodeRecord(h, a);
    var pack := one + EncodeRecord(h, b);
    assert [] + one == one;
    EmptyScan(h);
    EncodedLength(h, a);
    EncodedLength(h, b);
    ScanAppend(h, [], 0, a);
    ScanAppend(h, one, 0, b);
    WholeIsBoundary(h, pack);
  }

  lemma EmptyScan(h: Hasher)
    ensures Scan(h, [], 0) == [] && ScanEnd(h, [], 0) == 0
  {
  }

  lemma WholeIsBoundary(h: Hasher, pack: seq<byte>)
    requires ScanEnd(h, pack, 0) == |pack|
    ensures Boundary(h, pack, |pack|) && Boundary(h, pack, 0)
  {
    hide ScanEnd;
    assert pack[..|pack|] == pack && pack[..0] == [];
    EmptyScan(h);
  }

  lemma EncodedLength(h: Hasher, obj: Obj)
    requires obj.Fits()
    ensures forall pack: seq<byte> :: NewLoc(h, pack, obj).End() == |pack| + |EncodeRecord(h, obj)|
  {
    HeaderFields(h, obj);
  }

  lemma AfterAbortHas(h: Hasher, name: PackName, a: Obj, b: Obj)
    ensures var cat := AfterAbort(h, name, a, b);
            && (forall id :: id in cat.rows <==> id == b.Id(h))
            && cat.rows[b.Id(h)] == RowOf(name, NewLoc(h, EncodeRecord(h, a), b))
            && cat.checkpoints == map[name := Checkpoint(|EncodeRecord(h, a) + EncodeRecord(h, b)|, 2, Some(b.Id(h)),
                                                         |EncodeRecord(h, a)|)]
  {
  }

  lemma AbortedPrefix(h: Hasher, name: PackName, a: Obj, b: Obj, more: seq<byte>)
    requires a.Fits() && b.Fits()
    ensures var pack := EncodeRecord(h, a) + EncodeRecord(h, b);
            && Boundary(h, pack + more, |pack|) && (pack + more)[..|pack|] == pack
            && Scan(h, pack, 0) <= Scan(h, pack + more, 0)
            && Names(h, pack + more, b.Id(h), RowOf(name, NewLoc(h, EncodeRecord(h, a), b)))
  {
    var pack := EncodeRecord(h, a) + EncodeRecord(h, b);
    TwoRecords(h, a, b);
    assert (pack + more)[..|pack|] == pack;
    ScanSplit(h, pack + more, 0, |pack|);
    ScannedNames(h, pack, 0, 1, name);
    assert pack[..|pack|] == pack;
    hide ParseRecord, ScanEnd, Scan, EncodeRecord, Boundary, Names;
    NamesIsLocal(h, pack, pack + more, b.Id(h), RowOf(name, NewLoc(h, EncodeRecord(h, a), b)));
  }

  lemma AbortedCheckpointIsValid(h: Hasher, name: PackName, a: Obj, b: Obj, more: seq<byte>)
    requires a.Fits() && b.Fits()
    ensures var pack := EncodeRecord(h, a) + EncodeRecord(h, b);
            var cat := AfterAbort(h, name, a, b);
            ValidCheckpoint(name, pack + more, cat.rows, cat.checkpoints[name])
  {
    var pack := EncodeRecord(h, a) + EncodeRecord(h, b);
    var row := RowOf(name, NewLoc(h, EncodeRecord(h, a), b));
    AbortedPrefix(h, name, a, b, more);
    TwoRecords(h, a, b);
    NamedHeader(h, pack + more, b.Id(h), row);
    hide ParseRecord, ScanEnd, Scan, EncodeRecord, HeaderNames, Boundary, Names, AfterAbort, Obj.Id;
    AfterAbortHas(h, name, a, b);
  }

  lemma AbortedPrefixIsSound(h: Hasher, name: PackName, a: Obj, b: Obj, more: seq<byte>)
    requires a.Fits() && b.Fits()
    ensures var pack := EncodeRecord(h, a) + EncodeRecord(h, b);
            var cat := AfterAbort(h, name, a, b);
            SoundPrefix(h, name, pack + more, cat, cat.checkpoints[name])
  {
    AbortedPrefix(h, name, a, b, more);
    TwoRecords(h, a, b);
    hide ParseRecord, ScanEnd, Scan, EncodeRecord, Boundary, Names, AfterAbort, Obj.Id;
    AfterAbortHas(h, name, a, b);
  }

  /** The catalog after the aborted batch is one that recovery trusts up to its checkpoint. */
  lemma AfterAbortIsTrusted(h: Hasher, name: PackName, a: Obj, b: Obj, more: seq<byte>)
    requires a.Fits() && b.Fits()
    ensures var pack := EncodeRecord(h, a) + EncodeRecord(h, b);
            var cat := AfterAbort(h, name, a, b);
            && TrustedCheckpoint(name, pack + more, cat, FrontierAt(name, |pack|)) == Some(cat.checkpoints[name])
            && TrustIsSound(h, name, pack + more, cat, FrontierAt(name, |pack|))
  {
    AbortedCheckpointIsValid(h, name, a, b, more);
    AbortedPrefixIsSound(h, name, a, b, more);
    hide EncodeRecord, ValidCheckpoint, SoundPrefix, Obj.Id;
  }

  lemma ThirdRecord(h: Hasher, a: Obj, b: Obj, c: Obj)
    requires a.Fits() && b.Fits() && c.Fits()
    ensures var two := EncodeRecord(h, a) + EncodeRecord(h, b);
            var pack := two + EncodeRecord(h, c);
            && ScanEnd(h, pack, 0) == |pack| && |two| < |pack|
            && Scan(h, pack, |two|) == [NewLoc(h, two, c)]
            && Scan(h, pack, 0) != [] && Scan(h, pack, 0)[0].id == a.Id(h)
  {
    var two := EncodeRecord(h, a) + EncodeRecord(h, b);
    TwoRecords(h, a, b);
    assert Scan(h, two, |two|) == [] && ScanEnd(h, two, |two|) == |two|;
    hide ParseRecord, ScanEnd, Scan, EncodeRecord, Boundary;
    ScanAppend(h, two, 0, c);
    ScanAppend(h, two, |two|, c);
    EncodedLength(h, c);
  }

  /**
    * A second recovery that adds a row: the first trusts the checkpoint, which lies at the frontier, and finds `c`
    * past it; its own checkpoint then lies past the frontier, so the second reads the whole pack and gives the
    * aborted `a` a row.
    */
  lemma AbortedRecordReturns(h: Hasher, name: PackName, a: Obj, b: Obj, c: Obj)
    requires a.Fits() && b.Fits() && c.Fits()
    requires a.Id(h) != b.Id(h) && a.Id(h) != c.Id(h)
    ensures var two := EncodeRecord(h, a) + EncodeRecord(h, b);
            var pack, frontier := two + EncodeRecord(h, c), FrontierAt(name, |two|);
            var first := Recover(h, name, pack, AfterAbort(h, name, a, b), frontier);
            && TrustIsSound(h, name, pack, AfterAbort(h, name, a, b), frontier)
            && first.Ok? && a.Id(h) !in first.value.cat.rows
            && var second := Recover(h, name, first.value.pack, first.value.cat, frontier);
               second.Ok? && a.Id(h) in second.value.cat.rows
  {
    var two := EncodeRecord(h, a) + EncodeRecord(h, b);
    var pack, frontier := two + EncodeRecord(h, c), FrontierAt(name, |two|);
    var cat := AfterAbort(h, name, a, b);
    hide ParseRecord, ScanEnd, Scan, EncodeRecord, Recover, TrustedCheckpoint, TrustIsSound, Boundary, AfterAbort, Obj.Id;
    ThirdRecord(h, a, b, c);
    AfterAbortHas(h, name, a, b);
    AfterAbortIsTrusted(h, name, a, b, EncodeRecord(h, c));
    RecoveryKeepsLongestPrefix(h, name, pack, cat, frontier);
    RecoveryCheckpoint(h, name, pack, cat, frontier);
    RecoveredIsSound(h, name, pack, cat, frontier);
    RecoveryRows(h, name, pack, cat, frontier, a.Id(h));
    var r := Recover(h, name, pack, cat, frontier).value;
    LongCheckpointIsNotTrusted(name, r.pack, r.cat, frontier);
    RecoveryRows(h, name, r.pack, r.cat, frontier, a.Id(h));
    assert Scan(h, r.pack, 0)[0].id == a.Id(h);
    assert frontier.value.Pack(name) == |two|;
  }

  lemma LongCheckpointIsNotTrusted(name: PackName, pack: seq<byte>, cat: Catalog, frontier: Option<Frontier>)
    requires name in cat.checkpoints && frontier.Some? && frontier.value.Pack(name) < cat.checkpoints[name].verifiedLen
    ensures TrustedCheckpoint(name, pack, cat, frontier).None?
  {
  }

  // ---- an older catalog ----

  /**
    * What a process crash and a later power loss can do together. A recovery that trusts no checkpoint gives the
    * aborted `a` a row, so a later writer stores `a` no second time; if a power loss then brings back the older
    * catalog, whose checkpoint the frontier has meanwhile reached, recovery changes nothing and `a` has no row until
    * the index is reset.
    */
  lemma OlderCatalogForgets(h: Hasher, name: PackName, a: Obj, b: Obj)
    requires a.Fits() && b.Fits() && a.Id(h) != b.Id(h)
    ensures var pack := EncodeRecord(h, a) + EncodeRecord(h, b);
            var older := AfterAbort(h, name, a, b);
            var reopened := Recover(h, name, pack, older, FrontierAt(name, 0));
            && reopened.Ok? && reopened.value.pack == pack && a.Id(h) in reopened.value.cat.rows
            && Recover(h, name, pack, older, FrontierAt(name, |pack|)) == Ok(Recovered(pack, older, false))
            && a.Id(h) !in older.rows
  {
    var pack := EncodeRecord(h, a) + EncodeRecord(h, b);
    var older := AfterAbort(h, name, a, b);
    TwoRecords(h, a, b);
    assert pack + [] == pack && pack[..|pack|] == pack;
    assert FrontierAt(name, |pack|).value.Pack(name) == |pack| && FrontierAt(name, 0).value.Pack(name) == 0;
    assert 0 < |pack| by { EncodedLength(h, a); }
    hide ParseRecord, ScanEnd, Scan, EncodeRecord, Recover, TrustedCheckpoint, TrustIsSound, Boundary, AfterAbort, Obj.Id,
         FrontierAt;
    AfterAbortHas(h, name, a, b);
    AfterAbortIsTrusted(h, name, a, b, []);
    TrustedWholeIsNoop(h, name, pack, older, FrontierAt(name, |pack|));
    LongCheckpointIsNotTrusted(name, pack, older, FrontierAt(name, 0));
    UntrustedIsSound(h, name, pack, older, FrontierAt(name, 0));
    RecoveryKeepsLongestPrefix(h, name, pack, older, FrontierAt(name, 0));
    RecoveryRows(h, name, pack, older, FrontierAt(name, 0), a.Id(h));
    assert Scan(h, pack, 0)[0].id == a.Id(h);
  }

  lemma UntrustedIsSound(h: Hasher, name: PackName, pack: seq<byte>, cat: Catalog, frontier: Option<Frontier>)
    requires TrustedCheckpoint(name, pack, cat, frontier).None?
    ensures TrustIsSound(h, name, pack, cat, frontier)
  {
  }
}
