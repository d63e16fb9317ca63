/** The active pack as the store mutates it: appends, checkpoints, and the locked recovery loop. */
module Store {
  import opened Bytes
  import opened Pack
  import opened Recovery
  import opened IndexCheck

  /** What `put_bytes` does, including the recovery it runs when another process has changed the file. */
  function PutBytes(
    h: Hasher, name: PackName, s: Session, knownEnd: nat, frontier: Option<Frontier>, obj: Obj): Result<Session>
  {
    if !obj.Fits() then Err
    else if obj.Id(h) in s.cat.rows then Ok(s)
    else if |s.pack| == knownEnd then Ok(Put(h, name, s, obj))
    else
      match Recover(h, name, s.pack, s.cat, frontier)
      case Err => Err
      case Ok(r) => Ok(Put(h, name, Session(r.pack, r.cat, s.run), obj))
  }

  // ---- what is put can be read ----

  /** Every row names a record of its pack. */
  ghost predicate RowsRight(h: Hasher, packs: map<PackName, seq<byte>>, rows: map<Digest, Row>) {
    forall id | id in rows :: rows[id].pack in packs && Names(h, packs[rows[id].pack], id, rows[id])
  }

  /** No record of the pack was hashed from something else to the identifier of `obj`. */
  ghost predicate Unmistaken(h: Hasher, pack: seq<byte>, obj: Obj) {
    forall at: nat | at < |pack| ::
      var parsed := ParseRecord(h, pack, at);
      parsed.Complete? && parsed.loc.id == obj.Id(h) ==>
        Domain(parsed.loc.kind) + ObjAt(pack, parsed.loc).bytes == Domain(obj.kind) + obj.bytes
  }

  lemma NamedIsThis(h: Hasher, packs: map<PackName, seq<byte>>, rows: map<Digest, Row>, obj: Obj)
    requires obj.Id(h) in rows
    requires var row := rows[obj.Id(h)];
             row.pack in packs && Names(h, packs[row.pack], obj.Id(h), row) && Unmistaken(h, packs[row.pack], obj)
    ensures Read(h, packs, rows, obj.Id(h), obj.kind) == Ok(obj.bytes)
  {
    var id := obj.Id(h);
    var row := rows[id];
    var pack := packs[row.pack];
    var loc := Loc(row.offset - HEADER_LEN, row.kind, id, row.len);
    NamedReads(h, packs, rows, id);
    hide ParseRecord, Domain, Boundary, Read;
    assert ParseRecord(h, pack, loc.start) == Complete(loc);
    DomainSeparates(row.kind, ObjAt(pack, loc).bytes, obj.kind, obj.bytes);
  }

  lemma UnmistakenInPrefix(h: Hasher, pack: seq<byte>, n: nat, obj: Obj)
    requires n <= |pack| && Unmistaken(h, pack, obj)
    ensures Unmistaken(h, pack[..n], obj)
  {
    hide ParseRecord, Domain, Obj.Id;
    forall at: nat | at < n && ParseRecord(h, pack[..n], at).Complete?
      ensures ParseRecord(h, pack, at) == ParseRecord(h, pack[..n], at)
      ensures var loc := ParseRecord(h, pack, at).loc; ObjAt(pack[..n], loc) == ObjAt(pack, loc)
    {
      ParseInPrefix(h, pack, n, at);
    }
  }

  lemma RecoveryKeepsRight(h: Hasher, name: PackName, packs: map<PackName, seq<byte>>, cat: Catalog,
                           frontier: Option<Frontier>)
    requires name in packs && RowsRight(h, packs, cat.rows) && TrustIsSound(h, name, packs[name], cat, frontier)
    requires Recover(h, name, packs[name], cat, frontier).Ok?
    ensures var r := Recover(h, name, packs[name], cat, frontier).value;
            && RowsRight(h, packs[name := r.pack], r.cat.rows)
            && r.pack == packs[name][..ScanEnd(h, packs[name], 0)]
  {
    var pack := packs[name];
    hide ParseRecord, Scan, ScanEnd, Recover, Names, TrustIsSound, TrustedCheckpoint;
    RecoveryRowsSound(h, name, pack, cat, frontier);
    RecoveryKeepsLongestPrefix(h, name, pack, cat, frontier);
    var r := Recover(h, name, pack, cat, frontier).value;
    forall id | id in r.cat.rows
      ensures r.cat.rows[id].pack in packs && Names(h, packs[name := r.pack][r.cat.rows[id].pack], id, r.cat.rows[id])
    {
      RecoveryRows(h, name, pack, cat, frontier, id);
    }
  }

  /** A new object reads back from the record just appended. */
  lemma AppendedReads(h: Hasher, name: PackName, packs: map<PackName, seq<byte>>, s: Session, obj: Obj)
    requires obj.Fits() && obj.Id(h) !in s.cat.rows
    ensures var s' := Put(h, name, s, obj);
            Read(h, packs[name := s'.pack], s'.cat.rows, obj.Id(h), obj.kind) == Ok(obj.bytes)
  {
    var pack := s.pack + EncodeRecord(h, obj);
    RecordParts(h, s.pack, obj, []);
    assert s.pack + EncodeRecord(h, obj) + [] == pack;
    hide EncodeRecord, EncodeHeader, Domain;
  }

  lemma PutReads(h: Hasher, name: PackName, packs: map<PackName, seq<byte>>, s: Session, obj: Obj)
    requires obj.Fits() && name in packs && packs[name] == s.pack && RowsRight(h, packs, s.cat.rows)
    requires forall n | n in packs :: Unmistaken(h, packs[n], obj)
    ensures var s' := Put(h, name, s, obj);
            Read(h, packs[name := s'.pack], s'.cat.rows, obj.Id(h), obj.kind) == Ok(obj.bytes)
  {
    hide Names, Unmistaken, EncodeRecord, Read, Obj.Id;
    if obj.Id(h) in s.cat.rows {
      NamedIsThis(h, packs, s.cat.rows, obj);
      assert packs[name := s.pack] == packs;
    } else {
      AppendedReads(h, name, packs, s, obj);
    }
  }

  /**
    * Whatever was put can be read, under the kind it was put as: also when its row was there before, when another process
    * had changed the file, and when the same bytes are stored under another kind as well. No two of the inputs hashed for
    * the records at hand may collide.
    */
  lemma PutThenRead(h: Hasher, name: PackName, packs: map<PackName, seq<byte>>, s: Session, knownEnd: nat,
                    frontier: Option<Frontier>, obj: Obj, mayHeal: bool)
    requires name in packs && packs[name] == s.pack && RowsRight(h, packs, s.cat.rows)
    requires TrustIsSound(h, name, s.pack, s.cat, frontier)
    requires forall n | n in packs :: Unmistaken(h, packs[n], obj)
    requires PutBytes(h, name, s, knownEnd, frontier, obj).Ok?
    ensures var s' := PutBytes(h, name, s, knownEnd, frontier, obj).value;
            ReadBack(h, name, packs[name := s'.pack], s'.cat, frontier, mayHeal, obj.Id(h), obj.kind) == Ok(obj.bytes)
  {
    hide Names, Unmistaken, RowsRight, Recover, Put, Read, TrustIsSound, Agrees, Verify, Obj.Id, ScanEnd;
    if obj.Id(h) in s.cat.rows || |s.pack| == knownEnd {
      if obj.Id(h) in s.cat.rows {
        PutKnown(h, name, s, obj);
      }
      PutReads(h, name, packs, s, obj);
    } else {
      var r := Recover(h, name, s.pack, s.cat, frontier).value;
      var after := packs[name := r.pack];
      RecoveryKeepsRight(h, name, packs, s.cat, frontier);
      UnmistakenInPrefix(h, s.pack, |r.pack|, obj);
      PutReads(h, name, after, Session(r.pack, r.cat, s.run), obj);
      var s' := Put(h, name, Session(r.pack, r.cat, s.run), obj);
      assert after[name := s'.pack] == packs[name := s'.pack];
    }
  }

  lemma PutKnown(h: Hasher, name: PackName, s: Session, obj: Obj)
    requires obj.Id(h) in s.cat.rows
    ensures Put(h, name, s, obj) == s
  {
  }

  /** A put leaves rows that name records, and whole records in the file if it wrote at all: it never appends behind
      bytes it has not checked. */
  lemma PutKeepsRight(h: Hasher, name: PackName, packs: map<PackName, seq<byte>>, s: Session, knownEnd: nat,
                      frontier: Option<Frontier>, obj: Obj)
    requires name in packs && packs[name] == s.pack && RowsRight(h, packs, s.cat.rows)
    requires TrustIsSound(h, name, s.pack, s.cat, frontier)
    requires |s.pack| == knownEnd ==> ScanEnd(h, s.pack, 0) == |s.pack|
    requires PutBytes(h, name, s, knownEnd, frontier, obj).Ok?
    ensures var s' := PutBytes(h, name, s, knownEnd, frontier, obj).value;
            && RowsRight(h, packs[name := s'.pack], s'.cat.rows)
            && (obj.Id(h) !in s.cat.rows ==> ScanEnd(h, s'.pack, 0) == |s'.pack|)
  {
    hide Names, RowsRight, Recover, Put, TrustIsSound, Obj.Id, ScanEnd, Scan, ParseRecord;
    if obj.Id(h) in s.cat.rows {
      assert packs[name := s.pack] == packs;
    } else if |s.pack| == knownEnd {
      PutOnWhole(h, name, packs, s, obj);
    } else {
      var r := Recover(h, name, s.pack, s.cat, frontier).value;
      var after := packs[name := r.pack];
      RecoveryKeepsRight(h, name, packs, s.cat, frontier);
      ScanOfPrefix(h, s.pack, 0);
      PutOnWhole(h, name, after, Session(r.pack, r.cat, s.run), obj);
      var s' := Put(h, name, Session(r.pack, r.cat, s.run), obj);
      assert after[name := s'.pack] == packs[name := s'.pack];
    }
  }

  lemma PutOnWhole(h: Hasher, name: PackName, packs: map<PackName, seq<byte>>, s: Session, obj: Obj)
    requires obj.Fits() && name in packs && packs[name] == s.pack && RowsRight(h, packs, s.cat.rows)
    requires ScanEnd(h, s.pack, 0) == |s.pack|
    ensures var s' := Put(h, name, s, obj);
            RowsRight(h, packs[name := s'.pack], s'.cat.rows) && ScanEnd(h, s'.pack, 0) == |s'.pack|
  {
    var id := obj.Id(h);
    var more := s.pack + EncodeRecord(h, obj);
    if id in s.cat.rows {
      assert packs[name := s.pack] == packs;
    } else {
      ScanAppend(h, s.pack, 0, obj);
      AppendedIsNamed(h, name, s.pack, obj);
      hide ParseRecord, ScanEnd, Scan, EncodeRecord, Names, Obj.Id;
      var s' := Put(h, name, s, obj);
      forall other | other in s'.cat.rows
        ensures var row := s'.cat.rows[other];
                row.pack in packs && Names(h, packs[name := s'.pack][row.pack], other, row)
      {
        if other != id && s.cat.rows[other].pack == name {
          KeptIsNamed(h, s.pack, EncodeRecord(h, obj), other, s.cat.rows[other]);
        }
      }
    }
  }

  lemma KeptIsNamed(h: Hasher, pack: seq<byte>, more: seq<byte>, id: Digest, row: Row)
    requires Names(h, pack, id, row)
    ensures Names(h, pack + more, id, row)
  {
    NamedIsInside(h, pack, id, row);
    hide Names;
    assert (pack + more)[..row.End()] == pack[..row.End()];
    NamesIsLocal(h, pack, pack + more, id, row);
  }

  lemma StartIsWhole(h: Hasher, pack: seq<byte>)
    ensures Boundary(h, pack, 0)
  {
  }

  lemma AppendedIsNamed(h: Hasher, name: PackName, pack: seq<byte>, obj: Obj)
    requires obj.Fits() && ScanEnd(h, pack, 0) == |pack|
    ensures Names(h, pack + EncodeRecord(h, obj), obj.Id(h), RowOf(name, NewLoc(h, pack, obj)))
  {
    ScanAppend(h, pack, 0, obj);
    hide ParseRecord, EncodeRecord, Obj.Id, Scan, ScanEnd, Names;
    StartIsWhole(h, pack + EncodeRecord(h, obj));
    ScannedNames(h, pack + EncodeRecord(h, obj), 0, |Scan(h, pack, 0)|, name);
  }

  lemma StartOffset(name: PackName, rows: map<Digest, Row>, trusted: Option<Checkpoint>)
    ensures StartProgress(name, rows, trusted).offset == ScanFrom(trusted)
  {
  }

  class ActivePack {
    const h: Hasher
    const name: PackName
    var pack: seq<byte>
    var cat: Catalog
    var run: Option<AppendRun>
    var knownEnd: nat
    var frontier: Option<Frontier>
    var cachesForgotten: bool
    var others: map<PackName, seq<byte>>
    var idle: bool      // no transaction is open on the catalog connection
    var healed: bool    // the one retry of this session is used up

    function Packs(): map<PackName, seq<byte>>
      reads this
    {
      others[name := pack]
    }

    ghost function Contents(): Session
      reads this
    {
      Session(pack, cat, run)
    }

    constructor (h: Hasher, name: PackName, pack: seq<byte>, cat: Catalog, frontier: Option<Frontier>)
      ensures this.h == h && this.name == name && this.frontier == frontier
      ensures Contents() == Session(pack, cat, None) && knownEnd == |pack| && !cachesForgotten
      ensures Packs() == map[name := pack] && idle && !healed
    {
      this.h, this.name, this.pack, this.cat, this.frontier := h, name, pack, cat, frontier;
      run, knownEnd, cachesForgotten := None, |pack|, false;
      others, idle, healed := map[], true, false;
    }

    /** Cuts the tail unless a durable byte would go with it, and drops the rows beyond the cut. */
    method TruncatePackTail(rows: map<Digest, Row>, at: nat) returns (ok: bool, kept: map<Digest, Row>)
      requires at <= |pack|
      modifies `pack, `cachesForgotten
      ensures ok <==> frontier.None? || frontier.value.Pack(name) <= at
      ensures ok ==> pack == old(pack[..at]) && cachesForgotten && kept == DropFrom(rows, name, at + HEADER_LEN)
      ensures !ok ==> pack == old(pack) && cachesForgotten == old(cachesForgotten)
    {
      kept := rows;
      if frontier.Some? && at < frontier.value.Pack(name) {
        return false, rows;
      }
      pack := pack[..at];
      cachesForgotten := true;
      kept := DropFrom(rows, name, at + HEADER_LEN);
      ok := true;
    }

    /** The scan loop: reads records into `p` until the file ends or a record cannot be read. */
    method ReadRecordsFrom(start: Progress) returns (p: Progress)
      requires start.offset <= |pack|
      ensures p == ReadRecords(start, name, Scan(h, pack, start.offset))
      ensures p.offset == ScanEnd(h, pack, start.offset)
    {
      hide ParseRecord;
      p := start;
      while p.offset < |pack|
        invariant start.offset <= p.offset <= |pack|
        invariant ReadRecords(p, name, Scan(h, pack, p.offset)) == ReadRecords(start, name, Scan(h, pack, start.offset))
        invariant ScanEnd(h, pack, p.offset) == ScanEnd(h, pack, start.offset)
        decreases |pack| - p.offset
      {
        var parsed := ParseRecord(h, pack, p.offset);
        if !parsed.Complete? {
          break;
        }
        p := ReadRecord(p, name, parsed.loc);
      }
    }

    /** Recovery under the catalog and pack locks: the scan, the cut where it stopped, and the new checkpoint. */
    method RecoverPack() returns (ok: bool)
      modifies `pack, `cat, `cachesForgotten
      ensures match Recover(h, name, old(pack), old(cat), frontier)
              case Ok(r) => ok && pack == r.pack && cat == r.cat && (r.cachesForgotten ==> cachesForgotten)
              case Err => !ok && pack == old(pack) && cat == old(cat)
    {
      RecoverShape(h, name, pack, cat, frontier);
      hide ParseRecord, ValidCheckpoint, TrustedCheckpoint, RowsEndBy, DropFrom, WithCheckpoint, ReadRecords, Scan,
           ScanEnd, Recover, StartProgress;
      StartOffset(name, cat.rows, TrustedCheckpoint(name, pack, cat, frontier));
      var durable := DurableLen(frontier, name);
      if !RowsEndBy(cat.rows, name, |pack|) {
        cachesForgotten := true;
      }
      if durable.Some? && |pack| < durable.value {
        return false;
      }
      var trusted := TrustedCheckpoint(name, pack, cat, frontier);
      var start := StartProgress(name, cat.rows, trusted);
      var p := ReadRecordsFrom(start);
      ScanStops(h, pack, start.offset);
      var rows := p.rows;
      if p.offset < |pack| {
        var parsed := ParseRecord(h, pack, p.offset);
        if parsed.Corrupt? && !(durable.Some? && durable.value <= p.offset) {
          return false;
        }
        ok, rows := TruncatePackTail(rows, p.offset);
        if !ok {
          return false;
        }
      }
      var checkpoints := if trusted.Some? then cat.checkpoints else cat.checkpoints - {name};
      if p.offset != start.offset {
        checkpoints := WithCheckpoint(checkpoints, name, p);
      }
      cat := Catalog(rows, checkpoints);
      ok := true;
    }

    /** Stores an object: nothing to do when its row exists, otherwise one record and one row. */
    method PutBytesLocked(kind: Kind, bytes: seq<byte>) returns (r: Result<Digest>)
      modifies `pack, `cat, `run, `knownEnd, `cachesForgotten
      ensures match PutBytes(h, name, old(Contents()), old(knownEnd), frontier, Obj(kind, bytes))
              case Ok(s) => r == Ok(ObjectId(h, kind, bytes)) && Contents() == s
              case Err => r == Err && Contents() == old(Contents())
    {
      hide Recover, EncodeRecord;
      var obj := Obj(kind, bytes);
      if MAX_OBJECT_LEN < |bytes| {
        return Err;
      }
      var id := ObjectId(h, kind, bytes);
      if id in cat.rows {
        return Ok(id);
      }
      if |pack| != knownEnd {
        var ok := RecoverPack();
        if !ok {
          return Err;
        }
        knownEnd := |pack|;
      }
      if id !in cat.rows {
        var start := |pack|;
        pack := pack + EncodeRecord(h, obj);
        knownEnd := |pack|;
        run := Some(Then(run, id, start, |pack|));
        cat := cat.(rows := Insert(cat.rows, name, Loc(start, kind, id, |bytes|)));
      }
      return Ok(id);
    }

    /** Records the appended run as verified when it continues the checkpoint. */
    method AdvanceCheckpoint()
      modifies `cat, `run
      ensures Contents() == Advance(name, old(Contents()))
    {
      if run.Some? {
        var checkpoint := if name in cat.checkpoints then cat.checkpoints[name] else EMPTY_CHECKPOINT;
        var next := Extend(run.value, checkpoint);
        if next.Some? {
          cat := cat.(checkpoints := cat.checkpoints[name := next.value]);
        }
        run := None;
      }
    }

    /** The quick check of the index, and its rebuilding when the check fails or `deep` asks for it. */
    method VerifyIndex(deep: bool) returns (repaired: Result<bool>)
      modifies `pack, `cat, `cachesForgotten
      ensures match Verify(h, name, old(pack), old(cat), frontier, deep)
              case Ok(r) => repaired == Ok(!Agrees(name, old(cat))) && pack == r.pack && cat == r.cat
              case Err => repaired == Err && pack == old(pack) && cat == old(cat)
    {
      hide Recover, Agrees;
      var agrees := Agrees(name, cat);
      if !agrees || deep {
        var before := cat;
        cat := ResetIndex(name, cat);
        var ok := RecoverPack();
        if !ok {
          cat := before;
          return Err;
        }
      }
      return Ok(!agrees);
    }

    /** The retry is used up even when it cannot be made because a batch is open. */
    method HealIndex() returns (repaired: bool)
      modifies `pack, `cat, `cachesForgotten, `healed
      ensures healed
      ensures repaired <==> !old(healed) && idle && !Agrees(name, old(cat))
                            && Verify(h, name, old(pack), old(cat), frontier, false).Ok?
      ensures if repaired then
                var r := Verify(h, name, old(pack), old(cat), frontier, false).value;
                pack == r.pack && cat == r.cat
              else pack == old(pack) && cat == old(cat)
    {
      hide Recover, Agrees;
      var first := !healed;
      healed := true;
      if !first || !idle {
        return false;
      }
      var r := VerifyIndex(false);
      repaired := r.Ok? && r.value;
    }

    /** Reads an object; a read that fails may rebuild the index and try once more. */
    method ReadBytes(id: Digest, expected: Kind) returns (r: Result<seq<byte>>)
      modifies `pack, `cat, `cachesForgotten, `healed
      ensures r == ReadBack(h, name, old(Packs()), old(cat), frontier, !old(healed) && idle, id, expected)
      ensures healed <==> old(healed) || Read(h, old(Packs()), old(cat.rows), id, expected).Err?
      ensures pack != old(pack) || cat != old(cat) ==> !old(healed) && idle && !Agrees(name, old(cat))
    {
      hide Recover, Agrees, Read;
      r := Read(h, Packs(), cat.rows, id, expected);
      if r.Err? {
        var repaired := HealIndex();
        if repaired {
          assert Packs() == old(Packs())[name := pack];
          r := Read(h, Packs(), cat.rows, id, expected);
        }
      }
    }
  }
}
