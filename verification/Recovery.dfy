/**
  * The active pack beside its catalog: appending objects, checkpointing the appended run, and
  * recovering the pack after a crash.
  */
module Recovery {
  import opened Bytes
  import opened Pack

  type PackName = string

  /** An object row: the catalog's claim about where an object's payload lies. */
  datatype Row = Row(kind: Kind, pack: PackName, offset: nat, len: nat) {
    function End(): nat { offset + len + |OBJECT_END| }
  }

  datatype Checkpoint =
    Checkpoint(verifiedLen: nat, objectCount: nat, lastObject: Option<Digest>, lastRecordStart: nat)

  datatype Catalog = Catalog(rows: map<Digest, Row>, checkpoints: map<PackName, Checkpoint>)

  /** The durable frontier: how much of each pack and of each reference log was flushed together. */
  datatype Frontier = Frontier(packs: map<PackName, nat>, refs: map<string, nat>) {
    function Pack(name: PackName): nat { if name in packs then packs[name] else 0 }

    function Refs(workspace: string): nat { if workspace in refs then refs[workspace] else 0 }
  }

  /** The unbroken stretch of records this session wrote since its last checkpoint. */
  datatype AppendRun = AppendRun(start: nat, end: nat, objects: nat, lastObject: Digest, lastRecordStart: nat)

  const EMPTY_CHECKPOINT := Checkpoint(0, 0, None, 0)

  function RowOf(name: PackName, loc: Loc): Row {
    Row(loc.kind, name, loc.Payload(), loc.len)
  }

  /** `MAX(offset + len + 4)` over the rows of `name` is at most `limit`. */
  predicate RowsEndBy(rows: map<Digest, Row>, name: PackName, limit: nat) {
    forall id | id in rows :: rows[id].pack == name ==> rows[id].End() <= limit
  }

  /** `INSERT OR IGNORE`. */
  function Insert(rows: map<Digest, Row>, name: PackName, loc: Loc): map<Digest, Row> {
    if loc.id in rows then rows else rows[loc.id := RowOf(name, loc)]
  }

  function DropFrom(rows: map<Digest, Row>, name: PackName, offset: nat): map<Digest, Row> {
    map id | id in rows && !(rows[id].pack == name && offset <= rows[id].offset) :: rows[id]
  }

  // ---- writing ----

  /** A writer's view of the active pack. */
  datatype Session = Session(pack: seq<byte>, cat: Catalog, run: Option<AppendRun>)

  function Then(run: Option<AppendRun>, id: Digest, start: nat, end: nat): AppendRun {
    if run.Some? && run.value.end == start then
      run.value.(end := end, objects := run.value.objects + 1, lastObject := id, lastRecordStart := start)
    else
      AppendRun(start, end, 1, id, start)
  }

  function Extend(run: AppendRun, checkpoint: Checkpoint): Option<Checkpoint> {
    if checkpoint.verifiedLen == run.start then
      Some(Checkpoint(run.end, checkpoint.objectCount + run.objects, Some(run.lastObject), run.lastRecordStart))
    else None
  }

  /** The new record an object would get at the end of `pack`. */
  function NewLoc(h: Hasher, pack: seq<byte>, obj: Obj): Loc {
    Loc(|pack|, obj.kind, obj.Id(h), |obj.bytes|)
  }

  /** Appends an object unless the catalog already has a row for it. */
  function Put(h: Hasher, name: PackName, s: Session, obj: Obj): Session {
    if obj.Id(h) in s.cat.rows then s
    else
      var loc := NewLoc(h, s.pack, obj);
      Session(s.pack + EncodeRecord(h, obj),
              s.cat.(rows := Insert(s.cat.rows, name, loc)),
              Some(Then(s.run, loc.id, loc.start, loc.End())))
  }

  /** Records the appended run as verified when it continues the checkpoint. */
  function Advance(name: PackName, s: Session): Session {
    if s.run.None? then s
    else
      var checkpoint := if name in s.cat.checkpoints then s.cat.checkpoints[name] else EMPTY_CHECKPOINT;
      match Extend(s.run.value, checkpoint)
      case Some(next) => s.(cat := s.cat.(checkpoints := s.cat.checkpoints[name := next]), run := None)
      case None => s.(run := None)
  }

  // ---- reading ----

  function Read(h: Hasher, packs: map<PackName, seq<byte>>, rows: map<Digest, Row>, id: Digest, expected: Kind)
    : Result<seq<byte>>
  {
    if id !in rows then Err
    else
      var row := rows[id];
      if row.kind != expected || row.pack !in packs || |packs[row.pack]| < row.offset + row.len then Err
      else
        var bytes := packs[row.pack][row.offset..row.offset + row.len];
        if ObjectId(h, expected, bytes) == id then Ok(bytes) else Err
  }

  /** Nothing is read but what its row says: bytes of the file under the kind asked for that hash to the identifier. */
  lemma ReadIsStored(h: Hasher, packs: map<PackName, seq<byte>>, rows: map<Digest, Row>, id: Digest, expected: Kind)
    requires Read(h, packs, rows, id, expected).Ok?
    ensures id in rows && rows[id].pack in packs && rows[id].kind == expected
    ensures var row, pack, bytes := rows[id], packs[rows[id].pack], Read(h, packs, rows, id, expected).value;
            && row.offset + row.len <= |pack| && bytes == pack[row.offset..row.offset + row.len]
            && h(Domain(expected) + bytes) == id
  {
    hide Domain;
  }

  // ---- recovery ----

  /** Whether the header at `at` is the one a writer puts before the object of `row`. */
  predicate HeaderNames(pack: seq<byte>, at: nat, row: Row, id: Digest) {
    && at + HEADER_LEN <= |pack|
    && pack[at..at + 4] == OBJECT_MAGIC
    && pack[at + 4] == OBJECT_VERSION
    && KindFromByte(pack[at + 5]) == Some(row.kind)
    && DecodeLE(pack[at + 6..at + 14]) == row.len
    && pack[at + 14..at + 46] == id
  }

  predicate ValidCheckpoint(name: PackName, pack: seq<byte>, rows: map<Digest, Row>, c: Checkpoint) {
    && c.verifiedLen <= |pack|
    && RowsEndBy(rows, name, c.verifiedLen)
    && if c.objectCount == 0 then c.verifiedLen == 0 && c.lastObject.None?
       else
         && c.lastObject.Some?
         && c.lastObject.value in rows
         && var row := rows[c.lastObject.value];
         && row.pack == name
         && row.offset == c.lastRecordStart + HEADER_LEN
         && row.End() == c.verifiedLen
         && HeaderNames(pack, c.lastRecordStart, row, c.lastObject.value)
         && pack[c.verifiedLen - 4..c.verifiedLen] == OBJECT_END
  }

  function DurableLen(frontier: Option<Frontier>, name: PackName): Option<nat> {
    if frontier.Some? then Some(frontier.value.Pack(name)) else None
  }

  /** The checkpoint recovery starts from: one that is no longer than the durable prefix and validates. */
  function TrustedCheckpoint(name: PackName, pack: seq<byte>, cat: Catalog, frontier: Option<Frontier>)
    : (c: Option<Checkpoint>)
    ensures c.Some? ==> c.value.verifiedLen <= |pack|
  {
    if name !in cat.checkpoints then None
    else
      var c := cat.checkpoints[name];
      if frontier.Some? && frontier.value.Pack(name) < c.verifiedLen then None
      else if ValidCheckpoint(name, pack, cat.rows, c) then Some(c)
      else None
  }

  /** The running state of the recovery scan. */
  datatype Progress =
    Progress(offset: nat, count: nat, last: Option<Digest>, lastStart: nat, rows: map<Digest, Row>)

  function ReadRecord(p: Progress, name: PackName, loc: Loc): Progress {
    Progress(loc.End(), p.count + 1, Some(loc.id), loc.start, Insert(p.rows, name, loc))
  }

  function ReadRecords(p: Progress, name: PackName, locs: seq<Loc>): Progress
    decreases |locs|
  {
    if locs == [] then p else ReadRecords(ReadRecord(p, name, locs[0]), name, locs[1..])
  }

  function StartProgress(name: PackName, rows: map<Digest, Row>, trusted: Option<Checkpoint>): Progress {
    match trusted
    case Some(c) =>
      Progress(c.verifiedLen, c.objectCount, c.lastObject, c.lastRecordStart,
               DropFrom(rows, name, c.verifiedLen + HEADER_LEN))
    case None =>
      Progress(0, 0, None, 0, DropFrom(DropFrom(rows, name, 0), name, HEADER_LEN))
  }

  datatype Recovered = Recovered(pack: seq<byte>, cat: Catalog, cachesForgotten: bool)

  /** A scan stopped at `at`, before the end of the file: may the tail be cut there? */
  predicate MayTruncate(h: Hasher, pack: seq<byte>, at: nat, durable: Option<nat>)
    requires at < |pack|
  {
    match ParseRecord(h, pack, at)
    case Torn => durable.None? || durable.value <= at
    case Corrupt => durable.Some? && durable.value <= at
    case Complete(_) => true
  }

  /** The position recovery scans from. */
  function ScanFrom(trusted: Option<Checkpoint>): nat {
    if trusted.Some? then trusted.value.verifiedLen else 0
  }

  predicate RecoveryFails(h: Hasher, pack: seq<byte>, from: nat, durable: Option<nat>)
    requires from <= |pack|
  {
    || (durable.Some? && |pack| < durable.value)
    || (ScanEnd(h, pack, from) < |pack| && !MayTruncate(h, pack, ScanEnd(h, pack, from), durable))
  }

  /** The rows after the scan, and after the cut drops what lies beyond it. */
  function RecoveredRows(
    h: Hasher, name: PackName, pack: seq<byte>, rows: map<Digest, Row>, trusted: Option<Checkpoint>)
    : map<Digest, Row>
    requires ScanFrom(trusted) <= |pack|
  {
    var from := ScanFrom(trusted);
    var p := ReadRecords(StartProgress(name, rows, trusted), name, Scan(h, pack, from));
    var end := ScanEnd(h, pack, from);
    if end < |pack| then DropFrom(p.rows, name, end + HEADER_LEN) else p.rows
  }

  function RecoveredCheckpoints(
    h: Hasher, name: PackName, pack: seq<byte>, cat: Catalog, trusted: Option<Checkpoint>)
    : map<PackName, Checkpoint>
    requires ScanFrom(trusted) <= |pack|
  {
    var from := ScanFrom(trusted);
    var p := ReadRecords(StartProgress(name, cat.rows, trusted), name, Scan(h, pack, from));
    var kept := if trusted.Some? then cat.checkpoints else cat.checkpoints - {name};
    if p.offset == from then kept else WithCheckpoint(kept, name, p)
  }

  function WithCheckpoint(kept: map<PackName, Checkpoint>, name: PackName, p: Progress)
    : (checkpoints: map<PackName, Checkpoint>)
    ensures name in checkpoints && checkpoints[name] == Checkpoint(p.offset, p.count, p.last, p.lastStart)
    ensures checkpoints - {name} == kept - {name}
  {
    kept[name := Checkpoint(p.offset, p.count, p.last, p.lastStart)]
  }

  /** Recovery of the active pack under the catalog and pack locks; an error leaves everything as it was. */
  function Recover(h: Hasher, name: PackName, pack: seq<byte>, cat: Catalog, frontier: Option<Frontier>)
    : (r: Result<Recovered>)
  {
    var trusted := TrustedCheckpoint(name, pack, cat, frontier);
    var from := ScanFrom(trusted);
    if RecoveryFails(h, pack, from, DurableLen(frontier, name)) then Err
    else
      var end := ScanEnd(h, pack, from);
      Ok(Recovered(
           if end < |pack| then pack[..end] else pack,
           Catalog(RecoveredRows(h, name, pack, cat.rows, trusted), RecoveredCheckpoints(h, name, pack, cat, trusted)),
           end < |pack| || !RowsEndBy(cat.rows, name, |pack|)))
  }

  /** Judged from one catalog snapshot and without a lock: the pack is exactly its checkpointed prefix. */
  predicate PackIsSettled(name: PackName, pack: seq<byte>, cat: Catalog, frontier: Option<Frontier>) {
    && name in cat.checkpoints
    && cat.checkpoints[name].verifiedLen == |pack|
    && (frontier.Some? ==> frontier.value.Pack(name) == |pack|)
    && ValidCheckpoint(name, pack, cat.rows, cat.checkpoints[name])
  }

  /** A reader that skips the locked recovery of a settled pack misses nothing. */
  lemma SettledNeedsNoRecovery(h: Hasher, name: PackName, pack: seq<byte>, cat: Catalog, frontier: Option<Frontier>)
    requires PackIsSettled(name, pack, cat, frontier)
    ensures Recover(h, name, pack, cat, frontier) == Ok(Recovered(pack, cat, false))
  {
    hide ParseRecord, HeaderNames, Scan, ScanEnd;
    TrustedWholeIsNoop(h, name, pack, cat, frontier);
  }

  // ---- what a sound catalog is ----

  /** `at` is where a record ends, counting complete records from the start of the pack. */
  predicate Boundary(h: Hasher, pack: seq<byte>, at: nat) {
    at <= |pack| && ScanEnd(h, pack[..at], 0) == at
  }

  /** The row names a complete record of the pack. */
  predicate Names(h: Hasher, pack: seq<byte>, id: Digest, row: Row) {
    && HEADER_LEN <= row.offset
    && row.End() <= |pack|
    && Boundary(h, pack, row.offset - HEADER_LEN)
    && ParseRecord(h, pack, row.offset - HEADER_LEN) == Complete(Loc(row.offset - HEADER_LEN, row.kind, id, row.len))
  }

  /** Every row of the pack that ends by `limit` names a complete record. */
  ghost predicate RowsSound(h: Hasher, name: PackName, pack: seq<byte>, rows: map<Digest, Row>, limit: nat) {
    forall id | id in rows && rows[id].pack == name && rows[id].End() <= limit :: Names(h, pack, id, rows[id])
  }

  /** The checkpoint counts the records before it, with or without rows, and remembers the last. */
  ghost predicate Counts(h: Hasher, pack: seq<byte>, c: Checkpoint) {
    && Boundary(h, pack, c.verifiedLen)
    && var locs := Scan(h, pack[..c.verifiedLen], 0);
    && c.objectCount == |locs|
    && if locs == [] then c.lastObject.None? && c.lastRecordStart == 0
       else c.lastObject == Some(locs[|locs| - 1].id) && c.lastRecordStart == locs[|locs| - 1].start
  }

  /** What recovery may rely on: the prefix it does not scan again is described correctly. */
  ghost predicate SoundPrefix(h: Hasher, name: PackName, pack: seq<byte>, cat: Catalog, c: Checkpoint) {
    Counts(h, pack, c) && RowsSound(h, name, pack, cat.rows, c.verifiedLen)
  }

  // ---- records and boundaries ----

  lemma {:induction false} ScanSplit(h: Hasher, pack: seq<byte>, from: nat, v: nat)
    requires from <= v <= |pack|
    requires ScanEnd(h, pack[..v], from) == v
    ensures Scan(h, pack, from) == Scan(h, pack[..v], from) + Scan(h, pack, v)
    ensures ScanEnd(h, pack, from) == ScanEnd(h, pack, v)
    decreases v - from
  {
    hide ParseRecord;
    if from < v {
      ParseInPrefix(h, pack, v, from);
      var loc := ParseRecord(h, pack, from).loc;
      ScanSplit(h, pack, loc.End(), v);
      assert Scan(h, pack, from) == [loc] + Scan(h, pack, loc.End());
      assert Scan(h, pack[..v], from) == [loc] + Scan(h, pack[..v], loc.End());
    }
  }

  lemma NextBoundary(h: Hasher, pack: seq<byte>, at: nat)
    requires Boundary(h, pack, at) && at < |pack| && ParseRecord(h, pack, at).Complete?
    ensures Boundary(h, pack, ParseRecord(h, pack, at).loc.End())
  {
    hide ParseRecord;
    var end := ParseRecord(h, pack, at).loc.End();
    var part := pack[..end];
    PrefixOfPrefix(pack, end, at);
    ScanSplit(h, part, 0, at);
    ParseToPrefix(h, pack, end, at);
    assert ScanEnd(h, part, end) == end;
  }

  /** Every record the scan lists starts and ends at a boundary. */
  lemma {:induction false} ScanBoundaries(h: Hasher, pack: seq<byte>, from: nat, i: nat)
    requires Boundary(h, pack, from)
    requires i < |Scan(h, pack, from)|
    ensures var loc := Scan(h, pack, from)[i];
            && from <= loc.start && loc.End() <= ScanEnd(h, pack, from)
            && Boundary(h, pack, loc.start) && Boundary(h, pack, loc.End())
            && ParseRecord(h, pack, loc.start) == Complete(loc)
    decreases i
  {
    hide ParseRecord;
    var loc := ParseRecord(h, pack, from).loc;
    NextBoundary(h, pack, from);
    ScanAfter(h, pack, loc.End());
    if i > 0 {
      ScanBoundaries(h, pack, loc.End(), i - 1);
    }
  }

  lemma ScanEndIsBoundary(h: Hasher, pack: seq<byte>, from: nat)
    requires Boundary(h, pack, from)
    ensures Boundary(h, pack, ScanEnd(h, pack, from))
    ensures ScanEnd(h, pack, from) == ScanEnd(h, pack, 0)
  {
    ScanSplit(h, pack, 0, from);
    ScanOfPrefix(h, pack, 0);
  }

  /** Records listed earlier end earlier. */
  lemma {:induction false} ScanOrdered(h: Hasher, pack: seq<byte>, v: nat, j: nat, i: nat)
    requires Boundary(h, pack, v) && j <= i < |Scan(h, pack, v)|
    ensures Scan(h, pack, v)[j].End() <= Scan(h, pack, v)[i].End()
  {
    ScanElements(h, pack, v, j);
    if j < i {
      ScanElements(h, pack, Scan(h, pack, v)[j].End(), i - j - 1);
      hide ParseRecord, Scan;
      assert Scan(h, pack, v)[j + 1..][i - j - 1] == Scan(h, pack, v)[i];
    }
  }

  /** A record at a boundary is one the scan from any earlier boundary lists. */
  lemma BoundaryRecordIsScanned(h: Hasher, pack: seq<byte>, from: nat, at: nat) returns (i: nat)
    requires Boundary(h, pack, from) && Boundary(h, pack, at) && from <= at < |pack|
    requires ParseRecord(h, pack, at).Complete?
    ensures i < |Scan(h, pack, from)| && Scan(h, pack, from)[i] == ParseRecord(h, pack, at).loc
    ensures ParseRecord(h, pack, at).loc.End() <= ScanEnd(h, pack, 0)
  {
    hide ParseRecord;
    var part := pack[..at];
    PrefixOfPrefix(pack, at, from);
    ScanSplit(h, part, 0, from);
    ScanSplit(h, pack, from, at);
    i := |Scan(h, part, from)|;
    ScanBoundaries(h, pack, from, i);
    ScanEndIsBoundary(h, pack, from);
  }

  /** Records end by a boundary or start after it. */
  lemma BoundarySeparates(h: Hasher, pack: seq<byte>, v: nat, at: nat)
    requires Boundary(h, pack, v) && Boundary(h, pack, at) && at < |pack|
    requires ParseRecord(h, pack, at).Complete?
    ensures ParseRecord(h, pack, at).loc.End() <= v || v <= at
  {
    hide ParseRecord;
    if at < v {
      var part := pack[..v];
      PrefixOfPrefix(pack, v, at);
      ScanSplit(h, part, 0, at);
      ParseInPrefix(h, pack, v, at);
    }
  }

  /** A named record stays named in every pack with the same beginning. */
  lemma NamesIsLocal(h: Hasher, pack: seq<byte>, other: seq<byte>, id: Digest, row: Row)
    requires Names(h, pack, id, row)
    requires row.End() <= |other| && other[..row.End()] == pack[..row.End()]
    ensures Names(h, other, id, row)
    ensures other[row.offset..row.offset + row.len] == pack[row.offset..row.offset + row.len]
  {
    hide ParseRecord;
    var at := row.offset - HEADER_LEN;
    PrefixOfPrefix(pack, row.End(), at);
    PrefixOfPrefix(other, row.End(), at);
    SliceOfPrefix(pack, row.End(), at, row.End());
    SliceOfPrefix(other, row.End(), at, row.End());
    ParseIsLocal(h, pack, other, at);
  }

  /** A row that names a record reads back bytes with the row's own identifier. */
  lemma NamedReads(h: Hasher, packs: map<PackName, seq<byte>>, rows: map<Digest, Row>, id: Digest)
    requires id in rows && rows[id].pack in packs
    requires Names(h, packs[rows[id].pack], id, rows[id])
    ensures var row := rows[id];
            Read(h, packs, rows, id, row.kind) == Ok(packs[row.pack][row.offset..row.offset + row.len])
  {
    hide ParseRecord, EncodeRecord;
    ParsedIsEncoded(h, packs[rows[id].pack], rows[id].offset - HEADER_LEN);
  }

  /** A record that parses has the header and the end mark that checkpoint validation looks for. */
  lemma NamedHeader(h: Hasher, pack: seq<byte>, id: Digest, row: Row)
    requires Names(h, pack, id, row)
    ensures HeaderNames(pack, row.offset - HEADER_LEN, row, id)
    ensures pack[row.End() - 4..row.End()] == OBJECT_END
  {
    hide Boundary, ParseHeader, ParseRecord, DecodeLE, KindFromByte;
    var at := row.offset - HEADER_LEN;
    CompleteHeader(h, pack, at);
    ParsedHeader(pack[at..]);
    HeaderInPlace(pack, at);
  }

  lemma CompleteHeader(h: Hasher, pack: seq<byte>, at: nat)
    requires at < |pack| && ParseRecord(h, pack, at).Complete?
    ensures var loc := ParseRecord(h, pack, at).loc;
            && ParseHeader(pack[at..]).Fields? && ParseHeader(pack[at..]).kind == loc.kind
            && ParseHeader(pack[at..]).len == loc.len && ParseHeader(pack[at..]).id == loc.id
            && loc.End() <= |pack| && pack[loc.End() - 4..loc.End()] == OBJECT_END
  {
    hide ParseHeader;
  }

  lemma ParsedHeader(rest: seq<byte>)
    requires ParseHeader(rest).Fields?
    ensures var header := ParseHeader(rest);
            && |rest| >= HEADER_LEN && rest[0..4] == OBJECT_MAGIC && rest[4] == OBJECT_VERSION
            && KindFromByte(rest[5]) == Some(header.kind) && DecodeLE(rest[6..14]) == header.len
            && rest[14..46] == header.id
  {
    hide DecodeLE, KindFromByte;
  }

  lemma HeaderInPlace(pack: seq<byte>, at: nat)
    requires at + HEADER_LEN <= |pack|
    ensures var rest := pack[at..];
            && rest[0..4] == pack[at..at + 4] && rest[4] == pack[at + 4] && rest[5] == pack[at + 5]
            && rest[6..14] == pack[at + 6..at + 14] && rest[14..46] == pack[at + 14..at + 46]
  {
  }

  // ---- which checkpoints are trusted ----

  /** The file holds at `at` the header of this row's object, and the row's end mark. */
  ghost predicate HoldsRecordOf(name: PackName, pack: seq<byte>, at: nat, row: Row, id: Digest)
    requires at <= |pack|
  {
    var header := ParseHeader(pack[at..]);
    && header.Fields? && header.id == id && row == Row(header.kind, name, at + HEADER_LEN, header.len)
    && row.End() <= |pack| && pack[row.End() - 4..row.End()] == OBJECT_END
  }

  lemma HeaderNamesIff(name: PackName, pack: seq<byte>, at: nat, row: Row, id: Digest)
    requires at <= |pack| && row.len <= MAX_OBJECT_LEN && row.End() <= |pack|
    requires row.pack == name && row.offset == at + HEADER_LEN
    ensures HeaderNames(pack, at, row, id) <==>
              var header := ParseHeader(pack[at..]);
              header.Fields? && header.id == id && header.kind == row.kind && header.len == row.len
  {
    hide DecodeLE, KindFromByte;
    HeaderInPlace(pack, at);
  }

  /**
    * A checkpoint that counts objects is trusted exactly if it lies in the durable prefix, no row of the pack ends past
    * it, and the file holds before it the header and the end mark that the row of its last object describes.
    */
  lemma TrustedIff(name: PackName, pack: seq<byte>, cat: Catalog, frontier: Option<Frontier>)
    requires name in cat.checkpoints && 0 < cat.checkpoints[name].objectCount
    requires forall id | id in cat.rows :: cat.rows[id].len <= MAX_OBJECT_LEN
    ensures var c := cat.checkpoints[name];
            TrustedCheckpoint(name, pack, cat, frontier).Some? <==>
              && (frontier.Some? ==> c.verifiedLen <= frontier.value.Pack(name))
              && RowsEndBy(cat.rows, name, c.verifiedLen)
              && c.lastRecordStart <= |pack|
              && exists id :: id in cat.rows && c.lastObject == Some(id) && cat.rows[id].End() == c.verifiedLen
                              && HoldsRecordOf(name, pack, c.lastRecordStart, cat.rows[id], id)
  {
    hide ParseHeader, HeaderNames, RowsEndBy;
    var c := cat.checkpoints[name];
    if c.lastObject.Some? && c.lastObject.value in cat.rows {
      var id := c.lastObject.value;
      var row := cat.rows[id];
      if c.lastRecordStart <= |pack| && row.pack == name && row.offset == c.lastRecordStart + HEADER_LEN
         && row.End() <= |pack|
      {
        HeaderNamesIff(name, pack, c.lastRecordStart, row, id);
      }
    }
  }

  /** A checkpoint before which another record than its last stands now is not trusted. */
  lemma ReplacedTailIsUntrusted(h: Hasher, name: PackName, pack: seq<byte>, cat: Catalog, frontier: Option<Frontier>)
    requires name in cat.checkpoints && 0 < cat.checkpoints[name].objectCount
    requires var c := cat.checkpoints[name];
             c.lastRecordStart < |pack| && ParseRecord(h, pack, c.lastRecordStart).Complete?
    requires var c := cat.checkpoints[name];
             var loc := ParseRecord(h, pack, c.lastRecordStart).loc;
             Some(loc.id) != c.lastObject || loc.End() != c.verifiedLen
    ensures TrustedCheckpoint(name, pack, cat, frontier) == None
  {
    hide ParseHeader, DecodeLE, KindFromByte;
    var at := cat.checkpoints[name].lastRecordStart;
    CompleteHeader(h, pack, at);
    ParsedHeader(pack[at..]);
    HeaderInPlace(pack, at);
  }

  // ---- what the scan adds to the catalog ----

  ghost predicate FirstAt(locs: seq<Loc>, i: nat, id: Digest) {
    && i < |locs| && locs[i].id == id
    && forall j | 0 <= j < i :: locs[j].id != id
  }

  lemma {:induction false} ReadRecordsRows(p: Progress, name: PackName, locs: seq<Loc>, id: Digest)
    ensures var q := ReadRecords(p, name, locs);
            && (id in p.rows ==> id in q.rows && q.rows[id] == p.rows[id])
            && (id in q.rows && id !in p.rows ==>
                  exists i: nat :: FirstAt(locs, i, id) && q.rows[id] == RowOf(name, locs[i]))
            && (forall i | 0 <= i < |locs| :: locs[i].id in q.rows)
    decreases |locs|
  {
    if locs != [] {
      var p' := ReadRecord(p, name, locs[0]);
      var q := ReadRecords(p, name, locs);
      ReadRecordsRows(p', name, locs[1..], id);
      ReadRecordsRows(p', name, locs[1..], locs[0].id);
      forall i | 0 <= i < |locs|
        ensures locs[i].id in q.rows
      {
        if i > 0 {
          assert locs[i] == locs[1..][i - 1];
        }
      }
      if id in q.rows && id !in p.rows {
        if id == locs[0].id {
          assert FirstAt(locs, 0, id);
        } else {
          var i: nat :| FirstAt(locs[1..], i, id) && q.rows[id] == RowOf(name, locs[1..][i]);
          assert locs[1..][i] == locs[i + 1];
          forall j | 0 <= j < i + 1
            ensures locs[j].id != id
          {
            if j > 0 {
              assert locs[j] == locs[1..][j - 1];
            }
          }
          assert FirstAt(locs, i + 1, id);
        }
      }
    }
  }

  lemma {:induction false} ReadRecordsCounters(p: Progress, name: PackName, locs: seq<Loc>)
    ensures var q := ReadRecords(p, name, locs);
            && q.count == p.count + |locs|
            && (locs == [] ==> q == p)
            && (locs != [] ==> var last := locs[|locs| - 1];
                               q.last == Some(last.id) && q.lastStart == last.start && q.offset == last.End())
    decreases |locs|
  {
    if locs != [] {
      ReadRecordsCounters(ReadRecord(p, name, locs[0]), name, locs[1..]);
    }
  }

  // ---- what recovery achieves ----

  /** Recovery's only assumption: the checkpoint it trusts describes its prefix. */
  ghost predicate TrustIsSound(
    h: Hasher, name: PackName, pack: seq<byte>, cat: Catalog, frontier: Option<Frontier>)
  {
    match TrustedCheckpoint(name, pack, cat, frontier)
    case Some(c) => SoundPrefix(h, name, pack, cat, c)
    case None => true
  }

  /** The checkpoint of a pack whose complete records are all counted. */
  ghost function FullCheckpoint(h: Hasher, pack: seq<byte>): Checkpoint {
    var locs := Scan(h, pack, 0);
    if locs == [] then EMPTY_CHECKPOINT
    else Checkpoint(ScanEnd(h, pack, 0), |locs|, Some(locs[|locs| - 1].id), locs[|locs| - 1].start)
  }

  lemma TrustGivesBoundary(h: Hasher, name: PackName, pack: seq<byte>, cat: Catalog, frontier: Option<Frontier>)
    requires TrustIsSound(h, name, pack, cat, frontier)
    ensures var v := ScanFrom(TrustedCheckpoint(name, pack, cat, frontier));
            && v <= |pack|
            && Boundary(h, pack, v)
            && Scan(h, pack, 0) == Scan(h, pack[..v], 0) + Scan(h, pack, v)
            && ScanEnd(h, pack, 0) == ScanEnd(h, pack, v)
  {
    hide ParseRecord, ValidCheckpoint, TrustedCheckpoint;
    var v := ScanFrom(TrustedCheckpoint(name, pack, cat, frontier));
    assert pack[..0] == [];
    ScanSplit(h, pack, 0, v);
  }

  /** Where the scan stops there is no complete record. */
  lemma {:induction false} ScanStops(h: Hasher, pack: seq<byte>, from: nat)
    requires from <= |pack|
    ensures var end := ScanEnd(h, pack, from);
            end == |pack| || !ParseRecord(h, pack, end).Complete?
    decreases |pack| - from
  {
    hide ParseRecord;
    if from < |pack| && ParseRecord(h, pack, from).Complete? {
      ScanStops(h, pack, ParseRecord(h, pack, from).loc.End());
    }
  }

  lemma {:induction false} ScanEmptyIff(h: Hasher, pack: seq<byte>, from: nat)
    requires from <= |pack|
    ensures Scan(h, pack, from) == [] <==> ScanEnd(h, pack, from) == from
    ensures Scan(h, pack, from) != [] ==>
              var locs := Scan(h, pack, from);
              locs[|locs| - 1].End() == ScanEnd(h, pack, from)
    decreases |pack| - from
  {
    hide ParseRecord;
    if from < |pack| && ParseRecord(h, pack, from).Complete? {
      var next := ParseRecord(h, pack, from).loc.End();
      ScanAfter(h, pack, next);
      ScanEmptyIff(h, pack, next);
    }
  }

  /**
    * When recovery succeeds and what it leaves of the file: without a frontier only a torn tail may be cut;
    * with one, anything may be cut as long as every durable byte is inside complete records. What is left is
    * exactly the longest valid record prefix.
    */
  lemma RecoveryKeepsLongestPrefix(
    h: Hasher, name: PackName, pack: seq<byte>, cat: Catalog, frontier: Option<Frontier>)
    requires TrustIsSound(h, name, pack, cat, frontier)
    ensures var end := ScanEnd(h, pack, 0);
            && (Recover(h, name, pack, cat, frontier).Ok? <==>
                  if frontier.Some? then frontier.value.Pack(name) <= end
                  else end == |pack| || ParseRecord(h, pack, end).Torn?)
            && (Recover(h, name, pack, cat, frontier).Ok? ==>
                  Recover(h, name, pack, cat, frontier).value.pack == pack[..end])
  {
    TrustGivesBoundary(h, name, pack, cat, frontier);
    var trusted := TrustedCheckpoint(name, pack, cat, frontier);
    FailsIff(h, pack, ScanFrom(trusted), DurableLen(frontier, name));
    RecoverShape(h, name, pack, cat, frontier);
    hide Recover, ParseRecord, Scan, ScanEnd, TrustedCheckpoint, TrustIsSound, RecoveryFails;
  }

  lemma FailsIff(h: Hasher, pack: seq<byte>, from: nat, durable: Option<nat>)
    requires from <= |pack|
    ensures var end := ScanEnd(h, pack, from);
            RecoveryFails(h, pack, from, durable) <==>
            !(if durable.Some? then durable.value <= end else end == |pack| || ParseRecord(h, pack, end).Torn?)
  {
    ScanStops(h, pack, from);
    hide ParseRecord, ScanEnd;
  }

  lemma RecoverShape(h: Hasher, name: PackName, pack: seq<byte>, cat: Catalog, frontier: Option<Frontier>)
    ensures var trusted := TrustedCheckpoint(name, pack, cat, frontier);
            var from := ScanFrom(trusted);
            var r := Recover(h, name, pack, cat, frontier);
            && (r.Err? <==> RecoveryFails(h, pack, from, DurableLen(frontier, name)))
            && (r.Ok? ==>
                  && r.value.pack == pack[..ScanEnd(h, pack, from)]
                  && r.value.cat.rows == RecoveredRows(h, name, pack, cat.rows, trusted)
                  && r.value.cat.checkpoints == RecoveredCheckpoints(h, name, pack, cat, trusted)
                  && r.value.cachesForgotten ==
                       (ScanEnd(h, pack, from) < |pack| || !RowsEndBy(cat.rows, name, |pack|)))
  {
    hide ParseRecord, ScanEnd, Scan, RecoveredRows, RecoveredCheckpoints, ValidCheckpoint, RecoveryFails, RowsEndBy;
    assert pack[..|pack|] == pack;
  }

  /** The new checkpoint counts every record of the kept prefix, with or without a row. */
  lemma RecoveryCheckpoint(h: Hasher, name: PackName, pack: seq<byte>, cat: Catalog, frontier: Option<Frontier>)
    requires TrustIsSound(h, name, pack, cat, frontier)
    requires Recover(h, name, pack, cat, frontier).Ok?
    ensures var r := Recover(h, name, pack, cat, frontier).value;
            && (if name in r.cat.checkpoints then r.cat.checkpoints[name] == FullCheckpoint(h, pack)
                else ScanEnd(h, pack, 0) == 0)
            && r.cat.checkpoints - {name} == cat.checkpoints - {name}
  {
    var trusted := TrustedCheckpoint(name, pack, cat, frontier);
    assert Recover(h, name, pack, cat, frontier).value.cat.checkpoints
        == RecoveredCheckpoints(h, name, pack, cat, trusted);
    TrustGivesBoundary(h, name, pack, cat, frontier);
    hide Recover, Boundary;
    CheckpointOfScan(h, name, pack, cat, trusted);
  }

  /** The scan's counters, continued from a checkpoint that counts, are those of a scan of the whole pack. */
  lemma CountersOfScan(h: Hasher, name: PackName, pack: seq<byte>, rows: map<Digest, Row>, trusted: Option<Checkpoint>)
    requires ScanFrom(trusted) <= |pack|
    requires trusted.Some? ==> Counts(h, pack, trusted.value)
    ensures var v := ScanFrom(trusted);
            var p := ReadRecords(StartProgress(name, rows, trusted), name, Scan(h, pack, v));
            && p.offset == ScanEnd(h, pack, 0)
            && Checkpoint(p.offset, p.count, p.last, p.lastStart) == FullCheckpoint(h, pack)
  {
    var v := ScanFrom(trusted);
    assert pack[..0] == [];
    assert Boundary(h, pack, v);
    ScanSplit(h, pack, 0, v);
    ScanEmptyIff(h, pack, v);
    ScanEmptyIff(h, pack, 0);
    ScanEmptyIff(h, pack[..v], 0);
    var start := StartProgress(name, rows, trusted);
    ReadRecordsCounters(start, name, Scan(h, pack, v));
    hide ParseRecord, ReadRecords, Scan, ScanEnd, Boundary, DropFrom;
    var all, pre, post := Scan(h, pack, 0), Scan(h, pack[..v], 0), Scan(h, pack, v);
    assert all == pre + post;
    assert post == [] ==> all == pre;
    assert post != [] ==> all[|all| - 1] == post[|post| - 1];
  }

  lemma CheckpointOfScan(h: Hasher, name: PackName, pack: seq<byte>, cat: Catalog, trusted: Option<Checkpoint>)
    requires ScanFrom(trusted) <= |pack|
    requires trusted.Some? ==>
               && name in cat.checkpoints && trusted.value == cat.checkpoints[name]
               && Counts(h, pack, trusted.value)
    ensures var checkpoints := RecoveredCheckpoints(h, name, pack, cat, trusted);
            && (if name in checkpoints then checkpoints[name] == FullCheckpoint(h, pack)
                else ScanEnd(h, pack, 0) == 0)
            && checkpoints - {name} == cat.checkpoints - {name}
  {
    var v := ScanFrom(trusted);
    var locs := Scan(h, pack, v);
    var start := StartProgress(name, cat.rows, trusted);
    CountersOfScan(h, name, pack, cat.rows, trusted);
    ReadRecordsCounters(start, name, locs);
    ScanEmptyIff(h, pack, v);
    hide ParseRecord, ReadRecords, Scan, ScanEnd, Counts, FullCheckpoint, DropFrom, WithCheckpoint;
    var p := ReadRecords(start, name, locs);
    if p.offset == v {
      LocsMoveForward(h, pack, trusted);
      assert p == start;
    }
  }

  lemma LocsMoveForward(h: Hasher, pack: seq<byte>, trusted: Option<Checkpoint>)
    requires ScanFrom(trusted) <= |pack|
    requires trusted.Some? ==> Counts(h, pack, trusted.value)
    ensures ScanEnd(h, pack, 0) == ScanFrom(trusted) ==> Scan(h, pack, ScanFrom(trusted)) == []
  {
    var v := ScanFrom(trusted);
    assert pack[..0] == [];
    ScanSplit(h, pack, 0, v);
    ScanEmptyIff(h, pack, v);
    hide ParseRecord, Scan, ScanEnd;
  }

  /** A checkpoint recovery writes describes the kept prefix, so the next recovery may trust it. */
  lemma FullCheckpointCounts(h: Hasher, pack: seq<byte>)
    ensures var end := ScanEnd(h, pack, 0);
            && FullCheckpoint(h, pack).verifiedLen == end
            && Counts(h, pack[..end], FullCheckpoint(h, pack))
            && FullCheckpoint(h, pack[..end]) == FullCheckpoint(h, pack)
  {
    var end := ScanEnd(h, pack, 0);
    ScanOfPrefix(h, pack, 0);
    ScanEmptyIff(h, pack, 0);
    hide ParseRecord, Scan, ScanEnd;
    assert pack[..end][..end] == pack[..end];
  }

  /** A row the scan does not replace. */
  predicate RowKept(name: PackName, rows: map<Digest, Row>, v: nat, id: Digest) {
    id in rows && (rows[id].pack == name ==> rows[id].End() <= v)
  }

  lemma StartRows(name: PackName, rows: map<Digest, Row>, trusted: Option<Checkpoint>, id: Digest)
    requires trusted.Some? ==> RowsEndBy(rows, name, trusted.value.verifiedLen)
    ensures var start := StartProgress(name, rows, trusted).rows;
            && (id in start <==> RowKept(name, rows, ScanFrom(trusted), id))
            && (id in start ==> start[id] == rows[id])
  {
  }

  /** A row the scan made. */
  ghost predicate RowScanned(h: Hasher, name: PackName, pack: seq<byte>, v: nat, id: Digest, row: Row)
    requires v <= |pack|
  {
    exists i: nat :: FirstAt(Scan(h, pack, v), i, id) && row == RowOf(name, Scan(h, pack, v)[i])
  }

  /** Which rows the recovered catalog has, and where each comes from. */
  lemma RecoveryRows(
    h: Hasher, name: PackName, pack: seq<byte>, cat: Catalog, frontier: Option<Frontier>, id: Digest)
    requires Recover(h, name, pack, cat, frontier).Ok?
    ensures var rows := Recover(h, name, pack, cat, frontier).value.cat.rows;
            var v := ScanFrom(TrustedCheckpoint(name, pack, cat, frontier));
            && (RowKept(name, cat.rows, v, id) ==> id in rows && rows[id] == cat.rows[id])
            && (id in rows && !RowKept(name, cat.rows, v, id) ==> RowScanned(h, name, pack, v, id, rows[id]))
            && (forall i | 0 <= i < |Scan(h, pack, v)| :: Scan(h, pack, v)[i].id in rows)
  {
    hide ParseRecord, Scan, ScanEnd, Recover, RecoveredRows, TrustedCheckpoint, FirstAt;
    var trusted := TrustedCheckpoint(name, pack, cat, frontier);
    TrustedRowsEnd(name, pack, cat, frontier);
    RecoverShape(h, name, pack, cat, frontier);
    RowsOfScan(h, name, pack, cat.rows, trusted, id);
  }

  /** Without a checkpoint to trust, every record of the file has a row. */
  lemma UntrustedRescans(h: Hasher, name: PackName, pack: seq<byte>, cat: Catalog, frontier: Option<Frontier>, i: nat)
    requires TrustedCheckpoint(name, pack, cat, frontier) == None
    requires Recover(h, name, pack, cat, frontier).Ok? && i < |Scan(h, pack, 0)|
    ensures Scan(h, pack, 0)[i].id in Recover(h, name, pack, cat, frontier).value.cat.rows
  {
    hide ParseRecord, Scan, ScanEnd, Recover, TrustedCheckpoint;
    RecoveryRows(h, name, pack, cat, frontier, Scan(h, pack, 0)[i].id);
  }

  lemma TrustedRowsEnd(name: PackName, pack: seq<byte>, cat: Catalog, frontier: Option<Frontier>)
    ensures var trusted := TrustedCheckpoint(name, pack, cat, frontier);
            trusted.Some? ==> RowsEndBy(cat.rows, name, trusted.value.verifiedLen)
  {
    hide HeaderNames;
  }

  lemma RowsOfScan(
    h: Hasher, name: PackName, pack: seq<byte>, rows: map<Digest, Row>, trusted: Option<Checkpoint>, id: Digest)
    requires ScanFrom(trusted) <= |pack|
    requires trusted.Some? ==> RowsEndBy(rows, name, trusted.value.verifiedLen)
    ensures var rows' := RecoveredRows(h, name, pack, rows, trusted);
            var v := ScanFrom(trusted);
            && (RowKept(name, rows, v, id) ==> id in rows' && rows'[id] == rows[id])
            && (id in rows' && !RowKept(name, rows, v, id) ==> RowScanned(h, name, pack, v, id, rows'[id]))
            && (forall i | 0 <= i < |Scan(h, pack, v)| :: Scan(h, pack, v)[i].id in rows')
  {
    var v := ScanFrom(trusted);
    var start := StartProgress(name, rows, trusted);
    var locs := Scan(h, pack, v);
    var p := ReadRecords(start, name, locs);
    var end := ScanEnd(h, pack, v);
    ReadRecordsRows(start, name, locs, id);
    StartRows(name, rows, trusted, id);
    hide ParseRecord, ReadRecords, Scan, ScanEnd, StartProgress, Boundary;
    forall x | x in p.rows && p.rows[x].pack == name
      ensures p.rows[x].offset < end + HEADER_LEN
    {
      ReadRecordsRows(start, name, locs, x);
      StartRows(name, rows, trusted, x);
      if x !in start.rows {
        var i: nat :| FirstAt(locs, i, x) && p.rows[x] == RowOf(name, locs[i]);
        ScanElements(h, pack, v, i);
      }
    }
    assert DropFrom(p.rows, name, end + HEADER_LEN) == p.rows;
    assert RecoveredRows(h, name, pack, rows, trusted) == p.rows;
  }

  /** Every row of the recovered catalog names a complete record of the kept prefix. */
  lemma RecoveryRowsSound(h: Hasher, name: PackName, pack: seq<byte>, cat: Catalog, frontier: Option<Frontier>)
    requires TrustIsSound(h, name, pack, cat, frontier)
    requires Recover(h, name, pack, cat, frontier).Ok?
    ensures var r := Recover(h, name, pack, cat, frontier).value;
            RowsSound(h, name, r.pack, r.cat.rows, |r.pack|) && RowsEndBy(r.cat.rows, name, |r.pack|)
  {
    var r := Recover(h, name, pack, cat, frontier).value;
    var v := ScanFrom(TrustedCheckpoint(name, pack, cat, frontier));
    var end := ScanEnd(h, pack, 0);
    RecoveryKeepsLongestPrefix(h, name, pack, cat, frontier);
    TrustGivesBoundary(h, name, pack, cat, frontier);
    ScanAfter(h, pack, v);
    assert RowsSound(h, name, pack, cat.rows, v) || v == 0;
    hide ParseRecord, Scan, ScanEnd, Recover, Boundary, TrustIsSound, TrustedCheckpoint, Names;
    forall id | id in r.cat.rows && r.cat.rows[id].pack == name
      ensures Names(h, r.pack, id, r.cat.rows[id]) && r.cat.rows[id].End() <= end
    {
      var row := r.cat.rows[id];
      RecoveryRows(h, name, pack, cat, frontier, id);
      if !RowKept(name, cat.rows, v, id) {
        var i: nat :| FirstAt(Scan(h, pack, v), i, id) && row == RowOf(name, Scan(h, pack, v)[i]);
        ScannedNames(h, pack, v, i, name);
      }
      PrefixOfPrefix(pack, end, row.End());
      NamesIsLocal(h, pack, r.pack, id, row);
    }
  }

  lemma ScannedNames(h: Hasher, pack: seq<byte>, v: nat, i: nat, name: PackName)
    requires Boundary(h, pack, v) && i < |Scan(h, pack, v)|
    ensures var loc := Scan(h, pack, v)[i];
            Names(h, pack, loc.id, RowOf(name, loc)) && loc.End() <= ScanEnd(h, pack, v)
  {
    ScanBoundaries(h, pack, v, i);
    hide ParseRecord, Scan, ScanEnd, Boundary;
  }

  /** A named record is listed by the scan from any boundary at or before its start. */
  lemma NamedIsScanned(h: Hasher, pack: seq<byte>, v: nat, id: Digest, row: Row) returns (i: nat)
    requires Boundary(h, pack, v) && Names(h, pack, id, row) && v < row.End()
    ensures i < |Scan(h, pack, v)| && Scan(h, pack, v)[i].id == id
    ensures Scan(h, pack, v)[i].End() == row.End() && row == RowOf(row.pack, Scan(h, pack, v)[i])
  {
    hide ParseRecord, Scan, ScanEnd, Boundary;
    BoundarySeparates(h, pack, v, row.offset - HEADER_LEN);
    i := BoundaryRecordIsScanned(h, pack, v, row.offset - HEADER_LEN);
  }

  /**
    * Recovery forgets the capture caches whenever an object they may rely on loses its row: a row that named
    * a record of this pack goes only if the file was cut, or was already shorter than the row.
    */
  lemma LostRowsForgetCaches(
    h: Hasher, name: PackName, pack: seq<byte>, cat: Catalog, frontier: Option<Frontier>, id: Digest)
    requires TrustIsSound(h, name, pack, cat, frontier)
    requires Recover(h, name, pack, cat, frontier).Ok?
    requires id in cat.rows && id !in Recover(h, name, pack, cat, frontier).value.cat.rows
    requires cat.rows[id].End() <= |pack| ==> Names(h, pack, id, cat.rows[id])
    ensures Recover(h, name, pack, cat, frontier).value.cachesForgotten
  {
    var row := cat.rows[id];
    var v := ScanFrom(TrustedCheckpoint(name, pack, cat, frontier));
    RecoveryRows(h, name, pack, cat, frontier, id);
    TrustGivesBoundary(h, name, pack, cat, frontier);
    if row.End() <= |pack| {
      hide Names, Boundary, Recover, Scan;
      var i := NamedIsScanned(h, pack, v, id, row);
    } else {
      hide RecoveredRows, RecoveredCheckpoints, TrustedCheckpoint, TrustIsSound;
    }
  }

  /**
    * Recovering again changes neither the file nor the checkpoint and loses no row. It changes nothing at all
    * unless the first recovery trusted a checkpoint and the second cannot: then the full scan also gives rows
    * to records an aborted batch left before that checkpoint.
    */
  lemma SecondRecovery(h: Hasher, name: PackName, pack: seq<byte>, cat: Catalog, frontier: Option<Frontier>)
    requires TrustIsSound(h, name, pack, cat, frontier)
    requires Recover(h, name, pack, cat, frontier).Ok?
    ensures var r := Recover(h, name, pack, cat, frontier).value;
            var again := Recover(h, name, r.pack, r.cat, frontier);
            && again.Ok?
            && again.value.pack == r.pack
            && again.value.cat.checkpoints == r.cat.checkpoints
            && r.cat.rows.Keys <= again.value.cat.rows.Keys
            && (TrustedCheckpoint(name, pack, cat, frontier).None?
                || TrustedCheckpoint(name, r.pack, r.cat, frontier).Some?
                ==> again.value.cat == r.cat)
  {
    RecoveredIsSound(h, name, pack, cat, frontier);
    RecoveryCheckpoint(h, name, pack, cat, frontier);
    RecoveryKeepsLongestPrefix(h, name, pack, cat, frontier);
    FullCheckpointCounts(h, pack);
    var r := Recover(h, name, pack, cat, frontier).value;
    var again := Recover(h, name, r.pack, r.cat, frontier);
    hide ParseRecord, Scan, ScanEnd, Recover, ValidCheckpoint;
    if TrustedCheckpoint(name, r.pack, r.cat, frontier).Some? {
      TrustedWholeIsNoop(h, name, r.pack, r.cat, frontier);
    } else {
      RecoveryCheckpoint(h, name, r.pack, r.cat, frontier);
      hide TrustedCheckpoint, TrustIsSound;
      if name !in r.cat.checkpoints {
        assert name !in again.value.cat.checkpoints by { UntrustedEmpty(h, name, r.pack, r.cat, frontier); }
      }
      assert again.value.cat.checkpoints == r.cat.checkpoints by {
        SameCheckpoints(name, r.cat.checkpoints, again.value.cat.checkpoints);
      }
      forall id
        ensures id in r.cat.rows ==> id in again.value.cat.rows
        ensures TrustedCheckpoint(name, pack, cat, frontier).None? && id in again.value.cat.rows ==>
                  id in r.cat.rows && again.value.cat.rows[id] == r.cat.rows[id]
      {
        UntrustedRow(h, name, pack, cat, frontier, id);
      }
    }
  }

  lemma SameCheckpoints(name: PackName, a: map<PackName, Checkpoint>, b: map<PackName, Checkpoint>)
    requires a - {name} == b - {name}
    requires name in a <==> name in b
    requires name in a ==> a[name] == b[name]
    ensures a == b
  {
    forall other
      ensures other in a <==> other in b
      ensures other in a ==> a[other] == b[other]
    {
      assert other in a - {name} <==> other in b - {name};
      assert other in a - {name} ==> (a - {name})[other] == (b - {name})[other];
    }
  }

  /** The recovered catalog describes the recovered file, and recovering that succeeds. */
  lemma RecoveredIsSound(h: Hasher, name: PackName, pack: seq<byte>, cat: Catalog, frontier: Option<Frontier>)
    requires TrustIsSound(h, name, pack, cat, frontier)
    requires Recover(h, name, pack, cat, frontier).Ok?
    ensures var r := Recover(h, name, pack, cat, frontier).value;
            && (name in r.cat.checkpoints ==> SoundPrefix(h, name, r.pack, r.cat, r.cat.checkpoints[name]))
            && TrustIsSound(h, name, r.pack, r.cat, frontier)
            && ScanEnd(h, r.pack, 0) == |r.pack|
            && Scan(h, r.pack, 0) == Scan(h, pack, 0)
            && Recover(h, name, r.pack, r.cat, frontier).Ok?
            && Recover(h, name, r.pack, r.cat, frontier).value.pack == r.pack
  {
    hide ParseRecord, Scan, ScanEnd, Recover, ValidCheckpoint, Names, Counts, FullCheckpoint, Boundary;
    var r := Recover(h, name, pack, cat, frontier).value;
    RecoveryCheckpoint(h, name, pack, cat, frontier);
    RecoveryKeepsLongestPrefix(h, name, pack, cat, frontier);
    RecoveryRowsSound(h, name, pack, cat, frontier);
    FullCheckpointCounts(h, pack);
    ScanOfPrefix(h, pack, 0);
    RecoveryKeepsLongestPrefix(h, name, r.pack, r.cat, frontier);
    assert r.pack[..|r.pack|] == r.pack;
  }

  lemma TrustedWholeIsNoop(h: Hasher, name: PackName, pack: seq<byte>, cat: Catalog, frontier: Option<Frontier>)
    requires TrustedCheckpoint(name, pack, cat, frontier).Some?
    requires cat.checkpoints[name].verifiedLen == |pack|
    requires frontier.Some? ==> frontier.value.Pack(name) <= |pack|
    ensures Recover(h, name, pack, cat, frontier) == Ok(Recovered(pack, cat, false))
  {
    var c := cat.checkpoints[name];
    assert DropFrom(cat.rows, name, |pack| + HEADER_LEN) == cat.rows;
    hide ParseRecord, HeaderNames;
    assert Scan(h, pack, |pack|) == [];
  }

  /** Without a checkpoint and without records, recovery writes no checkpoint. */
  lemma UntrustedEmpty(h: Hasher, name: PackName, pack: seq<byte>, cat: Catalog, frontier: Option<Frontier>)
    requires Recover(h, name, pack, cat, frontier).Ok?
    requires name !in cat.checkpoints && ScanEnd(h, pack, 0) == 0
    ensures name !in Recover(h, name, pack, cat, frontier).value.cat.checkpoints
  {
    ScanEmptyIff(h, pack, 0);
    hide ParseRecord, Scan, ScanEnd, RecoveredRows;
    assert TrustedCheckpoint(name, pack, cat, frontier) == None;
    ReadRecordsCounters(StartProgress(name, cat.rows, None), name, Scan(h, pack, 0));
  }

  lemma UntrustedRow(
    h: Hasher, name: PackName, pack: seq<byte>, cat: Catalog, frontier: Option<Frontier>, id: Digest)
    requires TrustIsSound(h, name, pack, cat, frontier)
    requires Recover(h, name, pack, cat, frontier).Ok?
    requires var r := Recover(h, name, pack, cat, frontier).value;
             && TrustedCheckpoint(name, r.pack, r.cat, frontier).None?
             && Recover(h, name, r.pack, r.cat, frontier).Ok?
    ensures var r := Recover(h, name, pack, cat, frontier).value;
            var again := Recover(h, name, r.pack, r.cat, frontier).value;
            && (id in r.cat.rows ==> id in again.cat.rows)
            && (TrustedCheckpoint(name, pack, cat, frontier).None? && id in again.cat.rows ==>
                  id in r.cat.rows && again.cat.rows[id] == r.cat.rows[id])
  {
    var r := Recover(h, name, pack, cat, frontier).value;
    var again := Recover(h, name, r.pack, r.cat, frontier).value;
    RecoveredIsSound(h, name, pack, cat, frontier);
    RecoveryRowsSound(h, name, pack, cat, frontier);
    RecoveryRows(h, name, pack, cat, frontier, id);
    RecoveryRows(h, name, r.pack, r.cat, frontier, id);
    assert r.pack[..0] == [];
    assert Boundary(h, r.pack, 0);
    hide ParseRecord, Scan, ScanEnd, Recover, ValidCheckpoint, TrustedCheckpoint, TrustIsSound, Boundary, Names;
    var locs := Scan(h, pack, 0);
    if id in r.cat.rows && r.cat.rows[id].pack == name {
      NameIsNonempty(h, r.pack, id, r.cat.rows[id]);
      var i := NamedIsScanned(h, r.pack, 0, id, r.cat.rows[id]);
    }
    if TrustedCheckpoint(name, pack, cat, frontier).None? && id in again.cat.rows {
      if !RowKept(name, r.cat.rows, 0, id) {
        var i: nat :| FirstAt(locs, i, id) && again.cat.rows[id] == RowOf(name, locs[i]);
        if !RowKept(name, cat.rows, 0, id) {
          var j: nat :| FirstAt(locs, j, id) && r.cat.rows[id] == RowOf(name, locs[j]);
          assert i == j;
        }
      }
    }
  }

  lemma NameIsNonempty(h: Hasher, pack: seq<byte>, id: Digest, row: Row)
    requires Names(h, pack, id, row)
    ensures 0 < row.End()
  {
  }
}
