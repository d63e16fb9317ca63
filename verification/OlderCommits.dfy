/**
  * What catalog commits of earlier sessions do when a power loss brings them back: exactly which objects keep a row,
  * that the one retry of a failed read finds all the others, and a run in which one is needed.
  */
module OlderCommits {
  import opened Bytes
  import opened Pack
  import opened Recovery
  import opened RecoveryTwice
  import opened IndexCheck
  import opened Durability
  import opened StoreRuns
  import opened CrashRecovery
  import opened StoreTheorems

  // ---- which rows come back ----

  /** The object has a row that the trusted checkpoint keeps, or a record past that checkpoint. */
  ghost predicate KeepsRow(e: Env, c: Crash, id: Digest) {
    var v := ScanFrom(TrustedCheckpoint(e.name, c.pack, c.cat, c.visible));
    || RowKept(e.name, c.cat.rows, v, id)
    || exists i: nat :: i < |Scan(e.h, c.pack, v)| && Scan(e.h, c.pack, v)[i].id == id
  }

  /** Exactly these objects have a row when the store opens, whichever commit came back, right or wrong. */
  lemma RowReturnsIff(e: Env, s: State, c: Crash, id: Digest)
    requires PackAfter(e, s, c).Ok?
    ensures id in PackAfter(e, s, c).value.cat.rows <==> KeepsRow(e, c, id)
  {
    hide ParseRecord, Scan, ScanEnd, Recover, TrustedCheckpoint;
    RecoveryRows(e.h, e.name, c.pack, c.cat, c.visible, id);
  }

  /** Everything reachable from `root` reads back at the first attempt. */
  ghost predicate PlainlyReadable(e: Env, s: State, root: Digest) {
    forall path | Path(e, s.objects, path) && path[0] == root ::
      var obj := s.objects[path[|path| - 1]];
      Read(e.h, map[e.name := s.Pack()], s.View().rows, path[|path| - 1], obj.kind) == Ok(obj.bytes)
  }

  lemma PlainReadIff(e: Env, s: State, id: Digest)
    requires PackOk(e, s) && CatalogsOk(e, s) && id in s.objects
    ensures Read(e.h, map[e.name := s.Pack()], s.View().rows, id, s.objects[id].kind) == Ok(s.objects[id].bytes)
            <==> id in s.View().rows
  {
    ViewOk(e, s);
    PackKnown(e, s);
    hide PackOk, CatalogsOk, CatalogOk, RecordsKnown, Names, Read;
    if id in s.View().rows {
      RowIsObject(e, s.Pack(), s.View().rows, s.objects, id);
      NamedReads(e.h, map[e.name := s.Pack()], s.View().rows, id);
    } else {
      NoRowReadsNothing(e.h, map[e.name := s.Pack()], s.View().rows, id, s.objects[id].kind);
    }
  }

  /** Unless an older commit makes recovery trust what is wrong, a closure reads back on opening, without the retry, if
      and only if each of its objects keeps a row. */
  lemma ClosureReturnsIff(e: Env, s: State, step: Step, root: Digest)
    requires Base(e, s) && s.commits != [] && IsCrash(step) && Enabled(e, s, step) && Next(e, s, step).Ok?
    requires Trusts(e, s, step)
    ensures PlainlyReadable(e, Next(e, s, step).value, root) <==>
              forall path | Path(e, s.objects, path) && path[0] == root ::
                KeepsRow(e, CrashIn(e, s, step), path[|path| - 1])
  {
    var c, s' := CrashIn(e, s, step), Next(e, s, step).value;
    CrashStepIsCrash(e, s, step);
    hide PackOk, CatalogsOk, OlderOk, LogsIntact, PackCovered, GroupInPack, CrashOf, After, PackAfter, Next, Enabled, CrashIn,
         FramesReach, CrashRecovery.LogKept, KeepsRow, Read, Trusts;
    ReopensIff(e, s, c);
    PackPartAfter(e, s, c);
    forall path | Path(e, s.objects, path) && path[0] == root
      ensures var obj := s.objects[path[|path| - 1]];
              Read(e.h, map[e.name := s'.Pack()], s'.View().rows, path[|path| - 1], obj.kind) == Ok(obj.bytes)
              <==> KeepsRow(e, c, path[|path| - 1])
    {
      RowReturnsIff(e, s, c, path[|path| - 1]);
      PlainReadIff(e, s', path[|path| - 1]);
    }
  }

  // ---- the retry ----

  /**
    * Whatever commit a power loss brings back, if it does not make recovery trust what is wrong: everything reachable
    * from an object that lay in the synced part of the pack reads back as it was given, through the one retry. Nothing
    * is assumed of the index: the retry is made because the check finds the index short.
    */
  lemma OlderCommitHeals(e: Env, s: State, step: Step, root: Digest)
    requires Base(e, s) && s.commits != [] && IsCrash(step) && Enabled(e, s, step) && Next(e, s, step).Ok?
    requires EnvOk(e) && Trusts(e, s, step) && Within(e, s, root, s.packSynced)
    ensures var s' := Next(e, s, step).value;
            Base(e, s') && s'.commits != [] && !s'.inBatch
            && Located(e, s'.Pack(), Current(s'), root) && ClosureReadable(e, s', root)
  {
    var c, s' := CrashIn(e, s, step), Next(e, s, step).value;
    StepKeepsBase(e, s, step);
    CrashStepIsCrash(e, s, step);
    hide PackOk, CatalogsOk, OlderOk, LogsIntact, PackCovered, GroupInPack, CrashOf, After, PackAfter, Next, Enabled, CrashIn,
         FramesReach, CrashRecovery.LogKept, Located, Within, ClosureReadable, RecordedBy, Trusts;
    ReopensIff(e, s, c);
    WithinAfterCrash(e, s, c, root, s.packSynced);
    BaseFrontierInside(e, s');
    CommittedIsReadable(e, s', root);
  }

  /** The exact condition for one read outside a batch: the object has a row, or the retry is still to be had. */
  lemma RetryIff(e: Env, s: State, id: Digest, mayHeal: bool)
    requires e.anyCommit && Base(e, s) && s.commits != [] && !s.inBatch && Located(e, s.Pack(), Current(s), id)
    ensures id in s.objects
    ensures var obj := s.objects[id];
            ReadBack(e.h, e.name, map[e.name := s.Pack()], s.View(), s.visible, mayHeal, id, obj.kind) == Ok(obj.bytes)
            <==> id in s.View().rows || mayHeal
  {
    BaseFrontierInside(e, s);
    SettledView(e, s);
    hide PackOk, CatalogsOk, OlderOk, LogsIntact, PackCovered, GroupInPack, Read, Agrees, Recover, CatalogOk, Located;
    LocatedReads(e, s, id);
    PlainReadIff(e, s, id);
    if id in s.View().rows {
      FirstReadSuffices(e.h, e.name, map[e.name := s.Pack()], s.View(), s.visible, mayHeal, id, s.objects[id].kind);
    }
  }

  /** One retry is enough for a session: once the index has been checked, everything a reader may look for has a row. */
  lemma OneRetryIsEnough(e: Env, s: State, id: Digest)
    requires EnvOk(e) && Base(e, s) && s.commits != [] && !s.inBatch && Located(e, s.Pack(), Current(s), id)
    ensures id in Checked(e, s, false).View().rows && Base(e, Checked(e, s, false))
  {
    CheckedIsBase(e, s);
    SettledView(e, s);
    VisibleInPack(e, s);
    hide PackOk, CatalogsOk, OlderOk, LogsIntact, PackCovered, GroupInPack, Agrees, Recover, Recorded, CatalogOk, Counted, Base;
    LocatedIsRecorded(e, s, id);
    RebuiltIndex(e, s);
    if Agrees(e.name, s.View()) && id !in s.View().rows {
      CountedBreaksAgreement(e, s.Pack(), s.View(), s.objects, id);
    }
  }

  lemma SettledView(e: Env, s: State)
    requires Base(e, s) && s.commits != [] && !s.inBatch
    ensures PackOk(e, s) && CatalogsOk(e, s) && s.View() == Current(s) && CatalogOk(e, s.Pack(), s.View(), s.objects)
  {
    hide PackOk, CatalogOk, Extends, LogsIntact, OlderOk;
  }

  lemma VisibleInPack(e: Env, s: State)
    requires Base(e, s)
    ensures s.visible.Some? ==> PackCovered(e, s, s.visible.value, true)
  {
    hide PackOk, CatalogsOk, LogsIntact, OlderOk, PackCovered, GroupInPack;
  }

  lemma CheckedIsBase(e: Env, s: State)
    requires EnvOk(e) && Base(e, s) && s.commits != [] && !s.inBatch
    ensures Base(e, Checked(e, s, false))
  {
    hide Base, Checked;
    assert Enabled(e, s, VerifyIndex(false)) && Next(e, s, VerifyIndex(false)) == Ok(Checked(e, s, false));
    assert Trusts(e, s, VerifyIndex(false));
    hide Enabled, Next;
    StepKeepsBase(e, s, VerifyIndex(false));
  }

  lemma CountedBreaksAgreement(e: Env, pack: seq<byte>, cat: Catalog, objects: map<Digest, Obj>, id: Digest)
    requires CatalogOk(e, pack, cat, objects) && Counted(e, pack, cat, id) && id !in cat.rows
    ensures !Agrees(e.name, cat)
  {
    var i: nat :| i < |Scan(e.h, pack, 0)| && Scan(e.h, pack, 0)[i].id == id
                  && Scan(e.h, pack, 0)[i].End() <= Verified(e, cat);
    RecordIsNonempty(e.h, pack, i);
    assert e.name in cat.checkpoints && Counts(e.h, pack, cat.checkpoints[e.name]);
    hide ParseRecord, Scan, ScanEnd, Agrees, Covered, RowsClosed, Boundary;
    AgreesIff(e.h, e.name, pack, cat);
    ScannedInPrefix(e.h, pack, Verified(e, cat), i);
  }

  // ---- a commit that outlived its pack ----

  /** The catalog of a pack that holds `x` and `z`. */
  function CatalogOfTwo(h: Hasher, name: PackName, x: Obj, z: Obj): Catalog {
    var one := EncodeRecord(h, x);
    Catalog(map[x.Id(h) := RowOf(name, NewLoc(h, [], x)), z.Id(h) := RowOf(name, NewLoc(h, one, z))],
            map[name := Checkpoint(|one + EncodeRecord(h, z)|, 2, Some(z.Id(h)), |one|)])
  }

  lemma CatalogOfTwoHas(h: Hasher, name: PackName, x: Obj, z: Obj)
    requires x.Fits() && z.Fits() && x.Id(h) != z.Id(h)
    ensures var cat, one := CatalogOfTwo(h, name, x, z), EncodeRecord(h, x);
            && (forall id :: id in cat.rows <==> id == x.Id(h) || id == z.Id(h))
            && cat.rows[x.Id(h)] == RowOf(name, NewLoc(h, [], x)) && cat.rows[x.Id(h)].End() == |one|
            && cat.rows[z.Id(h)] == RowOf(name, NewLoc(h, one, z))
            && cat.rows[z.Id(h)].End() == |one + EncodeRecord(h, z)|
            && cat.checkpoints == map[name := Checkpoint(|one + EncodeRecord(h, z)|, 2, Some(z.Id(h)), |one|)]
            && |one| < |one + EncodeRecord(h, z)|
  {
    EncodedLength(h, x);
    EncodedLength(h, z);
    hide EncodeRecord, Obj.Id;
  }

  lemma CountsTwo(h: Hasher, name: PackName, x: Obj, z: Obj)
    requires x.Fits() && z.Fits() && x.Id(h) != z.Id(h)
    ensures Agrees(name, CatalogOfTwo(h, name, x, z))
  {
    CatalogOfTwoHas(h, name, x, z);
    hide EncodeRecord, Obj.Id, CatalogOfTwo;
    var cat := CatalogOfTwo(h, name, x, z);
    var v := cat.checkpoints[name].verifiedLen;
    assert PrefixRows(cat.rows, name, v) == {x.Id(h), z.Id(h)};
    assert CrossingRows(cat.rows, name, v) == {};
  }

  /** The header of `z` is where the catalog says, whichever object of the same length lies before it. */
  lemma LastHeaderFits(h: Hasher, name: PackName, x: Obj, y: Obj, z: Obj, more: seq<byte>)
    requires y.Fits() && z.Fits() && |EncodeRecord(h, x)| == |EncodeRecord(h, y)|
    ensures var two, row := EncodeRecord(h, y) + EncodeRecord(h, z), RowOf(name, NewLoc(h, EncodeRecord(h, x), z));
            && HEADER_LEN <= row.offset && row.offset - HEADER_LEN == |EncodeRecord(h, x)|
            && HeaderNames(two + more, row.offset - HEADER_LEN, row, z.Id(h)) && row.End() == |two|
            && (two + more)[|two| - 4..|two|] == OBJECT_END
  {
    var two, row := EncodeRecord(h, y) + EncodeRecord(h, z), RowOf(name, NewLoc(h, EncodeRecord(h, x), z));
    AbortedPrefix(h, name, y, z, more);
    EncodedLength(h, z);
    hide ParseRecord, Scan, ScanEnd, EncodeRecord, Obj.Id, Names, HeaderNames, Boundary;
    assert row == RowOf(name, NewLoc(h, EncodeRecord(h, y), z));
    NamedHeader(h, two + more, z.Id(h), row);
  }

  /** A checkpoint within the durable prefix is trusted when the header of its last record fits. */
  lemma FittingIsTrusted(name: PackName, pack: seq<byte>, cat: Catalog, f: Option<Frontier>, last: Digest)
    requires name in cat.checkpoints && last in cat.rows && cat.rows[last].pack == name
    requires var c, row := cat.checkpoints[name], cat.rows[last];
             && c.lastObject == Some(last) && 0 < c.objectCount && c.verifiedLen == row.End() <= |pack|
             && HEADER_LEN <= row.offset && c.lastRecordStart == row.offset - HEADER_LEN
             && RowsEndBy(cat.rows, name, c.verifiedLen) && HeaderNames(pack, c.lastRecordStart, row, last)
             && 4 <= c.verifiedLen && pack[c.verifiedLen - 4..c.verifiedLen] == OBJECT_END
             && (f.Some? ==> c.verifiedLen <= f.value.Pack(name))
    ensures TrustedCheckpoint(name, pack, cat, f) == Some(cat.checkpoints[name])
  {
    hide HeaderNames;
  }

  lemma OutlivedIsTrusted(h: Hasher, name: PackName, x: Obj, y: Obj, z: Obj, more: seq<byte>, f: Option<Frontier>)
    requires x.Fits() && y.Fits() && z.Fits() && |EncodeRecord(h, x)| == |EncodeRecord(h, y)| && x.Id(h) != z.Id(h)
    requires f.Some? ==> |EncodeRecord(h, y) + EncodeRecord(h, z)| <= f.value.Pack(name)
    ensures var two, cat := EncodeRecord(h, y) + EncodeRecord(h, z), CatalogOfTwo(h, name, x, z);
            && name in cat.checkpoints && cat.checkpoints[name].verifiedLen == |two|
            && TrustedCheckpoint(name, two + more, cat, f) == Some(cat.checkpoints[name])
            && Boundary(h, two + more, |two|)
  {
    LastHeaderFits(h, name, x, y, z, more);
    CatalogOfTwoHas(h, name, x, z);
    AbortedPrefix(h, name, y, z, more);
    hide EncodeRecord, Obj.Id, CatalogOfTwo, HeaderNames, Boundary, Names, Scan, TrustedCheckpoint;
    var two := EncodeRecord(h, y) + EncodeRecord(h, z);
    FittingIsTrusted(name, two + more, CatalogOfTwo(h, name, x, z), f, z.Id(h));
  }

  /**
    * A wrong commit that recovery trusts. The tail of a pack is lost and cut, other records of the same lengths are
    * written in its place, and then the catalog of the lost tail comes back: its last header fits, the check counts as
    * many rows as the checkpoint says, and `y` cannot be read, retry or not, although its record is there and the
    * frontier covers it.
    */
  lemma OutlivedCatalogMisleads(h: Hasher, name: PackName, x: Obj, y: Obj, z: Obj)
    requires x.Fits() && y.Fits() && z.Fits() && |EncodeRecord(h, x)| == |EncodeRecord(h, y)|
    requires x.Id(h) != y.Id(h) && x.Id(h) != z.Id(h) && y.Id(h) != z.Id(h)
    ensures var pack, cat := EncodeRecord(h, y) + EncodeRecord(h, z), CatalogOfTwo(h, name, x, z);
            && Recorded(h, pack, y.Id(h))
            && Recover(h, name, pack, cat, FrontierAt(name, |pack|)) == Ok(Recovered(pack, cat, false))
            && ReadBack(h, name, map[name := pack], cat, FrontierAt(name, |pack|), true, y.Id(h), y.kind) == Err
  {
    var pack, cat := EncodeRecord(h, y) + EncodeRecord(h, z), CatalogOfTwo(h, name, x, z);
    TwoRecords(h, y, z);
    assert FrontierAt(name, |pack|).value.Pack(name) == |pack| && pack + [] == pack;
    OutlivedIsTrusted(h, name, x, y, z, [], FrontierAt(name, |pack|));
    CatalogOfTwoHas(h, name, x, z);
    CountsTwo(h, name, x, z);
    hide ParseRecord, Scan, ScanEnd, EncodeRecord, Obj.Id, CatalogOfTwo, Agrees, Recover, Read, Boundary, TrustedCheckpoint,
         FrontierAt;
    assert Scan(h, pack, 0)[0].id == y.Id(h);
    TrustedWholeIsNoop(h, name, pack, cat, FrontierAt(name, |pack|));
    NoRowReadsNothing(h, map[name := pack], cat.rows, y.Id(h), y.kind);
  }

  // ---- sessions that a power loss does not interrupt ----

  /** A process crash costs the pack nothing. */
  lemma ProcessCrashKeepsPack(e: Env, s: State, step: Step)
    requires Base(e, s) && s.commits != [] && step.ProcessCrash? && Enabled(e, s, step) && Next(e, s, step).Ok?
    ensures Next(e, s, step).value.Pack() == s.Pack()
  {
    var c := CrashIn(e, s, step);
    CrashStepIsCrash(e, s, step);
    ProcessCrashIsWhole(e, s, step);
    hide PackOk, CatalogsOk, OlderOk, Next, Enabled, CrashOf, After, CrashIn, PackAfter, FramesReach, CrashRecovery.LogKept,
         LogsIntact, PackCovered, CatalogOk, RecordsKnown, Covered, Scan, ScanEnd;
    ReopensIff(e, s, c);
    PackAfterCrash(e, s, c);
    assert s.Pack()[..|s.Pack()|] == s.Pack();
  }

  /** Whatever catalog was right about the pack stays right, through every run without a power loss. */
  lemma {:induction false} RunKeepsNamed(e: Env, s: State, steps: seq<Step>, s': State, cat: Catalog)
    requires EnvOk(e) && Base(e, s) && Run(e, s, steps, s') && CatalogNamed(e, s.Pack(), cat)
    requires forall step | step in steps :: !step.PowerLoss?
    ensures Base(e, s') && CatalogNamed(e, s'.Pack(), cat)
    decreases |steps|
  {
    hide PackOk, CatalogsOk, OlderOk, LogsIntact, PackCovered, CatalogNamed, Enabled, Next;
    if steps != [] {
      var s1 := Next(e, s, steps[0]).value;
      StepKeepsBase(e, s, steps[0]);
      if steps[0].ProcessCrash? {
        ProcessCrashKeepsPack(e, s, steps[0]);
      } else {
        OrdinaryKeepsBase(e, s, steps[0]);
        NamedInExtension(e, s.Pack(), s1.Pack(), cat);
      }
      RunKeepsNamed(e, s1, steps[1..], s', cat);
    }
  }
}
