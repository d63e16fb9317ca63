/** The checks on a manifest (archive.rs, validate_manifest), made before one is stored and before one is used. */
module ArchiveManifest {
  import opened Bytes
  import opened ArchiveScan
  import opened ArchiveCapture
  import opened ArchiveRestore

  const MAX_ENTRIES: nat := 1_000_000
  const MAX_REFERENCES: nat := 8_000_000
  const MAX_ATTRIBUTES: nat := 64 * 1024 * 1024
  const MAX_PATH: nat := 64 * 1024
  const MAX_MANIFEST: nat := 256 * 1024 * 1024
  const MAX_MODE: nat := 0xFFF
  const NANOS: int := 1_000_000_000

  // ---------- Sizes ----------

  /** The length of a path with a slash between its components. */
  function PathLen(p: Path): nat {
    if p == [] then 0
    else if |p| == 1 then |p[0]|
    else |p[0]| + 1 + PathLen(p[1..])
  }

  function References(entries: seq<Entry>): nat {
    if entries == [] then 0 else References(entries[..|entries| - 1]) + |entries[|entries| - 1].chunks|
  }

  function LogicalBytes(entries: seq<Entry>): nat {
    if entries == [] then 0 else LogicalBytes(entries[..|entries| - 1]) + entries[|entries| - 1].size
  }

  /** The bytes of all names and values. */
  ghost function AttributeBytes(attrs: map<seq<byte>, seq<byte>>): nat
    decreases |attrs|
  {
    if attrs == map[] then 0
    else
      var name :| name in attrs;
      |name| + |attrs[name]| + AttributeBytes(attrs - {name})
  }

  ghost function Attributes(entries: seq<Entry>): nat {
    if entries == [] then 0
    else Attributes(entries[..|entries| - 1]) + AttributeBytes(entries[|entries| - 1].meta.attrs)
  }

  /** Attributes may be counted in any order. */
  lemma {:induction false} CountOne(attrs: map<seq<byte>, seq<byte>>, name: seq<byte>)
    requires name in attrs
    ensures AttributeBytes(attrs) == |name| + |attrs[name]| + AttributeBytes(attrs - {name})
    decreases |attrs|
  {
    var first :| first in attrs && AttributeBytes(attrs) == |first| + |attrs[first]| + AttributeBytes(attrs - {first});
    if first != name {
      assert (attrs - {first}).Keys == attrs.Keys - {first};
      assert (attrs - {name}).Keys == attrs.Keys - {name};
      CountOne(attrs - {first}, name);
      CountOne(attrs - {name}, first);
      assert attrs - {first} - {name} == attrs - {name} - {first};
    }
  }

  // ---------- The checks ----------

  predicate PlainEntry(e: Entry) {
    PathLen(e.name) <= MAX_PATH && |e.link| <= MAX_PATH && e.meta.nanos < NANOS && e.meta.mode <= MAX_MODE
  }

  /** What a workspace must keep to for its manifest to be stored. */
  ghost predicate WithinLimits(entries: seq<Entry>) {
    && |entries| <= MAX_ENTRIES
    && (forall i | 0 <= i < |entries| :: PlainEntry(entries[i]))
    && LogicalBytes(entries) < Pow256(8)
    && References(entries) <= MAX_REFERENCES
    && Attributes(entries) <= MAX_ATTRIBUTES
  }

  /** A path as it is written. */
  function Slashed(p: Path): seq<byte> {
    if p == [] then [] else if |p| == 1 then p[0] else p[0] + [Paths.SLASH] + Slashed(p[1..])
  }

  lemma {:induction false} PathLenIs(p: Path)
    ensures PathLen(p) == |Slashed(p)|
  {
    if |p| > 1 {
      PathLenIs(p[1..]);
    }
  }

  /** The limits in numbers: entries, the length of paths and link targets, nanoseconds and permission bits, and the sums of
      sizes, chunk references and attribute bytes. */
  lemma LimitsAre(entries: seq<Entry>)
    ensures WithinLimits(entries) <==>
              && |entries| <= 1_000_000
              && (forall i | 0 <= i < |entries| ::
                    && |Slashed(entries[i].name)| <= 65_536 && |entries[i].link| <= 65_536
                    && entries[i].meta.nanos <= 999_999_999 && entries[i].meta.mode <= 4095)
              && LogicalBytes(entries) < 0x1_0000_0000_0000_0000
              && References(entries) <= 8_000_000 && Attributes(entries) <= 67_108_864
  {
    hide PathLen, Slashed, LogicalBytes, References, Attributes;
    forall i | 0 <= i < |entries|
      ensures PathLen(entries[i].name) == |Slashed(entries[i].name)|
    {
      PathLenIs(entries[i].name);
    }
    Pow256Eight();
  }

  ghost predicate ValidManifest(entries: seq<Entry>) {
    ValidStructure(entries) && WithinLimits(entries)
  }

  /** A scanned workspace fails the checks only by its size or its metadata, never by its structure. */
  lemma ScannedIsValidIff(h: Hasher, fs: Fs, entries: seq<Entry>)
    requires Sound(fs) && IsScan(h, fs, entries)
    ensures ValidManifest(entries) <==> WithinLimits(entries)
  {
    hide Sound, IsScan, ValidStructure, WithinLimits;
    CapturedIsValid(h, fs, entries);
  }

  // ---------- The loop ----------

  /** The structural checks on the first `n` entries. */
  ghost predicate StructureSoFar(entries: seq<Entry>, n: nat)
    requires n <= |entries|
  {
    && (0 < n ==> entries[0].name == [] && entries[0].kind.Directory?)
    && (forall i | 0 < i < n ::
          entries[i].name != [] && Earlier(entries, i, Parent(entries[i].name), Directory))
    && (forall i | 0 <= i < n && entries[i].hardlink.Some? ::
          entries[i].kind.RegularFile? && Earlier(entries, i, entries[i].hardlink.value, RegularFile))
    && (forall i, j | 0 <= i < j < n :: entries[i].name != entries[j].name)
  }

  /** The paths met so far and what they are. */
  ghost predicate SeenSoFar(entries: seq<Entry>, n: nat, seen: map<Path, Kind>)
    requires n <= |entries|
  {
    && (forall p | p in seen :: Earlier(entries, n, p, seen[p]))
    && (forall i | 0 <= i < n :: entries[i].name in seen && seen[entries[i].name] == entries[i].kind)
  }

  lemma SeenIsEarlier(entries: seq<Entry>, n: nat, seen: map<Path, Kind>, p: Path, kind: Kind)
    requires n <= |entries| && SeenSoFar(entries, n, seen)
    ensures p in seen && seen[p] == kind <==> Earlier(entries, n, p, kind)
  {
  }

  /** The next entry passes or fails, by what was seen. */
  predicate NextFits(entries: seq<Entry>, n: nat, seen: map<Path, Kind>)
    requires n < |entries|
  {
    var e := entries[n];
    && (if n == 0 then e.name == [] && e.kind.Directory?
        else e.name != [] && Parent(e.name) in seen && seen[Parent(e.name)].Directory?)
    && (e.hardlink.Some? ==> e.kind.RegularFile? && e.hardlink.value in seen && seen[e.hardlink.value].RegularFile?)
    && e.name !in seen
  }

  lemma StructureStep(entries: seq<Entry>, n: nat, seen: map<Path, Kind>)
    requires n < |entries| && SeenSoFar(entries, n, seen) && StructureSoFar(entries, n)
    ensures StructureSoFar(entries, n + 1) <==> NextFits(entries, n, seen)
    ensures NextFits(entries, n, seen) ==> SeenSoFar(entries, n + 1, seen[entries[n].name := entries[n].kind])
  {
    hide Earlier;
    var e := entries[n];
    if n > 0 && e.name != [] {
      SeenIsEarlier(entries, n, seen, Parent(e.name), Directory);
    }
    if e.hardlink.Some? {
      SeenIsEarlier(entries, n, seen, e.hardlink.value, RegularFile);
    }
    NameIsNew(entries, n, seen);
    if NextFits(entries, n, seen) {
      SeenMore(entries, n, seen);
    }
  }

  lemma NameIsNew(entries: seq<Entry>, n: nat, seen: map<Path, Kind>)
    requires n < |entries| && SeenSoFar(entries, n, seen)
    ensures entries[n].name !in seen <==> forall i | 0 <= i < n :: entries[i].name != entries[n].name
  {
  }

  lemma SeenMore(entries: seq<Entry>, n: nat, seen: map<Path, Kind>)
    requires n < |entries| && SeenSoFar(entries, n, seen) && entries[n].name !in seen
    ensures SeenSoFar(entries, n + 1, seen[entries[n].name := entries[n].kind])
  {
    var more := seen[entries[n].name := entries[n].kind];
    forall p | p in more
      ensures Earlier(entries, n + 1, p, more[p])
    {
      if p in seen && p != entries[n].name {
        var k :| 0 <= k < n && entries[k].name == p && entries[k].kind == seen[p];
      } else {
        assert entries[n].name == p && entries[n].kind == more[p];
      }
    }
  }

  lemma SizesMore(entries: seq<Entry>, n: nat)
    requires n < |entries|
    ensures References(entries[..n + 1]) == References(entries[..n]) + |entries[n].chunks|
    ensures LogicalBytes(entries[..n + 1]) == LogicalBytes(entries[..n]) + entries[n].size
    ensures Attributes(entries[..n + 1]) == Attributes(entries[..n]) + AttributeBytes(entries[n].meta.attrs)
  {
    assert entries[..n + 1][..n] == entries[..n];
  }

  /** The sums only grow. */
  lemma {:induction false} SizesGrow(entries: seq<Entry>, n: nat)
    requires n <= |entries|
    ensures References(entries[..n]) <= References(entries)
    ensures LogicalBytes(entries[..n]) <= LogicalBytes(entries)
    ensures Attributes(entries[..n]) <= Attributes(entries)
    decreases |entries| - n
  {
    if n < |entries| {
      SizesMore(entries, n);
      SizesGrow(entries, n + 1);
    } else {
      assert entries[..n] == entries;
    }
  }

  /** A structure that fails somewhere fails as a whole. */
  lemma StructureShrinks(entries: seq<Entry>, n: nat)
    requires n <= |entries| && entries != []
    ensures ValidStructure(entries) ==> StructureSoFar(entries, n)
    ensures n == |entries| && StructureSoFar(entries, n) ==> ValidStructure(entries)
  {
    hide Earlier;
  }

  /** Adds up the attributes of one entry, stopping where the budget is passed. */
  method CountAttributes(attrs: map<seq<byte>, seq<byte>>, before: nat) returns (ok: bool, total: nat)
    requires before <= MAX_ATTRIBUTES
    ensures ok <==> before + AttributeBytes(attrs) <= MAX_ATTRIBUTES
    ensures ok ==> total == before + AttributeBytes(attrs)
  {
    var rest := attrs;
    total, ok := before, true;
    while rest != map[]
      invariant total + AttributeBytes(rest) == before + AttributeBytes(attrs) && total <= MAX_ATTRIBUTES && ok
      decreases |rest|
    {
      var name :| name in rest;
      CountOne(rest, name);
      total := total + |name| + |rest[name]|;
      rest := rest - {name};
      if MAX_ATTRIBUTES < total {
        return false, total;
      }
    }
  }

  method ValidateManifest(entries: seq<Entry>) returns (ok: bool)
    ensures ok <==> ValidManifest(entries)
  {
    hide ValidStructure, StructureSoFar, SeenSoFar, NextFits, Pow256;
    if entries == [] || MAX_ENTRIES < |entries| {
      EmptyIsInvalid();
      return false;
    }
    NothingSeen(entries);
    var seen: map<Path, Kind> := map[];
    var references, attributes, logical := 0, 0, 0;
    for i := 0 to |entries|
      invariant StructureSoFar(entries, i) && SeenSoFar(entries, i, seen)
      invariant forall k | 0 <= k < i :: PlainEntry(entries[k])
      invariant references == References(entries[..i]) <= MAX_REFERENCES
      invariant logical == LogicalBytes(entries[..i]) < Pow256(8)
      invariant attributes == Attributes(entries[..i]) <= MAX_ATTRIBUTES
    {
      var e := entries[i];
      SizesMore(entries, i);
      SizesGrow(entries, i + 1);
      StructureStep(entries, i, seen);
      StructureShrinks(entries, i + 1);
      if !PlainEntry(e) || !NextFits(entries, i, seen) {
        return false;
      }
      seen := seen[e.name := e.kind];
      logical := logical + e.size;
      if Pow256(8) <= logical {
        return false;
      }
      references := references + |e.chunks|;
      if MAX_REFERENCES < references {
        return false;
      }
      ok, attributes := CountAttributes(e.meta.attrs, attributes);
      if !ok {
        return;
      }
    }
    assert entries[..|entries|] == entries;
    StructureShrinks(entries, |entries|);
    ok := true;
  }

  lemma EmptyIsInvalid()
    ensures !ValidStructure([])
  {
  }

  lemma NothingSeen(entries: seq<Entry>)
    ensures StructureSoFar(entries, 0) && SeenSoFar(entries, 0, map[]) && 0 < Pow256(8)
  {
  }

  // ---------- Capture ----------

  /** Chunks that a capture adds before it finds one whose digest is taken. */
  ghost predicate RefusedAfter(h: Hasher, fs: Fs, db: ChunkStore, tried: ChunkStore) {
    Extends(db, tried) && AddedUnderDigest(h, db, tried) && SomeRefused(h, tried, fs)
  }

  /** A capture as it is stored: what is listed, with its content, has passed the checks of a restore. It fails only
      over a name elsewhere, a digest that is taken, a limit, or the byte budget of the encoded manifest; then the
      transaction is rolled back, and no chunk stays behind. */
  method CaptureManifest(h: Hasher, fs: Fs, db: ChunkStore, encode: seq<Entry> -> seq<byte>)
    returns (entries: Option<seq<Entry>>, after: ChunkStore)
    requires Sound(fs)
    ensures entries.Some? ==>
      && Extends(db, after) && AddedUnderDigest(h, db, after)
      && IsScan(h, fs, entries.value) && Contained(fs) && AllStored(h, after, fs)
      && ValidManifest(entries.value) && |encode(entries.value)| <= MAX_MANIFEST
    ensures entries.None? ==> after == db
    ensures entries.None? ==>
      || !Contained(fs) || (exists tried: ChunkStore :: RefusedAfter(h, fs, db, tried))
      || exists listed: seq<Entry> ::
           IsScan(h, fs, listed) && (!WithinLimits(listed) || MAX_MANIFEST < |encode(listed)|)
  {
    hide IsScan, AllStored, SomeRefused, Contained, Sound, Extends, AddedUnderDigest, ValidManifest, WithinLimits;
    entries, after := Capture(h, fs, db);
    if entries.None? {
      assert !Contained(fs) || RefusedAfter(h, fs, db, after);
      return None, db;
    }
    var ok := ValidateManifest(entries.value);
    ScannedIsValidIff(h, fs, entries.value);
    if !ok || MAX_MANIFEST < |encode(entries.value)| {
      assert !WithinLimits(entries.value) || MAX_MANIFEST < |encode(entries.value)|;
      return None, db;
    }
  }
}
