/** Capturing a workspace (archive.rs): its contents are stored by chunks, and every file lies in it whole. */
module ArchiveCapture {
  import opened Bytes
  import Chunker
  import opened ArchiveScan

  type ChunkStore = map<Digest, seq<byte>>

  // ---------- Capture ----------

  /** The name that stands for all names of a file. */
  function Group(e: Entry): Path {
    if e.hardlink.Some? then e.hardlink.value else e.name
  }

  function GroupMembers(entries: seq<Entry>, n: nat, group: Path): set<Path>
    requires n <= |entries|
  {
    set k | 0 <= k < n && entries[k].kind.RegularFile? && Group(entries[k]) == group :: entries[k].name
  }

  /** Every file has exactly as many names in the workspace as it has at all. */
  ghost predicate GroupsClosed(entries: seq<Entry>) {
    forall i | 0 <= i < |entries| && entries[i].kind.RegularFile? ::
      |GroupMembers(entries, |entries|, Group(entries[i]))| == entries[i].links
  }

  ghost predicate Contained(fs: Fs) {
    forall p | p in fs.nodes && fs.nodes[p].File? && fs.nodes[p].ino in fs.inodes ::
      |NamesOf(fs, fs.nodes[p].ino)| == fs.inodes[fs.nodes[p].ino].nlink
  }

  lemma {:induction false} FirstIsMet(fs: Fs, entries: seq<Entry>, ino: nat)
    requires FirstWith(fs, entries, ino).Some?
    ensures exists k :: 0 <= k < |entries| && entries[k].name == FirstWith(fs, entries, ino).value
              && FirstWith(fs, entries[..k], ino).None?
  {
    var n := |entries| - 1;
    if FirstWith(fs, entries[..n], ino).Some? {
      FirstIsMet(fs, entries[..n], ino);
      var k :| 0 <= k < n && entries[..n][k].name == FirstWith(fs, entries, ino).value
        && FirstWith(fs, entries[..n][..k], ino).None?;
      assert entries[..n][..k] == entries[..k];
    }
  }

  /** The first of a list stays the first when the list goes on. */
  lemma {:induction false} FirstStays(fs: Fs, entries: seq<Entry>, k: nat, ino: nat)
    requires k <= |entries| && FirstWith(fs, entries[..k], ino).Some?
    ensures FirstWith(fs, entries, ino) == FirstWith(fs, entries[..k], ino)
    decreases |entries| - k
  {
    if k < |entries| {
      assert entries[..k + 1][..k] == entries[..k];
      FirstStays(fs, entries, k + 1, ino);
    } else {
      assert entries[..k] == entries;
    }
  }

  lemma OnlyName(fs: Fs, p: Path, q: Path, ino: nat)
    requires Sound(fs) && ino in fs.inodes && fs.inodes[ino].nlink <= 1
    requires p in fs.nodes && q in fs.nodes && fs.nodes[p] == File(ino) && fs.nodes[q] == File(ino)
    ensures p == q
  {
    assert {p, q} <= NamesOf(fs, ino);
    SubsetSize({p, q}, NamesOf(fs, ino));
  }

  /** A scanned file stands in the group of the first of its names. */
  lemma GroupIsFirst(h: Hasher, fs: Fs, entries: seq<Entry>, i: nat)
    requires Sound(fs) && IsScan(h, fs, entries) && i < |entries| && entries[i].kind.RegularFile?
    ensures entries[i].name in fs.nodes && fs.nodes[entries[i].name].File?
    ensures FirstWith(fs, entries, fs.nodes[entries[i].name].ino) == Some(Group(entries[i]))
  {
    hide PathLess, Chunker.Chunks, FirstWith;
    assert EntryOk(h, fs, entries, i);
    var p := entries[i].name;
    var ino := fs.nodes[p].ino;
    FirstGrows(fs, entries, i, ino);
    if entries[i].hardlink.None? && FirstWith(fs, entries[..i], ino).Some? {
      var k :| 0 <= k < i && entries[..i][k].name == FirstWith(fs, entries[..i], ino).value;
      OnlyName(fs, entries[k].name, p, ino);
      assert PathLess(entries[k].name, entries[i].name);
      PathLessTotal(p, p);
    }
  }

  lemma FirstGrows(fs: Fs, entries: seq<Entry>, i: nat, ino: nat)
    requires i < |entries| && entries[i].name in fs.nodes && fs.nodes[entries[i].name] == File(ino)
    ensures FirstWith(fs, entries, ino) ==
      if FirstWith(fs, entries[..i], ino).Some? then FirstWith(fs, entries[..i], ino) else Some(entries[i].name)
  {
    assert entries[..i + 1][..i] == entries[..i];
    FirstStays(fs, entries, i + 1, ino);
  }

  /** Two scanned files are in one group exactly when they are names of one file. */
  lemma GroupsAreFiles(h: Hasher, fs: Fs, entries: seq<Entry>, i: nat, j: nat)
    requires Sound(fs) && IsScan(h, fs, entries) && i < |entries| && j < |entries|
    requires entries[i].kind.RegularFile? && entries[j].kind.RegularFile?
    ensures entries[i].name in fs.nodes && entries[j].name in fs.nodes
    ensures Group(entries[i]) == Group(entries[j]) <==> fs.nodes[entries[i].name] == fs.nodes[entries[j].name]
  {
    hide IsScan, FirstWith, Sound;
    GroupIsFirst(h, fs, entries, i);
    GroupIsFirst(h, fs, entries, j);
  }

  lemma MembersAreNames(h: Hasher, fs: Fs, entries: seq<Entry>, i: nat)
    requires Sound(fs) && IsScan(h, fs, entries) && i < |entries| && entries[i].kind.RegularFile?
    ensures entries[i].name in fs.nodes && fs.nodes[entries[i].name].File? && fs.nodes[entries[i].name].ino in fs.inodes
    ensures GroupMembers(entries, |entries|, Group(entries[i])) == NamesOf(fs, fs.nodes[entries[i].name].ino)
    ensures entries[i].links == fs.inodes[fs.nodes[entries[i].name].ino].nlink
  {
    hide PathLess, Chunker.Chunks, FirstWith;
    assert EntryOk(h, fs, entries, i);
    var ino := fs.nodes[entries[i].name].ino;
    forall q | q in NamesOf(fs, ino) ensures q in GroupMembers(entries, |entries|, Group(entries[i])) {
      assert q in fs.nodes.Keys;
      var k :| 0 <= k < |entries| && entries[k].name == q;
      assert EntryOk(h, fs, entries, k);
      GroupsAreFiles(h, fs, entries, i, k);
    }
    forall q | q in GroupMembers(entries, |entries|, Group(entries[i])) ensures q in NamesOf(fs, ino) {
      var k :| 0 <= k < |entries| && entries[k].kind.RegularFile? && Group(entries[k]) == Group(entries[i])
        && entries[k].name == q;
      GroupsAreFiles(h, fs, entries, i, k);
    }
  }

  /** The group check of a capture passes exactly when no file has a name outside the workspace. */
  lemma GroupCheckIsExact(h: Hasher, fs: Fs, entries: seq<Entry>)
    requires Sound(fs) && IsScan(h, fs, entries)
    ensures GroupsClosed(entries) <==> Contained(fs)
  {
    hide PathLess, EntryFor, FirstWith;
    if GroupsClosed(entries) {
      forall p | p in fs.nodes && fs.nodes[p].File? && fs.nodes[p].ino in fs.inodes
        ensures |NamesOf(fs, fs.nodes[p].ino)| == fs.inodes[fs.nodes[p].ino].nlink
      {
        assert p in fs.nodes.Keys;
        var i :| 0 <= i < |entries| && entries[i].name == p;
        ScannedKind(h, fs, entries, i);
        MembersAreNames(h, fs, entries, i);
      }
    }
    if Contained(fs) {
      forall i | 0 <= i < |entries| && entries[i].kind.RegularFile?
        ensures |GroupMembers(entries, |entries|, Group(entries[i]))| == entries[i].links
      {
        MembersAreNames(h, fs, entries, i);
      }
    }
  }

  lemma ScannedKind(h: Hasher, fs: Fs, entries: seq<Entry>, i: nat)
    requires IsScan(h, fs, entries) && i < |entries|
    ensures entries[i].name in fs.nodes
    ensures entries[i].kind.RegularFile? <==> fs.nodes[entries[i].name].File?
    ensures entries[i].kind.Directory? <==> fs.nodes[entries[i].name].Dir?
  {
    hide PathLess, Chunker.Chunks, FirstWith;
    assert EntryOk(h, fs, entries, i);
  }

  /** The chunk store has every chunk of the content. */
  ghost predicate Stored(h: Hasher, db: ChunkStore, content: seq<byte>) {
    forall k | 0 <= k < |Chunker.Chunks(content)| ::
      h(Chunker.Chunks(content)[k]) in db && db[h(Chunker.Chunks(content)[k])] == Chunker.Chunks(content)[k]
  }

  ghost predicate AllStored(h: Hasher, db: ChunkStore, fs: Fs) {
    forall p | p in fs.nodes && fs.nodes[p].File? && fs.nodes[p].ino in fs.inodes ::
      Stored(h, db, fs.inodes[fs.nodes[p].ino].content)
  }

  ghost predicate Extends(old_: ChunkStore, new_: ChunkStore) {
    forall id | id in old_ :: id in new_ && new_[id] == old_[id]
  }

  /** Whatever was added is filed under its own digest. */
  ghost predicate AddedUnderDigest(h: Hasher, db: ChunkStore, after: ChunkStore) {
    forall id | id in after && id !in db :: h(after[id]) == id
  }

  /** Something else is filed under the digest of one of the content's chunks. */
  ghost predicate Refused(h: Hasher, db: ChunkStore, content: seq<byte>) {
    exists k | 0 <= k < |Chunker.Chunks(content)| ::
      h(Chunker.Chunks(content)[k]) in db && db[h(Chunker.Chunks(content)[k])] != Chunker.Chunks(content)[k]
  }

  ghost predicate SomeRefused(h: Hasher, db: ChunkStore, fs: Fs) {
    exists p | p in fs.nodes && fs.nodes[p].File? && fs.nodes[p].ino in fs.inodes ::
      Refused(h, db, fs.inodes[fs.nodes[p].ino].content)
  }

  /** Stores a chunk, or compares it with the one stored under its digest. */
  method AddChunk(h: Hasher, db: ChunkStore, bytes: seq<byte>) returns (ok: bool, after: ChunkStore)
    ensures Extends(db, after) && AddedUnderDigest(h, db, after)
    ensures ok <==> h(bytes) in after && after[h(bytes)] == bytes
    ensures !ok ==> h(bytes) in after
    ensures ok <==> h(bytes) !in db || db[h(bytes)] == bytes
  {
    var id := h(bytes);
    if id in db {
      return db[id] == bytes, db;
    }
    return true, db[id := bytes];
  }

  method SaveContent(h: Hasher, db: ChunkStore, content: seq<byte>) returns (ok: bool, after: ChunkStore)
    ensures Extends(db, after) && AddedUnderDigest(h, db, after)
    ensures if ok then Stored(h, after, content) else Refused(h, after, content)
  {
    hide Chunker.Chunks;
    var stream := new Chunker.ChunkStream(content);
    var chunks := stream.AllChunks();
    after, ok := db, true;
    for i := 0 to |chunks|
      invariant Extends(db, after) && AddedUnderDigest(h, db, after)
      invariant forall k | 0 <= k < i :: h(chunks[k]) in after && after[h(chunks[k])] == chunks[k]
    {
      ok, after := AddChunk(h, after, chunks[i]);
      if !ok {
        return;
      }
    }
  }

  ghost predicate SavedSoFar(h: Hasher, db: ChunkStore, fs: Fs, entries: seq<Entry>, n: nat)
    requires n <= |entries|
  {
    forall k | 0 <= k < n && entries[k].name in fs.nodes && fs.nodes[entries[k].name].File?
               && fs.nodes[entries[k].name].ino in fs.inodes ::
      Stored(h, db, fs.inodes[fs.nodes[entries[k].name].ino].content)
  }

  lemma SavedStays(h: Hasher, db: ChunkStore, after: ChunkStore, fs: Fs, entries: seq<Entry>, n: nat)
    requires n <= |entries| && SavedSoFar(h, db, fs, entries, n) && Extends(db, after)
    ensures SavedSoFar(h, after, fs, entries, n)
  {
    hide Stored;
    forall k | 0 <= k < n && entries[k].name in fs.nodes && fs.nodes[entries[k].name].File?
               && fs.nodes[entries[k].name].ino in fs.inodes
      ensures Stored(h, after, fs.inodes[fs.nodes[entries[k].name].ino].content)
    {
      StaysStored(h, db, after, fs.inodes[fs.nodes[entries[k].name].ino].content);
    }
  }

  method SaveContents(h: Hasher, fs: Fs, db: ChunkStore, entries: seq<Entry>) returns (ok: bool, after: ChunkStore)
    requires Sound(fs) && IsScan(h, fs, entries)
    ensures Extends(db, after) && AddedUnderDigest(h, db, after)
    ensures if ok then AllStored(h, after, fs) else SomeRefused(h, after, fs)
  {
    hide IsScan, Stored, Refused, PathLess, Sound, Extends, AddedUnderDigest;
    after, ok := db, true;
    ExtendsItself(h, db);
    for i := 0 to |entries|
      invariant Extends(db, after) && AddedUnderDigest(h, db, after) && SavedSoFar(h, after, fs, entries, i)
    {
      ScannedKind(h, fs, entries, i);
      FileHasInode(fs, entries[i].name);
      if fs.nodes[entries[i].name].File? {
        ghost var before := after;
        ok, after := SaveContent(h, after, fs.inodes[fs.nodes[entries[i].name].ino].content);
        ExtendsTwice(h, db, before, after);
        if !ok {
          return;
        }
        SavedStays(h, before, after, fs, entries, i);
      }
    }
    EveryFileListed(h, fs, entries);
  }

  lemma ExtendsItself(h: Hasher, db: ChunkStore)
    ensures Extends(db, db) && AddedUnderDigest(h, db, db)
  {
  }

  lemma ExtendsTwice(h: Hasher, a: ChunkStore, b: ChunkStore, c: ChunkStore)
    requires Extends(a, b) && AddedUnderDigest(h, a, b) && Extends(b, c) && AddedUnderDigest(h, b, c)
    ensures Extends(a, c) && AddedUnderDigest(h, a, c)
  {
  }

  /** Saves all contents and lists the workspace. It fails only over a file with a name elsewhere, or a chunk whose
      digest is taken by something else. */
  method Capture(h: Hasher, fs: Fs, db: ChunkStore) returns (entries: Option<seq<Entry>>, after: ChunkStore)
    requires Sound(fs)
    ensures Extends(db, after) && AddedUnderDigest(h, db, after)
    ensures entries.Some? ==> IsScan(h, fs, entries.value) && Contained(fs) && AllStored(h, after, fs)
    ensures entries.None? ==> !Contained(fs) || SomeRefused(h, after, fs)
  {
    hide IsScan, AllStored, SomeRefused, Contained, Sound, GroupsClosed, Extends, AddedUnderDigest;
    var all := Scan(h, fs);
    var saved;
    saved, after := SaveContents(h, fs, db, all);
    if !saved {
      return None, after;
    }
    NamesDiffer(h, fs, all);
    GroupCheckIsExact(h, fs, all);
    var closed := CheckGroups(all);
    return if closed then Some(all) else None, after;
  }

  lemma NamesDiffer(h: Hasher, fs: Fs, entries: seq<Entry>)
    requires IsScan(h, fs, entries)
    ensures forall i, j | 0 <= i < j < |entries| :: entries[i].name != entries[j].name
  {
    hide PathLess;
    forall i, j | 0 <= i < j < |entries| ensures entries[i].name != entries[j].name {
      PathLessTotal(entries[i].name, entries[j].name);
    }
  }

  lemma StaysStored(h: Hasher, db: ChunkStore, after: ChunkStore, content: seq<byte>)
    requires Stored(h, db, content) && Extends(db, after)
    ensures Stored(h, after, content)
  {
    hide Chunker.Chunks;
  }

  lemma EveryFileListed(h: Hasher, fs: Fs, entries: seq<Entry>)
    requires IsScan(h, fs, entries)
    ensures forall p | p in fs.nodes :: exists k :: 0 <= k < |entries| && entries[k].name == p
  {
    hide PathLess, EntryOk;
    forall p | p in fs.nodes ensures exists k :: 0 <= k < |entries| && entries[k].name == p {
      assert p in fs.nodes.Keys;
    }
  }

  method CheckGroups(entries: seq<Entry>) returns (closed: bool)
    requires forall i, j | 0 <= i < j < |entries| :: entries[i].name != entries[j].name
    ensures closed <==> GroupsClosed(entries)
  {
    var groups: map<Path, nat> := map[];
    for i := 0 to |entries|
      invariant forall g ::
        (if g in groups then groups[g] else 0) == |GroupMembers(entries, i, g)|
    {
      MembersMore(entries, i);
      var e := entries[i];
      if e.kind.RegularFile? {
        groups := groups[Group(e) := (if Group(e) in groups then groups[Group(e)] else 0) + 1];
      }
    }
    for i := 0 to |entries|
      invariant forall k | 0 <= k < i && entries[k].kind.RegularFile? ::
        |GroupMembers(entries, |entries|, Group(entries[k]))| == entries[k].links
    {
      var e := entries[i];
      if e.kind.RegularFile? {
        var count := if Group(e) in groups then groups[Group(e)] else 0;
        if count != e.links {
          return false;
        }
      }
    }
    closed := true;
  }

  lemma MembersMore(entries: seq<Entry>, i: nat)
    requires i < |entries|
    requires forall i, j | 0 <= i < j < |entries| :: entries[i].name != entries[j].name
    ensures forall g ::
      |GroupMembers(entries, i + 1, g)| ==
        |GroupMembers(entries, i, g)| + (if entries[i].kind.RegularFile? && Group(entries[i]) == g then 1 else 0)
  {
    forall g ensures |GroupMembers(entries, i + 1, g)| == |GroupMembers(entries, i, g)|
      + (if entries[i].kind.RegularFile? && Group(entries[i]) == g then 1 else 0)
    {
      if entries[i].kind.RegularFile? && Group(entries[i]) == g {
        assert entries[i].name !in GroupMembers(entries, i, g);
        assert GroupMembers(entries, i + 1, g) == GroupMembers(entries, i, g) + {entries[i].name};
      } else {
        assert GroupMembers(entries, i + 1, g) == GroupMembers(entries, i, g);
      }
    }
  }
}
