/** Restoring a captured workspace (archive.rs): what is restored scans to exactly what was captured. */
module ArchiveRestore {
  import opened Bytes
  import Chunker
  import opened ArchiveScan
  import opened ArchiveCapture

  function Parent(p: Path): Path
    requires p != []
  {
    p[..|p| - 1]
  }

  // ---------- What a captured manifest looks like ----------

  /** The checks made before anything is created: the root first, every parent an earlier directory, every
      hard link to an earlier file, no path twice. */
  ghost predicate ValidStructure(entries: seq<Entry>) {
    && entries != [] && entries[0].name == [] && entries[0].kind.Directory?
    && (forall i | 0 < i < |entries| ::
          entries[i].name != [] && Earlier(entries, i, Parent(entries[i].name), Directory))
    && (forall i | 0 <= i < |entries| && entries[i].hardlink.Some? ::
          entries[i].kind.RegularFile? && Earlier(entries, i, entries[i].hardlink.value, RegularFile))
    && (forall i, j | 0 <= i < j < |entries| :: entries[i].name != entries[j].name)
  }

  ghost predicate Earlier(entries: seq<Entry>, i: nat, p: Path, kind: Kind)
    requires i <= |entries|
  {
    exists k :: 0 <= k < i && entries[k].name == p && entries[k].kind == kind
  }

  /** In a sorted list whatever is smaller comes earlier. */
  lemma SmallerIsEarlier(h: Hasher, fs: Fs, entries: seq<Entry>, i: nat, p: Path) returns (k: nat)
    requires IsScan(h, fs, entries) && i < |entries| && p in fs.nodes && PathLess(p, entries[i].name)
    ensures k < i && entries[k].name == p
  {
    hide PathLess, EntryOk;
    assert p in fs.nodes.Keys;
    var j :| 0 <= j < |entries| && entries[j].name == p;
    PathLessTotal(entries[i].name, entries[j].name);
    k := j;
  }

  lemma ParentIsEarlier(h: Hasher, fs: Fs, entries: seq<Entry>, i: nat)
    requires Sound(fs) && IsScan(h, fs, entries) && i < |entries| && entries[i].name != []
    ensures Earlier(entries, i, Parent(entries[i].name), Directory)
    ensures entries[i].name in fs.nodes && Parent(entries[i].name) in fs.nodes && fs.nodes[Parent(entries[i].name)].Dir?
  {
    hide PathLess, EntryOk, Sound, IsScan;
    var p := entries[i].name;
    ScannedKind(h, fs, entries, i);
    ParentThere(fs, p);
    assert p == Parent(p) + [p[|p| - 1]];
    ParentIsLess(Parent(p), [p[|p| - 1]]);
    var k := SmallerIsEarlier(h, fs, entries, i, Parent(p));
    ScannedKind(h, fs, entries, k);
  }

  lemma ParentThere(fs: Fs, p: Path)
    requires Sound(fs) && p in fs.nodes && p != []
    ensures Parent(p) in fs.nodes && fs.nodes[Parent(p)].Dir?
  {
  }

  lemma TargetIsEarlier(h: Hasher, fs: Fs, entries: seq<Entry>, i: nat)
    requires Sound(fs) && IsScan(h, fs, entries) && i < |entries| && entries[i].hardlink.Some?
    ensures entries[i].kind.RegularFile? && Earlier(entries, i, entries[i].hardlink.value, RegularFile)
    ensures entries[i].name in fs.nodes && entries[i].hardlink.value in fs.nodes
    ensures fs.nodes[entries[i].name].File? && fs.nodes[entries[i].hardlink.value] == fs.nodes[entries[i].name]
  {
    hide PathLess, FirstWith, Chunker.Chunks;
    assert EntryOk(h, fs, entries, i);
    var k :| 0 <= k < i && entries[..i][k].name == entries[i].hardlink.value;
    ScannedKind(h, fs, entries, k);
  }

  /** Everything a capture lists passes the structural checks of a restore. */
  lemma CapturedIsValid(h: Hasher, fs: Fs, entries: seq<Entry>)
    requires Sound(fs) && IsScan(h, fs, entries)
    ensures ValidStructure(entries)
  {
    hide PathLess, EntryOk, Earlier;
    NamesDiffer(h, fs, entries);
    RootIsFirst(h, fs, entries);
    forall i | 0 < i < |entries|
      ensures entries[i].name != [] && Earlier(entries, i, Parent(entries[i].name), Directory)
    {
      assert entries[0].name != entries[i].name;
      ParentIsEarlier(h, fs, entries, i);
    }
    forall i | 0 <= i < |entries| && entries[i].hardlink.Some?
      ensures entries[i].kind.RegularFile? && Earlier(entries, i, entries[i].hardlink.value, RegularFile)
    {
      TargetIsEarlier(h, fs, entries, i);
    }
  }

  lemma RootIsFirst(h: Hasher, fs: Fs, entries: seq<Entry>)
    requires Sound(fs) && IsScan(h, fs, entries)
    ensures entries != [] && entries[0].name == [] && entries[0].kind.Directory?
  {
    hide EntryOk;
    var root: Path := [];
    assert root in fs.nodes.Keys;
    var k :| 0 <= k < |entries| && entries[k].name == root;
    ScannedKind(h, fs, entries, 0);
  }

  // ---------- The file system below the temporary root ----------

  function MetaAt(fs: Fs, p: Path): Meta
    requires p in fs.nodes && (fs.nodes[p].File? ==> fs.nodes[p].ino in fs.inodes)
  {
    match fs.nodes[p] case Dir(m) => m case Symlink(m, _) => m case File(ino) => fs.inodes[ino].meta
  }

  function WithMeta(fs: Fs, p: Path, meta: Meta): Fs
    requires p in fs.nodes && (fs.nodes[p].File? ==> fs.nodes[p].ino in fs.inodes)
  {
    match fs.nodes[p]
    case Dir(_) => fs.(nodes := fs.nodes[p := Dir(meta)])
    case Symlink(_, target) => fs.(nodes := fs.nodes[p := Symlink(meta, target)])
    case File(ino) => fs.(inodes := fs.inodes[ino := fs.inodes[ino].(meta := meta)])
  }

  /** A new name changes the times of the directory that holds it. */
  function Named(fs: Fs, p: Path, node: Node, now: int): map<Path, Node>
    requires p != [] && Parent(p) in fs.nodes && fs.nodes[Parent(p)].Dir?
  {
    fs.nodes[Parent(p) := Dir(fs.nodes[Parent(p)].meta.(secs := now, nanos := 0))][p := node]
  }

  function MakeFile(fs: Fs, p: Path, ino: nat, meta: Meta, content: seq<byte>, now: int): Fs
    requires p != [] && Parent(p) in fs.nodes && fs.nodes[Parent(p)].Dir?
  {
    Fs(Named(fs, p, File(ino), now), fs.inodes[ino := Inode(meta, content, 1)])
  }

  function MakeHardLink(fs: Fs, original: Path, p: Path, now: int): Fs
    requires p != [] && Parent(p) in fs.nodes && fs.nodes[Parent(p)].Dir?
    requires original in fs.nodes && fs.nodes[original].File? && fs.nodes[original].ino in fs.inodes
  {
    var ino := fs.nodes[original].ino;
    Fs(Named(fs, p, File(ino), now), fs.inodes[ino := fs.inodes[ino].(nlink := fs.inodes[ino].nlink + 1)])
  }

  // ---------- What has been rebuilt so far ----------

  predicate SameNode(source: Fs, copy: Fs, p: Path)
    requires p in source.nodes && p in copy.nodes
  {
    match (source.nodes[p], copy.nodes[p])
    case (Dir(_), Dir(_)) => true
    case (Symlink(_, a), Symlink(m, b)) => a == b && m.mode == LINK_MODE
    case (File(a), File(b)) =>
      a in source.inodes && b in copy.inodes && source.inodes[a].content == copy.inodes[b].content
    case _ => false
  }

  /** The link count of the file at a path. */
  function LinksAt(fs: Fs, p: Path): nat {
    if p in fs.nodes && fs.nodes[p].File? && fs.nodes[p].ino in fs.inodes then fs.inodes[fs.nodes[p].ino].nlink else 0
  }

  /** The copy has these paths, of the right kinds and contents, and its files have their names in common
      as in the source. */
  ghost predicate Mirrors(source: Fs, copy: Fs, done: set<Path>) {
    && copy.nodes.Keys == done && done <= source.nodes.Keys
    && (forall p | p in done :: SameNode(source, copy, p))
    && (forall p, q | p in done && q in done && source.nodes[p].File? && source.nodes[q].File? ::
          source.nodes[p] == source.nodes[q] <==> copy.nodes[p] == copy.nodes[q])
    && (forall p | p in done && source.nodes[p].File? ::
          LinksAt(copy, p) == |NamesOf(source, source.nodes[p].ino) * done|)
  }

  ghost predicate Numbered(fs: Fs, next: nat) {
    (forall ino | ino in fs.inodes :: ino < next)
    && forall p | p in fs.nodes && fs.nodes[p].File? :: fs.nodes[p].ino in fs.inodes
  }

  lemma OthersKept(source: Fs, copy: Fs, done: set<Path>, p: Path, node: Node, now: int, q: Path)
    requires Mirrors(source, copy, done) && p !in done && p != [] && p in source.nodes
    requires Parent(p) in done && source.nodes[Parent(p)].Dir?
    requires q in done
    ensures copy.nodes[Parent(p)].Dir?
    ensures q in Named(copy, p, node, now) && q != p
    ensures !copy.nodes[q].Dir? ==> Named(copy, p, node, now)[q] == copy.nodes[q]
    ensures copy.nodes[q].Dir? <==> Named(copy, p, node, now)[q].Dir?
  {
    assert SameNode(source, copy, Parent(p));
  }

  /** What it takes for one more path to be mirrored. */
  lemma OneMoreMirrored(source: Fs, copy: Fs, after: Fs, done: set<Path>, p: Path)
    requires Mirrors(source, copy, done) && p !in done && p in source.nodes && source.nodes[p].File?
    requires after.nodes.Keys == done + {p}
    requires copy.nodes.Keys == done && done <= source.nodes.Keys
    requires forall q | q in done :: SameNode(source, after, q) && (source.nodes[q].File? ==> after.nodes[q] == copy.nodes[q])
    requires SameNode(source, after, p)
    requires forall q | q in done && source.nodes[q].File? ::
      after.nodes[q] == after.nodes[p] <==> source.nodes[q] == source.nodes[p]
    requires forall q | q in done + {p} && source.nodes[q].File? ::
      LinksAt(after, q) == |NamesOf(source, source.nodes[q].ino) * (done + {p})|
    ensures Mirrors(source, after, done + {p})
  {
    hide SameNode, NamesOf;
  }

  /** Whatever is created at `p`, the paths mirrored so far stay the same nodes. */
  lemma StillSame(source: Fs, copy: Fs, after: Fs, done: set<Path>, p: Path, node: Node, now: int, q: Path)
    requires Mirrors(source, copy, done) && p !in done && p != [] && p in source.nodes
    requires Parent(p) in done && source.nodes[Parent(p)].Dir? && q in done
    requires copy.nodes[Parent(p)].Dir? && after.nodes == Named(copy, p, node, now)
    requires forall ino | ino in copy.inodes :: ino in after.inodes && after.inodes[ino].content == copy.inodes[ino].content
    ensures SameNode(source, after, q) && (source.nodes[q].File? ==> after.nodes[q] == copy.nodes[q])
  {
    assert SameNode(source, copy, q);
    OthersKept(source, copy, done, p, node, now, q);
  }

  lemma ParentIsDirectory(source: Fs, copy: Fs, done: set<Path>, p: Path)
    requires Mirrors(source, copy, done) && p in done && source.nodes[p].Dir?
    ensures p in copy.nodes && copy.nodes[p].Dir?
  {
    assert SameNode(source, copy, p);
  }

  lemma FileIsNumbered(source: Fs, copy: Fs, done: set<Path>, q: Path)
    requires Mirrors(source, copy, done) && q in done && source.nodes[q].File?
    ensures q in copy.nodes && copy.nodes[q].File? && copy.nodes[q].ino in copy.inodes
    ensures LinksAt(copy, q) == |NamesOf(source, source.nodes[q].ino) * done|
  {
    assert SameNode(source, copy, q);
  }

  /** A new path leaves the count of another file's names alone. */
  lemma OtherNames(source: Fs, done: set<Path>, p: Path, ino: nat)
    requires p in source.nodes && source.nodes[p] != File(ino)
    ensures NamesOf(source, ino) * (done + {p}) == NamesOf(source, ino) * done
  {
  }

  /** A new file neither is nor changes an old one. */
  lemma OldFileKept(source: Fs, copy: Fs, after: Fs, done: set<Path>, p: Path, next: nat, q: Path)
    requires Mirrors(source, copy, done) && Numbered(copy, next) && q in done && q in source.nodes && source.nodes[q].File?
    requires p in source.nodes && source.nodes[p] != source.nodes[q]
    requires q in copy.nodes && q in after.nodes && after.nodes[q] == copy.nodes[q]
    requires p in after.nodes && after.nodes[p] == File(next)
    requires forall ino | ino in copy.inodes && ino != next :: ino in after.inodes && after.inodes[ino] == copy.inodes[ino]
    ensures after.nodes[q] != after.nodes[p]
    ensures LinksAt(after, q) == |NamesOf(source, source.nodes[q].ino) * (done + {p})|
  {
    hide Mirrors, NamesOf;
    NamedInSource(source, copy, done);
    FileIsNumbered(source, copy, done, q);
    OtherNames(source, done, p, source.nodes[q].ino);
  }

  lemma OneLink(after: Fs, p: Path, next: nat)
    requires p in after.nodes && after.nodes[p] == File(next) && next in after.inodes && after.inodes[next].nlink == 1
    ensures LinksAt(after, p) == 1
  {
  }

  lemma NewFileSame(source: Fs, after: Fs, p: Path)
    requires p in source.nodes && source.nodes[p].File? && source.nodes[p].ino in source.inodes
    requires p in after.nodes && after.nodes[p].File? && after.nodes[p].ino in after.inodes
    requires after.inodes[after.nodes[p].ino].content == source.inodes[source.nodes[p].ino].content
    ensures SameNode(source, after, p)
  {
  }

  lemma MadeIsNumbered(copy: Fs, p: Path, next: nat, meta: Meta, content: seq<byte>, now: int)
    requires Numbered(copy, next) && p != [] && Parent(p) in copy.nodes && copy.nodes[Parent(p)].Dir?
    ensures Numbered(MakeFile(copy, p, next, meta, content, now), next + 1)
  {
  }

  lemma FileMirrors(
      source: Fs, copy: Fs, done: set<Path>, p: Path, next: nat, meta: Meta, content: seq<byte>, now: int)
    requires Mirrors(source, copy, done) && Numbered(copy, next) && p !in done && p != [] && p in source.nodes
    requires Parent(p) in done && source.nodes[Parent(p)].Dir?
    requires source.nodes[p].File? && source.nodes[p].ino in source.inodes
    requires source.inodes[source.nodes[p].ino].content == content
    requires forall q | q in done && q in source.nodes :: source.nodes[q] != source.nodes[p]
    ensures Parent(p) in copy.nodes && copy.nodes[Parent(p)].Dir?
    ensures Mirrors(source, MakeFile(copy, p, next, meta, content, now), done + {p})
    ensures Numbered(MakeFile(copy, p, next, meta, content, now), next + 1)
  {
    hide Mirrors, NamesOf, SameNode, LinksAt;
    ParentIsDirectory(source, copy, done, Parent(p));
    MadeIsNumbered(copy, p, next, meta, content, now);
    hide Numbered;
    NamedInSource(source, copy, done);
    var after := MakeFile(copy, p, next, meta, content, now);
    NewFileSame(source, after, p);
    OneLink(after, p, next);
    forall q | q in done
      ensures SameNode(source, after, q) && (source.nodes[q].File? ==> after.nodes[q] == copy.nodes[q])
    {
      StillSame(source, copy, after, done, p, File(next), now, q);
    }
    forall q | q in done && source.nodes[q].File?
      ensures after.nodes[q] != after.nodes[p]
      ensures LinksAt(after, q) == |NamesOf(source, source.nodes[q].ino) * (done + {p})|
    {
      OldFileKept(source, copy, after, done, p, next, q);
    }
    OnlyNameSoFar(source, done, p);
    OneMoreMirrored(source, copy, after, done, p);
  }

  /** A directory or a symbolic link shares no file. */
  lemma OneMoreNode(source: Fs, copy: Fs, after: Fs, done: set<Path>, p: Path)
    requires Mirrors(source, copy, done) && p !in done && p in source.nodes && !source.nodes[p].File?
    requires copy.nodes.Keys == done && done <= source.nodes.Keys && after.nodes.Keys == done + {p}
    requires forall q | q in done :: SameNode(source, after, q) && (source.nodes[q].File? ==> after.nodes[q] == copy.nodes[q])
    requires SameNode(source, after, p)
    requires forall q | q in done && source.nodes[q].File? ::
      LinksAt(after, q) == |NamesOf(source, source.nodes[q].ino) * (done + {p})|
    ensures Mirrors(source, after, done + {p})
  {
    hide SameNode, NamesOf, LinksAt;
  }

  /** Creating a directory or a symbolic link. */
  lemma NodeMirrors(source: Fs, copy: Fs, done: set<Path>, p: Path, node: Node, now: int)
    requires Mirrors(source, copy, done) && p !in done && p != [] && p in source.nodes
    requires Parent(p) in done && source.nodes[Parent(p)].Dir?
    requires !source.nodes[p].File? && !node.File?
    requires source.nodes[p].Dir? ==> node.Dir?
    requires source.nodes[p].Symlink? ==> node.Symlink? && node.target == source.nodes[p].target && node.meta.mode == LINK_MODE
    ensures Parent(p) in copy.nodes && copy.nodes[Parent(p)].Dir?
    ensures Mirrors(source, copy.(nodes := Named(copy, p, node, now)), done + {p})
  {
    hide Mirrors, NamesOf;
    ParentIsDirectory(source, copy, done, Parent(p));
    NamedInSource(source, copy, done);
    var after := copy.(nodes := Named(copy, p, node, now));
    forall q | q in done
      ensures SameNode(source, after, q) && (source.nodes[q].File? ==> after.nodes[q] == copy.nodes[q])
    {
      StillSame(source, copy, after, done, p, node, now, q);
    }
    forall q | q in done && source.nodes[q].File?
      ensures LinksAt(after, q) == |NamesOf(source, source.nodes[q].ino) * (done + {p})|
    {
      FileIsNumbered(source, copy, done, q);
      OtherNames(source, done, p, source.nodes[q].ino);
    }
    OneMoreNode(source, copy, after, done, p);
  }

  lemma OnlyNameSoFar(source: Fs, done: set<Path>, p: Path)
    requires p in source.nodes && source.nodes[p].File?
    requires forall q | q in done && q in source.nodes :: source.nodes[q] != source.nodes[p]
    ensures |NamesOf(source, source.nodes[p].ino) * (done + {p})| == 1
  {
    assert NamesOf(source, source.nodes[p].ino) * (done + {p}) == {p};
  }

  lemma HardLinkMirrors(source: Fs, copy: Fs, done: set<Path>, p: Path, original: Path, next: nat, now: int)
    requires Mirrors(source, copy, done) && Numbered(copy, next) && p !in done && p != [] && p in source.nodes
    requires Parent(p) in done && source.nodes[Parent(p)].Dir?
    requires source.nodes[p].File? && original in done && original in source.nodes && source.nodes[original] == source.nodes[p]
    ensures Parent(p) in copy.nodes && copy.nodes[Parent(p)].Dir?
    ensures original in copy.nodes && copy.nodes[original].File? && copy.nodes[original].ino in copy.inodes
    ensures Mirrors(source, MakeHardLink(copy, original, p, now), done + {p})
    ensures Numbered(MakeHardLink(copy, original, p, now), next)
  {
    hide Mirrors, NamesOf;
    ParentIsDirectory(source, copy, done, Parent(p));
    NamedInSource(source, copy, done);
    FileIsNumbered(source, copy, done, original);
    var ino := copy.nodes[original].ino;
    var after := MakeHardLink(copy, original, p, now);
    forall q | q in done
      ensures SameNode(source, after, q) && (source.nodes[q].File? ==> after.nodes[q] == copy.nodes[q])
    {
      StillSame(source, copy, after, done, p, File(ino), now, q);
    }
    OneMoreName(source, done, p);
    forall q | q in done && source.nodes[q].File?
      ensures after.nodes[q] == after.nodes[p] <==> source.nodes[q] == source.nodes[p]
      ensures LinksAt(after, q) == |NamesOf(source, source.nodes[q].ino) * (done + {p})|
    {
      FileIsNumbered(source, copy, done, q);
      SameFileIff(source, copy, done, q, original);
      if source.nodes[q] != source.nodes[p] {
        OtherNames(source, done, p, source.nodes[q].ino);
      }
    }
    OneMoreMirrored(source, copy, after, done, p);
  }

  lemma SameFileIff(source: Fs, copy: Fs, done: set<Path>, p: Path, q: Path)
    requires Mirrors(source, copy, done) && p in done && q in done && source.nodes[p].File? && source.nodes[q].File?
    ensures source.nodes[p] == source.nodes[q] <==> copy.nodes[p] == copy.nodes[q]
  {
  }

  lemma OneMoreName(source: Fs, done: set<Path>, p: Path)
    requires p in source.nodes && source.nodes[p].File? && p !in done
    ensures |NamesOf(source, source.nodes[p].ino) * (done + {p})| == |NamesOf(source, source.nodes[p].ino) * done| + 1
  {
    var names := NamesOf(source, source.nodes[p].ino);
    assert names * (done + {p}) == names * done + {p};
  }

  // ---------- The creation pass ----------

  function NamesTo(entries: seq<Entry>, n: nat): set<Path>
    requires n <= |entries|
  {
    set k | 0 <= k < n :: entries[k].name
  }

  /** What the archive holds of a workspace. */
  ghost predicate Archived(h: Hasher, source: Fs, entries: seq<Entry>, db: ChunkStore) {
    Sound(source) && Contained(source) && IsScan(h, source, entries) && AllStored(h, db, source)
  }

  /** Reads the chunks of a file back. */
  method ReadContent(h: Hasher, db: ChunkStore, chunks: seq<Digest>, ghost content: seq<byte>) returns (read: seq<byte>)
    requires Stored(h, db, content) && chunks == ChunkIds(h, Chunker.Chunks(content))
    ensures read == content
  {
    hide Chunker.Chunks;
    ghost var all := Chunker.Chunks(content);
    read := [];
    Chunker.ChunksRebuild(content);
    for i := 0 to |chunks|
      invariant read + Joined(all[i..]) == content
    {
      assert all[i..][1..] == all[i + 1..];
      Regroup(read, all[i], Joined(all[i + 1..]));
      read := read + db[chunks[i]];
    }
    assert all[|chunks|..] == [];
  }

  /** What the capture says about the next entry. */
  lemma EntryFacts(h: Hasher, source: Fs, entries: seq<Entry>, i: nat)
    requires Sound(source) && IsScan(h, source, entries) && i < |entries|
    ensures var e := entries[i];
      && e.name in source.nodes && e.name !in NamesTo(entries, i)
      && (e.name != [] ==> Parent(e.name) in NamesTo(entries, i) && source.nodes[Parent(e.name)].Dir?)
      && (e.name == [] ==> i == 0)
      && match source.nodes[e.name]
         case Dir(m) => e.kind.Directory? && e.meta == m
         case Symlink(m, target) => e.kind.Link? && e.meta == m && e.link == target && m.mode == LINK_MODE
         case File(ino) =>
           && e.kind.RegularFile? && ino in source.inodes && e.meta == source.inodes[ino].meta
           && e.size == |source.inodes[ino].content|
           && e.chunks == ChunkIds(h, Chunker.Chunks(source.inodes[ino].content))
  {
    hide PathLess, FirstWith, Chunker.Chunks, Earlier;
    assert EntryOk(h, source, entries, i);
    CapturedIsValid(h, source, entries);
    if entries[i].name != [] {
      ParentIsEarlier(h, source, entries, i);
      EarlierIsNamed(entries, i, Parent(entries[i].name), Directory);
    }
  }

  lemma EarlierIsNamed(entries: seq<Entry>, i: nat, p: Path, kind: Kind)
    requires i <= |entries| && Earlier(entries, i, p, kind)
    ensures p in NamesTo(entries, i)
  {
  }

  /** A file without a hard link target has no earlier name; one with a target names the same file. */
  lemma LinkFacts(h: Hasher, source: Fs, entries: seq<Entry>, i: nat)
    requires Sound(source) && IsScan(h, source, entries) && i < |entries|
    requires entries[i].name in source.nodes && source.nodes[entries[i].name].File?
    ensures match entries[i].hardlink
      case Some(target) =>
        && target in NamesTo(entries, i) && target in source.nodes
        && source.nodes[target] == source.nodes[entries[i].name]
      case None =>
        forall q | q in NamesTo(entries, i) && q in source.nodes :: source.nodes[q] != source.nodes[entries[i].name]
  {
    hide PathLess, FirstWith, Chunker.Chunks, Earlier;
    assert EntryOk(h, source, entries, i);
    if entries[i].hardlink.Some? {
      TargetIsEarlier(h, source, entries, i);
      EarlierIsNamed(entries, i, entries[i].hardlink.value, RegularFile);
    } else {
      NamesDiffer(h, source, entries);
      var ino := source.nodes[entries[i].name].ino;
      forall q | q in NamesTo(entries, i) && q in source.nodes ensures source.nodes[q] != File(ino) {
        var k :| 0 <= k < i && entries[k].name == q;
        assert entries[..i][k].name == q;
        if source.nodes[q] == File(ino) && source.inodes[ino].nlink <= 1 {
          OnlyName(source, q, entries[i].name, ino);
        }
      }
    }
  }

  /** Creates a directory or a symbolic link; `given` is whatever metadata the file system gives new names. */
  method CreateNode(
      h: Hasher, ghost source: Fs, entries: seq<Entry>, i: nat, copy: Fs, next: nat, given: Meta, now: int)
    returns (after: Fs)
    requires Sound(source) && IsScan(h, source, entries) && 0 < i < |entries| && !entries[i].kind.RegularFile?
    requires Mirrors(source, copy, NamesTo(entries, i)) && Numbered(copy, next)
    ensures Mirrors(source, after, NamesTo(entries, i + 1)) && Numbered(after, next)
  {
    hide Sound, IsScan, Mirrors, Numbered, Named, Chunker.Chunks;
    var e := entries[i];
    EntryFacts(h, source, entries, i);
    NamesGrow(entries, i);
    ghost var done := NamesTo(entries, i);
    ParentIsDirectory(source, copy, done, Parent(e.name));
    var node := if e.kind.Directory? then Dir(given) else Symlink(given.(mode := LINK_MODE), e.link);
    NodeMirrors(source, copy, done, e.name, node, now);
    NumberedKept(source, copy, next, done, e.name, node, now);
    after := copy.(nodes := Named(copy, e.name, node, now));
  }

  method CreateHardLink(
      h: Hasher, ghost source: Fs, entries: seq<Entry>, i: nat, copy: Fs, next: nat, now: int)
    returns (after: Fs)
    requires Sound(source) && IsScan(h, source, entries) && 0 < i < |entries| && entries[i].hardlink.Some?
    requires Mirrors(source, copy, NamesTo(entries, i)) && Numbered(copy, next)
    ensures Mirrors(source, after, NamesTo(entries, i + 1)) && Numbered(after, next)
  {
    hide Sound, IsScan, Mirrors, Numbered, MakeHardLink, Chunker.Chunks;
    var e := entries[i];
    EntryFacts(h, source, entries, i);
    TargetIsEarlier(h, source, entries, i);
    LinkFacts(h, source, entries, i);
    NamesGrow(entries, i);
    HardLinkMirrors(source, copy, NamesTo(entries, i), e.name, e.hardlink.value, next, now);
    after := MakeHardLink(copy, e.hardlink.value, e.name, now);
  }

  method CreateFile(
      h: Hasher, ghost source: Fs, entries: seq<Entry>, i: nat, db: ChunkStore, copy: Fs, next: nat, given: Meta, now: int)
    returns (after: Fs)
    requires Archived(h, source, entries, db) && 0 < i < |entries|
    requires entries[i].kind.RegularFile? && entries[i].hardlink.None?
    requires Mirrors(source, copy, NamesTo(entries, i)) && Numbered(copy, next)
    ensures Mirrors(source, after, NamesTo(entries, i + 1)) && Numbered(after, next + 1)
  {
    hide Sound, IsScan, AllStored, Contained, Mirrors, Numbered, MakeFile, Chunker.Chunks, Stored;
    var e := entries[i];
    EntryFacts(h, source, entries, i);
    LinkFacts(h, source, entries, i);
    NamesGrow(entries, i);
    StoredAt(h, db, source, e.name);
    var content := ReadContent(h, db, e.chunks, source.inodes[source.nodes[e.name].ino].content);
    FileMirrors(source, copy, NamesTo(entries, i), e.name, next, given, content, now);
    after := MakeFile(copy, e.name, next, given, content, now);
  }

  /** Creates one entry. */
  method CreateEntry(
      h: Hasher, ghost source: Fs, entries: seq<Entry>, i: nat, db: ChunkStore, copy: Fs, next: nat, given: Meta, now: int)
    returns (after: Fs, next': nat)
    requires Archived(h, source, entries, db) && 0 < i < |entries|
    requires Mirrors(source, copy, NamesTo(entries, i)) && Numbered(copy, next)
    ensures Mirrors(source, after, NamesTo(entries, i + 1)) && Numbered(after, next')
  {
    hide Sound, IsScan, AllStored, Contained, Mirrors, Numbered;
    var e := entries[i];
    if !e.kind.RegularFile? {
      after := CreateNode(h, source, entries, i, copy, next, given, now);
      next' := next;
    } else if e.hardlink.Some? {
      after := CreateHardLink(h, source, entries, i, copy, next, now);
      next' := next;
    } else {
      after := CreateFile(h, source, entries, i, db, copy, next, given, now);
      next' := next + 1;
    }
  }

  lemma StoredAt(h: Hasher, db: ChunkStore, source: Fs, p: Path)
    requires AllStored(h, db, source) && p in source.nodes && source.nodes[p].File? && source.nodes[p].ino in source.inodes
    ensures Stored(h, db, source.inodes[source.nodes[p].ino].content)
  {
    hide Stored;
  }

  lemma NamedInSource(source: Fs, copy: Fs, done: set<Path>)
    requires Mirrors(source, copy, done)
    ensures done <= source.nodes.Keys && copy.nodes.Keys == done
  {
  }

  lemma NamesGrow(entries: seq<Entry>, i: nat)
    requires i < |entries|
    ensures NamesTo(entries, i + 1) == NamesTo(entries, i) + {entries[i].name}
  {
  }

  lemma NumberedKept(source: Fs, copy: Fs, next: nat, done: set<Path>, p: Path, node: Node, now: int)
    requires Mirrors(source, copy, done) && Numbered(copy, next) && p != [] && Parent(p) in done && source.nodes[Parent(p)].Dir?
    requires !node.File?
    ensures copy.nodes[Parent(p)].Dir?
    ensures Numbered(copy.(nodes := Named(copy, p, node, now)), next)
  {
    assert SameNode(source, copy, Parent(p));
  }

  // ---------- The attribute passes ----------

  /** Metadata can be set without disturbing what mirrors the source. */
  lemma MetaKeepsMirror(source: Fs, copy: Fs, done: set<Path>, p: Path, meta: Meta)
    requires Mirrors(source, copy, done) && p in done
    requires source.nodes[p].Symlink? ==> meta.mode == LINK_MODE
    ensures copy.nodes[p].File? ==> copy.nodes[p].ino in copy.inodes
    ensures Mirrors(source, WithMeta(copy, p, meta), done)
  {
    assert SameNode(source, copy, p);
    var after := WithMeta(copy, p, meta);
    forall q | q in done ensures SameNode(source, after, q) && !(source.nodes[q].File? && after.nodes[q] != copy.nodes[q]) {
      assert SameNode(source, copy, q);
    }
  }

  /** Another path's metadata changes only together with that of another name of the same file. */
  lemma MetaElsewhere(source: Fs, copy: Fs, done: set<Path>, p: Path, meta: Meta, q: Path)
    requires Mirrors(source, copy, done) && p in done && q in done
    ensures copy.nodes[p].File? ==> copy.nodes[p].ino in copy.inodes
    ensures copy.nodes[q].File? ==> copy.nodes[q].ino in copy.inodes
    ensures q in WithMeta(copy, p, meta).nodes
    ensures WithMeta(copy, p, meta).nodes[q].File? ==> WithMeta(copy, p, meta).nodes[q].ino in WithMeta(copy, p, meta).inodes
    ensures MetaAt(WithMeta(copy, p, meta), q) ==
      if q == p || (source.nodes[p].File? && source.nodes[q] == source.nodes[p]) then meta else MetaAt(copy, q)
  {
    assert SameNode(source, copy, p) && SameNode(source, copy, q);
  }

  ghost predicate AttrsSet(h: Hasher, source: Fs, copy: Fs, entries: seq<Entry>, from: nat)
    requires Mirrors(source, copy, source.nodes.Keys) && from <= |entries|
  {
    forall k | from <= k < |entries| :: HasMeta(copy, entries[k].name) && MetaAt(copy, entries[k].name).attrs == entries[k].meta.attrs
  }

  ghost predicate AllSet(h: Hasher, source: Fs, copy: Fs, entries: seq<Entry>, from: nat)
    requires Mirrors(source, copy, source.nodes.Keys) && from <= |entries|
  {
    forall k | from <= k < |entries| :: HasMeta(copy, entries[k].name) && MetaAt(copy, entries[k].name) == entries[k].meta
  }

  predicate HasMeta(fs: Fs, p: Path) {
    p in fs.nodes && (fs.nodes[p].File? ==> fs.nodes[p].ino in fs.inodes)
  }

  lemma EntryMeta(h: Hasher, source: Fs, entries: seq<Entry>, k: nat)
    requires Sound(source) && IsScan(h, source, entries) && k < |entries|
    ensures HasMeta(source, entries[k].name) && entries[k].meta == MetaAt(source, entries[k].name)
    ensures source.nodes[entries[k].name].Symlink? <==> entries[k].kind.Link?
    ensures entries[k].kind.Link? ==> entries[k].meta.mode == LINK_MODE
  {
    hide FirstWith, Chunker.Chunks, PathLess;
    assert EntryOk(h, source, entries, k);
  }

  lemma CopyHasMeta(source: Fs, copy: Fs, p: Path)
    requires Mirrors(source, copy, source.nodes.Keys) && p in source.nodes
    ensures HasMeta(copy, p)
  {
    assert SameNode(source, copy, p);
  }

  method SetAttributes(h: Hasher, ghost source: Fs, entries: seq<Entry>, copy: Fs) returns (after: Fs)
    requires Sound(source) && IsScan(h, source, entries) && Mirrors(source, copy, source.nodes.Keys)
    ensures Mirrors(source, after, source.nodes.Keys) && AttrsSet(h, source, after, entries, 0)
  {
    hide Sound, IsScan, Mirrors, WithMeta, MetaAt;
    after := copy;
    for i := |entries| downto 0
      invariant Mirrors(source, after, source.nodes.Keys) && AttrsSet(h, source, after, entries, i)
    {
      var p := entries[i].name;
      EntryMeta(h, source, entries, i);
      AttributeStep(h, source, after, entries, i);
      after := WithMeta(after, p, MetaAt(after, p).(attrs := entries[i].meta.attrs));
    }
  }

  lemma AttributeStep(h: Hasher, source: Fs, copy: Fs, entries: seq<Entry>, i: nat)
    requires Sound(source) && IsScan(h, source, entries) && i < |entries|
    requires Mirrors(source, copy, source.nodes.Keys) && AttrsSet(h, source, copy, entries, i + 1)
    ensures HasMeta(copy, entries[i].name)
    ensures var after := WithMeta(copy, entries[i].name, MetaAt(copy, entries[i].name).(attrs := entries[i].meta.attrs));
            Mirrors(source, after, source.nodes.Keys) && AttrsSet(h, source, after, entries, i)
  {
    hide Sound, IsScan, Mirrors, WithMeta;
    var p := entries[i].name;
    EntryMeta(h, source, entries, i);
    CopyHasMeta(source, copy, p);
    LinkKeepsMode(source, copy, p);
    var meta := MetaAt(copy, p).(attrs := entries[i].meta.attrs);
    MetaKeepsMirror(source, copy, source.nodes.Keys, p, meta);
    var after := WithMeta(copy, p, meta);
    forall k | i <= k < |entries|
      ensures HasMeta(after, entries[k].name) && MetaAt(after, entries[k].name).attrs == entries[k].meta.attrs
    {
      EntryMeta(h, source, entries, k);
      MetaElsewhere(source, copy, source.nodes.Keys, p, meta, entries[k].name);
    }
  }

  lemma LinkKeepsMode(source: Fs, copy: Fs, p: Path)
    requires Mirrors(source, copy, source.nodes.Keys) && p in source.nodes
    ensures HasMeta(copy, p) && (source.nodes[p].Symlink? ==> MetaAt(copy, p).mode == LINK_MODE)
  {
    assert SameNode(source, copy, p);
  }

  /** Permissions, except of symbolic links, and times. */
  function Finished(current: Meta, e: Entry): Meta {
    Meta(if e.kind.Link? then current.mode else e.meta.mode, e.meta.secs, e.meta.nanos, current.attrs)
  }

  method SetModesAndTimes(h: Hasher, ghost source: Fs, entries: seq<Entry>, copy: Fs) returns (after: Fs)
    requires Sound(source) && IsScan(h, source, entries) && Mirrors(source, copy, source.nodes.Keys)
    requires AttrsSet(h, source, copy, entries, 0)
    ensures Mirrors(source, after, source.nodes.Keys) && AllSet(h, source, after, entries, 0)
  {
    hide Sound, IsScan, Mirrors, WithMeta, MetaAt;
    after := copy;
    for i := |entries| downto 0
      invariant Mirrors(source, after, source.nodes.Keys)
      invariant AttrsSet(h, source, after, entries, 0) && AllSet(h, source, after, entries, i)
    {
      var p := entries[i].name;
      EntryMeta(h, source, entries, i);
      TimesStep(h, source, after, entries, i);
      after := WithMeta(after, p, Finished(MetaAt(after, p), entries[i]));
    }
  }

  lemma TimesStep(h: Hasher, source: Fs, copy: Fs, entries: seq<Entry>, i: nat)
    requires Sound(source) && IsScan(h, source, entries) && i < |entries|
    requires Mirrors(source, copy, source.nodes.Keys)
    requires AttrsSet(h, source, copy, entries, 0) && AllSet(h, source, copy, entries, i + 1)
    ensures HasMeta(copy, entries[i].name)
    ensures var after := WithMeta(copy, entries[i].name, Finished(MetaAt(copy, entries[i].name), entries[i]));
            Mirrors(source, after, source.nodes.Keys)
            && AttrsSet(h, source, after, entries, 0) && AllSet(h, source, after, entries, i)
  {
    hide Sound, IsScan, Mirrors, WithMeta;
    var p := entries[i].name;
    EntryMeta(h, source, entries, i);
    CopyHasMeta(source, copy, p);
    LinkKeepsMode(source, copy, p);
    var meta := Finished(MetaAt(copy, p), entries[i]);
    assert meta == entries[i].meta;
    MetaKeepsMirror(source, copy, source.nodes.Keys, p, meta);
    var after := WithMeta(copy, p, meta);
    forall k | 0 <= k < |entries|
      ensures HasMeta(after, entries[k].name)
      ensures MetaAt(after, entries[k].name).attrs == entries[k].meta.attrs
      ensures i <= k ==> MetaAt(after, entries[k].name) == entries[k].meta
    {
      EntryMeta(h, source, entries, k);
      MetaElsewhere(source, copy, source.nodes.Keys, p, meta, entries[k].name);
    }
  }

  // ---------- The restored tree is the captured one ----------

  lemma {:induction false} SameFirst(source: Fs, copy: Fs, entries: seq<Entry>, p: Path)
    requires Mirrors(source, copy, source.nodes.Keys)
    requires p in source.nodes && source.nodes[p].File?
    requires forall k | 0 <= k < |entries| :: entries[k].name in source.nodes
    ensures copy.nodes[p].File?
    ensures FirstWith(copy, entries, copy.nodes[p].ino) == FirstWith(source, entries, source.nodes[p].ino)
  {
    assert SameNode(source, copy, p);
    if entries != [] {
      var last := entries[|entries| - 1].name;
      SameFirst(source, copy, entries[..|entries| - 1], p);
      assert SameNode(source, copy, last);
      hide SameNode, FirstWith;
      FirstUnfolds(source, entries, source.nodes[p].ino);
      FirstUnfolds(copy, entries, copy.nodes[p].ino);
    }
  }

  lemma FirstUnfolds(fs: Fs, entries: seq<Entry>, ino: nat)
    requires entries != []
    ensures FirstWith(fs, entries, ino) ==
      (var before := FirstWith(fs, entries[..|entries| - 1], ino);
       var last := entries[|entries| - 1].name;
       if before.Some? then before
       else if last in fs.nodes && fs.nodes[last] == File(ino) then Some(last)
       else None)
  {
  }

  lemma NamesMirror(source: Fs, copy: Fs, p: Path)
    requires Mirrors(source, copy, source.nodes.Keys) && p in source.nodes && source.nodes[p].File?
    ensures copy.nodes[p].File? && NamesOf(copy, copy.nodes[p].ino) == NamesOf(source, source.nodes[p].ino)
    ensures copy.nodes[p].ino in copy.inodes
    ensures copy.inodes[copy.nodes[p].ino].nlink == |NamesOf(source, source.nodes[p].ino)|
  {
    assert SameNode(source, copy, p);
    forall q | q in source.nodes ensures copy.nodes[q] == copy.nodes[p] <==> source.nodes[q] == source.nodes[p] {
      assert SameNode(source, copy, q);
    }
    assert NamesOf(source, source.nodes[p].ino) * source.nodes.Keys == NamesOf(source, source.nodes[p].ino);
  }

  lemma CopyIsSound(source: Fs, copy: Fs)
    requires Sound(source) && Mirrors(source, copy, source.nodes.Keys)
    ensures Sound(copy)
  {
    forall p | p in copy.nodes ensures SameNode(source, copy, p) {
    }
    forall ino | ino in copy.inodes ensures |NamesOf(copy, ino)| <= copy.inodes[ino].nlink {
      if p :| p in NamesOf(copy, ino) {
        assert SameNode(source, copy, p);
        NamesMirror(source, copy, p);
      }
    }
  }

  /** The rebuilt tree, with its metadata set, scans to the entries it was built from. */
  lemma RebuiltScansAlike(h: Hasher, source: Fs, copy: Fs, entries: seq<Entry>)
    requires Sound(source) && Contained(source) && IsScan(h, source, entries)
    requires Mirrors(source, copy, source.nodes.Keys) && AllSet(h, source, copy, entries, 0)
    ensures IsScan(h, copy, entries)
  {
    hide PathLess, FirstWith, Chunker.Chunks;
    forall i | 0 <= i < |entries| ensures EntryOk(h, copy, entries, i) {
      RebuiltEntry(h, source, copy, entries, i);
    }
  }

  lemma RebuiltEntry(h: Hasher, source: Fs, copy: Fs, entries: seq<Entry>, i: nat)
    requires Sound(source) && Contained(source) && IsScan(h, source, entries) && i < |entries|
    requires Mirrors(source, copy, source.nodes.Keys) && AllSet(h, source, copy, entries, 0)
    ensures EntryOk(h, copy, entries, i)
  {
    hide PathLess, FirstWith, Chunker.Chunks, Mirrors, Sound;
    assert EntryOk(h, source, entries, i);
    var p := entries[i].name;
    EntryMeta(h, source, entries, i);
    CopyHasMeta(source, copy, p);
    NodeAlike(source, copy, p);
    if source.nodes[p].File? {
      NamesMirror(source, copy, p);
      forall k | 0 <= k < i ensures entries[..i][k].name in source.nodes {
        assert EntryOk(h, source, entries, k);
      }
      SameFirst(source, copy, entries[..i], p);
    }
  }

  lemma NodeAlike(source: Fs, copy: Fs, p: Path)
    requires Mirrors(source, copy, source.nodes.Keys) && p in source.nodes
    ensures p in copy.nodes && SameNode(source, copy, p)
  {
  }

  // ---------- The same workspace ----------

  /** The same tree but for the numbers of the files: paths, content, link targets, modes, times, attributes, link counts,
      and which names belong to one file. */
  ghost predicate SameTree(a: Fs, b: Fs) {
    && a.nodes.Keys == b.nodes.Keys
    && (forall p | p in a.nodes ::
          match (a.nodes[p], b.nodes[p])
          case (Dir(m), Dir(n)) => m == n
          case (Symlink(m, t), Symlink(n, u)) => m == n && t == u
          case (File(i), File(j)) => i in a.inodes && j in b.inodes && a.inodes[i] == b.inodes[j]
          case _ => false)
    && forall p, q | p in a.nodes && q in a.nodes && a.nodes[p].File? && a.nodes[q].File? ::
         a.nodes[p] == a.nodes[q] <==> b.nodes[p] == b.nodes[q]
  }

  lemma RebuiltMeta(h: Hasher, source: Fs, copy: Fs, entries: seq<Entry>, p: Path)
    requires Sound(source) && IsScan(h, source, entries) && p in source.nodes
    requires Mirrors(source, copy, source.nodes.Keys) && AllSet(h, source, copy, entries, 0)
    ensures HasMeta(source, p) && HasMeta(copy, p) && MetaAt(copy, p) == MetaAt(source, p)
  {
    hide PathLess, FirstWith, Chunker.Chunks, Mirrors, Sound, EntriesOk, Sorted;
    var k :| 0 <= k < |entries| && entries[k].name == p;
    EntryMeta(h, source, entries, k);
  }

  lemma RebuiltLinks(source: Fs, copy: Fs, p: Path)
    requires Contained(source) && Mirrors(source, copy, source.nodes.Keys) && Sound(source)
    requires p in source.nodes && source.nodes[p].File?
    ensures LinksAt(copy, p) == LinksAt(source, p)
  {
    var names := NamesOf(source, source.nodes[p].ino);
    assert names * source.nodes.Keys == names;
  }

  /** A rebuilt tree is the workspace it was captured from. */
  lemma RebuiltIsSame(h: Hasher, source: Fs, copy: Fs, entries: seq<Entry>)
    requires Sound(source) && Contained(source) && IsScan(h, source, entries)
    requires Mirrors(source, copy, source.nodes.Keys) && AllSet(h, source, copy, entries, 0)
    ensures SameTree(source, copy)
  {
    hide IsScan, AllSet, Sound, Contained;
    forall p | p in source.nodes
      ensures HasMeta(source, p) && HasMeta(copy, p) && MetaAt(copy, p) == MetaAt(source, p)
      ensures source.nodes[p].File? ==> LinksAt(copy, p) == LinksAt(source, p)
    {
      RebuiltMeta(h, source, copy, entries, p);
      if source.nodes[p].File? {
        RebuiltLinks(source, copy, p);
      }
    }
  }

  /** A restore builds everything anew and then scans what it built: the final comparison cannot fail, hard
      links, link counts and directory times included. */
  method Restore(h: Hasher, ghost source: Fs, entries: seq<Entry>, db: ChunkStore, given: Meta, now: int)
    returns (same: bool, copy: Fs)
    requires Archived(h, source, entries, db)
    ensures same && Sound(copy) && IsScan(h, copy, entries) && SameTree(source, copy)
  {
    hide Sound, IsScan, Mirrors, Contained, AllStored, Numbered, AttrsSet, AllSet, SameTree;
    var next: nat := 0;
    copy := Fs(map[[] := Dir(given)], map[]);
    RootMirrors(h, source, entries, given);
    for i := 1 to |entries|
      invariant Mirrors(source, copy, NamesTo(entries, i)) && Numbered(copy, next)
    {
      copy, next := CreateEntry(h, source, entries, i, db, copy, next, given, now);
    }
    AllNamed(h, source, entries);
    copy := SetAttributes(h, source, entries, copy);
    copy := SetModesAndTimes(h, source, entries, copy);
    CopyIsSound(source, copy);
    RebuiltScansAlike(h, source, copy, entries);
    RebuiltIsSame(h, source, copy, entries);
    var actual := Scan(h, copy);
    ScansAgree(h, copy, actual, entries);
    same := actual == entries;
  }

  /** Whatever a capture accepts is rebuilt as it was, as far as a scan can tell. */
  method CaptureThenRestore(h: Hasher, source: Fs, db: ChunkStore, given: Meta, now: int)
    returns (copy: Option<Fs>, entries: seq<Entry>, stored: ChunkStore)
    requires Sound(source)
    ensures Extends(db, stored) && AddedUnderDigest(h, db, stored)
    ensures copy.Some? ==> Sound(copy.value) && IsScan(h, source, entries) && IsScan(h, copy.value, entries)
    ensures copy.Some? ==> SameTree(source, copy.value)
    ensures copy.None? ==> !Contained(source) || SomeRefused(h, stored, source)
  {
    hide Sound, IsScan, Contained, AllStored, SomeRefused, Extends, AddedUnderDigest, SameTree;
    var captured, saved := Capture(h, source, db);
    stored := saved;
    if captured.None? {
      return None, [], saved;
    }
    entries := captured.value;
    var same, rebuilt := Restore(h, source, captured.value, saved, given, now);
    copy := Some(rebuilt);
  }

  lemma RootMirrors(h: Hasher, source: Fs, entries: seq<Entry>, given: Meta)
    requires Sound(source) && IsScan(h, source, entries)
    ensures |entries| >= 1
    ensures Mirrors(source, Fs(map[[] := Dir(given)], map[]), NamesTo(entries, 1))
    ensures Numbered(Fs(map[[] := Dir(given)], map[]), 0)
  {
    hide IsScan;
    RootIsFirst(h, source, entries);
    NamesGrow(entries, 0);
    assert NamesTo(entries, 1) == {[]};
  }

  lemma AllNamed(h: Hasher, source: Fs, entries: seq<Entry>)
    requires IsScan(h, source, entries)
    ensures NamesTo(entries, |entries|) == source.nodes.Keys
  {
    hide PathLess, EntryOk;
    forall p | p in source.nodes ensures p in NamesTo(entries, |entries|) {
      assert p in source.nodes.Keys;
    }
  }
}
