/** Scanning a workspace for the archive (archive.rs, walk): every path once, parents and smaller names first,
    and later names of one file pointing at its first. */
module ArchiveScan {
  import opened Bytes
  import Chunker
  import Paths

  type Name = seq<byte>

  /** A path below the workspace root, by its components. */
  type Path = seq<Name>

  datatype Meta = Meta(mode: nat, secs: int, nanos: int, attrs: map<seq<byte>, seq<byte>>)

  datatype Node = Dir(meta: Meta) | File(ino: nat) | Symlink(meta: Meta, target: seq<byte>)

  datatype Inode = Inode(meta: Meta, content: seq<byte>, nlink: nat)

  /** One workspace on one device: what each path is, and the files behind the names. */
  datatype Fs = Fs(nodes: map<Path, Node>, inodes: map<nat, Inode>)

  /** What a symbolic link's mode always is on Linux. */
  const LINK_MODE: nat := 0x1FF

  function NamesOf(fs: Fs, ino: nat): set<Path> {
    set p | p in fs.nodes && fs.nodes[p] == File(ino)
  }

  ghost predicate Sound(fs: Fs) {
    && [] in fs.nodes && fs.nodes[[]].Dir?
    && (forall p | p in fs.nodes && p != [] :: p[..|p| - 1] in fs.nodes && fs.nodes[p[..|p| - 1]].Dir?)
    && (forall p | p in fs.nodes && fs.nodes[p].File? :: fs.nodes[p].ino in fs.inodes)
    && (forall p | p in fs.nodes && fs.nodes[p].Symlink? :: fs.nodes[p].meta.mode == LINK_MODE)
    && (forall ino | ino in fs.inodes :: |NamesOf(fs, ino)| <= fs.inodes[ino].nlink)
  }

  datatype Kind = Directory | RegularFile | Link

  datatype Entry =
    Entry(
      name: Path, kind: Kind, meta: Meta, size: nat, links: nat, link: seq<byte>, chunks: seq<Digest>,
      hardlink: Option<Path>)

  function ChunkIds(h: Hasher, chunks: seq<seq<byte>>): seq<Digest> {
    seq(|chunks|, i requires 0 <= i < |chunks| => h(chunks[i]))
  }

  /** The entry of one path, given the name under which its file was met before. */
  function EntryFor(h: Hasher, fs: Fs, p: Path, earlier: Option<Path>): Entry
    requires p in fs.nodes && (fs.nodes[p].File? ==> fs.nodes[p].ino in fs.inodes)
  {
    match fs.nodes[p]
    case Dir(meta) => Entry(p, Directory, meta, 0, 0, [], [], None)
    case Symlink(meta, target) => Entry(p, Link, meta, 0, 0, target, [], None)
    case File(ino) =>
      var inode := fs.inodes[ino];
      Entry(p, RegularFile, inode.meta, |inode.content|, inode.nlink, [], ChunkIds(h, Chunker.Chunks(inode.content)),
            if inode.nlink > 1 then earlier else None)
  }

  /** The first of these paths that names the file. */
  function FirstWith(fs: Fs, entries: seq<Entry>, ino: nat): (first: Option<Path>)
    ensures first.Some? ==> exists k :: 0 <= k < |entries| && entries[k].name == first.value
    ensures first.Some? ==> first.value in fs.nodes && fs.nodes[first.value] == File(ino)
    ensures first.None? ==> forall k | 0 <= k < |entries| && entries[k].name in fs.nodes :: fs.nodes[entries[k].name] != File(ino)
  {
    if entries == [] then None
    else
      var front, last := entries[..|entries| - 1], entries[|entries| - 1];
      var before := FirstWith(fs, front, ino);
      if before.Some? then before
      else if last.name in fs.nodes && fs.nodes[last.name] == File(ino) then Some(last.name)
      else None
  }

  function EarlierName(fs: Fs, entries: seq<Entry>, p: Path): Option<Path>
    requires p in fs.nodes
  {
    if fs.nodes[p].File? then FirstWith(fs, entries, fs.nodes[p].ino) else None
  }

  predicate EntryOk(h: Hasher, fs: Fs, entries: seq<Entry>, i: nat)
    requires i < |entries|
  {
    && entries[i].name in fs.nodes
    && (fs.nodes[entries[i].name].File? ==> fs.nodes[entries[i].name].ino in fs.inodes)
    && entries[i] == EntryFor(h, fs, entries[i].name, EarlierName(fs, entries[..i], entries[i].name))
  }

  ghost predicate EntriesOk(h: Hasher, fs: Fs, entries: seq<Entry>) {
    forall i | 0 <= i < |entries| :: EntryOk(h, fs, entries, i)
  }

  /** Component by component, a directory before what is in it. */
  predicate PathLess(a: Path, b: Path) {
    b != [] && (a == [] || Paths.Less(a[0], b[0]) || (a[0] == b[0] && PathLess(a[1..], b[1..])))
  }

  ghost predicate Sorted(entries: seq<Entry>) {
    forall i, j | 0 <= i < j < |entries| :: PathLess(entries[i].name, entries[j].name)
  }

  ghost predicate Covers(entries: seq<Entry>, paths: set<Path>) {
    && (forall i | 0 <= i < |entries| :: entries[i].name in paths)
    && (forall p | p in paths :: exists i :: 0 <= i < |entries| && entries[i].name == p)
  }

  /** The scan of a workspace: all its paths in order, each with its entry. */
  ghost predicate IsScan(h: Hasher, fs: Fs, entries: seq<Entry>) {
    EntriesOk(h, fs, entries) && Sorted(entries) && Covers(entries, fs.nodes.Keys)
  }

  lemma {:induction false} PathLessTotal(a: Path, b: Path)
    ensures a == b || PathLess(a, b) || PathLess(b, a)
    ensures !(PathLess(a, b) && PathLess(b, a)) && !PathLess(a, a)
  {
    if a != [] {
      PathLessTotal(a[1..], a[1..]);
      Paths.LessTotal(a[0], a[0]);
      if b != [] {
        PathLessTotal(a[1..], b[1..]);
        Paths.LessTotal(a[0], b[0]);
        assert a == [a[0]] + a[1..] && b == [b[0]] + b[1..];
      }
    }
  }

  lemma {:induction false} PathLessTransitive(a: Path, b: Path, c: Path)
    requires PathLess(a, b) && PathLess(b, c)
    ensures PathLess(a, c)
  {
    hide Paths.Less;
    if a != [] {
      if Paths.Less(a[0], b[0]) && Paths.Less(b[0], c[0]) {
        Paths.LessTransitive(a[0], b[0], c[0]);
      } else if a[0] == b[0] == c[0] {
        PathLessTransitive(a[1..], b[1..], c[1..]);
      }
    }
  }

  lemma {:induction false} ParentIsLess(p: Path, rest: Path)
    requires rest != []
    ensures PathLess(p, p + rest)
  {
    if p != [] {
      ParentIsLess(p[1..], rest);
      assert (p + rest)[1..] == p[1..] + rest;
    }
  }

  lemma {:induction false} CousinsAreOrdered(p: Path, a: Name, b: Name, q: Path, r: Path)
    requires Paths.Less(a, b) && p + [a] <= q && p + [b] <= r
    ensures PathLess(q, r)
  {
    if p == [] {
      assert q[0] == (p + [a])[0] && r[0] == (p + [b])[0];
    } else {
      assert q[0] == (p + [a])[0] == p[0] && r[0] == (p + [b])[0] == p[0];
      assert (p + [a])[1..] == p[1..] + [a] && (p + [b])[1..] == p[1..] + [b];
      assert (p + [a])[1..] <= q[1..] && (p + [b])[1..] <= r[1..];
      CousinsAreOrdered(p[1..], a, b, q[1..], r[1..]);
    }
  }

  /** Sorted lists over the same paths are the same list. */
  lemma {:induction false} ScanIsUnique(h: Hasher, fs: Fs, a: seq<Entry>, b: seq<Entry>, n: nat)
    requires IsScan(h, fs, a) && IsScan(h, fs, b) && n <= |a|
    ensures n <= |b| && a[..n] == b[..n]
  {
    hide PathLess, EntryFor;
    if n > 0 {
      ScanIsUnique(h, fs, a, b, n - 1);
      SameName(h, fs, a, b, n - 1);
      assert EntryOk(h, fs, a, n - 1) && EntryOk(h, fs, b, n - 1);
      assert a[..n] == a[..n - 1] + [a[n - 1]] && b[..n] == b[..n - 1] + [b[n - 1]];
    }
  }

  lemma SameName(h: Hasher, fs: Fs, a: seq<Entry>, b: seq<Entry>, n: nat)
    requires IsScan(h, fs, a) && IsScan(h, fs, b) && n < |a| && n <= |b| && a[..n] == b[..n]
    ensures n < |b| && a[n].name == b[n].name
  {
    hide PathLess, EntryOk;
    assert a[n].name in fs.nodes.Keys;
    var i :| 0 <= i < |b| && b[i].name == a[n].name;
    if i < n {
      assert a[..n][i] == b[..n][i];
      PathLessTotal(a[i].name, a[n].name);
    }
    assert b[n].name in fs.nodes.Keys;
    var j :| 0 <= j < |a| && a[j].name == b[n].name;
    if j < n {
      assert a[..n][j] == b[..n][j];
      PathLessTotal(b[j].name, b[n].name);
    }
    if i > n && j > n {
      PathLessTotal(a[n].name, a[j].name);
    }
  }

  lemma ScansAgree(h: Hasher, fs: Fs, a: seq<Entry>, b: seq<Entry>)
    requires IsScan(h, fs, a) && IsScan(h, fs, b)
    ensures a == b
  {
    ScanIsUnique(h, fs, a, b, |a|);
    ScanIsUnique(h, fs, b, a, |b|);
    assert a[..|a|] == a && b[..|b|] == b;
  }

  // ---------- What an entry tells ----------

  /**
    * What a scan says of each path, in terms of the workspace: what is there, its metadata, for a file its size, its link
    * count and the digests of its chunks in order, and for a file with several names the first of them that is listed.
    */
  lemma EntryTells(h: Hasher, fs: Fs, entries: seq<Entry>, i: nat)
    requires IsScan(h, fs, entries) && i < |entries|
    ensures var e := entries[i];
            && e.name in fs.nodes
            && match fs.nodes[e.name]
               case Dir(m) => e.kind == Directory && e.meta == m
               case Symlink(m, target) => e.kind == Link && e.meta == m && e.link == target
               case File(ino) =>
                 && e.kind == RegularFile && ino in fs.inodes && e.meta == fs.inodes[ino].meta
                 && e.size == |fs.inodes[ino].content| && e.links == fs.inodes[ino].nlink
                 && |e.chunks| == |Chunker.Chunks(fs.inodes[ino].content)|
                 && (forall k | 0 <= k < |e.chunks| :: e.chunks[k] == h(Chunker.Chunks(fs.inodes[ino].content)[k]))
                 && (e.hardlink.Some? ==> FirstName(fs, entries, i, ino, e.hardlink.value))
                 && (e.hardlink.None? && e.links > 1 ==>
                       forall j | 0 <= j < i :: fs.nodes[entries[j].name] != File(ino))
  {
    hide FirstWith, Sorted, Chunker.Chunks;
    assert EntryOk(h, fs, entries, i);
    var e := entries[i];
    if fs.nodes[e.name].File? {
      FirstIsEarliest(fs, entries[..i], fs.nodes[e.name].ino);
      forall j | 0 <= j < i
        ensures entries[..i][j] == entries[j] && entries[j].name in fs.nodes
      {
      }
    }
  }

  /** The first entry of the file is before `i`, under this name. */
  ghost predicate FirstName(fs: Fs, entries: seq<Entry>, i: nat, ino: nat, name: Path)
    requires i <= |entries|
  {
    exists k | 0 <= k < i ::
      entries[k].name == name && name in fs.nodes && fs.nodes[name] == File(ino)
      && forall j | 0 <= j < k && entries[j].name in fs.nodes :: fs.nodes[entries[j].name] != File(ino)
  }

  lemma {:induction false} FirstIsEarliest(fs: Fs, entries: seq<Entry>, ino: nat)
    ensures FirstWith(fs, entries, ino).Some? ==>
              FirstName(fs, entries, |entries|, ino, FirstWith(fs, entries, ino).value)
  {
    if entries != [] {
      var front := entries[..|entries| - 1];
      FirstIsEarliest(fs, front, ino);
      if FirstWith(fs, front, ino).Some? {
        var name := FirstWith(fs, front, ino).value;
        var k :| 0 <= k < |front| && front[k].name == name && name in fs.nodes && fs.nodes[name] == File(ino)
                 && forall j | 0 <= j < k && front[j].name in fs.nodes :: fs.nodes[front[j].name] != File(ino);
        assert forall j | 0 <= j < |front| :: front[j] == entries[j];
        assert entries[k].name == name;
      } else {
        assert forall j | 0 <= j < |front| :: front[j] == entries[j];
      }
    }
  }

  // ---------- The walk ----------

  function Subtree(fs: Fs, p: Path): set<Path> {
    set q | q in fs.nodes && p <= q
  }

  function Children(fs: Fs, p: Path): set<Name> {
    set q | q in fs.nodes && |q| == |p| + 1 && p <= q :: q[|p|]
  }

  /** What the walk remembers of files with several names: the name they were met under first. */
  ghost predicate LinksOk(fs: Fs, entries: seq<Entry>, links: map<nat, Path>) {
    forall ino | ino in fs.inodes && fs.inodes[ino].nlink > 1 ::
      (if ino in links then Some(links[ino]) else None) == FirstWith(fs, entries, ino)
  }

  method SmallestName(names: set<Name>) returns (smallest: Name)
    requires names != {}
    ensures smallest in names && forall n | n in names && n != smallest :: Paths.Less(smallest, n)
  {
    hide Paths.Less;
    smallest :| smallest in names;
    var rest := names - {smallest};
    while rest != {}
      invariant rest <= names && smallest in names && smallest !in rest
      invariant forall n | n in names && n !in rest && n != smallest :: Paths.Less(smallest, n)
      decreases rest
    {
      var n :| n in rest;
      rest := rest - {n};
      Paths.LessTotal(n, smallest);
      if Paths.Less(n, smallest) {
        ghost var before := smallest;
        forall m | m in names && m !in rest && m != n ensures Paths.Less(n, m) {
          if m != before {
            Paths.LessTransitive(n, before, m);
          }
        }
        smallest := n;
      }
    }
  }

  /** The subtree of a directory by its first components. */
  ghost function Below(fs: Fs, p: Path, names: set<Name>): set<Path> {
    set q | q in fs.nodes && |p| < |q| && p <= q && q[|p|] in names
  }

  /** What one call of the walk adds to the list. */
  ghost predicate Added(h: Hasher, fs: Fs, out: seq<Entry>, grown: seq<Entry>, paths: set<Path>) {
    && out <= grown && EntriesOk(h, fs, grown)
    && Sorted(grown[|out|..]) && Covers(grown[|out|..], paths)
  }

  lemma EntriesMore(h: Hasher, fs: Fs, out: seq<Entry>, e: Entry)
    requires EntriesOk(h, fs, out) && e.name in fs.nodes
    requires fs.nodes[e.name].File? ==> fs.nodes[e.name].ino in fs.inodes
    requires e == EntryFor(h, fs, e.name, EarlierName(fs, out, e.name))
    ensures Added(h, fs, out, out + [e], {e.name})
  {
    hide EntryFor;
    var grown := out + [e];
    forall i | 0 <= i < |grown| ensures EntryOk(h, fs, grown, i) {
      assert grown[..i] == if i < |out| then out[..i] else out;
      if i < |out| {
        assert EntryOk(h, fs, out, i);
      }
    }
    assert grown[|out|..] == [e];
    assert grown[|out|..][0].name == e.name;
  }

  lemma LinksMore(h: Hasher, fs: Fs, out: seq<Entry>, links: map<nat, Path>, e: Entry)
    requires LinksOk(fs, out, links) && e.name in fs.nodes
    requires fs.nodes[e.name].File? ==> fs.nodes[e.name].ino in fs.inodes
    ensures LinksOk(fs, out + [e],
      if fs.nodes[e.name].File? && fs.inodes[fs.nodes[e.name].ino].nlink > 1 && fs.nodes[e.name].ino !in links
      then links[fs.nodes[e.name].ino := e.name] else links)
  {
    assert (out + [e])[..|out|] == out;
  }

  /** One part of the walk after another. */
  lemma AddedTwice(h: Hasher, fs: Fs, a: seq<Entry>, b: seq<Entry>, c: seq<Entry>, first: set<Path>, second: set<Path>)
    requires Added(h, fs, a, b, first) && Added(h, fs, b, c, second)
    requires forall p, q | p in first && q in second :: PathLess(p, q)
    ensures Added(h, fs, a, c, first + second)
  {
    hide PathLess, EntriesOk, Covers, Sorted;
    var x: seq<Entry>, y: seq<Entry> := b[|a|..], c[|b|..];
    assert c[|a|..] == x + y;
    SortedJoin(x, y, first, second);
    CoversJoin(x, y, first, second);
  }

  lemma SortedJoin(x: seq<Entry>, y: seq<Entry>, first: set<Path>, second: set<Path>)
    requires Sorted(x) && Sorted(y) && Covers(x, first) && Covers(y, second)
    requires forall p, q | p in first && q in second :: PathLess(p, q)
    ensures Sorted(x + y)
  {
    hide PathLess;
    forall i, j | 0 <= i < j < |x + y| ensures PathLess((x + y)[i].name, (x + y)[j].name) {
      if i < |x| <= j {
        assert y[j - |x|].name in second;
      } else if i >= |x| {
        assert PathLess(y[i - |x|].name, y[j - |x|].name);
      }
    }
  }

  lemma CoversJoin(x: seq<Entry>, y: seq<Entry>, first: set<Path>, second: set<Path>)
    requires Covers(x, first) && Covers(y, second)
    ensures Covers(x + y, first + second)
  {
    forall p | p in first + second ensures exists i :: 0 <= i < |x + y| && (x + y)[i].name == p {
      if p in first {
        var i :| 0 <= i < |x| && x[i].name == p;
        assert (x + y)[i].name == p;
      } else {
        var i :| 0 <= i < |y| && y[i].name == p;
        assert (x + y)[|x| + i].name == p;
      }
    }
  }

  lemma RootBeforeBelow(fs: Fs, p: Path)
    ensures forall q, r | q in {p} && r in Below(fs, p, {}) :: PathLess(q, r)
    ensures Below(fs, p, {}) == {}
  {
  }

  lemma ChildSubtree(fs: Fs, p: Path, done: set<Name>, c: Name)
    requires c !in done && forall d | d in done :: Paths.Less(d, c)
    ensures Below(fs, p, done + {c}) == Below(fs, p, done) + Subtree(fs, p + [c])
    ensures forall q, r | q in {p} + Below(fs, p, done) && r in Subtree(fs, p + [c]) :: PathLess(q, r)
  {
    hide PathLess, Paths.Less;
    forall q | q in fs.nodes ensures p + [c] <= q <==> |p| < |q| && p <= q && q[|p|] == c {
      if |p| < |q| && p <= q && q[|p|] == c {
        assert q[..|p| + 1] == p + [c];
      }
      if p + [c] <= q {
        assert q[..|p|] == (p + [c])[..|p|] && q[|p|] == (p + [c])[|p|];
      }
    }
    forall q, r | q in {p} + Below(fs, p, done) && r in Subtree(fs, p + [c]) ensures PathLess(q, r) {
      if q == p {
        assert r == p + r[|p|..];
        ParentIsLess(p, r[|p|..]);
      } else {
        var d := q[|p|];
        assert q[..|p| + 1] == p + [d];
        CousinsAreOrdered(p, d, c, q, r);
      }
    }
  }

  lemma WholeSubtree(fs: Fs, p: Path)
    requires p in fs.nodes && Sound(fs)
    ensures Subtree(fs, p) == {p} + Below(fs, p, Children(fs, p))
    ensures !fs.nodes[p].Dir? ==> Children(fs, p) == {}
  {
    hide Sound;
    forall q | q in Subtree(fs, p) && q != p ensures q in Below(fs, p, Children(fs, p)) {
      AncestorIsThere(fs, q, |p| + 1);
      assert q[..|p| + 1] in fs.nodes;
    }
    forall c | c in Children(fs, p) ensures fs.nodes[p].Dir? {
      ChildIsThere(fs, p, c);
      ParentIsDir(fs, p, c);
    }
  }

  lemma ParentIsDir(fs: Fs, p: Path, c: Name)
    requires Sound(fs) && p + [c] in fs.nodes
    ensures p in fs.nodes && fs.nodes[p].Dir?
  {
    assert (p + [c])[..|p + [c]| - 1] == p;
  }

  lemma {:induction false} AncestorIsThere(fs: Fs, q: Path, n: nat)
    requires Sound(fs) && q in fs.nodes && n <= |q|
    ensures q[..n] in fs.nodes
    decreases |q| - n
  {
    if n < |q| {
      AncestorIsThere(fs, q, n + 1);
      assert q[..n + 1][..n] == q[..n];
    } else {
      assert q[..n] == q;
    }
  }

  lemma SmallerSubtree(fs: Fs, p: Path, c: Name)
    requires p in fs.nodes && p + [c] in fs.nodes
    ensures Subtree(fs, p + [c]) < Subtree(fs, p)
  {
    assert p in Subtree(fs, p) && p !in Subtree(fs, p + [c]);
    forall q | q in Subtree(fs, p + [c]) ensures q in Subtree(fs, p) {
      assert q[..|p|] == (p + [c])[..|p|];
    }
  }

  /** Depth first, children in name order. */
  method Walk(h: Hasher, fs: Fs, p: Path, links: map<nat, Path>, out: seq<Entry>)
    returns (known: map<nat, Path>, grown: seq<Entry>)
    requires Sound(fs) && p in fs.nodes && EntriesOk(h, fs, out) && LinksOk(fs, out, links)
    ensures Added(h, fs, out, grown, Subtree(fs, p)) && LinksOk(fs, grown, known)
    decreases Subtree(fs, p)
  {
    hide PathLess, Paths.Less, Added, EntriesOk, LinksOk, Sound, FirstWith, Chunker.Chunks;
    known := links;
    FileHasInode(fs, p);
    ghost var earlier := EarlierName(fs, out, p);
    var e: Entry;
    match fs.nodes[p] {
      case Dir(meta) => e := Entry(p, Directory, meta, 0, 0, [], [], None);
      case Symlink(meta, target) => e := Entry(p, Link, meta, 0, 0, target, [], None);
      case File(ino) =>
        var inode := fs.inodes[ino];
        var hardlink: Option<Path> := None;
        if inode.nlink > 1 {
          KnownIsFirst(fs, out, links, ino);
          if ino in known {
            hardlink := Some(known[ino]);
          } else {
            known := known[ino := p];
          }
        }
        var chunks := ChunkIds(h, Chunker.Chunks(inode.content));
        e := Entry(p, RegularFile, inode.meta, |inode.content|, inode.nlink, [], chunks, hardlink);
    }
    EntriesMore(h, fs, out, e);
    LinksMore(h, fs, out, links, e);
    grown := out + [e];
    WholeSubtree(fs, p);
    if fs.nodes[p].Dir? {
      var rest := Children(fs, p);
      ghost var done: set<Name> := {};
      RootBeforeBelow(fs, p);
      assert {p} + Below(fs, p, {}) == {p};
      while rest != {}
        invariant done + rest == Children(fs, p) && done !! rest
        invariant forall d, r | d in done && r in rest :: Paths.Less(d, r)
        invariant Added(h, fs, out, grown, {p} + Below(fs, p, done)) && LinksOk(fs, grown, known)
        decreases rest
      {
        var c := SmallestName(rest);
        ChildIsThere(fs, p, c);
        SmallerSubtree(fs, p, c);
        AddedIsOk(h, fs, out, grown, {p} + Below(fs, p, done));
        ghost var before := grown;
        known, grown := Walk(h, fs, p + [c], known, grown);
        ChildSubtree(fs, p, done, c);
        AddedTwice(h, fs, out, before, grown, {p} + Below(fs, p, done), Subtree(fs, p + [c]));
        assert {p} + Below(fs, p, done) + Subtree(fs, p + [c]) == {p} + Below(fs, p, done + {c});
        done, rest := done + {c}, rest - {c};
      }
      assert done == Children(fs, p);
    } else {
      RootBeforeBelow(fs, p);
      assert Subtree(fs, p) == {p};
    }
  }

  lemma FileHasInode(fs: Fs, p: Path)
    requires Sound(fs) && p in fs.nodes
    ensures fs.nodes[p].File? ==> fs.nodes[p].ino in fs.inodes
  {
  }

  lemma KnownIsFirst(fs: Fs, out: seq<Entry>, links: map<nat, Path>, ino: nat)
    requires LinksOk(fs, out, links) && ino in fs.inodes && fs.inodes[ino].nlink > 1
    ensures (if ino in links then Some(links[ino]) else None) == FirstWith(fs, out, ino)
  {
  }

  lemma ChildIsThere(fs: Fs, p: Path, c: Name)
    requires c in Children(fs, p)
    ensures p + [c] in fs.nodes
  {
    var q :| q in fs.nodes && |q| == |p| + 1 && p <= q && q[|p|] == c;
    assert q == p + [c];
  }

  lemma AddedIsOk(h: Hasher, fs: Fs, out: seq<Entry>, grown: seq<Entry>, paths: set<Path>)
    requires Added(h, fs, out, grown, paths)
    ensures EntriesOk(h, fs, grown)
  {
  }

  /** The scan of a workspace that nobody changes meanwhile. */
  method Scan(h: Hasher, fs: Fs) returns (entries: seq<Entry>)
    requires Sound(fs)
    ensures IsScan(h, fs, entries)
  {
    hide PathLess;
    NothingMet(h, fs);
    var known;
    known, entries := Walk(h, fs, [], map[], []);
    assert entries[0..] == entries;
    assert Subtree(fs, []) == fs.nodes.Keys;
  }

  lemma NothingMet(h: Hasher, fs: Fs)
    ensures EntriesOk(h, fs, []) && LinksOk(fs, [], map[])
  {
  }
}
