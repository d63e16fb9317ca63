/** Checking what an interrupted deletion left of an archived workspace (archive.rs, verify_remainder). */
module ArchiveRemainder {
  import opened Bytes
  import Chunker
  import opened ArchiveScan
  import opened ArchiveCapture

  /** A mode with all access for the owner: `mode | 0o700`. */
  function OwnerAccess(mode: nat): nat {
    mode / 512 * 512 + 448 + mode % 64
  }

  /** The owner may read, write and search; every other bit is as it was. */
  lemma OwnerAccessMeans(mode: nat)
    ensures OwnerAccess(mode) / 64 % 8 == 7
    ensures OwnerAccess(mode) % 64 == mode % 64 && OwnerAccess(mode) / 512 == mode / 512
  {
    assert OwnerAccess(mode) == (mode / 512 * 8 + 7) * 64 + mode % 64;
  }

  /** The entry is unchanged, allowing for what deleting other entries changes. */
  predicate Unchanged(e: Entry, a: Entry) {
    if a.kind.Directory? && e.kind.Directory? then
      && (a.meta.mode == e.meta.mode || a.meta.mode == OwnerAccess(e.meta.mode))
      && a.(meta := a.meta.(mode := e.meta.mode, secs := e.meta.secs, nanos := e.meta.nanos)) == e
    else if a.kind.RegularFile? && e.kind.RegularFile? then
      a.(links := 0, hardlink := None) == e.(links := 0, hardlink := None)
    else a == e
  }

  ghost predicate Distinct(entries: seq<Entry>) {
    forall i, j | 0 <= i < j < |entries| :: entries[i].name != entries[j].name
  }

  function ByName(entries: seq<Entry>): map<Path, Entry> {
    if entries == [] then map[]
    else ByName(entries[..|entries| - 1])[entries[|entries| - 1].name := entries[|entries| - 1]]
  }

  lemma {:induction false} ByNameMeans(entries: seq<Entry>, p: Path)
    requires Distinct(entries)
    ensures p in ByName(entries) <==> exists k :: 0 <= k < |entries| && entries[k].name == p
    ensures p in ByName(entries) ==> exists k :: 0 <= k < |entries| && entries[k].name == p && ByName(entries)[p] == entries[k]
  {
    if entries != [] {
      var n := |entries| - 1;
      ByNameMeans(entries[..n], p);
      if p in ByName(entries[..n]) && p != entries[n].name {
        var k :| 0 <= k < n && entries[..n][k].name == p && ByName(entries[..n])[p] == entries[..n][k];
        assert entries[k] == entries[..n][k];
      }
      if k :| 0 <= k < |entries| && entries[k].name == p {
        if k < n {
          assert entries[..n][k].name == p;
        }
      }
    }
  }

  /** The group a surviving file was captured in. */
  function OldGroup(captured: map<Path, Entry>, a: Entry): Path {
    if a.name in captured then Group(captured[a.name]) else a.name
  }

  /** Surviving files share a file exactly when they did when captured. */
  ghost predicate SamePartition(captured: map<Path, Entry>, actual: seq<Entry>, n: nat)
    requires n <= |actual|
  {
    forall i, j | 0 <= i < n && 0 <= j < n && actual[i].kind.RegularFile? && actual[j].kind.RegularFile? ::
      OldGroup(captured, actual[i]) == OldGroup(captured, actual[j]) <==> Group(actual[i]) == Group(actual[j])
  }

  ghost predicate AllUnchanged(captured: map<Path, Entry>, actual: seq<Entry>, n: nat)
    requires n <= |actual|
  {
    forall i | 0 <= i < n :: actual[i].name in captured && Unchanged(captured[actual[i].name], actual[i])
  }

  ghost predicate Accepts(captured: map<Path, Entry>, actual: seq<Entry>) {
    AllUnchanged(captured, actual, |actual|) && SamePartition(captured, actual, |actual|) && GroupsClosed(actual)
  }

  /** What the two maps between captured and surviving groups hold. */
  ghost predicate MapsOk(
      captured: map<Path, Entry>, actual: seq<Entry>, n: nat, mapping: map<Path, Path>, reverse: map<Path, Path>)
    requires n <= |actual|
  {
    && (forall i | 0 <= i < n && actual[i].kind.RegularFile? ::
          && OldGroup(captured, actual[i]) in mapping && mapping[OldGroup(captured, actual[i])] == Group(actual[i])
          && Group(actual[i]) in reverse && reverse[Group(actual[i])] == OldGroup(captured, actual[i]))
    && (forall g | g in mapping :: exists i :: 0 <= i < n && actual[i].kind.RegularFile? && OldGroup(captured, actual[i]) == g
                                     && mapping[g] == Group(actual[i]))
    && (forall g | g in reverse :: exists i :: 0 <= i < n && actual[i].kind.RegularFile? && Group(actual[i]) == g
                                     && reverse[g] == OldGroup(captured, actual[i]))
  }

  lemma MapsPartition(
      captured: map<Path, Entry>, actual: seq<Entry>, n: nat, mapping: map<Path, Path>, reverse: map<Path, Path>)
    requires n <= |actual| && MapsOk(captured, actual, n, mapping, reverse)
    ensures SamePartition(captured, actual, n)
  {
    hide OldGroup, Group;
  }

  /** A clash in either map means that a group was split or two were merged. */
  lemma ClashBreaksPartition(
      captured: map<Path, Entry>, actual: seq<Entry>, n: nat, mapping: map<Path, Path>, reverse: map<Path, Path>)
    requires n < |actual| && MapsOk(captured, actual, n, mapping, reverse) && actual[n].kind.RegularFile?
    requires var was, is_ := OldGroup(captured, actual[n]), Group(actual[n]);
      (was in mapping && mapping[was] != is_) || (is_ in reverse && reverse[is_] != was)
    ensures !SamePartition(captured, actual, |actual|)
  {
    hide OldGroup, Group;
    var was, is_ := OldGroup(captured, actual[n]), Group(actual[n]);
    if was in mapping && mapping[was] != is_ {
      var i :| 0 <= i < n && actual[i].kind.RegularFile? && OldGroup(captured, actual[i]) == was && mapping[was] == Group(actual[i]);
    } else {
      var i :| 0 <= i < n && actual[i].kind.RegularFile? && Group(actual[i]) == is_ && reverse[is_] == OldGroup(captured, actual[i]);
    }
  }

  lemma MapsMore(
      captured: map<Path, Entry>, actual: seq<Entry>, n: nat, mapping: map<Path, Path>, reverse: map<Path, Path>)
    requires n < |actual| && MapsOk(captured, actual, n, mapping, reverse)
    requires var was, is_ := OldGroup(captured, actual[n]), Group(actual[n]);
      actual[n].kind.RegularFile? ==> (was in mapping ==> mapping[was] == is_) && (is_ in reverse ==> reverse[is_] == was)
    ensures var was, is_ := OldGroup(captured, actual[n]), Group(actual[n]);
      if actual[n].kind.RegularFile? then MapsOk(captured, actual, n + 1, mapping[was := is_], reverse[is_ := was])
      else MapsOk(captured, actual, n + 1, mapping, reverse)
  {
    hide OldGroup, Group;
    if actual[n].kind.RegularFile? {
      var was, is_ := OldGroup(captured, actual[n]), Group(actual[n]);
      var m, r := mapping[was := is_], reverse[is_ := was];
      forall g | g in m
        ensures exists i :: 0 <= i < n + 1 && actual[i].kind.RegularFile? && OldGroup(captured, actual[i]) == g && m[g] == Group(actual[i])
      {
        if g != was {
          var i :| 0 <= i < n && actual[i].kind.RegularFile? && OldGroup(captured, actual[i]) == g && mapping[g] == Group(actual[i]);
        }
      }
      forall g | g in r
        ensures exists i :: 0 <= i < n + 1 && actual[i].kind.RegularFile? && Group(actual[i]) == g && r[g] == OldGroup(captured, actual[i])
      {
        if g != is_ {
          var i :| 0 <= i < n && actual[i].kind.RegularFile? && Group(actual[i]) == g && reverse[g] == OldGroup(captured, actual[i]);
        }
      }
    }
  }

  /** The check over the two lists of entries. */
  method CheckRemainder(captured: map<Path, Entry>, actual: seq<Entry>) returns (ok: bool)
    requires Distinct(actual)
    ensures ok <==> Accepts(captured, actual)
  {
    hide OldGroup, Group, Unchanged, MapsOk, SamePartition, GroupsClosed;
    var mapping: map<Path, Path>, reverse: map<Path, Path> := map[], map[];
    NothingMapped(captured, actual);
    for i := 0 to |actual|
      invariant AllUnchanged(captured, actual, i) && MapsOk(captured, actual, i, mapping, reverse)
    {
      var a := actual[i];
      if a.name !in captured {
        return false;
      }
      var e := captured[a.name];
      if a.kind.RegularFile? && e.kind.RegularFile? {
        KnownGroup(captured, a);
        var was, is_ := Group(e), Group(a);
        if (was in mapping && mapping[was] != is_) || (is_ in reverse && reverse[is_] != was) {
          ClashBreaksPartition(captured, actual, i, mapping, reverse);
          return false;
        }
        MapsMore(captured, actual, i, mapping, reverse);
        mapping, reverse := mapping[was := is_], reverse[is_ := was];
      } else {
        KindMatters(e, a);
        if !a.kind.RegularFile? {
          MapsMore(captured, actual, i, mapping, reverse);
        }
      }
      if !Unchanged(e, a) {
        return false;
      }
    }
    MapsPartition(captured, actual, |actual|, mapping, reverse);
    ok := CheckGroups(actual);
  }

  lemma NothingMapped(captured: map<Path, Entry>, actual: seq<Entry>)
    ensures MapsOk(captured, actual, 0, map[], map[])
  {
  }

  lemma KnownGroup(captured: map<Path, Entry>, a: Entry)
    requires a.name in captured
    ensures OldGroup(captured, a) == Group(captured[a.name])
  {
  }

  lemma KindMatters(e: Entry, a: Entry)
    ensures e.kind != a.kind ==> !Unchanged(e, a)
  {
  }

  // ---------- What is accepted ----------

  predicate SamePath(h: Hasher, source: Fs, left: Fs, p: Path)
    requires p in source.nodes && p in left.nodes
  {
    match (source.nodes[p], left.nodes[p])
    case (Dir(m), Dir(n)) => (n.mode == m.mode || n.mode == OwnerAccess(m.mode)) && n.attrs == m.attrs
    case (Symlink(m, t), Symlink(n, u)) => m == n && t == u
    case (File(i), File(j)) =>
      && i in source.inodes && j in left.inodes
      && var was, is_ := source.inodes[i], left.inodes[j];
      was.meta == is_.meta && |was.content| == |is_.content|
      && ChunkIds(h, Chunker.Chunks(was.content)) == ChunkIds(h, Chunker.Chunks(is_.content))
    case _ => false
  }

  /** Only captured paths, each unchanged; names share a file as they did; and no file has a name elsewhere. */
  ghost predicate RemainderOf(h: Hasher, source: Fs, left: Fs) {
    && left.nodes.Keys <= source.nodes.Keys
    && (forall p | p in left.nodes :: SamePath(h, source, left, p))
    && (forall p, q | p in left.nodes && q in left.nodes && left.nodes[p].File? && left.nodes[q].File? ::
          left.nodes[p] == left.nodes[q] <==> source.nodes[p] == source.nodes[q])
    && Contained(left)
  }

  lemma CapturedEntry(h: Hasher, source: Fs, entries: seq<Entry>, p: Path) returns (k: nat)
    requires Sound(source) && IsScan(h, source, entries)
    ensures p in ByName(entries) <==> p in source.nodes
    ensures p in source.nodes ==> k < |entries| && entries[k].name == p && ByName(entries)[p] == entries[k]
  {
    hide PathLess, EntryOk;
    NamesDiffer(h, source, entries);
    ByNameMeans(entries, p);
    k := 0;
    if p in source.nodes {
      assert p in source.nodes.Keys;
      var i :| 0 <= i < |entries| && entries[i].name == p && ByName(entries)[p] == entries[i];
      k := i;
    }
  }

  lemma UnchangedMeans(h: Hasher, source: Fs, entries: seq<Entry>, left: Fs, actual: seq<Entry>, k: nat, i: nat)
    requires Sound(source) && IsScan(h, source, entries) && Sound(left) && IsScan(h, left, actual)
    requires k < |entries| && i < |actual| && entries[k].name == actual[i].name
    ensures actual[i].name in source.nodes && actual[i].name in left.nodes
    ensures Unchanged(entries[k], actual[i]) <==> SamePath(h, source, left, actual[i].name)
  {
    hide PathLess, FirstWith, Chunker.Chunks, OwnerAccess, Sound;
    assert EntryOk(h, source, entries, k) && EntryOk(h, left, actual, i);
  }

  /** For surviving, captured files the groups of the two scans are the files of the two trees. */
  lemma PartitionMeans(
      h: Hasher, source: Fs, entries: seq<Entry>, left: Fs, actual: seq<Entry>, i: nat, j: nat)
    requires Sound(source) && IsScan(h, source, entries) && Sound(left) && IsScan(h, left, actual)
    requires i < |actual| && j < |actual| && actual[i].kind.RegularFile? && actual[j].kind.RegularFile?
    requires AllUnchanged(ByName(entries), actual, |actual|)
    ensures actual[i].name in source.nodes && actual[j].name in source.nodes
    ensures actual[i].name in left.nodes && actual[j].name in left.nodes
    ensures OldGroup(ByName(entries), actual[i]) == OldGroup(ByName(entries), actual[j])
       <==> source.nodes[actual[i].name] == source.nodes[actual[j].name]
    ensures Group(actual[i]) == Group(actual[j]) <==> left.nodes[actual[i].name] == left.nodes[actual[j].name]
  {
    hide IsScan, Sound, Group, ByName;
    var k := CapturedEntry(h, source, entries, actual[i].name);
    var l := CapturedEntry(h, source, entries, actual[j].name);
    KindMatters(entries[k], actual[i]);
    KindMatters(entries[l], actual[j]);
    GroupsAreFiles(h, source, entries, k, l);
    GroupsAreFiles(h, left, actual, i, j);
  }

  /** The check accepts exactly the remainders of the captured workspace. */
  lemma AcceptsExactly(h: Hasher, source: Fs, entries: seq<Entry>, left: Fs, actual: seq<Entry>)
    requires Sound(source) && IsScan(h, source, entries) && Sound(left) && IsScan(h, left, actual)
    ensures Accepts(ByName(entries), actual) <==> RemainderOf(h, source, left)
  {
    hide IsScan, Sound, ByName, SamePath, Unchanged, OldGroup, Group, Contained, GroupsClosed;
    GroupCheckIsExact(h, left, actual);
    EveryFileListed(h, left, actual);
    forall i | 0 <= i < |actual|
      ensures actual[i].name in left.nodes
      ensures actual[i].kind.RegularFile? <==> left.nodes[actual[i].name].File?
      ensures actual[i].name in ByName(entries) && Unchanged(ByName(entries)[actual[i].name], actual[i])
         <==> actual[i].name in source.nodes && SamePath(h, source, left, actual[i].name)
    {
      ScannedKind(h, left, actual, i);
      var k := CapturedEntry(h, source, entries, actual[i].name);
      if actual[i].name in source.nodes {
        UnchangedMeans(h, source, entries, left, actual, k, i);
      }
    }
    if AllUnchanged(ByName(entries), actual, |actual|) {
      PartitionsAgree(h, source, entries, left, actual);
    }
  }

  lemma PartitionsAgree(h: Hasher, source: Fs, entries: seq<Entry>, left: Fs, actual: seq<Entry>)
    requires Sound(source) && IsScan(h, source, entries) && Sound(left) && IsScan(h, left, actual)
    requires AllUnchanged(ByName(entries), actual, |actual|)
    ensures left.nodes.Keys <= source.nodes.Keys
    ensures SamePartition(ByName(entries), actual, |actual|) <==>
      forall p, q | p in left.nodes && q in left.nodes && left.nodes[p].File? && left.nodes[q].File? ::
        left.nodes[p] == left.nodes[q] <==> source.nodes[p] == source.nodes[q]
  {
    hide IsScan, Sound, ByName, Unchanged, OldGroup, Group;
    EveryFileListed(h, left, actual);
    forall i | 0 <= i < |actual|
      ensures actual[i].name in left.nodes && actual[i].name in source.nodes
      ensures actual[i].kind.RegularFile? <==> left.nodes[actual[i].name].File?
    {
      ScannedKind(h, left, actual, i);
      var k := CapturedEntry(h, source, entries, actual[i].name);
    }
    forall i, j | 0 <= i < |actual| && 0 <= j < |actual| && actual[i].kind.RegularFile? && actual[j].kind.RegularFile?
      ensures OldGroup(ByName(entries), actual[i]) == OldGroup(ByName(entries), actual[j])
         <==> source.nodes[actual[i].name] == source.nodes[actual[j].name]
      ensures Group(actual[i]) == Group(actual[j]) <==> left.nodes[actual[i].name] == left.nodes[actual[j].name]
    {
      PartitionMeans(h, source, entries, left, actual, i, j);
    }
  }

  /** Scans what is left and checks it against the archive of the source. */
  method VerifyRemainder(h: Hasher, ghost source: Fs, entries: seq<Entry>, left: Fs) returns (ok: bool)
    requires Sound(source) && IsScan(h, source, entries) && Sound(left)
    ensures ok <==> RemainderOf(h, source, left)
  {
    hide IsScan, Sound, Accepts, RemainderOf;
    var actual := Scan(h, left);
    NamesDiffer(h, left, actual);
    ok := CheckRemainder(ByName(entries), actual);
    AcceptsExactly(h, source, entries, left, actual);
  }

  /** What deleting entries does to a workspace: files lose a link for every name removed, directories change their
      times and may have been opened up to their owner. */
  ghost predicate Deleted(source: Fs, left: Fs) {
    && left.nodes.Keys <= source.nodes.Keys
    && (forall p | p in left.nodes ::
          match (source.nodes[p], left.nodes[p])
          case (Dir(m), Dir(n)) => (n.mode == m.mode || n.mode == OwnerAccess(m.mode)) && n.attrs == m.attrs
          case (Symlink(_, _), Symlink(_, _)) => left.nodes[p] == source.nodes[p]
          case (File(i), File(j)) =>
            i == j && i in source.inodes && i in left.inodes
            && left.inodes[i] == source.inodes[i].(nlink := left.inodes[i].nlink)
            && left.inodes[i].nlink + |NamesOf(source, i) - NamesOf(left, i)| == source.inodes[i].nlink
          case _ => false)
  }

  /** An interrupted deletion of a workspace without outside links, as every captured one is, is always recognised. */
  lemma DeletionIsRemainder(h: Hasher, source: Fs, left: Fs)
    requires Sound(source) && Contained(source) && Deleted(source, left)
    ensures RemainderOf(h, source, left)
  {
    assert Contained(left) by {
      hide Deleted, Contained;
      forall p | p in left.nodes && left.nodes[p].File?
        ensures left.nodes[p].ino in left.inodes
        ensures left.inodes[left.nodes[p].ino].nlink == |NamesOf(left, left.nodes[p].ino)|
      {
        DeletedLinks(source, left, p);
      }
      LinksContained(left);
    }
    hide Chunker.Chunks, OwnerAccess, Contained;
  }

  lemma LinksContained(fs: Fs)
    requires forall p | p in fs.nodes && fs.nodes[p].File? ::
               fs.nodes[p].ino in fs.inodes
               && fs.inodes[fs.nodes[p].ino].nlink == |NamesOf(fs, fs.nodes[p].ino)|
    ensures Contained(fs)
  {
  }

  /** A link less for every name less. */
  lemma DeletedLinks(source: Fs, left: Fs, p: Path)
    requires Contained(source) && Deleted(source, left) && p in left.nodes && left.nodes[p].File?
    ensures left.nodes[p].ino in left.inodes
    ensures left.inodes[left.nodes[p].ino].nlink == |NamesOf(left, left.nodes[p].ino)|
  {
    var i := left.nodes[p].ino;
    assert source.nodes[p] == left.nodes[p];
    assert NamesOf(left, i) <= NamesOf(source, i);
    assert NamesOf(source, i) == NamesOf(left, i) + (NamesOf(source, i) - NamesOf(left, i));
  }
}
