/** Marking: which objects a collection keeps (gc.rs). A worklist carries retention masks from the
    roots over the object graph; a node whose mask grows is queued again. */
module Marking {
  import opened Bytes
  import opened Model
  import opened Pack

  /** The bits of a mark: one per content class whose bytes are wanted, and bit 15, which says that
      the bytes of this very blob are wanted. */
  datatype Bit = Class(class_: ContentClass) | BlobBytes

  type Mask = set<Bit>

  const ALL_CLASS_MASK: Mask :=
    {Class(Source), Class(VcsMeta), Class(ConfigSecret), Class(Dependency), Class(BuildOutput),
     Class(Database), Class(Lockfile), Class(Scratch)}

  const DAY_SECONDS: int := 24 * 60 * 60
  const MAX_I64: int := 0x7FFF_FFFF_FFFF_FFFF

  /** The classes whose bytes a snapshot sealed at `sealedAt` keeps at time `now`. */
  function ByteMask(now: int, sealedAt: int, exactRoot: bool): (mask: Mask) {
    if exactRoot || sealedAt > now then ALL_CLASS_MASK
    else
      var age := if now - sealedAt > MAX_I64 then MAX_I64 else now - sealedAt;
      {Class(Source), Class(VcsMeta), Class(ConfigSecret), Class(Lockfile)}
      + (if age <= 30 * DAY_SECONDS then {Class(Database)} else {})
      + (if age <= 3 * DAY_SECONDS then {Class(Dependency), Class(BuildOutput)} else {})
      + (if age <= DAY_SECONDS then {Class(Scratch)} else {})
  }

  datatype Backup = Backup(class_: ContentClass, blob: Digest)

  /** A stored object, decoded; a damaged one cannot be read or decoded. */
  datatype Node =
    | SnapshotNode(rootTree: Digest, backups: seq<Backup>)
    | TreeNode(pages: seq<Digest>, entries: seq<TreeEntry>)
    | BlobNode(chunks: seq<Digest>)
    | ChunkNode
    | XattrsNode
    | Damaged(as_: Kind)
  {
    function KindOf(): Kind {
      match this
      case SnapshotNode(_, _) => Snapshot
      case TreeNode(_, _) => Tree
      case BlobNode(_) => Blob
      case ChunkNode => Chunk
      case XattrsNode => Xattrs
      case Damaged(k) => k
    }
  }

  type Objects = map<Digest, Node>

  /** What one object asks of another: keep `id`, of this kind, with at least this mask. */
  datatype Link = Link(id: Digest, kind: Kind, mask: Mask)

  function WantBytes(mask: Mask, class_: ContentClass): Mask {
    if Class(class_) in mask then {BlobBytes} else {}
  }

  function BackupLink(mask: Mask, backup: Backup): Link {
    Link(backup.blob, Blob, WantBytes(mask, backup.class_))
  }

  function EntryLinks(mask: Mask, entry: TreeEntry): seq<Link> {
    (match entry.xattrs case Some(id) => [Link(id, Xattrs, {})] case None => [])
    + (match entry.target
       case None => []
       case Some(id) =>
         match entry.kind
         case File => [Link(id, Blob, WantBytes(mask, entry.class_))]
         case Directory => [Link(id, Tree, mask)]
         case _ => [])
  }

  function ChunkLinks(mask: Mask, chunks: seq<Digest>): seq<Link> {
    if BlobBytes in mask then seq(|chunks|, i requires 0 <= i < |chunks| => Link(chunks[i], Chunk, {})) else []
  }

  function PageLinks(mask: Mask, pages: seq<Digest>): seq<Link> {
    seq(|pages|, i requires 0 <= i < |pages| => Link(pages[i], Tree, mask))
  }

  function AllEntryLinks(mask: Mask, entries: seq<TreeEntry>): seq<Link> {
    if entries == [] then []
    else AllEntryLinks(mask, entries[..|entries| - 1]) + EntryLinks(mask, entries[|entries| - 1])
  }

  /** Everything an object with this mask asks for, in the order it is queued. The parent of a
      snapshot is timeline metadata and is not followed. */
  function Links(node: Node, mask: Mask): seq<Link> {
    match node
    case SnapshotNode(root, backups) =>
      [Link(root, Tree, mask)]
      + seq(|backups|, i requires 0 <= i < |backups| => BackupLink(mask, backups[i]))
    case TreeNode(pages, entries) =>
      PageLinks(mask, pages) + AllEntryLinks(mask, entries)
    case BlobNode(chunks) => ChunkLinks(mask, chunks)
    case _ => []
  }

  datatype Mark = Mark(kind: Kind, mask: Mask, processed: bool)

  type Marks = map<Digest, Mark>

  /** The upsert of one mark: a known object only gains bits, and is queued again when it does. */
  function Enqueued(marks: Marks, link: Link): Marks {
    if link.id !in marks then marks[link.id := Mark(link.kind, link.mask, false)]
    else
      var old_ := marks[link.id];
      if link.mask <= old_.mask then marks
      else marks[link.id := Mark(old_.kind, old_.mask + link.mask, false)]
  }

  function EnqueuedAll(marks: Marks, links: seq<Link>): Marks {
    if links == [] then marks
    else Enqueued(EnqueuedAll(marks, links[..|links| - 1]), links[|links| - 1])
  }

  /** `marks` grants what the link asks for. */
  predicate Grants(marks: Marks, link: Link) {
    link.id in marks && link.mask <= marks[link.id].mask
  }

  ghost predicate GrantsAll(marks: Marks, links: seq<Link>) {
    forall i | 0 <= i < |links| :: Grants(marks, links[i])
  }

  /** Marks only grow: every object keeps its kind and its bits. */
  ghost predicate Below(small: Marks, big: Marks) {
    forall id | id in small :: id in big && small[id].kind == big[id].kind && small[id].mask <= big[id].mask
  }

  /** A set of marks that grants the roots and whatever any marked object asks for. */
  ghost predicate Closed(objects: Objects, roots: seq<Link>, marks: Marks) {
    && GrantsAll(marks, roots)
    && forall id | id in marks && id in objects :: GrantsAll(marks, Links(objects[id], marks[id].mask))
  }

  predicate Readable(objects: Objects, id: Digest, kind: Kind) {
    id in objects && objects[id].KindOf() == kind && !objects[id].Damaged?
  }

  /** Closed, every link meeting its own kind, and every marked object readable: what an intact store offers. */
  ghost predicate Intact(objects: Objects, roots: seq<Link>, marks: Marks) {
    && Closed(objects, roots, marks)
    && (forall i | 0 <= i < |roots| :: roots[i].id in marks && marks[roots[i].id].kind == roots[i].kind)
    && (forall id | id in marks :: Readable(objects, id, marks[id].kind))
    && (forall id | id in marks && id in objects :: KindsAgree(marks, Links(objects[id], marks[id].mask)))
  }

  ghost predicate KindsAgree(marks: Marks, links: seq<Link>) {
    forall i | 0 <= i < |links| :: links[i].id in marks ==> marks[links[i].id].kind == links[i].kind
  }

  /** No object names itself: an identity is a hash over the very bytes that hold the names. */
  ghost predicate NoSelfReference(objects: Objects) {
    forall id, mask: Mask, i: nat ::
      id in objects && i < |Links(objects[id], mask)| ==> Links(objects[id], mask)[i].id != id
  }

  /** The masks of `small` are held by `big`, whatever kinds they record. */
  ghost predicate Within(small: Marks, big: Marks) {
    forall id | id in small :: id in big && small[id].mask <= big[id].mask
  }

  ghost predicate SameKinds(a: Marks, b: Marks) {
    forall id | id in a && id in b :: a[id].kind == b[id].kind
  }

  /** Link by link, `a` asks for no more than `b` does. */
  ghost predicate NoMoreThan(a: seq<Link>, b: seq<Link>) {
    |a| <= |b| && forall i | 0 <= i < |a| :: a[i].id == b[i].id && a[i].kind == b[i].kind && a[i].mask <= b[i].mask
  }

  lemma {:induction false} EntryLinksMonotone(entries: seq<TreeEntry>, small: Mask, big: Mask)
    requires small <= big
    ensures |AllEntryLinks(small, entries)| == |AllEntryLinks(big, entries)|
    ensures NoMoreThan(AllEntryLinks(small, entries), AllEntryLinks(big, entries))
  {
    if entries != [] {
      EntryLinksMonotone(entries[..|entries| - 1], small, big);
    }
  }

  /** A larger mask never asks for less. */
  lemma LinksMonotone(node: Node, small: Mask, big: Mask)
    requires small <= big
    ensures NoMoreThan(Links(node, small), Links(node, big))
  {
    if node.TreeNode? {
      EntryLinksMonotone(node.entries, small, big);
    }
  }

  lemma GrantsLess(marks: Marks, a: seq<Link>, b: seq<Link>)
    requires NoMoreThan(a, b) && GrantsAll(marks, b)
    ensures GrantsAll(marks, a)
  {
    forall i | 0 <= i < |a| ensures Grants(marks, a[i]) {
      assert Grants(marks, b[i]);
    }
  }

  function LinkIds(links: seq<Link>): set<Digest> {
    set i | 0 <= i < |links| :: links[i].id
  }

  /** What upserts may do to the marks: nothing is lost, and whatever gained a bit is queued again. */
  ghost predicate Grown(marks: Marks, after: Marks) {
    && Below(marks, after)
    && (forall id | id in after && after[id].processed :: id in marks && after[id] == marks[id])
    && (forall id | id in marks && after[id].mask == marks[id].mask :: after[id] == marks[id])
  }

  /** Only these objects are new or changed. */
  ghost predicate ChangedOnly(marks: Marks, after: Marks, ids: set<Digest>) {
    after.Keys <= marks.Keys + ids && forall id | id in marks && id !in ids :: id in after && after[id] == marks[id]
  }

  lemma GrownTwice(a: Marks, b: Marks, c: Marks)
    requires Grown(a, b) && Grown(b, c)
    ensures Grown(a, c) && Below(b, c)
  {
  }

  lemma GrantsGrow(marks: Marks, after: Marks, links: seq<Link>)
    requires GrantsAll(marks, links) && Below(marks, after)
    ensures GrantsAll(after, links)
  {
    forall i | 0 <= i < |links| ensures Grants(after, links[i]) {
      assert Grants(marks, links[i]);
    }
  }

  lemma EnqueuedGrows(marks: Marks, link: Link)
    ensures Grants(Enqueued(marks, link), link)
    ensures Grown(marks, Enqueued(marks, link))
    ensures ChangedOnly(marks, Enqueued(marks, link), {link.id})
  {
  }

  lemma NothingChanged(marks: Marks)
    ensures Grown(marks, marks) && ChangedOnly(marks, marks, LinkIds([]))
  {
  }

  lemma ChangedTwice(a: Marks, b: Marks, c: Marks, ids: set<Digest>, more: set<Digest>)
    requires ChangedOnly(a, b, ids) && ChangedOnly(b, c, more)
    ensures ChangedOnly(a, c, ids + more)
  {
  }

  /** One pass of upserts grants every link and touches nothing else. */
  lemma {:induction false} EnqueuedAllGrows(marks: Marks, links: seq<Link>)
    ensures GrantsAll(EnqueuedAll(marks, links), links)
    ensures Grown(marks, EnqueuedAll(marks, links))
    ensures ChangedOnly(marks, EnqueuedAll(marks, links), LinkIds(links))
  {
    hide Enqueued, Grown, ChangedOnly;
    NothingChanged(marks);
    if links != [] {
      var front, last := links[..|links| - 1], links[|links| - 1];
      EnqueuedAllGrows(marks, front);
      var before := EnqueuedAll(marks, front);
      EnqueuedGrows(before, last);
      GrownTwice(marks, before, Enqueued(before, last));
      ChangedTwice(marks, before, Enqueued(before, last), LinkIds(front), {last.id});
      GrantsGrow(before, Enqueued(before, last), front);
      assert links == front + [last];
      assert LinkIds(links) == LinkIds(front) + {last.id} by {
        assert forall i | 0 <= i < |front| :: front[i] == links[i];
      }
    }
  }

  /** Upserts stay within anything that grants them. */
  lemma {:induction false} EnqueuedAllWithin(marks: Marks, links: seq<Link>, limit: Marks)
    requires Within(marks, limit) && GrantsAll(limit, links)
    ensures Within(EnqueuedAll(marks, links), limit)
  {
    if links != [] {
      var front := links[..|links| - 1];
      assert Grants(limit, links[|links| - 1]);
      assert GrantsAll(limit, front) by {
        forall i | 0 <= i < |front| ensures Grants(limit, front[i]) {
          assert Grants(limit, links[i]);
        }
      }
      EnqueuedAllWithin(marks, front, limit);
    }
  }

  lemma {:induction false} EnqueuedAllKinds(marks: Marks, links: seq<Link>, limit: Marks)
    requires SameKinds(marks, limit) && KindsAgree(limit, links)
    ensures SameKinds(EnqueuedAll(marks, links), limit)
  {
    if links != [] {
      EnqueuedAllKinds(marks, links[..|links| - 1], limit);
    }
  }

  lemma EnqueuedAllStep(marks: Marks, links: seq<Link>, k: nat)
    requires k < |links|
    ensures EnqueuedAll(marks, links[..k + 1]) == Enqueued(EnqueuedAll(marks, links[..k]), links[k])
  {
    assert links[..k + 1][..k] == links[..k];
  }

  /** What the worklist has settled: every processed object is readable and granted what it asks for. */
  ghost predicate Settled(objects: Objects, marks: Marks) {
    forall id | id in marks && marks[id].processed ::
      Readable(objects, id, marks[id].kind) && GrantsAll(marks, Links(objects[id], marks[id].mask))
  }

  /** No set of marks that grants the roots and is closed can do with less than `marks` holds. */
  ghost predicate Necessary(objects: Objects, roots: seq<Link>, marks: Marks) {
    && (forall other: Marks | Closed(objects, roots, other) :: Within(marks, other))
    && (forall other: Marks | Intact(objects, roots, other) :: SameKinds(marks, other))
  }

  ghost predicate Progress(objects: Objects, roots: seq<Link>, marks: Marks) {
    GrantsAll(marks, roots) && Settled(objects, marks) && Necessary(objects, roots, marks)
  }

  lemma RootsProgress(objects: Objects, roots: seq<Link>)
    ensures Progress(objects, roots, EnqueuedAll(map[], roots))
  {
    EnqueuedAllGrows(map[], roots);
    forall other: Marks | Closed(objects, roots, other) ensures Within(EnqueuedAll(map[], roots), other) {
      EnqueuedAllWithin(map[], roots, other);
    }
    forall other: Marks | Intact(objects, roots, other) ensures SameKinds(EnqueuedAll(map[], roots), other) {
      EnqueuedAllKinds(map[], roots, other);
    }
  }

  lemma NotLinked(objects: Objects, id: Digest, mask: Mask)
    requires NoSelfReference(objects) && id in objects
    ensures id !in LinkIds(Links(objects[id], mask))
  {
  }

  /** One turn of the worklist. */
  function Turn(objects: Objects, marks: Marks, id: Digest): Marks
    requires id in marks && id in objects
  {
    var after := EnqueuedAll(marks, Links(objects[id], marks[id].mask));
    if id in after then after[id := after[id].(processed := true)] else after
  }

  lemma SameMasksGrant(a: Marks, b: Marks, links: seq<Link>)
    requires GrantsAll(a, links) && Within(a, b)
    ensures GrantsAll(b, links)
  {
    forall i | 0 <= i < |links| ensures Grants(b, links[i]) {
      assert Grants(a, links[i]);
    }
  }

  lemma TurnKeepsProgress(objects: Objects, roots: seq<Link>, marks: Marks, id: Digest)
    requires NoSelfReference(objects) && Progress(objects, roots, marks)
    requires id in marks && Readable(objects, id, marks[id].kind)
    ensures Progress(objects, roots, Turn(objects, marks, id))
  {
    var links := Links(objects[id], marks[id].mask);
    var queued, after := EnqueuedAll(marks, links), Turn(objects, marks, id);
    EnqueuedAllGrows(marks, links);
    NotLinked(objects, id, marks[id].mask);
    assert queued[id] == marks[id];
    forall i | 0 <= i < |roots| ensures Grants(after, roots[i]) {
      assert Grants(marks, roots[i]);
    }
    forall other | other in after && after[other].processed
      ensures Readable(objects, other, after[other].kind)
      ensures GrantsAll(after, Links(objects[other], after[other].mask))
    {
      var asked := Links(objects[other], after[other].mask);
      if other != id {
        GrantsGrow(marks, queued, asked);
      }
      SameMasksGrant(queued, after, asked);
    }
    TurnIsNecessary(objects, roots, marks, id);
  }

  /** Marks within a closed set: what the object asks for is granted there. */
  lemma ClosedGrants(objects: Objects, roots: seq<Link>, marks: Marks, id: Digest, other: Marks)
    requires id in marks && id in objects && Within(marks, other) && Closed(objects, roots, other)
    ensures GrantsAll(other, Links(objects[id], marks[id].mask))
  {
    hide Links;
    LinksMonotone(objects[id], marks[id].mask, other[id].mask);
    GrantsLess(other, Links(objects[id], marks[id].mask), Links(objects[id], other[id].mask));
  }

  lemma IntactAgrees(objects: Objects, roots: seq<Link>, marks: Marks, id: Digest, other: Marks)
    requires id in marks && id in objects && Within(marks, other) && Intact(objects, roots, other)
    ensures KindsAgree(other, Links(objects[id], marks[id].mask))
  {
    hide Links, Closed, Readable;
    LinksMonotone(objects[id], marks[id].mask, other[id].mask);
    var links, theirs := Links(objects[id], marks[id].mask), Links(objects[id], other[id].mask);
    forall i | 0 <= i < |links| && links[i].id in other ensures other[links[i].id].kind == links[i].kind {
      assert theirs[i].id == links[i].id;
    }
  }

  lemma TurnKeepsMasks(objects: Objects, marks: Marks, id: Digest, other: Marks)
    requires id in marks && id in objects
    requires Within(EnqueuedAll(marks, Links(objects[id], marks[id].mask)), other)
    ensures Within(Turn(objects, marks, id), other)
  {
    hide Links;
  }

  lemma TurnKeepsKinds(objects: Objects, marks: Marks, id: Digest, other: Marks)
    requires id in marks && id in objects
    requires SameKinds(EnqueuedAll(marks, Links(objects[id], marks[id].mask)), other)
    ensures SameKinds(Turn(objects, marks, id), other)
  {
    hide Links;
  }

  lemma TurnIsNecessary(objects: Objects, roots: seq<Link>, marks: Marks, id: Digest)
    requires id in marks && id in objects && Necessary(objects, roots, marks)
    ensures Necessary(objects, roots, Turn(objects, marks, id))
  {
    hide Links, Closed, Intact, Turn, Within, SameKinds, GrantsAll, KindsAgree;
    var links := Links(objects[id], marks[id].mask);
    forall other: Marks | Closed(objects, roots, other) ensures Within(Turn(objects, marks, id), other) {
      ClosedGrants(objects, roots, marks, id, other);
      EnqueuedAllWithin(marks, links, other);
      TurnKeepsMasks(objects, marks, id, other);
    }
    forall other: Marks | Intact(objects, roots, other) ensures SameKinds(Turn(objects, marks, id), other) {
      IntactIsClosed(objects, roots, other);
      IntactAgrees(objects, roots, marks, id, other);
      EnqueuedAllKinds(marks, links, other);
      TurnKeepsKinds(objects, marks, id, other);
    }
  }

  lemma IntactIsClosed(objects: Objects, roots: seq<Link>, marks: Marks)
    requires Intact(objects, roots, marks)
    ensures Closed(objects, roots, marks)
  {
  }

  // ---------- Termination ----------

  const FULL: Mask := ALL_CLASS_MASK + {BlobBytes}

  /** Every identity that marking these objects from these roots can meet. */
  function Universe(objects: Objects, roots: seq<Link>): set<Digest> {
    LinkIds(roots) + set id, other | id in objects && other in LinkIds(Links(objects[id], FULL)) :: other
  }

  function MissingBits(marks: Marks): set<(Digest, Bit)> {
    set id, bit | id in marks && bit in FULL && bit !in marks[id].mask :: (id, bit)
  }

  function Pending(marks: Marks): set<Digest> {
    set id | id in marks && !marks[id].processed
  }

  lemma EveryBit(mask: Mask)
    ensures mask <= FULL
  {
    forall bit | bit in mask ensures bit in FULL {
      if bit.Class? {
        match bit.class_ { case Source | VcsMeta | ConfigSecret | Dependency | BuildOutput | Database | Lockfile | Scratch => }
      }
    }
  }

  /** Each turn meets a new object, or gains a bit, or leaves one fewer row pending. */
  lemma TurnAdvances(objects: Objects, roots: seq<Link>, marks: Marks, id: Digest)
    requires id in marks && !marks[id].processed && id in objects
    requires marks.Keys <= Universe(objects, roots)
    requires NoSelfReference(objects)
    ensures var after := Turn(objects, marks, id);
            && marks.Keys <= after.Keys <= Universe(objects, roots)
            && (marks.Keys == after.Keys ==> MissingBits(after) <= MissingBits(marks))
            && (marks.Keys == after.Keys && MissingBits(after) == MissingBits(marks) ==>
                  Pending(after) < Pending(marks))
  {
    var links := Links(objects[id], marks[id].mask);
    var queued, after := EnqueuedAll(marks, links), Turn(objects, marks, id);
    EnqueuedAllGrows(marks, links);
    NotLinked(objects, id, marks[id].mask);
    assert queued[id] == marks[id];
    EveryBit(marks[id].mask);
    LinksMonotone(objects[id], marks[id].mask, FULL);
    forall other | other in after ensures other in Universe(objects, roots) {
      if other !in marks {
        var i :| 0 <= i < |links| && links[i].id == other;
        assert Links(objects[id], FULL)[i].id == other;
        assert other in LinkIds(Links(objects[id], FULL));
      }
    }
    if marks.Keys == after.Keys {
      assert MissingBits(after) <= MissingBits(marks) by {
        forall pair | pair in MissingBits(after) ensures pair in MissingBits(marks) {
          assert pair.0 in marks && marks[pair.0].mask <= after[pair.0].mask;
        }
      }
      if MissingBits(after) == MissingBits(marks) {
        forall other | other in after ensures after[other].mask == marks[other].mask {
          EveryBit(after[other].mask);
          forall bit | bit in after[other].mask ensures bit in marks[other].mask {
            assert (other, bit) !in MissingBits(after);
          }
        }
        forall other | other in Pending(after) ensures other in Pending(marks) {
          assert queued[other] == marks[other];
        }
        assert id in Pending(marks) && id !in Pending(after);
      }
    }
  }

  // ---------- The mark database ----------

  class MarkDatabase {
    var marks: Marks

    constructor ()
      ensures marks == map[]
    {
      marks := map[];
    }

    /** Reports whether a row was inserted or changed. */
    method Enqueue(id: Digest, kind: Kind, mask: Mask) returns (changed: bool)
      modifies this
      ensures marks == Enqueued(old(marks), Link(id, kind, mask))
      ensures changed <==> id !in old(marks) || !(mask <= old(marks)[id].mask)
    {
      if id !in marks {
        marks := marks[id := Mark(kind, mask, false)];
        changed := true;
      } else if marks[id].mask + mask != marks[id].mask {
        marks := marks[id := Mark(marks[id].kind, marks[id].mask + mask, false)];
        changed := true;
      } else {
        changed := false;
      }
    }

    method Next() returns (next: Option<Digest>)
      ensures next.None? <==> forall id | id in marks :: marks[id].processed
      ensures next.Some? ==> next.value in marks && !marks[next.value].processed
    {
      if id :| id in marks && !marks[id].processed {
        next := Some(id);
      } else {
        next := None;
      }
    }

    method Processed(id: Digest)
      modifies this
      ensures marks == if id in old(marks) then old(marks)[id := old(marks)[id].(processed := true)] else old(marks)
    {
      if id in marks {
        marks := marks[id := marks[id].(processed := true)];
      }
    }

    method EnqueueSnapshot(rootTree: Digest, backups: seq<Backup>, mask: Mask)
      modifies this
      ensures marks == EnqueuedAll(old(marks), Links(SnapshotNode(rootTree, backups), mask))
    {
      ghost var links := Links(SnapshotNode(rootTree, backups), mask);
      EnqueuedAllStep(marks, links, 0);
      var _ := Enqueue(rootTree, Tree, mask);
      for i := 0 to |backups|
        invariant marks == EnqueuedAll(old(marks), links[..i + 1])
      {
        EnqueuedAllStep(old(marks), links, i + 1);
        var keepBytes := Class(backups[i].class_) in mask;
        var _ := Enqueue(backups[i].blob, Blob, if keepBytes then {BlobBytes} else {});
      }
      assert links[..|backups| + 1] == links;
    }

    method EnqueueEntry(entry: TreeEntry, mask: Mask)
      modifies this
      ensures marks == EnqueuedAll(old(marks), EntryLinks(mask, entry))
    {
      ghost var links := EntryLinks(mask, entry);
      if entry.xattrs.Some? {
        EnqueuedAllStep(marks, links, 0);
        var _ := Enqueue(entry.xattrs.value, Xattrs, {});
      }
      ghost var done := if entry.xattrs.Some? then 1 else 0;
      assert marks == EnqueuedAll(old(marks), links[..done]);
      if entry.target.Some? && (entry.kind.File? || entry.kind.Directory?) {
        EnqueuedAllStep(old(marks), links, done);
        match entry.kind {
          case File =>
            var _ := Enqueue(entry.target.value, Blob, if Class(entry.class_) in mask then {BlobBytes} else {});
          case Directory =>
            var _ := Enqueue(entry.target.value, Tree, mask);
        }
      }
      assert links[..|links|] == links;
    }

    method EnqueuePages(pages: seq<Digest>, mask: Mask)
      modifies this
      ensures marks == EnqueuedAll(old(marks), PageLinks(mask, pages))
    {
      ghost var links := PageLinks(mask, pages);
      for i := 0 to |pages|
        invariant marks == EnqueuedAll(old(marks), links[..i])
      {
        EnqueuedAllStep(old(marks), links, i);
        var _ := Enqueue(pages[i], Tree, mask);
      }
      assert links[..|pages|] == links;
    }

    method EnqueueEntries(entries: seq<TreeEntry>, mask: Mask)
      modifies this
      ensures marks == EnqueuedAll(old(marks), AllEntryLinks(mask, entries))
    {
      for i := 0 to |entries|
        invariant marks == EnqueuedAll(old(marks), AllEntryLinks(mask, entries[..i]))
      {
        EntriesStep(mask, entries, i);
        EnqueuedAllJoin(old(marks), AllEntryLinks(mask, entries[..i]), EntryLinks(mask, entries[i]));
        EnqueueEntry(entries[i], mask);
      }
      assert entries[..|entries|] == entries;
    }

    method EnqueueTree(pages: seq<Digest>, entries: seq<TreeEntry>, mask: Mask)
      modifies this
      ensures marks == EnqueuedAll(old(marks), Links(TreeNode(pages, entries), mask))
    {
      EnqueuedAllJoin(marks, PageLinks(mask, pages), AllEntryLinks(mask, entries));
      EnqueuePages(pages, mask);
      EnqueueEntries(entries, mask);
    }

    method EnqueueBlob(chunks: seq<Digest>, mask: Mask)
      modifies this
      ensures marks == EnqueuedAll(old(marks), Links(BlobNode(chunks), mask))
    {
      if BlobBytes in mask {
        ghost var links := Links(BlobNode(chunks), mask);
        for i := 0 to |chunks|
          invariant marks == EnqueuedAll(old(marks), links[..i])
        {
          EnqueuedAllStep(old(marks), links, i);
          var _ := Enqueue(chunks[i], Chunk, {});
        }
        assert links[..|chunks|] == links;
      }
    }

    method EnqueueChildren(node: Node, mask: Mask)
      modifies this
      ensures marks == EnqueuedAll(old(marks), Links(node, mask))
    {
      match node {
        case SnapshotNode(root, backups) => EnqueueSnapshot(root, backups, mask);
        case TreeNode(pages, entries) => EnqueueTree(pages, entries, mask);
        case BlobNode(chunks) => EnqueueBlob(chunks, mask);
        case _ =>
      }
    }

    /** The collector's worklist. On success the marks are the least closed ones over the roots and
        every marked object is readable; it succeeds on every store that has something to offer. */
    method Traverse(objects: Objects, ghost roots: seq<Link>) returns (ok: bool)
      requires NoSelfReference(objects)
      requires marks == EnqueuedAll(map[], roots)
      modifies this
      ensures Progress(objects, roots, marks)
      ensures ok ==> Closed(objects, roots, marks)
      ensures ok ==> forall id | id in marks :: Readable(objects, id, marks[id].kind)
      ensures (exists other: Marks :: Intact(objects, roots, other)) ==> ok
    {
      RootsProgress(objects, roots);
      RootsInUniverse(objects, roots);
      ok := true;
      while ok
        invariant Progress(objects, roots, marks)
        invariant marks.Keys <= Universe(objects, roots)
        invariant !ok ==> forall other: Marks :: !Intact(objects, roots, other)
        decreases ok, Universe(objects, roots) - marks.Keys, MissingBits(marks), Pending(marks)
      {
        var next := Next();
        if next.None? {
          return;
        }
        var id := next.value;
        var mark := marks[id];
        if id !in objects || objects[id].KindOf() != mark.kind || objects[id].Damaged? {
          UnreadableIsNotIntact(objects, roots, marks, id);
          ok := false;
        } else {
          TurnKeepsProgress(objects, roots, marks, id);
          TurnAdvances(objects, roots, marks, id);
          EnqueueChildren(objects[id], mark.mask);
          Processed(id);
        }
      }
    }
  }

  lemma RootsInUniverse(objects: Objects, roots: seq<Link>)
    ensures EnqueuedAll(map[], roots).Keys <= Universe(objects, roots)
  {
    EnqueuedAllGrows(map[], roots);
  }

  lemma UnreadableIsNotIntact(objects: Objects, roots: seq<Link>, marks: Marks, id: Digest)
    requires Progress(objects, roots, marks) && id in marks && !Readable(objects, id, marks[id].kind)
    ensures forall other: Marks :: !Intact(objects, roots, other)
  {
    forall other: Marks ensures !Intact(objects, roots, other) {
    }
  }

  lemma EntriesStep(mask: Mask, entries: seq<TreeEntry>, i: nat)
    requires i < |entries|
    ensures AllEntryLinks(mask, entries[..i + 1]) == AllEntryLinks(mask, entries[..i]) + EntryLinks(mask, entries[i])
  {
    assert entries[..i + 1][..i] == entries[..i];
  }

  lemma {:induction false} EnqueuedAllJoin(marks: Marks, a: seq<Link>, b: seq<Link>)
    ensures EnqueuedAll(marks, a + b) == EnqueuedAll(EnqueuedAll(marks, a), b)
  {
    if b == [] {
      assert a + b == a;
    } else {
      EnqueuedAllJoin(marks, a, b[..|b| - 1]);
      assert (a + b)[..|a + b| - 1] == a + b[..|b| - 1];
    }
  }

  // ---------- What a collection keeps ----------

  /** A bit of a class outlives a snapshot exactly as long as the age limit of its class. */
  function AgeLimit(class_: ContentClass): Option<int> {
    match class_
    case Database => Some(30 * DAY_SECONDS)
    case Dependency | BuildOutput => Some(3 * DAY_SECONDS)
    case Scratch => Some(DAY_SECONDS)
    case _ => None
  }

  /** Which classes survive; so an older snapshot, or a later collection, never keeps more. */
  lemma ByteMaskKeeps(now: int, sealedAt: int, exactRoot: bool, bit: Bit)
    requires -MAX_I64 - 1 <= sealedAt && -MAX_I64 - 1 <= now <= MAX_I64
    ensures bit in ByteMask(now, sealedAt, exactRoot) <==>
              bit.Class? && (exactRoot || AgeLimit(bit.class_).None? || now - sealedAt <= AgeLimit(bit.class_).value)
  {
    EveryBit({bit});
  }

  lemma ByteMaskFades(now: int, later: int, sealedAt: int, newer: int)
    requires -MAX_I64 - 1 <= sealedAt <= newer && -MAX_I64 - 1 <= now <= later <= MAX_I64
    ensures ByteMask(later, sealedAt, false) <= ByteMask(now, newer, false)
    ensures ByteMask(now, sealedAt, true) == ALL_CLASS_MASK
  {
    forall bit | bit in ByteMask(later, sealedAt, false) ensures bit in ByteMask(now, newer, false) {
      ByteMaskKeeps(later, sealedAt, false, bit);
      ByteMaskKeeps(now, newer, false, bit);
    }
  }

  ghost predicate ChildTree(node: Node, id: Digest) {
    && node.TreeNode?
    && (id in node.pages || exists i :: 0 <= i < |node.entries| && node.entries[i].kind.Directory? && node.entries[i].target == Some(id))
  }

  ghost predicate HoldsFile(node: Node, class_: ContentClass, blob: Digest) {
    && node.TreeNode?
    && exists i :: 0 <= i < |node.entries| && node.entries[i].kind.File?
         && node.entries[i].target == Some(blob) && node.entries[i].class_ == class_
  }

  /** A walk down pages and directories. */
  ghost predicate Walk(objects: Objects, trail: seq<Digest>) {
    && trail != []
    && forall k | 0 <= k < |trail| - 1 :: trail[k] in objects && ChildTree(objects[trail[k]], trail[k + 1])
  }

  ghost predicate WalkFrom(objects: Objects, root: Link, trail: seq<Digest>, end: Digest) {
    && root.id in objects && objects[root.id].SnapshotNode?
    && Walk(objects, trail) && trail[0] == objects[root.id].rootTree && trail[|trail| - 1] == end
  }

  /** The snapshot of this root names the blob under a class whose bytes the root keeps. */
  ghost predicate WantsBlob(objects: Objects, root: Link, blob: Digest) {
    && root.id in objects && objects[root.id].SnapshotNode?
    && ((exists i :: 0 <= i < |objects[root.id].backups| && objects[root.id].backups[i].blob == blob
           && Class(objects[root.id].backups[i].class_) in root.mask)
        || (exists trail: seq<Digest>, end: Digest, class_: ContentClass ::
              WalkFrom(objects, root, trail, end) && end in objects && HoldsFile(objects[end], class_, blob)
              && Class(class_) in root.mask))
  }

  ghost predicate WantsChunk(objects: Objects, root: Link, chunk: Digest) {
    exists blob :: WantsBlob(objects, root, blob) && blob in objects && objects[blob].BlobNode? && chunk in objects[blob].chunks
  }

  /** One object names another as being of a kind, whatever is wanted of it. */
  ghost predicate Names(node: Node, id: Digest, kind: Kind) {
    match node
    case SnapshotNode(root, backups) =>
      (kind == Tree && id == root) || (kind == Blob && exists i :: 0 <= i < |backups| && backups[i].blob == id)
    case TreeNode(pages, entries) =>
      || (kind == Tree && ChildTree(node, id))
      || (kind == Blob && exists i :: 0 <= i < |entries| && entries[i].kind.File? && entries[i].target == Some(id))
      || (kind == Xattrs && HasAttributes(node, id))
    case BlobNode(chunks) => kind == Chunk && id in chunks
    case _ => false
  }

  /** Some entry of the tree has these extended attributes. */
  ghost predicate HasAttributes(node: Node, id: Digest) {
    node.TreeNode? && exists i :: 0 <= i < |node.entries| && node.entries[i].xattrs == Some(id)
  }

  /** Every stored object is of the kind its referrers name. */
  ghost predicate WellTyped(objects: Objects) {
    forall id, other, kind | id in objects && other in objects && Names(objects[id], other, kind) ::
      objects[other].KindOf() == kind
  }

  ghost predicate SnapshotRoots(objects: Objects, roots: seq<Link>) {
    forall i | 0 <= i < |roots| ::
      roots[i].kind == Snapshot && roots[i].mask <= ALL_CLASS_MASK
      && (roots[i].id in objects ==> objects[roots[i].id].KindOf() == Snapshot)
  }

  lemma GrantedLink(marks: Marks, links: seq<Link>, link: Link)
    requires GrantsAll(marks, links) && link in links
    ensures Grants(marks, link)
  {
  }

  lemma {:induction false} EntryLinked(entries: seq<TreeEntry>, mask: Mask, i: nat, link: Link)
    requires i < |entries| && link in EntryLinks(mask, entries[i])
    ensures link in AllEntryLinks(mask, entries)
  {
    if i < |entries| - 1 {
      EntryLinked(entries[..|entries| - 1], mask, i, link);
    }
  }

  lemma {:induction false} LinkedEntry(entries: seq<TreeEntry>, mask: Mask, link: Link) returns (i: nat)
    requires link in AllEntryLinks(mask, entries)
    ensures i < |entries| && link in EntryLinks(mask, entries[i])
  {
    if link in EntryLinks(mask, entries[|entries| - 1]) {
      i := |entries| - 1;
    } else {
      i := LinkedEntry(entries[..|entries| - 1], mask, link);
    }
  }

  lemma ChildLinked(node: Node, mask: Mask, id: Digest)
    requires ChildTree(node, id)
    ensures Link(id, Tree, mask) in Links(node, mask)
  {
    var link := Link(id, Tree, mask);
    if id in node.pages {
      var i :| 0 <= i < |node.pages| && node.pages[i] == id;
      assert PageLinks(mask, node.pages)[i] == link;
    } else {
      var i :| 0 <= i < |node.entries| && node.entries[i].kind.Directory? && node.entries[i].target == Some(id);
      EntryLinked(node.entries, mask, i, link);
    }
  }

  lemma FileLinked(node: Node, mask: Mask, class_: ContentClass, blob: Digest)
    requires HoldsFile(node, class_, blob)
    ensures Link(blob, Blob, WantBytes(mask, class_)) in Links(node, mask)
  {
    var i :| 0 <= i < |node.entries| && node.entries[i].kind.File?
      && node.entries[i].target == Some(blob) && node.entries[i].class_ == class_;
    EntryLinked(node.entries, mask, i, Link(blob, Blob, WantBytes(mask, class_)));
  }

  /** A tree asks for child trees with its own mask, for files by class, and for attributes. */
  lemma TreeLinks(node: Node, mask: Mask, link: Link)
    requires node.TreeNode? && link in Links(node, mask)
    ensures || (link == Link(link.id, Tree, mask) && ChildTree(node, link.id))
            || link == Link(link.id, Xattrs, {})
            || (link.kind == Blob && exists class_ :: HoldsFile(node, class_, link.id) && link.mask == WantBytes(mask, class_))
  {
    if link in PageLinks(mask, node.pages) {
    } else {
      var i := LinkedEntry(node.entries, mask, link);
      if link.kind == Blob {
        assert HoldsFile(node, node.entries[i].class_, link.id);
      }
    }
  }

  /** Marks that grant a root grant its whole mask to every tree below it. */
  lemma {:induction false} WalkIsMarked(objects: Objects, roots: seq<Link>, marks: Marks, root: Link, trail: seq<Digest>)
    requires Closed(objects, roots, marks) && root in roots
    requires trail != [] && WalkFrom(objects, root, trail, trail[|trail| - 1])
    ensures Grants(marks, Link(trail[|trail| - 1], Tree, root.mask))
    decreases |trail|
  {
    GrantedLink(marks, roots, root);
    if |trail| == 1 {
      var links := Links(objects[root.id], marks[root.id].mask);
      GrantedLink(marks, links, links[0]);
    } else {
      var front := trail[..|trail| - 1];
      assert WalkFrom(objects, root, front, front[|front| - 1]);
      WalkIsMarked(objects, roots, marks, root, front);
      var above, id := front[|front| - 1], trail[|trail| - 1];
      assert ChildTree(objects[above], id) by {
        assert ChildTree(objects[trail[|trail| - 2]], trail[|trail| - 1]);
      }
      ChildLinked(objects[above], marks[above].mask, id);
      GrantedLink(marks, Links(objects[above], marks[above].mask), Link(id, Tree, marks[above].mask));
    }
  }

  lemma WantedBlobIsMarked(objects: Objects, roots: seq<Link>, marks: Marks, root: Link, blob: Digest)
    requires Closed(objects, roots, marks) && root in roots && WantsBlob(objects, root, blob)
    ensures Grants(marks, Link(blob, Blob, {BlobBytes}))
  {
    GrantedLink(marks, roots, root);
    var snapshot := objects[root.id];
    if i :| 0 <= i < |snapshot.backups| && snapshot.backups[i].blob == blob && Class(snapshot.backups[i].class_) in root.mask {
      var links := Links(snapshot, marks[root.id].mask);
      GrantedLink(marks, links, links[i + 1]);
    } else {
      var trail: seq<Digest>, end: Digest, class_: ContentClass :|
        WalkFrom(objects, root, trail, end) && end in objects && HoldsFile(objects[end], class_, blob)
        && Class(class_) in root.mask;
      WalkIsMarked(objects, roots, marks, root, trail);
      FileLinked(objects[end], marks[end].mask, class_, blob);
      GrantedLink(marks, Links(objects[end], marks[end].mask), Link(blob, Blob, WantBytes(marks[end].mask, class_)));
    }
  }

  /** Whatever one root wants is kept, however little the others want of the same objects. */
  lemma WantedChunkIsMarked(objects: Objects, roots: seq<Link>, marks: Marks, root: Link, chunk: Digest)
    requires Closed(objects, roots, marks) && root in roots && WantsChunk(objects, root, chunk)
    ensures chunk in marks
  {
    var blob :| WantsBlob(objects, root, blob) && blob in objects && objects[blob].BlobNode? && chunk in objects[blob].chunks;
    WantedBlobIsMarked(objects, roots, marks, root, blob);
    var links := Links(objects[blob], marks[blob].mask);
    var i :| 0 <= i < |objects[blob].chunks| && objects[blob].chunks[i] == chunk;
    GrantedLink(marks, links, links[i]);
  }

  // The least marks hold nothing else: the wanted part of them is already closed.

  ghost predicate SomeRoot(objects: Objects, roots: seq<Link>, bit: Bit, id: Digest) {
    exists root, trail :: root in roots && WalkFrom(objects, root, trail, id) && bit in root.mask
  }

  ghost predicate BitWanted(objects: Objects, roots: seq<Link>, id: Digest, bit: Bit) {
    id in objects ==>
      match objects[id]
      case SnapshotNode(_, _) => exists root :: root in roots && root.id == id && bit in root.mask
      case TreeNode(_, _) => SomeRoot(objects, roots, bit, id)
      case BlobNode(_) => exists root :: root in roots && WantsBlob(objects, root, id)
      case _ => true
  }

  ghost predicate Wanted(objects: Objects, roots: seq<Link>, id: Digest) {
    id in objects && objects[id].ChunkNode? ==> exists root :: root in roots && WantsChunk(objects, root, id)
  }

  ghost function WantedPart(objects: Objects, roots: seq<Link>, marks: Marks): Marks {
    map id | id in marks && Wanted(objects, roots, id) ::
      marks[id].(mask := set bit | bit in marks[id].mask && BitWanted(objects, roots, id, bit))
  }

  lemma WantedPartGrants(objects: Objects, roots: seq<Link>, marks: Marks, link: Link)
    requires Grants(marks, link) && Wanted(objects, roots, link.id)
    requires forall bit | bit in link.mask :: BitWanted(objects, roots, link.id, bit)
    ensures Grants(WantedPart(objects, roots, marks), link)
  {
  }

  /** What is asked of another object, it is asked because it is named, and as what it is named. */
  lemma LinkIsNamed(node: Node, mask: Mask, link: Link)
    requires link in Links(node, mask)
    ensures Names(node, link.id, link.kind)
  {
    match node {
      case SnapshotNode(_, _) =>
      case TreeNode(_, entries) =>
        if link !in PageLinks(mask, node.pages) {
          var i := LinkedEntry(entries, mask, link);
          assert entries[i].xattrs == Some(link.id) || entries[i].target == Some(link.id);
        }
      case BlobNode(_) =>
      case _ =>
    }
  }

  lemma LinkKind(objects: Objects, id: Digest, mask: Mask, link: Link)
    requires WellTyped(objects) && id in objects && link in Links(objects[id], mask)
    ensures link.id in objects ==> objects[link.id].KindOf() == link.kind
  {
    hide Links, Names;
    LinkIsNamed(objects[id], mask, link);
  }

  lemma SnapshotAsksWanted(objects: Objects, roots: seq<Link>, id: Digest, mask: Mask, link: Link, bit: Bit)
    requires WellTyped(objects) && SnapshotRoots(objects, roots)
    requires id in objects && objects[id].SnapshotNode? && link in Links(objects[id], mask) && bit in link.mask
    requires forall b | b in mask :: BitWanted(objects, roots, id, b)
    ensures BitWanted(objects, roots, link.id, bit)
  {
    LinkKind(objects, id, mask, link);
    var node := objects[id];
    if link.kind == Tree {
      var root :| root in roots && root.id == id && bit in root.mask;
      assert WalkFrom(objects, root, [node.rootTree], link.id);
    } else {
      var i :| 0 <= i < |node.backups| && link == BackupLink(mask, node.backups[i]);
      var root :| root in roots && root.id == id && Class(node.backups[i].class_) in root.mask;
      assert WantsBlob(objects, root, link.id);
    }
  }

  lemma TreeAsksWanted(objects: Objects, roots: seq<Link>, id: Digest, mask: Mask, link: Link, bit: Bit)
    requires WellTyped(objects)
    requires id in objects && objects[id].TreeNode? && link in Links(objects[id], mask) && bit in link.mask
    requires forall b | b in mask :: BitWanted(objects, roots, id, b)
    ensures BitWanted(objects, roots, link.id, bit)
  {
    LinkKind(objects, id, mask, link);
    TreeLinks(objects[id], mask, link);
    if link.kind == Tree {
      assert SomeRoot(objects, roots, bit, id);
      var root, trail :| root in roots && WalkFrom(objects, root, trail, id) && bit in root.mask;
      LongerWalk(objects, root, trail, id, link.id);
      assert SomeRoot(objects, roots, bit, link.id);
    } else {
      var class_ :| HoldsFile(objects[id], class_, link.id) && link.mask == WantBytes(mask, class_);
      assert SomeRoot(objects, roots, Class(class_), id);
      var root, trail :| root in roots && WalkFrom(objects, root, trail, id) && Class(class_) in root.mask;
      assert WantsBlob(objects, root, link.id);
    }
  }

  lemma LongerWalk(objects: Objects, root: Link, trail: seq<Digest>, end: Digest, next: Digest)
    requires WalkFrom(objects, root, trail, end) && end in objects && ChildTree(objects[end], next)
    ensures WalkFrom(objects, root, trail + [next], next)
  {
    var longer := trail + [next];
    forall k | 0 <= k < |longer| - 1 ensures longer[k] in objects && ChildTree(objects[longer[k]], longer[k + 1]) {
      if k < |trail| - 1 {
        assert trail[k] in objects && ChildTree(objects[trail[k]], trail[k + 1]);
      }
    }
  }

  /** What a wanted object asks for, with its wanted bits, is wanted. */
  lemma AsksWanted(objects: Objects, roots: seq<Link>, id: Digest, mask: Mask, link: Link)
    requires WellTyped(objects) && SnapshotRoots(objects, roots)
    requires id in objects && link in Links(objects[id], mask)
    requires forall b | b in mask :: BitWanted(objects, roots, id, b)
    ensures Wanted(objects, roots, link.id)
    ensures forall bit | bit in link.mask :: BitWanted(objects, roots, link.id, bit)
  {
    LinkKind(objects, id, mask, link);
    match objects[id] {
      case SnapshotNode(_, _) =>
        forall bit | bit in link.mask ensures BitWanted(objects, roots, link.id, bit) {
          SnapshotAsksWanted(objects, roots, id, mask, link, bit);
        }
      case TreeNode(_, _) =>
        TreeLinks(objects[id], mask, link);
        forall bit | bit in link.mask ensures BitWanted(objects, roots, link.id, bit) {
          TreeAsksWanted(objects, roots, id, mask, link, bit);
        }
      case BlobNode(chunks) =>
        assert BitWanted(objects, roots, id, BlobBytes);
        var root :| root in roots && WantsBlob(objects, root, id);
        assert WantsChunk(objects, root, link.id);
      case _ =>
    }
  }

  lemma WantedPartIsClosed(objects: Objects, roots: seq<Link>, marks: Marks)
    requires Closed(objects, roots, marks) && WellTyped(objects) && SnapshotRoots(objects, roots)
    ensures Closed(objects, roots, WantedPart(objects, roots, marks))
  {
    var part := WantedPart(objects, roots, marks);
    forall i | 0 <= i < |roots| ensures Grants(part, roots[i]) {
      GrantedLink(marks, roots, roots[i]);
      WantedPartGrants(objects, roots, marks, roots[i]);
    }
    forall id | id in part && id in objects ensures GrantsAll(part, Links(objects[id], part[id].mask)) {
      var links, all := Links(objects[id], part[id].mask), Links(objects[id], marks[id].mask);
      LinksMonotone(objects[id], part[id].mask, marks[id].mask);
      GrantsLess(marks, links, all);
      forall i | 0 <= i < |links| ensures Grants(part, links[i]) {
        assert Grants(marks, links[i]);
        AsksWanted(objects, roots, id, part[id].mask, links[i]);
        WantedPartGrants(objects, roots, marks, links[i]);
      }
    }
  }

  /** The retention policy, path by path: a stored chunk is kept exactly when some root reaches, by a
      walk down pages and directories or by a database backup, a blob that holds the chunk under a class
      whose bytes that root keeps. */
  lemma KeptChunks(objects: Objects, roots: seq<Link>, marks: Marks, chunk: Digest)
    requires Closed(objects, roots, marks) && Necessary(objects, roots, marks)
    requires WellTyped(objects) && SnapshotRoots(objects, roots)
    requires chunk in objects && objects[chunk].ChunkNode?
    ensures chunk in marks <==> exists root :: root in roots && WantsChunk(objects, root, chunk)
  {
    if root :| root in roots && WantsChunk(objects, root, chunk) {
      WantedChunkIsMarked(objects, roots, marks, root, chunk);
    }
    if chunk in marks {
      WantedPartIsClosed(objects, roots, marks);
      assert Within(marks, WantedPart(objects, roots, marks));
      assert chunk in WantedPart(objects, roots, marks);
    }
  }

  /** Under an exact root every class is wanted, so every chunk of every file below it stays. */
  lemma ExactRootKeepsEveryChunk(
      objects: Objects, roots: seq<Link>, marks: Marks, root: Link, trail: seq<Digest>, class_: ContentClass,
      blob: Digest, chunk: Digest)
    requires Closed(objects, roots, marks) && root in roots && root.mask == ALL_CLASS_MASK
    requires trail != [] && WalkFrom(objects, root, trail, trail[|trail| - 1]) && trail[|trail| - 1] in objects
    requires HoldsFile(objects[trail[|trail| - 1]], class_, blob)
    requires blob in objects && objects[blob].BlobNode? && chunk in objects[blob].chunks
    ensures chunk in marks
  {
    EveryBit({Class(class_)});
    assert WantsBlob(objects, root, blob);
    WantedChunkIsMarked(objects, roots, marks, root, chunk);
  }

  // ---------- Which objects stay ----------

  /** Everything an object names, except the chunks of a blob, is asked for, whatever the mask. */
  lemma NamedIsLinked(node: Node, mask: Mask, id: Digest, kind: Kind) returns (link: Link)
    requires Names(node, id, kind) && kind != Chunk
    ensures link in Links(node, mask) && link.id == id
  {
    match node {
      case SnapshotNode(root, backups) =>
        if kind == Tree {
          link := Links(node, mask)[0];
        } else {
          var i :| 0 <= i < |backups| && backups[i].blob == id;
          link := Links(node, mask)[i + 1];
        }
      case TreeNode(_, entries) =>
        if kind == Tree {
          link := Link(id, Tree, mask);
          ChildLinked(node, mask, id);
        } else if kind == Blob {
          var i :| 0 <= i < |entries| && entries[i].kind.File? && entries[i].target == Some(id);
          link := Link(id, Blob, WantBytes(mask, entries[i].class_));
          EntryLinked(entries, mask, i, link);
        } else {
          var i :| 0 <= i < |entries| && entries[i].xattrs == Some(id);
          link := Link(id, Xattrs, {});
          EntryLinked(entries, mask, i, link);
        }
    }
  }

  lemma NamedIsMarked(objects: Objects, roots: seq<Link>, marks: Marks, id: Digest, named: Digest, kind: Kind)
    requires Closed(objects, roots, marks) && id in marks && id in objects
    requires Names(objects[id], named, kind) && kind != Chunk
    ensures named in marks
  {
    hide Links, Names;
    var link := NamedIsLinked(objects[id], marks[id].mask, named, kind);
    GrantedLink(marks, Links(objects[id], marks[id].mask), link);
  }

  /** A root names this object, or a tree below it does. */
  ghost predicate NamedBelow(objects: Objects, root: Link, id: Digest, kind: Kind) {
    || (root.id in objects && objects[root.id].SnapshotNode? && Names(objects[root.id], id, kind))
    || exists trail: seq<Digest>, end: Digest ::
         WalkFrom(objects, root, trail, end) && end in objects && objects[end].TreeNode? && Names(objects[end], id, kind)
  }

  /** Whatever snapshot and trees below a root name stays: pages, directories, files and backups of every class, and
      extended attributes. */
  lemma BelowIsMarked(objects: Objects, roots: seq<Link>, marks: Marks, root: Link, id: Digest, kind: Kind)
    requires Closed(objects, roots, marks) && root in roots && NamedBelow(objects, root, id, kind)
    ensures id in marks
  {
    hide Names, Links;
    GrantedLink(marks, roots, root);
    if root.id in objects && objects[root.id].SnapshotNode? && Names(objects[root.id], id, kind) {
      TreesNameNoChunks(objects[root.id], id, kind);
      NamedIsMarked(objects, roots, marks, root.id, id, kind);
    } else {
      var trail: seq<Digest>, end: Digest :|
        WalkFrom(objects, root, trail, end) && end in objects && objects[end].TreeNode? && Names(objects[end], id, kind);
      WalkIsMarked(objects, roots, marks, root, trail);
      TreesNameNoChunks(objects[end], id, kind);
      NamedIsMarked(objects, roots, marks, end, id, kind);
    }
  }

  lemma TreesNameNoChunks(node: Node, id: Digest, kind: Kind)
    requires !node.BlobNode? && Names(node, id, kind)
    ensures kind != Chunk
  {
  }

  /** The object is a root, or named below one as what it is; chunks are counted by `KeptChunks`. */
  ghost predicate Kept(objects: Objects, roots: seq<Link>, id: Digest)
    requires id in objects
  {
    var kind := objects[id].KindOf();
    || kind == Chunk
    || (kind == Snapshot && exists root :: root in roots && root.id == id)
    || exists root :: root in roots && NamedBelow(objects, root, id, kind)
  }

  lemma AskedIsKept(objects: Objects, roots: seq<Link>, id: Digest, mask: Mask, link: Link)
    requires WellTyped(objects) && SnapshotRoots(objects, roots) && id in objects && Kept(objects, roots, id)
    requires link in Links(objects[id], mask) && link.id in objects
    ensures Kept(objects, roots, link.id)
  {
    LinkKind(objects, id, mask, link);
    LinkIsNamed(objects[id], mask, link);
    hide Links, WellTyped;
    match objects[id] {
      case SnapshotNode(_, _) =>
        NothingNamesSnapshots(objects, roots, id);
        var root :| root in roots && root.id == id;
        assert NamedBelow(objects, root, link.id, link.kind);
      case TreeNode(_, _) =>
        var root, trail := KeptTreeIsWalked(objects, roots, id);
        assert NamedBelow(objects, root, link.id, link.kind);
      case BlobNode(_) =>
      case _ =>
        assert false;
    }
  }

  lemma NothingNamesSnapshots(objects: Objects, roots: seq<Link>, id: Digest)
    requires id in objects && objects[id].SnapshotNode? && Kept(objects, roots, id)
    ensures exists root :: root in roots && root.id == id
  {
  }

  lemma KeptTreeIsWalked(objects: Objects, roots: seq<Link>, id: Digest) returns (root: Link, trail: seq<Digest>)
    requires id in objects && objects[id].TreeNode? && Kept(objects, roots, id)
    ensures root in roots && WalkFrom(objects, root, trail, id)
  {
    root :| root in roots && NamedBelow(objects, root, id, Tree);
    if root.id in objects && objects[root.id].SnapshotNode? && Names(objects[root.id], id, Tree) {
      trail := [id];
    } else {
      var front: seq<Digest>, end: Digest :|
        WalkFrom(objects, root, front, end) && end in objects && objects[end].TreeNode? && Names(objects[end], id, Tree);
      LongerWalk(objects, root, front, end, id);
      trail := front + [id];
    }
  }

  ghost function KeptPart(objects: Objects, roots: seq<Link>, marks: Marks): Marks {
    map id | id in marks && (id in objects ==> Kept(objects, roots, id)) :: marks[id]
  }

  lemma KeptPartIsClosed(objects: Objects, roots: seq<Link>, marks: Marks)
    requires Closed(objects, roots, marks) && WellTyped(objects) && SnapshotRoots(objects, roots)
    ensures Closed(objects, roots, KeptPart(objects, roots, marks))
  {
    hide Links, WellTyped, NamedBelow;
    var part := KeptPart(objects, roots, marks);
    forall i | 0 <= i < |roots| ensures Grants(part, roots[i]) {
      GrantedLink(marks, roots, roots[i]);
    }
    forall id | id in part && id in objects ensures GrantsAll(part, Links(objects[id], part[id].mask)) {
      var links := Links(objects[id], part[id].mask);
      forall i | 0 <= i < |links| ensures Grants(part, links[i]) {
        assert Grants(marks, links[i]);
        if links[i].id in objects {
          AskedIsKept(objects, roots, id, part[id].mask, links[i]);
        }
      }
    }
  }

  /**
    * Which stored objects stay, by what names them and without regard to masks. A snapshot stays if it is a root; a tree,
    * a file or a set of extended attributes if a root's snapshot or a tree below it names it. `KeptChunks` says the same
    * of chunks, which depend on the class of the file.
    */
  lemma KeptObjects(objects: Objects, roots: seq<Link>, marks: Marks, id: Digest)
    requires Closed(objects, roots, marks) && Necessary(objects, roots, marks)
    requires WellTyped(objects) && SnapshotRoots(objects, roots)
    requires id in objects && objects[id].KindOf() != Chunk
    ensures id in marks <==>
              || (objects[id].KindOf() == Snapshot && exists root :: root in roots && root.id == id)
              || exists root :: root in roots && NamedBelow(objects, root, id, objects[id].KindOf())
  {
    hide Links, WellTyped, NamedBelow;
    if id in marks {
      KeptPartIsClosed(objects, roots, marks);
      assert Within(marks, KeptPart(objects, roots, marks));
      assert id in KeptPart(objects, roots, marks);
    } else if root :| root in roots && root.id == id {
      GrantedLink(marks, roots, root);
    } else if root :| root in roots && NamedBelow(objects, root, id, objects[id].KindOf()) {
      BelowIsMarked(objects, roots, marks, root, id, objects[id].KindOf());
    }
  }

  /** Extended attributes stay exactly if an entry of a tree that some root walks to has them. */
  lemma KeptAttributes(objects: Objects, roots: seq<Link>, marks: Marks, id: Digest)
    requires Closed(objects, roots, marks) && Necessary(objects, roots, marks)
    requires WellTyped(objects) && SnapshotRoots(objects, roots)
    requires id in objects && objects[id].XattrsNode?
    ensures id in marks <==>
              exists root, trail: seq<Digest>, end: Digest ::
                root in roots && WalkFrom(objects, root, trail, end) && end in objects && HasAttributes(objects[end], id)
  {
    hide Closed, Necessary, WellTyped, WalkFrom, SnapshotRoots;
    KeptObjects(objects, roots, marks, id);
    if root :| root in roots && NamedBelow(objects, root, id, Xattrs) {
      var trail: seq<Digest>, end: Digest :|
        WalkFrom(objects, root, trail, end) && end in objects && objects[end].TreeNode? && Names(objects[end], id, Xattrs);
      assert HasAttributes(objects[end], id);
    }
    if root, trail: seq<Digest>, end: Digest :|
         root in roots && WalkFrom(objects, root, trail, end) && end in objects && HasAttributes(objects[end], id)
    {
      assert Names(objects[end], id, Xattrs);
      assert NamedBelow(objects, root, id, Xattrs);
    }
  }
}
