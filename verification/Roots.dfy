/** The roots of a collection (gc.rs, enqueue_roots): what each workspace's timeline, unfinished restore and
    incoming sync keep alive, and how much of it. */
module Roots {
  import opened Bytes
  import opened Pack
  import opened Marking
  import Retention
  import Thinning

  type Record = Thinning.Record

  datatype Workspace =
    Workspace(log: seq<Record>, state: Retention.RetentionState, restore: Option<(Digest, Digest)>, incoming: Option<Digest>)

  function Head(log: seq<Record>): nat {
    if log == [] then 0 else log[|log| - 1].sequence
  }

  /** The head and pinned snapshots keep all bytes. */
  predicate Exact(w: Workspace, record: Record) {
    record.sequence == Head(w.log) || Retention.IsPinned(w.state.pins, record.snapshot)
  }

  predicate Retained(w: Workspace, record: Record) {
    Retention.Retains(w.state, record.sequence, record.snapshot)
  }

  function RootOf(w: Workspace, record: Record, now: int): Link {
    Link(record.snapshot, Snapshot, ByteMask(now, record.sealedAt, Exact(w, record)))
  }

  function TimelineLinks(w: Workspace, n: nat, now: int): seq<Link>
    requires n <= |w.log|
  {
    if n == 0 then []
    else
      TimelineLinks(w, n - 1, now) + (if Retained(w, w.log[n - 1]) then [RootOf(w, w.log[n - 1], now)] else [])
  }

  function ExactRoot(id: Digest): Link {
    Link(id, Snapshot, ALL_CLASS_MASK)
  }

  function WorkspaceLinks(w: Workspace, now: int): seq<Link> {
    TimelineLinks(w, |w.log|, now)
    + (if w.restore.Some? then [ExactRoot(w.restore.value.0), ExactRoot(w.restore.value.1)] else [])
    + (if w.incoming.Some? then [ExactRoot(w.incoming.value)] else [])
  }

  function RootLinks(workspaces: seq<Workspace>, now: int): seq<Link> {
    if workspaces == [] then []
    else RootLinks(workspaces[..|workspaces| - 1], now) + WorkspaceLinks(workspaces[|workspaces| - 1], now)
  }

  lemma EnqueuedOne(marks: Marks, links: seq<Link>, link: Link)
    ensures EnqueuedAll(marks, links + [link]) == Enqueued(EnqueuedAll(marks, links), link)
  {
    assert (links + [link])[..|links|] == links;
  }

  method EnqueueWorkspace(db: MarkDatabase, w: Workspace, now: int)
    modifies db
    ensures db.marks == EnqueuedAll(old(db.marks), WorkspaceLinks(w, now))
  {
    hide ByteMask, Retained, Exact, Enqueued;
    ghost var links := [];
    for i := 0 to |w.log|
      invariant links == TimelineLinks(w, i, now)
      invariant db.marks == EnqueuedAll(old(db.marks), links)
    {
      var record := w.log[i];
      if Retained(w, record) {
        var mask := ByteMask(now, record.sealedAt, Exact(w, record));
        EnqueuedOne(old(db.marks), links, Link(record.snapshot, Snapshot, mask));
        links := links + [Link(record.snapshot, Snapshot, mask)];
        var _ := db.Enqueue(record.snapshot, Snapshot, mask);
      }
    }
    if w.restore.Some? {
      var (pre, target) := w.restore.value;
      EnqueuedOne(old(db.marks), links, ExactRoot(pre));
      EnqueuedOne(old(db.marks), links + [ExactRoot(pre)], ExactRoot(target));
      assert links + [ExactRoot(pre)] + [ExactRoot(target)] == links + [ExactRoot(pre), ExactRoot(target)];
      links := links + [ExactRoot(pre), ExactRoot(target)];
      var _ := db.Enqueue(pre, Snapshot, ALL_CLASS_MASK);
      var _ := db.Enqueue(target, Snapshot, ALL_CLASS_MASK);
    }
    if w.incoming.Some? {
      EnqueuedOne(old(db.marks), links, ExactRoot(w.incoming.value));
      links := links + [ExactRoot(w.incoming.value)];
      var _ := db.Enqueue(w.incoming.value, Snapshot, ALL_CLASS_MASK);
    }
    assert links == WorkspaceLinks(w, now);
  }

  method EnqueueRoots(db: MarkDatabase, workspaces: seq<Workspace>, now: int)
    modifies db
    ensures db.marks == EnqueuedAll(old(db.marks), RootLinks(workspaces, now))
  {
    for i := 0 to |workspaces|
      invariant db.marks == EnqueuedAll(old(db.marks), RootLinks(workspaces[..i], now))
    {
      assert workspaces[..i + 1][..i] == workspaces[..i];
      EnqueuedAllJoin(old(db.marks), RootLinks(workspaces[..i], now), WorkspaceLinks(workspaces[i], now));
      EnqueueWorkspace(db, workspaces[i], now);
    }
    assert workspaces[..|workspaces|] == workspaces;
  }

  /** Marking from the roots of all workspaces: on success the marks are the least set that grants every root. */
  method MarkReachable(objects: Objects, workspaces: seq<Workspace>, now: int) returns (ok: bool, marks: Marks)
    requires NoSelfReference(objects)
    ensures ok ==> Closed(objects, RootLinks(workspaces, now), marks) && Necessary(objects, RootLinks(workspaces, now), marks)
    ensures ok ==> forall id | id in marks :: Readable(objects, id, marks[id].kind)
    ensures (exists other: Marks :: Intact(objects, RootLinks(workspaces, now), other)) ==> ok
  {
    hide Closed, Necessary, Intact, NoSelfReference, RootLinks;
    var db := new MarkDatabase();
    EnqueueRoots(db, workspaces, now);
    ok := db.Traverse(objects, RootLinks(workspaces, now));
    marks := db.marks;
    ProgressParts(objects, RootLinks(workspaces, now), marks);
  }

  lemma ProgressParts(objects: Objects, roots: seq<Link>, marks: Marks)
    requires Progress(objects, roots, marks)
    ensures Necessary(objects, roots, marks)
  {
  }

  lemma {:induction false} TimelineHas(w: Workspace, n: nat, now: int, i: nat)
    requires i < n <= |w.log| && Retained(w, w.log[i])
    ensures RootOf(w, w.log[i], now) in TimelineLinks(w, n, now)
  {
    if i < n - 1 {
      TimelineHas(w, n - 1, now, i);
    }
  }

  lemma {:induction false} RootsHave(workspaces: seq<Workspace>, now: int, k: nat, link: Link)
    requires k < |workspaces| && link in WorkspaceLinks(workspaces[k], now)
    ensures link in RootLinks(workspaces, now)
  {
    if k < |workspaces| - 1 {
      RootsHave(workspaces[..|workspaces| - 1], now, k, link);
    }
  }

  /** Whatever a plan dropped, the head of a timeline and its pinned snapshots are roots that keep all bytes,
      whatever their age. */
  lemma HeadAndPinsAreExact(workspaces: seq<Workspace>, now: int, k: nat, i: nat)
    requires k < |workspaces| && i < |workspaces[k].log|
    requires var w := workspaces[k];
      && Thinning.Numbered(w.log) && w.state.evaluatedThrough <= |w.log|
      && (forall s: nat ::
            Retention.InRanges(w.state.retained, s) <==>
            Thinning.KeepsSequence(w.log[..w.state.evaluatedThrough], w.state.evaluatedAt, w.state.pins, s))
    requires || i == |workspaces[k].log| - 1
             || exists pin :: pin in workspaces[k].state.pins && pin.snapshot == workspaces[k].log[i].snapshot
    ensures ExactRoot(workspaces[k].log[i].snapshot) in RootLinks(workspaces, now)
  {
    var w := workspaces[k];
    var record := w.log[i];
    if i == |w.log| - 1 && |w.log| <= w.state.evaluatedThrough {
      assert w.log[..w.state.evaluatedThrough] == w.log;
      assert Thinning.Stays(w.log, w.state.evaluatedAt, Thinning.PinnedSet(w.state.pins), i);
      assert Thinning.KeepsSequence(w.log, w.state.evaluatedAt, w.state.pins, record.sequence);
    }
    assert Retained(w, record) && Exact(w, record);
    TimelineHas(w, |w.log|, now, i);
    RootsHave(workspaces, now, k, ExactRoot(record.snapshot));
  }

  /** Both snapshots of an unfinished restore and the one a sync brings in are roots that keep all bytes. */
  lemma RestoreAndIncomingAreExact(workspaces: seq<Workspace>, now: int, k: nat)
    requires k < |workspaces|
    ensures workspaces[k].restore.Some? ==>
              && Link(workspaces[k].restore.value.0, Snapshot, ALL_CLASS_MASK) in RootLinks(workspaces, now)
              && Link(workspaces[k].restore.value.1, Snapshot, ALL_CLASS_MASK) in RootLinks(workspaces, now)
    ensures workspaces[k].incoming.Some? ==>
              Link(workspaces[k].incoming.value, Snapshot, ALL_CLASS_MASK) in RootLinks(workspaces, now)
  {
    hide RootLinks, TimelineLinks, ALL_CLASS_MASK;
    var w := workspaces[k];
    if w.restore.Some? {
      RootsHave(workspaces, now, k, ExactRoot(w.restore.value.0));
      RootsHave(workspaces, now, k, ExactRoot(w.restore.value.1));
    }
    if w.incoming.Some? {
      RootsHave(workspaces, now, k, ExactRoot(w.incoming.value));
    }
  }

  /** And nothing else is a root: a root is a retained record, one side of a restore, or an incoming snapshot. */
  lemma {:induction false} RootIsNamed(workspaces: seq<Workspace>, now: int, link: Link)
    requires link in RootLinks(workspaces, now)
    ensures exists k: nat :: k < |workspaces| && NamesRoot(workspaces[k], now, link)
  {
    var last := |workspaces| - 1;
    if link in RootLinks(workspaces[..last], now) {
      RootIsNamed(workspaces[..last], now, link);
      var k: nat :| k < last && NamesRoot(workspaces[..last][k], now, link);
      assert NamesRoot(workspaces[k], now, link);
    } else {
      var w := workspaces[last];
      if link in TimelineLinks(w, |w.log|, now) {
        var i := TimelineNames(w, |w.log|, now, link);
      }
      assert NamesRoot(workspaces[last], now, link);
    }
  }

  /** The workspace itself names this snapshot, and keeps of it what its age and standing allow. */
  ghost predicate NamesRoot(w: Workspace, now: int, link: Link) {
    && link.kind == Snapshot
    && ((link.mask == ALL_CLASS_MASK
         && ((w.restore.Some? && (w.restore.value.0 == link.id || w.restore.value.1 == link.id))
             || w.incoming == Some(link.id)))
        || exists i: nat :: i < |w.log| && Retained(w, w.log[i]) && w.log[i].snapshot == link.id
             && link.mask == ByteMask(now, w.log[i].sealedAt, Exact(w, w.log[i])))
  }

  lemma {:induction false} TimelineNames(w: Workspace, n: nat, now: int, link: Link) returns (i: nat)
    requires n <= |w.log| && link in TimelineLinks(w, n, now)
    ensures i < n && Retained(w, w.log[i]) && link == RootOf(w, w.log[i], now)
  {
    if Retained(w, w.log[n - 1]) && link == RootOf(w, w.log[n - 1], now) {
      i := n - 1;
    } else {
      i := TimelineNames(w, n - 1, now, link);
    }
  }
}
