/** Exporting a snapshot as a bundle and importing one (bundle.rs): two worklists that walk in lock step. */
module Bundle {
  import opened Bytes
  import opened Pack
  import opened BundleFormat

  /** What an object mentions, if its bytes decode. */
  type Reader = Obj -> Result<seq<Edge>>

  type Objects = map<Digest, Obj>

  datatype Env = Env(h: Hasher, edges: Reader)

  /** Every object of the store is filed under its own identity and has a storable size. */
  ghost predicate Sound(e: Env, store: Objects) {
    forall id | id in store :: store[id].Id(e.h) == id && store[id].Fits()
  }

  /** An object of the bundle whose identity the store knows is the very object stored under it. */
  ghost predicate NoCollision(h: Hasher, store: Objects, input: seq<byte>) {
    37 <= |input| ==>
      forall obj | obj in Recorded(h, input, 37) && obj.Id(h) in store :: store[obj.Id(h)] == obj
  }

  // ---------- The worklist ----------

  datatype Mark = Mark(kind: Kind, processed: bool)

  type Marks = map<Digest, Mark>

  /** An edge that agrees with what is already known of its target. */
  predicate Agrees(marks: Marks, edge: Edge) {
    edge.id in marks ==> marks[edge.id].kind == edge.kind
  }

  function Enqueued(marks: Marks, edge: Edge): Marks {
    if edge.id in marks then marks else marks[edge.id := Mark(edge.kind, false)]
  }

  /** All edges queued, or none at the first that names a known object by another kind. */
  function EnqueuedAll(marks: Marks, edges: seq<Edge>): Result<Marks> {
    if edges == [] then Ok(marks)
    else
      match EnqueuedAll(marks, edges[..|edges| - 1])
      case Err => Err
      case Ok(before) =>
        var edge := edges[|edges| - 1];
        if Agrees(before, edge) then Ok(Enqueued(before, edge)) else Err
  }

  /** One object taken off the worklist. */
  function Processed(e: Env, marks: Marks, obj: Obj): Result<Marks> {
    var id := obj.Id(e.h);
    if id !in marks || marks[id] != Mark(obj.kind, false) then Err
    else
      match e.edges(obj)
      case Err => Err
      case Ok(edges) =>
        match EnqueuedAll(marks, edges)
        case Err => Err
        case Ok(after) => Ok(after[id := Mark(obj.kind, true)])
  }

  function Started(snapshot: Digest): Marks {
    map[snapshot := Mark(Snapshot, false)]
  }

  /** The worklist after a run of objects, each known and new when its turn comes. */
  function ProcessedAll(e: Env, snapshot: Digest, objs: seq<Obj>): Result<Marks> {
    if objs == [] then Ok(Started(snapshot))
    else
      match ProcessedAll(e, snapshot, objs[..|objs| - 1])
      case Err => Err
      case Ok(before) => Processed(e, before, objs[|objs| - 1])
  }

  predicate AllProcessed(marks: Marks) {
    forall id | id in marks :: marks[id].processed
  }

  // ---------- What a run of objects must be ----------

  predicate Mentions(e: Env, obj: Obj, edge: Edge) {
    e.edges(obj).Ok? && edge in e.edges(obj).value
  }

  /** The object is the snapshot, or an earlier object of the run mentions it by its kind. */
  ghost predicate Discovered(e: Env, snapshot: Digest, objs: seq<Obj>, i: nat)
    requires i < |objs|
  {
    || (objs[i].Id(e.h) == snapshot && objs[i].kind == Snapshot)
    || exists j :: 0 <= j < i && Mentions(e, objs[j], Edge(objs[i].Id(e.h), objs[i].kind))
  }

  ghost predicate Lists(e: Env, objs: seq<Obj>, edge: Edge) {
    exists i :: 0 <= i < |objs| && objs[i].Id(e.h) == edge.id && objs[i].kind == edge.kind
  }

  /** Every object of the run once, each discovered before it comes, and nothing mentioned left out. */
  ghost predicate Listing(e: Env, snapshot: Digest, objs: seq<Obj>) {
    && Lists(e, objs, Edge(snapshot, Snapshot))
    && (forall i, j | 0 <= i < j < |objs| :: objs[i].Id(e.h) != objs[j].Id(e.h))
    && (forall i | 0 <= i < |objs| :: Discovered(e, snapshot, objs, i))
    && (forall i | 0 <= i < |objs| :: e.edges(objs[i]).Ok?)
    && (forall i, edge | 0 <= i < |objs| && Mentions(e, objs[i], edge) :: Lists(e, objs, edge))
  }

  // ---------- The worklist decides it ----------

  /** What the marks know after a run: exactly the snapshot and what the run mentioned, each by one kind. */
  ghost predicate Knows(e: Env, snapshot: Digest, objs: seq<Obj>, marks: Marks) {
    && (forall id | id in marks :: Known(e, snapshot, objs, Edge(id, marks[id].kind)))
    && (forall edge: Edge | Known(e, snapshot, objs, edge) :: edge.id in marks && marks[edge.id].kind == edge.kind)
    && (forall id | id in marks && marks[id].processed :: exists i :: 0 <= i < |objs| && objs[i].Id(e.h) == id)
    && (forall i | 0 <= i < |objs| :: objs[i].Id(e.h) in marks && marks[objs[i].Id(e.h)].processed)
  }

  ghost predicate Known(e: Env, snapshot: Digest, objs: seq<Obj>, edge: Edge) {
    edge == Edge(snapshot, Snapshot) || exists i :: 0 <= i < |objs| && Mentions(e, objs[i], edge)
  }

  lemma {:induction false} EnqueuedAllMeans(marks: Marks, edges: seq<Edge>)
    ensures EnqueuedAll(marks, edges).Ok? ==>
      var after := EnqueuedAll(marks, edges).value;
      && (forall id | id in marks :: id in after && after[id] == marks[id])
      && (forall edge | edge in edges :: edge.id in after && after[edge.id].kind == edge.kind)
      && (forall id | id in after && id !in marks :: !after[id].processed && Edge(id, after[id].kind) in edges)
  {
    if edges != [] {
      EnqueuedAllMeans(marks, edges[..|edges| - 1]);
      if EnqueuedAll(marks, edges).Ok? {
        assert edges == edges[..|edges| - 1] + [edges[|edges| - 1]];
      }
    }
  }

  /** Queuing fails only where two kinds clash. */
  lemma {:induction false} EnqueuedAllSucceeds(marks: Marks, edges: seq<Edge>, kinds: map<Digest, Kind>)
    requires forall id | id in marks :: id in kinds && kinds[id] == marks[id].kind
    requires forall edge | edge in edges :: edge.id in kinds && kinds[edge.id] == edge.kind
    ensures EnqueuedAll(marks, edges).Ok?
    ensures forall id | id in EnqueuedAll(marks, edges).value ::
              id in kinds && kinds[id] == EnqueuedAll(marks, edges).value[id].kind
  {
    if edges != [] {
      assert edges == edges[..|edges| - 1] + [edges[|edges| - 1]];
      EnqueuedAllSucceeds(marks, edges[..|edges| - 1], kinds);
    }
  }

  lemma {:induction false} RunKnows(e: Env, snapshot: Digest, objs: seq<Obj>)
    requires ProcessedAll(e, snapshot, objs).Ok?
    ensures Knows(e, snapshot, objs, ProcessedAll(e, snapshot, objs).value)
    ensures forall i, j | 0 <= i < j < |objs| :: objs[i].Id(e.h) != objs[j].Id(e.h)
    ensures forall i | 0 <= i < |objs| :: Discovered(e, snapshot, objs, i) && e.edges(objs[i]).Ok?
  {
    hide ObjectId, Knows, Processed, Discovered, Known, Started;
    if objs != [] {
      var front, last := objs[..|objs| - 1], objs[|objs| - 1];
      RunKnows(e, snapshot, front);
      var before, after := ProcessedAll(e, snapshot, front).value, ProcessedAll(e, snapshot, objs).value;
      assert objs == front + [last];
      TakenWasKnown(e, snapshot, front, last, before);
      DiscoveredInLonger(e, snapshot, front, last);
      KnowsMore(e, snapshot, front, last, before, after);
    } else {
      StartKnows(e, snapshot);
    }
  }

  lemma StartKnows(e: Env, snapshot: Digest)
    ensures Knows(e, snapshot, [], Started(snapshot))
  {
  }

  lemma TakenWasKnown(e: Env, snapshot: Digest, front: seq<Obj>, last: Obj, before: Marks)
    requires Knows(e, snapshot, front, before) && Processed(e, before, last).Ok?
    ensures Known(e, snapshot, front, Edge(last.Id(e.h), last.kind))
    ensures forall i | 0 <= i < |front| :: front[i].Id(e.h) != last.Id(e.h)
    ensures e.edges(last).Ok?
  {
    hide ObjectId, EnqueuedAll, Known;
  }

  lemma DiscoveredInLonger(e: Env, snapshot: Digest, front: seq<Obj>, last: Obj)
    requires forall i | 0 <= i < |front| :: Discovered(e, snapshot, front, i)
    requires Known(e, snapshot, front, Edge(last.Id(e.h), last.kind))
    ensures forall i | 0 <= i < |front + [last]| :: Discovered(e, snapshot, front + [last], i)
  {
    hide ObjectId;
    var objs := front + [last];
    forall i | 0 <= i < |objs| ensures Discovered(e, snapshot, objs, i) {
      if i < |front| {
        assert Discovered(e, snapshot, front, i);
        if j :| 0 <= j < i && Mentions(e, front[j], Edge(front[i].Id(e.h), front[i].kind)) {
          assert Mentions(e, objs[j], Edge(objs[i].Id(e.h), objs[i].kind));
        }
      } else if j :| 0 <= j < |front| && Mentions(e, front[j], Edge(last.Id(e.h), last.kind)) {
        assert Mentions(e, objs[j], Edge(objs[i].Id(e.h), objs[i].kind));
      }
    }
  }

  lemma KnownInLonger(e: Env, snapshot: Digest, front: seq<Obj>, last: Obj, edge: Edge)
    ensures Known(e, snapshot, front + [last], edge) <==> Known(e, snapshot, front, edge) || Mentions(e, last, edge)
  {
    var objs := front + [last];
    if i :| 0 <= i < |front| && Mentions(e, front[i], edge) {
      assert Mentions(e, objs[i], edge);
    }
    if Mentions(e, last, edge) {
      assert Mentions(e, objs[|front|], edge);
    }
  }

  lemma KnowsMore(e: Env, snapshot: Digest, front: seq<Obj>, last: Obj, before: Marks, after: Marks)
    requires Knows(e, snapshot, front, before) && Processed(e, before, last) == Ok(after)
    ensures Knows(e, snapshot, front + [last], after)
  {
    hide ObjectId, EnqueuedAll, Known;
    EnqueuedAllMeans(before, e.edges(last).value);
    var objs := front + [last];
    forall id | id in after ensures Known(e, snapshot, objs, Edge(id, after[id].kind)) {
      KnownInLonger(e, snapshot, front, last, Edge(id, after[id].kind));
    }
    forall edge: Edge | Known(e, snapshot, objs, edge) ensures edge.id in after && after[edge.id].kind == edge.kind {
      KnownInLonger(e, snapshot, front, last, edge);
    }
    forall id | id in after && after[id].processed ensures exists i :: 0 <= i < |objs| && objs[i].Id(e.h) == id {
      if id == last.Id(e.h) {
        assert objs[|front|].Id(e.h) == id;
      } else {
        var i :| 0 <= i < |front| && front[i].Id(e.h) == id;
        assert objs[i].Id(e.h) == id;
      }
    }
    forall i | 0 <= i < |objs| ensures objs[i].Id(e.h) in after && after[objs[i].Id(e.h)].processed {
      if i < |front| {
        assert front[i].Id(e.h) in before && before[front[i].Id(e.h)].processed;
      }
    }
  }

  /** The kinds a listing gives its objects. */
  ghost function KindsOf(e: Env, objs: seq<Obj>): map<Digest, Kind> {
    if objs == [] then map[]
    else KindsOf(e, objs[..|objs| - 1])[objs[|objs| - 1].Id(e.h) := objs[|objs| - 1].kind]
  }

  lemma {:induction false} KindsOfHas(e: Env, objs: seq<Obj>, i: nat)
    requires i < |objs| && forall i, j | 0 <= i < j < |objs| :: objs[i].Id(e.h) != objs[j].Id(e.h)
    ensures objs[i].Id(e.h) in KindsOf(e, objs) && KindsOf(e, objs)[objs[i].Id(e.h)] == objs[i].kind
  {
    hide ObjectId;
    if i < |objs| - 1 {
      KindsOfHas(e, objs[..|objs| - 1], i);
      assert objs[..|objs| - 1][i] == objs[i];
      assert objs[i].Id(e.h) != objs[|objs| - 1].Id(e.h);
    }
  }

  lemma ListsKind(e: Env, objs: seq<Obj>, edge: Edge)
    requires forall i, j | 0 <= i < j < |objs| :: objs[i].Id(e.h) != objs[j].Id(e.h)
    requires Lists(e, objs, edge)
    ensures edge.id in KindsOf(e, objs) && KindsOf(e, objs)[edge.id] == edge.kind
  {
    hide ObjectId;
    var i :| 0 <= i < |objs| && objs[i].Id(e.h) == edge.id && objs[i].kind == edge.kind;
    KindsOfHas(e, objs, i);
  }

  lemma NextIsQueued(e: Env, snapshot: Digest, objs: seq<Obj>, n: nat)
    requires Listing(e, snapshot, objs) && n < |objs| && ProcessedAll(e, snapshot, objs[..n]).Ok?
    ensures var before, id := ProcessedAll(e, snapshot, objs[..n]).value, objs[n].Id(e.h);
            id in before && before[id] == Mark(objs[n].kind, false)
  {
    RunKnows(e, snapshot, objs[..n]);
    NextIsKnown(e, snapshot, objs, n);
    hide ObjectId, Listing, Known, ProcessedAll;
  }

  /** Any beginning of a listing keeps the worklist going. */
  lemma {:induction false} ListingRuns(e: Env, snapshot: Digest, objs: seq<Obj>, n: nat)
    requires Listing(e, snapshot, objs) && n <= |objs|
    ensures ProcessedAll(e, snapshot, objs[..n]).Ok?
    ensures forall id | id in ProcessedAll(e, snapshot, objs[..n]).value ::
      id in KindsOf(e, objs) && KindsOf(e, objs)[id] == ProcessedAll(e, snapshot, objs[..n]).value[id].kind
  {
    hide ObjectId, KindsOf, EnqueuedAll, Lists, Discovered, Knows, Known;
    if n == 0 {
      ListsKind(e, objs, Edge(snapshot, Snapshot));
    } else {
      ListingRuns(e, snapshot, objs, n - 1);
      var front, last := objs[..n - 1], objs[n - 1];
      assert objs[..n][..n - 1] == front;
      var before := ProcessedAll(e, snapshot, front).value;
      NextIsQueued(e, snapshot, objs, n - 1);
      forall edge | edge in e.edges(last).value ensures edge.id in KindsOf(e, objs) && KindsOf(e, objs)[edge.id] == edge.kind {
        assert Mentions(e, last, edge);
        ListsKind(e, objs, edge);
      }
      EnqueuedAllSucceeds(before, e.edges(last).value, KindsOf(e, objs));
      KindsOfHas(e, objs, n - 1);
    }
  }

  lemma NextIsKnown(e: Env, snapshot: Digest, objs: seq<Obj>, n: nat)
    requires Listing(e, snapshot, objs) && n < |objs|
    ensures Known(e, snapshot, objs[..n], Edge(objs[n].Id(e.h), objs[n].kind))
    ensures !exists i :: 0 <= i < n && objs[..n][i].Id(e.h) == objs[n].Id(e.h)
  {
    hide ObjectId;
    assert Discovered(e, snapshot, objs, n);
    if j :| 0 <= j < n && Mentions(e, objs[j], Edge(objs[n].Id(e.h), objs[n].kind)) {
      assert Mentions(e, objs[..n][j], Edge(objs[n].Id(e.h), objs[n].kind));
    }
  }

  /** The importer's worklist accepts a run of objects exactly when it is a listing of what the snapshot reaches. */
  lemma AcceptsIff(e: Env, snapshot: Digest, objs: seq<Obj>)
    ensures ProcessedAll(e, snapshot, objs).Ok? && AllProcessed(ProcessedAll(e, snapshot, objs).value)
       <==> Listing(e, snapshot, objs)
  {
    hide ObjectId, EnqueuedAll, ProcessedAll;
    if Listing(e, snapshot, objs) {
      ListingRuns(e, snapshot, objs, |objs|);
      assert objs[..|objs|] == objs;
    }
    if ProcessedAll(e, snapshot, objs).Ok? {
      RunKnows(e, snapshot, objs);
      var marks := ProcessedAll(e, snapshot, objs).value;
      if AllProcessed(marks) {
        AllProcessedLists(e, snapshot, objs, marks);
      }
      if Listing(e, snapshot, objs) {
        ListingIsProcessed(e, snapshot, objs, marks);
      }
    }
  }

  lemma AllProcessedLists(e: Env, snapshot: Digest, objs: seq<Obj>, marks: Marks)
    requires Knows(e, snapshot, objs, marks) && AllProcessed(marks)
    requires forall i | 0 <= i < |objs| :: Discovered(e, snapshot, objs, i)
    ensures forall edge: Edge | Known(e, snapshot, objs, edge) :: Lists(e, objs, edge)
    ensures Lists(e, objs, Edge(snapshot, Snapshot))
    ensures forall i, edge | 0 <= i < |objs| && Mentions(e, objs[i], edge) :: Lists(e, objs, edge)
  {
    hide ObjectId;
    forall edge: Edge | Known(e, snapshot, objs, edge) ensures Lists(e, objs, edge) {
      var i :| 0 <= i < |objs| && objs[i].Id(e.h) == edge.id;
      assert Discovered(e, snapshot, objs, i);
      assert Known(e, snapshot, objs, Edge(objs[i].Id(e.h), objs[i].kind));
    }
    assert Known(e, snapshot, objs, Edge(snapshot, Snapshot));
    forall i, edge | 0 <= i < |objs| && Mentions(e, objs[i], edge) ensures Lists(e, objs, edge) {
      assert Known(e, snapshot, objs, edge);
    }
  }

  lemma ListingIsProcessed(e: Env, snapshot: Digest, objs: seq<Obj>, marks: Marks)
    requires Knows(e, snapshot, objs, marks) && Listing(e, snapshot, objs)
    ensures AllProcessed(marks)
  {
    hide ObjectId;
    forall id | id in marks ensures marks[id].processed {
      assert Known(e, snapshot, objs, Edge(id, marks[id].kind));
      assert Lists(e, objs, Edge(id, marks[id].kind));
    }
  }

  // ---------- Walking a store ----------

  /** The store holds every object of the run. */
  ghost predicate Held(e: Env, store: Objects, objs: seq<Obj>) {
    forall i | 0 <= i < |objs| :: objs[i].Id(e.h) in store && store[objs[i].Id(e.h)] == objs[i]
  }

  /** The whole closure of the snapshot is there and decodes. */
  ghost predicate Reachable(e: Env, store: Objects, snapshot: Digest) {
    exists objs :: Listing(e, snapshot, objs) && Held(e, store, objs)
  }

  function ProcessedIds(marks: Marks): set<Digest> {
    set id | id in marks && marks[id].processed
  }

  /** Nothing is queued that some complete listing does not have. */
  ghost predicate WithinListings(e: Env, store: Objects, snapshot: Digest, marks: Marks) {
    forall objs | Listing(e, snapshot, objs) && Held(e, store, objs) ::
      forall id | id in marks :: Lists(e, objs, Edge(id, marks[id].kind))
  }

  class Worklist {
    var marks: Marks

    constructor (snapshot: Digest)
      ensures marks == Started(snapshot)
    {
      marks := map[snapshot := Mark(Snapshot, false)];
    }

    method Enqueue(edge: Edge) returns (ok: bool)
      modifies this
      ensures marks == Enqueued(old(marks), edge)
      ensures ok <==> Agrees(old(marks), edge)
    {
      if edge.id !in marks {
        marks := marks[edge.id := Mark(edge.kind, false)];
      }
      ok := marks[edge.id].kind == edge.kind;
    }

    method EnqueueEdges(edges: seq<Edge>) returns (ok: bool)
      modifies this
      ensures ok <==> EnqueuedAll(old(marks), edges).Ok?
      ensures ok ==> marks == EnqueuedAll(old(marks), edges).value
    {
      for i := 0 to |edges|
        invariant EnqueuedAll(old(marks), edges[..i]) == Ok(marks)
      {
        assert edges[..i + 1][..i] == edges[..i];
        ok := Enqueue(edges[i]);
        if !ok {
          ErrSticks(old(marks), edges, i + 1);
          return false;
        }
      }
      assert edges[..|edges|] == edges;
      ok := true;
    }

    method Next() returns (next: Option<Digest>)
      ensures next.None? <==> AllProcessed(marks)
      ensures next.Some? ==> next.value in marks && !marks[next.value].processed
    {
      if id :| id in marks && !marks[id].processed {
        next := Some(id);
      } else {
        next := None;
      }
    }

    /** Takes one object off the worklist and queues what it mentions. */
    method Take(e: Env, obj: Obj) returns (ok: bool)
      modifies this
      ensures ok <==> Processed(e, old(marks), obj).Ok?
      ensures ok ==> marks == Processed(e, old(marks), obj).value
    {
      var id := obj.Id(e.h);
      if id !in marks || marks[id].processed || marks[id].kind != obj.kind {
        return false;
      }
      var edges := e.edges(obj);
      if edges.Err? {
        return false;
      }
      ok := EnqueueEdges(edges.value);
      if ok {
        EnqueuedAllMeans(old(marks), edges.value);
        marks := marks[id := marks[id].(processed := true)];
      }
    }
  }

  lemma {:induction false} ErrSticks(marks: Marks, edges: seq<Edge>, n: nat)
    requires n <= |edges| && EnqueuedAll(marks, edges[..n]).Err?
    ensures EnqueuedAll(marks, edges).Err?
    decreases |edges| - n
  {
    if n < |edges| {
      assert edges[..n + 1][..n] == edges[..n];
      ErrSticks(marks, edges, n + 1);
    } else {
      assert edges[..n] == edges;
    }
  }

  lemma RunStep(e: Env, snapshot: Digest, visited: seq<Obj>, obj: Obj)
    requires ProcessedAll(e, snapshot, visited).Ok?
    ensures ProcessedAll(e, snapshot, visited + [obj]) == Processed(e, ProcessedAll(e, snapshot, visited).value, obj)
  {
    assert (visited + [obj])[..|visited|] == visited;
  }

  lemma StartWithin(e: Env, store: Objects, snapshot: Digest)
    ensures WithinListings(e, store, snapshot, Started(snapshot))
  {
    hide ObjectId;
  }

  /** The object a listing has under an identity is the one the store has. */
  lemma ListedIsStored(e: Env, store: Objects, snapshot: Digest, objs: seq<Obj>, edge: Edge)
    requires Listing(e, snapshot, objs) && Held(e, store, objs) && Lists(e, objs, edge)
    ensures edge.id in store && store[edge.id].kind == edge.kind && e.edges(store[edge.id]).Ok?
    ensures forall mentioned | mentioned in e.edges(store[edge.id]).value :: Lists(e, objs, mentioned)
  {
    hide ObjectId;
    var i :| 0 <= i < |objs| && objs[i].Id(e.h) == edge.id && objs[i].kind == edge.kind;
    forall mentioned | mentioned in e.edges(objs[i]).value ensures Lists(e, objs, mentioned) {
      assert Mentions(e, objs[i], mentioned);
    }
  }

  /** Taking a stored object succeeds where a complete listing exists, and stays within it. */
  lemma TakeWithin(e: Env, store: Objects, snapshot: Digest, marks: Marks, id: Digest)
    requires Sound(e, store) && WithinListings(e, store, snapshot, marks) && id in marks && !marks[id].processed
    ensures Reachable(e, store, snapshot) ==>
      id in store && store[id].kind == marks[id].kind && Processed(e, marks, store[id]).Ok?
    ensures id in store && Processed(e, marks, store[id]).Ok? ==>
      WithinListings(e, store, snapshot, Processed(e, marks, store[id]).value)
  {
    hide Listing, Held, Lists, EnqueuedAll, ObjectId;
    forall objs | Listing(e, snapshot, objs) && Held(e, store, objs)
      ensures id in store && store[id].kind == marks[id].kind && Processed(e, marks, store[id]).Ok?
      ensures forall other | other in Processed(e, marks, store[id]).value ::
        Lists(e, objs, Edge(other, Processed(e, marks, store[id]).value[other].kind))
    {
      assert Lists(e, objs, Edge(id, marks[id].kind));
      ListedIsStored(e, store, snapshot, objs, Edge(id, marks[id].kind));
      KindsAgree(e, snapshot, objs, marks, e.edges(store[id]).value);
      EnqueuedAllMeans(marks, e.edges(store[id]).value);
    }
  }

  lemma KindsAgree(e: Env, snapshot: Digest, objs: seq<Obj>, marks: Marks, edges: seq<Edge>)
    requires Listing(e, snapshot, objs)
    requires forall id | id in marks :: Lists(e, objs, Edge(id, marks[id].kind))
    requires forall edge | edge in edges :: Lists(e, objs, edge)
    ensures EnqueuedAll(marks, edges).Ok?
  {
    hide ObjectId, KindsOf, Lists, EnqueuedAll;
    forall id | id in marks ensures id in KindsOf(e, objs) && KindsOf(e, objs)[id] == marks[id].kind {
      ListsKind(e, objs, Edge(id, marks[id].kind));
    }
    forall edge | edge in edges ensures edge.id in KindsOf(e, objs) && KindsOf(e, objs)[edge.id] == edge.kind {
      ListsKind(e, objs, edge);
    }
    EnqueuedAllSucceeds(marks, edges, KindsOf(e, objs));
  }

  lemma ProcessedShrinks(e: Env, store: Objects, marks: Marks, id: Digest)
    requires Sound(e, store) && id in store && Processed(e, marks, store[id]).Ok?
    ensures store.Keys - ProcessedIds(Processed(e, marks, store[id]).value) < store.Keys - ProcessedIds(marks)
  {
    hide ObjectId, EnqueuedAll;
    EnqueuedAllMeans(marks, e.edges(store[id]).value);
    var after := Processed(e, marks, store[id]).value;
    assert ProcessedIds(marks) <= ProcessedIds(after);
    assert id in ProcessedIds(after) && id !in ProcessedIds(marks);
  }

  lemma HeldMore(e: Env, store: Objects, visited: seq<Obj>, id: Digest)
    requires Sound(e, store) && Held(e, store, visited) && id in store
    ensures Held(e, store, visited + [store[id]])
  {
    hide ObjectId;
  }

  /** Visits everything the snapshot reaches once, each object after one that mentions it; it fails exactly
      when something is missing, does not decode, or is reached by two kinds. */
  method ForEachReachable(e: Env, store: Objects, snapshot: Digest) returns (visited: Option<seq<Obj>>)
    requires Sound(e, store)
    ensures visited.Some? <==> Reachable(e, store, snapshot)
    ensures visited.Some? ==> Listing(e, snapshot, visited.value) && Held(e, store, visited.value)
  {
    hide Listing, Held, Processed, ProcessedAll, Sound, WithinListings, ObjectId;
    var work := new Worklist(snapshot);
    var seen: seq<Obj> := [];
    StartWithin(e, store, snapshot);
    NothingVisited(e, store, snapshot);
    while true
      invariant ProcessedAll(e, snapshot, seen) == Ok(work.marks)
      invariant Held(e, store, seen) && WithinListings(e, store, snapshot, work.marks)
      decreases store.Keys - ProcessedIds(work.marks)
    {
      var next := work.Next();
      if next.None? {
        AcceptsIff(e, snapshot, seen);
        return Some(seen);
      }
      var id := next.value;
      TakeWithin(e, store, snapshot, work.marks, id);
      if id !in store || store[id].kind != work.marks[id].kind {
        return None;
      }
      RunStep(e, snapshot, seen, store[id]);
      ghost var before := work.marks;
      var ok := work.Take(e, store[id]);
      if !ok {
        return None;
      }
      ProcessedShrinks(e, store, before, id);
      HeldMore(e, store, seen, id);
      seen := seen + [store[id]];
    }
  }

  lemma NothingVisited(e: Env, store: Objects, snapshot: Digest)
    ensures ProcessedAll(e, snapshot, []) == Ok(Started(snapshot)) && Held(e, store, [])
  {
  }

  // ---------- Export and import ----------

  lemma {:induction false} EncodeMore(h: Hasher, objs: seq<Obj>, obj: Obj)
    ensures EncodeObjects(h, objs + [obj]) == EncodeObjects(h, objs) + EncodeObject(h, obj)
  {
    hide EncodeObject;
    if objs == [] {
      assert (objs + [obj])[1..] == [];
    } else {
      assert (objs + [obj])[1..] == objs[1..] + [obj];
      EncodeMore(h, objs[1..], obj);
    }
  }

  /** Writes the closure of a snapshot as a bundle. */
  method Export(e: Env, store: Objects, snapshot: Digest) returns (bundle: Option<seq<byte>>, ghost objs: seq<Obj>)
    requires Sound(e, store)
    ensures bundle.Some? <==> Reachable(e, store, snapshot)
    ensures bundle.Some? ==>
      Listing(e, snapshot, objs) && Held(e, store, objs) && bundle.value == EncodeBundle(e.h, snapshot, objs)
  {
    hide Listing, Held, Sound, EncodeObject, Trailer, Reachable;
    objs := [];
    var visited := ForEachReachable(e, store, snapshot);
    if visited.None? {
      return None, [];
    }
    var output := BUNDLE_MAGIC + snapshot;
    var count := 0;
    assert output == BUNDLE_MAGIC + snapshot + EncodeObjects(e.h, []);
    for i := 0 to |visited.value|
      invariant count == i
      invariant output == BUNDLE_MAGIC + snapshot + EncodeObjects(e.h, visited.value[..i])
    {
      EncodeMore(e.h, visited.value[..i], visited.value[i]);
      assert visited.value[..i + 1] == visited.value[..i] + [visited.value[i]];
      output := output + EncodeObject(e.h, visited.value[i]);
      count := count + 1;
    }
    assert visited.value[..|visited.value|] == visited.value;
    output := output + Trailer(count);
    return Some(output), visited.value;
  }

  /** What an import adds. */
  function Filed(h: Hasher, objs: seq<Obj>): Objects {
    if objs == [] then map[] else Filed(h, objs[..|objs| - 1])[objs[|objs| - 1].Id(h) := objs[|objs| - 1]]
  }

  function PutObject(e: Env, store: Objects, obj: Obj): Objects {
    if obj.Id(e.h) in store then store else store[obj.Id(e.h) := obj]
  }

  lemma PutIsFiled(e: Env, store: Objects, done: seq<Obj>, obj: Obj)
    requires Sound(e, store + Filed(e.h, done)) && obj.Fits()
    requires obj.Id(e.h) in store + Filed(e.h, done) ==> (store + Filed(e.h, done))[obj.Id(e.h)] == obj
    ensures PutObject(e, store + Filed(e.h, done), obj) == store + Filed(e.h, done + [obj])
    ensures Sound(e, store + Filed(e.h, done + [obj]))
  {
    hide ObjectId, Sound, Filed;
    FiledMore(e.h, done, obj);
    var before := store + Filed(e.h, done);
    assert store + Filed(e.h, done + [obj]) == before[obj.Id(e.h) := obj];
    if obj.Id(e.h) in before {
      assert before[obj.Id(e.h) := obj] == before;
    } else {
      SoundMore(e, before, obj);
    }
  }

  lemma FiledMore(h: Hasher, done: seq<Obj>, obj: Obj)
    ensures Filed(h, done + [obj]) == Filed(h, done)[obj.Id(h) := obj]
  {
    assert (done + [obj])[..|done|] == done;
    hide ObjectId;
  }

  lemma SoundMore(e: Env, store: Objects, obj: Obj)
    requires Sound(e, store) && obj.Fits()
    ensures Sound(e, store[obj.Id(e.h) := obj])
  {
    hide ObjectId;
  }

  lemma {:induction false} FiledIsHeld(e: Env, store: Objects, done: seq<Obj>)
    requires forall i, j | 0 <= i < j < |done| :: done[i].Id(e.h) != done[j].Id(e.h)
    ensures Held(e, store + Filed(e.h, done), done)
  {
    hide ObjectId;
    if done != [] {
      FiledIsHeld(e, store, done[..|done| - 1]);
      assert done == done[..|done| - 1] + [done[|done| - 1]];
      var before, after := store + Filed(e.h, done[..|done| - 1]), store + Filed(e.h, done);
      forall i | 0 <= i < |done| ensures done[i].Id(e.h) in after && after[done[i].Id(e.h)] == done[i] {
        if i < |done| - 1 {
          assert done[..|done| - 1][i] == done[i];
        }
      }
    }
  }

  /** `done` are the objects read before `at`. */
  ghost predicate ReadSoFar(h: Hasher, input: seq<byte>, done: seq<Obj>, at: nat) {
    && 37 <= at <= |input|
    && ReadObjects(h, input, 37) ==
         match ReadObjects(h, input, at)
         case None => None
         case Some(rest) => Some(done + rest)
  }

  lemma ReadStep(h: Hasher, input: seq<byte>, done: seq<Obj>, at: nat)
    requires ReadSoFar(h, input, done, at)
    ensures AtEnd(input, at) ==> ReadObjects(h, input, 37) == if |input| == at + 12 then Some(done) else None
    ensures !AtEnd(input, at) && ReadObject(h, input, at).None? ==> ReadObjects(h, input, 37) == None
    ensures !AtEnd(input, at) && ReadObject(h, input, at).Some? ==>
      ReadObject(h, input, at).value.Fits()
      && ReadSoFar(h, input, done + [ReadObject(h, input, at).value],
                   at + RECORD_HEADER + |ReadObject(h, input, at).value.bytes|)
  {
    hide ReadObjects, ReadObject, EncodeObject;
    ReadUnfolds(h, input, at);
    NothingMore(done);
    if !AtEnd(input, at) && ReadObject(h, input, at).Some? {
      ReadIsWritten(h, input, at);
      var obj := ReadObject(h, input, at).value;
      var rest := ReadObjects(h, input, at + RECORD_HEADER + |obj.bytes|);
      if rest.Some? {
        Regroup(done, [obj], rest.value);
      }
    }
  }

  lemma ReadUnfolds(h: Hasher, input: seq<byte>, at: nat)
    requires at <= |input|
    ensures AtEnd(input, at) ==> ReadObjects(h, input, at) == if |input| == at + 12 then Some([]) else None
    ensures !AtEnd(input, at) ==>
      (ReadObjects(h, input, at) ==
       (match ReadObject(h, input, at)
        case None => None
        case Some(obj) =>
          match ReadObjects(h, input, at + RECORD_HEADER + |obj.bytes|)
          case None => None
          case Some(more) => Some([obj] + more)))
  {
    hide ReadObject;
  }

  lemma NothingMore(done: seq<Obj>)
    ensures done + [] == done
  {
  }

  /** A run that the worklist refuses is refused however it goes on. */
  lemma {:induction false} RefusedSticks(e: Env, snapshot: Digest, done: seq<Obj>, rest: seq<Obj>)
    requires ProcessedAll(e, snapshot, done).Err?
    ensures ProcessedAll(e, snapshot, done + rest).Err?
    decreases |rest|
  {
    if rest == [] {
      assert done + rest == done;
    } else {
      assert (done + rest)[..|done + rest| - 1] == done + rest[..|rest| - 1];
      RefusedSticks(e, snapshot, done, rest[..|rest| - 1]);
    }
  }

  /** The bundles an importer takes: well framed, and listing exactly what the snapshot reaches. */
  ghost predicate Acceptable(e: Env, input: seq<byte>) {
    var bundle := ReadBundle(e.h, input);
    bundle.Some? && Listing(e, bundle.value.0, bundle.value.1)
  }

  lemma RefusedIsUnacceptable(e: Env, input: seq<byte>, done: seq<Obj>, at: nat)
    requires 37 <= |input| && ReadSoFar(e.h, input, done, at)
    requires ProcessedAll(e, input[5..37], done).Err?
    ensures !Acceptable(e, input)
  {
    hide ReadObjects, ProcessedAll, Listing;
    if ReadObjects(e.h, input, at).Some? {
      var rest := ReadObjects(e.h, input, at).value;
      RefusedSticks(e, input[5..37], done, rest);
      AcceptsIff(e, input[5..37], done + rest);
    }
  }

  /** Reads the records of a bundle into the store, up to the end mark. */
  method ImportRecords(e: Env, store: Objects, input: seq<byte>)
    returns (ok: bool, after: Objects, ghost objs: seq<Obj>)
    requires Sound(e, store) && NoCollision(e.h, store, input) && 37 <= |input| && input[0..5] == BUNDLE_MAGIC
    ensures ok <==> Acceptable(e, input)
    ensures after == store + Filed(e.h, objs) && Sound(e, after)
    ensures objs <= Recorded(e.h, input, 37)
    ensures ok ==> ReadBundle(e.h, input) == Some((input[5..37], objs))
  {
    hide ReadObject, ReadObjects, Processed, ProcessedAll, Listing, Sound, Filed, PutObject, NoCollision, Recorded, ReadSoFar,
      ObjectId, Acceptable, DecodeLE;
    var snapshot := input[5..37];
    var work := new Worklist(snapshot);
    var at, count := 37, 0;
    after, objs := store, [];
    NothingImported(e, store, input, snapshot);
    while true
      invariant 37 <= at <= |input| && count == |objs|
      invariant ReadSoFar(e.h, input, objs, at)
      invariant ProcessedAll(e, snapshot, objs) == Ok(work.marks)
      invariant Recorded(e.h, input, 37) == objs + Recorded(e.h, input, at)
      invariant after == store + Filed(e.h, objs) && Sound(e, after)
      decreases |input| - at
    {
      ReadStep(e.h, input, objs, at);
      if AtEnd(input, at) {
        var next := work.Next();
        ok := at + 12 <= |input| && DecodeLE(input[at + 4..at + 12]) == count && next.None? && |input| == at + 12;
        EndDecides(e, input, objs, at, work.marks);
        return;
      }
      var obj := ReadObject(e.h, input, at);
      if obj.None? {
        UnreadIsUnacceptable(e, input);
        ok := false;
        return;
      }
      RunStep(e, snapshot, objs, obj.value);
      var next := at + RECORD_HEADER + |obj.value.bytes|;
      var id := obj.value.Id(e.h);
      if id !in work.marks || work.marks[id].processed || work.marks[id].kind != obj.value.kind {
        UnknownIsRefused(e, work.marks, obj.value);
        RefusedIsUnacceptable(e, input, objs + [obj.value], next);
        ok := false;
        return;
      }
      NextRecorded(e.h, input, objs, at);
      NewOrKnown(e, store, input, snapshot, objs, obj.value, work.marks);
      PutIsFiled(e, store, objs, obj.value);
      after := PutObject(e, after, obj.value);
      ghost var before := objs;
      objs := objs + [obj.value];
      ok := work.Take(e, obj.value);
      if !ok {
        RefusedIsUnacceptable(e, input, objs, next);
        return;
      }
      at, count := next, count + 1;
    }
  }

  lemma NextRecorded(h: Hasher, input: seq<byte>, done: seq<Obj>, at: nat)
    requires 37 <= at <= |input| && !AtEnd(input, at) && ReadObject(h, input, at).Some?
    requires Recorded(h, input, 37) == done + Recorded(h, input, at)
    ensures var obj := ReadObject(h, input, at).value;
            && obj in Recorded(h, input, 37) && done + [obj] <= Recorded(h, input, 37)
            && Recorded(h, input, 37) == done + [obj] + Recorded(h, input, at + RECORD_HEADER + |obj.bytes|)
  {
    hide Recorded, ReadObject;
    RecordedUnfolds(h, input, at);
    var obj := ReadObject(h, input, at).value;
    InTheMiddle(done, obj, Recorded(h, input, at + RECORD_HEADER + |obj.bytes|));
  }

  lemma InTheMiddle<T>(before: seq<T>, x: T, after: seq<T>)
    ensures var all := before + ([x] + after);
            x in all && before + [x] <= all && all == before + [x] + after
  {
    assert (before + ([x] + after))[|before|] == x;
  }

  lemma RecordedUnfolds(h: Hasher, input: seq<byte>, at: nat)
    requires at <= |input| && !AtEnd(input, at) && ReadObject(h, input, at).Some?
    ensures var obj := ReadObject(h, input, at).value;
            Recorded(h, input, at) == [obj] + Recorded(h, input, at + RECORD_HEADER + |obj.bytes|)
  {
    hide ReadObject;
  }

  /** An object the worklist still expects has not been filed yet; if the store knows it, it is the same one. */
  lemma NewOrKnown(
      e: Env, store: Objects, input: seq<byte>, snapshot: Digest, done: seq<Obj>, obj: Obj, marks: Marks)
    requires 37 <= |input| && NoCollision(e.h, store, input) && obj in Recorded(e.h, input, 37)
    requires ProcessedAll(e, snapshot, done) == Ok(marks)
    requires obj.Id(e.h) in marks && !marks[obj.Id(e.h)].processed
    ensures obj.Id(e.h) in store + Filed(e.h, done) ==> (store + Filed(e.h, done))[obj.Id(e.h)] == obj
  {
    hide ProcessedAll, Recorded, ObjectId, Filed;
    RunKnows(e, snapshot, done);
    if obj.Id(e.h) in Filed(e.h, done) {
      var i := FiledAt(e.h, done, obj.Id(e.h));
    }
  }

  lemma {:induction false} FiledAt(h: Hasher, objs: seq<Obj>, id: Digest) returns (i: nat)
    requires id in Filed(h, objs)
    ensures i < |objs| && objs[i].Id(h) == id && Filed(h, objs)[id] == objs[i]
  {
    hide ObjectId;
    if id == objs[|objs| - 1].Id(h) {
      i := |objs| - 1;
    } else {
      i := FiledAt(h, objs[..|objs| - 1], id);
    }
  }

  lemma NothingImported(e: Env, store: Objects, input: seq<byte>, snapshot: Digest)
    requires 37 <= |input|
    ensures ReadSoFar(e.h, input, [], 37) && ProcessedAll(e, snapshot, []) == Ok(Started(snapshot))
    ensures store == store + Filed(e.h, [])
    ensures Recorded(e.h, input, 37) == [] + Recorded(e.h, input, 37)
  {
    if ReadObjects(e.h, input, 37).Some? {
      assert [] + ReadObjects(e.h, input, 37).value == ReadObjects(e.h, input, 37).value;
    }
  }

  lemma UnreadIsUnacceptable(e: Env, input: seq<byte>)
    requires 37 <= |input| && ReadObjects(e.h, input, 37).None?
    ensures !Acceptable(e, input)
  {
    hide Listing;
  }

  lemma UnknownIsRefused(e: Env, marks: Marks, obj: Obj)
    requires obj.Id(e.h) !in marks || marks[obj.Id(e.h)].processed || marks[obj.Id(e.h)].kind != obj.kind
    ensures Processed(e, marks, obj).Err?
  {
  }

  lemma EndDecides(e: Env, input: seq<byte>, objs: seq<Obj>, at: nat, marks: Marks)
    requires 37 <= |input| && input[0..5] == BUNDLE_MAGIC
    requires ReadSoFar(e.h, input, objs, at) && AtEnd(input, at)
    requires ProcessedAll(e, input[5..37], objs) == Ok(marks)
    ensures Acceptable(e, input) <==>
      at + 12 <= |input| && DecodeLE(input[at + 4..at + 12]) == |objs| && AllProcessed(marks) && |input| == at + 12
    ensures Acceptable(e, input) ==> ReadBundle(e.h, input) == Some((input[5..37], objs))
  {
    ReadStep(e.h, input, objs, at);
    hide ReadObjects, ProcessedAll, Listing, DecodeLE;
    AcceptsIff(e, input[5..37], objs);
    if |input| == at + 12 {
      assert input[at + 4..at + 12] == input[|input| - 8..];
    }
  }

  /** Imports a bundle: it is taken exactly when it lists what its snapshot reaches, and then exactly that is
      added; a refused bundle leaves a sound store too. */
  method Import(e: Env, store: Objects, input: seq<byte>)
    returns (snapshot: Option<Digest>, after: Objects)
    requires Sound(e, store) && NoCollision(e.h, store, input)
    ensures snapshot.Some? <==> Acceptable(e, input)
    ensures snapshot.Some? ==>
      var bundle := ReadBundle(e.h, input).value;
      && snapshot.value == bundle.0 && after == store + Filed(e.h, bundle.1)
      && Reachable(e, after, snapshot.value)
    ensures Sound(e, after) && forall id | id in store :: id in after && after[id] == store[id]
  {
    hide ReadObjects, Filed, NoCollision, Recorded, ObjectId, Held, Sound;
    var refused: Option<Digest> := None;
    if |input| < 37 || input[0..5] != BUNDLE_MAGIC {
      return refused, store;
    }
    var ok;
    ghost var objs;
    ok, after, objs := ImportRecords(e, store, input);
    StoreKept(e, store, input, objs);
    if !ok {
      return refused, after;
    }
    FiledIsHeld(e, store, objs);
    assert Reachable(e, after, input[5..37]);
    var visited := ForEachReachable(e, after, input[5..37]);
    snapshot := refused;
    if visited.Some? {
      snapshot := Some(input[5..37]);
    }
  }

  lemma StoreKept(e: Env, store: Objects, input: seq<byte>, objs: seq<Obj>)
    requires 37 <= |input| && NoCollision(e.h, store, input) && objs <= Recorded(e.h, input, 37)
    ensures forall id | id in store :: id in store + Filed(e.h, objs) && (store + Filed(e.h, objs))[id] == store[id]
  {
    hide ObjectId, Filed, Recorded;
    forall id | id in Filed(e.h, objs) && id in store ensures Filed(e.h, objs)[id] == store[id] {
      var i := FiledAt(e.h, objs, id);
      assert Recorded(e.h, input, 37)[i] == objs[i];
    }
  }

  /** What one store exports, any store imports: the snapshot arrives with its whole closure. */
  method ExportThenImport(e: Env, source: Objects, snapshot: Digest, target: Objects)
    returns (arrived: Option<Digest>, after: Objects)
    requires Sound(e, source) && Sound(e, target)
    requires forall id | id in source && id in target :: source[id] == target[id]
    requires Reachable(e, source, snapshot) && |source| < Pow256(8)
    ensures arrived == Some(snapshot) && Reachable(e, after, snapshot)
    ensures forall id | id in after :: (id in target && after[id] == target[id]) || (id in source && after[id] == source[id])
  {
    hide Listing, Held, Reachable, ReadBundle, Filed, NoCollision, ObjectId, Sound;
    var bundle, objs := Export(e, source, snapshot);
    HeldFits(e, source, snapshot, objs);
    BundleReadsBack(e.h, snapshot, objs);
    BundleDoesNotCollide(e, source, snapshot, target, objs, bundle.value);
    arrived, after := Import(e, target, bundle.value);
    FiledFromSource(e, source, target, objs);
  }

  lemma BundleDoesNotCollide(
      e: Env, source: Objects, snapshot: Digest, target: Objects, objs: seq<Obj>, bundle: seq<byte>)
    requires Held(e, source, objs) && ReadBundle(e.h, bundle) == Some((snapshot, objs))
    requires forall id | id in source && id in target :: source[id] == target[id]
    ensures NoCollision(e.h, target, bundle)
  {
    hide ObjectId, Recorded, ReadObjects, DecodeLE;
    ReadAreRecorded(e.h, bundle, 37);
  }

  lemma HeldFits(e: Env, store: Objects, snapshot: Digest, objs: seq<Obj>)
    requires Sound(e, store) && Held(e, store, objs) && Listing(e, snapshot, objs)
    ensures AllFit(objs) && |objs| <= |store|
  {
    hide ObjectId;
    var ids := set i | 0 <= i < |objs| :: objs[i].Id(e.h);
    IdsDistinct(e, objs);
    assert ids <= store.Keys;
    SubsetSize(ids, store.Keys);
  }

  lemma {:induction false} IdsDistinct(e: Env, objs: seq<Obj>)
    requires forall i, j | 0 <= i < j < |objs| :: objs[i].Id(e.h) != objs[j].Id(e.h)
    ensures |(set i | 0 <= i < |objs| :: objs[i].Id(e.h))| == |objs|
  {
    hide ObjectId;
    if objs != [] {
      var front, last := objs[..|objs| - 1], objs[|objs| - 1];
      IdsDistinct(e, front);
      var fewer := set i | 0 <= i < |front| :: front[i].Id(e.h);
      assert last.Id(e.h) !in fewer;
      assert (set i | 0 <= i < |objs| :: objs[i].Id(e.h)) == fewer + {last.Id(e.h)} by {
        assert forall i | 0 <= i < |front| :: objs[i] == front[i];
        assert objs[|front|] == last;
      }
    }
  }

  lemma FiledFromSource(e: Env, source: Objects, target: Objects, objs: seq<Obj>)
    requires Held(e, source, objs)
    ensures forall id | id in target + Filed(e.h, objs) ::
      (id in target && (target + Filed(e.h, objs))[id] == target[id])
      || (id in source && (target + Filed(e.h, objs))[id] == source[id])
  {
    hide ObjectId, Filed;
    forall id | id in Filed(e.h, objs) ensures id in source && Filed(e.h, objs)[id] == source[id] {
      var i := FiledAt(e.h, objs, id);
    }
  }
}
