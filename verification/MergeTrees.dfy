/** Three-way planning from Merkle roots (merge.rs): only what differs from the base is collected, and the
    plan is made from the two deltas. */
module MergeTrees {
  import opened Bytes
  import opened Model
  import opened Paths
  import opened Merge

  /** A directory tree as the object store holds it; `sub` is the tree a directory's target names. */
  datatype Dir = Dir(items: seq<Item>)

  datatype Item = Item(entry: TreeEntry, sub: Dir)

  const EMPTY_DIR := Dir([])

  type Identity = Dir -> Digest

  /** A tree and everything below it. */
  ghost function Subtrees(d: Dir): set<Dir>
    decreases d
  {
    {d} + set i, x | 0 <= i < |d.items| && x in Subtrees(d.items[i].sub) :: x
  }

  /** No tree of the one and a different tree of the other have the same identity. */
  ghost predicate Distinguishes(id: Identity, a: Dir, b: Dir) {
    forall x, y | x in Subtrees(a) && y in Subtrees(b) && id(x) == id(y) :: x == y
  }

  lemma DistinguishesBelow(id: Identity, a: Dir, i: nat, b: Dir, j: nat)
    requires Distinguishes(id, a, b) && i < |a.items| && j < |b.items|
    ensures Distinguishes(id, a.items[i].sub, b.items[j].sub)
  {
  }

  predicate ValidName(name: seq<byte>) {
    name != [] && SLASH !in name
  }

  /** Entries in strict name order, each directory naming its own tree. */
  ghost predicate WellFormed(id: Identity, d: Dir)
    decreases d
  {
    && (forall i, j | 0 <= i < j < |d.items| :: Less(d.items[i].entry.name, d.items[j].entry.name))
    && (forall i | 0 <= i < |d.items| :: WellFormedItem(id, d.items[i]))
  }

  ghost predicate WellFormedItem(id: Identity, item: Item)
    decreases item
  {
    && ValidName(item.entry.name)
    && if item.entry.kind.Directory? then item.entry.target == Some(id(item.sub)) && WellFormed(id, item.sub)
       else item.sub == EMPTY_DIR
  }

  /** All paths of the first `n` entries. */
  function FlatTo(prefix: Path, d: Dir, n: nat): Entries
    requires n <= |d.items|
    decreases d, n
  {
    if n == 0 then map[] else FlatTo(prefix, d, n - 1) + FlatItem(prefix, d.items[n - 1])
  }

  function FlatItem(prefix: Path, item: Item): Entries
    decreases item, 1
  {
    var path := JoinPath(prefix, item.entry.name);
    map[path := item.entry] + FlatBelow(path, item)
  }

  function FlatBelow(path: Path, item: Item): Entries
    decreases item, 0
  {
    if item.entry.kind.Directory? then FlatTo(path, item.sub, |item.sub.items|) else map[]
  }

  function Flat(prefix: Path, d: Dir): Entries {
    FlatTo(prefix, d, |d.items|)
  }

  predicate Under(path: Path, top: Path) {
    path == top || IsDescendant(path, top)
  }

  lemma JoinIsDescendant(prefix: Path, name: seq<byte>)
    requires prefix != []
    ensures IsDescendant(JoinPath(prefix, name), prefix)
  {
  }

  lemma {:induction false} FlatKeys(id: Identity, prefix: Path, d: Dir, n: nat, key: Path)
    requires n <= |d.items| && WellFormed(id, d) && key in FlatTo(prefix, d, n)
    ensures exists i :: 0 <= i < n && Under(key, JoinPath(prefix, d.items[i].entry.name))
    ensures prefix != [] ==> IsDescendant(key, prefix)
    decreases d, n
  {
    if key in FlatItem(prefix, d.items[n - 1]) {
      ItemKeys(id, prefix, d.items[n - 1], key);
    } else {
      FlatKeys(id, prefix, d, n - 1, key);
    }
  }

  lemma {:induction false} ItemKeys(id: Identity, prefix: Path, item: Item, key: Path)
    requires WellFormedItem(id, item) && key in FlatItem(prefix, item)
    ensures Under(key, JoinPath(prefix, item.entry.name))
    ensures key in FlatBelow(JoinPath(prefix, item.entry.name), item) ==>
              IsDescendant(key, JoinPath(prefix, item.entry.name))
    ensures prefix != [] ==> IsDescendant(key, prefix)
    decreases item, 0
  {
    var path := JoinPath(prefix, item.entry.name);
    if key in FlatBelow(path, item) {
      FlatKeys(id, path, item.sub, |item.sub.items|, key);
    }
    if prefix != [] {
      JoinIsDescendant(prefix, item.entry.name);
      if key != path {
        DescendantIsTransitive(key, path, prefix);
      }
    }
  }

  /** Two names of one directory have no path in common. */
  lemma SiblingsApart(prefix: Path, a: seq<byte>, b: seq<byte>, key: Path)
    requires ValidName(a) && ValidName(b)
    requires Under(key, JoinPath(prefix, a)) && Under(key, JoinPath(prefix, b))
    ensures a == b
  {
    var start := if prefix == [] then 0 else |prefix| + 1;
    NameAt(prefix, a, key);
    NameAt(prefix, b, key);
  }

  lemma NameAt(prefix: Path, name: seq<byte>, key: Path)
    requires Under(key, JoinPath(prefix, name))
    ensures var start := if prefix == [] then 0 else |prefix| + 1;
            && start + |name| <= |key| && key[start..start + |name|] == name
            && (start + |name| < |key| ==> key[start + |name|] == SLASH)
  {
    var path := JoinPath(prefix, name);
    var start := if prefix == [] then 0 else |prefix| + 1;
    assert path[start..] == name;
    assert key[..|path|] == path;
    assert key[start..|path|] == key[..|path|][start..];
  }

  // ---------- Deltas ----------

  datatype Delta = Delta(before: Option<TreeEntry>, after: Option<TreeEntry>)

  type DeltaMap = map<Path, Delta>

  /** Where two flattened trees are not equivalent, and what each has there. */
  function Deltas(before: Entries, after: Entries): DeltaMap {
    map p | p in before.Keys + after.Keys && !Equivalent(Get(before, p), Get(after, p)) ::
      Delta(Get(before, p), Get(after, p))
  }

  lemma DeltasAt(before: Entries, after: Entries, p: Path)
    ensures p in Deltas(before, after) <==> !Equivalent(Get(before, p), Get(after, p))
    ensures p in Deltas(before, after) ==> Deltas(before, after)[p] == Delta(Get(before, p), Get(after, p))
  {
  }

  lemma DeltasJoin(a: Entries, b: Entries, c: Entries, d: Entries)
    requires (a.Keys + c.Keys) !! (b.Keys + d.Keys)
    ensures Deltas(a + b, c + d) == Deltas(a, c) + Deltas(b, d)
  {
    hide Equivalent, Deltas;
    var joint, apart := Deltas(a + b, c + d), Deltas(a, c) + Deltas(b, d);
    forall p
      ensures p in joint <==> p in apart
      ensures p in joint ==> joint[p] == apart[p]
    {
      DeltasAt(a + b, c + d, p);
      DeltasAt(a, c, p);
      DeltasAt(b, d, p);
      SelfEquivalent(None);
      if p in b.Keys + d.Keys {
        assert Get(a + b, p) == Get(b, p) && Get(c + d, p) == Get(d, p);
      } else {
        assert Get(a + b, p) == Get(a, p) && Get(c + d, p) == Get(c, p);
      }
    }
  }

  lemma DeltasOfSame(a: Entries)
    ensures Deltas(a, a) == map[]
  {
  }

  lemma JoinEmpty(m: DeltaMap)
    ensures m + map[] == m && map[] + m == m
  {
  }

  lemma JoinAssociates(a: DeltaMap, b: DeltaMap, c: DeltaMap)
    ensures (a + b) + c == a + (b + c)
  {
  }

  /** An entry and what lies below it keep apart. */
  lemma BelowApart(id: Identity, prefix: Path, item: Item)
    requires WellFormedItem(id, item)
    ensures JoinPath(prefix, item.entry.name) !in FlatBelow(JoinPath(prefix, item.entry.name), item)
  {
    var path := JoinPath(prefix, item.entry.name);
    if path in FlatBelow(path, item) {
      ItemKeys(id, prefix, item, path);
    }
  }

  /** The first `n` entries of one tree and a later entry of either keep apart. */
  lemma FrontApart(id: Identity, prefix: Path, d: Dir, n: nat, item: Item)
    requires n <= |d.items| && WellFormed(id, d) && WellFormedItem(id, item)
    requires forall i | 0 <= i < n :: d.items[i].entry.name != item.entry.name
    ensures FlatTo(prefix, d, n).Keys !! FlatItem(prefix, item).Keys
  {
    hide FlatTo, FlatItem;
    forall key | key in FlatTo(prefix, d, n) ensures key !in FlatItem(prefix, item) {
      FlatKeys(id, prefix, d, n, key);
      var i :| 0 <= i < n && Under(key, JoinPath(prefix, d.items[i].entry.name));
      if key in FlatItem(prefix, item) {
        ItemKeys(id, prefix, item, key);
        SiblingsApart(prefix, d.items[i].entry.name, item.entry.name, key);
      }
    }
  }

  function Removed(entries: Entries): DeltaMap { Deltas(entries, map[]) }

  function Added(entries: Entries): DeltaMap { Deltas(map[], entries) }

  function OneSided(added: bool, entries: Entries): DeltaMap {
    if added then Added(entries) else Removed(entries)
  }

  lemma OneSidedJoin(added: bool, a: Entries, b: Entries)
    requires a.Keys !! b.Keys
    ensures OneSided(added, a + b) == OneSided(added, a) + OneSided(added, b)
  {
    var none: Entries := map[];
    assert none + none == none;
    if added {
      DeltasJoin(none, none, a, b);
    } else {
      DeltasJoin(a, b, none, none);
    }
  }

  lemma OneSidedEntry(added: bool, path: Path, entry: TreeEntry)
    ensures OneSided(added, map[path := entry])
         == map[path := if added then Delta(None, Some(entry)) else Delta(Some(entry), None)]
  {
  }

  /** Records a whole subtree as added or as removed. */
  method CollectSubtree(id: Identity, d: Dir, prefix: Path, added: bool, output: DeltaMap) returns (out: DeltaMap)
    requires WellFormed(id, d)
    ensures out == output + OneSided(added, Flat(prefix, d))
    decreases d
  {
    hide OneSided, FlatItem, FlatBelow, Less;
    out := output;
    EmptySide(added);
    for i := 0 to |d.items|
      invariant out == output + OneSided(added, FlatTo(prefix, d, i))
    {
      var item := d.items[i];
      var path := JoinPath(prefix, item.entry.name);
      SubtreeStep(id, prefix, d, i, added, output);
      out := out[path := if added then Delta(None, Some(item.entry)) else Delta(Some(item.entry), None)];
      if item.entry.kind.Directory? {
        out := CollectSubtree(id, item.sub, path, added, out);
      }
    }
  }

  lemma EmptySide(added: bool)
    ensures OneSided(added, map[]) == map[]
  {
  }

  lemma SubtreeStep(id: Identity, prefix: Path, d: Dir, i: nat, added: bool, output: DeltaMap)
    requires i < |d.items| && WellFormed(id, d)
    ensures var item := d.items[i];
            var path := JoinPath(prefix, item.entry.name);
            var entered := (output + OneSided(added, FlatTo(prefix, d, i)))
                             [path := if added then Delta(None, Some(item.entry)) else Delta(Some(item.entry), None)];
            output + OneSided(added, FlatTo(prefix, d, i + 1)) ==
              if item.entry.kind.Directory? then entered + OneSided(added, Flat(path, item.sub)) else entered
  {
    hide OneSided, Less, Deltas, Equivalent;
    var item := d.items[i];
    var path := JoinPath(prefix, item.entry.name);
    NamesDiffer(id, d, i);
    FrontApart(id, prefix, d, i, item);
    BelowApart(id, prefix, item);
    FlatUnfolds(prefix, d, i);
    hide *;
    OneSidedJoin(added, FlatTo(prefix, d, i), FlatItem(prefix, item));
    OneSidedJoin(added, map[path := item.entry], FlatBelow(path, item));
    OneSidedEntry(added, path, item.entry);
    EmptySide(added);
    InsertThenJoin(output, OneSided(added, FlatTo(prefix, d, i)), path,
                   if added then Delta(None, Some(item.entry)) else Delta(Some(item.entry), None),
                   OneSided(added, FlatBelow(path, item)));
  }

  lemma FlatUnfolds(prefix: Path, d: Dir, i: nat)
    requires i < |d.items|
    ensures var item := d.items[i];
            var path := JoinPath(prefix, item.entry.name);
            && FlatTo(prefix, d, i + 1) == FlatTo(prefix, d, i) + FlatItem(prefix, item)
            && FlatItem(prefix, item) == map[path := item.entry] + FlatBelow(path, item)
            && FlatBelow(path, item) == if item.entry.kind.Directory? then Flat(path, item.sub) else map[]
  {
  }

  lemma InsertThenJoin(output: DeltaMap, front: DeltaMap, path: Path, delta: Delta, below: DeltaMap)
    ensures output + (front + (map[path := delta] + below)) == (output + front)[path := delta] + below
    ensures below == map[] ==> (output + front)[path := delta] + below == (output + front)[path := delta]
  {
  }

  lemma NamesDiffer(id: Identity, d: Dir, i: nat)
    requires i < |d.items| && WellFormed(id, d)
    ensures forall k | 0 <= k < i :: d.items[k].entry.name != d.items[i].entry.name
  {
    hide WellFormedItem;
    forall k | 0 <= k < i ensures d.items[k].entry.name != d.items[i].entry.name {
      assert Less(d.items[k].entry.name, d.items[i].entry.name);
      LessTotal(d.items[k].entry.name, d.items[i].entry.name);
    }
  }

  // ---------- Collecting a delta ----------

  function NameOf(item: Item): seq<byte> {
    item.entry.name
  }

  /** The first `i` entries of one tree come before the rest of the other. */
  ghost predicate Ahead(a: Dir, i: nat, b: Dir, j: nat) {
    forall k, l | 0 <= k < i && k < |a.items| && j <= l < |b.items| :: Less(NameOf(a.items[k]), NameOf(b.items[l]))
  }

  ghost predicate Aligned(before: Dir, i: nat, after: Dir, j: nat) {
    Ahead(before, i, after, j) && Ahead(after, j, before, i)
  }

  lemma Ordered(id: Identity, d: Dir, i: nat, j: nat)
    requires WellFormed(id, d) && i < j < |d.items|
    ensures Less(NameOf(d.items[i]), NameOf(d.items[j]))
  {
    hide WellFormedItem;
  }

  /** Taking the entry with the smaller name keeps the two walks aligned. */
  lemma TakeSmaller(id: Identity, a: Dir, i: nat, b: Dir, j: nat)
    requires WellFormed(id, a) && WellFormed(id, b) && Aligned(a, i, b, j)
    requires i < |a.items| && j <= |b.items|
    requires j < |b.items| ==> Less(NameOf(a.items[i]), NameOf(b.items[j]))
    ensures Aligned(a, i + 1, b, j)
    ensures forall k | 0 <= k < i :: NameOf(a.items[k]) != NameOf(a.items[i])
    ensures forall k | 0 <= k < j :: NameOf(b.items[k]) != NameOf(a.items[i])
  {
    hide Less, WellFormed;
    NamesDiffer(id, a, i);
    forall k | 0 <= k < j ensures NameOf(b.items[k]) != NameOf(a.items[i]) {
      LessTotal(NameOf(b.items[k]), NameOf(a.items[i]));
    }
    forall l | j <= l < |b.items| ensures Less(NameOf(a.items[i]), NameOf(b.items[l])) {
      if l > j {
        Ordered(id, b, j, l);
        LessTransitive(NameOf(a.items[i]), NameOf(b.items[j]), NameOf(b.items[l]));
      }
    }
  }

  lemma TakeBoth(id: Identity, a: Dir, i: nat, b: Dir, j: nat)
    requires WellFormed(id, a) && WellFormed(id, b) && Aligned(a, i, b, j)
    requires i < |a.items| && j < |b.items| && NameOf(a.items[i]) == NameOf(b.items[j])
    ensures Aligned(a, i + 1, b, j + 1)
    ensures forall k | 0 <= k < i :: NameOf(a.items[k]) != NameOf(a.items[i])
    ensures forall k | 0 <= k < j :: NameOf(b.items[k]) != NameOf(a.items[i])
  {
    hide Less, WellFormed;
    NamesDiffer(id, a, i);
    NamesDiffer(id, b, j);
    forall k, l | 0 <= k < i + 1 && j + 1 <= l < |b.items| ensures Less(NameOf(a.items[k]), NameOf(b.items[l])) {
      Ordered(id, b, j, l);
    }
    forall k, l | 0 <= k < j + 1 && i + 1 <= l < |a.items| ensures Less(NameOf(b.items[k]), NameOf(a.items[l])) {
      Ordered(id, a, i, l);
    }
  }

  /** One visited pair: the deltas of the trees so far grow by the deltas of the pair. */
  lemma PairStep(
      id: Identity, prefix: Path, before: Dir, i: nat, after: Dir, j: nat, left: Option<Item>, right: Option<Item>)
    requires i <= |before.items| && j <= |after.items| && WellFormed(id, before) && WellFormed(id, after)
    requires left.Some? ==> i < |before.items| && left.value == before.items[i]
    requires right.Some? ==> j < |after.items| && right.value == after.items[j]
    requires left.Some? && right.Some? ==> NameOf(left.value) == NameOf(right.value)
    requires left.Some? ==> forall k | 0 <= k < i :: NameOf(before.items[k]) != NameOf(left.value)
    requires left.Some? ==> forall k | 0 <= k < j :: NameOf(after.items[k]) != NameOf(left.value)
    requires right.Some? ==> forall k | 0 <= k < i :: NameOf(before.items[k]) != NameOf(right.value)
    requires right.Some? ==> forall k | 0 <= k < j :: NameOf(after.items[k]) != NameOf(right.value)
    ensures Deltas(FlatTo(prefix, before, i + (if left.Some? then 1 else 0)),
                   FlatTo(prefix, after, j + (if right.Some? then 1 else 0)))
         == Deltas(FlatTo(prefix, before, i), FlatTo(prefix, after, j))
            + Deltas(FlatOption(prefix, left), FlatOption(prefix, right))
  {
    hide Deltas, FlatTo, FlatItem, WellFormed, WellFormedItem;
    if left.Some? {
      ItemIsWellFormed(id, before, i);
      FrontApart(id, prefix, before, i, left.value);
      FrontApart(id, prefix, after, j, left.value);
      FlatUnfolds(prefix, before, i);
    }
    if right.Some? {
      ItemIsWellFormed(id, after, j);
      FrontApart(id, prefix, before, i, right.value);
      FrontApart(id, prefix, after, j, right.value);
      FlatUnfolds(prefix, after, j);
    }
    DeltasJoin(FlatTo(prefix, before, i), FlatOption(prefix, left), FlatTo(prefix, after, j), FlatOption(prefix, right));
    assert FlatTo(prefix, before, i) + map[] == FlatTo(prefix, before, i);
    assert FlatTo(prefix, after, j) + map[] == FlatTo(prefix, after, j);
  }

  lemma ItemIsWellFormed(id: Identity, d: Dir, i: nat)
    requires i < |d.items| && WellFormed(id, d)
    ensures WellFormedItem(id, d.items[i])
  {
    hide WellFormedItem;
  }

  function FlatOption(prefix: Path, item: Option<Item>): Entries {
    if item.Some? then FlatItem(prefix, item.value) else map[]
  }

  /** The deltas of one pair of equally named entries: at the entry, and below it. */
  lemma PairDeltas(id: Identity, prefix: Path, left: Option<Item>, right: Option<Item>, path: Path)
    requires left.Some? ==> WellFormedItem(id, left.value) && path == JoinPath(prefix, NameOf(left.value))
    requires right.Some? ==> WellFormedItem(id, right.value) && path == JoinPath(prefix, NameOf(right.value))
    ensures Deltas(FlatOption(prefix, left), FlatOption(prefix, right))
         == DeltaAtPath(path, EntryOf(left), EntryOf(right)) + Deltas(BelowOf(path, left), BelowOf(path, right))
  {
    hide Deltas, FlatBelow, WellFormedItem, Equivalent;
    if left.Some? {
      BelowApart(id, prefix, left.value);
    }
    if right.Some? {
      BelowApart(id, prefix, right.value);
    }
    DeltasJoin(TopOf(path, left), BelowOf(path, left), TopOf(path, right), BelowOf(path, right));
    var none: Entries := map[];
    assert none + none == none;
    TopDeltas(path, left, right);
  }

  function EntryOf(item: Option<Item>): Option<TreeEntry> {
    if item.Some? then Some(item.value.entry) else None
  }

  function BelowOf(path: Path, item: Option<Item>): Entries {
    if item.Some? then FlatBelow(path, item.value) else map[]
  }

  function TopOf(path: Path, item: Option<Item>): Entries {
    if item.Some? then map[path := item.value.entry] else map[]
  }

  function DeltaAtPath(path: Path, before: Option<TreeEntry>, after: Option<TreeEntry>): DeltaMap {
    if Equivalent(before, after) then map[] else map[path := Delta(before, after)]
  }

  lemma TopDeltas(path: Path, left: Option<Item>, right: Option<Item>)
    ensures Deltas(TopOf(path, left), TopOf(path, right)) == DeltaAtPath(path, EntryOf(left), EntryOf(right))
  {
    hide Equivalent;
    SelfEquivalent(None);
  }

  /** Below a pair that is not two directories, one side has nothing. */
  lemma BelowDeltas(path: Path, left: Option<Item>, right: Option<Item>)
    requires !(IsDirectory(EntryOf(left)) && IsDirectory(EntryOf(right)))
    ensures Deltas(BelowOf(path, left), BelowOf(path, right))
         == OneSided(false, BelowOf(path, left)) + OneSided(true, BelowOf(path, right))
  {
    hide Deltas;
    EmptySide(false);
    EmptySide(true);
    JoinEmpty(Deltas(BelowOf(path, left), BelowOf(path, right)));
  }

  /** Records one visited pair that is not two directories. */
  method CollectReplaced(id: Identity, left: Option<Item>, right: Option<Item>, prefix: Path, path: Path, output: DeltaMap)
    returns (out: DeltaMap)
    requires left.Some? ==> WellFormedItem(id, left.value) && path == JoinPath(prefix, NameOf(left.value))
    requires right.Some? ==> WellFormedItem(id, right.value) && path == JoinPath(prefix, NameOf(right.value))
    requires !(IsDirectory(EntryOf(left)) && IsDirectory(EntryOf(right)))
    ensures out == output + Deltas(FlatOption(prefix, left), FlatOption(prefix, right))
  {
    hide Deltas, Equivalent, OneSided, FlatItem, FlatTo;
    PairDeltas(id, prefix, left, right, path);
    BelowDeltas(path, left, right);
    EmptySide(false);
    EmptySide(true);
    out := output;
    var before, after := EntryOf(left), EntryOf(right);
    if !Equivalent(before, after) {
      out := out[path := Delta(before, after)];
    }
    assert out == output + DeltaAtPath(path, before, after);
    if left.Some? && left.value.entry.kind.Directory? {
      out := CollectSubtree(id, left.value.sub, path, false, out);
    }
    JoinEmpty(output + DeltaAtPath(path, before, after));
    if right.Some? && right.value.entry.kind.Directory? {
      out := CollectSubtree(id, right.value.sub, path, true, out);
    }
    JoinAll(output, DeltaAtPath(path, before, after), OneSided(false, BelowOf(path, left)), OneSided(true, BelowOf(path, right)));
  }

  lemma JoinAll(a: DeltaMap, b: DeltaMap, c: DeltaMap, d: DeltaMap)
    ensures a + (b + (c + d)) == a + b + c + d
    ensures d == map[] ==> a + b + c + d == a + b + c
  {
  }

  /** The exact difference of two trees, found without descending into anything they share. */
  method CollectDelta(id: Identity, before: Dir, after: Dir, prefix: Path, output: DeltaMap) returns (out: DeltaMap)
    requires Distinguishes(id, before, after) && WellFormed(id, before) && WellFormed(id, after)
    ensures out == output + Deltas(Flat(prefix, before), Flat(prefix, after))
    decreases before
  {
    hide Deltas, Less, FlatItem, FlatTo, Equivalent, Aligned, Subtrees, Distinguishes;
    out := output;
    if id(before) == id(after) {
      SameTree(id, before, after);
      DeltasOfSame(Flat(prefix, before));
      return;
    }
    StartAligned(prefix, before, after);
    JoinEmpty(output);
    var i, j := 0, 0;
    while i < |before.items| || j < |after.items|
      invariant 0 <= i <= |before.items| && 0 <= j <= |after.items|
      invariant Aligned(before, i, after, j)
      invariant out == output + Deltas(FlatTo(prefix, before, i), FlatTo(prefix, after, j))
      decreases |before.items| - i + |after.items| - j
    {
      ghost var done := Deltas(FlatTo(prefix, before, i), FlatTo(prefix, after, j));
      if i < |before.items| && j < |after.items| && before.items[i].entry.name == after.items[j].entry.name {
        var left, right := before.items[i], after.items[j];
        TakeBoth(id, before, i, after, j);
        PairStep(id, prefix, before, i, after, j, Some(left), Some(right));
        JoinAssociates(output, done, Deltas(FlatItem(prefix, left), FlatItem(prefix, right)));
        DistinguishesBelow(id, before, i, after, j);
        out := CollectPair(id, left, right, prefix, out);
        i, j := i + 1, j + 1;
      } else if i < |before.items| && (j == |after.items| || Less(before.items[i].entry.name, after.items[j].entry.name)) {
        var left := before.items[i];
        TakeSmaller(id, before, i, after, j);
        PairStep(id, prefix, before, i, after, j, Some(left), None);
        JoinAssociates(output, done, Deltas(FlatItem(prefix, left), map[]));
        out := CollectReplaced(id, Some(left), None, prefix, JoinPath(prefix, left.entry.name), out);
        i := i + 1;
      } else {
        var right := after.items[j];
        if i < |before.items| {
          LessTotal(NameOf(before.items[i]), NameOf(right));
        }
        AlignedMirror(before, i, after, j);
        TakeSmaller(id, after, j, before, i);
        AlignedMirror(after, j + 1, before, i);
        PairStep(id, prefix, before, i, after, j, None, Some(right));
        JoinAssociates(output, done, Deltas(map[], FlatItem(prefix, right)));
        out := CollectReplaced(id, None, Some(right), prefix, JoinPath(prefix, right.entry.name), out);
        j := j + 1;
      }
    }
  }

  /** Records what differs between two entries of one name. */
  method CollectPair(id: Identity, left: Item, right: Item, prefix: Path, output: DeltaMap) returns (out: DeltaMap)
    requires Distinguishes(id, left.sub, right.sub) && WellFormedItem(id, left) && WellFormedItem(id, right)
    requires left.entry.name == right.entry.name
    ensures out == output + Deltas(FlatItem(prefix, left), FlatItem(prefix, right))
    decreases left
  {
    hide Deltas, FlatItem, FlatTo, Equivalent, Distinguishes;
    out := output;
    if left.entry == right.entry {
      SameItems(id, left, right);
      DeltasOfSame(FlatItem(prefix, left));
      JoinEmpty(output);
      return;
    }
    var path := JoinPath(prefix, left.entry.name);
    if left.entry.kind.Directory? && right.entry.kind.Directory? {
      PairDeltas(id, prefix, Some(left), Some(right), path);
      JoinAssociates(output, DeltaAtPath(path, Some(left.entry), Some(right.entry)),
                     Deltas(FlatBelow(path, left), FlatBelow(path, right)));
      if !Equivalent(Some(left.entry), Some(right.entry)) {
        out := out[path := Delta(Some(left.entry), Some(right.entry))];
      }
      assert out == output + DeltaAtPath(path, Some(left.entry), Some(right.entry));
      out := CollectDelta(id, left.sub, right.sub, path, out);
    } else {
      out := CollectReplaced(id, Some(left), Some(right), prefix, path, out);
    }
  }

  lemma StartAligned(prefix: Path, before: Dir, after: Dir)
    ensures Aligned(before, 0, after, 0)
    ensures Deltas(FlatTo(prefix, before, 0), FlatTo(prefix, after, 0)) == map[]
  {
  }

  lemma AlignedMirror(a: Dir, i: nat, b: Dir, j: nat)
    requires Aligned(a, i, b, j)
    ensures Aligned(b, j, a, i)
  {
  }

  /** Equal entries name equal trees. */
  lemma SameItems(id: Identity, a: Item, b: Item)
    requires Distinguishes(id, a.sub, b.sub) && WellFormedItem(id, a) && WellFormedItem(id, b) && a.entry == b.entry
    ensures a == b
  {
    if a.entry.kind.Directory? {
      SameTree(id, a.sub, b.sub);
    }
  }

  lemma SameTree(id: Identity, a: Dir, b: Dir)
    requires Distinguishes(id, a, b) && id(a) == id(b)
    ensures a == b
  {
  }
}
