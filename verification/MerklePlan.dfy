/** The planner over Merkle roots (merge.rs, plan_trees), and exactly when it agrees with the planner over
    flattened trees. */
module MerklePlan {
  import opened Bytes
  import opened Model
  import opened Paths
  import opened Merge
  import opened MergeTrees

  // ---------- The first key after a directory ----------

  ghost predicate IsNext(keys: set<Path>, directory: Path, key: Path) {
    key in keys && Less(directory, key) && forall other | other in keys && Less(directory, other) :: AtMost(key, other)
  }

  ghost predicate NextIsDescendant(keys: set<Path>, directory: Path) {
    exists key :: IsNext(keys, directory, key) && IsDescendant(key, directory)
  }

  /** A key sorts between the directory and everything below it: the directory's name goes on with a byte
      smaller than a slash. */
  ghost predicate Shadowed(keys: set<Path>, directory: Path) {
    exists key :: key in keys && Less(directory, key) && Less(key, directory + [SLASH])
  }

  ghost predicate HasDescendant(keys: set<Path>, directory: Path) {
    exists key :: key in keys && IsDescendant(key, directory)
  }

  lemma {:induction false} NextExists(keys: set<Path>, directory: Path, some: Path) returns (key: Path)
    requires some in keys && Less(directory, some)
    ensures IsNext(keys, directory, key)
    decreases keys
  {
    hide Less;
    if other :| other in keys && Less(directory, other) && other != some {
      var rest := keys - {some};
      key := NextExists(rest, directory, other);
      LessTotal(some, key);
      if Less(some, key) {
        forall o | o in keys && Less(directory, o) ensures AtMost(some, o) {
          if o != some && o != key {
            LessTransitive(some, key, o);
          }
        }
        key := some;
      }
    } else {
      key := some;
    }
  }

  lemma NextIsDescendantIff(keys: set<Path>, directory: Path)
    ensures NextIsDescendant(keys, directory) <==> HasDescendant(keys, directory) && !Shadowed(keys, directory)
  {
    hide Less, IsDescendant;
    var top := directory + [SLASH];
    if NextIsDescendant(keys, directory) {
      var key :| IsNext(keys, directory, key) && IsDescendant(key, directory);
      if k :| k in keys && Less(directory, k) && Less(k, top) {
        BelowTop(directory, key);
        NotBetween(k, top, key);
      }
    }
    if HasDescendant(keys, directory) && !Shadowed(keys, directory) {
      var d :| d in keys && IsDescendant(d, directory);
      BelowTop(directory, d);
      var key := NextExists(keys, directory, d);
      LessTotal(key, top);
      DescendantStarts(d, directory);
      BetweenSharesPrefix(top, key, d[|top|..]);
      DescendantStarts(key, directory);
    }
  }

  lemma BelowTop(directory: Path, path: Path)
    requires IsDescendant(path, directory)
    ensures Less(directory, path) && AtMost(directory + [SLASH], path)
    ensures path == directory + [SLASH] + path[|directory| + 1..]
  {
    DescendantStarts(path, directory);
    var top := directory + [SLASH];
    assert path == top + path[|top|..];
    PrefixIsLess(directory, path[|directory|..]);
    assert path == directory + path[|directory|..];
    if path != top {
      PrefixIsLess(top, path[|top|..]);
    }
  }

  lemma NotBetween(k: Path, top: Path, key: Path)
    requires Less(k, top) && AtMost(top, key)
    ensures !AtMost(key, k)
  {
    hide Less;
    if top != key {
      LessTransitive(k, top, key);
    }
    LessTotal(k, key);
  }

  method DeltaHasDescendant(deltas: DeltaMap, directory: Path) returns (found: bool)
    ensures found <==> NextIsDescendant(deltas.Keys, directory)
  {
    hide Less, IsDescendant;
    var next: Option<Path> := None;
    var rest := deltas.Keys;
    while rest != {}
      invariant rest <= deltas.Keys
      invariant next.None? ==> forall other | other in deltas.Keys - rest :: !Less(directory, other)
      invariant next.Some? ==> IsNext(deltas.Keys - rest, directory, next.value)
      decreases rest
    {
      var path :| path in rest;
      if Less(directory, path) {
        if next.None? || Less(path, next.value) {
          SmallerIsNext(deltas.Keys - rest, directory, next, path);
          next := Some(path);
        } else {
          LessTotal(path, next.value);
        }
      }
      rest := rest - {path};
      assert deltas.Keys - rest == deltas.Keys - (rest + {path}) + {path};
    }
    assert deltas.Keys - {} == deltas.Keys;
    found := next.Some? && IsDescendant(next.value, directory);
    if next.Some? {
      NextIsUnique(deltas.Keys, directory, next.value);
    }
  }

  lemma SmallerIsNext(seen: set<Path>, directory: Path, next: Option<Path>, path: Path)
    requires next.None? ==> forall other | other in seen :: !Less(directory, other)
    requires next.Some? ==> IsNext(seen, directory, next.value) && Less(path, next.value)
    requires Less(directory, path)
    ensures IsNext(seen + {path}, directory, path)
  {
    hide Less;
    forall other | other in seen && Less(directory, other) ensures AtMost(path, other) {
      if next.value != other {
        LessTransitive(path, next.value, other);
      }
    }
  }

  lemma NextIsUnique(keys: set<Path>, directory: Path, key: Path)
    requires IsNext(keys, directory, key)
    ensures forall other | IsNext(keys, directory, other) :: other == key
  {
    hide Less;
    forall other | IsNext(keys, directory, other) ensures other == key {
      LessTotal(key, other);
    }
  }

  // ---------- The planner ----------

  function BaseOf(oursDelta: DeltaMap, theirsDelta: DeltaMap, path: Path): Option<TreeEntry> {
    if path in oursDelta then oursDelta[path].before
    else if path in theirsDelta then theirsDelta[path].before
    else None
  }

  function SideOf(delta: DeltaMap, path: Path, base: Option<TreeEntry>): Option<TreeEntry> {
    if path in delta then delta[path].after else base
  }

  predicate TakesTheirsIn(oursDelta: DeltaMap, theirsDelta: DeltaMap, path: Path) {
    var base := BaseOf(oursDelta, theirsDelta, path);
    TakesTheirs(base, SideOf(oursDelta, path, base), SideOf(theirsDelta, path, base))
  }

  predicate DivergedIn(oursDelta: DeltaMap, theirsDelta: DeltaMap, path: Path) {
    var base := BaseOf(oursDelta, theirsDelta, path);
    Diverged(base, SideOf(oursDelta, path, base), SideOf(theirsDelta, path, base))
  }

  function ConflictIn(oursDelta: DeltaMap, theirsDelta: DeltaMap, path: Path): ConflictKind {
    var base := BaseOf(oursDelta, theirsDelta, path);
    DirectConflict(base, SideOf(oursDelta, path, base), SideOf(theirsDelta, path, base))
  }

  function ChangeIn(oursDelta: DeltaMap, theirsDelta: DeltaMap, path: Path): Action {
    ActionFor(SideOf(theirsDelta, path, BaseOf(oursDelta, theirsDelta, path)))
  }

  method DeltaPass(oursDelta: DeltaMap, theirsDelta: DeltaMap)
    returns (changes: map<Path, Action>, conflicts: map<Path, ConflictKind>)
    ensures var all := oursDelta.Keys + theirsDelta.Keys;
      forall p ::
        && (p in changes <==> p in all && TakesTheirsIn(oursDelta, theirsDelta, p))
        && (p in changes ==> changes[p] == ChangeIn(oursDelta, theirsDelta, p))
        && (p in conflicts <==> p in all && DivergedIn(oursDelta, theirsDelta, p))
        && (p in conflicts ==> conflicts[p] == ConflictIn(oursDelta, theirsDelta, p))
  {
    var paths := oursDelta.Keys + theirsDelta.Keys;
    ghost var all := paths;
    changes, conflicts := map[], map[];
    while paths != {}
      invariant paths <= all
      invariant forall p ::
        && (p in changes <==> p in all - paths && TakesTheirsIn(oursDelta, theirsDelta, p))
        && (p in changes ==> changes[p] == ChangeIn(oursDelta, theirsDelta, p))
        && (p in conflicts <==> p in all - paths && DivergedIn(oursDelta, theirsDelta, p))
        && (p in conflicts ==> conflicts[p] == ConflictIn(oursDelta, theirsDelta, p))
      decreases paths
    {
      var path :| path in paths;
      paths := paths - {path};
      var baseEntry := BaseOf(oursDelta, theirsDelta, path);
      var oursEntry, theirsEntry := SideOf(oursDelta, path, baseEntry), SideOf(theirsDelta, path, baseEntry);
      if Equivalent(oursEntry, theirsEntry) {
      } else if Equivalent(baseEntry, oursEntry) {
        changes := changes[path := if theirsEntry.Some? then Set(theirsEntry.value) else Remove];
      } else if Equivalent(baseEntry, theirsEntry) {
      } else {
        conflicts := conflicts[path := DirectConflict(baseEntry, oursEntry, theirsEntry)];
      }
    }
  }

  /** What the second pass takes for a directory lost under a change. An entry the keeper deleted is read as
      the base directory. */
  ghost predicate LostIn(loser: DeltaMap, keeper: DeltaMap, path: Path) {
    && path in loser && IsDirectory(loser[path].before) && !IsDirectory(loser[path].after)
    && IsDirectory(if path in keeper && keeper[path].after.Some? then keeper[path].after else loser[path].before)
    && NextIsDescendant(keeper.Keys, path)
  }

  method LostPass(loser: DeltaMap, keeper: DeltaMap) returns (lost: set<Path>)
    ensures forall p :: p in lost <==> LostIn(loser, keeper, p)
  {
    lost := {};
    var rest := loser.Keys;
    while rest != {}
      invariant rest <= loser.Keys
      invariant forall p :: p in lost <==> p in loser.Keys - rest && LostIn(loser, keeper, p)
      decreases rest
    {
      var path :| path in rest;
      rest := rest - {path};
      var delta := loser[path];
      if delta.before.Some? && delta.before.value.kind.Directory? {
        var loserIsDirectory := IsDirectory(delta.after);
        var keeperEntry :=
          if path in keeper && keeper[path].after.Some? then keeper[path].after.value else delta.before.value;
        var below := DeltaHasDescendant(keeper, path);
        if !loserIsDirectory && keeperEntry.kind.Directory? && below {
          lost := lost + {path};
        }
      }
    }
  }

  ghost predicate MerkleConflictsAre(
      base: Entries, ours: Entries, theirs: Entries, conflicts: map<Path, ConflictKind>)
  {
    var oursDelta, theirsDelta := Deltas(base, ours), Deltas(base, theirs);
    forall p ::
      && (p in conflicts <==>
            DirectAt(base, ours, theirs, p) || LostIn(oursDelta, theirsDelta, p) || LostIn(theirsDelta, oursDelta, p))
      && (p in conflicts ==>
            conflicts[p] ==
            (if DirectAt(base, ours, theirs, p) then DirectConflict(Get(base, p), Get(ours, p), Get(theirs, p))
             else Ancestor))
  }

  ghost predicate IsMerklePlan(base: Entries, ours: Entries, theirs: Entries, plan: MergePlan) {
    MerkleConflictsAre(base, ours, theirs, plan.conflicts) && ChangesAre(base, ours, theirs, plan)
  }

  /** Path by path the deltas decide as the whole trees do, although a side that did not change is stood in
      for by the base. */
  lemma DeltasDecide(base: Entries, ours: Entries, theirs: Entries, p: Path)
    ensures var oursDelta, theirsDelta := Deltas(base, ours), Deltas(base, theirs);
            var all := oursDelta.Keys + theirsDelta.Keys;
            && (p in all && TakesTheirsIn(oursDelta, theirsDelta, p) <==>
                  TakesTheirs(Get(base, p), Get(ours, p), Get(theirs, p)))
            && (p in all && DivergedIn(oursDelta, theirsDelta, p) <==> DirectAt(base, ours, theirs, p))
            && (TakesTheirs(Get(base, p), Get(ours, p), Get(theirs, p)) ==>
                  ChangeIn(oursDelta, theirsDelta, p) == ActionFor(Get(theirs, p)))
            && (DirectAt(base, ours, theirs, p) ==>
                  ConflictIn(oursDelta, theirsDelta, p) == DirectConflict(Get(base, p), Get(ours, p), Get(theirs, p)))
  {
    DeltasAt(base, ours, p);
    DeltasAt(base, theirs, p);
    hide Equivalent, Deltas;
    Facts(base, ours, theirs, base, p);
    SelfEquivalent(Get(base, p));
  }

  method PlanTrees(id: Identity, base: Dir, ours: Dir, theirs: Dir) returns (plan: MergePlan)
    requires Distinguishes(id, base, ours) && Distinguishes(id, base, theirs)
    requires WellFormed(id, base) && WellFormed(id, ours) && WellFormed(id, theirs)
    ensures IsMerklePlan(Flat([], base), Flat([], ours), Flat([], theirs), plan)
    ensures IsPlan(Flat([], base), Flat([], ours), Flat([], theirs), plan)
       <==> Reliable(Flat([], base), Flat([], ours), Flat([], theirs))
  {
    hide Deltas, Flat, LostIn, DirectAt, TakesTheirs, Covered, DivergedIn, TakesTheirsIn, ConflictIn, ChangeIn,
      Distinguishes, WellFormed, IsPlan, Reliable;
    ghost var b, o, t := Flat([], base), Flat([], ours), Flat([], theirs);
    JoinEmpty(Deltas(b, o));
    JoinEmpty(Deltas(b, t));
    var oursDelta := CollectDelta(id, base, ours, [], map[]);
    var theirsDelta := CollectDelta(id, base, theirs, [], map[]);
    var changes, direct := DeltaPass(oursDelta, theirsDelta);
    var oursLost := LostPass(oursDelta, theirsDelta);
    var theirsLost := LostPass(theirsDelta, oursDelta);
    var conflicts := AddAncestors(direct, oursLost + theirsLost);
    ghost var every := changes;
    changes := map p | p in changes && !Covered(conflicts, p) :: changes[p];
    plan := MergePlan(changes, conflicts);
    MerklePlanBuilt(b, o, t, every, direct, oursLost + theirsLost, plan);
    FlatIsTree(id, ours);
    FlatIsTree(id, theirs);
    AgreesWithFlat(b, o, t, plan);
  }

  lemma MerklePlanBuilt(
      base: Entries, ours: Entries, theirs: Entries, changes: map<Path, Action>, direct: map<Path, ConflictKind>,
      lost: set<Path>, plan: MergePlan)
    requires var oursDelta, theirsDelta := Deltas(base, ours), Deltas(base, theirs);
      var all := oursDelta.Keys + theirsDelta.Keys;
      && (forall p ::
            && (p in changes <==> p in all && TakesTheirsIn(oursDelta, theirsDelta, p))
            && (p in changes ==> changes[p] == ChangeIn(oursDelta, theirsDelta, p))
            && (p in direct <==> p in all && DivergedIn(oursDelta, theirsDelta, p))
            && (p in direct ==> direct[p] == ConflictIn(oursDelta, theirsDelta, p)))
      && (forall p :: p in lost <==> LostIn(oursDelta, theirsDelta, p) || LostIn(theirsDelta, oursDelta, p))
    requires forall p :: p in plan.conflicts <==> p in direct || p in lost
    requires forall p | p in plan.conflicts :: plan.conflicts[p] == if p in direct then direct[p] else Ancestor
    requires forall p :: p in plan.changes <==> p in changes && !Covered(plan.conflicts, p)
    requires forall p | p in plan.changes :: plan.changes[p] == changes[p]
    ensures IsMerklePlan(base, ours, theirs, plan)
  {
    hide Deltas, LostIn, DirectAt, TakesTheirs, Covered, DivergedIn, TakesTheirsIn, ConflictIn, ChangeIn;
    forall p
      ensures p in changes <==> TakesTheirs(Get(base, p), Get(ours, p), Get(theirs, p))
      ensures p in changes ==> changes[p] == ActionFor(Get(theirs, p))
      ensures p in direct <==> DirectAt(base, ours, theirs, p)
      ensures p in direct ==> direct[p] == DirectConflict(Get(base, p), Get(ours, p), Get(theirs, p))
    {
      DeltasDecide(base, ours, theirs, p);
    }
  }

  // ---------- Agreement ----------

  /** A directory with something in it that both sides removed, in view of at least one of the two deltas:
      the Merkle planner reports a conflict nobody has. */
  ghost predicate BothRemoved(base: Entries, ours: Entries, theirs: Entries, path: Path) {
    && path in base && base[path].kind.Directory? && path !in ours && path !in theirs
    && HasDescendant(base.Keys, path)
    && !(Shadowed(Deltas(base, ours).Keys, path) && Shadowed(Deltas(base, theirs).Keys, path))
  }

  /** A directory one side lost under the other's change, with a changed path in between: the Merkle planner
      misses the conflict, unless the directory's own entry conflicts. */
  ghost predicate Overlooked(base: Entries, loser: Entries, keeper: Entries, path: Path) {
    && LostUnderChange(base, loser, keeper, path)
    && Equivalent(Get(base, path), Get(keeper, path))
    && Shadowed(Deltas(base, keeper).Keys, path)
  }

  ghost predicate Reliable(base: Entries, ours: Entries, theirs: Entries) {
    forall p ::
      !BothRemoved(base, ours, theirs, p) && !Overlooked(base, ours, theirs, p) && !Overlooked(base, theirs, ours, p)
  }

  lemma ChangedKeys(base: Entries, side: Entries, path: Path)
    ensures SubtreeChanged(base, side, path) <==> HasDescendant(Deltas(base, side).Keys, path)
  {
    hide Equivalent, IsDescendant;
    SelfEquivalent(None);
  }

  /** What the second pass sees at a path, in terms of the whole trees. */
  lemma LostInMeans(base: Entries, loser: Entries, keeper: Entries, path: Path)
    ensures LostIn(Deltas(base, loser), Deltas(base, keeper), path) <==>
      && path in base && base[path].kind.Directory? && !IsDirectory(Get(loser, path))
      && (path !in keeper || keeper[path].kind.Directory?)
      && SubtreeChanged(base, keeper, path) && !Shadowed(Deltas(base, keeper).Keys, path)
  {
    DeltasAt(base, loser, path);
    DeltasAt(base, keeper, path);
    NextIsDescendantIff(Deltas(base, keeper).Keys, path);
    ChangedKeys(base, keeper, path);
    hide Deltas, Equivalent, NextIsDescendant, Shadowed, SubtreeChanged, HasDescendant;
    Facts(base, loser, keeper, base, path);
  }

  /** Once a directory is gone, so is everything that was in it. */
  lemma RemovedWithContents(base: Entries, side: Entries, path: Path)
    requires IsTree(side) && path !in side
    ensures SubtreeChanged(base, side, path) <==> HasDescendant(base.Keys, path)
  {
    hide IsDescendant;
    forall p | p in side ensures !IsDescendant(p, path) {
    }
  }

  lemma AgreeAt(base: Entries, ours: Entries, theirs: Entries, path: Path)
    requires IsTree(ours) && IsTree(theirs)
    ensures var oursDelta, theirsDelta := Deltas(base, ours), Deltas(base, theirs);
      (DirectAt(base, ours, theirs, path)
       || (AncestorAt(base, ours, theirs, path) <==>
             LostIn(oursDelta, theirsDelta, path) || LostIn(theirsDelta, oursDelta, path)))
      <==> !BothRemoved(base, ours, theirs, path) && !Overlooked(base, ours, theirs, path)
           && !Overlooked(base, theirs, ours, path)
  {
    hide Deltas, Equivalent, Shadowed, SubtreeChanged, HasDescendant, LostIn, IsTree;
    LostInMeans(base, ours, theirs, path);
    LostInMeans(base, theirs, ours, path);
    if path !in ours {
      RemovedWithContents(base, ours, path);
    }
    if path !in theirs {
      RemovedWithContents(base, theirs, path);
    }
    Facts(base, ours, theirs, base, path);
    AbsentOnBoth(Get(ours, path), Get(theirs, path));
  }

  lemma AbsentOnBoth(a: Option<TreeEntry>, b: Option<TreeEntry>)
    ensures a.None? && b.None? ==> Equivalent(a, b)
  {
  }

  /** The two planners give the same plan exactly when no directory is removed by both sides within sight,
      and none is overlooked. */
  lemma MerkleAgreesIff(base: Entries, ours: Entries, theirs: Entries, plan: MergePlan, merkle: MergePlan)
    requires IsTree(ours) && IsTree(theirs)
    requires IsPlan(base, ours, theirs, plan) && IsMerklePlan(base, ours, theirs, merkle)
    ensures plan == merkle <==> Reliable(base, ours, theirs)
  {
    hide Deltas, DirectAt, AncestorAt, LostIn, BothRemoved, Overlooked, TakesTheirs, Covered, IsTree;
    forall p
      ensures (p in plan.conflicts <==> p in merkle.conflicts) <==>
        !BothRemoved(base, ours, theirs, p) && !Overlooked(base, ours, theirs, p) && !Overlooked(base, theirs, ours, p)
    {
      AgreeAt(base, ours, theirs, p);
    }
    if Reliable(base, ours, theirs) {
      assert plan.conflicts == merkle.conflicts;
      assert plan.changes == merkle.changes;
    }
  }

  lemma AgreesWithFlat(base: Entries, ours: Entries, theirs: Entries, merkle: MergePlan)
    requires IsTree(ours) && IsTree(theirs) && IsMerklePlan(base, ours, theirs, merkle)
    ensures IsPlan(base, ours, theirs, merkle) <==> Reliable(base, ours, theirs)
  {
    hide Deltas, DirectAt, AncestorAt, LostIn, BothRemoved, Overlooked, ChangesAre, IsTree;
    forall p
      ensures (DirectAt(base, ours, theirs, p)
               || (AncestorAt(base, ours, theirs, p) <==>
                     LostIn(Deltas(base, ours), Deltas(base, theirs), p) || LostIn(Deltas(base, theirs), Deltas(base, ours), p)))
              <==> !BothRemoved(base, ours, theirs, p) && !Overlooked(base, ours, theirs, p) && !Overlooked(base, theirs, ours, p)
    {
      AgreeAt(base, ours, theirs, p);
    }
  }

  /** `d` held one file and both sides removed it: the flat planner has nothing to do, the Merkle planner
      reports a conflict at `d`. */
  lemma BothRemovedWitness(dir: TreeEntry, file: TreeEntry)
    requires dir.kind.Directory? && file.kind.File?
    ensures var d: Path := [0x64];
            var base: Entries := map[d := dir, d + [SLASH, 0x78] := file];
            IsTree(base) && BothRemoved(base, map[], map[], d)
  {
    var d: Path := [0x64];
    var x := d + [SLASH, 0x78];
    var base: Entries := map[d := dir, x := file];
    assert IsDescendant(x, d);
    assert !Less(x, d + [SLASH]) by {
      PrefixIsLess(d + [SLASH], [0x78]);
      assert x == d + [SLASH] + [0x78];
      LessTotal(x, d + [SLASH]);
    }
    LessTotal(d, d);
    assert !Shadowed(Deltas(base, map[]).Keys, d);
  }

  /** We removed `d`; they added `d/y` and, beside it, `d-`: the Merkle planner sees only `d-` and would take `d/y`
      into a directory that is gone, whatever tree the directory's entry names. */
  lemma OverlookedEntries(was: TreeEntry, dir: TreeEntry, first: TreeEntry, second: TreeEntry)
    requires was.kind.Directory? && dir == was.(target := dir.target) && first.kind.File? && second.kind.File?
    ensures var d: Path := [0x64];
            var base: Entries := map[d := was];
            var theirs: Entries := map[d := dir, d + [0x2D] := first, d + [SLASH, 0x79] := second];
            IsTree(base) && IsTree(theirs) && Overlooked(base, map[], theirs, d)
  {
    var d: Path := [0x64];
    var beside, below := d + [0x2D], d + [SLASH, 0x79];
    var base: Entries := map[d := was];
    var theirs: Entries := map[d := dir, beside := first, below := second];
    assert IsDescendant(below, d);
    assert beside[1..] == [0x2D] && (d + [SLASH])[1..] == [SLASH];
    assert Less(beside, d + [SLASH]);
    assert Less(d, beside) by {
      PrefixIsLess(d, [0x2D]);
    }
    assert Shadowed(Deltas(base, theirs).Keys, d);
  }

  /** A directory holding a single entry, and one that is empty. */
  function Single(entry: TreeEntry, sub: Dir): Dir {
    Dir([Item(entry, sub)])
  }

  lemma FlatDir(id: Identity, prefix: Path, entry: TreeEntry, sub: Dir)
    requires entry.kind.Directory? && ValidName(entry.name) && entry.target == Some(id(sub)) && WellFormed(id, sub)
    ensures WellFormed(id, Single(entry, sub))
    ensures FlatItem(prefix, Item(entry, sub)) ==
      map[JoinPath(prefix, entry.name) := entry] + Flat(JoinPath(prefix, entry.name), sub)
    ensures Flat(prefix, Single(entry, sub)) == FlatItem(prefix, Item(entry, sub))
  {
    assert FlatTo(prefix, Single(entry, sub), 0) == map[];
  }

  lemma FlatFile(id: Identity, prefix: Path, entry: TreeEntry)
    requires entry.kind.File? && ValidName(entry.name)
    ensures WellFormed(id, EMPTY_DIR) && Flat(prefix, EMPTY_DIR) == map[]
    ensures WellFormed(id, Single(entry, EMPTY_DIR)) && WellFormedItem(id, Item(entry, EMPTY_DIR))
    ensures FlatItem(prefix, Item(entry, EMPTY_DIR)) == map[JoinPath(prefix, entry.name) := entry]
    ensures Flat(prefix, Single(entry, EMPTY_DIR)) == FlatItem(prefix, Item(entry, EMPTY_DIR))
  {
    assert FlatTo(prefix, Single(entry, EMPTY_DIR), 0) == map[];
  }

  lemma FlatTwo(prefix: Path, a: Item, b: Item)
    ensures Flat(prefix, Dir([a, b])) == FlatItem(prefix, a) + FlatItem(prefix, b)
  {
    hide FlatItem;
    assert FlatTo(prefix, Dir([a, b]), 0) == map[];
    assert FlatTo(prefix, Dir([a, b]), 1) == FlatItem(prefix, a);
  }

  lemma EmptyIsTree()
    ensures IsTree(map[])
  {
  }

  lemma PlansDiffer(base: Entries, ours: Entries, theirs: Entries, path: Path, plan: MergePlan, merkle: MergePlan)
    requires IsTree(ours) && IsTree(theirs)
    requires BothRemoved(base, ours, theirs, path) || Overlooked(base, ours, theirs, path)
    requires IsPlan(base, ours, theirs, plan) && IsMerklePlan(base, ours, theirs, merkle)
    ensures plan != merkle
  {
    hide IsPlan, IsMerklePlan, BothRemoved, Overlooked, IsTree;
    MerkleAgreesIff(base, ours, theirs, plan, merkle);
  }

  /** `d` holding the file `x`. */
  lemma HoldingX(id: Identity, dir: TreeEntry, file: TreeEntry)
    requires dir.kind.Directory? && dir.name == [0x64] && dir.target == Some(id(Single(file, EMPTY_DIR)))
    requires file.kind.File? && file.name == [0x78]
    ensures var base := Single(dir, Single(file, EMPTY_DIR));
            var d: Path := [0x64];
            && WellFormed(id, base) && WellFormed(id, EMPTY_DIR)
            && Flat([], base) == map[d := dir, d + [SLASH, 0x78] := file] && Flat([], EMPTY_DIR) == map[]
  {
    var d: Path := [0x64];
    assert JoinPath([], dir.name) == d && JoinPath(d, file.name) == d + [SLASH, 0x78];
    hide Flat, FlatItem, WellFormed, WellFormedItem, JoinPath;
    FlatFile(id, d, file);
    FlatFile(id, [], file);
    FlatDir(id, [], dir, Single(file, EMPTY_DIR));
  }

  /** On these trees, with both sides empty, the planners give different plans. */
  lemma BothRemovedDiffers(id: Identity, dir: TreeEntry, file: TreeEntry, plan: MergePlan, merkle: MergePlan)
    requires dir.kind.Directory? && dir.name == [0x64] && dir.target == Some(id(Single(file, EMPTY_DIR)))
    requires file.kind.File? && file.name == [0x78]
    requires var base, none := Flat([], Single(dir, Single(file, EMPTY_DIR))), Flat([], EMPTY_DIR);
             IsPlan(base, none, none, plan) && IsMerklePlan(base, none, none, merkle)
    ensures WellFormed(id, Single(dir, Single(file, EMPTY_DIR))) && WellFormed(id, EMPTY_DIR)
    ensures plan != merkle
  {
    hide IsPlan, IsMerklePlan, BothRemoved, Overlooked, Flat, IsTree, WellFormed;
    var d: Path := [0x64];
    HoldingX(id, dir, file);
    BothRemovedWitness(dir, file);
    EmptyIsTree();
    PlansDiffer(map[d := dir, d + [SLASH, 0x78] := file], map[], map[], d, plan, merkle);
  }

  /** `d` holding `y`, and beside it `d-`. */
  function TheirTree(dir: TreeEntry, beside: TreeEntry, below: TreeEntry): Dir {
    Dir([Item(dir, Single(below, EMPTY_DIR)), Item(beside, EMPTY_DIR)])
  }

  lemma HoldingY(id: Identity, emptied: TreeEntry, dir: TreeEntry, beside: TreeEntry, below: TreeEntry)
    requires emptied.kind.Directory? && emptied.name == [0x64] && emptied.target == Some(id(EMPTY_DIR))
    requires dir == emptied.(target := Some(id(Single(below, EMPTY_DIR))))
    requires beside.kind.File? && beside.name == [0x64, 0x2D] && below.kind.File? && below.name == [0x79]
    ensures var d: Path := [0x64];
            && WellFormed(id, Single(emptied, EMPTY_DIR)) && WellFormed(id, EMPTY_DIR) && Flat([], EMPTY_DIR) == map[]
            && Flat([], Single(emptied, EMPTY_DIR)) == map[d := emptied]
            && Flat([], TheirTree(dir, beside, below)) == map[d := dir, d + [0x2D] := beside, d + [SLASH, 0x79] := below]
  {
    var d: Path := [0x64];
    assert JoinPath([], dir.name) == d && JoinPath(d, below.name) == d + [SLASH, 0x79];
    assert JoinPath([], beside.name) == d + [0x2D];
    hide Flat, FlatItem, WellFormed, WellFormedItem, JoinPath;
    FlatFile(id, d, below);
    FlatFile(id, [], beside);
    FlatDir(id, [], dir, Single(below, EMPTY_DIR));
    FlatDir(id, [], emptied, EMPTY_DIR);
    FlatTwo([], Item(dir, Single(below, EMPTY_DIR)), Item(beside, EMPTY_DIR));
  }

  lemma TheirTreeIsWellFormed(id: Identity, dir: TreeEntry, beside: TreeEntry, below: TreeEntry)
    requires dir.kind.Directory? && dir.name == [0x64] && dir.target == Some(id(Single(below, EMPTY_DIR)))
    requires beside.kind.File? && beside.name == [0x64, 0x2D] && below.kind.File? && below.name == [0x79]
    ensures WellFormed(id, TheirTree(dir, beside, below))
  {
    FlatFile(id, [], below);
    assert dir.name + [0x2D] == beside.name;
    PrefixIsLess(dir.name, [0x2D]);
    hide Single;
  }

  /** On these trees, with our side empty, the planners give different plans. */
  lemma OverlookedDiffers(id: Identity, emptied: TreeEntry, dir: TreeEntry, beside: TreeEntry, below: TreeEntry,
                          plan: MergePlan, merkle: MergePlan)
    requires emptied.kind.Directory? && emptied.name == [0x64] && emptied.target == Some(id(EMPTY_DIR))
    requires dir == emptied.(target := Some(id(Single(below, EMPTY_DIR))))
    requires beside.kind.File? && beside.name == [0x64, 0x2D] && below.kind.File? && below.name == [0x79]
    requires var base, none := Flat([], Single(emptied, EMPTY_DIR)), Flat([], EMPTY_DIR);
             var theirs := Flat([], TheirTree(dir, beside, below));
             IsPlan(base, none, theirs, plan) && IsMerklePlan(base, none, theirs, merkle)
    ensures WellFormed(id, Single(emptied, EMPTY_DIR)) && WellFormed(id, EMPTY_DIR)
    ensures WellFormed(id, TheirTree(dir, beside, below))
    ensures plan != merkle
  {
    hide IsPlan, IsMerklePlan, BothRemoved, Overlooked, Flat, IsTree, WellFormed, TheirTree;
    var d: Path := [0x64];
    HoldingY(id, emptied, dir, beside, below);
    TheirTreeIsWellFormed(id, dir, beside, below);
    OverlookedEntries(emptied, dir, beside, below);
    EmptyIsTree();
    PlansDiffer(map[d := emptied], map[], map[d := dir, d + [0x2D] := beside, d + [SLASH, 0x79] := below], d, plan,
                merkle);
  }

  // ---------- Flattened trees are trees ----------

  lemma FlatIsTree(id: Identity, d: Dir)
    requires WellFormed(id, d)
    ensures IsTree(Flat([], d))
  {
    forall p, q | p in Flat([], d) && IsDescendant(p, q) ensures q in Flat([], d) && Flat([], d)[q].kind.Directory? {
      ParentInFlat(id, [], d, |d.items|, p, q);
    }
  }

  lemma {:induction false} ParentInFlat(id: Identity, prefix: Path, d: Dir, n: nat, p: Path, q: Path)
    requires n <= |d.items| && WellFormed(id, d)
    requires p in FlatTo(prefix, d, n) && IsDescendant(p, q) && (prefix == [] || IsDescendant(q, prefix))
    ensures q in FlatTo(prefix, d, n) && FlatTo(prefix, d, n)[q].kind.Directory?
    decreases d, n
  {
    var item := d.items[n - 1];
    NamesDiffer(id, d, n - 1);
    FrontApart(id, prefix, d, n - 1, item);
    if p in FlatItem(prefix, item) {
      ParentInItem(id, prefix, item, p, q);
    } else {
      ParentInFlat(id, prefix, d, n - 1, p, q);
    }
  }

  lemma {:induction false} ParentInItem(id: Identity, prefix: Path, item: Item, p: Path, q: Path)
    requires WellFormedItem(id, item)
    requires p in FlatItem(prefix, item) && IsDescendant(p, q) && (prefix == [] || IsDescendant(q, prefix))
    ensures q in FlatItem(prefix, item) && FlatItem(prefix, item)[q].kind.Directory?
    decreases item, 0
  {
    var path := JoinPath(prefix, item.entry.name);
    ItemKeys(id, prefix, item, p);
    BelowApart(id, prefix, item);
    SlashlessName(prefix, item.entry.name, p, q);
    if q != path {
      ParentInFlat(id, path, item.sub, |item.sub.items|, p, q);
    }
  }

  /** An ancestor that lies below the prefix is the entry itself or below it. */
  lemma SlashlessName(prefix: Path, name: seq<byte>, p: Path, q: Path)
    requires ValidName(name) && Under(p, JoinPath(prefix, name)) && IsDescendant(p, q)
    requires prefix == [] || IsDescendant(q, prefix)
    ensures Under(q, JoinPath(prefix, name)) && p != JoinPath(prefix, name)
  {
    var path := JoinPath(prefix, name);
    var start := if prefix == [] then 0 else |prefix| + 1;
    NameAt(prefix, name, p);
    assert forall k | start <= k < start + |name| :: p[k] == name[k - start];
    assert |q| >= |path|;
    assert p[..|path|] == path && p[..|q|] == q;
    assert q[..|path|] == path;
    assert |q| > |path| ==> q[|path|] == p[|path|];
  }
}
