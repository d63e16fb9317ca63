/** Three-way planning over flattened trees (merge.rs). */
module Merge {
  import opened Bytes
  import opened Model
  import opened Paths

  type Entries = map<Path, TreeEntry>

  datatype Action = Set(entry: TreeEntry) | Remove

  datatype ConflictKind = ModifyModify | DeleteModify | Type | Ancestor

  /** The planner's two lists are sorted by path and hold a path at most once. */
  datatype MergePlan = MergePlan(changes: map<Path, Action>, conflicts: map<Path, ConflictKind>)

  function Get(entries: Entries, path: Path): Option<TreeEntry> {
    if path in entries then Some(entries[path]) else None
  }

  predicate IsDirectory(entry: Option<TreeEntry>) {
    entry.Some? && entry.value.kind.Directory?
  }

  /** Equal but for time stamps and, for two directories, their Merkle identities. */
  predicate Equivalent(left: Option<TreeEntry>, right: Option<TreeEntry>) {
    match (left, right)
    case (None, None) => true
    case (Some(l), Some(r)) =>
      var a, b := l.(mtimeSecs := 0, mtimeNanos := 0), r.(mtimeSecs := 0, mtimeNanos := 0);
      if a.kind.Directory? && b.kind.Directory? then a.(target := None) == b.(target := None) else a == b
    case _ => false
  }

  /** Field by field: the same entry but for time stamps and, for two directories, their Merkle identities. */
  predicate SameContent(l: TreeEntry, r: TreeEntry) {
    && l.name == r.name && l.kind == r.kind && l.mode == r.mode && l.size == r.size && l.linkTarget == r.linkTarget
    && l.xattrs == r.xattrs && l.class_ == r.class_ && (l.kind.Directory? || l.target == r.target)
  }

  predicate SameAt(a: Option<TreeEntry>, b: Option<TreeEntry>) {
    (a.None? && b.None?) || (a.Some? && b.Some? && SameContent(a.value, b.value))
  }

  /** `r` is `l` restamped, with another Merkle identity if there is one. */
  ghost predicate Restamped(l: TreeEntry, r: TreeEntry, secs: int, nanos: nat, target: Option<Digest>) {
    r == l.(mtimeSecs := secs, mtimeNanos := nanos, target := target)
  }

  /** What equivalence tells apart: everything except time stamps, and except the Merkle identities of two directories. */
  lemma EquivalentMeans(l: TreeEntry, r: TreeEntry)
    ensures !(l.kind.Directory? && r.kind.Directory?) ==>
              (Equivalent(Some(l), Some(r)) <==> exists secs, nanos :: Restamped(l, r, secs, nanos, l.target))
    ensures l.kind.Directory? && r.kind.Directory? ==>
              (Equivalent(Some(l), Some(r)) <==> exists secs, nanos, target :: Restamped(l, r, secs, nanos, target))
    ensures Equivalent(None, None) && !Equivalent(Some(l), None) && !Equivalent(None, Some(r))
  {
    if Equivalent(Some(l), Some(r)) {
      assert Restamped(l, r, r.mtimeSecs, r.mtimeNanos, if l.kind.Directory? then r.target else l.target);
    }
  }

  lemma EquivalentIsSame(a: Option<TreeEntry>, b: Option<TreeEntry>)
    ensures Equivalent(a, b) <==> SameAt(a, b)
  {
    if a.Some? && b.Some? && SameAt(a, b) {
      var l, r := a.value, b.value;
      assert r == l.(mtimeSecs := r.mtimeSecs, mtimeNanos := r.mtimeNanos, target := r.target);
    }
  }

  function DirectConflict(base: Option<TreeEntry>, ours: Option<TreeEntry>, theirs: Option<TreeEntry>): ConflictKind {
    if ours.None? || theirs.None? then DeleteModify
    else if ours.value.kind != theirs.value.kind || (base.Some? && base.value.kind != ours.value.kind) then Type
    else ModifyModify
  }

  predicate TakesTheirs(base: Option<TreeEntry>, ours: Option<TreeEntry>, theirs: Option<TreeEntry>) {
    !Equivalent(ours, theirs) && Equivalent(base, ours)
  }

  predicate Diverged(base: Option<TreeEntry>, ours: Option<TreeEntry>, theirs: Option<TreeEntry>) {
    !Equivalent(ours, theirs) && !Equivalent(base, ours) && !Equivalent(base, theirs)
  }

  predicate SubtreeChanged(base: Entries, side: Entries, directory: Path) {
    || (exists p | p in base :: IsDescendant(p, directory) && !Equivalent(Some(base[p]), Get(side, p)))
    || (exists p | p in side :: IsDescendant(p, directory) && !Equivalent(Get(base, p), Some(side[p])))
  }

  /** One side keeps the directory and changes something in it; the other no longer has the directory. */
  predicate LostUnderChange(base: Entries, loser: Entries, keeper: Entries, directory: Path) {
    && directory in base && base[directory].kind.Directory?
    && !IsDirectory(Get(loser, directory)) && IsDirectory(Get(keeper, directory))
    && SubtreeChanged(base, keeper, directory)
  }

  predicate DirectAt(base: Entries, ours: Entries, theirs: Entries, path: Path) {
    Diverged(Get(base, path), Get(ours, path), Get(theirs, path))
  }

  predicate AncestorAt(base: Entries, ours: Entries, theirs: Entries, path: Path) {
    LostUnderChange(base, ours, theirs, path) || LostUnderChange(base, theirs, ours, path)
  }

  predicate Covered(conflicts: map<Path, ConflictKind>, path: Path) {
    exists c | c in conflicts :: path == c || IsDescendant(path, c)
  }

  /** A path is in conflict when both sides changed it differently, or when it is a directory that one side
      changed inside and the other removed. */
  ghost predicate ConflictsAre(base: Entries, ours: Entries, theirs: Entries, conflicts: map<Path, ConflictKind>) {
    forall p ::
      && (p in conflicts <==> DirectAt(base, ours, theirs, p) || AncestorAt(base, ours, theirs, p))
      && (p in conflicts ==>
            conflicts[p] ==
            (if DirectAt(base, ours, theirs, p) then DirectConflict(Get(base, p), Get(ours, p), Get(theirs, p))
             else Ancestor))
  }

  function ActionFor(entry: Option<TreeEntry>): Action {
    if entry.Some? then Set(entry.value) else Remove
  }

  /** Everything only they changed is taken, except at and below conflicts. */
  ghost predicate ChangesAre(base: Entries, ours: Entries, theirs: Entries, plan: MergePlan) {
    forall p ::
      && (p in plan.changes <==>
            TakesTheirs(Get(base, p), Get(ours, p), Get(theirs, p)) && !Covered(plan.conflicts, p))
      && (p in plan.changes ==> plan.changes[p] == ActionFor(Get(theirs, p)))
  }

  ghost predicate IsPlan(base: Entries, ours: Entries, theirs: Entries, plan: MergePlan) {
    ConflictsAre(base, ours, theirs, plan.conflicts) && ChangesAre(base, ours, theirs, plan)
  }

  lemma PlanIsUnique(base: Entries, ours: Entries, theirs: Entries, a: MergePlan, b: MergePlan)
    requires IsPlan(base, ours, theirs, a) && IsPlan(base, ours, theirs, b)
    ensures a == b
  {
    hide DirectAt, AncestorAt, TakesTheirs, Covered;
    assert a.conflicts == b.conflicts;
    assert a.changes == b.changes;
  }

  // ---------- The planner ----------

  method DirectPass(base: Entries, ours: Entries, theirs: Entries)
    returns (changes: map<Path, Action>, conflicts: map<Path, ConflictKind>)
    ensures forall p ::
      && (p in changes <==> TakesTheirs(Get(base, p), Get(ours, p), Get(theirs, p)))
      && (p in changes ==> changes[p] == ActionFor(Get(theirs, p)))
      && (p in conflicts <==> DirectAt(base, ours, theirs, p))
      && (p in conflicts ==> conflicts[p] == DirectConflict(Get(base, p), Get(ours, p), Get(theirs, p)))
  {
    var paths := base.Keys + ours.Keys + theirs.Keys;
    ghost var all := paths;
    changes, conflicts := map[], map[];
    while paths != {}
      invariant paths <= all
      invariant forall p ::
        && (p in changes <==> p in all - paths && TakesTheirs(Get(base, p), Get(ours, p), Get(theirs, p)))
        && (p in changes ==> changes[p] == ActionFor(Get(theirs, p)))
        && (p in conflicts <==> p in all - paths && DirectAt(base, ours, theirs, p))
        && (p in conflicts ==> conflicts[p] == DirectConflict(Get(base, p), Get(ours, p), Get(theirs, p)))
      decreases paths
    {
      var path :| path in paths;
      paths := paths - {path};
      var baseEntry, oursEntry, theirsEntry := Get(base, path), Get(ours, path), Get(theirs, path);
      if Equivalent(oursEntry, theirsEntry) {
      } else if Equivalent(baseEntry, oursEntry) {
        changes := changes[path := if theirsEntry.Some? then Set(theirsEntry.value) else Remove];
      } else if Equivalent(baseEntry, theirsEntry) {
      } else {
        conflicts := conflicts[path := DirectConflict(baseEntry, oursEntry, theirsEntry)];
      }
    }
  }

  method AncestorPass(base: Entries, ours: Entries, theirs: Entries) returns (ancestors: set<Path>)
    ensures forall p :: p in ancestors <==> AncestorAt(base, ours, theirs, p)
  {
    ancestors := {};
    var rest := base.Keys;
    while rest != {}
      invariant rest <= base.Keys
      invariant forall p :: p in ancestors <==> p in base.Keys - rest && AncestorAt(base, ours, theirs, p)
      decreases rest
    {
      var path :| path in rest;
      rest := rest - {path};
      if base[path].kind.Directory? {
        var oursIsDirectory, theirsIsDirectory := IsDirectory(Get(ours, path)), IsDirectory(Get(theirs, path));
        if !oursIsDirectory && theirsIsDirectory && SubtreeChanged(base, theirs, path)
           && !Equivalent(Get(ours, path), Get(theirs, path))
        {
          ancestors := ancestors + {path};
        }
        if !theirsIsDirectory && oursIsDirectory && SubtreeChanged(base, ours, path)
           && !Equivalent(Get(ours, path), Get(theirs, path))
        {
          ancestors := ancestors + {path};
        }
      }
    }
  }

  /** Adds an ancestor conflict wherever no other conflict is known. */
  method AddAncestors(conflicts: map<Path, ConflictKind>, ancestors: set<Path>)
    returns (all: map<Path, ConflictKind>)
    ensures forall p :: p in all <==> p in conflicts || p in ancestors
    ensures forall p | p in all :: all[p] == if p in conflicts then conflicts[p] else Ancestor
  {
    all := conflicts;
    var rest := ancestors;
    while rest != {}
      invariant rest <= ancestors
      invariant forall p :: p in all <==> p in conflicts || p in ancestors - rest
      invariant forall p | p in all :: all[p] == if p in conflicts then conflicts[p] else Ancestor
      decreases rest
    {
      var path :| path in rest;
      rest := rest - {path};
      if path !in all {
        all := all[path := Ancestor];
      }
    }
  }

  method Plan(base: Entries, ours: Entries, theirs: Entries) returns (plan: MergePlan)
    ensures IsPlan(base, ours, theirs, plan)
  {
    hide DirectAt, AncestorAt, TakesTheirs, Covered, Get;
    var changes, direct := DirectPass(base, ours, theirs);
    var ancestors := AncestorPass(base, ours, theirs);
    var conflicts := AddAncestors(direct, ancestors);
    changes := map p | p in changes && !Covered(conflicts, p) :: changes[p];
    plan := MergePlan(changes, conflicts);
  }

  // ---------- What a plan is good for ----------

  /** Our tree with the planned changes made. */
  function Merged(ours: Entries, changes: map<Path, Action>): Entries {
    map p | p in ours.Keys + changes.Keys && (p in changes ==> changes[p].Set?) ::
      if p in changes then changes[p].entry else ours[p]
  }

  /** Every ancestor of a path is there and is a directory. */
  ghost predicate IsTree(entries: Entries) {
    forall p, q :: p in entries && IsDescendant(p, q) ==> q in entries && entries[q].kind.Directory?
  }

  lemma EquivalenceRelation(a: Option<TreeEntry>, b: Option<TreeEntry>, c: Option<TreeEntry>)
    ensures Equivalent(a, a)
    ensures Equivalent(a, b) <==> Equivalent(b, a)
    ensures Equivalent(a, b) && Equivalent(b, c) ==> Equivalent(a, c)
    ensures Equivalent(a, b) ==> (a.Some? <==> b.Some?) && (IsDirectory(a) <==> IsDirectory(b))
  {
  }

  /** What each path of the merge is equivalent to. */
  lemma MergedFollows(base: Entries, ours: Entries, theirs: Entries, plan: MergePlan, path: Path)
    requires IsPlan(base, ours, theirs, plan)
    ensures var merged := Get(Merged(ours, plan.changes), path);
            if Covered(plan.conflicts, path) then merged == Get(ours, path)
            else
              && (Equivalent(Get(base, path), Get(ours, path)) ==> Equivalent(merged, Get(theirs, path)))
              && (Equivalent(Get(base, path), Get(theirs, path)) && !Equivalent(Get(base, path), Get(ours, path)) ==>
                    merged == Get(ours, path))
              && (Equivalent(Get(ours, path), Get(theirs, path)) ==> merged == Get(ours, path))
              && (Equivalent(Get(base, path), Get(ours, path)) || Equivalent(Get(base, path), Get(theirs, path))
                  || Equivalent(Get(ours, path), Get(theirs, path)))
  {
    hide Equivalent, AncestorAt, IsDescendant;
    EquivalenceRelation(Get(ours, path), Get(base, path), Get(theirs, path));
    if DirectAt(base, ours, theirs, path) {
      assert path in plan.conflicts;
    }
    SelfEquivalent(Get(theirs, path));
  }

  lemma SelfEquivalent(a: Option<TreeEntry>)
    ensures Equivalent(a, a)
  {
  }

  /** At or below a conflict. */
  predicate InConflict(plan: MergePlan, path: Path) {
    exists c | c in plan.conflicts :: path == c || c + [SLASH] <= path
  }

  lemma CoveredMeans(plan: MergePlan, path: Path)
    ensures Covered(plan.conflicts, path) <==> InConflict(plan, path)
  {
    hide IsDescendant;
    forall c | c in plan.conflicts
      ensures IsDescendant(path, c) <==> c + [SLASH] <= path
    {
      DescendantStarts(path, c);
    }
  }

  /**
    * Outside conflicts each path follows the side that changed it, with every field but time stamps and the identity of
    * a directory, and some side did not change it differently; at and below conflicts it stays ours.
    */
  lemma MergedEntry(base: Entries, ours: Entries, theirs: Entries, plan: MergePlan, path: Path)
    requires IsPlan(base, ours, theirs, plan)
    ensures var merged := Get(Merged(ours, plan.changes), path);
            var b, o, t := Get(base, path), Get(ours, path), Get(theirs, path);
            if InConflict(plan, path) then merged == o
            else
              && (SameAt(b, o) ==> SameAt(merged, t))
              && (SameAt(b, o) && !SameAt(o, t) ==> merged == t)
              && (SameAt(b, t) && !SameAt(b, o) ==> merged == o)
              && (SameAt(o, t) ==> merged == o)
              && (SameAt(b, o) || SameAt(b, t) || SameAt(o, t))
  {
    hide IsPlan, Equivalent, SameAt, Merged, Covered, InConflict;
    CoveredMeans(plan, path);
    MergedFollows(base, ours, theirs, plan, path);
    var merged := Get(Merged(ours, plan.changes), path);
    var b, o, t := Get(base, path), Get(ours, path), Get(theirs, path);
    EquivalentIsSame(b, o);
    EquivalentIsSame(b, t);
    EquivalentIsSame(o, t);
    EquivalentIsSame(merged, t);
    if !Covered(plan.conflicts, path) && SameAt(b, o) && !SameAt(o, t) {
      TakenIsTheirs(base, ours, theirs, plan, path);
    }
  }

  lemma TakenIsTheirs(base: Entries, ours: Entries, theirs: Entries, plan: MergePlan, path: Path)
    requires IsPlan(base, ours, theirs, plan) && !Covered(plan.conflicts, path)
    requires Equivalent(Get(base, path), Get(ours, path)) && !Equivalent(Get(ours, path), Get(theirs, path))
    ensures Get(Merged(ours, plan.changes), path) == Get(theirs, path)
  {
    hide Equivalent, Covered, AncestorAt;
  }

  // ---------- What is reported ----------

  /** A side differs from the base somewhere below the directory. */
  ghost predicate DiffersBelow(base: Entries, side: Entries, directory: Path) {
    exists p :: directory + [SLASH] <= p && !SameAt(Get(base, p), Get(side, p))
  }

  lemma SubtreeChangedMeans(base: Entries, side: Entries, directory: Path)
    ensures SubtreeChanged(base, side, directory) <==> DiffersBelow(base, side, directory)
  {
    hide IsDescendant, Equivalent, SameAt;
    forall p
      ensures IsDescendant(p, directory) <==> directory + [SLASH] <= p
      ensures Equivalent(Get(base, p), Get(side, p)) <==> SameAt(Get(base, p), Get(side, p))
    {
      DescendantStarts(p, directory);
      EquivalentIsSame(Get(base, p), Get(side, p));
    }
    EquivalentIsSame(None, None);
    if DiffersBelow(base, side, directory) {
      var p :| directory + [SLASH] <= p && !SameAt(Get(base, p), Get(side, p));
      NothingIsSame();
      assert p in base || p in side;
    }
  }

  lemma NothingIsSame()
    ensures SameAt(None, None)
  {
  }

  /** The directory is gone or replaced on one side, and the other changed something in it. */
  ghost predicate LostDirectory(base: Entries, loser: Entries, keeper: Entries, directory: Path) {
    && IsDirectory(Get(base, directory)) && !IsDirectory(Get(loser, directory)) && IsDirectory(Get(keeper, directory))
    && DiffersBelow(base, keeper, directory)
  }

  /**
    * When each kind of conflict is reported, by what the three trees hold. Three entries no two of which are the same
    * conflict: as a deletion if a side has none, as a type conflict if the kinds of the sides differ or the base had
    * another, and as a modification otherwise. A directory that one side lost and the other changed inside is reported
    * where there is no such conflict.
    */
  lemma ReportedAs(base: Entries, ours: Entries, theirs: Entries, plan: MergePlan, path: Path)
    requires IsPlan(base, ours, theirs, plan)
    ensures var b, o, t := Get(base, path), Get(ours, path), Get(theirs, path);
            var apart := !SameAt(o, t) && !SameAt(b, o) && !SameAt(b, t);
            var lost := LostDirectory(base, ours, theirs, path) || LostDirectory(base, theirs, ours, path);
            && (path in plan.conflicts <==> apart || lost)
            && (path in plan.conflicts ==>
                  match plan.conflicts[path]
                  case DeleteModify => apart && (o.None? || t.None?)
                  case Type => apart && o.Some? && t.Some?
                               && (o.value.kind != t.value.kind || (b.Some? && b.value.kind != o.value.kind))
                  case ModifyModify => apart && o.Some? && t.Some? && o.value.kind == t.value.kind
                                       && (b.Some? ==> b.value.kind == o.value.kind)
                  case Ancestor => !apart)
  {
    hide Equivalent, SameAt, SubtreeChanged, DiffersBelow;
    var b, o, t := Get(base, path), Get(ours, path), Get(theirs, path);
    EquivalentIsSame(b, o);
    EquivalentIsSame(b, t);
    EquivalentIsSame(o, t);
    SubtreeChangedMeans(base, ours, path);
    SubtreeChangedMeans(base, theirs, path);
  }

  /** Nothing changed below a directory: every descendant is as in the base. */
  lemma UnchangedBelow(base: Entries, side: Entries, directory: Path, path: Path)
    requires !SubtreeChanged(base, side, directory) && IsDescendant(path, directory)
    ensures Equivalent(Get(base, path), Get(side, path))
  {
  }

  /** A merge without conflicts gives a tree: no path loses a directory above it. */
  lemma MergeIsTree(base: Entries, ours: Entries, theirs: Entries, plan: MergePlan)
    requires IsTree(ours) && IsTree(theirs)
    requires IsPlan(base, ours, theirs, plan) && plan.conflicts == map[]
    ensures IsTree(Merged(ours, plan.changes))
  {
    hide Equivalent;
    var merged := Merged(ours, plan.changes);
    forall p, q | p in merged && IsDescendant(p, q) ensures q in merged && merged[q].kind.Directory? {
      ParentStays(base, ours, theirs, plan, p, q);
    }
  }

  lemma ParentStays(base: Entries, ours: Entries, theirs: Entries, plan: MergePlan, p: Path, q: Path)
    requires IsTree(ours) && IsTree(theirs)
    requires IsPlan(base, ours, theirs, plan) && plan.conflicts == map[]
    requires p in Merged(ours, plan.changes) && IsDescendant(p, q)
    ensures IsDirectory(Get(Merged(ours, plan.changes), q))
  {
    hide Equivalent, IsDescendant, SubtreeChanged, Merged, IsPlan;
    var merged := Merged(ours, plan.changes);
    MergedFollows(base, ours, theirs, plan, p);
    MergedFollows(base, ours, theirs, plan, q);
    NoConflict(base, ours, theirs, plan, q);
    Facts(base, ours, theirs, merged, p);
    Facts(base, ours, theirs, merged, q);
    if !SubtreeChanged(base, ours, q) {
      UnchangedBelow(base, ours, q, p);
    }
    if !SubtreeChanged(base, theirs, q) {
      UnchangedBelow(base, theirs, q, p);
    }
  }

  lemma NoConflict(base: Entries, ours: Entries, theirs: Entries, plan: MergePlan, path: Path)
    requires IsPlan(base, ours, theirs, plan) && plan.conflicts == map[]
    ensures !Covered(plan.conflicts, path)
    ensures !DirectAt(base, ours, theirs, path) && !AncestorAt(base, ours, theirs, path)
  {
    hide DirectAt, AncestorAt;
  }

  /** Equivalence facts about the four entries at one path. */
  lemma Facts(base: Entries, ours: Entries, theirs: Entries, merged: Entries, path: Path)
    ensures var b, o, t, m := Get(base, path), Get(ours, path), Get(theirs, path), Get(merged, path);
            && (forall x, y | x in [b, o, t, m] && y in [b, o, t, m] ::
                  Equivalent(x, y) ==> Equivalent(y, x) && (x.Some? <==> y.Some?) && (IsDirectory(x) <==> IsDirectory(y)))
            && (forall x, y, z | x in [b, o, t, m] && y in [b, o, t, m] && z in [b, o, t, m] ::
                  Equivalent(x, y) && Equivalent(y, z) ==> Equivalent(x, z))
  {
  }

  /** Swapping the sides finds the same conflicts and, outside them, the same tree up to equivalence. */
  lemma MergeIsSymmetric(base: Entries, ours: Entries, theirs: Entries, plan: MergePlan, mirror: MergePlan)
    requires IsPlan(base, ours, theirs, plan) && IsPlan(base, theirs, ours, mirror)
    ensures plan.conflicts == mirror.conflicts
    ensures forall p | !Covered(plan.conflicts, p) ::
              Equivalent(Get(Merged(ours, plan.changes), p), Get(Merged(theirs, mirror.changes), p))
  {
    ConflictsMirror(base, ours, theirs, plan, mirror);
    hide Equivalent, Covered, IsPlan, Merged;
    forall p | !Covered(plan.conflicts, p)
      ensures Equivalent(Get(Merged(ours, plan.changes), p), Get(Merged(theirs, mirror.changes), p))
    {
      MergedFollows(base, ours, theirs, plan, p);
      MergedFollows(base, theirs, ours, mirror, p);
      Facts(base, ours, theirs, Merged(ours, plan.changes), p);
      Facts(base, ours, theirs, Merged(theirs, mirror.changes), p);
    }
  }

  lemma ConflictsMirror(base: Entries, ours: Entries, theirs: Entries, plan: MergePlan, mirror: MergePlan)
    requires IsPlan(base, ours, theirs, plan) && IsPlan(base, theirs, ours, mirror)
    ensures plan.conflicts == mirror.conflicts
  {
    hide LostUnderChange, Covered, Equivalent;
    forall p
      ensures p in plan.conflicts <==> p in mirror.conflicts
      ensures p in plan.conflicts ==> plan.conflicts[p] == mirror.conflicts[p]
    {
      EquivalenceRelation(Get(ours, p), Get(theirs, p), Get(base, p));
    }
  }

  /** Planning again with the result in our place has nothing left to do. */
  lemma MergeSettles(base: Entries, ours: Entries, theirs: Entries, plan: MergePlan)
    requires IsPlan(base, ours, theirs, plan) && plan.conflicts == map[]
    ensures IsPlan(base, Merged(ours, plan.changes), theirs, MergePlan(map[], map[]))
  {
    hide Equivalent, IsDescendant, SubtreeChanged, Merged, IsPlan;
    var merged := Merged(ours, plan.changes);
    forall p
      ensures !DirectAt(base, merged, theirs, p) && !AncestorAt(base, merged, theirs, p)
      ensures !TakesTheirs(Get(base, p), Get(merged, p), Get(theirs, p))
    {
      MergedFollows(base, ours, theirs, plan, p);
      NoConflict(base, ours, theirs, plan, p);
      Facts(base, ours, theirs, merged, p);
    }
    NothingToDo(base, merged, theirs);
  }

  lemma NothingToDo(base: Entries, ours: Entries, theirs: Entries)
    requires forall p :: !DirectAt(base, ours, theirs, p) && !AncestorAt(base, ours, theirs, p)
    requires forall p :: !TakesTheirs(Get(base, p), Get(ours, p), Get(theirs, p))
    ensures IsPlan(base, ours, theirs, MergePlan(map[], map[]))
  {
    hide DirectAt, AncestorAt, TakesTheirs;
  }
}
