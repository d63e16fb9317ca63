/** The catalog's retained file rows (catalog.rs): a memory copy of whole workspaces beside the table, kept
    coherent across batches, rollbacks and the commits of other connections. */
module FileCache {
  import opened Bytes

  type Workspace = string

  type Path = seq<byte>

  /** What is remembered of one file between captures; only its identity as a value matters here. */
  type FileRow = seq<byte>

  type Rows = map<Path, FileRow>

  type Table = map<Workspace, Rows>

  function RowsOf(table: Table, workspace: Workspace): Rows {
    if workspace in table then table[workspace] else map[]
  }

  function RowAt(table: Table, workspace: Workspace, path: Path): Option<FileRow> {
    if path in RowsOf(table, workspace) then Some(RowsOf(table, workspace)[path]) else None
  }

  /** `INSERT ... ON CONFLICT DO UPDATE` of one row. */
  function Upsert(table: Table, workspace: Workspace, path: Path, row: FileRow): Table {
    table[workspace := RowsOf(table, workspace)[path := row]]
  }

  /** The tables say the same, whether or not a workspace without rows is mentioned. */
  predicate SameRows(a: Table, b: Table) {
    forall w | w in a.Keys + b.Keys :: RowsOf(a, w) == RowsOf(b, w)
  }

  /** After the upsert a lookup of the row returns it, and every other lookup what it did before. */
  lemma UpsertedRow(table: Table, workspace: Workspace, path: Path, row: FileRow, w: Workspace, p: Path)
    ensures RowAt(Upsert(table, workspace, path, row), w, p) ==
              if w == workspace && p == path then Some(row) else RowAt(table, w, p)
  {
  }

  datatype Transaction =
    | Autocommit
    | Snapshot(seen: Table, seenAt: nat)
    | Batch(work: Table, depth: nat)

  /** Every workspace held in memory is held completely and as the table has it. */
  ghost predicate Copies(files: map<Workspace, Rows>, table: Table) {
    forall w | w in files :: files[w] == RowsOf(table, w)
  }

  class Catalog {
    var table: Table          // what is committed
    var commits: nat          // commits by other connections: what data_version counts
    var tx: Transaction
    var retain: bool
    var files: map<Workspace, Rows>
    var dataVersion: nat

    constructor (initial: Table, version: nat)
      ensures Valid() && View() == initial && tx == Autocommit && files == map[]
    {
      table, commits, tx, retain, files, dataVersion := initial, version, Autocommit, false, map[], 0;
    }

    /** The rows this connection reads. */
    ghost function View(): Table
      reads this
    {
      match tx case Autocommit => table case Snapshot(seen, _) => seen case Batch(work, _) => work
    }

    ghost predicate Valid()
      reads this
    {
      && (!retain ==> files == map[]) && dataVersion <= commits
      && match tx
         case Autocommit => dataVersion == commits ==> Copies(files, table)
         case Batch(work, depth) => (retain ==> dataVersion == commits && Copies(files, work)) && 0 < depth
         case Snapshot(seen, seenAt) =>
           && dataVersion <= seenAt <= commits
           && (seenAt == commits ==> seen == table)
           && (dataVersion == seenAt ==> Copies(files, seen))
    }

    method RetainFileCache()
      requires Valid() && tx == Autocommit
      modifies this`retain
      ensures Valid() && retain
    {
      retain := true;
    }

    /** Drops everything held in memory when another connection has committed. */
    method RefreshFileCache()
      requires !retain ==> files == map[]
      modifies this`files, this`dataVersion
      ensures files == if retain && old(dataVersion) != commits then map[] else old(files)
      ensures dataVersion == if retain then commits else old(dataVersion)
    {
      if retain {
        var version := commits;
        if dataVersion != version {
          files := map[];
        }
        dataVersion := version;
      }
    }

    /** What a lookup answers: the row of the view, except that a read snapshot does not refresh what memory holds. */
    ghost function Answer(workspace: Workspace, path: Path): Option<FileRow>
      reads this
    {
      if tx.Snapshot? && workspace in files then RowAt(files, workspace, path) else RowAt(View(), workspace, path)
    }

    /** Looks a row up, loading the whole workspace the first time. */
    method CachedFile(workspace: Workspace, path: Path) returns (row: Option<FileRow>)
      requires Valid()
      modifies this`files, this`dataVersion
      ensures Valid() && View() == old(View())
      ensures row == old(Answer(workspace, path))
      ensures retain ==> workspace in files && RowAt(files, workspace, path) == row
    {
      if !retain {
        return RowAt(Read(), workspace, path);
      }
      if tx == Autocommit {
        RefreshFileCache();
      }
      if workspace !in files {
        files := files[workspace := RowsOf(Read(), workspace)];
      }
      row := if path in files[workspace] then Some(files[workspace][path]) else None;
    }

    function Read(): (view: Table)
      reads this
      ensures view == View()
    {
      match tx case Autocommit => table case Snapshot(seen, _) => seen case Batch(work, _) => work
    }

    /** Leaves the table with exactly this row, also when it skips a write that would change nothing. */
    method CacheFile(workspace: Workspace, path: Path, row: FileRow)
      requires Valid() && !tx.Snapshot?
      modifies this
      ensures Valid() && commits == old(commits) && retain == old(retain)
      ensures SameRows(View(), Upsert(old(View()), workspace, path, row))
      ensures forall w, p :: RowAt(View(), w, p) ==
                (if w == workspace && p == path then Some(row) else old(RowAt(View(), w, p)))
      ensures old(tx) == Autocommit ==> tx == Autocommit
      ensures old(tx).Batch? ==> tx.Batch? && tx.depth == old(tx).depth && table == old(table)
    {
      ghost var before := View();
      forall w, p
        ensures RowAt(Upsert(before, workspace, path, row), w, p) ==
                  (if w == workspace && p == path then Some(row) else RowAt(before, w, p))
      {
        UpsertedRow(before, workspace, path, row, w, p);
      }
      if tx == Autocommit {
        RefreshFileCache();
      }
      if workspace in files && path in files[workspace] && files[workspace][path] == row {
        assert RowsOf(View(), workspace)[path := row] == RowsOf(View(), workspace);
        return;
      }
      var after := Upsert(Read(), workspace, path, row);
      if tx == Autocommit {
        table := after;
      } else {
        tx := Batch(after, tx.depth);
      }
      if workspace in files {
        files := files[workspace := files[workspace][path := row]];
      }
    }

    /** Another connection commits; it cannot while a batch holds the write lock. */
    method ExternalCommit(rows: Table)
      requires Valid() && !tx.Batch?
      modifies this`table, this`commits
      ensures Valid() && table == rows
    {
      table, commits := rows, commits + 1;
    }

    method BeginBatch()
      requires Valid() && !tx.Snapshot?
      modifies this`tx, this`files, this`dataVersion
      ensures Valid() && View() == old(View()) && tx.Batch?
      ensures tx.depth == (if old(tx).Batch? then old(tx).depth + 1 else 1)
    {
      if tx.Batch? {
        tx := Batch(tx.work, tx.depth + 1);
      } else {
        tx := Batch(table, 1);
        RefreshFileCache();
      }
    }

    /** The closure of a batch ends. A nested one only returns to the outer; the outermost commits what was
        written, or on an error or a failed commit rolls everything back and forgets what memory holds. */
    method EndBatch(ok: bool, commitFails: bool)
      requires Valid() && tx.Batch?
      modifies this`tx, this`table, this`files
      ensures Valid()
      ensures if old(tx).depth > 1 then tx == Batch(old(tx).work, old(tx).depth - 1) && table == old(table)
              else tx == Autocommit && table == if ok && !commitFails then old(tx).work else old(table)
    {
      if tx.depth > 1 {
        tx := Batch(tx.work, tx.depth - 1);
        return;
      }
      if ok && !commitFails {
        table := tx.work;
      } else {
        files := map[];
      }
      tx := Autocommit;
    }

    /** A read snapshot; unlike a batch it does not refresh what memory holds. */
    method BeginSnapshot()
      requires Valid() && tx == Autocommit
      modifies this`tx
      ensures Valid() && tx == Snapshot(table, commits)
    {
      tx := Snapshot(table, commits);
    }

    method EndSnapshot()
      requires Valid() && tx.Snapshot?
      modifies this`tx
      ensures Valid() && tx == Autocommit && table == old(table)
    {
      tx := Autocommit;
    }
  }

  /** Inside a read snapshot lookups in a workspace answer with the rows of the snapshot, for every path, exactly when
      the workspace is not held in memory or is held as the snapshot has it. */
  lemma SnapshotLookupsIff(c: Catalog, workspace: Workspace)
    requires c.tx.Snapshot?
    ensures (forall path :: c.Answer(workspace, path) == RowAt(c.View(), workspace, path)) <==>
      workspace !in c.files || c.files[workspace] == RowsOf(c.View(), workspace)
  {
    if workspace in c.files && forall path :: c.Answer(workspace, path) == RowAt(c.View(), workspace, path) {
      var held, seen := c.files[workspace], RowsOf(c.View(), workspace);
      forall path
        ensures path in held <==> path in seen
        ensures path in held ==> held[path] == seen[path]
      {
        assert c.Answer(workspace, path) == RowAt(c.View(), workspace, path);
      }
    }
  }

  /** Inside a read snapshot the promise is too strong: a row held in memory from before another connection's
      commit is handed out, although the snapshot no longer holds it. */
  method StaleInSnapshot(workspace: Workspace, path: Path, row: FileRow) returns (found: Option<FileRow>, held: Option<FileRow>)
    ensures found == Some(row) && held == None
  {
    var empty: Table := map[];
    var catalog := new Catalog(map[workspace := map[path := row]], 1);
    catalog.RetainFileCache();
    var before := catalog.CachedFile(workspace, path);
    catalog.ExternalCommit(empty);
    catalog.BeginSnapshot();
    held := RowAt(catalog.Read(), workspace, path);
    found := catalog.CachedFile(workspace, path);
  }
}
