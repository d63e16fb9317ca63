/** The parts of a directory entry that collection and merging look at (model.rs, content_class.rs). */
module Model {
  import opened Bytes

  datatype ContentClass =
    | Source | VcsMeta | ConfigSecret | Dependency | BuildOutput | Database | Lockfile | Scratch

  datatype EntryKind = File | Directory | Symlink | Fifo | SocketMarker

  /** A directory entry; `target` is the blob of a file or the tree of a directory. */
  datatype TreeEntry =
    TreeEntry(
      name: seq<byte>, kind: EntryKind, target: Option<Digest>, linkTarget: seq<byte>, mode: nat, size: nat,
      mtimeSecs: int, mtimeNanos: nat, xattrs: Option<Digest>, class_: ContentClass)
}
