/**
 * A point-in-time snapshot of the host filesystem, standing in for
 * `os.path.exists`, `os.path.isdir` and `os.listdir`.
 */
module FileSystem {
  import opened Wrappers

  datatype Kind = RegularFile | Directory

  /**
   * `nodes` gives the kind of every path that exists; `listings` gives, for a
   * directory that can be read, its entry names in the order `os.listdir` returns them.
   */
  datatype Snapshot = Snapshot(nodes: map<string, Kind>, listings: map<string, seq<string>>)

  /** `os.path.exists(p)` */
  predicate Exists(fs: Snapshot, p: string)
  {
    p in fs.nodes
  }

  /** `os.path.isdir(p)` */
  predicate IsDir(fs: Snapshot, p: string)
  {
    p in fs.nodes && fs.nodes[p] == Directory
  }

  /** `os.listdir(p)`, or None where it raises (not a directory, or unreadable). */
  function ListDir(fs: Snapshot, p: string): (entries: Option<seq<string>>)
    ensures entries.Some? ==> IsDir(fs, p)
  {
    if IsDir(fs, p) && p in fs.listings then Some(fs.listings[p]) else None
  }
}
