/** The read side of the file server's store: the three tables the resolver
    queries, as values. Every column is held as the value its column accessor
    returns (`int` columns as `int32`, the 64-bit version columns as `uint64`). */
module Catalog {
  import opened NdnTypes

  /** The `type` value that marks a file; every other value is a directory. */
  const FileType: int32 := 1

  /** A `file_system` row: path (column 0), type (2), mtime (5), current
      version (7) and the parent path the listing query selects on. */
  datatype FileEntry = FileEntry(path: string, kind: int32, parent: string, mtime: int32, currentVersion: uint64)

  /** A `file_versions` row without its key: size (column 2) and segment
      count (column 3). */
  datatype VersionRow = VersionRow(size: int32, totalSeg: int32)

  /** The store. `fileSystem` keeps the rows in storage order, which is the
      order the path and parent queries step through them; the other two
      tables are keyed exactly as their queries bind them. */
  datatype Store = Store(
    fileSystem: seq<FileEntry>,
    fileVersions: map<(string, uint64), VersionRow>,
    fileSegments: map<(string, uint64, int32), seq<byte>>)

  /** `SELECT * FROM file_system WHERE path = ?`, first row: the first entry
      in storage order with that path, or None when there is none. */
  function FindEntry(rows: seq<FileEntry>, path: string): (r: Option<FileEntry>)
    ensures r.None? <==> forall j :: 0 <= j < |rows| ==> rows[j].path != path
    ensures r.Some? ==> exists k :: 0 <= k < |rows| && rows[k] == r.value && r.value.path == path &&
                          forall j :: 0 <= j < k ==> rows[j].path != path
    decreases |rows|
  {
    if |rows| == 0 then None
    else if rows[0].path == path then Some(rows[0])
    else
      var r := FindEntry(rows[1..], path);
      assert forall j :: 1 <= j < |rows| ==> rows[j] == rows[1..][j - 1];
      r
  }
}
