/** The response builder: the file descriptor and directory listing records,
    the outgoing names with their suffixes, and what is handed to the
    publisher. Wire encoding and signing are outside the model: a published
    data packet is its name and its record. */
module Response {
  import opened NdnTypes
  import opened Names
  import opened Catalog

  /** The `FileInfo` record: size, segment count and version. */
  datatype FileInfo = FileInfo(size: int32, totalSeg: int32, version: uint64)

  /** One `DirInfo` entry of a directory listing: the child's type and path. */
  datatype DirInfo = DirInfo(kind: int32, path: string)

  datatype Content =
    | FileInfoContent(info: FileInfo)
    | DirInfoArray(entries: seq<DirInfo>)

  /** What reaches the publisher: a data packet built here, or a stored
      segment blob passed on as it is. */
  datatype Publication =
    | Data(name: Name, content: Content)
    | RawBlob(bytes: seq<byte>)

  /** The terminal component of a file descriptor's name. */
  const FileSuffix: Component := Literal("%C1.FS.file")
  /** The terminal component of a directory listing's name. */
  const DirSuffix: Component := Literal("%C1.FS.dir")

  /** The file descriptor packet. With `kind` 0 the request already pinned
      the version and only the file suffix is appended; otherwise the version
      is appended before the suffix. */
  function SendFile(request: Name, version: uint64, size: int32, totalSeg: int32, kind: int): (p: Publication)
    ensures p.Data? && p.content == FileInfoContent(FileInfo(size, totalSeg, version))
    ensures |p.name| == |request| + (if kind == 0 then 1 else 2)
    ensures p.name[..|request|] == request && p.name[|p.name| - 1] == FileSuffix
    ensures kind != 0 ==> p.name[|request|] == VersionComponent(version)
  {
    var name := if kind == 0 then request + [FileSuffix] else request + [VersionComponent(version), FileSuffix];
    Data(name, FileInfoContent(FileInfo(size, totalSeg, version)))
  }

  /** `SELECT * FROM file_system WHERE parent = ?`, as (type, path) entries
      in storage order. */
  function Listing(rows: seq<FileEntry>, dir: string): seq<DirInfo>
    decreases |rows|
  {
    if |rows| == 0 then []
    else
      var last := rows[|rows| - 1];
      Listing(rows[..|rows| - 1], dir) + (if last.parent == dir then [DirInfo(last.kind, last.path)] else [])
  }

  /** The listing packet for `entries`: nothing when there are no entries,
      otherwise the request name with the directory's mtime as a version and
      the directory suffix. */
  function DirPacket(request: Name, mtime: int32, entries: seq<DirInfo>): (p: Option<Publication>)
    ensures p.None? <==> entries == []
    ensures p.Some? ==> p.value.Data? && p.value.content == DirInfoArray(entries) &&
                        p.value.name == request + [VersionComponent(ToUint64(mtime)), DirSuffix]
  {
    if entries == [] then None
    else Some(Data(request + [VersionComponent(ToUint64(mtime)), DirSuffix], DirInfoArray(entries)))
  }

  /** The listing: steps through the rows whose parent is `path`, adds one
      entry per row and counts them; publishes only when the count is not 0. */
  method SendDir(request: Name, store: Store, path: string, mtime: int32) returns (sent: Option<Publication>)
    ensures sent == DirPacket(request, mtime, Listing(store.fileSystem, path))
  {
    var rows := store.fileSystem;
    var infos: seq<DirInfo> := [];
    var count := 0;
    var i := 0;
    while i < |rows|
      invariant 0 <= i <= |rows|
      invariant infos == Listing(rows[..i], path)
      invariant count == |infos|
    {
      assert rows[..i + 1][..i] == rows[..i];
      if rows[i].parent == path {
        infos := infos + [DirInfo(rows[i].kind, rows[i].path)];
        count := count + 1;
      }
      i := i + 1;
    }
    assert rows[..|rows|] == rows;
    if count != 0 {
      sent := Some(Data(request + [VersionComponent(ToUint64(mtime)), DirSuffix], DirInfoArray(infos)));
    } else {
      sent := None;
    }
  }

  /** One more row adds its entry exactly when its parent is `dir`. */
  lemma ListingSnoc(rows: seq<FileEntry>, r: FileEntry, dir: string)
    ensures Listing(rows + [r], dir) == Listing(rows, dir) + (if r.parent == dir then [DirInfo(r.kind, r.path)] else [])
  {
    assert (rows + [r])[..|rows + [r]| - 1] == rows;
  }

  /** The listing of concatenated row sequences is the concatenation of their
      listings: entries keep the storage order of their rows. */
  lemma {:induction false} ListingAppend(a: seq<FileEntry>, b: seq<FileEntry>, dir: string)
    ensures Listing(a + b, dir) == Listing(a, dir) + Listing(b, dir)
    decreases |b|
  {
    if |b| == 0 {
      assert a + b == a;
    } else {
      var b', last := b[..|b| - 1], b[|b| - 1];
      assert a + b == (a + b') + [last];
      assert b == b' + [last];
      ListingAppend(a, b', dir);
      ListingSnoc(a + b', last, dir);
      ListingSnoc(b', last, dir);
      AppendAssoc(Listing(a, dir), Listing(b', dir), if last.parent == dir then [DirInfo(last.kind, last.path)] else []);
    }
  }

  /** An entry is in the listing exactly when some row has `dir` as its
      parent and that entry's type and path. */
  lemma {:induction false} ListingMembership(rows: seq<FileEntry>, dir: string, e: DirInfo)
    ensures e in Listing(rows, dir) <==>
      exists j :: 0 <= j < |rows| && rows[j].parent == dir && DirInfo(rows[j].kind, rows[j].path) == e
    decreases |rows|
  {
    if |rows| != 0 {
      var p, last := rows[..|rows| - 1], rows[|rows| - 1];
      ListingMembership(p, dir, e);
      assert forall j :: 0 <= j < |p| ==> p[j] == rows[j];
      if e in Listing(rows, dir) && e !in Listing(p, dir) {
        assert rows[|rows| - 1] == last;
      }
    }
  }

  /** When no row for `dir` names `dir` as its own parent, the listing of
      `dir` never holds `dir` itself. */
  lemma ListingExcludesSelf(rows: seq<FileEntry>, dir: string)
    requires forall j :: 0 <= j < |rows| && rows[j].path == dir ==> rows[j].parent != dir
    ensures forall e :: e in Listing(rows, dir) ==> e.path != dir
  {
    forall e | e in Listing(rows, dir) ensures e.path != dir {
      ListingMembership(rows, dir, e);
    }
  }

  /** The converse: a row that is its own parent is listed under itself. */
  lemma SelfParentListed(rows: seq<FileEntry>, j: int)
    requires 0 <= j < |rows| && rows[j].parent == rows[j].path
    ensures DirInfo(rows[j].kind, rows[j].path) in Listing(rows, rows[j].path)
  {
    ListingMembership(rows, rows[j].path, DirInfo(rows[j].kind, rows[j].path));
  }

  /** Decoding the request name extended by a version and a terminal
      literal: the version is the appended one, the segment is the request's,
      and the path gains only the terminal literal. */
  lemma {:induction false} SuffixedNameDecodes(request: Name, version: uint64, terminal: Component)
    requires terminal.Literal?
    ensures var out := request + [VersionComponent(version), terminal];
      LastVersion(out) == version && LastSegment(out) == LastSegment(request) &&
      RawPath(out) == RawPath(request) + Contribution(terminal)
  {
    var v := VersionComponent(version);
    var mid := request + [v];
    assert request + [v, terminal] == mid + [terminal];
    LastVersionSnoc(request, v);
    LastVersionSnoc(mid, terminal);
    RawPathSnoc(request, v);
    RawPathSnoc(mid, terminal);
    AppendEmpty(RawPath(request));
  }

  /** Decoding a file descriptor's name gives back the version the descriptor
      describes when the version was appended, the request's own version when
      it was not, the request's segment, and the request's path followed by
      the file suffix. */
  lemma FileNameDecodes(request: Name, version: uint64, size: int32, totalSeg: int32, kind: int)
    ensures var out := SendFile(request, version, size, totalSeg, kind).name;
      LastVersion(out) == (if kind == 0 then LastVersion(request) else version) &&
      LastSegment(out) == LastSegment(request) &&
      RawPath(out) == RawPath(request) + Contribution(FileSuffix)
  {
    if kind == 0 {
      LastVersionSnoc(request, FileSuffix);
      RawPathSnoc(request, FileSuffix);
    } else {
      SuffixedNameDecodes(request, version, FileSuffix);
    }
  }

  /** Decoding a directory listing's name gives the directory's mtime as the
      version, the request's segment, and the request's path followed by the
      directory suffix. */
  lemma DirNameDecodes(request: Name, mtime: int32, entries: seq<DirInfo>)
    requires entries != []
    ensures var out := DirPacket(request, mtime, entries).value.name;
      LastVersion(out) == ToUint64(mtime) &&
      LastSegment(out) == LastSegment(request) &&
      RawPath(out) == RawPath(request) + Contribution(DirSuffix)
  {
    SuffixedNameDecodes(request, ToUint64(mtime), DirSuffix);
  }
}
