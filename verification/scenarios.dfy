/** Worked requests against small stores, served under the routable prefix
    "/ndnfs". */
module Scenarios {
  import opened NdnTypes
  import opened Names
  import opened Catalog
  import opened Response
  import opened Server

  const Prefix: string := "/ndnfs"

  /** The bytes "0123456789". */
  const Digits: seq<byte> := [0x30, 0x31, 0x32, 0x33, 0x34, 0x35, 0x36, 0x37, 0x38, 0x39]

  /** One file "/a.txt" whose current version 3 has one segment of ten bytes. */
  function FileStore(): Store
  {
    Store([FileEntry("/a.txt", FileType, "/", 0, 3)],
          map[("/a.txt", 3) := VersionRow(10, 1)],
          map[("/a.txt", 3, 0) := Digits])
  }

  /** A directory "/docs" holding a file and a directory. */
  function DirStore(): Store
  {
    Store([FileEntry("/docs", 2, "/", 77, 0), FileEntry("/docs/a", FileType, "/docs", 78, 1), FileEntry("/docs/b", 2, "/docs", 79, 0)],
          map[], map[])
  }

  /** A version-less request for a file resolves to a redirect descriptor
      for its current version, published under a name that pins it. */
  lemma FileWithoutVersion(request: Name)
    ensures Resolve(FileStore(), "/a.txt", AbsentVersion, AbsentSegment) == FileDescriptor(FileInfo(10, 1, 3), true)
    ensures Publish(request, FileDescriptor(FileInfo(10, 1, 3), true)) ==
      Some(Data(request + [VersionComponent(3), FileSuffix], FileInfoContent(FileInfo(10, 1, 3))))
  {
    assert FindEntry(FileStore().fileSystem, "/a.txt") == Some(FileStore().fileSystem[0]);
  }

  /** A request decoding to "/a.txt", version 3, segment 0 is a segment hit,
      and the handler publishes the stored ten bytes as they are. */
  lemma SegmentOfVersion(request: Name, globalPrefix: string)
    requires |globalPrefix| <= |RawPath(request)|
    requires DecodedPath(request, globalPrefix) == "/a.txt" && LastVersion(request) == 3 && LastSegment(request) == 0
    ensures Resolve(FileStore(), "/a.txt", 3, 0) == SegmentFound
    ensures Serve(FileStore(), request, globalPrefix) == Some(RawBlob(Digits))
  {
  }

  /** A directory request lists both children, in storage order, published
      under a name that carries the directory's mtime. */
  lemma DirectoryRequest(request: Name)
    ensures Resolve(DirStore(), "/docs", AbsentVersion, AbsentSegment) ==
      DirectoryListing(77, [DirInfo(FileType, "/docs/a"), DirInfo(2, "/docs/b")])
    ensures Publish(request, DirectoryListing(77, [DirInfo(FileType, "/docs/a"), DirInfo(2, "/docs/b")])) ==
      Some(Data(request + [VersionComponent(77), DirSuffix], DirInfoArray([DirInfo(FileType, "/docs/a"), DirInfo(2, "/docs/b")])))
  {
    var rows := DirStore().fileSystem;
    assert FindEntry(rows, "/docs") == Some(rows[0]);
    assert [] + [rows[0]] == [rows[0]];
    assert [rows[0]] + [rows[1]] == rows[..2];
    assert rows[..2] + [rows[2]] == rows;
    ListingSnoc([], rows[0], "/docs");
    ListingSnoc([rows[0]], rows[1], "/docs");
    ListingSnoc(rows[..2], rows[2], "/docs");
  }

  /** A version-less request for a path the store does not hold resolves
      to not found, and nothing is published. */
  lemma MissingFile(request: Name, globalPrefix: string)
    requires |globalPrefix| <= |RawPath(request)|
    requires DecodedPath(request, globalPrefix) == "/missing" && LastVersion(request) == AbsentVersion
    ensures Resolve(FileStore(), "/missing", AbsentVersion, LastSegment(request)) == NotFound
    ensures Serve(FileStore(), request, globalPrefix).None?
  {
    assert FileStore().fileSystem[0].path != "/missing";
  }
}
