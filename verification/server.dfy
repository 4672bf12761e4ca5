/** Request resolution: the three-way cascade on which of version and
    segment the request name carries, the handler that publishes the
    outcome, and the properties of each branch. */
module Server {
  import opened NdnTypes
  import opened Names
  import opened Catalog
  import opened Response

  /** What the cascade decides for a decoded request. */
  datatype Resolution =
    | NotFound                                       // every lookup miss
    | SegmentFound                                   // a file_segments row exists
    | FileDescriptor(info: FileInfo, redirect: bool) // redirect: the version was not in the request
    | DirectoryListing(mtime: int32, entries: seq<DirInfo>)

  /** The status code the resolver hands back to the handler. */
  function Code(r: Resolution): int
  {
    match r
    case NotFound => -1
    case SegmentFound => 1
    case _ => 0
  }

  /** The cascade. With both markers only `file_segments` is asked; with a
      version only, `file_versions` at that version; with no version (a
      segment alone is ignored), `file_system` by path, and then for a file
      `file_versions` at its current version, for anything else the rows
      whose parent is the path. */
  function Resolve(store: Store, path: string, version: uint64, seg: int32): (r: Resolution)
    ensures r.SegmentFound? <==> version != AbsentVersion && seg != AbsentSegment && (path, version, seg) in store.fileSegments
    ensures r.FileDescriptor? ==> (r.redirect <==> version == AbsentVersion)
    ensures r.FileDescriptor? && !r.redirect ==> r.info.version == version && (path, version) in store.fileVersions
    ensures r.DirectoryListing? ==> version == AbsentVersion
  {
    if version != AbsentVersion && seg != AbsentSegment then
      if (path, version, seg) in store.fileSegments then SegmentFound else NotFound
    else if version != AbsentVersion then
      if (path, version) in store.fileVersions then
        var row := store.fileVersions[(path, version)];
        FileDescriptor(FileInfo(row.size, row.totalSeg, version), false)
      else NotFound
    else
      match FindEntry(store.fileSystem, path)
      case None => NotFound
      case Some(e) =>
        if e.kind == FileType then
          if (path, e.currentVersion) in store.fileVersions then
            var row := store.fileVersions[(path, e.currentVersion)];
            FileDescriptor(FileInfo(row.size, row.totalSeg, e.currentVersion), true)
          else NotFound
        else DirectoryListing(e.mtime, Listing(store.fileSystem, path))
  }

  /** The version out-parameter after resolution: overwritten with the
      entry's current version whenever a version-less request finds a file
      row, whether or not that version has a `file_versions` row. */
  function VersionAfter(store: Store, path: string, version: uint64): uint64
  {
    if version != AbsentVersion then version
    else match FindEntry(store.fileSystem, path)
      case Some(e) => if e.kind == FileType then e.currentVersion else version
      case None => version
  }

  /** What the resolver itself publishes: descriptors and non-empty listings. */
  function Publish(request: Name, r: Resolution): Option<Publication>
  {
    match r
    case FileDescriptor(info, redirect) =>
      Some(SendFile(request, info.version, info.size, info.totalSeg, if redirect then 1 else 0))
    case DirectoryListing(mtime, entries) => DirPacket(request, mtime, entries)
    case _ => None
  }

  /** Everything the server publishes for one request. */
  function Serve(store: Store, request: Name, globalPrefix: string): Option<Publication>
    requires |globalPrefix| <= |RawPath(request)|
  {
    var path, version, seg := DecodedPath(request, globalPrefix), LastVersion(request), LastSegment(request);
    var r := Resolve(store, path, version, seg);
    if r.SegmentFound? then Some(RawBlob(store.fileSegments[(path, version, seg)])) else Publish(request, r)
  }

  /** The resolver: decodes the name, runs the cascade and publishes file
      descriptors and listings itself. */
  method ProcessName(store: Store, request: Name, globalPrefix: string)
    returns (res: int, version: uint64, seg: int32, path: string, sent: Option<Publication>)
    requires |globalPrefix| <= |RawPath(request)|
    ensures path == DecodedPath(request, globalPrefix) && seg == LastSegment(request)
    ensures res == Code(Resolve(store, path, LastVersion(request), seg))
    ensures version == VersionAfter(store, path, LastVersion(request))
    ensures sent == Publish(request, Resolve(store, path, LastVersion(request), seg))
  {
    version, seg, path := NameToString(request, globalPrefix);
    sent := None;
    if version != AbsentVersion && seg != AbsentSegment {
      if (path, version, seg) !in store.fileSegments {
        return -1, version, seg, path, sent;
      }
      return 1, version, seg, path, sent;
    } else if version != AbsentVersion {
      if (path, version) !in store.fileVersions {
        return -1, version, seg, path, sent;
      }
      var row := store.fileVersions[(path, version)];
      sent := Some(SendFile(request, version, row.size, row.totalSeg, 0));
      return 0, version, seg, path, sent;
    } else {
      var entry := FindEntry(store.fileSystem, path);
      if entry.None? {
        return -1, version, seg, path, sent;
      }
      if entry.value.kind == FileType {
        version := entry.value.currentVersion;
        if (path, version) !in store.fileVersions {
          return -1, version, seg, path, sent;
        }
        var row := store.fileVersions[(path, version)];
        sent := Some(SendFile(request, version, row.size, row.totalSeg, 1));
        return 0, version, seg, path, sent;
      }
      sent := SendDir(request, store, path, entry.value.mtime);
      return 0, version, seg, path, sent;
    }
  }

  /** The interest handler: resolves the request and, for a segment, fetches
      the stored blob and publishes it as it is. */
  method OnInterest(store: Store, request: Name, globalPrefix: string) returns (published: Option<Publication>)
    requires |globalPrefix| <= |RawPath(request)|
    ensures published == Serve(store, request, globalPrefix)
  {
    var res, version, seg, path, sent := ProcessName(store, request, globalPrefix);
    published := sent;
    if res != -1 && res != 0 {
      if (path, version, seg) in store.fileSegments {
        published := Some(RawBlob(store.fileSegments[(path, version, seg)]));
      }
    }
  }

  /** An unresolvable request is dropped: nothing at all is published. */
  lemma NotFoundPublishesNothing(store: Store, request: Name, globalPrefix: string)
    requires |globalPrefix| <= |RawPath(request)|
    requires Resolve(store, DecodedPath(request, globalPrefix), LastVersion(request), LastSegment(request)).NotFound?
    ensures Serve(store, request, globalPrefix).None?
  {
  }

  /** Both markers: the answer is exactly the stored blob of that
      (path, version, segment), unmodified, or nothing. */
  lemma SegmentRequest(store: Store, request: Name, globalPrefix: string)
    requires |globalPrefix| <= |RawPath(request)|
    requires LastVersion(request) != AbsentVersion && LastSegment(request) != AbsentSegment
    ensures var key := (DecodedPath(request, globalPrefix), LastVersion(request), LastSegment(request));
      Code(Resolve(store, key.0, key.1, key.2)) == (if key in store.fileSegments then 1 else -1) &&
      Serve(store, request, globalPrefix) == (if key in store.fileSegments then Some(RawBlob(store.fileSegments[key])) else None)
  {
  }

  /** A segment request depends on `file_segments` alone. */
  lemma SegmentLookupOnly(s1: Store, s2: Store, path: string, version: uint64, seg: int32)
    requires version != AbsentVersion && seg != AbsentSegment
    requires s1.fileSegments == s2.fileSegments
    ensures Resolve(s1, path, version, seg) == Resolve(s2, path, version, seg)
  {
  }

  /** Without a version, a segment marker is ignored. */
  lemma SegmentIgnoredWithoutVersion(store: Store, path: string, seg: int32)
    ensures Resolve(store, path, AbsentVersion, seg) == Resolve(store, path, AbsentVersion, AbsentSegment)
  {
  }

  /** Version only: not found, and nothing published, unless `file_versions`
      has (path, version);
      otherwise that row's size and segment count with the requested version,
      under the request name plus the file suffix alone. */
  lemma VersionOnlyRequest(store: Store, request: Name, globalPrefix: string)
    requires |globalPrefix| <= |RawPath(request)|
    requires LastVersion(request) != AbsentVersion && LastSegment(request) == AbsentSegment
    ensures var key := (DecodedPath(request, globalPrefix), LastVersion(request));
      (key !in store.fileVersions ==>
        Resolve(store, key.0, key.1, LastSegment(request)) == NotFound && Serve(store, request, globalPrefix).None?) &&
      (key in store.fileVersions ==>
        Serve(store, request, globalPrefix) ==
          Some(Data(request + [FileSuffix], FileInfoContent(FileInfo(store.fileVersions[key].size, store.fileVersions[key].totalSeg, key.1)))))
  {
    var key := (DecodedPath(request, globalPrefix), LastVersion(request));
    if key in store.fileVersions {
      var row := store.fileVersions[key];
      var p := SendFile(request, key.1, row.size, row.totalSeg, 0);
      assert p.name == request + [FileSuffix];
    }
  }

  /** Bare path to a file: its current version is looked up in
      `file_versions`; a missing row means not found, with nothing published,
      although the file exists; otherwise the descriptor is published under the request
      name plus that version plus the file suffix. */
  lemma BareFileRequest(store: Store, request: Name, globalPrefix: string, e: FileEntry)
    requires |globalPrefix| <= |RawPath(request)|
    requires LastVersion(request) == AbsentVersion
    requires FindEntry(store.fileSystem, DecodedPath(request, globalPrefix)) == Some(e) && e.kind == FileType
    ensures var key := (DecodedPath(request, globalPrefix), e.currentVersion);
      (key !in store.fileVersions ==>
        Resolve(store, key.0, AbsentVersion, LastSegment(request)) == NotFound && Serve(store, request, globalPrefix).None?) &&
      (key in store.fileVersions ==>
        Serve(store, request, globalPrefix) ==
          Some(Data(request + [VersionComponent(e.currentVersion), FileSuffix],
                    FileInfoContent(FileInfo(store.fileVersions[key].size, store.fileVersions[key].totalSeg, e.currentVersion)))))
  {
    var key := (DecodedPath(request, globalPrefix), e.currentVersion);
    if key in store.fileVersions {
      var row := store.fileVersions[key];
      var p := SendFile(request, e.currentVersion, row.size, row.totalSeg, 1);
      assert p.name == request + [VersionComponent(e.currentVersion), FileSuffix];
    }
  }

  /** Bare path to anything that is not a file: the status is 0, and the
      listing of the rows whose parent is the path is published under the
      request name plus the mtime as a version plus the directory suffix;
      with no such rows nothing is published. */
  lemma BareDirectoryRequest(store: Store, request: Name, globalPrefix: string, e: FileEntry)
    requires |globalPrefix| <= |RawPath(request)|
    requires LastVersion(request) == AbsentVersion
    requires FindEntry(store.fileSystem, DecodedPath(request, globalPrefix)) == Some(e) && e.kind != FileType
    ensures var path := DecodedPath(request, globalPrefix);
      Code(Resolve(store, path, AbsentVersion, LastSegment(request))) == 0 &&
      Serve(store, request, globalPrefix) == DirPacket(request, e.mtime, Listing(store.fileSystem, path))
  {
  }

  /** Bare path absent from `file_system`: status -1 and nothing published. */
  lemma MissingPathRequest(store: Store, request: Name, globalPrefix: string)
    requires |globalPrefix| <= |RawPath(request)|
    requires LastVersion(request) == AbsentVersion
    requires forall j :: 0 <= j < |store.fileSystem| ==> store.fileSystem[j].path != DecodedPath(request, globalPrefix)
    ensures Code(Resolve(store, DecodedPath(request, globalPrefix), AbsentVersion, LastSegment(request))) == -1
    ensures Serve(store, request, globalPrefix).None?
  {
  }
}
