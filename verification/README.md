# NDNFS server: request resolution

This project models the core of the NDNFS file server. NDNFS exposes a file system over a named-data network. A client sends an interest, which is a hierarchical request name. The server answers it from three store tables:

- `file_system`: path → type, parent, mtime, current version.
- `file_versions`: (path, version) → size, segment count.
- `file_segments`: (path, version, segment) → stored bytes.

The model has three parts.

- **Name decoder** (`ndnName2String`, module `Names`). It walks the components of the name in order. A version component (leading byte 0xFD) sets the version. A segment component (leading byte 0x00) sets the segment. Any other component appends "/" and its URI to the path. When a marker occurs more than once, the last one wins. Then the length of the routable prefix is cut off the front of the path, by length only, and an empty result becomes "/". A marker that does not occur is reported by a sentinel:
  - the version sentinel is `(uint64_t)-1`, which is 2^64-1;
  - the segment sentinel is `-1`.

  The segment number is narrowed from 64 bits to a 32-bit `int` (`NdnTypes.ToInt32`). So a segment component carrying 0xFFFFFFFF reads as "no segment", and a version component carrying 2^64-1 reads as "no version" (`Names.SentinelCollision`, `Names.VersionAbsence`, `Names.SegmentAbsence`).
- **Resolution cascade** (`ProcessName`, module `Server`). It branches on which markers are present:
  - Version and segment both present: only `file_segments` is asked.
  - Version present, segment absent: `file_versions` at that version.
  - No version: `file_system` by path. A segment marker without a version is ignored.
    - A row of type 1 is a file. `file_versions` is then looked up at the file's current version. A miss there is "not found" even though the file exists.
    - A row of any other type is a directory. Its listing is made of the rows whose parent is the path.

  Every miss is status -1. A segment hit is status 1. A descriptor or a listing is status 0, even when the listing is empty and nothing is sent. When the found row is a file, the resolver's version out-parameter is overwritten with the file's current version, and this happens before the `file_versions` lookup (`Server.VersionAfter`).
- **Response assembly** (`SendFile`, `SendDir`, and the segment branch of `OnInterest`, module `Response`):
  - A descriptor for a pinned version goes out under the request name plus `%C1.FS.file`.
  - A descriptor found through the current version goes out under the request name plus a version component carrying that version plus `%C1.FS.file`.
  - A listing goes out under the request name plus the directory's mtime as a version component plus `%C1.FS.dir`, and only when it has at least one entry.
  - A segment is published as the stored blob itself, with nothing added.

`Server.Serve` is everything the server publishes for one request. `Server.OnInterest` is proved equal to it. The lemmas in `Server` state each branch of the cascade in terms of the request name and the store. The lemmas in `Response` show that decoding an outgoing name gives back the version it pins (`Response.FileNameDecodes`, `Response.DirNameDecodes`). `Scenarios` works four requests against small stores.

Behaviours of the code worth noting:

- The segment branch publishes the stored blob unchanged. No outgoing name is built for it.
- A directory with no children gets status 0, not "not found". Nothing is published for it.
- A name may carry several version or segment components. The last one of each kind is used.
- A row whose parent is its own path is listed under itself (`Response.SelfParentListed`). The listing excludes the directory only when its own row does not name itself as parent (`Response.ListingExcludesSelf`).

The store is a value (`Catalog.Store`). `file_system` is a sequence in storage order, which is the order the path and parent queries return rows in. The other two tables are maps keyed exactly as their queries bind them. Each column holds the value its accessor returns:

- `sqlite3_column_int` columns are `int32`.
- The 64-bit version columns are `uint64`. Reading an `int64` as `uint64` and binding it back is a bijection, so exact-match lookups are unchanged.

Name components are tagged by their leading byte (`NdnTypes.Component`). The tags carry what the name library decodes from the component: the version, the sequence number, or the URI text.

## Model

| member | source | states |
|---|---|---|
| NdnTypes.ToInt32 | server/servermodule.cc:117 | the sequence number assigned to the `int` segment is congruent to it modulo 2^32 and equal to it below 2^31 |
| NdnTypes.ToUint64 | server/servermodule.cc:274 | the `int` mtime passed to `appendVersion` is congruent to it modulo 2^64 and unchanged when non-negative |
| Names.TrimPrefix | server/servermodule.cc:128-130 | the decoded path is never empty; when the raw path is longer than the prefix length, the raw path's first prefix-length characters followed by the result give back the raw path; when the prefix length equals the raw path's length, the result is "/" |
| Names.NameToString | server/servermodule.cc:101-134 | the loop yields the last version, the last segment (narrowed), and the path of all literal components with the prefix length cut off |
| Names.RawPathAppend | server/servermodule.cc:107-122 | the raw path of a concatenation of names is the concatenation of their raw paths |
| Names.MarkerAddsNothing | server/servermodule.cc:113-118 | inserting a version or segment component anywhere in a name leaves the raw path unchanged |
| Names.LastVersionWins | server/servermodule.cc:113-115 | the version of the last version component wins over every earlier one |
| Names.LastSegmentWins | server/servermodule.cc:116-118 | the (narrowed) number of the last segment component wins over every earlier one |
| Names.VersionAbsence | server/servermodule.cc:104-115 | no version component gives the absent sentinel, and the sentinel arises otherwise only from a version component carrying 2^64-1 |
| Names.SegmentAbsence | server/servermodule.cc:105-118 | no segment component gives -1, and -1 arises otherwise only from a segment component whose number narrows to -1 |
| Names.SentinelCollision | server/servermodule.cc:104-117 | a segment 0xFFFFFFFF and a version 2^64-1 decode the same as an absent marker |
| Names.RawPathIsJoin | server/servermodule.cc:119-122 | for literal-only names the loop's path equals the front-to-back join of "/"+URI over all components |
| Names.LiteralNameDecodes | server/servermodule.cc:101-134 | a name without markers decodes to absent version and segment, and its path is the join of "/"+URI with the prefix length cut off ("/" when nothing remains) |
| Catalog.FindEntry | server/servermodule.cc:176-179 | the path lookup is None exactly when no row has the path, and otherwise returns the first row in storage order with that path |
| Response.SendFile | server/servermodule.cc:228-248 | the descriptor holds size, segment count and version; its name is the request name, then a version component only for a redirect, then the file suffix |
| Response.DirPacket | server/servermodule.cc:269-284 | nothing is published for an empty listing; otherwise the listing goes out under the request name, the mtime as a version, and the directory suffix |
| Response.SendDir | server/servermodule.cc:251-291 | the loop over the rows collects exactly the listing of the rows whose parent is the path and publishes it as above |
| Response.ListingAppend | server/servermodule.cc:254-266 | the listing keeps storage order: the listing of concatenated rows is the concatenation of the listings |
| Response.ListingMembership | server/servermodule.cc:254-266 | an entry is in the listing if and only if some row has the directory as parent and that entry's type and path |
| Response.ListingExcludesSelf | server/servermodule.cc:254-266 | when no row for the directory names the directory as its own parent, the directory's listing never names the directory itself |
| Response.SelfParentListed | server/servermodule.cc:254-266 | a row whose parent is its own path appears in the listing of that path |
| Response.SuffixedNameDecodes | server/servermodule.cc:240 | appending a version and a literal suffix to a name makes the decoder see that version, the same segment, and the path plus the suffix |
| Response.FileNameDecodes | server/servermodule.cc:237-240 | decoding a descriptor's name yields the pinned version for a redirect, the request's own version otherwise, and the request's segment |
| Response.DirNameDecodes | server/servermodule.cc:273-274 | decoding a listing's name yields the directory's mtime as the version and the request's segment |
| Server.Resolve | server/servermodule.cc:137-217 | a segment hit happens if and only if both markers are present and the segment row exists; a descriptor is a redirect exactly when the request had no version, and a non-redirect one carries the requested version, whose row exists; a listing only answers a version-less request |
| Server.ProcessName | server/servermodule.cc:137-217 | the resolver returns the decoded path and segment, the status of the cascade, the version overwritten by a file's current version, and publishes exactly the cascade's descriptor or non-empty listing |
| Server.OnInterest | server/servermodule.cc:42-97 | the handler publishes exactly what `Serve` specifies, re-fetching the segment blob when the status is 1 |
| Server.NotFoundPublishesNothing | server/servermodule.cc:55-57 | a request that resolves to "not found" publishes nothing |
| Server.SegmentRequest | server/servermodule.cc:142-157 | with both markers the status is 1 if and only if the segment row exists, and the stored blob is then published unmodified; otherwise nothing |
| Server.SegmentLookupOnly | server/servermodule.cc:142-157 | a segment request depends on `file_segments` only: stores that agree on it resolve alike |
| Server.SegmentIgnoredWithoutVersion | server/servermodule.cc:142-175 | without a version, any segment value resolves like no segment |
| Server.VersionOnlyRequest | server/servermodule.cc:158-174 | a version-only miss resolves to not found (status -1) and publishes nothing; a hit publishes that row's size and segment count with the requested version under the request name plus the file suffix |
| Server.BareFileRequest | server/servermodule.cc:187-207 | a file without a `file_versions` row at its current version resolves to not found (status -1) and publishes nothing; otherwise the descriptor at the current version goes out under request, version, file suffix |
| Server.BareDirectoryRequest | server/servermodule.cc:209-215 | a non-file row gives status 0 and publishes the listing of its children (nothing when there are none) under request, mtime, directory suffix |
| Server.MissingPathRequest | server/servermodule.cc:175-185 | a version-less request for a path with no row gives status -1 and publishes nothing |
| Scenarios.FileWithoutVersion | server/servermodule.cc:187-207 | "/a.txt" at current version 3 resolves to a redirect descriptor (10 bytes, 1 segment, version 3) named with version 3 and the file suffix |
| Scenarios.SegmentOfVersion | server/servermodule.cc:142-157 | a request decoding to ("/a.txt", 3, 0) is a segment hit, and the handler publishes the raw blob "0123456789" |
| Scenarios.DirectoryRequest | server/servermodule.cc:209-215 | "/docs" lists its file and its directory child in storage order, named with its mtime and the directory suffix |
| Scenarios.MissingFile | server/servermodule.cc:175-185 | a version-less request for a path absent from `file_system` resolves to "not found" and publishes nothing |

## Left out

- The sqlite statement plumbing (prepare, bind, step, finalize). Each query is a lookup over the `Catalog.Store` value.
- The protobuf records are not encoded (`ByteSize`, `SerializeToArray`, buffer allocation). A published packet carries the `FileInfo` or `DirInfo` record itself.
- The name library's component codecs (`toVersion`, `toSeqNum`, `toUri`, `appendVersion`, `append`) and `encodeToWire` are not modelled. Components are tagged values, and the tags stand for the leading byte.
- Signing (`keychain->sign`) and network publication (`putToCcnd`) are foreign calls. Publication is the returned `Option<Publication>` value.
- Debug output, the `/tmp/blob` dump and the `interest_cnt` counter have no effect on the result.
- The commented-out `CheckSuffix` and `CompareComponent` and the selector TODOs are not implemented in the source.
- Names.NameToString: requires the raw path to be at least as long as the prefix. The source's `substr` throws an exception otherwise, and that exception is not modelled.
- Response.SendDir: the C `int` entry counter is an unbounded integer. An overflow would need 2^31 children.
- The 32-bit narrowing that `sqlite3_column_int` applies to 64-bit size, count and mtime values is folded into the row types. The store holds the narrowed values.
- The store's own consistency (every file's current version has a row; segments are numbered 0..totalseg-1) is not assumed or checked, as in the source.
- Idempotence of resolution against an unchanged store holds by construction, since `Resolve` and `Serve` are functions. It has no lemma.
