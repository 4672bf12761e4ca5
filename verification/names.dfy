/** The name decoder: turns a request name into a file path, a version and a
    segment number, with the sentinel -1 (as the respective C++ type) for a
    marker that does not occur. */
module Names {
  import opened NdnTypes

  /** `(uint64_t)-1`: no version component was seen. */
  const AbsentVersion: uint64 := TWO_64 - 1
  /** `-1`: no segment component was seen. */
  const AbsentSegment: int32 := -1

  /** What one component adds to the untrimmed path: "/" and its URI for a
      literal, nothing for a version or segment marker. */
  function Contribution(c: Component): string
  {
    match c
    case Literal(uri) => "/" + uri
    case _ => ""
  }

  /** The path accumulated over the whole name, before the prefix is cut off. */
  function RawPath(name: Name): string
    decreases |name|
  {
    if |name| == 0 then "" else RawPath(name[..|name| - 1]) + Contribution(name[|name| - 1])
  }

  /** The version carried by the last version component, or the sentinel. */
  function LastVersion(name: Name): uint64
    decreases |name|
  {
    if |name| == 0 then AbsentVersion
    else match name[|name| - 1]
      case VersionComponent(v) => v
      case _ => LastVersion(name[..|name| - 1])
  }

  /** The sequence number of the last segment component, narrowed to `int`,
      or the sentinel. */
  function LastSegment(name: Name): int32
    decreases |name|
  {
    if |name| == 0 then AbsentSegment
    else match name[|name| - 1]
      case SegmentComponent(n) => ToInt32(n)
      case _ => LastSegment(name[..|name| - 1])
  }

  /** Cuts the first `prefixLen` characters off `raw`; an empty remainder
      becomes the root path "/". */
  function TrimPrefix(raw: string, prefixLen: nat): (path: string)
    requires prefixLen <= |raw|
    ensures |path| > 0
    ensures prefixLen < |raw| ==> raw[..prefixLen] + path == raw
    ensures prefixLen == |raw| ==> path == "/"
  {
    if raw[prefixLen..] == "" then "/" else raw[prefixLen..]
  }

  /** The path the decoder yields for `name` under the routable prefix. */
  function DecodedPath(name: Name, globalPrefix: string): string
    requires |globalPrefix| <= |RawPath(name)|
  {
    TrimPrefix(RawPath(name), |globalPrefix|)
  }

  /** The decoder: one pass over the components in order, keeping the last
      version and segment seen and appending every literal to the path; then
      the prefix length is cut off the front, by length only. */
  method NameToString(name: Name, globalPrefix: string) returns (version: uint64, seg: int32, path: string)
    requires |globalPrefix| <= |RawPath(name)|
    ensures version == LastVersion(name)
    ensures seg == LastSegment(name)
    ensures path == DecodedPath(name, globalPrefix)
  {
    path := "";
    version := AbsentVersion;
    seg := AbsentSegment;
    var i := 0;
    while i < |name|
      invariant 0 <= i <= |name|
      invariant path == RawPath(name[..i])
      invariant version == LastVersion(name[..i])
      invariant seg == LastSegment(name[..i])
    {
      assert name[..i + 1][..i] == name[..i];
      match name[i] {
        case VersionComponent(v) =>
          version := v;
        case SegmentComponent(n) =>
          seg := ToInt32(n);
        case Literal(uri) =>
          path := path + ("/" + uri);
      }
      i := i + 1;
    }
    assert name[..|name|] == name;
    path := path[|globalPrefix|..];
    if path == "" {
      path := "/";
    }
  }

  predicate HasVersion(name: Name)
  {
    exists j :: 0 <= j < |name| && name[j].VersionComponent?
  }

  predicate HasSegment(name: Name)
  {
    exists j :: 0 <= j < |name| && name[j].SegmentComponent?
  }

  /** Reference definition of the path of a marker-free name, built front to
      back as "/" + component for every component. */
  function JoinUris(name: Name): string
    requires forall j :: 0 <= j < |name| ==> name[j].Literal?
    decreases |name|
  {
    if |name| == 0 then "" else "/" + name[0].uri + JoinUris(name[1..])
  }

  /** Appending one component adds exactly that component's contribution. */
  lemma RawPathSnoc(name: Name, c: Component)
    ensures RawPath(name + [c]) == RawPath(name) + Contribution(c)
  {
    assert (name + [c])[..|name + [c]| - 1] == name;
  }

  /** Appending one component changes the version or the segment only when
      it is a marker of that kind. */
  lemma LastVersionSnoc(name: Name, c: Component)
    ensures LastVersion(name + [c]) == if c.VersionComponent? then c.version else LastVersion(name)
    ensures LastSegment(name + [c]) == if c.SegmentComponent? then ToInt32(c.seqNum) else LastSegment(name)
  {
    assert (name + [c])[..|name + [c]| - 1] == name;
  }

  /** The untrimmed path of a concatenation is the concatenation of paths. */
  lemma {:induction false} RawPathAppend(a: Name, b: Name)
    ensures RawPath(a + b) == RawPath(a) + RawPath(b)
    decreases |b|
  {
    if |b| == 0 {
      assert a + b == a;
    } else {
      var b', last := b[..|b| - 1], b[|b| - 1];
      assert a + b == (a + b') + [last];
      assert b == b' + [last];
      RawPathAppend(a, b');
      RawPathSnoc(a + b', last);
      RawPathSnoc(b', last);
      AppendAssoc(RawPath(a), RawPath(b'), Contribution(last));
    }
  }

  /** A version or segment component never contributes to the path, wherever
      it stands in the name. */
  lemma MarkerAddsNothing(a: Name, m: Component, b: Name)
    requires !m.Literal?
    ensures RawPath(a + [m] + b) == RawPath(a + b)
  {
    RawPathAppend(a + [m], b);
    RawPathSnoc(a, m);
    RawPathAppend(a, b);
  }

  /** The last version component wins over every earlier one. */
  lemma {:induction false} LastVersionWins(name: Name, i: nat)
    requires i < |name| && name[i].VersionComponent?
    requires forall j :: i < j < |name| ==> !name[j].VersionComponent?
    ensures LastVersion(name) == name[i].version
    decreases |name|
  {
    if i < |name| - 1 {
      var p := name[..|name| - 1];
      LastVersionWins(p, i);
    }
  }

  /** The last segment component wins over every earlier one. */
  lemma {:induction false} LastSegmentWins(name: Name, i: nat)
    requires i < |name| && name[i].SegmentComponent?
    requires forall j :: i < j < |name| ==> !name[j].SegmentComponent?
    ensures LastSegment(name) == ToInt32(name[i].seqNum)
    decreases |name|
  {
    if i < |name| - 1 {
      var p := name[..|name| - 1];
      LastSegmentWins(p, i);
    }
  }

  /** A name without a version component decodes to the absent version; the
      sentinel is also produced by a version component that carries 2^64-1,
      and by nothing else. */
  lemma {:induction false} VersionAbsence(name: Name)
    ensures !HasVersion(name) ==> LastVersion(name) == AbsentVersion
    ensures LastVersion(name) == AbsentVersion ==> !HasVersion(name) || VersionComponent(AbsentVersion) in name
    decreases |name|
  {
    if |name| != 0 {
      var p := name[..|name| - 1];
      var last := name[|name| - 1];
      VersionAbsence(p);
      assert name == p + [last];
      if !HasVersion(name) {
        assert !HasVersion(p) by {
          forall j | 0 <= j < |p| ensures !p[j].VersionComponent? {
            assert p[j] == name[j];
          }
        }
      }
      if LastVersion(name) == AbsentVersion && !last.VersionComponent? && !HasVersion(p) {
        assert !HasVersion(name) by {
          forall j | 0 <= j < |name| ensures !name[j].VersionComponent? {
            if j < |p| {
              assert name[j] == p[j];
            }
          }
        }
      }
    }
  }

  /** A name without a segment component decodes to the absent segment; the
      sentinel is also produced by a segment component whose number narrows
      to -1 as an `int`, and by nothing else. */
  lemma {:induction false} SegmentAbsence(name: Name)
    ensures !HasSegment(name) ==> LastSegment(name) == AbsentSegment
    ensures LastSegment(name) == AbsentSegment ==>
      !HasSegment(name) || exists j :: 0 <= j < |name| && name[j].SegmentComponent? && ToInt32(name[j].seqNum) == AbsentSegment
    decreases |name|
  {
    if |name| != 0 {
      var p := name[..|name| - 1];
      var last := name[|name| - 1];
      SegmentAbsence(p);
      if !HasSegment(name) {
        assert !HasSegment(p) by {
          forall j | 0 <= j < |p| ensures !p[j].SegmentComponent? {
            assert p[j] == name[j];
          }
        }
      }
      if LastSegment(name) == AbsentSegment {
        if last.SegmentComponent? {
          assert name[|name| - 1] == last;
        } else if !HasSegment(p) {
          assert !HasSegment(name) by {
            forall j | 0 <= j < |name| ensures !name[j].SegmentComponent? {
              if j < |p| {
                assert name[j] == p[j];
              }
            }
          }
        } else {
          var j :| 0 <= j < |p| && p[j].SegmentComponent? && ToInt32(p[j].seqNum) == AbsentSegment;
          assert name[j] == p[j];
        }
      }
    }
  }

  /** A segment number of 0xFFFFFFFF narrows to -1 and so reads as "no
      segment"; a version of 2^64-1 reads as "no version". */
  lemma SentinelCollision()
    ensures LastSegment([SegmentComponent(0xFFFF_FFFF)]) == LastSegment([])
    ensures LastVersion([VersionComponent(AbsentVersion)]) == LastVersion([])
  {
  }

  /** A name made of literals only: version and segment are absent, and the
      path is "/" + component over all components with the prefix cut off,
      "/" when nothing remains. */
  lemma {:induction false} LiteralNameDecodes(name: Name, globalPrefix: string)
    requires forall j :: 0 <= j < |name| ==> name[j].Literal?
    requires |globalPrefix| <= |JoinUris(name)|
    ensures LastVersion(name) == AbsentVersion
    ensures LastSegment(name) == AbsentSegment
    ensures RawPath(name) == JoinUris(name)
    ensures DecodedPath(name, globalPrefix) == TrimPrefix(JoinUris(name), |globalPrefix|)
    decreases |name|
  {
    VersionAbsence(name);
    SegmentAbsence(name);
    RawPathIsJoin(name);
  }

  lemma {:induction false} RawPathIsJoin(name: Name)
    requires forall j :: 0 <= j < |name| ==> name[j].Literal?
    ensures RawPath(name) == JoinUris(name)
    decreases |name|
  {
    if |name| != 0 {
      var c, rest := name[0], name[1..];
      assert name == [c] + rest;
      assert RawPath([c]) == Contribution(c) by {
        assert [c][..0] == [];
      }
      assert Contribution(c) == "/" + c.uri;
      RawPathAppend([c], rest);
      RawPathIsJoin(rest);
      assert JoinUris(name) == "/" + c.uri + JoinUris(rest);
    }
  }
}
