/**
 * The two types of the public header: the three-way result and the path
 * set (one flat buffer of NUL-terminated strings plus byte offsets).
 */
module Nfd {
  import opened Bytes
  import opened Wrappers

  /** `nfdresult_t`; the enumeration gives the constants 0, 1 and 2. */
  datatype NfdResult = Error | Okay | Cancel {
    function Code(): (c: nat)
      ensures c < 3
    {
      match this
      case Error => 0
      case Okay => 1
      case Cancel => 2
    }
  }

  /** The result whose enumeration constant is `c`, if there is one. */
  function ResultOfCode(c: int): (r: Option<NfdResult>)
    ensures r.Some? <==> 0 <= c < 3
    ensures r.Some? ==> r.value.Code() == c
  {
    if c == 0 then Some(Error) else if c == 1 then Some(Okay) else if c == 2 then Some(Cancel) else None
  }

  /**
   * `nfdpathset_t`. The two pointers are `None` while null (before they are
   * allocated, after a failed allocation, after release).
   */
  datatype PathSet = PathSet(buf: Option<seq<byte>>, indices: Option<seq<nat>>, count: nat)

  /** The pointers of a zero-filled (`memset`) path set. */
  const EmptyPathSet: PathSet := PathSet(None, None, 0)

  /** The offsets at which the packed strings start. */
  function Offsets(paths: seq<seq<byte>>): (offs: seq<nat>)
    ensures |offs| == |paths|
    ensures forall i :: 0 <= i < |paths| ==> offs[i] == Offset(paths, i)
  {
    seq(|paths|, i requires 0 <= i < |paths| => Offset(paths, i))
  }

  /** The first `i + 1` offsets are the first `i` and then the offset of path `i`. */
  lemma OffsetsSnoc(paths: seq<seq<byte>>, i: nat)
    requires i < |paths|
    ensures Offsets(paths)[..i + 1] == Offsets(paths)[..i] + [Offset(paths, i)]
  {
    var o := Offsets(paths);
    assert o[..i + 1] == o[..i] + [o[i]];
  }

  /**
   * The layout every backend builds: each path followed by one NUL,
   * back-to-back in list order, `indices[i]` the offset of path `i`.
   */
  function Pack(paths: seq<seq<byte>>): (ps: PathSet)
    ensures ps.count == |paths|
    ensures ps.buf == Some(Joined(paths)) && |Joined(paths)| == TotalSize(paths)
    ensures ps.indices == Some(Offsets(paths))
  {
    PathSet(Some(Joined(paths)), Some(Offsets(paths)), |paths|)
  }

  /** Packing one more path after the first `k`: it starts at the old size and ends with its NUL. */
  lemma PackNext(paths: seq<seq<byte>>, k: nat)
    requires k < |paths|
    ensures Joined(paths[..k + 1]) == Joined(paths[..k]) + paths[k] + [NUL]
    ensures TotalSize(paths[..k + 1]) == TotalSize(paths[..k]) + |paths[k]| + 1
    ensures TotalSize(paths[..k + 1]) <= TotalSize(paths)
  {
    assert paths[..k + 1] == paths[..k] + [paths[k]];
    JoinedAppend(paths[..k], paths[k]);
    assert paths == paths[..k + 1] + paths[k + 1..];
    JoinedConcat(paths[..k + 1], paths[k + 1..]);
  }
}
