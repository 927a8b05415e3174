/**
 * `NFDi_pathset_create_from_GSList`: the GTK child packs the selected
 * file names into one buffer and an index array.
 */
module GtkPathSet {
  import opened Bytes
  import opened Wrappers
  import opened Nfd
  import opened Memory

  /**
   * The fill loop: each path and its NUL are copied to the next free
   * byte, and the index array records where each one starts.
   */
  method FillPathSet(fileList: seq<seq<byte>>, buf: array<byte>, indices: array<nat>)
    requires buf.Length == TotalSize(fileList) && indices.Length == |fileList|
    modifies buf, indices
    ensures buf[..] == Joined(fileList) && indices[..] == Offsets(fileList)
  {
    var off := 0;
    var k := 0;
    while k < |fileList|
      invariant k <= |fileList| && off == TotalSize(fileList[..k]) <= buf.Length
      invariant buf[..off] == Joined(fileList[..k])
      invariant indices[..k] == Offsets(fileList)[..k]
    {
      var path := fileList[k];
      PackNext(fileList, k);
      ghost var before := buf[..];
      MemCpy(buf, off, path + [NUL]);
      CopiedPrefix(before, buf[..], off, path + [NUL]);
      indices[k] := off;
      assert indices[..k + 1] == indices[..k] + [off];
      assert Offsets(fileList)[..k + 1] == Offsets(fileList)[..k] + [Offset(fileList, k)];
      off := off + |path| + 1;
      k := k + 1;
    }
    assert fileList[..k] == fileList;
    assert buf[..] == buf[..off];
    assert indices[..] == indices[..k];
  }

  /**
   * Builds the path set from the list of file names (`fileList`, each a
   * C string's contents). `indicesAllocated` is whether the index array's
   * allocation succeeds; if it does not, only `count` has been written.
   * `bufSize` is what the source stores through `outBufSize` (`None`: not
   * written).
   */
  method PathSetFromList(fileList: seq<seq<byte>>, ps0: PathSet, indicesAllocated: bool)
    returns (result: NfdResult, bufSize: Option<nat>, ps: PathSet)
    requires |fileList| > 0 && AllNoNul(fileList)
    ensures !indicesAllocated ==> result == Error && bufSize == None && ps == ps0.(indices := None, count := |fileList|)
    ensures indicesAllocated ==> result == Okay && bufSize == Some(TotalSize(fileList)) && ps == Pack(fileList)
  {
    var count := |fileList|;
    if !indicesAllocated {
      return Error, None, ps0.(indices := None, count := count);
    }
    var indices := new nat[count];
    var size := 0;
    var k := 0;
    while k < count
      invariant k <= count && size == TotalSize(fileList[..k])
    {
      PackNext(fileList, k);
      size := size + |fileList[k]| + 1;
      k := k + 1;
    }
    assert fileList[..count] == fileList;
    var buf := new byte[size];
    FillPathSet(fileList, buf, indices);
    result, bufSize, ps := Okay, Some(size), PathSet(Some(buf[..]), Some(indices[..]), count);
  }
}
