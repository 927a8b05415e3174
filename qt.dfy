/**
 * The Qt backend (src/nfd_qt.cpp): the name filters built from a filter
 * list, and the one dialog routine behind all four entry points, which
 * copies the selection into a path or a path set.
 */
module Qt {
  import opened Bytes
  import opened Wrappers
  import opened Nfd
  import opened FilterList
  import opened Memory
  import GtkPathSet

  // ----- AddFiltersToDialog -----

  const SPACE: byte := ' '

  /** The name filter that always comes last. */
  const ANY_FILES: seq<byte> := "Any files (*)"

  /** Each extension as a pattern. */
  function Wildcards(exts: seq<seq<byte>>): (ws: seq<seq<byte>>)
    ensures |ws| == |exts| && forall i :: 0 <= i < |exts| ==> ws[i] == STAR_DOT + exts[i]
  {
    seq(|exts|, i requires 0 <= i < |exts| => STAR_DOT + exts[i])
  }

  /** The name filter of one group: its extensions as patterns, separated by single spaces. */
  function GroupFilter(group: seq<byte>): seq<byte>
  {
    JoinWith(Wildcards(Extensions(group)), [SPACE])
  }

  /**
   * The name filters of a filter list: one per ';'-piece, empty pieces
   * included (`QString::split` keeps them), then `ANY_FILES`.
   */
  function NameFilters(filterList: seq<byte>): (filters: seq<seq<byte>>)
    ensures |filters| == |Groups(filterList)| + 1 && filters[|filters| - 1] == ANY_FILES
    ensures forall i :: 0 <= i < |Groups(filterList)| ==> filters[i] == GroupFilter(Groups(filterList)[i])
  {
    var groups := Groups(filterList);
    seq(|groups|, i requires 0 <= i < |groups| => GroupFilter(groups[i])) + [ANY_FILES]
  }

  /** What the inner loop has built after `k` of the extensions: a space follows each but the last. */
  function Built(ws: seq<seq<byte>>, k: nat): seq<byte>
    requires 0 < k <= |ws|
  {
    JoinWith(ws[..k], [SPACE]) + (if k < |ws| then [SPACE] else [])
  }

  /** The inner loop: `"*." + ext` for each extension, with a space after each one that has a successor. */
  method BuildGroupFilter(group: seq<byte>) returns (filterString: seq<byte>)
    ensures filterString == GroupFilter(group)
  {
    var wildcards := Extensions(group);
    ghost var ws := Wildcards(wildcards);
    filterString := [];
    var k := 0;
    while k < |wildcards|
      invariant k <= |wildcards|
      invariant k == 0 ==> filterString == []
      invariant k > 0 ==> filterString == Built(ws, k)
    {
      if k > 0 {
        JoinWithNext(ws, k);
      } else {
        assert ws[..1] == [ws[0]];
      }
      filterString := filterString + STAR_DOT + wildcards[k];
      if k + 1 < |wildcards| {
        filterString := filterString + [SPACE];
      }
      k := k + 1;
    }
    assert ws[..k] == ws;
  }

  /** One more part, after a separator. */
  lemma JoinWithNext(ws: seq<seq<byte>>, k: nat)
    requires 0 < k < |ws|
    ensures JoinWith(ws[..k + 1], [SPACE]) == JoinWith(ws[..k], [SPACE]) + [SPACE] + ws[k]
  {
    assert ws[..k + 1][..k] == ws[..k];
  }

  /**
   * `AddFiltersToDialog`: the name filters set on the dialog, none for a
   * NULL filter list.
   */
  method AddFiltersToDialog(filterList: Option<seq<byte>>) returns (nameFilters: Option<seq<seq<byte>>>)
    ensures filterList.None? ==> nameFilters.None?
    ensures filterList.Some? ==> nameFilters == Some(NameFilters(filterList.value))
  {
    if filterList.None? {
      return None;
    }
    var filters := Groups(filterList.value);
    var filterStringList: seq<seq<byte>> := [];
    var g := 0;
    while g < |filters|
      invariant g <= |filters|
      invariant |filterStringList| == g
      invariant forall i :: 0 <= i < g ==> filterStringList[i] == GroupFilter(filters[i])
    {
      var filterString := BuildGroupFilter(filters[g]);
      filterStringList := filterStringList + [filterString];
      g := g + 1;
    }
    filterStringList := filterStringList + [ANY_FILES];
    ghost var expected := NameFilters(filterList.value);
    assert |filterStringList| == |expected|;
    forall i | 0 <= i < |expected|
      ensures filterStringList[i] == expected[i]
    {
      if i < |filters| {
        assert filterStringList[i] == GroupFilter(filters[i]);
      }
    }
    assert filterStringList == expected;
    nameFilters := Some(filterStringList);
  }

  /**
   * A group's name filter gives its extensions back: split at spaces, it
   * is one pattern per extension, and the extensions joined with ','
   * are the group, when the group holds no space.
   */
  lemma GroupFilterRecovers(group: seq<byte>)
    requires SPACE !in group
    ensures var ws := Split(GroupFilter(group), SPACE);
      && |ws| == |Extensions(group)|
      && (forall i :: 0 <= i < |ws| ==> ws[i] == STAR_DOT + Extensions(group)[i])
      && JoinWith(Extensions(group), [EXT_SEP]) == group
  {
    var exts := Extensions(group);
    SplitAvoids(group, EXT_SEP, SPACE);
    var ws := Wildcards(exts);
    forall i | 0 <= i < |ws|
      ensures SPACE !in ws[i]
    {
      assert SPACE !in exts[i];
      assert SPACE !in STAR_DOT;
    }
    JoinSplit(ws, SPACE);
    SplitJoin(group, EXT_SEP);
  }

  /**
   * A ';' at the end of the list adds one more filter, `"*."`, for the
   * empty piece after it.
   */
  lemma TrailingSemicolonFilter(filterList: seq<byte>)
    ensures var filters := NameFilters(filterList + [GROUP_SEP]);
      && |filters| == |NameFilters(filterList)| + 1
      && filters[|filters| - 2] == STAR_DOT
  {
    SplitSnoc(filterList, GROUP_SEP, GROUP_SEP);
    var groups := Groups(filterList + [GROUP_SEP]);
    assert groups[|groups| - 1] == [];
    assert Extensions([]) == [[]];
    assert Wildcards([[]]) == [STAR_DOT + []];
  }

  // ----- NFD_QTOpenDialog -----

  const NOPATH_MSG: seq<byte> := "The selected path is out of memory."
  const NOMEM_MSG: seq<byte> := "Out of memory."

  /** The four entry points, by the dialog they ask for. */
  datatype Entry = OpenFile | OpenFiles | SaveFile | PickFolder

  datatype AcceptMode = AcceptOpen | AcceptSave
  datatype FileMode = ExistingFile | ExistingFiles | AnyFile | Directory

  /** How the dialog is set up before it runs. */
  datatype Setup = Setup(accept: AcceptMode, mode: FileMode, nameFilters: Option<seq<seq<byte>>>, directory: Option<seq<byte>>)

  /** The modes each entry point passes. */
  function Modes(entry: Entry): (m: (AcceptMode, FileMode))
    ensures m.0 == AcceptSave <==> entry == SaveFile
  {
    match entry
    case OpenFile => (AcceptOpen, ExistingFile)
    case OpenFiles => (AcceptOpen, ExistingFiles)
    case SaveFile => (AcceptSave, AnyFile)
    case PickFolder => (AcceptOpen, Directory)
  }

  /** The single-path copy: `len + 1` bytes of the Latin-1 text, its NUL included. */
  method CopyEntry(entry: seq<byte>) returns (out: seq<byte>)
    requires NoNul(entry)
    ensures out == entry + [NUL] && NUL in out && CStr(out) == entry
  {
    var len := |entry|;
    var buf := new byte[len + 1];
    MemCpy(buf, 0, entry + [NUL]);
    out := buf[..];
    assert out == entry + [NUL];
    CStrOfTerminated(entry, []);
    assert entry + [NUL] + [] == out;
  }

  /**
   * The path-set build: the sizes are summed, then each entry is copied
   * with its NUL to the next free byte and its offset recorded.
   */
  method PathSetFromSelection(selectedFiles: seq<seq<byte>>) returns (ps: PathSet)
    requires AllNoNul(selectedFiles)
    ensures ps == Pack(selectedFiles)
  {
    var count := |selectedFiles|;
    var indices := new nat[count];
    var bufSize := 0;
    var k := 0;
    while k < count
      invariant k <= count && bufSize == TotalSize(selectedFiles[..k])
    {
      PackNext(selectedFiles, k);
      bufSize := bufSize + |selectedFiles[k]| + 1;
      k := k + 1;
    }
    assert selectedFiles[..count] == selectedFiles;
    var buf := new byte[bufSize];
    GtkPathSet.FillPathSet(selectedFiles, buf, indices);
    ps := PathSet(Some(buf[..]), Some(indices[..]), count);
  }

  /**
   * `NFD_QTOpenDialog` for one entry point. `accepted` is what `exec`
   * returns, `selectedFiles` the dialog's selection as Latin-1 text,
   * `allocOk` whether the output path (single) or the index array
   * (multiple) is allocated. `ps0` is the caller's path set.
   */
  method QtOpenDialog(entry: Entry, filterList: Option<seq<byte>>, defaultPath: Option<seq<byte>>,
                      accepted: bool, selectedFiles: seq<seq<byte>>, allocOk: bool, ps0: PathSet)
    returns (result: NfdResult, outPath: Option<seq<byte>>, ps: PathSet, setup: Setup, message: Option<seq<byte>>)
    requires AllNoNul(selectedFiles)
    ensures setup.accept == Modes(entry).0 && setup.mode == Modes(entry).1 && setup.directory == defaultPath
    ensures setup.nameFilters == (if entry == PickFolder then None else AddedFilters(filterList))
    ensures !accepted || selectedFiles == [] ==> result == Cancel && outPath.None? && ps == ps0 && message.None?
    ensures accepted && selectedFiles != [] && entry != OpenFiles ==>
      && ps == ps0
      && (if allocOk then result == Okay && outPath == Some(selectedFiles[0] + [NUL]) && message.None?
          else result == Error && outPath.None? && message == Some(NOPATH_MSG))
    ensures accepted && selectedFiles != [] && entry == OpenFiles ==>
      && outPath.None?
      && (if allocOk then result == Okay && ps == Pack(selectedFiles) && message.None?
          else result == Error && ps == ps0.(indices := None, count := |selectedFiles|) && message == Some(NOMEM_MSG))
  {
    var modes := Modes(entry);
    var filters := if entry == PickFolder then None else filterList;
    var nameFilters := AddFiltersToDialog(filters);
    setup := Setup(modes.0, modes.1, nameFilters, defaultPath);
    result, outPath, ps, message := Cancel, None, ps0, None;
    if accepted {
      if selectedFiles == [] {
        result := Cancel;
      } else if entry != OpenFiles {
        if !allocOk {
          result, message := Error, Some(NOPATH_MSG);
        } else {
          var out := CopyEntry(selectedFiles[0]);
          result, outPath := Okay, Some(out);
        }
      } else {
        ps := ps.(count := |selectedFiles|);
        if !allocOk {
          ps := ps.(indices := None);
          result, message := Error, Some(NOMEM_MSG);
        } else {
          ps := PathSetFromSelection(selectedFiles);
          result := Okay;
        }
      }
    }
  }

  /** The name filters a filter list sets: none without a list. */
  function AddedFilters(filterList: Option<seq<byte>>): Option<seq<seq<byte>>>
  {
    if filterList.None? then None else Some(NameFilters(filterList.value))
  }
}
