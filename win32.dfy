/**
 * What the two legacy Win32 backends share: the `OPENFILENAME` request
 * they hand to `GetOpenFileName`/`GetSaveFileName`, and the paths a
 * multiple selection stands for (the dialog returns the directory and then
 * the bare file names; each name is joined to the directory with a
 * backslash).
 */
module Win32 {
  import opened Bytes
  import opened Nfd
  import opened Common
  import opened Wrappers

  const BACKSLASH: byte := '\\'

  /** `dir + "\\" + file` for each file, in selection order. */
  function DirFiles(dir: seq<byte>, files: seq<seq<byte>>): (paths: seq<seq<byte>>)
    ensures |paths| == |files|
    ensures forall i :: 0 <= i < |files| ==> paths[i] == dir + [BACKSLASH] + files[i]
  {
    seq(|files|, i requires 0 <= i < |files| => dir + [BACKSLASH] + files[i])
  }

  /** Each joined path takes its directory, the separator, its name and one NUL. */
  lemma DirFilesStep(dir: seq<byte>, files: seq<seq<byte>>, i: nat)
    requires i < |files|
    ensures TotalSize(DirFiles(dir, files)[..i + 1]) == TotalSize(DirFiles(dir, files)[..i]) + |dir| + |files[i]| + 2
  {
    OffsetStep(DirFiles(dir, files), i);
  }

  /** The packed joined paths give back `dir\file` for each selected file. */
  lemma DirFilesRecovered(dir: seq<byte>, files: seq<seq<byte>>)
    requires NoNul(dir) && AllNoNul(files)
    ensures GetCount(Pack(DirFiles(dir, files))) == |files|
    ensures forall i :: 0 <= i < |files| ==>
      CanGetPath(Pack(DirFiles(dir, files)), i) && GetPath(Pack(DirFiles(dir, files)), i) == dir + [BACKSLASH] + files[i]
  {
    var paths := DirFiles(dir, files);
    forall i | 0 <= i < |paths|
      ensures NoNul(paths[i])
    {
      assert paths[i] == dir + [BACKSLASH] + files[i];
      assert NoNul(files[i]);
    }
    PackRecovers(paths);
  }

  /** The three dialog kinds (`LegacyWinNfdModeEnum`, `LEGACY_OPEN`/`LEGACY_SAVE`/`LEGACY_MULTI`). */
  datatype Mode = Open | Save | Multi

  /** The `OFN_*` flag bits the backends set. */
  datatype OfnFlag = Explorer | HideReadOnly | PathMustExist | FileMustExist | AllowMultiSelect | OverwritePrompt

  const BASE_FLAGS: set<OfnFlag> := {Explorer, HideReadOnly, PathMustExist, FileMustExist}

  /** The flags for a mode: the four base flags, plus multi-select for `Multi` and the overwrite prompt for `Save`. */
  function Flags(mode: Mode): (flags: set<OfnFlag>)
    ensures BASE_FLAGS <= flags <= BASE_FLAGS + {AllowMultiSelect, OverwritePrompt}
    ensures AllowMultiSelect in flags <==> mode == Multi
    ensures OverwritePrompt in flags <==> mode == Save
  {
    BASE_FLAGS + (if mode == Multi then {AllowMultiSelect} else {}) + (if mode == Save then {OverwritePrompt} else {})
  }

  /** `nMaxFile`: the dialog writes into a 2048-character buffer. */
  const MAX_FILE: nat := 2048

  /**
   * The fields of the `OPENFILENAME` structure that depend on the call:
   * which dialog is shown (`GetSaveFileName` only in `Save` mode), the
   * flags, the filter and the initial directory (`None`: a null pointer).
   * `nFilterIndex` is always 1 and `nMaxFile` always `MAX_FILE`.
   */
  datatype DialogRequest = DialogRequest(save: bool, flags: set<OfnFlag>, filter: Option<seq<byte>>, initialDir: Option<seq<byte>>)

  /** The request for a mode, given the filter text and initial directory handed over. */
  function Request(mode: Mode, filter: Option<seq<byte>>, initialDir: Option<seq<byte>>): DialogRequest
  {
    DialogRequest(mode == Save, Flags(mode), filter, initialDir)
  }

  /** A C string argument that is non-null and not empty (`p && *p`). */
  predicate Given(p: Option<seq<byte>>)
  {
    p.Some? && p.value != []
  }

  /** The initial directory the dialog receives: a copy of a non-empty default path, otherwise a null pointer. */
  function DialogDir(defaultPath: Option<seq<byte>>): Option<seq<byte>>
  {
    if Given(defaultPath) then defaultPath else None
  }
}
