/**
 * What `get_version_data` reads back for a version: the descriptors of the
 * requested data type, in attachment order, and the frames of those of their
 * files that exist and are parquet files, concatenated.
 */
module VersionReader {
  import opened Wrappers
  import opened Frames
  import opened Registry
  import opened ArtifactStore

  /** `if data_type:` — no type, or the empty string, selects every descriptor. */
  predicate Selects(dataType: Option<string>, fi: FileInfo) {
    dataType.None? || dataType.value == "" || fi.dataType == dataType.value
  }

  /** `[f for f in data_files if f["data_type"] == data_type]`, applied only when a type is given. */
  function SelectByType(infos: seq<FileInfo>, dataType: Option<string>): (r: seq<FileInfo>)
    ensures |r| <= |infos|
    ensures forall fi :: fi in r <==> fi in infos && Selects(dataType, fi)
    ensures r == [] <==> forall k :: 0 <= k < |infos| ==> !Selects(dataType, infos[k])
  {
    if infos == [] then []
    else
      var init := SelectByType(infos[..|infos| - 1], dataType);
      var last := infos[|infos| - 1];
      assert infos == infos[..|infos| - 1] + [last];
      if Selects(dataType, last) then init + [last] else init
  }

  /** Selection keeps relative order: selecting from a concatenation concatenates the selections. */
  lemma {:induction false} SelectDistributes(a: seq<FileInfo>, b: seq<FileInfo>, dataType: Option<string>)
    ensures SelectByType(a + b, dataType) == SelectByType(a, dataType) + SelectByType(b, dataType)
  {
    if b == [] {
      assert a + b == a;
    } else {
      var binit := b[..|b| - 1];
      assert (a + b)[..|a + b| - 1] == a + binit;
      assert (a + b)[|a + b| - 1] == b[|b| - 1];
      SelectDistributes(a, binit, dataType);
    }
  }

  /** A descriptor `get_version_data` loads: its file exists and has the parquet extension. */
  predicate Loadable(files: map<string, Blob>, fi: FileInfo) {
    fi.filename in files && EndsWith(fi.filename, ParquetSuffix)
  }

  /**
   * The frames stored for the loadable descriptors whose file reads as a frame,
   * one per such descriptor, in descriptor order.
   */
  function LoadableFrames(files: map<string, Blob>, infos: seq<FileInfo>): (fs: seq<Frame>)
    ensures |fs| <= |infos|
    ensures forall f :: f in fs <==>
      exists k :: 0 <= k < |infos| && Loadable(files, infos[k]) && files[infos[k].filename] == Parquet(f)
  {
    if infos == [] then []
    else
      var fi := infos[0];
      var rest := LoadableFrames(files, infos[1..]);
      assert forall k :: 0 < k < |infos| ==> infos[k] == infos[1..][k - 1];
      if Loadable(files, fi) && files[fi.filename].Parquet? then [files[fi.filename].frame] + rest else rest
  }

  lemma {:induction false} LoadableFramesSnoc(files: map<string, Blob>, infos: seq<FileInfo>, fi: FileInfo)
    ensures LoadableFrames(files, infos + [fi]) ==
      LoadableFrames(files, infos) +
        if Loadable(files, fi) && files[fi.filename].Parquet? then [files[fi.filename].frame] else []
  {
    if infos == [] {
      assert [fi][1..] == [];
    } else {
      assert (infos + [fi])[1..] == infos[1..] + [fi];
      LoadableFramesSnoc(files, infos[1..], fi);
    }
  }

  /**
   * The `dfs` loop: the frames of the loadable descriptors in order, skipping the
   * others; reading an unreadable file raises, ending the load.
   */
  function LoadFrames(files: map<string, Blob>, infos: seq<FileInfo>): (r: Result<seq<Frame>>)
    ensures r.Success? ==> r.value == LoadableFrames(files, infos)
  {
    if infos == [] then Success([])
    else
      var fi := infos[|infos| - 1];
      LoadableFramesSnoc(files, infos[..|infos| - 1], fi);
      assert infos[..|infos| - 1] + [fi] == infos;
      match LoadFrames(files, infos[..|infos| - 1])
      case Failure(e) => Failure(e)
      case Success(fs) =>
        if Loadable(files, fi) then
          match files[fi.filename]
          case Parquet(f) => Success(fs + [f])
          case Unreadable => Failure(fi.filename)
        else Success(fs)
  }

  /** Loading fails exactly when some loadable descriptor's file cannot be read. */
  lemma {:induction false} LoadFailsIff(files: map<string, Blob>, infos: seq<FileInfo>)
    ensures LoadFrames(files, infos).Failure? <==>
      exists k :: 0 <= k < |infos| && Loadable(files, infos[k]) && files[infos[k].filename].Unreadable?
  {
    if infos != [] {
      var init := infos[..|infos| - 1];
      LoadFailsIff(files, init);
      assert forall k :: 0 <= k < |init| ==> init[k] == infos[k];
    }
  }

  /** A descriptor whose file is absent or not a parquet file is skipped: it changes nothing. */
  lemma SkipUnloadable(files: map<string, Blob>, infos: seq<FileInfo>, fi: FileInfo)
    requires !Loadable(files, fi)
    ensures LoadFrames(files, infos + [fi]) == LoadFrames(files, infos)
  {
    assert (infos + [fi])[..|infos|] == infos;
  }

  /** Once a prefix of the descriptors fails to load, the whole list fails with the same error. */
  lemma {:induction false} LoadFailurePersists(files: map<string, Blob>, infos: seq<FileInfo>, i: nat)
    requires i <= |infos| && LoadFrames(files, infos[..i]).Failure?
    ensures LoadFrames(files, infos) == LoadFrames(files, infos[..i])
    decreases |infos| - i
  {
    if i < |infos| {
      assert infos[..i + 1][..i] == infos[..i];
      LoadFailurePersists(files, infos, i + 1);
    } else {
      assert infos[..i] == infos;
    }
  }

  /** Files no descriptor names do not affect the load. */
  lemma {:induction false} LoadIgnoresUnnamedFiles(files: map<string, Blob>, infos: seq<FileInfo>, filename: string, b: Blob)
    requires forall fi :: fi in infos ==> fi.filename != filename
    ensures LoadFrames(files[filename := b], infos) == LoadFrames(files, infos)
  {
    if infos != [] {
      var init := infos[..|infos| - 1];
      assert forall fi :: fi in init ==> fi in infos;
      LoadIgnoresUnnamedFiles(files, init, filename, b);
      assert infos[|infos| - 1] in infos;
    }
  }

  /**
   * What reading an existing version directory gives.  The source's two early
   * returns of an empty frame (no descriptor selected, no file loaded) are the
   * concatenation of no frames.
   */
  function ReadDir(dir: VersionDir, dataType: Option<string>): Result<Frame> {
    match LoadFrames(dir.files, SelectByType(dir.info.dataFiles, dataType))
    case Failure(e) => Failure(e)
    case Success(fs) => Success(ConcatAll(fs))
  }

  /** `get_version_data`: a version without a directory reads as the empty frame. */
  function VersionData(dirs: map<VersionId, VersionDir>, versionId: VersionId, dataType: Option<string>): Result<Frame> {
    if versionId !in dirs then Success(Empty) else ReadDir(dirs[versionId], dataType)
  }

  /** With no descriptor of the requested type the result is the empty frame. */
  lemma NoMatchReadsEmpty(dir: VersionDir, dataType: Option<string>)
    requires forall fi :: fi in dir.info.dataFiles ==> !Selects(dataType, fi)
    ensures ReadDir(dir, dataType) == Success(Empty)
  {
    assert forall k :: 0 <= k < |dir.info.dataFiles| ==> dir.info.dataFiles[k] in dir.info.dataFiles;
  }

  /** The directory after one attachment: the descriptor appended and its file written. */
  function Attached(dir: VersionDir, fi: FileInfo, f: Frame): VersionDir {
    VersionDir(dir.info.(dataFiles := dir.info.dataFiles + [fi]), dir.files[fi.filename := Parquet(f)])
  }

  lemma SelectSnoc(infos: seq<FileInfo>, fi: FileInfo, dataType: Option<string>)
    ensures SelectByType(infos + [fi], dataType) ==
      SelectByType(infos, dataType) + (if Selects(dataType, fi) then [fi] else [])
  {
    assert (infos + [fi])[..|infos|] == infos;
  }

  /** One more loadable descriptor whose file holds `f` appends `f` to the loaded frames. */
  lemma LoadSnoc(files: map<string, Blob>, infos: seq<FileInfo>, fi: FileInfo, f: Frame)
    requires Loadable(files, fi) && files[fi.filename] == Parquet(f)
    requires LoadFrames(files, infos).Success?
    ensures LoadFrames(files, infos + [fi]) == Success(LoadFrames(files, infos).value + [f])
  {
    assert (infos + [fi])[..|infos|] == infos;
  }

  /**
   * Attaching a frame under a file name no earlier descriptor uses appends its
   * rows, after all earlier rows, to what the version reads back for its type,
   * and leaves every other type's data as it was.
   */
  lemma AttachAppendsRows(dir: VersionDir, fi: FileInfo, f: Frame, dataType: Option<string>)
    requires EndsWith(fi.filename, ParquetSuffix)
    requires forall g :: g in dir.info.dataFiles ==> g.filename != fi.filename
    requires ReadDir(dir, dataType).Success?
    ensures ReadDir(Attached(dir, fi, f), dataType).Success?
    ensures Selects(dataType, fi) ==>
      ReadDir(Attached(dir, fi, f), dataType).value.rows == ReadDir(dir, dataType).value.rows + f.rows
    ensures !Selects(dataType, fi) ==> ReadDir(Attached(dir, fi, f), dataType) == ReadDir(dir, dataType)
  {
    var dir' := Attached(dir, fi, f);
    var sel := SelectByType(dir.info.dataFiles, dataType);
    SelectSnoc(dir.info.dataFiles, fi, dataType);
    LoadIgnoresUnnamedFiles(dir.files, sel, fi.filename, Parquet(f));
    var fs := LoadFrames(dir.files, sel).value;
    assert LoadFrames(dir'.files, sel) == Success(fs);
    if Selects(dataType, fi) {
      LoadSnoc(dir'.files, sel, fi, f);
      assert LoadFrames(dir'.files, SelectByType(dir'.info.dataFiles, dataType)) == Success(fs + [f]);
      ConcatAllContents(fs);
      ConcatAllContents(fs + [f]);
      FlattenRowsSnoc(fs, f);
    }
  }

  /** A type no descriptor carries selects nothing. */
  lemma SelectAbsentType(infos: seq<FileInfo>, dataType: string)
    requires dataType != ""
    requires forall g :: g in infos ==> g.dataType != dataType
    ensures SelectByType(infos, Some(dataType)) == []
  {
    forall k | 0 <= k < |infos|
      ensures !Selects(Some(dataType), infos[k])
    {
      assert infos[k] in infos;
    }
  }

  /** A single loadable descriptor whose file holds `f` loads as `[f]`. */
  lemma LoadSingle(files: map<string, Blob>, fi: FileInfo, f: Frame)
    requires Loadable(files, fi) && files[fi.filename] == Parquet(f)
    ensures LoadFrames(files, [fi]) == Success([f])
  {
    var s := [fi];
    assert s[..|s| - 1] == [] && s[|s| - 1] == fi;
    assert LoadFrames(files, s[..|s| - 1]) == Success([]);
    assert [] + [f] == [f];
  }

  /** A frame stored as the only descriptor of its type reads back unchanged. */
  lemma SingleArtifactRoundTrip(dir: VersionDir, fi: FileInfo, f: Frame)
    requires EndsWith(fi.filename, ParquetSuffix) && fi.dataType != ""
    requires forall g :: g in dir.info.dataFiles ==> g.dataType != fi.dataType && g.filename != fi.filename
    ensures ReadDir(Attached(dir, fi, f), Some(fi.dataType)) == Success(f)
  {
    var t := Some(fi.dataType);
    var dir' := Attached(dir, fi, f);
    SelectAbsentType(dir.info.dataFiles, fi.dataType);
    SelectSnoc(dir.info.dataFiles, fi, t);
    assert SelectByType(dir'.info.dataFiles, t) == [fi];
    LoadSingle(dir'.files, fi, f);
  }
}
