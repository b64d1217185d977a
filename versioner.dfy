/**
 * `DataVersioner`: the registry document and the per-version directories it
 * manages, updated in place by creating versions and attaching data files, and
 * read back by the history, latest-version, data and integrity queries.
 */
module Versioner {
  import opened Wrappers
  import opened Frames
  import opened Registry
  import opened ArtifactStore
  import opened Integrity
  import opened VersionReader

  /** Every registered version has a directory whose `version_info.json` equals its registry record. */
  predicate DirsMirrorRegistry(r: RegistryDoc, dirs: map<VersionId, VersionDir>) {
    forall v :: v in r.versions ==> v.id in dirs && dirs[v.id].info == v
  }

  /** Rewriting the attached version's `version_info.json` keeps the directories mirroring the registry. */
  lemma DirsMirrorAfterAttach(r: RegistryDoc, dirs: map<VersionId, VersionDir>, i: nat, info: FileInfo,
                              dirs': map<VersionId, VersionDir>)
    requires WellFormed(r) && i < |r.versions| && DirsMirrorRegistry(r, dirs)
    requires dirs'.Keys == dirs.Keys
    requires dirs'[r.versions[i].id].info == AttachFile(r, i, info).versions[i]
    requires forall k :: k in dirs' && k != r.versions[i].id ==> dirs'[k] == dirs[k]
    ensures DirsMirrorRegistry(AttachFile(r, i, info), dirs')
  {
    var vs, vs' := r.versions, AttachFile(r, i, info).versions;
    forall v | v in vs'
      ensures v.id in dirs' && dirs'[v.id].info == v
    {
      var j :| 0 <= j < |vs'| && vs'[j] == v;
      if j != i {
        assert vs[j] in vs;
        assert vs[j].id != vs[i].id;
      }
    }
  }

  class DataVersioner {
    /** `_calculate_data_hash`: a digest of the frame's canonical serialisation, left uninterpreted. */
    const hash: Frame -> Digest

    /** The contents of `version_registry.json`. */
    var registry: RegistryDoc

    /** The version directories under the versioning root, by version id. */
    var dirs: map<VersionId, VersionDir>

    ghost predicate Valid()
      reads this
    {
      WellFormed(registry) && DirsMirrorRegistry(registry, dirs)
    }

    /**
     * `__init__` with `_initialize_registry`: an existing registry document is
     * kept; when there is none, an empty one stamped `now` is written.
     */
    constructor (hash: Frame -> Digest, onDisk: Option<RegistryDoc>, dirs: map<VersionId, VersionDir>, now: string)
      requires onDisk.Some? ==> WellFormed(onDisk.value) && DirsMirrorRegistry(onDisk.value, dirs)
      ensures Valid()
      ensures this.hash == hash && this.dirs == dirs
      ensures registry == if onDisk.Some? then onDisk.value else InitialRegistry(now)
    {
      this.hash := hash;
      this.dirs := dirs;
      registry := if onDisk.Some? then onDisk.value else InitialRegistry(now);
    }

    /**
     * `create_version`: appends a record with the fresh id, the resolved parent
     * and no data files, makes it the latest version, and writes its directory's
     * `version_info.json`.  `freshId` is the uuid the source draws; `now` and the
     * two directory counts are the clock and `os.listdir` readings.
     */
    method CreateVersion(name: string, description: Option<string>, parentVersionId: Option<VersionId>,
                         freshId: VersionId, now: string, metadata: Metadata)
      returns (versionId: VersionId)
      requires Valid() && freshId !in Ids(registry.versions)
      modifies this
      ensures Valid() && versionId == freshId
      ensures registry == AppendVersion(old(registry),
        VersionRecord(freshId, name, description, ResolveParent(old(registry), parentVersionId), now, [], metadata))
      ensures Extends(old(registry), registry)
      ensures dirs == old(dirs)[freshId := VersionDir(registry.versions[|registry.versions| - 1],
                                   if freshId in old(dirs) then old(dirs)[freshId].files else map[])]
    {
      var doc := registry;
      versionId := freshId;
      // os.makedirs(version_dir, exist_ok=True): an existing directory keeps its files
      var files := if versionId in dirs then dirs[versionId].files else map[];
      var parent := ResolveParent(doc, parentVersionId);
      var record := VersionRecord(versionId, name, description, parent, now, [], metadata);
      AppendPreservesWellFormed(doc, record);
      AppendExtends(doc, record);
      doc := AppendVersion(doc, record);
      registry := doc;
      dirs := dirs[versionId := VersionDir(record, files)];
      forall v | v in registry.versions
        ensures v.id in dirs && dirs[v.id].info == v
      {
        if v != record {
          assert v in old(registry).versions;
        }
      }
    }

    /**
     * `add_data_to_version`: for an unknown version nothing is written and the
     * answer is None.  Otherwise the frame is written to
     * `<data_type>_<timestamp>.parquet` in the version's directory (replacing a
     * file of that name), a descriptor with its row count, columns and hash is
     * appended to that version alone, and the registry and the version's
     * `version_info.json` are rewritten.
     */
    method AddDataToVersion(versionId: VersionId, frame: Frame, dataType: string, timestamp: string, now: string)
      returns (path: Option<string>)
      requires Valid()
      modifies this
      ensures Valid() && Extends(old(registry), registry)
      ensures versionId !in Ids(old(registry).versions) ==>
        path == None && registry == old(registry) && dirs == old(dirs)
      ensures versionId in Ids(old(registry).versions) ==>
        var filename := DataFileName(dataType, timestamp);
        var info := FileInfo(filename, dataType, now, |frame.rows|, frame.columns, hash(frame));
        && path == Some(DataFilePath(versionId, filename))
        && registry.latestVersion == old(registry).latestVersion
        && registry.createdAt == old(registry).createdAt
        && |registry.versions| == |old(registry).versions|
        && (forall j :: 0 <= j < |registry.versions| ==>
              registry.versions[j] ==
                if old(registry).versions[j].id == versionId
                then old(registry).versions[j].(dataFiles := old(registry).versions[j].dataFiles + [info])
                else old(registry).versions[j])
        && dirs.Keys == old(dirs).Keys
        && dirs[versionId].files == old(dirs)[versionId].files[filename := Parquet(frame)]
        && (forall k :: k in dirs && k != versionId ==> dirs[k] == old(dirs)[k])
        && Classify(dirs[versionId].files, hash, info).status == Verified(|frame.rows|)
    {
      var doc := registry;
      var found := FindVersionIndex(doc.versions, versionId);
      if found.None? {
        return None;
      }
      var i := found.value;
      var filename := DataFileName(dataType, timestamp);
      var dir := dirs[versionId];
      dirs := dirs[versionId := dir.(files := dir.files[filename := Parquet(frame)])];
      var info := FileInfo(filename, dataType, now, |frame.rows|, frame.columns, hash(frame));
      AttachPreservesWellFormed(doc, i, info);
      AttachExtends(doc, i, info);
      doc := AttachFile(doc, i, info);
      registry := doc;
      dirs := dirs[versionId := dirs[versionId].(info := doc.versions[i])];
      path := Some(DataFilePath(versionId, filename));
      AttachFileById(old(registry), i, info);
      DirsMirrorAfterAttach(old(registry), old(dirs), i, info, dirs);
    }

    /** `get_version_history`: every version record, in creation order. */
    method GetVersionHistory() returns (versions: seq<VersionRecord>)
      requires Valid()
      ensures versions == registry.versions && UniqueIds(versions)
    {
      versions := registry.versions;
    }

    /** `get_latest_version`: the id of the version created last, None before the first. */
    method GetLatestVersion() returns (latest: Option<VersionId>)
      requires Valid()
      ensures latest.None? <==> registry.versions == []
      ensures latest.Some? ==> latest.value == registry.versions[|registry.versions| - 1].id
    {
      latest := registry.latestVersion;
    }

    /**
     * `get_version_data`: the frames of the version's loadable data files of the
     * requested type, concatenated in attachment order; the empty frame when the
     * version has no directory or nothing matches; a failure when a file cannot be read.
     */
    method GetVersionData(versionId: VersionId, dataType: Option<string>) returns (r: Result<Frame>)
      ensures r == VersionData(dirs, versionId, dataType)
    {
      if versionId !in dirs {
        return Success(Empty);
      }
      var dir := dirs[versionId];
      var dataFiles := SelectByType(dir.info.dataFiles, dataType);
      if dataFiles == [] {
        return Success(Empty);
      }
      var dfs: seq<Frame> := [];
      var i := 0;
      while i < |dataFiles|
        invariant 0 <= i <= |dataFiles|
        invariant LoadFrames(dir.files, dataFiles[..i]) == Success(dfs)
      {
        var fi := dataFiles[i];
        assert dataFiles[..i + 1][..i] == dataFiles[..i];
        if fi.filename in dir.files && EndsWith(fi.filename, ParquetSuffix) {
          match dir.files[fi.filename]
          case Unreadable =>
            LoadFailurePersists(dir.files, dataFiles, i + 1);
            return Failure(fi.filename);
          case Parquet(f) =>
            dfs := dfs + [f];
        }
        i := i + 1;
      }
      assert dataFiles[..i] == dataFiles;
      r := Success(ConcatAll(dfs));
    }

    /**
     * `verify_version_integrity`: for a version without a directory, the
     * not-found answer; otherwise each descriptor of the version's
     * `version_info.json` classified against its stored file, with the counts.
     */
    method VerifyVersionIntegrity(versionId: VersionId) returns (report: Report)
      ensures versionId !in dirs ==> report == VersionNotFound
      ensures versionId in dirs ==>
        var dir := dirs[versionId];
        report == Summarize(versionId, dir.info.name, Details(dir.files, hash, dir.info.dataFiles))
    {
      if versionId !in dirs {
        return VersionNotFound;
      }
      var dir := dirs[versionId];
      var infos := dir.info.dataFiles;
      var filesChecked, filesValid, filesInvalid, missingFiles := 0, 0, 0, 0;
      var details: seq<Detail> := [];
      var i := 0;
      while i < |infos|
        invariant 0 <= i <= |infos|
        invariant details == Details(dir.files, hash, infos[..i])
        invariant filesChecked == i
        invariant filesValid == CountValid(details)
        invariant filesInvalid == CountInvalid(details)
        invariant missingFiles == CountMissing(details)
      {
        var fi := infos[i];
        filesChecked := filesChecked + 1;
        var detail: Detail;
        if fi.filename !in dir.files {
          missingFiles := missingFiles + 1;
          detail := Detail(fi.filename, Missing);
        } else {
          match dir.files[fi.filename]
          case Unreadable =>
            filesInvalid := filesInvalid + 1;
            detail := Detail(fi.filename, ReadError);
          case Parquet(df) =>
            var currentHash := hash(df);
            if currentHash == fi.hash {
              filesValid := filesValid + 1;
              detail := Detail(fi.filename, Verified(|df.rows|));
            } else {
              filesInvalid := filesInvalid + 1;
              detail := Detail(fi.filename, HashMismatch(fi.hash, currentHash));
            }
        }
        assert detail == Classify(dir.files, hash, fi);
        DetailsSnoc(dir.files, hash, infos, i);
        CountsSnoc(details, detail);
        details := details + [detail];
        i := i + 1;
      }
      assert infos[..i] == infos;
      report := Checked(versionId, dir.info.name, filesChecked, filesValid, filesInvalid, missingFiles, details,
                        filesInvalid == 0 && missingFiles == 0);
    }
  }
}
