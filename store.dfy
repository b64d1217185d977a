/**
 * The per-version directories under the versioning root: one directory per
 * version id holding `version_info.json` (a copy of the version's registry
 * record) and the data files written for that version.
 */
module ArtifactStore {
  import opened Frames
  import opened Registry

  /** A stored data file: a parquet file that reads back as a frame, or one that fails to read. */
  datatype Blob = Parquet(frame: Frame) | Unreadable

  /** One version directory: the `version_info.json` copy and the data files by file name. */
  datatype VersionDir = VersionDir(info: VersionRecord, files: map<string, Blob>)

  const ParquetSuffix: string := ".parquet"

  predicate EndsWith(s: string, suffix: string) {
    |suffix| <= |s| && s[|s| - |suffix|..] == suffix
  }

  /** `f"{data_type}_{timestamp}.parquet"`, the timestamp already formatted to the second. */
  function DataFileName(dataType: string, timestamp: string): (name: string)
    ensures EndsWith(name, ParquetSuffix)
    ensures |dataType| < |name| && name[..|dataType|] == dataType
  {
    var name := dataType + "_" + timestamp + ParquetSuffix;
    assert name[|name| - |ParquetSuffix|..] == ParquetSuffix;
    assert name[..|dataType|] == dataType;
    name
  }

  /** The path `add_data_to_version` returns, relative to the versioning root. */
  function DataFilePath(versionId: VersionId, filename: string): string {
    versionId + "/" + filename
  }
}
