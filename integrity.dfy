/**
 * The classification `verify_version_integrity` makes of each data file of a
 * version, and the report it aggregates from them.
 */
module Integrity {
  import opened Frames
  import opened Registry
  import opened ArtifactStore

  /** The `status` of one entry of the report's `details`. */
  datatype Status =
    | Verified(rows: nat)                          // "valid": the recomputed hash equals the recorded one
    | HashMismatch(expected: Digest, actual: Digest)  // "invalid"
    | ReadError                                   // "error": the file exists but reading it raised
    | Missing                                     // "missing": no such file

  datatype Detail = Detail(filename: string, status: Status)

  /** The result dictionary: the version-not-found answer or the full report. */
  datatype Report =
    | VersionNotFound
    | Checked(
        versionId: VersionId,
        versionName: string,
        filesChecked: nat,
        filesValid: nat,
        filesInvalid: nat,
        missingFiles: nat,
        details: seq<Detail>,
        valid: bool)
  {
    /** The report's `valid` entry; the not-found answer carries `valid = False`. */
    predicate IsValid() {
      Checked? && valid
    }
  }

  /** What checking one descriptor against the version directory's files finds. */
  function Classify(files: map<string, Blob>, hash: Frame -> Digest, fi: FileInfo): (d: Detail)
    ensures d.filename == fi.filename
    ensures d.status.Missing? <==> fi.filename !in files
    ensures d.status.ReadError? <==> fi.filename in files && files[fi.filename].Unreadable?
    ensures d.status.Verified? <==>
      fi.filename in files && files[fi.filename].Parquet? && hash(files[fi.filename].frame) == fi.hash
    ensures d.status.Verified? ==> d.status.rows == |files[fi.filename].frame.rows|
  {
    if fi.filename !in files then Detail(fi.filename, Missing)
    else match files[fi.filename]
      case Unreadable => Detail(fi.filename, ReadError)
      case Parquet(f) =>
        var actual := hash(f);
        if actual == fi.hash then Detail(fi.filename, Verified(|f.rows|))
        else Detail(fi.filename, HashMismatch(fi.hash, actual))
  }

  /** The details of the descriptors, one per descriptor, in descriptor order. */
  function Details(files: map<string, Blob>, hash: Frame -> Digest, infos: seq<FileInfo>): (ds: seq<Detail>)
    ensures |ds| == |infos|
    ensures forall k :: 0 <= k < |infos| ==> ds[k] == Classify(files, hash, infos[k])
  {
    if infos == [] then []
    else Details(files, hash, infos[..|infos| - 1]) + [Classify(files, hash, infos[|infos| - 1])]
  }

  function CountValid(ds: seq<Detail>): nat {
    if ds == [] then 0 else CountValid(ds[..|ds| - 1]) + (if ds[|ds| - 1].status.Verified? then 1 else 0)
  }

  /** Hash mismatches and read failures both count as invalid. */
  function CountInvalid(ds: seq<Detail>): nat {
    if ds == [] then 0
    else CountInvalid(ds[..|ds| - 1]) + (if ds[|ds| - 1].status.HashMismatch? || ds[|ds| - 1].status.ReadError? then 1 else 0)
  }

  function CountMissing(ds: seq<Detail>): nat {
    if ds == [] then 0 else CountMissing(ds[..|ds| - 1]) + (if ds[|ds| - 1].status.Missing? then 1 else 0)
  }

  lemma CountsSnoc(ds: seq<Detail>, d: Detail)
    ensures CountValid(ds + [d]) == CountValid(ds) + (if d.status.Verified? then 1 else 0)
    ensures CountInvalid(ds + [d]) == CountInvalid(ds) + (if d.status.HashMismatch? || d.status.ReadError? then 1 else 0)
    ensures CountMissing(ds + [d]) == CountMissing(ds) + (if d.status.Missing? then 1 else 0)
  {
    assert (ds + [d])[..|ds|] == ds;
  }

  lemma DetailsSnoc(files: map<string, Blob>, hash: Frame -> Digest, infos: seq<FileInfo>, i: nat)
    requires i < |infos|
    ensures Details(files, hash, infos[..i + 1]) == Details(files, hash, infos[..i]) + [Classify(files, hash, infos[i])]
  {
    assert infos[..i + 1][..i] == infos[..i];
  }

  /** Every detail is counted exactly once. */
  lemma {:induction false} CountsAddUp(ds: seq<Detail>)
    ensures CountValid(ds) + CountInvalid(ds) + CountMissing(ds) == |ds|
  {
    if ds != [] {
      CountsAddUp(ds[..|ds| - 1]);
    }
  }

  /** The report built from a version's details. */
  function Summarize(versionId: VersionId, versionName: string, ds: seq<Detail>): (r: Report)
    ensures r.Checked? && r.details == ds && r.versionId == versionId && r.versionName == versionName
    ensures r.filesChecked == |ds| == r.filesValid + r.filesInvalid + r.missingFiles
    ensures r.filesValid == CountValid(ds) && r.filesInvalid == CountInvalid(ds) && r.missingFiles == CountMissing(ds)
    ensures r.valid <==> r.filesInvalid == 0 && r.missingFiles == 0
  {
    CountsAddUp(ds);
    Checked(versionId, versionName, |ds|, CountValid(ds), CountInvalid(ds), CountMissing(ds), ds,
            CountInvalid(ds) == 0 && CountMissing(ds) == 0)
  }

  /** No invalid and no missing detail means every detail is valid, and conversely. */
  lemma {:induction false} NoFaultsMeansAllValid(ds: seq<Detail>)
    ensures CountInvalid(ds) == 0 && CountMissing(ds) == 0 <==>
            forall k :: 0 <= k < |ds| ==> ds[k].status.Verified?
  {
    if ds != [] {
      var init := ds[..|ds| - 1];
      NoFaultsMeansAllValid(init);
      assert forall k :: 0 <= k < |init| ==> init[k] == ds[k];
    }
  }

  /** The report on a version is valid exactly when every descriptor's file is present and its hash matches. */
  lemma ReportValidIff(files: map<string, Blob>, hash: Frame -> Digest, id: VersionId, name: string, infos: seq<FileInfo>)
    ensures Summarize(id, name, Details(files, hash, infos)).valid <==>
      forall k :: 0 <= k < |infos| ==>
        && infos[k].filename in files
        && files[infos[k].filename].Parquet?
        && hash(files[infos[k].filename].frame) == infos[k].hash
  {
    var ds := Details(files, hash, infos);
    NoFaultsMeansAllValid(ds);
  }

  /** A descriptor whose file is gone makes the report count it missing and not valid. */
  lemma {:induction false} MissingFileFailsReport(files: map<string, Blob>, hash: Frame -> Digest, id: VersionId, name: string, infos: seq<FileInfo>, k: nat)
    requires k < |infos| && infos[k].filename !in files
    ensures Summarize(id, name, Details(files, hash, infos)).missingFiles > 0
    ensures !Summarize(id, name, Details(files, hash, infos)).valid
  {
    MissingCounted(Details(files, hash, infos), k);
  }

  lemma {:induction false} MissingCounted(ds: seq<Detail>, k: nat)
    requires k < |ds| && ds[k].status.Missing?
    ensures CountMissing(ds) > 0
  {
    if k < |ds| - 1 {
      MissingCounted(ds[..|ds| - 1], k);
    }
  }

  lemma {:induction false} InvalidCounted(ds: seq<Detail>, k: nat)
    requires k < |ds| && (ds[k].status.HashMismatch? || ds[k].status.ReadError?)
    ensures CountInvalid(ds) > 0
  {
    if k < |ds| - 1 {
      InvalidCounted(ds[..|ds| - 1], k);
    }
  }

  /**
   * A stored frame whose recomputed hash differs from the recorded one (the file
   * was changed without updating the registry) is counted invalid and fails the report.
   */
  lemma CorruptFileFailsReport(files: map<string, Blob>, hash: Frame -> Digest, id: VersionId, name: string, infos: seq<FileInfo>, k: nat)
    requires k < |infos| && infos[k].filename in files && files[infos[k].filename].Parquet?
    requires hash(files[infos[k].filename].frame) != infos[k].hash
    ensures Details(files, hash, infos)[k].status ==
            HashMismatch(infos[k].hash, hash(files[infos[k].filename].frame))
    ensures Summarize(id, name, Details(files, hash, infos)).filesInvalid > 0
    ensures !Summarize(id, name, Details(files, hash, infos)).valid
  {
    InvalidCounted(Details(files, hash, infos), k);
  }
}
