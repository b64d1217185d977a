/**
 * The version registry document (`version_registry.json`): an ordered list of
 * version records and a pointer to the latest version.  Every operation of the
 * versioner loads this document, changes it in memory and writes it back whole;
 * this module holds the document's shape and the pure steps applied to it.
 */
module Registry {
  import opened Wrappers

  type VersionId = string

  /** A hex digest of a frame's canonical serialisation. */
  type Digest = string

  /** One attached data file: the descriptor appended to a version's `data_files`. */
  datatype FileInfo = FileInfo(
    filename: string,
    dataType: string,
    createdAt: string,
    rows: nat,
    columns: seq<string>,
    hash: Digest)

  /** The `metadata` of a version record: directory listings taken at creation. */
  datatype Metadata = Metadata(rawFilesCount: nat, processedFilesCount: nat)

  datatype VersionRecord = VersionRecord(
    id: VersionId,
    name: string,
    description: Option<string>,
    parentId: Option<VersionId>,
    createdAt: string,
    dataFiles: seq<FileInfo>,
    metadata: Metadata)

  datatype RegistryDoc = RegistryDoc(
    versions: seq<VersionRecord>,
    latestVersion: Option<VersionId>,
    createdAt: string)

  function Ids(vs: seq<VersionRecord>): set<VersionId> {
    set v | v in vs :: v.id
  }

  predicate UniqueIds(vs: seq<VersionRecord>) {
    forall i, j :: 0 <= i < j < |vs| ==> vs[i].id != vs[j].id
  }

  /** The latest pointer names the version created last, and is None while there is none. */
  predicate LatestIsLast(r: RegistryDoc) {
    if r.versions == [] then r.latestVersion == None
    else r.latestVersion == Some(r.versions[|r.versions| - 1].id)
  }

  /** What every registry written by the versioner satisfies. */
  predicate WellFormed(r: RegistryDoc) {
    UniqueIds(r.versions) && LatestIsLast(r)
  }

  /** The document `_initialize_registry` writes when none exists. */
  function InitialRegistry(now: string): (r: RegistryDoc)
    ensures WellFormed(r)
    ensures r.versions == [] && r.latestVersion == None
  {
    RegistryDoc([], None, now)
  }

  /**
   * The parent a new version gets: the one the caller names, unchecked; when the
   * caller names none, the current latest version if any version exists.
   */
  function ResolveParent(r: RegistryDoc, parent: Option<VersionId>): (p: Option<VersionId>)
    ensures parent.Some? ==> p == parent
    ensures parent.None? && r.versions == [] ==> p == None
    ensures parent.None? && r.versions != [] ==> p == r.latestVersion
  {
    if parent.None? && r.versions != [] then r.latestVersion else parent
  }

  /** On a well-formed registry the implicit parent is the version created last. */
  lemma ImplicitParentIsLastCreated(r: RegistryDoc)
    requires WellFormed(r) && r.versions != []
    ensures ResolveParent(r, None) == Some(r.versions[|r.versions| - 1].id)
  {
  }

  /** `registry["versions"].append(record)` and `registry["latest_version"] = record["id"]`. */
  function AppendVersion(r: RegistryDoc, rec: VersionRecord): (r': RegistryDoc)
    ensures r'.versions == r.versions + [rec]
    ensures r'.latestVersion == Some(rec.id) && r'.createdAt == r.createdAt
  {
    r.(versions := r.versions + [rec], latestVersion := Some(rec.id))
  }

  /** `version["data_files"].append(info)` on the version at `idx`; nothing else changes. */
  function AttachFile(r: RegistryDoc, idx: nat, info: FileInfo): (r': RegistryDoc)
    requires idx < |r.versions|
    ensures |r'.versions| == |r.versions| && r'.latestVersion == r.latestVersion
    ensures r'.versions[idx].dataFiles == r.versions[idx].dataFiles + [info]
    ensures r'.versions[idx] == r.versions[idx].(dataFiles := r'.versions[idx].dataFiles)
    ensures forall j :: 0 <= j < |r.versions| && j != idx ==> r'.versions[j] == r.versions[j]
  {
    var v := r.versions[idx];
    r.(versions := r.versions[idx := v.(dataFiles := v.dataFiles + [info])])
  }

  /** A fresh id keeps the registry well formed, and the new record is the latest. */
  lemma {:induction false} AppendPreservesWellFormed(r: RegistryDoc, rec: VersionRecord)
    requires WellFormed(r) && rec.id !in Ids(r.versions)
    ensures WellFormed(AppendVersion(r, rec))
    ensures Ids(AppendVersion(r, rec).versions) == Ids(r.versions) + {rec.id}
  {
    var vs := AppendVersion(r, rec).versions;
    forall i, j | 0 <= i < j < |vs|
      ensures vs[i].id != vs[j].id
    {
      if j == |vs| - 1 {
        assert r.versions[i] in r.versions;
      }
    }
  }

  /** Attaching a file changes no id and no latest pointer. */
  lemma {:induction false} AttachPreservesWellFormed(r: RegistryDoc, idx: nat, info: FileInfo)
    requires WellFormed(r) && idx < |r.versions|
    ensures WellFormed(AttachFile(r, idx, info))
    ensures Ids(AttachFile(r, idx, info).versions) == Ids(r.versions)
  {
    var vs, vs' := r.versions, AttachFile(r, idx, info).versions;
    assert forall k :: 0 <= k < |vs| ==> vs'[k].id == vs[k].id;
    forall x | x in Ids(vs)
      ensures x in Ids(vs')
    {
      var k :| 0 <= k < |vs| && vs[k].id == x;
      assert vs'[k] in vs';
    }
    forall x | x in Ids(vs')
      ensures x in Ids(vs)
    {
      var k :| 0 <= k < |vs'| && vs'[k].id == x;
      assert vs[k] in vs;
    }
  }

  /**
   * `newer` grows `older` append-only: every earlier record is still there, at
   * the same position, with the same id, name, description, parent, creation
   * time and metadata, and its earlier data files are a prefix of its current ones.
   */
  predicate Extends(older: RegistryDoc, newer: RegistryDoc) {
    && |older.versions| <= |newer.versions|
    && forall i :: 0 <= i < |older.versions| ==>
         && newer.versions[i] == older.versions[i].(dataFiles := newer.versions[i].dataFiles)
         && older.versions[i].dataFiles <= newer.versions[i].dataFiles
  }

  lemma AppendExtends(r: RegistryDoc, rec: VersionRecord)
    ensures Extends(r, AppendVersion(r, rec))
  {
  }

  /** With unique ids, attaching at `idx` changes exactly the version that carries `idx`'s id. */
  lemma AttachFileById(r: RegistryDoc, idx: nat, info: FileInfo)
    requires UniqueIds(r.versions) && idx < |r.versions|
    ensures forall j :: 0 <= j < |r.versions| ==>
      AttachFile(r, idx, info).versions[j] ==
        if r.versions[j].id == r.versions[idx].id
        then r.versions[j].(dataFiles := r.versions[j].dataFiles + [info])
        else r.versions[j]
  {
  }

  lemma AttachExtends(r: RegistryDoc, idx: nat, info: FileInfo)
    requires idx < |r.versions|
    ensures Extends(r, AttachFile(r, idx, info))
  {
  }

  /** Any sequence of creations and attachments is append-only. */
  lemma {:induction false} ExtendsTransitive(a: RegistryDoc, b: RegistryDoc, c: RegistryDoc)
    requires Extends(a, b) && Extends(b, c)
    ensures Extends(a, c)
  {
    forall i | 0 <= i < |a.versions|
      ensures c.versions[i] == a.versions[i].(dataFiles := c.versions[i].dataFiles)
      ensures a.versions[i].dataFiles <= c.versions[i].dataFiles
    {
      assert b.versions[i] == a.versions[i].(dataFiles := b.versions[i].dataFiles);
      assert c.versions[i] == b.versions[i].(dataFiles := c.versions[i].dataFiles);
      var x, y, z := a.versions[i].dataFiles, b.versions[i].dataFiles, c.versions[i].dataFiles;
      assert x == y[..|x|] && y == z[..|y|];
      assert z[..|y|][..|x|] == z[..|x|];
    }
  }

  /**
   * The linear scan of `add_data_to_version`: the position of the first record
   * whose id is `id`, or None when no record has that id.
   */
  method FindVersionIndex(vs: seq<VersionRecord>, id: VersionId) returns (idx: Option<nat>)
    ensures idx.Some? ==> idx.value < |vs| && vs[idx.value].id == id
    ensures idx.Some? ==> forall j :: 0 <= j < idx.value ==> vs[j].id != id
    ensures idx.None? <==> id !in Ids(vs)
  {
    idx := None;
    var i := 0;
    while i < |vs|
      invariant 0 <= i <= |vs|
      invariant forall j :: 0 <= j < i ==> vs[j].id != id
    {
      if vs[i].id == id {
        idx := Some(i);
        break;
      }
      i := i + 1;
    }
    if idx.None? {
      assert forall v :: v in vs ==> v.id != id;
    }
  }
}
