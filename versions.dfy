/** Data versions and table infos: `SnapshotId`, `SnapshotDataVersion`,
    `SnapshotTableInfo` and the bounded version history of
    `SnapshotInfoMixin`. */
module Versions {
  import opened Wrappers
  import opened Categories
  import opened Fingerprints
  import opened Naming

  /** How many data versions `all_versions` keeps. */
  const DATA_VERSION_LIMIT: nat := 10

  datatype SnapshotId = SnapshotId(name: string, identifier: string)

  /** The part of a snapshot that determines where its data lives. */
  datatype DataVersion = DataVersion(
    fingerprint: Fingerprint,
    version: string,
    tempVersion: Option<string>,
    changeCategory: Option<ChangeCategory>,
    physicalSchemaOverride: Option<string>)
  {
    /** Records written by older releases may lack a physical schema; an
        unset or empty one reads as the library's default schema. */
    function PhysicalSchema(): (r: string)
      ensures physicalSchemaOverride.Some? && physicalSchemaOverride.value != "" ==> r == physicalSchemaOverride.value
      ensures physicalSchemaOverride.None? || physicalSchemaOverride.value == "" ==> r == SQLMESH
    {
      OrElse(physicalSchemaOverride, SQLMESH)
    }

    /** A version is new, and needs a backfill, when it is the fingerprint's own. */
    predicate IsNewVersion(h: Hasher) {
      fingerprint.ToVersion(h) == version
    }

    function Id(name: string, h: Hasher): (r: SnapshotId)
      ensures r.name == name
    {
      SnapshotId(name, fingerprint.ToIdentifier(h))
    }
  }

  /** `previous_version`: the most recent previous data version, if any. */
  function PreviousVersion(previous: seq<DataVersion>): (r: Option<DataVersion>)
    ensures r.None? <==> previous == []
    ensures r.Some? ==> r.value == previous[|previous| - 1]
  {
    if previous == [] then None else Some(previous[|previous| - 1])
  }

  /** `all_versions`: the previous versions followed by the current one,
      keeping only the most recent `DATA_VERSION_LIMIT`. */
  function AllVersions(previous: seq<DataVersion>, current: DataVersion): (r: seq<DataVersion>)
    ensures |r| == if |previous| + 1 <= DATA_VERSION_LIMIT then |previous| + 1 else DATA_VERSION_LIMIT
    ensures r == (previous + [current])[|previous| + 1 - |r|..]
    ensures r[|r| - 1] == current
  {
    var all := previous + [current];
    if |all| <= DATA_VERSION_LIMIT then all else all[|all| - DATA_VERSION_LIMIT..]
  }

  /** Adding one more version to a full history drops the oldest and keeps
      the other nine in order. */
  lemma AllVersionsSlides(previous: seq<DataVersion>, current: DataVersion, next: DataVersion)
    requires |previous| + 1 >= DATA_VERSION_LIMIT
    ensures AllVersions(previous + [current], next) == AllVersions(previous, current)[1..] + [next]
  {
    var a := AllVersions(previous, current);
    var b := AllVersions(previous + [current], next);
    assert |a| == DATA_VERSION_LIMIT && |b| == DATA_VERSION_LIMIT;
    assert previous + [current] + [next] == (previous + [current]) + [next];
    forall i | 0 <= i < DATA_VERSION_LIMIT
      ensures b[i] == (a[1..] + [next])[i]
    {
      if i < DATA_VERSION_LIMIT - 1 {
        assert b[i] == (previous + [current] + [next])[|previous| + 2 - DATA_VERSION_LIMIT + i];
        assert a[i + 1] == (previous + [current])[|previous| + 1 - DATA_VERSION_LIMIT + i + 1];
      }
    }
  }

  /** `SnapshotTableInfo`: the frozen, already versioned view of a snapshot. */
  datatype TableInfo = TableInfo(
    name: string,
    fingerprint: Fingerprint,
    version: string,
    tempVersion: Option<string>,
    physicalSchema: string,
    parents: seq<SnapshotId>,
    previousVersions: seq<DataVersion>,
    changeCategory: Option<ChangeCategory>)
  {
    /** `table_name`: the physical table this snapshot reads or writes. */
    function TableName(h: Hasher, isDev: bool, forRead: bool): string {
      ResolvedTableName(physicalSchema, name, changeCategory, tempVersion, fingerprint.ToVersion(h),
                        version, isDev, forRead)
    }

    function CurrentDataVersion(): (r: DataVersion)
      ensures r.fingerprint == fingerprint && r.version == version && r.tempVersion == tempVersion
      ensures r.changeCategory == changeCategory
    {
      DataVersion(fingerprint, version, tempVersion, changeCategory, Some(physicalSchema))
    }

    predicate IsNewVersion(h: Hasher) {
      fingerprint.ToVersion(h) == version
    }

    function AllDataVersions(): seq<DataVersion> {
      AllVersions(previousVersions, CurrentDataVersion())
    }

    function Id(h: Hasher): SnapshotId {
      SnapshotId(name, fingerprint.ToIdentifier(h))
    }
  }

  /** A table info and its data version agree on the version, on whether it
      is new, and on the physical schema, except that an empty schema on the
      table info reads back as the default schema from the data version. */
  lemma TableInfoDataVersion(t: TableInfo, h: Hasher)
    ensures t.CurrentDataVersion().IsNewVersion(h) == t.IsNewVersion(h)
    ensures t.CurrentDataVersion().Id(t.name, h) == t.Id(h)
    ensures t.physicalSchema != "" ==> t.CurrentDataVersion().PhysicalSchema() == t.physicalSchema
    ensures t.physicalSchema == "" ==> t.CurrentDataVersion().PhysicalSchema() == SQLMESH
    ensures t.AllDataVersions()[|t.AllDataVersions()| - 1] == t.CurrentDataVersion()
  {
  }
}
