/**
 * ExecuteMigration's phase flags and the whole run: the blob phase when
 * `MigrateBlobs` is "true", then the table phase when `MigrateTables` is "true".
 */
module Migration {

  import opened Storage
  import opened Ordering
  import opened Exclusion
  import opened Paging
  import opened TablePass
  import opened ContainerPass

  /** The configuration values the migrator reads, as plain strings. */
  datatype Settings = Settings(migrateBlobs: string, migrateTables: string, tablesToCreateButNotMigrate: string)

  /** What the migrator reads from the source account. */
  datatype SourceAccount = SourceAccount(tables: seq<Table>, containers: seq<Container>)

  /** `GetSetting(name) == "true"`: exact and case-sensitive. */
  predicate Enabled(setting: string)
  {
    setting == "true"
  }

  function BlobPhase(settings: Settings, source: SourceAccount, target: TargetAccount, now: int): seq<Event>
  {
    if Enabled(settings.migrateBlobs) then BlobPassTrace(SortContainers(source.containers), target, now) else []
  }

  function TablePhase(settings: Settings, source: SourceAccount): seq<Event>
  {
    if Enabled(settings.migrateTables)
    then TablePassTrace(SortTables(source.tables), settings.tablesToCreateButNotMigrate)
    else []
  }

  /** The side effects of a whole run on the target account. */
  function MigrationLog(settings: Settings, source: SourceAccount, target: TargetAccount, now: int): seq<Event>
  {
    BlobPhase(settings, source, target, now) + TablePhase(settings, source)
  }

  function MigrationQueries(settings: Settings, source: SourceAccount): seq<Query>
  {
    if Enabled(settings.migrateTables)
    then TablePassQueries(SortTables(source.tables), settings.tablesToCreateButNotMigrate)
    else []
  }

  function MigrationCounts(retrieved: map<Name, nat>, settings: Settings, source: SourceAccount): map<Name, nat>
  {
    if Enabled(settings.migrateTables)
    then TablePassCounts(retrieved, SortTables(source.tables), settings.tablesToCreateButNotMigrate)
    else retrieved
  }

  /**
   * The two phases act on disjoint resources: what a run does to a table is
   * what the table phase does to it, and what it does to a container is what the
   * blob phase does to it; a disabled phase does nothing.
   */
  lemma PhasesAreIndependent(settings: Settings, source: SourceAccount, target: TargetAccount, now: int, name: Name)
    ensures Project(MigrationLog(settings, source, target, now), TableRes(name))
         == Project(TablePhase(settings, source), TableRes(name))
    ensures Project(MigrationLog(settings, source, target, now), ContainerRes(name))
         == Project(BlobPhase(settings, source, target, now), ContainerRes(name))
    ensures !Enabled(settings.migrateTables) ==>
              Project(MigrationLog(settings, source, target, now), TableRes(name)) == []
              && MigrationQueries(settings, source) == []
    ensures !Enabled(settings.migrateBlobs) ==>
              Project(MigrationLog(settings, source, target, now), ContainerRes(name)) == []
  {
    var blobs := BlobPhase(settings, source, target, now);
    var tables := TablePhase(settings, source);
    ProjectConcat(blobs, tables, TableRes(name));
    ProjectConcat(blobs, tables, ContainerRes(name));
    BlobPassAboutContainers(SortContainers(source.containers), target, now);
    TablePassAboutTables(SortTables(source.tables), settings.tablesToCreateButNotMigrate);
    ProjectNone(blobs, TableRes(name));
    ProjectNone(tables, ContainerRes(name));
    assert [] + Project(tables, TableRes(name)) == Project(tables, TableRes(name));
    assert Project(blobs, ContainerRes(name)) + [] == Project(blobs, ContainerRes(name));
  }

  /** With table migration on and distinct table names, a run does to each source table exactly its CopyTables. */
  lemma TableOutcome(settings: Settings, source: SourceAccount, target: TargetAccount, now: int, t: Table)
    requires Enabled(settings.migrateTables)
    requires DistinctBy(source.tables, TableName)
    requires t in source.tables
    ensures Project(MigrationLog(settings, source, target, now), TableRes(t.name))
         == TableTrace(t, settings.tablesToCreateButNotMigrate)
  {
    var sorted := SortTables(source.tables);
    SortByCorrect(source.tables, TableName);
    assert t in multiset(sorted);
    var i :| 0 <= i < |sorted| && sorted[i] == t;
    PhasesAreIndependent(settings, source, target, now, t.name);
    TablePassProjection(sorted, settings.tablesToCreateButNotMigrate, i);
  }

  /** With blob migration on and distinct container names, a run does to each source container exactly its CopyBlobContainer. */
  lemma ContainerOutcome(settings: Settings, source: SourceAccount, target: TargetAccount, now: int, c: Container)
    requires Enabled(settings.migrateBlobs)
    requires DistinctBy(source.containers, ContainerName)
    requires c in source.containers
    ensures Project(MigrationLog(settings, source, target, now), ContainerRes(c.name))
         == ContainerTrace(c, target, now)
  {
    var sorted := SortContainers(source.containers);
    SortByCorrect(source.containers, ContainerName);
    assert c in multiset(sorted);
    var i :| 0 <= i < |sorted| && sorted[i] == c;
    PhasesAreIndependent(settings, source, target, now, c.name);
    BlobPassProjection(sorted, target, now, i);
  }

  /** An excluded table is created with its permissions, and no entity is written to it. */
  lemma ExcludedTableGetsNoData(settings: Settings, source: SourceAccount, target: TargetAccount, now: int, t: Table)
    requires Enabled(settings.migrateTables)
    requires DistinctBy(source.tables, TableName)
    requires t in source.tables
    requires Excluded(t.name, settings.tablesToCreateButNotMigrate)
    ensures Project(MigrationLog(settings, source, target, now), TableRes(t.name))
         == [Create(TableRes(t.name)), SetPermissions(TableRes(t.name), t.permissions)]
  {
    TableOutcome(settings, source, target, now, t);
  }

  /**
   * A table that is not excluded receives, in order, every entity of every
   * requested page of its query.
   */
  lemma IncludedTableGetsAllData(settings: Settings, source: SourceAccount, target: TargetAccount, now: int, t: Table)
    requires Enabled(settings.migrateTables)
    requires DistinctBy(source.tables, TableName)
    requires t in source.tables
    requires !Excluded(t.name, settings.tablesToCreateButNotMigrate)
    ensures Written(Project(MigrationLog(settings, source, target, now), TableRes(t.name)))
         == Entities(Issued(t.segments))
  {
    TableOutcome(settings, source, target, now, t);
    ExclusionDecidesDataCopy(t, settings.tablesToCreateButNotMigrate);
  }
}
