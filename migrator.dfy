/**
 * The migrator object: its two pieces of mutable state (`queries`, the
 * requests issued, and `retrieved`, the per-table counter) and the side effects
 * it causes on the target account (`trace`), updated step by step by the same
 * methods as the original, each proved against the functions of TablePass,
 * ContainerPass and Migration.
 */
module Migrator {

  import opened Wrappers
  import opened Storage
  import opened Exclusion
  import opened BlobDiff
  import opened Paging
  import opened TablePass
  import opened ContainerPass
  import opened Migration

  class StorageAccountMigrator {

    /** Every segmented query request issued, in order. */
    var queries: seq<Query>
    /** Entities retrieved so far, per table name. */
    var retrieved: map<Name, nat>
    /** The side effects on the target account, in order. */
    var trace: seq<Event>

    constructor ()
      ensures queries == [] && retrieved == map[] && trace == []
    {
      queries := [];
      retrieved := map[];
      trace := [];
    }

    /** The blob phase when `MigrateBlobs` is "true", then the table phase when `MigrateTables` is "true". */
    method ExecuteMigration(settings: Settings, source: SourceAccount, target: TargetAccount, now: int)
      modifies this
      ensures trace == old(trace) + MigrationLog(settings, source, target, now)
      ensures queries == old(queries) + MigrationQueries(settings, source)
      ensures retrieved == MigrationCounts(old(retrieved), settings, source)
    {
      var migrateBlobs := settings.migrateBlobs == "true";
      var migrateTables := settings.migrateTables == "true";
      if migrateBlobs {
        CopyBlobContainersFromSource(source.containers, target, now);
      }
      ghost var afterBlobs := trace;
      if migrateTables {
        CopyTableStorageFromSource(source.tables, settings.tablesToCreateButNotMigrate);
      }
      assert trace == afterBlobs + TablePhase(settings, source);
      AppendAssoc(old(trace), BlobPhase(settings, source, target, now), TablePhase(settings, source));
    }

    // ---------------------------------------------------------------- tables

    /** The effects of copying the tables `done`, on top of the state `t0`, `q0`, `r0`. */
    ghost predicate CopiedFrom(t0: seq<Event>, q0: seq<Query>, r0: map<Name, nat>, done: seq<Table>, omitSetting: string)
      reads this
    {
      && trace == t0 + TablePassTrace(done, omitSetting)
      && queries == q0 + TablePassQueries(done, omitSetting)
      && retrieved == TablePassCounts(r0, done, omitSetting)
    }

    /** Copies every source table in name order. */
    method CopyTableStorageFromSource(tables: seq<Table>, omitSetting: string)
      modifies this
      ensures CopiedFrom(old(trace), old(queries), old(retrieved), SortTables(tables), omitSetting)
    {
      var cloudTables := SortTables(tables);
      CopyEachTable(cloudTables, omitSetting);
    }

    /** The `foreach` over the ordered tables. */
    method CopyEachTable(cloudTables: seq<Table>, omitSetting: string)
      modifies this
      ensures CopiedFrom(old(trace), old(queries), old(retrieved), cloudTables, omitSetting)
    {
      ghost var done: seq<Table> := [];
      for i := 0 to |cloudTables|
        invariant done == cloudTables[..i]
        invariant CopiedFrom(old(trace), old(queries), old(retrieved), done, omitSetting)
      {
        CopyNextTable(old(trace), old(queries), old(retrieved), done, cloudTables[i], omitSetting);
        done := done + [cloudTables[i]];
      }
      assert done == cloudTables;
    }

    /** One iteration of the table loop: CopyTables on the next table in order. */
    method CopyNextTable(ghost t0: seq<Event>, ghost q0: seq<Query>, ghost r0: map<Name, nat>, ghost done: seq<Table>,
                         table: Table, omitSetting: string)
      modifies this
      requires CopiedFrom(t0, q0, r0, done, omitSetting)
      ensures CopiedFrom(t0, q0, r0, done + [table], omitSetting)
    {
      ghost var tMid, qMid, rMid := trace, queries, retrieved;
      CopyTables(table, omitSetting);
      PassAdvance(t0, q0, r0, done, table, omitSetting, tMid, qMid, rMid, trace, queries, retrieved);
    }

    /** Creates the target table, copies its permissions and, unless it is excluded, its data. */
    method CopyTables(table: Table, omitSetting: string)
      modifies this
      ensures trace == old(trace) + TableTrace(table, omitSetting)
      ensures queries == old(queries) + TableQueries(table, omitSetting)
      ensures retrieved == TableCounts(old(retrieved), table, omitSetting)
    {
      trace := trace + [Create(TableRes(table.name))];
      trace := trace + [SetPermissions(TableRes(table.name), table.permissions)];
      var omit := Split(omitSetting);
      if table.name !in omit {
        CopyData(table);
      }
    }

    /** Issues the first request; the responses are then handled by the callback chain. */
    method CopyData(table: Table)
      modifies this
      ensures trace == old(trace) + PageTrace(table.name, Issued(table.segments))
      ensures queries == old(queries) + Requests(table.name, table.segments)
      ensures retrieved == Counted(old(retrieved), table.name, table.segments)
    {
      ExecuteQuerySegment(table.name, None);
      var handled := HandleResponses(table.name, table.segments);
      HandledOutcome(old(retrieved), table.name, table.segments, handled);
      AppendAssoc(old(queries), [Query(table.name, None)], NextRequests(table.name, handled));
    }

    /** The effects of handling the responses `handled` of `table`, on top of the state `t0`, `q0`, `r0`. */
    ghost predicate HandledFrom(t0: seq<Event>, q0: seq<Query>, r0: map<Name, nat>, table: Name, handled: seq<Segment>)
      reads this
    {
      && trace == t0 + PageTrace(table, handled)
      && queries == q0 + NextRequests(table, handled)
      && retrieved == Tally(r0, table, handled)
    }

    /**
     * The chain of completion callbacks: the responses are handled in turn, and
     * the chain goes on only while the response just handled carried a token.
     */
    method HandleResponses(table: Name, segments: seq<Segment>) returns (ghost handled: seq<Segment>)
      modifies this
      ensures handled == Issued(segments)
      ensures HandledFrom(old(trace), old(queries), old(retrieved), table, handled)
    {
      var i := 0;
      var more := true;
      handled := [];
      while more && i < |segments|
        invariant Progress(segments, i, more)
        invariant handled == segments[..i]
        invariant HandledFrom(old(trace), old(queries), old(retrieved), table, handled)
        decreases |segments| - i
      {
        HandleNextResponse(old(trace), old(queries), old(retrieved), table, handled, segments[i]);
        ProgressStep(segments, i);
        handled := handled + [segments[i]];
        more := segments[i].token.Some?;
        i := i + 1;
      }
      ProgressDone(segments, i, more);
    }

    /** One link of the callback chain: HandleCompletedQuery on the next response. */
    method HandleNextResponse(ghost t0: seq<Event>, ghost q0: seq<Query>, ghost r0: map<Name, nat>,
                              table: Name, ghost handled: seq<Segment>, response: Segment)
      modifies this
      requires HandledFrom(t0, q0, r0, table, handled)
      ensures HandledFrom(t0, q0, r0, table, handled + [response])
    {
      HandleCompletedQuery(table, response);
      HandleStep(r0, table, handled, response);
      AppendAssoc(t0, PageTrace(table, handled), WriteEvents(table, response));
      AppendAssoc(q0, NextRequests(table, handled), NextRequest(table, response));
    }

    /** Issues one segmented query request. */
    method ExecuteQuerySegment(table: Name, token: Option<Token>)
      modifies this
      ensures queries == old(queries) + [Query(table, token)]
      ensures trace == old(trace) && retrieved == old(retrieved)
    {
      queries := queries + [Query(table, token)];
    }

    /** The completion callback for one response. */
    method HandleCompletedQuery(table: Name, response: Segment)
      modifies this
      ensures queries == old(queries) + NextRequest(table, response)
      ensures trace == old(trace) + WriteEvents(table, response)
      ensures retrieved == AddCount(old(retrieved), table, |response.entities|)
    {
      var token := response.token;
      if token.Some? {
        ExecuteQuerySegment(table, token);
      }
      var count := |response.entities|;
      if count > 0 {
        WriteToTarget(table, response.entities);
      }
      UpdateCount(table, count);
    }

    /** Adds a response's size to the table's counter, creating the entry on first use. */
    method UpdateCount(table: Name, recordsRetrieved: nat)
      modifies this
      ensures retrieved == AddCount(old(retrieved), table, recordsRetrieved)
      ensures queries == old(queries) && trace == old(trace)
    {
      if table !in retrieved {
        retrieved := retrieved[table := recordsRetrieved];
      } else {
        retrieved := retrieved[table := retrieved[table] + recordsRetrieved];
      }
    }

    /** Upserts one page into the same-named target table, then commits it. */
    method WriteToTarget(table: Name, response: seq<Entity>)
      modifies this
      ensures trace == old(trace) + [Write(table, response), Execute(table)]
      ensures queries == old(queries) && retrieved == old(retrieved)
    {
      trace := trace + [Write(table, response)];
      trace := trace + [Execute(table)];
    }

    // ------------------------------------------------------------ containers

    /** The effects of copying the containers `done`, on top of the trace `t0`. */
    ghost predicate ProvisionedFrom(t0: seq<Event>, done: seq<Container>, target: TargetAccount, now: int)
      reads this
    {
      trace == t0 + BlobPassTrace(done, target, now)
    }

    /** Copies every source container in name order. */
    method CopyBlobContainersFromSource(containers: seq<Container>, target: TargetAccount, now: int)
      modifies this
      ensures ProvisionedFrom(old(trace), SortContainers(containers), target, now)
      ensures queries == old(queries) && retrieved == old(retrieved)
    {
      var cloudBlobContainers := SortContainers(containers);
      CopyEachContainer(cloudBlobContainers, target, now);
    }

    /** The `foreach` over the ordered containers. */
    method CopyEachContainer(cloudBlobContainers: seq<Container>, target: TargetAccount, now: int)
      modifies this
      ensures ProvisionedFrom(old(trace), cloudBlobContainers, target, now)
      ensures queries == old(queries) && retrieved == old(retrieved)
    {
      ghost var done: seq<Container> := [];
      for i := 0 to |cloudBlobContainers|
        invariant done == cloudBlobContainers[..i]
        invariant ProvisionedFrom(old(trace), done, target, now)
        invariant queries == old(queries) && retrieved == old(retrieved)
      {
        CopyNextContainer(old(trace), done, cloudBlobContainers[i], target, now);
        done := done + [cloudBlobContainers[i]];
      }
      assert done == cloudBlobContainers;
    }

    /** One iteration of the container loop: CopyBlobContainer on the next container in order. */
    method CopyNextContainer(ghost t0: seq<Event>, ghost done: seq<Container>, container: Container, target: TargetAccount, now: int)
      modifies this
      requires ProvisionedFrom(t0, done, target, now)
      ensures ProvisionedFrom(t0, done + [container], target, now)
      ensures queries == old(queries) && retrieved == old(retrieved)
    {
      CopyBlobContainer(container, target, now);
      ContainerPass.PassStep(done, container, target, now);
      AppendAssoc(t0, BlobPassTrace(done, target, now), ContainerTrace(container, target, now));
    }

    /** Provisions the target container, then copies the missing blobs and then the stale ones. */
    method CopyBlobContainer(sourceContainer: Container, target: TargetAccount, now: int)
      modifies this
      ensures trace == old(trace) + ContainerTrace(sourceContainer, target, now)
      ensures queries == old(queries) && retrieved == old(retrieved)
    {
      var targetContainer := MakeContainer(sourceContainer);
      var targetBlobs := Listing(target, targetContainer.name);
      var sourceBlobs := sourceContainer.blobs;
      AddMissingBlobs(SourceRef(sourceContainer), sourceBlobs, targetBlobs, targetContainer, target.refused, now);
      UpdateBlobs(SourceRef(sourceContainer), sourceBlobs, targetBlobs, targetContainer, target.refused, now);
    }

    /** Copies the source blobs whose target copy is strictly older. */
    method UpdateBlobs(sourceContainer: ContainerRef, sourceBlobs: seq<Blob>, targetBlobs: seq<Blob>,
                       targetContainer: ContainerRef, refused: set<BlobRef>, now: int)
      modifies this
      ensures trace == old(trace) + CopyEvents(StaleBlobs(sourceBlobs, targetBlobs), targetContainer, sourceContainer, refused, now)
      ensures queries == old(queries) && retrieved == old(retrieved)
    {
      var updatedBlobs := StaleBlobs(sourceBlobs, targetBlobs);
      CopyEach(updatedBlobs, targetContainer, sourceContainer, refused, now);
    }

    /** Copies the source blobs no target blob shares a name with. */
    method AddMissingBlobs(sourceContainer: ContainerRef, sourceBlobs: seq<Blob>, targetBlobs: seq<Blob>,
                           targetContainer: ContainerRef, refused: set<BlobRef>, now: int)
      modifies this
      ensures trace == old(trace) + CopyEvents(MissingBlobs(sourceBlobs, targetBlobs), targetContainer, sourceContainer, refused, now)
      ensures queries == old(queries) && retrieved == old(retrieved)
    {
      var missingBlobs := MissingBlobs(sourceBlobs, targetBlobs);
      CopyEach(missingBlobs, targetContainer, sourceContainer, refused, now);
    }

    /** The `Parallel.ForEach` over a copy list, taken in list order. */
    method CopyEach(blobs: seq<Blob>, targetContainer: ContainerRef, sourceContainer: ContainerRef, refused: set<BlobRef>, now: int)
      modifies this
      ensures trace == old(trace) + CopyEvents(blobs, targetContainer, sourceContainer, refused, now)
      ensures queries == old(queries) && retrieved == old(retrieved)
    {
      for i := 0 to |blobs|
        invariant trace == old(trace) + CopyEvents(blobs[..i], targetContainer, sourceContainer, refused, now)
        invariant queries == old(queries) && retrieved == old(retrieved)
      {
        var blob := blobs[i];
        ghost var done := blobs[..i];
        TryCopyBlobToTargetContainer(blob, targetContainer, sourceContainer, refused, now);
        CopyStep(done, blob, targetContainer, sourceContainer, refused, now);
        AppendAssoc(old(trace), CopyEvents(done, targetContainer, sourceContainer, refused, now),
                    [CopyEvent(blob, targetContainer, sourceContainer, refused, now)]);
        assert blobs[..i + 1] == done + [blob];
      }
      assert blobs[..|blobs|] == blobs;
    }

    /**
     * Creates the same-named target container, copies the permissions when
     * there are any, and commits a copy of the source metadata.
     */
    method MakeContainer(sourceContainer: Container) returns (targetContainer: ContainerRef)
      modifies this
      ensures targetContainer == ContainerRef(TargetStorage, sourceContainer.name)
      ensures trace == old(trace) + ProvisionTrace(sourceContainer)
      ensures queries == old(queries) && retrieved == old(retrieved)
    {
      targetContainer := ContainerRef(TargetStorage, sourceContainer.name);
      trace := trace + [Create(ContainerRes(targetContainer.name))];
      var blobContainerPermissions := sourceContainer.permissions;
      if blobContainerPermissions.Some? {
        trace := trace + [SetPermissions(ContainerRes(targetContainer.name), blobContainerPermissions.value)];
      }
      // The metadata of a fresh container reference starts empty; each source
      // pair is added once (Dictionary.Add would throw on a repeated key).
      var metadata: map<string, string> := map[];
      var pending := sourceContainer.metadata.Keys;
      while pending != {}
        invariant pending <= sourceContainer.metadata.Keys
        invariant metadata.Keys == sourceContainer.metadata.Keys - pending
        invariant forall k :: k in metadata ==> metadata[k] == sourceContainer.metadata[k]
        decreases pending
      {
        var key :| key in pending;
        assert key !in metadata;
        metadata := metadata[key := sourceContainer.metadata[key]];
        pending := pending - {key};
      }
      assert metadata == sourceContainer.metadata;
      trace := trace + [SetMetadata(targetContainer.name, metadata)];
    }

    /** Starts a server-side copy of one blob from a read-only signed URL; a refusal is caught. */
    method TryCopyBlobToTargetContainer(item: Blob, targetContainer: ContainerRef, sourceContainer: ContainerRef,
                                        refused: set<BlobRef>, now: int)
      modifies this
      ensures trace == old(trace) + [CopyEvent(item, targetContainer, sourceContainer, refused, now)]
      ensures queries == old(queries) && retrieved == old(retrieved)
    {
      var blobRef := BlobRef(targetContainer.account, targetContainer.name, item.name);
      var source := GetShareAccessUri(item.name, SAS_VALIDITY_MINUTES, sourceContainer, now);
      var accepted := blobRef !in refused;
      trace := trace + [Copy(blobRef, source, accepted)];
    }
  }
}
