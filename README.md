# Azure table and blob copier — a verified model of the migration logic

This project models the migration logic of `StorageAccountMigrator` in Dafny. That class copies every table and every blob container of one Azure storage account into another.

For the **table phase**:
- A run lists the source tables and sorts them by name.
- It creates each table on the target and copies its access permissions.
- Unless the table's name appears in the `|`-separated setting `TablesToCreateButNotMigrate`, it pages through the table's entities with segmented queries. Each non-empty page is forwarded to the target table in one write. Every page, empty or not, is added to the per-table counter `retrieved`.

For the **blob phase**:
- A run sorts the containers by name.
- It provisions each container on the target: create, permissions only when the source has them, then the metadata.
- It compares the source listing with the target listing.
- It starts one server-side copy for each source blob that is **missing** (no target blob shares its name).
- It starts one for each source blob that is **stale** (the first same-named target blob is strictly older, with both times present).
- Every copy reads from a read-only shared-access URL that expires 360 minutes after `now`.

The phases run only when the settings `MigrateBlobs` and `MigrateTables` are exactly `"true"`.

Every Azure SDK object becomes a plain value (`Storage`). Container and blob references carry the account they belong to (`SourceStorage` or `TargetStorage`). Every side effect on the target account becomes an `Event` appended to a trace. The model has these layers:
- Pure functions state the effects of each operation: `BlobDiff`, `Exclusion`, `Ordering`, `Paging`, `TablePass`, `ContainerPass`, `Migration`.
- `Migrator.StorageAccountMigrator` is a class. Every modelled method of the original has a method of the same name there, except `NotExists` and `GetShareAccessUri`, which are the functions `BlobDiff.NotExists` and `ContainerPass.GetShareAccessUri`. Each loop of the original is split into helper methods: `CopyEachTable`/`CopyNextTable`, `HandleResponses`/`HandleNextResponse`, `CopyEachContainer`/`CopyNextContainer` and `CopyEach`. `HandleCompletedQuery` in the original returns a callback; the model's `HandleCompletedQuery` is that callback's body. The class state is three fields that the methods update step by step: `queries`, `retrieved` and `trace`.
- Each method is proved to leave exactly the state those functions describe.
- The properties of the functions are proved as lemmas.

Source files: `AzureTableAndBlobCopier/StorageAccountMigrator.cs`. `AzureTableAndBlobCopier/Program.cs` is not part of this model. It reads two connection strings, the two flags and an optional table list from its command-line arguments, calls a `StartAsync` overload of a `StorageAccountMigrator` from the namespace `AzureDataMigrator`, and blocks on `.Wait()`. That overload is not in the modelled source.

## Model

| member | source | states |
|---|---|---|
| Migrator.StorageAccountMigrator.constructor | AzureTableAndBlobCopier/StorageAccountMigrator.cs:94-98 | A new migrator has issued no request, counts nothing and has changed nothing on the target |
| Migrator.StorageAccountMigrator.ExecuteMigration | AzureTableAndBlobCopier/StorageAccountMigrator.cs:32-51 | A run appends to the target exactly the migration log (blob phase if enabled, then table phase if enabled), issues exactly the table phase's requests, and leaves the counters of the table phase |
| Migrator.StorageAccountMigrator.CopyTableStorageFromSource | AzureTableAndBlobCopier/StorageAccountMigrator.cs:62-72 | The state afterwards is the effect of CopyTables on every source table, in name order |
| Migrator.StorageAccountMigrator.CopyEachTable | AzureTableAndBlobCopier/StorageAccountMigrator.cs:70-71 | The foreach applies CopyTables to each table of the list in order; the loop keeps "the state is the pass over the tables done so far" |
| Migrator.StorageAccountMigrator.CopyTables | AzureTableAndBlobCopier/StorageAccountMigrator.cs:74-92 | One table: its target is created, gets the source permissions and, unless excluded, receives its data; requests and counter follow TableQueries and TableCounts |
| Migrator.StorageAccountMigrator.CopyData | AzureTableAndBlobCopier/StorageAccountMigrator.cs:103-106 | Copying a table's data issues the first request with a null token, then one per continuation token, writes every requested non-empty page and adds every page to the counter |
| Migrator.StorageAccountMigrator.HandleResponses | AzureTableAndBlobCopier/StorageAccountMigrator.cs:123-154 | The callback chain handles exactly the responses that are requested (up to and including the first without a token) |
| Migrator.StorageAccountMigrator.ExecuteQuerySegment | AzureTableAndBlobCopier/StorageAccountMigrator.cs:108-121 | A request is recorded in `queries` with its table and token; nothing else changes |
| Migrator.StorageAccountMigrator.HandleCompletedQuery | AzureTableAndBlobCopier/StorageAccountMigrator.cs:123-154 | One response: a next request iff it carries a token, a write iff it is non-empty, and its size added to its table's counter |
| Migrator.StorageAccountMigrator.UpdateCount | AzureTableAndBlobCopier/StorageAccountMigrator.cs:156-162 | The table's counter gains the page size, created on first use; no other counter changes |
| Migrator.StorageAccountMigrator.WriteToTarget | AzureTableAndBlobCopier/StorageAccountMigrator.cs:164-173 | The page is upserted into the same-named target table and then committed |
| Migrator.StorageAccountMigrator.CopyBlobContainersFromSource | AzureTableAndBlobCopier/StorageAccountMigrator.cs:184-194 | The trace gains CopyBlobContainer's effects for every source container, in name order; requests and counters are unchanged |
| Migrator.StorageAccountMigrator.CopyEachContainer | AzureTableAndBlobCopier/StorageAccountMigrator.cs:192-193 | The foreach applies CopyBlobContainer to each container of the list in order |
| Migrator.StorageAccountMigrator.CopyBlobContainer | AzureTableAndBlobCopier/StorageAccountMigrator.cs:196-232 | One container: provisioning, then the copies of its missing blobs, then those of its stale blobs |
| Migrator.StorageAccountMigrator.AddMissingBlobs | AzureTableAndBlobCopier/StorageAccountMigrator.cs:284-309 | One copy per source blob no target blob shares a name with, in listing order |
| Migrator.StorageAccountMigrator.UpdateBlobs | AzureTableAndBlobCopier/StorageAccountMigrator.cs:234-282 | One copy per stale source blob, in listing order |
| Migrator.StorageAccountMigrator.CopyEach | AzureTableAndBlobCopier/StorageAccountMigrator.cs:274-279 | The parallel loop starts one copy per element of the list |
| Migrator.StorageAccountMigrator.MakeContainer | AzureTableAndBlobCopier/StorageAccountMigrator.cs:317-341 | Returns the same-named target container after creating it, setting permissions only when the source has some, and committing a metadata map equal to the source's |
| Migrator.StorageAccountMigrator.TryCopyBlobToTargetContainer | AzureTableAndBlobCopier/StorageAccountMigrator.cs:343-366 | Exactly one copy request into the same-named target blob, from a 360-minute read-only URL; a refusal is recorded, not propagated |
| ContainerPass.GetShareAccessUri | AzureTableAndBlobCopier/StorageAccountMigrator.cs:368-384 | The URL names the given blob of the given container on that container's account, and its policy grants read and nothing else, up to `now` plus the validity period |
| BlobDiff.EarlierThan | AzureTableAndBlobCopier/StorageAccountMigrator.cs:251 | C#'s lifted `<` on nullable times holds only when both times are present, and then they differ |
| BlobDiff.NotExists | AzureTableAndBlobCopier/StorageAccountMigrator.cs:311-315 | No target blob has the name iff the first-by-name lookup finds nothing |
| BlobDiff.Pair | AzureTableAndBlobCopier/StorageAccountMigrator.cs:241-263 | The pair's source is always the source blob; its target is the source blob itself, or a same-named target blob that is strictly older |
| BlobDiff.MissingBlobs | AzureTableAndBlobCopier/StorageAccountMigrator.cs:289-291 | The missing list is no longer than the source listing, and no target blob shares a name with any of its blobs |
| BlobDiff.StaleBlobs | AzureTableAndBlobCopier/StorageAccountMigrator.cs:239-265 | The stale list is no longer than the source listing, and every blob in it is classified stale |
| BlobDiff.FirstByName | AzureTableAndBlobCopier/StorageAccountMigrator.cs:243 | None iff no target blob has the name; otherwise the first target blob with that name |
| BlobDiff.MissingMeansNoSameName | AzureTableAndBlobCopier/StorageAccountMigrator.cs:311-315 | A blob is classified missing iff no target blob carries its name |
| BlobDiff.StaleMeansStrictlyOlder | AzureTableAndBlobCopier/StorageAccountMigrator.cs:243-256 | A blob is stale iff the first same-named target blob has a time, the source has a time, and the target's is strictly earlier |
| BlobDiff.StaleWithUniqueNames | AzureTableAndBlobCopier/StorageAccountMigrator.cs:243-256 | When target names are unique, stale iff some same-named target blob is strictly older |
| BlobDiff.PairKeptIffStale | AzureTableAndBlobCopier/StorageAccountMigrator.cs:241-264 | The Select's pair has different source and target iff the blob is stale, and its source is always the source blob |
| BlobDiff.MissingBlobsExact | AzureTableAndBlobCopier/StorageAccountMigrator.cs:289-291 | The missing list holds each missing source blob exactly as often as the source lists it, and nothing else |
| BlobDiff.StaleBlobsExact | AzureTableAndBlobCopier/StorageAccountMigrator.cs:239-265 | The stale list holds each stale source blob exactly as often as the source lists it, and nothing else |
| BlobDiff.CurrentBlobsExact | AzureTableAndBlobCopier/StorageAccountMigrator.cs:239-265 | The blobs neither copy list takes are exactly the current ones |
| BlobDiff.Partition | AzureTableAndBlobCopier/StorageAccountMigrator.cs:217-230 | Missing, stale and current blobs together are the source listing, and the two copy lists share no blob |
| BlobDiff.CurrentNeverCopied | AzureTableAndBlobCopier/StorageAccountMigrator.cs:239-291 | A current blob is in neither copy list |
| BlobDiff.CopySetMembers | AzureTableAndBlobCopier/StorageAccountMigrator.cs:239-291 | A blob is in the missing (stale) list iff it is a source blob classified missing (stale) |
| BlobDiff.OneStaleOneMissing | AzureTableAndBlobCopier/StorageAccountMigrator.cs:239-291 | With `a.png` older on the target and `b.png` absent, `a.png` is updated and `b.png` added |
| BlobDiff.NullTimeIsCurrent | AzureTableAndBlobCopier/StorageAccountMigrator.cs:243-262 | For every listing: when the source blob's time or the first same-named target blob's time is null, the blob is not stale and is not updated; when a same-named target blob exists, it is current and not added either |
| Exclusion.Split | AzureTableAndBlobCopier/StorageAccountMigrator.cs:86-88 | Every entry of the split is non-empty and free of `|` |
| Exclusion.SplitJoin | AzureTableAndBlobCopier/StorageAccountMigrator.cs:86-88 | Splitting a `|`-joined list of well-formed names gives those names back, in order |
| Exclusion.ExcludedIffListed | AzureTableAndBlobCopier/StorageAccountMigrator.cs:86-91 | A table is excluded iff its name is one of the listed names, compared exactly |
| Exclusion.Excluded | AzureTableAndBlobCopier/StorageAccountMigrator.cs:86-91 | A name is excluded only if it is non-empty and free of `|`, so no setting excludes the empty name |
| Exclusion.DoubledSeparatorIgnored | AzureTableAndBlobCopier/StorageAccountMigrator.cs:88 | Empty entries are removed: `||` splits like `|` |
| Exclusion.LeadingSeparatorIgnored | AzureTableAndBlobCopier/StorageAccountMigrator.cs:88 | A leading `|` yields no entry |
| Ordering.NameLeTotal | AzureTableAndBlobCopier/StorageAccountMigrator.cs:66-68 | Any two names are ordered one way or the other |
| Ordering.NameLeTransitive | AzureTableAndBlobCopier/StorageAccountMigrator.cs:66-68 | The name order is transitive |
| Ordering.SortByCorrect | AzureTableAndBlobCopier/StorageAccountMigrator.cs:66-68 | Sorting by name yields a name-ordered permutation of the input, and distinct names stay distinct |
| Paging.IssuedCount | AzureTableAndBlobCopier/StorageAccountMigrator.cs:132-135 | The requested responses are a prefix: at least one when there is any, every one but the last carries a token, and the last carries none unless the stream ran out |
| Paging.IssuedCountUnique | AzureTableAndBlobCopier/StorageAccountMigrator.cs:132-135 | Those conditions determine the number of requested responses |
| Paging.CompleteStreamFullyIssued | AzureTableAndBlobCopier/StorageAccountMigrator.cs:132-135 | When only the last response lacks a token, every response is requested |
| Paging.RequestsFollowTokens | AzureTableAndBlobCopier/StorageAccountMigrator.cs:105-135 | The first request carries a null token; request k+1 exists iff response k carries a token, and it sends that token |
| Paging.AddCount | AzureTableAndBlobCopier/StorageAccountMigrator.cs:156-162 | Adding to a counter adds the name, raises its count by n, and keeps every other count |
| Paging.AddCountTwice | AzureTableAndBlobCopier/StorageAccountMigrator.cs:156-162 | Two updates of one counter equal one update by their sum |
| Paging.WrittenOfPage | AzureTableAndBlobCopier/StorageAccountMigrator.cs:137-140 | Handling a response writes exactly its entities (nothing for an empty one) |
| Paging.PageTraceForwardsEverything | AzureTableAndBlobCopier/StorageAccountMigrator.cs:137-140 | The writes of the handled responses carry exactly their entities, in order |
| Paging.PageTraceShape | AzureTableAndBlobCopier/StorageAccountMigrator.cs:137-173 | The data pass acts only on its table, every write is non-empty and followed at once by its commit |
| Paging.TotalCountsEntities | AzureTableAndBlobCopier/StorageAccountMigrator.cs:137-145 | The summed page sizes are the number of entities |
| Paging.CountedIsSum | AzureTableAndBlobCopier/StorageAccountMigrator.cs:137-162 | After a data pass the table's counter is its old value plus the number of entities received, which equals the number written; other counters are unchanged |
| TablePass.ExclusionDecidesDataCopy | AzureTableAndBlobCopier/StorageAccountMigrator.cs:74-92 | A table is always first created and given its permissions; it is queried iff not excluded, and receives all requested entities iff not excluded |
| TablePass.TableTraceAbout | AzureTableAndBlobCopier/StorageAccountMigrator.cs:74-92 | CopyTables acts only on its own table |
| TablePass.TablePassAboutTables | AzureTableAndBlobCopier/StorageAccountMigrator.cs:62-72 | The table pass acts only on tables |
| TablePass.TablePassUntouched | AzureTableAndBlobCopier/StorageAccountMigrator.cs:62-72 | A resource that is none of the listed tables is untouched |
| TablePass.TablePassProjection | AzureTableAndBlobCopier/StorageAccountMigrator.cs:70-71 | With distinct names, what the pass does to each table is exactly that table's CopyTables |
| TablePass.TablePassCreates | AzureTableAndBlobCopier/StorageAccountMigrator.cs:70-71 | Each listed table is created exactly once, in list order |
| TablePass.TablesInNameOrder | AzureTableAndBlobCopier/StorageAccountMigrator.cs:66-71 | Every source table is created, once, in ascending name order |
| TablePass.TablePassCountsUntouched | AzureTableAndBlobCopier/StorageAccountMigrator.cs:156-162 | Counters of names that are no listed table keep their value and presence |
| TablePass.TablePassCounters | AzureTableAndBlobCopier/StorageAccountMigrator.cs:86-162 | With distinct names, a table's counter rises by the entities it received when its data is copied and is unchanged when it is excluded |
| ContainerPass.CopyEventsShape | AzureTableAndBlobCopier/StorageAccountMigrator.cs:343-384 | One copy per blob whatever the service answers: into the same-named blob of the target container, from the same-named blob of the source container (each on its own account), read-only, no start time, expiring 360 minutes after `now`, accepted iff not refused |
| ContainerPass.ContainerCopiesAbout | AzureTableAndBlobCopier/StorageAccountMigrator.cs:217-309 | A container's copy phase starts only copies, all on that container: each writes a blob of the target account and reads the same-named blob of the same-named container on the source account |
| ContainerPass.ProvisionShape | AzureTableAndBlobCopier/StorageAccountMigrator.cs:317-341 | Provisioning creates the container first and commits the source metadata once, last; it sets permissions iff the source has them, to the source's |
| ContainerPass.ContainerTraceAbout | AzureTableAndBlobCopier/StorageAccountMigrator.cs:196-232 | CopyBlobContainer acts only on its container and creates it exactly once |
| ContainerPass.ContainerTraceShape | AzureTableAndBlobCopier/StorageAccountMigrator.cs:196-232 | The container is created first, its metadata committed once, and every copy comes after that commit |
| ContainerPass.ContainerPermissionsCopied | AzureTableAndBlobCopier/StorageAccountMigrator.cs:326-329 | Permissions are set on the target container iff the source has them, and to the source's |
| ContainerPass.CopiesNameOfList | AzureTableAndBlobCopier/StorageAccountMigrator.cs:350 | A container's copy list copies a blob of a given name, from the source account into the target account, iff that name is in the list |
| ContainerPass.SameNameInCopySet | AzureTableAndBlobCopier/StorageAccountMigrator.cs:239-291 | With unique source names, a copy-list blob sharing a source blob's name is that blob |
| ContainerPass.ContainerCopiesExactlyMissingAndStale | AzureTableAndBlobCopier/StorageAccountMigrator.cs:196-309 | With unique source names, a source blob is copied, from its blob on the source account into the same-named blob on the target account, iff it is missing or stale on the target |
| ContainerPass.BlobPassUntouched | AzureTableAndBlobCopier/StorageAccountMigrator.cs:184-194 | A resource that is none of the listed containers is untouched |
| ContainerPass.BlobPassProjection | AzureTableAndBlobCopier/StorageAccountMigrator.cs:192-193 | With distinct names, what the pass does to each container is exactly its CopyBlobContainer |
| ContainerPass.BlobPassAboutContainers | AzureTableAndBlobCopier/StorageAccountMigrator.cs:184-194 | The blob pass acts only on containers |
| ContainerPass.BlobPassCreates | AzureTableAndBlobCopier/StorageAccountMigrator.cs:192-193 | Each listed container is created exactly once, in list order |
| ContainerPass.ContainersInNameOrder | AzureTableAndBlobCopier/StorageAccountMigrator.cs:188-193 | Every source container is created, once, in ascending name order |
| Migration.PhasesAreIndependent | AzureTableAndBlobCopier/StorageAccountMigrator.cs:32-51 | What a run does to a table is what the table phase does to it, and likewise for containers and the blob phase; a disabled phase touches nothing and issues no request |
| Migration.TableOutcome | AzureTableAndBlobCopier/StorageAccountMigrator.cs:32-92 | With tables enabled and distinct names, a run does to each source table exactly its CopyTables |
| Migration.ContainerOutcome | AzureTableAndBlobCopier/StorageAccountMigrator.cs:32-51 | With blobs enabled and distinct names, a run does to each source container exactly its CopyBlobContainer |
| Migration.ExcludedTableGetsNoData | AzureTableAndBlobCopier/StorageAccountMigrator.cs:86-91 | An excluded table is created and given its permissions, and nothing else happens to it |
| Migration.IncludedTableGetsAllData | AzureTableAndBlobCopier/StorageAccountMigrator.cs:90-140 | A table that is not excluded receives every entity of every requested response, in order |

## Left out

- Azure SDK calls, connection-string parsing and `CloudConfigurationManager` are not modelled. The source and target accounts are input values, and the settings are plain strings. A null `TablesToCreateButNotMigrate` setting, which makes `Split` throw, is not modelled; neither are missing or malformed connection strings. A null `MigrateBlobs` or `MigrateTables` is not equal to "true", so it just disables its phase; the model covers it as any value other than "true".
- Concurrency is not modelled: `Task.Run`, `Task.WaitAll`, `Parallel.ForEach`, `AsParallel`, the asynchronous query callbacks, and the unsynchronised `Dictionary` and `List` they share. The model runs everything in one fixed order: the blob phase before the table phase, missing copies before stale copies, and each list in its order. Properties stated per resource (`Project`) do not depend on how the phases interleave.
- `Start`, `MigrateTableStorage` and `MigrateBlobContainers` are `Task.Run` wrappers that return "done". They are represented by their bodies, which are called directly.
- ExecuteMigration: the model's post-state is the state after every query callback has finished. The source does not wait for that before it returns "done". `Task.WaitAll` waits only for the task that issues each table's first request. So when the source returns, pages may still be unwritten and uncounted.
- CopyData: the ensures describe the table after its whole callback chain has run. `BeginExecuteQuerySegmented` returns at once, so in the source `CopyData` returns right after issuing the first request.
- Console and Trace output, and the "done" strings, are not modelled.
- `TableStorageWriter` is not part of this model. A write is one `Write` event holding the page's entities, followed by `Execute`; batching and upsert conflicts are not modelled.
- `DateTime.Now` is the input `now`, an integer count of minutes that is fixed for one pass. Time zones and `DateTimeOffset` conversion are left out.
- The target listing of each container is an input map from container name to blobs. A `StorageException` from `StartCopyFromBlob` is modelled by the input set `refused`. Copy completion is never polled by the source and is not modelled.
- The `(CloudBlockBlob)` cast is not modelled: every blob is taken as a block blob, so the cast's `InvalidCastException` is left out.
- The `cloudTable == null` early return in the callback is not modelled, because the asynchronous state is always the table.
- A table's query responses are the input `segments`. A stream that ends while a token is still outstanding simply stops.
- `OrderBy(c => c.Name)` uses .NET's culture-sensitive string comparer. The model sorts by ordinal character code instead, stably.
- UpdateCount: the `long` counter is an unbounded `nat`, so overflow is not modelled.
- `Where(b => b.Source != b.Target)` compares two `ICloudBlob` references. The model compares the two blob values instead. A pair built from the source blob alone holds the same reference twice. A pair with a strictly older target holds a blob of the target listing, with a different time. So both readings keep the same pairs.
- Every Azure SDK call other than `StartCopyFromBlob` is taken to succeed. The only `try`/`catch` for `StorageException` in the source is in `TryCopyBlobToTargetContainer` (StorageAccountMigrator.cs:347-365). It covers the signature built for the copy and `StartCopyFromBlob`; the model's `refused` set stands for a failure there. A `StorageException` from any other call is not caught. These calls are `ListTables`, `CreateIfNotExists`, `GetPermissions`, `SetPermissions`, `ListContainers`, `ListBlobs`, the calls in `MakeContainer`, and `EndExecuteQuerySegmented` in the query callback. Such an exception ends that phase's `foreach` at the failing table or container, and `Task.WaitAll` rethrows it, so `ExecuteMigration` never returns "done". Thrown inside the callback, it ends that table's page chain outside any handler. So `TablePass.TablesInNameOrder`, `ContainerPass.ContainersInNameOrder` and every other per-resource property hold only for runs in which none of these calls fails.
- The listings are taken as given: the source and target blob listings, the table and container listings, and the source container's metadata and permissions. `ListBlobs` is called with `BlobListingDetails.All`, which also lists snapshots under their base blob's name, so a real listing can repeat a name. The multiset lemmas of `BlobDiff` cover repeated names. `ContainerCopiesExactlyMissingAndStale` is stated only for unique source names (`UniqueNames`). The model does not decide whether the parameterless `ListContainers()` returns each container's metadata; it uses whatever metadata the listing holds.
- URL strings and SAS token encoding are not modelled. A signed URL is the blob reference plus its policy.
