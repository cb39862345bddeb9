# Gitea cache synchroniser

A model of the repository cache of the AlmaLinux build system's git cacher. The
cacher keeps a document in a key-value store that maps each repository of the
`rpms` organisation on a Gitea host to its metadata and its tag and branch
names. Each pass does the following:

- It loads the document. An absent or empty stored value reads as the empty document.
- It lists the organisation's repositories page by page.
- It puts fresh metadata in for every repository that is new or whose `updated_at`
  moved, and queues those repositories.
- It indexes the queue. For each repository that is its tag listing, then its branch listing.
- It writes each result's tag and branch names into the record that result names.
- It removes every name the prior document carried that is no longer listed.
- It saves the document. Any failure aborts the pass before the save.

The model is pure and sequential. It has seven modules:

- `Wrappers` (`wrappers.dfy`): the `Option` and `Result` types.
- `Errors` (`errors.dfy`): the ways a pass can abort, namely a failed page request,
  a stale name that is not a key, and an undecodable stored document.
- `Pagination` (`pagination.dfy`): the page loop shared by all three listings.
  `ListFrom`/`ListAllPages` define the loop. `ListAllPagesLoop` is the loop as
  written, and it is proved equal to that definition. `GiteaPages` is how a host
  serves a collection of items, in pages of 50.
- `GiteaClient` (`gitea_client.dfy`): the three listing endpoints, `index_repo`,
  and the fan-out over the queue.
- `CacheStore` (`cache_store.dfy`): the cache document, its load with the
  absent/empty case, and its save.
- `SyncEngine` (`sync_engine.dfy`): the diff, the merge and the prune of one pass.
  It also holds `Sync` (diff, index, merge, prune), `Pass` (list, then `Sync`) and
  `Run` (load, then `Pass`).
- `SyncProperties` (`sync_properties.dfy`): how whole passes behave. The lemmas
  cover unchanged repositories carried forward, changed ones reindexed, key-set
  convergence, exact pruning, the first run, order independence of the merge,
  and idempotence.

The remote host is a value of type `Remote`. It maps each endpoint's argument to a
finite sequence of page answers. Every answer is a page of items or an HTTP error
status. Each request the listing loop makes is logged as
`Request(endpoint, limit, page)`. That log is how the lemmas state which pages are
requested, in what order, and that an unchanged repository costs no tag or branch
request.

The model follows the code in the following places:

- The set of names eligible for pruning is built from the records' `full_name`
  values (`FullNames`), not from the document's keys. The two agree on a well-keyed
  document (`WellKeyed`: every key is its own record's full name). On any other
  document, a stale name that is not a key makes `pop` raise. The model turns this
  into `Failure(KeyMissing(...))`.
- The index result echoes the name under the field `repo_name`.

## Model

| member | source | states |
|---|---|---|
| Pagination.ListFrom | alws/scripts/git_cacher/git_cacher.py:61-76 | On success there is at least one request. The requests ask for consecutive pages of the endpoint, starting at the entry page, each with limit 50. Every page before the last held at least 50 items and the last held fewer. The items are the concatenation of the fetched pages in request order. On failure, the error names the endpoint and a page at or after the entry page that answered an HTTP error with that status, and every page before it was full. |
| Pagination.ListAllPagesLoop | alws/scripts/git_cacher/git_cacher.py:61-76 | The `while True` loop, which extends the items with each page and stops at the first short page, computes exactly the listing `ListAllPages` defines, error cases included. |
| Pagination.GiteaPages | alws/scripts/git_cacher/git_cacher.py:64-65 | Chunking a collection into pages gives only non-empty pages of at most 50 items, and the pages concatenate back to the collection. |
| Pagination.GiteaRequestCount | alws/scripts/git_cacher/git_cacher.py:72-75 | A collection of k·50 + r items (r < 50), served in pages of 50, comes back whole and in order after exactly k + 1 requests. The last request answers r items, so it answers an empty page when the size is a multiple of 50. |
| GiteaClient.IndexRepo | alws/scripts/git_cacher/git_cacher.py:90-93 | Indexing succeeds exactly when both the tag listing and the branch listing of the repository succeed. A tag failure is the failure of the whole call. On success the result echoes the repository name and carries both listings' items unchanged. |
| GiteaClient.IndexRepoOrder | alws/scripts/git_cacher/git_cacher.py:91-92 | The requests of a successful index are for the repository's tag endpoint and then its branch endpoint, with at least one of each. No tag request comes after a branch request, and no other endpoint is asked for. |
| GiteaClient.IndexAll | alws/scripts/git_cacher/git_cacher.py:117-119 | The fan-out succeeds exactly when indexing succeeds for every queued name. It then returns one result per queued name, in queue order, and each result is that name's index result. |
| GiteaClient.IndexAllEndpoints | alws/scripts/git_cacher/git_cacher.py:117-119 | A successful fan-out asks only for tag and branch endpoints of the queued names. |
| GiteaClient.TagsEndpointInjective | alws/scripts/git_cacher/git_cacher.py:82-84 | Distinct repositories have distinct tag endpoints. |
| GiteaClient.BranchesEndpointInjective | alws/scripts/git_cacher/git_cacher.py:86-88 | Distinct repositories have distinct branch endpoints. |
| GiteaClient.TagsNotBranches | alws/scripts/git_cacher/git_cacher.py:82-88 | No tag endpoint is a branch endpoint. |
| GiteaClient.ReposNotIndex | alws/scripts/git_cacher/git_cacher.py:78-88 | The organisation's repository endpoint is neither a tag nor a branch endpoint. |
| CacheStore.FullNames | alws/scripts/git_cacher/git_cacher.py:98 | The set holds exactly the full names the records carry. On a well-keyed document it is the key set. |
| CacheStore.LoadCache | alws/scripts/git_cacher/git_cacher.py:22-26 | An absent value and an empty value both load as the empty document. Any other value loads as whatever the decoder makes of it, including its failure. |
| CacheStore.SaveThenLoad | alws/scripts/git_cacher/git_cacher.py:22-30 | The empty-value guard never intercepts a saved document. Take a codec that round-trips a document and never encodes it to nothing. A document saved with it loads back as itself. |
| SyncEngine.Diff | alws/scripts/git_cacher/git_cacher.py:100-116 | After the diff loop, `git_names` is the set of listed names. The keys are the prior keys plus the listed names. An unlisted key keeps its record. Every queued name is listed and holds a record for itself with no tags or branches yet. A listed name that is not queued was cached before, and its record is unchanged. |
| SyncEngine.Queue | alws/scripts/git_cacher/git_cacher.py:111-116 | A name is queued exactly when some listed repository has that name and is uncached or cached with a different `updated_at`. |
| SyncEngine.Merge | alws/scripts/git_cacher/git_cacher.py:120-125 | The merge keeps the key set and every record's four metadata fields. A key no result names keeps its record. Every key a result names ends up with tags and branches. |
| SyncEngine.Prune | alws/scripts/git_cacher/git_cacher.py:126-127 | Pruning succeeds exactly when every stale name is a key. On success, the keys are the prior keys minus the stale names, and every remaining record is unchanged. On failure, the error names the stale names that are not keys. |
| SyncEngine.PruneLoop | alws/scripts/git_cacher/git_cacher.py:126-127 | Popping the stale names one at a time, in any order, succeeds exactly when `Prune` does and then gives the same document. Otherwise it fails with a `KeyError` on some stale name that is not a key. |
| SyncEngine.Sync | alws/scripts/git_cacher/git_cacher.py:98-127 | On success, the queue is the diff's queue. The keys are the prior keys plus the listed names, minus the prior full names that are no longer listed. Every request is for a tag or branch endpoint of a queued name. The pass fails exactly when indexing the queue fails or a stale name is not a key. |
| SyncEngine.Pass | alws/scripts/git_cacher/git_cacher.py:97-127 | A failed repository listing is the failure of the pass. A pass succeeds exactly when the listing and the synchronisation over it both succeed. It then returns the synchronisation's document and queue, and its requests are the listing's followed by the synchronisation's. |
| SyncEngine.Run | alws/scripts/git_cacher/git_cacher.py:96-128 | A failed load is the failure of the run, so a stored value the decoder rejects aborts the run before any request, with no fallback to the empty document. A successful load is followed by one pass over the loaded document. |
| SyncProperties.IndexRepoRequests | alws/scripts/git_cacher/git_cacher.py:90-93 | Indexing a repository asks its tag endpoint for exactly the pages of its tag listing, and its branch endpoint for exactly the pages of its branch listing. It asks no other repository's endpoints for anything. |
| SyncProperties.IndexAllRequests | alws/scripts/git_cacher/git_cacher.py:117-119 | With distinct queued names, each queued repository's tag and branch endpoints get exactly that repository's listing requests. An unqueued repository's endpoints get none. |
| SyncProperties.QueueUnique | alws/scripts/git_cacher/git_cacher.py:111-116 | With distinct listed names, no name is queued twice. |
| SyncProperties.DiffUnseen | alws/scripts/git_cacher/git_cacher.py:111-116 | A name the diff has not reached yet still has its prior record, so the diff judges it against the prior document. |
| SyncProperties.DiffQueue | alws/scripts/git_cacher/git_cacher.py:100-116 | With distinct listed names, the diff loop's `to_index` is exactly the reference queue. |
| SyncProperties.DiffRecords | alws/scripts/git_cacher/git_cacher.py:105-116 | With distinct listed names, after the diff each listed name holds its fresh metadata if it changed, and its prior record otherwise. |
| SyncProperties.MergeDistinct | alws/scripts/git_cacher/git_cacher.py:120-125 | Take results that name distinct repositories. Each named record ends up as its prior record with the result's tag and branch names, in the remote's order. |
| SyncProperties.MergeKeyAgrees | alws/scripts/git_cacher/git_cacher.py:120-125 | Two orders of the same distinct results agree on every key. |
| SyncProperties.MergeOrderIndependent | alws/scripts/git_cacher/git_cacher.py:117-125 | Merging the same distinct results in any order gives the same document, so the order in which the fan-out completes does not matter. |
| SyncProperties.BatchEchoes | alws/scripts/git_cacher/git_cacher.py:117-121 | The i-th index result names the i-th queued repository, and every result names a key of the diffed document. |
| SyncProperties.SyncShape | alws/scripts/git_cacher/git_cacher.py:98-127 | A successful pass indexed its queue successfully. Its requests are the batch's requests, and its document is the prune of the merge of the batch into the diffed document. |
| SyncProperties.CommitConverges | alws/scripts/git_cacher/git_cacher.py:120-127 | Start from a well-keyed prior document. Merging into its diff and pruning the unlisted keys succeeds. The result holds exactly the listed names and is well keyed. |
| SyncProperties.SyncConverges | alws/scripts/git_cacher/git_cacher.py:98-127 | On a well-keyed document, a pass fails only when indexing fails. On success, the key set is exactly the set of listed names and the document is still well keyed. |
| SyncProperties.SyncPrunesExactly | alws/scripts/git_cacher/git_cacher.py:126-127 | After a successful pass, a full name the prior document carried that is no longer listed is gone, and every listed name is present. |
| SyncProperties.QueueSkipsUnchanged | alws/scripts/git_cacher/git_cacher.py:111-116 | With distinct listed names, a repository that is cached with the listed `updated_at` is not queued. |
| SyncProperties.CommitCarries | alws/scripts/git_cacher/git_cacher.py:111-127 | With distinct listed names, an unchanged listed repository is not queued, and it keeps its prior record through the merge and the prune. |
| SyncProperties.SyncCarriesForward | alws/scripts/git_cacher/git_cacher.py:111-127 | With distinct listed names, a repository cached with the listed `updated_at` has these properties after a successful pass: it is not queued; its prior record, tags and branches included, is in the document unchanged; not one request went to its tag or branch endpoint. |
| SyncProperties.CommitReindexes | alws/scripts/git_cacher/git_cacher.py:105-127 | With distinct listed names, a changed listed repository ends up with its fresh metadata plus the names from its index result. |
| SyncProperties.SyncReindexes | alws/scripts/git_cacher/git_cacher.py:105-127 | With distinct listed names, a new or changed repository has these properties after a successful pass: it is queued; both of its listings succeeded; its record is the listed metadata with its tag and branch names in the remote's order; its tag and branch endpoints got exactly its listings' requests. |
| SyncProperties.QueueFromNothing | alws/scripts/git_cacher/git_cacher.py:111-113 | Against the empty document every listed repository is queued, in listing order. |
| SyncProperties.PassShape | alws/scripts/git_cacher/git_cacher.py:97-127 | A successful pass is a successful listing followed by a successful synchronisation. Its document and queue are the synchronisation's, and its requests are the listing's followed by the synchronisation's. |
| SyncProperties.PassCarriesForward | alws/scripts/git_cacher/git_cacher.py:78-127 | With distinct listed names, a repository cached with the listed `updated_at` has these properties after a successful pass: it is not queued; it keeps its prior record; not one request of the whole pass, the repository listing included, went to its tag or branch endpoint. |
| SyncProperties.RunFromNothing | alws/scripts/git_cacher/git_cacher.py:22-26 | An absent or empty stored value makes the run a pass over the empty document. |
| SyncProperties.FirstRun | alws/scripts/git_cacher/git_cacher.py:22-127 | Take an absent or empty stored value and a listing with distinct names. A successful run has these properties: it queues every listed repository, in listing order; its keys are the listed names; each record is the listed metadata with that repository's tag and branch names. |
| SyncProperties.SyncTimestamps | alws/scripts/git_cacher/git_cacher.py:105-127 | With distinct listed names, after a successful pass every listed repository is in the document with the listed `updated_at`. |
| SyncProperties.QueueNothingChanged | alws/scripts/git_cacher/git_cacher.py:111-116 | Nothing is queued when no listed repository changed. |
| SyncProperties.DiffNothingChanged | alws/scripts/git_cacher/git_cacher.py:100-116 | When no listed repository changed, the diff leaves the document as it is and queues nothing. This holds even when the listing names a repository more than once. |
| SyncProperties.SyncNothingChanged | alws/scripts/git_cacher/git_cacher.py:98-127 | Take a well-keyed document holding exactly the listed names, none of them changed, with names possibly listed more than once. The pass succeeds with the same document, an empty queue and no index requests. |
| SyncProperties.PassSettles | alws/scripts/git_cacher/git_cacher.py:96-127 | With distinct listed names, a successful pass over a well-keyed document leaves it settled against the listing it fetched: well keyed, holding exactly the listed names, and with nothing changed. |
| SyncProperties.PassOverSettled | alws/scripts/git_cacher/git_cacher.py:96-127 | A pass over a document settled against the current listing only makes the listing's requests, and it returns the document unchanged with an empty queue. This holds for any listing, duplicated names included. |
| SyncProperties.PassIdempotent | alws/scripts/git_cacher/git_cacher.py:96-127 | Start from a well-keyed document and a listing with distinct names. Feed a pass's document back in with the same remote. The second pass succeeds, queues nothing, returns the same document, and makes no request but the repository listing's. |

## Left out

- The HTTP layer is not modelled: `make_request`, aiohttp sessions, `urljoin` against the configured host, `raise_for_status` and JSON response bodies. A page request is a lookup in a finite page sequence, and a non-2xx status is `HttpError(status)`. Transport errors and timeouts are not distinguished from HTTP errors.
- The remote is finite: past its last page, every page is answered empty. A host that serves full pages forever would keep the loop of `_list_all_pages` running. The model does not describe that case.
- `asyncio.Semaphore(5)` and the scheduling of `asyncio.gather` are not modelled, because they exist only for concurrency. The fan-out is a sequential map over the queue. `gather` hands back its results in argument order, so the order in which the tasks finish never reaches the merge. `MergeOrderIndependent` shows in addition that results for distinct repositories can be merged in any order.
- GiteaClient.IndexAll: when several queued repositories fail, it reports the first failure in queue order. Which failure `gather` raises depends on scheduling.
- GiteaClient.IndexAllEndpoints: the fan-out's request log is the per-repository logs concatenated in queue order. It does not describe the interleaving of requests across repositories. Per-endpoint facts (`IndexAllRequests`) hold under any interleaving that keeps each listing's own order.
- Redis `get`/`set` and JSON `loads`/`dumps` are not modelled. The stored value is an `Option` of bytes, and the decoder and encoder are function parameters.
- The document is an unordered map. The key order that `json.dumps` writes, which follows insertion order, is not modelled. Idempotence (`PassIdempotent`, `PassOverSettled`) is therefore equality of documents, not of stored bytes.
- Listings that name a repository twice are left out of most whole-pass lemmas. The lemmas that follow one listed repository through a pass, together with `PassSettles` and `PassIdempotent`, assume the listing names each full name once (`DistinctNames`). This is an assumption about the remote: paging by offset over a set of repositories that changes between page requests can repeat an item. With a duplicated name, the code queues a copy whenever its `updated_at` differs from the record the loop holds for that name at that point. The record ends as the metadata of the last queued copy. A second pass can then find an earlier copy's `updated_at` changed and queue the name again. `DiffNothingChanged`, `SyncNothingChanged` and `PassOverSettled` need no such assumption.
- `save_redis_cache` after a successful pass is not a separate step. The outcome's document is what gets stored, and a failed pass stores nothing.
- A malformed stored document is not modelled below the decoder. Every record carries its four metadata fields. In the code, a record missing `full_name` raises `KeyError` at `git_cacher.py:98`, while the pruning set is built and before any request. A record missing `updated_at` raises at `git_cacher.py:114`, and only if its name is listed.
- `Config`, `setup_logger` and the `main` loop that runs a pass every 600 seconds are not modelled. They are configuration, logging and scheduling. The organisation is the constant `rpms` that `run` passes.
- Descriptor fields other than `name`, `full_name`, `updated_at` and `clone_url` are not modelled. Tag and branch fields other than `name` are not modelled either. The code never reads them.
- `alws/routers/distro.py` and `alws/schemas/test_schema.py` are not part of this model. They hold a web router and data declarations, with no logic of the cacher.
