/** `run`: one synchronisation pass. Load the document, list the organisation's
    repositories, put fresh metadata in for the new and the changed ones and queue
    them, index the queue, write each result's tag and branch names into its record,
    drop the names that are no longer listed. */
module SyncEngine {
  import opened Wrappers
  import opened Errors
  import opened Pagination
  import opened GiteaClient
  import opened CacheStore

  /** The organisation whose repositories are cached. */
  const Organization: string := "rpms"

  /** `repo_meta`: the record a listed descriptor puts in the document, before its
      tags and branches are known. */
  function Meta(r: RepoDescriptor): RepoRecord {
    RepoRecord(r.name, r.fullName, r.updatedAt, r.cloneUrl, None, None)
  }

  /** A listed repository must be indexed: it is not cached, or its cached
      `updated_at` differs from the listed one. */
  predicate Changed(c: Cache, r: RepoDescriptor) {
    r.fullName !in c || c[r.fullName].updatedAt != r.updatedAt
  }

  /** The full names in a listing. */
  function LiveNames(live: seq<RepoDescriptor>): set<string> {
    set i | 0 <= i < |live| :: live[i].fullName
  }

  lemma LiveNamesSnoc(live: seq<RepoDescriptor>)
    requires live != []
    ensures LiveNames(live) == LiveNames(live[..|live| - 1]) + {live[|live| - 1].fullName}
  {
    var prefix := live[..|live| - 1];
    forall n | n in LiveNames(live)
      ensures n in LiveNames(prefix) + {live[|live| - 1].fullName}
    {
      var i :| 0 <= i < |live| && live[i].fullName == n;
      if i < |live| - 1 {
        assert prefix[i] == live[i];
      }
    }
    forall n | n in LiveNames(prefix)
      ensures n in LiveNames(live)
    {
      var i :| 0 <= i < |prefix| && prefix[i].fullName == n;
      assert live[i] == prefix[i];
    }
  }

  /** No full name is listed twice. */
  predicate DistinctNames(live: seq<RepoDescriptor>) {
    forall i, j | 0 <= i < j < |live| :: live[i].fullName != live[j].fullName
  }

  /** The working state of the diff loop: the document, `to_index`, `git_names`. */
  datatype DiffState = DiffState(cache: Cache, toIndex: seq<string>, gitNames: set<string>)

  /** One iteration of the diff loop over the listing. */
  function DiffStep(st: DiffState, r: RepoDescriptor): DiffState {
    var seen := st.gitNames + {r.fullName};
    if Changed(st.cache, r) then DiffState(st.cache[r.fullName := Meta(r)], st.toIndex + [r.fullName], seen)
    else DiffState(st.cache, st.toIndex, seen)
  }

  /** The diff loop over the whole listing, in listing order. */
  function Diff(c: Cache, live: seq<RepoDescriptor>): (st: DiffState)
    decreases |live|
    ensures st.gitNames == LiveNames(live)
    ensures st.cache.Keys == c.Keys + LiveNames(live)
    ensures forall k | k in c && k !in LiveNames(live) :: st.cache[k] == c[k]
    ensures forall i | 0 <= i < |st.toIndex| :: st.toIndex[i] in LiveNames(live)
    ensures forall i | 0 <= i < |st.toIndex| ::
      && st.cache[st.toIndex[i]].fullName == st.toIndex[i]
      && st.cache[st.toIndex[i]].tags == None
      && st.cache[st.toIndex[i]].branches == None
    ensures forall k | k in LiveNames(live) && k !in st.toIndex :: k in c && st.cache[k] == c[k]
  {
    if live == [] then DiffState(c, [], {})
    else
      var st0 := Diff(c, live[..|live| - 1]);
      LiveNamesSnoc(live);
      DiffStep(st0, live[|live| - 1])
  }

  /** The names a listing queues, judged against the document as it was before the
      pass: the reference for `to_index` when no name is listed twice. */
  function Queue(c: Cache, live: seq<RepoDescriptor>): (q: seq<string>)
    decreases |live|
    ensures forall n :: n in q <==> exists i | 0 <= i < |live| :: live[i].fullName == n && Changed(c, live[i])
  {
    if live == [] then []
    else
      var last := live[|live| - 1];
      var q0 := Queue(c, live[..|live| - 1]);
      assert forall i | 0 <= i < |live| - 1 :: live[..|live| - 1][i] == live[i];
      q0 + (if Changed(c, last) then [last.fullName] else [])
  }

  /** The record a queued repository ends up with once its index result is merged:
      its tag and branch names in the order the remote listed them. */
  function WithRefs(rec: RepoRecord, res: IndexResult): RepoRecord {
    rec.(tags := Some(Names(res.tags)), branches := Some(Names(res.branches)))
  }

  /** The names of a tag or branch listing, in the order the remote listed them. */
  function Names(refs: seq<NamedRef>): (ns: seq<string>)
    ensures |ns| == |refs|
    ensures forall i | 0 <= i < |refs| :: ns[i] == refs[i].name
  {
    seq(|refs|, i requires 0 <= i < |refs| => refs[i].name)
  }

  /** The four metadata fields agree. */
  predicate SameMeta(a: RepoRecord, b: RepoRecord) {
    a.name == b.name && a.fullName == b.fullName && a.updatedAt == b.updatedAt && a.cloneUrl == b.cloneUrl
  }

  /** Every result echoes a key of the document. */
  predicate ResultsIn(c: Cache, results: seq<IndexResult>) {
    forall i | 0 <= i < |results| :: results[i].repoName in c
  }

  /** The merge loop: each result's names go into the record of the repository it
      echoes. Every echoed name is a key, since the diff put every queued name in. */
  function Merge(c: Cache, results: seq<IndexResult>): (m: Cache)
    requires ResultsIn(c, results)
    decreases |results|
    ensures m.Keys == c.Keys
    ensures forall k | k in c :: SameMeta(m[k], c[k])
    ensures forall k | k in c && (forall i | 0 <= i < |results| :: results[i].repoName != k) :: m[k] == c[k]
    ensures forall i | 0 <= i < |results| :: m[results[i].repoName].tags.Some? && m[results[i].repoName].branches.Some?
  {
    if results == [] then c
    else
      var m0 := Merge(c, results[..|results| - 1]);
      var res := results[|results| - 1];
      assert forall i | 0 <= i < |results| - 1 :: results[..|results| - 1][i] == results[i];
      m0[res.repoName := WithRefs(m0[res.repoName], res)]
  }

  /** The pruning loop: pop every stale name. A stale name that is not a key makes
      `pop` raise, which aborts the pass. */
  function Prune(c: Cache, stale: set<string>): (r: Result<Cache, Error>)
    ensures r.Success? <==> stale <= c.Keys
    ensures r.Success? ==> r.value.Keys == c.Keys - stale
    ensures r.Success? ==> forall k | k in r.value :: r.value[k] == c[k]
    ensures r.Failure? ==> r.error == KeyMissing(stale - c.Keys)
  {
    if stale <= c.Keys then Success(c - stale) else Failure(KeyMissing(stale - c.Keys))
  }

  /** The pruning loop as written: pop the stale names one at a time, in whatever
      order the set yields them, failing on the first one that is not a key. */
  method PruneLoop(c: Cache, stale: set<string>) returns (r: Result<Cache, Error>)
    ensures r.Success? <==> Prune(c, stale).Success?
    ensures r.Success? ==> r == Prune(c, stale)
    ensures r.Failure? ==> r.error.KeyMissing? && r.error.keys != {} && r.error.keys <= stale - c.Keys
  {
    var cache := c;
    var remaining := stale;
    while remaining != {}
      invariant remaining <= stale
      invariant stale - remaining <= c.Keys
      invariant cache == c - (stale - remaining)
      decreases remaining
    {
      var n :| n in remaining;
      if n !in cache {
        return Failure(KeyMissing({n}));
      }
      cache := cache - {n};
      remaining := remaining - {n};
    }
    assert stale - remaining == stale;
    return Success(cache);
  }

  /** What a pass leaves behind: the document it saves, the names it queued, and the
      requests it made. */
  datatype PassOutcome = PassOutcome(cache: Cache, toIndex: seq<string>, requests: seq<Request>)

  /** The body of `run` after the listing: diff, index, merge, prune. */
  function Sync(c: Cache, live: seq<RepoDescriptor>, remote: Remote): (r: Result<PassOutcome, Error>)
    ensures r.Success? ==> r.value.toIndex == Diff(c, live).toIndex
    ensures r.Success? ==> r.value.cache.Keys == (c.Keys + LiveNames(live)) - (FullNames(c) - LiveNames(live))
    ensures r.Success? ==> forall j | 0 <= j < |r.value.requests| :: r.value.requests[j].endpoint in IndexEndpoints(r.value.toIndex)
    ensures r.Failure? <==> IndexAll(remote, Diff(c, live).toIndex).Failure? || !(FullNames(c) - LiveNames(live) <= c.Keys)
  {
    var cacheNames := FullNames(c);
    var st := Diff(c, live);
    var batch :- IndexAll(remote, st.toIndex);
    IndexAllEndpoints(remote, st.toIndex);
    var merged := Merge(st.cache, batch.results);
    var pruned :- Prune(merged, cacheNames - st.gitNames);
    Success(PassOutcome(pruned, st.toIndex, batch.requests))
  }

  /** `run` without the store: list the organisation, then synchronise. */
  function Pass(c: Cache, remote: Remote): (r: Result<PassOutcome, Error>)
    ensures ListRepos(remote, Organization).Failure? ==> r == Failure(ListRepos(remote, Organization).error)
    ensures r.Success? ==>
      && ListRepos(remote, Organization).Success?
      && Sync(c, ListRepos(remote, Organization).value.items, remote).Success?
    ensures ListRepos(remote, Organization).Success? && Sync(c, ListRepos(remote, Organization).value.items, remote).Success? ==>
      var o := Sync(c, ListRepos(remote, Organization).value.items, remote).value;
      r == Success(PassOutcome(o.cache, o.toIndex, ListRepos(remote, Organization).value.requests + o.requests))
  {
    var listing :- ListRepos(remote, Organization);
    var o :- Sync(c, listing.items, remote);
    Success(o.(requests := listing.requests + o.requests))
  }

  /** `run`: load the stored document and make one pass over it. A stored value the
      decoder rejects aborts the run before any request, with no fallback to the
      empty document. The outcome's document is what `save_redis_cache` stores; on
      failure nothing is stored. */
  function Run(stored: Option<Blob>, decode: Blob -> Result<Cache, Error>, remote: Remote): (r: Result<PassOutcome, Error>)
    ensures LoadCache(stored, decode).Failure? ==> r == Failure(LoadCache(stored, decode).error)
    ensures LoadCache(stored, decode).Success? ==> r == Pass(LoadCache(stored, decode).value, remote)
  {
    var c :- LoadCache(stored, decode);
    Pass(c, remote)
  }
}
