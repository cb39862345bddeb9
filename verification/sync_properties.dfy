/** What a synchronisation pass guarantees: repositories whose timestamp did not
    move are carried forward untouched and cost no tag or branch request; new and
    changed ones get fresh metadata and exactly one tag listing and one branch
    listing; the key set converges to the listed names; a second pass over an
    unchanged remote changes nothing. */
module SyncProperties {
  import opened Wrappers
  import opened Errors
  import opened Pagination
  import opened GiteaClient
  import opened CacheStore
  import opened SyncEngine

  /** No name occurs twice. */
  predicate Unique(s: seq<string>) {
    forall i, j | 0 <= i < j < |s| :: s[i] != s[j]
  }

  /** The requests made to endpoint `e`, in the order they were made. */
  function RequestsTo(reqs: seq<Request>, e: string): seq<Request>
    decreases |reqs|
  {
    if reqs == [] then []
    else (if reqs[0].endpoint == e then [reqs[0]] else []) + RequestsTo(reqs[1..], e)
  }

  lemma {:induction false} RequestsToConcat(a: seq<Request>, b: seq<Request>, e: string)
    ensures RequestsTo(a + b, e) == RequestsTo(a, e) + RequestsTo(b, e)
    decreases |a|
  {
    if a != [] {
      var head := if a[0].endpoint == e then [a[0]] else [];
      assert (a + b)[0] == a[0];
      assert (a + b)[1..] == a[1..] + b;
      RequestsToConcat(a[1..], b, e);
      calc {
        RequestsTo(a + b, e);
        head + RequestsTo(a[1..] + b, e);
        head + (RequestsTo(a[1..], e) + RequestsTo(b, e));
        (head + RequestsTo(a[1..], e)) + RequestsTo(b, e);
        RequestsTo(a, e) + RequestsTo(b, e);
      }
    } else {
      assert a + b == b;
    }
  }

  lemma {:induction false} RequestsToOnly(reqs: seq<Request>, e: string)
    requires forall i | 0 <= i < |reqs| :: reqs[i].endpoint == e
    ensures RequestsTo(reqs, e) == reqs
    decreases |reqs|
  {
    if reqs != [] {
      RequestsToOnly(reqs[1..], e);
    }
  }

  lemma {:induction false} RequestsToNone(reqs: seq<Request>, e: string)
    requires forall i | 0 <= i < |reqs| :: reqs[i].endpoint != e
    ensures RequestsTo(reqs, e) == []
    decreases |reqs|
  {
    if reqs != [] {
      RequestsToNone(reqs[1..], e);
    }
  }

  /** Indexing `repo` asks for the tag endpoint of `repo` exactly as its tag listing
      does, for its branch endpoint exactly as its branch listing does, and for no
      other repository's endpoints. */
  lemma IndexRepoRequests(remote: Remote, repo: string, n: string)
    requires IndexRepo(remote, repo).Success?
    ensures RequestsTo(IndexRepo(remote, repo).value.requests, TagsEndpoint(n))
         == (if n == repo then ListTags(remote, repo).value.requests else [])
    ensures RequestsTo(IndexRepo(remote, repo).value.requests, BranchesEndpoint(n))
         == (if n == repo then ListBranches(remote, repo).value.requests else [])
  {
    var tags := ListTags(remote, repo).value.requests;
    var branches := ListBranches(remote, repo).value.requests;
    assert IndexRepo(remote, repo).value.requests == tags + branches;
    RequestsToConcat(tags, branches, TagsEndpoint(n));
    RequestsToConcat(tags, branches, BranchesEndpoint(n));
    TagsNotBranches(repo, n);
    TagsNotBranches(n, repo);
    if n == repo {
      RequestsToOnly(tags, TagsEndpoint(n));
      RequestsToNone(branches, TagsEndpoint(n));
      RequestsToNone(tags, BranchesEndpoint(n));
      RequestsToOnly(branches, BranchesEndpoint(n));
    } else {
      if TagsEndpoint(repo) == TagsEndpoint(n) {
        TagsEndpointInjective(repo, n);
      }
      if BranchesEndpoint(repo) == BranchesEndpoint(n) {
        BranchesEndpointInjective(repo, n);
      }
      RequestsToNone(tags, TagsEndpoint(n));
      RequestsToNone(branches, TagsEndpoint(n));
      RequestsToNone(tags, BranchesEndpoint(n));
      RequestsToNone(branches, BranchesEndpoint(n));
    }
  }

  /** A batch over distinct names asks for each queued repository's tags and
      branches through exactly one listing each, and for nothing of any repository
      it did not queue. */
  lemma {:induction false} IndexAllRequests(remote: Remote, names: seq<string>, n: string)
    requires Unique(names)
    requires IndexAll(remote, names).Success?
    ensures n in names ==> ListTags(remote, n).Success? && ListBranches(remote, n).Success?
    ensures RequestsTo(IndexAll(remote, names).value.requests, TagsEndpoint(n))
         == (if n in names then ListTags(remote, n).value.requests else [])
    ensures RequestsTo(IndexAll(remote, names).value.requests, BranchesEndpoint(n))
         == (if n in names then ListBranches(remote, n).value.requests else [])
    decreases |names|
  {
    if names != [] {
      var first := IndexRepo(remote, names[0]).value;
      var rest := IndexAll(remote, names[1..]).value;
      assert IndexAll(remote, names).value.requests == first.requests + rest.requests;
      assert Unique(names[1..]);
      IndexAllRequests(remote, names[1..], n);
      IndexRepoRequests(remote, names[0], n);
      RequestsToConcat(first.requests, rest.requests, TagsEndpoint(n));
      RequestsToConcat(first.requests, rest.requests, BranchesEndpoint(n));
      if n == names[0] {
        assert n !in names[1..];
      } else {
        assert n in names <==> n in names[1..];
      }
    }
  }

  /** With distinct names in the listing, the queue holds each name at most once. */
  lemma {:induction false} QueueUnique(c: Cache, live: seq<RepoDescriptor>)
    requires DistinctNames(live)
    ensures Unique(Queue(c, live))
    decreases |live|
  {
    if live != [] {
      var prefix := live[..|live| - 1];
      var last := live[|live| - 1];
      assert forall i | 0 <= i < |prefix| :: prefix[i] == live[i];
      QueueUnique(c, prefix);
      assert last.fullName !in Queue(c, prefix);
    }
  }

  /** A name the diff has not yet seen still maps to its
      prior record, or is still absent. */
  lemma DiffUnseen(c: Cache, live: seq<RepoDescriptor>, r: RepoDescriptor)
    requires r.fullName !in LiveNames(live)
    ensures Changed(Diff(c, live).cache, r) == Changed(c, r)
    ensures r.fullName in c ==> Diff(c, live).cache[r.fullName] == c[r.fullName]
  {
  }

  /** With distinct names in the listing, the diff queues exactly the repositories
      that are new or changed against the document before the pass, in listing
      order. */
  lemma {:induction false} DiffQueue(c: Cache, live: seq<RepoDescriptor>)
    requires DistinctNames(live)
    ensures Diff(c, live).toIndex == Queue(c, live)
    decreases |live|
  {
    if live != [] {
      var prefix := live[..|live| - 1];
      var last := live[|live| - 1];
      assert forall i | 0 <= i < |prefix| :: prefix[i] == live[i];
      DiffQueue(c, prefix);
      assert last.fullName !in LiveNames(prefix);
      DiffUnseen(c, prefix, last);
    }
  }

  /** With distinct names in the listing, the diff leaves each listed name with
      fresh metadata when it was queued and with its prior record otherwise. */
  lemma {:induction false} DiffRecords(c: Cache, live: seq<RepoDescriptor>, i: nat)
    requires DistinctNames(live)
    requires i < |live|
    ensures Diff(c, live).cache[live[i].fullName] == (if Changed(c, live[i]) then Meta(live[i]) else c[live[i].fullName])
    decreases |live|
  {
    var prefix := live[..|live| - 1];
    var last := live[|live| - 1];
    assert forall j | 0 <= j < |prefix| :: prefix[j] == live[j];
    if i == |live| - 1 {
      assert last.fullName !in LiveNames(prefix);
      DiffUnseen(c, prefix, last);
    } else {
      assert live[i].fullName != last.fullName;
      DiffRecords(c, prefix, i);
    }
  }

  /** No two results echo the same repository. */
  predicate DistinctResults(results: seq<IndexResult>) {
    forall i, j | 0 <= i < j < |results| :: results[i].repoName != results[j].repoName
  }

  /** Merging results for distinct repositories writes each result's names into
      that repository's prior record. */
  lemma {:induction false} MergeDistinct(c: Cache, results: seq<IndexResult>, i: nat)
    requires ResultsIn(c, results) && DistinctResults(results)
    requires i < |results|
    ensures Merge(c, results)[results[i].repoName] == WithRefs(c[results[i].repoName], results[i])
    decreases |results|
  {
    var prefix := results[..|results| - 1];
    var last := results[|results| - 1];
    assert forall j | 0 <= j < |prefix| :: prefix[j] == results[j];
    if i < |results| - 1 {
      assert results[i].repoName != last.repoName;
      MergeDistinct(c, prefix, i);
    } else {
      assert forall j | 0 <= j < |prefix| :: prefix[j].repoName != last.repoName;
    }
  }

  /** Two orders of the same distinct results agree on key `k`. */
  lemma MergeKeyAgrees(c: Cache, xs: seq<IndexResult>, ys: seq<IndexResult>, k: string)
    requires ResultsIn(c, xs) && ResultsIn(c, ys)
    requires DistinctResults(xs) && DistinctResults(ys)
    requires multiset(xs) == multiset(ys)
    requires k in c
    ensures Merge(c, xs)[k] == Merge(c, ys)[k]
  {
    if i :| 0 <= i < |xs| && xs[i].repoName == k {
      assert xs[i] in multiset(ys);
      var j :| 0 <= j < |ys| && ys[j] == xs[i];
      MergeDistinct(c, xs, i);
      MergeDistinct(c, ys, j);
    } else {
      forall j | 0 <= j < |ys|
        ensures ys[j].repoName != k
      {
        assert ys[j] in multiset(xs);
      }
    }
  }

  /** The merge writes each key independently: results for distinct repositories
      may arrive in any order. */
  lemma MergeOrderIndependent(c: Cache, xs: seq<IndexResult>, ys: seq<IndexResult>)
    requires ResultsIn(c, xs) && ResultsIn(c, ys)
    requires DistinctResults(xs) && DistinctResults(ys)
    requires multiset(xs) == multiset(ys)
    ensures Merge(c, xs) == Merge(c, ys)
  {
    forall k | k in c
      ensures Merge(c, xs)[k] == Merge(c, ys)[k]
    {
      MergeKeyAgrees(c, xs, ys, k);
    }
  }

  /** The index results of a pass echo its queue, in order. */
  lemma BatchEchoes(c: Cache, live: seq<RepoDescriptor>, remote: Remote)
    requires IndexAll(remote, Diff(c, live).toIndex).Success?
    ensures var st := Diff(c, live);
      var batch := IndexAll(remote, st.toIndex).value;
      && (forall i | 0 <= i < |batch.results| :: batch.results[i].repoName == st.toIndex[i])
      && ResultsIn(st.cache, batch.results)
  {
  }

  /** A successful pass is the prune of the merge of the index results into the
      diffed document, and its requests are the batch's. */
  lemma SyncShape(c: Cache, live: seq<RepoDescriptor>, remote: Remote)
    requires Sync(c, live, remote).Success?
    ensures IndexAll(remote, Diff(c, live).toIndex).Success?
    ensures ResultsIn(Diff(c, live).cache, IndexAll(remote, Diff(c, live).toIndex).value.results)
    ensures var st := Diff(c, live);
      var batch := IndexAll(remote, st.toIndex).value;
      && Sync(c, live, remote).value.requests == batch.requests
      && Sync(c, live, remote).value.cache == Prune(Merge(st.cache, batch.results), FullNames(c) - LiveNames(live)).value
  {
    BatchEchoes(c, live, remote);
  }

  /** Merging into a diffed well-keyed document and pruning the unlisted names
      leaves exactly the listed names, each the key of its own record. */
  lemma CommitConverges(c: Cache, live: seq<RepoDescriptor>, results: seq<IndexResult>)
    requires WellKeyed(c)
    requires ResultsIn(Diff(c, live).cache, results)
    ensures Prune(Merge(Diff(c, live).cache, results), c.Keys - LiveNames(live)).Success?
    ensures Prune(Merge(Diff(c, live).cache, results), c.Keys - LiveNames(live)).value.Keys == LiveNames(live)
    ensures WellKeyed(Prune(Merge(Diff(c, live).cache, results), c.Keys - LiveNames(live)).value)
  {
    var st := Diff(c, live);
    var merged := Merge(st.cache, results);
    var pruned := Prune(merged, c.Keys - LiveNames(live)).value;
    forall k | k in pruned
      ensures pruned[k].fullName == k
    {
      assert SameMeta(merged[k], st.cache[k]);
      if k !in st.toIndex {
        assert st.cache[k] == c[k];
      } else {
        var i :| 0 <= i < |st.toIndex| && st.toIndex[i] == k;
      }
    }
  }

  /** On a well-keyed document a pass fails only when indexing fails; then it
      keeps exactly the listed names, each as the key of its own record. */
  lemma SyncConverges(c: Cache, live: seq<RepoDescriptor>, remote: Remote)
    requires WellKeyed(c)
    requires IndexAll(remote, Diff(c, live).toIndex).Success?
    ensures Sync(c, live, remote).Success?
    ensures Sync(c, live, remote).value.cache.Keys == LiveNames(live)
    ensures WellKeyed(Sync(c, live, remote).value.cache)
  {
    assert FullNames(c) == c.Keys;
    assert Sync(c, live, remote).Success?;
    SyncShape(c, live, remote);
    CommitConverges(c, live, IndexAll(remote, Diff(c, live).toIndex).value.results);
  }

  /** Pruning is exact: a name the prior document carried that is no longer
      listed is gone, and every listed name is present. */
  lemma SyncPrunesExactly(c: Cache, live: seq<RepoDescriptor>, remote: Remote, k: string)
    requires Sync(c, live, remote).Success?
    ensures k in c && c[k].fullName !in LiveNames(live) ==> c[k].fullName !in Sync(c, live, remote).value.cache
    ensures k in LiveNames(live) ==> k in Sync(c, live, remote).value.cache
  {
  }

  /** With distinct names, a listed repository that did not change is not queued. */
  lemma QueueSkipsUnchanged(c: Cache, live: seq<RepoDescriptor>, i: nat)
    requires DistinctNames(live)
    requires i < |live| && !Changed(c, live[i])
    ensures live[i].fullName !in Queue(c, live)
  {
    forall j | 0 <= j < |live| && live[j].fullName == live[i].fullName
      ensures !Changed(c, live[j])
    {
      assert j == i;
    }
  }

  /** The results answer the queue one for one, in order. */
  predicate Echoes(results: seq<IndexResult>, names: seq<string>) {
    |results| == |names| && forall j | 0 <= j < |results| :: results[j].repoName == names[j]
  }

  /** A listed name that is not queued keeps its prior record through the merge
      and the prune. */
  lemma CommitCarries(c: Cache, live: seq<RepoDescriptor>, results: seq<IndexResult>, i: nat)
    requires DistinctNames(live)
    requires i < |live| && !Changed(c, live[i])
    requires Echoes(results, Diff(c, live).toIndex)
    requires ResultsIn(Diff(c, live).cache, results)
    requires Prune(Merge(Diff(c, live).cache, results), FullNames(c) - LiveNames(live)).Success?
    ensures live[i].fullName !in Diff(c, live).toIndex
    ensures live[i].fullName in Prune(Merge(Diff(c, live).cache, results), FullNames(c) - LiveNames(live)).value
    ensures Prune(Merge(Diff(c, live).cache, results), FullNames(c) - LiveNames(live)).value[live[i].fullName]
         == c[live[i].fullName]
  {
    var n := live[i].fullName;
    var st := Diff(c, live);
    DiffQueue(c, live);
    DiffRecords(c, live, i);
    QueueSkipsUnchanged(c, live, i);
    var merged := Merge(st.cache, results);
    assert merged[n] == st.cache[n];
  }

  /** A listed repository already cached with the same `updated_at` is not queued,
      keeps its prior record (tags and branches included), and costs no tag or
      branch request. */
  lemma SyncCarriesForward(c: Cache, live: seq<RepoDescriptor>, remote: Remote, i: nat)
    requires DistinctNames(live)
    requires i < |live| && !Changed(c, live[i])
    requires Sync(c, live, remote).Success?
    ensures live[i].fullName !in Sync(c, live, remote).value.toIndex
    ensures live[i].fullName in Sync(c, live, remote).value.cache
    ensures Sync(c, live, remote).value.cache[live[i].fullName] == c[live[i].fullName]
    ensures RequestsTo(Sync(c, live, remote).value.requests, TagsEndpoint(live[i].fullName)) == []
    ensures RequestsTo(Sync(c, live, remote).value.requests, BranchesEndpoint(live[i].fullName)) == []
  {
    var st := Diff(c, live);
    SyncShape(c, live, remote);
    BatchEchoes(c, live, remote);
    var batch := IndexAll(remote, st.toIndex).value;
    CommitCarries(c, live, batch.results, i);
    DiffQueue(c, live);
    QueueUnique(c, live);
    IndexAllRequests(remote, st.toIndex, live[i].fullName);
  }

  /** A queued name of a distinct listing ends up with the listed metadata and the
      names of its own index result. */
  lemma CommitReindexes(c: Cache, live: seq<RepoDescriptor>, results: seq<IndexResult>, i: nat, j: nat)
    requires DistinctNames(live)
    requires i < |live| && Changed(c, live[i])
    requires Echoes(results, Diff(c, live).toIndex)
    requires ResultsIn(Diff(c, live).cache, results)
    requires j < |results| && results[j].repoName == live[i].fullName
    requires Prune(Merge(Diff(c, live).cache, results), FullNames(c) - LiveNames(live)).Success?
    ensures live[i].fullName in Prune(Merge(Diff(c, live).cache, results), FullNames(c) - LiveNames(live)).value
    ensures Prune(Merge(Diff(c, live).cache, results), FullNames(c) - LiveNames(live)).value[live[i].fullName]
         == WithRefs(Meta(live[i]), results[j])
  {
    var st := Diff(c, live);
    DiffQueue(c, live);
    DiffRecords(c, live, i);
    QueueUnique(c, live);
    assert DistinctResults(results);
    MergeDistinct(st.cache, results, j);
  }

  /** A listed repository that is new or whose `updated_at` moved is queued; its
      record becomes the listed metadata with the tag and branch names of its own
      listings, in remote order; and it costs exactly one tag listing and one
      branch listing. */
  lemma SyncReindexes(c: Cache, live: seq<RepoDescriptor>, remote: Remote, i: nat)
    requires DistinctNames(live)
    requires i < |live| && Changed(c, live[i])
    requires Sync(c, live, remote).Success?
    ensures live[i].fullName in Sync(c, live, remote).value.toIndex
    ensures ListTags(remote, live[i].fullName).Success? && ListBranches(remote, live[i].fullName).Success?
    ensures live[i].fullName in Sync(c, live, remote).value.cache
    ensures Sync(c, live, remote).value.cache[live[i].fullName] == RepoRecord(
      live[i].name, live[i].fullName, live[i].updatedAt, live[i].cloneUrl,
      Some(Names(ListTags(remote, live[i].fullName).value.items)),
      Some(Names(ListBranches(remote, live[i].fullName).value.items)))
    ensures RequestsTo(Sync(c, live, remote).value.requests, TagsEndpoint(live[i].fullName))
         == ListTags(remote, live[i].fullName).value.requests
    ensures RequestsTo(Sync(c, live, remote).value.requests, BranchesEndpoint(live[i].fullName))
         == ListBranches(remote, live[i].fullName).value.requests
  {
    var n := live[i].fullName;
    var st := Diff(c, live);
    SyncShape(c, live, remote);
    BatchEchoes(c, live, remote);
    DiffQueue(c, live);
    QueueUnique(c, live);
    assert n in st.toIndex;
    var j :| 0 <= j < |st.toIndex| && st.toIndex[j] == n;
    var batch := IndexAll(remote, st.toIndex).value;
    assert batch.results[j] == IndexRepo(remote, n).value.result;
    CommitReindexes(c, live, batch.results, i, j);
    IndexAllRequests(remote, st.toIndex, n);
  }

  /** Every listed repository of a first run is queued in listing order. */
  lemma {:induction false} QueueFromNothing(live: seq<RepoDescriptor>)
    ensures |Queue(map[], live)| == |live|
    ensures forall i | 0 <= i < |live| :: Queue(map[], live)[i] == live[i].fullName
    decreases |live|
  {
    if live != [] {
      QueueFromNothing(live[..|live| - 1]);
    }
  }

  /** A successful pass is a successful listing followed by a successful
      synchronisation against it; the listing's requests come first. */
  lemma PassShape(c: Cache, remote: Remote)
    requires Pass(c, remote).Success?
    ensures ListRepos(remote, Organization).Success?
    ensures Sync(c, ListRepos(remote, Organization).value.items, remote).Success?
    ensures var o := Sync(c, ListRepos(remote, Organization).value.items, remote).value;
      && Pass(c, remote).value.cache == o.cache
      && Pass(c, remote).value.toIndex == o.toIndex
      && Pass(c, remote).value.requests == ListRepos(remote, Organization).value.requests + o.requests
  {
  }

  /** With distinct listed names, a repository cached with the listed `updated_at`
      is not queued, keeps its prior record, and costs no tag or branch request in
      the whole pass, the repository listing included. */
  lemma PassCarriesForward(c: Cache, remote: Remote, i: nat)
    requires Pass(c, remote).Success?
    requires DistinctNames(ListRepos(remote, Organization).value.items)
    requires i < |ListRepos(remote, Organization).value.items|
    requires !Changed(c, ListRepos(remote, Organization).value.items[i])
    ensures var n := ListRepos(remote, Organization).value.items[i].fullName;
      && n !in Pass(c, remote).value.toIndex
      && n in Pass(c, remote).value.cache
      && Pass(c, remote).value.cache[n] == c[n]
      && RequestsTo(Pass(c, remote).value.requests, TagsEndpoint(n)) == []
      && RequestsTo(Pass(c, remote).value.requests, BranchesEndpoint(n)) == []
  {
    var listing := ListRepos(remote, Organization).value;
    var n := listing.items[i].fullName;
    PassShape(c, remote);
    SyncCarriesForward(c, listing.items, remote, i);
    var o := Sync(c, listing.items, remote).value;
    ReposNotIndex(Organization, n);
    RequestsToNone(listing.requests, TagsEndpoint(n));
    RequestsToNone(listing.requests, BranchesEndpoint(n));
    RequestsToConcat(listing.requests, o.requests, TagsEndpoint(n));
    RequestsToConcat(listing.requests, o.requests, BranchesEndpoint(n));
  }

  /** An absent or empty stored value makes the run a pass over the empty document. */
  lemma RunFromNothing(stored: Option<Blob>, decode: Blob -> Result<Cache, Error>, remote: Remote)
    requires stored == None || stored == Some([])
    ensures Run(stored, decode, remote) == Pass(map[], remote)
  {
  }

  /** A run over an absent or empty stored value starts from the empty document:
      it queues every listed repository in listing order and saves exactly the
      listed repositories, each with its listed metadata and its own tag and
      branch names. */
  lemma FirstRun(stored: Option<Blob>, decode: Blob -> Result<Cache, Error>, remote: Remote, i: nat)
    requires stored == None || stored == Some([])
    requires Run(stored, decode, remote).Success?
    requires DistinctNames(ListRepos(remote, Organization).value.items)
    requires i < |ListRepos(remote, Organization).value.items|
    ensures Run(stored, decode, remote).value.toIndex
         == Queue(map[], ListRepos(remote, Organization).value.items)
    ensures |Run(stored, decode, remote).value.toIndex| == |ListRepos(remote, Organization).value.items|
    ensures Run(stored, decode, remote).value.toIndex[i] == ListRepos(remote, Organization).value.items[i].fullName
    ensures Run(stored, decode, remote).value.cache.Keys == LiveNames(ListRepos(remote, Organization).value.items)
    ensures var r := ListRepos(remote, Organization).value.items[i];
      && ListTags(remote, r.fullName).Success?
      && ListBranches(remote, r.fullName).Success?
      && Run(stored, decode, remote).value.cache[r.fullName] == RepoRecord(
        r.name, r.fullName, r.updatedAt, r.cloneUrl,
        Some(Names(ListTags(remote, r.fullName).value.items)),
        Some(Names(ListBranches(remote, r.fullName).value.items)))
  {
    var live := ListRepos(remote, Organization).value.items;
    RunFromNothing(stored, decode, remote);
    PassShape(map[], remote);
    DiffQueue(map[], live);
    QueueFromNothing(live);
    SyncShape(map[], live, remote);
    SyncConverges(map[], live, remote);
    SyncReindexes(map[], live, remote, i);
  }

  /** After a successful pass every listed repository's record carries the listed
      `updated_at`. */
  lemma SyncTimestamps(c: Cache, live: seq<RepoDescriptor>, remote: Remote, i: nat)
    requires DistinctNames(live)
    requires i < |live|
    requires Sync(c, live, remote).Success?
    ensures live[i].fullName in Sync(c, live, remote).value.cache
    ensures !Changed(Sync(c, live, remote).value.cache, live[i])
  {
    if Changed(c, live[i]) {
      SyncReindexes(c, live, remote, i);
    } else {
      SyncCarriesForward(c, live, remote, i);
    }
  }

  /** Nothing is queued when no listed repository changed. */
  lemma {:induction false} QueueNothingChanged(c: Cache, live: seq<RepoDescriptor>)
    requires forall i | 0 <= i < |live| :: !Changed(c, live[i])
    ensures Queue(c, live) == []
    decreases |live|
  {
    if live != [] {
      assert forall i | 0 <= i < |live| - 1 :: live[..|live| - 1][i] == live[i];
      QueueNothingChanged(c, live[..|live| - 1]);
    }
  }

  /** A diff in which nothing changed queues nothing and keeps the document, even
      when the listing names a repository more than once. */
  lemma {:induction false} DiffNothingChanged(c: Cache, live: seq<RepoDescriptor>)
    requires forall i | 0 <= i < |live| :: !Changed(c, live[i])
    ensures Diff(c, live) == DiffState(c, [], LiveNames(live))
    decreases |live|
  {
    if live != [] {
      assert forall i | 0 <= i < |live| - 1 :: live[..|live| - 1][i] == live[i];
      DiffNothingChanged(c, live[..|live| - 1]);
      LiveNamesSnoc(live);
    }
  }

  /** A pass over a document that already holds exactly the listed names, none of
      them changed, queues nothing, asks for nothing and keeps the document. */
  lemma SyncNothingChanged(c: Cache, live: seq<RepoDescriptor>, remote: Remote)
    requires WellKeyed(c) && c.Keys == LiveNames(live)
    requires forall i | 0 <= i < |live| :: !Changed(c, live[i])
    ensures Sync(c, live, remote) == Success(PassOutcome(c, [], []))
  {
    DiffNothingChanged(c, live);
    assert IndexAll(remote, []) == Success(Batch([], []));
    assert FullNames(c) - LiveNames(live) == {};
    assert Merge(c, []) == c;
    assert Prune(c, {}) == Success(c) by {
      assert c - {} == c;
    }
  }

  /** A document is settled against a listing when it holds exactly the listed
      names, each the key of its own record, with the listed timestamps. */
  predicate Settled(c: Cache, live: seq<RepoDescriptor>) {
    && WellKeyed(c)
    && c.Keys == LiveNames(live)
    && forall i | 0 <= i < |live| :: !Changed(c, live[i])
  }

  /** A successful pass over a well-keyed document leaves it settled against the
      listing it fetched. */
  lemma PassSettles(c: Cache, remote: Remote)
    requires WellKeyed(c)
    requires Pass(c, remote).Success?
    requires DistinctNames(ListRepos(remote, Organization).value.items)
    ensures Settled(Pass(c, remote).value.cache, ListRepos(remote, Organization).value.items)
  {
    var live := ListRepos(remote, Organization).value.items;
    PassShape(c, remote);
    SyncShape(c, live, remote);
    SyncConverges(c, live, remote);
    forall i | 0 <= i < |live|
      ensures !Changed(Sync(c, live, remote).value.cache, live[i])
    {
      SyncTimestamps(c, live, remote, i);
    }
  }

  /** A pass over a document settled against the current listing only lists. */
  lemma PassOverSettled(c: Cache, remote: Remote)
    requires ListRepos(remote, Organization).Success?
    requires Settled(c, ListRepos(remote, Organization).value.items)
    ensures Pass(c, remote) == Success(PassOutcome(c, [], ListRepos(remote, Organization).value.requests))
  {
    var listing := ListRepos(remote, Organization).value;
    SyncNothingChanged(c, listing.items, remote);
    assert listing.requests + [] == listing.requests;
  }

  /** Feeding a pass's document back in with the same remote queues nothing, makes
      no request beyond the repository listing, and saves the same document. */
  lemma PassIdempotent(c: Cache, remote: Remote)
    requires WellKeyed(c)
    requires Pass(c, remote).Success?
    requires DistinctNames(ListRepos(remote, Organization).value.items)
    ensures Pass(Pass(c, remote).value.cache, remote).Success?
    ensures Pass(Pass(c, remote).value.cache, remote).value.toIndex == []
    ensures Pass(Pass(c, remote).value.cache, remote).value.cache == Pass(c, remote).value.cache
    ensures Pass(Pass(c, remote).value.cache, remote).value.requests == ListRepos(remote, Organization).value.requests
  {
    PassSettles(c, remote);
    PassOverSettled(Pass(c, remote).value.cache, remote);
  }
}
