/** `GiteaClient`: the three paginated listings and `index_repo`, over a remote
    given as page sources per endpoint. */
module GiteaClient {
  import opened Wrappers
  import opened Errors
  import opened Pagination

  /** The fields of a repository descriptor that the synchroniser reads. */
  datatype RepoDescriptor = RepoDescriptor(name: string, fullName: string, updatedAt: string, cloneUrl: string)

  /** A tag or branch descriptor, of which only the name is read. */
  datatype NamedRef = NamedRef(name: string)

  /** The remote host: what each listing endpoint serves. */
  datatype Remote = Remote(
    repoPages: string -> PageSource<RepoDescriptor>,
    tagPages: string -> PageSource<NamedRef>,
    branchPages: string -> PageSource<NamedRef>)

  function ReposEndpoint(organization: string): string {
    "orgs/" + organization + "/repos"
  }

  function TagsEndpoint(repo: string): string {
    "repos/" + repo + "/tags"
  }

  function BranchesEndpoint(repo: string): string {
    "repos/" + repo + "/branches"
  }

  function ListRepos(remote: Remote, organization: string): Result<Listing<RepoDescriptor>, Error> {
    ListAllPages(ReposEndpoint(organization), remote.repoPages(organization))
  }

  function ListTags(remote: Remote, repo: string): Result<Listing<NamedRef>, Error> {
    ListAllPages(TagsEndpoint(repo), remote.tagPages(repo))
  }

  function ListBranches(remote: Remote, repo: string): Result<Listing<NamedRef>, Error> {
    ListAllPages(BranchesEndpoint(repo), remote.branchPages(repo))
  }

  /** The dict `index_repo` returns. */
  datatype IndexResult = IndexResult(repoName: string, tags: seq<NamedRef>, branches: seq<NamedRef>)

  /** An index result together with the requests made to obtain it. */
  datatype Indexed = Indexed(result: IndexResult, requests: seq<Request>)

  /** Every request is for `first`'s endpoint up to some point and for `second`'s
      from there on, with at least one of each. */
  predicate FirstThen(reqs: seq<Request>, first: string, second: string) {
    && (exists i | 0 < i < |reqs| :: reqs[i - 1].endpoint == first && reqs[i].endpoint == second)
    && (forall i | 0 <= i < |reqs| :: reqs[i].endpoint == first || reqs[i].endpoint == second)
    && (forall i, j | 0 <= i < j < |reqs| :: reqs[i].endpoint == second ==> reqs[j].endpoint == second)
  }

  /** `index_repo`: the tags of the repository, then its branches. */
  function IndexRepo(remote: Remote, repo: string): (r: Result<Indexed, Error>)
    ensures r.Success? <==> ListTags(remote, repo).Success? && ListBranches(remote, repo).Success?
    ensures ListTags(remote, repo).Failure? ==> r == Failure(ListTags(remote, repo).error)
    ensures r.Success? ==>
      && r.value.result.repoName == repo
      && r.value.result.tags == ListTags(remote, repo).value.items
      && r.value.result.branches == ListBranches(remote, repo).value.items
  {
    var tags :- ListTags(remote, repo);
    var branches :- ListBranches(remote, repo);
    Success(Indexed(IndexResult(repo, tags.items, branches.items), tags.requests + branches.requests))
  }

  /** `index_repo` asks for the tag pages first and only then for the branch pages,
      at least one of each, and for nothing else. */
  lemma IndexRepoOrder(remote: Remote, repo: string)
    requires IndexRepo(remote, repo).Success?
    ensures FirstThen(IndexRepo(remote, repo).value.requests, TagsEndpoint(repo), BranchesEndpoint(repo))
  {
    var tags, branches := ListTags(remote, repo).value, ListBranches(remote, repo).value;
    var reqs := IndexRepo(remote, repo).value.requests;
    assert reqs == tags.requests + branches.requests;
    assert reqs[|tags.requests| - 1].endpoint == TagsEndpoint(repo);
    assert reqs[|tags.requests|].endpoint == BranchesEndpoint(repo);
    TagsNotBranches(repo, repo);
  }

  /** All results of a fan-out, in queue order, and all requests made for them. */
  datatype Batch = Batch(results: seq<IndexResult>, requests: seq<Request>)

  /** The endpoints that indexing the repositories in `names` asks for. */
  function IndexEndpoints(names: seq<string>): set<string> {
    (set n | n in names :: TagsEndpoint(n)) + (set n | n in names :: BranchesEndpoint(n))
  }

  /** `asyncio.gather` over `index_repo` for every queued name: the results come back
      in queue order, and one failure fails the whole batch. */
  function IndexAll(remote: Remote, names: seq<string>): (r: Result<Batch, Error>)
    ensures r.Success? <==> forall i | 0 <= i < |names| :: IndexRepo(remote, names[i]).Success?
    ensures r.Success? ==>
      && |r.value.results| == |names|
      && (forall i | 0 <= i < |names| :: r.value.results[i] == IndexRepo(remote, names[i]).value.result)
  {
    if names == [] then Success(Batch([], []))
    else
      var first :- IndexRepo(remote, names[0]);
      var rest :- IndexAll(remote, names[1..]);
      Success(Batch([first.result] + rest.results, first.requests + rest.requests))
  }

  /** A batch asks only for the tag and branch endpoints of the queued names. */
  lemma {:induction false} IndexAllEndpoints(remote: Remote, names: seq<string>)
    requires IndexAll(remote, names).Success?
    ensures forall j | 0 <= j < |IndexAll(remote, names).value.requests| ::
      IndexAll(remote, names).value.requests[j].endpoint in IndexEndpoints(names)
  {
    if names != [] {
      var first := IndexRepo(remote, names[0]).value;
      var rest := IndexAll(remote, names[1..]).value;
      var reqs := IndexAll(remote, names).value.requests;
      assert reqs == first.requests + rest.requests;
      IndexRepoOrder(remote, names[0]);
      IndexAllEndpoints(remote, names[1..]);
      IndexEndpointsCons(names);
      ConcatWithin(first.requests, rest.requests, IndexEndpoints(names));
    }
  }

  /** Every request of `a` and of `b` is for an endpoint in `es`, hence every
      request of both in turn. */
  lemma ConcatWithin(a: seq<Request>, b: seq<Request>, es: set<string>)
    requires forall j | 0 <= j < |a| :: a[j].endpoint in es
    requires forall j | 0 <= j < |b| :: b[j].endpoint in es
    ensures forall j | 0 <= j < |a + b| :: (a + b)[j].endpoint in es
  {
    forall j | |a| <= j < |a + b|
      ensures (a + b)[j].endpoint in es
    {
      assert (a + b)[j] == b[j - |a|];
    }
  }

  /** The endpoints of a queue are those of its head and those of its tail. */
  lemma IndexEndpointsCons(names: seq<string>)
    requires names != []
    ensures TagsEndpoint(names[0]) in IndexEndpoints(names)
    ensures BranchesEndpoint(names[0]) in IndexEndpoints(names)
    ensures IndexEndpoints(names[1..]) <= IndexEndpoints(names)
  {
    assert names[0] in names;
    forall n | n in names[1..]
      ensures n in names
    {
    }
  }

  /** Different repositories have different tag endpoints. */
  lemma TagsEndpointInjective(a: string, b: string)
    requires TagsEndpoint(a) == TagsEndpoint(b)
    ensures a == b
  {
    var e := TagsEndpoint(a);
    assert a == e[6..|e| - 5];
    assert b == TagsEndpoint(b)[6..|e| - 5];
  }

  /** Different repositories have different branch endpoints. */
  lemma BranchesEndpointInjective(a: string, b: string)
    requires BranchesEndpoint(a) == BranchesEndpoint(b)
    ensures a == b
  {
    var e := BranchesEndpoint(a);
    assert a == e[6..|e| - 9];
    assert b == BranchesEndpoint(b)[6..|e| - 9];
  }

  /** No tag endpoint is a branch endpoint. */
  lemma TagsNotBranches(a: string, b: string)
    ensures TagsEndpoint(a) != BranchesEndpoint(b)
  {
    var t, br := TagsEndpoint(a), BranchesEndpoint(b);
    assert t[|t| - 2] == 'g';
    assert br[|br| - 2] == 'e';
  }

  /** No repository listing endpoint is a tag or branch endpoint. */
  lemma ReposNotIndex(org: string, repo: string)
    ensures ReposEndpoint(org) != TagsEndpoint(repo)
    ensures ReposEndpoint(org) != BranchesEndpoint(repo)
  {
    assert ReposEndpoint(org)[0] == 'o';
    assert TagsEndpoint(repo)[0] == 'r';
    assert BranchesEndpoint(repo)[0] == 'r';
  }
}
