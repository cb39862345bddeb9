/** The cache document and its store: `load_redis_cache` / `save_redis_cache`.
    The key-value store and the JSON codec are outside the model; the stored value
    is an `Option` of bytes and the codec is a pair of function parameters. */
module CacheStore {
  import opened Wrappers
  import opened Errors

  /** One cached repository. `tags` and `branches` are `None` while the record holds
      only the four metadata keys, between the diff and the merge of a pass. */
  datatype RepoRecord = RepoRecord(
    name: string,
    fullName: string,
    updatedAt: string,
    cloneUrl: string,
    tags: Option<seq<string>>,
    branches: Option<seq<string>>)

  /** The cache document: full name to record. */
  type Cache = map<string, RepoRecord>

  type Blob = seq<bv8>

  /** Every key is the full name of its own record. */
  predicate WellKeyed(c: Cache) {
    forall k | k in c :: c[k].fullName == k
  }

  /** The set of full names the records carry (read from the values, not the
      keys), which is the key set when the document is well keyed. */
  function FullNames(c: Cache): (s: set<string>)
    ensures forall k | k in c :: c[k].fullName in s
    ensures forall n | n in s :: exists k | k in c :: c[k].fullName == n
    ensures WellKeyed(c) ==> s == c.Keys
  {
    set k | k in c :: c[k].fullName
  }

  /** `load_redis_cache`: an absent value and an empty value both read as the empty
      document; anything else goes to the decoder, whose failure is the pass's. */
  function LoadCache(stored: Option<Blob>, decode: Blob -> Result<Cache, Error>): (r: Result<Cache, Error>)
    ensures stored == None ==> r == Success(map[])
    ensures stored == Some([]) ==> r == Success(map[])
    ensures stored.Some? && stored.value != [] ==> r == decode(stored.value)
  {
    match stored
    case None => Success(map[])
    case Some(bytes) => if bytes == [] then Success(map[]) else decode(bytes)
  }

  /** `save_redis_cache`: the store afterwards holds the encoded document. */
  function SaveCache(c: Cache, encode: Cache -> Blob): Option<Blob> {
    Some(encode(c))
  }

  /** The empty-value guard of the load never intercepts a saved document: given a
      codec that round-trips it and never encodes to nothing (JSON text is never
      empty), a saved document loads back as itself. */
  lemma SaveThenLoad(c: Cache, encode: Cache -> Blob, decode: Blob -> Result<Cache, Error>)
    requires encode(c) != []
    requires decode(encode(c)) == Success(c)
    ensures LoadCache(SaveCache(c, encode), decode) == Success(c)
  {
  }
}
