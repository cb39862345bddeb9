/** The ways one synchronisation pass can abort. Every error propagates to the
    pass boundary: nothing is saved and the previously stored document stays. */
module Errors {

  datatype Error =
      /** `raise_for_status` on a non-success answer to one page request */
    | RequestFailed(status: int, endpoint: string, page: nat)
      /** Popping stale names that are not keys of the working cache: a `KeyError`. */
    | KeyMissing(keys: set<string>)
      /** the stored document could not be decoded */
    | Malformed
}
