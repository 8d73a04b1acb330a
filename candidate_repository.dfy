/**
 The `CandidateRepository` interface: five operations on a store of
 candidates keyed by id. Each operation's promise is stated as a predicate
 over the store as it was before the call, the store as it is after, and
 what the call returned; an implementation meets the interface when every
 one of its steps satisfies the matching predicate.
 */
module CandidateRepository {
  import opened Model

  /** The store as the interface's callers see it. */
  type Store = map<Int32, Candidate>

  /** `save` returns the candidate that is now stored under its id. */
  ghost predicate SavePromise(after: Store, r: Candidate)
  {
    r.id in after && after[r.id] == r
  }

  /**
   `deleteById` answers with a boolean instead of throwing: true exactly
   when a candidate with that id was present, and afterwards there is none.
   */
  ghost predicate DeleteByIdPromise(before: Store, after: Store, id: Int32, removed: bool)
  {
    removed == (id in before) && id !in after
  }

  /**
   `update` answers with a boolean: false exactly when no candidate with
   the argument's id is present, and then the store is untouched; the set
   of ids is never changed.
   */
  ghost predicate UpdatePromise(before: Store, after: Store, c: Candidate, ok: bool)
  {
    && ok == (c.id in before)
    && (!ok ==> after == before)
    && after.Keys == before.Keys
  }

  /** `findById` expresses absence as an empty optional. */
  ghost predicate FindByIdPromise(store: Store, id: Int32, r: Option<Candidate>)
  {
    && (r.None? <==> id !in store)
    && (r.Some? ==> id in store && r.value == store[id])
  }

  /** `findAll` returns the stored candidates. */
  ghost predicate FindAllPromise(store: Store, r: set<Candidate>)
  {
    r == store.Values
  }
}
